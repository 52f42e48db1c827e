/** FIFOConnection: messages sent to and read from a named pipe, as a byte stream that lives while it is held open. */
module Fifo {
  import opened Text

  /** The size of the read buffer, and the longest message; no more than PIPE_BUF, so writes are atomic. */
  const MAX_MESSAGE_LEN: nat := 512

  function Flat(parts: seq<string>): string {
    if parts == [] then "" else Flat(parts[..|parts| - 1]) + parts[|parts| - 1]
  }

  lemma FlatSnoc(parts: seq<string>, p: string)
    ensures Flat(parts + [p]) == Flat(parts) + p
  {
    assert (parts + [p])[..|parts|] == parts;
  }

  lemma FlatSingle(p: string)
    ensures Flat([p]) == p
  {
    FlatSnoc([], p);
    assert [] + [p] == [p] && "" + p == p;
  }

  // ----- all interleavings of writers and readers -----

  /** What a descriptor is open for. */
  datatype Access = Access(canRead: bool, canWrite: bool)

  const READ_ONLY := Access(true, false)
  const WRITE_ONLY := Access(false, true)
  const READ_WRITE := Access(true, true)

  /** Some process opens the FIFO, sends a whole message, takes the first count bytes, or closes a descriptor. */
  datatype Event =
    | Opens(id: nat, access: Access)
    | Sends(id: nat, message: string)
    | Reads(id: nat, count: nat)
    | Closes(id: nat)

  /** How bytes leave the FIFO: a read takes them, or the last close discards them. */
  datatype Piece = Taken(bytes: string) | Discarded(bytes: string)

  /** The open descriptors, what is in the FIFO, the messages sent, and the pieces that have left it, in order. */
  datatype State = State(holders: map<nat, Access>, content: string, sent: seq<string>, gone: seq<Piece>)

  const EMPTY := State(map[], "", [], [])

  predicate Acceptable(message: string) {
    1 <= |message| <= MAX_MESSAGE_LEN
  }

  predicate HasReader(s: State) {
    exists i :: i in s.holders && s.holders[i].canRead
  }

  /** A write needs somebody who could read: without one it fails. */
  predicate Enabled(s: State, e: Event) {
    match e
    case Opens(i, _) => i !in s.holders
    case Sends(i, m) => i in s.holders && s.holders[i].canWrite && HasReader(s) && Acceptable(m)
    case Reads(i, n) => i in s.holders && s.holders[i].canRead && 1 <= n <= MAX_MESSAGE_LEN - 1 && n <= |s.content|
    case Closes(i) => i in s.holders
  }

  /** The event closes the last descriptor. */
  predicate IsLastClose(s: State, e: Event) {
    e.Closes? && s.holders - {e.id} == map[]
  }

  /** The last close discards what is left. */
  function Apply(s: State, e: Event): State
    requires Enabled(s, e)
  {
    match e
    case Opens(i, access) => s.(holders := s.holders[i := access])
    case Sends(_, m) => s.(content := s.content + m, sent := s.sent + [m])
    case Reads(_, n) => s.(content := s.content[n..], gone := s.gone + [Taken(s.content[..n])])
    case Closes(i) =>
      if IsLastClose(s, e) then s.(holders := map[], content := "", gone := s.gone + [Discarded(s.content)])
      else s.(holders := s.holders - {i})
  }

  ghost predicate IsRun(s: State, es: seq<Event>)
    decreases |es|, 0
  {
    es == [] || (IsRun(s, es[..|es| - 1]) && Enabled(After(s, es[..|es| - 1]), es[|es| - 1]))
  }

  ghost function After(s: State, es: seq<Event>): State
    requires IsRun(s, es)
    decreases |es|, 1
  {
    if es == [] then s else Apply(After(s, es[..|es| - 1]), es[|es| - 1])
  }

  lemma RunSnoc(s: State, es: seq<Event>, e: Event)
    requires IsRun(s, es) && Enabled(After(s, es), e)
    ensures IsRun(s, es + [e]) && After(s, es + [e]) == Apply(After(s, es), e)
  {
    assert (es + [e])[..|es|] == es;
  }

  // ----- what has left the FIFO -----

  ghost function Bytes(gone: seq<Piece>): string {
    if gone == [] then "" else Bytes(gone[..|gone| - 1]) + gone[|gone| - 1].bytes
  }

  ghost function TakenParts(gone: seq<Piece>): seq<string> {
    if gone == [] then []
    else
      var p := gone[|gone| - 1];
      TakenParts(gone[..|gone| - 1]) + if p.Taken? then [p.bytes] else []
  }

  ghost function Discards(gone: seq<Piece>): seq<string> {
    if gone == [] then []
    else
      var p := gone[|gone| - 1];
      Discards(gone[..|gone| - 1]) + if p.Discarded? then [p.bytes] else []
  }

  /** What the readers were given: each read returns what it took as a C string. */
  ghost function Returned(gone: seq<Piece>): (r: seq<string>)
    ensures |r| == |TakenParts(gone)|
    ensures forall i :: 0 <= i < |r| ==> r[i] == CStr(TakenParts(gone)[i])
  {
    if gone == [] then []
    else
      var p := gone[|gone| - 1];
      Returned(gone[..|gone| - 1]) + if p.Taken? then [CStr(p.bytes)] else []
  }

  lemma TakenSnoc(gone: seq<Piece>, bytes: string)
    ensures var more := gone + [Taken(bytes)];
            && Bytes(more) == Bytes(gone) + bytes && TakenParts(more) == TakenParts(gone) + [bytes]
            && Discards(more) == Discards(gone) && Returned(more) == Returned(gone) + [CStr(bytes)]
  {
    assert (gone + [Taken(bytes)])[..|gone|] == gone;
  }

  lemma DiscardedSnoc(gone: seq<Piece>, bytes: string)
    ensures var more := gone + [Discarded(bytes)];
            && Bytes(more) == Bytes(gone) + bytes && TakenParts(more) == TakenParts(gone)
            && Discards(more) == Discards(gone) + [bytes] && Returned(more) == Returned(gone)
  {
    assert (gone + [Discarded(bytes)])[..|gone|] == gone;
  }

  /** Nothing but taken bytes exactly if nothing was discarded. */
  lemma {:induction false} TakenAndDiscarded(gone: seq<Piece>)
    ensures |Bytes(gone)| == |Flat(TakenParts(gone))| + |Flat(Discards(gone))|
    ensures Flat(Discards(gone)) == "" ==> Bytes(gone) == Flat(TakenParts(gone))
  {
    if gone != [] {
      var init, p := gone[..|gone| - 1], gone[|gone| - 1];
      TakenAndDiscarded(init);
      FlatSnoc(TakenParts(init), p.bytes);
      FlatSnoc(Discards(init), p.bytes);
      assert TakenParts(init) + [] == TakenParts(init) && Discards(init) + [] == Discards(init);
    }
  }

  lemma CStrWhole(t: string)
    ensures |CStr(t)| <= |t| && (|CStr(t)| == |t| <==> NUL !in t) && (NUL !in t ==> CStr(t) == t)
  {
    if |CStr(t)| == |t| {
      assert CStr(t) == t;
    }
  }

  ghost predicate NoNul(parts: seq<string>) {
    forall t :: t in parts ==> NUL !in t
  }

  lemma NoNulLast(init: seq<string>, last: string)
    ensures NoNul(init + [last]) <==> NoNul(init) && NUL !in last
  {
    assert last in init + [last] && forall t :: t in init ==> t in init + [last];
  }

  /** What the C strings of some pieces lack, and when they lack nothing. */
  ghost predicate CStrsCompare(taken: seq<string>, returned: seq<string>) {
    && |Flat(returned)| <= |Flat(taken)|
    && (|Flat(returned)| == |Flat(taken)| <==> NoNul(taken))
    && (NoNul(taken) ==> returned == taken)
  }

  lemma OneMoreCStr(taken: seq<string>, returned: seq<string>, last: string)
    requires CStrsCompare(taken, returned)
    ensures CStrsCompare(taken + [last], returned + [CStr(last)])
  {
    CStrWhole(last);
    NoNulLast(taken, last);
    FlatSnoc(taken, last);
    FlatSnoc(returned, CStr(last));
  }

  lemma {:induction false} ReturnedCompare(gone: seq<Piece>)
    ensures CStrsCompare(TakenParts(gone), Returned(gone))
  {
    if gone != [] {
      var init, p := gone[..|gone| - 1], gone[|gone| - 1];
      ReturnedCompare(init);
      if p.Taken? {
        OneMoreCStr(TakenParts(init), Returned(init), p.bytes);
      } else {
        assert TakenParts(init) + [] == TakenParts(init) && Returned(init) + [] == Returned(init);
      }
    }
  }

  // ----- what a run records -----

  /** The messages that the sends of a run were given. */
  ghost function Messages(es: seq<Event>): seq<string> {
    if es == [] then []
    else
      var e := es[|es| - 1];
      Messages(es[..|es| - 1]) + if e.Sends? then [e.message] else []
  }

  /** How many bytes its reads took. */
  ghost function Counts(es: seq<Event>): seq<nat> {
    if es == [] then []
    else
      var e := es[|es| - 1];
      Counts(es[..|es| - 1]) + if e.Reads? then [e.count] else []
  }

  ghost function Lengths(parts: seq<string>): seq<nat> {
    if parts == [] then [] else Lengths(parts[..|parts| - 1]) + [|parts[|parts| - 1]|]
  }

  /** What is recorded as sent are the messages that were given to the sends, and the taken parts have the
      lengths of the reads. */
  lemma {:induction false} RunRecords(es: seq<Event>)
    requires IsRun(EMPTY, es)
    ensures After(EMPTY, es).sent == Messages(es)
    ensures Lengths(TakenParts(After(EMPTY, es).gone)) == Counts(es)
    decreases |es|
  {
    if es != [] {
      var x, e := After(EMPTY, es[..|es| - 1]), es[|es| - 1];
      RunRecords(es[..|es| - 1]);
      RecordStep(x, e);
      assert Messages(es[..|es| - 1]) + [] == Messages(es[..|es| - 1]);
      assert Counts(es[..|es| - 1]) + [] == Counts(es[..|es| - 1]);
    }
  }

  lemma RecordStep(x: State, e: Event)
    requires Enabled(x, e)
    ensures Apply(x, e).sent == if e.Sends? then x.sent + [e.message] else x.sent
    ensures var lengths := Lengths(TakenParts(x.gone));
            Lengths(TakenParts(Apply(x, e).gone)) == if e.Reads? then lengths + [e.count] else lengths
  {
    match e
    case Reads(_, n) =>
      TakenSnoc(x.gone, x.content[..n]);
      assert (TakenParts(x.gone) + [x.content[..n]])[..|TakenParts(x.gone)|] == TakenParts(x.gone);
    case Closes(_) => DiscardedSnoc(x.gone, x.content);
    case _ =>
  }

  // ----- conservation -----

  /** The pieces that have left and what is there are what was sent, in order; nothing is there unless somebody
      holds the FIFO open; and a read took at least one byte and left room for a NUL in the buffer. */
  ghost predicate Conserved(s: State) {
    && Bytes(s.gone) + s.content == Flat(s.sent)
    && (s.holders == map[] ==> s.content == "")
    && forall t :: t in TakenParts(s.gone) ==> 1 <= |t| < MAX_MESSAGE_LEN
  }

  lemma SendConserves(gone: string, content: string, sent: seq<string>, m: string)
    requires gone + content == Flat(sent)
    ensures gone + (content + m) == Flat(sent + [m])
  {
    FlatSnoc(sent, m);
    assert gone + (content + m) == gone + content + m;
  }

  lemma PieceConserves(gone: string, content: string, n: nat)
    requires n <= |content|
    ensures gone + content[..n] + content[n..] == gone + content
  {}

  lemma ReadConserves(s: State, i: nat, n: nat)
    requires Conserved(s) && Enabled(s, Reads(i, n))
    ensures Conserved(Apply(s, Reads(i, n)))
  {
    PieceConserves(Bytes(s.gone), s.content, n);
    TakenSnoc(s.gone, s.content[..n]);
  }

  lemma LastCloseConserves(s: State, t: State)
    requires Conserved(s) && t.sent == s.sent && t.content == "" && t.gone == s.gone + [Discarded(s.content)]
    ensures Conserved(t)
  {
    DiscardedSnoc(s.gone, s.content);
    assert Bytes(s.gone) + s.content + "" == Bytes(s.gone) + s.content;
  }

  lemma CloseConserves(s: State, i: nat)
    requires Conserved(s) && Enabled(s, Closes(i))
    ensures Conserved(Apply(s, Closes(i)))
  {
    if IsLastClose(s, Closes(i)) {
      LastCloseConserves(s, Apply(s, Closes(i)));
    }
  }

  lemma StepConserves(s: State, e: Event)
    requires Conserved(s) && Enabled(s, e)
    ensures Conserved(Apply(s, e))
  {
    match e
    case Opens(_, _) =>
    case Sends(_, m) => SendConserves(Bytes(s.gone), s.content, s.sent, m);
    case Reads(i, n) => ReadConserves(s, i, n);
    case Closes(i) => CloseConserves(s, i);
  }

  lemma {:induction false} RunConserves(s: State, es: seq<Event>)
    requires Conserved(s) && IsRun(s, es)
    ensures Conserved(After(s, es))
    decreases |es|
  {
    if es != [] {
      RunConserves(s, es[..|es| - 1]);
      StepConserves(After(s, es[..|es| - 1]), es[|es| - 1]);
    }
  }

  /** Whenever the last descriptor is closed, there is nothing left to read. */
  ghost predicate LastClosesEmpty(s: State, es: seq<Event>)
    requires IsRun(s, es)
    decreases |es|
  {
    es == [] ||
    var x, e := After(s, es[..|es| - 1]), es[|es| - 1];
    LastClosesEmpty(s, es[..|es| - 1]) && (IsLastClose(x, e) ==> x.content == "")
  }

  lemma {:induction false} DiscardsExact(s: State, es: seq<Event>)
    requires IsRun(s, es) && Flat(Discards(s.gone)) == ""
    ensures Flat(Discards(After(s, es).gone)) == "" <==> LastClosesEmpty(s, es)
    decreases |es|
  {
    if es != [] {
      var x, e := After(s, es[..|es| - 1]), es[|es| - 1];
      DiscardsExact(s, es[..|es| - 1]);
      DiscardStep(x, e);
    }
  }

  lemma DiscardStep(x: State, e: Event)
    requires Enabled(x, e)
    ensures Flat(Discards(Apply(x, e).gone)) ==
            if IsLastClose(x, e) then Flat(Discards(x.gone)) + x.content else Flat(Discards(x.gone))
  {
    match e
    case Reads(_, n) => TakenSnoc(x.gone, x.content[..n]);
    case Closes(_) =>
      DiscardedSnoc(x.gone, x.content);
      FlatSnoc(Discards(x.gone), x.content);
    case _ =>
  }

  /** Over every interleaving of opens, sends, reads and closes: what was taken and what was discarded, in order,
      and what is still there are the messages sent, whole and in the order of the sends. The readers are given
      all of it exactly if every last close meets an empty FIFO and no NUL was taken. */
  lemma FifoConserves(es: seq<Event>)
    requires IsRun(EMPTY, es)
    ensures var s := After(EMPTY, es);
            && Bytes(s.gone) + s.content == Flat(s.sent)
            && (s.holders == map[] ==> s.content == "")
            && (Flat(Returned(s.gone)) + s.content == Flat(s.sent) <==>
                LastClosesEmpty(EMPTY, es) && NoNul(TakenParts(s.gone)))
  {
    RunConserves(EMPTY, es);
    DiscardsExact(EMPTY, es);
    var s := After(EMPTY, es);
    var taken, returned := TakenParts(s.gone), Returned(s.gone);
    TakenAndDiscarded(s.gone);
    ReturnedCompare(s.gone);
    if Flat(returned) + s.content == Flat(s.sent) {
      assert |Flat(returned) + s.content| == |Bytes(s.gone) + s.content|;
    }
  }

  /** A descriptor that is opened first and never closed keeps everything. */
  lemma {:induction false} KeptOpen(es: seq<Event>, i: nat)
    requires IsRun(EMPTY, es) && es != [] && es[0].Opens? && es[0].id == i && Closes(i) !in es
    ensures LastClosesEmpty(EMPTY, es) && i in After(EMPTY, es).holders
    decreases |es|
  {
    var init := es[..|es| - 1];
    if init == [] {
      assert After(EMPTY, init) == EMPTY;
    } else {
      assert es[|es| - 1] in es && forall e :: e in init ==> e in es;
      KeptOpen(init, i);
      var x, e := After(EMPTY, init), es[|es| - 1];
      if e.Closes? {
        assert e.id != i;
        assert i in x.holders - {e.id};
      }
    }
  }

  lemma {:induction false} FlatLength(parts: seq<string>)
    requires forall t :: t in parts ==> |t| < MAX_MESSAGE_LEN
    ensures |Flat(parts)| <= (MAX_MESSAGE_LEN - 1) * |parts|
  {
    if parts != [] {
      var init := parts[..|parts| - 1];
      assert parts[|parts| - 1] in parts && forall t :: t in init ==> t in parts;
      FlatLength(init);
    }
  }

  /** Once nobody holds the FIFO, more bytes sent than 511 for each read means that some were discarded. */
  lemma MoreSentThanRead(es: seq<Event>)
    requires IsRun(EMPTY, es) && After(EMPTY, es).holders == map[]
    requires var s := After(EMPTY, es); |Flat(s.sent)| > (MAX_MESSAGE_LEN - 1) * |TakenParts(s.gone)|
    ensures !LastClosesEmpty(EMPTY, es)
  {
    var s := After(EMPTY, es);
    RunConserves(EMPTY, es);
    DiscardsExact(EMPTY, es);
    TakenAndDiscarded(s.gone);
    FlatLength(TakenParts(s.gone));
  }

  // ----- one send_message and one read_message -----

  /** While at most one message has been sent, nothing is taken after something was discarded. */
  ghost predicate SingleFile(s: State) {
    && Flat(TakenParts(s.gone)) + Flat(Discards(s.gone)) + s.content == Flat(s.sent)
    && (Flat(Discards(s.gone)) != "" ==> s.content == "")
  }

  lemma SingleSend(x: State, i: nat, m: string)
    requires SingleFile(x) && Enabled(x, Sends(i, m)) && x.sent == []
    ensures SingleFile(Apply(x, Sends(i, m)))
  {
    FlatSingle(m);
    assert [] + [m] == [m];
    assert |Flat(TakenParts(x.gone)) + Flat(Discards(x.gone)) + x.content| == 0;
    assert Flat(TakenParts(x.gone)) == "" == Flat(Discards(x.gone));
    assert "" + "" + ("" + m) == "" + m;
  }

  lemma TakeMoves(taken: string, content: string, n: nat)
    requires n <= |content|
    ensures taken + content[..n] + "" + content[n..] == taken + "" + content
  {}

  lemma SingleRead(x: State, i: nat, n: nat)
    requires SingleFile(x) && Enabled(x, Reads(i, n))
    ensures SingleFile(Apply(x, Reads(i, n)))
  {
    TakenSnoc(x.gone, x.content[..n]);
    FlatSnoc(TakenParts(x.gone), x.content[..n]);
    TakeMoves(Flat(TakenParts(x.gone)), x.content, n);
  }

  lemma DiscardMoves(taken: string, lost: string, content: string)
    requires lost != "" ==> content == ""
    ensures taken + (lost + content) + "" == taken + lost + content
  {}

  lemma SingleLastClose(x: State, y: State)
    requires SingleFile(x) && y.sent == x.sent && y.content == "" && y.gone == x.gone + [Discarded(x.content)]
    ensures SingleFile(y)
  {
    DiscardedSnoc(x.gone, x.content);
    FlatSnoc(Discards(x.gone), x.content);
    DiscardMoves(Flat(TakenParts(x.gone)), Flat(Discards(x.gone)), x.content);
  }

  lemma SingleClose(x: State, i: nat)
    requires SingleFile(x) && Enabled(x, Closes(i))
    ensures SingleFile(Apply(x, Closes(i)))
  {
    if IsLastClose(x, Closes(i)) {
      SingleLastClose(x, Apply(x, Closes(i)));
    }
  }

  lemma SingleFileStep(x: State, e: Event)
    requires SingleFile(x) && Enabled(x, e) && |Apply(x, e).sent| <= 1
    ensures SingleFile(Apply(x, e))
  {
    match e
    case Opens(_, _) =>
    case Sends(i, m) => SingleSend(x, i, m);
    case Reads(i, n) => SingleRead(x, i, n);
    case Closes(i) => SingleClose(x, i);
  }

  lemma {:induction false} SingleFileRun(es: seq<Event>)
    requires IsRun(EMPTY, es) && |After(EMPTY, es).sent| <= 1
    ensures SingleFile(After(EMPTY, es))
    decreases |es|
  {
    if es != [] {
      SingleFileRun(es[..|es| - 1]);
      SingleFileStep(After(EMPTY, es[..|es| - 1]), es[|es| - 1]);
    }
  }

  /** One message and one read, in whatever order descriptors are opened and closed, until nobody holds the FIFO:
      the read took a first part of the message and the rest is discarded. So the message arrives exactly if
      that part is all of it, which 512 bytes never are, and it has no NUL. */
  lemma MessageExchange(es: seq<Event>, m: string, t: string)
    requires IsRun(EMPTY, es) && After(EMPTY, es).holders == map[]
    requires After(EMPTY, es).sent == [m] && TakenParts(After(EMPTY, es).gone) == [t]
    ensures var gone := After(EMPTY, es).gone;
            && t + Flat(Discards(gone)) == m && 1 <= |t| < MAX_MESSAGE_LEN
            && (Returned(gone) == [m] <==> t == m && NUL !in m)
            && (LastClosesEmpty(EMPTY, es) <==> t == m)
  {
    var gone := After(EMPTY, es).gone;
    RunConserves(EMPTY, es);
    SingleFileRun(es);
    DiscardsExact(EMPTY, es);
    FlatSingle(t);
    FlatSingle(m);
    assert t in TakenParts(gone);
    OnePart(m, t, Flat(Discards(gone)), Returned(gone));
  }

  lemma OnePart(m: string, t: string, lost: string, returned: seq<string>)
    requires t + lost + "" == m && |returned| == 1 && returned[0] == CStr(t)
    ensures t + lost == m && (lost == "" <==> t == m)
    ensures returned == [m] <==> t == m && NUL !in m
  {
    assert t + lost + "" == t + lost && t + "" == t;
    assert |CStr(t)| == |t| ==> CStr(t) == t;
  }

  // ----- messages that are lost although sending them succeeded -----

  ghost predicate Leads(es: seq<Event>, s: State) {
    IsRun(EMPTY, es) && After(EMPTY, es) == s
  }

  lemma LeadsOn(es: seq<Event>, s: State, e: Event, next: State)
    requires Leads(es, s) && Enabled(s, e) && Apply(s, e) == next
    ensures Leads(es + [e], next)
  {
    RunSnoc(EMPTY, es, e);
  }

  /** Opening for both, sending and closing loses the message. */
  lemma CloseLosesMessage(m: string)
    requires Acceptable(m)
    ensures Leads([Opens(0, READ_WRITE), Sends(0, m), Closes(0)], State(map[], "", [m], [Discarded(m)]))
  {
    var open := State(map[0 := READ_WRITE], "", [], []);
    assert open.holders[0].canRead && "" + m == m;
    LeadsOn([], EMPTY, Opens(0, READ_WRITE), open);
    LeadsOn([] + [Opens(0, READ_WRITE)], open, Sends(0, m), State(open.holders, m, [m], []));
    assert open.holders - {0} == map[];
    LeadsOn([] + [Opens(0, READ_WRITE)] + [Sends(0, m)], State(open.holders, m, [m], []), Closes(0),
            State(map[], "", [m], [Discarded(m)]));
    assert [] + [Opens(0, READ_WRITE)] + [Sends(0, m)] + [Closes(0)] == [Opens(0, READ_WRITE), Sends(0, m), Closes(0)];
  }

  const READER: map<nat, Access> := map[0 := READ_ONLY]

  /** One send_message while a read_message has the FIFO open. */
  function SendTo(w: nat, m: string): seq<Event> {
    [Opens(w, WRITE_ONLY), Sends(w, m), Closes(w)]
  }

  /** A writer that comes and goes while the reader stays leaves its message. */
  lemma MessageSent(es: seq<Event>, s: State, w: nat, m: string)
    requires Leads(es, s) && s.holders == READER && w != 0 && Acceptable(m)
    ensures Leads(es + SendTo(w, m), s.(content := s.content + m, sent := s.sent + [m]))
  {
    MessageWritten(es, s, w, m);
    var written := s.(holders := READER[w := WRITE_ONLY], content := s.content + m, sent := s.sent + [m]);
    assert READER[w := WRITE_ONLY] - {w} == READER && 0 in READER;
    LeadsOn(es + [Opens(w, WRITE_ONLY)] + [Sends(w, m)], written, Closes(w), written.(holders := READER));
    assert es + [Opens(w, WRITE_ONLY)] + [Sends(w, m)] + [Closes(w)] == es + SendTo(w, m);
  }

  lemma MessageWritten(es: seq<Event>, s: State, w: nat, m: string)
    requires Leads(es, s) && s.holders == READER && w != 0 && Acceptable(m)
    ensures Leads(es + [Opens(w, WRITE_ONLY)] + [Sends(w, m)],
                  s.(holders := READER[w := WRITE_ONLY], content := s.content + m, sent := s.sent + [m]))
  {
    var open := s.(holders := READER[w := WRITE_ONLY]);
    assert open.holders[0].canRead;
    LeadsOn(es, s, Opens(w, WRITE_ONLY), open);
    LeadsOn(es + [Opens(w, WRITE_ONLY)], open, Sends(w, m),
            open.(content := s.content + m, sent := s.sent + [m]));
  }

  /** One send_message, of which a read_message that is still open takes the first n bytes. */
  lemma FirstMessageTaken(m: string, n: nat)
    requires Acceptable(m) && 1 <= n <= |m| && n < MAX_MESSAGE_LEN
    ensures Leads([Opens(0, READ_ONLY)] + SendTo(1, m) + [Reads(0, n)],
                  State(READER, m[n..], [m], [Taken(m[..n])]))
  {
    LeadsOn([], EMPTY, Opens(0, READ_ONLY), State(READER, "", [], []));
    assert [] + [Opens(0, READ_ONLY)] == [Opens(0, READ_ONLY)];
    MessageSent([Opens(0, READ_ONLY)], State(READER, "", [], []), 1, m);
    assert "" + m == m && [] + [m] == [m];
    LeadsOn([Opens(0, READ_ONLY)] + SendTo(1, m), State(READER, m, [m], []), Reads(0, n),
            State(READER, m[n..], [m], [Taken(m[..n])]));
  }

  /** Two send_message and one read_message, which takes the first message before the second is written: the
      second is lost, although a reader was there when it was sent. */
  lemma SecondMessageLost(a: string, b: string)
    requires Acceptable(a) && Acceptable(b) && |a| < MAX_MESSAGE_LEN
    ensures Leads([Opens(0, READ_ONLY)] + SendTo(1, a) + [Reads(0, |a|)] + SendTo(2, b) + [Closes(0)],
                  State(map[], "", [a, b], [Taken(a), Discarded(b)]))
  {
    FirstMessageTaken(a, |a|);
    assert a[..|a|] == a && a[|a|..] == "" && "" + b == b && [a] + [b] == [a, b];
    var es := [Opens(0, READ_ONLY)] + SendTo(1, a) + [Reads(0, |a|)];
    MessageSent(es, State(READER, "", [a], [Taken(a)]), 2, b);
    assert READER - {0} == map[];
    LeadsOn(es + SendTo(2, b), State(READER, b, [a, b], [Taken(a)]), Closes(0),
            State(map[], "", [a, b], [Taken(a), Discarded(b)]));
  }

  /** One send_message of the longest message that it accepts, and one read_message: the last byte is lost. */
  lemma LastByteLost(m: string)
    requires |m| == MAX_MESSAGE_LEN
    ensures var n := MAX_MESSAGE_LEN - 1;
            Leads([Opens(0, READ_ONLY)] + SendTo(1, m) + [Reads(0, n)] + [Closes(0)],
                  State(map[], "", [m], [Taken(m[..n]), Discarded(m[n..])]))
  {
    var n := MAX_MESSAGE_LEN - 1;
    FirstMessageTaken(m, n);
    assert READER - {0} == map[];
    LeadsOn([Opens(0, READ_ONLY)] + SendTo(1, m) + [Reads(0, n)], State(READER, m[n..], [m], [Taken(m[..n])]),
            Closes(0), State(map[], "", [m], [Taken(m[..n]), Discarded(m[n..])]));
  }

  // ----- one message per read -----

  /** The longest read the buffer and the content allow. */
  function FullRead(s: State): nat {
    if |s.content| < MAX_MESSAGE_LEN - 1 then |s.content| else MAX_MESSAGE_LEN - 1
  }

  /** Every send meets an empty FIFO, every read takes all it can, and every last close meets an empty FIFO. */
  ghost predicate InStep(s: State, es: seq<Event>)
    requires IsRun(s, es)
    decreases |es|
  {
    es == [] ||
    var x, e := After(s, es[..|es| - 1]), es[|es| - 1];
    InStep(s, es[..|es| - 1]) &&
    match e
    case Opens(_, _) => true
    case Sends(_, _) => x.content == ""
    case Reads(_, n) => n == FullRead(x)
    case Closes(_) => IsLastClose(x, e) ==> x.content == ""
  }

  ghost predicate Readable(message: string) {
    |message| < MAX_MESSAGE_LEN && NUL !in message
  }

  /** The reads so far returned the messages one by one; a message still unread is what the FIFO holds. */
  ghost predicate OneByOne(s: State) {
    Returned(s.gone) + (if s.content == "" then [] else [s.content]) == s.sent
  }

  lemma OneSend(x: State, i: nat, m: string)
    requires OneByOne(x) && Enabled(x, Sends(i, m)) && x.content == ""
    ensures OneByOne(Apply(x, Sends(i, m)))
  {
    assert Returned(x.gone) + [] == x.sent && "" + m == m;
  }

  lemma OneRead(x: State, i: nat)
    requires OneByOne(x) && x.content != "" && Readable(x.content) && Enabled(x, Reads(i, |x.content|))
    ensures OneByOne(Apply(x, Reads(i, |x.content|)))
  {
    var m := x.content;
    CStrOfClean(m);
    assert m[..|m|] == m && m[|m|..] == "";
    var t := Apply(x, Reads(i, |m|));
    TakenSnoc(x.gone, m);
    assert t.gone == x.gone + [Taken(m)] && t.content == "";
    assert Returned(t.gone) == x.sent;
  }

  lemma OneByOneStep(x: State, e: Event)
    requires OneByOne(x) && Enabled(x, e) && forall m :: m in x.sent ==> Readable(m)
    requires match e
             case Opens(_, _) => true
             case Sends(_, _) => x.content == ""
             case Reads(_, n) => n == FullRead(x)
             case Closes(_) => IsLastClose(x, e) ==> x.content == ""
    ensures OneByOne(Apply(x, e))
  {
    match e
    case Sends(i, m) => OneSend(x, i, m);
    case Reads(i, n) =>
      assert x.sent[|x.sent| - 1] == x.content && x.content in x.sent;
      OneRead(x, i);
    case Closes(_) => DiscardedSnoc(x.gone, x.content);
    case Opens(_, _) =>
  }

  lemma {:induction false} OneMessagePerRead(s: State, es: seq<Event>)
    requires OneByOne(s) && IsRun(s, es) && InStep(s, es)
    requires forall m :: m in After(s, es).sent ==> Readable(m)
    ensures OneByOne(After(s, es))
    decreases |es|
  {
    if es != [] {
      var x := After(s, es[..|es| - 1]);
      assert x.sent <= After(s, es).sent;
      OneMessagePerRead(s, es[..|es| - 1]);
      OneByOneStep(x, es[|es| - 1]);
    }
  }

  /** Somebody holds the FIFO open, and nothing has happened yet. */
  function Held(): State {
    Apply(EMPTY, Opens(0, READ_WRITE))
  }

  /** A message sent to an empty FIFO comes back from one full read exactly when it is shorter than the
      buffer and has no NUL: the longest message that send accepts needs two reads. */
  lemma ReadReturnsMessage(m: string)
    requires Acceptable(m)
    ensures Enabled(Held(), Sends(0, m))
    ensures var s := Apply(Held(), Sends(0, m));
            Enabled(s, Reads(0, FullRead(s))) &&
            (Returned(Apply(s, Reads(0, FullRead(s))).gone) == [m] <==> Readable(m))
  {
    assert 0 in Held().holders && Held().holders[0].canRead;
    var s := Apply(Held(), Sends(0, m));
    assert s.content == m;
    var n := FullRead(s);
    TakenSnoc([], m[..n]);
    assert Returned([] + [Taken(m[..n])]) == [] + [CStr(m[..n])] == [CStr(m[..n])];
    assert n == |m| ==> m[..n] == m;
    assert CStr(m[..n]) == m ==> n == |m|;
  }

  /** The longest message that send accepts comes back without its last byte, which waits for the next read. */
  lemma LongestMessage(m: string)
    requires |m| == MAX_MESSAGE_LEN && NUL !in m
    ensures Acceptable(m) && Enabled(Held(), Sends(0, m))
    ensures var s := Apply(Held(), Sends(0, m));
            var t := Apply(s, Reads(0, FullRead(s)));
            Returned(t.gone) == [m[..|m| - 1]] && t.content == m[|m| - 1..]
  {
    assert 0 in Held().holders && Held().holders[0].canRead;
    var s := Apply(Held(), Sends(0, m));
    assert s.content == m;
    var n := FullRead(s);
    CStrOfClean(m[..n]);
    TakenSnoc([], m[..n]);
  }

  // ----- the named pipe in the kernel -----

  /** No event is one of the process that uses the descriptor id. */
  ghost predicate ByOthers(es: seq<Event>, id: nat) {
    forall e :: e in es ==> e.id != id
  }

  predicate MayRead(holders: map<nat, Access>, id: nat) {
    id in holders && holders[id].canRead
  }

  class NamedPipe {
    var holders: map<nat, Access>
    var content: string
    ghost var history: seq<Event>
    /** How many calls have failed although they were possible. */
    ghost var failures: nat

    ghost predicate Valid()
      reads this
    {
      IsRun(EMPTY, history) && holders == After(EMPTY, history).holders && content == After(EMPTY, history).content
    }

    constructor ()
      ensures Valid() && history == [] && failures == 0
    {
      holders := map[];
      content := "";
      history := [];
      failures := 0;
    }

    /** What can be told of the FIFO from outside. */
    function Now(): State
      reads this
    {
      State(holders, content, [], [])
    }

    method Perform(e: Event)
      requires Valid() && Enabled(Now(), e)
      modifies this
      ensures Valid() && history == old(history) + [e] && failures == old(failures)
    {
      RunSnoc(EMPTY, history, e);
      match e {
        case Opens(i, access) =>
          holders := holders[i := access];
        case Sends(_, m) =>
          content := content + m;
        case Reads(_, n) =>
          content := content[n..];
        case Closes(i) =>
          holders := holders - {i};
          if holders == map[] {
            content := "";
          }
      }
      history := history + [e];
    }

    /** Other processes try the events of a schedule; those that are possible happen. */
    method Others(id: nat, schedule: seq<Event>) returns (ghost done: seq<Event>)
      requires Valid()
      modifies this
      ensures Valid() && history == old(history) + done && ByOthers(done, id) && failures == old(failures)
      ensures id in old(holders) ==> id in holders && holders[id] == old(holders)[id]
    {
      done := [];
      for k := 0 to |schedule|
        invariant Valid() && history == old(history) + done && ByOthers(done, id) && failures == old(failures)
        invariant id in old(holders) ==> id in holders && holders[id] == old(holders)[id]
      {
        if schedule[k].id != id && Enabled(Now(), schedule[k]) {
          Perform(schedule[k]);
          done := done + [schedule[k]];
        }
      }
    }

    /** write: the whole message, or a failure that writes nothing; it is impossible if nobody could read. */
    method Write(id: nat, message: string) returns (ok: bool)
      requires Valid() && Acceptable(message)
      modifies this
      ensures Valid() && history == old(history) + if ok then [Sends(id, message)] else []
      ensures ok <==> Enabled(old(Now()), Sends(id, message)) && failures == old(failures)
      ensures ok ==> content == old(content) + message
      ensures holders == old(holders) && failures >= old(failures)
    {
      ok := false;
      if Enabled(Now(), Sends(id, message)) {
        if * {
          Perform(Sends(id, message));
          ok := true;
        } else {
          failures := failures + 1;
        }
      }
      assert !ok ==> history == old(history) + [];
    }

    /** read: as many of the first bytes as it likes, up to the size of the buffer, but not none if there are
        some; or a failure that takes nothing. */
    method Read(id: nat) returns (chunk: Option<string>)
      requires Valid()
      modifies this
      ensures Valid() && holders == old(holders) && failures >= old(failures)
      ensures chunk.None? <==> !MayRead(old(holders), id) || failures > old(failures)
      ensures if chunk.Some? && chunk.value != ""
              then chunk.value <= old(content) && |chunk.value| < MAX_MESSAGE_LEN &&
                   history == old(history) + [Reads(id, |chunk.value|)]
              else history == old(history) && content == old(content)
      ensures chunk == Some("") ==> content == ""
    {
      if !MayRead(holders, id) {
        return None;
      }
      if * {
        failures := failures + 1;
        return None;
      }
      if content == "" {
        return Some("");
      }
      var n :| 1 <= n <= MAX_MESSAGE_LEN - 1 && n <= |content|;
      chunk := Some(content[..n]);
      Perform(Reads(id, n));
    }
  }

  /** How reading ends; StillPolling stands for a read that has not ended. */
  datatype ReadResult = Message(text: string) | StillPolling | ReadIssue

  /** The events of a read that took the chunk. */
  function Take(id: nat, chunk: string): seq<Event> {
    if chunk == "" then [] else [Reads(id, |chunk|)]
  }

  ghost function Concat(rounds: seq<seq<Event>>): seq<Event> {
    if rounds == [] then [] else Concat(rounds[..|rounds| - 1]) + rounds[|rounds| - 1]
  }

  ghost predicate NothingToRead(history: seq<Event>) {
    IsRun(EMPTY, history) && After(EMPTY, history).content == ""
  }

  /** Before every round but the first, nothing was left to read. */
  ghost predicate Waited(history: seq<Event>, rounds: seq<seq<Event>>) {
    forall k | 0 < k < |rounds| :: NothingToRead(history + Concat(rounds[..k]))
  }

  /** now is what has happened after these rounds, in which others have acted and nothing could be read before
      the last one. */
  ghost predicate RoundsDone(history: seq<Event>, rounds: seq<seq<Event>>, id: nat, now: seq<Event>) {
    now == history + Concat(rounds) && ByOthers(Concat(rounds), id) && Waited(history, rounds) && IsRun(EMPTY, now)
  }

  lemma NoRounds(history: seq<Event>, id: nat)
    requires IsRun(EMPTY, history)
    ensures RoundsDone(history, [], id, history)
  {
    assert history + [] == history;
  }

  lemma WaitedOnceMore(history: seq<Event>, rounds: seq<seq<Event>>, done: seq<Event>)
    requires Waited(history, rounds) && (rounds != [] ==> NothingToRead(history + Concat(rounds)))
    ensures Waited(history, rounds + [done])
  {
    var more := rounds + [done];
    forall k | 0 < k < |more| ensures NothingToRead(history + Concat(more[..k])) {
      assert more[..k] == if k < |rounds| then rounds[..k] else rounds;
    }
  }

  lemma OneMoreRound(history: seq<Event>, rounds: seq<seq<Event>>, id: nat, now: seq<Event>, done: seq<Event>)
    requires RoundsDone(history, rounds, id, now) && IsRun(EMPTY, now + done) && ByOthers(done, id)
    requires rounds != [] ==> NothingToRead(now)
    ensures RoundsDone(history, rounds + [done], id, now + done)
  {
    WaitedOnceMore(history, rounds, done);
    assert (rounds + [done])[..|rounds|] == rounds;
    assert Concat(rounds + [done]) == Concat(rounds) + done;
    assert now + done == history + (Concat(rounds) + done);
  }

  /** The loop of read and read_message: it polls until there is something to read. Before each poll others do
      what they like. It returns the next bytes as a C string; if it does not block, it may return "" after a
      single poll, and if it does, it is still polling when the schedules end and nothing ever came. A poll that
      fails throws, and takes nothing. */
  method Poll(pipe: NamedPipe, id: nat, blocking: bool, schedules: seq<seq<Event>>)
    returns (r: ReadResult, ghost rounds: seq<seq<Event>>, ghost chunk: string)
    requires pipe.Valid()
    modifies pipe
    ensures pipe.Valid() && pipe.history == old(pipe.history) + Concat(rounds) + Take(id, chunk)
    ensures RoundsDone(old(pipe.history), rounds, id, old(pipe.history) + Concat(rounds)) && |rounds| <= |schedules|
    ensures id in old(pipe.holders) ==> id in pipe.holders && pipe.holders[id] == old(pipe.holders)[id]
    ensures chunk <= After(EMPTY, old(pipe.history) + Concat(rounds)).content && |chunk| < MAX_MESSAGE_LEN
    ensures chunk != "" ==> r == Message(CStr(chunk))
    ensures chunk == "" && r.Message? ==> r.text == "" && !blocking && pipe.content == "" && |rounds| == 1
    ensures r.StillPolling? ==>
              chunk == "" && |rounds| == |schedules| && (schedules == [] || (blocking && pipe.content == ""))
    ensures r.ReadIssue? ==> chunk == "" && rounds != []
    ensures MayRead(old(pipe.holders), id) ==> (r.ReadIssue? <==> pipe.failures > old(pipe.failures))
    ensures pipe.failures >= old(pipe.failures)
    ensures |rounds| > 1 ==> blocking
  {
    rounds, chunk := [], "";
    var polls := 0;
    NoRounds(pipe.history, id);
    while polls < |schedules|
      invariant polls == |rounds| <= |schedules| && pipe.Valid() && pipe.failures == old(pipe.failures)
      invariant RoundsDone(old(pipe.history), rounds, id, pipe.history)
      invariant id in old(pipe.holders) ==> id in pipe.holders && pipe.holders[id] == old(pipe.holders)[id]
      invariant polls > 0 ==> pipe.content == "" && blocking
    {
      ghost var before := pipe.history;
      ghost var done := pipe.Others(id, schedules[polls]);
      OneMoreRound(old(pipe.history), rounds, id, before, done);
      rounds := rounds + [done];
      polls := polls + 1;
      ghost var now := pipe.history;
      var buffer := pipe.Read(id);
      if buffer.None? {
        assert pipe.history == now + Take(id, "");
        return ReadIssue, rounds, chunk;
      }
      if buffer.value != "" {
        chunk := buffer.value;
        return Message(CStr(buffer.value)), rounds, chunk;
      }
      if !blocking {
        assert pipe.history == now + Take(id, "");
        return Message(""), rounds, chunk;
      }
    }
    assert pipe.history == pipe.history + Take(id, "");
    r := StillPolling;
  }

  // ----- the connection -----

  class FIFOConnection {
    var fd: NamedPipe?
    var id: nat
    var blocking: bool

    constructor ()
      ensures fd == null && blocking
    {
      fd := null;
      id := 0;
      blocking := true;
    }

    /** Opens the FIFO, for reading, writing or both; descriptor is what the kernel answers. Asking for a
        non-blocking open is never undone, not even when that open fails. */
    method Open(pipe: NamedPipe, access: Access, block: bool, descriptor: Option<nat>) returns (ok: bool)
      requires fd == null && pipe.Valid() && (descriptor.Some? ==> descriptor.value !in pipe.holders)
      modifies this, pipe
      ensures pipe.Valid() && ok == descriptor.Some? && blocking == (old(blocking) && block)
      ensures if ok then fd == pipe && id == descriptor.value && pipe.history == old(pipe.history) + [Opens(id, access)]
              else fd == null && pipe.history == old(pipe.history)
    {
      if !block {
        blocking := false;
      }
      if descriptor.None? {
        return false;
      }
      id := descriptor.value;
      pipe.Perform(Opens(id, access));
      fd := pipe;
      ok := true;
    }

    /** Closes the descriptor, if there is one; the flag stays. */
    method Close()
      requires fd != null ==> fd.Valid() && id in fd.holders
      modifies this, fd
      ensures fd == null && blocking == old(blocking)
      ensures old(fd) != null ==> old(fd).Valid() && old(fd).history == old(fd.history) + [Closes(old(id))]
    {
      if fd != null {
        fd.Perform(Closes(id));
      }
      fd := null;
    }

    method Send(message: string) returns (ok: bool)
      requires fd != null && fd.Valid() && Acceptable(message)
      modifies fd
      ensures fd.Valid() && fd.history == old(fd.history) + if ok then [Sends(id, message)] else []
      ensures ok <==> Enabled(old(fd.Now()), Sends(id, message)) && fd.failures == old(fd.failures)
      ensures fd.content == old(fd.content) + if ok then message else ""
    {
      ok := fd.Write(id, message);
      assert !ok ==> fd.history == old(fd.history) && fd.content == old(fd.content) + "";
    }

    method Read(schedules: seq<seq<Event>>)
      returns (r: ReadResult, ghost rounds: seq<seq<Event>>, ghost chunk: string)
      requires fd != null && fd.Valid()
      modifies fd
      ensures fd.Valid() && fd.history == old(fd.history) + Concat(rounds) + Take(id, chunk)
      ensures RoundsDone(old(fd.history), rounds, id, old(fd.history) + Concat(rounds)) && |rounds| <= |schedules|
        ensures chunk <= After(EMPTY, old(fd.history) + Concat(rounds)).content && |chunk| < MAX_MESSAGE_LEN
      ensures chunk != "" ==> r == Message(CStr(chunk))
      ensures chunk == "" && r.Message? ==> r.text == "" && !blocking && fd.content == "" && |rounds| == 1
      ensures r.StillPolling? ==>
                chunk == "" && |rounds| == |schedules| && (schedules == [] || (blocking && fd.content == ""))
      ensures r.ReadIssue? ==> chunk == "" && rounds != []
      ensures MayRead(old(fd.holders), id) ==> (r.ReadIssue? <==> fd.failures > old(fd.failures))
      ensures |rounds| > 1 ==> blocking
    {
      r, rounds, chunk := Poll(fd, id, blocking, schedules);
    }

    /** send_message: opens the FIFO, writes the message and closes it, others acting in between. */
    method SendMessage(pipe: NamedPipe, message: string, descriptor: Option<nat>,
                       before: seq<Event>, after: seq<Event>)
      returns (ok: bool, ghost earlier: seq<Event>, ghost later: seq<Event>)
      requires pipe.Valid() && Acceptable(message) && (descriptor.Some? ==> descriptor.value !in pipe.holders)
      modifies pipe
      ensures pipe.Valid()
      ensures descriptor.None? ==> !ok && pipe.history == old(pipe.history)
      ensures descriptor.Some? ==>
                var d := descriptor.value;
                && ByOthers(earlier, d) && ByOthers(later, d) && d !in pipe.holders
                && pipe.history == old(pipe.history) + [Opens(d, WRITE_ONLY)] + earlier
                                   + (if ok then [Sends(d, message)] else []) + later + [Closes(d)]
                && IsRun(EMPTY, old(pipe.history) + [Opens(d, WRITE_ONLY)] + earlier)
                && (ok <==> HasReader(After(EMPTY, old(pipe.history) + [Opens(d, WRITE_ONLY)] + earlier)) &&
                            pipe.failures == old(pipe.failures))
    {
      earlier, later := [], [];
      if descriptor.None? {
        return false, earlier, later;
      }
      var d := descriptor.value;
      pipe.Perform(Opens(d, WRITE_ONLY));
      earlier := pipe.Others(d, before);
      ghost var now := pipe.Now();
      assert now.holders == After(EMPTY, pipe.history).holders;
      ok := pipe.Write(d, message);
      later := pipe.Others(d, after);
      pipe.Perform(Closes(d));
    }

    /** read_message: opens the FIFO, polls as a blocking connection does, and closes it. */
    method ReadMessage(pipe: NamedPipe, descriptor: Option<nat>, schedules: seq<seq<Event>>, after: seq<Event>)
      returns (r: ReadResult, ghost rounds: seq<seq<Event>>, ghost chunk: string, ghost later: seq<Event>)
      requires pipe.Valid() && (descriptor.Some? ==> descriptor.value !in pipe.holders)
      modifies pipe
      ensures pipe.Valid()
      ensures descriptor.None? ==> r.ReadIssue? && pipe.history == old(pipe.history)
      ensures descriptor.Some? ==>
                var d := descriptor.value;
                && ByOthers(later, d) && |chunk| < MAX_MESSAGE_LEN
                && (chunk != "" ==> r == Message(CStr(chunk))) && (chunk == "" ==> !r.Message?)
                && pipe.history == old(pipe.history) + [Opens(d, READ_ONLY)] + Concat(rounds) + Take(d, chunk) + later
                                   + (if r.StillPolling? then [] else [Closes(d)])
                && RoundsDone(old(pipe.history) + [Opens(d, READ_ONLY)], rounds, d,
                              old(pipe.history) + [Opens(d, READ_ONLY)] + Concat(rounds))
                && chunk <= After(EMPTY, old(pipe.history) + [Opens(d, READ_ONLY)] + Concat(rounds)).content
                && (r.StillPolling? ==> |rounds| == |schedules| && (schedules == [] || pipe.content == ""))
                && (r.ReadIssue? <==> pipe.failures > old(pipe.failures))
    {
      rounds, chunk, later := [], "", [];
      if descriptor.None? {
        return ReadIssue, rounds, chunk, later;
      }
      var d := descriptor.value;
      pipe.Perform(Opens(d, READ_ONLY));
      r, rounds, chunk := Poll(pipe, d, true, schedules);
      if r.StillPolling? {
        return;
      }
      later := pipe.Others(d, after);
      pipe.Perform(Closes(d));
    }
  }
}
