/** Executable::pipe_in: the parent joins the child before it drains the pipes the child writes to. */
module PipeIn {

  const BUFFER_SIZE: nat := 256

  datatype Stream = Stdout | Stderr

  /** One write call of the child; an atomic one (no longer than PIPE_BUF) goes into the pipe whole or not at all. */
  datatype Write = Write(stream: Stream, bytes: string, atomic: bool)

  datatype Ending = Exited(status: int) | Signaled(number: int)

  /** What the child writes, how it then ends, and the capacity of each pipe. A child that is killed early
      is one that writes less. */
  datatype Child = Child(writes: seq<Write>, ending: Ending, capacity: nat)

  datatype Outcome = Returned(text: string) | ExecutionIssue(status: int) | SignalIssue(number: int)

  datatype Phase = Joining | CopyingIn | CopyingOut | CopyingErr | Finished(outcome: Outcome)

  /** readFailed says that some read of stdout has failed. */
  datatype State = State(todo: seq<Write>, exited: bool, outPipe: string, errPipe: string,
                         phase: Phase, outText: string, errText: string, readFailed: bool)

  datatype Action =
    | ChildWrites(count: nat)
    | ChildExits
    | ParentJoins
    | InAtEnd
    | ReadsOut(count: nat)
    | OutAtEnd
    | ReadsErr(count: nat)
    | ErrAtEnd
    | ReadFails

  /** Everything the writes send to one stream, in order. */
  ghost function Sent(ws: seq<Write>, to: Stream): string {
    if ws == [] then "" else (if ws[0].stream == to then ws[0].bytes else "") + Sent(ws[1..], to)
  }

  function Pipe(s: State, to: Stream): string {
    if to.Stdout? then s.outPipe else s.errPipe
  }

  function Result(status: int, text: string): Outcome {
    if status == 0 then Returned(text) else ExecutionIssue(status)
  }

  /** What pipe_in ends with, given what it has collected from stdout. */
  function OutcomeOf(c: Child, text: string): Outcome {
    match c.ending
    case Exited(status) => Result(status, text)
    case Signaled(number) => SignalIssue(number)
  }

  function Init(c: Child): State {
    State(c.writes, false, "", "", Joining, "", "", false)
  }

  /** A write moves one or more bytes if they fit; reads take at most a buffer; end of file needs an empty
      pipe without writers, which is when the child has exited, since the parent closed its own write ends.
      Any read may fail. */
  predicate Enabled(c: Child, s: State, a: Action) {
    match a
    case ChildWrites(k) =>
      && !s.exited && s.todo != []
      && var w := s.todo[0];
      && k <= |w.bytes| && (k == 0 ==> w.bytes == "") && (w.atomic ==> k == |w.bytes|)
      && |Pipe(s, w.stream)| + k <= c.capacity
    case ChildExits => !s.exited && s.todo == []
    case ParentJoins => s.phase.Joining? && s.exited
    case InAtEnd => s.phase.CopyingIn? && s.exited
    case ReadsOut(n) => s.phase.CopyingOut? && 1 <= n <= BUFFER_SIZE && n <= |s.outPipe|
    case OutAtEnd => s.phase.CopyingOut? && s.outPipe == "" && s.exited
    case ReadsErr(n) => s.phase.CopyingErr? && 1 <= n <= BUFFER_SIZE && n <= |s.errPipe|
    case ErrAtEnd => s.phase.CopyingErr? && s.errPipe == "" && s.exited
    case ReadFails => s.phase.CopyingIn? || s.phase.CopyingOut? || s.phase.CopyingErr?
  }

  /** copy_fd returns at the end of a pipe and after a failed read alike. */
  function NextPhase(c: Child, s: State): State
    requires s.phase.CopyingIn? || s.phase.CopyingOut? || s.phase.CopyingErr?
  {
    match s.phase
    case CopyingIn => s.(phase := CopyingOut)
    case CopyingOut => s.(phase := CopyingErr)
    case CopyingErr => s.(phase := Finished(OutcomeOf(c, s.outText)))
  }

  function Apply(c: Child, s: State, a: Action): State
    requires Enabled(c, s, a)
  {
    match a
    case ChildWrites(k) =>
      var w := s.todo[0];
      var rest := if k == |w.bytes| then s.todo[1..] else [w.(bytes := w.bytes[k..])] + s.todo[1..];
      if w.stream.Stdout? then s.(todo := rest, outPipe := s.outPipe + w.bytes[..k])
      else s.(todo := rest, errPipe := s.errPipe + w.bytes[..k])
    case ChildExits => s.(exited := true)
    case ParentJoins =>
      s.(phase := if c.ending.Exited? then CopyingIn else Finished(SignalIssue(c.ending.number)))
    case InAtEnd => NextPhase(c, s)
    case ReadsOut(n) => s.(outPipe := s.outPipe[n..], outText := s.outText + s.outPipe[..n])
    case OutAtEnd => NextPhase(c, s)
    case ReadsErr(n) => s.(errPipe := s.errPipe[n..], errText := s.errText + s.errPipe[..n])
    case ErrAtEnd => NextPhase(c, s)
    case ReadFails => NextPhase(c, s.(readFailed := s.readFailed || s.phase.CopyingOut?))
  }

  /** acts is an interleaving that can happen from s. */
  ghost predicate IsRun(c: Child, s: State, acts: seq<Action>)
    decreases |acts|
  {
    acts == [] || (Enabled(c, s, acts[0]) && IsRun(c, Apply(c, s, acts[0]), acts[1..]))
  }

  ghost function After(c: Child, s: State, acts: seq<Action>): State
    requires IsRun(c, s, acts)
    decreases |acts|
  {
    if acts == [] then s else After(c, Apply(c, s, acts[0]), acts[1..])
  }

  /** Nothing can happen any more. */
  ghost predicate Halted(c: Child, s: State) {
    forall a :: !Enabled(c, s, a)
  }

  /** The whole output of the child fits into the pipes, each stream on its own. */
  ghost predicate Fits(c: Child) {
    |Sent(c.writes, Stdout)| <= c.capacity && |Sent(c.writes, Stderr)| <= c.capacity
  }

  /** No byte is lost, duplicated or reordered on either stream. */
  ghost predicate Conserved(c: Child, s: State) {
    && s.outText + s.outPipe + Sent(s.todo, Stdout) == Sent(c.writes, Stdout)
    && s.errText + s.errPipe + Sent(s.todo, Stderr) == Sent(c.writes, Stderr)
  }

  ghost predicate Phased(c: Child, s: State) {
    && |s.outPipe| <= c.capacity && |s.errPipe| <= c.capacity
    && (s.exited ==> s.todo == [] && Fits(c))
    && (!s.phase.Joining? ==> s.exited)
    && (s.phase.Joining? || s.phase.CopyingIn? ==> s.outText == "")
    && (c.ending.Signaled? ==> s.phase.Joining? || s.phase.Finished?)
    && (!s.phase.CopyingErr? && !s.phase.Finished? ==> s.errText == "")
    && (c.ending.Exited? && (s.phase.CopyingErr? || s.phase.Finished?) && !s.readFailed ==> s.outPipe == "")
    && (s.phase.Finished? ==> s.phase.outcome == OutcomeOf(c, s.outText))
  }

  lemma WriteMovesBytes(w: Write, k: nat, rest: seq<Write>, to: Stream)
    requires k <= |w.bytes|
    ensures var later := if k == |w.bytes| then rest else [w.(bytes := w.bytes[k..])] + rest;
            Sent([w] + rest, to) == (if w.stream == to then w.bytes[..k] else "") + Sent(later, to)
  {
    var cut := w.(bytes := w.bytes[k..]);
    assert ([w] + rest)[1..] == rest && ([cut] + rest)[1..] == rest;
    assert w.bytes[..k] + w.bytes[k..] == w.bytes;
    if w.stream == to {
      assert w.bytes[..k] + (w.bytes[k..] + Sent(rest, to)) == w.bytes + Sent(rest, to);
      assert k == |w.bytes| ==> w.bytes[..k] == w.bytes;
    }
  }

  lemma WriteConserves(text: string, pipe: string, chunk: string, later: string)
    ensures text + pipe + (chunk + later) == text + (pipe + chunk) + later
    ensures text + pipe + ("" + later) == text + pipe + later
  {}

  lemma ReadConserves(text: string, pipe: string, n: nat)
    requires n <= |pipe|
    ensures text + pipe[..n] + pipe[n..] == text + pipe
  {}

  lemma StepConserves(c: Child, s: State, a: Action)
    requires Conserved(c, s) && Enabled(c, s, a)
    ensures Conserved(c, Apply(c, s, a))
  {
    match a {
      case ChildWrites(k) =>
        var w, rest := s.todo[0], s.todo[1..];
        assert s.todo == [w] + rest;
        WriteMovesBytes(w, k, rest, Stdout);
        WriteMovesBytes(w, k, rest, Stderr);
        WriteConserves(s.outText, s.outPipe, w.bytes[..k], Sent(Apply(c, s, a).todo, Stdout));
        WriteConserves(s.errText, s.errPipe, w.bytes[..k], Sent(Apply(c, s, a).todo, Stderr));
      case ReadsOut(n) =>
        ReadConserves(s.outText, s.outPipe, n);
      case ReadsErr(n) =>
        ReadConserves(s.errText, s.errPipe, n);
      case _ =>
    }
  }

  /** Each step moves as many bytes as it says, and leaves the other stream alone. */
  lemma StepMoves(c: Child, s: State, a: Action)
    requires Enabled(c, s, a)
    ensures var t := Apply(c, s, a);
            var wrote := if a.ChildWrites? then a.count else 0;
            var toOut := if a.ChildWrites? && s.todo[0].stream.Stdout? then wrote else 0;
            var fromOut := if a.ReadsOut? then a.count else 0;
            var fromErr := if a.ReadsErr? then a.count else 0;
            && |t.outPipe| == |s.outPipe| + toOut - fromOut && |t.outText| == |s.outText| + fromOut
            && |t.errPipe| == |s.errPipe| + (wrote - toOut) - fromErr && |t.errText| == |s.errText| + fromErr
  {}

  lemma StepPhased(c: Child, s: State, a: Action)
    requires Conserved(c, s) && Phased(c, s) && Enabled(c, s, a)
    ensures Phased(c, Apply(c, s, a))
  {}

  ghost function Bytes(ws: seq<Write>): nat {
    if ws == [] then 0 else |ws[0].bytes| + Bytes(ws[1..])
  }

  ghost function Rank(p: Phase): nat {
    match p
    case Joining => 4
    case CopyingIn => 3
    case CopyingOut => 2
    case CopyingErr => 1
    case Finished(_) => 0
  }

  /** An upper bound for the number of steps that are still possible. */
  ghost function Measure(s: State): nat {
    2 * Bytes(s.todo) + |s.todo| + |s.outPipe| + |s.errPipe| + (if s.exited then 0 else 1) + Rank(s.phase)
  }

  lemma WriteDecreases(w: Write, k: nat, rest: seq<Write>)
    requires k <= |w.bytes|
    ensures var later := if k == |w.bytes| then rest else [w.(bytes := w.bytes[k..])] + rest;
            Bytes([w] + rest) == k + Bytes(later) && |later| <= 1 + |rest| && (k == |w.bytes| ==> |later| == |rest|)
  {
    assert ([w] + rest)[1..] == rest && ([w.(bytes := w.bytes[k..])] + rest)[1..] == rest;
  }

  lemma ChildDecreases(c: Child, s: State, k: nat)
    requires Enabled(c, s, ChildWrites(k))
    ensures Measure(Apply(c, s, ChildWrites(k))) < Measure(s)
  {
    assert s.todo == [s.todo[0]] + s.todo[1..];
    WriteDecreases(s.todo[0], k, s.todo[1..]);
  }

  lemma StepDecreases(c: Child, s: State, a: Action)
    requires Enabled(c, s, a)
    ensures Measure(Apply(c, s, a)) < Measure(s)
  {
    if a.ChildWrites? {
      ChildDecreases(c, s, a.count);
    }
  }

  /** Over every interleaving: bytes are conserved, the phases are in order, and the run is bounded. */
  lemma {:induction false} RunInvariant(c: Child, s: State, acts: seq<Action>)
    requires Conserved(c, s) && Phased(c, s) && IsRun(c, s, acts)
    ensures Conserved(c, After(c, s, acts)) && Phased(c, After(c, s, acts))
    ensures |acts| + Measure(After(c, s, acts)) <= Measure(s)
    decreases |acts|
  {
    if acts != [] {
      StepConserves(c, s, acts[0]);
      StepPhased(c, s, acts[0]);
      StepDecreases(c, s, acts[0]);
      RunInvariant(c, Apply(c, s, acts[0]), acts[1..]);
    }
  }

  /** While the output fits, something can happen until pipe_in has finished. */
  lemma NextAction(c: Child, s: State) returns (a: Action)
    requires Conserved(c, s) && Phased(c, s) && Fits(c) && !s.phase.Finished?
    ensures Enabled(c, s, a)
  {
    if !s.exited && s.todo != [] {
      var w := s.todo[0];
      a := ChildWrites(|w.bytes|);
    } else if !s.exited {
      a := ChildExits;
    } else {
      match s.phase
      case Joining => a := ParentJoins;
      case CopyingIn => a := InAtEnd;
      case CopyingOut => a := if s.outPipe == "" then OutAtEnd else ReadsOut(1);
      case CopyingErr => a := if s.errPipe == "" then ErrAtEnd else ReadsErr(1);
    }
  }

  lemma {:induction false} FinishingRun(c: Child, s: State) returns (acts: seq<Action>)
    requires Conserved(c, s) && Phased(c, s) && Fits(c)
    ensures IsRun(c, s, acts) && After(c, s, acts).phase.Finished?
    decreases Measure(s)
  {
    if s.phase.Finished? {
      acts := [];
    } else {
      var a := NextAction(c, s);
      StepConserves(c, s, a);
      StepPhased(c, s, a);
      StepDecreases(c, s, a);
      var later := FinishingRun(c, Apply(c, s, a));
      acts := [a] + later;
      assert acts[1..] == later;
    }
  }

  /** What every run of pipe_in does, whatever the interleaving: it is bounded and loses nothing; if it
      finishes, a child that ended with status 0 gives a prefix of its stdout, all of it unless a read of
      stdout failed, and any other ending gives an issue with the status or the signal; and once nothing can
      happen any more, it has finished exactly when the output fits. */
  lemma PipeInExact(c: Child, acts: seq<Action>)
    requires IsRun(c, Init(c), acts)
    ensures var s := After(c, Init(c), acts);
            && |acts| <= Measure(Init(c))
            && Conserved(c, s)
            && (s.phase.Finished? && c.ending == Exited(0) ==>
                  s.phase.outcome.Returned? && s.phase.outcome.text <= Sent(c.writes, Stdout) &&
                  (!s.readFailed ==> s.phase.outcome.text == Sent(c.writes, Stdout)))
            && (s.phase.Finished? && c.ending.Exited? && c.ending.status != 0 ==>
                  s.phase.outcome == ExecutionIssue(c.ending.status))
            && (s.phase.Finished? && c.ending.Signaled? ==> s.phase.outcome == SignalIssue(c.ending.number))
            && (Halted(c, s) ==> (s.phase.Finished? <==> Fits(c)))
  {
    RunInvariant(c, Init(c), acts);
    var s := After(c, Init(c), acts);
    if s.phase.Finished? {
      assert s.outText + s.outPipe + Sent(s.todo, Stdout) == s.outText + s.outPipe;
    } else if Fits(c) {
      var a := NextAction(c, s);
    }
  }

  /** A read is only reported as failed if one was. */
  lemma {:induction false} FailureReported(c: Child, s: State, acts: seq<Action>)
    requires IsRun(c, s, acts) && !s.readFailed && ReadFails !in acts
    ensures !After(c, s, acts).readFailed
    decreases |acts|
  {
    if acts != [] {
      assert acts[0] in acts && forall a :: a in acts[1..] ==> a in acts;
      FailureReported(c, Apply(c, s, acts[0]), acts[1..]);
    }
  }

  /** The steps of the parent that are not reads of some bytes. */
  function Milestones(acts: seq<Action>): seq<Action> {
    if acts == [] then [] else Milestone(acts[0]) + Milestones(acts[1..])
  }

  function Milestone(a: Action): seq<Action> {
    if a.ParentJoins? || a.InAtEnd? || a.OutAtEnd? || a.ErrAtEnd? then [a] else []
  }

  /** The milestones that are still ahead. */
  function Ahead(c: Child, p: Phase): seq<Action> {
    match p
    case Joining => if c.ending.Exited? then [ParentJoins, InAtEnd, OutAtEnd, ErrAtEnd] else [ParentJoins]
    case CopyingIn => [InAtEnd, OutAtEnd, ErrAtEnd]
    case CopyingOut => [OutAtEnd, ErrAtEnd]
    case CopyingErr => [ErrAtEnd]
    case Finished(_) => []
  }

  /** Once pipe_in has finished with an exited child and no failed read, nothing is left in its pipes. */
  ghost predicate DrainedWhenFinished(c: Child, s: State) {
    s.phase.Finished? ==> s.exited && (c.ending.Exited? ==> s.outPipe == "" == s.errPipe)
  }

  lemma Regroup(a: seq<Action>, b: seq<Action>, c: seq<Action>)
    ensures a + (b + c) == a + b + c
  {}

  lemma MilestoneStep(c: Child, s: State, a: Action)
    requires Enabled(c, s, a) && !a.ReadFails? && Conserved(c, s) && Phased(c, s) && DrainedWhenFinished(c, s)
    requires !s.readFailed
    ensures DrainedWhenFinished(c, Apply(c, s, a)) && !Apply(c, s, a).readFailed
    ensures Ahead(c, s.phase) == Milestone(a) + Ahead(c, Apply(c, s, a).phase)
  {}

  lemma {:induction false} MilestonesAhead(c: Child, s: State, acts: seq<Action>)
    requires IsRun(c, s, acts) && ReadFails !in acts && !s.readFailed
    requires Conserved(c, s) && Phased(c, s) && DrainedWhenFinished(c, s)
    ensures DrainedWhenFinished(c, After(c, s, acts))
    ensures Milestones(acts) + Ahead(c, After(c, s, acts).phase) == Ahead(c, s.phase)
    decreases |acts|
  {
    if acts != [] {
      var a, t := acts[0], Apply(c, s, acts[0]);
      assert a in acts && forall b :: b in acts[1..] ==> b in acts;
      MilestoneStep(c, s, a);
      StepConserves(c, s, a);
      StepPhased(c, s, a);
      MilestonesAhead(c, t, acts[1..]);
      Regroup(Milestone(a), Milestones(acts[1..]), Ahead(c, After(c, t, acts[1..]).phase));
    }
  }

  /** When no read fails, pipe_in takes its steps in order: it joins the child, then reads stdin, stdout and
      stderr each to the end, and so all of both outputs of a child that has exited. */
  lemma StepsInOrder(c: Child, acts: seq<Action>)
    requires IsRun(c, Init(c), acts) && After(c, Init(c), acts).phase.Finished? && ReadFails !in acts
    ensures c.ending.Exited? ==>
              Milestones(acts) == [ParentJoins, InAtEnd, OutAtEnd, ErrAtEnd] &&
              After(c, Init(c), acts).outText == Sent(c.writes, Stdout) &&
              After(c, Init(c), acts).errText == Sent(c.writes, Stderr)
    ensures c.ending.Signaled? ==> Milestones(acts) == [ParentJoins]
  {
    MilestonesAhead(c, Init(c), acts);
    RunInvariant(c, Init(c), acts);
    var s := After(c, Init(c), acts);
    assert Milestones(acts) + [] == Milestones(acts);
    if c.ending.Exited? {
      assert s.todo == [] && s.outText + "" + "" == s.outText && s.errText + "" + "" == s.errText;
    }
  }

  /** When no read fails, a finished run of a child that ends with status 0 returns exactly its stdout. */
  lemma WholeOutput(c: Child, acts: seq<Action>)
    requires IsRun(c, Init(c), acts) && After(c, Init(c), acts).phase.Finished?
    requires c.ending == Exited(0) && ReadFails !in acts
    ensures After(c, Init(c), acts).phase.outcome == Returned(Sent(c.writes, Stdout))
  {
    FailureReported(c, Init(c), acts);
    PipeInExact(c, acts);
  }

  /** So the output of a child that writes a text to stdout, in two parts and with something on stderr in
      between, is that text; and such a run exists if the pipes can hold it. */
  lemma TextReturned(first: string, second: string, error: string, acts: seq<Action>, capacity: nat)
    requires |first + second| <= capacity && |error| <= capacity && ReadFails !in acts
    requires var c := Speaker(first, second, error, capacity);
             IsRun(c, Init(c), acts) && After(c, Init(c), acts).phase.Finished?
    ensures var c := Speaker(first, second, error, capacity);
            CanReturn(c) && After(c, Init(c), acts).phase.outcome == Returned(first + second)
  {
    var c := Speaker(first, second, error, capacity);
    var ws := c.writes;
    assert ws[2..] == ws[1..][1..] && Sent(ws[2..][1..], Stdout) == "" == Sent(ws[2..][1..], Stderr);
    assert ws[2..] == [Write(Stdout, second, false)];
    assert Sent(ws[2..], Stdout) == second + "" == second && Sent(ws[2..], Stderr) == "" + "" == "";
    assert Sent(ws[1..], Stdout) == "" + second == second && Sent(ws[1..], Stderr) == error + "" == error;
    assert Sent(ws, Stdout) == first + second && Sent(ws, Stderr) == "" + error == error;
    WholeOutput(c, acts);
    ReturnsIffFits(c);
  }

  function Speaker(first: string, second: string, error: string, capacity: nat): Child {
    Child([Write(Stdout, first, false), Write(Stderr, error, false), Write(Stdout, second, false)],
          Exited(0), capacity)
  }

  /** When a stream does not fit, no run gets past the join: the child never exits and nothing is read. */
  lemma NeverPastJoin(c: Child, acts: seq<Action>)
    requires IsRun(c, Init(c), acts) && !Fits(c)
    ensures var s := After(c, Init(c), acts);
            s.phase.Joining? && !s.exited && s.outText == "" == s.errText
  {
    RunInvariant(c, Init(c), acts);
  }

  ghost predicate CanReturn(c: Child) {
    exists acts :: IsRun(c, Init(c), acts) && After(c, Init(c), acts).phase.Finished?
  }

  /** pipe_in can return exactly when the child's stdout and stderr each fit into a pipe. */
  lemma ReturnsIffFits(c: Child)
    ensures CanReturn(c) <==> Fits(c)
  {
    if Fits(c) {
      var acts := FinishingRun(c, Init(c));
    }
    if CanReturn(c) {
      var acts :| IsRun(c, Init(c), acts) && After(c, Init(c), acts).phase.Finished?;
      RunInvariant(c, Init(c), acts);
    }
  }

  /** A child that writes one byte more than a pipe holds. */
  function Talker(capacity: nat): Child {
    Child([Write(Stdout, seq(capacity + 1, _ => 'x'), false)], Exited(0), capacity)
  }

  /** For such a child pipe_in never returns, whatever the capacity. */
  lemma TalkerBlocks(capacity: nat)
    ensures !CanReturn(Talker(capacity))
  {
    assert Sent(Talker(capacity).writes[1..], Stdout) == "";
    ReturnsIffFits(Talker(capacity));
  }

  /** What a child wrote to stderr has no influence on the outcome: two children that end alike, and sent the
      same to stdout if that is with status 0, have the same outcome. */
  lemma StderrIsDropped(c: Child, acts: seq<Action>, d: Child, bcts: seq<Action>)
    requires IsRun(c, Init(c), acts) && IsRun(d, Init(d), bcts) && c.ending == d.ending
    requires var s, t := After(c, Init(c), acts), After(d, Init(d), bcts);
             s.phase.Finished? && t.phase.Finished? && (c.ending == Exited(0) ==> !s.readFailed && !t.readFailed)
    requires c.ending == Exited(0) ==> Sent(c.writes, Stdout) == Sent(d.writes, Stdout)
    ensures After(c, Init(c), acts).phase.outcome == After(d, Init(d), bcts).phase.outcome
  {
    PipeInExact(c, acts);
    PipeInExact(d, bcts);
  }

  /** A failing child that explains itself on stderr gives the same exception as one that is silent. */
  lemma ExplanationIsLost(status: int, text: string)
    requires status != 0
    ensures var silent := Child([], Exited(status), |text|);
            var talking := Child([Write(Stderr, text, false)], Exited(status), |text|);
            CanEndWith(silent, ExecutionIssue(status)) && CanEndWith(talking, ExecutionIssue(status)) &&
            forall o :: CanEndWith(talking, o) <==> o == ExecutionIssue(status)
  {
    var silent := Child([], Exited(status), |text|);
    var talking := Child([Write(Stderr, text, false)], Exited(status), |text|);
    assert Sent(talking.writes[1..], Stdout) == "" == Sent(talking.writes[1..], Stderr);
    EndsWithStatus(silent);
    EndsWithStatus(talking);
  }

  ghost predicate CanEndWith(c: Child, o: Outcome) {
    exists acts :: IsRun(c, Init(c), acts) && After(c, Init(c), acts).phase == Finished(o)
  }

  lemma EndsWithStatus(c: Child)
    requires Fits(c) && c.ending.Exited? && c.ending.status != 0
    ensures forall o :: CanEndWith(c, o) <==> o == ExecutionIssue(c.ending.status)
  {
    var run := FinishingRun(c, Init(c));
    PipeInExact(c, run);
    forall o | CanEndWith(c, o) ensures o == ExecutionIssue(c.ending.status) {
      var acts :| IsRun(c, Init(c), acts) && After(c, Init(c), acts).phase == Finished(o);
      PipeInExact(c, acts);
    }
  }

  // ----- draining, after the join -----

  /** The read end of a pipe whose writers are all gone; a read may be short, and it may fail. */
  class ReadEnd {
    var content: string
    ghost var failures: nat

    constructor (content: string)
      ensures this.content == content && failures == 0
    {
      this.content := content;
      failures := 0;
    }

    method Read(buffer: array<char>) returns (status: int)
      requires buffer.Length > 0
      modifies this, buffer
      ensures status <= buffer.Length && status <= |old(content)|
      ensures status < 0 ==> content == old(content) && failures == old(failures) + 1
      ensures status >= 0 ==> failures == old(failures) && (status == 0 <==> old(content) == "")
      ensures status >= 0 ==> buffer[..status] == old(content)[..status] && content == old(content)[status..]
    {
      if * {
        status := -1;
        failures := failures + 1;
      } else if content == "" {
        status := 0;
      } else {
        status :| 1 <= status <= buffer.Length && status <= |content|;
        forall i | 0 <= i < status {
          buffer[i] := content[i];
        }
        content := content[status..];
      }
    }
  }

  /** copy_fd: reads up to a buffer at a time until a read gives nothing. What it copied and what is left
      make up the content, and nothing is left unless a read failed. */
  method CopyFd(fd: ReadEnd) returns (target: string)
    modifies fd
    ensures target + fd.content == old(fd.content)
    ensures fd.failures == old(fd.failures) ==> fd.content == ""
    ensures fd.failures <= old(fd.failures) + 1
  {
    target := "";
    while true
      invariant target + fd.content == old(fd.content)
      invariant fd.failures == old(fd.failures)
      decreases |fd.content|
    {
      var buffer := new char[BUFFER_SIZE];
      ghost var before, got := fd.content, target;
      var status := fd.Read(buffer);
      if status <= 0 {
        return;
      }
      for i := 0 to status
        invariant target == got + buffer[..i]
      {
        target := target + [buffer[i]];
      }
      assert got + (before[..status] + before[status..]) == target + fd.content;
    }
  }

  /** The rest of pipe_in once the child has been joined. */
  method Drain(input: ReadEnd, output: ReadEnd, error: ReadEnd, status: int) returns (outcome: Outcome)
    requires input != output && output != error && input != error
    modifies input, output, error
    ensures status != 0 ==> outcome == ExecutionIssue(status)
    ensures status == 0 ==> outcome.Returned? && outcome.text + output.content == old(output.content)
    ensures output.failures == old(output.failures) ==> outcome == Result(status, old(output.content))
    ensures input.failures == old(input.failures) ==> input.content == ""
    ensures output.failures == old(output.failures) ==> output.content == ""
    ensures error.failures == old(error.failures) ==> error.content == ""
  {
    var inText := CopyFd(input);
    var outText := CopyFd(output);
    var errText := CopyFd(error);
    assert output.content == "" ==> outText + output.content == outText;
    if status == 0 {
      return Returned(outText);
    }
    outcome := ExecutionIssue(status);
  }
}
