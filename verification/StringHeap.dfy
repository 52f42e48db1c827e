/** The string area at two levels: bytes, and the simple map from offset to string that they represent. */
module StringHeap {
  import opened Text
  import opened StringCodecs

  const OFFSET_LIMIT: nat := 0x1_0000_0000

  // ----- the byte level -----

  datatype Area = Area(bytes: seq<char>, last: nat)

  /** The C string that starts at offset. */
  function StringAt(bytes: seq<char>, offset: nat): string
    requires offset <= |bytes|
  {
    CStr(bytes[offset..])
  }

  ghost predicate Terminated(bytes: seq<char>, offset: nat) {
    offset <= |bytes| && NUL in bytes[offset..]
  }

  /** strcpy: s and its terminator at position at. */
  function Copied(bytes: seq<char>, at: nat, s: string): (r: seq<char>)
    requires at + |s| < |bytes|
    ensures |r| == |bytes|
  {
    bytes[..at] + s + [NUL] + bytes[at + |s| + 1..]
  }

  function Cleared(bytes: seq<char>, offset: nat): (r: seq<char>)
    requires offset <= |bytes|
    ensures |r| == |bytes|
  {
    var n := |StringAt(bytes, offset)|;
    bytes[..offset] + seq(n, _ => NUL) + bytes[offset + n..]
  }

  predicate Fits(a: Area, s: string) {
    a.last + 1 + |s| < |a.bytes|
  }

  function AddTo(a: Area, s: string): (Area, nat)
    requires Fits(a, s)
  {
    (Area(Copied(a.bytes, a.last + 1, s), a.last + 1 + |s|), a.last + 1)
  }

  ghost predicate CanInsert(a: Area, offset: nat, s: string) {
    if offset == 0 then Fits(a, s)
    else Terminated(a.bytes, offset) && (|s| <= |StringAt(a.bytes, offset)| || Fits(a, s))
  }

  ghost function InsertInto(a: Area, offset: nat, s: string): (Area, nat)
    requires CanInsert(a, offset, s)
  {
    if offset == 0 then AddTo(a, s)
    else
      var cleared := Cleared(a.bytes, offset);
      if |s| <= |StringAt(a.bytes, offset)| then
        (Area(Copied(cleared, offset, s), a.last), offset)
      else AddTo(Area(cleared, a.last), s)
  }

  // ----- commands -----

  datatype Command =
    | Add(text: string)
    | Clear(offset: nat)
    | Insert(offset: nat, text: string)
    | InsertVector(offset: nat, vect: seq<string>)
    | InsertMap(offset: nat, pairs: Pairs)

  /** The offset a command is applied to; 0 when it only adds. */
  function Target(c: Command): nat {
    if c.Add? then 0 else c.offset
  }

  /** The C string a command stores. */
  function Payload(c: Command): (s: string)
    ensures NUL !in s
  {
    match c
    case Add(s) => CStr(s)
    case Clear(_) => ""
    case Insert(_, s) => CStr(s)
    case InsertVector(_, v) => CStr(EncodeVector(v))
    case InsertMap(_, pairs) => CStr(EncodeMap(pairs))
  }

  ghost predicate SafeStep(a: Area, c: Command) {
    if c.Clear? then Terminated(a.bytes, c.offset) else CanInsert(a, Target(c), Payload(c))
  }

  /** The new area and the value returned: an offset, or the length erased by a clear. */
  ghost function Step(a: Area, c: Command): (Area, nat)
    requires SafeStep(a, c)
  {
    if c.Clear? then (Area(Cleared(a.bytes, c.offset), a.last), |StringAt(a.bytes, c.offset)|)
    else InsertInto(a, Target(c), Payload(c))
  }

  ghost predicate SafeRun(a: Area, cs: seq<Command>)
    decreases |cs|
  {
    cs == [] || (SafeStep(a, cs[0]) && SafeRun(Step(a, cs[0]).0, cs[1..]))
  }

  ghost function Run(a: Area, cs: seq<Command>): (Area, seq<nat>)
    requires SafeRun(a, cs)
    decreases |cs|
  {
    if cs == [] then (a, [])
    else
      var (next, r) := Step(a, cs[0]);
      var (end, rs) := Run(next, cs[1..]);
      (end, [r] + rs)
  }

  // ----- the simple map -----

  /** text is what each handed-out offset reads; cap is the length each slot was given at first. */
  datatype Heap = Heap(base: nat, last: nat, cap: map<nat, nat>, text: map<nat, string>)

  ghost predicate Owns(h: Heap, o: nat, p: int) {
    o in h.cap && o <= p <= o + h.cap[o]
  }

  ghost predicate Covered(h: Heap, p: int) {
    exists o :: Owns(h, o, p)
  }

  /** The slots tile the positions after base up to last, and each holds its string. */
  ghost predicate WellFormed(h: Heap) {
    && h.base <= h.last
    && h.cap.Keys == h.text.Keys
    && (forall o :: o in h.cap ==> h.base < o && o + h.cap[o] <= h.last)
    && (forall o :: o in h.cap ==> |h.text[o]| <= h.cap[o] && NUL !in h.text[o])
    && (forall o, o' :: o in h.cap && o' in h.cap && o < o' ==> o + h.cap[o] < o')
    && (forall p :: h.base < p <= h.last ==> Covered(h, p))
  }

  function AddText(h: Heap, s: string): (Heap, nat) {
    var start := h.last + 1;
    (Heap(h.base, start + |s|, h.cap[start := |s|], h.text[start := s]), start)
  }

  ghost predicate Reuses(h: Heap, offset: nat, s: string) {
    offset in h.text && |s| <= |h.text[offset]|
  }

  /** What the area promises about one command: the caller names a handed-out offset, or 0 to add. */
  ghost predicate Owned(h: Heap, c: Command) {
    Target(c) in h.text || (Target(c) == 0 && !c.Clear?)
  }

  ghost function InsertText(h: Heap, o: nat, s: string): (Heap, nat) {
    if o !in h.text then AddText(h, s)
    else if Reuses(h, o, s) then (h.(text := h.text[o := s]), o)
    else AddText(h.(text := h.text[o := ""]), s)
  }

  ghost function MapStep(h: Heap, c: Command): (Heap, nat)
    requires Owned(h, c)
  {
    if c.Clear? then (h.(text := h.text[c.offset := ""]), |h.text[c.offset]|)
    else InsertText(h, Target(c), Payload(c))
  }

  ghost predicate OwnedRun(h: Heap, cs: seq<Command>)
    decreases |cs|
  {
    cs == [] || (Owned(h, cs[0]) && OwnedRun(MapStep(h, cs[0]).0, cs[1..]))
  }

  ghost function MapRun(h: Heap, cs: seq<Command>): (Heap, seq<nat>)
    requires OwnedRun(h, cs)
    decreases |cs|
  {
    if cs == [] then (h, [])
    else
      var (next, r) := MapStep(h, cs[0]);
      var (end, rs) := MapRun(next, cs[1..]);
      (end, [r] + rs)
  }

  // ----- the link -----

  /** The slot at o holds t followed only by NULs to its end: nothing of an earlier string survives. */
  ghost predicate Holds(bytes: seq<char>, o: nat, cap: nat, t: string) {
    && |t| <= cap && o + cap < |bytes|
    && (forall k :: o <= k < o + |t| ==> bytes[k] == t[k - o])
    && (forall k :: o + |t| <= k <= o + cap ==> bytes[k] == NUL)
  }

  ghost predicate Represents(a: Area, h: Heap) {
    && WellFormed(h)
    && a.last == h.last < |a.bytes|
    && (forall o :: o in h.cap ==> Holds(a.bytes, o, h.cap[o], h.text[o]))
  }

  lemma EmptyArea(bytes: seq<char>, last: nat)
    requires last < |bytes|
    ensures Represents(Area(bytes, last), Fresh(last))
  {}

  /** The scan that reads or clears a string stops inside the slot. */
  lemma HoldsString(bytes: seq<char>, o: nat, cap: nat, t: string)
    requires Holds(bytes, o, cap, t) && NUL !in t
    ensures Terminated(bytes, o) && StringAt(bytes, o) == t
  {
    var rest := bytes[o..];
    assert rest[|t|] == NUL;
    assert rest[..|t|] == t;
    IndexOfUnique(rest, NUL, |t|);
  }

  lemma CopiedHolds(bytes: seq<char>, at: nat, s: string, cap: nat)
    requires at + |s| < |bytes| && |s| <= cap && at + cap < |bytes|
    requires forall k :: at + |s| < k <= at + cap ==> bytes[k] == NUL
    ensures Holds(Copied(bytes, at, s), at, cap, s)
  {}

  /** A NUL-free string is read back where strcpy put it. */
  lemma CopiedReads(bytes: seq<char>, at: nat, s: string)
    requires at + |s| < |bytes| && NUL !in s
    ensures StringAt(Copied(bytes, at, s), at) == s
  {
    var rest := Copied(bytes, at, s)[at..];
    assert rest[|s|] == NUL && rest[..|s|] == s;
    IndexOfUnique(rest, NUL, |s|);
  }

  /** Where a string was cleared, "" is read. */
  lemma ClearedReads(bytes: seq<char>, o: nat)
    requires Terminated(bytes, o)
    ensures StringAt(Cleared(bytes, o), o) == ""
  {
    var rest, cleared := bytes[o..], Cleared(bytes, o);
    assert |CStr(rest)| < |rest| by {
      assert CStr(rest) != rest;
    }
    assert rest[|CStr(rest)|] == NUL;
    assert cleared[o..][0] == NUL && cleared[o..][..0] == "";
    IndexOfUnique(cleared[o..], NUL, 0);
  }

  lemma CopiedElsewhere(bytes: seq<char>, at: nat, s: string, o: nat, cap: nat, t: string)
    requires at + |s| < |bytes| && Holds(bytes, o, cap, t)
    requires o + cap < at || at + |s| < o
    ensures Holds(Copied(bytes, at, s), o, cap, t)
  {}

  lemma ClearedHolds(bytes: seq<char>, o: nat, cap: nat, t: string)
    requires Holds(bytes, o, cap, t) && NUL !in t
    ensures Holds(Cleared(bytes, o), o, cap, "")
  {
    HoldsString(bytes, o, cap, t);
  }

  lemma ClearedElsewhere(bytes: seq<char>, at: nat, c: nat, s: string, o: nat, cap: nat, t: string)
    requires Holds(bytes, at, c, s) && NUL !in s
    requires Holds(bytes, o, cap, t)
    requires o + cap < at || at + c < o
    ensures Holds(Cleared(bytes, at), o, cap, t)
  {
    HoldsString(bytes, at, c, s);
  }

  lemma AddWellFormed(h: Heap, s: string)
    requires WellFormed(h) && NUL !in s
    ensures WellFormed(AddText(h, s).0)
  {
    var h' := AddText(h, s).0;
    forall p | h'.base < p <= h'.last ensures Covered(h', p) {
      if p <= h.last {
        assert Covered(h, p);
        var o :| Owns(h, o, p);
        assert Owns(h', o, p);
      } else {
        assert Owns(h', h.last + 1, p);
      }
    }
  }

  lemma UpdateWellFormed(h: Heap, o: nat, s: string)
    requires WellFormed(h) && NUL !in s && o in h.text && |s| <= h.cap[o]
    ensures WellFormed(h.(text := h.text[o := s]))
  {
    var h' := h.(text := h.text[o := s]);
    assert h'.text.Keys == h.text.Keys;
    forall p | h.base < p <= h.last ensures Covered(h', p) {
      assert Covered(h, p);
      var q :| Owns(h, q, p);
      assert Owns(h', q, p);
    }
  }

  lemma AddRefines(a: Area, h: Heap, s: string)
    requires Represents(a, h) && NUL !in s && Fits(a, s)
    ensures Represents(AddTo(a, s).0, AddText(h, s).0) && AddTo(a, s).1 == AddText(h, s).1
  {
    AddWellFormed(h, s);
    var start, bytes, h' := a.last + 1, AddTo(a, s).0.bytes, AddText(h, s).0;
    forall o | o in h'.cap ensures Holds(bytes, o, h'.cap[o], h'.text[o]) {
      if o == start {
        CopiedHolds(a.bytes, start, s, |s|);
      } else {
        CopiedElsewhere(a.bytes, start, s, o, h.cap[o], h.text[o]);
      }
    }
  }

  lemma ClearRefines(a: Area, h: Heap, o: nat)
    requires Represents(a, h) && o in h.text
    ensures Terminated(a.bytes, o) && StringAt(a.bytes, o) == h.text[o]
    ensures Represents(Area(Cleared(a.bytes, o), a.last), h.(text := h.text[o := ""]))
  {
    HoldsString(a.bytes, o, h.cap[o], h.text[o]);
    UpdateWellFormed(h, o, "");
    ClearedHolds(a.bytes, o, h.cap[o], h.text[o]);
    forall q | q in h.cap && q != o ensures Holds(Cleared(a.bytes, o), q, h.cap[q], h.text[q]) {
      ClearedElsewhere(a.bytes, o, h.cap[o], h.text[o], q, h.cap[q], h.text[q]);
    }
  }

  lemma OverwriteRefines(a: Area, h: Heap, o: nat, s: string)
    requires Represents(a, h) && o in h.text && h.text[o] == "" && |s| <= h.cap[o] && NUL !in s
    ensures Represents(Area(Copied(a.bytes, o, s), a.last), h.(text := h.text[o := s]))
  {
    UpdateWellFormed(h, o, s);
    assert Holds(a.bytes, o, h.cap[o], "");
    CopiedHolds(a.bytes, o, s, h.cap[o]);
    forall q | q in h.cap && q != o ensures Holds(Copied(a.bytes, o, s), q, h.cap[q], h.text[q]) {
      CopiedElsewhere(a.bytes, o, s, q, h.cap[q], h.text[q]);
    }
  }

  ghost predicate HasRoomFor(h: Heap, o: nat, s: string, size: nat) {
    Reuses(h, o, s) || h.last + 1 + |s| < size
  }

  ghost predicate HasRoom(h: Heap, c: Command, size: nat) {
    c.Clear? || HasRoomFor(h, Target(c), Payload(c), size)
  }

  lemma ReuseRefines(a: Area, h: Heap, o: nat, s: string)
    requires o <= |a.bytes| && Represents(Area(Cleared(a.bytes, o), a.last), h.(text := h.text[o := ""]))
    requires NUL !in s && Reuses(h, o, s) && |s| <= h.cap[o]
    ensures Represents(Area(Copied(Cleared(a.bytes, o), o, s), a.last), h.(text := h.text[o := s]))
  {
    var a', h' := Area(Cleared(a.bytes, o), a.last), h.(text := h.text[o := ""]);
    OverwriteRefines(a', h', o, s);
    assert h'.text[o := s] == h.text[o := s];
  }

  lemma InsertRefines(a: Area, h: Heap, o: nat, s: string)
    requires Represents(a, h) && NUL !in s && (o == 0 || o in h.text) && HasRoomFor(h, o, s, |a.bytes|)
    ensures CanInsert(a, o, s)
    ensures Represents(InsertInto(a, o, s).0, InsertText(h, o, s).0)
    ensures InsertInto(a, o, s).1 == InsertText(h, o, s).1
  {
    if o == 0 {
      AddRefines(a, h, s);
    } else {
      ClearRefines(a, h, o);
      if Reuses(h, o, s) {
        ReuseRefines(a, h, o, s);
      } else {
        AddRefines(Area(Cleared(a.bytes, o), a.last), h.(text := h.text[o := ""]), s);
      }
    }
  }

  /** One command on a handed-out offset is memory-safe and does on the bytes what it does on the map. */
  lemma StepRefines(a: Area, h: Heap, c: Command)
    requires Represents(a, h) && Owned(h, c) && HasRoom(h, c, |a.bytes|)
    ensures SafeStep(a, c)
    ensures Represents(Step(a, c).0, MapStep(h, c).0) && Step(a, c).1 == MapStep(h, c).1
    ensures |Step(a, c).0.bytes| == |a.bytes|
  {
    if c.Clear? {
      ClearRefines(a, h, c.offset);
    } else {
      InsertRefines(a, h, Target(c), Payload(c));
    }
  }

  ghost predicate RoomyRun(h: Heap, cs: seq<Command>, size: nat)
    requires OwnedRun(h, cs)
    decreases |cs|
  {
    cs == [] || (HasRoom(h, cs[0], size) && RoomyRun(MapStep(h, cs[0]).0, cs[1..], size))
  }

  /** Every run refines the map, returns the same offsets, and never leaves the region. */
  lemma {:induction false} RunRefines(a: Area, h: Heap, cs: seq<Command>)
    requires Represents(a, h) && OwnedRun(h, cs) && RoomyRun(h, cs, |a.bytes|)
    ensures SafeRun(a, cs)
    ensures Represents(Run(a, cs).0, MapRun(h, cs).0) && Run(a, cs).1 == MapRun(h, cs).1
    decreases |cs|
  {
    if cs != [] {
      StepRefines(a, h, cs[0]);
      RunRefines(Step(a, cs[0]).0, MapStep(h, cs[0]).0, cs[1..]);
    }
  }

  /** A handed-out offset reads what the map says. */
  lemma ReadsText(a: Area, h: Heap, o: nat)
    requires Represents(a, h) && o in h.text
    ensures Terminated(a.bytes, o) && StringAt(a.bytes, o) == h.text[o]
  {
    HoldsString(a.bytes, o, h.cap[o], h.text[o]);
  }

  lemma MapFrame(h: Heap, c: Command, o: nat)
    requires Owned(h, c) && o in h.text && o <= h.last && o != Target(c)
    ensures o in MapStep(h, c).0.text && MapStep(h, c).0.text[o] == h.text[o]
  {}

  /** One command, seen in the bytes, leaves what every other handed-out offset reads. */
  lemma StepFrame(a: Area, h: Heap, c: Command, o: nat)
    requires Represents(a, h) && Owned(h, c) && HasRoom(h, c, |a.bytes|)
    requires o in h.text && o != Target(c)
    ensures SafeStep(a, c) && o < |a.bytes| == |Step(a, c).0.bytes|
    ensures StringAt(Step(a, c).0.bytes, o) == StringAt(a.bytes, o)
    ensures o in MapStep(h, c).0.text
  {
    StepRefines(a, h, c);
    MapFrame(h, c, o);
    ReadsText(a, h, o);
    ReadsText(Step(a, c).0, MapStep(h, c).0, o);
  }

  /** A clear leaves its offset reading "" and returns the length of the string it erased. */
  lemma ClearEffect(a: Area, h: Heap, o: nat)
    requires Represents(a, h) && o in h.text
    ensures SafeStep(a, Clear(o)) && |Step(a, Clear(o)).0.bytes| == |a.bytes|
    ensures Step(a, Clear(o)).1 == |StringAt(a.bytes, o)|
    ensures StringAt(Step(a, Clear(o)).0.bytes, o) == ""
  {
    StepRefines(a, h, Clear(o));
    ReadsText(Step(a, Clear(o)).0, MapStep(h, Clear(o)).0, o);
  }

  /** What an insertion does on the map. */
  lemma InsertOnMap(h: Heap, o: nat, s: string)
    requires WellFormed(h) && (o == 0 || o in h.text)
    ensures var (h', r) := InsertText(h, o, s);
            && r in h'.text && h'.text[r] == s
            && (r != o ==> r == h.last + 1)
            && (o != 0 && r != o ==> o in h'.text && h'.text[o] == "")
  {}

  /** An insertion makes the offset it returns read the new string. If that is not the offset it was given,
      it lies above every slot handed out before, and the offset it was given now reads "". */
  lemma InsertEffect(a: Area, h: Heap, c: Command, o: nat)
    requires Represents(a, h) && Owned(h, c) && HasRoom(h, c, |a.bytes|) && !c.Clear?
    ensures SafeStep(a, c) && |Step(a, c).0.bytes| == |a.bytes|
    ensures var (a', r) := Step(a, c); r < |a'.bytes| && StringAt(a'.bytes, r) == Payload(c)
    ensures Step(a, c).1 != Target(c) && o in h.text ==> o + h.cap[o] < Step(a, c).1
    ensures Target(c) != 0 && Step(a, c).1 != Target(c) ==>
              Target(c) < |a.bytes| && StringAt(Step(a, c).0.bytes, Target(c)) == ""
  {
    StepRefines(a, h, c);
    InsertOnMap(h, Target(c), Payload(c));
    ReadsText(Step(a, c).0, MapStep(h, c).0, Step(a, c).1);
    if Target(c) != 0 && Step(a, c).1 != Target(c) {
      ReadsText(Step(a, c).0, MapStep(h, c).0, Target(c));
    }
  }

  ghost function Fresh(base: nat): Heap {
    Heap(base, base, map[], map[])
  }

  /** Each position after base up to last lies in exactly one slot, and from the end of a slot's string
      to the end of the slot there are only NULs. */
  lemma Tiling(a: Area, h: Heap, p: nat) returns (o: nat)
    requires Represents(a, h) && h.base < p <= a.last
    ensures Owns(h, o, p) && forall o' :: Owns(h, o', p) ==> o' == o
    ensures o in h.text && |h.text[o]| <= h.cap[o] && StringAt(a.bytes, o) == h.text[o]
    ensures o + |h.text[o]| <= p ==> a.bytes[p] == NUL
  {
    assert Covered(h, p);
    o :| Owns(h, o, p);
    ReadsText(a, h, o);
  }

  /** The heap invariant of every state that a run from a new area reaches. */
  lemma ReachableTiling(bytes: seq<char>, base: nat, cs: seq<Command>, p: nat) returns (o: nat)
    requires base < |bytes| && OwnedRun(Fresh(base), cs) && RoomyRun(Fresh(base), cs, |bytes|)
    requires base < p <= MapRun(Fresh(base), cs).0.last
    ensures SafeRun(Area(bytes, base), cs)
    ensures var (a, h) := (Run(Area(bytes, base), cs).0, MapRun(Fresh(base), cs).0);
            && p <= a.last < |a.bytes| && Owns(h, o, p) && (forall o' :: Owns(h, o', p) ==> o' == o)
            && o in h.text && StringAt(a.bytes, o) == h.text[o]
            && (o + |h.text[o]| <= p ==> a.bytes[p] == NUL)
  {
    var a := Area(bytes, base);
    EmptyArea(bytes, base);
    RunRefines(a, Fresh(base), cs);
    MapRunBase(Fresh(base), cs);
    o := Tiling(Run(a, cs).0, MapRun(Fresh(base), cs).0, p);
  }

  lemma {:induction false} MapRunBase(h: Heap, cs: seq<Command>)
    requires OwnedRun(h, cs)
    ensures MapRun(h, cs).0.base == h.base
    decreases |cs|
  {
    if cs != [] {
      MapRunBase(MapStep(h, cs[0]).0, cs[1..]);
    }
  }

  // ----- space -----

  ghost function Cost(cs: seq<Command>): nat {
    if cs == [] then 0 else (if cs[0].Clear? then 0 else |Payload(cs[0])| + 1) + Cost(cs[1..])
  }

  /** last moves by length + 1 on an append and by nothing on reuse, and reuse happens exactly when the
      new string is no longer than the one now at the offset. */
  lemma StepSpace(a: Area, h: Heap, c: Command)
    requires Represents(a, h) && Owned(h, c) && HasRoom(h, c, |a.bytes|) && !c.Clear?
    ensures SafeStep(a, c)
    ensures var reuse := Target(c) != 0 && |Payload(c)| <= |StringAt(a.bytes, Target(c))|;
            && (Step(a, c).1 == Target(c) <==> reuse)
            && Step(a, c).0.last == a.last + if reuse then 0 else |Payload(c)| + 1
  {
    StepRefines(a, h, c);
    if Target(c) in h.text {
      ClearRefines(a, h, Target(c));
    }
  }

  /** A run whose insertions cost no more than the free space never leaves the region, whatever it replaces. */
  lemma {:induction false} BudgetSuffices(h: Heap, cs: seq<Command>, size: nat)
    requires OwnedRun(h, cs) && h.last + Cost(cs) < size
    ensures RoomyRun(h, cs, size)
    ensures h.last <= MapRun(h, cs).0.last <= h.last + Cost(cs)
    decreases |cs|
  {
    if cs != [] {
      BudgetSuffices(MapStep(h, cs[0]).0, cs[1..], size);
    }
  }

  /** So a run from a new area whose inserted lengths plus one each add up to at most what is free is safe
      as a whole, and represents its map at the end. */
  lemma BudgetedRunIsSafe(bytes: seq<char>, base: nat, cs: seq<Command>)
    requires OwnedRun(Fresh(base), cs) && base + Cost(cs) < |bytes|
    ensures SafeRun(Area(bytes, base), cs)
    ensures Represents(Run(Area(bytes, base), cs).0, MapRun(Fresh(base), cs).0)
    ensures base <= Run(Area(bytes, base), cs).0.last <= base + Cost(cs)
  {
    EmptyArea(bytes, base);
    BudgetSuffices(Fresh(base), cs, |bytes|);
    RunRefines(Area(bytes, base), Fresh(base), cs);
  }

  // ----- persistence -----

  /** What a handed-out offset reads survives every run that does not name it. */
  lemma {:induction false} RunFrame(a: Area, h: Heap, cs: seq<Command>, o: nat)
    requires Represents(a, h) && OwnedRun(h, cs) && RoomyRun(h, cs, |a.bytes|)
    requires o in h.text && forall c :: c in cs ==> Target(c) != o
    ensures SafeRun(a, cs) && o < |a.bytes| == |Run(a, cs).0.bytes|
    ensures StringAt(Run(a, cs).0.bytes, o) == StringAt(a.bytes, o)
    decreases |cs|
  {
    if cs == [] {
      ReadsText(a, h, o);
    } else {
      StepFrame(a, h, cs[0], o);
      StepRefines(a, h, cs[0]);
      RunFrame(Step(a, cs[0]).0, MapStep(h, cs[0]).0, cs[1..], o);
    }
  }

  /** c stores something, and then cs runs without naming the offset that c returned. */
  ghost predicate StoredThen(a: Area, h: Heap, c: Command, cs: seq<Command>) {
    && Represents(a, h) && Owned(h, c) && HasRoom(h, c, |a.bytes|) && !c.Clear?
    && OwnedRun(MapStep(h, c).0, cs) && RoomyRun(MapStep(h, c).0, cs, |a.bytes|)
    && forall d :: d in cs ==> Target(d) != MapStep(h, c).1
  }

  /** A stored string, vector or map is there unchanged after any later run at other offsets. */
  lemma StoredSurvives(a: Area, h: Heap, c: Command, cs: seq<Command>)
    requires StoredThen(a, h, c, cs)
    ensures SafeRun(a, [c] + cs)
    ensures var (end, rs) := Run(a, [c] + cs);
            rs != [] && rs[0] < |end.bytes| && StringAt(end.bytes, rs[0]) == Payload(c)
  {
    StepRefines(a, h, c);
    InsertEffect(a, h, c, 0);
    RunFrame(Step(a, c).0, MapStep(h, c).0, cs, MapStep(h, c).1);
    assert ([c] + cs)[1..] == cs;
  }

  /** A string without NUL that is inserted is what its offset reads, at once and after any later run at other
      offsets. */
  lemma InsertedText(a: Area, h: Heap, offset: nat, s: string, cs: seq<Command>)
    requires NUL !in s && StoredThen(a, h, Insert(offset, s), cs)
    ensures SafeRun(a, [Insert(offset, s)]) && SafeRun(a, [Insert(offset, s)] + cs)
    ensures var (now, r) := Step(a, Insert(offset, s));
            r < |now.bytes| && StringAt(now.bytes, r) == s
    ensures var (end, rs) := Run(a, [Insert(offset, s)] + cs);
            rs != [] && rs[0] < |end.bytes| && StringAt(end.bytes, rs[0]) == s
  {
    CStrOfClean(s);
    InsertEffect(a, h, Insert(offset, s), 0);
    StoredSurvives(a, h, Insert(offset, s), cs);
  }

  /** The same for a string that is added, right after the last one. */
  lemma AddedText(a: Area, h: Heap, s: string, cs: seq<Command>)
    requires NUL !in s && StoredThen(a, h, Add(s), cs)
    ensures SafeRun(a, [Add(s)]) && SafeRun(a, [Add(s)] + cs)
    ensures var (now, r) := Step(a, Add(s));
            r == a.last + 1 < |now.bytes| && StringAt(now.bytes, r) == s && now.last == a.last + 1 + |s|
    ensures var (end, rs) := Run(a, [Add(s)] + cs);
            rs != [] && rs[0] < |end.bytes| && StringAt(end.bytes, rs[0]) == s
  {
    CStrOfClean(s);
    InsertEffect(a, h, Add(s), 0);
    StoredSurvives(a, h, Add(s), cs);
  }

  /** A vector stored at an offset decodes to itself after any later run at other offsets,
      exactly when its elements are storable. */
  lemma VectorSurvives(a: Area, h: Heap, offset: nat, v: seq<string>, cs: seq<Command>)
    requires StoredThen(a, h, InsertVector(offset, v), cs)
    ensures SafeRun(a, [InsertVector(offset, v)] + cs)
    ensures var (end, rs) := Run(a, [InsertVector(offset, v)] + cs);
            && rs != [] && rs[0] < |end.bytes|
            && (DecodeVector(StringAt(end.bytes, rs[0])) == v <==> forall x :: x in v ==> StorableElement(x))
  {
    StoredSurvives(a, h, InsertVector(offset, v), cs);
    VectorRoundTrip(v);
  }

  /** The same for a map, in whatever order its entries were written. */
  lemma MapSurvives(a: Area, h: Heap, offset: nat, pairs: Pairs, m: map<string, string>, cs: seq<Command>)
    requires StoredThen(a, h, InsertMap(offset, pairs), cs) && Lists(pairs, m)
    ensures SafeRun(a, [InsertMap(offset, pairs)] + cs)
    ensures var (end, rs) := Run(a, [InsertMap(offset, pairs)] + cs);
            && rs != [] && rs[0] < |end.bytes|
            && (DecodeMap(StringAt(end.bytes, rs[0])) == m <==> StorableMap(m))
  {
    StoredSurvives(a, h, InsertMap(offset, pairs), cs);
    var (end, rs) := Run(a, [InsertMap(offset, pairs)] + cs);
    MapTextRoundTrip(StringAt(end.bytes, rs[0]), pairs, m);
  }

  lemma MapTextRoundTrip(text: string, pairs: Pairs, m: map<string, string>)
    requires text == CStr(EncodeMap(pairs)) && Lists(pairs, m)
    ensures DecodeMap(text) == m <==> StorableMap(m)
  {
    MapRoundTrip(pairs, m);
  }
}
