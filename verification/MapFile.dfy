/** MapFile: the life of a memory map and its descriptor when any system call may fail, and zero. */
module MapFile {
  import opened Text

  const MAP_FAILED: int := -1

  // ----- the life cycle -----

  /** What the kernel holds open and mapped for the process, and the fields of one MapFile object. */
  datatype State = State(fds: set<nat>, maps: set<int>, descriptor: Option<nat>, address: int, isMapped: bool)

  /** A call, with what the kernel answers: a descriptor or a failed open, an address or a failed mmap,
      and whether munmap and close succeed. A failed close leaves the descriptor open. */
  datatype Event =
    | Map(fd: Option<nat>, at: Option<int>)
    | Unmap(unmapped: bool, closed: bool)
    | Destroy(closed: bool)

  /** The kernel hands out descriptors and addresses that are not in use. */
  predicate Possible(s: State, e: Event) {
    e.Map? ==>
      && (e.fd.Some? ==> e.fd.value !in s.fds)
      && (e.at.Some? ==> e.at.value !in s.maps && e.at.value != 0 && e.at.value != MAP_FAILED)
  }

  /** The caller maps only without a descriptor, and unmaps only what is mapped. */
  predicate Guarded(s: State, e: Event) {
    match e
    case Map(_, _) => s.descriptor.None?
    case Unmap(_, _) => s.isMapped
    case Destroy(_) => false
  }

  function OpenFd(s: State, fd: Option<nat>): State {
    match fd
    case None => s
    case Some(n) => s.(fds := s.fds + {n}, descriptor := fd)
  }

  function MapMem(s: State, at: Option<int>): State {
    match at
    case None => s.(address := MAP_FAILED, isMapped := false)
    case Some(a) => s.(maps := s.maps + {a}, address := a, isMapped := true)
  }

  function UnmapMem(s: State, unmapped: bool): State {
    if unmapped then s.(maps := s.maps - {s.address}, isMapped := false) else s.(isMapped := true)
  }

  function CloseFd(s: State, closed: bool): State {
    if closed && s.descriptor.Some? then s.(fds := s.fds - {s.descriptor.value}, descriptor := None) else s
  }

  function Step(s: State, e: Event): State {
    match e
    case Map(fd, at) =>
      if fd.None? then s else MapMem(OpenFd(s, fd), at)
    case Unmap(unmapped, closed) =>
      if unmapped then CloseFd(UnmapMem(s, true), closed) else UnmapMem(s, false)
    case Destroy(closed) =>
      CloseFd(s, closed)
  }

  ghost predicate IsRun(s: State, es: seq<Event>)
    decreases |es|
  {
    es == [] || (Possible(s, es[0]) && Guarded(s, es[0]) && IsRun(Step(s, es[0]), es[1..]))
  }

  ghost function After(s: State, es: seq<Event>): State
    decreases |es|
  {
    if es == [] then s else After(Step(s, es[0]), es[1..])
  }

  function Initial(fds: set<nat>, maps: set<int>): State {
    State(fds, maps, None, 0, false)
  }

  /** Beyond what is held elsewhere, the kernel holds exactly the mapping that isMapped reports and exactly the
      descriptor that the object points to. */
  ghost predicate Owns(s: State, fds: set<nat>, maps: set<int>) {
    && (s.descriptor.Some? ==> s.descriptor.value !in fds)
    && s.fds == fds + (if s.descriptor.Some? then {s.descriptor.value} else {})
    && (s.isMapped ==> s.address !in maps && s.address != 0 && s.address != MAP_FAILED && s.descriptor.Some?)
    && s.maps == maps + (if s.isMapped then {s.address} else {})
  }

  lemma StepOwns(s: State, e: Event, fds: set<nat>, maps: set<int>)
    requires Owns(s, fds, maps) && Possible(s, e) && Guarded(s, e)
    ensures Owns(Step(s, e), fds, maps)
  {}

  /** After every guarded run, whichever calls failed: is_mapped holds exactly when the kernel holds the
      mapping, and the object has a descriptor exactly when one more is open. So when it reports neither,
      nothing has leaked. */
  lemma {:induction false} RunOwns(s: State, es: seq<Event>, fds: set<nat>, maps: set<int>)
    requires Owns(s, fds, maps) && IsRun(s, es)
    ensures Owns(After(s, es), fds, maps)
    decreases |es|
  {
    if es != [] {
      StepOwns(s, es[0], fds, maps);
      RunOwns(Step(s, es[0]), es[1..], fds, maps);
    }
  }

  lemma LifeCycle(es: seq<Event>, fds: set<nat>, maps: set<int>)
    requires IsRun(Initial(fds, maps), es)
    ensures var s := After(Initial(fds, maps), es);
            && (s.isMapped <==> s.maps != maps)
            && (s.descriptor.Some? <==> s.fds != fds)
            && (s.isMapped ==> s.maps - maps == {s.address} && s.descriptor.Some?)
            && (s.descriptor.Some? ==> s.fds - fds == {s.descriptor.value})
  {
    RunOwns(Initial(fds, maps), es, fds, maps);
    var s := After(Initial(fds, maps), es);
    assert s.isMapped ==> s.address in s.maps;
    assert s.descriptor.Some? ==> s.descriptor.value in s.fds;
  }

  /** The guard is what keeps descriptors: mapping with a successful open keeps ownership exactly when the
      object had no descriptor before. */
  lemma GuardNeeded(s: State, e: Event, fds: set<nat>, maps: set<int>)
    requires Owns(s, fds, maps) && Possible(s, e) && e.Map? && e.fd.Some?
    ensures Owns(Step(s, e), fds, maps) <==> s.descriptor.None?
  {
    if s.descriptor.Some? {
      assert s.descriptor.value in Step(s, e).fds;
    }
  }

  /** The guard of unmapping is exact as well, up to an munmap of an address that was never mapped: it keeps
      ownership exactly when the memory is mapped, or munmap succeeds and takes no other mapping away. So after a
      failed mmap, an munmap that fails makes is_mapped hold with nothing mapped. */
  lemma UnmapGuardNeeded(s: State, unmapped: bool, closed: bool, fds: set<nat>, maps: set<int>)
    requires Owns(s, fds, maps)
    ensures Owns(Step(s, Unmap(unmapped, closed)), fds, maps) <==> s.isMapped || (unmapped && s.address !in maps)
  {
    if !s.isMapped {
      assert s.maps == maps && maps - {s.address} == maps <==> s.address !in maps;
      assert maps + {s.address} == maps <==> s.address in maps;
    }
  }

  /** A failed mmap or a failed close is final: no guarded call is possible any more, until destruction,
      which gives the descriptor back exactly if close succeeds then. */
  lemma FailureIsFinal(s: State, e: Event, fds: set<nat>, maps: set<int>)
    requires Owns(s, fds, maps) && s.descriptor.Some? && !s.isMapped
    ensures !e.Destroy? ==> !Guarded(s, e)
    ensures e.Destroy? ==> Step(s, e).maps == maps && (Step(s, e).fds == fds <==> e.closed)
  {
    assert s.descriptor.value in s.fds;
  }

  /** What destruction leaves behind after any guarded run: nothing is left mapped exactly if is_mapped did not
      hold, and nothing is left open exactly if there was no descriptor or close succeeds. A mapping that
      exists at that moment is leaked. */
  lemma DestructionExact(es: seq<Event>, fds: set<nat>, maps: set<int>, closed: bool)
    requires IsRun(Initial(fds, maps), es)
    ensures var s := After(Initial(fds, maps), es);
            var gone := Step(s, Destroy(closed));
            && (gone.maps == maps <==> !s.isMapped)
            && (gone.fds == fds <==> s.descriptor.None? || closed)
            && (s.isMapped ==> gone.maps - maps == {s.address})
  {
    RunOwns(Initial(fds, maps), es, fds, maps);
    LifeCycle(es, fds, maps);
    var s := After(Initial(fds, maps), es);
    assert s.descriptor.Some? ==> s.descriptor.value in s.fds;
  }

  /** Mapping and then unmapping, when every call succeeds: in between there is exactly one more descriptor and
      one more mapping, which the object reports, and afterwards the kernel holds what it held before. */
  lemma MapThenUnmap(fds: set<nat>, maps: set<int>, fd: nat, at: int)
    requires Possible(Initial(fds, maps), Map(Some(fd), Some(at)))
    ensures var s := Step(Initial(fds, maps), Map(Some(fd), Some(at)));
            && s.isMapped && s.address == at && s.descriptor == Some(fd)
            && s.maps == maps + {at} && at !in maps && s.fds == fds + {fd} && fd !in fds
            && Guarded(s, Unmap(true, true))
    ensures var s := After(Initial(fds, maps), [Map(Some(fd), Some(at)), Unmap(true, true)]);
            s.maps == maps && s.fds == fds && !s.isMapped && s.descriptor.None?
  {
    var es := [Map(Some(fd), Some(at)), Unmap(true, true)];
    var s := Step(Initial(fds, maps), es[0]);
    assert es[1..] == [Unmap(true, true)] && es[1..][1..] == [];
    assert After(s, es[1..]) == After(Step(s, Unmap(true, true)), []);
  }

  // ----- the object -----

  class MapFile {
    var fds: set<nat>
    var maps: set<int>
    var descriptor: Option<nat>
    var address: int
    var isMapped: bool

    ghost function Snapshot(): State
      reads this
    {
      State(fds, maps, descriptor, address, isMapped)
    }

    constructor (fds: set<nat>, maps: set<int>)
      ensures Snapshot() == Initial(fds, maps)
    {
      this.fds := fds;
      this.maps := maps;
      descriptor := None;
      address := 0;
      isMapped := false;
    }

    method OpenDescriptor(fd: Option<nat>) returns (ok: bool)
      modifies this
      ensures Snapshot() == OpenFd(old(Snapshot()), fd) && ok == fd.Some?
    {
      if fd.None? {
        return false;
      }
      fds := fds + {fd.value};
      descriptor := fd;
      ok := true;
    }

    method CloseDescriptor(closed: bool) returns (ok: bool)
      requires descriptor.Some?
      modifies this
      ensures Snapshot() == CloseFd(old(Snapshot()), closed) && ok == closed
    {
      if !closed {
        return false;
      }
      fds := fds - {descriptor.value};
      descriptor := None;
      ok := true;
    }

    method MapMemory(at: Option<int>) returns (ok: bool)
      requires descriptor.Some?
      modifies this
      ensures Snapshot() == MapMem(old(Snapshot()), at) && ok == at.Some?
    {
      address := if at.Some? then at.value else MAP_FAILED;
      if at.None? {
        isMapped := false;
        return false;
      }
      maps := maps + {at.value};
      isMapped := true;
      ok := true;
    }

    method UnmapMemory(unmapped: bool) returns (ok: bool)
      requires address != 0
      modifies this
      ensures Snapshot() == UnmapMem(old(Snapshot()), unmapped) && ok == unmapped
    {
      if !unmapped {
        isMapped := true;
        return false;
      }
      maps := maps - {address};
      isMapped := false;
      ok := true;
    }

    /** Opens the file and maps it; false when one of the two fails. A failed mmap leaves the file open. */
    method MapIt(fd: Option<nat>, at: Option<int>) returns (ok: bool)
      modifies this
      ensures Snapshot() == Step(old(Snapshot()), Map(fd, at))
      ensures ok <==> fd.Some? && at.Some?
      ensures ok ==> isMapped && address == at.value && maps == old(maps) + {at.value}
      ensures fd.None? ==> maps == old(maps) && isMapped == old(isMapped) && address == old(address) &&
                           fds == old(fds) && descriptor == old(descriptor)
      ensures fd.Some? ==> fds == old(fds) + {fd.value} && descriptor == fd
      ensures fd.Some? && at.None? ==> !isMapped && address == MAP_FAILED && maps == old(maps)
    {
      ok := OpenDescriptor(fd);
      if ok {
        ok := MapMemory(at);
      }
    }

    /** Unmaps the memory and closes the file; a failed munmap leaves both as they are. */
    method UnmapIt(unmapped: bool, closed: bool) returns (ok: bool)
      requires address != 0 && descriptor.Some?
      modifies this
      ensures Snapshot() == Step(old(Snapshot()), Unmap(unmapped, closed))
      ensures ok <==> unmapped && closed
      ensures ok ==> !isMapped && maps == old(maps) - {old(address)} &&
                     descriptor.None? && fds == old(fds) - {old(descriptor).value}
      ensures !unmapped ==> isMapped && maps == old(maps) && descriptor == old(descriptor) && fds == old(fds)
      ensures unmapped && !closed ==> !isMapped && maps == old(maps) - {old(address)} &&
                                      descriptor == old(descriptor) && fds == old(fds)
      ensures address == old(address)
    {
      ok := UnmapMemory(unmapped);
      if ok {
        ok := CloseDescriptor(closed);
      }
    }

    method Destructor(closed: bool)
      modifies this
      ensures Snapshot() == Step(old(Snapshot()), Destroy(closed))
      ensures maps == old(maps) && isMapped == old(isMapped)
      ensures if old(descriptor).Some? && closed then descriptor.None? && fds == old(fds) - {old(descriptor).value}
              else descriptor == old(descriptor) && fds == old(fds)
    {
      if descriptor.Some? {
        var _ := CloseDescriptor(closed);
      }
    }
  }

  // ----- zero -----

  function Zeros(n: nat): seq<int> {
    seq(n, _ => 0)
  }

  /** A file with its first n bytes set to zero, and longer if it had fewer. */
  function Zeroed(content: seq<int>, n: nat): seq<int> {
    Zeros(n) + if n <= |content| then content[n..] else []
  }

  /** A descriptor open for writing, not truncated; a write may be short, and it may fail and write nothing. */
  class OutputFile {
    var content: seq<int>
    var position: nat
    /** How many writes have failed, and how many have been short. */
    ghost var failures: nat
    ghost var shorts: nat

    constructor (content: seq<int>)
      ensures this.content == content && position == 0 && failures == 0 == shorts
    {
      this.content := content;
      position := 0;
      failures, shorts := 0, 0;
    }

    method WriteZeros(n: nat) returns (status: Option<nat>)
      requires position <= |content|
      modifies this
      ensures status.None? ==> position == old(position) && content == old(content)
      ensures failures == old(failures) + if status.None? then 1 else 0
      ensures shorts == old(shorts) + if status.Some? && status.value < n then 1 else 0
      ensures status.Some? ==> status.value <= n && position == old(position) + status.value <= |content|
      ensures status.Some? ==>
                content == old(content)[..old(position)] + Zeros(status.value) +
                           if position <= |old(content)| then old(content)[position..] else []
    {
      if * {
        failures := failures + 1;
        return None;
      }
      var count: nat :| count <= n;
      var tail := if position + count <= |content| then content[position + count..] else [];
      content := content[..position] + Zeros(count) + tail;
      position := position + count;
      shorts := shorts + if count < n then 1 else 0;
      status := Some(count);
    }
  }

  lemma ZeroedMore(content: seq<int>, n: nat, k: nat)
    ensures n <= |Zeroed(content, n)|
    ensures Zeroed(content, n)[..n] + Zeros(k) +
            (if n + k <= |Zeroed(content, n)| then Zeroed(content, n)[n + k..] else []) == Zeroed(content, n + k)
  {}

  /** zero: as many pages of zeros as fit into offset and size. It throws at the first write that fails; written
      says how many bytes really went out, and short whether some write was cut short, which the code does not
      look at. */
  method Zero(file: OutputFile, size: nat, offset: nat, pageSize: nat)
    returns (ok: bool, written: nat, short: bool)
    requires pageSize > 0 && size % pageSize == 0 && offset % pageSize == 0 && file.position == 0
    modifies file
    ensures written <= size + offset && (written == size + offset <==> ok && !short)
    ensures file.content == Zeroed(old(file.content), written)
    ensures ok <==> file.failures == old(file.failures)
    ensures short <==> file.shorts > old(file.shorts)
  {
    var pageNum := (size + offset) / pageSize;
    PagesFill(size, offset, pageSize);
    ok, written, short := true, 0, false;
    for i := 0 to pageNum
      invariant file.position == written <= i * pageSize && (short <==> written < i * pageSize)
      invariant file.content == Zeroed(old(file.content), written)
      invariant file.failures == old(file.failures) && file.shorts >= old(file.shorts)
      invariant short <==> file.shorts > old(file.shorts)
    {
      ZeroedMore(old(file.content), written, 0);
      var status := file.WriteZeros(pageSize);
      OnePageMore(i, pageNum, pageSize);
      if status.None? {
        return false, written, short;
      }
      ZeroedMore(old(file.content), written, status.value);
      short := short || status.value < pageSize;
      written := written + status.value;
    }
  }

  lemma OnePageMore(i: nat, n: nat, pageSize: nat)
    requires i < n
    ensures (i + 1) * pageSize == i * pageSize + pageSize <= n * pageSize
  {
    assert n * pageSize == (i + 1) * pageSize + (n - i - 1) * pageSize;
    assert (n - i - 1) * pageSize >= 0;
  }

  lemma QuotientUnique(q: int, k: int, p: int, r: int)
    requires q * p == k * p + r && 0 <= r < p
    ensures q == k
  {
    assert (q - k) * p == r;
    assert q - k >= 1 ==> (q - k) * p >= p;
    assert q - k <= -1 ==> (q - k) * p <= -p;
  }

  lemma PagesFill(size: nat, offset: nat, pageSize: nat)
    requires pageSize > 0 && size % pageSize == 0 && offset % pageSize == 0
    ensures (size + offset) / pageSize * pageSize == size + offset
  {
    var total := size + offset;
    var q := size / pageSize + offset / pageSize;
    assert q * pageSize == size / pageSize * pageSize + offset / pageSize * pageSize == total;
    QuotientUnique(q, total / pageSize, pageSize, total % pageSize);
  }

  /** Once everything is written, the file has the length the map needs exactly when it was not longer before. */
  lemma ZeroLength(content: seq<int>, size: nat, offset: nat)
    ensures |Zeroed(content, size + offset)| == size + offset <==> |content| <= size + offset
    ensures Zeroed(content, size + offset)[..size + offset] == Zeros(size + offset)
  {}
}
