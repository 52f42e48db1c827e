/** What make_path does to a file tree, for every absolute name. */
module PathMaking {
  import opened Text
  import opened FileNames
  import opened FileTree

  /** How an operation ends: whether it returns normally, and the tree it leaves. */
  datatype Outcome = Outcome(ok: bool, tree: Tree)

  /** The target of make_dir afterwards: made with exactly perm, or an existing node whose mode is set if the
      process owns it and it passes for a directory. */
  function Target(t: Tree, p: Path, perm: bv12): Node {
    if p !in t then Node(Directory, perm, true)
    else if HasDirectoryBit(t[p].kind) && t[p].mine then t[p].(mode := perm)
    else t[p]
  }

  function Put(t: Tree, p: Path, perm: bv12): Tree {
    t[p := Target(t, p, perm)]
  }

  /** make_dir: it returns normally when the name exists or can be made. */
  function DirMaking(t: Tree, umask: bv12, name: string, perm: bv12): Outcome {
    if Stat(t, name).Some? || Mkdir(t, umask, name, perm).Some?
    then Outcome(true, Put(t, End([], Components(name)), perm))
    else Outcome(false, t)
  }

  /** Going from e to one of its entries, which is made if it is missing. */
  function Step(t: Tree, e: Path, c: string, perm: bv12): Option<Tree> {
    var q := Next(e, c);
    if Enters(t, e) && (q in t || Writable(t[e])) then Some(Put(t, q, perm)) else None
  }

  /** Such steps through the components that cannot be walked, the last one with a mode of its own. */
  function Steps(t: Tree, cs: seq<string>, inner: bv12, last: bv12): Outcome
    decreases |cs|
  {
    if cs == [] || Walk(t, cs).Some? then Outcome(true, t)
    else
      var init := cs[..|cs| - 1];
      var before := Steps(t, init, inner, inner);
      if !before.ok then before
      else
        match Step(before.tree, End([], init), cs[|cs| - 1], last)
        case None => Outcome(false, before.tree)
        case Some(t') => Outcome(true, t')
  }

  /** make_path on components: a trailing slash demands that the last one is a directory. */
  function Making(t: Tree, name: string, perm: bv12): Outcome {
    var cs := Components(name);
    if Walk(t, cs).Some? then
      if Stat(t, name).Some? then Outcome(true, Put(t, End([], cs), perm)) else Outcome(false, t)
    else
      var made := Steps(t, cs, perm | S_IRWXU, perm);
      if made.ok && Trailing(name) && !IsDirectory(made.tree, End([], cs))
      then Outcome(false, Steps(t, cs, perm | S_IRWXU, perm | S_IRWXU).tree)
      else made
  }

  // ----- steps keep the tree valid and lead where the name leads -----

  ghost predicate CleanNames(cs: seq<string>) {
    forall c :: c in cs ==> Clean(c, SLASH)
  }

  lemma ComponentsAreClean(name: string)
    ensures CleanNames(Components(name))
  {
    forall c | c in Components(name) ensures Clean(c, SLASH) {
      TokensAreClean(name, SLASH, c);
    }
  }

  /** In a valid tree only a proper entry name can be missing. */
  lemma MissingEntry(t: Tree, e: Path, c: string)
    requires ValidTree(t) && e in t && Next(e, c) !in t
    ensures c != "." && c != ".." && Next(e, c) == e + [c] && Parent(Next(e, c)) == e
  {}

  lemma PutExisting(t: Tree, q: Path, perm: bv12)
    requires ValidTree(t) && q in t
    ensures ValidTree(Put(t, q, perm))
  {}

  lemma StepValid(t: Tree, e: Path, c: string, perm: bv12)
    requires ValidTree(t) && Clean(c, SLASH) && Step(t, e, c, perm).Some?
    ensures ValidTree(Step(t, e, c, perm).value)
  {
    var q := Next(e, c);
    if q in t {
      PutExisting(t, q, perm);
    } else {
      MissingEntry(t, e, c);
    }
  }

  lemma {:induction false} StepsValid(t: Tree, cs: seq<string>, inner: bv12, last: bv12)
    requires ValidTree(t) && CleanNames(cs)
    ensures ValidTree(Steps(t, cs, inner, last).tree)
    decreases |cs|
  {
    if cs != [] && Walk(t, cs).None? {
      var init, c := cs[..|cs| - 1], cs[|cs| - 1];
      assert c in cs && forall x :: x in init ==> x in cs;
      StepsValid(t, init, inner, inner);
      var x := Steps(t, init, inner, inner).tree;
      if Step(x, End([], init), c, last).Some? {
        StepValid(x, End([], init), c, last);
      }
    }
  }

  /** t' has the nodes of t, and what could be entered still can. */
  ghost predicate Grows(t: Tree, t': Tree) {
    forall q :: q in t ==> q in t' && t'[q].kind == t[q].kind && (Enters(t, q) ==> Enters(t', q))
  }

  lemma {:induction false} WalkGrows(t: Tree, t': Tree, cs: seq<string>)
    requires Grows(t, t') && Walk(t, cs).Some?
    ensures Walk(t', cs) == Walk(t, cs)
  {
    if cs != [] {
      WalkGrows(t, t', cs[..|cs| - 1]);
    }
  }

  lemma PutGrows(t: Tree, q: Path, perm: bv12)
    ensures Grows(t, Put(t, q, perm | S_IRWXU))
  {
    OwnerRights(perm, Node(Directory, perm | S_IRWXU, true));
  }

  lemma GrowsOn(t0: Tree, t1: Tree, t2: Tree)
    requires Grows(t0, t1) && Grows(t1, t2)
    ensures Grows(t0, t2)
  {}

  /** After the steps, the components can be walked. */
  lemma {:induction false} StepsReach(t: Tree, cs: seq<string>, perm: bv12)
    requires ValidTree(t) && Steps(t, cs, perm | S_IRWXU, perm | S_IRWXU).ok
    ensures var t' := Steps(t, cs, perm | S_IRWXU, perm | S_IRWXU).tree;
            Grows(t, t') && Walk(t', cs) == Some(End([], cs))
    decreases |cs|
  {
    if cs == [] || Walk(t, cs).Some? {
      WalkReaches(t, cs);
    } else {
      var init, c := cs[..|cs| - 1], cs[|cs| - 1];
      StepsReach(t, init, perm);
      var x := Steps(t, init, perm | S_IRWXU, perm | S_IRWXU).tree;
      var q := Next(End([], init), c);
      var t' := Put(x, q, perm | S_IRWXU);
      PutGrows(x, q, perm);
      GrowsOn(t, x, t');
      WalkGrows(x, t', init);
    }
  }

  // ----- make_path is those steps -----

  lemma PutTwice(t: Tree, q: Path, inner: bv12, last: bv12)
    ensures Put(Put(t, q, inner), q, last) == Put(t, q, last)
  {
    DirectoryBit(Directory);
  }

  /** A directory reached by walking and one more step: make_dir on the name is that step. */
  lemma DirMakingStep(t: Tree, umask: bv12, name: string, perm: bv12)
    requires ValidTree(t) && Absolute(name) && !Trailing(name) && Components(name) != []
    requires var cs := Components(name); Walk(t, cs[..|cs| - 1]).Some?
    ensures var cs := Components(name);
            var e, c := End([], cs[..|cs| - 1]), cs[|cs| - 1];
            DirMaking(t, umask, name, perm) ==
              match Step(t, e, c, perm) case None => Outcome(false, t) case Some(t') => Outcome(true, t')
  {
    var cs := Components(name);
    var e, c := End([], cs[..|cs| - 1]), cs[|cs| - 1];
    var q := Next(e, c);
    WalkReaches(t, cs[..|cs| - 1]);
    assert End([], cs) == q;
    assert Walk(t, cs) == if Enters(t, e) && q in t then Some(q) else None;
    assert Locate(t, cs) == if Enters(t, e) then Some(q) else None;
    if q !in t {
      MissingEntry(t, e, c);
    }
  }

  /** If a name can be walked, nothing is missing for mkdir to make. */
  lemma NothingToMake(t: Tree, umask: bv12, name: string, perm: bv12)
    requires Walk(t, Components(name)).Some?
    ensures Mkdir(t, umask, name, perm).None?
  {}

  /** With the parent in place, make_dir alone does what make_path does. */
  lemma ParentSeen(t: Tree, umask: bv12, name: string, perm: bv12)
    requires ValidTree(t) && Absolute(name) && Stat(t, ParentName(name)).Some?
    ensures Making(t, name, perm) == DirMaking(t, umask, name, perm)
  {
    ParentComponents(name);
    var cs := Components(name);
    if Walk(t, cs).Some? {
      NothingToMake(t, umask, name, perm);
    } else {
      DirMakingStep(t, umask, name, perm);
      assert Steps(t, cs[..|cs| - 1], perm | S_IRWXU, perm | S_IRWXU) == Outcome(true, t);
    }
  }

  /** Without it, make_path is make_path on the parent, with the owner's rights added to the mode, and then
      make_dir. */
  lemma ParentUnseen(t: Tree, umask: bv12, name: string, perm: bv12)
    requires ValidTree(t) && Absolute(name) && Stat(t, ParentName(name)).None?
    ensures var above := Making(t, ParentName(name), perm | S_IRWXU);
            Making(t, name, perm) == if above.ok then DirMaking(above.tree, umask, name, perm) else above
  {
    OwnerRights(perm, Node(Directory, perm | S_IRWXU, true));
    ParentComponents(name);
    if Trailing(name) {
      UnseenTrailing(t, umask, name, perm);
    } else {
      UnseenParent(t, umask, name, perm);
    }
  }

  lemma UnseenTrailing(t: Tree, umask: bv12, name: string, perm: bv12)
    requires ValidTree(t) && Absolute(name) && Stat(t, ParentName(name)).None?
    requires Trailing(name) && Components(ParentName(name)) == Components(name)
    requires (perm | S_IRWXU) | S_IRWXU == perm | S_IRWXU
    ensures var above := Making(t, ParentName(name), perm | S_IRWXU);
            Making(t, name, perm) == if above.ok then DirMaking(above.tree, umask, name, perm) else above
  {
    var cs, inner := Components(name), perm | S_IRWXU;
    if Walk(t, cs).None? {
      var above := Steps(t, cs, inner, inner);
      StepsLast(t, cs, inner, perm);
      if above.ok {
        StepsReach(t, cs, perm);
        NothingToMake(above.tree, umask, name, perm);
      }
    }
  }

  /** The mode of the last step only matters for its target, which can be put right afterwards. */
  lemma StepsLast(t: Tree, cs: seq<string>, inner: bv12, last: bv12)
    requires Walk(t, cs).None? && ValidTree(t)
    ensures var a, b := Steps(t, cs, inner, inner), Steps(t, cs, inner, last);
            b == if a.ok then Outcome(true, Put(a.tree, End([], cs), last)) else a
  {
    assert cs != [];
    var init := cs[..|cs| - 1];
    PutTwice(Steps(t, init, inner, inner).tree, End([], cs), inner, last);
  }

  lemma UnseenParent(t: Tree, umask: bv12, name: string, perm: bv12)
    requires ValidTree(t) && Absolute(name) && Stat(t, ParentName(name)).None? && !Trailing(name)
    requires var cs := Components(name); cs != [] && Components(ParentName(name)) == cs[..|cs| - 1]
    requires (perm | S_IRWXU) | S_IRWXU == perm | S_IRWXU
    ensures var above := Making(t, ParentName(name), perm | S_IRWXU);
            Making(t, name, perm) == if above.ok then DirMaking(above.tree, umask, name, perm) else above
  {
    var cs := Components(name);
    var init := cs[..|cs| - 1];
    if Walk(t, init).None? {
      var above := Steps(t, init, perm | S_IRWXU, perm | S_IRWXU);
      if above.ok {
        StepsReach(t, init, perm);
        ComponentsAreClean(ParentName(name));
        StepsValid(t, init, perm | S_IRWXU, perm | S_IRWXU);
        DirMakingStep(above.tree, umask, name, perm);
      }
    } else {
      WalkReaches(t, init);
      assert Steps(t, init, perm | S_IRWXU, perm | S_IRWXU) == Outcome(true, t);
    }
  }

  lemma MakingValid(t: Tree, name: string, perm: bv12)
    requires ValidTree(t)
    ensures ValidTree(Making(t, name, perm).tree)
  {
    var cs := Components(name);
    ComponentsAreClean(name);
    StepsValid(t, cs, perm | S_IRWXU, perm);
    StepsValid(t, cs, perm | S_IRWXU, perm | S_IRWXU);
    if Stat(t, name).Some? {
      WalkReaches(t, cs);
      PutExisting(t, End([], cs), perm);
    }
  }

  // ----- when it succeeds, and what it makes -----

  /** How many components can be walked. */
  function Known(t: Tree, cs: seq<string>): (k: nat)
    ensures k <= |cs|
  {
    if cs == [] || Walk(t, cs).Some? then |cs| else Known(t, cs[..|cs| - 1])
  }

  /** Where the first i components lead. */
  function Place(cs: seq<string>, i: nat): Path
    requires i <= |cs|
  {
    End([], cs[..i])
  }

  /** The places that the components after the first k lead to. */
  ghost function Visited(cs: seq<string>, k: nat): set<Path> {
    set i | k < i <= |cs| :: Place(cs, i)
  }

  /** The tree in which each of the places is a target, e of last and the others of inner. */
  ghost function Overlay(t: Tree, places: set<Path>, e: Path, inner: bv12, last: bv12): Tree {
    map q | q in t.Keys + places :: if q !in places then t[q] else Target(t, q, if q == e then last else inner)
  }

  /** The step after the first i components succeeds. The first step must find a directory that it may enter
      and write. A later one starts at a place that make_path has made or visited: one that is new, or a
      directory the process owns, has got the owner's rights; another one must allow the step by itself. */
  ghost predicate Passes(t: Tree, cs: seq<string>, k: nat, i: nat)
    requires i < |cs|
  {
    var e, q := Place(cs, i), Place(cs, i + 1);
    if i == k then Enters(t, e) && Writable(t[e])
    else e in t ==> IsDirectory(t, e) &&
                    (t[e].mine || (Searchable(t[e]) && (Writable(t[e]) || q in t || q in Visited(cs[..i], k))))
  }

  ghost predicate AllPass(t: Tree, cs: seq<string>, k: nat) {
    forall i | k <= i < |cs| :: Passes(t, cs, k, i)
  }

  lemma PlaceInit(cs: seq<string>, i: nat)
    requires i < |cs|
    ensures Place(cs[..|cs| - 1], i) == Place(cs, i)
    ensures Place(cs, |cs|) == End([], cs)
  {
    assert cs[..|cs| - 1][..i] == cs[..i];
    assert cs[..|cs|] == cs;
  }

  lemma PlaceAll(cs: seq<string>)
    ensures Place(cs, |cs|) == End([], cs)
  {
    assert cs[..|cs|] == cs;
  }

  lemma VisitedEarlier(cs: seq<string>, k: nat, q: Path)
    requires k < |cs| && q in Visited(cs[..|cs| - 1], k)
    ensures q in Visited(cs, k)
  {
    var init := cs[..|cs| - 1];
    var i :| k < i <= |init| && q == Place(init, i);
    PlaceInit(cs, i);
    assert q == Place(cs, i);
  }

  lemma VisitedLater(cs: seq<string>, k: nat, q: Path)
    requires k < |cs| && q in Visited(cs, k)
    ensures q in Visited(cs[..|cs| - 1], k) || q == End([], cs)
  {
    var i :| k < i <= |cs| && q == Place(cs, i);
    PlaceInit(cs, 0);
    if i < |cs| {
      PlaceInit(cs, i);
      assert q == Place(cs[..|cs| - 1], i);
    }
  }

  lemma VisitedLast(cs: seq<string>, k: nat)
    requires k < |cs|
    ensures Visited(cs, k) == Visited(cs[..|cs| - 1], k) + {End([], cs)}
    ensures k < |cs| - 1 ==> End([], cs[..|cs| - 1]) in Visited(cs[..|cs| - 1], k)
  {
    var init := cs[..|cs| - 1];
    PlaceAll(cs);
    PlaceAll(init);
    assert Place(cs, |cs|) in Visited(cs, k);
    forall q | q in Visited(cs, k) ensures q in Visited(init, k) + {End([], cs)} {
      VisitedLater(cs, k, q);
    }
    forall q | q in Visited(init, k) ensures q in Visited(cs, k) {
      VisitedEarlier(cs, k, q);
    }
    if k < |init| {
      assert Place(init, |init|) in Visited(init, k);
    }
  }

  lemma AllPassLast(t: Tree, cs: seq<string>, k: nat)
    requires k < |cs|
    ensures AllPass(t, cs, k) <==> AllPass(t, cs[..|cs| - 1], k) && Passes(t, cs, k, |cs| - 1)
  {
    var init := cs[..|cs| - 1];
    forall i | k <= i < |init| ensures Passes(t, init, k, i) <==> Passes(t, cs, k, i) {
      assert init[..i] == cs[..i] && init[..i + 1] == cs[..i + 1];
    }
  }

  lemma LastUnknown(t: Tree, cs: seq<string>)
    requires cs != [] && Walk(t, cs).None? && Walk(t, cs[..|cs| - 1]).Some?
    ensures var e := End([], cs[..|cs| - 1]); End([], cs) !in t || !Enters(t, e)
  {
    WalkReaches(t, cs[..|cs| - 1]);
  }

  lemma {:induction false} KnownWalk(t: Tree, cs: seq<string>)
    requires ValidTree(t)
    ensures var k := Known(t, cs);
            && Walk(t, cs[..k]) == Some(Place(cs, k))
            && (k < |cs| ==> Place(cs, k + 1) !in t || !Enters(t, Place(cs, k)))
  {
    PlaceAll(cs);
    if cs == [] || Walk(t, cs).Some? {
      assert cs[..|cs|] == cs;
      WalkReaches(t, cs);
    } else {
      var init, k := cs[..|cs| - 1], Known(t, cs);
      KnownWalk(t, init);
      PlaceInit(cs, k);
      assert init[..k] == cs[..k];
      if k < |init| {
        PlaceInit(cs, k + 1);
      } else {
        assert init[..k] == init;
        LastUnknown(t, cs);
      }
    }
  }

  /** The first step from a tree as it was. */
  lemma FirstStep(t: Tree, cs: seq<string>, last: bv12)
    requires ValidTree(t) && cs != [] && Known(t, cs) == |cs| - 1
    ensures Step(t, End([], cs[..|cs| - 1]), cs[|cs| - 1], last).Some? <==> Passes(t, cs, |cs| - 1, |cs| - 1)
  {
    KnownWalk(t, cs);
    assert cs[..|cs|] == cs;
  }

  /** A later step, from the place that the one before it has made or visited. */
  lemma LaterStep(t: Tree, cs: seq<string>, k: nat, perm: bv12, last: bv12)
    requires k < |cs| - 1
    ensures var init := cs[..|cs| - 1];
            var x := Overlay(t, Visited(init, k), End([], init), perm | S_IRWXU, perm | S_IRWXU);
            Step(x, End([], init), cs[|cs| - 1], last).Some? <==> Passes(t, cs, k, |cs| - 1)
  {
    OwnerRights(perm, Node(Directory, perm | S_IRWXU, true));
    VisitedLast(cs, k);
    DirectoryBit(Directory);
    assert cs[..|cs|] == cs;
  }

  lemma OverlayPut(t: Tree, places: set<Path>, e: Path, e': Path, inner: bv12, last: bv12)
    ensures Put(Overlay(t, places, e, inner, inner), e', last) == Overlay(t, places + {e'}, e', inner, last)
  {
    DirectoryBit(Directory);
  }

  lemma OverlayNothing(t: Tree, e: Path, inner: bv12, last: bv12)
    ensures Overlay(t, {}, e, inner, last) == t
  {}

  /** The steps succeed exactly if each one passes; then every place they lead to has been made or visited. */
  lemma {:induction false} StepsExact(t: Tree, cs: seq<string>, perm: bv12, last: bv12)
    requires ValidTree(t)
    ensures var k, r := Known(t, cs), Steps(t, cs, perm | S_IRWXU, last);
            && (r.ok <==> AllPass(t, cs, k))
            && (r.ok ==> r.tree == Overlay(t, Visited(cs, k), End([], cs), perm | S_IRWXU, last))
    decreases |cs|
  {
    var k := Known(t, cs);
    if cs == [] || Walk(t, cs).Some? {
      assert Visited(cs, k) == {};
      OverlayNothing(t, End([], cs), perm | S_IRWXU, last);
    } else {
      var init := cs[..|cs| - 1];
      StepsExact(t, init, perm, perm | S_IRWXU);
      AllPassLast(t, cs, k);
      VisitedLast(cs, k);
      if k == |init| {
        FirstStep(t, cs, last);
        assert Visited(init, k) == {};
        OverlayNothing(t, End([], init), perm | S_IRWXU, perm | S_IRWXU);
      } else {
        LaterStep(t, cs, k, perm, last);
      }
      OverlayPut(t, Visited(init, k), End([], init), End([], cs), perm | S_IRWXU, last);
    }
  }

  /** make_path can return normally: stat finds the name, or something is missing and every step passes. */
  ghost predicate Makeable(t: Tree, name: string) {
    var cs := Components(name);
    var k := Known(t, cs);
    if k == |cs| then Stat(t, name).Some?
    else AllPass(t, cs, k) && (Trailing(name) && End([], cs) in t ==> IsDirectory(t, End([], cs)))
  }

  /** The tree it then leaves: the target, and with perm and the owner's rights whatever else was visited. */
  ghost function Made(t: Tree, name: string, perm: bv12): Tree {
    var cs := Components(name);
    Overlay(t, Visited(cs, Known(t, cs)) + {End([], cs)}, End([], cs), perm | S_IRWXU, perm)
  }

  lemma KnownAll(t: Tree, cs: seq<string>)
    requires ValidTree(t)
    ensures Walk(t, cs).Some? <==> Known(t, cs) == |cs|
  {
    KnownWalk(t, cs);
    assert cs[..|cs|] == cs;
  }

  lemma MakingKnown(t: Tree, name: string, perm: bv12)
    requires ValidTree(t) && Known(t, Components(name)) == |Components(name)|
    ensures var r := Making(t, name, perm);
            (r.ok <==> Makeable(t, name)) && (r.ok ==> r.tree == Made(t, name, perm))
  {
    var cs := Components(name);
    KnownAll(t, cs);
    WalkReaches(t, cs);
    assert Visited(cs, |cs|) + {End([], cs)} == {End([], cs)};
  }

  lemma MakingUnknown(t: Tree, name: string, perm: bv12)
    requires ValidTree(t) && Known(t, Components(name)) < |Components(name)|
    ensures var r := Making(t, name, perm);
            (r.ok <==> Makeable(t, name)) && (r.ok ==> r.tree == Made(t, name, perm))
  {
    var cs, k := Components(name), Known(t, Components(name));
    KnownAll(t, cs);
    StepsExact(t, cs, perm, perm);
    VisitedLast(cs, k);
    OverlayTarget(t, Visited(cs, k), End([], cs), perm | S_IRWXU, perm);
  }

  /** A target that is among the places is a directory afterwards if nothing else was there. */
  lemma OverlayTarget(t: Tree, places: set<Path>, e: Path, inner: bv12, last: bv12)
    requires e in places
    ensures places + {e} == places
    ensures IsDirectory(Overlay(t, places, e, inner, last), e) <==> (e in t ==> IsDirectory(t, e))
  {}

  /** make_path returns normally exactly on makeable names, and leaves exactly the tree described. */
  lemma MakingExact(t: Tree, name: string, perm: bv12)
    requires ValidTree(t) && Absolute(name)
    ensures var r := Making(t, name, perm);
            (r.ok <==> Makeable(t, name)) && (r.ok ==> r.tree == Made(t, name, perm))
  {
    if Known(t, Components(name)) == |Components(name)| {
      MakingKnown(t, name, perm);
    } else {
      MakingUnknown(t, name, perm);
    }
  }

  /** How far the steps get. */
  ghost function Reached(t: Tree, cs: seq<string>, k: nat): (j: nat)
    requires k <= |cs|
    ensures k <= j <= |cs|
  {
    if |cs| == k || AllPass(t, cs, k) then |cs| else Reached(t, cs[..|cs| - 1], k)
  }

  /** What has been made when the step after the first j components fails. */
  ghost function Halfway(t: Tree, cs: seq<string>, j: nat, perm: bv12): Tree
    requires j <= |cs|
  {
    Overlay(t, Visited(cs[..j], Known(t, cs)), Place(cs, j), perm | S_IRWXU, perm | S_IRWXU)
  }

  lemma {:induction false} StepsFail(t: Tree, cs: seq<string>, perm: bv12, last: bv12)
    requires ValidTree(t) && !Steps(t, cs, perm | S_IRWXU, last).ok
    ensures Steps(t, cs, perm | S_IRWXU, last).tree == Halfway(t, cs, Reached(t, cs, Known(t, cs)), perm)
    decreases |cs|
  {
    var k, init := Known(t, cs), cs[..|cs| - 1];
    StepsExact(t, cs, perm, last);
    StepsExact(t, init, perm, perm | S_IRWXU);
    var j := Reached(t, cs, k);
    PlaceInit(cs, j);
    assert init[..j] == cs[..j];
    assert !AllPass(t, cs, k) && j == Reached(t, init, k);
    if AllPass(t, init, k) {
      assert init[..j] == init;
    } else {
      StepsFail(t, init, perm, perm | S_IRWXU);
    }
  }

  /** A failing make_path leaves what it has made and visited so far. That is nothing exactly if the first
      step fails already. */
  lemma FailureExact(t: Tree, name: string, perm: bv12)
    requires ValidTree(t) && Absolute(name) && !Makeable(t, name)
    ensures var cs, t' := Components(name), Making(t, name, perm).tree;
            var k := Known(t, cs);
            && t' == Halfway(t, cs, Reached(t, cs, k), perm)
            && (t' == t <==> k == |cs| || !Passes(t, cs, k, k))
  {
    var cs := Components(name);
    var k := Known(t, cs);
    MakingExact(t, name, perm);
    KnownAll(t, cs);
    if k == |cs| {
      assert cs[..k] == cs && Visited(cs, k) == {};
    } else {
      StepsExact(t, cs, perm, perm);
      StepsExact(t, cs, perm, perm | S_IRWXU);
      if Steps(t, cs, perm | S_IRWXU, perm).ok {
        assert cs[..|cs|] == cs;
      } else {
        StepsFail(t, cs, perm, perm);
      }
      HalfwayUntouched(t, cs, perm);
    }
  }

  lemma ReachedFirst(t: Tree, cs: seq<string>, k: nat)
    requires k < |cs|
    ensures Reached(t, cs, k) == k <==> !Passes(t, cs, k, k)
  {
    if |cs| == k + 1 {
      assert AllPass(t, cs, k) <==> Passes(t, cs, k, k);
    } else {
      var init := cs[..|cs| - 1];
      ReachedFirst(t, init, k);
      PlaceInit(cs, k);
      PlaceInit(cs, k + 1);
      assert init[..k] == cs[..k];
    }
  }

  lemma HalfwayUntouched(t: Tree, cs: seq<string>, perm: bv12)
    requires ValidTree(t) && Known(t, cs) < |cs|
    ensures var k := Known(t, cs);
            Halfway(t, cs, Reached(t, cs, k), perm) == t <==> !Passes(t, cs, k, k)
  {
    var k := Known(t, cs);
    var j := Reached(t, cs, k);
    ReachedFirst(t, cs, k);
    if j == k {
      assert Visited(cs[..j], k) == {};
    } else {
      KnownWalk(t, cs);
      assert cs[..j][..k + 1] == cs[..k + 1];
      assert Place(cs[..j], k + 1) in Visited(cs[..j], k);
      assert Place(cs, k + 1) !in t && Place(cs, k + 1) in Halfway(t, cs, j, perm);
    }
  }

  /** When make_path returns normally, the target is a directory exactly if no other kind of node was there;
      a new directory, or one the process owns, then has exactly the mode asked for, whatever the umask. */
  lemma MadeTarget(t: Tree, name: string, perm: bv12)
    requires ValidTree(t) && Absolute(name) && Makeable(t, name)
    ensures var p, t' := End([], Components(name)), Made(t, name, perm);
            && p in t'
            && (t'[p].kind.Directory? <==> p !in t || t[p].kind.Directory?)
            && (t'[p].kind.Directory? && (p in t ==> t[p].mine) ==> t'[p].mode == perm)
  {
    DirectoryBit(Directory);
  }

  /** The process leaves the mode of e alone: it does not own it, it does not pass for a directory, or the
      mode is that of ancestors already. */
  predicate Undisturbed(t: Tree, e: Path, perm: bv12) {
    e in t ==> !t[e].mine || !HasDirectoryBit(t[e].kind) || t[e].mode == perm | S_IRWXU
  }

  /** Every existing place on the way to the target is left alone. */
  ghost predicate WayUndisturbed(t: Tree, cs: seq<string>, perm: bv12) {
    forall i | Known(t, cs) < i < |cs| :: Place(cs, i) == End([], cs) || Undisturbed(t, Place(cs, i), perm)
  }

  /** Existing nodes other than the target keep their modes exactly if the places on the way that exist do. */
  lemma FrameExact(t: Tree, name: string, perm: bv12)
    requires ValidTree(t) && Absolute(name) && Makeable(t, name)
    ensures var cs, t' := Components(name), Made(t, name, perm);
            (forall q :: q in t ==> q in t') &&
            ((forall q :: q in t && q != End([], cs) ==> t'[q] == t[q]) <==> WayUndisturbed(t, cs, perm))
  {
    var cs, t' := Components(name), Made(t, name, perm);
    if WayUndisturbed(t, cs, perm) {
      forall q | q in t && q != End([], cs) ensures t'[q] == t[q] {
        PlaceKept(t, cs, perm, q);
      }
    } else {
      var i :| Known(t, cs) < i < |cs| && Place(cs, i) != End([], cs) && !Undisturbed(t, Place(cs, i), perm);
      assert Place(cs, i) in Visited(cs, Known(t, cs));
      assert t'[Place(cs, i)] != t[Place(cs, i)];
    }
  }

  lemma PlaceKept(t: Tree, cs: seq<string>, perm: bv12, q: Path)
    requires WayUndisturbed(t, cs, perm) && q in t && q != End([], cs)
    ensures q in Visited(cs, Known(t, cs)) ==> Target(t, q, perm | S_IRWXU) == t[q]
  {
    if q in Visited(cs, Known(t, cs)) {
      var i :| Known(t, cs) < i <= |cs| && q == Place(cs, i);
      PlaceAll(cs);
      assert Undisturbed(t, Place(cs, i), perm);
    }
  }

  lemma SlashAppended(name: string)
    requires Absolute(name)
    ensures Components(name + "/") == Components(name) && Trailing(name + "/") && Absolute(name + "/")
  {
    TokensAppend(name, SLASH, "");
    RootComponents();
    assert name + "/" == name + [SLASH] + "";
  }

  lemma SameComponents(t: Tree, name: string, other: string)
    requires ValidTree(t) && Components(other) == Components(name) && Trailing(other)
    ensures var p := End([], Components(name));
            Makeable(t, other) <==> Makeable(t, name) && (p in t ==> IsDirectory(t, p))
  {
    KnownAll(t, Components(name));
    if Walk(t, Components(name)).Some? {
      WalkReaches(t, Components(name));
    }
  }

  /** A trailing slash changes neither the target nor, unless it is an existing non-directory, the outcome. */
  lemma TrailingSlash(t: Tree, name: string, perm: bv12)
    requires ValidTree(t) && Absolute(name)
    ensures Made(t, name + "/", perm) == Made(t, name, perm)
    ensures var p := End([], Components(name));
            Makeable(t, name + "/") <==> Makeable(t, name) && (p in t ==> IsDirectory(t, p))
  {
    SlashAppended(name);
    SameComponents(t, name, name + "/");
  }

  // ----- names that only lead down -----

  /** No ".." from the first component that cannot be walked. */
  predicate Downward(t: Tree, name: string) {
    var cs := Components(name);
    forall i | Known(t, cs) <= i < |cs| :: cs[i] != ".."
  }

  lemma PlainIsDownward(t: Tree, name: string)
    requires PlainName(name)
    ensures Downward(t, name) && End([], Components(name)) == Components(name)
  {
    var cs := Components(name);
    PlainEnd(cs);
    forall i | Known(t, cs) <= i < |cs| ensures cs[i] != ".." {
      assert cs[i] in cs;
    }
  }

  lemma {:induction false} PlainEnd(p: Path)
    requires ValidPath(p)
    ensures End([], p) == p
  {
    if p != [] {
      assert p[|p| - 1] in p && forall c :: c in Parent(p) ==> c in p;
      PlainEnd(Parent(p));
    }
  }

  /** The prefixes of p with more than m components. */
  ghost function LongPrefixes(p: Path, m: nat): set<Path> {
    set j | m < j <= |p| :: p[..j]
  }

  lemma LongPrefixesLast(p: Path, m: nat)
    requires m < |p|
    ensures LongPrefixes(p, m) == LongPrefixes(Parent(p), m) + {p}
  {
    var u := Parent(p);
    assert p[..|p|] == p;
    forall q ensures q in LongPrefixes(p, m) <==> q in LongPrefixes(u, m) + {p} {
      if j :| m < j <= |p| && q == p[..j] && j < |p| {
        assert q == u[..j];
      }
      if j :| m < j <= |u| && q == u[..j] {
        assert q == p[..j];
      }
    }
  }

  lemma LongPrefixesDown(e: Path, c: string, m: nat)
    requires m <= |e| && c != ".." && (m == |e| ==> c != ".")
    ensures LongPrefixes(Next(e, c), m) == LongPrefixes(e, m) + {Next(e, c)}
    ensures e <= Next(e, c) && m < |Next(e, c)|
  {
    if c == "." {
      assert e[..|e|] == e && e[..|e|] in LongPrefixes(e, m);
    } else {
      assert Parent(e + [c]) == e;
      LongPrefixesLast(e + [c], m);
    }
  }

  /** The deepest place that is known, below which a name that leads down makes everything. */
  function Base(t: Tree, name: string): Path {
    Place(Components(name), Known(t, Components(name)))
  }

  /** p lies below d, through an entry of d that is missing. */
  ghost predicate BelowMissing(t: Tree, d: Path, p: Path) {
    |d| < |p| && p[..|d|] == d && p[..|d| + 1] !in t
  }

  lemma FirstDown(t: Tree, d: Path, c: string)
    requires c != "." && c != ".." && d + [c] !in t
    ensures BelowMissing(t, d, Next(d, c)) && LongPrefixes(Next(d, c), |d|) == {Next(d, c)}
  {
    LongPrefixesDown(d, c, |d|);
    assert LongPrefixes(d, |d|) == {};
    assert (d + [c])[..|d| + 1] == d + [c];
  }

  lemma NextDown(t: Tree, d: Path, e: Path, c: string)
    requires BelowMissing(t, d, e) && c != ".."
    ensures BelowMissing(t, d, Next(e, c)) && LongPrefixes(Next(e, c), |d|) == LongPrefixes(e, |d|) + {Next(e, c)}
  {
    LongPrefixesDown(e, c, |d|);
    SamePrefixes(e, Next(e, c), |d|);
  }

  /** Below the place that is known, steps down visit exactly the prefixes of the target. */
  lemma {:induction false} VisitedDownward(t: Tree, cs: seq<string>, k: nat, d: Path)
    requires ValidTree(t) && k < |cs| && d == Place(cs, k) && d in t && Place(cs, k + 1) !in t
    requires forall i | k <= i < |cs| :: cs[i] != ".."
    ensures BelowMissing(t, d, End([], cs)) && Visited(cs, k) == LongPrefixes(End([], cs), |d|)
    decreases |cs|
  {
    var init, c := cs[..|cs| - 1], cs[|cs| - 1];
    VisitedLast(cs, k);
    PlaceInit(cs, k);
    if k == |init| {
      PlaceAll(init);
      FirstVisited(t, init, c, d);
    } else {
      PlaceInit(cs, k + 1);
      VisitedDownward(t, init, k, d);
      NextDown(t, d, End([], init), c);
    }
  }

  lemma FirstVisited(t: Tree, init: seq<string>, c: string, d: Path)
    requires ValidTree(t) && d in t && Next(d, c) !in t
    ensures BelowMissing(t, d, Next(d, c))
    ensures Visited(init, |init|) + {Next(d, c)} == LongPrefixes(Next(d, c), |d|)
  {
    MissingEntry(t, d, c);
    FirstDown(t, d, c);
    assert Visited(init, |init|) == {};
  }

  lemma SamePrefixes(e: Path, p: Path, m: nat)
    requires e <= p && m <= |e|
    ensures p[..m] == e[..m] && (m < |e| ==> p[..m + 1] == e[..m + 1])
  {}

  lemma MissingBelow(t: Tree, p: Path, i: nat, j: nat)
    requires ValidTree(t) && i <= j <= |p| && p[..i] !in t
    ensures p[..j] !in t
  {
    assert p[..j][..i] == p[..i];
    if p[..j] in t {
      AncestorInTree(t, p[..j], i);
    }
  }

  /** What make_path makes of a path whose first m components exist. */
  ghost function MadeBelow(t: Tree, p: Path, m: nat, perm: bv12): Tree {
    map q | q in t.Keys + LongPrefixes(p, m) ::
      if q in t then t[q] else Node(Directory, if q == p then perm else perm | S_IRWXU, true)
  }

  lemma DownwardPasses(t: Tree, cs: seq<string>, k: nat, d: Path)
    requires ValidTree(t) && k < |cs| && d == Place(cs, k) && Enters(t, d) && Writable(t[d])
    requires Place(cs, k + 1) !in t && forall i | k <= i < |cs| :: cs[i] != ".."
    ensures AllPass(t, cs, k)
    ensures var p := End([], cs);
            && BelowMissing(t, d, p) && p in Visited(cs, k)
            && Visited(cs, k) == LongPrefixes(p, |d|) && (forall q :: q in Visited(cs, k) ==> q !in t)
  {
    VisitedDownward(t, cs, k, d);
    VisitedMissing(t, cs, End([], cs), k, |d|);
    NewPlacesPass(t, cs, k);
    PlaceAll(cs);
    assert Place(cs, |cs|) in Visited(cs, k);
  }

  lemma NewPlacesPass(t: Tree, cs: seq<string>, k: nat)
    requires k < |cs| && Enters(t, Place(cs, k)) && Writable(t[Place(cs, k)])
    requires forall q :: q in Visited(cs, k) ==> q !in t
    ensures AllPass(t, cs, k)
  {
    forall i | k <= i < |cs| ensures Passes(t, cs, k, i) {
      if i > k {
        assert Place(cs, i) in Visited(cs, k);
      }
    }
  }

  lemma OverlayNew(t: Tree, places: set<Path>, p: Path, m: nat, perm: bv12)
    requires places == LongPrefixes(p, m) && p in places && forall q :: q in places ==> q !in t
    ensures Overlay(t, places + {p}, p, perm | S_IRWXU, perm) == MadeBelow(t, p, m, perm)
  {
    assert places + {p} == places;
  }

  /** A missing target to which a name leads down can be made exactly if the first step succeeds. Then exactly
      the missing part of the path is made; otherwise the tree is untouched. */
  lemma DownwardExact(t: Tree, name: string, perm: bv12)
    requires ValidTree(t) && Absolute(name) && Downward(t, name) && Walk(t, Components(name)).None?
    ensures var d, p, r := Base(t, name), End([], Components(name)), Making(t, name, perm);
            && (r.ok <==> Enters(t, d) && Writable(t[d]))
            && (r.ok ==> BelowMissing(t, d, p) && r.tree == MadeBelow(t, p, |d|, perm))
            && (!r.ok ==> r.tree == t)
  {
    var cs := Components(name);
    var k, p := Known(t, cs), End([], cs);
    var d := Place(cs, k);
    KnownWalk(t, cs);
    KnownAll(t, cs);
    MakingExact(t, name, perm);
    if Enters(t, d) && Writable(t[d]) {
      DownwardPasses(t, cs, k, d);
      OverlayNew(t, Visited(cs, k), p, |d|, perm);
    } else {
      assert !Passes(t, cs, k, k);
      FailureExact(t, name, perm);
    }
  }

  lemma VisitedMissing(t: Tree, cs: seq<string>, p: Path, k: nat, m: nat)
    requires ValidTree(t) && m < |p| && p[..m + 1] !in t && Visited(cs, k) == LongPrefixes(p, m)
    ensures forall q :: q in Visited(cs, k) ==> q !in t
  {
    forall q | q in Visited(cs, k) ensures q !in t {
      var j :| m < j <= |p| && q == p[..j];
      MissingBelow(t, p, m + 1, j);
    }
  }

  // ----- where the documentation promises more -----

  const OTHERS_MAY_ENTER: bv12 := 0x1ED

  /** The root and the directories given, all of mode 0755 and owned. */
  function DirectoriesOnly(paths: set<Path>): Tree {
    map q | q in {[]} + paths :: Node(Directory, OTHERS_MAY_ENTER, true)
  }

  lemma TwoComponents(name: string, a: string, b: string)
    requires Clean(a, SLASH) && Clean(b, SLASH)
    ensures Components(name + [SLASH] + a + [SLASH] + b) == Components(name) + [a] + [b]
  {
    ChildComponents(name, a);
    ChildComponents(name + [SLASH] + a, b);
  }

  lemma NewBackComponents(name: string)
    requires name == "" + [SLASH] + "a" + [SLASH] + "new" + [SLASH] + ".." + [SLASH] + "b"
    ensures Components(name) == ["a"] + ["new"] + [".."] + ["b"]
  {
    RootComponents();
    TwoComponents("", "a", "new");
    TwoComponents("" + [SLASH] + "a" + [SLASH] + "new", "..", "b");
    assert [] + ["a"] == ["a"];
  }

  lemma NewBackName(name: string)
    requires name == "/a/new/../b"
    ensures Components(name) == ["a"] + ["new"] + [".."] + ["b"] && !Trailing(name) && Absolute(name)
  {
    assert name == "" + [SLASH] + "a" + [SLASH] + "new" + [SLASH] + ".." + [SLASH] + "b";
    NewBackComponents(name);
  }

  lemma OneStep(t: Tree, cs: seq<string>, c: string, inner: bv12, last: bv12)
    requires Walk(t, cs + [c]).None? && Steps(t, cs, inner, inner).ok
    requires Step(Steps(t, cs, inner, inner).tree, End([], cs), c, last).Some?
    ensures Steps(t, cs + [c], inner, last) ==
            Outcome(true, Step(Steps(t, cs, inner, inner).tree, End([], cs), c, last).value)
  {
    assert (cs + [c])[..|cs|] == cs;
  }

  lemma MissingOnwards(t: Tree, cs: seq<string>, c: string)
    requires Walk(t, cs).None?
    ensures Walk(t, cs + [c]).None?
  {
    assert (cs + [c])[..|cs|] == cs;
  }

  lemma EndLast(cs: seq<string>, c: string)
    ensures End([], cs + [c]) == Next(End([], cs), c)
  {
    assert (cs + [c])[..|cs|] == cs;
  }

  /** Making c, coming back and making b: e itself is visited on the way. */
  lemma StepsThereAndBack(t: Tree, e: Path, c: string, b: string, perm: bv12)
    requires Walk(t, e) == Some(e) == Some(End([], e)) && Walk(t, e + [c]).None? && perm | S_IRWXU == perm
    requires t[e].kind.Directory? && t[e].mine && Enters(t, e) && Writable(t[e])
    requires c != "." && c != ".." && b != "." && b != ".."
    ensures Steps(t, e + [c] + [".."] + [b], perm, perm) ==
            Outcome(true, Put(Put(Put(t, e + [c], perm), e, perm), e + [b], perm))
  {
    OwnerRights(perm, Node(Directory, perm, true));
    DirectoryBit(Directory);
    EndLast(e, c);
    EndLast(e + [c], "..");
    assert Parent(e + [c]) == e;
    var t1 := Put(t, e + [c], perm);
    var t2 := Put(t1, e, perm);
    OneStep(t, e, c, perm, perm);
    MissingOnwards(t, e + [c], "..");
    assert Step(t1, e + [c], "..", perm) == Some(t2);
    OneStep(t, e + [c], "..", perm, perm);
    MissingOnwards(t, e + [c] + [".."], b);
    assert Step(t2, e, b, perm) == Some(Put(t2, e + [b], perm));
    OneStep(t, e + [c] + [".."], b, perm, perm);
  }

  lemma EntersA(t: Tree)
    requires t == DirectoriesOnly({["a"]})
    ensures Walk(t, ["a"]) == Some(["a"]) == Some(End([], ["a"])) && Walk(t, ["a"] + ["new"]).None?
    ensures Enters(t, ["a"]) && Writable(t[["a"]])
  {
    assert [] in t && Enters(t, []) && ["a"][..0] == [];
    assert Next([], "a") == ["a"];
    assert (["a"] + ["new"])[..1] == ["a"];
    assert Next(["a"], "new") == ["a"] + ["new"];
    assert |["a"] + ["new"]| == 2;
  }

  lemma MakingThereAndBack(t: Tree, name: string, e: Path, c: string, b: string, perm: bv12)
    requires Walk(t, e) == Some(e) == Some(End([], e)) && Walk(t, e + [c]).None? && perm | S_IRWXU == perm
    requires t[e].kind.Directory? && t[e].mine && Enters(t, e) && Writable(t[e])
    requires c != "." && c != ".." && b != "." && b != ".."
    requires Components(name) == e + [c] + [".."] + [b] && !Trailing(name)
    ensures Making(t, name, perm) == Outcome(true, Put(Put(Put(t, e + [c], perm), e, perm), e + [b], perm))
  {
    StepsThereAndBack(t, e, c, b, perm);
    MissingOnwards(t, e + [c], "..");
    MissingOnwards(t, e + [c] + [".."], b);
  }

  /** A ".." after a missing component makes make_path change the mode of a directory that was there: with
      /a present, make_path(0700) on /a/new/../b takes /a from mode 0755 to 0700, and makes /a/new as well. */
  lemma ReturningChangesMode()
    ensures var t, mine := DirectoriesOnly({["a"]}), Node(Directory, 0x1C0, true);
            && t[["a"]].mode == 0x1ED
            && Making(t, "/a/new/../b", 0x1C0) ==
               Outcome(true, t[["a"] + ["new"] := mine][["a"] := mine][["a"] + ["b"] := mine])
  {
    var t := DirectoriesOnly({["a"]});
    NewBackName("/a/new/../b");
    EntersA(t);
    MakingThereAndBack(t, "/a/new/../b", ["a"], "new", "b", 0x1C0);
    DirectoryBit(Directory);
  }

  /** make_path returns normally on a regular file, and leaves it one. */
  lemma RegularFileStays()
    ensures var t := DirectoriesOnly({})[["f"] := Node(Regular, OTHERS_MAY_ENTER, true)];
            Making(t, "/f", 0x1C0) == Outcome(true, t) && !IsDirectory(t, ["f"])
  {
    var t := DirectoriesOnly({})[["f"] := Node(Regular, OTHERS_MAY_ENTER, true)];
    assert ["f"][..0] == [];
    assert Canonical(["f"]) == "/f";
    CanonicalComponents(["f"]);
    DirectoryBit(Regular);
    assert Walk(t, ["f"]) == Some(["f"]);
    assert t[["f"] := t[["f"]]] == t;
  }

  // ----- rights -----

  /** A directory /o with the given mode, the process's own or another's. */
  function WithDirectory(mode: bv12, mine: bool): Tree {
    DirectoriesOnly({})[["o"] := Node(Directory, mode, mine)]
  }

  /** Both the right to write and the right to search, of the owner or of others: 0300 or 0003. */
  predicate WriteAndSearch(mode: bv12, mine: bool) {
    if mine then mode & 0x0C0 == 0x0C0 else mode & 0x003 == 0x003
  }

  lemma RightsBits(n: Node)
    ensures Writable(n) && Searchable(n) <==> WriteAndSearch(n.mode, n.mine)
  {}

  lemma InO(t: Tree, x: string)
    requires [] in t && ["o"] in t && t[[]] == Node(Directory, OTHERS_MAY_ENTER, true) && t[["o"]].kind.Directory?
    requires x != "." && x != ".."
    ensures Walk(t, ["o"]) == Some(["o"]) && End([], ["o"]) == ["o"] && End([], ["o"] + [x]) == ["o"] + [x]
    ensures Walk(t, ["o"] + [x]) ==
            if Searchable(t[["o"]]) && ["o"] + [x] in t then Some(["o"] + [x]) else None
  {
    assert ["o"][..0] == [] && Next([], "o") == ["o"] && Enters(t, []);
    EndLast(["o"], x);
    assert (["o"] + [x])[..1] == ["o"];
  }

  lemma OxName(name: string)
    requires name == "/o/x"
    ensures Components(name) == ["o"] + ["x"] && !Trailing(name) && Absolute(name)
  {
    assert name == "" + [SLASH] + "o" + [SLASH] + "x";
    RootComponents();
    TwoComponents("", "o", "x");
    assert [] + ["o"] == ["o"];
  }

  lemma MissingStep(t: Tree, e: Path, c: string, inner: bv12, last: bv12)
    requires Walk(t, e) == Some(e) == Some(End([], e)) && Walk(t, e + [c]).None?
    ensures Steps(t, e + [c], inner, last) ==
              match Step(t, e, c, last) case None => Outcome(false, t) case Some(t') => Outcome(true, t')
  {
    assert (e + [c])[..|e|] == e;
  }

  /** To make /o/x takes the rights to write and to search /o: those of the owner if the process owns it, and
      otherwise those of others, so that 0755 is not enough. */
  lemma MakingTakesRights(mode: bv12, mine: bool, perm: bv12)
    ensures var t := WithDirectory(mode, mine);
            Making(t, "/o/x", perm) ==
              if WriteAndSearch(mode, mine) then Outcome(true, t[["o"] + ["x"] := Node(Directory, perm, true)])
              else Outcome(false, t)
    ensures !WriteAndSearch(0x1ED, false) && WriteAndSearch(0x1ED, true) && WriteAndSearch(0x1FF, false)
  {
    var t := WithDirectory(mode, mine);
    OxName("/o/x");
    RightsBits(t[["o"]]);
    InO(t, "x");
    assert |["o"] + ["x"]| == 2 && ["o"] + ["x"] !in t;
    MissingStep(t, ["o"], "x", perm | S_IRWXU, perm);
  }

  /** A directory made on the way gets the mode asked for and 0700, the target exactly the mode asked for. */
  lemma ModesMade(perm: bv12)
    ensures Making(DirectoriesOnly({}), "/o/x", perm) ==
            Outcome(true, DirectoriesOnly({})[["o"] := Node(Directory, perm | 0x1C0, true)]
                                             [["o"] + ["x"] := Node(Directory, perm, true)])
  {
    var t := DirectoriesOnly({});
    OxName("/o/x");
    MakingTwoDeep(t, "/o/x", "o", "x", perm);
  }

  lemma MakingTwoDeep(t: Tree, name: string, a: string, b: string, perm: bv12)
    requires t == DirectoriesOnly({}) && Components(name) == [a] + [b] && !Trailing(name)
    requires a != "." && a != ".." && b != "." && b != ".."
    ensures Making(t, name, perm) ==
            Outcome(true, t[[a] := Node(Directory, perm | S_IRWXU, true)][[a] + [b] := Node(Directory, perm, true)])
  {
    OwnerRights(perm, Node(Directory, perm | S_IRWXU, true));
    EmptyRoot(t, a);
    MissingStep(t, [], a, perm | S_IRWXU, perm | S_IRWXU);
    MissingOnwards(t, [a], b);
    assert |[a] + [b]| == 2 && [a] + [b] !in t;
    OneStep(t, [a], b, perm | S_IRWXU, perm);
  }

  lemma EmptyRoot(t: Tree, a: string)
    requires t == DirectoriesOnly({}) && a != "." && a != ".."
    ensures [] + [a] == [a] && End([], [a]) == [a] && [a] !in t && Walk(t, []) == Some([]) && Enters(t, [])
    ensures Walk(t, [a]).None?
  {
    assert [] + [a] == [a] && [a][..0] == [];
    assert Next([], a) == [a];
    EndLast([], a);
  }
}
