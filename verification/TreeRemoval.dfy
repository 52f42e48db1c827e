/** What directory lists, and what remove deletes from a file tree. */
module TreeRemoval {
  import opened Text
  import opened FileNames
  import opened FileTree

  // ----- what may be removed -----

  /** Everything at or below p. */
  ghost function Below(t: Tree, p: Path): set<Path> {
    set q | q in t && p <= q
  }

  ghost predicate Deletable(t: Tree, q: Path) {
    && CanDelete(t, q)
    && (t[q].kind.Directory? ==> Readable(t[q]))
    && !t[q].kind.BlockDevice? && !t[q].kind.Socket?
  }

  /** Every node at or below p can be deleted: the process may list each directory and delete each entry,
      and there is no socket and no block device, which pass for directories. */
  ghost predicate Removable(t: Tree, p: Path) {
    p in t && forall q :: q in t && p <= q ==> Deletable(t, q)
  }

  /** The tree in which nothing is left below p. */
  ghost function Bare(t: Tree, p: Path): Tree {
    t - (Below(t, p) - {p})
  }

  /** rmdir accepts the name when everything below p is gone: the name does not end in a dot component, and
      does not lead through what is below p. */
  ghost predicate Stays(t: Tree, name: string, p: Path) {
    !DotLast(name) && Stat(Bare(t, p), name) == Some(p)
  }

  /** remove can return normally. */
  ghost predicate RemovableName(t: Tree, name: string) {
    match Stat(t, name)
    case None => false
    case Some(p) => Removable(t, p) && Stays(t, name, p)
  }

  /** What remove is about to delete. */
  ghost function Doomed(t: Tree, name: string): set<Path> {
    match Stat(t, name)
    case None => {}
    case Some(p) => Below(t, p)
  }

  lemma BareReach(t: Tree, p: Path)
    requires Reach(t, p) && p in t
    ensures Reach(Bare(t, p), p)
  {
    forall i | 0 <= i < |p| ensures Enters(Bare(t, p), p[..i]) {
      assert Enters(t, p[..i]);
      assert p[..i] !in Below(t, p);
    }
  }

  /** Names without dot components stay: among them all those that realpath gives. */
  lemma PlainStays(t: Tree, name: string)
    requires PlainName(name) && Stat(t, name).Some?
    ensures Stays(t, name, Stat(t, name).value) && Stat(t, name).value == Components(name)
  {
    var cs, p := Components(name), Stat(t, name).value;
    WalkPlain(t, cs);
    BareReach(t, p);
    WalkPlain(Bare(t, p), cs);
    assert cs != [] ==> cs[|cs| - 1] in cs;
  }

  // ----- the entries of a directory -----

  /** The names of the entries of a directory. */
  function EntryNames(t: Tree, p: Path): set<string> {
    set q | q in t && q != [] && Parent(q) == p :: q[|q| - 1]
  }

  predicate CanList(t: Tree, name: string) {
    match Stat(t, name)
    case None => false
    case Some(p) => t[p].kind.Directory? && Readable(t[p])
  }

  ghost predicate Distinct(names: seq<string>) {
    forall i, j :: 0 <= i < j < |names| ==> names[i] != names[j]
  }

  /** The names of the entries of p, each one once and none missing. */
  ghost predicate Lists(t: Tree, p: Path, names: seq<string>) {
    Distinct(names) && forall e :: e in names <==> e in EntryNames(t, p)
  }

  function EntryFile(t: Tree, name: string, entry: string): string {
    SetName(t, name + [SLASH] + entry)
  }

  /** The files of the entries with these names, in this order. */
  ghost predicate FilesAre(t: Tree, name: string, names: seq<string>, files: seq<string>) {
    |files| == |names| && forall j :: 0 <= j < |files| ==> files[j] == EntryFile(t, name, names[j])
  }

  lemma EntryIsClean(t: Tree, p: Path, entry: string)
    requires ValidTree(t) && entry in EntryNames(t, p)
    ensures Clean(entry, SLASH) && entry != "." && entry != ".." && IsChild(t, p, p + [entry])
  {
    var q :| q in t && q != [] && Parent(q) == p && q[|q| - 1] == entry;
    assert q == p + [entry] && entry in q;
  }

  lemma EntryWalk(t: Tree, name: string, p: Path, entry: string)
    requires ValidTree(t) && Absolute(name) && Stat(t, name) == Some(p) && entry in EntryNames(t, p)
    ensures var path := name + [SLASH] + entry;
            && Components(path) == Components(name) + [entry] && !Trailing(path) && Absolute(path)
            && Stat(t, path) == if Enters(t, p) then Some(p + [entry]) else None
  {
    EntryIsClean(t, p, entry);
    ChildComponents(name, entry);
    var cs := Components(name);
    assert (cs + [entry])[..|cs|] == cs;
    assert Next(p, entry) == p + [entry];
    assert entry[|entry| - 1] in entry;
  }

  /** The file of an entry has the canonical name of the child, or a name that does not exist if the directory
      may not be searched. */
  lemma EntryFileExact(t: Tree, name: string, p: Path, entry: string)
    requires ValidTree(t) && Absolute(name) && Stat(t, name) == Some(p) && entry in EntryNames(t, p)
    ensures var f := EntryFile(t, name, entry);
            && Absolute(f)
            && (if Enters(t, p) then f == Canonical(p + [entry]) && Stat(t, f) == Some(p + [entry])
                else f == name + [SLASH] + entry && Stat(t, f).None?)
            && Components(f) == (if Enters(t, p) then p else Components(name)) + [entry]
  {
    EntryWalk(t, name, p, entry);
    SetNameStable(t, name + [SLASH] + entry);
  }

  lemma FileDetermines(t: Tree, name: string, p: Path, a: string, b: string)
    requires ValidTree(t) && Absolute(name) && Stat(t, name) == Some(p)
    requires a in EntryNames(t, p) && b in EntryNames(t, p) && EntryFile(t, name, a) == EntryFile(t, name, b)
    ensures a == b
  {
    EntryFileExact(t, name, p, a);
    EntryFileExact(t, name, p, b);
    var stem := if Enters(t, p) then p else Components(name);
    assert (stem + [a])[|stem|] == a && (stem + [b])[|stem|] == b;
  }

  /** Each child is listed once. */
  lemma FilesDistinct(t: Tree, name: string, p: Path, names: seq<string>, files: seq<string>)
    requires ValidTree(t) && Absolute(name) && Stat(t, name) == Some(p)
    requires Lists(t, p, names) && FilesAre(t, name, names, files)
    ensures Distinct(files)
  {
    forall i, j | 0 <= i < j < |files| ensures files[i] != files[j] {
      assert names[i] in names && names[j] in names;
      if files[i] == files[j] {
        FileDetermines(t, name, p, names[i], names[j]);
      }
    }
  }

  /** The entries except "." and "..". */
  ghost function WithoutDots(entries: seq<string>): seq<string> {
    if entries == [] then []
    else
      var init, e := entries[..|entries| - 1], entries[|entries| - 1];
      WithoutDots(init) + if e == "." || e == ".." then [] else [e]
  }

  lemma WithoutDotsSnoc(entries: seq<string>, i: nat)
    requires i < |entries|
    ensures WithoutDots(entries[..i + 1]) ==
            WithoutDots(entries[..i]) + if entries[i] == "." || entries[i] == ".." then [] else [entries[i]]
  {
    assert entries[..i + 1][..i] == entries[..i];
  }

  lemma {:induction false} InWithoutDots(entries: seq<string>, e: string)
    ensures e in WithoutDots(entries) <==> e in entries && e != "." && e != ".."
  {
    if entries != [] {
      var init := entries[..|entries| - 1];
      assert entries == init + [entries[|entries| - 1]];
      InWithoutDots(init, e);
    }
  }

  lemma {:induction false} DistinctWithoutDots(entries: seq<string>)
    requires Distinct(entries)
    ensures Distinct(WithoutDots(entries))
  {
    if entries != [] {
      var init, e := entries[..|entries| - 1], entries[|entries| - 1];
      assert e !in init;
      InWithoutDots(init, e);
      DistinctWithoutDots(init);
    }
  }

  lemma EntriesWithoutDots(t: Tree, p: Path, entries: seq<string>)
    requires ValidTree(t) && Distinct(entries)
    requires forall e :: e in entries <==> e in EntryNames(t, p) + {".", ".."}
    ensures Lists(t, p, WithoutDots(entries))
  {
    NoDotEntries(t, p);
    DistinctWithoutDots(entries);
    forall e ensures e in WithoutDots(entries) <==> e in EntryNames(t, p) {
      InWithoutDots(entries, e);
    }
  }

  lemma NoDotEntries(t: Tree, p: Path)
    requires ValidTree(t)
    ensures "." !in EntryNames(t, p) && ".." !in EntryNames(t, p)
  {
    if "." in EntryNames(t, p) {
      EntryIsClean(t, p, ".");
    }
    if ".." in EntryNames(t, p) {
      EntryIsClean(t, p, "..");
    }
  }

  // ----- the loop of remove -----

  /** t is t0 without some of the nodes at or below p. */
  ghost predicate Within(t: Tree, t0: Tree, p: Path) {
    t.Keys <= t0.Keys && (forall q :: q in t ==> t[q] == t0[q]) && (forall q :: q in t0 && q !in t ==> p <= q)
  }

  /** Whatever is gone could be deleted. */
  ghost predicate OnlyDeletable(t: Tree, t0: Tree) {
    forall q :: q in t0 && q !in t ==> Deletable(t0, q)
  }

  /** t is reached from t0 while entries of p are deleted: only what may be deleted is gone, and the entries
      with the given names are, if the directory may be searched; otherwise nothing is. */
  ghost predicate Emptying(t0: Tree, t: Tree, p: Path, names: seq<string>) {
    && Within(t, t0, p) && p in t && ValidTree(t)
    && OnlyDeletable(t, t0)
    && (if Enters(t0, p) then forall e :: e in names ==> p + [e] !in t else t == t0)
  }

  lemma EntriesOfEmpty(t: Tree, p: Path)
    requires p in t
    ensures t[p].kind.Directory? ==> (IsEmptyDirectory(t, p) <==> EntryNames(t, p) == {})
  {
    if q :| IsChild(t, p, q) {
      assert q[|q| - 1] in EntryNames(t, p);
    }
    if e :| e in EntryNames(t, p) {
      var q :| q in t && q != [] && Parent(q) == p && q[|q| - 1] == e;
      assert IsChild(t, p, q);
    }
  }

  lemma StillReached(t: Tree, t0: Tree, p: Path)
    requires Within(t, t0, p) && p in t && ValidTree(t) && Reach(t0, p)
    ensures Reach(t, p)
  {
    forall i | 0 <= i < |p| ensures Enters(t, p[..i]) {
      AncestorInTree(t, p, i);
      assert Enters(t0, p[..i]);
    }
  }

  /** While the entries of a directory are deleted, one that is left is found. */
  lemma ChildFound(t0: Tree, t: Tree, name: string, p: Path, names: seq<string>, entry: string)
    requires ValidTree(t0) && Stat(t0, name) == Some(p) && Enters(t0, p) && entry in EntryNames(t0, p)
    requires Emptying(t0, t, p, names)
    ensures var c := p + [entry];
            && PlainName(Canonical(c)) && Components(Canonical(c)) == c
            && (Stat(t, Canonical(c)) == if c in t then Some(c) else None)
            && SetName(t, Canonical(c)) == Canonical(c)
            && Below(t, c) < Below(t0, p)
  {
    var c := p + [entry];
    EntryIsClean(t0, p, entry);
    WalkReaches(t0, Components(name));
    StillReached(t, t0, p);
    assert Parent(c) == p;
    ReachParent(t, c);
    CanonicalComponents(c);
    WalkPlain(t, c);
    assert p in Below(t0, p) && p !in Below(t, c);
  }

  lemma NamesSnoc(t0: Tree, t: Tree, p: Path, names: seq<string>, i: nat)
    requires i < |names| && Emptying(t0, t, p, names[..i])
    requires Enters(t0, p) ==> p + [names[i]] !in t
    ensures Emptying(t0, t, p, names[..i + 1])
  {
    assert names[..i + 1] == names[..i] + [names[i]];
  }

  lemma SameRights(t0: Tree, t: Tree, p: Path, q: Path)
    requires Within(t, t0, p) && ValidTree(t) && q in t
    ensures Deletable(t, q) <==> Deletable(t0, q)
  {}

  lemma WithinChild(t0: Tree, t1: Tree, t2: Tree, p: Path, c: Path)
    requires Within(t1, t0, p) && p in t1 && c != [] && Parent(c) == p && Within(t2, t1, c)
    ensures Within(t2, t0, p) && p in t2
  {
    forall q | q in t0 && q !in t2 ensures p <= q {
      if q in t1 {
        assert p <= c <= q;
      }
    }
  }

  /** A child that is deleted takes only deletable nodes with it. */
  lemma ChildRemoved(t0: Tree, t1: Tree, t2: Tree, p: Path, names: seq<string>, c: Path)
    requires Emptying(t0, t1, p, names) && Enters(t0, p) && c != [] && Parent(c) == p
    requires Removable(t1, c) && t2 == t1 - Below(t1, c) && OnlyDeletable(t2, t1) && ValidTree(t2)
    ensures c !in t2 && Emptying(t0, t2, p, names)
  {
    assert c in Below(t1, c);
    assert Within(t2, t1, c);
    WithinChild(t0, t1, t2, p, c);
    StillDeletable(t0, t1, t2, p);
  }

  lemma StillDeletable(t0: Tree, t1: Tree, t2: Tree, p: Path)
    requires Within(t1, t0, p) && ValidTree(t1) && OnlyDeletable(t1, t0) && OnlyDeletable(t2, t1)
    ensures OnlyDeletable(t2, t0)
  {
    forall q | q in t0 && q !in t2 ensures Deletable(t0, q) {
      if q in t1 {
        SameRights(t0, t1, p, q);
      }
    }
  }

  /** A child that cannot be deleted keeps the directory from being deleted. */
  lemma ChildNotRemovable(t0: Tree, t1: Tree, p: Path, c: Path)
    requires Within(t1, t0, p) && ValidTree(t1) && c != [] && Parent(c) == p && c in t1 && !Removable(t1, c)
    ensures !Removable(t0, p)
  {
    var q :| q in t1 && c <= q && !Deletable(t1, q);
    SameRights(t0, t1, p, q);
    assert p <= c <= q;
  }

  // ----- the last call -----

  lemma LeftAlone(t: Tree, p: Path)
    requires ValidTree(t) && IsEmptyDirectory(t, p)
    ensures Below(t, p) == {p}
  {
    forall q | q in t && p <= q ensures q == p {
      if |q| > |p| {
        assert Parent(q[..|p| + 1]) == p;
        assert !IsChild(t, p, q[..|p| + 1]);
        AncestorInTree(t, q, |p| + 1);
      }
    }
  }

  /** A directory with an entry left after the loop is one that may not be searched. */
  lemma ChildLeft(t0: Tree, t: Tree, p: Path, names: seq<string>, c: Path)
    requires Emptying(t0, t, p, names) && Lists(t0, p, names) && IsChild(t, p, c)
    ensures !Removable(t0, p)
  {
    assert c == p + [c[|c| - 1]] && c in t0;
    assert c[|c| - 1] in EntryNames(t0, p);
    assert p <= c && !Deletable(t0, c);
  }

  lemma EmptiedIsBare(t0: Tree, t: Tree, p: Path, names: seq<string>)
    requires Emptying(t0, t, p, names) && Below(t, p) == {p}
    ensures t == Bare(t0, p) && t - {p} == t0 - Below(t0, p)
    ensures Removable(t0, p) <==> Deletable(t0, p)
  {
    forall q | q in t0 ensures (q in t <==> q in Bare(t0, p)) && (q in t - {p} <==> q !in Below(t0, p)) {
      if q in t && p <= q {
        assert q in Below(t, p);
      }
    }
  }

  /** When everything may be deleted, nothing is left below the directory after the loop. */
  lemma NothingLeftBelow(t0: Tree, t: Tree, p: Path, names: seq<string>)
    requires Emptying(t0, t, p, names) && Lists(t0, p, names) && IsDirectory(t0, p) && Removable(t0, p)
    ensures t == Bare(t0, p)
  {
    if !IsEmptyDirectory(t, p) {
      var c :| IsChild(t, p, c);
      ChildLeft(t0, t, p, names, c);
    }
    LeftAlone(t, p);
    EmptiedIsBare(t0, t, p, names);
  }

  lemma EmptiedValid(t: Tree, p: Path)
    requires ValidTree(t) && IsEmptyDirectory(t, p) && p != []
    ensures ValidTree(t - {p})
  {
    forall q | q in t - {p} && q != [] ensures Parent(q) in t - {p} {
      assert !IsChild(t, p, q);
    }
  }

  /** rmdir after the loop succeeds exactly when the name could be removed as a whole, which it completes. */
  lemma EmptiedDirectory(t0: Tree, t: Tree, name: string, p: Path, names: seq<string>)
    requires ValidTree(t0) && Stat(t0, name) == Some(p) && t0[p].kind.Directory? && Readable(t0[p])
    requires Emptying(t0, t, p, names) && Lists(t0, p, names)
    ensures Rmdir(t, name).Some? <==> RemovableName(t0, name)
    ensures Rmdir(t, name).Some? ==>
              Rmdir(t, name).value == t0 - Below(t0, p) && ValidTree(Rmdir(t, name).value) &&
              OnlyDeletable(Rmdir(t, name).value, t0)
  {
    WalkReaches(t0, Components(name));
    if Stat(t, name).Some? {
      WalkReaches(t, Components(name));
    }
    if !IsEmptyDirectory(t, p) {
      var c :| IsChild(t, p, c);
      ChildLeft(t0, t, p, names, c);
    } else {
      LeftAlone(t, p);
      EmptiedIsBare(t0, t, p, names);
      SameRights(t0, t, p, p);
      if p != [] {
        EmptiedValid(t, p);
      }
    }
  }

  lemma NotDotLast(t: Tree, name: string)
    requires Stat(t, name).Some? && DotLast(name) && ValidTree(t)
    ensures t[Stat(t, name).value].kind.Directory?
  {}

  /** unlink on what is not a directory deletes exactly that node, when the name can be removed. */
  lemma SingleNode(t: Tree, name: string)
    requires ValidTree(t) && Stat(t, name).Some? && !HasDirectoryBit(t[Stat(t, name).value].kind)
    ensures Below(t, Stat(t, name).value) == {Stat(t, name).value}
    ensures Unlink(t, name).Some? <==> RemovableName(t, name)
    ensures Unlink(t, name).Some? ==> ValidTree(Unlink(t, name).value)
    ensures Bare(t, Stat(t, name).value) == t
  {
    var p := Stat(t, name).value;
    DirectoryBit(t[p].kind);
    forall q | q in t && p <= q ensures q == p {
      assert q[..|p|] == p;
      AncestorInTree(t, q, |p|);
    }
    assert Bare(t, p) == t;
    if DotLast(name) {
      NotDotLast(t, name);
    }
  }
}
