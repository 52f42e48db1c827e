/** The File operations that change the tree: make_dir, make_path, permissions, directory and remove. */
module FileSystem {
  import opened Text
  import opened FileNames
  import opened FileTree
  import opened PathMaking
  import opened TreeRemoval

  class FileSystem {
    var tree: Tree
    const umask: bv12

    constructor (tree: Tree, umask: bv12)
      ensures this.tree == tree && this.umask == umask
    {
      this.tree := tree;
      this.umask := umask;
    }

    method Exists(name: string) returns (r: bool)
      ensures r <==> Stat(tree, name).Some?
    {
      r := Stat(tree, name).Some?;
    }

    /** Sets the permissions of a node, without a system call if they are right already. */
    method SetPermissions(name: string, perm: bv12) returns (ok: bool)
      modifies this
      ensures match Stat(old(tree), name)
              case None => !ok && tree == old(tree)
              case Some(q) =>
                var n := old(tree)[q];
                (ok <==> n.mode == perm || n.mine) &&
                tree == if ok then old(tree)[q := n.(mode := perm)] else old(tree)
    {
      var q := Stat(tree, name);
      if q.None? {
        return false;
      }
      if perm != tree[q.value].mode {
        var changed := Chmod(tree, name, perm);
        if changed.None? {
          return false;
        }
        tree := changed.value;
      }
      ok := true;
    }

    /** Creates a directory, or adjusts an existing one. It returns normally when the name exists. */
    method MakeDir(name: string, perm: bv12) returns (ok: bool)
      requires ValidTree(tree) && Absolute(name)
      modifies this
      ensures ok <==> Stat(old(tree), name).Some? || Mkdir(old(tree), umask, name, perm).Some?
      ensures tree == if ok then Put(old(tree), End([], Components(name)), perm) else old(tree)
    {
      ghost var t0 := tree;
      var made := Mkdir(tree, umask, name, perm);
      if made.Some? {
        MkdirFound(t0, umask, name, perm);
        tree := made.value;
        ok := SetPermissions(name, perm);
      } else {
        var found := Stat(tree, name);
        if found.Some? {
          WalkReaches(tree, Components(name));
          if HasDirectoryBit(tree[found.value].kind) {
            var _ := SetPermissions(name, perm);
          }
          return true;
        }
        ok := false;
      }
    }

    /** Creates a directory and the missing part of the path to it. It returns normally exactly when the name
        is makeable, and then leaves exactly the tree described; a failure leaves what was made so far. */
    method MakePath(name: string, perm: bv12) returns (ok: bool)
      requires ValidTree(tree) && Absolute(name)
      modifies this
      ensures ok <==> Makeable(old(tree), name)
      ensures ok ==> tree == Made(old(tree), name, perm)
      ensures Outcome(ok, tree) == Making(old(tree), name, perm)
      ensures ValidTree(tree)
      decreases DepthOf(name)
    {
      ghost var t0 := tree;
      ParentIsShallower(name);
      SetNameStable(tree, ParentName(name));
      MakingExact(tree, name, perm);
      MakingValid(tree, name, perm);
      var father := SetName(tree, ParentName(name));
      var found := Exists(father);
      if found {
        ParentSeen(tree, umask, name, perm);
      } else {
        RootExists(tree);
        DepthAtLeast(name);
        ParentUnseen(tree, umask, name, perm);
        var made := MakePath(father, perm | S_IRWXU);
        if !made {
          return false;
        }
      }
      ok := MakeDir(name, perm);
    }

    /** opendir and readdir: the entries in some order, with "." and ".." among them. */
    method ReadDirectory(name: string) returns (entries: Option<seq<string>>)
      ensures entries.None? <==> !CanList(tree, name)
      ensures entries.Some? ==>
                forall e :: e in entries.value <==> e in EntryNames(tree, Stat(tree, name).value) + {".", ".."}
      ensures entries.Some? ==> Distinct(entries.value)
    {
      if !CanList(tree, name) {
        return None;
      }
      var all := EntryNames(tree, Stat(tree, name).value) + {".", ".."};
      var listed := InSomeOrder(all);
      entries := Some(listed);
    }

    /** The names of the set, in some order. */
    static method InSomeOrder(all: set<string>) returns (listed: seq<string>)
      ensures Distinct(listed) && forall e :: e in listed <==> e in all
    {
      var rest := all;
      listed := [];
      while rest != {}
        invariant forall e :: e in all <==> e in listed || e in rest
        invariant forall e :: e in listed ==> e !in rest
        invariant Distinct(listed)
        decreases rest
      {
        var e :| e in rest;
        listed := listed + [e];
        rest := rest - {e};
      }
    }

    /** The files in a directory, one for each entry, in the order the system lists them. */
    method Directory(name: string) returns (files: Option<seq<string>>, ghost names: seq<string>)
      requires ValidTree(tree) && Absolute(name)
      ensures files.None? <==> !CanList(tree, name)
      ensures files.Some? ==> Lists(tree, Stat(tree, name).value, names) && FilesAre(tree, name, names, files.value)
      ensures files.Some? ==> Distinct(files.value)
    {
      names := [];
      var entries := ReadDirectory(name);
      if entries.None? {
        return None, names;
      }
      var found := FilesOf(name, entries.value);
      names := WithoutDots(entries.value);
      EntriesWithoutDots(tree, Stat(tree, name).value, entries.value);
      FilesDistinct(tree, name, Stat(tree, name).value, names, found);
      files := Some(found);
    }

    /** The loop over the entries of a directory. */
    method FilesOf(name: string, entries: seq<string>) returns (found: seq<string>)
      ensures FilesAre(tree, name, WithoutDots(entries), found)
    {
      found := [];
      for i := 0 to |entries|
        invariant FilesAre(tree, name, WithoutDots(entries[..i]), found)
      {
        var entry := entries[i];
        WithoutDotsSnoc(entries, i);
        if entry != "." && entry != ".." {
          found := found + [EntryFile(tree, name, entry)];
        }
      }
      assert entries[..|entries|] == entries;
    }

    method RmDir(name: string) returns (ok: bool)
      modifies this
      ensures var r := Rmdir(old(tree), name); ok == r.Some? && tree == if ok then r.value else old(tree)
      ensures ok ==> var p := Stat(old(tree), name);
                     p.Some? && IsEmptyDirectory(old(tree), p.value) && tree == old(tree) - {p.value}
    {
      var p := Stat(tree, name);
      if p.None? {
        return false;
      }
      EntriesOfEmpty(tree, p.value);
      ok := !DotLast(name) && tree[p.value].kind.Directory? && EntryNames(tree, p.value) == {} &&
            CanDelete(tree, p.value);
      if ok {
        tree := tree - {p.value};
      }
    }

    method UnlinkFile(name: string) returns (ok: bool)
      modifies this
      ensures var r := Unlink(old(tree), name); ok == r.Some? && tree == if ok then r.value else old(tree)
      ensures ok ==> var p := Stat(old(tree), name);
                     p.Some? && !IsDirectory(old(tree), p.value) && tree == old(tree) - {p.value}
    {
      var r := Unlink(tree, name);
      if r.Some? {
        tree := r.value;
      }
      ok := r.Some?;
    }

    /** Deletes a file, or a directory and everything in it. It returns normally exactly when stat finds the
        name, everything at or below it may be deleted, and the name stays; then exactly that is gone, in
        whatever order directories are listed. When it fails, nothing is gone but some of what could be deleted at
        or below the name; and if that is everything, so that only the name is at fault, all below is gone. */
    method Remove(name: string) returns (ok: bool)
      requires ValidTree(tree) && Absolute(name)
      modifies this
      ensures ok <==> RemovableName(old(tree), name)
      ensures ok ==> tree == old(tree) - Below(old(tree), Stat(old(tree), name).value)
      ensures match Stat(old(tree), name)
              case None => tree == old(tree)
              case Some(p) =>
                && Within(tree, old(tree), p) && OnlyDeletable(tree, old(tree))
                && (!ok && Removable(old(tree), p) ==> tree == Bare(old(tree), p))
      ensures ValidTree(tree)
      decreases Doomed(tree, name), 1
    {
      ghost var t0 := tree;
      var q := Stat(tree, name);
      if q.None? {
        return false;
      }
      DirectoryBit(tree[q.value].kind);
      if HasDirectoryBit(tree[q.value].kind) {
        var files, names := Directory(name);
        if files.None? {
          assert q.value <= q.value && !Deletable(t0, q.value);
          return false;
        }
        ok := RemoveChildren(name, files.value, q.value, names);
        if !ok {
          return false;
        }
        EmptiedDirectory(t0, tree, name, q.value, names);
        if Removable(t0, q.value) {
          NothingLeftBelow(t0, tree, q.value, names);
        }
        ok := RmDir(name);
      } else {
        SingleNode(t0, name);
        ok := UnlinkFile(name);
      }
    }

    /** The loop of remove over the children of a directory. */
    method RemoveChildren(name: string, files: seq<string>, ghost p: Path, ghost names: seq<string>)
      returns (ok: bool)
      requires ValidTree(tree) && Absolute(name) && Stat(tree, name) == Some(p)
      requires Lists(tree, p, names) && FilesAre(tree, name, names, files)
      modifies this
      ensures Within(tree, old(tree), p) && OnlyDeletable(tree, old(tree)) && ValidTree(tree)
      ensures if ok then Emptying(old(tree), tree, p, names) else !Removable(old(tree), p)
      decreases Doomed(tree, name), 0
    {
      ghost var t0 := tree;
      for i := 0 to |files|
        invariant Emptying(t0, tree, p, names[..i])
      {
        assert names[i] in names;
        EntryFileExact(t0, name, p, names[i]);
        ghost var c := p + [names[i]];
        if Enters(t0, p) {
          ChildFound(t0, tree, name, p, names[..i], names[i]);
        }
        var f := SetName(tree, files[i]);
        var found := Exists(f);
        if found {
          ghost var t1 := tree;
          PlainStays(tree, f);
          var removed := Remove(f);
          assert Parent(c) == p;
          WithinChild(t0, t1, tree, p, c);
          StillDeletable(t0, t1, tree, p);
          if !removed {
            ChildNotRemovable(t0, t1, p, c);
            return false;
          }
          ChildRemoved(t0, t1, tree, p, names[..i], c);
        }
        NamesSnoc(t0, tree, p, names, i);
      }
      assert names[..|files|] == names;
      ok := true;
    }
  }

  /** What mkdir has made, stat finds at the end of the components. */
  lemma MkdirFound(t: Tree, umask: bv12, name: string, perm: bv12)
    requires ValidTree(t) && Mkdir(t, umask, name, perm).Some?
    ensures var q, t' := End([], Components(name)), Mkdir(t, umask, name, perm).value;
            && q !in t && t' == t[q := Node(Directory, perm & !umask & MKDIR_BITS, true)]
            && Stat(t', name) == Some(q)
  {
    var cs, t' := Components(name), Mkdir(t, umask, name, perm).value;
    if cs != [] {
      WalkReaches(t, cs[..|cs| - 1]);
      WalkGrows(t, t', cs[..|cs| - 1]);
    }
  }

  lemma RootExists(t: Tree)
    requires ValidTree(t)
    ensures Stat(t, "/").Some?
  {
    RootComponents();
  }

  /** remove on a directory under a name that ends in a dot empties the directory and then fails: everything at
      or below /d can be deleted, but not under the name /d/. */
  lemma DotNameEmptied()
    ensures var t := DirectoriesOnly({["d"], ["d", "e"]});
            && ValidTree(t) && Stat(t, "/d/.") == Some(["d"])
            && Removable(t, ["d"]) && !RemovableName(t, "/d/.")
            && Bare(t, ["d"]) == DirectoriesOnly({["d"]})
  {
    var t := DirectoriesOnly({["d"], ["d", "e"]});
    DotComponents("/d/.");
    DotTree(t);
    DotWalk(t);
  }

  lemma DotComponents(name: string)
    requires name == "/d/."
    ensures Components(name) == ["d"] + ["."] && !Trailing(name) && DotLast(name)
  {
    assert name == "" + [SLASH] + "d" + [SLASH] + ".";
    RootComponents();
    TwoComponents("", "d", ".");
    assert [] + ["d"] == ["d"];
  }

  lemma DotWalk(t: Tree)
    requires t == DirectoriesOnly({["d"], ["d", "e"]})
    ensures Walk(t, ["d"] + ["."]) == Some(["d"])
  {
    assert ["d"][..0] == [] && (["d"] + ["."])[..1] == ["d"];
    assert Next([], "d") == ["d"];
    assert Walk(t, ["d"]) == Some(["d"]);
  }

  lemma DotTree(t: Tree)
    requires t == DirectoriesOnly({["d"], ["d", "e"]})
    ensures ValidTree(t) && Removable(t, ["d"]) && Bare(t, ["d"]) == DirectoriesOnly({["d"]})
  {
    assert Parent(["d"]) == [] && Parent(["d", "e"]) == ["d"];
    assert ["d"] <= ["d", "e"] && !(["d"] <= []);
  }

  /** The directory of before with a regular file /o/x in it. */
  function WithFile(mode: bv12, mine: bool, fileMine: bool): Tree {
    WithDirectory(mode, mine)[["o"] + ["x"] := Node(Regular, 0x1A4, fileMine)]
  }

  lemma WithFileValid(mode: bv12, mine: bool, fileMine: bool)
    ensures ValidTree(WithFile(mode, mine, fileMine))
    ensures Below(WithFile(mode, mine, fileMine), ["o"] + ["x"]) == {["o"] + ["x"]}
  {
    assert Parent(["o"] + ["x"]) == ["o"] && Parent(["o"]) == [];
    assert !(["o"] + ["x"] <= ["o"]) && !(["o"] + ["x"] <= []);
  }

  /** To remove the file /o/x takes the rights to write and to search /o, as 0555 does not give them; and if /o
      is sticky, the process must own one of the two. The rights to the file do not matter. */
  lemma RemovalTakesRights(mode: bv12, mine: bool, fileMine: bool)
    ensures RemovableName(WithFile(mode, mine, fileMine), "/o/x") <==>
            WriteAndSearch(mode, mine) && (mode & 0x200 == 0 || mine || fileMine)
    ensures !WriteAndSearch(0x16D, true)
  {
    var t, p := WithFile(mode, mine, fileMine), ["o"] + ["x"];
    WithFileValid(mode, mine, fileMine);
    OxName("/o/x");
    RightsBits(t[["o"]]);
    InO(t, "x");
    assert Parent(p) == ["o"];
    assert CanDelete(t, p) <==> WriteAndSearch(mode, mine) && (mode & 0x200 == 0 || mine || fileMine);
    assert p in Below(t, p) && forall q :: q in t && p <= q ==> q in Below(t, p);
    assert Removable(t, p) <==> CanDelete(t, p);
    PlainOx(t);
  }

  lemma PlainOx(t: Tree)
    ensures Stat(t, "/o/x").Some? ==> Stays(t, "/o/x", Stat(t, "/o/x").value)
  {
    OxName("/o/x");
    if Stat(t, "/o/x").Some? {
      assert forall c :: c in ["o"] + ["x"] ==> c == "o" || c == "x";
      PlainStays(t, "/o/x");
    }
  }

  /** To list /o takes the right to read it: 0400 or 0004. */
  lemma ListingTakesRights(mode: bv12, mine: bool, fileMine: bool)
    ensures CanList(WithFile(mode, mine, fileMine), "/o") <==>
            if mine then mode & 0x100 != 0 else mode & 0x004 != 0
  {
    InO(WithFile(mode, mine, fileMine), "x");
    OName("/o");
  }

  lemma OName(name: string)
    requires name == "/o"
    ensures Components(name) == ["o"] && !Trailing(name)
  {
    RootComponents();
    assert name == "" + [SLASH] + "o";
    ChildComponents("", "o");
    assert [] + ["o"] == ["o"];
  }

  // ----- remove undoes make_path -----

  /** What is at or below the topmost missing prefix of a path once the path is made. */
  lemma BelowMade(t: Tree, p: Path, m: nat, perm: bv12)
    requires ValidTree(t) && m < |p| && p[..m + 1] !in t
    ensures Below(MadeBelow(t, p, m, perm), p[..m + 1]) == LongPrefixes(p, m)
    ensures forall q :: q in LongPrefixes(p, m) ==> q !in t
  {
    var u, t' := p[..m + 1], MadeBelow(t, p, m, perm);
    forall q | q in LongPrefixes(p, m) ensures q !in t && q in Below(t', u) {
      var j :| m < j <= |p| && q == p[..j];
      MissingBelow(t, p, m + 1, j);
      assert q[..m + 1] == u;
    }
    forall q | q in Below(t', u) ensures q in LongPrefixes(p, m) {
      assert q[..|q|] == q && q[..m + 1] == u;
      MissingBelow(t, q, m + 1, |q|);
    }
  }

  /** A new directory on the path can be deleted again, the target only if it may be read. */
  lemma MadeDeletable(t: Tree, p: Path, m: nat, j: nat, perm: bv12)
    requires m < j <= |p| && Enters(t, p[..m]) && Writable(t[p[..m]])
    requires forall q :: q in LongPrefixes(p, m) ==> q !in t
    ensures Deletable(MadeBelow(t, p, m, perm), p[..j]) <==> j < |p| || Readable(Node(Directory, perm, true))
  {
    OwnerRights(perm, Node(Directory, perm | S_IRWXU, true));
    assert p[..|p|] == p && Parent(p[..j]) == p[..j - 1];
    assert p[..j] in LongPrefixes(p, m) && (j - 1 > m ==> p[..j - 1] in LongPrefixes(p, m));
  }

  lemma MadeRemovable(t: Tree, p: Path, m: nat, perm: bv12)
    requires ValidTree(t) && m < |p| && Enters(t, p[..m]) && Writable(t[p[..m]]) && p[..m + 1] !in t
    ensures Removable(MadeBelow(t, p, m, perm), p[..m + 1]) <==> Readable(Node(Directory, perm, true))
  {
    var t', u := MadeBelow(t, p, m, perm), p[..m + 1];
    BelowMade(t, p, m, perm);
    MadeDeletable(t, p, m, |p|, perm);
    assert p[..|p|] == p && p in LongPrefixes(p, m) && u in LongPrefixes(p, m);
    assert p in Below(t', u);
    if Readable(Node(Directory, perm, true)) {
      forall q | q in t' && u <= q ensures Deletable(t', q) {
        assert q in Below(t', u);
        var j :| m < j <= |p| && q == p[..j];
        MadeDeletable(t, p, m, j, perm);
      }
    }
  }

  lemma MadeBelowRemoved(t: Tree, p: Path, m: nat, perm: bv12)
    requires ValidTree(t) && m < |p| && p[..m + 1] !in t
    ensures var t' := MadeBelow(t, p, m, perm); t' - Below(t', p[..m + 1]) == t && p[..m + 1] in t'
  {
    BelowMade(t, p, m, perm);
    assert p[..m + 1] in LongPrefixes(p, m);
  }

  /** Making a path that leads down and removing what had to be made gives the first tree back; removing it is
      possible exactly if the mode asked for lets the owner read the target. */
  lemma MakeThenRemove(t: Tree, name: string, perm: bv12)
    requires ValidTree(t) && Absolute(name) && Downward(t, name)
    requires Walk(t, Components(name)).None? && Making(t, name, perm).ok
    ensures var p, m, t' := End([], Components(name)), |Base(t, name)|, Making(t, name, perm).tree;
            && m < |p| && p[..m] in t && p[..m + 1] !in t
            && Stat(t', Canonical(p[..m + 1])) == Some(p[..m + 1])
            && (RemovableName(t', Canonical(p[..m + 1])) <==> Readable(Node(Directory, perm, true)))
            && t' - Below(t', p[..m + 1]) == t
  {
    var p, d, t' := End([], Components(name)), Base(t, name), Making(t, name, perm).tree;
    DownwardExact(t, name, perm);
    MakingValid(t, name, perm);
    BaseReached(t, name);
    PathMadeThenRemoved(t, t', p, |d|, perm);
  }

  lemma PathMadeThenRemoved(t: Tree, t': Tree, p: Path, m: nat, perm: bv12)
    requires ValidTree(t) && ValidTree(t') && m < |p| && t' == MadeBelow(t, p, m, perm)
    requires Reach(t, p[..m]) && Enters(t, p[..m]) && Writable(t[p[..m]]) && p[..m + 1] !in t
    ensures Stat(t', Canonical(p[..m + 1])) == Some(p[..m + 1])
    ensures RemovableName(t', Canonical(p[..m + 1])) <==> Readable(Node(Directory, perm, true))
    ensures t' - Below(t', p[..m + 1]) == t
  {
    MadeBelowRemoved(t, p, m, perm);
    MadeRemovable(t, p, m, perm);
    assert Parent(p[..m + 1]) == p[..m];
    MadeReached(t, t', p[..m + 1], p[..m]);
  }

  lemma BaseReached(t: Tree, name: string)
    requires ValidTree(t)
    ensures Reach(t, Base(t, name))
  {
    KnownWalk(t, Components(name));
    WalkReaches(t, Components(name)[..Known(t, Components(name))]);
  }

  lemma MadeReached(t: Tree, t': Tree, u: Path, d: Path)
    requires Reach(t, d) && Enters(t, d) && u != [] && Parent(u) == d && ValidTree(t') && u in t'
    requires forall q :: q in t ==> q in t' && t'[q] == t[q]
    ensures Stat(t', Canonical(u)) == Some(u) && (RemovableName(t', Canonical(u)) <==> Removable(t', u))
  {
    assert forall i | 0 <= i < |d| :: Enters(t, d[..i]) ==> Enters(t', d[..i]);
    ReachParent(t', u);
    CanonicalComponents(u);
    WalkPlain(t', u);
    PlainStays(t', Canonical(u));
  }
}
