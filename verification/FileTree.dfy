/** A symbolic-link-free file tree as one unprivileged process sees it, and what system calls do to it. */
module FileTree {
  import opened Text
  import opened FileNames

  type Path = seq<string>

  datatype Kind = Directory | Regular | Fifo | CharDevice | BlockDevice | Socket

  /** mine says that the process owns the node: then the owner bits apply, and otherwise those of others. */
  datatype Node = Node(kind: Kind, mode: bv12, mine: bool)

  type Tree = map<Path, Node>

  const S_IRWXU: bv12 := 0x1C0
  const S_ISVTX: bv12 := 0x200
  const MKDIR_BITS: bv12 := 0x3FF

  /** The file type bits of st_mode. */
  function TypeBits(k: Kind): bv16 {
    match k
    case Directory => 0x4000
    case Regular => 0x8000
    case Fifo => 0x1000
    case CharDevice => 0x2000
    case BlockDevice => 0x6000
    case Socket => 0xC000
  }

  /** is_directory tests a single bit, which block devices and sockets have as well. */
  predicate HasDirectoryBit(k: Kind) {
    TypeBits(k) & 0x4000 != 0
  }

  lemma DirectoryBit(k: Kind)
    ensures HasDirectoryBit(k) <==> k.Directory? || k.BlockDevice? || k.Socket?
  {}

  predicate Readable(n: Node) {
    n.mode & (if n.mine then 0x100 else 0x004) != 0
  }

  predicate Writable(n: Node) {
    n.mode & (if n.mine then 0x080 else 0x002) != 0
  }

  predicate Searchable(n: Node) {
    n.mode & (if n.mine then 0x040 else 0x001) != 0
  }

  predicate Sticky(n: Node) {
    n.mode & S_ISVTX != 0
  }

  /** A directory made with the rights make_path gives to ancestors can be entered and written. */
  lemma OwnerRights(perm: bv12, n: Node)
    requires n == Node(Directory, perm | S_IRWXU, true)
    ensures Readable(n) && Writable(n) && Searchable(n)
    ensures (perm | S_IRWXU) | S_IRWXU == perm | S_IRWXU
  {}

  function Parent(p: Path): Path
    requires p != []
  {
    p[..|p| - 1]
  }

  ghost predicate ValidPath(p: Path) {
    forall c :: c in p ==> Clean(c, SLASH) && c != "." && c != ".."
  }

  ghost predicate ValidTree(t: Tree) {
    && [] in t && t[[]].kind.Directory?
    && (forall p :: p in t ==> ValidPath(p))
    && (forall p :: p in t && p != [] ==> Parent(p) in t && t[Parent(p)].kind.Directory?)
  }

  /** An absolute name without "." and ".." components. */
  ghost predicate PlainName(name: string) {
    Absolute(name) && ValidPath(Components(name))
  }

  /** The process may look up entries in the directory p, "." and ".." included. */
  predicate Enters(t: Tree, p: Path) {
    p in t && t[p].kind.Directory? && Searchable(t[p])
  }

  // ----- looking up names -----

  /** Where one component leads from the directory d. */
  function Next(d: Path, c: string): Path {
    if c == "." then d
    else if c == ".." then if d == [] then d else Parent(d)
    else d + [c]
  }

  /** The node that the components lead to from the root, through directories that may be searched. */
  function Walk(t: Tree, cs: seq<string>): (r: Option<Path>)
    ensures r.Some? ==> r.value in t
  {
    if cs == [] then if [] in t then Some([]) else None
    else
      match Walk(t, cs[..|cs| - 1])
      case None => None
      case Some(d) =>
        var q := Next(d, cs[|cs| - 1]);
        if Enters(t, d) && q in t then Some(q) else None
  }

  /** Where the components lead if all but the last can be walked; the last need not exist. */
  function Locate(t: Tree, cs: seq<string>): Option<Path> {
    if cs == [] then Some([])
    else
      match Walk(t, cs[..|cs| - 1])
      case None => None
      case Some(d) => if Enters(t, d) then Some(Next(d, cs[|cs| - 1])) else None
  }

  predicate IsDirectory(t: Tree, p: Path) {
    p in t && t[p].kind.Directory?
  }

  /** The path of the node that stat finds under a name: a trailing slash demands a directory. */
  function Stat(t: Tree, name: string): (r: Option<Path>)
    ensures r.Some? ==> r.value in t
  {
    var r := Walk(t, Components(name));
    if r.Some? && (Trailing(name) ==> IsDirectory(t, r.value)) then r else None
  }

  /** The full name a File gets for an absolute name: realpath's answer, or the name itself. */
  function SetName(t: Tree, name: string): string {
    match Stat(t, name)
    case None => name
    case Some(q) => Canonical(q)
  }

  /** The name ends in "." or "..", which rmdir refuses. */
  predicate DotLast(name: string) {
    var cs := Components(name);
    cs != [] && (cs[|cs| - 1] == "." || cs[|cs| - 1] == "..")
  }

  // ----- system calls: None is failure, which changes nothing -----

  function Mkdir(t: Tree, umask: bv12, name: string, perm: bv12): Option<Tree> {
    match Locate(t, Components(name))
    case None => None
    case Some(q) =>
      if q !in t && q != [] && Parent(q) in t && Writable(t[Parent(q)])
      then Some(t[q := Node(Directory, perm & !umask & MKDIR_BITS, true)])
      else None
  }

  function Chmod(t: Tree, name: string, perm: bv12): Option<Tree> {
    match Stat(t, name)
    case None => None
    case Some(q) => if t[q].mine then Some(t[q := t[q].(mode := perm)]) else None
  }

  /** The rights over the containing directory that removing an entry needs. */
  predicate CanDelete(t: Tree, p: Path) {
    && p != [] && p in t && Enters(t, Parent(p)) && Writable(t[Parent(p)])
    && (Sticky(t[Parent(p)]) ==> t[Parent(p)].mine || t[p].mine)
  }

  ghost predicate IsChild(t: Tree, p: Path, q: Path) {
    q in t && q != [] && Parent(q) == p
  }

  ghost predicate IsEmptyDirectory(t: Tree, p: Path) {
    IsDirectory(t, p) && forall q :: !IsChild(t, p, q)
  }

  ghost function Rmdir(t: Tree, name: string): Option<Tree> {
    match Stat(t, name)
    case None => None
    case Some(q) =>
      if !DotLast(name) && IsEmptyDirectory(t, q) && CanDelete(t, q) then Some(t - {q}) else None
  }

  function Unlink(t: Tree, name: string): Option<Tree> {
    match Stat(t, name)
    case None => None
    case Some(q) => if !t[q].kind.Directory? && CanDelete(t, q) then Some(t - {q}) else None
  }

  // ----- facts -----

  /** Every proper ancestor is a directory that the process may search. */
  predicate Reach(t: Tree, p: Path) {
    forall i | 0 <= i < |p| :: Enters(t, p[..i])
  }

  lemma ReachParent(t: Tree, p: Path)
    requires p != []
    ensures Reach(t, p) <==> Reach(t, Parent(p)) && Enters(t, Parent(p))
  {
    assert forall i | 0 <= i < |p| - 1 :: Parent(p)[..i] == p[..i];
    if Reach(t, Parent(p)) && Enters(t, Parent(p)) {
      forall i | 0 <= i < |p| ensures Enters(t, p[..i]) {
        assert i < |p| - 1 ==> Enters(t, Parent(p)[..i]);
      }
    }
  }

  lemma {:induction false} AncestorInTree(t: Tree, p: Path, i: nat)
    requires ValidTree(t) && p in t && i <= |p|
    ensures p[..i] in t && (i < |p| ==> t[p[..i]].kind.Directory?)
    decreases |p|
  {
    if i == |p| {
      assert p[..i] == p;
    } else {
      var u := Parent(p);
      assert u in t && u[..i] == p[..i];
      AncestorInTree(t, u, i);
      assert i == |u| ==> u[..i] == u;
    }
  }

  /** Where components lead from d, whatever exists. */
  function End(d: Path, cs: seq<string>): Path
    decreases |cs|
  {
    if cs == [] then d else Next(End(d, cs[..|cs| - 1]), cs[|cs| - 1])
  }

  /** A walk that succeeds ends where its components lead, and each ancestor of that place may be searched. */
  lemma {:induction false} WalkReaches(t: Tree, cs: seq<string>)
    requires Walk(t, cs).Some?
    ensures Walk(t, cs).value == End([], cs) && Reach(t, Walk(t, cs).value)
  {
    if cs != [] {
      WalkReaches(t, cs[..|cs| - 1]);
      var d, q := Walk(t, cs[..|cs| - 1]).value, Walk(t, cs).value;
      if q != d {
        if |q| > |d| {
          assert Parent(q) == d;
          ReachParent(t, q);
        } else {
          ReachParent(t, d);
        }
      }
    }
  }

  /** A path without dots is walked exactly if it exists and each ancestor may be searched. */
  lemma {:induction false} WalkPlain(t: Tree, p: Path)
    requires ValidPath(p)
    ensures Walk(t, p) == if Reach(t, p) && p in t then Some(p) else None
  {
    if p != [] {
      var u := Parent(p);
      assert p[|p| - 1] in p && forall c :: c in u ==> c in p;
      assert Next(u, p[|p| - 1]) == u + [p[|p| - 1]] == p;
      ReachParent(t, p);
      WalkPlain(t, u);
    }
  }

  /** The components of the place a walk reaches are components of the name. */
  lemma {:induction false} EndComponents(cs: seq<string>, c: string)
    requires c in End([], cs)
    ensures c in cs
  {
    if cs != [] {
      var d := End([], cs[..|cs| - 1]);
      if c in d {
        EndComponents(cs[..|cs| - 1], c);
      }
    }
  }

  /** Canonicalising a name changes neither what it stands for nor whether it exists, and doing it twice
      is the same as doing it once. */
  lemma SetNameStable(t: Tree, name: string)
    requires ValidTree(t) && Absolute(name)
    ensures var n := SetName(t, name);
            && Absolute(n) && Stat(t, n) == Stat(t, name) && SetName(t, n) == n
            && (if Stat(t, name).None? then n == name else Components(n) == Stat(t, name).value)
  {
    if Stat(t, name).Some? {
      var q := Stat(t, name).value;
      CanonicalComponents(q);
      WalkReaches(t, Components(name));
      WalkPlain(t, q);
    }
  }
}
