/** Path: an ordered list of directories, read from and written as text separated by colons. */
module PathList {
  import opened Text
  import opened FileNames
  import opened FileTree

  const PATH_SEPARATOR: char := ':'

  /** What a file name depends on: realpath, the working directory, the homes of users ("" is the current
      user), and which names exist. */
  datatype Env = Env(realpath: string -> Option<string>, cwd: string, home: map<string, string>,
                     present: string -> bool)

  /** realpath gives absolute names and leaves its own answers alone; directories have absolute names. */
  ghost predicate Sane(env: Env) {
    && (forall n :: env.realpath(n).Some? ==>
          var r := env.realpath(n).value; Absolute(r) && env.realpath(r) == Some(r))
    && Absolute(env.cwd)
    && (forall u :: u in env.home ==> Absolute(env.home[u]))
  }

  /** realpath brings no colon into a name that has none, as where there are no symbolic links. */
  ghost predicate AddsNoColon(env: Env) {
    forall n :: Absolute(n) && PATH_SEPARATOR !in n && env.realpath(n).Some? ==>
      PATH_SEPARATOR !in env.realpath(n).value
  }

  /** A home reference without a slash, or to an unknown user, ends in an exception. */
  function ExpandHome(env: Env, path: string): Option<string>
    requires path != ""
  {
    match IndexOf(path, SLASH, 1)
    case None => None
    case Some(i) => if path[1..i] in env.home then Some(env.home[path[1..i]] + path[i..]) else None
  }

  /** The full name of File(name); None when building the File throws. */
  function FullName(env: Env, name: string): Option<string>
    requires name != ""
  {
    var long := if name[0] == SLASH then Some(name)
                else if name[0] == '~' then ExpandHome(env, name)
                else Some(env.cwd + "/" + name);
    if long.None? then None
    else
      var resolved := env.realpath(long.value);
      if resolved.None? then long else resolved
  }

  /** A File gets realpath's answer for an absolute name, or the name itself; a relative name is first put behind
      the working directory, and a home reference behind the home. */
  lemma FullNameResolves(env: Env, name: string)
    requires Absolute(env.cwd) && name != "" && forall u :: u in env.home ==> Absolute(env.home[u])
    ensures Absolute(name) ==>
              FullName(env, name) == (if env.realpath(name).Some? then env.realpath(name) else Some(name))
    ensures name[0] != SLASH && name[0] != '~' ==> FullName(env, name) == FullName(env, env.cwd + "/" + name)
    ensures name[0] == '~' && SLASH in name && HomeUser(name) in env.home ==>
              FullName(env, name) == FullName(env, env.home[HomeUser(name)] + name[1 + |HomeUser(name)|..])
  {
    if name[0] == '~' {
      TildeName(name);
    }
  }

  /** Every full name is absolute, and a File built from it has that same name. */
  lemma FullNameStable(env: Env, name: string)
    requires Sane(env) && name != "" && FullName(env, name).Some?
    ensures var n := FullName(env, name).value; Absolute(n) && FullName(env, n) == Some(n)
  {}

  /** Joining a name to a directory joins what they stand for. */
  lemma JoinedComponents(dir: string, name: string)
    ensures Components(dir + "/" + name) == Components(dir) + Components(name)
  {
    assert "/" == [SLASH];
    TokensAppend(dir, SLASH, name);
  }

  lemma AppendedComponents(dir: string, name: string)
    requires Absolute(name)
    ensures Components(dir + name) == Components(dir) + Components(name)
  {
    var rest := name[1..];
    assert name == [SLASH] + rest == "" + [SLASH] + rest;
    TokensAppend("", SLASH, rest);
    RootComponents();
    assert Components(name) == Components(rest);
    assert dir + name == dir + [SLASH] + rest;
    TokensAppend(dir, SLASH, rest);
  }

  /** A name that realpath does not know stands for itself if absolute, for a path in the working directory
      if relative, and for a path in the home of the user it names if it starts with a tilde. */
  lemma FullNameMeaning(env: Env, name: string)
    requires name != "" && forall n :: env.realpath(n).None?
    ensures name[0] != '~' ==> FullName(env, name).Some?
    ensures name[0] != '~' ==>
              Components(FullName(env, name).value) ==
              (if Absolute(name) then [] else Components(env.cwd)) + Components(name)
    ensures name[0] == '~' ==>
              (FullName(env, name).Some? <==> SLASH in name && HomeUser(name) in env.home)
    ensures name[0] == '~' && FullName(env, name).Some? ==>
              Components(FullName(env, name).value) ==
              Components(env.home[HomeUser(name)]) + Components(name[1 + |HomeUser(name)|..])
  {
    if name[0] != '~' {
      JoinedComponents(env.cwd, name);
    } else {
      TildeName(name);
      if SLASH in name && HomeUser(name) in env.home {
        AppendedComponents(env.home[HomeUser(name)], name[1 + |HomeUser(name)|..]);
      }
    }
  }

  /** The user a home reference names: what stands between the tilde and the first slash. */
  function HomeUser(name: string): string
    requires name != ""
  {
    Split(name[1..], SLASH)[0]
  }

  lemma TildeName(name: string)
    requires name != "" && name[0] == '~'
    ensures match IndexOf(name, SLASH, 1)
            case None => SLASH !in name
            case Some(i) => SLASH in name && HomeUser(name) == name[1..i] && Absolute(name[i..])
  {
    var rest := name[1..];
    assert name == [name[0]] + rest;
    match IndexOf(name, SLASH, 1)
    case None =>
    case Some(i) =>
      assert rest[i - 1] == SLASH && rest[..i - 1] == name[1..i];
      IndexOfUnique(rest, SLASH, i - 1);
  }

  lemma {:induction false} CanonicalHasNoColon(path: seq<string>)
    requires forall c :: c in path ==> PATH_SEPARATOR !in c
    ensures PATH_SEPARATOR !in CanonicalNonRoot(path) && PATH_SEPARATOR !in Canonical(path)
  {
    if path != [] {
      var init := path[..|path| - 1];
      assert path[|path| - 1] in path && forall c :: c in init ==> c in path;
      CanonicalHasNoColon(init);
    }
  }

  /** The tree model is such an environment. */
  lemma TreeIsSane(t: Tree, env: Env)
    requires ValidTree(t) && Absolute(env.cwd) && forall u :: u in env.home ==> Absolute(env.home[u])
    requires forall n :: env.realpath(n) ==
               if Absolute(n) && Stat(t, n).Some? then Some(Canonical(Stat(t, n).value)) else None
    ensures Sane(env) && AddsNoColon(env)
    ensures forall n :: Absolute(n) ==> FullName(env, n) == Some(SetName(t, n))
  {
    forall n | Absolute(n) && PATH_SEPARATOR !in n && env.realpath(n).Some?
      ensures PATH_SEPARATOR !in env.realpath(n).value
    {
      var q := Stat(t, n).value;
      WalkReaches(t, Components(n));
      forall c | c in q ensures PATH_SEPARATOR !in c {
        EndComponents(Components(n), c);
        TokensAreClean(n, SLASH, c);
      }
      CanonicalHasNoColon(q);
    }
    forall n | env.realpath(n).Some?
      ensures var r := env.realpath(n).value; Absolute(r) && env.realpath(r) == Some(r)
    {
      SetNameStable(t, n);
    }
  }

  /** Two results one after the other: nothing when either has thrown. */
  function Both(a: Option<seq<string>>, b: Option<seq<string>>): Option<seq<string>> {
    if a.None? || b.None? then None else Some(a.value + b.value)
  }

  lemma BothLaws(a: Option<seq<string>>, b: Option<seq<string>>, c: Option<seq<string>>)
    ensures Both(a, Both(b, c)) == Both(Both(a, b), c)
    ensures Both(Some([]), a) == a == Both(a, Some([]))
  {
    if a.Some? && b.Some? && c.Some? {
      assert a.value + (b.value + c.value) == a.value + b.value + c.value;
    }
    assert a.Some? ==> [] + a.value == a.value == a.value + [];
  }

  function FullNameList(env: Env, name: string): Option<seq<string>>
    requires name != ""
  {
    match FullName(env, name)
    case None => None
    case Some(n) => Some([n])
  }

  function FullNames(env: Env, names: seq<string>): Option<seq<string>>
    requires "" !in names
  {
    if names == [] then Some([]) else Both(FullNameList(env, names[0]), FullNames(env, names[1..]))
  }

  /** The directories a path list stands for: those of its non-empty segments, in order. */
  function Parse(env: Env, list: string): Option<seq<string>> {
    FullNames(env, Tokens(list, PATH_SEPARATOR))
  }

  function ToText(dirs: seq<string>): string {
    Join(dirs, PATH_SEPARATOR)
  }

  lemma {:induction false} FullNamesAppend(env: Env, p: seq<string>, q: seq<string>)
    requires "" !in p && "" !in q
    ensures FullNames(env, p + q) == Both(FullNames(env, p), FullNames(env, q))
  {
    if p == [] {
      assert p + q == q;
      BothLaws(FullNames(env, q), None, None);
    } else {
      assert (p + q)[1..] == p[1..] + q;
      FullNamesAppend(env, p[1..], q);
      BothLaws(FullNameList(env, p[0]), FullNames(env, p[1..]), FullNames(env, q));
    }
  }

  /** Two lists with a colon between them parse to the directories of the first and then of the second. */
  lemma ParseAppend(env: Env, a: string, b: string)
    ensures Parse(env, a + [PATH_SEPARATOR] + b) == Both(Parse(env, a), Parse(env, b))
  {
    TokensAppend(a, PATH_SEPARATOR, b);
    FullNamesAppend(env, Tokens(a, PATH_SEPARATOR), Tokens(b, PATH_SEPARATOR));
  }

  lemma ParseSingle(env: Env, name: string)
    requires PATH_SEPARATOR !in name
    ensures Parse(env, name) == if name == "" then Some([]) else FullNameList(env, name)
  {
    TokensOfClean(name, PATH_SEPARATOR);
    if name != "" {
      assert FullNames(env, [name][1..]) == Some([]);
      BothLaws(FullNameList(env, name), None, None);
    }
  }

  lemma UnresolvedParse(env: Env, name: string)
    requires Absolute(name) && PATH_SEPARATOR !in name && env.realpath(name).None?
    ensures Parse(env, name) == Some([name])
  {
    ParseSingle(env, name);
  }

  lemma ParseTwo(env: Env, a: string, b: string, list: string)
    requires Parse(env, a) == Some([a]) && Parse(env, b) == Some([b])
    ensures list == a + [PATH_SEPARATOR] + b ==> Parse(env, list) == Some([a, b])
    ensures list == a + [PATH_SEPARATOR] + ("" + [PATH_SEPARATOR] + b) ==> Parse(env, list) == Some([a, b])
  {
    assert [a] + [b] == [a, b] && [] + [b] == [b];
    ParseSingle(env, "");
    ParseAppend(env, a, b);
    ParseAppend(env, a, "" + [PATH_SEPARATOR] + b);
    ParseAppend(env, "", b);
  }

  /** Two absolute names are written with a colon between them, and read from such a text; empty segments are
      passed over. */
  lemma TwoDirectories(env: Env, a: string, b: string)
    requires Absolute(a) && Absolute(b) && ':' !in a && ':' !in b
    requires env.realpath(a).None? && env.realpath(b).None?
    ensures ToText([]) == "" && ToText([a]) == a && ToText([a, b]) == a + ":" + b
    ensures Parse(env, a + ":" + b) == Some([a, b]) == Parse(env, a + ":" + ":" + b)
  {
    JoinSnoc([a], b, PATH_SEPARATOR);
    assert [a] + [b] == [a, b] && ":" == [PATH_SEPARATOR];
    UnresolvedParse(env, a);
    UnresolvedParse(env, b);
    ParseTwo(env, a, b, a + ":" + b);
    assert a + ":" + ":" + b == a + [PATH_SEPARATOR] + ("" + [PATH_SEPARATOR] + b);
    ParseTwo(env, a, b, a + ":" + ":" + b);
  }

  ghost predicate Stable(env: Env, dirs: seq<string>) {
    forall d :: d in dirs ==> Absolute(d) && FullName(env, d) == Some(d)
  }

  lemma {:induction false} FullNamesStable(env: Env, names: seq<string>)
    requires Sane(env) && "" !in names && FullNames(env, names).Some?
    ensures Stable(env, FullNames(env, names).value)
  {
    if names != [] {
      FullNameStable(env, names[0]);
      FullNamesStable(env, names[1..]);
    }
  }

  lemma {:induction false} FullNamesIdentity(env: Env, dirs: seq<string>)
    requires Stable(env, dirs)
    ensures "" !in dirs && FullNames(env, dirs) == Some(dirs)
  {
    if dirs != [] {
      assert dirs[0] in dirs && forall d :: d in dirs[1..] ==> d in dirs;
      FullNamesIdentity(env, dirs[1..]);
      assert dirs == [dirs[0]] + dirs[1..];
    }
  }

  lemma {:induction false} FullNamesLength(env: Env, names: seq<string>)
    requires "" !in names && FullNames(env, names).Some?
    ensures |FullNames(env, names).value| == |names|
  {
    if names != [] {
      FullNamesLength(env, names[1..]);
    }
  }

  /** An absolute name has a first token, which is absolute. */
  lemma FirstTokenAbsolute(d: string)
    requires Absolute(d)
    ensures Tokens(d, PATH_SEPARATOR) != [] && Absolute(Tokens(d, PATH_SEPARATOR)[0])
  {
    if PATH_SEPARATOR !in d {
      TokensOfClean(d, PATH_SEPARATOR);
    } else {
      var first, rest := CutFirst(d, PATH_SEPARATOR);
      TokensPair(first, PATH_SEPARATOR, rest);
      assert first != "" ==> first[0] == d[0];
    }
  }

  lemma {:induction false} TokenCount(dirs: seq<string>)
    requires forall d :: d in dirs ==> Absolute(d)
    ensures |TokensOfEach(dirs, PATH_SEPARATOR)| >= |dirs|
  {
    if dirs != [] {
      FirstTokenAbsolute(dirs[0]);
      TokenCount(dirs[1..]);
    }
  }

  lemma {:induction false} ReadBackHasNoColon(env: Env, dirs: seq<string>)
    requires AddsNoColon(env) && forall d :: d in dirs ==> Absolute(d)
    requires "" !in TokensOfEach(dirs, PATH_SEPARATOR)
    requires FullNames(env, TokensOfEach(dirs, PATH_SEPARATOR)) == Some(dirs)
    ensures forall d :: d in dirs ==> PATH_SEPARATOR !in d
  {
    if dirs != [] {
      var d, t, rest := dirs[0], Tokens(dirs[0], PATH_SEPARATOR), TokensOfEach(dirs[1..], PATH_SEPARATOR);
      FullNamesAppend(env, t, rest);
      FullNamesLength(env, t);
      FullNamesLength(env, rest);
      FirstTokenAbsolute(d);
      TokenCount(dirs[1..]);
      assert dirs == FullNames(env, t).value + FullNames(env, rest).value;
      assert t[1..] == [];
      TokensAreClean(d, PATH_SEPARATOR, t[0]);
      assert FullNames(env, rest).value == dirs[1..];
      ReadBackHasNoColon(env, dirs[1..]);
    }
  }

  /** Writing a list of files and parsing it gives the same list in the same order when no name has a colon,
      and only then, unless realpath itself brings a colon in. */
  lemma PathRoundTrip(env: Env, dirs: seq<string>)
    requires Stable(env, dirs)
    ensures (forall d :: d in dirs ==> PATH_SEPARATOR !in d) ==> Parse(env, ToText(dirs)) == Some(dirs)
    ensures AddsNoColon(env) && Parse(env, ToText(dirs)) == Some(dirs) ==>
              forall d :: d in dirs ==> PATH_SEPARATOR !in d
  {
    TokensOfJoin(dirs, PATH_SEPARATOR);
    if forall d :: d in dirs ==> PATH_SEPARATOR !in d {
      TokensOfEachClean(dirs, PATH_SEPARATOR);
      NonEmptyIdentity(dirs);
      FullNamesIdentity(env, dirs);
    }
    if AddsNoColon(env) && Parse(env, ToText(dirs)) == Some(dirs) {
      ReadBackHasNoColon(env, dirs);
    }
  }

  /** Whatever list was parsed, writing it and parsing again changes nothing if no full name has a colon. */
  lemma ParseIsStable(env: Env, list: string)
    requires Sane(env) && Parse(env, list).Some?
    requires forall d :: d in Parse(env, list).value ==> PATH_SEPARATOR !in d
    ensures Parse(env, ToText(Parse(env, list).value)) == Parse(env, list)
  {
    FullNamesStable(env, Tokens(list, PATH_SEPARATOR));
    PathRoundTrip(env, Parse(env, list).value);
  }

  class Path {
    var directories: seq<string>

    constructor ()
      ensures directories == []
    {
      directories := [];
    }

    method Add(dir: string)
      modifies this
      ensures directories == old(directories) + [dir]
    {
      directories := directories + [dir];
    }

    /** Appends the directories of a path list; false when building one of the files throws. */
    method ParsePathList(env: Env, list: string) returns (ok: bool)
      modifies this
      ensures ok <==> Parse(env, list).Some?
      ensures ok ==> directories == old(directories) + Parse(env, list).value
    {
      var rest := list;
      ghost var all, before, got: seq<string> := Parse(env, list), directories, [];
      BothLaws(all, None, None);
      while rest != ""
        invariant all == Both(Some(got), Parse(env, rest))
        invariant directories == before + got
        decreases |rest|
      {
        ghost var whole := rest;
        var colon := IndexOf(rest, PATH_SEPARATOR, 0);
        var name;
        if colon.None? {
          name := rest;
          rest := "";
        } else {
          name := rest[..colon.value];
          rest := rest[colon.value + 1..];
        }
        FirstSegment(env, all, got, whole, name, rest);
        if name != "" {
          var file := FullName(env, name);
          if file.None? {
            return false;
          }
          assert Both(Some(got), FullNameList(env, name)) == Some(got + [file.value]);
          Add(file.value);
          got := got + [file.value];
        }
      }
      ParseSingle(env, "");
      BothLaws(Some(got), None, None);
      ok := true;
    }

    method WriteTo() returns (stream: string)
      ensures stream == ToText(directories)
    {
      stream := "";
      var first := true;
      for pos := 0 to |directories|
        invariant first <==> pos == 0
        invariant stream == ToText(directories[..pos])
      {
        JoinStep(directories, pos, PATH_SEPARATOR);
        if !first {
          stream := stream + [PATH_SEPARATOR];
        } else {
          first := false;
        }
        stream := stream + directories[pos];
      }
      assert directories[..|directories|] == directories;
    }

    /** The first directory, in order, that has a child of that name. */
    method Which(env: Env, name: string) returns (found: Option<string>)
      requires Stable(env, directories)
      ensures found.Some? ==>
                exists i :: 0 <= i < |directories| && IsChildFile(env, directories[i], name, found.value) &&
                  env.present(found.value) && NoneHas(env, directories[..i], name)
      ensures found.None? ==> NoneHas(env, directories, name)
    {
      for pos := 0 to |directories|
        invariant NoneHas(env, directories[..pos], name)
      {
        assert directories[pos] in directories;
        var child := ChildName(env, directories[pos], name);
        if env.present(child.value) {
          return child;
        }
        assert directories[..pos + 1] == directories[..pos] + [directories[pos]];
      }
      assert directories[..|directories|] == directories;
      found := None;
    }
  }

  function ChildName(env: Env, dir: string, name: string): (r: Option<string>)
    requires Absolute(dir)
    ensures r.Some? && IsChildFile(env, dir, name, r.value)
  {
    FullName(env, dir + "/" + name)
  }

  /** The file that a name stands for in a directory: what realpath says of the two with a slash between them,
      or just that. */
  ghost predicate IsChildFile(env: Env, dir: string, name: string, file: string) {
    var joined := dir + "/" + name;
    file == if env.realpath(joined).Some? then env.realpath(joined).value else joined
  }

  /** When realpath does not know it, it stands for the components of both. */
  lemma ChildFileComponents(env: Env, dir: string, name: string)
    requires Absolute(dir) && env.realpath(dir + "/" + name).None?
    ensures Components(ChildName(env, dir, name).value) == Components(dir) + Components(name)
  {
    JoinedComponents(dir, name);
  }

  /** In the file tree it is the canonical name of what is there. */
  lemma ChildInTree(t: Tree, env: Env, dir: string, name: string, file: string)
    requires ValidTree(t) && Absolute(dir) && IsChildFile(env, dir, name, file)
    requires forall n :: env.realpath(n) ==
               if Absolute(n) && Stat(t, n).Some? then Some(Canonical(Stat(t, n).value)) else None
    ensures file == SetName(t, dir + "/" + name)
  {
    var joined := dir + "/" + name;
    assert joined[0] == dir[0];
    ResolvedInTree(t, env, joined);
  }

  lemma ResolvedInTree(t: Tree, env: Env, n: string)
    requires Absolute(n)
    requires env.realpath(n) == if Stat(t, n).Some? then Some(Canonical(Stat(t, n).value)) else None
    ensures SetName(t, n) == if env.realpath(n).Some? then env.realpath(n).value else n
  {}

  ghost predicate NoneHas(env: Env, dirs: seq<string>, name: string) {
    forall d, f :: d in dirs && IsChildFile(env, d, name, f) ==> !env.present(f)
  }

  /** So ping in /bin is /bin/ping. */
  lemma PingInBin(env: Env, file: string)
    requires env.realpath("/bin/ping").None?
    ensures IsChildFile(env, "/bin", "ping", file) <==> file == "/bin/ping"
  {
    assert "/bin" + "/" + "ping" == "/bin/ping";
  }

  /** One step of the parsing loop. */
  lemma FirstSegment(env: Env, all: Option<seq<string>>, got: seq<string>, whole: string, name: string, rest: string)
    requires PATH_SEPARATOR !in name
    requires whole == name + [PATH_SEPARATOR] + rest || (whole == name && rest == "")
    requires all == Both(Some(got), Parse(env, whole))
    ensures all == Both(if name == "" then Some(got) else Both(Some(got), FullNameList(env, name)), Parse(env, rest))
  {
    ParseSingle(env, name);
    ParseSingle(env, "");
    if whole == name && rest == "" {
      BothLaws(Parse(env, name), None, None);
    } else {
      ParseAppend(env, name, rest);
    }
    BothLaws(Some(got), Parse(env, name), Parse(env, rest));
    BothLaws(Some(got), None, None);
  }
}
