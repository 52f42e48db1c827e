/** The string side of File: urls, depth, parents, and the components a name stands for. */
module FileNames {
  import opened Text

  const SLASH: char := '/'
  const COLON: char := ':'
  const FILE_PROTOCOL: string := "file"

  predicate Absolute(name: string) {
    name != "" && name[0] == SLASH
  }

  /** Everything before the first colon, or nothing. */
  function Protocol(url: string): (r: string)
    ensures COLON !in r && (COLON !in url ==> r == "")
    ensures COLON in url ==> r + [COLON] <= url
  {
    assert url[0..] == url;
    match IndexOf(url, COLON, 0)
    case None => ""
    case Some(i) => assert url[0..i] == url[..i]; url[..i]
  }

  /** Everything after the first colon, or the whole url: with a colon, the two parts give the url back. */
  function Uri(url: string): (r: string)
    ensures if COLON in url then Protocol(url) + [COLON] + r == url else r == url
  {
    match IndexOf(url, COLON, 0)
    case None => url
    case Some(i) => url[i + 1..]
  }

  function Count(s: string, c: char): nat {
    if s == "" then 0 else (if s[0] == c then 1 else 0) + Count(s[1..], c)
  }

  lemma {:induction false} CountAppend(a: string, b: string, c: char)
    ensures Count(a + b, c) == Count(a, c) + Count(b, c)
  {
    if a == "" {
      assert a + b == b;
    } else {
      assert (a + b)[1..] == a[1..] + b;
      CountAppend(a[1..], b, c);
    }
  }

  lemma {:induction false} CountZero(s: string, c: char)
    ensures Count(s, c) == 0 <==> c !in s
  {
    if s != "" {
      CountZero(s[1..], c);
    }
  }

  /** What depth counts: the slashes after the first, through file urls, and -1 for what is not understood. */
  function DepthOf(path: string): int
    decreases |path|
  {
    if Absolute(path) then Count(path[1..], SLASH)
    else if Protocol(path) == FILE_PROTOCOL then DepthOf(Uri(path))
    else -1
  }

  /** The counting loop of depth, which calls itself on the uri of a file url. */
  method Depth(path: string) returns (count: int)
    ensures count == DepthOf(path)
    decreases |path|
  {
    if path != "" && path[0] == SLASH {
      count := 0;
      var rest := path[1..];
      while rest != ""
        invariant count + Count(rest, SLASH) == DepthOf(path)
        decreases |rest|
      {
        var slash := IndexOf(rest, SLASH, 0);
        if slash.None? {
          assert rest[0..] == rest;
          CountZero(rest, SLASH);
          return;
        }
        assert rest == rest[..slash.value] + [SLASH] + rest[slash.value + 1..];
        CountAppend(rest[..slash.value] + [SLASH], rest[slash.value + 1..], SLASH);
        CountAppend(rest[..slash.value], [SLASH], SLASH);
        assert rest[0..slash.value] == rest[..slash.value];
        CountZero(rest[..slash.value], SLASH);
        count := count + 1;
        rest := rest[slash.value + 1..];
      }
      return;
    }
    if Protocol(path) == FILE_PROTOCOL {
      count := Depth(Uri(path));
      return;
    }
    count := -1;
  }

  /** k times the prefix of a file url. */
  function FilePrefix(k: nat): string {
    if k == 0 then "" else FILE_PROTOCOL + [COLON] + FilePrefix(k - 1)
  }

  ghost predicate IsFileUrl(path: string, k: nat, text: string) {
    path == FilePrefix(k) + text && Absolute(text)
  }

  lemma {:induction false} DepthOfFileUrl(path: string, k: nat, text: string)
    requires IsFileUrl(path, k, text)
    ensures DepthOf(path) == DepthOf(text) >= 0
    decreases k
  {
    if k == 0 {
      assert path == text;
    } else {
      assert path == FILE_PROTOCOL + [COLON] + (FilePrefix(k - 1) + text);
      assert path[..4] == FILE_PROTOCOL && path[5..] == FilePrefix(k - 1) + text;
      IndexOfUnique(path, COLON, 4);
      DepthOfFileUrl(Uri(path), k - 1, text);
    }
  }

  lemma {:induction false} FileUrlOfDepth(path: string) returns (k: nat, text: string)
    requires DepthOf(path) >= 0
    ensures IsFileUrl(path, k, text)
    decreases |path|
  {
    if Absolute(path) {
      k, text := 0, path;
    } else {
      k, text := FileUrlOfDepth(Uri(path));
      k := k + 1;
      assert path == FILE_PROTOCOL + [COLON] + Uri(path);
    }
  }

  /** depth is non-negative exactly for zero or more "file:" prefixes before a text that starts with a slash. */
  lemma DepthUnderstood(path: string)
    ensures DepthOf(path) >= 0 <==> exists k: nat, text :: IsFileUrl(path, k, text)
    ensures DepthOf(path) >= -1
  {
    if DepthOf(path) >= 0 {
      var k, text := FileUrlOfDepth(path);
    }
    if k: nat, text :| IsFileUrl(path, k, text) {
      DepthOfFileUrl(path, k, text);
    }
    DepthAtLeast(path);
  }

  lemma {:induction false} DepthAtLeast(path: string)
    ensures DepthOf(path) >= -1
    decreases |path|
  {
    if !Absolute(path) && Protocol(path) == FILE_PROTOCOL {
      DepthAtLeast(Uri(path));
    }
  }

  /** The prefix that is understood is "file:"; a name with another protocol has no depth. */
  lemma DepthOfUrl(protocol: string, text: string)
    requires COLON !in protocol && SLASH !in protocol && Absolute(text)
    ensures DepthOf("file:" + text) == DepthOf(text)
    ensures protocol != "file" ==> DepthOf(protocol + ":" + text) == -1
  {
    assert FilePrefix(1) == FILE_PROTOCOL + [COLON] + FilePrefix(0) == "file:";
    DepthOfFileUrl("file:" + text, 1, text);
    var url := protocol + ":" + text;
    assert url[..|protocol|] == protocol;
    IndexOfUnique(url, COLON, |protocol|);
    assert url[0] == if protocol == "" then COLON else protocol[0];
    assert protocol != "" ==> protocol[0] in protocol;
  }

  // ----- parents -----

  function LastIndexOf(s: string, c: char): (r: Option<nat>)
    ensures r.None? ==> c !in s
    ensures r.Some? ==> r.value < |s| && s[r.value] == c && c !in s[r.value + 1..]
  {
    if s == "" then None
    else
      var n := |s| - 1;
      assert s == s[..n] + [s[n]];
      if s[n] == c then Some(n)
      else
        var r := LastIndexOf(s[..n], c);
        assert r.Some? ==> s[r.value + 1..] == s[..n][r.value + 1..] + [s[n]];
        r
  }

  function ParentName(name: string): string {
    match LastIndexOf(name, SLASH)
    case None => "/"
    case Some(i) => if i == 0 then "/" else name[..i]
  }

  function Ancestor(name: string, n: nat): string
    decreases n
  {
    if n == 0 then name else Ancestor(ParentName(name), n - 1)
  }

  /** The parent of an absolute name is absolute, strictly shorter until it is "/", and one level up. */
  lemma ParentIsShallower(name: string)
    requires Absolute(name)
    ensures var p := ParentName(name);
            && Absolute(p) && (name != "/" ==> |p| < |name|) && (name == "/" ==> p == "/")
            && DepthOf(p) == (if DepthOf(name) == 0 then 0 else DepthOf(name) - 1)
            && (DepthOf(name) == 0 ==> p == "/")
  {
    var i := LastIndexOf(name, SLASH).value;
    CountZero(name[i + 1..], SLASH);
    if i > 0 {
      assert name[1..] == name[1..i] + [SLASH] + name[i + 1..];
      CountAppend(name[1..i] + [SLASH], name[i + 1..], SLASH);
      CountAppend(name[1..i], [SLASH], SLASH);
      assert name[..i][1..] == name[1..i];
    }
  }

  /** depth + 1 steps to the parent always end at the root, which bounds the recursion of make_path. */
  lemma {:induction false} AncestorsReachRoot(name: string, n: nat)
    requires Absolute(name) && n > DepthOf(name)
    ensures Ancestor(name, n) == "/"
    decreases n
  {
    ParentIsShallower(name);
    if n == 1 {
      assert Ancestor(ParentName(name), 0) == ParentName(name);
    } else {
      AncestorsReachRoot(ParentName(name), n - 1);
    }
  }

  lemma LastIndexOfUnique(s: string, c: char, i: nat)
    requires i < |s| && s[i] == c && c !in s[i + 1..]
    ensures LastIndexOf(s, c) == Some(i)
  {
    assert forall j | i < j < |s| :: s[i + 1..][j - i - 1] == s[j];
  }

  /** The parent of an entry is the directory it was joined to, and "/" for an entry of the root. */
  lemma ParentOfEntry(dir: string, entry: string)
    requires SLASH !in entry
    ensures ParentName(dir + "/" + entry) == if dir == "" then "/" else dir
  {
    var name := dir + "/" + entry;
    assert name[|dir| + 1..] == entry && name[..|dir|] == dir;
    LastIndexOfUnique(name, SLASH, |dir|);
  }

  // ----- components -----

  function Components(name: string): seq<string> {
    Tokens(name, SLASH)
  }

  predicate Trailing(name: string) {
    name != "" && name[|name| - 1] == SLASH
  }

  /** The name realpath gives for a path without symbolic links. */
  function Canonical(path: seq<string>): string {
    if path == [] then "/" else CanonicalNonRoot(path)
  }

  function CanonicalNonRoot(path: seq<string>): string {
    if path == [] then "" else CanonicalNonRoot(path[..|path| - 1]) + [SLASH] + path[|path| - 1]
  }

  lemma RootComponents()
    ensures Components("") == [] && Components("/") == []
  {
    TokensOfClean("", SLASH);
    assert "/" == "" + [SLASH] + "";
    TokensAppend("", SLASH, "");
  }

  lemma {:induction false} SplitCount(s: string, c: char)
    ensures |Split(s, c)| == Count(s, c) + 1
    decreases |s|
  {
    match IndexOf(s, c, 0)
    case None =>
      assert s[0..] == s;
      CountZero(s, c);
    case Some(i) =>
      assert s[0..i] == s[..i] && s == s[..i] + [c] + s[i + 1..];
      CountAppend(s[..i] + [c], s[i + 1..], c);
      CountAppend(s[..i], [c], c);
      CountZero(s[..i], c);
      SplitCount(s[i + 1..], c);
  }

  lemma {:induction false} NonEmptyCount(parts: seq<string>)
    ensures |NonEmpty(parts)| <= |parts|
    ensures |NonEmpty(parts)| == |parts| <==> "" !in parts
  {
    if parts != [] {
      NonEmptyCount(parts[1..]);
      assert parts == [parts[0]] + parts[1..];
    }
  }

  lemma SplitComponents(name: string)
    requires Absolute(name)
    ensures Components(name) == NonEmpty(Split(name[1..], SLASH))
  {
    var rest := name[1..];
    assert name == "" + [SLASH] + rest;
    TokensAppend("", SLASH, rest);
    RootComponents();
    assert [] + Tokens(rest, SLASH) == Tokens(rest, SLASH);
  }

  /** The depth of an absolute name is at least the number of components less one, which are the directories
      above it and below the root, and it is that number exactly if no segment after the first slash is empty. */
  lemma DepthCountsParents(name: string)
    requires Absolute(name)
    ensures |Components(name)| <= DepthOf(name) + 1
    ensures |Components(name)| == DepthOf(name) + 1 <==> "" !in Split(name[1..], SLASH)
  {
    SplitComponents(name);
    SplitCount(name[1..], SLASH);
    NonEmptyCount(Split(name[1..], SLASH));
  }

  lemma ThreeSegments(name: string, a: string, b: string, c: string)
    requires Absolute(name) && name[1..] == a + [SLASH] + (b + [SLASH] + c)
    requires SLASH !in a && SLASH !in b && SLASH !in c
    ensures DepthOf(name) == 2 && Components(name) == NonEmpty([a] + ([b] + [c]))
  {
    SplitFirst(a, SLASH, b + [SLASH] + c);
    SplitFirst(b, SLASH, c);
    SplitComponents(name);
    SplitCount(name[1..], SLASH);
  }

  /** A trailing or a doubled slash counts as one more directory: such names have depth 2, although they stand
      for a file b in the directory a of the root. */
  lemma DepthOfEmptySegments(a: string, b: string)
    requires Clean(a, SLASH) && Clean(b, SLASH)
    ensures DepthOf([SLASH] + a + [SLASH] + b + [SLASH]) == 2
    ensures DepthOf([SLASH] + a + [SLASH] + [SLASH] + b) == 2
    ensures Components([SLASH] + a + [SLASH] + b + [SLASH]) == [a, b] == Components([SLASH] + a + [SLASH] + [SLASH] + b)
  {
    var trailing, doubled := [SLASH] + a + [SLASH] + b + [SLASH], [SLASH] + a + [SLASH] + [SLASH] + b;
    assert trailing[1..] == a + [SLASH] + (b + [SLASH] + "");
    assert doubled[1..] == a + [SLASH] + ("" + [SLASH] + b);
    ThreeSegments(trailing, a, b, "");
    ThreeSegments(doubled, a, "", b);
    NonEmptySingle(b);
    NonEmptyAppend([a], [b] + [""]);
    NonEmptyAppend([b], [""]);
    NonEmptyAppend([a], [""] + [b]);
    NonEmptyAppend([""], [b]);
    NonEmptySingle(a);
    NonEmptySingle("");
  }

  /** Appending an entry name appends a component. */
  lemma ChildComponents(name: string, entry: string)
    requires Clean(entry, SLASH)
    ensures Components(name + [SLASH] + entry) == Components(name) + [entry]
  {
    TokensAppend(name, SLASH, entry);
    TokensOfClean(entry, SLASH);
  }

  /** The parent of a name stands for one component less, or for the same path if the name ends in a slash. */
  lemma ParentComponents(name: string)
    requires Absolute(name)
    ensures var p, parent := Components(name), Components(ParentName(name));
            if Trailing(name) then parent == p else p != [] && parent == p[..|p| - 1]
  {
    var i := LastIndexOf(name, SLASH).value;
    var last := name[i + 1..];
    assert name == name[..i] + [SLASH] + last;
    TokensAppend(name[..i], SLASH, last);
    TokensOfClean(last, SLASH);
    RootComponents();
    if i == 0 {
      assert name[..i] == "";
    }
    assert last != "" ==> last[|last| - 1] == name[|name| - 1];
  }

  lemma {:induction false} NonRootComponents(path: seq<string>)
    requires forall c :: c in path ==> Clean(c, SLASH)
    ensures Components(CanonicalNonRoot(path)) == path
    ensures path != [] ==> Absolute(CanonicalNonRoot(path)) && !Trailing(CanonicalNonRoot(path))
  {
    if path == [] {
      RootComponents();
    } else {
      var init, last := path[..|path| - 1], path[|path| - 1];
      assert last in path && forall c :: c in init ==> c in path;
      NonRootComponents(init);
      ChildComponents(CanonicalNonRoot(init), last);
      assert path == init + [last];
    }
  }

  /** A canonical name stands for the path it was made from, and ends in a slash only at the root. */
  lemma CanonicalComponents(path: seq<string>)
    requires forall c :: c in path ==> Clean(c, SLASH)
    ensures Components(Canonical(path)) == path && Absolute(Canonical(path))
    ensures Trailing(Canonical(path)) <==> path == []
  {
    NonRootComponents(path);
    RootComponents();
  }

  /** A canonical name is "/" for the root, and otherwise has a single slash before each component. */
  lemma CanonicalText(path: seq<string>, c: string)
    ensures Canonical([]) == "/" && Canonical([c]) == "/" + c
    ensures path != [] ==> Canonical(path + [c]) == Canonical(path) + "/" + c
  {
    assert [c][..0] == [] && CanonicalNonRoot([]) == "" && "" + [SLASH] + c == "/" + c;
    assert Canonical([c]) == CanonicalNonRoot([]) + [SLASH] + c;
    assert (path + [c])[..|path|] == path && "/" == [SLASH];
  }
}
