/** Character strings as the library handles them: searching, C strings, splitting and joining. */
module Text {

  datatype Option<+T> = None | Some(value: T)

  const NUL: char := '\0'

  /** Position of the first c at or after from, as std::string::find gives it (None for npos). */
  function IndexOf(s: string, c: char, from: nat): (r: Option<nat>)
    ensures r.None? ==> from > |s| || c !in s[from..]
    ensures r.Some? ==> from <= r.value < |s| && s[r.value] == c && c !in s[from..r.value]
    decreases |s| - from
  {
    if from >= |s| then None
    else if s[from] == c then Some(from)
    else
      var r := IndexOf(s, c, from + 1);
      assert s[from..] == [s[from]] + s[from + 1..];
      assert r.Some? ==> s[from..r.value] == [s[from]] + s[from + 1..r.value];
      r
  }

  /** The part of s that a `const char*` to its first character denotes. */
  function CStr(s: string): (r: string)
    ensures r <= s && NUL !in r
    ensures |r| < |s| ==> s[|r|] == NUL
  {
    match IndexOf(s, NUL, 0)
    case None => s
    case Some(i) => s[..i]
  }

  /** All segments between occurrences of c, empty ones included. */
  function Split(s: string, c: char): (r: seq<string>)
    ensures |r| >= 1
    decreases |s|
  {
    match IndexOf(s, c, 0)
    case None => [s]
    case Some(i) => [s[..i]] + Split(s[i + 1..], c)
  }

  function NonEmpty(parts: seq<string>): (r: seq<string>)
    ensures "" !in r
  {
    if parts == [] then []
    else (if parts[0] == "" then [] else [parts[0]]) + NonEmpty(parts[1..])
  }

  /** The non-empty segments, which is what the tokenising loops of the library collect. */
  function Tokens(s: string, c: char): (r: seq<string>) {
    NonEmpty(Split(s, c))
  }

  function Join(v: seq<string>, c: char): string {
    if |v| == 0 then ""
    else if |v| == 1 then v[0]
    else v[0] + [c] + Join(v[1..], c)
  }

  /** The tokens of every element, one element after the other. */
  function TokensOfEach(v: seq<string>, c: char): seq<string> {
    if v == [] then [] else Tokens(v[0], c) + TokensOfEach(v[1..], c)
  }

  ghost predicate Clean(t: string, c: char) {
    t != "" && c !in t
  }

  lemma IndexOfUnique(s: string, c: char, i: nat)
    requires i < |s| && s[i] == c && c !in s[..i]
    ensures IndexOf(s, c, 0) == Some(i)
  {
    assert s[0..] == s;
    assert forall j | 0 <= j < i :: s[..i][j] == s[j];
    assert forall r | i < r <= |s| :: s[0..r][i] == c;
  }

  lemma CStrOfClean(s: string)
    requires NUL !in s
    ensures CStr(s) == s
  {}

  /** Where the segment that starts at from ends. */
  function SegmentEnd(s: string, from: nat, c: char): (end: nat)
    requires from <= |s|
    ensures from <= end <= |s|
  {
    match IndexOf(s, c, from)
    case None => |s|
    case Some(i) => i
  }

  lemma SegmentIsClean(s: string, from: nat, c: char)
    requires from <= |s|
    ensures var end := SegmentEnd(s, from, c); c !in s[from..end] && (end < |s| ==> s[end] == c)
  {
    assert s[from..|s|] == s[from..];
  }

  lemma Regroup(a: seq<string>, b: seq<string>, c: seq<string>)
    ensures a + (b + c) == a + b + c
  {}

  /** The first segment, and what is split after it. */
  lemma SplitFirst(first: string, c: char, rest: string)
    requires c !in first
    ensures Split(first + [c] + rest, c) == [first] + Split(rest, c)
  {
    var s := first + [c] + rest;
    assert s[..|first|] == first && s[|first| + 1..] == rest;
    IndexOfUnique(s, c, |first|);
  }

  lemma {:induction false} SplitAppend(a: string, c: char, b: string)
    ensures Split(a + [c] + b, c) == Split(a, c) + Split(b, c)
    decreases |a|
  {
    if c !in a {
      assert Split(a, c) == [a];
      SplitFirst(a, c, b);
    } else {
      var end := SegmentEnd(a, 0, c);
      SegmentIsClean(a, 0, c);
      assert a[0..] == a;
      var first, rest := a[0..end], a[end + 1..];
      assert a == first + [c] + rest && a + [c] + b == first + [c] + (rest + [c] + b);
      SplitFirst(first, c, rest);
      SplitFirst(first, c, rest + [c] + b);
      SplitAppend(rest, c, b);
      Regroup([first], Split(rest, c), Split(b, c));
    }
  }

  lemma {:induction false} NonEmptyAppend(p: seq<string>, q: seq<string>)
    ensures NonEmpty(p + q) == NonEmpty(p) + NonEmpty(q)
  {
    if p == [] {
      assert p + q == q;
    } else {
      assert (p + q)[1..] == p[1..] + q;
      NonEmptyAppend(p[1..], q);
    }
  }

  /** A separator cuts the tokens of a string in two. */
  lemma TokensAppend(a: string, c: char, b: string)
    ensures Tokens(a + [c] + b, c) == Tokens(a, c) + Tokens(b, c)
  {
    SplitAppend(a, c, b);
    NonEmptyAppend(Split(a, c), Split(b, c));
  }

  lemma NonEmptySingle(t: string)
    ensures NonEmpty([t]) == if t == "" then [] else [t]
  {
    assert NonEmpty([t][1..]) == [];
  }

  lemma TokensOfClean(t: string, c: char)
    requires c !in t
    ensures Tokens(t, c) == if t == "" then [] else [t]
  {
    assert Split(t, c) == [t];
    NonEmptySingle(t);
  }

  lemma {:induction false} NonEmptySubset(parts: seq<string>, t: string)
    requires t in NonEmpty(parts)
    ensures t != "" && t in parts
  {
    if parts[0] != t {
      NonEmptySubset(parts[1..], t);
    }
  }

  lemma {:induction false} SplitParts(s: string, c: char, t: string)
    requires t in Split(s, c)
    ensures c !in t && forall x :: x in t ==> x in s
    decreases |s|
  {
    match IndexOf(s, c, 0)
    case None =>
      assert s[0..] == s;
    case Some(i) =>
      assert s[..i] == s[0..i];
      if t != s[..i] {
        SplitParts(s[i + 1..], c, t);
      }
  }

  /** Every token is non-empty, free of the separator and made of characters of the text. */
  lemma TokensAreClean(s: string, c: char, t: string)
    requires t in Tokens(s, c)
    ensures Clean(t, c) && forall x :: x in t ==> x in s
  {
    NonEmptySubset(Split(s, c), t);
    SplitParts(s, c, t);
  }

  function IfAny(t: string): seq<string> {
    if t == "" then [] else [t]
  }

  lemma TokensPair(first: string, c: char, rest: string)
    requires c !in first
    ensures Tokens(first + [c] + rest, c) == IfAny(first) + Tokens(rest, c)
  {
    TokensAppend(first, c, rest);
    TokensOfClean(first, c);
  }

  /** A text with the separator in it is cut at the first one. */
  lemma CutFirst(b: string, c: char) returns (first: string, rest: string)
    requires c in b
    ensures b == first + [c] + rest && c !in first
  {
    var end := SegmentEnd(b, 0, c);
    SegmentIsClean(b, 0, c);
    assert b[0..|b|] == b;
    first, rest := b[0..end], b[end + 1..];
  }

  // ----- tokenising loops -----

  /** What a loop that has come to from has still to look at. */
  ghost function RestFrom(s: string, from: nat): string {
    if from <= |s| then s[from..] else ""
  }

  /** One more segment: an empty one is not collected. */
  function Grow(got: seq<string>, e: string): seq<string> {
    if e == "" then got else got + [e]
  }

  /** The segment e, up to its separator or the end, is cut off rest. */
  ghost predicate CutsOff(rest: string, e: string, c: char, later: string) {
    c !in e && (rest == e + [c] + later || (rest == e && later == ""))
  }

  lemma GrowMoves(got: seq<string>, e: string, later: seq<string>)
    ensures got + (IfAny(e) + later) == Grow(got, e) + later
  {}

  lemma RestParts(s: string, from: nat, c: char)
    requires from < |s|
    ensures var end := SegmentEnd(s, from, c);
            CutsOff(RestFrom(s, from), s[from..end], c, RestFrom(s, end + 1))
  {
    SegmentIsClean(s, from, c);
  }

  lemma TokensStep(all: seq<string>, got: seq<string>, rest: string, e: string, later: string, c: char)
    requires CutsOff(rest, e, c, later)
    requires all == got + Tokens(rest, c)
    ensures all == Grow(got, e) + Tokens(later, c)
  {
    if rest == e + [c] + later {
      TokensPair(e, c, later);
      GrowMoves(got, e, Tokens(later, c));
    } else {
      TokensOfClean(e, c);
      TokensOfClean("", c);
      GrowMoves(got, e, []);
    }
  }

  /** What a tokenising loop that stands at from makes of the tokens it has got. */
  ghost function CollectFrom(got: seq<string>, s: string, from: nat, c: char): seq<string>
    decreases |s| - from
  {
    if from >= |s| then got
    else
      var end := SegmentEnd(s, from, c);
      CollectFrom(Grow(got, s[from..end]), s, end + 1, c)
  }

  /** One round takes the segment at from. */
  lemma CollectNext(got: seq<string>, s: string, from: nat, c: char) returns (e: string, next: nat)
    requires from < |s|
    ensures next > from && CollectFrom(got, s, from, c) == CollectFrom(Grow(got, e), s, next, c)
    ensures CutsOff(RestFrom(s, from), e, c, RestFrom(s, next))
  {
    RestParts(s, from, c);
    e, next := s[from..SegmentEnd(s, from, c)], SegmentEnd(s, from, c) + 1;
  }

  lemma NothingLeft(s: string, from: nat, c: char)
    requires from >= |s|
    ensures Tokens(RestFrom(s, from), c) == []
  {
    assert RestFrom(s, from) == "";
    TokensOfClean("", c);
  }

  lemma {:induction false} CollectsAll(all: seq<string>, got: seq<string>, s: string, from: nat, c: char)
    requires all == got + Tokens(RestFrom(s, from), c)
    ensures CollectFrom(got, s, from, c) == all
    decreases |s| - from
  {
    if from >= |s| {
      NothingLeft(s, from, c);
      assert got + [] == got;
    } else {
      var e, next := CollectNext(got, s, from, c);
      TokensStep(all, got, RestFrom(s, from), e, RestFrom(s, next), c);
      CollectsAll(all, Grow(got, e), s, next, c);
    }
  }

  /** A tokenising loop that has got some tokens and stands at from ends with all. */
  ghost predicate Collects(all: seq<string>, got: seq<string>, s: string, from: nat, c: char) {
    CollectFrom(got, s, from, c) == all
  }

  /** A tokenising loop collects exactly the tokens. */
  lemma CollectsTokens(s: string, c: char)
    ensures Collects(Tokens(s, c), [], s, 0, c)
  {
    assert RestFrom(s, 0) == s && [] + Tokens(s, c) == Tokens(s, c);
    CollectsAll(Tokens(s, c), [], s, 0, c);
  }

  lemma CollectsOn(all: seq<string>, got: seq<string>, s: string, from: nat, c: char, end: nat)
    requires from < |s| && end == SegmentEnd(s, from, c) && Collects(all, got, s, from, c)
    ensures Collects(all, Grow(got, s[from..end]), s, end + 1, c)
  {}

  lemma CollectsDone(all: seq<string>, got: seq<string>, s: string, from: nat, c: char)
    requires from >= |s| && Collects(all, got, s, from, c)
    ensures got == all
  {}

  lemma {:induction false} JoinSnoc(v: seq<string>, x: string, c: char)
    ensures Join(v + [x], c) == if v == [] then x else Join(v, c) + [c] + x
  {
    if |v| >= 2 {
      assert (v + [x])[1..] == v[1..] + [x];
      JoinSnoc(v[1..], x, c);
    }
  }

  /** One step of a joining loop. */
  lemma JoinStep(v: seq<string>, pos: nat, c: char)
    requires pos < |v|
    ensures Join(v[..pos + 1], c) == if pos == 0 then v[0] else Join(v[..pos], c) + [c] + v[pos]
  {
    assert v[..pos + 1] == v[..pos] + [v[pos]];
    JoinSnoc(v[..pos], v[pos], c);
  }

  /** Tokenising a joined list gives each element's own tokens: what any list decodes to. */
  lemma {:induction false} TokensOfJoin(v: seq<string>, c: char)
    ensures Tokens(Join(v, c), c) == TokensOfEach(v, c)
  {
    if |v| == 0 {
      TokensOfClean("", c);
    } else if |v| == 1 {
      assert TokensOfEach(v[1..], c) == [];
    } else {
      TokensAppend(v[0], c, Join(v[1..], c));
      TokensOfJoin(v[1..], c);
    }
  }

  lemma {:induction false} TokensOfEachClean(v: seq<string>, c: char)
    requires forall x :: x in v ==> c !in x
    ensures TokensOfEach(v, c) == NonEmpty(v)
  {
    if v != [] {
      TokensOfClean(v[0], c);
      TokensOfEachClean(v[1..], c);
    }
  }

  lemma {:induction false} NonEmptyIdentity(v: seq<string>)
    requires "" !in v
    ensures NonEmpty(v) == v
  {
    if v != [] {
      NonEmptyIdentity(v[1..]);
    }
  }

  lemma {:induction false} JoinChars(v: seq<string>, c: char, x: char)
    ensures x in Join(v, c) ==> x == c || exists t :: t in v && x in t
  {
    if |v| >= 2 && x in Join(v, c) && x != c && x !in v[0] {
      JoinChars(v[1..], c, x);
    }
  }
}
