/** How StringMemoryArea writes a vector or a map of strings as one string, and reads it back. */
module StringCodecs {
  import opened Text

  const STRING_SEPARATOR: char := '\U{3}'
  const MAP_ENTRY_SEPARATOR: char := '\U{4}'

  type Pairs = seq<(string, string)>

  // ----- vectors -----

  function EncodeVector(v: seq<string>): string {
    Join(v, STRING_SEPARATOR)
  }

  function DecodeVector(text: string): seq<string> {
    Tokens(text, STRING_SEPARATOR)
  }

  ghost predicate StorableElement(x: string) {
    Clean(x, STRING_SEPARATOR) && NUL !in x
  }

  /** For NUL-free elements, what is read back is each element's own non-empty tokens, in order. */
  lemma VectorDecodesToTokens(v: seq<string>)
    requires forall x :: x in v ==> NUL !in x
    ensures DecodeVector(CStr(EncodeVector(v))) == TokensOfEach(v, STRING_SEPARATOR)
  {
    JoinChars(v, STRING_SEPARATOR, NUL);
    CStrOfClean(EncodeVector(v));
    TokensOfJoin(v, STRING_SEPARATOR);
  }

  /** With no separator and no NUL in the elements, exactly the empty strings are lost. */
  lemma VectorDropsEmpty(v: seq<string>)
    requires forall x :: x in v ==> NUL !in x && STRING_SEPARATOR !in x
    ensures DecodeVector(CStr(EncodeVector(v))) == NonEmpty(v)
  {
    VectorDecodesToTokens(v);
    TokensOfEachClean(v, STRING_SEPARATOR);
  }

  /** Whatever text is decoded, each element of the result could be stored and read back. */
  lemma DecodedElementsStorable(text: string, x: string)
    requires x in DecodeVector(CStr(text))
    ensures StorableElement(x)
  {
    TokensAreClean(CStr(text), STRING_SEPARATOR, x);
  }

  /** The vector round trip holds for exactly the vectors of storable elements. */
  lemma VectorRoundTrip(v: seq<string>)
    ensures DecodeVector(CStr(EncodeVector(v))) == v <==> forall x :: x in v ==> StorableElement(x)
  {
    if forall x :: x in v ==> StorableElement(x) {
      VectorDropsEmpty(v);
      NonEmptyIdentity(v);
    }
    if DecodeVector(CStr(EncodeVector(v))) == v {
      forall x | x in v ensures StorableElement(x) {
        DecodedElementsStorable(EncodeVector(v), x);
      }
    }
  }

  // ----- maps -----

  function Entry(p: (string, string), sep: char): string {
    p.0 + [sep] + p.1
  }

  function Entries(pairs: Pairs, sep: char): (r: seq<string>)
    ensures |r| == |pairs| && forall i :: 0 <= i < |pairs| ==> r[i] == Entry(pairs[i], sep)
  {
    seq(|pairs|, i requires 0 <= i < |pairs| => Entry(pairs[i], sep))
  }

  function EncodeMap(pairs: Pairs): string {
    Join(Entries(pairs, STRING_SEPARATOR), MAP_ENTRY_SEPARATOR)
  }

  /** The effect of one entry, cut at its first separator: entries without one are skipped. */
  function PutEntry(m: map<string, string>, e: string, sep: char): map<string, string> {
    match IndexOf(e, sep, 0)
    case None => m
    case Some(i) => m[e[..i] := e[i + 1..]]
  }

  function PutEntries(es: seq<string>, sep: char): map<string, string> {
    if es == [] then map[] else PutEntry(PutEntries(es[..|es| - 1], sep), es[|es| - 1], sep)
  }

  function DecodeMap(text: string): map<string, string> {
    PutEntries(Tokens(text, MAP_ENTRY_SEPARATOR), STRING_SEPARATOR)
  }

  /** pairs lists the entries of m, each once, in the order the container iterates. */
  ghost predicate Lists(pairs: Pairs, m: map<string, string>) {
    && (forall i, j :: 0 <= i < j < |pairs| ==> pairs[i].0 != pairs[j].0)
    && (forall p :: p in pairs ==> p.0 in m && m[p.0] == p.1)
    && (forall k :: k in m ==> (k, m[k]) in pairs)
  }

  ghost predicate StorableKey(k: string) {
    STRING_SEPARATOR !in k && MAP_ENTRY_SEPARATOR !in k && NUL !in k
  }

  ghost predicate StorableValue(v: string) {
    MAP_ENTRY_SEPARATOR !in v && NUL !in v
  }

  ghost predicate StorableMap(m: map<string, string>) {
    forall k :: k in m ==> StorableKey(k) && StorableValue(m[k])
  }

  lemma PutEntryOfPair(m: map<string, string>, p: (string, string), sep: char)
    requires sep !in p.0
    ensures PutEntry(m, Entry(p, sep), sep) == m[p.0 := p.1]
  {
    var e := Entry(p, sep);
    assert e[..|p.0|] == p.0 && e[|p.0| + 1..] == p.1;
    IndexOfUnique(e, sep, |p.0|);
  }

  lemma ListsInit(pairs: Pairs, m: map<string, string>)
    requires Lists(pairs, m) && pairs != []
    ensures var p := pairs[|pairs| - 1];
            Lists(pairs[..|pairs| - 1], m - {p.0}) && p.0 in m && m == (m - {p.0})[p.0 := p.1]
  {
    var n := |pairs| - 1;
    var p, init := pairs[n], pairs[..n];
    assert p in pairs;
    var m' := m - {p.0};
    forall q | q in init ensures q.0 in m' && m'[q.0] == q.1 {
      var i :| 0 <= i < n && init[i] == q;
      assert pairs[i] in pairs;
    }
    forall k | k in m' ensures (k, m'[k]) in init {
      var i :| 0 <= i < |pairs| && pairs[i] == (k, m[k]);
      assert init[i] == pairs[i];
    }
  }

  ghost function FromPairs(pairs: Pairs): map<string, string> {
    if pairs == [] then map[]
    else var p := pairs[|pairs| - 1]; FromPairs(pairs[..|pairs| - 1])[p.0 := p.1]
  }

  lemma {:induction false} FromPairsOfMap(pairs: Pairs, m: map<string, string>)
    requires Lists(pairs, m)
    ensures FromPairs(pairs) == m
  {
    if pairs == [] {
      assert forall k :: k !in m;
    } else {
      ListsInit(pairs, m);
      FromPairsOfMap(pairs[..|pairs| - 1], m - {pairs[|pairs| - 1].0});
    }
  }

  lemma {:induction false} PutEntriesOfPairs(pairs: Pairs, sep: char)
    requires forall p :: p in pairs ==> sep !in p.0
    ensures PutEntries(Entries(pairs, sep), sep) == FromPairs(pairs)
  {
    if pairs != [] {
      var n := |pairs| - 1;
      var p, init := pairs[n], pairs[..n];
      assert p in pairs && forall q :: q in init ==> q in pairs;
      PutEntriesOfPairs(init, sep);
      assert Entries(pairs, sep)[..n] == Entries(init, sep);
      PutEntryOfPair(FromPairs(init), p, sep);
    }
  }

  /** No decoded key has the separator, and a character that no entry has is in no decoded key or value. */
  lemma {:induction false} DecodedEntriesLack(es: seq<string>, sep: char, x: char, k: string)
    requires forall e :: e in es ==> x !in e
    requires k in PutEntries(es, sep)
    ensures sep !in k && x !in k && x !in PutEntries(es, sep)[k]
  {
    var init, e := es[..|es| - 1], es[|es| - 1];
    assert e in es && forall y :: y in init ==> y in es;
    match IndexOf(e, sep, 0)
    case None =>
      DecodedEntriesLack(init, sep, x, k);
    case Some(i) =>
      assert e[..i] == e[0..i];
      if k != e[..i] {
        DecodedEntriesLack(init, sep, x, k);
      }
  }

  /** Whatever text is decoded, the map that results could be stored and read back. */
  lemma DecodedMapStorable(text: string)
    ensures StorableMap(DecodeMap(CStr(text)))
  {
    var es := Tokens(CStr(text), MAP_ENTRY_SEPARATOR);
    forall e | e in es ensures MAP_ENTRY_SEPARATOR !in e && NUL !in e {
      TokensAreClean(CStr(text), MAP_ENTRY_SEPARATOR, e);
    }
    forall k | k in DecodeMap(CStr(text))
      ensures StorableKey(k) && StorableValue(DecodeMap(CStr(text))[k])
    {
      DecodedEntriesLack(es, STRING_SEPARATOR, MAP_ENTRY_SEPARATOR, k);
      DecodedEntriesLack(es, STRING_SEPARATOR, NUL, k);
    }
  }

  /** The map round trip holds for exactly the storable maps, in whatever order the entries are written:
      empty keys and values, the empty map, and separators inside values are all kept. */
  lemma MapRoundTrip(pairs: Pairs, m: map<string, string>)
    requires Lists(pairs, m)
    ensures DecodeMap(CStr(EncodeMap(pairs))) == m <==> StorableMap(m)
  {
    if StorableMap(m) {
      var es := Entries(pairs, STRING_SEPARATOR);
      forall e | e in es ensures e != "" && MAP_ENTRY_SEPARATOR !in e && NUL !in e {
        var i :| 0 <= i < |pairs| && es[i] == e;
        assert pairs[i] in pairs;
      }
      JoinChars(es, MAP_ENTRY_SEPARATOR, NUL);
      CStrOfClean(EncodeMap(pairs));
      TokensOfJoin(es, MAP_ENTRY_SEPARATOR);
      TokensOfEachClean(es, MAP_ENTRY_SEPARATOR);
      NonEmptyIdentity(es);
      PutEntriesOfPairs(pairs, STRING_SEPARATOR);
      FromPairsOfMap(pairs, m);
    }
    DecodedMapStorable(EncodeMap(pairs));
  }

  /** A map with one entry comes back exactly if the value can be stored. */
  lemma SingleEntry(k: string, v: string)
    requires StorableKey(k)
    ensures DecodeMap(CStr(EncodeMap([(k, v)]))) == map[k := v] <==> StorableValue(v)
  {
    assert Lists([(k, v)], map[k := v]);
    MapRoundTrip([(k, v)], map[k := v]);
  }

  /** Character 3 does no harm in a value, and character 4 does. */
  lemma SeparatorsInValues(k: string)
    requires StorableKey(k)
    ensures DecodeMap(CStr(EncodeMap([(k, [STRING_SEPARATOR])]))) == map[k := [STRING_SEPARATOR]]
    ensures DecodeMap(CStr(EncodeMap([(k, [MAP_ENTRY_SEPARATOR])]))) != map[k := [MAP_ENTRY_SEPARATOR]]
  {
    SingleEntry(k, [STRING_SEPARATOR]);
    SingleEntry(k, [MAP_ENTRY_SEPARATOR]);
  }

  /** Storing again what was read back changes nothing, for vectors and for maps, whatever the text was. */
  lemma DecodeIsStable(text: string, pairs: Pairs)
    requires Lists(pairs, DecodeMap(CStr(text)))
    ensures DecodeVector(CStr(EncodeVector(DecodeVector(CStr(text))))) == DecodeVector(CStr(text))
    ensures DecodeMap(CStr(EncodeMap(pairs))) == DecodeMap(CStr(text))
  {
    var v := DecodeVector(CStr(text));
    forall x | x in v ensures StorableElement(x) {
      DecodedElementsStorable(text, x);
    }
    VectorRoundTrip(v);
    DecodedMapStorable(text);
    MapRoundTrip(pairs, DecodeMap(CStr(text)));
  }

  // ----- the texts -----

  /** How a vector and a map are written: char 3 between elements and after keys, char 4 between entries. */
  lemma WrittenTexts(a: string, b: string, c: string, d: string)
    ensures EncodeVector([]) == "" && EncodeVector([a]) == a && EncodeVector([a, b]) == a + "\U{3}" + b
    ensures EncodeMap([]) == "" && EncodeMap([(a, b)]) == a + "\U{3}" + b
    ensures EncodeMap([(a, b), (c, d)]) == a + "\U{3}" + b + "\U{4}" + c + "\U{3}" + d
  {
    JoinSnoc([a], b, STRING_SEPARATOR);
    assert [a] + [b] == [a, b];
    assert "\U{3}" == [STRING_SEPARATOR] && "\U{4}" == [MAP_ENTRY_SEPARATOR];
    assert Entries([(a, b)], STRING_SEPARATOR) == [a + "\U{3}" + b];
    assert Entries([(a, b), (c, d)], STRING_SEPARATOR) == [a + "\U{3}" + b] + [c + "\U{3}" + d];
    JoinSnoc([a + "\U{3}" + b], c + "\U{3}" + d, MAP_ENTRY_SEPARATOR);
    assert a + "\U{3}" + b + "\U{4}" + (c + "\U{3}" + d) == a + "\U{3}" + b + "\U{4}" + c + "\U{3}" + d;
  }

  /** What one more segment adds to a decoded vector: itself, unless it is empty. */
  lemma OneMoreElement(text: string, x: string)
    requires STRING_SEPARATOR !in x
    ensures DecodeVector(x) == if x == "" then [] else [x]
    ensures DecodeVector(text + "\U{3}" + x) == if x == "" then DecodeVector(text) else DecodeVector(text) + [x]
  {
    assert "\U{3}" == [STRING_SEPARATOR];
    TokensOfClean(x, STRING_SEPARATOR);
    TokensAppend(text, STRING_SEPARATOR, x);
  }

  lemma PutEntriesLast(es: seq<string>, e: string, sep: char)
    ensures PutEntries(es + [e], sep) == PutEntry(PutEntries(es, sep), e, sep)
  {
    assert (es + [e])[..|es|] == es;
  }

  /** What one more entry does to a decoded map: its key gets its value, whatever it had before. */
  lemma OneMoreEntry(text: string, k: string, v: string)
    requires STRING_SEPARATOR !in k && MAP_ENTRY_SEPARATOR !in k && MAP_ENTRY_SEPARATOR !in v
    ensures DecodeMap("") == map[]
    ensures DecodeMap(text + "\U{4}" + (k + "\U{3}" + v)) == DecodeMap(text)[k := v]
  {
    var e := Entry((k, v), STRING_SEPARATOR);
    assert "\U{4}" == [MAP_ENTRY_SEPARATOR] && k + "\U{3}" + v == e;
    TokensOfClean("", MAP_ENTRY_SEPARATOR);
    TokensOfClean(e, MAP_ENTRY_SEPARATOR);
    TokensAppend(text, MAP_ENTRY_SEPARATOR, e);
    PutEntriesLast(Tokens(text, MAP_ENTRY_SEPARATOR), e, STRING_SEPARATOR);
    PutEntryOfPair(DecodeMap(text), (k, v), STRING_SEPARATOR);
  }

  /** An entry without char 3 adds nothing. */
  lemma EntryWithoutSeparator(text: string, e: string)
    requires STRING_SEPARATOR !in e && MAP_ENTRY_SEPARATOR !in e
    ensures DecodeMap(text + "\U{4}" + e) == DecodeMap(text) && DecodeMap(e) == map[]
  {
    assert "\U{4}" == [MAP_ENTRY_SEPARATOR] && e[0..] == e;
    TokensOfClean(e, MAP_ENTRY_SEPARATOR);
    TokensAppend(text, MAP_ENTRY_SEPARATOR, e);
    if e == "" {
      assert Tokens(text, MAP_ENTRY_SEPARATOR) + [] == Tokens(text, MAP_ENTRY_SEPARATOR);
    } else {
      PutEntriesLast(Tokens(text, MAP_ENTRY_SEPARATOR), e, STRING_SEPARATOR);
      PutEntriesLast([], e, STRING_SEPARATOR);
      assert [] + [e] == [e];
    }
  }

  // ----- the loops -----

  /** The text that inserting a vector stores. */
  method WriteVector(vect: seq<string>) returns (stream: string)
    ensures stream == EncodeVector(vect)
  {
    stream := "";
    for pos := 0 to |vect|
      invariant stream == Join(vect[..pos], STRING_SEPARATOR)
    {
      JoinStep(vect, pos, STRING_SEPARATOR);
      if pos != 0 {
        stream := stream + [STRING_SEPARATOR];
      }
      stream := stream + vect[pos];
    }
    assert vect[..|vect|] == vect;
  }

  /** The tokenising loop that reads a vector back. */
  method ReadVector(text: string) returns (vect: seq<string>)
    ensures vect == DecodeVector(text)
  {
    vect := [];
    var start := 0;
    ghost var all := DecodeVector(text);
    CollectsTokens(text, STRING_SEPARATOR);
    while start < |text|
      invariant Collects(all, vect, text, start, STRING_SEPARATOR)
      decreases |text| - start
    {
      var end := SegmentEnd(text, start, STRING_SEPARATOR);
      var extract := text[start..end];
      CollectsOn(all, vect, text, start, STRING_SEPARATOR, end);
      if |extract| > 0 {
        vect := vect + [extract];
      }
      start := end + 1;
    }
    CollectsDone(all, vect, text, start, STRING_SEPARATOR);
  }

  /** The text that inserting a map stores. */
  method WriteMap(pairs: Pairs) returns (stream: string)
    ensures stream == EncodeMap(pairs)
  {
    stream := "";
    ghost var es := Entries(pairs, STRING_SEPARATOR);
    for pos := 0 to |pairs|
      invariant stream == Join(es[..pos], MAP_ENTRY_SEPARATOR)
    {
      JoinStep(es, pos, MAP_ENTRY_SEPARATOR);
      ghost var before := stream;
      if pos != 0 {
        stream := stream + [MAP_ENTRY_SEPARATOR];
      }
      ghost var separated := stream;
      stream := stream + pairs[pos].0;
      stream := stream + [STRING_SEPARATOR];
      stream := stream + pairs[pos].1;
      assert stream == separated + es[pos];
    }
    assert es[..|es|] == es;
  }

  method ReadEntry(m: map<string, string>, entry: string) returns (r: map<string, string>)
    ensures r == PutEntry(m, entry, STRING_SEPARATOR)
  {
    r := m;
    var separator := IndexOf(entry, STRING_SEPARATOR, 0);
    if separator.Some? {
      var p := separator.value;
      if p + 1 < |entry| {
        r := m[entry[..p] := entry[p + 1..]];
      } else {
        assert entry[p + 1..] == "";
        r := m[entry[..p] := ""];
      }
    }
  }

  lemma PutEntriesSnoc(es: seq<string>, e: string, sep: char)
    ensures PutEntries(es + [e], sep) == PutEntry(PutEntries(es, sep), e, sep)
  {
    assert (es + [e])[..|es|] == es;
  }

  /** The loop that reads a map back, entry by entry. */
  method ReadMap(text: string) returns (m: map<string, string>)
    ensures m == DecodeMap(text)
  {
    m := map[];
    var start := 0;
    ghost var done: seq<string> := [];
    ghost var all := Tokens(text, MAP_ENTRY_SEPARATOR);
    CollectsTokens(text, MAP_ENTRY_SEPARATOR);
    while start < |text|
      invariant Collects(all, done, text, start, MAP_ENTRY_SEPARATOR)
      invariant m == PutEntries(done, STRING_SEPARATOR)
      decreases |text| - start
    {
      var end := SegmentEnd(text, start, MAP_ENTRY_SEPARATOR);
      var entry := text[start..end];
      CollectsOn(all, done, text, start, MAP_ENTRY_SEPARATOR, end);
      if |entry| > 0 {
        PutEntriesSnoc(done, entry, STRING_SEPARATOR);
        m := ReadEntry(m, entry);
        done := done + [entry];
      }
      start := end + 1;
    }
    CollectsDone(all, done, text, start, MAP_ENTRY_SEPARATOR);
  }
}
