/** The string area itself: a fixed region of bytes and the offset of the end of its last string. */
module StringMemoryArea {
  import opened Text
  import opened StringCodecs
  import opened StringHeap

  /** offset_t is an unsigned int, so sums of offsets are truncated. */
  function Offset(n: nat): nat {
    n % OFFSET_LIMIT
  }

  lemma NoWrap(n: nat)
    ensures n < OFFSET_LIMIT ==> Offset(n) == n
  {}

  class StringMemoryArea {
    const data: array<char>
    var last: nat
    /** Whether there is a read pointer to the region. */
    var readable: bool

    ghost predicate Valid()
      reads this
    {
      last < data.Length <= OFFSET_LIMIT
    }

    ghost function State(): Area
      reads this, data
    {
      Area(data[..], last)
    }

    constructor (region: array<char>, last: nat, readable: bool)
      requires last < region.Length <= OFFSET_LIMIT
      ensures Valid() && data == region && this.last == last && this.readable == readable
      ensures Represents(State(), Fresh(last))
    {
      data := region;
      this.last := last;
      this.readable := readable;
      new;
      EmptyArea(data[..], last);
    }

    /** strcpy into the region. */
    method CopyIn(at: nat, str: string)
      requires at + |str| < data.Length
      modifies data
      ensures data[..] == Copied(old(data[..]), at, str)
    {
      forall i | 0 <= i < |str| {
        data[at + i] := str[i];
      }
      data[at + |str|] := NUL;
    }

    /** Appends str after the last string. */
    method Add(str: string) returns (start: nat)
      requires Valid() && NUL !in str && SafeStep(State(), Command.Add(str))
      modifies this`last, data
      ensures Valid() && (State(), start) == Step(old(State()), Command.Add(str))
      ensures start == old(last) + 1 && last == old(last) + 1 + |str| && StringAt(data[..], start) == str
    {
      ghost var before := data[..];
      var l := |str|;
      var offset := last;
      NoWrap(offset + 1);
      NoWrap(offset + 1 + l);
      CStrOfClean(str);
      start := Offset(offset + 1);
      var end := Offset(start + l);
      CopyIn(start, str);
      CopiedReads(before, start, str);
      last := end;
    }

    /** Erases the string at offset, byte by byte up to its terminator. */
    method Clear(offset: nat) returns (count: nat)
      requires Valid() && SafeStep(State(), Command.Clear(offset))
      modifies data
      ensures Valid() && (State(), count) == Step(old(State()), Command.Clear(offset))
      ensures count == |StringAt(old(data[..]), offset)| && StringAt(data[..], offset) == ""
      ensures forall k :: 0 <= k < data.Length && !(offset <= k < offset + count) ==> data[k] == old(data[k])
    {
      ghost var before := data[..];
      ghost var str := StringAt(before, offset);
      assert before[offset + |str|] == NUL && forall k | 0 <= k < |str| :: before[offset + k] == str[k] != NUL by {
        assert before[offset..][..|str|] == str;
      }
      count := 0;
      while data[count + offset] != NUL
        invariant count <= |str| && offset + |str| < data.Length
        invariant forall k :: 0 <= k < data.Length ==>
                                data[k] == if offset <= k < offset + count then NUL else before[k]
        decreases |str| - count
      {
        data[count + offset] := NUL;
        count := count + 1;
      }
      ClearedIs(before, offset, data[..]);
      ClearedReads(before, offset);
    }

    /** The string at offset; none for offset 0 or without a read pointer. */
    method GetString(offset: nat) returns (str: Option<string>)
      requires Valid() && (offset == 0 || Terminated(data[..], offset))
      ensures str == if offset == 0 || !readable then None else Some(StringAt(data[..], offset))
    {
      if offset == 0 {
        return None;
      }
      if !readable {
        return None;
      }
      var end := offset;
      ghost var rest := data[..][offset..];
      while end < data.Length && data[end] != NUL
        invariant offset <= end <= data.Length
        invariant NUL !in rest[..end - offset]
      {
        assert rest[..end + 1 - offset] == rest[..end - offset] + [data[end]];
        end := end + 1;
      }
      assert rest[..|rest|] == rest;
      IndexOfUnique(rest, NUL, end - offset);
      assert data[offset..end] == rest[..end - offset];
      str := Some(data[offset..end]);
    }

    /** Replaces the string at offset in place if the new one is no longer, and appends it otherwise. */
    method Insert(offset: nat, str: string) returns (actual: nat)
      requires Valid() && NUL !in str && SafeStep(State(), Command.Insert(offset, str))
      modifies this`last, data
      ensures Valid() && (State(), actual) == Step(old(State()), Command.Insert(offset, str))
      ensures actual < data.Length && StringAt(data[..], actual) == str
      ensures if offset != 0 && |str| <= |StringAt(old(data[..]), offset)| then actual == offset && last == old(last)
              else actual == old(last) + 1 && last == actual + |str|
    {
      CStrOfClean(str);
      if offset == 0 {
        actual := Add(str);
        return;
      }
      ClearFits(data[..], offset);
      var available := Clear(offset);
      if available >= |str| {
        CopiedReads(data[..], offset, str);
        CopyIn(offset, str);
        return offset;
      }
      actual := Add(str);
    }

    method GetVector(offset: nat) returns (vect: seq<string>)
      requires Valid() && (offset == 0 || Terminated(data[..], offset))
      ensures vect == if offset == 0 || !readable then [] else DecodeVector(StringAt(data[..], offset))
    {
      vect := [];
      var str := GetString(offset);
      if str.Some? {
        vect := ReadVector(str.value);
      }
    }

    method InsertVector(offset: nat, vect: seq<string>) returns (actual: nat)
      requires Valid() && SafeStep(State(), Command.InsertVector(offset, vect))
      modifies this`last, data
      ensures Valid() && (State(), actual) == Step(old(State()), Command.InsertVector(offset, vect))
      ensures actual < data.Length && StringAt(data[..], actual) == CStr(Join(vect, STRING_SEPARATOR))
    {
      var stream := WriteVector(vect);
      actual := Insert(offset, CStr(stream));
    }

    method GetMap(offset: nat) returns (m: map<string, string>)
      requires Valid() && offset >= 1 && Terminated(data[..], offset)
      ensures m == if readable then DecodeMap(StringAt(data[..], offset)) else map[]
    {
      m := map[];
      var str := GetString(offset);
      if str.Some? {
        m := ReadMap(str.value);
      }
    }

    /** pairs are the entries of the map in the order its iterator yields them. */
    method InsertMap(offset: nat, pairs: Pairs) returns (actual: nat)
      requires Valid() && SafeStep(State(), Command.InsertMap(offset, pairs))
      modifies this`last, data
      ensures Valid() && (State(), actual) == Step(old(State()), Command.InsertMap(offset, pairs))
      ensures actual < data.Length && StringAt(data[..], actual) == CStr(EncodeMap(pairs))
    {
      var stream := WriteMap(pairs);
      actual := Insert(offset, CStr(stream));
    }
  }

  lemma ClearedIs(before: seq<char>, offset: nat, after: seq<char>)
    requires Terminated(before, offset) && |after| == |before|
    requires var n := |StringAt(before, offset)|;
             forall k :: 0 <= k < |after| ==> after[k] == if offset <= k < offset + n then NUL else before[k]
    ensures after == Cleared(before, offset)
  {
    ClearFits(before, offset);
  }

  lemma ClearFits(bytes: seq<char>, offset: nat)
    requires Terminated(bytes, offset)
    ensures offset + |StringAt(bytes, offset)| < |bytes|
  {
    var rest := bytes[offset..];
    assert CStr(rest) != rest && rest[..|CStr(rest)|] == CStr(rest);
  }
}
