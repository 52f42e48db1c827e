/** Executable::exec: the argv and env arrays it builds, and their release when the exec call fails. */
module ExecArrays {
  import opened Text
  import opened StringCodecs

  const EQUALS: char := '='

  /** A dynamically allocated block: a C string, or an array of addresses where 0 is the null pointer. */
  datatype Block = Chars(text: string) | Pointers(slots: seq<nat>)

  type Blocks = map<nat, Block>

  /** The allocator: what is allocated now. Releasing a block that is not is an error by precondition. */
  class Memory {
    var live: Blocks
    /** What each call of the kernel's exec has read: the arguments and the environment. */
    ghost var calls: seq<(seq<string>, seq<string>)>

    constructor ()
      ensures live == map[] && calls == []
    {
      live := map[];
      calls := [];
    }

    method Allocate(block: Block) returns (address: nat)
      modifies this`live
      ensures address != 0 && address !in old(live) && live == old(live)[address := block]
    {
      FreshAddress(live.Keys);
      address :| address != 0 && address !in live;
      live := live[address := block];
    }

    /** free and delete[]: releasing the null pointer does nothing. */
    method Release(address: nat)
      requires address == 0 || address in live
      modifies this`live
      ensures live == old(live) - {address}
    {
      live := live - {address};
    }

    method SetSlot(table: nat, i: nat, address: nat)
      requires table in live && live[table].Pointers? && i < |live[table].slots|
      modifies this`live
      ensures live == old(live)[table := Pointers(old(live)[table].slots[i := address])]
    {
      live := live[table := Pointers(live[table].slots[i := address])];
    }
  }

  lemma FreshAddress(used: set<nat>)
    ensures exists a: nat :: a != 0 && a !in used
  {
    var a := Above(used);
    assert a != 0 && a !in used;
  }

  lemma {:induction false} Above(used: set<nat>) returns (a: nat)
    ensures a > 0 && forall u :: u in used ==> u < a
    decreases used
  {
    if used == {} {
      a := 1;
    } else {
      var u :| u in used;
      var b := Above(used - {u});
      a := if b > u then b else u + 1;
      assert forall v :: v in used ==> v == u || v in used - {u};
    }
  }

  // ----- what the kernel reads -----

  /** The strings of an array of pointers, up to the first null. */
  function StringsOf(live: Blocks, slots: seq<nat>): seq<string> {
    if slots == [] || slots[0] == 0 then []
    else (if slots[0] in live && live[slots[0]].Chars? then [live[slots[0]].text] else []) + StringsOf(live, slots[1..])
  }

  function CStrs(strs: seq<string>): (r: seq<string>)
    ensures |r| == |strs| && forall i :: 0 <= i < |strs| ==> r[i] == CStr(strs[i])
  {
    seq(|strs|, i requires 0 <= i < |strs| => CStr(strs[i]))
  }

  ghost function Addresses(ps: seq<nat>): set<nat> {
    set p | p in ps
  }

  /** after is before with one new block for each string, at the addresses ps, and table changed. */
  ghost predicate Filled(before: Blocks, after: Blocks, table: nat, ps: seq<nat>, strs: seq<string>) {
    && |ps| == |strs|
    && (forall i, j :: 0 <= i < j < |ps| ==> ps[i] != ps[j])
    && (forall p :: p in ps ==> p != 0 && p !in before)
    && after.Keys == before.Keys + Addresses(ps)
    && (forall i :: 0 <= i < |ps| ==> ps[i] in after && after[ps[i]] == Chars(strs[i]))
    && (forall a :: a in before && a != table ==> after[a] == before[a])
  }

  lemma FilledSnoc(l0: Blocks, l1: Blocks, l2: Blocks, table: nat, ps: seq<nat>, strs: seq<string>, p: nat, str: string)
    requires Filled(l0, l1, table, ps, strs) && table in l0
    requires p != 0 && p !in l1 && l2.Keys == l1.Keys + {p} && l2[p] == Chars(str)
    requires forall a :: a in l1 && a != table ==> l2[a] == l1[a]
    ensures Filled(l0, l2, table, ps + [p], strs + [str])
  {
    assert Addresses(ps + [p]) == Addresses(ps) + {p};
    forall i | 0 <= i < |ps| ensures l2[ps[i]] == Chars(strs[i]) && ps[i] != p {
      assert ps[i] in ps && ps[i] in l1 && ps[i] != table;
    }
  }

  lemma {:induction false} StringsOfFilled(live: Blocks, ps: seq<nat>, strs: seq<string>, rest: seq<nat>)
    requires |ps| == |strs| && rest != [] && rest[0] == 0
    requires forall i :: 0 <= i < |ps| ==> ps[i] != 0 && ps[i] in live && live[ps[i]] == Chars(strs[i])
    ensures StringsOf(live, ps + rest) == strs
  {
    if ps == [] {
      assert ps + rest == rest;
    } else {
      assert (ps + rest)[1..] == ps[1..] + rest;
      StringsOfFilled(live, ps[1..], strs[1..], rest);
      assert strs == [strs[0]] + strs[1..];
    }
  }

  // ----- building and releasing -----

  lemma CopyStep(l0: Blocks, l1: Blocks, l2: Blocks, table: nat, strs: seq<string>, i: nat, address: nat)
    requires table in l0 && table in l1 && l1[table].Pointers? && i < |strs| && i < |l1[table].slots|
    requires Filled(l0, l1, table, l1[table].slots[..i], CStrs(strs[..i]))
    requires address != 0 && address !in l1
    requires l2 == l1[address := Chars(CStr(strs[i]))][table := Pointers(l1[table].slots[i := address])]
    ensures Filled(l0, l2, table, l2[table].slots[..i + 1], CStrs(strs[..i + 1]))
  {
    FilledSnoc(l0, l1, l2, table, l1[table].slots[..i], CStrs(strs[..i]), address, CStr(strs[i]));
    assert l2[table].slots[..i + 1] == l1[table].slots[..i] + [address];
    assert CStrs(strs[..i + 1]) == CStrs(strs[..i]) + [CStr(strs[i])];
  }

  /** Copies each string into a block of its own and puts its address into the array, from slot 0 on. */
  method CopyStrings(m: Memory, table: nat, strs: seq<string>)
    requires table in m.live && m.live[table].Pointers? && |strs| <= |m.live[table].slots|
    modifies m`live
    ensures table in m.live && m.live[table].Pointers?
    ensures |m.live[table].slots| == |old(m.live)[table].slots|
    ensures Filled(old(m.live), m.live, table, m.live[table].slots[..|strs|], CStrs(strs))
  {
    ghost var l0 := m.live;
    for i := 0 to |strs|
      invariant table in m.live && m.live[table].Pointers? && |m.live[table].slots| == |l0[table].slots|
      invariant Filled(l0, m.live, table, m.live[table].slots[..i], CStrs(strs[..i]))
    {
      ghost var l1 := m.live;
      var address := m.Allocate(Chars(CStr(strs[i])));
      m.SetSlot(table, i, address);
      CopyStep(l0, l1, m.live, table, strs, i, address);
    }
    assert strs[..|strs|] == strs;
  }

  /** The call to exec: it reads the arrays and, in the runs that matter here, fails. */
  method ExecCall(m: Memory, argv: nat, env: nat) returns (args: seq<string>, vars: seq<string>)
    requires argv in m.live && m.live[argv].Pointers? && (env == 0 || (env in m.live && m.live[env].Pointers?))
    modifies m`calls
    ensures m.calls == old(m.calls) + [(args, vars)]
    ensures args == StringsOf(m.live, m.live[argv].slots)
    ensures vars == if env == 0 then [] else StringsOf(m.live, m.live[env].slots)
  {
    args := StringsOf(m.live, m.live[argv].slots);
    vars := if env == 0 then [] else StringsOf(m.live, m.live[env].slots);
    m.calls := m.calls + [(args, vars)];
  }

  ghost predicate Distinct(slots: seq<nat>) {
    forall i, j :: 0 <= i < j < |slots| ==> slots[i] == slots[j] ==> slots[i] == 0
  }

  /** Releases the strings of an array up to the first null, and then the array. */
  method ReleaseUntilNull(m: Memory, table: nat, ghost count: nat)
    requires table in m.live && m.live[table].Pointers? && table != 0 && 0 !in m.live
    requires count + 1 == |m.live[table].slots| && m.live[table].slots[count] == 0 && Distinct(m.live[table].slots)
    requires forall i :: 0 <= i < count ==>
               m.live[table].slots[i] != 0 && m.live[table].slots[i] in m.live && m.live[table].slots[i] != table
    modifies m`live
    ensures m.live == old(m.live) - Addresses(old(m.live)[table].slots) - {table}
  {
    var slots := m.live[table].slots;
    ghost var before := m.live;
    var i := 0;
    while slots[i] != 0
      invariant i <= count
      invariant m.live == before - Addresses(slots[..i])
      decreases count - i
    {
      assert slots[i] !in slots[..i];
      assert Addresses(slots[..i + 1]) == Addresses(slots[..i]) + {slots[i]};
      m.Release(slots[i]);
      i := i + 1;
    }
    assert i == count && slots == slots[..count] + [0];
    assert Addresses(slots) == Addresses(slots[..count]) + {0};
    m.Release(table);
  }

  /** Releases every slot of an array, null or not, and then the array. */
  method ReleaseAll(m: Memory, table: nat)
    requires table in m.live && m.live[table].Pointers? && table != 0 && 0 !in m.live && Distinct(m.live[table].slots)
    requires forall p :: p in m.live[table].slots ==> p == 0 || (p in m.live && p != table)
    modifies m`live
    ensures m.live == old(m.live) - Addresses(old(m.live)[table].slots) - {table}
  {
    var slots := m.live[table].slots;
    ghost var before := m.live;
    for i := 0 to |slots|
      invariant m.live == before - Addresses(slots[..i])
    {
      assert slots[i] in slots;
      assert slots[i] != 0 ==> slots[i] !in slots[..i];
      assert Addresses(slots[..i + 1]) == Addresses(slots[..i]) + {slots[i]};
      m.Release(slots[i]);
    }
    assert slots[..|slots|] == slots;
    m.Release(table);
  }

  /** An array of copied strings that ends in a null: what the kernel reads from it, and that it can be released. */
  lemma TableBuilt(l0: Blocks, l1: Blocks, l2: Blocks, table: nat, slots: seq<nat>, strs: seq<string>)
    requires 0 !in l0 && table != 0 && table !in l0
    requires l1.Keys == l0.Keys + {table} && forall a :: a in l0 ==> l1[a] == l0[a]
    requires table in l2 && l2[table] == Pointers(slots) && |slots| == |strs| + 1 && slots[|strs|] == 0
    requires Filled(l1, l2, table, slots[..|strs|], strs)
    ensures Built(l0, l2, table, strs)
  {
    var ps := slots[..|strs|];
    assert slots == ps + [0];
    StringsOfFilled(l2, ps, strs, [0]);
    SlotsOf(ps);
    DistinctSlots(ps);
  }

  lemma DistinctSlots(ps: seq<nat>)
    requires (forall i, j :: 0 <= i < j < |ps| ==> ps[i] != ps[j]) && forall p :: p in ps ==> p != 0
    ensures Distinct(ps + [0]) && forall i :: 0 <= i < |ps| ==> (ps + [0])[i] != 0
    ensures forall p :: p in ps + [0] && p != 0 ==> p in ps
  {
    forall i | 0 <= i < |ps| ensures (ps + [0])[i] != 0 {
      assert ps[i] in ps;
    }
  }

  lemma SlotsOf(ps: seq<nat>)
    ensures Addresses(ps + [0]) == Addresses(ps) + {0}
  {}

  lemma FilledSame(l0: Blocks, l1: Blocks, l2: Blocks, table: nat, ps: seq<nat>, strs: seq<string>)
    requires Filled(l0, l1, table, ps, strs) && table in l0
    requires l2.Keys == l1.Keys && forall a :: a in l1 && a != table ==> l2[a] == l1[a]
    ensures Filled(l0, l2, table, ps, strs)
  {
    forall i | 0 <= i < |ps| ensures l2[ps[i]] == Chars(strs[i]) {
      assert ps[i] in ps;
    }
  }

  function Slots(live: Blocks, table: nat): seq<nat>
    requires table in live && live[table].Pointers?
  {
    live[table].slots
  }

  /** l1 is l0 with an array that the kernel reads as strs, made of fresh blocks only. */
  ghost predicate Built(l0: Blocks, l1: Blocks, table: nat, strs: seq<string>) {
    && table != 0 && table !in l0 && table in l1 && l1[table].Pointers?
    && StringsOf(l1, Slots(l1, table)) == strs
    && |Slots(l1, table)| == |strs| + 1 && Slots(l1, table)[|strs|] == 0 && Distinct(Slots(l1, table))
    && (forall i :: 0 <= i < |strs| ==> Slots(l1, table)[i] != 0)
    && (forall p :: p in Slots(l1, table) && p != 0 ==> p in l1 && p !in l0 && p != table)
    && l1.Keys == l0.Keys + {table} + Addresses(Slots(l1, table)) - {0}
    && (forall a :: a in l0 ==> a in l1 && l1[a] == l0[a])
  }

  /** Allocates an array and fills it with copies of the strings and a null. */
  method BuildTable(m: Memory, strs: seq<string>, initial: seq<nat>) returns (table: nat)
    requires 0 !in m.live && |initial| == |strs| + 1
    modifies m`live
    ensures Built(old(m.live), m.live, table, CStrs(strs))
  {
    ghost var l0 := m.live;
    table := m.Allocate(Pointers(initial));
    ghost var l1 := m.live;
    CopyStrings(m, table, strs);
    ghost var l2, slots := m.live, m.live[table].slots;
    m.SetSlot(table, |strs|, 0);
    FilledSame(l1, l2, m.live, table, slots[..|strs|], CStrs(strs));
    assert slots[|strs| := 0][..|strs|] == slots[..|strs|];
    TableBuilt(l0, l1, m.live, table, m.live[table].slots, CStrs(strs));
  }

  lemma Unbuilt(l0: Blocks, l1: Blocks, table: nat, strs: seq<string>)
    requires Built(l0, l1, table, strs) && 0 !in l0
    ensures l1 - Addresses(Slots(l1, table)) - {table} == l0
  {
    forall a | a in l1 ensures a in l0 <==> a !in Addresses(Slots(l1, table)) + {table} {}
  }

  /** exec with parameters: the failing call saw the program's name followed by the parameters, and afterwards
      exactly what was allocated before is allocated, each new block having been released once. */
  method ExecParams(m: Memory, name: string, params: seq<string>) returns (args: seq<string>)
    requires 0 !in m.live
    modifies m
    ensures args == CStrs([name] + params)
    ensures m.live == old(m.live) && m.calls == old(m.calls) + [(args, [])]
  {
    ghost var l0 := m.live;
    var strs := [name] + params;
    var argv := BuildTable(m, strs, seq(|strs| + 1, _ => 0));
    ghost var l1 := m.live;
    var vars;
    args, vars := ExecCall(m, argv, 0);
    ReleaseUntilNull(m, argv, |strs|);
    Unbuilt(l0, l1, argv, CStrs(strs));
  }

  /** The "key=value" strings of an environment, in the order its iterator yields the entries. */
  function EnvStrings(envs: Pairs): seq<string> {
    CStrs(Entries(envs, EQUALS))
  }

  /** Each string is the key, an equals sign and the value. */
  lemma EnvText(envs: Pairs)
    ensures |EnvStrings(envs)| == |envs|
    ensures forall i :: 0 <= i < |envs| ==> EnvStrings(envs)[i] == CStr(envs[i].0 + "=" + envs[i].1)
  {
    assert "=" == [EQUALS];
  }

  lemma EnvExample()
    ensures EnvStrings([("A", "b")]) == ["A=b"]
  {
    EnvText([("A", "b")]);
    assert "A" + "=" + "b" == "A=b";
    CStrOfClean("A=b");
  }

  /** exec with parameters and environment: the same for both arrays, which are not cleared when allocated. */
  method ExecParamsEnv(m: Memory, name: string, params: seq<string>, envs: Pairs, envJunk: seq<nat>, parJunk: seq<nat>)
    returns (args: seq<string>, vars: seq<string>)
    requires 0 !in m.live && |envJunk| == |envs| + 1 && |parJunk| == |params| + 2
    modifies m
    ensures args == CStrs([name] + params)
    ensures vars == EnvStrings(envs)
    ensures |vars| == |envs| && forall i :: 0 <= i < |envs| ==> vars[i] == CStr(envs[i].0 + "=" + envs[i].1)
    ensures m.live == old(m.live) && m.calls == old(m.calls) + [(args, vars)]
  {
    EnvText(envs);
    ghost var l0 := m.live;
    var entries := Entries(envs, EQUALS);
    var env := BuildTable(m, entries, envJunk);
    ghost var l1 := m.live;
    var strs := [name] + params;
    var par := BuildTable(m, strs, parJunk);
    ghost var l2 := m.live;
    BothBuilt(l0, l1, l2, env, par, CStrs(entries), CStrs(strs));
    args, vars := ExecCall(m, par, env);
    ReleaseAll(m, env);
    ReleaseAll(m, par);
  }

  /** Two arrays built one after the other can be read, and released in the same order. */
  lemma BothBuilt(l0: Blocks, l1: Blocks, l2: Blocks, env: nat, par: nat, vars: seq<string>, args: seq<string>)
    requires 0 !in l0 && Built(l0, l1, env, vars) && Built(l1, l2, par, args)
    ensures env in l2 && l2[env] == l1[env] && StringsOf(l2, Slots(l2, env)) == vars
    ensures var l3 := l2 - Addresses(Slots(l2, env)) - {env};
            && par in l3 && l3[par] == l2[par]
            && (forall p :: p in Slots(l2, par) && p != 0 ==> p in l3 && p != par)
            && l3 - Addresses(Slots(l2, par)) - {par} == l0
  {
    StillReads(l1, l2, Slots(l1, env));
    Unbuilt(l0, l1, env, vars);
    Unbuilt(l1, l2, par, args);
    ReleaseOrder(l2, Addresses(Slots(l2, env)), {env}, Addresses(Slots(l2, par)), {par});
    forall p | p in Slots(l2, par) && p != 0 ensures p !in Addresses(Slots(l2, env)) && p != env {}
  }

  lemma ReleaseOrder(l: Blocks, a: set<nat>, b: set<nat>, c: set<nat>, d: set<nat>)
    ensures l - a - b - c - d == l - c - d - a - b
  {}

  lemma {:induction false} StillReads(l1: Blocks, l2: Blocks, slots: seq<nat>)
    requires forall a :: a in l1 ==> a in l2 && l2[a] == l1[a]
    requires forall p :: p in slots ==> p == 0 || p in l1
    ensures StringsOf(l2, slots) == StringsOf(l1, slots)
  {
    if slots != [] && slots[0] != 0 {
      assert slots[0] in slots;
      StillReads(l1, l2, slots[1..]);
    }
  }

  ghost predicate PortableEnv(env: map<string, string>) {
    forall k :: k in env ==> EQUALS !in k && NUL !in k && NUL !in env[k]
  }

  /** The environment that the strings of the array give back, cut at the first '=', is the one that was
      passed exactly when no key has a '=' and nothing has a NUL. */
  lemma EnvRoundTrip(envs: Pairs, env: map<string, string>)
    requires Lists(envs, env)
    ensures PutEntries(EnvStrings(envs), EQUALS) == env <==> PortableEnv(env)
  {
    var es := Entries(envs, EQUALS);
    if PortableEnv(env) {
      forall i | 0 <= i < |es| ensures EnvStrings(envs)[i] == es[i] {
        assert envs[i] in envs;
        CStrOfClean(es[i]);
      }
      assert EnvStrings(envs) == es;
      PutEntriesOfPairs(envs, EQUALS);
      FromPairsOfMap(envs, env);
    }
    if PutEntries(EnvStrings(envs), EQUALS) == env {
      forall k | k in env ensures EQUALS !in k && NUL !in k && NUL !in env[k] {
        DecodedEntriesLack(EnvStrings(envs), EQUALS, NUL, k);
      }
    }
  }
}
