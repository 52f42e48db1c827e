/** File::pretty_size: a size in bytes as amounts of GB, MB, KB and B. */
module PrettySize {

  const KILOBYTE: nat := 1024
  const INT_LIMIT: nat := 0x8000_0000

  function Unit(u: nat): (r: nat)
    ensures r >= 1
  {
    if u == 0 then 1 else KILOBYTE * Unit(u - 1)
  }

  /** One printed amount with the index of its unit: 0 for B up to 3 for GB. */
  datatype Part = Part(amount: nat, index: nat)

  /** The number of bytes that the printed parts stand for. */
  function Total(parts: seq<Part>): nat {
    if parts == [] then 0 else Total(parts[..|parts| - 1]) + parts[|parts| - 1].amount * Unit(parts[|parts| - 1].index)
  }

  lemma TotalSnoc(parts: seq<Part>, p: Part)
    ensures Total(parts + [p]) == Total(parts) + p.amount * Unit(p.index)
  {
    assert (parts + [p])[..|parts|] == parts;
  }

  lemma Units()
    ensures Unit(0) == 1 && Unit(1) == 0x400 && Unit(2) == 0x10_0000 && Unit(3) == 0x4000_0000
  {
    assert Unit(1) == KILOBYTE * Unit(0);
    assert Unit(2) == KILOBYTE * Unit(1);
    assert Unit(3) == KILOBYTE * Unit(2);
  }

  // ----- which units are used -----

  /** A unit is used only above it. */
  function Used(rest: nat, i: nat): seq<Part> {
    if rest > Unit(i) then [Part(rest / Unit(i), i)] else []
  }

  function Left(rest: nat, i: nat): nat {
    if rest > Unit(i) then rest % Unit(i) else rest
  }

  /** What the n smallest units print of rest, the largest first; with once, only the first that is used. */
  function Printed(rest: nat, n: nat, once: bool): seq<Part> {
    if n == 0 then []
    else
      var here := Used(rest, n - 1);
      if once && here != [] then here else here + Printed(Left(rest, n - 1), n - 1, once)
  }

  /** cut_small prints the first part of what is printed in full. */
  lemma {:induction false} CutIsFirst(rest: nat, n: nat)
    ensures var full, cut := Printed(rest, n, false), Printed(rest, n, true);
            if full == [] then cut == [] else cut == [full[0]]
  {
    if n > 0 && rest <= Unit(n - 1) {
      CutIsFirst(rest, n - 1);
    }
  }

  /** Some amount below GB is a whole unit of the next size. */
  ghost predicate WholeUnit(parts: seq<Part>) {
    exists p :: p in parts && p.index < 3 && p.amount == KILOBYTE
  }

  lemma FourUnits(size: nat)
    ensures var mb := Left(size, 3);
            var kb := Left(mb, 2);
            var b := Left(kb, 1);
            Printed(size, 4, false) == Used(size, 3) + (Used(mb, 2) + (Used(kb, 1) + Used(b, 0)))
  {
    var mb := Left(size, 3);
    var kb := Left(mb, 2);
    var b := Left(kb, 1);
    assert Printed(b, 1, false) == Used(b, 0) + Printed(Left(b, 0), 0, false) == Used(b, 0);
    assert Printed(kb, 2, false) == Used(kb, 1) + Printed(b, 1, false);
    assert Printed(mb, 3, false) == Used(mb, 2) + Printed(kb, 2, false);
  }

  /** The sizes at which each unit prints 1024 of itself. */
  lemma WholeAt(size: nat)
    ensures var mb := Left(size, 3);
            var kb := Left(mb, 2);
            var b := Left(kb, 1);
            && mb <= 0x4000_0000 && kb <= 0x10_0000 && b <= 0x400
            && (mb == 0x4000_0000 <==> size == 0x4000_0000)
            && (kb == 0x10_0000 <==> size % 0x4000_0000 == 0x10_0000)
            && (b == 0x400 <==> size % 0x10_0000 == 0x400)
  {
    Units();
    var mb := Left(size, 3);
    var kb := Left(mb, 2);
    assert mb % 0x10_0000 == size % 0x10_0000;
    assert kb == 0x400 <==> size % 0x10_0000 == 0x400;
  }

  lemma WholeIn(rest: nat, i: nat)
    requires i < 3 && rest <= Unit(i + 1)
    ensures WholeUnit(Used(rest, i)) <==> rest == Unit(i + 1)
  {
    Units();
    if rest == Unit(i + 1) {
      assert Used(rest, i)[0] in Used(rest, i);
    }
  }

  lemma WholeUnitAppend(a: seq<Part>, b: seq<Part>)
    ensures WholeUnit(a + b) <==> WholeUnit(a) || WholeUnit(b)
  {
    if WholeUnit(a) {
      var p :| p in a && p.index < 3 && p.amount == KILOBYTE;
      assert p in a + b;
    }
    if WholeUnit(b) {
      var p :| p in b && p.index < 3 && p.amount == KILOBYTE;
      assert p in a + b;
    }
  }

  /** 1024 of a unit is printed instead of one of the next exactly for 1 GB, for 1 MB above whole GB, and for
      1 KB above whole MB. */
  lemma WholeUnitExact(size: nat)
    ensures WholeUnit(Printed(size, 4, false)) <==>
            size == 0x4000_0000 || size % 0x4000_0000 == 0x10_0000 || size % 0x10_0000 == 0x400
  {
    var mb := Left(size, 3);
    var kb := Left(mb, 2);
    var b := Left(kb, 1);
    Units();
    FourUnits(size);
    WholeAt(size);
    WholeIn(mb, 2);
    WholeIn(kb, 1);
    WholeIn(b, 0);
    WholeUnitAppend(Used(kb, 1), Used(b, 0));
    WholeUnitAppend(Used(mb, 2), Used(kb, 1) + Used(b, 0));
    WholeUnitAppend(Used(size, 3), Used(mb, 2) + (Used(kb, 1) + Used(b, 0)));
  }

  /** With cut_small, exactly for these three sizes. */
  lemma WholeUnitCut(size: nat)
    ensures WholeUnit(Printed(size, 4, true)) <==> size == 0x4000_0000 || size == 0x10_0000 || size == 0x400
  {
    FourUnits(size);
    CutIsFirst(size, 4);
    Units();
    var full := Printed(size, 4, false);
    if full != [] {
      assert WholeUnit([full[0]]) <==> full[0].index < 3 && full[0].amount == KILOBYTE by {
        assert full[0] in [full[0]];
      }
    }
  }

  /** So a file of 1024 bytes is printed in B. */
  lemma OneKilobyte()
    ensures Printed(1024, 4, false) == [Part(1024, 0)] == Printed(1024, 4, true)
  {
    FourUnits(1024);
    CutIsFirst(1024, 4);
    Units();
  }

  /** Below a limit that keeps the amount of GB an int. */
  const SIZE_LIMIT: nat := INT_LIMIT * 0x4000_0000

  /** amounts fit in an int, and all but those of GB are at most 1024, since a unit is used only above it. */
  ghost predicate Printable(parts: seq<Part>) {
    forall p :: p in parts ==> 0 < p.amount < INT_LIMIT && p.index <= 3 && (p.index < 3 ==> p.amount <= KILOBYTE)
  }

  /** Larger units first, each at most once. */
  ghost predicate Descending(parts: seq<Part>) {
    forall i, j :: 0 <= i < j < |parts| ==> parts[i].index > parts[j].index
  }

  /** rest is amount units and what is left, which is less than a unit, where the units above are used up. */
  ghost predicate Divides(rest: nat, i: nat, amount: nat, left: nat) {
    && amount * Unit(i) + left == rest && left < Unit(i)
    && 0 < amount < INT_LIMIT && (i < 3 ==> amount <= KILOBYTE)
    && (i > 0 ==> left % KILOBYTE == rest % KILOBYTE)
  }

  /** Dividing by a positive unit, when a known multiple of it is not exceeded. */
  lemma DivideBy(rest: nat, unit: nat, most: nat)
    requires 0 < unit < rest <= most * unit
    ensures rest / unit * unit + rest % unit == rest && 0 < rest / unit <= most
  {
    var amount, left := rest / unit, rest % unit;
    assert amount * unit + left == rest && left < unit;
    assert amount > most ==> amount * unit >= most * unit + unit;
    assert amount == 0 ==> amount * unit == 0;
  }

  lemma SameRemainder(left: nat, m: nat, rest: nat)
    requires rest == KILOBYTE * m + left
    ensures left % KILOBYTE == rest % KILOBYTE
  {}

  lemma DividesExactly(rest: nat, i: nat)
    requires i <= 3 && rest > Unit(i) && if i < 3 then rest <= Unit(i + 1) else rest < SIZE_LIMIT
    ensures Divides(rest, i, rest / Unit(i), rest % Unit(i))
  {
    var unit := Unit(i);
    Units();
    DivideBy(rest, unit, if i < 3 then KILOBYTE else INT_LIMIT);
    var amount, left := rest / unit, rest % unit;
    if i == 3 {
      assert INT_LIMIT * unit == SIZE_LIMIT;
      assert amount == INT_LIMIT ==> amount * unit == SIZE_LIMIT;
    }
    if i > 0 {
      assert amount * (KILOBYTE * Unit(i - 1)) == KILOBYTE * (amount * Unit(i - 1));
      SameRemainder(left, amount * Unit(i - 1), rest);
    }
  }

  lemma Shares(rest: nat, i: nat) returns (amount: nat, left: nat)
    requires i <= 3 && rest > Unit(i) && if i < 3 then rest <= Unit(i + 1) else rest < SIZE_LIMIT
    ensures Divides(rest, i, amount, left) && Used(rest, i) == [Part(amount, i)] && Left(rest, i) == left
  {
    DividesExactly(rest, i);
    amount, left := rest / Unit(i), rest % Unit(i);
  }

  /** The state of the loop when the units above i have been dealt with and nothing has been cut. */
  ghost predicate Progress(size: nat, i: int, rest: nat, parts: seq<Part>) {
    && -1 <= i <= 3
    && Total(parts) + rest == size && (if parts == [] then rest == size else size > 1)
    && (if i == 3 then rest < SIZE_LIMIT else rest <= Unit(i + 1))
    && (if i >= 0 then rest % KILOBYTE == size % KILOBYTE else rest == if size % KILOBYTE == 1 then 1 else 0)
    && Printable(parts) && (forall p :: p in parts ==> p.index > i)
    && Descending(parts)
  }

  /** With cut_small, the one part that is printed and what is omitted. */
  ghost predicate Cut(size: nat, rest: nat, parts: seq<Part>) {
    && |parts| == 1 && size > 1 && Printable(parts) && Descending(parts)
    && Total(parts) + rest == size && rest < Unit(parts[0].index)
  }

  lemma PrintStep(size: nat, i: nat, rest: nat, parts: seq<Part>, amount: nat, left: nat)
    requires Progress(size, i, rest, parts) && rest > Unit(i) && Divides(rest, i, amount, left)
    ensures Progress(size, i - 1, left, parts + [Part(amount, i)])
    ensures parts == [] ==> Cut(size, left, parts + [Part(amount, i)])
  {
    TotalSnoc(parts, Part(amount, i));
  }

  lemma SkipStep(size: nat, i: nat, rest: nat, parts: seq<Part>)
    requires Progress(size, i, rest, parts) && rest <= Unit(i)
    ensures Progress(size, i - 1, rest, parts)
  {
    Units();
  }

  lemma {:induction false} NothingPrinted(n: nat, once: bool)
    ensures Printed(0, n, once) == []
  {
    if n > 0 {
      NothingPrinted(n - 1, once);
    }
  }

  /** What is printed in the end when parts have been, and the n smallest units are still to come. */
  ghost function Ends(parts: seq<Part>, rest: nat, n: nat, once: bool): seq<Part> {
    if once && parts != [] then parts else parts + Printed(rest, n, once)
  }

  lemma EndsUsed(parts: seq<Part>, rest: nat, i: nat, once: bool, amount: nat, left: nat)
    requires !(once && parts != []) && Used(rest, i) == [Part(amount, i)] && Left(rest, i) == left
    ensures Ends(parts, rest, i + 1, once) == Ends(parts + [Part(amount, i)], left, i, once)
  {
    var here := [Part(amount, i)];
    assert parts + (here + Printed(left, i, once)) == parts + here + Printed(left, i, once);
    assert parts + here != [];
  }

  lemma EndsSkipped(parts: seq<Part>, rest: nat, i: nat, once: bool)
    requires rest > Unit(i) ==> once && parts != []
    ensures Ends(parts, rest, i + 1, once) == Ends(parts, rest, i, once)
  {
    assert [] + Printed(rest, i, once) == Printed(rest, i, once);
  }

  /** The parts are printable, larger units first. In full they add up to the size, less one byte exactly when
      it is one more than a multiple of 1024; of a cut list, what is omitted is smaller than its one unit. */
  ghost predicate Faithful(size: nat, parts: seq<Part>, once: bool) {
    && Printable(parts) && Descending(parts) && (parts == [] <==> size <= 1)
    && (!once ==> Total(parts) == if size % KILOBYTE == 1 then size - 1 else size)
    && (once && parts != [] ==> |parts| == 1 && Total(parts) <= size < Total(parts) + Unit(parts[0].index))
  }

  lemma AllDone(size: nat, rest: nat, parts: seq<Part>, once: bool)
    requires Progress(size, -1, rest, parts) && !(once && parts != [])
    ensures Faithful(size, parts, once)
  {}

  lemma CutDone(size: nat, rest: nat, parts: seq<Part>)
    requires Cut(size, rest, parts)
    ensures Faithful(size, parts, true)
  {}

  /** What one unit adds. */
  lemma OneUnit(size: nat, parts: seq<Part>, rest: nat, i: nat, once: bool) returns (more: seq<Part>, left: nat)
    requires Progress(size, i, rest, parts) && !(once && parts != [])
    ensures Ends(parts, rest, i + 1, once) == Ends(more, left, i, once)
    ensures if once && more != [] then Cut(size, left, more) else Progress(size, i - 1, left, more)
  {
    if rest > Unit(i) {
      var amount;
      amount, left := Shares(rest, i);
      more := parts + [Part(amount, i)];
      EndsUsed(parts, rest, i, once, amount, left);
      PrintStep(size, i, rest, parts, amount, left);
    } else {
      more, left := parts, rest;
      SkipStep(size, i, rest, parts);
      EndsSkipped(parts, rest, i, once);
    }
  }

  lemma {:induction false} EndsFaithful(size: nat, parts: seq<Part>, rest: nat, n: nat, once: bool, all: seq<Part>)
    requires Progress(size, n - 1, rest, parts) && !(once && parts != []) && all == Ends(parts, rest, n, once)
    ensures Faithful(size, all, once)
    decreases n
  {
    if n == 0 {
      assert all == parts;
      AllDone(size, rest, parts, once);
    } else {
      var more, left := OneUnit(size, parts, rest, n - 1, once);
      if once && more != [] {
        assert all == more;
        CutDone(size, left, more);
      } else {
        EndsFaithful(size, more, left, n - 1, once, all);
      }
    }
  }

  lemma PrintedFaithful(size: nat, once: bool)
    requires size < SIZE_LIMIT
    ensures Faithful(size, Printed(size, 4, once), once)
  {
    assert [] + Printed(size, 4, once) == Printed(size, 4, once);
    EndsFaithful(size, [], size, 4, once, Printed(size, 4, once));
  }

  /** The loop over the units computes these parts. */
  method Parts(size: nat, cutSmall: bool) returns (parts: seq<Part>)
    requires size < SIZE_LIMIT
    ensures parts == Printed(size, 4, cutSmall) && Faithful(size, parts, cutSmall)
  {
    parts := [];
    if size == 0 {
      NothingPrinted(4, cutSmall);
      PrintedFaithful(size, cutSmall);
      return;
    }
    var rest := size;
    var writtenSomething := false;
    var i := 3;
    ghost var all := Printed(size, 4, cutSmall);
    assert [] + all == all;
    while i >= 0
      invariant -1 <= i <= 3 && (writtenSomething <==> parts != [])
      invariant all == Ends(parts, rest, i + 1, cutSmall)
      decreases i
    {
      var sizeUnit := Unit(i);
      if rest > sizeUnit && !(cutSmall && writtenSomething) {
        var amount := rest / sizeUnit;
        EndsUsed(parts, rest, i, cutSmall, amount, rest % sizeUnit);
        rest := rest % sizeUnit;
        parts := parts + [Part(amount, i)];
        writtenSomething := true;
      } else {
        EndsSkipped(parts, rest, i, cutSmall);
      }
      i := i - 1;
    }
    assert parts + [] == parts;
    PrintedFaithful(size, cutSmall);
  }
}
