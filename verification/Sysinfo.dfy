/** The memory figures of sysinfo: the rescaling to bytes in do_sysinfo, done only if nothing
    overflows, and the scaling back for 32-bit callers.
  */
module Sysinfo {

  datatype Info = Info(
    totalram: nat, freeram: nat, sharedram: nat, bufferram: nat,
    totalswap: nat, freeswap: nat, totalhigh: nat, freehigh: nat, memUnit: nat)

  datatype Field = TotalRam | FreeRam | SharedRam | BufferRam | TotalSwap | FreeSwap | TotalHigh | FreeHigh

  function Get(i: Info, f: Field): nat {
    match f
    case TotalRam => i.totalram
    case FreeRam => i.freeram
    case SharedRam => i.sharedram
    case BufferRam => i.bufferram
    case TotalSwap => i.totalswap
    case FreeSwap => i.freeswap
    case TotalHigh => i.totalhigh
    case FreeHigh => i.freehigh
  }

  /** How many bytes a figure stands for. */
  function Bytes(i: Info, f: Field): nat {
    Get(i, f) * i.memUnit
  }

  /** No figure exceeds the sum of the totals. */
  ghost predicate Bounded(i: Info) {
    forall f :: Get(i, f) <= i.totalram + i.totalswap
  }

  /** No figure exceeds both totals. */
  ghost predicate EachBelowATotal(i: Info) {
    forall f :: Get(i, f) <= i.totalram || Get(i, f) <= i.totalswap
  }

  // ---------------------------------------------------------------------------
  // Powers of two

  function Pow2(k: nat): (p: nat)
    ensures p > 0
  {
    if k == 0 then 1 else 2 * Pow2(k - 1)
  }

  /** The number of times a unit can be halved before it reaches 1. */
  function Halvings(u: nat): nat {
    if u <= 1 then 0 else 1 + Halvings(u / 2)
  }

  lemma {:induction false} Pow2Monotone(a: nat, b: nat)
    requires a <= b
    ensures Pow2(a) <= Pow2(b)
    decreases b
  {
    if a == b {
    } else {
      Pow2Monotone(a, b - 1);
    }
  }

  lemma Regroup(x: int, y: int)
    ensures 2 * (x * y) == x * (2 * y)
  {
  }

  lemma {:induction false} Pow2Adds(a: nat, b: nat)
    ensures Pow2(a + b) == Pow2(a) * Pow2(b)
    decreases b
  {
    if b == 0 {
    } else {
      Pow2Adds(a, b - 1);
      Regroup(Pow2(a), Pow2(b - 1));
    }
  }

  lemma {:induction false} HalvingsOfPow2(k: nat)
    ensures Halvings(Pow2(k)) == k
  {
    if k == 0 {
    } else {
      HalvingsOfPow2(k - 1);
    }
  }

  /** The number of halvings is the binary logarithm, rounded down. */
  lemma {:induction false} HalvingsIsLog(u: nat, k: nat)
    requires u > 0
    ensures Halvings(u) == k <==> Pow2(k) <= u < 2 * Pow2(k)
    decreases u
  {
    if u == 1 {
      if k > 0 {
        Pow2Monotone(1, k);
      }
    } else if k == 0 {
    } else {
      HalvingsIsLog(u / 2, k - 1);
    }
  }

  lemma MulMonotone(a: nat, b: nat, c: nat)
    requires a <= b
    ensures a * c <= b * c
  {
  }

  // ---------------------------------------------------------------------------
  // do_sysinfo

  /** Unsigned long arithmetic: results are reduced modulo the number of its values. */
  function Wrap(v: nat, ulong: nat): nat
    requires ulong > 0
  {
    v % ulong
  }

  lemma WrapOfSmall(v: nat, ulong: nat)
    requires v < ulong
    ensures Wrap(v, ulong) == v
  {
  }

  /** A wrapped sum is smaller than its parts exactly when it has wrapped. */
  lemma WrapTest(a: nat, b: nat, ulong: nat)
    requires a < ulong && b < ulong
    ensures Wrap(a + b, ulong) < a || Wrap(a + b, ulong) < b <==> a + b >= ulong
    ensures a + b < ulong ==> Wrap(a + b, ulong) == a + b
  {
    if a + b < ulong {
      WrapOfSmall(a + b, ulong);
    } else {
      WrapOnce(a + b, ulong);
    }
  }

  lemma WrapOnce(v: nat, ulong: nat)
    requires 0 < ulong <= v < 2 * ulong
    ensures Wrap(v, ulong) == v - ulong
  {
  }

  function Shl(v: nat, k: nat, ulong: nat): nat
    requires ulong > 0
  {
    Wrap(v * Pow2(k), ulong)
  }

  function ShiftLeft(i: Info, k: nat, ulong: nat): Info
    requires ulong > 0
  {
    Info(Shl(i.totalram, k, ulong), Shl(i.freeram, k, ulong), Shl(i.sharedram, k, ulong), Shl(i.bufferram, k, ulong),
         Shl(i.totalswap, k, ulong), Shl(i.freeswap, k, ulong), Shl(i.totalhigh, k, ulong), Shl(i.freehigh, k, ulong), 1)
  }

  /** The true total, in the smaller unit, is representable. */
  predicate TotalFits(i: Info, ulong: nat) {
    (i.totalram + i.totalswap) * Pow2(Halvings(i.memUnit)) < ulong
  }

  function Rescaled(i: Info, ulong: nat): Info
    requires ulong > 0
  {
    if TotalFits(i, ulong) then ShiftLeft(i, Halvings(i.memUnit), ulong) else i
  }

  /** The kernel's tests for wrap-around, one after the sum and one after each doubling, are
      exact: they all pass if and only if the true total fits. */
  method TotalWithoutWrap(i: Info, ulong: nat) returns (fits: bool, bitcount: nat)
    requires i.totalram < ulong && i.totalswap < ulong
    ensures fits <==> TotalFits(i, ulong)
    ensures fits ==> bitcount == Halvings(i.memUnit)
  {
    ghost var total := i.totalram + i.totalswap;
    bitcount := 0;
    var memTotal := Wrap(i.totalram + i.totalswap, ulong);
    WrapTest(i.totalram, i.totalswap, ulong);
    if memTotal < i.totalram || memTotal < i.totalswap {
      TooBigStaysTooBig(total, 0, Halvings(i.memUnit), ulong);
      return false, bitcount;
    }
    var memUnit := i.memUnit;
    while memUnit > 1
      invariant bitcount + Halvings(memUnit) == Halvings(i.memUnit)
      invariant memTotal == total * Pow2(bitcount) < ulong
      decreases memUnit
    {
      bitcount := bitcount + 1;
      memUnit := memUnit / 2;
      var savTotal := memTotal;
      memTotal := Wrap(memTotal + memTotal, ulong);
      WrapTest(savTotal, savTotal, ulong);
      Doubled(total, bitcount);
      if memTotal < savTotal {
        TooBigStaysTooBig(total, bitcount, Halvings(i.memUnit), ulong);
        return false, bitcount;
      }
    }
    fits := true;
  }

  lemma Doubled(total: nat, k: nat)
    requires k > 0
    ensures total * Pow2(k) == total * Pow2(k - 1) + total * Pow2(k - 1)
  {
  }

  lemma TooBigStaysTooBig(total: nat, k: nat, k': nat, ulong: nat)
    requires k <= k' && total * Pow2(k) >= ulong
    ensures total * Pow2(k') >= ulong
  {
  }

  /** do_sysinfo rescales if and only if the true total fits an unsigned long. */
  method Rescale(i: Info, ulong: nat) returns (r: Info)
    requires i.totalram < ulong && i.totalswap < ulong
    ensures !TotalFits(i, ulong) ==> r == i
    ensures TotalFits(i, ulong) ==>
              r.memUnit == 1 && forall f :: Get(r, f) == Get(i, f) * Pow2(Halvings(i.memUnit)) % ulong
    ensures r == Rescaled(i, ulong)
  {
    var fits, bitcount := TotalWithoutWrap(i, ulong);
    if !fits {
      return i;
    }
    r := i.(memUnit := 1);
    r := r.(totalram := Shl(r.totalram, bitcount, ulong));
    r := r.(freeram := Shl(r.freeram, bitcount, ulong));
    r := r.(sharedram := Shl(r.sharedram, bitcount, ulong));
    r := r.(bufferram := Shl(r.bufferram, bitcount, ulong));
    r := r.(totalswap := Shl(r.totalswap, bitcount, ulong));
    r := r.(freeswap := Shl(r.freeswap, bitcount, ulong));
    r := r.(totalhigh := Shl(r.totalhigh, bitcount, ulong));
    r := r.(freehigh := Shl(r.freehigh, bitcount, ulong));
  }

  lemma GetShiftLeft(i: Info, k: nat, ulong: nat, f: Field)
    requires ulong > 0
    ensures Get(ShiftLeft(i, k, ulong), f) == Shl(Get(i, f), k, ulong)
  {
  }

  /** When the total fits, no shift of a bounded figure wraps. */
  lemma NoShiftWraps(i: Info, ulong: nat, f: Field)
    requires Bounded(i) && TotalFits(i, ulong) && ulong > 0
    ensures Get(Rescaled(i, ulong), f) == Get(i, f) * Pow2(Halvings(i.memUnit)) < ulong
  {
    var k := Halvings(i.memUnit);
    GetShiftLeft(i, k, ulong, f);
    assert Get(i, f) <= i.totalram + i.totalswap;
    MulMonotone(Get(i, f), i.totalram + i.totalswap, Pow2(k));
    WrapOfSmall(Get(i, f) * Pow2(k), ulong);
  }

  /** Rescaling keeps the number of bytes every figure stands for exactly when the unit is a
      power of two or there is nothing to count. */
  lemma BytesKeptExactly(i: Info, ulong: nat)
    requires Bounded(i) && TotalFits(i, ulong) && ulong > 0
    ensures (forall f :: Bytes(Rescaled(i, ulong), f) == Bytes(i, f)) <==>
              i.memUnit == Pow2(Halvings(i.memUnit)) || i.totalram == i.totalswap == 0
  {
    var p := Pow2(Halvings(i.memUnit));
    var r := Rescaled(i, ulong);
    forall f ensures Bytes(r, f) == Get(i, f) * p {
      NoShiftWraps(i, ulong, f);
    }
    assert i.totalram == i.totalswap == 0 ==> forall f :: Get(i, f) == 0;
    if (forall f :: Bytes(r, f) == Bytes(i, f)) && i.memUnit != p {
      assert Bytes(r, TotalRam) == Bytes(i, TotalRam) && Bytes(r, TotalSwap) == Bytes(i, TotalSwap);
      MulCancels(i.totalram, p, i.memUnit);
      MulCancels(i.totalswap, p, i.memUnit);
    }
  }

  /** A unit of 3 bytes: one unit of memory is reported as 2 bytes. */
  lemma OddUnitLosesBytes()
    ensures var i := Info(1, 0, 0, 0, 0, 0, 0, 0, 3);
            && TotalFits(i, 0x1_0000_0000_0000_0000)
            && Bytes(i, TotalRam) == 3 && Bytes(Rescaled(i, 0x1_0000_0000_0000_0000), TotalRam) == 2
  {
    assert Halvings(3) == 1 && Pow2(1) == 2;
  }

  lemma MulCancels(x: nat, a: nat, b: nat)
    requires x * a == x * b && a != b
    ensures x == 0
  {
  }

  // ---------------------------------------------------------------------------
  // The compat call: figures for 32-bit callers

  const U32: nat := 0x1_0000_0000

  predicate Large(i: Info) {
    i.totalram >= U32 || i.totalswap >= U32
  }

  /** The number of doublings that take a unit to the page size or beyond. */
  function Doublings(unit: nat, page: nat): nat
    requires unit > 0
    decreases page - unit
  {
    if unit >= page then 0 else 1 + Doublings(unit * 2, page)
  }

  function Quotient(v: nat, p: nat): nat
    requires p > 0
  {
    v / p
  }

  function Shr(v: nat, k: nat): nat {
    Quotient(v, Pow2(k))
  }

  function ShiftRight(i: Info, k: nat): Info {
    Info(Shr(i.totalram, k), Shr(i.freeram, k), Shr(i.sharedram, k), Shr(i.bufferram, k),
         Shr(i.totalswap, k), Shr(i.freeswap, k), Shr(i.totalhigh, k), Shr(i.freehigh, k), i.memUnit * Pow2(k))
  }

  function ScaledDown(i: Info, page: nat): Info
    requires i.memUnit > 0
  {
    if Large(i) then ShiftRight(i, Doublings(i.memUnit, page)) else i
  }

  /** A unit of zero would make the loop endless; the kernel always reports a positive one. The
      unit is a 32-bit field, but below the page size its doubling cannot wrap. */
  method ScaleDown(i: Info, page: nat) returns (r: Info)
    requires 0 < i.memUnit && page <= 0x8000_0000
    ensures r == ScaledDown(i, page)
  {
    r := i;
    if i.totalram / U32 != 0 || i.totalswap / U32 != 0 {
      var bitcount := 0;
      while r.memUnit < page
        invariant r == i.(memUnit := r.memUnit) && r.memUnit == i.memUnit * Pow2(bitcount) > 0
        invariant bitcount + Doublings(r.memUnit, page) == Doublings(i.memUnit, page)
        decreases page - r.memUnit
      {
        r := r.(memUnit := r.memUnit * 2 % U32);
        bitcount := bitcount + 1;
        Doubled(i.memUnit, bitcount);
      }
      r := r.(totalram := Shr(r.totalram, bitcount));
      r := r.(freeram := Shr(r.freeram, bitcount));
      r := r.(sharedram := Shr(r.sharedram, bitcount));
      r := r.(bufferram := Shr(r.bufferram, bitcount));
      r := r.(totalswap := Shr(r.totalswap, bitcount));
      r := r.(freeswap := Shr(r.freeswap, bitcount));
      r := r.(totalhigh := Shr(r.totalhigh, bitcount));
      r := r.(freehigh := Shr(r.freehigh, bitcount));
    }
  }

  lemma {:induction false} DoublingsOfPow2(j: nat, n: nat)
    requires j <= n
    ensures Doublings(Pow2(j), Pow2(n)) == n - j
    decreases n - j
  {
    if j == n {
    } else {
      Pow2Monotone(j + 1, n);
      DoublingsOfPow2(j + 1, n);
    }
  }

  lemma Shift(x: int, y: int)
    ensures x * 2 * y == x * (2 * y)
  {
  }

  /** The number of doublings is the least that takes the unit to the page size. */
  lemma {:induction false} DoublingsIsLeast(unit: nat, page: nat, k: nat)
    requires unit > 0 && unit * Pow2(k) >= page && (k > 0 ==> unit * Pow2(k - 1) < page)
    ensures Doublings(unit, page) == k
    decreases k
  {
    if k == 0 {
    } else {
      MulMonotone(1, Pow2(k - 1), unit);
      assert unit < page;
      Shift(unit, Pow2(k - 1));
      if k > 1 {
        Shift(unit, Pow2(k - 2));
      }
      DoublingsIsLeast(unit * 2, page, k - 1);
    }
  }

  /** For every unit: small figures are left alone; large ones are divided by the least power of
      two that takes the unit to the page size, dropping the remainder, and the unit is
      multiplied by it. */
  lemma ScaledDownExactly(i: Info, page: nat, k: nat, f: Field)
    requires i.memUnit > 0 && i.memUnit * Pow2(k) >= page && (k > 0 ==> i.memUnit * Pow2(k - 1) < page)
    ensures var c := ScaledDown(i, page);
            if i.totalram < U32 && i.totalswap < U32 then c == i
            else c.memUnit == i.memUnit * Pow2(k) && Get(c, f) == Get(i, f) / Pow2(k)
  {
    DoublingsIsLeast(i.memUnit, page, k);
    GetShiftRight(i, k, f);
  }

  lemma GetShiftRight(i: Info, k: nat, f: Field)
    ensures Get(ShiftRight(i, k), f) == Get(i, f) / Pow2(k)
  {
  }

  lemma DivideFloors(v: nat, p: nat)
    requires p > 0
    ensures v / p * p <= v < v / p * p + p
  {
  }

  lemma DivideUndoesMultiply(v: nat, p: nat)
    requires p > 0
    ensures v * p / p == v
  {
    DivideFloors(v * p, p);
    if v * p / p < v {
      MulMonotone(v * p / p + 1, v, p);
    } else if v * p / p > v {
      MulMonotone(v + 1, v * p / p, p);
    }
  }

  /** Scaling down from a power-of-two unit stops exactly at the page size and loses less than
      one page of each figure. */
  lemma ScaledDownRounds(i: Info, j: nat, n: nat, f: Field)
    requires j <= n && i.memUnit == Pow2(j) && Large(i)
    ensures ScaledDown(i, Pow2(n)).memUnit == Pow2(n)
    ensures var c := ScaledDown(i, Pow2(n)); Bytes(c, f) <= Bytes(i, f) < Bytes(c, f) + Pow2(n)
  {
    var k := n - j;
    var v, p, q := Get(i, f), Pow2(k), Pow2(j);
    var c := ScaledDown(i, Pow2(n));
    DoublingsOfPow2(j, n);
    assert c.memUnit == q * p == Pow2(n) by {
      Pow2Adds(j, k);
    }
    assert Get(c, f) == v / p by {
      GetShiftRight(i, k, f);
    }
    DivideFloors(v, p);
    ScaleBounds(v / p, p, v, q);
  }

  lemma ScaleBounds(d: nat, p: nat, v: nat, q: nat)
    requires d * p <= v < d * p + p && q > 0
    ensures d * (q * p) <= v * q < d * (q * p) + q * p
  {
  }

  /** End to end, for page counts: a 32-bit caller gets back the very figures and unit the
      memory subsystem gave, or, if everything is small, the same amounts in bytes; whether or
      not do_sysinfo rescaled in between. */
  lemma PageCountsComeBack(i: Info, ulong: nat, n: nat)
    requires Bounded(i) && i.memUnit == Pow2(n) && ulong > 0
    ensures var d := Rescaled(i, ulong);
            var c := ScaledDown(d, Pow2(n));
            && (Large(d) ==> c == i)
            && (!Large(d) ==> c == d)
            && forall f :: Bytes(c, f) == Bytes(i, f)
  {
    var d := Rescaled(i, ulong);
    HalvingsOfPow2(n);
    if TotalFits(i, ulong) {
      BytesKeptExactly(i, ulong);
      if Large(d) {
        DoublingsOfPow2(0, n);
        forall f ensures Get(ScaledDown(d, Pow2(n)), f) == Get(i, f) {
          NoShiftWraps(i, ulong, f);
          GetShiftRight(d, n, f);
          DivideUndoesMultiply(Get(i, f), Pow2(n));
        }
        SameFigures(ScaledDown(d, Pow2(n)), i);
      }
    } else {
      DoublingsOfPow2(n, n);
      forall f ensures Get(ShiftRight(i, 0), f) == Get(i, f) {
        GetShiftRight(i, 0, f);
      }
      SameFigures(ShiftRight(i, 0), i);
    }
  }

  lemma SameFigures(a: Info, b: Info)
    requires forall f :: Get(a, f) == Get(b, f)
    requires a.memUnit == b.memUnit
    ensures a == b
  {
    assert Get(a, TotalRam) == Get(b, TotalRam) && Get(a, FreeRam) == Get(b, FreeRam);
    assert Get(a, SharedRam) == Get(b, SharedRam) && Get(a, BufferRam) == Get(b, BufferRam);
    assert Get(a, TotalSwap) == Get(b, TotalSwap) && Get(a, FreeSwap) == Get(b, FreeSwap);
    assert Get(a, TotalHigh) == Get(b, TotalHigh) && Get(a, FreeHigh) == Get(b, FreeHigh);
  }

  /** End to end, for any power-of-two unit up to the page size: no figure grows and each loses
      less than one reported unit. */
  lemma SmallUnitsRound(i: Info, ulong: nat, j: nat, n: nat, f: Field)
    requires Bounded(i) && j <= n && i.memUnit == Pow2(j) && ulong > 0
    ensures var c := ScaledDown(Rescaled(i, ulong), Pow2(n));
            && c.memUnit > 0
            && Bytes(c, f) <= Bytes(i, f) < Bytes(c, f) + c.memUnit
            && (Large(Rescaled(i, ulong)) ==> c.memUnit == Pow2(n))
  {
    var d := Rescaled(i, ulong);
    HalvingsOfPow2(j);
    if TotalFits(i, ulong) {
      BytesKeptExactly(i, ulong);
    }
    assert Bytes(d, f) == Bytes(i, f);
    if Large(d) {
      ScaledDownRounds(d, if TotalFits(i, ulong) then 0 else j, n, f);
    }
  }

  /** The compat structure has 32-bit fields. For page counts nothing is cut off exactly when
      both totals are below 2^32 pages. */
  lemma ReportFitsExactly(i: Info, ulong: nat, n: nat)
    requires EachBelowATotal(i) && i.memUnit == Pow2(n) && ulong > 0
    ensures (forall f :: Get(ScaledDown(Rescaled(i, ulong), Pow2(n)), f) < U32) <==>
              i.totalram < U32 && i.totalswap < U32
  {
    var d := Rescaled(i, ulong);
    var c := ScaledDown(d, Pow2(n));
    PageCountsComeBack(i, ulong, n);
    if Large(d) {
      assert Get(i, TotalRam) == i.totalram && Get(i, TotalSwap) == i.totalswap;
    } else {
      NotLargeMeansSmall(i, ulong, n);
    }
  }

  /** 2^32 pages of 4096 bytes: the compat call has 2^32 to store in a 32-bit field. */
  lemma ReportCanOverflow()
    ensures var i := Info(U32, 0, 0, 0, 0, 0, 0, 0, Pow2(12));
            Get(ScaledDown(Rescaled(i, 0x1_0000_0000_0000_0000), Pow2(12)), TotalRam) == U32
  {
    var i := Info(U32, 0, 0, 0, 0, 0, 0, 0, Pow2(12));
    var d := Rescaled(i, 0x1_0000_0000_0000_0000);
    PageCountsComeBack(i, 0x1_0000_0000_0000_0000, 12);
    if !Large(d) {
      NotLargeMeansSmall(i, 0x1_0000_0000_0000_0000, 12);
    }
  }

  lemma NotLargeMeansSmall(i: Info, ulong: nat, n: nat)
    requires EachBelowATotal(i) && i.memUnit == Pow2(n) && ulong > 0 && !Large(Rescaled(i, ulong))
    ensures i.totalram < U32 && i.totalswap < U32
    ensures forall f :: Get(Rescaled(i, ulong), f) < U32
  {
    var d := Rescaled(i, ulong);
    if TotalFits(i, ulong) {
      HalvingsOfPow2(n);
      NoShiftWraps(i, ulong, TotalRam);
      NoShiftWraps(i, ulong, TotalSwap);
      MulMonotone(1, Pow2(n), i.totalram);
      MulMonotone(1, Pow2(n), i.totalswap);
      forall f ensures Get(d, f) < U32 {
        NoShiftWraps(i, ulong, f);
        if Get(i, f) <= i.totalram {
          MulMonotone(Get(i, f), i.totalram, Pow2(n));
        } else {
          MulMonotone(Get(i, f), i.totalswap, Pow2(n));
        }
      }
    }
  }
}
