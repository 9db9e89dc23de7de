/** The piecewise-linear base-two logarithm in Q16, over all of uint64. */
module Log2 {
  import opened Bits
  import opened Scorer

  function FloorLog2(v: nat): (k: nat)
    requires v > 0
    ensures Pow2(k) <= v < Pow2(k + 1)
  {
    if v == 1 then 0 else 1 + FloorLog2(v / 2)
  }

  // Table of sixteen mantissa intervals.
  function Table(slot: nat): (t: nat)
    requires slot <= 16
    ensures t <= 65536
  {
    if slot == 0 then 0 else if slot == 1 then 5732 else if slot == 2 then 11136
    else if slot == 3 then 16248 else if slot == 4 then 21098 else if slot == 5 then 25711
    else if slot == 6 then 30109 else if slot == 7 then 34312 else if slot == 8 then 38336
    else if slot == 9 then 42196 else if slot == 10 then 45904 else if slot == 11 then 49472
    else if slot == 12 then 52911 else if slot == 13 then 56229 else if slot == 14 then 59434
    else if slot == 15 then 62534 else 65536
  }

  // The chord from lo to hi, f parts in 4096 along, rounded down.
  function Interpolate(lo: nat, hi: nat, f: nat): nat
    requires lo <= hi
  {
    lo + (hi - lo) * f / 4096
  }

  lemma InterpolateMonotone(lo: nat, hi: nat, x: nat, y: nat)
    requires lo <= hi && x <= y <= 4096
    ensures lo <= Interpolate(lo, hi, x) <= Interpolate(lo, hi, y) <= hi
  {
    var d := hi - lo;
    assert 0 <= d * x <= d * y <= d * 4096;
  }

  lemma TableMonotone(a: nat, b: nat)
    requires a <= b <= 16
    ensures Table(a) <= Table(b)
  {
  }

  function Mantissa(fraction: nat): nat
    requires fraction < 65536
  {
    var slot := fraction / 4096;
    TableMonotone(slot, slot + 1);
    Interpolate(Table(slot), Table(slot + 1), fraction % 4096)
  }

  // v scaled to seventeen bits, dropping what falls off the right.
  function Normalized(v: nat): nat
    requires v > 0
  {
    var k := FloorLog2(v);
    if k >= 16 then Shr(v, k - 16) else Shl(v, 16 - k)
  }

  lemma {:induction false} NormalizedDouble(v: nat)
    requires v > 0
    ensures FloorLog2(2 * v) == FloorLog2(v) + 1
    ensures Normalized(2 * v) == Normalized(v)
  {
    var k := FloorLog2(v);
    assert (2 * v) / 2 == v;
  }

  lemma {:induction false} NormalizedRange(v: nat)
    requires v > 0
    ensures 65536 <= Normalized(v) < 131072
    decreases if v >= 65536 then v else 0, 65536 - v
  {
    hide Normalized, FloorLog2;
    NormalizedStep(v);
    Log2Range(v);
    var k := FloorLog2(v);
    if k > 16 {
      NormalizedRange(v / 2);
    } else if k < 16 {
      NormalizedDouble(v);
      Log2Range(2 * v);
      NormalizedStep(2 * v);
      if k < 15 {
        NormalizedRange(2 * v);
      }
    }
  }

  lemma Log2Range(v: nat)
    requires v > 0
    ensures FloorLog2(v) < 16 ==> v < 65536
    ensures FloorLog2(v) == 16 ==> 65536 <= v < 131072
    ensures FloorLog2(v) > 16 ==> v >= 131072
  {
    hide FloorLog2;
    var k := FloorLog2(v);
    Pow2Words();
    assert Pow2(17) == 2 * Pow2(16);
    hide Pow2;
    if k < 16 {
      Pow2Monotone(k + 1, 16);
    } else if k > 16 {
      Pow2Monotone(17, k);
    }
  }

  lemma NormalizedStep(v: nat)
    requires v > 0
    ensures FloorLog2(v) == 16 ==> Normalized(v) == v
    ensures FloorLog2(v) > 16 ==> Normalized(v) == Normalized(v / 2)
  {
    hide FloorLog2;
    if FloorLog2(v) > 16 {
      HalfLog2(v);
    }
  }

  lemma HalfLog2(v: nat)
    requires v > 1
    ensures FloorLog2(v) == 1 + FloorLog2(v / 2)
  {
  }

  function Log2Q16(v: nat): nat {
    if v == 0 then 0
    else
      NormalizedRange(v);
      FloorLog2(v) * ONE_Q16 + Mantissa(Normalized(v) - 65536)
  }

  lemma MantissaMonotone(x: nat, y: nat)
    requires x <= y < 65536
    ensures Mantissa(x) <= Mantissa(y) <= 65536
  {
    var a, b := x / 4096, y / 4096;
    TableMonotone(a, a + 1);
    TableMonotone(b, b + 1);
    var alo, ahi, blo, bhi := Table(a), Table(a + 1), Table(b), Table(b + 1);
    InterpolateMonotone(blo, bhi, y % 4096, 4096);
    if a == b {
      InterpolateMonotone(alo, ahi, x % 4096, y % 4096);
    } else {
      InterpolateMonotone(alo, ahi, x % 4096, 4096);
      TableMonotone(a + 1, b);
      InterpolateMonotone(blo, bhi, 0, y % 4096);
    }
  }

  lemma {:induction false} ShrMonotone(a: nat, b: nat, k: nat)
    requires a <= b
    ensures Shr(a, k) <= Shr(b, k)
  {
    if k != 0 {
      ShrMonotone(a / 2, b / 2, k - 1);
    }
  }

  lemma FloorLog2Monotone(a: nat, b: nat)
    requires 0 < a <= b
    ensures FloorLog2(a) <= FloorLog2(b)
  {
    if FloorLog2(b) < FloorLog2(a) {
      Pow2Monotone(FloorLog2(b) + 1, FloorLog2(a));
    }
  }

  lemma NormalizedMonotone(a: nat, b: nat)
    requires 0 < a <= b && FloorLog2(a) == FloorLog2(b)
    ensures Normalized(a) <= Normalized(b)
  {
    var k := FloorLog2(a);
    if k >= 16 {
      ShrMonotone(a, b, k - 16);
    } else {
      ShlMonotone(a, b, 16 - k);
    }
  }

  lemma {:induction false} ShlMonotone(a: nat, b: nat, k: nat)
    requires a <= b
    ensures Shl(a, k) <= Shl(b, k)
    decreases k
  {
    if k != 0 {
      ShlMonotone(2 * a, 2 * b, k - 1);
    }
  }

  // The fixed-point logarithm never decreases, over the whole word.
  lemma {:induction false} Log2Monotone(a: nat, b: nat)
    requires a <= b
    ensures Log2Q16(a) <= Log2Q16(b)
  {
    if a > 0 {
      var j, k := FloorLog2(a), FloorLog2(b);
      FloorLog2Monotone(a, b);
      NormalizedRange(a);
      NormalizedRange(b);
      if j == k {
        NormalizedMonotone(a, b);
        MantissaMonotone(Normalized(a) - 65536, Normalized(b) - 65536);
      } else {
        MantissaMonotone(Normalized(a) - 65536, 65535);
        assert (j + 1) * ONE_Q16 <= k * ONE_Q16;
      }
    }
  }

  // Doubling the argument adds exactly one bit.
  lemma Log2Doubling(v: nat)
    requires v > 0
    ensures Log2Q16(2 * v) == Log2Q16(v) + ONE_Q16
  {
    hide FloorLog2, Normalized, Mantissa;
    NormalizedDouble(v);
    NormalizedRange(v);
  }

  lemma Log2One()
    ensures Log2Q16(1) == 0
  {
    Pow2Words();
    assert FloorLog2(1) == 0;
    ShlIsProduct(1, 16);
    assert Normalized(1) == 65536;
  }

  lemma {:induction false} Log2Exact(k: nat)
    ensures Log2Q16(Pow2(k)) == k * ONE_Q16
  {
    if k == 0 {
      Log2One();
    } else {
      Log2Exact(k - 1);
      Log2Doubling(Pow2(k - 1));
    }
  }

  lemma Log2Bound(v: nat)
    requires v <= UINT64_MAX
    ensures Log2Q16(v) < 64 * ONE_Q16
  {
    if v > 0 {
      Pow2Words();
      NormalizedRange(v);
      if FloorLog2(v) >= 64 {
        Pow2Monotone(64, FloorLog2(v));
      }
      MantissaStrict(Normalized(v) - 65536);
    }
  }

  lemma MantissaStrict(x: nat)
    requires x < 65536
    ensures Mantissa(x) < 65536
  {
    MantissaMonotone(x, 65535);
  }

  method ComputeLog2Q16(value: nat) returns (r: nat)
    requires value <= UINT64_MAX
    ensures r == Log2Q16(value)
  {
    if value == 0 {
      return 0;
    }
    var integer := 0;
    var normalized := value;
    while normalized > 1
      invariant normalized > 0
      invariant FloorLog2(value) == integer + FloorLog2(normalized)
    {
      normalized := normalized / 2;
      integer := integer + 1;
    }
    if integer >= 16 {
      normalized := Shr(value, integer - 16);
    } else {
      normalized := Shl(value, 16 - integer);
    }
    assert normalized == Normalized(value);
    NormalizedRange(value);
    var fraction := normalized - 65536;
    var slot := Min(fraction / 4096, 15);
    TableMonotone(slot, slot + 1);
    r := integer * ONE_Q16 + Interpolate(Table(slot), Table(slot + 1), fraction % 4096);
  }
}
