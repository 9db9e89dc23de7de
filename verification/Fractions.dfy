/** Quotients of counts compared in binary floating point. */
module Fractions {
  import opened Bits

  const SIGNIFICANDS: int := 9007199254740992        // 2^53
  const HALF_ULP: real := 1.0 / 9007199254740992.0   // 2^-53

  // Counts up to here are told apart by their quotients.
  const EXACT: nat := 35184372088832                 // 2^45

  function Power(k: nat): (p: real)
    ensures p >= 1.0
  {
    Pow2(k) as real
  }

  // ----- binary64 -----

  predicate IsScaled(y: real, m: int, k: nat) {
    && -SIGNIFICANDS < m < SIGNIFICANDS
    && ((k <= 1074 && y * Power(k) == m as real) || (k <= 971 && y == m as real * Power(k)))
  }

  // The finite binary64 values: a significand of 53 bits and a sign, scaled by
  // a power of two in the format's range.
  ghost predicate Binary64(y: real) {
    exists m: int, k: nat :: IsScaled(y, m, k)
  }

  function Distance(y: real, x: real): real {
    if y < x then x - y else y - x
  }

  ghost predicate IsNearest(y: real, x: real) {
    Binary64(y) && forall other: real :: Binary64(other) ==> Distance(y, x) <= Distance(other, x)
  }

  // Rounding to nearest as IEEE 754 defines it, for the arguments that matter
  // here and with ties broken in any way.
  ghost predicate RoundsToNearest(round: real -> real) {
    forall x: real :: 0.0 <= x <= EXACT as real ==> IsNearest(round(x), x)
  }

  lemma PowerSum(a: nat, b: nat)
    ensures Power(a + b) == Power(a) * Power(b)
  {
    hide Pow2;
    Pow2Product(a, b);
  }

  lemma {:induction false} Pow2Product(a: nat, b: nat)
    ensures Pow2(a + b) == Pow2(a) * Pow2(b)
  {
    if a > 0 {
      Pow2Product(a - 1, b);
      assert a - 1 + b == a + b - 1;
      Doubled(Pow2(a - 1), Pow2(b));
    }
  }

  lemma Doubled(x: nat, y: nat)
    ensures 2 * (x * y) == (2 * x) * y
  {
  }

  lemma SmallPowers()
    ensures Pow2(3) == 8 && Pow2(7) == 128
  {
  }

  lemma PowerValues()
    ensures Power(7) == 128.0 && Power(45) == EXACT as real
    ensures Power(52) == 4503599627370496.0 && Power(97) == EXACT as real * Power(52)
  {
    hide Pow2;
    SmallPowers();
    Pow2Product(7, 7);
    Pow2Product(14, 14);
    Pow2Product(28, 14);
    Pow2Product(42, 3);
    Pow2Product(45, 7);
    PowerSum(45, 52);
  }

  // ----- what rounding to nearest does -----

  lemma NearestZero(round: real -> real)
    requires RoundsToNearest(round)
    ensures round(0.0) == 0.0
  {
    assert Power(0) == 1.0;
    assert IsScaled(0.0, 0, 0);
    assert Binary64(0.0);
    assert IsNearest(round(0.0), 0.0);
    assert Distance(round(0.0), 0.0) <= Distance(0.0, 0.0);
  }

  lemma NearestOrder(round: real -> real, x: real, y: real)
    requires RoundsToNearest(round) && 0.0 <= x <= y <= EXACT as real
    ensures round(x) <= round(y)
  {
    hide Binary64;
    var u, v := round(x), round(y);
    assert IsNearest(u, x) && IsNearest(v, y);
    assert Distance(u, x) <= Distance(v, x) && Distance(v, y) <= Distance(u, y);
  }

  // The scale at which x takes the full significand, or the finest there is.
  lemma Scale(x: real, k: nat) returns (n: nat)
    requires x >= 0.0 && x * Power(k) < SIGNIFICANDS as real && k <= 1074
    ensures k <= n <= 1074 && x * Power(n) < SIGNIFICANDS as real
    ensures n == 1074 || x * Power(n) >= Power(52)
    decreases 1074 - k
  {
    PowerValues();
    hide Power;
    if k == 1074 || x * Power(k) >= Power(52) {
      n := k;
    } else {
      PowerStep(x, k);
      n := Scale(x, k + 1);
    }
  }

  lemma PowerStep(x: real, k: nat)
    ensures x * Power(k + 1) == 2.0 * (x * Power(k))
  {
    assert Power(k + 1) == 2.0 * Power(k);
  }

  // A significand of 2^53 is carried into the scale.
  lemma Significand(m: int, k: nat) returns (y: real)
    requires 0 <= m <= SIGNIFICANDS && 0 < k <= 1074
    ensures Binary64(y) && y * Power(k) == m as real
  {
    y := m as real / Power(k);
    if m < SIGNIFICANDS {
      assert IsScaled(y, m, k);
    } else {
      PowerStep(y, k - 1);
      hide Power;
      assert IsScaled(y, SIGNIFICANDS / 2, k - 1);
    }
  }

  // The value whose scaled form is the nearest integer.
  lemma NearestInteger(x: real, k: nat) returns (y: real, m: int)
    requires x >= 0.0 && x * Power(k) < SIGNIFICANDS as real && 0 < k <= 1074
    ensures Binary64(y) && y * Power(k) == m as real
    ensures Distance(m as real, x * Power(k)) <= 0.5
  {
    var z := x * Power(k);
    m := (z + 0.5).Floor;
    y := Significand(m, k);
  }

  // The same distance seen at a scale.
  function ScaledGap(y: real, x: real, p: real): real {
    Distance(y * p, x * p)
  }

  lemma GapOf(y: real, x: real, p: real, v: real, z: real)
    requires y * p == v && x * p == z
    ensures ScaledGap(y, x, p) == Distance(v, z)
  {
  }

  lemma Scaling(y: real, x: real, p: real)
    requires p > 0.0
    ensures Distance(y, x) * p == ScaledGap(y, x, p)
  {
    if y < x {
      assert (x - y) * p == x * p - y * p && (x - y) * p > 0.0;
    } else {
      assert (y - x) * p == y * p - x * p && (y - x) * p >= 0.0;
    }
  }

  lemma Cancel(a: real, b: real, p: real)
    requires p > 0.0
    ensures a > b ==> a * p > b * p
  {
    if a > b {
      assert (a - b) * p > 0.0;
    }
  }

  // In the normal range the error is half a unit in the last place at most.
  lemma NearestError(round: real -> real, x: real)
    requires RoundsToNearest(round) && 1.0 <= x * EXACT as real && x <= EXACT as real
    ensures Distance(round(x), x) <= x * HALF_ULP
  {
    hide Power, Binary64, Distance, ScaledGap;
    var k, y := NormalScale(x);
    assert IsNearest(round(x), x);
    assert Distance(round(x), x) <= Distance(y, x);
    ScaledError(y, x, Power(k));
  }

  lemma ScaledError(y: real, x: real, p: real)
    requires p > 0.0 && ScaledGap(y, x, p) <= 0.5 && x * p >= 4503599627370496.0
    ensures Distance(y, x) <= x * HALF_ULP
  {
    hide Distance, ScaledGap;
    Scaling(y, x, p);
    HalfUnit(x, p);
    Cancel(Distance(y, x), x * HALF_ULP, p);
  }

  lemma ScaledCloser(y: real, other: real, x: real, p: real)
    requires p > 0.0 && ScaledGap(y, x, p) <= ScaledGap(other, x, p)
    ensures Distance(y, x) <= Distance(other, x)
  {
    hide Distance, ScaledGap;
    Scaling(y, x, p);
    Scaling(other, x, p);
    Cancel(Distance(y, x), Distance(other, x), p);
  }

  lemma HalfUnit(x: real, p: real)
    requires x * p >= 4503599627370496.0
    ensures (x * HALF_ULP) * p >= 0.5
  {
    assert (x * HALF_ULP) * p == (x * p) * HALF_ULP;
  }

  lemma NormalScale(x: real) returns (k: nat, y: real)
    requires 1.0 <= x * EXACT as real && x <= EXACT as real
    ensures x * Power(k) >= 4503599627370496.0
    ensures Binary64(y) && ScaledGap(y, x, Power(k)) <= 0.5
  {
    hide Power, Binary64;
    PowerValues();
    FirstScale(x);
    k := Scale(x, 7);
    if k == 1074 {
      PowerSum(97, 977);
      LastScale(x, Power(97), Power(977), Power(52));
    }
    var m;
    y, m := NearestInteger(x, k);
  }

  lemma FirstScale(x: real)
    requires 0.0 <= x <= EXACT as real
    ensures x * 128.0 < SIGNIFICANDS as real
  {
  }

  lemma LastScale(x: real, a: real, b: real, p: real)
    requires 1.0 <= x * EXACT as real && a == EXACT as real * p && p >= 1.0 && b >= 1.0
    ensures x * (a * b) >= p
  {
    assert x * a == (x * EXACT as real) * p >= p;
    assert x * (a * b) == (x * a) * b >= x * a;
  }

  // ----- such a rounding exists -----

  // No other value is closer than the nearest integer at the finest scale.
  lemma NearestExists(x: real) returns (y: real)
    requires 0.0 <= x <= EXACT as real
    ensures IsNearest(y, x)
  {
    hide Power, Distance, Binary64;
    PowerValues();
    FirstScale(x);
    var k := Scale(x, 7);
    var m;
    y, m := NearestInteger(x, k);
    forall other: real | Binary64(other)
      ensures Distance(y, x) <= Distance(other, x)
    {
      NoCloser(x, k, y, m, other);
    }
  }

  lemma NoCloser(x: real, k: nat, y: real, m: int, other: real)
    requires 0 < k <= 1074 && (k == 1074 || x * Power(k) >= Power(52)) && Binary64(other)
    requires y * Power(k) == m as real && Distance(m as real, x * Power(k)) <= 0.5
    ensures Distance(y, x) <= Distance(other, x)
  {
    hide Distance, Power, ScaledGap;
    var n, j := ScaledForm(other);
    var p, z := Power(k), x * Power(k);
    GapOf(y, x, p, m as real, z);
    if other * Power(j) == n as real && j > k {
      FinerBelow(other, n, j, k);
      PowerValues();
      var v := other * Power(k);
      GapOf(other, x, p, v, z);
      BelowCloser(m, v, z);
    } else {
      var i := WholeAtScale(other, n, j, k);
      GapOf(other, x, p, i as real, z);
      IntegerCloser(m, i, z);
    }
    ScaledCloser(y, other, x, p);
  }

  lemma ScaledForm(y: real) returns (m: int, k: nat)
    requires Binary64(y)
    ensures -SIGNIFICANDS < m < SIGNIFICANDS
    ensures (k <= 1074 && y * Power(k) == m as real) || (k <= 971 && y == m as real * Power(k))
  {
    hide Power;
    m, k :| IsScaled(y, m, k);
  }

  lemma IntegerCloser(m: int, i: int, z: real)
    requires Distance(m as real, z) <= 0.5
    ensures Distance(m as real, z) <= Distance(i as real, z)
  {
    assert i <= m - 1 || i == m || i >= m + 1;
  }

  lemma BelowCloser(m: int, v: real, z: real)
    requires Distance(m as real, z) <= 0.5 && v <= 4503599627370496.0 <= z
    ensures Distance(m as real, z) <= Distance(v, z)
  {
    IntegerCloser(m, 4503599627370496, z);
  }

  // A value of a finer scale lies below the full significands of this one.
  lemma FinerBelow(other: real, n: int, j: nat, k: nat)
    requires other * Power(j) == n as real && n < SIGNIFICANDS && j > k
    ensures other * Power(k) <= Power(52)
  {
    PowerValues();
    PowerSum(k, j - k);
    assert Power(j - k) >= 2.0;
    hide Power;
    assert other * Power(j) == (other * Power(k)) * Power(j - k);
    AtLeastTwice(other * Power(k), Power(j - k), Power(52));
  }

  lemma AtLeastTwice(a: real, f: real, b: real)
    requires f >= 2.0 && b >= 0.0
    ensures a > b ==> a * f >= 2.0 * b
  {
    if a > b {
      assert a * (f - 2.0) >= 0.0;
    }
  }

  // Any other value is whole at this scale.
  lemma WholeAtScale(other: real, n: int, j: nat, k: nat) returns (i: int)
    requires (other * Power(j) == n as real && j <= k) || other == n as real * Power(j)
    ensures other * Power(k) == i as real
  {
    hide Pow2;
    if other * Power(j) == n as real && j <= k {
      PowerSum(j, k - j);
      i := n * Pow2(k - j);
      WholeProduct(n, Pow2(k - j));
      Grouped(other, Power(j), Power(k - j));
    } else {
      i := n * Pow2(j) * Pow2(k);
      WholeProduct(n, Pow2(j));
      WholeProduct(n * Pow2(j), Pow2(k));
    }
  }

  lemma WholeProduct(a: int, b: int)
    ensures (a * b) as real == a as real * b as real
  {
  }

  lemma Grouped(x: real, a: real, b: real)
    ensures x * (a * b) == (x * a) * b
  {
  }

  ghost function Nearest(x: real): real {
    if y: real :| IsNearest(y, x) then y else 0.0
  }

  lemma NearestRounds()
    ensures RoundsToNearest(Nearest)
  {
    hide IsNearest;
    forall x: real | 0.0 <= x <= EXACT as real
      ensures IsNearest(Nearest(x), x)
    {
      var y := NearestExists(x);
    }
  }

  // ----- quotients -----

  function Quotient(part: nat, whole: nat): real
    requires whole > 0
  {
    part as real / whole as real
  }

  // Zero, or far from both ends of the format's range.
  predicate Ordinary(x: real) {
    x == 0.0 || (1.0 <= x * EXACT as real && x <= EXACT as real)
  }

  lemma QuotientOrdinary(part: nat, whole: nat)
    requires 0 < whole <= EXACT && part <= EXACT
    ensures 0.0 <= Quotient(part, whole) && Ordinary(Quotient(part, whole))
  {
    var x, p, w := Quotient(part, whole), part as real, whole as real;
    assert x * w == p;
    if part > 0 {
      Scaled(x, w, EXACT as real);
    }
  }

  lemma Scaled(x: real, w: real, limit: real)
    requires x > 0.0 && 1.0 <= w <= limit && 1.0 <= x * w <= limit
    ensures 1.0 <= x * limit && x <= limit
  {
    assert x * (limit - w) >= 0.0;
    assert x * (w - 1.0) >= 0.0;
  }

  lemma ProperQuotient(part: nat, whole: nat)
    requires part <= whole && whole > 0
    ensures Quotient(part, whole) <= 1.0
  {
    var x, p, w := Quotient(part, whole), part as real, whole as real;
    assert x * w == p <= w;
    Cancel(x, 1.0, w);
  }

  // Different quotients below 1 are further apart than two roundings.
  lemma Separated(round: real -> real, x: real, y: real, gap: real)
    requires RoundsToNearest(round) && Ordinary(x) && Ordinary(y)
    requires 0.0 <= x && x + gap <= y <= 1.0 && gap > 2.0 * HALF_ULP
    ensures round(x) < round(y)
  {
    hide RoundsToNearest;
    if x == 0.0 {
      NearestZero(round);
    } else {
      NearestError(round, x);
    }
    NearestError(round, y);
    assert x * HALF_ULP <= HALF_ULP;
    assert y * HALF_ULP <= HALF_ULP;
  }

  lemma QuotientGap(p: nat, q: nat, percent: nat)
    requires 0 < q < EXACT && percent <= 100
    ensures 100 * p < percent * q ==> Quotient(p, q) + 1.0 / (100.0 * q as real) <= Quotient(percent, 100)
    ensures 100 * p > percent * q ==> Quotient(percent, 100) + 1.0 / (100.0 * q as real) <= Quotient(p, q)
    ensures 100 * p >= percent * q ==> Quotient(percent, 100) <= Quotient(p, q)
    ensures 100 * p <= percent * q ==> Quotient(p, q) <= Quotient(percent, 100)
    ensures 1.0 / (100.0 * q as real) > 2.0 * HALF_ULP
  {
    var d := 100.0 * q as real;
    assert Quotient(p, q) == (100 * p) as real / d;
    assert Quotient(percent, 100) == (percent * q) as real / d;
  }

  // Comparing the rounded quotient with the rounded literal decides the exact
  // comparison of counts.
  lemma RoundedAtLeast(round: real -> real, part: nat, whole: nat, percent: nat)
    requires RoundsToNearest(round) && 0 < whole < EXACT && part <= EXACT && percent <= 100
    ensures round(Quotient(part, whole)) >= round(Quotient(percent, 100)) <==> 100 * part >= percent * whole
  {
    hide RoundsToNearest, Quotient;
    QuotientGap(part, whole, percent);
    QuotientOrdinary(part, whole);
    QuotientOrdinary(percent, 100);
    ProperQuotient(percent, 100);
    if 100 * part < percent * whole {
      Separated(round, Quotient(part, whole), Quotient(percent, 100), 1.0 / (100.0 * whole as real));
    } else {
      NearestOrder(round, Quotient(percent, 100), Quotient(part, whole));
    }
  }

  lemma RoundedAtMost(round: real -> real, part: nat, whole: nat, percent: nat)
    requires RoundsToNearest(round) && part <= whole && 0 < whole < EXACT && percent <= 100
    ensures round(Quotient(part, whole)) <= round(Quotient(percent, 100)) <==> 100 * part <= percent * whole
  {
    hide RoundsToNearest, Quotient;
    QuotientGap(part, whole, percent);
    QuotientOrdinary(part, whole);
    QuotientOrdinary(percent, 100);
    ProperQuotient(part, whole);
    ProperQuotient(percent, 100);
    if 100 * part > percent * whole {
      Separated(round, Quotient(percent, 100), Quotient(part, whole), 1.0 / (100.0 * whole as real));
    } else {
      NearestOrder(round, Quotient(part, whole), Quotient(percent, 100));
    }
  }
}
