/** Bytes, shifts, masks and MSB-first bit strings: the arithmetic every other
    module rests on.  C's `v >> k` is `Shr(v, k)` and its mask
    `v & ((1u << k) - 1u)` is `Low(v, k)`. */
module Bits {
  type byte = x: int | 0 <= x < 256

  const SIZE_MAX: nat := 0xFFFF_FFFF_FFFF_FFFF
  const UINT64_MAX: nat := 0xFFFF_FFFF_FFFF_FFFF
  const UINT32_MAX: nat := 0xFFFF_FFFF

  datatype Option<+T> = None | Some(value: T)

  // ASCII lower case.
  function Lower(c: byte): byte {
    if 65 <= c <= 90 then c + 32 else c
  }

  function Pow2(n: nat): (p: nat)
    ensures p >= 1
  {
    if n == 0 then 1 else 2 * Pow2(n - 1)
  }

  function Shr(v: nat, k: nat): nat {
    if k == 0 then v else Shr(v / 2, k - 1)
  }

  function Low(v: nat, k: nat): nat {
    if k == 0 then 0 else 2 * Low(v / 2, k - 1) + v % 2
  }

  function Shl(v: nat, k: nat): nat
    decreases k
  {
    if k == 0 then v else Shl(2 * v, k - 1)
  }

  // The w low bits of v, most significant first.
  function ToBits(v: nat, w: nat): (s: seq<bool>)
    ensures |s| == w
  {
    if w == 0 then [] else ToBits(v / 2, w - 1) + [v % 2 == 1]
  }

  function FromBits(s: seq<bool>): nat {
    if s == [] then 0 else 2 * FromBits(s[..|s| - 1]) + (if s[|s| - 1] then 1 else 0)
  }

  // Bit k of a byte, counted from the most significant: (b >> (7 - k)) & 1.
  predicate ByteBit(b: byte, k: nat)
    requires k < 8
  {
    Shr(b, 7 - k) % 2 == 1
  }

  // A shift and a mask split a number exactly.
  lemma {:induction false} ShrLow(v: nat, k: nat)
    ensures v == Shr(v, k) * Pow2(k) + Low(v, k)
    ensures Low(v, k) < Pow2(k)
  {
    if k > 0 {
      ShrLow(v / 2, k - 1);
      ShrLowStep(v, k);
      ShiftProduct(v / 2, Shr(v / 2, k - 1), Pow2(k - 1), Low(v / 2, k - 1));
    }
  }

  lemma ShiftProduct(v: nat, q: nat, p: nat, low: nat)
    requires v == q * p + low
    ensures 2 * v == q * (2 * p) + 2 * low
  {
    assert q * (2 * p) == 2 * (q * p);
  }

  lemma ShrLowStep(v: nat, k: nat)
    requires k > 0
    ensures Shr(v, k) == Shr(v / 2, k - 1) && Low(v, k) == 2 * Low(v / 2, k - 1) + v % 2
    ensures Pow2(k) == 2 * Pow2(k - 1) && v == 2 * (v / 2) + v % 2
  {
  }

  lemma {:induction false} ShlIsProduct(v: nat, k: nat)
    ensures Shl(v, k) == v * Pow2(k)
    decreases k
  {
    if k != 0 {
      ShlIsProduct(2 * v, k - 1);
      var p := Pow2(k - 1);
      assert (2 * v) * p == v * (2 * p);
    }
  }

  lemma {:induction false} ToBitsAt(v: nat, w: nat, k: nat)
    requires k < w
    ensures ToBits(v, w)[k] == (Shr(v, w - 1 - k) % 2 == 1)
  {
    if k < w - 1 {
      ToBitsAt(v / 2, w - 1, k);
    }
  }

  lemma {:induction false} FromToBits(v: nat, w: nat)
    ensures FromBits(ToBits(v, w)) == Low(v, w)
  {
    if w == 0 {
    } else {
      FromToBits(v / 2, w - 1);
      var s := ToBits(v, w);
      assert s[..|s| - 1] == ToBits(v / 2, w - 1);
    }
  }

  lemma {:induction false} LowOfSmall(v: nat, w: nat)
    requires v < Pow2(w)
    ensures Low(v, w) == v
  {
    if w == 0 {
    } else {
      LowOfSmall(v / 2, w - 1);
    }
  }

  lemma {:induction false} ToFromBits(s: seq<bool>)
    ensures FromBits(s) < Pow2(|s|)
    ensures ToBits(FromBits(s), |s|) == s
  {
    if s == [] {
    } else {
      ToFromBits(s[..|s| - 1]);
      assert s == s[..|s| - 1] + [s[|s| - 1]];
    }
  }

  lemma {:induction false} ToBitsInjective(a: nat, b: nat, w: nat)
    requires a < Pow2(w) && b < Pow2(w)
    requires ToBits(a, w) == ToBits(b, w)
    ensures a == b
  {
    FromToBits(a, w);
    FromToBits(b, w);
    LowOfSmall(a, w);
    LowOfSmall(b, w);
  }

  // (a << w) | b, for b of at most w bits, writes a's bits and then b's.
  lemma {:induction false} ToBitsAppend(a: nat, m: nat, b: nat, w: nat)
    requires b < Pow2(w)
    ensures ToBits(a * Pow2(w) + b, m + w) == ToBits(a, m) + ToBits(b, w)
  {
    if w == 0 {
      assert ToBits(a, m) + [] == ToBits(a, m);
    } else {
      var p := Pow2(w - 1);
      var x := a * Pow2(w) + b;
      assert a * Pow2(w) == 2 * (a * p);
      assert x / 2 == a * p + b / 2;
      ToBitsAppend(a, m, b / 2, w - 1);
    }
  }

  // Splitting a number at bit r splits its bits.
  lemma {:induction false} ToBitsSplit(v: nat, m: nat, r: nat)
    ensures ToBits(v, m + r) == ToBits(Shr(v, r), m) + ToBits(Low(v, r), r)
  {
    ShrLow(v, r);
    ToBitsAppend(Shr(v, r), m, Low(v, r), r);
  }

  predicate Clear(s: seq<bool>, from: nat) {
    forall k :: from <= k < |s| ==> !s[k]
  }

  // A zero mask test means the u low bits of a w-bit number are all clear.
  lemma {:induction false} LowZeroBits(v: nat, w: nat, u: nat)
    requires u <= w
    ensures Low(v, u) == 0 <==> Clear(ToBits(v, w), w - u)
  {
    if u != 0 {
      LowZeroBits(v / 2, w - 1, u - 1);
      var s, t := ToBits(v, w), ToBits(v / 2, w - 1);
      assert s == t + [v % 2 == 1] && s[w - 1] == (v % 2 == 1);
      assert forall k :: 0 <= k < w - 1 ==> t[k] == s[k];
    }
  }

  lemma {:induction false} ToBitsZero(w: nat)
    ensures Clear(ToBits(0, w), 0)
  {
    if w != 0 {
      ToBitsZero(w - 1);
    }
  }

  // OR-ing in a clear bit adds its weight and changes no other bit.
  lemma {:induction false} SetClearBit(v: nat, w: nat, k: nat)
    requires k < w && !ToBits(v, w)[k]
    ensures ToBits(v + Pow2(w - 1 - k), w) == ToBits(v, w)[k := true]
    ensures v < Pow2(w) ==> v + Pow2(w - 1 - k) < Pow2(w)
  {
    if k < w - 1 {
      var p := Pow2(w - 2 - k);
      assert Pow2(w - 1 - k) == 2 * p && Pow2(w) == 2 * Pow2(w - 1);
      DoubleStep(v, p);
      LastBit(v, w, k);
      SetClearBit(v / 2, w - 1, k);
      LastBit(v + 2 * p, w, k);
    } else {
      SetLastBit(v, w);
    }
  }

  lemma LastBit(v: nat, w: nat, k: nat)
    requires k < w - 1
    ensures var s := ToBits(v, w);
            && s == ToBits(v / 2, w - 1) + [v % 2 == 1] && s[k] == ToBits(v / 2, w - 1)[k]
            && s[k := true] == ToBits(v / 2, w - 1)[k := true] + [v % 2 == 1]
  {
    var half := ToBits(v / 2, w - 1);
    hide ToBits;
    assert (half + [v % 2 == 1])[k := true] == half[k := true] + [v % 2 == 1];
  }

  lemma SetLastBit(v: nat, w: nat)
    requires w > 0 && !ToBits(v, w)[w - 1]
    ensures ToBits(v + Pow2(0), w) == ToBits(v, w)[w - 1 := true]
    ensures v < Pow2(w) ==> v + Pow2(0) < Pow2(w)
  {
    var half, last := ToBits(v / 2, w - 1), v % 2 == 1;
    assert ToBits(v, w) == half + [last];
    assert Pow2(0) == 1 && Pow2(w) == 2 * Pow2(w - 1);
    DoubleStep(v, 0);
    assert ToBits(v + 1, w) == ToBits((v + 1) / 2, w - 1) + [(v + 1) % 2 == 1];
    hide ToBits, Pow2;
    assert (half + [last])[w - 1] == last;
    EvenBelow(v, Pow2(w - 1));
    assert (half + [last])[w - 1 := true] == half + [true];
  }

  lemma EvenBelow(v: nat, q: nat)
    ensures v % 2 == 0 && v < 2 * q ==> v + 1 < 2 * q
  {
    assert v % 2 == 0 ==> v == 2 * (v / 2);
  }

  lemma DoubleStep(v: nat, p: nat)
    ensures (v + 2 * p) / 2 == v / 2 + p && (v + 2 * p) % 2 == v % 2
    ensures v % 2 == 0 ==> (v + 1) / 2 == v / 2 && (v + 1) % 2 == 1
  {
  }

  lemma {:induction false} ByteBitIsToBits(b: byte)
    ensures forall k :: 0 <= k < 8 ==> ByteBit(b, k) == ToBits(b, 8)[k]
  {
    forall k | 0 <= k < 8
      ensures ByteBit(b, k) == ToBits(b, 8)[k]
    {
      ToBitsAt(b, 8, k);
    }
  }

  lemma Pow2Eight()
    ensures Pow2(1) == 2 && Pow2(2) == 4 && Pow2(3) == 8 && Pow2(4) == 16
    ensures Pow2(5) == 32 && Pow2(6) == 64 && Pow2(7) == 128 && Pow2(8) == 256
  {
    assert Pow2(4) == 16;
    assert Pow2(8) == 16 * Pow2(4);
  }

  // Bytes laid end to end, MSB first.
  function BytesBits(bytes: seq<byte>): (s: seq<bool>)
    ensures |s| == 8 * |bytes|
  {
    if bytes == [] then [] else BytesBits(bytes[..|bytes| - 1]) + ToBits(bytes[|bytes| - 1], 8)
  }

  lemma {:induction false} BytesBitsAt(bytes: seq<byte>, i: nat)
    requires i < 8 * |bytes|
    ensures BytesBits(bytes)[i] == ByteBit(bytes[i / 8], i % 8)
  {
    var last := |bytes| - 1;
    if i / 8 == last {
      ByteBitIsToBits(bytes[last]);
    } else {
      BytesBitsAt(bytes[..last], i);
    }
  }

  lemma {:induction false} BytesBitsConcat(a: seq<byte>, b: seq<byte>)
    ensures BytesBits(a + b) == BytesBits(a) + BytesBits(b)
  {
    if b == [] {
      assert a + b == a;
    } else {
      var last := |b| - 1;
      assert (a + b)[..|a + b| - 1] == a + b[..last];
      BytesBitsConcat(a, b[..last]);
    }
  }

  // Writing the last byte rewrites the last eight bits.
  lemma BytesBitsLast(bytes: seq<byte>, b: byte)
    requires bytes != []
    ensures var m := |bytes| - 1;
            BytesBits(bytes[m := b]) == BytesBits(bytes[..m]) + ToBits(b, 8)
  {
    var m := |bytes| - 1;
    var next := bytes[m := b];
    assert next[..m] == bytes[..m];
  }

  lemma {:induction false} BytesBitsInjective(a: seq<byte>, b: seq<byte>)
    requires BytesBits(a) == BytesBits(b)
    ensures a == b
  {
    assert |BytesBits(a)| == 8 * |a|;
    assert |a| == |b|;
    if a != [] {
      var n := |a| - 1;
      var x, y := BytesBits(a), BytesBits(b);
      assert x[..8 * n] == BytesBits(a[..n]) && y[..8 * n] == BytesBits(b[..n]);
      assert x[8 * n..] == ToBits(a[n], 8) && y[8 * n..] == ToBits(b[n], 8);
      BytesBitsInjective(a[..n], b[..n]);
      Pow2Eight();
      ToBitsInjective(a[n], b[n], 8);
      assert a == a[..n] + [a[n]] && b == b[..n] + [b[n]];
    }
  }

  // The bitwise complement.
  function Flip(bits: seq<bool>): (f: seq<bool>)
    ensures |f| == |bits|
  {
    seq(|bits|, i requires 0 <= i < |bits| => !bits[i])
  }

  lemma FlipTwice(bits: seq<bool>)
    ensures Flip(Flip(bits)) == bits
  {
  }
}
