/** What the scorers share: result records, saturating costs, code widths. */
module Scorer {
  import opened Bits

  const ONE_Q16: nat := 65536
  const SHORT_BITS: nat := 24

  datatype ScorerId = Runs | Kt | Periodic | Lz78 | Linear

  datatype Flag =
    | ShortSample | LimitReached | ArithmeticClamped | Simple | HighUnexplained
    | LinearRecurrence | PeriodicStructure | DictionaryStructure

  datatype ScorerResult = ScorerResult(
    scorer: ScorerId,
    sourceBits: nat,
    assessedBits: nat,
    description: nat,  // Q48.16 bits
    perBit: nat,       // description over assessed bits, Q16
    statistic: nat,
    modelParameter: nat,
    flags: set<Flag>)

  function Min(a: nat, b: nat): nat {
    if a < b then a else b
  }

  // Normalizes a scorer's result and marks short samples.
  function Finish(r: ScorerResult): (f: ScorerResult)
  {
    r.(perBit := if r.assessedBits == 0 || r.description == UINT64_MAX then UINT32_MAX
                 else Min(r.description / r.assessedBits, UINT32_MAX),
       flags := if r.sourceBits < SHORT_BITS then r.flags + {ShortSample} else r.flags)
  }

  // A 64-bit running cost: the total saturates and the clamp is remembered.
  datatype Cost = Cost(total: nat, clamped: bool)

  function AddCost(c: Cost, value: nat): Cost
    requires c.total <= UINT64_MAX
  {
    if UINT64_MAX - c.total < value then Cost(UINT64_MAX, true)
    else Cost(c.total + value, c.clamped)
  }

  // The exact sum as the 64-bit accumulator shows it.
  function Saturated(exact: nat): (c: Cost)
    ensures c.total <= UINT64_MAX && (c.clamped <==> exact > UINT64_MAX)
  {
    Cost(Min(exact, UINT64_MAX), exact > UINT64_MAX)
  }

  // Saturating addition of non-negative terms forgets neither order nor clamp:
  // it shows the saturated exact sum.
  lemma AddSaturated(exact: nat, value: nat)
    ensures AddCost(Saturated(exact), value) == Saturated(exact + value)
  {
  }

  function ClampFlag(c: Cost): set<Flag> {
    if c.clamped then {ArithmeticClamped} else {}
  }

  // The number of bits that tell `value` alternatives apart.
  function CeilLog2(value: nat): (bits: nat)
    ensures value <= Pow2(bits)
    ensures bits > 0 ==> Pow2(bits - 1) < value
  {
    if value <= 1 then 0 else 1 + CeilLog2((value + 1) / 2)
  }

  lemma {:induction false} Pow2Monotone(a: nat, b: nat)
    requires a <= b
    ensures Pow2(a) <= Pow2(b)
  {
    if a < b {
      Pow2Monotone(a, b - 1);
    }
  }

  lemma CeilLog2Unique(value: nat, bits: nat)
    requires value <= Pow2(bits) && (bits > 0 ==> Pow2(bits - 1) < value)
    ensures bits == CeilLog2(value)
  {
    var k := CeilLog2(value);
    if bits < k {
      Pow2Monotone(bits, k - 1);
    } else if k < bits {
      Pow2Monotone(k, bits - 1);
    }
  }

  lemma Pow2Words()
    ensures Pow2(16) == 65536 && Pow2(32) == 0x1_0000_0000
    ensures Pow2(62) == 0x4000_0000_0000_0000 && Pow2(63) == 0x8000_0000_0000_0000 && Pow2(64) == SIZE_MAX + 1
  {
    Pow2Eight();
    Pow2Sum(8, 8);
    Pow2Sum(16, 16);
    Pow2Sum(32, 32);
    assert Pow2(64) == 2 * Pow2(63) == 4 * Pow2(62);
  }

  lemma {:induction false} Pow2Sum(a: nat, b: nat)
    ensures Pow2(a + b) == Pow2(a) * Pow2(b)
  {
    if b == 0 {
    } else {
      Pow2Sum(a, b - 1);
      var p, q := Pow2(a), Pow2(b - 1);
      assert p * (2 * q) == 2 * (p * q);
    }
  }

  // size_t never overflows: the last doubling is counted without being made.
  method ComputeCeilLog2(value: nat) returns (bits: nat)
    requires value <= SIZE_MAX
    ensures bits == CeilLog2(value) && bits <= 64
  {
    Pow2Words();
    bits := 0;
    var power := 1;
    while power < value && power <= SIZE_MAX / 2
      invariant bits <= 63 && power == Pow2(bits)
      invariant bits > 0 ==> Pow2(bits - 1) < value
      decreases 64 - bits
    {
      power := 2 * power;
      bits := bits + 1;
    }
    if power < value {
      if bits < 63 {
        Pow2Monotone(bits, 62);
      }
      bits := bits + 1;
    }
    CeilLog2Unique(value, bits);
  }
}
