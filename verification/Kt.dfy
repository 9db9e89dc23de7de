/** Krichevsky-Trofimov costs in fixed point: the binary coder and the
    context-mixing order-k coder, each a running total of
    log2(2 * (total + 1)) - log2(2 * count + 1) in uint64 arithmetic. */
module Kt {
  import opened Bits
  import opened Scorer
  import opened Log2

  const WORD: nat := UINT64_MAX + 1

  function Count(bits: seq<bool>, bit: bool): (c: nat)
    ensures c <= |bits|
  {
    if bits == [] then 0
    else Count(bits[..|bits| - 1], bit) + (if bits[|bits| - 1] == bit then 1 else 0)
  }

  lemma {:induction false} CountTotal(bits: seq<bool>)
    ensures Count(bits, false) + Count(bits, true) == |bits|
  {
    if bits != [] {
      CountTotal(bits[..|bits| - 1]);
    }
  }

  // The price of a symbol seen `count` times among `total`, wrapping as uint64.
  function Term(total: nat, count: nat): (t: nat)
    ensures t <= UINT64_MAX
  {
    (Log2Q16(2 * (total + 1) % WORD) - Log2Q16((2 * count + 1) % WORD)) % WORD
  }

  // No term underflows while the counts fit the word.
  lemma TermExact(total: nat, count: nat)
    requires count <= total && 2 * (total + 1) < WORD
    ensures Term(total, count) == Log2Q16(2 * (total + 1)) - Log2Q16(2 * count + 1)
    ensures Term(total, count) < 64 * ONE_Q16
  {
    hide Log2Q16;
    Log2Monotone(2 * count + 1, 2 * (total + 1));
    Log2Bound(2 * (total + 1));
    assert 2 * (total + 1) % WORD == 2 * (total + 1);
    assert (2 * count + 1) % WORD == 2 * count + 1;
  }

  // The bound is sharp: one symbol further the doubled total wraps to zero.
  lemma TermWraps(count: nat)
    requires 0 < count && 2 * count + 1 < WORD
    ensures Term(WORD / 2 - 1, count) == WORD - Log2Q16(2 * count + 1) > 64 * ONE_Q16
  {
    hide Log2Q16;
    Log2Bound(2 * count + 1);
    Log2Monotone(2, 2 * count + 1);
    Log2Doubling(1);
    assert 2 * (WORD / 2 - 1 + 1) % WORD == 0;
    assert (2 * count + 1) % WORD == 2 * count + 1;
    assert Log2Q16(0) == 0 by {
      Log2Zero();
    }
  }

  lemma Log2Zero()
    ensures Log2Q16(0) == 0
  {
  }

  // A symbol seen no more often than the other costs at least one bit.
  lemma MinorityTerm(total: nat, count: nat)
    requires 2 * count <= total && 2 * (total + 1) < WORD
    ensures Term(total, count) >= ONE_Q16
  {
    hide Log2Q16;
    TermExact(total, count);
    Log2Doubling(total + 1);
    Log2Monotone(2 * count + 1, total + 1);
  }

  // Cost of coding the bits in order, each from the counts before it.
  function Prequential(bits: seq<bool>): (c: Cost)
    ensures c.total <= UINT64_MAX
  {
    if bits == [] then Cost(0, false)
    else
      var past, bit := bits[..|bits| - 1], bits[|bits| - 1];
      AddCost(Prequential(past), Term(|past|, Count(past, bit)))
  }

  // The sums of log2 over the first n even and odd arguments.
  function Evens(n: nat): nat {
    if n == 0 then 0 else Evens(n - 1) + Log2Q16(2 * n)
  }

  function Odds(n: nat): nat {
    if n == 0 then 0 else Odds(n - 1) + Log2Q16(2 * n - 1)
  }

  function Closed(zeros: nat, ones: nat): int {
    Evens(zeros + ones) - Odds(zeros) - Odds(ones)
  }

  lemma ClosedSymmetric(zeros: nat, ones: nat)
    ensures Closed(zeros, ones) == Closed(ones, zeros)
  {
  }

  lemma ClosedEmpty()
    ensures Closed(0, 0) == 0
  {
  }

  // One more symbol adds exactly its term to the closed form.
  lemma ClosedStep(zeros: nat, ones: nat, bit: bool)
    requires 2 * (zeros + ones + 1) < WORD
    ensures Closed(if bit then zeros else zeros + 1, if bit then ones + 1 else ones) ==
            Closed(zeros, ones) + Term(zeros + ones, if bit then ones else zeros)
  {
    hide Log2Q16, Term;
    TermExact(zeros + ones, if bit then ones else zeros);
  }

  lemma {:induction false} ClosedBounds(zeros: nat, ones: nat)
    requires 2 * (zeros + ones) < WORD
    ensures 0 <= Closed(zeros, ones) <= 64 * ONE_Q16 * (zeros + ones)
    decreases zeros + ones
  {
    hide Log2Q16, Term;
    if zeros > 0 {
      ClosedBounds(zeros - 1, ones);
      ClosedStep(zeros - 1, ones, false);
      TermExact(zeros - 1 + ones, zeros - 1);
    } else if ones > 0 {
      ClosedBounds(zeros, ones - 1);
      ClosedStep(zeros, ones - 1, true);
      TermExact(zeros + ones - 1, ones - 1);
    }
  }

  // Counts that differ by one at most cost at least a bit a symbol.
  lemma {:induction false} ClosedBalanced(m: nat)
    requires 2 * (2 * m + 1) < WORD
    ensures Closed(m, m) >= 2 * m * ONE_Q16
    ensures Closed(m, m + 1) >= (2 * m + 1) * ONE_Q16
  {
    hide Closed, Term, Log2Q16;
    if m == 0 {
      ClosedEmpty();
    } else {
      ClosedBalanced(m - 1);
      ClosedStep(m - 1, m, false);
      MinorityTerm(2 * m - 1, m - 1);
    }
    ClosedStep(m, m, true);
    MinorityTerm(2 * m, m);
  }

  // A constant sequence of n costs no more than naming one of 2 * n.
  lemma {:induction false} ClosedConstant(n: nat)
    requires n > 0
    ensures Closed(n, 0) <= Log2Q16(2 * n)
  {
    hide Log2Q16;
    if n == 1 {
      assert Odds(1) == Log2Q16(1) && Evens(1) == Log2Q16(2);
    } else {
      ClosedConstant(n - 1);
      Log2Monotone(2 * (n - 1), 2 * n - 1);
    }
  }

  // The prequential cost depends on the two counts alone: the order of the
  // symbols does not matter, even after rounding and saturation.
  lemma {:induction false} PrequentialClosed(bits: seq<bool>)
    requires 2 * |bits| < WORD
    ensures Closed(Count(bits, false), Count(bits, true)) >= 0
    ensures Prequential(bits) == Saturated(Closed(Count(bits, false), Count(bits, true)))
  {
    hide Log2Q16, Term, Closed, AddCost;
    CountTotal(bits);
    ClosedBounds(Count(bits, false), Count(bits, true));
    if bits != [] {
      var past, bit := bits[..|bits| - 1], bits[|bits| - 1];
      PrequentialClosed(past);
      CountTotal(past);
      ClosedStep(Count(past, false), Count(past, true), bit);
      AddSaturated(Closed(Count(past, false), Count(past, true)), Term(|past|, Count(past, bit)));
    }
  }

  lemma OrderIndependent(a: seq<bool>, b: seq<bool>)
    requires 2 * |a| < WORD && multiset(a) == multiset(b)
    ensures Prequential(a) == Prequential(b)
  {
    CountIsMultiplicity(a, false);
    CountIsMultiplicity(a, true);
    CountIsMultiplicity(b, false);
    CountIsMultiplicity(b, true);
    CountTotal(a);
    CountTotal(b);
    PrequentialClosed(a);
    PrequentialClosed(b);
  }

  lemma {:induction false} CountIsMultiplicity(bits: seq<bool>, bit: bool)
    ensures Count(bits, bit) == multiset(bits)[bit]
  {
    if bits != [] {
      var past, last := bits[..|bits| - 1], bits[|bits| - 1];
      assert bits == past + [last];
      CountIsMultiplicity(past, bit);
    }
  }

  lemma {:induction false} FlipCount(bits: seq<bool>, bit: bool)
    ensures Count(Flip(bits), !bit) == Count(bits, bit)
  {
    if bits != [] {
      FlipCount(bits[..|bits| - 1], bit);
      assert Flip(bits)[..|bits| - 1] == Flip(bits[..|bits| - 1]);
    }
  }

  // All the zeros, then all the ones.
  function Split(zeros: nat, ones: nat): (s: seq<bool>)
    ensures |s| == zeros + ones
  {
    seq(zeros + ones, i => i >= zeros)
  }

  lemma {:induction false} SplitCounts(zeros: nat, ones: nat)
    ensures Count(Split(zeros, ones), false) == zeros
    ensures Count(Split(zeros, ones), true) == ones
    decreases zeros + ones
  {
    var s := Split(zeros, ones);
    if ones > 0 {
      SplitCounts(zeros, ones - 1);
      assert s[..|s| - 1] == Split(zeros, ones - 1);
    } else if zeros > 0 {
      SplitCounts(zeros - 1, ones);
      assert s[..|s| - 1] == Split(zeros - 1, 0);
    }
  }

  // Appending a symbol to a sequence appends its term to the cost.
  lemma PrequentialStep(bits: seq<bool>, bit: bool)
    ensures Prequential(bits + [bit]) == AddCost(Prequential(bits), Term(|bits|, Count(bits, bit)))
  {
    assert (bits + [bit])[..|bits|] == bits;
  }

  method ComputeTerm(total: nat, count: nat) returns (t: nat)
    ensures t == Term(total, count)
  {
    hide Log2Q16;
    var top := ComputeLog2Q16(2 * (total + 1) % WORD);
    var bottom := ComputeLog2Q16((2 * count + 1) % WORD);
    t := (top - bottom) % WORD;
  }

  method BinaryCost(zeros: nat, ones: nat) returns (cost: Cost)
    requires zeros + ones <= SIZE_MAX
    ensures cost == Prequential(Split(zeros, ones))
  {
    hide Term, AddCost, Count;
    var z, o := 0, 0;
    cost := Cost(0, false);
    var i := 0;
    while i < zeros + ones
      invariant i <= zeros + ones
      invariant z == (if i <= zeros then i else zeros) && o == i - z
      invariant cost == Prequential(Split(z, o))
    {
      var takeOne := i >= zeros;
      SplitCounts(z, o);
      PrequentialStep(Split(z, o), takeOne);
      var t := ComputeTerm(z + o, if takeOne then o else z);
      cost := AddCost(cost, t);
      if takeOne {
        assert Split(z, o) + [true] == Split(z, o + 1);
        o := o + 1;
      } else {
        assert Split(z, o) + [false] == Split(z + 1, o);
        z := z + 1;
      }
      i := i + 1;
    }
  }

  // ----- contexts -----

  const SLOTS: nat := 31

  // Shorter histories fill the lower slots, so a full context is never
  // confused with a short prefix.
  function SlotOf(history: seq<bool>): nat {
    FromBits(history) + Pow2(|history|) - 1
  }

  function History(bits: seq<bool>, order: nat, i: nat): (h: seq<bool>)
    requires i < |bits|
    ensures |h| == Min(i, order)
  {
    bits[i - Min(i, order)..i]
  }

  function Slot(bits: seq<bool>, order: nat, i: nat): nat
    requires i < |bits|
  {
    SlotOf(History(bits, order, i))
  }

  lemma SlotRange(h: seq<bool>)
    requires |h| <= 4
    ensures SlotOf(h) < SLOTS
  {
    ToFromBits(h);
    Pow2Eight();
    Pow2Monotone(|h|, 4);
  }

  lemma SlotBelow(bits: seq<bool>, order: nat, i: nat)
    requires i < |bits| && order <= 4
    ensures Slot(bits, order, i) < SLOTS
  {
    hide SlotOf;
    SlotRange(History(bits, order, i));
  }

  lemma SlotInjective(g: seq<bool>, h: seq<bool>)
    requires SlotOf(g) == SlotOf(h)
    ensures g == h
  {
    ToFromBits(g);
    ToFromBits(h);
    if |g| < |h| {
      Pow2Monotone(|g| + 1, |h|);
    } else if |h| < |g| {
      Pow2Monotone(|h| + 1, |g|);
    }
  }

  // The bits that were coded in one slot, in order.
  function InSlot(bits: seq<bool>, order: nat, slot: nat, n: nat): (s: seq<bool>)
    requires n <= |bits|
    ensures |s| <= n
  {
    if n == 0 then []
    else if Slot(bits, order, n - 1) == slot then InSlot(bits, order, slot, n - 1) + [bits[n - 1]]
    else InSlot(bits, order, slot, n - 1)
  }

  // Cost of the first n bits, each coded from what its own slot has seen.
  function OrderCost(bits: seq<bool>, order: nat, n: nat): (c: Cost)
    requires n <= |bits|
    ensures c.total <= UINT64_MAX
  {
    if n == 0 then Cost(0, false)
    else
      var seen := InSlot(bits, order, Slot(bits, order, n - 1), n - 1);
      AddCost(OrderCost(bits, order, n - 1), Term(|seen|, Count(seen, bits[n - 1])))
  }

  // The recursion unfolded at every length.
  lemma OrderCostSteps(bits: seq<bool>, order: nat)
    ensures OrderCost(bits, order, 0) == Cost(0, false)
    ensures forall i: nat :: i < |bits| ==>
              var seen := InSlot(bits, order, Slot(bits, order, i), i);
              OrderCost(bits, order, i + 1) == AddCost(OrderCost(bits, order, i), Term(|seen|, Count(seen, bits[i])))
  {
    hide Slot, Count, Term, AddCost, InSlot;
  }

  // The closed form summed over the first k slots.
  function SlotSum(bits: seq<bool>, order: nat, n: nat, k: nat): int
    requires n <= |bits|
  {
    if k == 0 then 0
    else
      var s := InSlot(bits, order, k - 1, n);
      SlotSum(bits, order, n, k - 1) + Closed(Count(s, false), Count(s, true))
  }

  lemma CountAppend(bits: seq<bool>, bit: bool, x: bool)
    ensures Count(bits + [bit], x) == Count(bits, x) + (if bit == x then 1 else 0)
  {
    assert (bits + [bit])[..|bits|] == bits;
  }

  // Coding one more bit in a slot adds its term to that slot's closed form.
  lemma SlotStep(seen: seq<bool>, bit: bool)
    requires 2 * (|seen| + 1) < WORD
    ensures Closed(Count(seen + [bit], false), Count(seen + [bit], true)) ==
            Closed(Count(seen, false), Count(seen, true)) + Term(|seen|, Count(seen, bit))
  {
    hide Closed, Term, Count;
    CountTotal(seen);
    CountAppend(seen, bit, false);
    CountAppend(seen, bit, true);
    var zeros, ones := Count(seen, false), Count(seen, true);
    if bit {
      assert Count(seen + [bit], false) == zeros && Count(seen + [bit], true) == ones + 1;
      ClosedStep(zeros, ones, true);
    } else {
      assert Count(seen + [bit], false) == zeros + 1 && Count(seen + [bit], true) == ones;
      ClosedStep(zeros, ones, false);
    }
  }

  lemma {:induction false} SlotSumStep(bits: seq<bool>, order: nat, n: nat, k: nat)
    requires n < |bits| && 2 * |bits| < WORD
    ensures var slot := Slot(bits, order, n);
            var seen := InSlot(bits, order, slot, n);
            SlotSum(bits, order, n + 1, k) == SlotSum(bits, order, n, k) +
              (if slot < k then Term(|seen|, Count(seen, bits[n])) else 0)
  {
    hide Term, Closed, Slot, Count;
    if k > 0 {
      SlotSumStep(bits, order, n, k - 1);
      var s, t := InSlot(bits, order, k - 1, n), InSlot(bits, order, k - 1, n + 1);
      if Slot(bits, order, n) == k - 1 {
        assert t == s + [bits[n]];
        SlotStep(s, bits[n]);
      }
    }
  }

  lemma {:induction false} SlotSumNonNegative(bits: seq<bool>, order: nat, n: nat, k: nat)
    requires n <= |bits| && 2 * |bits| < WORD
    ensures SlotSum(bits, order, n, k) >= 0
  {
    hide Closed, Count, InSlot;
    if k > 0 {
      SlotSumNonNegative(bits, order, n, k - 1);
      var s := InSlot(bits, order, k - 1, n);
      CountTotal(s);
      ClosedBounds(Count(s, false), Count(s, true));
    }
  }

  // The order-k cost is the sum over contexts of the binary cost of each
  // context's final counts, whatever the interleaving.
  lemma {:induction false} OrderCostIsSlotSum(bits: seq<bool>, order: nat, n: nat)
    requires n <= |bits| && 2 * |bits| < WORD && order <= 4
    ensures SlotSum(bits, order, n, SLOTS) >= 0
    ensures OrderCost(bits, order, n) == Saturated(SlotSum(bits, order, n, SLOTS))
  {
    hide Log2Q16, Term, Closed, AddCost, SlotSum, InSlot, Count, Slot;
    SlotSumNonNegative(bits, order, n, SLOTS);
    if n == 0 {
      SlotSumEmpty(bits, order, SLOTS);
      assert Saturated(0) == Cost(0, false);
    } else {
      OrderCostIsSlotSum(bits, order, n - 1);
      SlotBelow(bits, order, n - 1);
      SlotSumStep(bits, order, n - 1, SLOTS);
      var seen := InSlot(bits, order, Slot(bits, order, n - 1), n - 1);
      AddSaturated(SlotSum(bits, order, n - 1, SLOTS), Term(|seen|, Count(seen, bits[n - 1])));
    }
  }

  lemma {:induction false} SlotSumEmpty(bits: seq<bool>, order: nat, k: nat)
    ensures SlotSum(bits, order, 0, k) == 0
  {
    hide Closed, Slot, Count;
    if k > 0 {
      SlotSumEmpty(bits, order, k - 1);
      CountTotal([]);
      ClosedEmpty();
    }
  }

  // No stream up to 2^40 bits can clamp the cost.
  lemma {:induction false} OrderCostUnclamped(bits: seq<bool>, order: nat, n: nat)
    requires n <= |bits| <= 0x100_0000_0000
    ensures OrderCost(bits, order, n).total <= 64 * ONE_Q16 * n
    ensures !OrderCost(bits, order, n).clamped
  {
    hide Log2Q16, Term, Slot, InSlot, Count;
    if n > 0 {
      OrderCostUnclamped(bits, order, n - 1);
      var seen := InSlot(bits, order, Slot(bits, order, n - 1), n - 1);
      TermExact(|seen|, Count(seen, bits[n - 1]));
    }
  }

  lemma PrequentialUnclamped(bits: seq<bool>)
    requires |bits| <= 0x100_0000_0000
    ensures !Prequential(bits).clamped && Prequential(bits).total <= 64 * ONE_Q16 * |bits|
  {
    hide Log2Q16, Term, Closed, Prequential, Count;
    PrequentialClosed(bits);
    CountTotal(bits);
    ClosedBounds(Count(bits, false), Count(bits, true));
  }

  function UsedSlots(bits: seq<bool>, order: nat): set<nat> {
    set i: nat | i < |bits| :: Slot(bits, order, i)
  }
}
