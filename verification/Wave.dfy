/** The square wave 0011 0011 ...: the digit 3 over and over, which the scorers
    call periodic. */
module Wave {
  import opened Bits
  import opened Scorer
  import opened Log2
  import opened Kt
  import opened MarkovScorers
  import opened Score

  predicate High(i: nat) {
    i % 4 >= 2
  }

  function Square(n: nat): (s: seq<bool>)
    ensures |s| == n
  {
    seq(n, i requires 0 <= i => High(i))
  }

  // ----- runs and periods -----

  lemma {:induction false} WaveMismatches(n: nat, k: nat)
    requires k <= n
    ensures Mismatches(Square(n), 1, k) == (if k == 0 then 0 else (k - 1) / 2) && Mismatches(Square(n), 4, k) == 0
  {
    hide Mismatches, Square, High;
    NoMismatches(n);
    if k > 0 {
      WaveMismatches(n, k - 1);
      MismatchAt(n, 1, k);
      MismatchAt(n, 4, k);
      HighStep(k);
    }
  }

  lemma NoMismatches(n: nat)
    ensures Mismatches(Square(n), 1, 0) == 0 && Mismatches(Square(n), 4, 0) == 0
  {
  }

  lemma MismatchAt(n: nat, lag: nat, k: nat)
    requires 0 < lag && 0 < k <= n
    ensures Mismatches(Square(n), lag, k) == if k <= lag then 0 else
            Mismatches(Square(n), lag, k - 1) + (if High(k - 1) != High(k - 1 - lag) then 1 else 0)
    ensures k <= lag ==> Mismatches(Square(n), lag, k - 1) == 0
  {
    hide High;
  }

  lemma HighStep(k: nat)
    ensures k > 1 ==> (High(k - 1) != High(k - 2) <==> k % 2 == 1)
    ensures k > 4 ==> High(k - 1) == High(k - 5)
    ensures k > 1 ==> (k - 1) / 2 == (k - 2) / 2 + (if k % 2 == 1 then 1 else 0)
  {
    if k > 1 {
      StepBack(k - 1);
      HalfOfQuarter(k - 1);
    }
    if k > 4 {
      FourBack(k - 1);
    }
  }

  lemma StepBack(i: nat)
    requires i > 0
    ensures (i - 1) % 4 == if i % 4 == 0 then 3 else i % 4 - 1
  {
  }

  lemma HalfOfQuarter(i: nat)
    ensures i % 4 % 2 == 1 <==> (i + 1) % 2 == 0
  {
    var q := i / 4;
    assert i == 4 * q + i % 4;
    Halves(2 * q);
    Halves(2 * q + 1);
    Halves(2 * q + 2);
  }

  lemma Halves(m: nat)
    ensures 2 * m % 2 == 0 && (2 * m + 1) % 2 == 1
  {
  }

  lemma FourBack(i: nat)
    requires i >= 4
    ensures i % 4 == (i - 4) % 4
  {
  }

  lemma WholeBits(total: nat, n: nat)
    requires n > 0 && total >= n * ONE_Q16
    ensures total / n >= ONE_Q16
  {
    var q := total / n;
    assert total == n * q + total % n;
    Larger(n, q, ONE_Q16 - 1);
  }

  lemma Larger(n: nat, q: nat, c: nat)
    ensures q <= c ==> n * q <= n * c
  {
  }

  // Half of the neighbours differ, so coding the changes saves nothing.
  lemma RunsDear(n: nat)
    requires 64 <= n <= 256 && n % 4 == 0
    ensures RunsResult(Square(n)).perBit >= ONE_Q16
  {
    hide Square, RunsResult;
    WaveMismatches(n, n);
    HalfChangesDear(Square(n), n / 2 - 1);
  }

  lemma HalfChangesDear(bits: seq<bool>, m: nat)
    requires 64 <= |bits| <= 256 && |bits| == 2 * m + 2 && Mismatches(bits, 1, |bits|) == m
    ensures RunsResult(bits).perBit >= ONE_Q16
  {
    hide MaskCost, Mismatches;
    MaskDear(m, ONE_Q16, |bits| - 1, m);
    WholeBits(MaskCost(ONE_Q16, |bits| - 1, m).total, |bits|);
  }

  // A mask whose two counts differ by one costs a bit per trial.
  lemma MaskDear(m: nat, price: nat, trials: nat, ones: nat)
    requires price <= UINT64_MAX && trials == 2 * m + 1 && ones == m && 2 * trials < WORD
    ensures MaskCost(price, trials, ones).total >= Min(price + trials * ONE_Q16, UINT64_MAX)
  {
    hide Closed, MaskCost;
    MaskCostClosed(price, trials, ones);
    ClosedSymmetric(m + 1, m);
    ClosedBalanced(m);
  }

  lemma PeriodicCheap(n: nat)
    requires 64 <= n <= 256
    ensures PeriodicResult(Square(n), 8).perBit <= 17 * ONE_Q16 / 64
  {
    hide Square, PeriodicResult;
    WaveMismatches(n, n);
    ConstantCheap(Square(n));
  }

  lemma ConstantCheap(bits: seq<bool>)
    requires 64 <= |bits| <= 256 && Mismatches(bits, 4, |bits|) == 0
    ensures PeriodicResult(bits, 8).perBit <= 17 * ONE_Q16 / 64
  {
    hide Closed, MaskCost, Mismatches, Log2Q16;
    var n := |bits|;
    var price := PeriodPrice(4, 8);
    NineNames();
    MaskCostClosed(price, n - 4, 0);
    ClosedConstant(n - 4);
    Log2Monotone(2 * (n - 4), 512);
    Log2Nine();
    var costs := PeriodCosts(bits, 8);
    assert costs[3] == MaskCost(price, n - 4, 0);
    assert costs[3].total <= 17 * ONE_Q16;
    BitsShare(n);
  }

  lemma BitsShare(n: nat)
    requires n >= 64
    ensures forall total: nat :: total <= 17 * ONE_Q16 ==> total / n <= 17 * ONE_Q16 / 64
  {
    forall total: nat | total <= 17 * ONE_Q16
      ensures total / n <= 17 * ONE_Q16 / 64
    {
      Share(total, n, 17 * ONE_Q16);
    }
  }

  lemma Share(total: nat, n: nat, limit: nat)
    requires n >= 64 && total <= limit
    ensures total / n <= limit / 64
  {
    var q := total / n;
    assert total == n * q + total % n;
    Larger(q, 64, n);
  }

  lemma NineNames()
    ensures CeilLog2(9) == 4
  {
    Pow2Eight();
    CeilLog2Unique(9, 4);
  }

  lemma Log2Nine()
    ensures Log2Q16(512) == 9 * ONE_Q16
  {
    Pow2Eight();
    assert Pow2(9) == 512;
    Log2Exact(9);
  }

  // ----- the bits alone -----

  // By how much the ones of a list outnumber its zeros.
  function Lead(s: seq<bool>): int {
    Count(s, true) - Count(s, false)
  }

  lemma {:induction false} PrefixLead(n: nat, k: nat)
    requires k <= n
    ensures Lead(Square(n)[..k]) == if k % 4 == 0 then 0 else if k % 4 == 2 then -2 else -1
  {
    hide Count, High, Square, Lead;
    if k > 0 {
      PrefixLead(n, k - 1);
      LeadGrows(n, k);
      StepBack(k);
      HighIs(k - 1);
    } else {
      LeadOfNothing(Square(n)[..k]);
    }
  }

  lemma LeadOfNothing(s: seq<bool>)
    requires s == []
    ensures Lead(s) == 0
  {
  }

  lemma HighIs(i: nat)
    ensures High(i) <==> i % 4 == 2 || i % 4 == 3
  {
  }

  lemma LeadGrows(n: nat, k: nat)
    requires 0 < k <= n
    ensures Lead(Square(n)[..k]) == Lead(Square(n)[..k - 1]) + (if High(k - 1) then 1 else -1)
  {
    var s := Square(n);
    assert s[..k] == s[..k - 1] + [High(k - 1)];
    CountAppend(s[..k - 1], High(k - 1), true);
    CountAppend(s[..k - 1], High(k - 1), false);
    hide Count, High;
  }

  // With no context the cost is that of the whole list.
  lemma {:induction false} OrderZero(bits: seq<bool>, k: nat)
    requires k <= |bits|
    ensures OrderCost(bits, 0, k) == Prequential(bits[..k])
    ensures InSlot(bits, 0, 0, k) == bits[..k]
  {
    hide Term, Count, AddCost, Slot;
    if k > 0 {
      OrderZero(bits, k - 1);
      assert bits[..k][..k - 1] == bits[..k - 1] && bits[..k] == bits[..k - 1] + [bits[k - 1]];
      NoContext(bits, k - 1);
    }
  }

  lemma NoContext(bits: seq<bool>, i: nat)
    requires i < |bits|
    ensures Slot(bits, 0, i) == 0
  {
    hide SlotOf;
    EmptySlot();
    assert History(bits, 0, i) == [];
  }

  lemma OrderZeroDear(n: nat)
    requires 64 <= n <= 256 && n % 4 == 0
    ensures OrderCost(Square(n), 0, n).total >= n * ONE_Q16
  {
    hide Count, Closed, Prequential, OrderCost, InSlot, Lead, Square;
    var s := Square(n);
    assert s[..n] == s;
    OrderZero(s, n);
    PrefixLead(n, n);
    LeadIs(s);
    CountTotal(s);
    PrequentialClosed(s);
    ClosedBalanced(n / 2);
  }

  lemma LeadIs(s: seq<bool>)
    ensures Lead(s) == Count(s, true) - Count(s, false)
  {
  }

  // ----- the bit before as context -----

  lemma EmptySlot()
    ensures SlotOf([]) == 0 && SlotOf([false]) == 1 && SlotOf([true]) == 2
  {
    assert [false][..0] == [] && [true][..0] == [];
  }

  // The slot of a position depends on the bit before it only.
  lemma WaveSlot(n: nat, i: nat)
    requires i < n
    ensures Square(n)[i] == High(i)
    ensures Slot(Square(n), 1, i) == if i == 0 then 0 else if High(i - 1) then 2 else 1
  {
    EmptySlot();
    if i == 0 {
      assert History(Square(n), 1, i) == [];
    } else {
      assert History(Square(n), 1, i) == [High(i - 1)];
    }
  }

  lemma LeadStep(n: nat, slot: nat, k: nat)
    requires k < n
    ensures Lead(InSlot(Square(n), 1, slot, k + 1)) == Lead(InSlot(Square(n), 1, slot, k)) +
            (if Slot(Square(n), 1, k) != slot then 0 else if High(k) then 1 else -1)
  {
    WaveSlot(n, k);
    CountAppend(InSlot(Square(n), 1, slot, k), Square(n)[k], true);
    CountAppend(InSlot(Square(n), 1, slot, k), Square(n)[k], false);
    hide Slot, Count;
  }

  // The leads of the slots that recur, by the place in the period.
  lemma {:induction false} Leads(n: nat, k: nat)
    requires k <= n
    ensures Lead(InSlot(Square(n), 1, 1, k)) == if k % 4 == 2 then -1 else 0
    ensures Lead(InSlot(Square(n), 1, 2, k)) == if k % 4 == 0 && k > 0 then 1 else 0
    ensures k == 0 ==> InSlot(Square(n), 1, 0, k) == []
  {
    hide Slot, Lead, InSlot, Square, High;
    if k == 0 {
      NothingSeen(n);
    } else {
      Leads(n, k - 1);
      WaveSlot(n, k - 1);
      LeadStep(n, 1, k - 1);
      LeadStep(n, 2, k - 1);
      StepBack(k);
      HighIs(k - 1);
      if k > 1 {
        StepBack(k - 1);
        HighIs(k - 2);
      }
    }
  }

  lemma NothingSeen(n: nat)
    ensures forall slot :: InSlot(Square(n), 1, slot, 0) == [] && Lead(InSlot(Square(n), 1, slot, 0)) == 0
  {
  }

  // In every context the next bit is never the more frequent one.
  lemma NeverMajority(n: nat, i: nat)
    requires i < n
    ensures var seen := InSlot(Square(n), 1, Slot(Square(n), 1, i), i); 2 * Count(seen, Square(n)[i]) <= |seen|
  {
    hide InSlot, Count, Slot, Square, High;
    CountTotal(InSlot(Square(n), 1, Slot(Square(n), 1, i), i));
    WaveSlot(n, i);
    Leads(n, i);
    HighIs(i);
    if i > 0 {
      StepBack(i);
      HighIs(i - 1);
    }
  }

  lemma {:induction false} OrderOneDear(n: nat, k: nat)
    requires k <= n <= 256
    ensures OrderCost(Square(n), 1, k).total >= k * ONE_Q16
  {
    hide Slot, InSlot, Count, Term, Square;
    if k > 0 {
      OrderOneDear(n, k - 1);
      NeverMajority(n, k - 1);
      var seen := InSlot(Square(n), 1, Slot(Square(n), 1, k - 1), k - 1);
      MinorityTerm(|seen|, Count(seen, Square(n)[k - 1]));
    }
  }

  lemma KtDear(n: nat)
    requires 64 <= n <= 256 && n % 4 == 0
    ensures KtResult(Square(n), 1).perBit >= ONE_Q16
  {
    hide Square, KtResult, OrderCost;
    OrderZeroDear(n);
    OrderOneDear(n, n);
    OrdersDear(Square(n));
  }

  lemma OrdersDear(bits: seq<bool>)
    requires 64 <= |bits| <= 256
    requires OrderCost(bits, 0, |bits|).total >= |bits| * ONE_Q16
    requires OrderCost(bits, 1, |bits|).total >= |bits| * ONE_Q16
    ensures KtResult(bits, 1).perBit >= ONE_Q16
  {
    hide OrderCost, UsedSlots;
    var costs := KtCosts(bits, 1);
    assert costs[0].total >= |bits| * ONE_Q16 && costs[1].total >= |bits| * ONE_Q16;
    WholeBits(costs[0].total, |bits|);
    WholeBits(costs[1].total, |bits|);
  }

  // The scorers report the wave as periodic.
  lemma WaveIsPeriodic(n: nat)
    requires 64 <= n <= 256 && n % 4 == 0
    ensures ScoreOf(Square(n)).flags == {PeriodicStructure} && ScoreOf(Square(n)).score == 72
  {
    hide RunsResult, KtResult, PeriodicResult, Square, Classify;
    RunsDear(n);
    KtDear(n);
    PeriodicCheap(n);
    ClassifiedPeriodic(n, Scorers(Square(n)));
  }

  lemma ClassifiedPeriodic(n: nat, scorers: seq<ScorerResult>)
    requires n >= 64 && |scorers| == 4
    requires scorers[0].perBit >= ONE_Q16 && scorers[1].perBit >= ONE_Q16
    requires scorers[2].perBit <= 17 * ONE_Q16 / 64
    ensures Classify(n, scorers) == (72, {PeriodicStructure})
  {
    hide Threshold;
    ThresholdRange(n);
  }

  lemma ThresholdRange(n: nat)
    requires n >= 64
    ensures 49152 <= Threshold(n) <= 57344
  {
    Share(524288, n, 524288);
  }
}
