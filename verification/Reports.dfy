/** What the reported numbers mean, said without the scorers' own formulas. */
module Reports {
  import opened Bits
  import opened Scorer
  import opened Kt
  import opened MarkovScorers
  import opened Lz78
  import opened Lz78Scorer
  import opened Score

  const MILLION_MILLION: nat := 0x100_0000_0000  // 2^40

  predicate DiffersAt(bits: seq<bool>, lag: nat, i: nat) {
    lag <= i < |bits| && bits[i] != bits[i - lag]
  }

  // The positions below n that differ from the bit `lag` places before.
  function Differing(bits: seq<bool>, lag: nat, n: nat): set<nat>
    requires n <= |bits|
  {
    set i: nat | i < n && DiffersAt(bits, lag, i)
  }

  lemma {:induction false} MismatchesAreDiffering(bits: seq<bool>, lag: nat, n: nat)
    requires 1 <= lag && n <= |bits|
    ensures Mismatches(bits, lag, n) == |Differing(bits, lag, n)|
  {
    if n <= lag {
      assert Differing(bits, lag, n) == {};
    } else {
      MismatchesAreDiffering(bits, lag, n - 1);
      var before := Differing(bits, lag, n - 1);
      assert Differing(bits, lag, n) == if DiffersAt(bits, lag, n - 1) then before + {n - 1} else before;
    }
  }

  function ShortFlags(n: nat): set<Flag> {
    if n < 24 then {ShortSample} else {}
  }

  // One bit for the first bit, and the adaptive cost of where the bit changes.
  lemma RunsReport(bits: seq<bool>)
    requires 2 <= |bits| <= MILLION_MILLION
    ensures var n, t, r := |bits|, |Differing(bits, 1, |bits|)|, RunsResult(bits);
            && t < n && r.statistic == t && r.modelParameter == 0 && r.assessedBits == n
            && r.description == 65536 + Closed(n - 1 - t, t)
            && r.perBit == r.description / n && r.flags == ShortFlags(n)
  {
    hide MaskCost, Closed, Mismatches, Differing;
    var n := |bits|;
    MismatchesAreDiffering(bits, 1, n);
    var t := Mismatches(bits, 1, n);
    MaskCostClosed(ONE_Q16, n - 1, t);
    MaskCostUnclamped(ONE_Q16, n - 1, t);
    PerBitSmall(MaskCost(ONE_Q16, n - 1, t).total, n);
  }

  lemma PerBitSmall(total: nat, n: nat)
    requires n > 0 && total <= 64 * ONE_Q16 * (n + 3)
    ensures total / n < UINT32_MAX && (n <= MILLION_MILLION ==> total < UINT64_MAX)
  {
    var q := total / n;
    assert total == n * q + total % n;
    Larger(n, q, UINT32_MAX);
  }

  lemma Larger(n: nat, q: nat, c: nat)
    ensures q >= c ==> n * q >= n * c
  {
  }

  lemma PeriodEntry(bits: seq<bool>, p: nat, m: nat)
    requires 1 <= p <= m < |bits| <= MILLION_MILLION && m <= MAX_PERIOD
    ensures var c := PeriodCosts(bits, m)[p - 1];
            var e := |Differing(bits, p, |bits|)|;
            && !c.clamped && e <= |bits| - p && c.total <= 64 * ONE_Q16 * (|bits| + 3)
            && c.total == (p + CeilLog2(m + 1)) * 65536 + Closed(|bits| - p - e, e)
  {
    hide MaskCost, Closed, Mismatches, Differing, CeilLog2;
    MismatchesAreDiffering(bits, p, |bits|);
    var e := Mismatches(bits, p, |bits|);
    MaskCostClosed(PeriodPrice(p, m), |bits| - p, e);
    MaskCostUnclamped(PeriodPrice(p, m), |bits| - p, e);
  }

  // The reported period pays for its first bits, its name and where the stream
  // departs from it; no other pays less, and no shorter one as little.
  lemma PeriodicReportsMinimum(bits: seq<bool>, maximumPeriod: nat, q: nat)
    requires 2 <= |bits| <= MILLION_MILLION && 1 <= maximumPeriod <= MAX_PERIOD
    requires 1 <= q <= Min(maximumPeriod, |bits| - 1)
    ensures var n, r := |bits|, PeriodicResult(bits, maximumPeriod);
            var p := r.modelParameter;
            && 1 <= p <= Min(maximumPeriod, n - 1) && |Differing(bits, p, n)| <= n - p
            && r.statistic == |Differing(bits, p, n)| && r.assessedBits == n
            && r.perBit == r.description / n && r.flags == ShortFlags(n)
    ensures var n, r := |bits|, PeriodicResult(bits, maximumPeriod);
            var p, width := r.modelParameter, CeilLog2(Min(maximumPeriod, n - 1) + 1);
            r.description == (p + width) * 65536 + Closed(n - p - r.statistic, r.statistic)
    ensures |Differing(bits, q, |bits|)| <= |bits| - q
    ensures var n, r, f := |bits|, PeriodicResult(bits, maximumPeriod), |Differing(bits, q, |bits|)|;
            var rival := (q + CeilLog2(Min(maximumPeriod, n - 1) + 1)) * 65536 + Closed(n - q - f, f);
            r.description <= rival && (q < r.modelParameter ==> r.description < rival)
  {
    hide Closed, CeilLog2, Differing, PeriodCosts, Mismatches;
    var n, m := |bits|, Min(maximumPeriod, |bits| - 1);
    var costs := PeriodCosts(bits, m);
    var arg := ArgMin(costs);
    PeriodEntry(bits, q, m);
    PerBitSmall(costs[q - 1].total, n);
    forall i | 0 <= i < |costs|
      ensures !costs[i].clamped
    {
      PeriodEntry(bits, i + 1, m);
    }
    var p := arg.value + 1;
    PeriodEntry(bits, p, m);
    PerBitSmall(costs[p - 1].total, n);
    MismatchesAreDiffering(bits, p, n);
  }

  // The order-k scorer assesses the whole stream and rounds the share down.
  lemma KtReport(bits: seq<bool>, maximumOrder: nat)
    requires 0 < |bits| <= MILLION_MILLION && maximumOrder <= MAX_ORDER
    ensures var n, r := |bits|, KtResult(bits, maximumOrder);
            r.sourceBits == n && r.assessedBits == n && r.perBit == r.description / n && r.flags == ShortFlags(n)
  {
    hide OrderCost, UsedSlots, ArgMin, CeilLog2, KtCosts;
    var n, costs := |bits|, KtCosts(bits, maximumOrder);
    forall k: nat | k <= maximumOrder
      ensures !costs[k].clamped && costs[k].total <= 64 * ONE_Q16 * (n + 3)
    {
      OrderPriced(bits, maximumOrder, k);
    }
    KtNeverClamped(bits, maximumOrder);
    ArgMinPicks(costs);
    PerBitSmall(costs[ArgMin(costs).value].total, n);
  }

  lemma ArgMinPicks(costs: seq<Cost>)
    requires costs != [] && forall k :: 0 <= k < |costs| ==> costs[k].total < UINT64_MAX
    ensures ArgMin(costs).Some? && ArgMin(costs).value < |costs|
  {
  }

  lemma OrderPriced(bits: seq<bool>, maximumOrder: nat, k: nat)
    requires 0 < |bits| <= MILLION_MILLION && k <= maximumOrder <= MAX_ORDER
    ensures var c := KtCosts(bits, maximumOrder)[k]; !c.clamped && c.total <= 64 * ONE_Q16 * (|bits| + 3)
  {
    hide OrderCost, CeilLog2;
    OrderCostUnclamped(bits, k, |bits|);
    CeilLog2Small(maximumOrder + 1);
  }

  // The report is made of these four, at these parameters.
  lemma DefaultReport(bits: seq<bool>)
    ensures var n, r := |bits|, ScoreOf(bits);
            var limit := if n == 0 then 1 else if n < 65536 then n else 65536;
            && r.sourceBits == n
            && r.scorers == [RunsResult(bits), KtResult(bits, 1), PeriodicResult(bits, 8), Lz78Result(bits, limit)]
  {
    hide RunsResult, KtResult, PeriodicResult, Lz78Result;
  }

  // Phrases, entries, and the length of the code a decoder inverts.
  lemma Lz78Report(bits: Word, limit: nat)
    ensures var p, r := ParseAll(bits, limit), Lz78Result(bits, limit);
            && Dictionary(p.words) && Known(p.words, p.tail)
            && r.statistic == |p.words| + (if p.tail != [] then 1 else 0)
            && r.modelParameter == Min(|p.words|, 4294967295)
            && r.assessedBits == |Flatten(p.words)| + |p.tail|
            && r.description == Min(|FullCode(p)| * 65536, UINT64_MAX)
            && (LimitReached in r.flags <==> r.assessedBits < |bits|)
  {
    hide Decode, FullCode, Code, Dictionary, Known, Flatten, CodeBits;
    CodeIsDecodable(bits, limit);
    WholeUnlessLimited(bits, limit);
  }

  lemma WholeUnlessLimited(bits: Word, limit: nat)
    ensures var p := ParseAll(bits, limit); p.limited <==> Assessed(p) < |bits|
  {
    hide ParseRest;
    ParseSound(bits, [], limit);
    assert Flatten([]) + bits == bits;
    var p := ParseAll(bits, limit);
    assert |Flatten(p.words) + p.tail| == Assessed(p);
  }

  // ----- the class of a stream -----

  // A description shorter than three quarters of a bit per assessed bit and,
  // below 65536 bits, eight bits more spread over the stream, rounded down.
  predicate Short(r: ScorerResult, n: nat)
    requires n > 0
  {
    && r.description < UINT64_MAX
    && r.description < r.assessedBits * (49152 + (if n < 65536 then 524288 / n else 8))
  }

  predicate Finished(r: ScorerResult) {
    && r.description <= UINT64_MAX
    && r.perBit == if r.assessedBits == 0 || r.description == UINT64_MAX then UINT32_MAX
                   else Min(r.description / r.assessedBits, UINT32_MAX)
  }

  lemma ShortPerBit(r: ScorerResult, n: nat)
    requires n >= 24 && Finished(r)
    ensures Short(r, n) <==> r.perBit < Threshold(n)
  {
    BoundaryRange(n);
    if r.assessedBits > 0 && r.description < UINT64_MAX {
      QuotientBelow(r.description, r.assessedBits, Threshold(n));
    }
  }

  lemma BoundaryRange(n: nat)
    requires n >= 24
    ensures Threshold(n) == 49152 + (if n < 65536 then 524288 / n else 8) < 72090
  {
    var q := 524288 / n;
    assert 524288 == n * q + 524288 % n;
    Larger(q, n, 24);
    if n < 65536 {
      assert 24 * q <= 524288;
    }
  }

  lemma QuotientBelow(d: nat, a: nat, t: nat)
    requires a > 0
    ensures d / a < t <==> d < a * t
  {
    var q := d / a;
    assert d == a * q + d % a;
    Larger(a, q, t);
    Larger(a, t, q + 1);
  }

  lemma RunsFinished(bits: seq<bool>)
    ensures Finished(RunsResult(bits))
  {
    hide MaskCost, Mismatches;
  }

  lemma KtFinished(bits: seq<bool>, maximumOrder: nat)
    requires maximumOrder <= MAX_ORDER
    ensures Finished(KtResult(bits, maximumOrder))
  {
    hide KtCosts, UsedSlots, ArgMin;
  }

  lemma PeriodicFinished(bits: seq<bool>, maximumPeriod: nat)
    requires maximumPeriod <= MAX_PERIOD
    ensures Finished(PeriodicResult(bits, maximumPeriod))
  {
    hide PeriodCosts, Mismatches, ArgMin;
  }

  lemma Lz78Finished(bits: seq<bool>, limit: nat)
    ensures Finished(Lz78Result(bits, limit))
  {
    hide ParseAll, CodeBits;
  }

  // The one flag of a stream of 24 bits or more, and its score.
  lemma ClassExactly(bits: seq<bool>)
    requires |bits| >= 24
    ensures var n, r := |bits|, ScoreOf(bits);
            var runs, kt, periodic, lz78 := r.scorers[0], r.scorers[1], r.scorers[2], r.scorers[3];
            var simple, repeats := Short(runs, n) || Short(kt, n), Short(periodic, n);
            var dictionary := Short(lz78, n) && LimitReached !in lz78.flags;
            && (simple <==> r.flags == {Simple} && r.score == 20)
            && (!simple && repeats <==> r.flags == {PeriodicStructure} && r.score == 72)
            && (!simple && !repeats && dictionary <==> r.flags == {DictionaryStructure} && r.score == 72)
            && (!simple && !repeats && !dictionary <==> r.flags == {HighUnexplained} && r.score == 70)
  {
    hide RunsResult, KtResult, PeriodicResult, Lz78Result, Threshold, Short, Finished;
    var n, s := |bits|, Scorers(bits);
    RunsFinished(bits);
    KtFinished(bits, 1);
    PeriodicFinished(bits, 8);
    Lz78Finished(bits, DefaultLimit(n));
    ShortPerBit(s[0], n);
    ShortPerBit(s[1], n);
    ShortPerBit(s[2], n);
    ShortPerBit(s[3], n);
    OneFlag();
  }

  lemma OneFlag()
    ensures {Simple} != {PeriodicStructure} && {Simple} != {DictionaryStructure} && {Simple} != {HighUnexplained}
    ensures {PeriodicStructure} != {DictionaryStructure} && {PeriodicStructure} != {HighUnexplained}
    ensures {DictionaryStructure} != {HighUnexplained}
  {
    assert Simple in {Simple} && PeriodicStructure in {PeriodicStructure};
    assert DictionaryStructure in {DictionaryStructure};
  }

  lemma TooShortToClass(bits: seq<bool>)
    requires |bits| < 24
    ensures ScoreOf(bits).flags == {ShortSample} && ScoreOf(bits).score == 0
  {
    hide Scorers;
  }
}
