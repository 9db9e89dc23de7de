/** The convenience heuristic over the four default scorers, and its blindness
    to the polarity of the stream. */
module Score {
  import opened Bits
  import opened Bitstream
  import opened Scorer
  import opened Kt
  import opened MarkovScorers
  import opened Lz78
  import opened Lz78Reach
  import opened Lz78Scorer

  datatype ScoreResult = ScoreResult(score: nat, flags: set<Flag>, sourceBits: nat, scorers: seq<ScorerResult>)

  // The length-dependent boundary, in Q16 cost per bit.
  function Threshold(n: nat): nat
    requires n > 0
  {
    Min(49152 + (if n < 65536 then 524288 / n else 8), 72090)
  }

  function Classify(n: nat, scorers: seq<ScorerResult>): (nat, set<Flag>)
    requires |scorers| == 4
  {
    if n < SHORT_BITS then (0, {ShortSample})
    else
      var basic := Min(scorers[0].perBit, scorers[1].perBit);
      if basic < Threshold(n) then (20, {Simple})
      else if scorers[2].perBit < Threshold(n) then (72, {PeriodicStructure})
      else if LimitReached !in scorers[3].flags && scorers[3].perBit < Threshold(n) then (72, {DictionaryStructure})
      else (70, {HighUnexplained})
  }

  function Scorers(bits: seq<bool>): (s: seq<ScorerResult>)
    ensures |s| == 4
  {
    [RunsResult(bits), KtResult(bits, 1), PeriodicResult(bits, 8), Lz78Result(bits, DefaultLimit(|bits|))]
  }

  function ScoreOf(bits: seq<bool>): ScoreResult {
    var s := Scorers(bits);
    var c := Classify(|bits|, s);
    ScoreResult(c.0, c.1, |bits|, s)
  }

  method ComputeScore(stream: Bitstream) returns (result: Option<ScoreResult>)
    requires stream.Readable()
    ensures result.Some? <==> stream.Valid() && stream.bitLength <= SIZE_MAX - 7
    ensures result.Some? ==> result.value == ScoreOf(stream.Bits())
  {
    hide RunsResult, KtResult, PeriodicResult, Lz78Result;
    var ok := stream.CheckValid();
    if !ok {
      return None;
    }
    var runs := ScorerRuns(stream);
    var kt := ScorerKt(stream, 1);
    var periodic := ScorerPeriodic(stream, 8);
    var limit := if stream.bitLength < DEFAULT_LIMIT then stream.bitLength else DEFAULT_LIMIT;
    if limit == 0 {
      limit := 1;
    }
    var lz78 := ScorerLz78(stream, limit);
    var n := stream.bitLength;
    var scorers := [runs.value, kt.value, periodic.value, lz78.value];
    var r := ScoreResult(0, {}, n, scorers);
    if n < SHORT_BITS {
      return Some(r.(flags := {ShortSample}));
    }
    var threshold := 49152 + (if n < 65536 then 524288 / n else 8);
    if threshold > 72090 {
      threshold := 72090;
    }
    var basicMin := runs.value.perBit;
    if kt.value.perBit < basicMin {
      basicMin := kt.value.perBit;
    }
    if basicMin < threshold {
      return Some(r.(flags := {Simple}, score := 20));
    } else if periodic.value.perBit < threshold {
      return Some(r.(flags := {PeriodicStructure}, score := 72));
    } else if LimitReached !in lz78.value.flags && lz78.value.perBit < threshold {
      return Some(r.(flags := {DictionaryStructure}, score := 72));
    }
    return Some(r.(flags := {HighUnexplained}, score := 70));
  }

  // Up to 917553 bits the dictionary evidence covers the whole stream.
  lemma DefaultAssessesAll(bits: seq<bool>)
    requires |bits| <= DEFAULT_REACH
    ensures var lz := ScoreOf(bits).scorers[3];
            lz.assessedBits == |bits| && LimitReached !in lz.flags
  {
    hide ParseAll, RunsResult, KtResult, PeriodicResult;
    DefaultLimitSuffices(bits);
  }

  // The order-k result is the least of the context sums plus the model price,
  // at the smallest order that attains it.
  lemma KtReportsMinimum(bits: seq<bool>, maximumOrder: nat, order: nat)
    requires 0 < |bits| <= 0x100_0000_0000 && order <= maximumOrder <= MAX_ORDER
    ensures var r := KtResult(bits, maximumOrder);
            var price := CeilLog2(maximumOrder + 1) * ONE_Q16;
            && r.modelParameter <= maximumOrder
            && r.description == SlotSum(bits, r.modelParameter, |bits|, SLOTS) + price
            && r.description <= SlotSum(bits, order, |bits|, SLOTS) + price
            && (order < r.modelParameter ==> r.description < SlotSum(bits, order, |bits|, SLOTS) + price)
            && r.statistic == |UsedSlots(bits, r.modelParameter)|
  {
    hide OrderCost, SlotSum, UsedSlots, CeilLog2;
    var costs := KtCosts(bits, maximumOrder);
    var price := CeilLog2(maximumOrder + 1) * ONE_Q16;
    CeilLog2Small(maximumOrder + 1);
    forall k: nat | k <= maximumOrder
      ensures costs[k].total == SlotSum(bits, k, |bits|, SLOTS) + price
    {
      OrderCostIsSlotSum(bits, k, |bits|);
      OrderCostUnclamped(bits, k, |bits|);
    }
    KtNeverClamped(bits, maximumOrder);
    assert costs[order].total == SlotSum(bits, order, |bits|, SLOTS) + price;
    var arg := ArgMin(costs);
    assert arg.Some?;
    assert costs[arg.value].total == SlotSum(bits, arg.value, |bits|, SLOTS) + price;
  }

  // ----- complement invariance -----

  lemma {:induction false} FlipMismatches(bits: seq<bool>, lag: nat, n: nat)
    requires 1 <= lag && n <= |bits|
    ensures Mismatches(Flip(bits), lag, n) == Mismatches(bits, lag, n)
  {
    if n > lag {
      FlipMismatches(bits, lag, n - 1);
    }
  }

  // Complementing renames the contexts without merging or splitting any.
  lemma FlipSlot(bits: seq<bool>, order: nat, i: nat, j: nat)
    requires i < |bits| && j < |bits|
    ensures Slot(Flip(bits), order, i) == Slot(Flip(bits), order, j) <==> Slot(bits, order, i) == Slot(bits, order, j)
  {
    hide SlotOf;
    var g, h := History(bits, order, i), History(bits, order, j);
    assert History(Flip(bits), order, i) == Flip(g) && History(Flip(bits), order, j) == Flip(h);
    FlipTwice(g);
    FlipTwice(h);
    if SlotOf(g) == SlotOf(h) {
      SlotInjective(g, h);
    }
    if SlotOf(Flip(g)) == SlotOf(Flip(h)) {
      SlotInjective(Flip(g), Flip(h));
    }
  }

  lemma {:induction false} FlipInSlot(bits: seq<bool>, order: nat, i: nat, n: nat)
    requires i < |bits| && n <= |bits|
    ensures InSlot(Flip(bits), order, Slot(Flip(bits), order, i), n) ==
            Flip(InSlot(bits, order, Slot(bits, order, i), n))
  {
    hide Slot;
    if n > 0 {
      FlipInSlot(bits, order, i, n - 1);
      FlipSlot(bits, order, i, n - 1);
    }
  }

  lemma {:induction false} FlipOrderCost(bits: seq<bool>, order: nat, n: nat)
    requires n <= |bits|
    ensures OrderCost(Flip(bits), order, n) == OrderCost(bits, order, n)
  {
    hide Slot, Term, Count, InSlot, AddCost;
    if n > 0 {
      FlipOrderCost(bits, order, n - 1);
      FlipInSlot(bits, order, n - 1, n - 1);
      FlipCount(InSlot(bits, order, Slot(bits, order, n - 1), n - 1), bits[n - 1]);
    }
  }

  function UsedBelow(bits: seq<bool>, order: nat, n: nat): set<nat>
    requires n <= |bits|
  {
    set i: nat | i < n :: Slot(bits, order, i)
  }

  lemma {:induction false} FlipUsedBelow(bits: seq<bool>, order: nat, n: nat)
    requires n <= |bits|
    ensures |UsedBelow(Flip(bits), order, n)| == |UsedBelow(bits, order, n)|
  {
    hide Slot, UsedBelow, Flip;
    if n == 0 {
      NoneUsed(bits, order);
      NoneUsed(Flip(bits), order);
    } else {
      FlipUsedBelow(bits, order, n - 1);
      UsedStep(bits, order, n - 1);
      UsedStep(Flip(bits), order, n - 1);
      FlipReused(bits, order, n - 1);
    }
  }

  lemma NoneUsed(bits: seq<bool>, order: nat)
    ensures UsedBelow(bits, order, 0) == {}
  {
  }

  lemma UsedStep(bits: seq<bool>, order: nat, n: nat)
    requires n < |bits|
    ensures var a, x := UsedBelow(bits, order, n), Slot(bits, order, n);
            |UsedBelow(bits, order, n + 1)| == |a| + (if x in a then 0 else 1)
  {
    hide Slot;
    var a, x := UsedBelow(bits, order, n), Slot(bits, order, n);
    assert UsedBelow(bits, order, n + 1) == if x in a then a else a + {x};
  }

  // A slot is used again exactly when its counterpart is.
  lemma FlipReused(bits: seq<bool>, order: nat, n: nat)
    requires n < |bits|
    ensures Slot(bits, order, n) in UsedBelow(bits, order, n) <==>
            Slot(Flip(bits), order, n) in UsedBelow(Flip(bits), order, n)
  {
    hide Slot;
    forall i: nat | i < n
      ensures Slot(Flip(bits), order, i) == Slot(Flip(bits), order, n) <==> Slot(bits, order, i) == Slot(bits, order, n)
    {
      FlipSlot(bits, order, i, n);
    }
  }

  lemma FlipKt(bits: seq<bool>, maximumOrder: nat)
    ensures KtResult(Flip(bits), maximumOrder) == KtResult(bits, maximumOrder)
  {
    hide OrderCost, ArgMin, AnyClamped, AddCost, Slot;
    forall order: nat | order <= maximumOrder
      ensures OrderCost(Flip(bits), order, |bits|) == OrderCost(bits, order, |bits|)
    {
      FlipOrderCost(bits, order, |bits|);
    }
    assert KtCosts(Flip(bits), maximumOrder) == KtCosts(bits, maximumOrder);
    var arg := ArgMin(KtCosts(bits, maximumOrder));
    var order := if arg.Some? then arg.value else 0;
    FlipUsedBelow(bits, order, |bits|);
    assert UsedSlots(bits, order) == UsedBelow(bits, order, |bits|);
    assert UsedSlots(Flip(bits), order) == UsedBelow(Flip(bits), order, |bits|);
  }

  lemma FlipPeriodic(bits: seq<bool>, maximumPeriod: nat)
    requires maximumPeriod <= MAX_PERIOD
    ensures PeriodicResult(Flip(bits), maximumPeriod) == PeriodicResult(bits, maximumPeriod)
  {
    hide MaskCost, ArgMin, AnyClamped, Mismatches, PeriodPrice;
    var n := |bits|;
    if n != 0 && maximumPeriod != 0 {
      var maximum := Min(maximumPeriod, n - 1);
      forall lag: nat | 1 <= lag <= maximum
        ensures Mismatches(Flip(bits), lag, n) == Mismatches(bits, lag, n)
      {
        FlipMismatches(bits, lag, n);
      }
      assert PeriodCosts(Flip(bits), maximum) == PeriodCosts(bits, maximum);
    }
  }

  lemma FlipLz78(bits: seq<bool>, limit: nat)
    ensures Lz78Result(Flip(bits), limit) == Lz78Result(bits, limit)
  {
    hide ParseRest, EntryBits, Flatten;
    FlipParse(bits, [], limit);
    assert FlipAll([]) == [];
    FlipFlatten(ParseAll(bits, limit).words);
  }

  // The default report cannot tell a stream from its complement: every field
  // of every scorer, the score and the flags agree.
  lemma ComplementInvariant(bits: seq<bool>)
    ensures ScoreOf(Flip(bits)) == ScoreOf(bits)
  {
    hide KtResult, PeriodicResult, Lz78Result, MaskCost, Classify;
    FlipMismatches(bits, 1, |bits|);
    FlipKt(bits, 1);
    FlipPeriodic(bits, 8);
    FlipLz78(bits, DefaultLimit(|bits|));
  }
}
