/** The runs, order-k and periodic scorers. */
module MarkovScorers {
  import opened Bits
  import opened Bitstream
  import opened Scorer
  import opened Kt

  // ----- choosing the cheapest model -----

  // The first index of least total below UINT64_MAX, if any is below it.
  function ArgMin(costs: seq<Cost>): (arg: Option<nat>)
    ensures arg.None? ==> forall i :: 0 <= i < |costs| ==> costs[i].total >= UINT64_MAX
    ensures arg.Some? ==>
      && arg.value < |costs| && costs[arg.value].total < UINT64_MAX
      && (forall i :: 0 <= i < |costs| ==> costs[arg.value].total <= costs[i].total)
      && (forall i :: 0 <= i < arg.value ==> costs[arg.value].total < costs[i].total)
  {
    if costs == [] then None
    else
      var last := |costs| - 1;
      var before := ArgMin(costs[..last]);
      var best := BestTotal(costs[..last], before);
      if costs[last].total < best then Some(last) else before
  }

  function BestTotal(costs: seq<Cost>, arg: Option<nat>): nat
    requires arg.Some? ==> arg.value < |costs|
  {
    if arg.Some? then costs[arg.value].total else UINT64_MAX
  }

  predicate AnyClamped(costs: seq<Cost>) {
    exists i :: 0 <= i < |costs| && costs[i].clamped
  }

  // ----- mismatches at a lag -----

  // Positions below n that differ from the bit `lag` places before.
  function Mismatches(bits: seq<bool>, lag: nat, n: nat): (m: nat)
    requires 1 <= lag && n <= |bits|
    ensures m <= if n <= lag then 0 else n - lag
  {
    if n <= lag then 0
    else Mismatches(bits, lag, n - 1) + (if bits[n - 1] != bits[n - 1 - lag] then 1 else 0)
  }

  // A KT-coded mask of `ones` mismatches in `trials`, on top of a fixed price.
  function MaskCost(price: nat, trials: nat, ones: nat): (c: Cost)
    requires price <= UINT64_MAX && ones <= trials
    ensures c.total <= UINT64_MAX
  {
    var k := Prequential(Split(trials - ones, ones));
    AddCost(Cost(price, k.clamped), k.total)
  }

  // In closed form: the price plus a function of the two counts alone.
  lemma MaskCostClosed(price: nat, trials: nat, ones: nat)
    requires price <= UINT64_MAX && ones <= trials && 2 * trials < WORD
    ensures Closed(trials - ones, ones) >= 0
    ensures MaskCost(price, trials, ones) == Saturated(price + Closed(trials - ones, ones))
  {
    hide Prequential, Closed, Count;
    SplitCounts(trials - ones, ones);
    PrequentialClosed(Split(trials - ones, ones));
  }

  lemma MaskCostUnclamped(price: nat, trials: nat, ones: nat)
    requires price <= 256 * ONE_Q16 && ones <= trials <= 0x100_0000_0000
    ensures !MaskCost(price, trials, ones).clamped
    ensures MaskCost(price, trials, ones).total <= 64 * ONE_Q16 * (trials + 4)
  {
    hide Prequential;
    PrequentialUnclamped(Split(trials - ones, ones));
  }

  method CountMismatches(stream: Bitstream, lag: nat) returns (m: nat)
    requires stream.Valid() && 1 <= lag
    ensures m == Mismatches(stream.Bits(), lag, stream.bitLength)
  {
    m := 0;
    ghost var bits := stream.Bits();
    var i := lag;
    while i < stream.bitLength
      invariant lag <= i
      invariant i <= stream.bitLength || i == lag
      invariant m == Mismatches(bits, lag, if i <= stream.bitLength then i else 0)
    {
      if stream.Bit(i) != stream.Bit(i - lag) {
        m := m + 1;
      }
      i := i + 1;
    }
  }

  // ----- runs -----

  function RunsResult(bits: seq<bool>): ScorerResult {
    var n := |bits|;
    var transitions := Mismatches(bits, 1, n);
    var c := if n == 0 then Cost(0, false)
             else if n == 1 then Cost(ONE_Q16, false)
             else MaskCost(ONE_Q16, n - 1, transitions);
    Finish(ScorerResult(Runs, n, n, c.total, 0, transitions, 0, ClampFlag(c)))
  }

  method ScorerRuns(stream: Bitstream) returns (result: Option<ScorerResult>)
    requires stream.Readable()
    ensures result.Some? <==> stream.Valid() && stream.bitLength <= SIZE_MAX - 7
    ensures result.Some? ==> result.value == RunsResult(stream.Bits())
  {
    hide Prequential, Finish, AddCost;
    var ok := stream.CheckValid();
    if !ok {
      return None;
    }
    var n := stream.bitLength;
    var transitions := CountMismatches(stream, 1);
    var c := Cost(0, false);
    if n != 0 {
      c := Cost(ONE_Q16, false);
      if n > 1 {
        var k := BinaryCost(n - 1 - transitions, transitions);
        c := AddCost(Cost(c.total, k.clamped), k.total);
      }
    }
    return Some(Finish(ScorerResult(Runs, n, n, c.total, 0, transitions, 0, ClampFlag(c))));
  }

  // ----- order-k -----

  const MAX_ORDER: nat := 4

  function KtCosts(bits: seq<bool>, maximumOrder: nat): (costs: seq<Cost>)
    ensures |costs| == maximumOrder + 1
  {
    var price := CeilLog2(maximumOrder + 1) * ONE_Q16;
    seq(maximumOrder + 1, order requires 0 <= order => AddCost(OrderCost(bits, order, |bits|), price))
  }

  function KtResult(bits: seq<bool>, maximumOrder: nat): ScorerResult {
    var n, costs := |bits|, KtCosts(bits, maximumOrder);
    var arg := ArgMin(costs);
    var order := if arg.Some? then arg.value else 0;
    Finish(ScorerResult(Kt, n, n, if n == 0 then 0 else BestTotal(costs, arg), 0,
                        if arg.Some? then |UsedSlots(bits, order)| else 0, order,
                        if AnyClamped(costs) then {ArithmeticClamped} else {}))
  }

  lemma {:induction false} InSlotNonempty(bits: seq<bool>, order: nat, slot: nat, n: nat)
    requires n <= |bits|
    ensures InSlot(bits, order, slot, n) != [] <==> exists i: nat :: i < n && Slot(bits, order, i) == slot
  {
    hide Slot;
    if n > 0 {
      InSlotNonempty(bits, order, slot, n - 1);
    }
  }

  lemma UsedSlotsMember(bits: seq<bool>, order: nat, slot: nat)
    ensures slot in UsedSlots(bits, order) <==>
      Count(InSlot(bits, order, slot, |bits|), false) + Count(InSlot(bits, order, slot, |bits|), true) > 0
  {
    hide Slot, Count;
    InSlotNonempty(bits, order, slot, |bits|);
    CountTotal(InSlot(bits, order, slot, |bits|));
  }

  method ContextSlot(stream: Bitstream, order: nat, i: nat) returns (context: nat)
    requires stream.Valid() && i < stream.bitLength && order <= MAX_ORDER
    ensures context == Slot(stream.Bits(), order, i) < SLOTS
  {
    hide SlotOf, FromBits;
    ghost var bits := stream.Bits();
    var available := if i < order then i else order;
    ghost var start := i - available;
    assert bits[start..i] == History(bits, order, i);
    EmptyContext(bits[start..start]);
    context := 0;
    var j := available;
    while j > 0
      invariant 0 <= j <= available
      invariant context == FromBits(bits[start..i - j])
    {
      FromBitsStep(bits, start, i - j);
      context := 2 * context + (if stream.Bit(i - j) then 1 else 0);
      j := j - 1;
    }
    context := context + Pow2(available) - 1;
    SlotOfDef(History(bits, order, i));
    SlotRange(History(bits, order, i));
  }

  lemma EmptyContext(h: seq<bool>)
    requires h == []
    ensures FromBits(h) == 0
  {
  }

  lemma FromBitsStep(bits: seq<bool>, a: nat, b: nat)
    requires a <= b < |bits|
    ensures FromBits(bits[a..b + 1]) == 2 * FromBits(bits[a..b]) + (if bits[b] then 1 else 0)
  {
    var s := bits[a..b + 1];
    assert s[..|s| - 1] == bits[a..b];
  }

  lemma SlotOfDef(h: seq<bool>)
    ensures SlotOf(h) == FromBits(h) + Pow2(|h|) - 1
  {
  }

  ghost predicate Tallied(counts: array2<nat>, bits: seq<bool>, order: nat, n: nat)
    requires n <= |bits|
    reads counts
  {
    && counts.Length0 == SLOTS && counts.Length1 == 2
    && forall slot: nat {:trigger counts[slot, 0]} {:trigger counts[slot, 1]} :: slot < SLOTS ==>
         && counts[slot, 0] == Count(InSlot(bits, order, slot, n), false)
         && counts[slot, 1] == Count(InSlot(bits, order, slot, n), true)
  }

  lemma NothingTallied(counts: array2<nat>, bits: seq<bool>, order: nat)
    requires counts.Length0 == SLOTS && counts.Length1 == 2
    requires forall i, j :: 0 <= i < SLOTS && 0 <= j < 2 ==> counts[i, j] == 0
    ensures Tallied(counts, bits, order, 0)
  {
    CountTotal([]);
  }

  lemma TalliedAt(counts: array2<nat>, bits: seq<bool>, order: nat, n: nat, slot: nat)
    requires n <= |bits| && Tallied(counts, bits, order, n) && slot < SLOTS
    ensures counts.Length0 == SLOTS && counts.Length1 == 2
    ensures var seen := InSlot(bits, order, slot, n);
            && counts[slot, 0] == Count(seen, false) && counts[slot, 1] == Count(seen, true)
            && counts[slot, 0] + counts[slot, 1] == |seen|
  {
    hide Count, InSlot;
    CountTotal(InSlot(bits, order, slot, n));
  }

  method Tally(counts: array2<nat>, context: nat, bit: bool, ghost bits: seq<bool>, order: nat, ghost n: nat)
    requires n < |bits| && Tallied(counts, bits, order, n)
    requires context == Slot(bits, order, n) < SLOTS && bit == bits[n]
    modifies counts
    ensures Tallied(counts, bits, order, n + 1)
  {
    hide Slot, Count;
    var column := if bit then 1 else 0;
    counts[context, column] := counts[context, column] + 1;
    forall slot: nat | slot < SLOTS
      ensures counts[slot, 0] == Count(InSlot(bits, order, slot, n + 1), false)
      ensures counts[slot, 1] == Count(InSlot(bits, order, slot, n + 1), true)
    {
      var s := InSlot(bits, order, slot, n);
      CountAppend(s, bit, false);
      CountAppend(s, bit, true);
    }
  }

  method ComputeOrderCost(stream: Bitstream, order: nat) returns (cost: Cost, used: nat)
    requires stream.Valid() && order <= MAX_ORDER
    ensures cost == OrderCost(stream.Bits(), order, stream.bitLength)
    ensures used == |UsedSlots(stream.Bits(), order)|
  {
    hide Slot, Count, Term, AddCost, OrderCost, InSlot, Tallied, UsedSlots, Packed, Unpack;
    ghost var bits := stream.Bits();
    var counts := new nat[SLOTS, 2]((_, _) => 0);
    cost := Cost(0, false);
    var i := 0;
    NothingTallied(counts, bits, order);
    OrderCostSteps(bits, order);
    while i < stream.bitLength
      invariant i <= stream.bitLength && stream.Valid() && stream.Bits() == bits
      invariant cost == OrderCost(bits, order, i)
      invariant Tallied(counts, bits, order, i)
    {
      var context := ContextSlot(stream, order, i);
      var bit := stream.Bit(i);
      TalliedAt(counts, bits, order, i, context);
      var zero, one := counts[context, 0], counts[context, 1];
      var t := ComputeTerm(zero + one, if bit then one else zero);
      cost := AddCost(cost, t);
      Tally(counts, context, bit, bits, order, i);
      i := i + 1;
    }
    used := CountUsed(counts, bits, order);
  }

  method CountUsed(counts: array2<nat>, ghost bits: seq<bool>, ghost order: nat) returns (used: nat)
    requires Tallied(counts, bits, order, |bits|) && order <= MAX_ORDER
    ensures used == |UsedSlots(bits, order)|
  {
    hide Slot, Count;
    ghost var all := UsedSlots(bits, order);
    used := 0;
    var i := 0;
    ghost var low: set<nat> := {};
    while i < SLOTS
      invariant i <= SLOTS && used == |low|
      invariant low == set s: nat | s in all && s < i
    {
      UsedSlotsMember(bits, order, i);
      assert counts[i, 0] == Count(InSlot(bits, order, i, |bits|), false);
      if counts[i, 0] != 0 || counts[i, 1] != 0 {
        used := used + 1;
        low := low + {i};
      }
      i := i + 1;
    }
    UsedSlotsRange(bits, order);
    assert low == all;
  }

  lemma UsedSlotsRange(bits: seq<bool>, order: nat)
    requires order <= MAX_ORDER
    ensures forall s :: s in UsedSlots(bits, order) ==> s < SLOTS
  {
    hide SlotOf;
    forall i: nat | i < |bits|
      ensures Slot(bits, order, i) < SLOTS
    {
      SlotRange(History(bits, order, i));
    }
  }

  method ScorerKt(stream: Bitstream, maximumOrder: nat) returns (result: Option<ScorerResult>)
    requires stream.Readable()
    ensures result.Some? <==> stream.Valid() && stream.bitLength <= SIZE_MAX - 7 && maximumOrder <= MAX_ORDER
    ensures result.Some? ==> result.value == KtResult(stream.Bits(), maximumOrder)
  {
    hide OrderCost, UsedSlots, Finish, AddCost, ArgMin, AnyClamped, BestTotal, Packed, Unpack;
    var ok := stream.CheckValid();
    if !ok || maximumOrder > MAX_ORDER {
      return None;
    }
    var n := stream.bitLength;
    ghost var bits := stream.Bits();
    ghost var costs := KtCosts(bits, maximumOrder);
    var width := ComputeCeilLog2(maximumOrder + 1);
    var price := width * ONE_Q16;
    NoModel(costs);
    var best, bestOrder, bestContexts, clamped := UINT64_MAX, 0, 0, false;
    var order := 0;
    while order <= maximumOrder
      invariant order <= maximumOrder + 1 && stream.Valid() && stream.Bits() == bits
      invariant best == BestTotal(costs[..order], ArgMin(costs[..order]))
      invariant clamped == AnyClamped(costs[..order])
      invariant var arg := ArgMin(costs[..order]);
        bestOrder == (if arg.Some? then arg.value else 0) &&
        bestContexts == (if arg.Some? then |UsedSlots(bits, bestOrder)| else 0)
    {
      var cost, contexts := ComputeOrderCost(stream, order);
      cost := AddCost(cost, price);
      assert cost == costs[order];
      clamped := clamped || cost.clamped;
      if cost.total < best {
        best, bestOrder, bestContexts := cost.total, order, contexts;
      }
      ArgMinStep(costs, order);
      order := order + 1;
    }
    assert costs[..maximumOrder + 1] == costs;
    return Some(Finish(ScorerResult(Kt, n, n, if n != 0 then best else 0, 0, bestContexts, bestOrder,
                                    if clamped then {ArithmeticClamped} else {})));
  }

  lemma NoModel(costs: seq<Cost>)
    ensures ArgMin(costs[..0]) == None && !AnyClamped(costs[..0])
    ensures BestTotal(costs[..0], None) == UINT64_MAX
  {
  }

  // Trying one more model keeps the cheapest so far and the earliest on ties.
  lemma ArgMinStep(costs: seq<Cost>, k: nat)
    requires k < |costs|
    ensures var before, after := ArgMin(costs[..k]), ArgMin(costs[..k + 1]);
            var best := BestTotal(costs[..k], before);
            after == (if costs[k].total < best then Some(k) else before) &&
            BestTotal(costs[..k + 1], after) == Min(costs[k].total, best)
    ensures AnyClamped(costs[..k + 1]) <==> AnyClamped(costs[..k]) || costs[k].clamped
  {
    hide AnyClamped;
    AnyClampedStep(costs, k);
    assert costs[..k + 1][..k] == costs[..k];
  }

  lemma AnyClampedStep(costs: seq<Cost>, k: nat)
    requires k < |costs|
    ensures AnyClamped(costs[..k + 1]) <==> AnyClamped(costs[..k]) || costs[k].clamped
  {
    var a, b := costs[..k], costs[..k + 1];
    if AnyClamped(a) {
      var i :| 0 <= i < |a| && a[i].clamped;
      assert b[i].clamped;
    }
    if costs[k].clamped {
      assert b[k].clamped;
    }
    if AnyClamped(b) && !costs[k].clamped {
      var i :| 0 <= i < |b| && b[i].clamped;
      assert a[i].clamped;
    }
  }

  // ----- periodic -----

  const MAX_PERIOD: nat := 64

  // The price of naming one of `maximum` periods and its seed bits.
  function PeriodPrice(period: nat, maximum: nat): (price: nat)
    requires period <= maximum <= MAX_PERIOD
    ensures price <= 256 * ONE_Q16
  {
    CeilLog2Small(maximum + 1);
    (period + CeilLog2(maximum + 1)) * ONE_Q16
  }

  // Entry p - 1 is the price of period p plus its KT-coded residual.
  function PeriodCosts(bits: seq<bool>, maximum: nat): (costs: seq<Cost>)
    requires maximum < |bits| && maximum <= MAX_PERIOD
    ensures |costs| == maximum
  {
    seq(maximum, i requires 0 <= i < maximum =>
      MaskCost(PeriodPrice(i + 1, maximum), |bits| - (i + 1), Mismatches(bits, i + 1, |bits|)))
  }

  lemma CeilLog2Small(value: nat)
    requires value <= MAX_PERIOD + 1
    ensures CeilLog2(value) <= 7
  {
    Pow2Eight();
    if CeilLog2(value) > 7 {
      Pow2Monotone(7, CeilLog2(value) - 1);
    }
  }

  function PeriodicResult(bits: seq<bool>, maximumPeriod: nat): ScorerResult
    requires maximumPeriod <= MAX_PERIOD
  {
    var n := |bits|;
    if n == 0 || maximumPeriod == 0 then
      Finish(ScorerResult(Periodic, n, n, 0, 0, 0, 0, {ShortSample}))
    else
      var costs := PeriodCosts(bits, Min(maximumPeriod, n - 1));
      var arg := ArgMin(costs);
      var period := if arg.Some? then arg.value + 1 else 0;
      Finish(ScorerResult(Periodic, n, n, BestTotal(costs, arg), 0,
                          if arg.Some? then Mismatches(bits, period, n) else 0, period,
                          if AnyClamped(costs) then {ArithmeticClamped} else {}))
  }

  method ComputePeriodCost(stream: Bitstream, period: nat, maximum: nat) returns (cost: Cost, errors: nat)
    requires stream.Valid() && stream.bitLength <= SIZE_MAX
    requires 1 <= period <= maximum <= MAX_PERIOD && maximum < stream.bitLength
    ensures errors == Mismatches(stream.Bits(), period, stream.bitLength)
    ensures cost == PeriodCosts(stream.Bits(), maximum)[period - 1]
  {
    hide Prequential, CeilLog2, AddCost, Mismatches;
    errors := CountMismatches(stream, period);
    var trials := stream.bitLength - period;
    var width := ComputeCeilLog2(maximum + 1);
    var k := BinaryCost(trials - errors, errors);
    ghost var price := PeriodPrice(period, maximum);
    cost := AddCost(Cost((period + width) * ONE_Q16, k.clamped), k.total);
  }

  // The earliest cheapest period among 1..maximum, if any has a finite cost.
  method BestPeriod(stream: Bitstream, maximum: nat) returns (best: nat, period: nat, errors: nat, clamped: bool)
    requires stream.Valid() && stream.bitLength <= SIZE_MAX && maximum < stream.bitLength && maximum <= MAX_PERIOD
    ensures var costs := PeriodCosts(stream.Bits(), maximum);
            var arg := ArgMin(costs);
            && best == BestTotal(costs, arg) && clamped == AnyClamped(costs)
            && period == (if arg.Some? then arg.value + 1 else 0)
            && errors == (if arg.Some? then Mismatches(stream.Bits(), period, stream.bitLength) else 0)
  {
    hide PeriodPrice, MaskCost, PeriodCosts, Mismatches, ArgMin, AnyClamped, BestTotal;
    ghost var bits := stream.Bits();
    ghost var costs := PeriodCosts(bits, maximum);
    NoModel(costs);
    best, period, errors, clamped := UINT64_MAX, 0, 0, false;
    var p := 1;
    while p <= maximum
      invariant 1 <= p <= maximum + 1
      invariant best == BestTotal(costs[..p - 1], ArgMin(costs[..p - 1]))
      invariant clamped == AnyClamped(costs[..p - 1])
      invariant var arg := ArgMin(costs[..p - 1]);
        period == (if arg.Some? then arg.value + 1 else 0) &&
        errors == (if arg.Some? then Mismatches(bits, period, |bits|) else 0)
    {
      var cost, mismatches := ComputePeriodCost(stream, p, maximum);
      clamped := clamped || cost.clamped;
      if cost.total < best {
        best, period, errors := cost.total, p, mismatches;
      }
      ArgMinStep(costs, p - 1);
      p := p + 1;
    }
    assert costs[..maximum] == costs;
  }

  method ScorerPeriodic(stream: Bitstream, maximumPeriod: nat) returns (result: Option<ScorerResult>)
    requires stream.Readable()
    ensures result.Some? <==> stream.Valid() && stream.bitLength <= SIZE_MAX - 7 && maximumPeriod <= MAX_PERIOD
    ensures result.Some? ==> result.value == PeriodicResult(stream.Bits(), maximumPeriod)
  {
    hide PeriodPrice, MaskCost, Finish, PeriodCosts, Mismatches, ArgMin, AnyClamped, BestTotal;
    var ok := stream.CheckValid();
    if !ok || maximumPeriod > MAX_PERIOD {
      return None;
    }
    var n := stream.bitLength;
    if n == 0 || maximumPeriod == 0 {
      return Some(Finish(ScorerResult(Periodic, n, n, 0, 0, 0, 0, {ShortSample})));
    }
    var best, period, errors, clamped := BestPeriod(stream, if maximumPeriod >= n then n - 1 else maximumPeriod);
    return Some(Finish(ScorerResult(Periodic, n, n, best, 0, errors, period,
                                    if clamped then {ArithmeticClamped} else {})));
  }

  // ----- finiteness -----

  // Streams up to 2^40 bits never clamp these three scorers, and two bits are
  // enough for every one of them to report a finite cost.
  lemma NeverClamped(bits: seq<bool>, maximumOrder: nat, maximumPeriod: nat)
    requires |bits| <= 0x100_0000_0000 && maximumOrder <= MAX_ORDER && maximumPeriod <= MAX_PERIOD
    ensures ArithmeticClamped !in RunsResult(bits).flags && RunsResult(bits).description < UINT64_MAX
    ensures ArithmeticClamped !in KtResult(bits, maximumOrder).flags
    ensures KtResult(bits, maximumOrder).description < UINT64_MAX
    ensures ArithmeticClamped !in PeriodicResult(bits, maximumPeriod).flags
    ensures PeriodicResult(bits, maximumPeriod).description == UINT64_MAX <==> |bits| == 1 && maximumPeriod > 0
  {
    RunsNeverClamped(bits);
    KtNeverClamped(bits, maximumOrder);
    PeriodicNeverClamped(bits, maximumPeriod);
  }

  lemma RunsNeverClamped(bits: seq<bool>)
    requires |bits| <= 0x100_0000_0000
    ensures ArithmeticClamped !in RunsResult(bits).flags && RunsResult(bits).description < UINT64_MAX
  {
    hide MaskCost;
    if |bits| > 1 {
      MaskCostUnclamped(ONE_Q16, |bits| - 1, Mismatches(bits, 1, |bits|));
    }
  }

  lemma KtNeverClamped(bits: seq<bool>, maximumOrder: nat)
    requires |bits| <= 0x100_0000_0000 && maximumOrder <= MAX_ORDER
    ensures ArithmeticClamped !in KtResult(bits, maximumOrder).flags
    ensures KtResult(bits, maximumOrder).description < UINT64_MAX
  {
    hide OrderCost, UsedSlots, ArgMin;
    var costs := KtCosts(bits, maximumOrder);
    CeilLog2Small(maximumOrder + 1);
    forall order: nat | order <= maximumOrder
      ensures !costs[order].clamped && costs[order].total < UINT64_MAX
    {
      OrderCostUnclamped(bits, order, |bits|);
    }
    assert costs[0].total < UINT64_MAX;
  }

  lemma PeriodicNeverClamped(bits: seq<bool>, maximumPeriod: nat)
    requires |bits| <= 0x100_0000_0000 && maximumPeriod <= MAX_PERIOD
    ensures ArithmeticClamped !in PeriodicResult(bits, maximumPeriod).flags
    ensures PeriodicResult(bits, maximumPeriod).description == UINT64_MAX <==> |bits| == 1 && maximumPeriod > 0
  {
    hide MaskCost, ArgMin, PeriodPrice, Mismatches;
    var n := |bits|;
    if n != 0 && maximumPeriod != 0 {
      var maximum := Min(maximumPeriod, n - 1);
      var costs := PeriodCosts(bits, maximum);
      forall i: nat | i < maximum
        ensures !costs[i].clamped && costs[i].total < UINT64_MAX
      {
        MaskCostUnclamped(PeriodPrice(i + 1, maximum), n - (i + 1), Mismatches(bits, i + 1, n));
      }
      if n > 1 {
        assert costs[0].total < UINT64_MAX;
      }
    }
  }
}
