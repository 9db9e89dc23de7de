/** The repetitions of one irregular word, which the scorers call dictionary
    structure. */
module Repetition {
  import opened Bits
  import opened Scorer
  import opened Log2
  import opened Kt
  import opened MarkovScorers
  import opened Lz78
  import opened Lz78Scorer
  import opened Score
  import opened Reports
  import P = PlainText
  import W = Wave

  function Repeat(w: seq<bool>, k: nat): (s: seq<bool>)
    ensures |s| == |w| * k
  {
    if k == 0 then []
    else
      Whole(|w|, k);
      Repeat(w, k - 1) + w
  }

  lemma Whole(a: nat, k: nat)
    requires k > 0
    ensures a * k == a * (k - 1) + a
  {
  }

  lemma MoreTimes(m: nat, a: nat, b: nat)
    ensures a > b ==> m * a >= m * b + m
  {
    Larger(m, a, b + 1);
    assert m * (b + 1) == m * b + m;
  }

  lemma Remainder(x: nat, m: nat, q: nat, r: nat)
    requires x == m * q + r && r < m
    ensures x % m == r
  {
    var p := x / m;
    assert x == m * p + x % m;
    MoreTimes(m, p, q);
    MoreTimes(m, q, p);
  }

  lemma RepeatStep(w: seq<bool>, k: nat)
    requires k > 0
    ensures Repeat(w, k) == Repeat(w, k - 1) + w
    ensures |Repeat(w, k)| == |w| * k && |w| * k == |w| * (k - 1) + |w|
  {
    Whole(|w|, k);
  }

  lemma {:induction false} RepeatAt(w: seq<bool>, k: nat, i: nat)
    requires i < |w| * k
    ensures |w| > 0 && k > 0 && i % |w| < |w| && Repeat(w, k)[i] == w[i % |w|]
  {
    hide Repeat;
    NotNothing(|w|, k);
    RepeatStep(w, k);
    var before := |w| * (k - 1);
    if i < before {
      RepeatAt(w, k - 1, i);
    } else {
      Remainder(i, |w|, k - 1, i - before);
    }
  }

  lemma NotNothing(m: nat, k: nat)
    ensures m * k > 0 ==> m > 0 && k > 0
  {
  }

  lemma {:induction false} CountRepeat(v: seq<bool>, k: nat)
    ensures Count(Repeat(v, k), true) == Count(v, true) * k
  {
    hide Count, Repeat;
    if k == 0 {
      NoCopies(v);
    } else {
      CountRepeat(v, k - 1);
      RepeatStep(v, k);
      P.CountConcat(Repeat(v, k - 1), v, true);
      Whole(Count(v, true), k);
    }
  }

  lemma NoCopies(v: seq<bool>)
    ensures Repeat(v, 0) == [] && Count(Repeat(v, 0), true) == 0
  {
  }

  // ----- what repeats: changes at a lag and pairs of neighbours -----

  // The bit p places before, going round.
  function Around(w: seq<bool>, j: nat, p: nat): bool
    requires j < |w| && p <= |w|
  {
    w[(j + |w| - p) % |w|]
  }

  function Changes(w: seq<bool>, p: nat): (s: seq<bool>)
    requires p <= |w|
    ensures |s| == |w|
  {
    seq(|w|, j requires 0 <= j < |w| => w[j] != Around(w, j, p))
  }

  function Pairs(w: seq<bool>, before: bool, bit: bool): (s: seq<bool>)
    requires |w| > 0
    ensures |s| == |w|
  {
    seq(|w|, j requires 0 <= j < |w| => Around(w, j, 1) == before && w[j] == bit)
  }

  lemma BackInRepeat(w: seq<bool>, k: nat, i: nat, p: nat)
    requires p <= i < |w| * k && p <= |w| && |w| > 0
    ensures i % |w| < |w| && Repeat(w, k)[i] == w[i % |w|]
    ensures Repeat(w, k)[i - p] == Around(w, i % |w|, p)
  {
    hide Repeat;
    RepeatAt(w, k, i);
    RepeatAt(w, k, i - p);
    var m := |w|;
    BackRemainder(i, p, m);
  }

  lemma BackRemainder(i: nat, p: nat, m: nat)
    requires p <= i && p <= m && m > 0
    ensures (i - p) % m == (i % m + m - p) % m
  {
    var q, r := i / m, i % m;
    assert i == m * q + r;
    if r >= p {
      Remainder(i - p, m, q, r - p);
      Remainder(r + m - p, m, 1, r - p);
    } else {
      MoreTimes(m, 1, q);
      assert q > 0;
      Whole(m, q);
      Remainder(i - p, m, q - 1, r + m - p);
      Remainder(r + m - p, m, 0, r + m - p);
    }
  }

  lemma TakeOneMore(s: seq<bool>, m: nat)
    requires 0 < m <= |s|
    ensures Count(s[..m], true) == Count(s[..m - 1], true) + (if s[m - 1] then 1 else 0)
  {
    assert s[..m][..m - 1] == s[..m - 1];
  }

  // Only the first p positions may be counted going round and not in line.
  lemma {:induction false} ChangesCounted(w: seq<bool>, k: nat, p: nat, m: nat)
    requires 1 <= p <= |w| && m <= |w| * k
    ensures |Repeat(Changes(w, p), k)| == |Repeat(w, k)| == |w| * k
    ensures Mismatches(Repeat(w, k), p, m) <= Count(Repeat(Changes(w, p), k)[..m], true)
    ensures Count(Repeat(Changes(w, p), k)[..m], true) <= Mismatches(Repeat(w, k), p, m) + p
  {
    hide Repeat, Count, Changes;
    var v, s := Changes(w, p), Repeat(w, k);
    if m > 0 {
      ChangesCounted(w, k, p, m - 1);
      TakeOneMore(Repeat(v, k), m);
      if m > p {
        BackInRepeat(w, k, m - 1, p);
        ChangeAt(w, k, p, m - 1);
      } else {
        CountAtMost(Repeat(v, k)[..m]);
      }
    } else {
      CountAtMost(Repeat(v, k)[..m]);
    }
  }

  lemma CountAtMost(s: seq<bool>)
    ensures Count(s, true) <= |s|
  {
  }

  lemma ChangeAt(w: seq<bool>, k: nat, p: nat, i: nat)
    requires p <= |w| && i < |w| * k
    ensures |w| > 0 && i % |w| < |w|
    ensures Repeat(Changes(w, p), k)[i] == (w[i % |w|] != Around(w, i % |w|, p))
  {
    hide Repeat, Around;
    RepeatAt(Changes(w, p), k, i);
  }

  // Only the first bit has no bit before it.
  lemma {:induction false} PairsCounted(w: seq<bool>, k: nat, before: bool, bit: bool, m: nat)
    requires |w| > 0 && m <= |w| * k
    ensures |Repeat(Pairs(w, before, bit), k)| == |Repeat(w, k)| == |w| * k
    ensures Count(Repeat(Pairs(w, before, bit), k)[..m], true) <=
            Count(InSlot(Repeat(w, k), 1, if before then 2 else 1, m), bit) + 1
  {
    hide Repeat, Count, Pairs, Slot, InSlot;
    var v, s := Pairs(w, before, bit), Repeat(w, k);
    var slot := if before then 2 else 1;
    if m == 0 {
      CountAtMost(Repeat(v, k)[..m]);
    } else {
      PairsCounted(w, k, before, bit, m - 1);
      TakeOneMore(Repeat(v, k), m);
      SlotCount(s, slot, bit, m - 1);
      if m == 1 {
        CountAtMost(Repeat(v, k)[..m]);
      } else {
        BackInRepeat(w, k, m - 1, 1);
        PairAt(w, k, before, bit, m - 1);
        SlotAfter(s, m - 1);
      }
    }
  }

  lemma PairAt(w: seq<bool>, k: nat, before: bool, bit: bool, i: nat)
    requires |w| > 0 && i < |w| * k
    ensures i % |w| < |w|
    ensures Repeat(Pairs(w, before, bit), k)[i] == (Around(w, i % |w|, 1) == before && w[i % |w|] == bit)
  {
    hide Repeat, Around;
    RepeatAt(Pairs(w, before, bit), k, i);
  }

  // A bit is counted in the slot of the bit before it.
  lemma SlotAfter(s: seq<bool>, i: nat)
    requires 0 < i < |s|
    ensures Slot(s, 1, i) == if s[i - 1] then 2 else 1
  {
    hide SlotOf;
    W.EmptySlot();
    assert History(s, 1, i) == [s[i - 1]];
  }

  lemma SlotCount(s: seq<bool>, slot: nat, bit: bool, i: nat)
    requires i < |s|
    ensures Count(InSlot(s, 1, slot, i + 1), bit) ==
            Count(InSlot(s, 1, slot, i), bit) + (if Slot(s, 1, i) == slot && s[i] == bit then 1 else 0)
  {
    hide Count, Slot;
    CountAppend(InSlot(s, 1, slot, i), s[i], bit);
  }

  // ----- what a mixed stream costs -----

  // Each symbol of the rarer kind costs at least two bits.
  lemma {:induction false} ClosedMixed(a: nat, b: nat)
    requires 2 * (a + b + 1) < WORD
    ensures Closed(a, b) >= 2 * Min(a, b) * ONE_Q16
    decreases a + b
  {
    hide Closed, Term, Log2Q16;
    if a < b {
      ClosedMixed(a, b - 1);
      ClosedStep(a, b - 1, true);
    } else if b < a {
      ClosedMixed(a - 1, b);
      ClosedStep(a - 1, b, false);
    } else {
      ClosedBalanced(a);
    }
  }

  lemma {:induction false} SlotsAtLeast(bits: seq<bool>, order: nat, a: nat, b: nat, k: nat)
    requires 2 * |bits| + 2 < WORD && a < b < k
    ensures var s, t := InSlot(bits, order, a, |bits|), InSlot(bits, order, b, |bits|);
            SlotSum(bits, order, |bits|, k) >=
            Closed(Count(s, false), Count(s, true)) + Closed(Count(t, false), Count(t, true))
  {
    hide Closed, InSlot, Count;
    var last := InSlot(bits, order, k - 1, |bits|);
    CountTotal(last);
    ClosedBounds(Count(last, false), Count(last, true));
    if b < k - 1 {
      SlotsAtLeast(bits, order, a, b, k - 1);
    } else {
      SlotAtLeast(bits, order, a, k - 1);
    }
  }

  lemma {:induction false} SlotAtLeast(bits: seq<bool>, order: nat, a: nat, k: nat)
    requires 2 * |bits| + 2 < WORD && a < k
    ensures var s := InSlot(bits, order, a, |bits|);
            SlotSum(bits, order, |bits|, k) >= Closed(Count(s, false), Count(s, true))
  {
    hide Closed, InSlot, Count;
    var last := InSlot(bits, order, k - 1, |bits|);
    CountTotal(last);
    ClosedBounds(Count(last, false), Count(last, true));
    if a < k - 1 {
      SlotAtLeast(bits, order, a, k - 1);
    } else {
      SlotSumNonNegative(bits, order, |bits|, k - 1);
    }
  }

  // ----- irregular words -----

  // Neither the part nor the rest is below nineteen in fifty.
  predicate Mixed(part: nat, whole: nat)
    requires part <= whole
  {
    50 * Min(part, whole - part) >= 19 * whole
  }

  // The ones, the changes at every lag up to eight and, summed over the bit
  // before, the bits after it are mixed going round.
  predicate Irregular(w: seq<bool>) {
    && 9 <= |w| <= 64 && Mixed(Count(w, true), |w|)
    && (forall p :: 1 <= p <= 8 ==> Mixed(Count(Changes(w, p), true), |w|))
    && 50 * (RarerAfter(w, false) + RarerAfter(w, true)) >= 19 * |w|
  }

  // How often the bit before is followed by what follows it less often.
  function RarerAfter(w: seq<bool>, before: bool): nat
    requires |w| > 0
  {
    Min(Count(Pairs(w, before, false), true), Count(Pairs(w, before, true), true))
  }

  const COPIES: nat := 1000
  const MOST_COPIES: nat := 500000

  predicate Copies(w: seq<bool>, k: nat) {
    Irregular(w) && COPIES <= k <= MOST_COPIES
  }

  lemma LengthRange(w: seq<bool>, k: nat)
    requires Copies(w, k)
    ensures |Repeat(w, k)| == |w| * k && 9000 <= |w| * k <= 32000000
  {
    hide Repeat, Irregular;
    IrregularLength(w);
    Larger(k, |w|, 9);
    Larger(k, 64, |w|);
    assert k * |w| == |w| * k;
  }

  lemma IrregularLength(w: seq<bool>)
    requires Irregular(w)
    ensures 9 <= |w| <= 64
  {
  }

  // Nineteen in fifty of a word are nineteen in fifty of its copies.
  lemma CopiesMixed(least: nat, whole: nat, k: nat)
    requires 50 * least >= 19 * whole
    ensures 50 * (least * k) >= 19 * (whole * k)
  {
    Larger(k, 50 * least, 19 * whole);
    assert k * (50 * least) == 50 * (least * k) && k * (19 * whole) == 19 * (whole * k);
  }

  // A description this long is no short one.
  lemma DearIsLong(r: ScorerResult, n: nat)
    requires n >= 9000 && r.assessedBits == n && 50 * r.description >= (38 * n - 800) * 65536
    ensures !Short(r, n)
  {
    var share := if n < 65536 then 524288 / n else 8;
    assert share <= 58 by {
      if n < 65536 {
        assert 524288 == n * (524288 / n) + 524288 % n;
        Larger(n, 524288 / n, 59);
      }
    }
    Larger(n, 58, share);
    assert n * (49152 + share) == 49152 * n + n * share;
  }

  // The mask at a lag below nine is worth coding bit by bit.
  lemma LagDear(w: seq<bool>, k: nat, p: nat)
    requires Copies(w, k) && 1 <= p <= 8
    ensures var n, e := |Repeat(w, k)|, |Differing(Repeat(w, k), p, |Repeat(w, k)|)|;
            e <= n - p && 50 * Closed(n - p - e, e) >= (38 * n - 800) * 65536
  {
    hide Closed, Repeat, Count, Changes, Differing, Mismatches;
    LengthRange(w, k);
    var s, v := Repeat(w, k), Changes(w, p);
    var n, c := |s|, Count(v, true);
    MismatchesAreDiffering(s, p, n);
    IrregularAt(w, p);
    ChangesCounted(w, k, p, n);
    assert Repeat(v, k)[..n] == Repeat(v, k);
    CountRepeat(v, k);
    var e := Mismatches(s, p, n);
    Apart(c, |w|, k);
    MixedDear(c, |w|, k, n - p - e, e, p);
  }

  lemma Apart(part: nat, whole: nat, k: nat)
    requires part <= whole
    ensures (whole - part) * k == whole * k - part * k
  {
  }

  // Two counts that fall short of a mixed word's copies by d at most.
  lemma MixedDear(part: nat, whole: nat, k: nat, a: nat, b: nat, d: nat)
    requires part <= whole && 50 * Min(part, whole - part) >= 19 * whole && 2 * (a + b + 1) < WORD
    requires b + d >= part * k && a + d >= (whole - part) * k
    ensures 50 * Closed(a, b) >= (38 * (whole * k) - 100 * d) * 65536
  {
    hide Closed;
    var least := Min(part, whole - part);
    CopiesMixed(least, whole, k);
    Larger(k, part, least);
    Larger(k, whole - part, least);
    Turn(k, part);
    Turn(k, least);
    Turn(k, whole - part);
    ClosedMixed(a, b);
  }

  lemma Turn(a: nat, b: nat)
    ensures a * b == b * a
  {
  }

  lemma IrregularAt(w: seq<bool>, p: nat)
    requires Irregular(w) && 1 <= p <= 8
    ensures Count(Changes(w, p), true) <= |w|
    ensures 50 * Min(Count(Changes(w, p), true), |w| - Count(Changes(w, p), true)) >= 19 * |w|
  {
    hide Count, Changes;
    assert Mixed(Count(Changes(w, p), true), |w|);
  }

  lemma IrregularOnes(w: seq<bool>)
    requires Irregular(w)
    ensures Count(w, true) <= |w| && 50 * Min(Count(w, true), |w| - Count(w, true)) >= 19 * |w|
  {
    hide Count, Changes, RarerAfter;
  }

  lemma RunsLong(w: seq<bool>, k: nat)
    requires Copies(w, k)
    ensures !Short(RunsResult(Repeat(w, k)), |w| * k)
  {
    hide Closed, Repeat, Irregular, Short, Differing, RunsResult;
    LengthRange(w, k);
    LagDear(w, k, 1);
    RunsReport(Repeat(w, k));
    DearIsLong(RunsResult(Repeat(w, k)), |w| * k);
  }

  lemma PeriodicLong(w: seq<bool>, k: nat)
    requires Copies(w, k)
    ensures !Short(PeriodicResult(Repeat(w, k), 8), |w| * k)
  {
    hide Closed, Repeat, Irregular, Short, Differing, PeriodicResult, CeilLog2;
    LengthRange(w, k);
    PeriodicReportsMinimum(Repeat(w, k), 8, 1);
    LagDear(w, k, PeriodicResult(Repeat(w, k), 8).modelParameter);
    DearIsLong(PeriodicResult(Repeat(w, k), 8), |w| * k);
  }

  // ----- contexts -----

  lemma OrderZeroLong(w: seq<bool>, k: nat)
    requires Copies(w, k)
    ensures 50 * SlotSum(Repeat(w, k), 0, |w| * k, SLOTS) >= (38 * (|w| * k) - 800) * 65536
  {
    hide Closed, Repeat, Count, InSlot, SlotSum, Irregular, OrderCost, Prequential;
    LengthRange(w, k);
    IrregularOnes(w);
    var s, n, c := Repeat(w, k), |w| * k, Count(w, true);
    W.OrderZero(s, n);
    assert s[..n] == s;
    SlotAtLeast(s, 0, 0, SLOTS);
    CountTotal(w);
    CountTotal(s);
    CountRepeat(w, k);
    Apart(c, |w|, k);
    MixedDear(c, |w|, k, Count(s, false), Count(s, true), 0);
  }

  // How the bits after one bit are priced.
  lemma SlotLong(w: seq<bool>, k: nat, before: bool)
    requires Copies(w, k)
    ensures var t := InSlot(Repeat(w, k), 1, if before then 2 else 1, |w| * k);
            Closed(Count(t, false), Count(t, true)) >= 2 * (RarerAfter(w, before) * k - 1) * ONE_Q16
  {
    hide Closed, Repeat, Count, Pairs, InSlot, Irregular;
    IrregularLength(w);
    LengthRange(w, k);
    var s, n := Repeat(w, k), |w| * k;
    var t := InSlot(s, 1, if before then 2 else 1, n);
    PairsAll(w, k, before, false);
    PairsAll(w, k, before, true);
    var x, y := Count(Pairs(w, before, false), true), Count(Pairs(w, before, true), true);
    Larger(k, x, RarerAfter(w, before));
    Larger(k, y, RarerAfter(w, before));
    CountTotal(t);
    ClosedMixed(Count(t, false), Count(t, true));
  }

  lemma PairsAll(w: seq<bool>, k: nat, before: bool, bit: bool)
    requires |w| > 0
    ensures |Repeat(w, k)| == |w| * k
    ensures k * Count(Pairs(w, before, bit), true) <=
            Count(InSlot(Repeat(w, k), 1, if before then 2 else 1, |w| * k), bit) + 1
  {
    hide Repeat, Count, Pairs, InSlot;
    var v, n := Pairs(w, before, bit), |w| * k;
    PairsCounted(w, k, before, bit, n);
    assert Repeat(v, k)[..n] == Repeat(v, k);
    CountRepeat(v, k);
  }

  lemma OrderOneLong(w: seq<bool>, k: nat)
    requires Copies(w, k)
    ensures 50 * SlotSum(Repeat(w, k), 1, |w| * k, SLOTS) >= (38 * (|w| * k) - 800) * 65536
  {
    hide Closed, Repeat, Count, InSlot, SlotSum, RarerAfter, Mixed;
    LengthRange(w, k);
    SlotLong(w, k, false);
    SlotLong(w, k, true);
    SlotsAtLeast(Repeat(w, k), 1, 1, 2, SLOTS);
    var x, y := RarerAfter(w, false), RarerAfter(w, true);
    CopiesMixed(x + y, |w|, k);
    assert (x + y) * k == x * k + y * k;
  }

  lemma KtLong(w: seq<bool>, k: nat)
    requires Copies(w, k)
    ensures !Short(KtResult(Repeat(w, k), 1), |w| * k)
  {
    hide Repeat, Irregular, Short, SlotSum, KtResult, CeilLog2, UsedSlots;
    LengthRange(w, k);
    var s := Repeat(w, k);
    KtReport(s, 1);
    KtReportsMinimum(s, 1, 0);
    OrderZeroLong(w, k);
    OrderOneLong(w, k);
    DearIsLong(KtResult(s, 1), |w| * k);
  }

  // ----- the dictionary -----

  // v is what the repetition of w says from some place on.
  predicate Window(w: seq<bool>, a: nat, v: Word) {
    a < |w| && forall x :: 0 <= x < |v| ==> v[x] == w[(a + x) % |w|]
  }

  ghost predicate IsWindow(w: seq<bool>, v: Word) {
    exists a: nat :: Window(w, a, v)
  }

  ghost predicate Windows(w: seq<bool>, words: seq<Word>) {
    forall i :: 0 <= i < |words| ==> IsWindow(w, words[i])
  }

  // Phrases laid end to end along the repetition are windows of it.
  lemma {:induction false} PhrasesAreWindows(w: seq<bool>, k: nat, words: seq<Word>)
    requires |w| > 0 && Flatten(words) <= Repeat(w, k)
    ensures Windows(w, words)
  {
    hide Repeat, IsWindow, Flatten;
    if words != [] {
      var m := |words| - 1;
      LastPhraseFlat(words);
      var front := Flatten(words[..m]);
      PhrasesAreWindows(w, k, words[..m]);
      WindowAt(w, k, |front|, words[m]);
      forall i | 0 <= i < m
        ensures IsWindow(w, words[i])
      {
        assert words[..m][i] == words[i];
      }
    }
  }

  lemma LastPhraseFlat(words: seq<Word>)
    requires words != []
    ensures Flatten(words) == Flatten(words[..|words| - 1]) + words[|words| - 1]
  {
  }

  lemma WindowAt(w: seq<bool>, k: nat, at: nat, v: Word)
    requires |w| > 0 && at + |v| <= |w| * k && Repeat(w, k)[at..at + |v|] == v
    ensures IsWindow(w, v)
  {
    hide Repeat;
    forall x | 0 <= x < |v|
      ensures v[x] == w[(at % |w| + x) % |w|]
    {
      assert v[x] == Repeat(w, k)[at..at + |v|][x] == Repeat(w, k)[at + x];
      RepeatAt(w, k, at + x);
      SameRemainder(at, x, |w|);
    }
    assert Window(w, at % |w|, v);
  }

  lemma SameRemainder(a: nat, x: nat, m: nat)
    requires m > 0
    ensures (a % m + x) % m == (a + x) % m
  {
    var q, r := a / m, a % m;
    var p, t := (r + x) / m, (r + x) % m;
    Division(a, m);
    Division(r + x, m);
    Distribute(m, q, p);
    Remainder(a + x, m, q + p, t);
  }

  lemma Division(x: nat, m: nat)
    requires m > 0
    ensures x == m * (x / m) + x % m
  {
  }

  lemma Distribute(m: nat, a: nat, b: nat)
    ensures m * (a + b) == m * a + m * b
  {
  }

  ghost function Place(w: seq<bool>, v: Word): (a: nat)
    requires IsWindow(w, v)
    ensures Window(w, a, v)
  {
    var a: nat :| Window(w, a, v);
    a
  }

  // Where a window starts and how long it is, as one number.
  ghost function Key(w: seq<bool>, v: Word): nat
    requires IsWindow(w, v)
    requires v != []
  {
    Place(w, v) + |w| * (|v| - 1)
  }

  lemma KeyInjective(w: seq<bool>, u: Word, v: Word)
    requires IsWindow(w, u) && IsWindow(w, v)
    requires u != [] && v != [] && Key(w, u) == Key(w, v)
    ensures u == v
  {
    MoreTimes(|w|, |u| - 1, |v| - 1);
    MoreTimes(|w|, |v| - 1, |u| - 1);
  }

  ghost predicate Phrasing(w: seq<bool>, words: seq<Word>) {
    Distinct(words) && Nonempty(words) && Windows(w, words)
  }

  ghost function Keys(w: seq<bool>, words: seq<Word>): set<nat>
    requires Phrasing(w, words)
  {
    set i: nat | i < |words| :: Key(w, words[i])
  }

  lemma FirstWindows(w: seq<bool>, words: seq<Word>, m: nat)
    requires Phrasing(w, words) && m <= |words|
    ensures Phrasing(w, words[..m])
  {
    hide IsWindow;
    assert forall i :: 0 <= i < m ==> words[..m][i] == words[i];
  }

  lemma {:induction false} KeysSize(w: seq<bool>, words: seq<Word>)
    requires Phrasing(w, words)
    ensures |Keys(w, words)| == |words|
  {
    hide Key, IsWindow;
    if words != [] {
      var m := |words| - 1;
      FirstWindows(w, words, m);
      KeysSize(w, words[..m]);
      forall i: nat | i < m
        ensures Key(w, words[i]) != Key(w, words[m])
      {
        if Key(w, words[i]) == Key(w, words[m]) {
          KeyInjective(w, words[i], words[m]);
        }
      }
      assert Keys(w, words) == Keys(w, words[..m]) + {Key(w, words[m])};
    }
  }

  // There are no more windows of a length than places to start.
  lemma LongWindow(w: seq<bool>, words: seq<Word>, q: nat) returns (i: nat)
    requires Phrasing(w, words) && |words| > |w| * q
    ensures i < |words| && |words[i]| > q
  {
    hide IsWindow;
    if forall j :: 0 <= j < |words| ==> |words[j]| <= q {
      forall x | x in Keys(w, words)
        ensures 0 <= x < |w| * q
      {
        var j: nat :| j < |words| && Key(w, words[j]) == x;
        KeyBelow(w, words[j], q);
      }
      KeysSize(w, words);
      IntervalSize(0, |w| * q, Keys(w, words));
      assert false;
    }
    i :| 0 <= i < |words| && |words[i]| > q;
  }

  lemma KeyBelow(w: seq<bool>, v: Word, q: nat)
    requires IsWindow(w, v) && v != [] && |v| <= q
    ensures Key(w, v) < |w| * q
  {
    Larger(|w|, q, |v|);
    Whole(|w|, |v|);
  }

  // Distinct windows cannot all be short: q times as many as there are places
  // take as much as all the windows up to length q.
  lemma {:induction false} WindowsLong(w: seq<bool>, words: seq<Word>, q: nat, r: nat)
    requires Phrasing(w, words) && |words| == |w| * q + r && r <= |w|
    ensures 2 * TotalLength(words) >= |w| * (q * (q + 1)) + 2 * r * (q + 1)
    decreases q, r
  {
    hide TotalLength, Phrasing;
    if r > 0 {
      var i := LongWindow(w, words, q);
      var rest := words[..i] + words[i + 1..];
      FewerWindows(w, words, i);
      TotalWithout(words, i);
      WindowsLong(w, rest, q, r - 1);
      OneLess(r, q);
    } else if q > 0 {
      Whole(|w|, q);
      WindowsLong(w, words, q - 1, |w|);
      BlockSum(|w|, q);
    }
  }

  lemma FewerWindows(w: seq<bool>, words: seq<Word>, i: nat)
    requires Phrasing(w, words) && i < |words|
    ensures Phrasing(w, words[..i] + words[i + 1..])
  {
    hide IsWindow;
    var rest := words[..i] + words[i + 1..];
    assert forall j :: 0 <= j < |rest| ==> rest[j] == words[if j < i then j else j + 1];
  }

  lemma OneLess(r: nat, q: nat)
    requires r > 0
    ensures 2 * (r - 1) * (q + 1) + 2 * (q + 1) == 2 * r * (q + 1)
  {
  }

  lemma BlockSum(m: nat, q: nat)
    requires q > 0
    ensures m * ((q - 1) * q) + 2 * m * q == m * (q * (q + 1))
  {
    assert (q - 1) * q + 2 * q == q * (q + 1);
    assert m * ((q - 1) * q + 2 * q) == m * ((q - 1) * q) + m * (2 * q);
    assert m * (2 * q) == 2 * m * q;
  }

  // The least q for which k copies are shorter than all windows up to length q.
  lemma {:induction false} Reach(k: nat, from: nat) returns (q: nat)
    requires k > 0 && from > 0 && from * (from - 1) <= 2 * k && from <= 2 * k + 1
    ensures q > 0 && q * (q - 1) <= 2 * k < q * (q + 1)
    decreases 2 * k + 1 - from
  {
    if from * (from + 1) > 2 * k {
      q := from;
    } else {
      Larger(from, from + 1, 2);
      q := Reach(k, from + 1);
    }
  }

  // Fewer entries than q for each place.
  lemma FewEntries(w: seq<bool>, k: nat, words: seq<Word>, q: nat)
    requires |w| > 0 && q > 0 && 2 * k < q * (q + 1)
    requires Dictionary(words) && Flatten(words) <= Repeat(w, k)
    ensures |words| < |w| * q
  {
    hide Flatten, Repeat, TotalLength, Windows, Dictionary;
    FewerBits(|w|, k, q);
    if |words| >= |w| * q {
      var some := words[..|w| * q];
      FlattenPrefix(words, |w| * q);
      DictionaryPrefix(words, |w| * q);
      DictionaryDistinct(some);
      PhrasesAreWindows(w, k, some);
      WindowsLong(w, some, q, 0);
      TotalIsFlat(some);
    }
  }

  lemma FewerBits(m: nat, k: nat, q: nat)
    requires m > 0 && 2 * k < q * (q + 1)
    ensures 2 * (m * k) < m * (q * (q + 1))
  {
    MoreTimes(m, q * (q + 1), 2 * k);
    assert m * (2 * k) == 2 * (m * k);
  }

  lemma {:induction false} EntryBitsAtMost(e: nat, c: nat)
    requires e <= Pow2(c)
    ensures EntryBits(e) <= (c + 1) * e
  {
    hide CeilLog2, Pow2;
    if e > 0 {
      EntryBitsAtMost(e - 1, c);
      WidthAtMost(e, c);
      Whole(c + 1, e);
    }
  }

  lemma WidthAtMost(e: nat, c: nat)
    requires e <= Pow2(c)
    ensures CeilLog2(e) <= c
  {
    var width := CeilLog2(e);
    Grows(c, if width > 0 then width - 1 else 0);
  }

  lemma Grows(a: nat, b: nat)
    ensures a <= b ==> Pow2(a) <= Pow2(b)
  {
    if a <= b {
      Pow2Monotone(a, b);
    }
  }

  // A code of fewer than m entries, none wider than c bits.
  lemma CodeAtMost(p: Parse, m: nat, c: nat)
    requires |p.words| < m <= Pow2(c)
    ensures CodeBits(p) <= (c + 1) * m
  {
    hide CeilLog2, EntryBits, Pow2;
    EntryBitsAtMost(|p.words|, c);
    WidthAtMost(|p.words| + 1, c);
    Larger(c + 1, m, |p.words| + 1);
    assert (c + 1) * (|p.words| + 1) == (c + 1) * |p.words| + (c + 1);
  }

  lemma WidthOf(q: nat, k: nat) returns (c: nat)
    requires COPIES <= k <= MOST_COPIES && q > 0 && q * (q - 1) <= 2 * k < q * (q + 1)
    ensures 45 <= q <= 1000 && 64 * q <= Pow2(c) <= 65536 && 8 * (c + 1) <= 3 * (q - 1)
  {
    Larger(q + 1, 44, q);
    Larger(q, 44, q);
    Larger(q, q - 1, 1000);
    Pow2Eight();
    Pow2Words();
    Pow2Sum(6, 6);
    c := if q <= 64 then 12 else 16;
  }

  // The whole code takes at most three quarters of a bit per bit.
  lemma DictionaryShort(w: seq<bool>, k: nat)
    requires Copies(w, k)
    ensures var r := Lz78Result(Repeat(w, k), DefaultLimit(|w| * k));
            |w| * k > 0 && Short(r, |w| * k) && LimitReached !in r.flags
  {
    hide Repeat, Flatten, Dictionary, Irregular, ParseAll, CodeBits, Short, CeilLog2, Pow2, Known;
    LengthRange(w, k);
    IrregularLength(w);
    var s, n := Repeat(w, k), |w| * k;
    var q := Reach(k, 1);
    var c := WidthOf(q, k);
    var limit := DefaultLimit(n);
    var p := ParseAll(s, limit);
    ParseFits(s, limit);
    FewEntries(w, k, p.words, q);
    Larger(|w|, k, q);
    Larger(q, 64, |w|);
    Turn(q, |w|);
    CodeAtMost(p, |w| * q, c);
    ThreeQuarters(|w|, q, k, c);
    CheapIsShort(Lz78Result(s, limit), n);
  }

  // The parse covers the stream unless every entry is used up.
  lemma ParseFits(s: seq<bool>, limit: nat)
    ensures var p := ParseAll(s, limit);
            && Dictionary(p.words) && Flatten(p.words) <= s
            && (|p.words| < limit ==> !p.limited && Assessed(p) == |s|)
  {
    hide ParseRest, Dictionary, Known, Longest;
    NothingParsed();
    ParseSound(s, [], limit);
    assert Flatten([]) + s == s;
    var p := ParseAll(s, limit);
    assert Flatten(p.words) <= Flatten(p.words) + p.tail;
  }

  lemma NothingParsed()
    ensures Dictionary([])
  {
  }

  lemma ThreeQuarters(m: nat, q: nat, k: nat, c: nat)
    requires 8 * (c + 1) <= 3 * (q - 1) && q * (q - 1) <= 2 * k
    ensures 4 * ((c + 1) * (m * q)) <= 3 * (m * k)
  {
    var x := (c + 1) * q;
    Larger(q, 3 * (q - 1), 8 * (c + 1));
    Swap(q, 3, q - 1);
    Swap(q, 8, c + 1);
    Turn(q, c + 1);
    Larger(m, 3 * k, 4 * x);
    Swap(m, 3, k);
    Swap(m, 4, x);
    Swap(m, c + 1, q);
  }

  lemma Swap(a: nat, b: nat, c: nat)
    ensures a * (b * c) == b * (a * c)
  {
  }

  lemma CheapIsShort(r: ScorerResult, n: nat)
    requires 0 < n <= 32000000 && r.assessedBits == n && r.description <= n * 49152
    ensures Short(r, n)
  {
    var share := if n < 65536 then 524288 / n else 8;
    assert share > 0 by {
      if n < 65536 {
        assert 524288 == n * (524288 / n) + 524288 % n;
      }
    }
    Larger(n, share, 1);
    assert n * (49152 + share) == n * 49152 + n * share;
  }

  // A thousand copies or more of an irregular word are dictionary structure.
  lemma RepetitionIsDictionary(w: seq<bool>, k: nat)
    requires Copies(w, k)
    ensures ScoreOf(Repeat(w, k)).flags == {DictionaryStructure} && ScoreOf(Repeat(w, k)).score == 72
  {
    hide Repeat, Irregular, Short, RunsResult, KtResult, PeriodicResult, Lz78Result, Copies, DefaultLimit;
    LengthRange(w, k);
    RunsLong(w, k);
    KtLong(w, k);
    PeriodicLong(w, k);
    DictionaryShort(w, k);
    ClassExactly(Repeat(w, k));
  }

  // Where the quadratic residues modulo eleven are.
  const RESIDUES: seq<bool> := [false, true, false, true, true, true, false, false, false, true, false]

  function One(bit: bool): nat {
    if bit then 1 else 0
  }

  lemma CountFour(s: seq<bool>, m: nat)
    requires m + 4 <= |s|
    ensures Count(s[..m + 4], true) ==
            Count(s[..m], true) + One(s[m]) + One(s[m + 1]) + One(s[m + 2]) + One(s[m + 3])
  {
    hide Count;
    TakeOneMore(s, m + 1);
    TakeOneMore(s, m + 2);
    TakeOneMore(s, m + 3);
    TakeOneMore(s, m + 4);
  }

  lemma CountEleven(s: seq<bool>)
    requires |s| == 11
    ensures Count(s, true) == One(s[0]) + One(s[1]) + One(s[2]) + One(s[3]) + One(s[4]) + One(s[5]) + One(s[6])
                              + One(s[7]) + One(s[8]) + One(s[9]) + One(s[10])
  {
    hide Count, One;
    CountNone(s[..0]);
    CountFour(s, 0);
    CountFour(s, 4);
    LastThree(s);
    assert s[..11] == s;
  }

  lemma LastThree(s: seq<bool>)
    requires |s| == 11
    ensures Count(s[..11], true) == Count(s[..8], true) + One(s[8]) + One(s[9]) + One(s[10])
  {
    hide Count;
    TakeOneMore(s, 9);
    TakeOneMore(s, 10);
    TakeOneMore(s, 11);
  }

  lemma CountNone(s: seq<bool>)
    requires s == []
    ensures Count(s, true) == 0
  {
  }

  lemma ResidueBack(j: nat, p: nat)
    requires j < 11 && p <= 11
    ensures Around(RESIDUES, j, p) == RESIDUES[if j < p then j + 11 - p else j - p]
  {
    Remainder(j + 11 - p, 11, if j < p then 0 else 1, if j < p then j + 11 - p else j - p);
  }

  lemma ChangeIs(p: nat, j: nat)
    requires p <= 11 && j < 11
    ensures Changes(RESIDUES, p)[j] == (RESIDUES[j] != RESIDUES[if j < p then j + 11 - p else j - p])
  {
    hide Around;
    ResidueBack(j, p);
  }

  // At every lag six of eleven residues change.
  lemma ResidueChanges(p: nat)
    requires 1 <= p <= 8
    ensures Count(Changes(RESIDUES, p), true) == 6
  {
    hide Count, Changes;
    CountEleven(Changes(RESIDUES, p));
    ChangeIs(p, 0);
    ChangeIs(p, 1);
    ChangeIs(p, 2);
    ChangeIs(p, 3);
    ChangeIs(p, 4);
    ChangeIs(p, 5);
    ChangeIs(p, 6);
    ChangeIs(p, 7);
    ChangeIs(p, 8);
    ChangeIs(p, 9);
    ChangeIs(p, 10);
  }

  lemma PairIs(before: bool, bit: bool, j: nat)
    requires j < 11
    ensures Pairs(RESIDUES, before, bit)[j] ==
            (RESIDUES[if j < 1 then 10 else j - 1] == before && RESIDUES[j] == bit)
  {
    hide Around;
    ResidueBack(j, 1);
  }

  lemma ResiduePairs(before: bool, bit: bool)
    ensures Count(Pairs(RESIDUES, before, bit), true) == if before && bit then 2 else 3
  {
    hide Count, Pairs;
    CountEleven(Pairs(RESIDUES, before, bit));
    PairIs(before, bit, 0);
    PairIs(before, bit, 1);
    PairIs(before, bit, 2);
    PairIs(before, bit, 3);
    PairIs(before, bit, 4);
    PairIs(before, bit, 5);
    PairIs(before, bit, 6);
    PairIs(before, bit, 7);
    PairIs(before, bit, 8);
    PairIs(before, bit, 9);
    PairIs(before, bit, 10);
  }

  lemma ResiduesIrregular()
    ensures Irregular(RESIDUES)
  {
    hide Count, Changes, Pairs;
    CountEleven(RESIDUES);
    forall p | 1 <= p <= 8
      ensures Mixed(Count(Changes(RESIDUES, p), true), |RESIDUES|)
    {
      ResidueChanges(p);
    }
    ResiduePairs(false, false);
    ResiduePairs(false, true);
    ResiduePairs(true, false);
    ResiduePairs(true, true);
  }

  // So the family is not empty.
  lemma ResiduesAreDictionary(k: nat)
    requires COPIES <= k <= MOST_COPIES
    ensures ScoreOf(Repeat(RESIDUES, k)).flags == {DictionaryStructure}
  {
    hide Repeat, Irregular, ScoreOf;
    ResiduesIrregular();
    RepetitionIsDictionary(RESIDUES, k);
  }
}
