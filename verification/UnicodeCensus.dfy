/** What the Unicode scan counts and observes beside the symbols. */
module UnicodeCensus {
  import opened Bits
  import opened Utf8
  import opened UnicodeProperties

  // ----- counters -----

  datatype Kind =
    | Ignorables | Selectors | TagControls | BidiControls | InteriorBom | Zwsp | Zwnj
    | Fvs1 | Fvs2 | Fvs | Noncharacters | Shorthand | IterationMarks

  // A count and the byte offset of the first one, 0 where there is none.
  datatype Counter = Counter(count: nat, first: nat)

  predicate AfterA(found: seq<ScalarAt>, i: nat)
    requires i < |found|
  {
    i > 0 && found[i - 1].value == 0x1820
  }

  // Whether the i-th scalar is one of the kind.
  predicate InKind(kind: Kind, found: seq<ScalarAt>, i: nat)
    requires i < |found|
  {
    var cp: nat := found[i].value;
    match kind
    case Ignorables => Ignorable(cp) && !(AfterA(found, i) && (cp == 0x180B || cp == 0x180C))
    case Selectors => 0xFE00 <= cp <= 0xFE0F || 0xE0100 <= cp <= 0xE01EF
    case TagControls => 0xE0001 <= cp <= 0xE007F
    case BidiControls =>
      0x202A <= cp <= 0x202E || 0x2066 <= cp <= 0x2069 || cp == 0x061C || cp == 0x200E || cp == 0x200F
    case InteriorBom => cp == 0xFEFF && found[i].offset != 0
    case Zwsp => cp == 0x200B
    case Zwnj => cp == 0x200C
    case Fvs1 => AfterA(found, i) && cp == 0x180B
    case Fvs2 => AfterA(found, i) && cp == 0x180C
    case Fvs => AfterA(found, i) && (cp == 0x180B || cp == 0x180C)
    case Noncharacters => 0xFDD0 <= cp <= 0xFDEF || cp % 0x10000 >= 0xFFFE
    case Shorthand => 0x1BCA0 <= cp <= 0x1BCA3
    case IterationMarks => cp == 0x3005
  }

  function Bump(c: Counter, at: nat): Counter {
    Counter(c.count + 1, if c.count == 0 then at else c.first)
  }

  function CounterOf(kind: Kind, found: seq<ScalarAt>, n: nat): Counter
    requires n <= |found|
  {
    if n == 0 then Counter(0, 0)
    else
      var before := CounterOf(kind, found, n - 1);
      if InKind(kind, found, n - 1) then Bump(before, found[n - 1].offset) else before
  }

  ghost predicate FirstOf(kind: Kind, found: seq<ScalarAt>, n: nat, i: nat)
    requires n <= |found|
  {
    i < n && InKind(kind, found, i) && forall j :: 0 <= j < i ==> !InKind(kind, found, j)
  }

  function Members(kind: Kind, found: seq<ScalarAt>, n: nat): set<nat>
    requires n <= |found|
  {
    set i: nat | i < n && InKind(kind, found, i)
  }

  // A counter holds how many there are, and where the first one is.
  lemma {:induction false} CounterMeans(kind: Kind, found: seq<ScalarAt>, n: nat) returns (i: nat)
    requires n <= |found|
    ensures CounterOf(kind, found, n).count == |Members(kind, found, n)|
    ensures CounterOf(kind, found, n).count > 0 ==>
            FirstOf(kind, found, n, i) && CounterOf(kind, found, n).first == found[i].offset
    ensures CounterOf(kind, found, n).count == 0 ==> CounterOf(kind, found, n).first == 0
  {
    hide InKind, Members;
    MembersStep(kind, found, n);
    if n > 0 {
      i := CounterMeans(kind, found, n - 1);
      if CounterOf(kind, found, n - 1).count == 0 {
        EmptyMembers(Members(kind, found, n - 1));
        NoMembers(kind, found, n - 1);
        i := n - 1;
      }
    } else {
      i := 0;
    }
  }

  lemma EmptyMembers(s: set<nat>)
    requires |s| == 0
    ensures s == {}
  {
  }

  lemma NoMembers(kind: Kind, found: seq<ScalarAt>, n: nat)
    requires n <= |found| && Members(kind, found, n) == {}
    ensures forall j :: 0 <= j < n ==> !InKind(kind, found, j)
  {
    hide InKind;
    forall j | 0 <= j < n
      ensures !InKind(kind, found, j)
    {
      assert j !in Members(kind, found, n);
    }
  }

  lemma MembersStep(kind: Kind, found: seq<ScalarAt>, n: nat)
    requires n <= |found|
    ensures n == 0 ==> Members(kind, found, n) == {}
    ensures n > 0 ==> |Members(kind, found, n)| ==
                      |Members(kind, found, n - 1)| + (if InKind(kind, found, n - 1) then 1 else 0)
  {
    hide InKind;
    if n > 0 {
      var before := Members(kind, found, n - 1);
      assert Members(kind, found, n) == if InKind(kind, found, n - 1) then before + {n - 1} else before;
    }
  }

  // ----- observations -----

  datatype Rule = IgnorableScalar | IgnorableContext | WhiteSpaceScalar | C1Scalar | FormatScalar | FormatContext

  datatype Observation = Observation(rule: Rule, offset: nat, length: nat, value: nat)

  // The scalar alone, or with the one before it.
  function Single(rule: Rule, s: ScalarAt): Observation {
    Observation(rule, s.offset, s.length, s.value)
  }

  function InContext(rule: Rule, found: seq<ScalarAt>, i: nat): seq<Observation>
    requires i < |found|
  {
    if i == 0 then []
    else [Observation(rule, found[i - 1].offset, found[i - 1].length + found[i].length, found[i].value)]
  }

  // A scalar and then, where there is one, the pair with the scalar before it.
  function WithContext(single: Rule, pair: Rule, found: seq<ScalarAt>, i: nat): seq<Observation>
    requires i < |found|
  {
    [Single(single, found[i])] + InContext(pair, found, i)
  }

  // What one scalar adds, by the place in the order of the tests.
  function ObservedAt(found: seq<ScalarAt>, i: nat, test: nat): seq<Observation>
    requires i < |found|
  {
    var s := found[i];
    var cp: nat := s.value;
    if test == 0 then if Ignorable(cp) then WithContext(IgnorableScalar, IgnorableContext, found, i) else []
    else if test == 1 then if cp > 0x7F && WhiteSpace(cp) then [Single(WhiteSpaceScalar, s)] else []
    else if test == 2 then if cp >= 0x80 && Control(cp) then [Single(C1Scalar, s)] else []
    else if FormatControl(cp) && !Ignorable(cp) then WithContext(FormatScalar, FormatContext, found, i)
    else []
  }

  function ObservationsOf(found: seq<ScalarAt>, n: nat): seq<Observation>
    requires n <= |found|
  {
    if n == 0 then []
    else
      var i := n - 1;
      ObservationsOf(found, i) + ObservedAt(found, i, 0) + ObservedAt(found, i, 1) + ObservedAt(found, i, 2)
      + ObservedAt(found, i, 3)
  }

  // Every observation ends where a scalar of that value ends, and covers it
  // alone or together with all of the scalar before it.
  lemma {:induction false} ObservationSpans(found: seq<ScalarAt>, end: nat, n: nat, o: Observation) returns (i: nat)
    requires Contiguous(found, end) && n <= |found| && o in ObservationsOf(found, n)
    ensures i < n && o.value == found[i].value && o.offset + o.length == found[i].offset + found[i].length
    ensures o.offset == found[i].offset || (i > 0 && o.offset == found[i - 1].offset)
  {
    hide ObservedAt, Contiguous;
    if o in ObservationsOf(found, n - 1) {
      i := ObservationSpans(found, end, n - 1, o);
    } else {
      i := n - 1;
      var test: nat :| test < 4 && o in ObservedAt(found, i, test);
      SpanEnd(found, end, i, test, o);
    }
  }

  lemma SpanEnd(found: seq<ScalarAt>, end: nat, i: nat, test: nat, o: Observation)
    requires Contiguous(found, end) && i < |found| && o in ObservedAt(found, i, test)
    ensures o.value == found[i].value && o.offset + o.length == found[i].offset + found[i].length
    ensures o.offset == found[i].offset || (i > 0 && o.offset == found[i - 1].offset)
  {
    hide Ignorable, WhiteSpace, Control, FormatControl, Encode;
    if i > 0 {
      assert found[i - 1].offset + found[i - 1].length == NextOffset(found, i - 1, end);
    }
  }

  // ----- the scan -----

  class Census {
    var ignorables: Counter
    var selectors: Counter
    var tags: Counter
    var bidi: Counter
    var interiorBom: Counter
    var zwsp: Counter
    var zwnj: Counter
    var fvs1: Counter
    var fvs2: Counter
    var fvs: Counter            // its first is the first of either selector
    var noncharacters: Counter
    var shorthand: Counter
    var iteration: Counter
    var observations: seq<Observation>
    var previous: Option<ScalarAt>

    ghost predicate Valid(found: seq<ScalarAt>, n: nat)
      reads this
    {
      Before(found, n) && CountersTell(found, n) && observations == ObservationsOf(found, n)
    }

    ghost predicate Before(found: seq<ScalarAt>, n: nat)
      reads this`previous
    {
      n <= |found| && previous == (if n > 0 then Some(found[n - 1]) else None)
    }

    ghost predicate CountersTell(found: seq<ScalarAt>, n: nat)
      requires n <= |found|
      reads this
    {
      SymbolsTell(found, n) && RangesTell(found, n)
    }

    ghost predicate SymbolsTell(found: seq<ScalarAt>, n: nat)
      requires n <= |found|
      reads this
    {
      && ignorables == CounterOf(Ignorables, found, n)
      && zwsp == CounterOf(Zwsp, found, n) && zwnj == CounterOf(Zwnj, found, n)
      && selectors == CounterOf(Selectors, found, n)
      && fvs1 == CounterOf(Fvs1, found, n) && fvs2 == CounterOf(Fvs2, found, n) && fvs == CounterOf(Fvs, found, n)
    }

    ghost predicate RangesTell(found: seq<ScalarAt>, n: nat)
      requires n <= |found|
      reads this
    {
      && tags == CounterOf(TagControls, found, n) && bidi == CounterOf(BidiControls, found, n)
      && interiorBom == CounterOf(InteriorBom, found, n)
      && noncharacters == CounterOf(Noncharacters, found, n) && shorthand == CounterOf(Shorthand, found, n)
      && iteration == CounterOf(IterationMarks, found, n)
    }

    constructor (ghost found: seq<ScalarAt>)
      ensures Valid(found, 0)
    {
      var none := Counter(0, 0);
      ignorables, selectors, tags, bidi, interiorBom, zwsp, zwnj := none, none, none, none, none, none, none;
      fvs1, fvs2, fvs, noncharacters, shorthand, iteration := none, none, none, none, none, none;
      observations, previous := [], None;
    }

    method Observe(rule: Rule, s: ScalarAt)
      modifies this`observations
      ensures observations == old(observations) + [Single(rule, s)]
    {
      observations := observations + [Single(rule, s)];
    }

    method ObserveBoth(single: Rule, pair: Rule, s: ScalarAt, ghost found: seq<ScalarAt>, ghost n: nat)
      requires Before(found, n) && n < |found| && s == found[n]
      modifies this`observations
      ensures observations == old(observations) + WithContext(single, pair, found, n)
    {
      Observe(single, s);
      if previous.Some? {
        var p := previous.value;
        observations := observations + [Observation(pair, p.offset, p.length + s.length, s.value)];
      }
    }

    method ObserveScalar(s: ScalarAt, ghost found: seq<ScalarAt>, ghost n: nat)
      requires Before(found, n) && n < |found| && s == found[n] && observations == ObservationsOf(found, n)
      modifies this`observations
      ensures observations == ObservationsOf(found, n + 1)
    {
      hide Ignorable, WhiteSpace, Control, FormatControl, WithContext, Single, ObservationsOf, ObservedAt;
      ObservedCases(found, n);
      var ignorable := IsIgnorable(s.value);
      var space, control, format := Properties(s.value);
      if ignorable {
        ObserveBoth(IgnorableScalar, IgnorableContext, s, found, n);
      }
      assert observations == ObservationsOf(found, n) + ObservedAt(found, n, 0);
      if s.value > 0x7F && space {
        Observe(WhiteSpaceScalar, s);
      }
      if s.value >= 0x80 && control {
        Observe(C1Scalar, s);
      }
      if format && !ignorable {
        ObserveBoth(FormatScalar, FormatContext, s, found, n);
      }
    }

    method CountSymbols(s: ScalarAt, ghost found: seq<ScalarAt>, ghost n: nat)
      requires Before(found, n) && n < |found| && s == found[n] && SymbolsTell(found, n)
      modifies this`ignorables, this`zwsp, this`zwnj, this`selectors, this`fvs, this`fvs1, this`fvs2
      ensures SymbolsTell(found, n + 1)
    {
      hide Ignorable, CounterOf, Bump;
      CounterSteps(found, n);
      var cp: nat, at := s.value, s.offset;
      var afterA := previous.Some? && previous.value.value == 0x1820;
      var ignorable := IsIgnorable(cp);
      if ignorable && !(afterA && (cp == 0x180B || cp == 0x180C)) {
        ignorables := Bump(ignorables, at);
      }
      if cp == 0x200B {
        zwsp := Bump(zwsp, at);
      }
      if cp == 0x200C {
        zwnj := Bump(zwnj, at);
      }
      if 0xFE00 <= cp <= 0xFE0F || 0xE0100 <= cp <= 0xE01EF {
        selectors := Bump(selectors, at);
      }
      if afterA && cp == 0x180B {
        fvs, fvs1 := Bump(fvs, at), Bump(fvs1, at);
      } else if afterA && cp == 0x180C {
        fvs, fvs2 := Bump(fvs, at), Bump(fvs2, at);
      }
    }

    method CountRanges(s: ScalarAt, ghost found: seq<ScalarAt>, ghost n: nat)
      requires n < |found| && s == found[n] && RangesTell(found, n)
      modifies this`tags, this`bidi, this`interiorBom, this`noncharacters, this`shorthand, this`iteration
      ensures RangesTell(found, n + 1)
    {
      hide Ignorable, CounterOf, Bump;
      CounterSteps(found, n);
      var cp: nat, at := s.value, s.offset;
      if 0xE0001 <= cp <= 0xE007F {
        tags := Bump(tags, at);
      }
      if 0x202A <= cp <= 0x202E || 0x2066 <= cp <= 0x2069 || cp == 0x061C || cp == 0x200E || cp == 0x200F {
        bidi := Bump(bidi, at);
      }
      if cp == 0xFEFF && at != 0 {
        interiorBom := Bump(interiorBom, at);
      }
      if 0xFDD0 <= cp <= 0xFDEF || cp % 0x10000 >= 0xFFFE {
        noncharacters := Bump(noncharacters, at);
      }
      if 0x1BCA0 <= cp <= 0x1BCA3 {
        shorthand := Bump(shorthand, at);
      }
      if cp == 0x3005 {
        iteration := Bump(iteration, at);
      }
    }

    method ScanScalar(s: ScalarAt, ghost found: seq<ScalarAt>, ghost n: nat)
      requires Valid(found, n) && n < |found| && s == found[n]
      modifies this
      ensures Valid(found, n + 1)
    {
      hide CounterOf, ObservationsOf;
      CountSymbols(s, found, n);
      CountRanges(s, found, n);
      ObserveScalar(s, found, n);
      previous := Some(s);
    }
  }

  lemma ObservedCases(found: seq<ScalarAt>, n: nat)
    requires n < |found|
    ensures var cp: nat := found[n].value;
      && ObservedAt(found, n, 0) ==
         (if Ignorable(cp) then WithContext(IgnorableScalar, IgnorableContext, found, n) else [])
      && ObservedAt(found, n, 1) == (if cp > 0x7F && WhiteSpace(cp) then [Single(WhiteSpaceScalar, found[n])] else [])
      && ObservedAt(found, n, 2) == (if cp >= 0x80 && Control(cp) then [Single(C1Scalar, found[n])] else [])
      && ObservedAt(found, n, 3) ==
         (if FormatControl(cp) && !Ignorable(cp) then WithContext(FormatScalar, FormatContext, found, n) else [])
    ensures ObservationsOf(found, n + 1) ==
            ObservationsOf(found, n) + ObservedAt(found, n, 0) + ObservedAt(found, n, 1) + ObservedAt(found, n, 2)
            + ObservedAt(found, n, 3)
  {
    hide Ignorable, WhiteSpace, Control, FormatControl, WithContext;
  }

  lemma CounterSteps(found: seq<ScalarAt>, n: nat)
    requires n < |found|
    ensures forall kind: Kind :: CounterOf(kind, found, n + 1) ==
              if InKind(kind, found, n) then Bump(CounterOf(kind, found, n), found[n].offset)
              else CounterOf(kind, found, n)
  {
    hide InKind, Bump;
  }
}
