/** The Unicode symbol lanes: what the detector reports against what the
    decoder writes. */
module UnicodeLanes {
  import opened Bits
  import opened Bitstream
  import opened Composite
  import opened Utf8
  import C = UnicodeCensus

  datatype CodepointSymbol = CodepointSymbol(codepoint: nat, value: byte)

  datatype CodepointAlphabet = CodepointAlphabet(symbols: seq<CodepointSymbol>, bitWidth: byte, lsbFirst: bool)

  // The last two are for decoding only; a codepoint map comes in two orders.
  datatype Lane =
    | Tags | ZeroWidth | Variation | Mongolian | Isolate
    | IterationMarks | CodepointMap(alphabet: CodepointAlphabet, lsbVariant: bool)

  predicate HasReports(lane: Lane) {
    !lane.IterationMarks? && !lane.CodepointMap?
  }

  datatype Symbol = Symbol(value: byte, width: byte, lsbFirst: bool)

  const TAG_BEGIN: nat := 0xE0001
  const TAG_CANCEL: nat := 0xE007F
  const PAUSE: nat := 0x3001
  const ITERATION: nat := 0x3005

  // A tag payload begun before i and not cancelled since.
  predicate PayloadOpen(cps: seq<nat>, i: nat)
    requires i <= |cps|
  {
    exists k: nat :: k < i && cps[k] == TAG_BEGIN && forall m :: k < m < i ==> cps[m] != TAG_CANCEL
  }

  // How many scalars precede i since the last ideographic comma.
  function SincePause(cps: seq<nat>, i: nat): nat
    requires i <= |cps|
  {
    if i == 0 || cps[i - 1] == PAUSE then 0 else SincePause(cps, i - 1) + 1
  }

  // The value of the first entry for a code point.
  function FirstEntry(symbols: seq<CodepointSymbol>, cp: nat): Option<byte> {
    if symbols == [] then None
    else if symbols[0].codepoint == cp then Some(symbols[0].value)
    else FirstEntry(symbols[1..], cp)
  }

  predicate AlphabetOk(a: CodepointAlphabet) {
    && a.symbols != [] && 1 <= a.bitWidth <= 8
    && forall k :: 0 <= k < |a.symbols| ==> a.symbols[k].value < Pow2(a.bitWidth)
  }

  predicate LaneOk(lane: Lane) {
    lane.CodepointMap? ==> AlphabetOk(lane.alphabet)
  }

  function Binary(bit: bool): Option<Symbol> {
    Some(Symbol(if bit then 1 else 0, 1, false))
  }

  // The symbol the i-th scalar stands for in a lane. Iteration marks count in
  // pairs: a repeat is 0, a mark in place of it 1.
  function SymbolAt(lane: Lane, cps: seq<nat>, i: nat): Option<Symbol>
    requires i < |cps|
  {
    var cp := cps[i];
    match lane
    case Tags =>
      if 0xE0020 <= cp <= 0xE007E && PayloadOpen(cps, i) then Some(Symbol(cp - 0xE0000, 8, false)) else None
    case ZeroWidth => if cp == 0x200B || cp == 0x200C then Binary(cp == 0x200C) else None
    case Variation => if 0xFE00 <= cp <= 0xFE0F then Some(Symbol(cp - 0xFE00, 4, false)) else None
    case Mongolian =>
      if i > 0 && cps[i - 1] == 0x1820 && (cp == 0x180B || cp == 0x180C) then Binary(cp == 0x180C) else None
    case Isolate => if cp == 0x2066 || cp == 0x2067 then Binary(cp == 0x2067) else None
    case IterationMarks =>
      if cp == PAUSE || SincePause(cps, i) % 2 == 0 then None
      else if cp == cps[i - 1] then Binary(false)
      else if cp == ITERATION then Binary(true)
      else None
    case CodepointMap(a, lsbVariant) =>
      var v := FirstEntry(a.symbols, cp);
      if v.Some? then Some(Symbol(v.value, a.bitWidth, lsbVariant || a.lsbFirst)) else None
  }

  function LaneBits(lane: Lane, cps: seq<nat>, n: nat): seq<bool>
    requires n <= |cps|
  {
    if n == 0 then []
    else
      LaneBits(lane, cps, n - 1) +
      match SymbolAt(lane, cps, n - 1)
      case None => []
      case Some(y) => SymbolBits(y.value, y.width, y.lsbFirst)
  }

  function EventOf(s: ScalarAt, y: Symbol): Event
    requires s.length < 256
  {
    Event(SymbolKind, s.offset, s.length, y.value, y.width)
  }

  function LaneEvents(lane: Lane, found: seq<ScalarAt>, n: nat): seq<Event>
    requires n <= |found| && forall i :: 0 <= i < |found| ==> found[i].length < 256
  {
    if n == 0 then []
    else
      LaneEvents(lane, found, n - 1) +
      match SymbolAt(lane, Values(found), n - 1)
      case None => []
      case Some(y) => [EventOf(found[n - 1], y)]
  }

  lemma SymbolFits(lane: Lane, cps: seq<nat>, i: nat)
    requires i < |cps| && LaneOk(lane) && SymbolAt(lane, cps, i).Some?
    ensures var y := SymbolAt(lane, cps, i).value;
            1 <= y.width <= 8 && y.value < Pow2(y.width) && (HasReports(lane) ==> !y.lsbFirst)
  {
    Pow2Eight();
    if lane.CodepointMap? {
      EntryFits(lane.alphabet.symbols, cps[i], Pow2(lane.alphabet.bitWidth));
    }
    hide Pow2, PayloadOpen;
  }

  lemma {:induction false} EntryFits(symbols: seq<CodepointSymbol>, cp: nat, limit: nat)
    requires forall k :: 0 <= k < |symbols| ==> symbols[k].value < limit
    ensures FirstEntry(symbols, cp).Some? ==> FirstEntry(symbols, cp).value < limit
  {
    if symbols != [] {
      EntryFits(symbols[1..], cp, limit);
    }
  }

  // The spans one by one.
  lemma SpanAt(found: seq<ScalarAt>, end: nat, i: nat)
    requires Contiguous(found, end) && i < |found|
    ensures 1 <= found[i].length <= 4
    ensures found[i].offset + found[i].length == NextOffset(found, i, end)
    ensures i == 0 ==> found[i].offset == 0
  {
    hide Encode;
    assert found[i].length == |Encode(found[i].value)|;
  }

  lemma SpanLengths(found: seq<ScalarAt>, end: nat)
    requires Contiguous(found, end)
    ensures forall i :: 0 <= i < |found| ==> 1 <= found[i].length <= 4
  {
    hide Contiguous;
    forall i | 0 <= i < |found|
      ensures 1 <= found[i].length <= 4
    {
      SpanAt(found, end, i);
    }
  }

  lemma {:induction false} SpanEnds(found: seq<ScalarAt>, end: nat, i: nat)
    requires Contiguous(found, end) && i < |found|
    ensures i < found[i].offset + found[i].length <= end
    decreases |found| - i
  {
    hide Contiguous;
    SpanAt(found, end, i);
    EndsOrdered(found, end, i);
    if i + 1 < |found| {
      SpanEnds(found, end, i + 1);
    }
  }

  lemma {:induction false} EndsOrdered(found: seq<ScalarAt>, end: nat, i: nat)
    requires Contiguous(found, end) && i < |found|
    ensures found[i].offset >= i
    decreases i
  {
    hide Contiguous;
    if i > 0 {
      EndsOrdered(found, end, i - 1);
      SpanAt(found, end, i - 1);
    }
  }

  function EndOf(found: seq<ScalarAt>, n: nat): nat
    requires n <= |found|
  {
    if n == 0 then 0 else found[n - 1].offset + found[n - 1].length
  }

  // Well-formed spans that increase, never overlap and end by `limit`.
  ghost predicate SpansUpTo(events: seq<Event>, limit: nat) {
    && Chained(events) && AllWellFormed(events)
    && (events != [] ==> events[|events| - 1].offset + events[|events| - 1].length <= limit)
  }

  lemma SpansAdd(events: seq<Event>, limit: nat, e: Event)
    requires SpansUpTo(events, limit) && limit <= e.offset && Composite.WellFormed(e)
    ensures SpansUpTo(events + [e], e.offset + e.length)
  {
    ChainOne(events, e);
  }

  lemma {:induction false} LaneChained(lane: Lane, found: seq<ScalarAt>, end: nat, n: nat)
    requires LaneOk(lane) && Contiguous(found, end) && end <= SIZE_MAX && n <= |found|
    ensures forall i :: 0 <= i < |found| ==> found[i].length < 256
    ensures SpansUpTo(LaneEvents(lane, found, n), EndOf(found, n))
  {
    hide Encode, SymbolAt, Composite.WellFormed;
    SpanLengths(found, end);
    if n > 0 {
      LaneChained(lane, found, end, n - 1);
      assert EndOf(found, n - 1) == found[n - 1].offset;
      SpanEnds(found, end, n - 1);
      hide Contiguous, SpansUpTo;
      var before, here := LaneEvents(lane, found, n - 1), SymbolAt(lane, Values(found), n - 1);
      if here.Some? {
        SymbolFits(lane, Values(found), n - 1);
        EventFits(found[n - 1], here.value);
        SpansAdd(before, EndOf(found, n - 1), EventOf(found[n - 1], here.value));
      } else {
        assert LaneEvents(lane, found, n) == before;
        SpansMore(before, EndOf(found, n - 1), EndOf(found, n));
      }
    }
  }

  lemma SpansMore(events: seq<Event>, a: nat, b: nat)
    requires SpansUpTo(events, a) && a <= b
    ensures SpansUpTo(events, b)
  {
  }

  lemma {:induction false} LaneBitsConcat(lane: Lane, found: seq<ScalarAt>, n: nat)
    requires HasReports(lane) && n <= |found| && forall i :: 0 <= i < |found| ==> found[i].length < 256
    ensures LaneBits(lane, Values(found), n) == Concat(LaneEvents(lane, found, n))
  {
    hide SymbolAt, Concat, ToBits;
    if n > 0 {
      LaneBitsConcat(lane, found, n - 1);
      if SymbolAt(lane, Values(found), n - 1).Some? {
        SymbolFits(lane, Values(found), n - 1);
      }
      var before, here := LaneEvents(lane, found, n - 1), SymbolAt(lane, Values(found), n - 1);
      if here.Some? {
        ConcatOne(before, EventOf(found[n - 1], here.value));
      } else {
        assert LaneEvents(lane, found, n) == before;
      }
    } else {
      ConcatNothing([]);
    }
  }

  lemma EventFits(s: ScalarAt, y: Symbol)
    requires 1 <= s.length < 256 && s.offset + s.length <= SIZE_MAX && 1 <= y.width <= 8 && y.value < Pow2(y.width)
    ensures Composite.WellFormed(EventOf(s, y))
  {
  }

  // Gluing what the detector reports in a lane gives the decoder's bits, and
  // nothing is reported exactly when the decoder finds nothing.
  lemma LanesAgree(lane: Lane, found: seq<ScalarAt>, end: nat, glued: seq<bool>)
    requires HasReports(lane) && Contiguous(found, end) && end <= SIZE_MAX
    ensures forall i :: 0 <= i < |found| ==> found[i].length < 256
    ensures var events, bits := LaneEvents(lane, found, |found|), LaneBits(lane, Values(found), |found|);
            && (events == [] <==> bits == [])
            && (events != [] ==> Gluable(events) && (GluesTo(events, glued) <==> glued == bits))
  {
    hide Encode, Gluable, GluesTo, Chained, AllWellFormed, Concat, LaneBits, LaneEvents;
    LaneChained(lane, found, end, |found|);
    LaneBitsConcat(lane, found, |found|);
    var events := LaneEvents(lane, found, |found|);
    if events != [] {
      GlueChained(events, glued);
    } else {
      ConcatNothing(events);
    }
  }

  lemma PayloadStep(cps: seq<nat>, i: nat)
    requires i < |cps|
    ensures PayloadOpen(cps, i + 1) <==> cps[i] == TAG_BEGIN || (PayloadOpen(cps, i) && cps[i] != TAG_CANCEL)
  {
    if PayloadOpen(cps, i) && cps[i] != TAG_CANCEL {
      var k: nat :| k < i && cps[k] == TAG_BEGIN && forall m :: k < m < i ==> cps[m] != TAG_CANCEL;
      assert k < i + 1;
    }
    if PayloadOpen(cps, i + 1) && cps[i] != TAG_BEGIN {
      var k: nat :| k < i + 1 && cps[k] == TAG_BEGIN && forall m :: k < m < i + 1 ==> cps[m] != TAG_CANCEL;
      assert k < i;
    }
  }

  // ----- the detector -----

  datatype Emission = Emission(lane: Lane, event: Event)

  function Select(lane: Lane, emitted: seq<Emission>): seq<Event> {
    if emitted == [] then []
    else
      var last := emitted[|emitted| - 1];
      Select(lane, emitted[..|emitted| - 1]) + (if last.lane == lane then [last.event] else [])
  }

  lemma SelectOne(lane: Lane, emitted: seq<Emission>, e: Emission)
    ensures Select(lane, emitted + [e]) == Select(lane, emitted) + (if e.lane == lane then [e.event] else [])
  {
    assert (emitted + [e])[..|emitted|] == emitted;
  }

  class SymbolScan {
    var inTagPayload: bool
    var previous: Option<nat>
    var emitted: seq<Emission>
    const census: C.Census

    ghost predicate Valid(found: seq<ScalarAt>, n: nat)
      reads this, census
    {
      census.Valid(found, n) && SymbolsValid(found, n)
    }

    ghost predicate SymbolsValid(found: seq<ScalarAt>, n: nat)
      reads this
    {
      && n <= |found| && (forall i :: 0 <= i < |found| ==> found[i].length < 256)
      && inTagPayload == PayloadOpen(Values(found), n)
      && previous == (if n > 0 then Some(found[n - 1].value) else None)
      && forall lane | HasReports(lane) :: Select(lane, emitted) == LaneEvents(lane, found, n)
    }

    constructor (ghost found: seq<ScalarAt>)
      requires forall i :: 0 <= i < |found| ==> found[i].length < 256
      ensures Valid(found, 0) && fresh(census)
    {
      inTagPayload, previous, emitted := false, None, [];
      census := new C.Census(found);
    }

    method Emit(lane: Lane, s: ScalarAt, value: byte, width: byte)
      requires s.length < 256
      modifies this`emitted
      ensures emitted == old(emitted) + [Emission(lane, EventOf(s, Symbol(value, width, false)))]
      ensures var here := [EventOf(s, Symbol(value, width, false))];
              forall l :: Select(l, emitted) == Select(l, old(emitted)) + (if l == lane then here else [])
    {
      var e := Emission(lane, EventOf(s, Symbol(value, width, false)));
      forall l
        ensures Select(l, emitted + [e]) == Select(l, emitted) + (if l == lane then [e.event] else [])
      {
        SelectOne(l, emitted, e);
      }
      emitted := emitted + [e];
    }

    // One scalar is counted, observed, and reported where it is a symbol.
    method ScanScalar(s: ScalarAt, ghost found: seq<ScalarAt>, ghost n: nat)
      requires Valid(found, n) && n < |found| && s == found[n]
      modifies this, census
      ensures Valid(found, n + 1)
    {
      hide Select, PayloadOpen;
      census.ScanScalar(s, found, n);
      EmitSymbol(s, found, n);
    }

    // The tests run in the source's order; no scalar is in two lanes.
    method EmitSymbol(s: ScalarAt, ghost found: seq<ScalarAt>, ghost n: nat)
      requires SymbolsValid(found, n) && n < |found| && s == found[n]
      modifies this
      ensures SymbolsValid(found, n + 1)
    {
      hide Select, PayloadOpen;
      PayloadStep(Values(found), n);
      var cp: nat := s.value;
      if cp == 0x200B || cp == 0x200C {
        Emit(ZeroWidth, s, if cp == 0x200C then 1 else 0, 1);
      }
      if 0xFE00 <= cp <= 0xFE0F {
        Emit(Variation, s, cp - 0xFE00, 4);
      }
      if previous == Some(0x1820) {
        if cp == 0x180B {
          Emit(Mongolian, s, 0, 1);
        } else if cp == 0x180C {
          Emit(Mongolian, s, 1, 1);
        }
      }
      if cp == TAG_BEGIN {
        inTagPayload := true;
      } else if cp == TAG_CANCEL {
        inTagPayload := false;
      } else if inTagPayload && 0xE0020 <= cp <= 0xE007E {
        Emit(Tags, s, cp - 0xE0000, 8);
      }
      if cp == 0x2066 || cp == 0x2067 {
        Emit(Isolate, s, if cp == 0x2067 then 1 else 0, 1);
      }
      previous := Some(cp);
    }
  }

  // Malformed input is the encoding module's; nothing is reported for it.
  method DetectSymbols(input: seq<byte>) returns (emitted: seq<Emission>, ghost found: seq<ScalarAt>)
    ensures !ValidUtf8(input) ==> emitted == []
    ensures ValidUtf8(input) ==>
      && Contiguous(found, |input|) && EncodeAll(Values(found)) == input
      && (forall i :: 0 <= i < |found| ==> found[i].length < 256)
      && forall lane | HasReports(lane) :: Select(lane, emitted) == LaneEvents(lane, found, |found|)
  {
    hide EncodeAll, Encode, ValidUtf8;
    emitted, found := [], [];
    var status, scalars, errorOffset := Foreach(input);
    if status != Ok {
      return;
    }
    found := scalars;
    SpanLengths(found, |input|);
    hide Contiguous;
    var x := new SymbolScan(scalars);
    var i := 0;
    while i < |scalars|
      invariant 0 <= i <= |scalars| && fresh(x) && fresh(x.census)
      invariant x.Valid(scalars, i)
    {
      x.ScanScalar(scalars[i], scalars, i);
      i := i + 1;
    }
    emitted := x.emitted;
  }

  // ----- the decoder -----

  lemma {:induction false} LaneBitsGrow(lane: Lane, cps: seq<nat>, m: nat, n: nat)
    requires m <= n <= |cps|
    ensures LaneBits(lane, cps, m) <= LaneBits(lane, cps, n)
    decreases n
  {
    hide SymbolAt, SymbolBits;
    if m < n {
      LaneBitsGrow(lane, cps, m, n - 1);
    }
  }

  method FindEntry(symbols: seq<CodepointSymbol>, cp: nat) returns (value: Option<byte>)
    ensures value == FirstEntry(symbols, cp)
  {
    var i := 0;
    while i < |symbols|
      invariant 0 <= i <= |symbols|
      invariant FirstEntry(symbols[i..], cp) == FirstEntry(symbols, cp)
    {
      if symbols[i].codepoint == cp {
        return Some(symbols[i].value);
      }
      assert symbols[i..][1..] == symbols[i + 1..];
      i := i + 1;
    }
    return None;
  }

  class DecodeState {
    const lane: Lane
    const out: Bitstream
    var inTags: bool
    var haveFirst: bool
    var first: nat
    var previous: Option<nat>

    ghost predicate Valid(cps: seq<nat>, n: nat)
      reads this, out, out.bytes, out.bytes.data
    {
      Reads(cps, n) && out.Valid() && out.Bits() == LaneBits(lane, cps, n)
    }

    // What the state remembers of the scalars before n.
    ghost predicate Reads(cps: seq<nat>, n: nat)
      reads this
    {
      && n <= |cps| && LaneOk(lane)
      && (lane == Tags ==> inTags == PayloadOpen(cps, n))
      && (lane == IterationMarks ==> haveFirst == (SincePause(cps, n) % 2 == 1))
      && (lane == IterationMarks && haveFirst ==> n > 0 && first == cps[n - 1])
      && previous == (if n > 0 then Some(cps[n - 1]) else None)
    }

    constructor (lane: Lane, out: Bitstream, ghost cps: seq<nat>)
      requires LaneOk(lane) && out.Valid() && out.Bits() == []
      ensures Valid(cps, 0) && this.out == out && this.lane == lane
    {
      this.lane, this.out, inTags, haveFirst, first, previous := lane, out, false, false, 0, None;
    }

    // What appending a symbol does: all of it, or a part before the length
    // would pass SIZE_MAX.
    twostate predicate Appended(status: Status, bits: seq<bool>)
      reads this, out, out.bytes, out.bytes.data
    {
      && old(out.Valid()) && out.Valid() && (out.bytes.data == old(out.bytes.data) || fresh(out.bytes.data))
      && status == (if |old(out.Bits()) + bits| <= SIZE_MAX then Ok else Einval)
      && (status == Ok ==> out.Bits() == old(out.Bits()) + bits)
      && (status != Ok ==> out.Bits() <= old(out.Bits()) + bits)
    }

    method DecodeBit(bit: bool) returns (status: Status)
      requires out.Valid()
      modifies out, out.bytes, out.bytes.data
      ensures Appended(status, [bit])
    {
      status := out.AppendBits(if bit then 1 else 0, 1, false);
    }

    // One bit at a time, in the declared order.
    method DecodeValue(value: byte, width: nat, lsbFirst: bool) returns (status: Status)
      requires out.Valid() && 1 <= width <= 8
      modifies out, out.bytes, out.bytes.data
      ensures Appended(status, SymbolBits(value, width, lsbFirst))
    {
      status := Ok;
      ghost var before, added := out.Bits(), SymbolBits(value, width, lsbFirst);
      hide Packed, Unpack, SymbolBits, ToBits, Shr;
      var j := 0;
      while j < width
        invariant 0 <= j <= width && status == Ok && out.Valid()
        invariant out.bytes.data == old(out.bytes.data) || fresh(out.bytes.data)
        invariant out.Bits() == before + added[..j]
      {
        var shift := if lsbFirst then j else width - 1 - j;
        var bit := Shr(value, shift) % 2 == 1;
        BitAdded(value, width, lsbFirst, j, before);
        OneBit(bit);
        status := out.AppendBits(if bit then 1 else 0, 1, false);
        if status != Ok {
          return status;
        }
        j := j + 1;
      }
      assert added[..j] == added;
    }

    // One scalar appends what it stands for.
    method DecodeScalar(cp: nat, ghost cps: seq<nat>, ghost n: nat) returns (status: Status)
      requires Valid(cps, n) && n < |cps| && cp == cps[n]
      modifies this, out, out.bytes, out.bytes.data
      ensures out.Valid() && (out.bytes.data == old(out.bytes.data) || fresh(out.bytes.data))
      ensures status == if |LaneBits(lane, cps, n + 1)| <= SIZE_MAX then Ok else Einval
      ensures status == Ok ==> Valid(cps, n + 1)
      ensures status != Ok ==> out.Bits() <= LaneBits(lane, cps, n + 1)
    {
      hide PayloadOpen, SymbolBits, Packed, Unpack, FirstEntry, SincePause, AlphabetOk;
      ghost var y, before := SymbolAt(lane, cps, n), out.Bits();
      if y.Some? {
        SymbolFits(lane, cps, n);
      }
      OneBit(true);
      OneBit(false);
      status := AppendSymbol(cp, cps, n);
      Remember(cp, cps, n);
      assert before + [] == before;
    }

    // Writes the symbol of a scalar, if it has one.
    method AppendSymbol(cp: nat, ghost cps: seq<nat>, ghost n: nat) returns (status: Status)
      requires Reads(cps, n) && out.Valid() && n < |cps| && cp == cps[n]
      requires SymbolAt(lane, cps, n).Some? ==> 1 <= SymbolAt(lane, cps, n).value.width <= 8
      modifies out, out.bytes, out.bytes.data
      ensures Appended(status, match SymbolAt(lane, cps, n)
                               case None => []
                               case Some(y) => SymbolBits(y.value, y.width, y.lsbFirst))
    {
      hide PayloadOpen, SymbolBits, Packed, Unpack, FirstEntry, SincePause, LaneOk;
      OneBit(true);
      OneBit(false);
      status := Ok;
      assert out.Bits() + [] == out.Bits();
      match lane {
        case Tags =>
          if cp != TAG_BEGIN && cp != TAG_CANCEL && inTags && 0xE0020 <= cp <= 0xE007E {
            status := out.AppendBits(cp - 0xE0000, 8, false);
          }
        case ZeroWidth =>
          if cp == 0x200B || cp == 0x200C {
            status := DecodeBit(cp == 0x200C);
          }
        case Variation =>
          if 0xFE00 <= cp <= 0xFE0F {
            status := DecodeValue(cp - 0xFE00, 4, false);
          }
        case Mongolian =>
          if previous == Some(0x1820) {
            if cp == 0x180B {
              status := DecodeBit(false);
            } else if cp == 0x180C {
              status := DecodeBit(true);
            }
          }
        case Isolate =>
          if cp == 0x2066 || cp == 0x2067 {
            status := DecodeBit(cp == 0x2067);
          }
        case IterationMarks =>
          if cp != PAUSE && haveFirst {
            if cp == first {
              status := DecodeBit(false);
            } else if cp == ITERATION {
              status := DecodeBit(true);
            }
          }
        case CodepointMap(a, lsbVariant) =>
          var value := FindEntry(a.symbols, cp);
          if value.Some? {
            status := DecodeValue(value.value, a.bitWidth, lsbVariant || a.lsbFirst);
          }
      }
    }

    method Remember(cp: nat, ghost cps: seq<nat>, ghost n: nat)
      requires Reads(cps, n) && n < |cps| && cp == cps[n]
      modifies this
      ensures Reads(cps, n + 1)
    {
      hide PayloadOpen, LaneOk;
      PayloadStep(cps, n);
      if lane == Tags {
        if cp == TAG_BEGIN {
          inTags := true;
        } else if cp == TAG_CANCEL {
          inTags := false;
        }
      } else if lane == IterationMarks {
        if cp == PAUSE {
          haveFirst := false;
        } else if !haveFirst {
          first := cp;
          haveFirst := true;
        } else {
          haveFirst := false;
        }
      }
      previous := Some(cp);
    }
  }

  lemma OneBit(bit: bool)
    ensures SymbolBits(if bit then 1 else 0, 1, false) == [bit]
  {
  }

  // On malformed input the symbols before the error have been written.
  method UnicodeDecode(input: seq<byte>, lane: Lane, output: Bitstream)
    returns (status: Status, ghost found: seq<ScalarAt>)
    requires output.Valid() && output.Bits() == []
    modifies output, output.bytes, output.bytes.data
    ensures output.Valid()
    ensures EncodeAll(Values(found)) <= input && (ValidUtf8(input) <==> EncodeAll(Values(found)) == input)
    ensures var all := LaneBits(lane, Values(found), |found|);
            && status == (if !LaneOk(lane) || |all| > SIZE_MAX then Einval
                          else if !ValidUtf8(input) then Eutf8
                          else if all == [] then Enotfound else Ok)
            && (LaneOk(lane) && |all| <= SIZE_MAX ==> output.Bits() == all)
            && output.Bits() <= all
  {
    hide EncodeAll, Encode, ValidUtf8, LaneBits, PayloadOpen, Packed, Unpack;
    var valid, scalars, errorOffset := Foreach(input);
    found := scalars;
    ghost var cps := Values(found);
    if lane.CodepointMap? {
      var ok := CheckAlphabet(lane.alphabet);
      if !ok {
        return Einval, found;
      }
    }
    var x := new DecodeState(lane, output, cps);
    status := Ok;
    var i := 0;
    while i < |scalars|
      invariant 0 <= i <= |scalars| && status == Ok && fresh(x) && x.out == output && x.lane == lane
      invariant output.bytes.data == old(output.bytes.data) || fresh(output.bytes.data)
      invariant x.Valid(cps, i)
    {
      LaneBitsGrow(lane, cps, i + 1, |cps|);
      status := x.DecodeScalar(scalars[i].value, cps, i);
      if status != Ok {
        return status, found;
      }
      i := i + 1;
    }
    status := if valid != Ok then valid else if output.bitLength != 0 then Ok else Enotfound;
  }

  method CheckAlphabet(a: CodepointAlphabet) returns (ok: bool)
    ensures ok <==> AlphabetOk(a)
  {
    hide Pow2;
    if a.symbols == [] || a.bitWidth == 0 || a.bitWidth > 8 {
      return false;
    }
    var i := 0;
    while i < |a.symbols|
      invariant 0 <= i <= |a.symbols|
      invariant forall k :: 0 <= k < i ==> a.symbols[k].value < Pow2(a.bitWidth)
    {
      if a.symbols[i].value >= Pow2(a.bitWidth) {
        return false;
      }
      i := i + 1;
    }
    return true;
  }
}
