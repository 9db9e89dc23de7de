/** Binary symbols carried by a choice between two spellings: the scan that
    decodes them and the scan that reports them. */
module Identity {
  import opened Bits
  import opened Bitstream
  import opened Composite
  import Utf8

  // Two spellings of one thing; `wholeLine` ones count at line starts only.
  datatype Pair = Pair(zero: seq<byte>, one: seq<byte>, wholeLine: bool)

  const PAIRS: seq<Pair> := [
    Pair([0x20], [0xC2, 0xA0], false),
    Pair([0xC3, 0xA9], [0x65, 0xCC, 0x81], false),
    Pair([0x2D], [0xE2, 0x80, 0x91], false),
    Pair([0x61, 0xCC, 0xA3, 0xCC, 0x81], [0x61, 0xCC, 0x81, 0xCC, 0xA3], false),
    Pair([0x4B], [0xE2, 0x84, 0xAA], false)]

  // No token can start inside another.
  predicate Distinctive(p: Pair) {
    && 0 < |p.zero| <= 8 && 0 < |p.one| <= 8
    && (forall k :: 0 < k < |p.zero| ==> p.zero[k] != p.zero[0] && p.zero[k] != p.one[0])
    && (forall k :: 0 < k < |p.one| ==> p.one[k] != p.zero[0] && p.one[k] != p.one[0])
  }

  lemma PairsDistinctive()
    ensures forall i :: 0 <= i < |PAIRS| ==> Distinctive(PAIRS[i]) && !PAIRS[i].wholeLine
  {
  }

  predicate LineStart(input: seq<byte>, at: nat)
    requires at <= |input|
  {
    at == 0 || input[at - 1] == 0x0A
  }

  predicate Found(input: seq<byte>, at: nat, token: seq<byte>)
    requires at <= |input|
  {
    |token| <= |input| - at && input[at..at + |token|] == token
  }

  // The symbol a token at this offset stands for.
  function TokenAt(p: Pair, input: seq<byte>, at: nat): Option<Event>
    requires at <= |input| && |p.zero| > 0 && |p.one| > 0
  {
    if p.wholeLine && !LineStart(input, at) then None
    else if Found(input, at, p.zero) then Some(Event(SymbolKind, at, |p.zero|, 0, 1))
    else if Found(input, at, p.one) then Some(Event(SymbolKind, at, |p.one|, 1, 1))
    else None
  }

  // Every token that starts before n, in source order.
  function Occurrences(p: Pair, input: seq<byte>, n: nat): seq<Event>
    requires n <= |input| && |p.zero| > 0 && |p.one| > 0
  {
    if n == 0 then []
    else
      var before := Occurrences(p, input, n - 1);
      match TokenAt(p, input, n - 1)
      case None => before
      case Some(e) => before + [e]
  }

  lemma {:induction false} EveryOccurrence(p: Pair, input: seq<byte>, n: nat, e: Event)
    requires n <= |input| && |p.zero| > 0 && |p.one| > 0
    ensures e in Occurrences(p, input, n) <==> e.offset < n && TokenAt(p, input, e.offset) == Some(e)
  {
    if n > 0 {
      EveryOccurrence(p, input, n - 1, e);
    }
  }

  // The token whose bytes stand where TokenAt finds one.
  lemma TokenBytes(p: Pair, input: seq<byte>, at: nat)
    requires at <= |input| && |p.zero| > 0 && |p.one| > 0 && TokenAt(p, input, at).Some?
    ensures var e := TokenAt(p, input, at).value;
            var t := if e.value == 0 then p.zero else p.one;
            e.length == |t| && at + |t| <= |input| && forall i :: at <= i < at + |t| ==> input[i] == t[i - at]
  {
    var e := TokenAt(p, input, at).value;
    var t := if e.value == 0 then p.zero else p.one;
    assert forall i :: at <= i < at + |t| ==> input[i] == input[at..at + |t|][i - at];
  }

  // Tokens never overlap.
  lemma TokensApart(p: Pair, input: seq<byte>, a: nat, b: nat)
    requires Distinctive(p) && a < b <= |input| && TokenAt(p, input, a).Some? && TokenAt(p, input, b).Some?
    ensures a + TokenAt(p, input, a).value.length <= b
  {
    TokenBytes(p, input, a);
    TokenBytes(p, input, b);
    hide TokenAt;
    assert input[b] == p.zero[0] || input[b] == p.one[0];
  }

  lemma OneBitToken(p: Pair, input: seq<byte>, at: nat)
    requires Distinctive(p) && at <= |input| <= SIZE_MAX && TokenAt(p, input, at).Some?
    ensures WellFormed(TokenAt(p, input, at).value)
  {
    Pow2Eight();
  }

  lemma {:induction false} OccurrencesChained(p: Pair, input: seq<byte>, n: nat)
    requires Distinctive(p) && n <= |input| <= SIZE_MAX
    ensures Chained(Occurrences(p, input, n)) && AllWellFormed(Occurrences(p, input, n))
    ensures |Occurrences(p, input, n)| <= n
  {
    if n > 0 {
      OccurrencesChained(p, input, n - 1);
      var before := Occurrences(p, input, n - 1);
      var here := TokenAt(p, input, n - 1);
      if here.Some? {
        if before != [] {
          var last := before[|before| - 1];
          assert last in before;
          EveryOccurrence(p, input, n - 1, last);
          TokensApart(p, input, last.offset, n - 1);
        }
        OneBitToken(p, input, n - 1);
        hide Occurrences, TokenAt, Distinctive, WellFormed;
        ChainOne(before, here.value);
      }
    }
  }

  // Offsets at which nothing starts add nothing.
  lemma {:induction false} NothingStarts(p: Pair, input: seq<byte>, from: nat, to: nat)
    requires from <= to <= |input| && |p.zero| > 0 && |p.one| > 0
    requires forall k :: from <= k < to ==> TokenAt(p, input, k) == None
    ensures Occurrences(p, input, to) == Occurrences(p, input, from)
  {
    if from < to {
      NothingStarts(p, input, from, to - 1);
    }
  }

  // Jumping over a token misses nothing.
  lemma JumpToken(p: Pair, input: seq<byte>, at: nat)
    requires Distinctive(p) && at < |input| && TokenAt(p, input, at).Some?
    ensures var e := TokenAt(p, input, at).value;
            && at + e.length <= |input|
            && Occurrences(p, input, at + e.length) == Occurrences(p, input, at) + [e]
  {
    hide Distinctive, Found, TokenAt;
    TokensNonempty(p, input);
    TokenBytes(p, input, at);
    var e, after := TokenAt(p, input, at).value, at + 1;
    forall k | after <= k < at + e.length
      ensures TokenAt(p, input, k) == None
    {
      if TokenAt(p, input, k).Some? {
        TokensApart(p, input, at, k);
      }
    }
    NothingStarts(p, input, after, at + e.length);
    TokenStarts(p, input, at);
  }

  lemma TokenStarts(p: Pair, input: seq<byte>, at: nat)
    requires at < |input| && |p.zero| > 0 && |p.one| > 0 && TokenAt(p, input, at).Some?
    ensures TokenAt(p, input, at).value.length > 0
    ensures Occurrences(p, input, at + 1) == Occurrences(p, input, at) + [TokenAt(p, input, at).value]
  {
  }

  function CountOf(events: seq<Event>, value: byte): nat {
    if events == [] then 0
    else CountOf(events[..|events| - 1], value) + (if events[|events| - 1].value == value then 1 else 0)
  }

  lemma AddEvent(events: seq<Event>, e: Event)
    ensures Concat(events + [e]) == Concat(events) + ToBits(e.value, e.width)
    ensures CountOf(events + [e], 0) == CountOf(events, 0) + (if e.value == 0 then 1 else 0)
    ensures CountOf(events + [e], 1) == CountOf(events, 1) + (if e.value == 1 then 1 else 0)
  {
    assert (events + [e])[..|events|] == events;
  }

  // Counters and span of a list of symbols, 0 where there is none.
  predicate Tally(events: seq<Event>, zeros: nat, ones: nat, first: nat, last: nat) {
    && zeros == CountOf(events, 0) && ones == CountOf(events, 1) && zeros + ones == |events|
    && (events == [] ==> first == 0 && last == 0)
    && (events != [] ==> first == events[0].offset &&
                         last == events[|events| - 1].offset + events[|events| - 1].length)
  }

  lemma NothingTallied(events: seq<Event>)
    requires events == []
    ensures Tally(events, 0, 0, 0, 0)
  {
  }

  lemma TallyToken(events: seq<Event>, e: Event, zeros: nat, ones: nat, first: nat, last: nat)
    requires Tally(events, zeros, ones, first, last) && e.value <= 1
    ensures Tally(events + [e], zeros + 1 - e.value, ones + e.value,
                  if zeros == 0 && ones == 0 then e.offset else first, e.offset + e.length)
  {
    AddEvent(events, e);
    hide CountOf;
  }

  // The scanner's variables and output describe `events`.
  predicate Scanned(events: seq<Event>, zeros: nat, ones: nat, first: nat, last: nat, bits: seq<bool>) {
    Tally(events, zeros, ones, first, last) && bits == Concat(events)
  }

  lemma TokensNonempty(p: Pair, input: seq<byte>)
    requires Distinctive(p)
    ensures |p.zero| > 0 && |p.one| > 0 && Occurrences(p, input, 0) == []
  {
  }

  lemma NothingScanned(events: seq<Event>, bits: seq<bool>)
    requires events == [] && bits == []
    ensures Scanned(events, 0, 0, 0, 0, bits)
  {
  }

  lemma ScanToken(events: seq<Event>, e: Event, zeros: nat, ones: nat, first: nat, last: nat, bits: seq<bool>)
    requires Scanned(events, zeros, ones, first, last, bits) && e.value <= 1
    ensures Scanned(events + [e], zeros + 1 - e.value, ones + e.value,
                    if zeros == 0 && ones == 0 then e.offset else first, e.offset + e.length,
                    bits + ToBits(e.value, e.width))
  {
    TallyToken(events, e, zeros, ones, first, last);
    ConcatOne(events, e);
    hide Concat, ToBits, CountOf, Tally;
  }

  lemma StepScan(p: Pair, input: seq<byte>, at: nat)
    requires Distinctive(p) && at < |input|
    ensures match TokenAt(p, input, at)
            case None => Occurrences(p, input, at + 1) == Occurrences(p, input, at)
            case Some(e) =>
              at + e.length <= |input| && Occurrences(p, input, at + e.length) == Occurrences(p, input, at) + [e]
  {
    if TokenAt(p, input, at).Some? {
      JumpToken(p, input, at);
    } else {
      NothingStarts(p, input, at, at + 1);
    }
  }

  // Counts the symbols and, for a decoder, appends them. A count never passes
  // the offset, so it cannot reach UINT64_MAX.
  method ScanPair(p: Pair, input: seq<byte>, output: Bitstream)
    returns (status: Status, zeros: nat, ones: nat, first: nat, last: nat)
    requires Distinctive(p) && !p.wholeLine && |input| <= SIZE_MAX
    requires output.Valid() && output.Bits() == []
    modifies output, output.bytes, output.bytes.data
    ensures output.Valid() && status == Ok
    ensures Tally(Occurrences(p, input, |input|), zeros, ones, first, last)
    ensures output.Bits() == Concat(Occurrences(p, input, |input|))
  {
    hide Scanned, Tally, Occurrences, Concat, ToBits, Distinctive, Found, Packed, Unpack;
    TokensNonempty(p, input);
    status, zeros, ones, first, last := Ok, 0, 0, 0, 0;
    var at := 0;
    ghost var events := Occurrences(p, input, 0);
    NothingScanned(events, output.Bits());
    while at < |input|
      invariant at <= |input| && status == Ok && output.Valid()
      invariant output.bytes.data == old(output.bytes.data) || fresh(output.bytes.data)
      invariant events == Occurrences(p, input, at) && output.bitLength <= at
      invariant Scanned(events, zeros, ones, first, last, output.Bits())
      decreases |input| - at
    {
      StepScan(p, input, at);
      ghost var token := TokenAt(p, input, at);
      if token.Some? {
        ScanToken(events, token.value, zeros, ones, first, last, output.Bits());
        events := events + [token.value];
      }
      if Found(input, at, p.zero) {
        if zeros == 0 && ones == 0 {
          first := at;
        }
        zeros := zeros + 1;
        last := at + |p.zero|;
        status := AppendSymbol(output, 0, at);
        at := at + |p.zero|;
      } else if Found(input, at, p.one) {
        if zeros == 0 && ones == 0 {
          first := at;
        }
        ones := ones + 1;
        last := at + |p.one|;
        status := AppendSymbol(output, 1, at);
        at := at + |p.one|;
      } else {
        at := at + 1;
      }
    }
    FinalScan(events, zeros, ones, first, last, output.Bits());
  }

  lemma FinalScan(events: seq<Event>, zeros: nat, ones: nat, first: nat, last: nat, bits: seq<bool>)
    requires Scanned(events, zeros, ones, first, last, bits)
    ensures Tally(events, zeros, ones, first, last) && bits == Concat(events)
  {
  }

  method AppendSymbol(output: Bitstream, value: byte, ghost at: nat) returns (status: Status)
    requires output.Valid() && output.bitLength <= at < SIZE_MAX
    modifies output, output.bytes, output.bytes.data
    ensures output.Valid() && (output.bytes.data == old(output.bytes.data) || fresh(output.bytes.data))
    ensures status == Ok && output.Bits() == old(output.Bits()) + ToBits(value, 1)
  {
    hide ToBits;
    status := output.AppendBits(value, 1, false);
  }

  // The reporting scan emits every occurrence of either token, in order.
  method EmitPairSymbols(p: Pair, input: seq<byte>) returns (emitted: seq<Event>)
    requires Distinctive(p) && !p.wholeLine
    ensures emitted == Occurrences(p, input, |input|)
  {
    hide Distinctive, Found, Occurrences;
    TokensNonempty(p, input);
    emitted := [];
    var at := 0;
    while at < |input|
      invariant at <= |input|
      invariant emitted == Occurrences(p, input, at)
      decreases |input| - at
    {
      StepScan(p, input, at);
      var length: nat, value: byte;
      if Found(input, at, p.zero) {
        length, value := |p.zero|, 0;
      } else if Found(input, at, p.one) {
        length, value := |p.one|, 1;
      } else {
        at := at + 1;
        continue;
      }
      emitted := emitted + [Event(SymbolKind, at, length, value, 1)];
      at := at + length;
    }
  }

  // Gluing what was reported gives back exactly what decoding gives: the same
  // bits, or nothing found on both sides.
  lemma ReportsGlueToDecoded(p: Pair, input: seq<byte>, glued: seq<bool>)
    requires Distinctive(p) && |input| <= SIZE_MAX
    ensures var events := Occurrences(p, input, |input|);
            && (events == [] <==> Concat(events) == [])
            && (events != [] ==> Gluable(events) && (GluesTo(events, glued) <==> glued == Concat(events)))
  {
    var events := Occurrences(p, input, |input|);
    OccurrencesChained(p, input, |input|);
    hide Occurrences, Gluable, GluesTo, Chained, Concat;
    if events != [] {
      GlueChained(events, glued);
    } else {
      ConcatNothing(events);
    }
  }

  method IdentityDecode(p: Pair, input: seq<byte>, output: Bitstream) returns (status: Status)
    requires p in PAIRS && |input| <= SIZE_MAX
    requires output.Valid() && output.Bits() == []
    modifies output, output.bytes, output.bytes.data
    ensures output.Valid()
    ensures |p.zero| > 0 && |p.one| > 0
    ensures status == if !Utf8.ValidUtf8(input) then Eutf8
                      else if Occurrences(p, input, |input|) == [] then Enotfound else Ok
    ensures output.Bits() == if status == Eutf8 then [] else Concat(Occurrences(p, input, |input|))
  {
    hide Occurrences, Concat, ToBits, Utf8.ValidUtf8;
    PairsDistinctive();
    var valid, found, errorOffset := Utf8.Foreach(input);
    if valid != Ok {
      return Eutf8;
    }
    ReportsGlueToDecoded(p, input, []);
    var scanned, zeros, ones, first, last := ScanPair(p, input, output);
    status := if output.bitLength != 0 then Ok else Enotfound;
  }
}
