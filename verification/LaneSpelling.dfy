/** Payloads written in the Unicode lanes, and what the decoder reads back. */
module LaneSpelling {
  import opened Bits
  import opened Bitstream
  import opened UnicodeLanes
  import opened Composite
  import opened Utf8

  // One scalar for each bit.
  predicate WrittenIn(cps: seq<nat>, bits: seq<bool>, zero: nat, one: nat) {
    |cps| == |bits| && forall i :: 0 <= i < |bits| ==> cps[i] == if bits[i] then one else zero
  }

  lemma {:induction false} ZeroWidthReads(cps: seq<nat>, bits: seq<bool>, n: nat)
    requires WrittenIn(cps, bits, 0x200B, 0x200C) && n <= |bits|
    ensures LaneBits(ZeroWidth, cps, n) == bits[..n]
  {
    hide SymbolBits, PayloadOpen, SincePause;
    if n > 0 {
      ZeroWidthReads(cps, bits, n - 1);
      OneBit(bits[n - 1]);
      assert bits[..n] == bits[..n - 1] + [bits[n - 1]];
    }
  }

  lemma {:induction false} IsolateReads(cps: seq<nat>, bits: seq<bool>, n: nat)
    requires WrittenIn(cps, bits, 0x2066, 0x2067) && n <= |bits|
    ensures LaneBits(Isolate, cps, n) == bits[..n]
  {
    hide SymbolBits, PayloadOpen, SincePause;
    if n > 0 {
      IsolateReads(cps, bits, n - 1);
      OneBit(bits[n - 1]);
      assert bits[..n] == bits[..n - 1] + [bits[n - 1]];
    }
  }

  // A base letter and one of two selectors for each bit.
  predicate WrittenAfter(cps: seq<nat>, bits: seq<bool>, base: nat, zero: nat, one: nat) {
    && |cps| == 2 * |bits|
    && forall i :: 0 <= i < |bits| ==> cps[2 * i] == base && cps[2 * i + 1] == if bits[i] then one else zero
  }

  lemma {:induction false} MongolianReads(cps: seq<nat>, bits: seq<bool>, n: nat)
    requires WrittenAfter(cps, bits, 0x1820, 0x180B, 0x180C) && n <= |bits|
    ensures LaneBits(Mongolian, cps, 2 * n) == bits[..n]
  {
    hide LaneBits;
    if n == 0 {
      NoBits(Mongolian, cps);
    } else {
      var m := n - 1;
      MongolianReads(cps, bits, m);
      TwoMore(Mongolian, cps, m);
      OneBit(bits[m]);
      assert bits[..n] == bits[..m] + [bits[m]];
    }
  }

  lemma NoBits(lane: Lane, cps: seq<nat>)
    ensures LaneBits(lane, cps, 0) == []
  {
  }

  function BitsAt(lane: Lane, cps: seq<nat>, i: nat): seq<bool>
    requires i < |cps|
  {
    match SymbolAt(lane, cps, i)
    case None => []
    case Some(y) => SymbolBits(y.value, y.width, y.lsbFirst)
  }

  lemma TwoMore(lane: Lane, cps: seq<nat>, m: nat)
    requires 2 * m + 1 < |cps|
    ensures LaneBits(lane, cps, 2 * (m + 1)) ==
            LaneBits(lane, cps, 2 * m) + BitsAt(lane, cps, 2 * m) + BitsAt(lane, cps, 2 * m + 1)
  {
    hide SymbolAt, SymbolBits;
  }

  // A scalar repeated for 0, the iteration mark after a different one for 1.
  predicate WrittenInPairs(cps: seq<nat>, bits: seq<bool>) {
    && |cps| == 2 * |bits|
    && forall i :: 0 <= i < |bits| ==>
         && cps[2 * i] != 0x3001 && (bits[i] ==> cps[2 * i] != 0x3005)
         && cps[2 * i + 1] == if bits[i] then 0x3005 else cps[2 * i]
  }

  lemma {:induction false} IterationReads(cps: seq<nat>, bits: seq<bool>, n: nat)
    requires WrittenInPairs(cps, bits) && n <= |bits|
    ensures SincePause(cps, 2 * n) % 2 == 0
    ensures LaneBits(IterationMarks, cps, 2 * n) == bits[..n]
  {
    hide LaneBits;
    if n == 0 {
      NoBits(IterationMarks, cps);
    } else {
      var m := n - 1;
      IterationReads(cps, bits, m);
      TwoMore(IterationMarks, cps, m);
      PairSince(cps, m);
      OneBit(bits[m]);
      assert bits[..n] == bits[..m] + [bits[m]];
    }
  }

  lemma PairSince(cps: seq<nat>, m: nat)
    requires 2 * m + 1 < |cps| && cps[2 * m] != 0x3001 && cps[2 * m + 1] != 0x3001
    ensures SincePause(cps, 2 * m + 1) == SincePause(cps, 2 * m) + 1
    ensures SincePause(cps, 2 * (m + 1)) == SincePause(cps, 2 * m) + 2
  {
  }

  // A byte for each tag, between the begin and the cancel tag.
  predicate WrittenInTags(cps: seq<nat>, text: seq<byte>) {
    && |cps| == |text| + 2 && cps[0] == 0xE0001 && cps[|text| + 1] == 0xE007F
    && forall i :: 0 <= i < |text| ==> 0x20 <= text[i] <= 0x7E && cps[i + 1] == 0xE0000 + text[i] as nat
  }

  lemma {:induction false} TagsRead(cps: seq<nat>, text: seq<byte>, n: nat)
    requires WrittenInTags(cps, text) && n <= |text|
    ensures LaneBits(Tags, cps, n + 1) == BytesBits(text[..n])
    ensures n == |text| ==> LaneBits(Tags, cps, |cps|) == BytesBits(text)
  {
    hide PayloadOpen, ToBits;
    assert n == |text| ==> text[..n] == text;
    if n > 0 {
      TagsRead(cps, text, n - 1);
      assert text[..n][..n - 1] == text[..n - 1];
      InPayload(cps, text, n);
    }
  }

  lemma InPayload(cps: seq<nat>, text: seq<byte>, i: nat)
    requires WrittenInTags(cps, text) && i <= |text|
    ensures i > 0 ==> PayloadOpen(cps, i)
  {
    if i > 0 {
      assert cps[0] == TAG_BEGIN;
      forall m: nat | 0 < m < i
        ensures cps[m] != TAG_CANCEL
      {
        assert cps[m - 1 + 1] == 0xE0000 + text[m - 1] as nat;
      }
    }
  }

  // Two selectors for each byte, high nibble first.
  predicate WrittenInNibbles(cps: seq<nat>, bytes: seq<byte>) {
    && |cps| == 2 * |bytes|
    && forall i :: 0 <= i < |bytes| ==>
         cps[2 * i] == 0xFE00 + bytes[i] as nat / 16 && cps[2 * i + 1] == 0xFE00 + bytes[i] as nat % 16
  }

  lemma {:induction false} VariationReads(cps: seq<nat>, bytes: seq<byte>, n: nat)
    requires WrittenInNibbles(cps, bytes) && n <= |bytes|
    ensures LaneBits(Variation, cps, 2 * n) == BytesBits(bytes[..n])
  {
    hide LaneBits, ToBits, SymbolBits;
    if n == 0 {
      NoBits(Variation, cps);
    } else {
      var m := n - 1;
      VariationReads(cps, bytes, m);
      assert bytes[..n][..m] == bytes[..m];
      TwoMore(Variation, cps, m);
      TwoNibbles(bytes[m]);
    }
  }

  lemma TwoNibbles(b: byte)
    ensures SymbolBits(b / 16, 4, false) + SymbolBits(b % 16, 4, false) == ToBits(b, 8)
  {
    Pow2Eight();
    ToBitsAppend(b / 16, 4, b % 16, 4);
  }

  // ----- code point maps -----

  predicate DistinctPoints(symbols: seq<CodepointSymbol>) {
    forall i, j :: 0 <= i < j < |symbols| ==> symbols[i].codepoint != symbols[j].codepoint
  }

  lemma {:induction false} EntryFound(symbols: seq<CodepointSymbol>, k: nat)
    requires k < |symbols| && DistinctPoints(symbols)
    ensures FirstEntry(symbols, symbols[k].codepoint) == Some(symbols[k].value)
  {
    if k > 0 {
      EntryFound(symbols[1..], k - 1);
    }
  }

  // The code points of the chosen entries.
  predicate WrittenInMap(cps: seq<nat>, symbols: seq<CodepointSymbol>, ks: seq<nat>) {
    |cps| == |ks| && forall i :: 0 <= i < |ks| ==> ks[i] < |symbols| && cps[i] == symbols[ks[i]].codepoint
  }

  // The bits of a value in the order asked for.
  function OrderedBits(v: nat, w: nat, lsbFirst: bool): (s: seq<bool>)
    ensures |s| == w
  {
    seq(w, j requires 0 <= j < w => Shr(v, if lsbFirst then j else w - 1 - j) % 2 == 1)
  }

  function MapBits(symbols: seq<CodepointSymbol>, w: nat, lsbFirst: bool, ks: seq<nat>): seq<bool>
    requires forall i :: 0 <= i < |ks| ==> ks[i] < |symbols|
  {
    if ks == [] then []
    else
      var m := |ks| - 1;
      MapBits(symbols, w, lsbFirst, ks[..m]) + OrderedBits(symbols[ks[m]].value, w, lsbFirst)
  }

  // Each entry gives back the bits of its value, in the order asked for.
  lemma {:induction false} MapReads(a: CodepointAlphabet, lsbVariant: bool, cps: seq<nat>, ks: seq<nat>, n: nat)
    requires DistinctPoints(a.symbols) && WrittenInMap(cps, a.symbols, ks) && n <= |ks|
    ensures LaneBits(CodepointMap(a, lsbVariant), cps, n) ==
            MapBits(a.symbols, a.bitWidth, lsbVariant || a.lsbFirst, ks[..n])
  {
    hide SymbolBits, FirstEntry, OrderedBits;
    if n > 0 {
      var m := n - 1;
      MapReads(a, lsbVariant, cps, ks, m);
      EntryFound(a.symbols, ks[m]);
      Ordered(a.symbols[ks[m]].value, a.bitWidth, lsbVariant || a.lsbFirst);
      assert ks[..n][..m] == ks[..m];
    }
  }

  lemma Ordered(v: nat, w: nat, lsbFirst: bool)
    ensures SymbolBits(v, w, lsbFirst) == OrderedBits(v, w, lsbFirst)
  {
    hide SymbolBits, Shr;
    forall j | 0 <= j < w
      ensures SymbolBits(v, w, lsbFirst)[j] == OrderedBits(v, w, lsbFirst)[j]
    {
      SymbolBitAt(v, w, lsbFirst, j);
    }
  }

  predicate DistinctValues(symbols: seq<CodepointSymbol>) {
    forall i, j :: 0 <= i < j < |symbols| ==> symbols[i].value != symbols[j].value
  }

  // Lists of entries with different values are read differently.
  lemma {:induction false} MapInjective(a: CodepointAlphabet, lsbFirst: bool, ks: seq<nat>, ls: seq<nat>)
    requires AlphabetOk(a) && DistinctValues(a.symbols)
    requires forall i :: 0 <= i < |ks| ==> ks[i] < |a.symbols|
    requires forall i :: 0 <= i < |ls| ==> ls[i] < |a.symbols|
    requires MapBits(a.symbols, a.bitWidth, lsbFirst, ks) == MapBits(a.symbols, a.bitWidth, lsbFirst, ls)
    ensures ks == ls
  {
    hide OrderedBits, AlphabetOk, DistinctValues;
    var w := a.bitWidth;
    AtLeastOneBit(a);
    MapBitsLength(a.symbols, w, lsbFirst, ks);
    MapBitsLength(a.symbols, w, lsbFirst, ls);
    SameCount(w, |ks|, |ls|);
    if ks != [] {
      var m := |ks| - 1;
      var x, y := MapBits(a.symbols, w, lsbFirst, ks[..m]), MapBits(a.symbols, w, lsbFirst, ls[..m]);
      var p, q := OrderedBits(a.symbols[ks[m]].value, w, lsbFirst), OrderedBits(a.symbols[ls[m]].value, w, lsbFirst);
      MapBitsLength(a.symbols, w, lsbFirst, ks[..m]);
      MapBitsLength(a.symbols, w, lsbFirst, ls[..m]);
      SameParts(x, p, y, q);
      MapInjective(a, lsbFirst, ks[..m], ls[..m]);
      SameValue(a, ks[m], ls[m], lsbFirst);
      assert ks == ks[..m] + [ks[m]] && ls == ls[..m] + [ls[m]];
    }
  }

  lemma AtLeastOneBit(a: CodepointAlphabet)
    requires AlphabetOk(a)
    ensures a.bitWidth >= 1
  {
  }

  lemma SameCount(w: nat, m: nat, n: nat)
    requires w > 0 && w * m == w * n
    ensures m == n
  {
  }

  lemma SameParts(x: seq<bool>, p: seq<bool>, y: seq<bool>, q: seq<bool>)
    requires x + p == y + q && |x| == |y|
    ensures x == y && p == q
  {
    assert x == (x + p)[..|x|] && y == (y + q)[..|y|];
    assert p == (x + p)[|x|..] && q == (y + q)[|y|..];
  }

  lemma {:induction false} MapBitsLength(symbols: seq<CodepointSymbol>, w: nat, lsbFirst: bool, ks: seq<nat>)
    requires forall i :: 0 <= i < |ks| ==> ks[i] < |symbols|
    ensures |MapBits(symbols, w, lsbFirst, ks)| == w * |ks|
  {
    if ks != [] {
      WholeStep(w, |ks|);
      MapBitsLength(symbols, w, lsbFirst, ks[..|ks| - 1]);
    }
  }

  lemma WholeStep(w: nat, n: nat)
    requires n > 0
    ensures w * n == w * (n - 1) + w
  {
  }

  lemma SameValue(a: CodepointAlphabet, k: nat, l: nat, lsbFirst: bool)
    requires AlphabetOk(a) && k < |a.symbols| && l < |a.symbols|
    requires DistinctValues(a.symbols)
    requires var w := a.bitWidth;
             OrderedBits(a.symbols[k].value, w, lsbFirst) == OrderedBits(a.symbols[l].value, w, lsbFirst)
    ensures k == l
  {
    hide OrderedBits, ToBits, Pow2;
    var w, v, u := a.bitWidth, a.symbols[k].value, a.symbols[l].value;
    Ordered(v, w, lsbFirst);
    Ordered(u, w, lsbFirst);
    if lsbFirst {
      forall j | 0 <= j < w
        ensures ToBits(v, w)[j] == ToBits(u, w)[j]
      {
        assert SymbolBits(v, w, true)[w - 1 - j] == SymbolBits(u, w, true)[w - 1 - j];
      }
    }
    ToBitsInjective(v, u, w);
  }

  // ----- what is reported -----

  // The symbol of a scalar, with the bytes the scalar takes.
  predicate Reported(lane: Lane, found: seq<ScalarAt>, i: nat, e: Event) {
    && i < |found| && SymbolAt(lane, Values(found), i).Some?
    && e.kind == SymbolKind && e.offset == found[i].offset && e.length == found[i].length
    && e.value == SymbolAt(lane, Values(found), i).value.value
    && e.width == SymbolAt(lane, Values(found), i).value.width
  }

  // A report is one of the scalars that stand for a symbol, and each of them
  // is reported.
  lemma {:induction false} EveryReport(lane: Lane, found: seq<ScalarAt>, n: nat, e: Event)
    requires n <= |found| && forall i :: 0 <= i < |found| ==> found[i].length < 256
    ensures e in LaneEvents(lane, found, n) <==> exists i: nat :: i < n && Reported(lane, found, i, e)
  {
    hide SymbolAt;
    if n > 0 {
      EveryReport(lane, found, n - 1, e);
      LastReport(lane, found, n - 1, e);
    }
  }

  lemma LastReport(lane: Lane, found: seq<ScalarAt>, n: nat, e: Event)
    requires n < |found| && forall i :: 0 <= i < |found| ==> found[i].length < 256
    ensures e in LaneEvents(lane, found, n + 1) <==> e in LaneEvents(lane, found, n) || Reported(lane, found, n, e)
  {
    hide SymbolAt;
  }
}
