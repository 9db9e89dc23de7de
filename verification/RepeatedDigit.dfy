/** What lies beneath a token that repeats the digit 3. */
module RepeatedDigit {
  import opened Bits
  import opened Utf8
  import opened PlainText
  import opened FilterSpec
  import opened FilterTheorems
  import opened FilterVerdict
  import opened Prose
  import opened FilterShort
  import R = Radix

  function Repeat(b: byte, m: nat): (s: seq<byte>)
    ensures |s| == m && forall i :: 0 <= i < m ==> s[i] == b
  {
    seq(m, _ => b)
  }

  // ----- texts that score low -----

  lemma {:induction false} RepeatTally(b: byte, m: nat)
    requires !Whitespace(b) && (Alpha(b) ==> !CommonPair(b, b))
    ensures TallyAll(Repeat(b, m)).Some? ==>
            var t := TallyAll(Repeat(b, m)).value;
            t.whitespace == 0 && t.common == 0 && (t.previous.Some? ==> t.previous == Some(b))
  {
    hide CommonPair, Vowel;
    if m > 0 {
      RepeatTally(b, m - 1);
      assert Repeat(b, m)[..m - 1] == Repeat(b, m - 1);
    }
  }

  // Without blanks and common pairs text is worth at most 70.
  lemma RepeatScore(b: byte, m: nat)
    requires !Whitespace(b) && (Alpha(b) ==> !CommonPair(b, b))
    ensures PlaintextScore(Repeat(b, m)).score <= 70
  {
    hide CleanText, CommonPair;
    RepeatTally(b, m);
    hide TallyAll;
  }

  lemma {:induction false} DigitTally(m: nat)
    ensures TallyAll(Repeat(0x33, m)).Some? && TallyAll(Repeat(0x33, m)).value == EMPTY
  {
    if m > 0 {
      DigitTally(m - 1);
      assert Repeat(0x33, m)[..m - 1] == Repeat(0x33, m - 1);
    }
  }

  lemma DigitScore(m: nat)
    ensures PlaintextScore(Repeat(0x33, m)).score <= 50
  {
    hide CleanText;
    DigitTally(m);
    hide TallyAll;
  }

  // No listed pair begins with f.
  lemma NoPairOfF(i: nat)
    requires i < |PAIRS| && i % 2 == 0
    ensures PAIRS[i] != 'f'
  {
  }

  lemma {:induction false} Unlisted(pairs: string, a: byte, b: byte)
    requires forall i :: 0 <= i < |pairs| && i % 2 == 0 ==> pairs[i] as int != a
    ensures !PairListed(pairs, a, b)
  {
    if |pairs| >= 2 {
      forall i | 0 <= i < |pairs[2..]| && i % 2 == 0
        ensures pairs[2..][i] as int != a
      {
        assert (i + 2) % 2 == 0 && pairs[2..][i] == pairs[i + 2];
      }
      Unlisted(pairs[2..], a, b);
    }
  }

  lemma NotCommon()
    ensures !CommonPair(0x66, 0x66)
  {
    hide PairListed;
    forall i | 0 <= i < |PAIRS| && i % 2 == 0
      ensures PAIRS[i] as int != 0x66
    {
      NoPairOfF(i);
    }
    Unlisted(PAIRS, 0x66, 0x66);
  }

  // A lead byte of three is followed by two continuation bytes.
  lemma LeadFollows(s: seq<byte>)
    requires ValidUtf8(s) && s != [] && 0xE0 <= s[0] <= 0xEF
    ensures |s| >= 3 && s[1] / 64 == 2 && s[2] / 64 == 2
  {
    hide Encode;
    var cps: seq<Scalar> :| EncodeAll(cps) == s;
    assert EncodeAll([]) == [];
    var e := Encode(cps[0]);
    assert cps == [cps[0]] + cps[1..];
    EncodeAllConcat([cps[0]], cps[1..]);
    assert EncodeAll([cps[0]]) == e by {
      assert [cps[0]][..0] == [];
    }
    LeadLength(cps[0]);
    EncodeShape(cps[0]);
    assert s[0] == e[0] && s[1] == e[1] && s[2] == e[2];
  }

  lemma LeadLength(cp: Scalar)
    ensures 0xE0 <= Encode(cp)[0] <= 0xEF ==> |Encode(cp)| == 3
  {
  }

  // No encoding, or a control: such bytes are not text.
  predicate Broken(s: seq<byte>) {
    || (exists i :: 0 <= i < |s| && (s[i] > 0xF4 || (s[i] < 0x20 && !Whitespace(s[i]))))
    || (|s| >= 3 && 0xE0 <= s[0] <= 0xEF && (s[1] / 64 != 2 || s[2] / 64 != 2))
  }

  lemma BrokenIsNothing(s: seq<byte>)
    requires Broken(s)
    ensures PlaintextScore(s).score == 0 && !AnyDecodes(s)
  {
    hide AnyDecodes, PlaintextScore, ValidUtf8;
    if PlaintextScore(s).score > 0 {
      TextHas(s);
      if i :| 0 <= i < |s| && (s[i] > 0xF4 || (s[i] < 0x20 && !Whitespace(s[i]))) {
        ValidFacts(s, i);
      } else {
        LeadFollows(s);
      }
    }
    if AnyDecodes(s) {
      AnyDecodesPrintable(s);
    }
  }

  // ----- the layers of 3333... -----

  // The digit 3 in each alphabet.
  function Digit(r: R.Radix): nat {
    if r.Base32? then 27 else if r.Base32Hex? then 3 else 55
  }

  lemma DigitValue(r: R.Radix)
    ensures R.Value(r, 0x33) == Some(Digit(r)) && 0x33 != R.PAD
  {
  }

  lemma {:induction false} NoPads(s: seq<byte>)
    requires R.PAD !in s
    ensures R.Body(s) == s
  {
    R.BodyIs(s, |s|);
    assert s[..|s|] == s;
  }

  // Bit k of the token's digits.
  lemma {:induction false} DigitBitAt(w: nat, ds: seq<nat>, v: nat, k: nat)
    requires 5 <= w <= 6 && k < w * |ds| && forall i :: 0 <= i < |ds| ==> ds[i] == v
    ensures R.DigitBits(w, ds)[k] == ToBits(v, w)[k % w]
    decreases |ds|
  {
    hide ToBits;
    var m := |ds| - 1;
    R.MulStep(w, |ds|);
    if k < w * m {
      DigitBitAt(w, ds[..m], v, k);
    } else {
      Remainder(k, w, m);
    }
  }

  lemma Remainder(k: nat, w: nat, m: nat)
    requires 5 <= w <= 6 && w * m <= k < w * m + w
    ensures k % w == k - w * m
  {
    var j := k - w * m;
    WholeTurns(j, w, m);
  }

  lemma {:induction false} WholeTurns(j: nat, w: nat, m: nat)
    requires 5 <= w <= 6 && j < w
    ensures (w * m + j) % w == j
  {
    if m > 0 {
      WholeTurns(j, w, m - 1);
      R.MulStep(w, m);
      OneTurn(w * (m - 1) + j, w);
    }
  }

  lemma OneTurn(x: nat, w: nat)
    requires 5 <= w <= 6
    ensures (x + w) % w == x % w
  {
    if w == 5 {
      assert (x + 5) % 5 == x % 5;
    } else {
      assert (x + 6) % 6 == x % 6;
    }
  }

  // A layer's bits repeat the digit's.
  lemma LayerBits(r: R.Radix, m: nat, d: seq<byte>)
    requires R.Accepts(r, Repeat(0x33, m), d)
    ensures |d| >= 5
    ensures forall k :: 0 <= k < 8 * |d| ==> BytesBits(d)[k] == ToBits(Digit(r), R.Width(r))[k % R.Width(r)]
  {
    hide R.Value, R.DigitBits, BytesBits, ToBits, R.Body, R.RemainderOk, R.ExpectedPads;
    var s, w := Repeat(0x33, m), R.Width(r);
    DigitValue(r);
    NoPads(s);
    var ds := R.ValuesOf(r, s);
    LayerLengthAtLeast(w, m, |d|, R.TailBits(r, m));
    forall k | 0 <= k < 8 * |d|
      ensures BytesBits(d)[k] == ToBits(Digit(r), w)[k % w]
    {
      DigitBitAt(w, ds, Digit(r), k);
      assert R.DigitBits(w, ds)[k] == BytesBits(d)[k];
    }
  }

  lemma LayerLengthAtLeast(w: nat, m: nat, bytes: nat, tail: nat)
    requires 5 <= w <= 6 && m >= 8 && w * m == 8 * bytes + tail && tail < 8
    ensures bytes >= 5
  {
    assert w * m >= 40;
  }

  // One byte of a layer, reversed or inverted.
  lemma LayerByte(r: R.Radix, m: nat, d: seq<byte>, j: nat, reverse: bool, invert: bool)
    requires R.Accepts(r, Repeat(0x33, m), d) && j < |d|
    ensures forall c :: 0 <= c < 8 ==>
              ToBits(VaryByte(d[j], reverse, invert), 8)[c] ==
              (ToBits(Digit(r), R.Width(r))[(8 * j + (if reverse then 7 - c else c)) % R.Width(r)] != invert)
  {
    hide R.Accepts, BytesBits, ToBits, VaryByte, ByteBit;
    LayerBits(r, m, d);
    ByteBitIsToBits(d[j]);
    forall c | 0 <= c < 8
      ensures ToBits(VaryByte(d[j], reverse, invert), 8)[c] ==
              (ToBits(Digit(r), R.Width(r))[(8 * j + (if reverse then 7 - c else c)) % R.Width(r)] != invert)
    {
      var k := if reverse then 7 - c else c;
      VariedBits(d[j], reverse, invert, c);
      BytesBitsAt(d, 8 * j + k);
    }
  }

  // The bits of the digit, spelled out.
  lemma DigitBitsAre(r: R.Radix)
    ensures ToBits(Digit(r), R.Width(r)) ==
            if r.Base32? then [true, true, false, true, true]
            else if r.Base32Hex? then [false, false, false, true, true]
            else [true, true, false, true, true, true]
  {
    hide ToBits;
    NoBits(0);
    if r.Base32Hex? {
      NextBit(0, 0, false);
      NextBit(0, 1, false);
      NextBit(0, 2, false);
      NextBit(0, 3, true);
      NextBit(1, 4, true);
    } else {
      NextBit(0, 0, true);
      NextBit(1, 1, true);
      NextBit(3, 2, false);
      NextBit(6, 3, true);
      NextBit(13, 4, true);
      NextBit(27, 5, true);
    }
  }

  lemma NoBits(v: nat)
    ensures ToBits(v, 0) == []
  {
  }

  lemma NextBit(v: nat, w: nat, bit: bool)
    ensures ToBits(2 * v + (if bit then 1 else 0), w + 1) == ToBits(v, w) + [bit]
  {
  }

  lemma ByteValue(b: byte)
    ensures b as int == FromBits(ToBits(b, 8)) && |ToBits(b, 8)| == 8
  {
    FromToBits(b, 8);
    Pow2Eight();
    LowOfSmall(b, 8);
  }

  // Every radix layer of the token is broken, however its bytes are altered.
  lemma LayerBroken(r: R.Radix, m: nat, d: seq<byte>, reverse: bool, invert: bool)
    requires R.Accepts(r, Repeat(0x33, m), d)
    ensures Broken(VaryBytes(d, reverse, invert))
  {
    hide R.Accepts, VaryByte, Broken;
    LayerBits(r, m, d);
    var s := VaryBytes(d, reverse, invert);
    if r.Base32? {
      Base32Layer(m, d, reverse, invert);
    } else if r.Base32Hex? {
      HexLayer(m, d, reverse, invert);
    } else {
      Base64Layer(r, m, d, reverse, invert);
    }
  }

  lemma LayerValue(r: R.Radix, m: nat, d: seq<byte>, j: nat, reverse: bool, invert: bool, t: seq<bool>)
    requires R.Accepts(r, Repeat(0x33, m), d) && j < |d|
    requires t == ToBits(VaryByte(d[j], reverse, invert), 8)
    ensures VaryByte(d[j], reverse, invert) as int ==
            (if t[0] then 128 else 0) + (if t[1] then 64 else 0) + (if t[2] then 32 else 0) + (if t[3] then 16 else 0)
            + (if t[4] then 8 else 0) + (if t[5] then 4 else 0) + (if t[6] then 2 else 0) + (if t[7] then 1 else 0)
  {
    hide R.Accepts, VaryByte, ToBits, FromBits;
    ByteValue(VaryByte(d[j], reverse, invert));
    EightBits(t);
  }

  // DE F7 BD EF 7B
  lemma Base32Layer(m: nat, d: seq<byte>, reverse: bool, invert: bool)
    requires R.Accepts(R.Base32, Repeat(0x33, m), d) && |d| >= 5
    ensures Broken(VaryBytes(d, reverse, invert))
  {
    hide R.Accepts, VaryByte, ToBits;
    DigitBitsAre(R.Base32);
    var j := if reverse && !invert then 3 else 1;
    LayerByte(R.Base32, m, d, j, reverse, invert);
    LayerValue(R.Base32, m, d, j, reverse, invert, ToBits(VaryByte(d[j], reverse, invert), 8));
    assert VaryBytes(d, reverse, invert)[j] == VaryByte(d[j], reverse, invert);
  }

  // 18 C6 31 8C 63
  lemma HexLayer(m: nat, d: seq<byte>, reverse: bool, invert: bool)
    requires R.Accepts(R.Base32Hex, Repeat(0x33, m), d) && |d| >= 5
    ensures Broken(VaryBytes(d, reverse, invert))
  {
    hide R.Accepts, VaryByte, ToBits;
    DigitBitsAre(R.Base32Hex);
    LayerByte(R.Base32Hex, m, d, 0, reverse, invert);
    LayerValue(R.Base32Hex, m, d, 0, reverse, invert, ToBits(VaryByte(d[0], reverse, invert), 8));
    var s := VaryBytes(d, reverse, invert);
    assert s[0] == VaryByte(d[0], reverse, invert);
    if invert {
      var j := if reverse then 2 else 1;
      HexFollower(m, d, reverse);
      assert s[j] == VaryByte(d[j], reverse, true);
    }
  }

  // Inverted, the lead byte E7 lacks a continuation byte.
  lemma HexFollower(m: nat, d: seq<byte>, reverse: bool)
    requires R.Accepts(R.Base32Hex, Repeat(0x33, m), d) && |d| >= 5
    ensures VaryByte(d[if reverse then 2 else 1], reverse, true) / 64 != 2
  {
    hide R.Accepts, VaryByte, ToBits;
    DigitBitsAre(R.Base32Hex);
    var j := if reverse then 2 else 1;
    LayerByte(R.Base32Hex, m, d, j, reverse, true);
    LayerValue(R.Base32Hex, m, d, j, reverse, true, ToBits(VaryByte(d[j], reverse, true), 8));
  }

  // DF 7D F7
  lemma Base64Layer(r: R.Radix, m: nat, d: seq<byte>, reverse: bool, invert: bool)
    requires (r.Base64? || r.Base64Url?) && R.Accepts(r, Repeat(0x33, m), d) && |d| >= 5
    ensures Broken(VaryBytes(d, reverse, invert))
  {
    hide R.Accepts, VaryByte, ToBits;
    DigitBitsAre(r);
    var j := if reverse then 0 else 2;
    LayerByte(r, m, d, j, reverse, invert);
    LayerValue(r, m, d, j, reverse, invert, ToBits(VaryByte(d[j], reverse, invert), 8));
    assert VaryBytes(d, reverse, invert)[j] == VaryByte(d[j], reverse, invert);
  }

  // ----- the whole tree beneath it -----

  lemma {:induction false} Encode16Repeat(m: nat)
    ensures R.Encode16(Repeat(0x33, m)) == Repeat(0x33, 2 * m)
  {
    if m > 0 {
      var s := Repeat(0x33, m);
      assert s[..m - 1] == Repeat(0x33, m - 1);
      Encode16Repeat(m - 1);
      assert R.HexPair(0x33) == [0x33, 0x33];
      assert Repeat(0x33, 2 * m) == Repeat(0x33, 2 * m - 2) + [0x33, 0x33];
    }
  }

  // Base16 halves the token.
  lemma HexHalves(m: nat, d: seq<byte>)
    requires R.HexAccepts(Repeat(0x33, m), d)
    ensures m >= 12 && m == 2 * |d| && d == Repeat(0x33, |d|)
  {
    var s := Repeat(0x33, m);
    assert R.UpperAll(s) == s;
    assert m == 2 * |d|;
    Encode16Repeat(|d|);
    R.Encode16Injective(d, Repeat(0x33, |d|));
  }

  lemma HexDecodes(m: nat)
    requires m >= 6
    ensures DecodeOf(Base16, Repeat(0x33, 2 * m)) == Some(Repeat(0x33, m))
  {
    Encode16Repeat(m);
    assert R.UpperAll(Repeat(0x33, 2 * m)) == Repeat(0x33, 2 * m);
    DecodeOfIs(Base16, Repeat(0x33, 2 * m), Repeat(0x33, m));
  }

  // Altered, it is itself or a run of CC.
  lemma RepeatVaried(m: nat, reverse: bool, invert: bool)
    ensures VaryBytes(Repeat(0x33, m), reverse, invert) == Repeat(if reverse == invert then 0x33 else 0xCC, m)
  {
    hide VaryByte;
    DigitVaried(reverse, invert);
  }

  lemma DigitVaried(reverse: bool, invert: bool)
    ensures VaryByte(0x33, reverse, invert) == if reverse == invert then 0x33 else 0xCC
  {
    hide ToBits, VaryByte, FromBits;
    ThreeBits();
    var b := VaryByte(0x33, reverse, invert);
    forall c | 0 <= c < 8
      ensures ToBits(b, 8)[c] == (ToBits(0x33, 8)[if reverse then 7 - c else c] != invert)
    {
      VariedBits(0x33, reverse, invert, c);
    }
    ByteValue(b);
    EightBits(ToBits(b, 8));
  }

  lemma ThreeBits()
    ensures ToBits(0x33, 8) == [false, false, true, true, false, false, true, true]
  {
    hide ToBits;
    NoBits(0);
    NextBit(0, 0, false);
    NextBit(0, 1, false);
    NextBit(0, 2, true);
    NextBit(1, 3, true);
    NextBit(3, 4, false);
    NextBit(6, 5, false);
    NextBit(12, 6, true);
    NextBit(25, 7, true);
  }

  // Bytes that decode to nothing have no layers.
  lemma Alone(input: seq<byte>, path: Path)
    requires path.depth <= MAX_DEPTH && !AnyDecodes(input)
    ensures BytesNodes(input, path) == [Node(input, path)]
  {
    hide AnyDecodes;
    if path.depth < MAX_DEPTH {
      NoRadices(input, path, 5);
    }
  }

  lemma NoRadices(input: seq<byte>, path: Path, k: nat)
    requires path.depth < MAX_DEPTH && k <= 5 && !AnyDecodes(input)
    ensures RadicesNodes(input, path, k) == []
    decreases k
  {
    hide Decodes, VariantsNodes;
    if k > 0 {
      NoRadices(input, path, k - 1);
      assert DecodeOf(RADIX_OPS[k - 1], input).None?;
    }
  }

  // Nothing in the tree beneath the token is worth more than 70 as text.
  lemma DigitsQuiet(m: nat, path: Path, node: Node)
    requires path.depth <= MAX_DEPTH && node in BytesNodes(Repeat(0x33, m), path)
    ensures PlaintextScore(node.bytes).score <= 70
    decreases MAX_DEPTH - path.depth, 1, 0
  {
    hide RadicesNodes, PlaintextScore;
    if node == Node(Repeat(0x33, m), path) {
      DigitScore(m);
    } else {
      RadicesQuiet(m, path, 5, node);
    }
  }

  lemma RadicesQuiet(m: nat, path: Path, k: nat, node: Node)
    requires path.depth < MAX_DEPTH && k <= 5 && node in RadicesNodes(Repeat(0x33, m), path, k)
    ensures PlaintextScore(node.bytes).score <= 70
    decreases MAX_DEPTH - path.depth, 0, k
  {
    hide VariantsNodes, Decodes, PlaintextScore, Repeat;
    if node in RadicesNodes(Repeat(0x33, m), path, k - 1) {
      RadicesQuiet(m, path, k - 1, node);
    } else {
      var t := RADIX_OPS[k - 1];
      var d := DecodeOf(t, Repeat(0x33, m)).value;
      LayerQuiet(m, t, d, Append(path, t), node);
    }
  }

  lemma LayerQuiet(m: nat, t: Transform, d: seq<byte>, path: Path, node: Node)
    requires 0 < path.depth <= MAX_DEPTH && IsRadix(t) && Decodes(t, Repeat(0x33, m), d)
    requires node in VariantsNodes(d, path)
    ensures PlaintextScore(node.bytes).score <= 70
    decreases MAX_DEPTH - path.depth, 2, 0
  {
    hide BytesNodes, VariantsNodes, VaryBytes, PlaintextScore, R.Accepts, R.HexAccepts, Repeat, Broken;
    var reverse, invert := VariantOf(d, path, node);
    var s, p := VaryBytes(d, reverse, invert), Vary(path, reverse, invert);
    if t == Base16 {
      HexHalves(m, d);
      RepeatVaried(|d|, reverse, invert);
      if reverse == invert {
        DigitsQuiet(|d|, p, node);
      } else {
        HighRepeat(0xCC, |d|);
        Alone(s, p);
      }
    } else {
      LayerBroken(RadixOf(t), m, d, reverse, invert);
      BrokenIsNothing(s);
      Alone(s, p);
    }
  }

  lemma HighRepeat(b: byte, m: nat)
    requires b >= 0x80
    ensures PlaintextScore(Repeat(b, m)).score <= 50 && !AnyDecodes(Repeat(b, m))
  {
    hide PlaintextScore, AnyDecodes;
    HighScoresLow(Repeat(b, m));
    assert m > 0 ==> Repeat(b, m)[0] >= 0x80;
    if AnyDecodes(Repeat(b, m)) {
      AnyDecodesPrintable(Repeat(b, m));
    }
  }
}
