/** Streams that show the filter's documentation and comments promise more than
    the code does: the digit 3 eight times, the same thirty-two times, and a
    text wrapped three times. */
module FilterWitness {
  import opened Bits
  import opened Scorer
  import opened PlainText
  import opened FilterSpec
  import opened FilterTheorems
  import opened FilterVerdict
  import opened FilterNodes
  import opened FilterGate
  import opened Prose
  import opened FilterShort
  import opened FilterEight
  import opened Wave
  import opened RepeatedDigit
  import R = Radix
  import S = Score

  // ----- the wave -----

  // Whole groups of symbols decode.
  lemma {:induction false} BitsAreBytes(bits: seq<bool>) returns (bytes: seq<byte>)
    requires |bits| % 8 == 0
    ensures BytesBits(bytes) == bits
  {
    hide ToBits;
    if bits == [] {
      bytes := [];
    } else {
      var m := |bits| - 8;
      var before := BitsAreBytes(bits[..m]);
      var last := ByteOf(bits[m..]);
      ToBitsOfByte(bits[m..]);
      bytes := before + [last];
      assert bytes[..|bytes| - 1] == before && bits == bits[..m] + bits[m..];
    }
  }

  lemma GroupDecodes(r: R.Radix, s: seq<byte>) returns (d: seq<byte>)
    requires |s| == 8 && R.AllValues(r, s) && R.PAD !in s
    ensures R.Accepts(r, s, d)
  {
    R.BodyIs(s, 8);
    assert s[..8] == s;
    hide R.Value, R.DigitBits, R.Body, R.AllValues, R.ValuesOf, BytesBits;
    var bits := R.DigitBits(R.Width(r), R.ValuesOf(r, s));
    d := BitsAreBytes(bits);
    assert bits == BytesBits(d) + R.Zeros(0);
  }

  predicate Alternates(t: seq<bool>) {
    |t| == 8 && forall k :: 0 <= k < 6 ==> t[k + 2] != t[k]
  }

  lemma AlternatingByte(b: byte)
    requires Alternates(ToBits(b, 8))
    ensures b in {0x33, 0x66, 0x99, 0xCC}
  {
    var t := ToBits(b, 8);
    FromToBits(b, 8);
    Pow2Eight();
    LowOfSmall(b, 8);
    hide ToBits;
    assert t[2] != t[0] && t[3] != t[1] && t[4] != t[2] && t[5] != t[3] && t[6] != t[4] && t[7] != t[5];
    EightBits(t);
  }

  // ----- readings of the wave -----

  lemma WaveBit(n: nat, i: nat, j: nat)
    requires i + 8 * j < n
    ensures Square(n)[i + 8 * j] == High(i)
  {
    EightTurns(i, j);
  }

  lemma {:induction false} EightTurns(i: nat, j: nat)
    ensures (i + 8 * j) % 4 == i % 4
  {
    if j > 0 {
      EightTurns(i, j - 1);
      var x := i + 8 * (j - 1);
      assert (x + 8) % 4 == x % 4;
    }
  }

  // Bit c of a reading's byte does not depend on which byte it is.
  lemma ReadingBit(n: nat, offset: nat, r: bool, i: bool, j: nat, c: nat)
    requires offset <= n && j < (n - offset) / 8 && c < 8
    ensures ToBits(VaryByte(RawBytes(Square(n), offset)[j], r, i), 8)[c] ==
            (High(offset + (if r then 7 - c else c)) != i)
  {
    hide ToBits, VaryByte, High, RawBytes, Square;
    var k, at := if r then 7 - c else c, offset + 8 * j;
    VariedBits(RawBytes(Square(n), offset)[j], r, i, c);
    RawByteBits(Square(n), offset, j);
    assert Square(n)[at..at + 8][k] == Square(n)[at + k];
    WaveBit(n, offset + k, j);
  }

  // Every reading repeats one of four bytes; at the first phase, 33 or CC.
  lemma WaveReading(n: nat, offset: nat, r: bool, i: bool) returns (b: byte)
    requires offset < 8 && n >= 64 && n % 8 == 0
    ensures VaryBytes(RawBytes(Square(n), offset), r, i) == Repeat(b, (n - offset) / 8)
    ensures b in {0x33, 0x66, 0x99, 0xCC} && (offset == 0 ==> b == if r == i then 0x33 else 0xCC)
  {
    hide ToBits, VaryByte, RawBytes, High, Alternates, FromBits;
    var raw := RawBytes(Square(n), offset);
    b := VaryByte(raw[0], r, i);
    forall j | 0 <= j < |raw|
      ensures VaryByte(raw[j], r, i) == b
    {
      SameByte(n, offset, r, i, j);
    }
    ReadingAlternates(n, offset, r, i);
    AlternatingByte(b);
    if offset == 0 {
      FirstPhaseByte(n, r, i);
    }
  }

  lemma SameByte(n: nat, offset: nat, r: bool, i: bool, j: nat)
    requires offset < 8 && n >= 64 && j < (n - offset) / 8
    ensures VaryByte(RawBytes(Square(n), offset)[j], r, i) == VaryByte(RawBytes(Square(n), offset)[0], r, i)
  {
    hide ToBits, VaryByte, RawBytes, High, FromBits;
    var x, y := VaryByte(RawBytes(Square(n), offset)[j], r, i), VaryByte(RawBytes(Square(n), offset)[0], r, i);
    ByteValue(x);
    ByteValue(y);
    forall c | 0 <= c < 8
      ensures ToBits(x, 8)[c] == ToBits(y, 8)[c]
    {
      ReadingBit(n, offset, r, i, j, c);
      ReadingBit(n, offset, r, i, 0, c);
    }
    assert ToBits(x, 8) == ToBits(y, 8);
  }

  lemma ReadingAlternates(n: nat, offset: nat, r: bool, i: bool)
    requires offset < 8 && n >= 64
    ensures Alternates(ToBits(VaryByte(RawBytes(Square(n), offset)[0], r, i), 8))
  {
    hide ToBits, VaryByte, RawBytes, High;
    var t := ToBits(VaryByte(RawBytes(Square(n), offset)[0], r, i), 8);
    forall k | 0 <= k < 6
      ensures t[k + 2] != t[k]
    {
      ReadingBit(n, offset, r, i, 0, k);
      ReadingBit(n, offset, r, i, 0, k + 2);
      HalfTurn(offset + (if r then 5 - k else k));
    }
  }

  lemma HalfTurn(i: nat)
    ensures High(i + 2) != High(i)
  {
  }

  lemma FirstPhaseByte(n: nat, r: bool, i: bool)
    requires n >= 64
    ensures VaryByte(RawBytes(Square(n), 0)[0], r, i) == if r == i then 0x33 else 0xCC
  {
    hide ToBits, VaryByte, RawBytes, FromBits, High;
    var b := VaryByte(RawBytes(Square(n), 0)[0], r, i);
    forall c | 0 <= c < 8
      ensures ToBits(b, 8)[c] == (((if r then 7 - c else c) in {2, 3, 6, 7}) != i)
    {
      ReadingBit(n, 0, r, i, 0, c);
      HighBelowEight(if r then 7 - c else c);
    }
    ByteValue(b);
    EightBits(ToBits(b, 8));
  }

  lemma HighBelowEight(k: nat)
    requires k < 8
    ensures High(k) <==> k in {2, 3, 6, 7}
  {
  }

  lemma WaveRaw(n: nat)
    requires n >= 64 && n % 8 == 0
    ensures RawBytes(Square(n), 0) == Repeat(0x33, n / 8)
  {
    hide VaryBytes, RawBytes, Repeat;
    var b := WaveReading(n, 0, false, false);
    VaryNone(RawBytes(Square(n), 0));
  }

  // A run of f that leaves a tail is no token: its digits are odd.
  lemma OddRun(m: nat)
    requires m == 7 || m == 31
    ensures !AnyDecodes(Repeat(0x66, m))
  {
    hide Decodes, Repeat, AnyDecodes;
    if AnyDecodes(Repeat(0x66, m)) {
      AnyDecodesPrintable(Repeat(0x66, m));
      var k := DecodingOp(Repeat(0x66, m));
      OddRunUndecoded(RADIX_OPS[k], m, DecodeOf(RADIX_OPS[k], Repeat(0x66, m)).value);
    }
  }

  lemma DecodingOp(input: seq<byte>) returns (k: nat)
    requires AnyDecodes(input)
    ensures k < 5 && DecodeOf(RADIX_OPS[k], input).Some?
  {
    hide AnyDecodes, DecodeOf;
    k := FirstOp(input, 0);
    if k == 5 {
      NoneAccepted(input);
    }
  }

  lemma OddRunUndecoded(t: Transform, m: nat, d: seq<byte>)
    requires IsRadix(t) && m == 31
    ensures !Decodes(t, Repeat(0x66, m), d)
  {
    hide R.DigitBits, BytesBits, ToBits, R.Value, R.Body;
    if t != Base16 && Decodes(t, Repeat(0x66, m), d) {
      var r := RadixOf(t);
      var w, s := R.Width(r), Repeat(0x66, m);
      NoPads(s);
      OddDigit(r);
      var ds, v := R.ValuesOf(r, s), R.Value(r, 0x66).value;
      DigitBitAt(w, ds, v, w * m - 1);
      LastOfDigit(v, w, m);
    }
  }

  lemma OddDigit(r: R.Radix)
    ensures R.Value(r, 0x66).Some? && R.Value(r, 0x66).value % 2 == 1 && 0x66 != R.PAD
  {
  }

  lemma LastOfDigit(v: nat, w: nat, m: nat)
    requires 5 <= w <= 6 && m == 31 && v % 2 == 1
    ensures (w * m - 1) % w == w - 1 && ToBits(v, w)[w - 1]
  {
    assert ToBits(v, w) == ToBits(v / 2, w - 1) + [true];
  }

  // Nothing in any reading of the wave, or beneath it, reads as text.
  lemma WaveQuiet(n: nat, offset: nat, r: bool, i: bool, node: Node)
    requires (n == 64 || n == 256) && offset < 8 && node in ReadingNodes(Square(n), offset, r, i)
    ensures PlaintextScore(node.bytes).score <= 70
  {
    hide VaryBytes, RawBytes, Repeat, PlaintextScore, AnyDecodes, BytesNodes;
    var b := WaveReading(n, offset, r, i);
    var m, path := (n - offset) / 8, Vary(START, r, i);
    if b == 0x33 {
      DigitsQuiet(m, path, node);
    } else {
      if b == 0x66 {
        OddRun(m);
        NotCommon();
        RepeatScore(b, m);
      } else {
        HighRepeat(b, m);
      }
      Alone(Repeat(b, m), path);
    }
  }

  lemma WaveUnread(n: nat)
    requires n == 64 || n == 256
    ensures NothingReadsAsText(Square(n))
  {
    hide ReadingNodes, Wrapper, PlaintextScore, Square, TextOf;
    forall offset: nat, reverse, invert, node |
      offset < 8 && LongEnough(Square(n), offset) && node in ReadingNodes(Square(n), offset, reverse, invert)
      && !Wrapper(node)
      ensures TextOf(node, offset) < 75
    {
      WaveQuiet(n, offset, reverse, invert, node);
    }
  }

  lemma DigitsDecode(r: R.Radix, m: nat) returns (d: seq<byte>)
    requires m == 8
    ensures R.Accepts(r, Repeat(0x33, m), d)
  {
    hide R.Value, R.Accepts;
    DigitValue(r);
    d := GroupDecodes(r, Repeat(0x33, m));
  }

  // The documentation calls INSUFFICIENT a stream in which fewer than six
  // complete bytes can be interpreted.  This one holds eight.
  lemma WaveIsInsufficient()
    ensures |Square(64)| == 64 && Reported(Square(64)) == Signal({PeriodicStructure}, 72)
    ensures FilterOf(Square(64), Reported(Square(64))).verdict == Insufficient
  {
    hide FilterOf, NothingReadsAsText, DecodeOf, RawBytes, S.ScoreOf, Repeat, R.Accepts;
    WaveIsPeriodic(64);
    WaveUnread(64);
    WaveRaw(64);
    var d := DigitsDecode(R.Base32, 8);
    DecodeOfIs(Base32, Repeat(0x33, 8), d);
    TokenIsInsufficient(Square(64));
  }

  // ----- a third wrapper that wins -----

  // The digit 3 eight times, beneath two Base16 layers.
  function Third(): Node {
    Node(Repeat(0x33, 8), Append(Append(START, Base16), Base16))
  }

  // The first node of a token's tree is the first one beneath its Base16 layer.
  lemma FirstBeneath(input: seq<byte>, path: Path, d: seq<byte>)
    requires path.depth < MAX_DEPTH && DecodeOf(Base16, input) == Some(d)
    ensures |BytesNodes(d, Append(path, Base16))| > 0
    ensures |BytesNodes(input, path)| > 0 && BytesNodes(input, path)[0] == BytesNodes(d, Append(path, Base16))[0]
  {
    hide DecodeOf, VaryBytes, BytesNodes, RadicesNodes, RadixNodes;
    var next := Append(path, Base16);
    OwnNode(d, next);
    FirstVariant(d, next);
    FirstRadix(input, path, d);
    RadicesPrefix(input, path, 1, 5);
    BytesFirst(input, path);
    OwnNode(input, path);
  }

  lemma FirstVariant(d: seq<byte>, path: Path)
    requires path.depth <= MAX_DEPTH && |BytesNodes(d, path)| > 0
    ensures |VariantsNodes(d, path)| > 0 && VariantsNodes(d, path)[0] == BytesNodes(d, path)[0]
  {
    hide BytesNodes, VaryBytes;
  }

  lemma FirstRadix(input: seq<byte>, path: Path, d: seq<byte>)
    requires path.depth < MAX_DEPTH && DecodeOf(Base16, input) == Some(d)
    ensures RadicesNodes(input, path, 1) == VariantsNodes(d, Append(path, Base16))
  {
    hide DecodeOf, VariantsNodes;
    assert RadicesNodes(input, path, 0) == [];
  }

  lemma ThirdFirst(n: nat)
    requires n == 256
    ensures LongEnough(Square(n), 0) && Third() in ReadingNodes(Square(n), 0, false, false)
    ensures PhaseNodes(Square(n), 0) != [] && PhaseNodes(Square(n), 0)[0] == Third()
  {
    hide RawBytes, VaryBytes, DecodeOf, RadicesNodes, Repeat, Square;
    var first := Append(START, Base16);
    WaveRaw(n);
    VaryNone(Repeat(0x33, 32));
    HexDecodes(16);
    HexDecodes(8);
    FirstBeneath(Repeat(0x33, 32), START, Repeat(0x33, 16));
    FirstBeneath(Repeat(0x33, 16), first, Repeat(0x33, 8));
    assert BytesNodes(Repeat(0x33, 8), Append(first, Base16)) == [Third()];
  }

  lemma ThirdPreferred(n: nat)
    requires n == 256
    ensures Preferred(PhaseNodes(Square(n), 0)) == Some(Third())
  {
    hide PhaseNodes, Silent, BitOps, Square, Third;
    ThirdFirst(n);
    ThirdSilent();
    forall node | node in PhaseNodes(Square(n), 0)
      ensures !Ahead(node, Third())
    {
      PhaseDepth(Square(n), node);
    }
    FirstPreferred(PhaseNodes(Square(n), 0));
  }

  lemma ThirdSilent()
    ensures Silent(Third(), 0) && BitOps(Third().path.transforms) == 0 && Third().path.depth == MAX_DEPTH
    ensures OpaqueData !in Third().path.flags && |Third().bytes| == 8
  {
    hide PlaintextScore, AnyDecodes, Repeat;
    DigitScore(8);
    assert [Base16, Base16][..1] == [Base16] && [Base16][..0] == [];
  }

  lemma DigitsWrap(m: nat)
    requires m == 8
    ensures AnyDecodes(Repeat(0x33, m))
  {
    hide Decodes, Repeat, R.Accepts;
    var d := DigitsDecode(R.Base64, m);
    DigitsDecodeAs(m, d);
    assert DecodeOf(RADIX_OPS[3], Repeat(0x33, m)).Some?;
  }

  lemma DigitsDecodeAs(m: nat, d: seq<byte>)
    requires R.Accepts(R.Base64, Repeat(0x33, m), d)
    ensures DecodeOf(Base64, Repeat(0x33, m)) == Some(d)
  {
    hide R.Accepts, Repeat;
    DecodeOfIs(Base64, Repeat(0x33, m), d);
  }

  lemma PhaseDepth(bits: seq<bool>, node: Node)
    requires node in PhaseNodes(bits, 0)
    ensures node.path.depth <= MAX_DEPTH
  {
    hide ReadingNodes, PhaseNodes;
    var r, i := PhaseReading(bits, 0, node);
    ReadingLead(bits, 0, r, i, node);
  }

  lemma ThirdCandidate(n: nat, signal: Signal) returns (c: Considered)
    requires n == 256 && StructuredOnly(signal)
    ensures c in AllConsidered(Square(n), signal, 8) && c.bytes == Repeat(0x33, 8)
    ensures c == Scored(Third(), SourceAt(Square(n), 0, false, signal))
    ensures c.result.transformDepth == MAX_DEPTH && c.result.score == 72 && OpaqueData !in c.result.flags
    ensures c.result.decodedLength == 8
  {
    hide Silent, Square, AllConsidered, Scored, ReadingNodes, StructuredOnly, SourceAt, Repeat;
    var source := SourceAt(Square(n), 0, false, signal);
    ThirdFirst(n);
    ThirdSilent();
    SourceStructured(Square(n), 0, false, signal);
    SilentScores(Third(), source);
    ScoredFields(Third(), source);
    NodeConsidered(Square(n), signal, 0, false, false, Third());
    c := Scored(Third(), source);
  }

  // A comment promises that a wrapper's decoded content must pass.  Here the
  // winner is itself a wrapper, two layers down, and is not routed as opaque.
  lemma ThirdWrapperWins(n: nat) returns (c: Considered)
    requires n == 256
    ensures c in AllConsidered(Square(n), Reported(Square(n)), 8) && AnyDecodes(c.bytes)
    ensures c.result.transformDepth == MAX_DEPTH && PassesAsContent(c.result)
    ensures SelectAll(AllConsidered(Square(n), Reported(Square(n)), 8)).result == c.result
    ensures FilterOf(Square(n), Reported(Square(n))).verdict == Possible
  {
    hide AllConsidered, PhaseNodes, Preferred, NothingReadsAsText, Square, S.ScoreOf, AnyDecodes, Scored, SelectAll,
      SourceAt, Third, Repeat;
    var bits := Square(n);
    WaveIsPeriodic(n);
    WaveUnread(n);
    ThirdPreferred(n);
    PreferredWins(bits, Reported(bits));
    c := ThirdCandidate(n, Reported(bits));
    DigitsWrap(8);
  }

  // ----- a third wrapper -----

  // "ab" repeated.
  function TokenText(k: nat): (s: seq<byte>)
    ensures |s| == 2 * k && forall i :: 0 <= i < |s| ==> s[i] == 0x61 || s[i] == 0x62
  {
    if k == 0 then [] else TokenText(k - 1) + [0x61] + [0x62]
  }

  predicate TokenTally(t: Tally, k: nat) {
    t.alpha == 2 * k && t.vowels == k && t.punctuation == 0
  }

  lemma TokenStep(s: seq<byte>, k: nat)
    requires TallyAll(s).Some? && TokenTally(TallyAll(s).value, k)
    ensures var t := TallyAll(s + [0x61] + [0x62]); t.Some? && TokenTally(t.value, k + 1)
  {
    hide CommonPair;
    assert (s + [0x61])[..|s|] == s && (s + [0x61] + [0x62])[..|s| + 1] == s + [0x61];
  }

  lemma {:induction false} TokenTallied(k: nat)
    ensures TallyAll(TokenText(k)).Some? && TokenTally(TallyAll(TokenText(k)).value, k)
  {
    if k > 0 {
      TokenTallied(k - 1);
      hide TallyAll, TokenTally;
      TokenStep(TokenText(k - 1), k - 1);
    }
  }

  // A Base64 token that scores as prose.
  const HARD: seq<byte> := TokenText(4)

  lemma HardScore(t: Tally)
    requires TokenTally(t, 4)
    ensures TallyScore(8, t) >= 70
  {
  }

  lemma HardReads()
    ensures PlaintextScore(HARD).score >= 70
  {
    TokenTallied(4);
    HardScore(TallyAll(HARD).value);
    PrintableIsClean(HARD);
    hide TallyAll, CleanText, TallyScore, TokenText;
  }

  // The stream that carries it as the second unpadded Base64 layer.
  function Wrapped(): seq<byte> {
    R.Unpadded(R.Base64, R.Unpadded(R.Base64, HARD))
  }

  lemma UnpaddedDecodes(s: seq<byte>)
    requires |s| >= 8
    ensures 8 <= |R.Unpadded(R.Base64, s)| == R.SymbolCount(6, 8 * |s|)
    ensures DecodeOf(Base64, R.Unpadded(R.Base64, s)) == Some(s)
  {
    hide R.Accepts, R.EncodeDigits, R.SymbolCount;
    R.EncodeDigitsBits(R.Base64, s);
    R.UnpaddedFolded(R.Base64, s);
    R.DecoderInvertsEncoder(R.Base64, R.Unpadded(R.Base64, s), s);
    DecodeOfIs(Base64, R.Unpadded(R.Base64, s), s);
  }

  lemma LayerIn(input: seq<byte>, path: Path, t: Transform, d: seq<byte>, node: Node)
    requires path.depth < MAX_DEPTH && t == Base64 && DecodeOf(t, input) == Some(d)
    requires node in BytesNodes(d, Append(path, t))
    ensures node in BytesNodes(input, path)
  {
    hide Decodes, VaryBytes, DecodeOf;
    assert node in VariantsNodes(d, Append(path, t));
    hide VariantsNodes;
    assert node in RadixNodes(input, path, RADIX_OPS[3]);
    assert node in RadicesNodes(input, path, 4);
    RadicesPrefix(input, path, 4, 5);
    assert node in RadicesNodes(input, path, 5);
  }

  lemma RawOfBytes(s: seq<byte>)
    ensures RawBytes(BytesBits(s), 0) == s
  {
    hide ByteOf, BytesBits;
    forall j | 0 <= j < |s|
      ensures RawBytes(BytesBits(s), 0)[j] == s[j]
    {
      RawOfByte(s, j);
    }
  }

  lemma ByteOfBits(b: byte)
    ensures ByteOf(ToBits(b, 8)) == b
  {
    FromToBits(b, 8);
    Pow2Eight();
    LowOfSmall(b, 8);
    hide ToBits, FromBits, Low;
  }

  lemma RawOfByte(s: seq<byte>, j: nat)
    requires j < |s|
    ensures ByteOf(BytesBits(s)[8 * j..8 * j + 8]) == s[j]
  {
    hide ToBits, BytesBits, ByteOf, ByteBit;
    var w := BytesBits(s)[8 * j..8 * j + 8];
    ByteBitIsToBits(s[j]);
    ByteOfBits(s[j]);
    forall k | 0 <= k < 8
      ensures w[k] == ToBits(s[j], 8)[k]
    {
      var i := 8 * j + k;
      BytesBitsAt(s, i);
      ByteSpan(j, k);
      assert w[k] == BytesBits(s)[i];
    }
    assert w == ToBits(s[j], 8);
  }

  lemma ByteSpan(j: nat, k: nat)
    requires k < 8
    ensures (8 * j + k) / 8 == j && (8 * j + k) % 8 == k
  {
  }

  // A wrapper at the deepest layer passes as prose: the clamp on printable
  // wrappers does not reach it, and the stream is not rejected.
  lemma ThirdWrapperPasses()
    ensures var bits := BytesBits(Wrapped());
            && (exists c :: c in AllConsidered(bits, Reported(bits), 8) && c.bytes == HARD && c.result.score >= 70 &&
                            c.result.transformDepth == MAX_DEPTH && PassesAsContent(c.result))
            && AnyDecodes(HARD)
            && FilterOf(bits, Reported(bits)).verdict in {Possible, Likely}
  {
    var bits, node := BytesBits(Wrapped()), Node(HARD, Append(Append(START, Base64), Base64));
    hide BytesBits, PlaintextScore, AnyDecodes, FilterOf, AllConsidered, ReadingNodes;
    WrappedNode();
    HardWraps();
    HardReads();
    DeepTextPasses(bits, node);
  }

  lemma WrappedLength()
    ensures R.SymbolCount(6, 64) == 11 && R.SymbolCount(6, 88) == 15
  {
    hide R.SymbolCount, R.Slack;
    R.SlackUnique(6, 64, 11);
    R.SlackUnique(6, 88, 15);
  }

  // Two Base64 layers down lies a node.
  lemma TwoLayersDown(a: seq<byte>, b: seq<byte>, c: seq<byte>)
    requires DecodeOf(Base64, a) == Some(b) && DecodeOf(Base64, b) == Some(c)
    ensures Node(c, Append(Append(START, Base64), Base64)) in BytesNodes(a, START)
  {
    hide BytesNodes, DecodeOf;
    var one := Append(START, Base64);
    var node := Node(c, Append(one, Base64));
    OwnNode(c, node.path);
    LayerIn(b, one, Base64, c, node);
    LayerIn(a, START, Base64, b, node);
  }

  lemma WrappedNode()
    ensures |BytesBits(Wrapped())| == 120
    ensures Node(HARD, Append(Append(START, Base64), Base64)) in ReadingNodes(BytesBits(Wrapped()), 0, false, false)
  {
    hide R.SymbolCount, R.Unpadded, TokenText, Decodes, BytesNodes, RawBytes, VaryBytes, DecodeOf, BytesBits;
    var mid := R.Unpadded(R.Base64, HARD);
    WrappedLength();
    UnpaddedDecodes(HARD);
    UnpaddedDecodes(mid);
    TwoLayersDown(Wrapped(), mid, HARD);
    RawOfBytes(Wrapped());
    VaryNone(Wrapped());
  }

  lemma HardWraps()
    ensures AnyDecodes(HARD)
  {
    hide TokenText, R.Accepts;
    assert R.AllValues(R.Base64, HARD) && R.PAD !in HARD;
    hide R.AllValues;
    var d := GroupDecodes(R.Base64, HARD);
    assert Decodes(RADIX_OPS[3], HARD, d);
    assert DecodeOf(RADIX_OPS[3], HARD).Some?;
  }

  // What a deepest unaltered node is worth as text it keeps.
  lemma TextStays(node: Node, source: Source)
    requires source.tailBits < 8 && source.bitOffset == 0 && node.path.depth == MAX_DEPTH
    requires Did(ReverseBits) !in node.path.flags && Did(InvertBits) !in node.path.flags
    requires OpaqueData !in node.path.flags && PlaintextScore(node.bytes).score >= 70
    ensures var r := Scored(node, source).result;
            r.score == PlaintextScore(node.bytes).score && r.transformDepth == MAX_DEPTH && OpaqueData !in r.flags
  {
    hide AnyDecodes, PlaintextScore, LooksOpaque;
  }

  // A deepest node worth 70 as text is enough for POSSIBLE.
  lemma DeepTextPasses(bits: seq<bool>, node: Node)
    requires |bits| == 120 && node in ReadingNodes(bits, 0, false, false) && node.path.depth == MAX_DEPTH
    requires Did(ReverseBits) !in node.path.flags && Did(InvertBits) !in node.path.flags
    requires PlaintextScore(node.bytes).score >= 70
    ensures exists c :: c in AllConsidered(bits, Reported(bits), 8) && c.bytes == node.bytes && c.result.score >= 70 &&
                        c.result.transformDepth == MAX_DEPTH && PassesAsContent(c.result)
    ensures FilterOf(bits, Reported(bits)).verdict in {Possible, Likely}
  {
    var signal := Reported(bits);
    hide ReadingNodes, AllConsidered, SelectAll, AnyDecodes, PlaintextScore, LooksOpaque, Reported, Structured, Tail;
    var source := SourceAt(bits, 0, false, signal);
    var c := Scored(node, source);
    NodeConsidered(bits, signal, 0, false, false, node);
    ReadingLead(bits, 0, false, false, node);
    NoOpaqueYet(node, RawBytes(bits, 0));
    TextStays(node, source);
    hide Scored, SourceAt;
    SelectionIsMaximal(AllConsidered(bits, signal, 8));
    if FilterOf(bits, signal).verdict == Insufficient {
      InsufficientLengths(bits);
    }
  }
}
