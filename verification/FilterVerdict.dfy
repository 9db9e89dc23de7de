/** The filter's verdict: what may demote a stream, and what may not. */
module FilterVerdict {
  import opened Bits
  import opened Scorer
  import opened PlainText
  import opened FilterSpec
  import opened FilterTheorems
  import K = Kt
  import R = Radix
  import S = Score

  // ----- inverted bytes -----

  lemma {:induction false} FromBitsFlip(s: seq<bool>)
    ensures FromBits(Flip(s)) == Pow2(|s|) - 1 - FromBits(s)
  {
    if s != [] {
      FromBitsFlip(s[..|s| - 1]);
      assert Flip(s)[..|s| - 1] == Flip(s[..|s| - 1]);
    }
  }

  lemma InvertByte(b: byte)
    ensures ToBits(VaryByte(b, false, true), 8) == Flip(ToBits(b, 8))
    ensures VaryByte(b, false, true) == 255 - b
  {
    hide ToBits, FromBits, Low;
    var s := ToBits(b, 8);
    assert VaryBits(s, false, true) == Flip(s);
    ToBitsOfByte(Flip(s));
    FromBitsFlip(s);
    FromToBits(b, 8);
    Pow2Eight();
    LowOfSmall(b, 8);
  }

  function Inverted(s: seq<byte>): (t: seq<byte>)
    ensures |t| == |s|
  {
    VaryBytes(s, false, true)
  }

  lemma {:induction false} InvertedBits(s: seq<byte>)
    ensures BytesBits(Inverted(s)) == Flip(BytesBits(s))
  {
    hide ToBits, VaryByte;
    if s != [] {
      var m := |s| - 1;
      InvertedBits(s[..m]);
      InvertByte(s[m]);
      assert Inverted(s)[..m] == Inverted(s[..m]);
    }
  }

  lemma InvertedOnes(s: seq<byte>)
    ensures Ones(Inverted(s)) == 8 * |s| - Ones(s)
  {
    hide K.Count, BytesBits;
    InvertedBits(s);
    K.FlipCount(BytesBits(s), false);
    K.CountTotal(BytesBits(s));
  }

  lemma InvertedDistinct(s: seq<byte>)
    ensures |Distinct(Inverted(s))| == |Distinct(s)|
  {
    hide VaryByte;
    forall b: byte
      ensures b in Distinct(s) <==> 255 - b in Distinct(Inverted(s))
    {
      forall i | 0 <= i < |s|
        ensures Inverted(s)[i] == 255 - s[i]
      {
        InvertByte(s[i]);
      }
      if b in Distinct(s) {
        var i: nat :| i < |s| && s[i] == b;
        assert Inverted(s)[i] == 255 - b;
      }
      if 255 - b in Distinct(Inverted(s)) {
        var i: nat :| i < |s| && Inverted(s)[i] == 255 - b;
        assert s[i] == b;
      }
    }
    MirrorSize(Distinct(s), Distinct(Inverted(s)));
  }

  lemma {:induction false} MirrorSize(a: set<byte>, b: set<byte>)
    requires forall x: byte :: x in a <==> 255 - x in b
    ensures |a| == |b|
  {
    if a == {} {
      if y :| y in b {
        assert 255 - (255 - y) in b;
      }
    } else {
      var x :| x in a;
      MirrorSize(a - {x}, b - {255 - x});
    }
  }

  // Bit balance and byte diversity look the same either way up.
  lemma GateInversionInvariant(s: seq<byte>, tailOnes: nat, tailBits: nat)
    requires tailOnes <= tailBits < 8
    ensures LooksOpaque(Inverted(s), tailBits - tailOnes, tailBits) == LooksOpaque(s, tailOnes, tailBits)
  {
    hide Ones, Distinct;
    InvertedOnes(s);
    InvertedDistinct(s);
  }

  // ----- radix wrappers -----

  lemma ValuePrintable(r: R.Radix, c: byte)
    ensures R.Value(r, c).Some? || c == R.PAD ==> 0x20 < c < 0x7F
  {
  }

  lemma HexPrintable(c: byte)
    ensures R.HexValue(c).Some? ==> 0x20 < c < 0x7F
  {
  }

  // Whatever a radix decoder accepts is at least eight printable bytes.
  lemma WrapperPrintable(t: Transform, input: seq<byte>, output: seq<byte>)
    requires IsRadix(t) && Decodes(t, input, output)
    ensures Printable(input) && |input| >= 8
  {
    hide R.Value, R.HexValue, R.Upper;
    if t == Base16 {
      forall i | 0 <= i < |input|
        ensures 0x20 < input[i] < 0x7F
      {
        var k := i / 2;
        R.Encode16At(output, k);
        assert R.UpperAll(input)[2 * k..2 * k + 2] == [R.Upper(input[2 * k]), R.Upper(input[2 * k + 1])];
        R.HexPairIff(input[2 * k], input[2 * k + 1], output[k]);
        HexPrintable(input[i]);
      }
    } else {
      var r, body := RadixOf(t), R.Body(input);
      forall i | 0 <= i < |input|
        ensures 0x20 < input[i] < 0x7F
      {
        if i < |body| {
          assert R.Value(r, body[i]).Some?;
        } else {
          assert input[|body|..][i - |body|] == R.PAD;
        }
        ValuePrintable(r, input[i]);
      }
    }
  }

  lemma AnyDecodesPrintable(input: seq<byte>)
    requires AnyDecodes(input)
    ensures Printable(input) && |input| >= 8
  {
    hide Decodes;
    var k :| 0 <= k < 5 && DecodeOf(RADIX_OPS[k], input).Some?;
    WrapperPrintable(RADIX_OPS[k], input, DecodeOf(RADIX_OPS[k], input).value);
  }

  lemma InvertedWrapperHigh(s: seq<byte>)
    requires Printable(s)
    ensures AllHigh(Inverted(s))
  {
    hide VaryByte;
    forall i | 0 <= i < |s|
      ensures Inverted(s)[i] >= 0x80
    {
      InvertByte(s[i]);
    }
  }

  // ----- what a score needs -----

  // The reading itself is assessed.
  lemma OwnCandidate(input: seq<byte>, path: Path, source: Source)
    requires path.depth <= MAX_DEPTH && source.tailBits < 8
    ensures Scored(Node(input, path), source) in ScoredAll(BytesNodes(input, path), source)
  {
    hide Scored, RadicesNodes;
    var nodes := BytesNodes(input, path);
    assert ScoredAll(nodes, source)[|nodes| - 1] == Scored(Node(input, path), source);
  }

  lemma {:induction false} PhaseConsidered(bits: seq<bool>, signal: Signal, k: nat, offset: nat, c: Considered)
    requires offset < k && c in AssessPhase(bits, offset, signal)
    ensures c in AllConsidered(bits, signal, k)
  {
    hide AssessPhase;
    if offset < k - 1 {
      PhaseConsidered(bits, signal, k - 1, offset, c);
    }
  }

  // Any positive score needs six bytes or a structured signal, which is then
  // flagged on the candidate.
  lemma ScoreNeedsBytes(bits: seq<bool>, signal: Signal, c: Considered)
    requires c in AllConsidered(bits, signal, 8) && c.result.score > 0
    ensures c.result.decodedLength >= MIN_BYTES || (StructuredData in c.result.flags && Structured(signal))
  {
    hide AllConsidered, AssessReading, Leads, RawBytes, Tail;
    var offset, reverse, invert := ConsideredFrom(bits, signal, 8, c);
    ReadingHonest(bits, offset, reverse, invert, signal, c);
    var source, raw := SourceAt(bits, offset, invert, signal), RawBytes(bits, offset);
    var path: Path :| HonestVia(path, c, raw, source);
    BaseNeedsBytes(c.bytes, path, source);
  }

  predicate Structured(signal: Signal) {
    PeriodicStructure in signal.flags || DictionaryStructure in signal.flags
  }

  lemma BaseNeedsBytes(input: seq<byte>, path: Path, source: Source)
    requires source.tailBits < 8 && Base(input, path, source).score > 0
    ensures var r := Base(input, path, source);
            r.decodedLength == |input| &&
            (|input| >= MIN_BYTES || (StructuredData in r.flags && StructuredSignal(source)))
  {
    hide PlaintextScore, Ones, Distinct;
  }

  // What the scorers tell the filter about a stream.
  function Reported(bits: seq<bool>): Signal {
    Signal(S.ScoreOf(bits).flags, S.ScoreOf(bits).score)
  }

  // ----- when the verdict is INSUFFICIENT -----

  ghost predicate HasScore(cs: seq<Considered>, least: nat) {
    exists c :: c in cs && c.result.score >= least
  }

  // A decoded layer only appears under a printable wrapper, which itself
  // scores at least 30.
  lemma DecodedLayerHasWrapper(input: seq<byte>, path: Path, source: Source, c: Considered)
    requires path.depth <= MAX_DEPTH && source.tailBits < 8
    requires c in ScoredAll(BytesNodes(input, path), source)
    ensures c.bytes == input || HasScore(ScoredAll(BytesNodes(input, path), source), 30)
  {
    hide Base, RadicesNodes, Clamp, AnyDecodes;
    OwnCandidate(input, path, source);
    var nodes := BytesNodes(input, path);
    var i :| 0 <= i < |nodes| && ScoredAll(nodes, source)[i] == c;
    if i < |nodes| - 1 {
      RadicesMeanDecodes(input, path, 5);
      AnyDecodesPrintable(input);
      PrintableScore(input);
      WrapperScore(input, path, source);
    }
  }

  lemma WrapperScore(input: seq<byte>, path: Path, source: Source)
    requires source.tailBits < 8 && PlaintextScore(input).score >= 45
    ensures Base(input, path, source).score >= 30
    ensures Clamp(Base(input, path, source), true).score >= 30
  {
    hide PlaintextScore, LooksOpaque;
  }

  lemma RadicesMeanDecodes(input: seq<byte>, path: Path, k: nat)
    requires path.depth < MAX_DEPTH && k <= 5 && RadicesNodes(input, path, k) != []
    ensures AnyDecodes(input)
    decreases k
  {
    hide VariantsNodes, Decodes;
    if RadicesNodes(input, path, k - 1) != [] {
      RadicesMeanDecodes(input, path, k - 1);
    } else {
      assert DecodeOf(RADIX_OPS[k - 1], input).Some?;
    }
  }

  lemma ReadingConsidered(bits: seq<bool>, signal: Signal, offset: nat, reverse: bool, invert: bool)
    requires offset < 8 && LongEnough(bits, offset)
    ensures forall c :: c in AssessReading(bits, offset, reverse, invert, signal) ==>
              c in AllConsidered(bits, signal, 8)
  {
    hide AssessReading, AllConsidered;
    forall c | c in AssessReading(bits, offset, reverse, invert, signal)
      ensures c in AllConsidered(bits, signal, 8)
    {
      assert c in AssessPhase(bits, offset, signal);
      PhaseConsidered(bits, signal, 8, offset, c);
    }
  }

  // A winner of fewer than six bytes is a decoded layer that only a structured
  // signal carries.
  lemma ShortWinnerIsLayer(bits: seq<bool>, signal: Signal, w: Considered)
    requires w in AllConsidered(bits, signal, 8) && NoneAbove(AllConsidered(bits, signal, 8), w.result.score)
    requires w.result.decodedLength < MIN_BYTES
    ensures StructuredData in w.result.flags && Structured(signal) && w.result.transformDepth > 0
  {
    hide AllConsidered, AssessReading, Leads, RawBytes, Tail, Base, Structured;
    var offset, reverse, invert := ConsideredFrom(bits, signal, 8, w);
    var reading := AssessReading(bits, offset, reverse, invert, signal);
    ReadingConsidered(bits, signal, offset, reverse, invert);
    ReadingWrapper(bits, offset, reverse, invert, signal, w);
    ReadingLength(bits, offset, reverse, invert, signal, w);
    assert HasScore(reading, 30);
    ScoreNeedsBytes(bits, signal, w);
  }

  lemma ReadingWrapper(bits: seq<bool>, offset: nat, reverse: bool, invert: bool, signal: Signal, c: Considered)
    requires offset <= |bits| && c in AssessReading(bits, offset, reverse, invert, signal)
    ensures |c.bytes| == (|bits| - offset) / 8 || HasScore(AssessReading(bits, offset, reverse, invert, signal), 30)
  {
    hide BytesNodes, ScoredAll, HasScore, VaryByte;
    var input := VaryBytes(RawBytes(bits, offset), reverse, invert);
    DecodedLayerHasWrapper(input, Vary(START, reverse, invert), SourceAt(bits, offset, invert, signal), c);
  }

  lemma ReadingLength(bits: seq<bool>, offset: nat, reverse: bool, invert: bool, signal: Signal, c: Considered)
    requires offset <= |bits| && c in AssessReading(bits, offset, reverse, invert, signal)
    ensures c.result.decodedLength == |c.bytes|
    ensures c.result.transformDepth == 0 ==> |c.bytes| == (|bits| - offset) / 8
  {
    hide AssessReading, VaryBytes, RawBytes, Tail, QualifiesOpaque, StructuredSignal, PlaintextScore, Replay, RadixOps;
    ReadingHonest(bits, offset, reverse, invert, signal, c);
    var source, raw := SourceAt(bits, offset, invert, signal), RawBytes(bits, offset);
    var path: Path :| HonestVia(path, c, raw, source);
    BitOpsKeepLength(path.transforms, raw);
  }

  lemma {:induction false} NoPhaseLongEnough(bits: seq<bool>, signal: Signal, k: nat)
    requires |bits| < 48
    ensures AllConsidered(bits, signal, k) == []
  {
    if k > 0 {
      NoPhaseLongEnough(bits, signal, k - 1);
    }
  }

  lemma FirstPhaseNonempty(bits: seq<bool>, signal: Signal)
    requires |bits| >= 48
    ensures AllConsidered(bits, signal, 8) != []
  {
    hide BytesNodes, ScoredAll, RawBytes, VaryBytes, Tail, AllConsidered;
    ReadingConsidered(bits, signal, 0, false, false);
    var plain := VaryBytes(RawBytes(bits, 0), false, false);
    OwnCandidate(plain, Vary(START, false, false), SourceAt(bits, 0, false, signal));
    assert AssessReading(bits, 0, false, false, signal) != [];
    assert AssessReading(bits, 0, false, false, signal)[0] in AllConsidered(bits, signal, 8);
  }

  // The verdict is INSUFFICIENT for streams too short to hold six bytes, and
  // otherwise only when a decoded layer of fewer than six bytes, flagged as
  // structured, outranks everything else.
  lemma InsufficientCases(bits: seq<bool>, signal: Signal)
    ensures var r := FilterOf(bits, signal);
            r.verdict == Insufficient <==>
            |bits| < 48 ||
            (r.decodedLength < MIN_BYTES && r.transformDepth > 0 && StructuredData in r.flags && Structured(signal))
  {
    hide AllConsidered, SelectAll, Structured;
    var cs := AllConsidered(bits, signal, 8);
    if |bits| < 48 {
      NoPhaseLongEnough(bits, signal, 8);
      NothingSelected();
    } else {
      FirstPhaseNonempty(bits, signal);
      SelectionIsMaximal(cs);
      var w :| w in cs && w.result == SelectAll(cs).result;
      if w.result.decodedLength < MIN_BYTES {
        ShortWinnerIsLayer(bits, signal, w);
      }
    }
  }

  // So without a structured signal it means exactly fewer than 48 bits.
  lemma InsufficientIffShort(bits: seq<bool>, signal: Signal)
    requires !Structured(signal)
    ensures FilterOf(bits, signal).verdict == Insufficient <==> |bits| < 48
  {
    hide FilterOf;
    InsufficientCases(bits, signal);
  }

  lemma NothingSelected()
    ensures SelectAll([]) == NOTHING
  {
  }

  // From 48 bits on the reported winner accounts for every source bit, its
  // recorded operations replay to the bytes it was judged on, nothing beats
  // it, and its tie count is exact.
  lemma WinnerAccounted(bits: seq<bool>, signal: Signal) returns (w: Considered)
    requires |bits| >= 48 && signal.score <= 100
    ensures var r := FilterOf(bits, signal);
            var cs := AllConsidered(bits, signal, 8);
            && w in cs && Accounted(bits, w)
            && r == w.result.(verdict := r.verdict, equalScore := Scoring(cs, w.result.score))
            && (forall c :: c in cs ==> c.result.score <= r.score && !Better(c.result, w.result))
  {
    hide AllConsidered, SelectAll, Accounted, Better;
    var cs := AllConsidered(bits, signal, 8);
    FirstPhaseNonempty(bits, signal);
    SelectionIsMaximal(cs);
    w :| w in cs && w.result == SelectAll(cs).result;
    EveryCandidateAccounted(bits, signal, w);
  }
}
