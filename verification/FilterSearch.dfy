/** The filter itself: the recursive search that fills and ranks candidates. */
module FilterSearch {
  import opened Bits
  import opened Bitstream
  import opened Scorer
  import opened PlainText
  import opened FilterSpec
  import opened FilterTheorems
  import opened FilterNodes
  import K = Kt
  import R = Radix
  import S = Score

  // The best candidate so far.
  class FilterBest {
    var result: FilterResult
    var equalScore: nat
    var hasResult: bool
    ghost var considered: seq<Considered>

    ghost predicate Valid()
      reads this
    {
      Best(result, equalScore, hasResult) == SelectAll(considered)
    }

    constructor ()
      ensures Valid() && considered == []
    {
      result, equalScore, hasResult, considered := NO_RESULT, 0, false, [];
    }

    method ConsiderResult(candidate: FilterResult, ghost bytes: seq<byte>)
      requires Valid()
      modifies this
      ensures Valid() && considered == old(considered) + [Considered(candidate, bytes)]
    {
      considered := considered + [Considered(candidate, bytes)];
      assert considered[..|considered| - 1] == old(considered);
      if !hasResult || candidate.score > result.score {
        result, equalScore, hasResult := candidate, 1, true;
        return;
      }
      if candidate.score == result.score {
        equalScore := equalScore + 1;
        if Better(candidate, result) {
          result := candidate;
        }
      }
    }
  }

  // A full path refuses the operation.
  method PathAppend(path: Path, t: Transform) returns (ok: bool, path': Path)
    ensures ok <==> |path.transforms| < MAX_TRANSFORMS
    ensures path' == if ok then Append(path, t) else path
  {
    if |path.transforms| >= MAX_TRANSFORMS {
      return false, path;
    }
    return true, Append(path, t);
  }

  method ComputePenalized(score: nat, path: Path, source: Source) returns (penalized: nat)
    ensures penalized == Penalty(Penalty(Penalty(score, source.bitOffset > 0), Did(ReverseBits) in path.flags),
                                 Did(InvertBits) in path.flags)
  {
    penalized := score;
    if source.bitOffset != 0 && penalized >= 5 {
      penalized := penalized - 5;
    }
    if Did(ReverseBits) in path.flags && penalized >= 5 {
      penalized := penalized - 5;
    }
    if Did(InvertBits) in path.flags && penalized >= 5 {
      penalized := penalized - 5;
    }
  }

  method ComputeQualifies(input: seq<byte>, path: Path, source: Source, score: nat) returns (q: bool)
    requires source.tailBits < 8 && score == PenalizedScore(input, path, source)
    ensures q == QualifiesOpaque(input, path, source)
  {
    hide LooksOpaque, PenalizedScore;
    q := false;
    if score < 70 && HighUnexplained in source.signalFlags {
      q := ComputeLooksOpaque(input, if path.depth == 0 then source.tailOnes else 0,
                              if path.depth == 0 then source.tailBits else 0);
    }
  }

  method ComputeBase(input: seq<byte>, path: Path, source: Source) returns (candidate: FilterResult)
    requires source.tailBits < 8
    ensures candidate == Base(input, path, source)
  {
    hide PlaintextScore, QualifiesOpaque, Penalty;
    var text := ComputePlaintextScore(input);
    var score := ComputePenalized(text.score, path, source);
    var flags := path.flags + ((if text.utf8 then {Utf8} else {}) + (if text.ascii then {Ascii} else {}))
                 + (if source.tailBits != 0 then {PartialBits} else {});
    candidate := FilterResult(Reject, score, flags, source.bitOffset, path.depth, |input|, source.bitLength,
                              source.completeBits, source.tailBits, 0, path.transforms, 0);
    var opaqueLike := ComputeQualifies(input, path, source, score);
    if opaqueLike {
      candidate := candidate.(score := 70, flags := flags + {OpaqueData});
    } else if score < 70 && StructuredSignal(source) {
      candidate := candidate.(score := source.signalScore, flags := flags + {StructuredData});
    } else {
      return;
    }
    if path.depth == 0 && source.tailBits != 0 {
      candidate := candidate.(consumed := source.completeBits + source.tailBits, ignored := 0,
                              assessed := source.tailBits);
    }
  }

  // One radix decoder, by operation.
  method TryDecode(t: Transform, input: seq<byte>) returns (ok: bool, output: seq<byte>)
    requires IsRadix(t)
    ensures DecodeOf(t, input) == if ok then Some(output) else None
  {
    hide R.Accepts, R.HexAccepts;
    if t == Base16 {
      ok, output := R.DecodeHex(input);
    } else {
      ok, output := R.DecodeDense(input, RadixOf(t));
    }
    if ok {
      DecodeOfIs(t, input, output);
    } else {
      NoDecoding(t, input);
    }
  }

  lemma NoDecoding(t: Transform, input: seq<byte>)
    requires IsRadix(t)
    requires if t == Base16 then forall out :: !R.HexAccepts(input, out)
             else forall out :: !R.Accepts(RadixOf(t), input, out)
    ensures DecodeOf(t, input) == None
  {
    hide R.Accepts, R.HexAccepts;
  }

  // make_byte_variant: bit by bit, most significant first.
  method MakeByteVariant(input: seq<byte>, reverse: bool, invert: bool) returns (bytes: seq<byte>)
    ensures bytes == VaryBytes(input, reverse, invert)
  {
    hide VaryByte;
    bytes := [];
    var i := 0;
    while i < |input|
      invariant 0 <= i <= |input|
      invariant bytes == VaryBytes(input, reverse, invert)[..i]
    {
      var b := MakeByte(ByteBits(input[i]), reverse, invert);
      assert b == VaryByte(input[i], reverse, invert) by {
        ByteBitsAreBits(input[i]);
      }
      bytes := bytes + [b];
      i := i + 1;
    }
  }

  function ByteBits(b: byte): (s: seq<bool>)
    ensures |s| == 8
  {
    seq(8, k requires 0 <= k < 8 => ByteBit(b, k))
  }

  lemma ByteBitsAreBits(b: byte)
    ensures ByteBits(b) == ToBits(b, 8)
    ensures ByteOf(VaryBits(ByteBits(b), true, true)) == VaryByte(b, true, true)
    ensures ByteOf(VaryBits(ByteBits(b), true, false)) == VaryByte(b, true, false)
    ensures ByteOf(VaryBits(ByteBits(b), false, true)) == VaryByte(b, false, true)
    ensures ByteOf(VaryBits(ByteBits(b), false, false)) == VaryByte(b, false, false)
  {
    hide ToBits, FromBits, ByteBit;
    ByteBitIsToBits(b);
    assert ByteBits(b) == ToBits(b, 8);
  }

  // Gathers eight bits, reversed or inverted, into a byte.
  method MakeByte(s: seq<bool>, reverse: bool, invert: bool) returns (value: byte)
    requires |s| == 8
    ensures value == ByteOf(VaryBits(s, reverse, invert))
  {
    hide ToBits;
    ghost var t := VaryBits(s, reverse, invert);
    var v: nat := 0;
    var k := 0;
    EmptyBits(t[..0]);
    while k < 8
      invariant 0 <= k <= 8 && v == FromBits(t[..k])
    {
      var source := if reverse then 7 - k else k;
      AppendOneBit(t, k);
      v := 2 * v + (if s[source] != invert then 1 else 0);
      k := k + 1;
    }
    assert t[..8] == t;
    ToFromBits(t);
    Pow2Eight();
    value := v;
  }

  lemma EmptyBits(s: seq<bool>)
    requires s == []
    ensures FromBits(s) == 0
  {
  }

  lemma AppendOneBit(t: seq<bool>, k: nat)
    requires k < |t|
    ensures FromBits(t[..k + 1]) == 2 * FromBits(t[..k]) + (if t[k] then 1 else 0)
  {
    var u := t[..k + 1];
    assert u[..|u| - 1] == t[..k];
  }

  // Gathers eight stream bits from `base`, reversed or inverted, into a byte.
  method MakeByteAt(stream: Bitstream, base: nat, reverse: bool, invert: bool) returns (value: byte)
    requires stream.Valid() && base + 8 <= stream.bitLength
    ensures value == VaryByte(ByteOf(stream.Bits()[base..base + 8]), reverse, invert)
  {
    var s := Window(stream, base);
    WindowByte(s);
    hide ToBits, ByteOf;
    value := MakeByte(s, reverse, invert);
  }

  method Window(stream: Bitstream, base: nat) returns (s: seq<bool>)
    requires stream.Valid() && base + 8 <= stream.bitLength
    ensures s == stream.Bits()[base..base + 8]
  {
    s := [];
    var k := 0;
    while k < 8
      invariant 0 <= k <= 8 && s == stream.Bits()[base..base + k]
    {
      s := s + [stream.Bit(base + k)];
      k := k + 1;
    }
  }

  lemma WindowByte(s: seq<bool>)
    requires |s| == 8
    ensures ToBits(ByteOf(s), 8) == s
  {
    ToBitsOfByte(s);
  }

  // make_interpretation: the bytes of one phase, read bit by bit.
  method MakeInterpretation(stream: Bitstream, offset: nat, reverse: bool, invert: bool) returns (bytes: seq<byte>)
    requires stream.Valid() && offset <= stream.bitLength
    ensures bytes == VaryBytes(RawBytes(stream.Bits(), offset), reverse, invert)
  {
    hide VaryByte, ByteOf;
    var count := (stream.bitLength - offset) / 8;
    ghost var raw := RawBytes(stream.Bits(), offset);
    bytes := [];
    var i := 0;
    while i < count
      invariant 0 <= i <= count
      invariant bytes == VaryBytes(raw, reverse, invert)[..i]
    {
      var b := MakeByteAt(stream, offset + 8 * i, reverse, invert);
      bytes := bytes + [b];
      i := i + 1;
    }
  }

  // ----- the recursive search -----

  // Tries one radix operation and, if it decodes, searches beneath it.
  method TryRadixInto(input: seq<byte>, path: Path, source: Source, t: Transform, best: FilterBest)
    returns (status: Status, valid: bool)
    requires path.depth < MAX_DEPTH && source.tailBits < 8 && |path.transforms| <= 2 + 3 * path.depth && IsRadix(t)
    requires best.Valid()
    modifies best
    ensures status == Ok && best.Valid() && valid == DecodeOf(t, input).Some?
    ensures best.considered == old(best.considered) + ScoredAll(RadixNodes(input, path, t), source)
    decreases MAX_DEPTH - path.depth, 0, 0
  {
    hide SelectAll, Decodes, VariantsNodes, ScoredAll;
    ScoredNothing(source);
    var decoded;
    valid, decoded := TryDecode(t, input);
    status := Ok;
    if valid {
      var ok, next := PathAppend(path, t);
      if !ok {
        return Einval, valid;
      }
      status := AssessVariantsInto(decoded, next, source, best);
    }
  }

  method TryRadicesInto(input: seq<byte>, path: Path, source: Source, best: FilterBest)
    returns (status: Status, encodingValid: bool)
    requires path.depth < MAX_DEPTH && source.tailBits < 8 && |path.transforms| <= 2 + 3 * path.depth
    requires best.Valid()
    modifies best
    ensures status == Ok && best.Valid() && encodingValid == AnyDecodes(input)
    ensures best.considered == old(best.considered) + ScoredAll(RadicesNodes(input, path, 5), source)
    decreases MAX_DEPTH - path.depth, 0, 1
  {
    hide SelectAll, DecodeOf, RadixNodes, Decodes, ScoredAll;
    ScoredNothing(source);
    ghost var before := best.considered;
    status, encodingValid := Ok, false;
    var k := 0;
    while k < 5
      invariant 0 <= k <= 5 && best.Valid() && status == Ok
      invariant best.considered == before + ScoredAll(RadicesNodes(input, path, k), source)
      invariant encodingValid <==> exists j :: 0 <= j < k && DecodeOf(RADIX_OPS[j], input).Some?
    {
      var valid;
      status, valid := TryRadixInto(input, path, source, RADIX_OPS[k], best);
      if status != Ok {
        return;
      }
      encodingValid := encodingValid || valid;
      ScoredConcat(RadicesNodes(input, path, k), RadixNodes(input, path, RADIX_OPS[k]), source);
      k := k + 1;
    }
  }

  method AssessBytesInto(input: seq<byte>, path: Path, source: Source, best: FilterBest) returns (status: Status)
    requires path.depth <= MAX_DEPTH && source.tailBits < 8 && |path.transforms| <= 2 + 3 * path.depth
    requires best.Valid()
    modifies best
    ensures status == Ok && best.Valid()
    ensures best.considered == old(best.considered) + ScoredAll(BytesNodes(input, path), source)
    decreases MAX_DEPTH - path.depth, 1, 0
  {
    hide Base, SelectAll, AnyDecodes, RadicesNodes, ScoredAll;
    ScoredOne(Node(input, path), source);
    var candidate := ComputeBase(input, path, source);
    if path.depth >= MAX_DEPTH {
      assert BytesNodes(input, path) == [Node(input, path)];
      best.ConsiderResult(candidate, input);
      return Ok;
    }
    var encodingValid;
    status, encodingValid := TryRadicesInto(input, path, source, best);
    if status != Ok {
      return;
    }
    candidate := Clamp(candidate, encodingValid);
    best.ConsiderResult(candidate, input);
    ScoredConcat(RadicesNodes(input, path, 5), [Node(input, path)], source);
  }

  method AssessVariantsInto(input: seq<byte>, path: Path, source: Source, best: FilterBest) returns (status: Status)
    requires path.depth <= MAX_DEPTH && source.tailBits < 8 && |path.transforms| <= 3 * path.depth
    requires best.Valid()
    modifies best
    ensures status == Ok && best.Valid()
    ensures best.considered == old(best.considered) + ScoredAll(VariantsNodes(input, path), source)
    decreases MAX_DEPTH - path.depth, 2, 0
  {
    hide SelectAll, BytesNodes, VaryBytes, ScoredAll;
    FourScored(BytesNodes(input, path), BytesNodes(VaryBytes(input, false, true), Vary(path, false, true)),
               BytesNodes(VaryBytes(input, true, false), Vary(path, true, false)),
               BytesNodes(VaryBytes(input, true, true), Vary(path, true, true)), source);
    status := AssessBytesInto(input, path, source, best);
    status := AssessVariantInto(input, path, source, false, true, best);
    if status != Ok {
      return;
    }
    status := AssessVariantInto(input, path, source, true, false, best);
    if status != Ok {
      return;
    }
    status := AssessVariantInto(input, path, source, true, true, best);
  }

  method AssessVariantInto(input: seq<byte>, path: Path, source: Source, reverse: bool, invert: bool, best: FilterBest)
    returns (status: Status)
    requires path.depth <= MAX_DEPTH && source.tailBits < 8 && |path.transforms| <= 3 * path.depth
    requires best.Valid()
    modifies best
    ensures status == Ok && best.Valid()
    ensures best.considered == old(best.considered) +
      ScoredAll(BytesNodes(VaryBytes(input, reverse, invert), Vary(path, reverse, invert)), source)
    decreases MAX_DEPTH - path.depth, 1, 1
  {
    hide SelectAll, BytesNodes, VaryBytes, ScoredAll;
    var next, ok := path, true;
    if reverse {
      ok, next := PathAppend(next, ReverseBits);
      if !ok {
        return Einval;
      }
    }
    if invert {
      ok, next := PathAppend(next, InvertBits);
      if !ok {
        return Einval;
      }
    }
    var bytes := MakeByteVariant(input, reverse, invert);
    status := AssessBytesInto(bytes, next, source, best);
  }

  // ----- phases -----

  method CountTail(stream: Bitstream, offset: nat) returns (ones: nat)
    requires stream.Valid() && offset <= stream.bitLength
    ensures ones == K.Count(Tail(stream.Bits(), offset), true)
  {
    hide K.Count;
    ghost var tail := Tail(stream.Bits(), offset);
    var start := offset + (stream.bitLength - offset) / 8 * 8;
    ones := 0;
    var i := start;
    K.CountTotal([]);
    assert tail[..0] == [];
    while i < stream.bitLength
      invariant start <= i <= stream.bitLength
      invariant ones == K.Count(tail[..i - start], true)
    {
      K.CountAppend(tail[..i - start], stream.Bit(i), true);
      assert tail[..i + 1 - start] == tail[..i - start] + [tail[i - start]];
      ones := ones + (if stream.Bit(i) then 1 else 0);
      i := i + 1;
    }
    assert tail[..i - start] == tail;
  }

  method AssessReadingInto(stream: Bitstream, offset: nat, reverse: bool, invert: bool, signal: Signal,
                           best: FilterBest)
    requires stream.Valid() && offset <= stream.bitLength && best.Valid()
    modifies best
    ensures best.Valid()
    ensures best.considered == old(best.considered) + AssessReading(stream.Bits(), offset, reverse, invert, signal)
  {
    hide SelectAll, BytesNodes, ScoredAll, VaryBytes, RawBytes, Tail;
    var n := stream.bitLength - offset;
    var ones := CountTail(stream, offset);
    if invert {
      ones := n % 8 - ones;
    }
    var source := Source(stream.bitLength, n / 8 * 8, offset, n % 8, ones, signal.flags, signal.score);
    var path := Vary(START, reverse, invert);
    var bytes := MakeInterpretation(stream, offset, reverse, invert);
    var status := AssessBytesInto(bytes, path, source, best);
  }

  method AssessPhaseInto(stream: Bitstream, offset: nat, signal: Signal, best: FilterBest)
    requires stream.Valid() && LongEnough(stream.Bits(), offset) && best.Valid()
    modifies best
    ensures best.Valid()
    ensures best.considered == old(best.considered) + AssessPhase(stream.Bits(), offset, signal)
  {
    hide SelectAll, AssessReading;
    AssessReadingInto(stream, offset, false, false, signal, best);
    AssessReadingInto(stream, offset, false, true, signal, best);
    AssessReadingInto(stream, offset, true, false, signal, best);
    AssessReadingInto(stream, offset, true, true, signal, best);
  }

  // The public entry point.  Its whole report is the selection over the list
  // of considered candidates.
  method Filter(stream: Bitstream) returns (result: Option<FilterResult>)
    requires stream.Readable()
    ensures result.Some? <==> stream.Valid() && stream.bitLength <= SIZE_MAX - 7
    ensures result.Some? ==>
      var score := S.ScoreOf(stream.Bits());
      result.value == FilterOf(stream.Bits(), Signal(score.flags, score.score))
  {
    hide SelectAll, AssessPhase, S.ScoreOf;
    var ok := stream.CheckValid();
    if !ok {
      return None;
    }
    var scored := S.ComputeScore(stream);
    ghost var bits := stream.Bits();
    var signal := Signal(scored.value.flags, scored.value.score);
    var best := new FilterBest();
    var offset := 0;
    while offset < 8 && offset < stream.bitLength
      invariant 0 <= offset <= 8 && stream.Valid() && stream.Bits() == bits && fresh(best)
      invariant offset <= stream.bitLength
      invariant best.Valid() && best.considered == AllConsidered(bits, signal, offset)
    {
      if (stream.bitLength - offset) / 8 >= MIN_BYTES {
        AssessPhaseInto(stream, offset, signal, best);
      } else {
        ShortPhase(bits, offset, signal);
      }
      offset := offset + 1;
    }
    PhasesPastEnd(bits, signal, offset, 8);
    var verdict;
    if !best.hasResult || best.result.decodedLength < MIN_BYTES {
      verdict := Insufficient;
    } else if best.result.score >= 90 {
      verdict := Likely;
    } else if best.result.score >= 70 {
      verdict := Possible;
    } else {
      verdict := Reject;
    }
    return Some(best.result.(verdict := verdict, equalScore := best.equalScore));
  }

  lemma ShortPhase(bits: seq<bool>, offset: nat, signal: Signal)
    requires !LongEnough(bits, offset)
    ensures AssessPhase(bits, offset, signal) == []
  {
  }

  lemma PhasesPastEnd(bits: seq<bool>, signal: Signal, from: nat, k: nat)
    requires from <= k && (from >= 8 || from >= |bits|) && k <= 8
    ensures AllConsidered(bits, signal, k) == AllConsidered(bits, signal, from)
    decreases k
  {
    if from < k {
      PhasesPastEnd(bits, signal, from, k - 1);
    }
  }
}
