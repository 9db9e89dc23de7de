/** What the wrapper clamp and the opaque gate do to any candidate. */
module FilterGate {
  import opened Bits
  import opened Scorer
  import opened PlainText
  import opened FilterSpec
  import opened FilterTheorems
  import opened FilterVerdict
  import opened FilterNodes
  import K = Kt
  import S = Score

  // ----- the wrapper clamp -----

  lemma ScoredFields(node: Node, source: Source)
    requires source.tailBits < 8
    ensures var c := Scored(node, source);
            && c.bytes == node.bytes && c.result.transformDepth == node.path.depth
            && c.result.bitOffset == source.bitOffset && c.result.transforms == node.path.transforms
            && c.result.decodedLength == |node.bytes|
  {
    hide QualifiesOpaque, StructuredSignal, PlaintextScore, AnyDecodes;
  }

  // What a candidate's bytes are worth as text, less the price of a shifted or
  // altered reading.
  ghost function TextWorth(c: Considered): nat {
    Penalty(Penalty(Penalty(PlaintextScore(c.bytes).score, c.result.bitOffset > 0),
                    Did(ReverseBits) in c.result.flags),
            Did(InvertBits) in c.result.flags)
  }

  // Worth more than a clamped wrapper without being routed as opaque data.
  predicate PassesAsContent(r: FilterResult) {
    r.score > 60 && OpaqueData !in r.flags
  }

  // When bytes that still decode are not held to their content: exactly at the
  // deepest layer, where decoding is no longer tried, unless they are routed as
  // opaque data or are worth at most 60 on their own.
  lemma WrapperPassesExactly(bits: seq<bool>, signal: Signal, c: Considered)
    requires c in AllConsidered(bits, signal, 8) && AnyDecodes(c.bytes)
    ensures PassesAsContent(c.result) <==>
            && c.result.transformDepth == MAX_DEPTH
            && !(TextWorth(c) < 70 && HighUnexplained in signal.flags && LooksOpaque(c.bytes, 0, 0))
            && (TextWorth(c) > 60 || (signal.score >= 70 && Structured(signal)))
  {
    hide AllConsidered, AnyDecodes, ReadingNodes, PlaintextScore, LooksOpaque, Scored, SourceAt, RawBytes, Leads;
    var offset, reverse, invert, node := ConsideredNode(bits, signal, c);
    var source := SourceAt(bits, offset, invert, signal);
    ScoredFields(node, source);
    ReadingLead(bits, offset, reverse, invert, node);
    NoOpaqueYet(node, RawBytes(bits, offset));
    SourceSignal(bits, offset, invert, signal);
    WrapperScore(node, source, signal);
  }

  lemma SourceSignal(bits: seq<bool>, offset: nat, invert: bool, signal: Signal)
    requires offset <= |bits|
    ensures var s := SourceAt(bits, offset, invert, signal);
            s.bitOffset == offset && s.signalFlags == signal.flags && s.signalScore == signal.score
  {
    hide Tail;
  }

  lemma NoOpaqueYet(node: Node, raw: seq<byte>)
    requires Leads(node.path, raw, node.bytes)
    ensures OpaqueData !in node.path.flags
  {
    hide Replay, RadixOps;
  }

  lemma WrapperScore(node: Node, source: Source, signal: Signal)
    requires source.tailBits < 8 && AnyDecodes(node.bytes) && node.path.depth <= MAX_DEPTH
    requires source.signalFlags == signal.flags && source.signalScore == signal.score
    requires OpaqueData !in node.path.flags
    ensures var c := Scored(node, source);
            PassesAsContent(c.result) <==>
            && node.path.depth == MAX_DEPTH
            && !(TextWorth(c) < 70 && HighUnexplained in signal.flags && LooksOpaque(node.bytes, 0, 0))
            && (TextWorth(c) > 60 || (signal.score >= 70 && Structured(signal)))
  {
    hide AnyDecodes, PlaintextScore, LooksOpaque;
  }

  // So above the deepest layer only content, or opaque data, can pass.
  lemma WrapperNeedsContent(bits: seq<bool>, signal: Signal, c: Considered)
    requires c in AllConsidered(bits, signal, 8)
    requires c.result.transformDepth < MAX_DEPTH && AnyDecodes(c.bytes)
    ensures c.result.score <= 60 || OpaqueData in c.result.flags
  {
    hide AllConsidered, AnyDecodes, PlaintextScore, LooksOpaque, TextWorth;
    WrapperPassesExactly(bits, signal, c);
  }

  // ----- the opaque gate -----

  // The one bits of a candidate's own tail, which only raw bytes have.
  function OwnTailOnes(bits: seq<bool>, r: FilterResult): nat
    requires r.bitOffset <= |bits|
  {
    var tail := Tail(bits, r.bitOffset);
    if r.transformDepth > 0 then 0 else K.Count(tail, Did(InvertBits) !in r.flags)
  }

  function OwnTailBits(bits: seq<bool>, r: FilterResult): (n: nat)
    requires r.bitOffset <= |bits|
    ensures n < 8 && OwnTailOnes(bits, r) <= n
  {
    if r.transformDepth > 0 then 0 else |Tail(bits, r.bitOffset)|
  }

  ghost predicate PassesGate(bits: seq<bool>, c: Considered) {
    c.result.bitOffset <= |bits| && LooksOpaque(c.bytes, OwnTailOnes(bits, c.result), OwnTailBits(bits, c.result))
  }

  ghost predicate NodePasses(node: Node, source: Source)
    requires source.tailBits < 8
  {
    if node.path.depth == 0 then LooksOpaque(node.bytes, source.tailOnes, source.tailBits)
    else LooksOpaque(node.bytes, 0, 0)
  }

  // Beneath a reading, each layer's inversion is a node as well.
  lemma LayerSibling(input: seq<byte>, path: Path, node: Node) returns (other: Node)
    requires path.depth <= MAX_DEPTH && node in BytesNodes(input, path) && node != Node(input, path)
    ensures other in BytesNodes(input, path)
    ensures other.bytes == Inverted(node.bytes) && other.path.depth == node.path.depth
    decreases MAX_DEPTH - path.depth, 1, 0
  {
    other := RadicesSibling(input, path, 5, node);
  }

  lemma RadicesSibling(input: seq<byte>, path: Path, k: nat, node: Node) returns (other: Node)
    requires path.depth < MAX_DEPTH && k <= 5 && node in RadicesNodes(input, path, k)
    ensures other in RadicesNodes(input, path, k)
    ensures other.bytes == Inverted(node.bytes) && other.path.depth == node.path.depth
    decreases MAX_DEPTH - path.depth, 0, k
  {
    hide VariantsNodes, Decodes, Inverted;
    if node in RadicesNodes(input, path, k - 1) {
      other := RadicesSibling(input, path, k - 1, node);
    } else {
      var t := RADIX_OPS[k - 1];
      other := VariantsSibling(DecodeOf(t, input).value, Append(path, t), node);
    }
  }

  lemma VariantsSibling(input: seq<byte>, path: Path, node: Node) returns (other: Node)
    requires path.depth <= MAX_DEPTH && node in VariantsNodes(input, path)
    ensures other in VariantsNodes(input, path)
    ensures other.bytes == Inverted(node.bytes) && other.path.depth == node.path.depth
    decreases MAX_DEPTH - path.depth, 2, 0
  {
    var reverse, invert := VariantOf(input, path, node);
    var s, p := VaryBytes(input, reverse, invert), Vary(path, reverse, invert);
    hide BytesNodes, VariantsNodes, VaryBytes;
    if node == Node(s, p) {
      var t, q := VaryBytes(input, reverse, !invert), Vary(path, reverse, !invert);
      other := Node(t, q);
      OwnNode(t, q);
      VaryCompose(input, reverse, invert, false, true);
      VariantIn(input, path, reverse, !invert, other);
    } else {
      other := LayerSibling(s, p, node);
      VariantIn(input, path, reverse, invert, other);
    }
  }

  // A node of an unexplained stream that passes the gate scores 70 or more,
  // unless it is a wrapper; then it is printable, so its inversion passes the
  // gate too, is no text and no wrapper, and scores 70.
  lemma GateScores(node: Node, source: Source)
    requires source.tailBits < 8 && HighUnexplained in source.signalFlags && NodePasses(node, source)
    ensures Scored(node, source).result.score >= 70 || AnyDecodes(node.bytes)
  {
    hide LooksOpaque, PlaintextScore, AnyDecodes;
  }

  lemma InversionScores(node: Node, other: Node, source: Source, flipped: Source)
    requires source.tailBits == flipped.tailBits < 8 && source.tailOnes <= source.tailBits
    requires flipped.tailOnes == source.tailBits - source.tailOnes
    requires HighUnexplained in flipped.signalFlags && NodePasses(node, source) && AnyDecodes(node.bytes)
    requires other.bytes == Inverted(node.bytes) && other.path.depth == node.path.depth
    ensures Scored(other, flipped).result.score >= 70
  {
    hide LooksOpaque, PlaintextScore, AnyDecodes, Inverted;
    AnyDecodesPrintable(node.bytes);
    InvertedWrapperHigh(node.bytes);
    HighScoresLow(other.bytes);
    GateInversionInvariant(node.bytes, source.tailOnes, source.tailBits);
    GateInversionInvariant(node.bytes, 0, 0);
    HighDecodesNothing(other.bytes);
    GateHolds(other, flipped);
  }

  lemma GateHolds(node: Node, source: Source)
    requires source.tailBits < 8 && HighUnexplained in source.signalFlags && NodePasses(node, source)
    requires !AnyDecodes(node.bytes)
    ensures Scored(node, source).result.score >= 70
  {
    GateScores(node, source);
  }

  lemma HighDecodesNothing(s: seq<byte>)
    requires AllHigh(s)
    ensures !AnyDecodes(s)
  {
    hide AnyDecodes;
    assert s != [] ==> s[0] >= 0x80;
    if AnyDecodes(s) {
      AnyDecodesPrintable(s);
    }
  }

  // Only the reading itself has no radix layer behind it.
  lemma DepthZeroIsOwn(bits: seq<bool>, offset: nat, reverse: bool, invert: bool, node: Node)
    requires offset <= |bits| && node in ReadingNodes(bits, offset, reverse, invert) && node.path.depth == 0
    ensures node == Node(VaryBytes(RawBytes(bits, offset), reverse, invert), Vary(START, reverse, invert))
  {
    hide VaryBytes, RawBytes, RadicesNodes, Leads;
    var raw := RawBytes(bits, offset);
    var input, path := VaryBytes(raw, reverse, invert), Vary(START, reverse, invert);
    StartLeads(raw);
    LeadsVary(START, raw, raw, reverse, invert);
    if node != Node(input, path) {
      RadicesLead(input, path, 5, raw, node);
    }
  }

  // The tail a candidate is judged with is its own.
  lemma GateOfNode(bits: seq<bool>, signal: Signal, offset: nat, reverse: bool, invert: bool, node: Node)
    requires offset <= |bits| && node in ReadingNodes(bits, offset, reverse, invert)
    ensures var source := SourceAt(bits, offset, invert, signal);
            && source.tailOnes <= source.tailBits
            && (PassesGate(bits, Scored(node, source)) ==> NodePasses(node, source))
  {
    var source := SourceAt(bits, offset, invert, signal);
    K.CountTotal(Tail(bits, offset));
    if node.path.depth == 0 {
      DepthZeroIsOwn(bits, offset, reverse, invert, node);
      OwnFlags(node, reverse, invert, source);
    }
    hide LooksOpaque, Scored, RawBytes, VaryBytes, ReadingNodes, Tail;
    ScoredFields(node, source);
  }

  lemma OwnFlags(node: Node, reverse: bool, invert: bool, source: Source)
    requires source.tailBits < 8 && node.path == Vary(START, reverse, invert)
    ensures Did(InvertBits) in Scored(node, source).result.flags <==> invert
  {
    hide PlaintextScore, LooksOpaque, AnyDecodes;
  }

  // Some candidate reaches 70 whenever one passes the gate.
  lemma GateReached(bits: seq<bool>, signal: Signal, c: Considered) returns (d: Considered)
    requires c in AllConsidered(bits, signal, 8) && PassesGate(bits, c) && HighUnexplained in signal.flags
    ensures d in AllConsidered(bits, signal, 8) && d.result.score >= 70
  {
    hide AllConsidered, AnyDecodes, PassesGate, NodePasses, ReadingNodes, Scored, Tail, VaryBytes, RawBytes, Inverted;
    var offset, reverse, invert, node := ConsideredNode(bits, signal, c);
    var source := SourceAt(bits, offset, invert, signal);
    GateOfNode(bits, signal, offset, reverse, invert, node);
    GateScores(node, source);
    d := c;
    if c.result.score < 70 {
      var r, i, other := NodeSibling(bits, offset, reverse, invert, node);
      var flipped := SourceAt(bits, offset, i, signal);
      if node.path.depth > 0 {
        DeeperGate(node, source, flipped);
        K.CountTotal(Tail(bits, offset));
        InversionScores(node, other, flipped, Opposite(flipped));
        DeeperScore(other, Opposite(flipped), flipped);
      } else {
        InversionScores(node, other, source, flipped);
      }
      d := Scored(other, flipped);
      NodeConsidered(bits, signal, offset, r, i, other);
    }
  }

  function Opposite(source: Source): Source
    requires source.tailOnes <= source.tailBits
  {
    source.(tailOnes := source.tailBits - source.tailOnes)
  }

  // Layers are judged without the tail.
  lemma DeeperGate(node: Node, a: Source, b: Source)
    requires a.tailBits < 8 && b.tailBits < 8 && node.path.depth > 0 && NodePasses(node, a)
    ensures NodePasses(node, b)
  {
  }

  lemma DeeperScore(node: Node, a: Source, b: Source)
    requires a.tailBits == b.tailBits < 8 && node.path.depth > 0 && b == a.(tailOnes := b.tailOnes)
    ensures Scored(node, a).result.score == Scored(node, b).result.score
  {
    hide LooksOpaque, PlaintextScore, AnyDecodes;
  }

  lemma NodeSibling(bits: seq<bool>, offset: nat, reverse: bool, invert: bool, node: Node)
    returns (r: bool, i: bool, other: Node)
    requires offset <= |bits| && node in ReadingNodes(bits, offset, reverse, invert)
    ensures other in ReadingNodes(bits, offset, r, i)
    ensures other.bytes == Inverted(node.bytes) && other.path.depth == node.path.depth
    ensures r == reverse && i == (invert != (node.path.depth == 0))
  {
    var raw := RawBytes(bits, offset);
    if node.path.depth == 0 {
      DepthZeroIsOwn(bits, offset, reverse, invert, node);
      hide VaryBytes, RawBytes, BytesNodes;
      r, i := reverse, !invert;
      other := Node(VaryBytes(raw, r, i), Vary(START, r, i));
      VaryCompose(raw, reverse, invert, false, true);
      OwnNode(other.bytes, other.path);
    } else {
      hide VaryBytes, RawBytes, BytesNodes, Inverted;
      r, i := reverse, invert;
      other := LayerSibling(VaryBytes(raw, r, i), Vary(START, r, i), node);
    }
  }

  // In an otherwise unexplained stream, if any candidate's bytes with its own
  // tail pass the opaque gate, raw or decoded, altered or not, then no
  // penalty, wrapper clamp or rival can bring the verdict below POSSIBLE.
  lemma QualifyingCannotBeDemoted(bits: seq<bool>, c: Considered)
    requires c in AllConsidered(bits, Reported(bits), 8) && PassesGate(bits, c)
    requires HighUnexplained in S.ScoreOf(bits).flags
    ensures var r := FilterOf(bits, Reported(bits));
            r.verdict == Possible || r.verdict == Likely
  {
    hide AllConsidered, S.Scorers, SelectAll, PassesGate;
    var d := GateReached(bits, Reported(bits), c);
    var cs := AllConsidered(bits, Reported(bits), 8);
    SelectionIsMaximal(cs);
    var w :| w in cs && w.result == SelectAll(cs).result;
    ScoreNeedsBytes(bits, Reported(bits), w);
  }

  ghost predicate OpaqueAt(bits: seq<bool>, offset: nat)
    requires offset <= |bits|
  {
    LooksOpaque(RawBytes(bits, offset), K.Count(Tail(bits, offset), true), (|bits| - offset) % 8)
  }

  // In particular, untransformed bytes at any phase.
  lemma OpaqueCannotBeDemoted(bits: seq<bool>, offset: nat)
    requires offset < 8 && offset <= |bits| && OpaqueAt(bits, offset)
    requires HighUnexplained in S.ScoreOf(bits).flags
    ensures var r := FilterOf(bits, Reported(bits));
            r.verdict == Possible || r.verdict == Likely
  {
    hide S.ScoreOf, AllConsidered, VaryBytes, RawBytes, Tail, Scored, BytesNodes;
    var node, source := Node(RawBytes(bits, offset), START), SourceAt(bits, offset, false, Reported(bits));
    assert LongEnough(bits, offset);
    VaryNone(RawBytes(bits, offset));
    OwnNode(node.bytes, START);
    assert node in ReadingNodes(bits, offset, false, false);
    NodeConsidered(bits, Reported(bits), offset, false, false, node);
    ScoredFields(node, source);
    OwnFlags(node, false, false, source);
    QualifyingCannotBeDemoted(bits, Scored(node, source));
  }
}
