/** When a decoded layer of fewer than six bytes wins, and with it the verdict
    INSUFFICIENT on a stream that holds six whole bytes. */
module FilterShort {
  import opened Bits
  import opened Scorer
  import opened Utf8
  import opened PlainText
  import opened FilterSpec
  import opened FilterTheorems
  import opened FilterVerdict
  import opened FilterNodes
  import opened FilterGate
  import opened Prose
  import K = Kt
  import R = Radix
  import S = Score

  // ----- which tokens have short layers -----

  // The digits of a token are the bits of its layer and a tail.
  lemma LayerCount(t: Transform, input: seq<byte>, d: seq<byte>)
    requires IsRadix(t) && t != Base16 && Decodes(t, input, d)
    ensures var r, n := RadixOf(t), |R.Body(input)|;
            && n <= |input| && |input| >= 8 && R.RemainderOk(r, n % R.Group(r))
            && (n == |input| || (|input| % R.Group(r) == 0 && |input| - n == R.ExpectedPads(r, n % R.Group(r))))
            && R.Width(r) * n == 8 * |d| + R.TailBits(r, n)
  {
    hide R.Body, R.AllPads, R.AllValues, R.ValuesOf, R.DigitBits, BytesBits, R.Zeros, R.RemainderOk, R.ExpectedPads;
  }

  // How long a token with a layer of fewer than six, or of eight, bytes is.
  lemma LayerLength(t: Transform, input: seq<byte>, d: seq<byte>)
    requires IsRadix(t) && Decodes(t, input, d)
    ensures |d| < MIN_BYTES ==> |input| == 8
    ensures |d| == 8 ==> |input| in {11, 12, 13, 16}
  {
    hide R.Accepts, R.Body, R.RemainderOk, R.ExpectedPads, R.TailBits;
    if t != Base16 {
      LayerCount(t, input, d);
      var r := RadixOf(t);
      var n, pads := |R.Body(input)|, |input| - |R.Body(input)|;
      SymbolsOfLength(r, |input|, n, pads, |d|);
    }
  }

  lemma SymbolsOfLength(r: R.Radix, length: nat, n: nat, pads: nat, bytes: nat)
    requires length == n + pads && length >= 8 && R.RemainderOk(r, n % R.Group(r))
    requires pads == 0 || (length % R.Group(r) == 0 && pads == R.ExpectedPads(r, n % R.Group(r)))
    requires R.Width(r) * n == 8 * bytes + R.TailBits(r, n)
    ensures bytes < MIN_BYTES ==> length == 8
    ensures bytes == 8 ==> length in {11, 12, 13, 16}
  {
    assert n <= 16 || bytes > 8;
  }

  // Lengths of bytes that have a short node beneath them.
  predicate ShortBeneath(depth: nat, length: nat) {
    || length < MIN_BYTES
    || (depth <= 1 && length == 8)
    || (depth == 0 && length in {11, 12, 13, 16})
  }

  lemma ShortNode(input: seq<byte>, path: Path, node: Node)
    requires path.depth <= MAX_DEPTH && node in BytesNodes(input, path) && |node.bytes| < MIN_BYTES
    ensures ShortBeneath(path.depth, |input|)
    decreases MAX_DEPTH - path.depth, 1, 0
  {
    if node != Node(input, path) {
      ShortRadices(input, path, 5, node);
    }
  }

  lemma ShortRadices(input: seq<byte>, path: Path, k: nat, node: Node)
    requires path.depth < MAX_DEPTH && k <= 5 && node in RadicesNodes(input, path, k) && |node.bytes| < MIN_BYTES
    ensures ShortBeneath(path.depth, |input|)
    decreases MAX_DEPTH - path.depth, 0, k
  {
    hide VariantsNodes, Decodes;
    if node in RadicesNodes(input, path, k - 1) {
      ShortRadices(input, path, k - 1, node);
    } else {
      var t := RADIX_OPS[k - 1];
      var d := DecodeOf(t, input).value;
      var reverse, invert := VariantOf(d, Append(path, t), node);
      ShortNode(VaryBytes(d, reverse, invert), Vary(Append(path, t), reverse, invert), node);
      LayerLength(t, input, d);
    }
  }

  // A node other than the bytes themselves means that they decode.
  lemma LayerMeansDecodes(input: seq<byte>, path: Path, k: nat, node: Node)
    requires path.depth < MAX_DEPTH && k <= 5 && node in RadicesNodes(input, path, k)
    ensures AnyDecodes(input)
  {
    hide VariantsNodes, Decodes;
    if node in RadicesNodes(input, path, k - 1) {
      LayerMeansDecodes(input, path, k - 1, node);
    } else {
      assert DecodeOf(RADIX_OPS[k - 1], input).Some?;
    }
  }

  // What a short node says of the reading it lies beneath.
  lemma ShortReading(bits: seq<bool>, offset: nat, reverse: bool, invert: bool, node: Node)
    requires LongEnough(bits, offset) && node in ReadingNodes(bits, offset, reverse, invert)
    requires |node.bytes| < MIN_BYTES
    ensures (|bits| - offset) / 8 in {8, 11, 12, 13, 16}
    ensures AnyDecodes(VaryBytes(RawBytes(bits, offset), reverse, invert)) && node.path.depth > 0
  {
    var input, path := VaryBytes(RawBytes(bits, offset), reverse, invert), Vary(START, reverse, invert);
    hide VaryBytes, RawBytes, AnyDecodes;
    ShortNode(input, path, node);
    assert node != Node(input, path);
    LayerMeansDecodes(input, path, 5, node);
    if node.path.depth == 0 {
      DepthZeroIsOwn(bits, offset, reverse, invert, node);
    }
  }

  // Whatever the signal, more than 142 bits are never INSUFFICIENT.
  lemma InsufficientNotLong(bits: seq<bool>, signal: Signal)
    ensures FilterOf(bits, signal).verdict == Insufficient ==> |bits| <= 142
  {
    hide AllConsidered, SelectAll, Scored, ReadingNodes, RawBytes, VaryBytes, AnyDecodes, SourceAt;
    if FilterOf(bits, signal).verdict == Insufficient && |bits| >= 48 {
      var cs := AllConsidered(bits, signal, 8);
      FirstPhaseNonempty(bits, signal);
      SelectionIsMaximal(cs);
      var w :| w in cs && w.result == SelectAll(cs).result;
      var offset, reverse, invert, node := ConsideredNode(bits, signal, w);
      ScoredFields(node, SourceAt(bits, offset, invert, signal));
      ShortReading(bits, offset, reverse, invert, node);
    }
  }

  // ----- scores under a structured signal -----

  // The only structured signal the scorers report.
  predicate StructuredOnly(signal: Signal) {
    signal.score == 72 && Structured(signal) && HighUnexplained !in signal.flags
  }

  lemma ReportedStructured(bits: seq<bool>)
    ensures Structured(Reported(bits)) <==> StructuredOnly(Reported(bits))
  {
    hide S.Scorers;
  }

  predicate StructuredSource(source: Source) {
    source.tailBits < 8 && StructuredSignal(source) && source.signalScore == 72
    && HighUnexplained !in source.signalFlags
  }

  // What a node is worth as text at a phase.
  ghost function TextOf(node: Node, offset: nat): (score: nat)
    ensures score <= PlaintextScore(node.bytes).score
  {
    Penalty(Penalty(Penalty(PlaintextScore(node.bytes).score, offset > 0), Did(ReverseBits) in node.path.flags),
            Did(InvertBits) in node.path.flags)
  }

  // Neither a clamped wrapper nor text: such a node scores 72.
  ghost predicate Silent(node: Node, offset: nat) {
    !Wrapper(node) && TextOf(node, offset) < 70
  }

  lemma NodeScore(node: Node, source: Source)
    requires StructuredSource(source) && OpaqueData !in node.path.flags
    ensures var r := Scored(node, source).result;
            && r.score == (if Wrapper(node) then 60 else if TextOf(node, source.bitOffset) >= 70
                           then TextOf(node, source.bitOffset) else 72)
            && OpaqueData !in r.flags
            && (Silent(node, source.bitOffset) ==>
                  r.consumed == source.completeBits + (if node.path.depth == 0 then source.tailBits else 0))
            && (node.path.depth > 0 ==> r.consumed == source.completeBits)
  {
    hide PlaintextScore, AnyDecodes, LooksOpaque;
  }

  lemma LedFlags(path: Path, raw: seq<byte>, input: seq<byte>)
    requires Leads(path, raw, input)
    ensures OpaqueData !in path.flags
  {
    hide Replay, RadixOps;
  }

  // Text scores come in fives, so nothing ties with 72 as text.
  lemma TextInFives(node: Node, offset: nat)
    ensures TextOf(node, offset) % 5 == 0
  {
    hide PlaintextScore;
    ScoreInFives(node.bytes);
  }

  // A reading that decodes has an inversion that is silent.
  lemma InversionSilent(bits: seq<bool>, offset: nat, reverse: bool, invert: bool)
    requires LongEnough(bits, offset) && AnyDecodes(VaryBytes(RawBytes(bits, offset), reverse, invert))
    ensures var other := Node(VaryBytes(RawBytes(bits, offset), reverse, !invert), Vary(START, reverse, !invert));
            && other in ReadingNodes(bits, offset, reverse, !invert)
            && Silent(other, offset) && OpaqueData !in other.path.flags
  {
    hide VaryBytes, RawBytes, AnyDecodes, PlaintextScore, BytesNodes;
    var raw := RawBytes(bits, offset);
    var input := VaryBytes(raw, reverse, invert);
    var other := Node(VaryBytes(raw, reverse, !invert), Vary(START, reverse, !invert));
    VaryCompose(raw, reverse, invert, false, true);
    OwnNode(other.bytes, other.path);
    AnyDecodesPrintable(input);
    InvertedWrapperHigh(input);
    HighScoresLow(other.bytes);
    HighDecodesNothing(other.bytes);
  }

  // ----- the first phase always has a say -----

  lemma HighBit(b: byte)
    ensures ToBits(b, 8)[0] <==> b >= 128
    ensures ToBits(b, 8)[1] <==> b / 64 % 2 == 1
  {
    ToBitsAt(b, 8, 0);
    ToBitsAt(b, 8, 1);
    ShrTop(b);
    hide ToBits, Shr;
  }

  lemma ShrTop(b: byte)
    ensures Shr(b, 7) == b / 128 && Shr(b, 6) == b / 64
  {
    hide Shr, Low, Pow2;
    Pow2Eight();
    ShrLow(b, 7);
    ShrLow(b, 6);
  }

  lemma RawByteBits(bits: seq<bool>, offset: nat, j: nat)
    requires offset <= |bits| && j < (|bits| - offset) / 8
    ensures ToBits(RawBytes(bits, offset)[j], 8) == bits[offset + 8 * j..offset + 8 * j + 8]
  {
    var window := bits[offset + 8 * j..offset + 8 * j + 8];
    assert |window| == 8 && RawBytes(bits, offset)[j] == ByteOf(window);
    hide ToBits, ByteOf, RawBytes;
    ToBitsOfByte(window);
  }

  lemma VariedBits(b: byte, reverse: bool, invert: bool, c: nat)
    requires c < 8
    ensures ToBits(VaryByte(b, reverse, invert), 8)[c] == (ToBits(b, 8)[if reverse then 7 - c else c] != invert)
  {
    hide ToBits, ByteOf;
    ToBitsOfByte(VaryBits(ToBits(b, 8), reverse, invert));
  }

  // A printable reading at a later phase pins one bit of every aligned byte
  // from the second on.
  lemma PinnedBit(bits: seq<bool>, offset: nat, reverse: bool, invert: bool) returns (c: nat)
    requires 0 < offset < 8 && offset <= |bits| && (|bits| - offset) % 8 == 0
    requires Printable(VaryBytes(RawBytes(bits, offset), reverse, invert))
    ensures c < 8 && forall m :: 1 <= m < |RawBytes(bits, 0)| ==> ToBits(RawBytes(bits, 0)[m], 8)[c] == invert
  {
    c := if reverse then offset - 1 else offset;
    var shifted := RawBytes(bits, offset);
    forall m | 1 <= m < |RawBytes(bits, 0)|
      ensures ToBits(RawBytes(bits, 0)[m], 8)[c] == invert
    {
      var j := if reverse then m - 1 else m;
      RawByteBits(bits, 0, m);
      RawByteBits(bits, offset, j);
      hide ToBits, RawBytes, VaryByte;
      VariedBits(shifted[j], reverse, invert, 0);
      HighBit(VaryByte(shifted[j], reverse, invert));
      assert VaryBytes(shifted, reverse, invert)[j] == VaryByte(shifted[j], reverse, invert);
      assert bits[8 * m..8 * m + 8][c] == bits[8 * m + c];
      assert bits[offset + 8 * j..offset + 8 * j + 8][if reverse then 7 else 0] == bits[8 * m + c];
    }
  }

  lemma ReversedReturn()
    ensures VaryByte(13, true, false) / 64 == 2
  {
    ThirteenBits();
    hide ToBits, VaryByte;
    VariedBits(13, true, false, 0);
    VariedBits(13, true, false, 1);
    HighBit(VaryByte(13, true, false));
  }

  lemma ThirteenBits()
    ensures ToBits(13, 8)[7] && !ToBits(13, 8)[6]
  {
    ToBitsAt(13, 8, 7);
    ToBitsAt(13, 8, 6);
    hide ToBits;
  }

  // Bytes that read as text in all four ways, above 75 both times reversed,
  // have no pinned bit.
  lemma FourTextsUnpinned(s: seq<byte>, c: nat, v: bool)
    requires c < 8 && forall m :: 1 <= m < |s| ==> ToBits(s[m], 8)[c] == v
    requires PlaintextScore(s).score > 0 && PlaintextScore(VaryBytes(s, false, true)).score > 0
    requires PlaintextScore(VaryBytes(s, true, false)).score >= 75
    ensures PlaintextScore(VaryBytes(s, true, true)).score < 75
  {
    hide PlaintextScore, ToBits, ValidUtf8;
    var inv, rev, both := VaryBytes(s, false, true), VaryBytes(s, true, false), VaryBytes(s, true, true);
    if PlaintextScore(both).score >= 75 {
      VaryCompose(s, true, false, false, true);
      VaryCompose(s, true, false, true, false);
      VaryCompose(s, true, true, false, true);
      VaryCompose(s, true, true, true, false);
      VaryNone(s);
      var a := ProseNeedsReturn(rev, both, s);
      var b := ProseNeedsReturn(both, rev, inv);
      TextHas(s);
      TextHas(inv);
      ReversedReturn();
      ReversedAt(rev, s, a);
      ReversedAt(both, inv, b);
      hide VaryBytes;
      ValidFacts(s, 0);
      ValidFacts(inv, 0);
      assert a > 0 && b > 0;
      PinnedReturns(s, rev, both, a, b, c);
    }
  }

  lemma PinnedReturns(s: seq<byte>, rev: seq<byte>, both: seq<byte>, a: nat, b: nat, c: nat)
    requires rev == VaryBytes(s, true, false) && both == VaryBytes(s, true, true) && c < 8
    requires a < |s| && b < |s| && rev[a] == 13 == both[b]
    ensures ToBits(s[a], 8)[c] != ToBits(s[b], 8)[c]
  {
    hide ToBits, VaryByte;
    VariedBits(s[a], true, false, 7 - c);
    VariedBits(s[b], true, true, 7 - c);
  }

  // If a reading at a later phase decodes, some aligned reading scores 72 or
  // more.
  lemma FirstPhaseSpeaks(bits: seq<bool>, signal: Signal, offset: nat, reverse: bool, invert: bool)
    returns (r: bool, i: bool, node: Node)
    requires StructuredOnly(signal) && 0 < offset < 8 && LongEnough(bits, offset) && (|bits| - offset) % 8 == 0
    requires AnyDecodes(VaryBytes(RawBytes(bits, offset), reverse, invert))
    ensures LongEnough(bits, 0) && node in ReadingNodes(bits, 0, r, i)
    ensures Scored(node, SourceAt(bits, 0, i, signal)).result.score >= 72
  {
    var s := RawBytes(bits, 0);
    AnyDecodesPrintable(VaryBytes(RawBytes(bits, offset), reverse, invert));
    var c := PinnedBit(bits, offset, reverse, invert);
    hide PlaintextScore, RawBytes, VaryBytes, AnyDecodes, ToBits, Printable;
    r, i := LoudReading(bits, signal);
    if !Loud(bits, signal, r, i) {
      AllSeventy(bits, signal, false, false);
      AllSeventy(bits, signal, false, true);
      AllSeventy(bits, signal, true, false);
      AllSeventy(bits, signal, true, true);
      VaryNone(s);
      FourTextsUnpinned(s, c, invert);
    }
    node := Node(VaryBytes(s, r, i), Vary(START, r, i));
    hide BytesNodes;
    OwnNode(node.bytes, node.path);
  }

  // The aligned reading, or its inversion, scores 72 or more.
  ghost predicate Loud(bits: seq<bool>, signal: Signal, r: bool, i: bool) {
    Scored(Node(VaryBytes(RawBytes(bits, 0), r, i), Vary(START, r, i)), SourceAt(bits, 0, i, signal)).result.score >= 72
  }

  lemma LoudReading(bits: seq<bool>, signal: Signal) returns (r: bool, i: bool)
    ensures Loud(bits, signal, r, i) || forall p, q :: !Loud(bits, signal, p, q)
  {
    hide Loud;
    r, i := false, false;
    if p, q :| Loud(bits, signal, p, q) {
      r, i := p, q;
    }
  }

  lemma AllSeventy(bits: seq<bool>, signal: Signal, r: bool, i: bool)
    requires StructuredOnly(signal) && LongEnough(bits, 0) && forall p, q :: !Loud(bits, signal, p, q)
    ensures PlaintextScore(VaryBytes(RawBytes(bits, 0), r, i)).score >=
            70 + (if r then 5 else 0) + (if i then 5 else 0)
  {
    var input, path := VaryBytes(RawBytes(bits, 0), r, i), Vary(START, r, i);
    var node, source := Node(input, path), SourceAt(bits, 0, i, signal);
    hide PlaintextScore, RawBytes, VaryBytes, AnyDecodes, BytesNodes, Scored;
    assert !Loud(bits, signal, r, i) && !Loud(bits, signal, r, !i);
    NodeScore(node, source);
    if AnyDecodes(input) {
      InversionSilent(bits, 0, r, i);
      var other := Node(VaryBytes(RawBytes(bits, 0), r, !i), Vary(START, r, !i));
      NodeScore(other, SourceAt(bits, 0, !i, signal));
    }
  }

  // ----- where a short winner can be -----

  lemma SourceStructured(bits: seq<bool>, offset: nat, invert: bool, signal: Signal)
    requires offset <= |bits| && StructuredOnly(signal)
    ensures var source := SourceAt(bits, offset, invert, signal);
            && StructuredSource(source) && source.bitOffset == offset && source.tailBits == (|bits| - offset) % 8
            && source.completeBits == (|bits| - offset) / 8 * 8
  {
  }

  // A short node scores 72 and leaves its tail aside.
  lemma ShortScores(bits: seq<bool>, signal: Signal, offset: nat, reverse: bool, invert: bool, node: Node)
    requires StructuredOnly(signal) && LongEnough(bits, offset)
    requires node in ReadingNodes(bits, offset, reverse, invert) && |node.bytes| < MIN_BYTES
    ensures var r := Scored(node, SourceAt(bits, offset, invert, signal)).result;
            r.score == 72 && r.bitOffset == offset && r.consumed == (|bits| - offset) / 8 * 8 && OpaqueData !in r.flags
  {
    hide ReadingNodes, Scored, SourceAt, RawBytes, Leads, AnyDecodes, PlaintextScore, VaryBytes;
    var source := SourceAt(bits, offset, invert, signal);
    SourceStructured(bits, offset, invert, signal);
    ShortReading(bits, offset, reverse, invert, node);
    ReadingLead(bits, offset, reverse, invert, node);
    LedFlags(node.path, RawBytes(bits, offset), node.bytes);
    NodeScore(node, source);
    ScoredFields(node, source);
    if AnyDecodes(node.bytes) {
      AnyDecodesPrintable(node.bytes);
    }
  }

  // Unless the stream is whole bytes read from its start, something beats a
  // short node: a reading that counts the tail, or an aligned one.
  lemma ShortMustAlign(bits: seq<bool>, signal: Signal, offset: nat, reverse: bool, invert: bool, node: Node)
    returns (c: Considered)
    requires StructuredOnly(signal) && offset < 8 && LongEnough(bits, offset)
    requires node in ReadingNodes(bits, offset, reverse, invert) && |node.bytes| < MIN_BYTES
    requires offset > 0 || |bits| % 8 != 0
    ensures c in AllConsidered(bits, signal, 8)
    ensures Better(c.result, Scored(node, SourceAt(bits, offset, invert, signal)).result)
  {
    hide ReadingNodes, Scored, SourceAt, RawBytes, VaryBytes, Leads, AnyDecodes, PlaintextScore, AllConsidered, Silent;
    ShortScores(bits, signal, offset, reverse, invert, node);
    ShortReading(bits, offset, reverse, invert, node);
    if (|bits| - offset) % 8 != 0 {
      InversionSilent(bits, offset, reverse, invert);
      var other := Node(VaryBytes(RawBytes(bits, offset), reverse, !invert), Vary(START, reverse, !invert));
      var source := SourceAt(bits, offset, !invert, signal);
      SourceStructured(bits, offset, !invert, signal);
      SilentScores(other, source);
      c := Scored(other, source);
      NodeConsidered(bits, signal, offset, reverse, !invert, other);
    } else {
      var r, i, other := FirstPhaseSpeaks(bits, signal, offset, reverse, invert);
      ScoredFields(other, SourceAt(bits, 0, i, signal));
      SourceStructured(bits, 0, i, signal);
      c := Scored(other, SourceAt(bits, 0, i, signal));
      NodeConsidered(bits, signal, 0, r, i, other);
    }
  }

  lemma SilentScores(node: Node, source: Source)
    requires StructuredSource(source) && OpaqueData !in node.path.flags && Silent(node, source.bitOffset)
    ensures var r := Scored(node, source).result;
            && r.score == 72 && r.bitOffset == source.bitOffset && OpaqueData !in r.flags
            && r.consumed == source.completeBits + (if node.path.depth == 0 then source.tailBits else 0)
  {
    hide Scored, AnyDecodes, PlaintextScore;
    NodeScore(node, source);
    ScoredFields(node, source);
  }

  // ----- the preferred node -----

  // Fewer bit operations first, then more radix layers.
  predicate Ahead(a: Node, b: Node) {
    BitOps(a.path.transforms) < BitOps(b.path.transforms)
    || (BitOps(a.path.transforms) == BitOps(b.path.transforms) && a.path.depth > b.path.depth)
  }

  // The first silent node that no other silent one is ahead of.
  ghost function Preferred(nodes: seq<Node>): Option<Node> {
    if nodes == [] then None
    else
      var before, last := Preferred(nodes[..|nodes| - 1]), nodes[|nodes| - 1];
      if Silent(last, 0) && (before.None? || Ahead(last, before.value)) then Some(last) else before
  }

  // Every node of the list carries the flags and offset of an aligned reading,
  // and none scores above 72.
  ghost predicate Quiet(nodes: seq<Node>, source: Source) {
    && StructuredSource(source) && source.bitOffset == 0 && source.tailBits == 0
    && forall i :: 0 <= i < |nodes| ==>
         OpaqueData !in nodes[i].path.flags && Scored(nodes[i], source).result.score <= 72
  }

  // Selection over quiet nodes keeps the preferred one.
  lemma {:induction false} SelectPreferred(nodes: seq<Node>, source: Source)
    requires Quiet(nodes, source)
    ensures var best, p := SelectAll(ScoredAll(nodes, source)), Preferred(nodes);
            && (p.Some? ==> p.value in nodes && Silent(p.value, 0) && OpaqueData !in p.value.path.flags
                            && best.hasResult && best.result == Scored(p.value, source).result)
            && (p.None? ==> best.hasResult ==> best.result.score < 72)
  {
    hide Scored, Silent, Ahead, Better, BitOps;
    if nodes != [] {
      var m := |nodes| - 1;
      var cs := ScoredAll(nodes, source);
      assert cs[..m] == ScoredAll(nodes[..m], source);
      SelectPreferred(nodes[..m], source);
      SelectStep(nodes[m], Preferred(nodes[..m]), source);
    }
  }

  // A quiet node scores 72 exactly when it is silent, and two of those rank
  // by bit operations and depth.
  lemma SelectStep(last: Node, before: Option<Node>, source: Source)
    requires StructuredSource(source) && source.bitOffset == 0 && source.tailBits == 0
    requires OpaqueData !in last.path.flags && Scored(last, source).result.score <= 72
    requires before.Some? ==> OpaqueData !in before.value.path.flags && Silent(before.value, 0)
    ensures Scored(last, source).result.score == 72 <==> Silent(last, 0)
    ensures before.Some? ==> Scored(before.value, source).result.score == 72
    ensures before.Some? && Silent(last, 0) ==>
      (Better(Scored(last, source).result, Scored(before.value, source).result) <==> Ahead(last, before.value))
  {
    hide Scored, AnyDecodes, PlaintextScore, TextOf, BitOps;
    NodeScore(last, source);
    ScoredFields(last, source);
    TextInFives(last, 0);
    if before.Some? {
      NodeScore(before.value, source);
      ScoredFields(before.value, source);
    }
  }

  // What comes later neither outscores nor outranks the best so far.
  lemma {:induction false} SelectKeeps(a: seq<Considered>, b: seq<Considered>)
    requires SelectAll(a).hasResult
    requires forall c :: c in b ==> !Better(c.result, SelectAll(a).result)
    ensures SelectAll(a + b).hasResult && SelectAll(a + b).result == SelectAll(a).result
  {
    hide Better;
    if b == [] {
      assert a + b == a;
    } else {
      var m := |b| - 1;
      SelectKeeps(a, b[..m]);
      assert (a + b)[..|a + b| - 1] == a + b[..m];
      assert b[m] in b;
      BetterScore(b[m].result, SelectAll(a).result);
    }
  }

  // ----- the exact condition -----

  // No reading or layer, at any phase, is worth 75 as text, wrappers aside.
  ghost predicate NothingReadsAsText(bits: seq<bool>) {
    forall offset: nat, reverse, invert, node ::
      offset < 8 && LongEnough(bits, offset) && node in ReadingNodes(bits, offset, reverse, invert) && !Wrapper(node)
      ==> TextOf(node, offset) < 75
  }

  // The stream is whole bytes, nothing in it reads as text, and of its aligned
  // readings and layers the preferred one is shorter than six bytes.
  ghost predicate ShortLayerPreferred(bits: seq<bool>) {
    && |bits| % 8 == 0 && NothingReadsAsText(bits)
    && var p := Preferred(PhaseNodes(bits, 0));
       p.Some? && |p.value.bytes| < MIN_BYTES
  }

  lemma TextAbove(bits: seq<bool>, signal: Signal)
    requires StructuredOnly(signal)
    ensures NothingReadsAsText(bits) <==> NoneAbove(AllConsidered(bits, signal, 8), 72)
  {
    hide ReadingNodes, AllConsidered, Wrapper, TextOf, Scored;
    var cs := AllConsidered(bits, signal, 8);
    if NothingReadsAsText(bits) {
      forall c | c in cs
        ensures c.result.score <= 72
      {
        var offset, reverse, invert, node := ConsideredNode(bits, signal, c);
        NodeAbove(bits, signal, offset, reverse, invert, node);
      }
    }
    if NoneAbove(cs, 72) {
      forall offset: nat, reverse, invert, node |
        offset < 8 && LongEnough(bits, offset) && node in ReadingNodes(bits, offset, reverse, invert) && !Wrapper(node)
        ensures TextOf(node, offset) < 75
      {
        NodeConsidered(bits, signal, offset, reverse, invert, node);
        NodeAbove(bits, signal, offset, reverse, invert, node);
      }
    }
  }

  lemma NodeAbove(bits: seq<bool>, signal: Signal, offset: nat, reverse: bool, invert: bool, node: Node)
    requires StructuredOnly(signal) && LongEnough(bits, offset) && node in ReadingNodes(bits, offset, reverse, invert)
    ensures OpaqueData !in node.path.flags
    ensures Scored(node, SourceAt(bits, offset, invert, signal)).result.score <= 72 <==>
            Wrapper(node) || TextOf(node, offset) < 75
  {
    hide ReadingNodes, Wrapper, TextOf, Scored, Leads, SourceAt, RawBytes;
    ReadingLead(bits, offset, reverse, invert, node);
    LedFlags(node.path, RawBytes(bits, offset), node.bytes);
    SourceStructured(bits, offset, invert, signal);
    NodeScore(node, SourceAt(bits, offset, invert, signal));
    TextInFives(node, offset);
  }

  // The phases after the first start at a positive offset.
  lemma {:induction false} LaterPhases(bits: seq<bool>, signal: Signal, k: nat) returns (rest: seq<Considered>)
    requires 1 <= k <= 8
    ensures AllConsidered(bits, signal, k) == AssessPhase(bits, 0, signal) + rest
    ensures forall c :: c in rest ==> c.result.bitOffset > 0
  {
    hide AssessPhase;
    if k == 1 {
      rest := [];
      assert AllConsidered(bits, signal, 0) == [];
    } else {
      var before := LaterPhases(bits, signal, k - 1);
      rest := before + AssessPhase(bits, k - 1, signal);
      forall c | c in AssessPhase(bits, k - 1, signal)
        ensures c.result.bitOffset > 0
      {
        PhaseOffset(bits, signal, k - 1, c);
      }
    }
  }

  lemma PhaseOffset(bits: seq<bool>, signal: Signal, offset: nat, c: Considered)
    requires c in AssessPhase(bits, offset, signal)
    ensures c.result.bitOffset == offset
  {
    hide AssessReading;
    if c in AssessReading(bits, offset, false, false, signal) {
      ReadingOffset(bits, signal, offset, false, false, c);
    } else if c in AssessReading(bits, offset, false, true, signal) {
      ReadingOffset(bits, signal, offset, false, true, c);
    } else if c in AssessReading(bits, offset, true, false, signal) {
      ReadingOffset(bits, signal, offset, true, false, c);
    } else {
      ReadingOffset(bits, signal, offset, true, true, c);
    }
  }

  lemma ReadingOffset(bits: seq<bool>, signal: Signal, offset: nat, reverse: bool, invert: bool, c: Considered)
    requires offset <= |bits| && c in AssessReading(bits, offset, reverse, invert, signal)
    ensures c.result.bitOffset == offset
  {
    hide ReadingNodes, Scored, Tail;
    var nodes, source := ReadingNodes(bits, offset, reverse, invert), SourceAt(bits, offset, invert, signal);
    var i :| 0 <= i < |nodes| && ScoredAll(nodes, source)[i] == c;
    ScoredFields(nodes[i], source);
  }

  // Without a tail the four aligned readings share one source.
  lemma AlignedScored(bits: seq<bool>, signal: Signal)
    requires LongEnough(bits, 0) && |bits| % 8 == 0
    ensures AssessPhase(bits, 0, signal) == ScoredAll(PhaseNodes(bits, 0), SourceAt(bits, 0, false, signal))
  {
    K.CountTotal(Tail(bits, 0));
    assert SourceAt(bits, 0, true, signal) == SourceAt(bits, 0, false, signal);
    hide ReadingNodes, ScoredAll, SourceAt;
    FourScored(ReadingNodes(bits, 0, false, false), ReadingNodes(bits, 0, false, true),
               ReadingNodes(bits, 0, true, false), ReadingNodes(bits, 0, true, true),
               SourceAt(bits, 0, false, signal));
  }

  lemma AlignedQuiet(bits: seq<bool>, signal: Signal)
    requires StructuredOnly(signal) && LongEnough(bits, 0) && |bits| % 8 == 0 && NothingReadsAsText(bits)
    ensures Quiet(PhaseNodes(bits, 0), SourceAt(bits, 0, false, signal))
  {
    K.CountTotal(Tail(bits, 0));
    assert SourceAt(bits, 0, true, signal) == SourceAt(bits, 0, false, signal);
    SourceStructured(bits, 0, false, signal);
    hide ReadingNodes, Scored, SourceAt, TextOf, Wrapper;
    var nodes := PhaseNodes(bits, 0);
    forall i | 0 <= i < |nodes|
      ensures OpaqueData !in nodes[i].path.flags
      ensures Scored(nodes[i], SourceAt(bits, 0, false, signal)).result.score <= 72
    {
      var reverse, invert := PhaseReading(bits, 0, nodes[i]);
      NodeAbove(bits, signal, 0, reverse, invert, nodes[i]);
    }
  }

  lemma PhaseReading(bits: seq<bool>, offset: nat, node: Node) returns (reverse: bool, invert: bool)
    requires node in PhaseNodes(bits, offset)
    ensures LongEnough(bits, offset) && node in ReadingNodes(bits, offset, reverse, invert)
  {
    hide ReadingNodes;
    reverse := node !in ReadingNodes(bits, offset, false, false) && node !in ReadingNodes(bits, offset, false, true);
    invert := if reverse then node !in ReadingNodes(bits, offset, true, false)
              else node !in ReadingNodes(bits, offset, false, false);
  }

  // The aligned preferred node is the winner.
  lemma PreferredWins(bits: seq<bool>, signal: Signal)
    requires StructuredOnly(signal) && |bits| >= 48 && |bits| % 8 == 0 && NothingReadsAsText(bits)
    ensures var best, p := SelectAll(AllConsidered(bits, signal, 8)), Preferred(PhaseNodes(bits, 0));
            && (p.Some? ==> best.hasResult && best.result.decodedLength == |p.value.bytes| &&
                            best.result == Scored(p.value, SourceAt(bits, 0, false, signal)).result)
            && (p.None? ==> forall c :: c in AllConsidered(bits, signal, 8) && c.result.bitOffset == 0 ==>
                                        c.result.score < 72)
  {
    hide AllConsidered, AssessPhase, PhaseNodes, SourceAt, Scored, ScoredAll, Silent, Better, SelectAll,
      NothingReadsAsText;
    var source, nodes := SourceAt(bits, 0, false, signal), PhaseNodes(bits, 0);
    var rest := LaterPhases(bits, signal, 8);
    SourceStructured(bits, 0, false, signal);
    AlignedScored(bits, signal);
    AlignedQuiet(bits, signal);
    TextAbove(bits, signal);
    SelectPreferred(nodes, source);
    var first, p := AssessPhase(bits, 0, signal), Preferred(nodes);
    if p.Some? {
      SilentScores(p.value, source);
      ScoredFields(p.value, source);
      forall c | c in rest
        ensures !Better(c.result, SelectAll(first).result)
      {
        assert c in AllConsidered(bits, signal, 8);
        LaterNotBetter(c.result, SelectAll(first).result);
      }
      SelectKeeps(first, rest);
    } else if first != [] {
      SelectionIsMaximal(first);
    }
  }

  lemma LaterNotBetter(a: FilterResult, b: FilterResult)
    requires a.score <= b.score && a.bitOffset > b.bitOffset
    ensures !Better(a, b)
  {
    hide BitOps;
  }

  // A short winner is aligned, scores 72 and lies in whole bytes.
  lemma ShortWinnerAligned(bits: seq<bool>, signal: Signal, w: Considered)
    requires StructuredOnly(signal) && w in AllConsidered(bits, signal, 8) && w.result.decodedLength < MIN_BYTES
    requires forall c :: c in AllConsidered(bits, signal, 8) ==> !Better(c.result, w.result)
    ensures w.result.score == 72 && w.result.bitOffset == 0 && |bits| % 8 == 0
    ensures |bits| in {64, 88, 96, 104, 128}
  {
    hide AllConsidered, Better, Scored, ReadingNodes, SourceAt, StructuredOnly, AnyDecodes, VaryBytes, RawBytes;
    var offset, reverse, invert, node := ConsideredNode(bits, signal, w);
    ScoredFields(node, SourceAt(bits, offset, invert, signal));
    ShortScores(bits, signal, offset, reverse, invert, node);
    ShortReading(bits, offset, reverse, invert, node);
    if offset > 0 || |bits| % 8 != 0 {
      var c := ShortMustAlign(bits, signal, offset, reverse, invert, node);
    }
  }

  // The verdict of a structured stream of 48 bits or more.
  lemma StructuredInsufficient(bits: seq<bool>, signal: Signal)
    requires StructuredOnly(signal) && |bits| >= 48
    ensures FilterOf(bits, signal).verdict == Insufficient <==> ShortLayerPreferred(bits)
    ensures ShortLayerPreferred(bits) ==> |bits| in {64, 88, 96, 104, 128}
  {
    hide AllConsidered, SelectAll, Better, Preferred, PhaseNodes, NothingReadsAsText, StructuredOnly;
    var cs := AllConsidered(bits, signal, 8);
    FirstPhaseNonempty(bits, signal);
    SelectionIsMaximal(cs);
    var w :| w in cs && w.result == SelectAll(cs).result;
    if w.result.decodedLength < MIN_BYTES {
      ShortWinnerAligned(bits, signal, w);
      TextAbove(bits, signal);
      PreferredWins(bits, signal);
    } else if ShortLayerPreferred(bits) {
      PreferredWins(bits, signal);
    }
  }

  // INSUFFICIENT, exactly: fewer than 48 bits, or a structured stream whose
  // preferred aligned layer has fewer than six bytes.
  lemma InsufficientExactly(bits: seq<bool>)
    ensures FilterOf(bits, Reported(bits)).verdict == Insufficient <==>
            |bits| < 48 || (Structured(Reported(bits)) && ShortLayerPreferred(bits))
  {
    hide FilterOf, ShortLayerPreferred, Reported, Structured, StructuredOnly;
    ReportedStructured(bits);
    InsufficientCases(bits, Reported(bits));
    if |bits| >= 48 {
      if Structured(Reported(bits)) {
        StructuredInsufficient(bits, Reported(bits));
      } else {
        InsufficientIffShort(bits, Reported(bits));
      }
    }
  }

  // So beyond 47 bits it takes one of five lengths.
  lemma InsufficientLengths(bits: seq<bool>)
    requires FilterOf(bits, Reported(bits)).verdict == Insufficient
    ensures |bits| < 48 || |bits| in {64, 88, 96, 104, 128}
  {
    hide FilterOf, ShortLayerPreferred, Reported, Structured, StructuredOnly;
    InsufficientExactly(bits);
    ReportedStructured(bits);
    if |bits| >= 48 {
      StructuredInsufficient(bits, Reported(bits));
    }
  }
}
