/** The readings and layers the search visits, apart from how they score. */
module FilterNodes {
  import opened Bits
  import opened FilterSpec
  import opened FilterTheorems
  import opened FilterVerdict

  ghost function PhaseNodes(bits: seq<bool>, offset: nat): seq<Node> {
    if !LongEnough(bits, offset) then []
    else
      ReadingNodes(bits, offset, false, false) + ReadingNodes(bits, offset, false, true)
      + ReadingNodes(bits, offset, true, false) + ReadingNodes(bits, offset, true, true)
  }

  lemma ScoredConcat(a: seq<Node>, b: seq<Node>, source: Source)
    requires source.tailBits < 8
    ensures ScoredAll(a + b, source) == ScoredAll(a, source) + ScoredAll(b, source)
  {
    hide Scored;
  }

  lemma ScoredNothing(source: Source)
    requires source.tailBits < 8
    ensures ScoredAll([], source) == []
  {
  }

  lemma ScoredOne(node: Node, source: Source)
    requires source.tailBits < 8
    ensures ScoredAll([node], source) == [Scored(node, source)]
  {
    hide Scored;
  }

  lemma FourScored(a: seq<Node>, b: seq<Node>, c: seq<Node>, d: seq<Node>, source: Source)
    requires source.tailBits < 8
    ensures ScoredAll(a + b + c + d, source) ==
            ScoredAll(a, source) + ScoredAll(b, source) + ScoredAll(c, source) + ScoredAll(d, source)
  {
    hide ScoredAll;
    ScoredConcat(a, b, source);
    ScoredConcat(a + b, c, source);
    ScoredConcat(a + b + c, d, source);
  }

  // Every candidate is a node with its score.
  lemma ConsideredNode(bits: seq<bool>, signal: Signal, c: Considered)
    returns (offset: nat, reverse: bool, invert: bool, node: Node)
    requires c in AllConsidered(bits, signal, 8)
    ensures offset < 8 && LongEnough(bits, offset) && node in ReadingNodes(bits, offset, reverse, invert)
    ensures c == Scored(node, SourceAt(bits, offset, invert, signal))
  {
    hide AllConsidered, ReadingNodes, Scored, SourceAt;
    offset, reverse, invert := ConsideredFrom(bits, signal, 8, c);
    var nodes := ReadingNodes(bits, offset, reverse, invert);
    var i :| 0 <= i < |nodes| && ScoredAll(nodes, SourceAt(bits, offset, invert, signal))[i] == c;
    node := nodes[i];
  }

  lemma NodeConsidered(bits: seq<bool>, signal: Signal, offset: nat, reverse: bool, invert: bool, node: Node)
    requires offset < 8 && LongEnough(bits, offset) && node in ReadingNodes(bits, offset, reverse, invert)
    ensures Scored(node, SourceAt(bits, offset, invert, signal)) in AllConsidered(bits, signal, 8)
  {
    hide AllConsidered, ReadingNodes, Scored, SourceAt;
    ReadingConsidered(bits, signal, offset, reverse, invert);
    var nodes, source := ReadingNodes(bits, offset, reverse, invert), SourceAt(bits, offset, invert, signal);
    var i :| 0 <= i < |nodes| && nodes[i] == node;
    assert ScoredAll(nodes, source)[i] == Scored(node, source);
  }

  // The reading itself is a node.
  lemma OwnNode(input: seq<byte>, path: Path)
    requires path.depth <= MAX_DEPTH
    ensures Node(input, path) in BytesNodes(input, path)
  {
    hide RadicesNodes;
  }

  // ----- what is true of every node -----

  lemma VariantIn(input: seq<byte>, path: Path, reverse: bool, invert: bool, node: Node)
    requires path.depth <= MAX_DEPTH
    requires node in BytesNodes(VaryBytes(input, reverse, invert), Vary(path, reverse, invert))
    ensures node in VariantsNodes(input, path)
  {
    hide BytesNodes, VaryBytes;
    VaryNone(input);
  }

  // ----- inversion is always tried too -----

  // Composing two byte variants.
  lemma VaryCompose(s: seq<byte>, r1: bool, i1: bool, r2: bool, i2: bool)
    ensures VaryBytes(VaryBytes(s, r1, i1), r2, i2) == VaryBytes(s, r1 != r2, i1 != i2)
  {
    hide ToBits, ByteOf;
    forall k | 0 <= k < |s|
      ensures VaryByte(VaryByte(s[k], r1, i1), r2, i2) == VaryByte(s[k], r1 != r2, i1 != i2)
    {
      VaryByteCompose(s[k], r1, i1, r2, i2);
    }
  }

  lemma VaryByteCompose(b: byte, r1: bool, i1: bool, r2: bool, i2: bool)
    ensures VaryByte(VaryByte(b, r1, i1), r2, i2) == VaryByte(b, r1 != r2, i1 != i2)
  {
    hide ToBits, ByteOf;
    var bits := ToBits(b, 8);
    ToBitsOfByte(VaryBits(bits, r1, i1));
    assert VaryBits(VaryBits(bits, r1, i1), r2, i2) == VaryBits(bits, r1 != r2, i1 != i2);
  }
}
