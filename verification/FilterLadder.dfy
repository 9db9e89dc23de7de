/** What separates LIKELY, POSSIBLE and REJECT. */
module FilterLadder {
  import opened Bits
  import opened Scorer
  import opened PlainText
  import opened FilterSpec
  import opened FilterTheorems
  import opened FilterVerdict
  import opened FilterNodes
  import opened FilterGate
  import opened FilterShort
  import opened FilterEight

  ghost predicate SomeReaches(bits: seq<bool>, signal: Signal, least: nat) {
    exists c :: c in AllConsidered(bits, signal, 8) && c.result.score >= least
  }

  // The verdict, if there is one, follows the greatest score of all candidates.
  lemma VerdictMeans(bits: seq<bool>, signal: Signal)
    requires FilterOf(bits, signal).verdict != Insufficient
    ensures FilterOf(bits, signal).verdict == Likely <==> SomeReaches(bits, signal, 90)
    ensures FilterOf(bits, signal).verdict == Possible <==>
            SomeReaches(bits, signal, 70) && !SomeReaches(bits, signal, 90)
    ensures FilterOf(bits, signal).verdict == Reject <==> !SomeReaches(bits, signal, 70)
  {
    hide AllConsidered, SelectAll, Better;
    var cs := AllConsidered(bits, signal, 8);
    EnoughBits(bits, signal);
    FirstPhaseNonempty(bits, signal);
    SelectionIsMaximal(cs);
    var w :| w in cs && w.result == SelectAll(cs).result;
  }

  lemma EnoughBits(bits: seq<bool>, signal: Signal)
    requires FilterOf(bits, signal).verdict != Insufficient
    ensures |bits| >= 48
  {
    hide AllConsidered;
    if |bits| < 48 {
      NoPhaseLongEnough(bits, signal, 8);
    }
  }

  // ----- the same on the input alone -----

  // Some reading or layer that is no wrapper is worth that much as text.
  ghost predicate ReadsAs(bits: seq<bool>, least: nat) {
    exists offset: nat, reverse, invert, node ::
      offset < 8 && LongEnough(bits, offset) && node in ReadingNodes(bits, offset, reverse, invert)
      && !Wrapper(node) && TextOf(node, offset) >= least
  }

  // Some reading or layer worth less than 70 as text passes the opaque gate.
  ghost predicate SomeOpaque(bits: seq<bool>, signal: Signal) {
    exists offset: nat, reverse, invert, node ::
      offset < 8 && LongEnough(bits, offset) && node in ReadingNodes(bits, offset, reverse, invert)
      && TextOf(node, offset) < 70 && NodePasses(node, SourceAt(bits, offset, invert, signal))
  }

  // How one node scores under a signal the program computes.
  lemma NodeWorth(node: Node, source: Source)
    requires source.tailBits < 8 && source.signalScore <= 72 && OpaqueData !in node.path.flags
    requires StructuredSignal(source) ==> source.signalScore == 72
    ensures var text, score := TextOf(node, source.bitOffset), Scored(node, source).result.score;
            && (score >= 90 <==> !Wrapper(node) && text >= 90)
            && (score >= 70 <==>
                  if text >= 70 then !Wrapper(node)
                  else (HighUnexplained in source.signalFlags && NodePasses(node, source))
                       || (StructuredSignal(source) && !Wrapper(node)))
            && (score > 72 ==> |node.bytes| >= MIN_BYTES)
  {
    hide AnyDecodes, PlaintextScore, LooksOpaque;
  }

  lemma ReportedSource(bits: seq<bool>, offset: nat, invert: bool)
    requires offset <= |bits|
    ensures var s := SourceAt(bits, offset, invert, Reported(bits));
            && s.tailBits < 8 && s.bitOffset == offset && s.signalScore <= 72
            && s.signalFlags == Reported(bits).flags
            && (StructuredSignal(s) <==> Structured(Reported(bits)))
            && (StructuredSignal(s) ==> s.signalScore == 72)
            && (StructuredSignal(s) ==> HighUnexplained !in Reported(bits).flags)
  {
    hide S.Scorers, Tail;
  }

  lemma NodeIsFresh(bits: seq<bool>, offset: nat, reverse: bool, invert: bool, node: Node)
    requires offset <= |bits| && node in ReadingNodes(bits, offset, reverse, invert)
    ensures OpaqueData !in node.path.flags
  {
    hide Leads, ReadingNodes, RawBytes;
    ReadingLead(bits, offset, reverse, invert, node);
    NoOpaqueYet(node, RawBytes(bits, offset));
  }

  // Reaching 90 is reading as text of 90.
  lemma ReachesNinety(bits: seq<bool>)
    ensures SomeReaches(bits, Reported(bits), 90) <==> ReadsAs(bits, 90)
  {
    hide AllConsidered, ReadingNodes, Reported, SourceAt, Scored, Wrapper, TextOf, StructuredSignal,
      NodePasses;
    var signal := Reported(bits);
    if c :| c in AllConsidered(bits, signal, 8) && c.result.score >= 90 {
      var offset, reverse, invert, node := ConsideredNode(bits, signal, c);
      WorthHere(bits, offset, reverse, invert, node);
    }
    if offset: nat, reverse, invert, node :|
      offset < 8 && LongEnough(bits, offset) && node in ReadingNodes(bits, offset, reverse, invert)
      && !Wrapper(node) && TextOf(node, offset) >= 90 {
      WorthHere(bits, offset, reverse, invert, node);
      NodeConsidered(bits, signal, offset, reverse, invert, node);
    }
  }

  lemma WorthHere(bits: seq<bool>, offset: nat, reverse: bool, invert: bool, node: Node)
    requires LongEnough(bits, offset) && node in ReadingNodes(bits, offset, reverse, invert)
    ensures var signal := Reported(bits);
            var source := SourceAt(bits, offset, invert, signal);
            var score := Scored(node, source).result.score;
            && (score >= 90 <==> !Wrapper(node) && TextOf(node, offset) >= 90)
            && (score >= 70 <==>
                  if TextOf(node, offset) >= 70 then !Wrapper(node)
                  else (HighUnexplained in signal.flags && NodePasses(node, source))
                       || (Structured(signal) && !Wrapper(node)))
            && (score > 72 ==> |node.bytes| >= MIN_BYTES)
  {
    hide ReadingNodes, Reported, SourceAt, Scored, Wrapper, TextOf, StructuredSignal, NodePasses, Structured;
    ReportedSource(bits, offset, invert);
    NodeIsFresh(bits, offset, reverse, invert, node);
    NodeWorth(node, SourceAt(bits, offset, invert, Reported(bits)));
  }

  // Beneath any bytes lies something that is no wrapper.
  lemma SomeContent(input: seq<byte>, path: Path) returns (node: Node)
    requires path.depth <= MAX_DEPTH
    ensures node in BytesNodes(input, path) && !Wrapper(node)
    decreases MAX_DEPTH - path.depth
  {
    hide BytesNodes, AnyDecodes, DecodeOf;
    if path.depth == MAX_DEPTH || !AnyDecodes(input) {
      node := Node(input, path);
      OwnNode(input, path);
    } else {
      var k, d := SomeLayer(input);
      node := SomeContent(d, Append(path, RADIX_OPS[k]));
      LayerBelow(input, path, k, d, node);
    }
  }

  lemma SomeLayer(input: seq<byte>) returns (k: nat, d: seq<byte>)
    requires AnyDecodes(input)
    ensures k < 5 && DecodeOf(RADIX_OPS[k], input) == Some(d)
  {
    hide AnyDecodes, DecodeOf;
    k := FirstOp(input, 0);
    if k == 5 {
      NoneAccepted(input);
    }
    d := DecodeOf(RADIX_OPS[k], input).value;
  }

  lemma LayerBelow(input: seq<byte>, path: Path, k: nat, d: seq<byte>, node: Node)
    requires path.depth < MAX_DEPTH && k < 5 && DecodeOf(RADIX_OPS[k], input) == Some(d)
    requires node in BytesNodes(d, Append(path, RADIX_OPS[k]))
    ensures node in BytesNodes(input, path)
  {
    hide DecodeOf, VaryBytes, BytesNodes;
    var t := RADIX_OPS[k];
    VaryNone(d);
    VariantIn(d, Append(path, t), false, false, node);
    RadixBelow(input, path, k, 5, node);
    InBytes(input, path, node);
  }

  lemma RadixBelow(input: seq<byte>, path: Path, k: nat, m: nat, node: Node)
    requires path.depth < MAX_DEPTH && k < m <= 5 && DecodeOf(RADIX_OPS[k], input).Some?
    requires node in VariantsNodes(DecodeOf(RADIX_OPS[k], input).value, Append(path, RADIX_OPS[k]))
    ensures node in RadicesNodes(input, path, m)
    decreases m
  {
    hide DecodeOf, VariantsNodes;
    if k < m - 1 {
      RadixBelow(input, path, k, m - 1, node);
    }
  }

  lemma InBytes(input: seq<byte>, path: Path, node: Node)
    requires path.depth < MAX_DEPTH && node in RadicesNodes(input, path, 5)
    ensures node in BytesNodes(input, path)
  {
    hide RadicesNodes;
  }

  // Reaching 70 takes text, an opaque reading of an unexplained stream, or a
  // structured stream.
  lemma ReachesSeventy(bits: seq<bool>)
    requires |bits| >= 48
    ensures SomeReaches(bits, Reported(bits), 70) <==>
            ReadsAs(bits, 70) || Structured(Reported(bits))
            || (HighUnexplained in Reported(bits).flags && SomeOpaque(bits, Reported(bits)))
  {
    hide AllConsidered, ReadingNodes, Reported, SourceAt, Scored, Wrapper, TextOf, StructuredSignal,
      NodePasses, Structured;
    var signal := Reported(bits);
    if c :| c in AllConsidered(bits, signal, 8) && c.result.score >= 70 {
      var offset, reverse, invert, node := ConsideredNode(bits, signal, c);
      WorthHere(bits, offset, reverse, invert, node);
    }
    if offset: nat, reverse, invert, node :|
      offset < 8 && LongEnough(bits, offset) && node in ReadingNodes(bits, offset, reverse, invert)
      && !Wrapper(node) && TextOf(node, offset) >= 70 {
      WorthHere(bits, offset, reverse, invert, node);
      NodeConsidered(bits, signal, offset, reverse, invert, node);
    }
    if offset: nat, reverse, invert, node :|
      HighUnexplained in signal.flags && offset < 8 && LongEnough(bits, offset)
      && node in ReadingNodes(bits, offset, reverse, invert)
      && TextOf(node, offset) < 70 && NodePasses(node, SourceAt(bits, offset, invert, signal)) {
      WorthHere(bits, offset, reverse, invert, node);
      NodeConsidered(bits, signal, offset, reverse, invert, node);
    }
    if Structured(signal) {
      var node := AlignedContent(bits);
      WorthHere(bits, 0, false, false, node);
      NodeConsidered(bits, signal, 0, false, false, node);
    }
  }

  lemma AlignedContent(bits: seq<bool>) returns (node: Node)
    requires |bits| >= 48
    ensures LongEnough(bits, 0) && node in ReadingNodes(bits, 0, false, false) && !Wrapper(node)
  {
    hide RawBytes, VaryBytes, BytesNodes, Wrapper;
    node := SomeContent(VaryBytes(RawBytes(bits, 0), false, false), Vary(START, false, false));
  }

  // The ladder on the input: LIKELY is text of 90; REJECT is no text of 70, no
  // structure, and nothing opaque in an unexplained stream.
  lemma LadderExactly(bits: seq<bool>)
    ensures var v := FilterOf(bits, Reported(bits)).verdict;
            && (v == Likely <==> ReadsAs(bits, 90))
            && (v == Reject <==>
                  |bits| >= 48 && !ReadsAs(bits, 70) && !Structured(Reported(bits))
                  && !(HighUnexplained in Reported(bits).flags && SomeOpaque(bits, Reported(bits))))
  {
    hide FilterOf, ReadsAs, SomeReaches, SomeOpaque, Reported, Structured;
    var signal := Reported(bits);
    ReachesNinety(bits);
    if FilterOf(bits, signal).verdict == Insufficient {
      if ReadsAs(bits, 90) {
        TextIsSufficient(bits);
      }
      if |bits| >= 48 && !Structured(signal) {
        InsufficientIffShort(bits, signal);
      }
    } else {
      VerdictMeans(bits, signal);
      EnoughBits(bits, signal);
      ReachesSeventy(bits);
    }
  }

  // Text of 90 is never too short.
  lemma TextIsSufficient(bits: seq<bool>)
    requires ReadsAs(bits, 90)
    ensures FilterOf(bits, Reported(bits)).verdict != Insufficient
  {
    hide AllConsidered, SelectAll, Better, ReadsAs, Reported, ReadingNodes, Scored, SourceAt, TextOf,
      StructuredSignal, NodePasses, Structured, Wrapper;
    var signal := Reported(bits);
    ReachesNinety(bits);
    var cs := AllConsidered(bits, signal, 8);
    SelectionIsMaximal(cs);
    var w :| w in cs && w.result == SelectAll(cs).result;
    var offset, reverse, invert, node := ConsideredNode(bits, signal, w);
    WorthHere(bits, offset, reverse, invert, node);
    NodeLength(node, SourceAt(bits, offset, invert, signal));
  }

  lemma NodeLength(node: Node, source: Source)
    requires source.tailBits < 8
    ensures Scored(node, source).result.decodedLength == |node.bytes|
  {
    hide QualifiesOpaque, StructuredSignal, PlaintextScore, AnyDecodes;
  }

  // Aligned prose that no decoder accepts is LIKELY.
  lemma AlignedProse(bits: seq<bool>)
    requires PlaintextScore(RawBytes(bits, 0)).score >= 90 && !AnyDecodes(RawBytes(bits, 0))
    ensures FilterOf(bits, Reported(bits)).verdict == Likely
  {
    hide FilterOf, Reported, PlaintextScore, AnyDecodes, RawBytes, VaryBytes, RadicesNodes, ReadsAs;
    var raw := RawBytes(bits, 0);
    VaryNone(raw);
    OwnNode(raw, START);
    assert Node(raw, START) in ReadingNodes(bits, 0, false, false);
    PlainText90(bits, Node(raw, START));
    LadderExactly(bits);
  }

  lemma PlainText90(bits: seq<bool>, node: Node)
    requires node in ReadingNodes(bits, 0, false, false) && node.path == START && node.bytes == RawBytes(bits, 0)
    requires PlaintextScore(node.bytes).score >= 90 && !AnyDecodes(node.bytes)
    ensures ReadsAs(bits, 90)
  {
    hide PlaintextScore, AnyDecodes, RawBytes, ReadingNodes;
    assert TextOf(node, 0) == PlaintextScore(node.bytes).score && !Wrapper(node);
    assert LongEnough(bits, 0);
  }
}
