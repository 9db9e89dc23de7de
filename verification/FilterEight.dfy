/** Streams of eight bytes: when the verdict is INSUFFICIENT, read off the radix
    decoders alone. */
module FilterEight {
  import opened Bits
  import opened PlainText
  import opened FilterSpec
  import opened FilterTheorems
  import opened FilterVerdict
  import opened FilterNodes
  import opened Prose
  import opened FilterShort
  import opened RepeatedDigit
  import R = Radix

  // ----- what lies beneath eight bytes -----

  // A layer has at most six bytes for every eight of the token.
  lemma LayerShorter(t: Transform, input: seq<byte>, d: seq<byte>)
    requires IsRadix(t) && Decodes(t, input, d)
    ensures 8 * |d| <= 6 * |input| && (t in {Base32, Base32Hex} ==> 8 * |d| <= 5 * |input|)
  {
    hide R.Accepts, R.Body, R.RemainderOk, R.ExpectedPads, R.TailBits;
    if t != Base16 {
      LayerCount(t, input, d);
    }
  }

  // Fewer than eight bytes have no layers.
  lemma ShortIsAlone(input: seq<byte>, path: Path)
    requires path.depth <= MAX_DEPTH && |input| < 8
    ensures BytesNodes(input, path) == [Node(input, path)] && !AnyDecodes(input)
  {
    hide AnyDecodes, Decodes;
    if AnyDecodes(input) {
      AnyDecodesPrintable(input);
    }
    if path.depth < MAX_DEPTH {
      NoRadices(input, path, 5);
    }
  }

  // The nodes beneath an eight-byte reading: one layer, four variants each.
  lemma ShallowNode(input: seq<byte>, path: Path, k: nat, node: Node)
    returns (t: Transform, d: seq<byte>, r: bool, i: bool)
    requires path.depth == 0 && k <= 5 && |input| <= 8 && node in RadicesNodes(input, path, k)
    ensures IsRadix(t) && DecodeOf(t, input) == Some(d) && 8 * |d| <= 6 * |input|
    ensures node == Node(VaryBytes(d, r, i), Vary(Append(path, t), r, i)) && node.path.depth == 1
  {
    hide Decodes, VariantsNodes, VaryBytes, BytesNodes;
    if node in RadicesNodes(input, path, k - 1) {
      t, d, r, i := ShallowNode(input, path, k - 1, node);
    } else {
      t := RADIX_OPS[k - 1];
      d := DecodeOf(t, input).value;
      LayerShorter(t, input, d);
      r, i := VariantOf(d, Append(path, t), node);
      ShortIsAlone(VaryBytes(d, r, i), Vary(Append(path, t), r, i));
    }
  }

  // A list whose first node is silent and has nothing ahead prefers it.
  lemma {:induction false} FirstPreferred(nodes: seq<Node>)
    requires nodes != [] && Silent(nodes[0], 0) && forall n :: n in nodes ==> !Ahead(n, nodes[0])
    ensures Preferred(nodes) == Some(nodes[0])
  {
    hide Silent, Ahead;
    var m := |nodes| - 1;
    if m > 0 {
      FirstPreferred(nodes[..m]);
      assert nodes[m] in nodes;
    } else {
      assert nodes[..m] == [];
    }
  }

  lemma BytesFirst(input: seq<byte>, path: Path)
    requires path.depth < MAX_DEPTH && RadicesNodes(input, path, 5) != []
    ensures BytesNodes(input, path)[0] == RadicesNodes(input, path, 5)[0]
  {
    hide RadicesNodes;
  }

  lemma RadicesPrefix(input: seq<byte>, path: Path, j: nat, k: nat)
    requires path.depth < MAX_DEPTH && j <= k <= 5
    ensures RadicesNodes(input, path, j) <= RadicesNodes(input, path, k)
    decreases k
  {
    hide RadixNodes;
    if j < k {
      RadicesPrefix(input, path, j, k - 1);
    }
  }

  ghost predicate Accepted(input: seq<byte>, k: nat)
    requires k < 5
  {
    DecodeOf(RADIX_OPS[k], input).Some?
  }

  lemma NoneBefore(input: seq<byte>, path: Path, k: nat)
    requires path.depth < MAX_DEPTH && k <= 5 && forall j :: 0 <= j < k ==> !Accepted(input, j)
    ensures RadicesNodes(input, path, k) == []
    decreases k
  {
    hide DecodeOf, VariantsNodes;
    if k > 0 {
      NoneBefore(input, path, k - 1);
      assert !Accepted(input, k - 1);
    }
  }

  // The layer of the first decoder that accepts is the first node.
  lemma LayerFirst(input: seq<byte>, k: nat, d: seq<byte>)
    requires |input| == 8 && k < 5 && DecodeOf(RADIX_OPS[k], input) == Some(d)
    requires forall j :: 0 <= j < k ==> !Accepted(input, j)
    ensures BytesNodes(input, START) != [] && BytesNodes(input, START)[0] == Node(d, Append(START, RADIX_OPS[k]))
  {
    hide DecodeOf, BytesNodes, RadicesNodes, Decodes;
    var t := RADIX_OPS[k];
    LayerShorter(t, input, d);
    ShortIsAlone(d, Append(START, t));
    NoneBefore(input, START, k);
    OneRadix(input, k, d);
    RadicesPrefix(input, START, k + 1, 5);
    BytesFirst(input, START);
    OwnNode(input, START);
  }

  lemma OneRadix(input: seq<byte>, k: nat, d: seq<byte>)
    requires k < 5 && DecodeOf(RADIX_OPS[k], input) == Some(d) && RadicesNodes(input, START, k) == []
    requires BytesNodes(d, Append(START, RADIX_OPS[k])) == [Node(d, Append(START, RADIX_OPS[k]))]
    ensures RadicesNodes(input, START, k + 1) != []
    ensures RadicesNodes(input, START, k + 1)[0] == Node(d, Append(START, RADIX_OPS[k]))
  {
    hide DecodeOf, BytesNodes, VaryBytes;
  }

  // ----- the plain node -----

  // The first decoder from k on that accepts, 5 if none does.
  ghost function FirstOp(input: seq<byte>, k: nat): (first: nat)
    requires k <= 5
    ensures k <= first <= 5 && (first < 5 ==> Accepted(input, first))
    ensures forall j :: k <= j < first ==> !Accepted(input, j)
    decreases 5 - k
  {
    if k == 5 || Accepted(input, k) then k else FirstOp(input, k + 1)
  }

  // Its layer, or else the bytes themselves.
  ghost function Plain(input: seq<byte>): (node: Node) {
    var k := FirstOp(input, 0);
    if k < 5 then Node(DecodeOf(RADIX_OPS[k], input).value, Append(START, RADIX_OPS[k])) else Node(input, START)
  }

  // One of the decoders makes fewer than six bytes of eight: either Base32, or
  // a padded Base64.
  ghost predicate ShortToken(input: seq<byte>) {
    || DecodeOf(Base32, input).Some? || DecodeOf(Base32Hex, input).Some?
    || (R.PAD in input && (DecodeOf(Base64, input).Some? || DecodeOf(Base64Url, input).Some?))
  }

  lemma PlainFirst(input: seq<byte>)
    requires |input| == 8
    ensures BytesNodes(input, START) != [] && BytesNodes(input, START)[0] == Plain(input)
    ensures !Wrapper(Plain(input)) && Plain(input).path.flags !! {Did(ReverseBits), Did(InvertBits)}
    ensures BitOps(Plain(input).path.transforms) == 0 && Plain(input).path.depth <= 1
    ensures Plain(input).path.depth == 0 ==> !AnyDecodes(input) && Plain(input) == Node(input, START)
  {
    hide DecodeOf, BytesNodes, AnyDecodes, BitOps, FirstOp, Wrapper;
    var k := FirstOp(input, 0);
    if k < 5 {
      PlainLayer(input, k);
      LayerFirst(input, k, DecodeOf(RADIX_OPS[k], input).value);
    } else {
      OwnWrapper(input);
      NoneAccepted(input);
      Alone(input, START);
      NoBitOps();
    }
  }

  lemma OwnWrapper(input: seq<byte>)
    ensures Wrapper(Node(input, START)) <==> AnyDecodes(input)
  {
    hide AnyDecodes;
  }

  lemma NoBitOps()
    ensures BitOps(START.transforms) == 0
  {
  }

  lemma NoneAccepted(input: seq<byte>)
    requires forall k :: 0 <= k < 5 ==> !Accepted(input, k)
    ensures !AnyDecodes(input)
  {
    hide DecodeOf;
    forall j | 0 <= j < 5
      ensures DecodeOf(RADIX_OPS[j], input).None?
    {
      assert !Accepted(input, j);
    }
  }

  lemma PlainLayer(input: seq<byte>, k: nat)
    requires |input| == 8 && k < 5 && Accepted(input, k)
    ensures var node := Node(DecodeOf(RADIX_OPS[k], input).value, Append(START, RADIX_OPS[k]));
            && !Wrapper(node) && node.path.flags !! {Did(ReverseBits), Did(InvertBits)}
            && BitOps(node.path.transforms) == 0 && node.path.depth == 1
  {
    hide DecodeOf, AnyDecodes, Decodes;
    var t, d := RADIX_OPS[k], DecodeOf(RADIX_OPS[k], input).value;
    LayerShorter(t, input, d);
    ShortIsAlone(d, Append(START, t));
    assert [t][..0] == [];
  }

  // How long the plain node is.
  lemma PlainShort(input: seq<byte>)
    requires |input| == 8
    ensures |Plain(input).bytes| < MIN_BYTES <==> ShortToken(input)
  {
    hide DecodeOf, Decodes;
    NoHex(input);
    var k := FirstOp(input, 0);
    if k < 5 {
      LayerOfEight(RADIX_OPS[k], input, DecodeOf(RADIX_OPS[k], input).value);
    }
    assert Accepted(input, 1) == DecodeOf(Base32, input).Some?;
    assert Accepted(input, 2) == DecodeOf(Base32Hex, input).Some?;
    assert Accepted(input, 3) == DecodeOf(Base64, input).Some?;
    assert Accepted(input, 4) == DecodeOf(Base64Url, input).Some?;
  }

  lemma NoHex(input: seq<byte>)
    requires |input| < 12
    ensures DecodeOf(Base16, input) == None
  {
    assert forall output :: !Decodes(Base16, input, output);
  }

  lemma LayerOfEight(t: Transform, input: seq<byte>, d: seq<byte>)
    requires |input| == 8 && IsRadix(t) && Decodes(t, input, d)
    ensures t != Base16 && (|d| < MIN_BYTES <==> t in {Base32, Base32Hex} || R.PAD in input)
  {
    hide R.Accepts, R.Body, R.RemainderOk, R.ExpectedPads;
    if t != Base16 {
      LayerCount(t, input, d);
      PadsShow(input);
      EightSymbols(RadixOf(t), |R.Body(input)|, |d|);
    }
  }

  lemma EightSymbols(r: R.Radix, n: nat, bytes: nat)
    requires n <= 8 && R.RemainderOk(r, n % R.Group(r)) && R.Width(r) * n == 8 * bytes + R.TailBits(r, n)
    requires n == 8 || 8 - n == R.ExpectedPads(r, n % R.Group(r))
    ensures bytes < MIN_BYTES <==> r.Base32? || r.Base32Hex? || n < 8
  {
  }

  lemma PadsShow(input: seq<byte>)
    ensures |R.Body(input)| == |input| <==> R.PAD !in input
  {
    if |R.Body(input)| == |input| {
      assert R.Body(input) == input;
    } else {
      assert input[|R.Body(input)|] == R.PAD;
    }
  }

  // ----- no other node is ahead -----

  lemma EightDepth(bits: seq<bool>, r: bool, i: bool, node: Node)
    requires |bits| == 64 && node in ReadingNodes(bits, 0, r, i)
    ensures node.path.depth <= 1
    ensures r || i ==> BitOps(node.path.transforms) > 0
    ensures node.path.depth > 0 ==> AnyDecodes(VaryBytes(RawBytes(bits, 0), r, i))
  {
    hide RawBytes, VaryBytes, RadicesNodes, DecodeOf;
    var input, path := VaryBytes(RawBytes(bits, 0), r, i), Vary(START, r, i);
    assert |input| == 8 && path.depth == 0;
    StartVaried(r, i);
    if node != Node(input, path) {
      var t, d, p, q := ShallowNode(input, path, 5, node);
      LayerOps(path, t, p, q);
      if !AnyDecodes(input) {
        Alone(input, path);
      }
    }
  }

  lemma StartVaried(r: bool, i: bool)
    ensures r || i ==> BitOps(Vary(START, r, i).transforms) > 0
    ensures Vary(START, r, i).depth == 0
  {
    assert forall t: Transform :: [t][..0] == [];
  }

  lemma LayerOps(path: Path, t: Transform, p: bool, q: bool)
    requires IsRadix(t)
    ensures BitOps(Vary(Append(path, t), p, q).transforms) >= BitOps(path.transforms)
  {
    BitOpsAppend(path.transforms, t);
    var ts := path.transforms + [t];
    BitOpsAppend(ts, ReverseBits);
    BitOpsAppend(ts, InvertBits);
    BitOpsAppend(ts + [ReverseBits], InvertBits);
    BitOpsAppend(ts + [InvertBits], ReverseBits);
    hide BitOps;
  }

  lemma BitOpsAppend(ts: seq<Transform>, t: Transform)
    ensures BitOps(ts + [t]) == BitOps(ts) + (if IsRadix(t) then 0 else 1)
  {
    assert (ts + [t])[..|ts|] == ts;
  }

  lemma PlainAhead(bits: seq<bool>, node: Node)
    requires |bits| == 64 && node in PhaseNodes(bits, 0)
    ensures !Ahead(node, Plain(RawBytes(bits, 0)))
  {
    hide PhaseNodes, ReadingNodes, RawBytes, BitOps, Plain, VaryBytes, AnyDecodes;
    var raw := RawBytes(bits, 0);
    var r, i := PhaseReading(bits, 0, node);
    EightDepth(bits, r, i, node);
    VaryNone(raw);
    PlainFirst(raw);
  }

  // The plain node is preferred unless it reads as text.
  lemma PlainPreferred(bits: seq<bool>)
    requires |bits| == 64 && PlaintextScore(Plain(RawBytes(bits, 0)).bytes).score < 70
    ensures Preferred(PhaseNodes(bits, 0)) == Some(Plain(RawBytes(bits, 0)))
  {
    hide PhaseNodes, RawBytes, BitOps, Plain, Silent, Preferred, Ahead, ReadingNodes;
    var plain, nodes := Plain(RawBytes(bits, 0)), PhaseNodes(bits, 0);
    EightFirst(bits);
    PlainSilent(RawBytes(bits, 0));
    forall node | node in nodes
      ensures !Ahead(node, plain)
    {
      PlainAhead(bits, node);
    }
    FirstPreferred(nodes);
  }

  lemma PlainSilent(input: seq<byte>)
    requires |input| == 8 && PlaintextScore(Plain(input).bytes).score < 70
    ensures Silent(Plain(input), 0)
  {
    hide Plain, PlaintextScore, Wrapper;
    PlainFirst(input);
  }

  lemma EightFirst(bits: seq<bool>)
    requires |bits| == 64
    ensures LongEnough(bits, 0) && Plain(RawBytes(bits, 0)) in ReadingNodes(bits, 0, false, false)
    ensures PhaseNodes(bits, 0) != [] && PhaseNodes(bits, 0)[0] == Plain(RawBytes(bits, 0))
  {
    hide RawBytes, VaryBytes, BytesNodes, Plain;
    PlainFirst(RawBytes(bits, 0));
    VaryNone(RawBytes(bits, 0));
  }

  // Eight bytes are INSUFFICIENT exactly when the signal is structured, nothing
  // reads as text and a decoder makes fewer than six bytes of them; left aside
  // is only a plain node that scores 70, just short of text.
  lemma InsufficientAt64(bits: seq<bool>)
    requires |bits| == 64 && PlaintextScore(Plain(RawBytes(bits, 0)).bytes).score != 70
    ensures FilterOf(bits, Reported(bits)).verdict == Insufficient <==>
            Structured(Reported(bits)) && NothingReadsAsText(bits) && ShortToken(RawBytes(bits, 0))
  {
    hide FilterOf, Reported, Structured, NothingReadsAsText, ShortToken, PhaseNodes, Preferred, Plain, RawBytes,
      PlaintextScore;
    var raw := RawBytes(bits, 0);
    InsufficientExactly(bits);
    PlainShort(raw);
    if PlaintextScore(Plain(raw).bytes).score < 70 {
      PlainPreferred(bits);
    } else {
      PlainReads(bits);
    }
  }

  lemma PlainReads(bits: seq<bool>)
    requires |bits| == 64 && PlaintextScore(Plain(RawBytes(bits, 0)).bytes).score > 70
    ensures !NothingReadsAsText(bits)
  {
    hide RawBytes, Plain, ReadingNodes, Wrapper, PlaintextScore, TextOf, NothingReadsAsText, PhaseNodes, LongEnough,
      BytesNodes, AnyDecodes, BitOps;
    var plain := Plain(RawBytes(bits, 0));
    EightFirst(bits);
    PlainFirst(RawBytes(bits, 0));
    ScoreInFives(plain.bytes);
    UnalteredText(plain);
    ReadsHere(bits, plain);
  }

  lemma ReadsHere(bits: seq<bool>, node: Node)
    requires LongEnough(bits, 0) && node in ReadingNodes(bits, 0, false, false)
    requires !Wrapper(node) && TextOf(node, 0) >= 75
    ensures !NothingReadsAsText(bits)
  {
    hide ReadingNodes, Wrapper, TextOf, LongEnough;
  }

  lemma UnalteredText(node: Node)
    requires node.path.flags !! {Did(ReverseBits), Did(InvertBits)}
    ensures TextOf(node, 0) == PlaintextScore(node.bytes).score
  {
    hide PlaintextScore;
  }

  // A periodic or dictionary stream that is one eight-byte Base32 token, with
  // nothing in it that reads as text, is INSUFFICIENT.
  lemma TokenIsInsufficient(bits: seq<bool>)
    requires |bits| == 64 && DecodeOf(Base32, RawBytes(bits, 0)).Some?
    requires Structured(Reported(bits)) && NothingReadsAsText(bits)
    ensures FilterOf(bits, Reported(bits)).verdict == Insufficient
  {
    hide RawBytes, Reported, Structured, NothingReadsAsText, DecodeOf, FilterOf, Plain, PlaintextScore;
    PlainShort(RawBytes(bits, 0));
    InsufficientAt64(bits);
  }
}
