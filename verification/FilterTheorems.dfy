/** What holds of every candidate the filter considers, and of the winner. */
module FilterTheorems {
  import opened Bits
  import opened PlainText
  import opened FilterSpec

  // ----- replayable provenance -----

  ghost function Apply(t: Transform, s: seq<byte>): Option<seq<byte>> {
    match t
    case ReverseBits => Some(VaryBytes(s, true, false))
    case InvertBits => Some(VaryBytes(s, false, true))
    case _ => DecodeOf(t, s)
  }

  // Carries out the recorded operations in order.
  ghost function Replay(ts: seq<Transform>, raw: seq<byte>): Option<seq<byte>> {
    if ts == [] then Some(raw)
    else
      var before := Replay(ts[..|ts| - 1], raw);
      if before.None? then None else Apply(ts[|ts| - 1], before.value)
  }

  function RadixOps(ts: seq<Transform>): nat {
    if ts == [] then 0 else RadixOps(ts[..|ts| - 1]) + (if IsRadix(ts[|ts| - 1]) then 1 else 0)
  }

  // A path that really leads from the raw bytes to `input`.
  ghost predicate Leads(path: Path, raw: seq<byte>, input: seq<byte>) {
    && Replay(path.transforms, raw) == Some(input)
    && RadixOps(path.transforms) == path.depth
    && path.flags == Done(path.transforms)
  }

  lemma ReplayAppend(ts: seq<Transform>, t: Transform, raw: seq<byte>)
    ensures RadixOps(ts + [t]) == RadixOps(ts) + (if IsRadix(t) then 1 else 0)
    ensures Replay(ts, raw).Some? ==> Replay(ts + [t], raw) == Apply(t, Replay(ts, raw).value)
  {
    hide Apply;
    assert (ts + [t])[..|ts|] == ts;
  }

  // Reversing and inverting bits never change how many bytes there are.
  lemma {:induction false} BitOpsKeepLength(ts: seq<Transform>, raw: seq<byte>)
    ensures RadixOps(ts) == 0 && Replay(ts, raw).Some? ==> |Replay(ts, raw).value| == |raw|
  {
    hide VaryBytes;
    if ts != [] {
      BitOpsKeepLength(ts[..|ts| - 1], raw);
    }
  }

  function Done(ts: seq<Transform>): set<FilterFlag> {
    set t | t in ts :: Did(t)
  }

  lemma DoneAppend(ts: seq<Transform>, t: Transform)
    ensures Done(ts + [t]) == Done(ts) + {Did(t)}
  {
    assert forall u :: u in ts + [t] <==> u in ts || u == t;
  }

  lemma LeadsAppend(path: Path, raw: seq<byte>, input: seq<byte>, t: Transform, output: seq<byte>)
    requires Leads(path, raw, input) && Apply(t, input) == Some(output)
    ensures Leads(Append(path, t), raw, output)
  {
    hide Apply, Replay, RadixOps, Done;
    ReplayAppend(path.transforms, t, raw);
    DoneAppend(path.transforms, t);
  }

  lemma {:induction false} ToBitsOfByte(s: seq<bool>)
    requires |s| == 8
    ensures ToBits(ByteOf(s), 8) == s
  {
    ToFromBits(s);
  }

  // Reversing and then inverting is the combined variant.
  lemma VaryTwice(s: seq<byte>)
    ensures VaryBytes(VaryBytes(s, true, false), false, true) == VaryBytes(s, true, true)
  {
    hide ToBits;
    forall i | 0 <= i < |s|
      ensures VaryByte(VaryByte(s[i], true, false), false, true) == VaryByte(s[i], true, true)
    {
      var bits := ToBits(s[i], 8);
      ToBitsOfByte(VaryBits(bits, true, false));
      assert VaryBits(VaryBits(bits, true, false), false, true) == VaryBits(bits, true, true);
    }
  }

  lemma VaryNone(s: seq<byte>)
    ensures VaryBytes(s, false, false) == s
  {
    hide ToBits, FromBits;
    forall i | 0 <= i < |s|
      ensures VaryByte(s[i], false, false) == s[i]
    {
      var bits := ToBits(s[i], 8);
      assert VaryBits(bits, false, false) == bits;
      FromToBits(s[i], 8);
      Pow2Eight();
      LowOfSmall(s[i], 8);
    }
  }

  lemma LeadsVary(path: Path, raw: seq<byte>, input: seq<byte>, reverse: bool, invert: bool)
    requires Leads(path, raw, input)
    ensures Leads(Vary(path, reverse, invert), raw, VaryBytes(input, reverse, invert))
  {
    hide Leads, VaryBytes;
    VaryNone(input);
    var p, s := path, input;
    if reverse {
      LeadsAppend(p, raw, s, ReverseBits, VaryBytes(s, true, false));
      p, s := Append(p, ReverseBits), VaryBytes(s, true, false);
    }
    if invert {
      LeadsAppend(p, raw, s, InvertBits, VaryBytes(s, false, true));
      VaryTwice(input);
    }
  }

  // The candidate is the assessment of its own bytes, reached by a real path,
  // with at most eight operations; only the wrapper clamp may lower its score.
  ghost predicate Honest(c: Considered, raw: seq<byte>, source: Source)
    requires source.tailBits < 8
  {
    exists path: Path :: HonestVia(path, c, raw, source)
  }

  ghost predicate HonestVia(path: Path, c: Considered, raw: seq<byte>, source: Source)
    requires source.tailBits < 8
  {
    && Leads(path, raw, c.bytes) && |path.transforms| <= MAX_TRANSFORMS
    && path.depth <= MAX_DEPTH
    && var r := Base(c.bytes, path, source);
       c.result == r || (r.score > 60 && OpaqueData !in r.flags && c.result == r.(score := 60))
  }

  // What holds of a node the search reaches: a real path from the bytes it
  // started with, of bounded length.
  ghost predicate Reached(node: Node, raw: seq<byte>) {
    && Leads(node.path, raw, node.bytes)
    && node.path.depth <= MAX_DEPTH && |node.path.transforms| <= 2 + 3 * node.path.depth
  }

  lemma BytesLead(input: seq<byte>, path: Path, raw: seq<byte>, node: Node)
    requires Reached(Node(input, path), raw) && node in BytesNodes(input, path)
    ensures Reached(node, raw) && path.depth <= node.path.depth
    decreases MAX_DEPTH - path.depth, 1, 0
  {
    hide Leads, RadicesNodes;
    if node != Node(input, path) {
      RadicesLead(input, path, 5, raw, node);
    }
  }

  lemma RadicesLead(input: seq<byte>, path: Path, k: nat, raw: seq<byte>, node: Node)
    requires path.depth < MAX_DEPTH && k <= 5 && Reached(Node(input, path), raw) && node in RadicesNodes(input, path, k)
    ensures Reached(node, raw) && path.depth < node.path.depth
    decreases MAX_DEPTH - path.depth, 0, k
  {
    hide Leads, VariantsNodes, Decodes;
    if node in RadicesNodes(input, path, k - 1) {
      RadicesLead(input, path, k - 1, raw, node);
    } else {
      var t := RADIX_OPS[k - 1];
      var d := DecodeOf(t, input).value;
      LeadsAppend(path, raw, input, t, d);
      VariantsLead(d, Append(path, t), raw, node);
    }
  }

  lemma VariantsLead(input: seq<byte>, path: Path, raw: seq<byte>, node: Node)
    requires path.depth <= MAX_DEPTH && Leads(path, raw, input) && |path.transforms| <= 3 * path.depth
    requires node in VariantsNodes(input, path)
    ensures Reached(node, raw) && path.depth <= node.path.depth
    decreases MAX_DEPTH - path.depth, 2, 0
  {
    hide Leads, VaryBytes, BytesNodes, VariantsNodes;
    var reverse, invert := VariantOf(input, path, node);
    LeadsVary(path, raw, input, reverse, invert);
    BytesLead(VaryBytes(input, reverse, invert), Vary(path, reverse, invert), raw, node);
  }

  // Which of the four bit variants a node lies beneath.
  lemma VariantOf(input: seq<byte>, path: Path, node: Node) returns (reverse: bool, invert: bool)
    requires path.depth <= MAX_DEPTH && node in VariantsNodes(input, path)
    ensures Vary(path, reverse, invert).depth == path.depth
    ensures node in BytesNodes(VaryBytes(input, reverse, invert), Vary(path, reverse, invert))
  {
    hide BytesNodes, VaryBytes;
    VaryNone(input);
    if node in BytesNodes(input, path) {
      reverse, invert := false, false;
    } else if node in BytesNodes(VaryBytes(input, false, true), Vary(path, false, true)) {
      reverse, invert := false, true;
    } else if node in BytesNodes(VaryBytes(input, true, false), Vary(path, true, false)) {
      reverse, invert := true, false;
    } else {
      reverse, invert := true, true;
    }
  }

  lemma ReadingReached(bits: seq<bool>, offset: nat, reverse: bool, invert: bool, node: Node)
    requires offset <= |bits| && node in ReadingNodes(bits, offset, reverse, invert)
    ensures Reached(node, RawBytes(bits, offset))
  {
    hide Leads, BytesNodes, VaryBytes, RawBytes;
    var raw := RawBytes(bits, offset);
    StartLeads(raw);
    LeadsVary(START, raw, raw, reverse, invert);
    BytesLead(VaryBytes(raw, reverse, invert), Vary(START, reverse, invert), raw, node);
  }

  lemma StartLeads(raw: seq<byte>)
    ensures Leads(START, raw, raw)
  {
  }

  lemma ReadingLead(bits: seq<bool>, offset: nat, reverse: bool, invert: bool, node: Node)
    requires offset <= |bits| && node in ReadingNodes(bits, offset, reverse, invert)
    ensures Leads(node.path, RawBytes(bits, offset), node.bytes) && node.path.depth <= MAX_DEPTH
  {
    hide Leads, RawBytes, ReadingNodes;
    ReadingReached(bits, offset, reverse, invert, node);
  }

  lemma ReadingHonest(bits: seq<bool>, offset: nat, reverse: bool, invert: bool, signal: Signal, c: Considered)
    requires offset <= |bits| && c in AssessReading(bits, offset, reverse, invert, signal)
    ensures Honest(c, RawBytes(bits, offset), SourceAt(bits, offset, invert, signal))
  {
    hide ReadingNodes, RawBytes, SourceAt, Leads, Base, AnyDecodes;
    var nodes, source := ReadingNodes(bits, offset, reverse, invert), SourceAt(bits, offset, invert, signal);
    var i :| 0 <= i < |nodes| && ScoredAll(nodes, source)[i] == c;
    ReadingReached(bits, offset, reverse, invert, nodes[i]);
    assert HonestVia(nodes[i].path, c, RawBytes(bits, offset), source);
  }

  // Where a considered candidate came from.
  lemma LastPhase(bits: seq<bool>, signal: Signal, k: nat, c: Considered)
    ensures c in AllConsidered(bits, signal, k) <==>
            k > 0 && (c in AllConsidered(bits, signal, k - 1) || c in AssessPhase(bits, k - 1, signal))
  {
    hide AssessPhase;
  }

  lemma {:induction false} ConsideredFrom(bits: seq<bool>, signal: Signal, k: nat, c: Considered)
    returns (offset: nat, reverse: bool, invert: bool)
    requires c in AllConsidered(bits, signal, k)
    ensures offset < k && LongEnough(bits, offset) && c in AssessReading(bits, offset, reverse, invert, signal)
  {
    hide AssessReading, AllConsidered;
    LastPhase(bits, signal, k, c);
    if k > 0 && c in AllConsidered(bits, signal, k - 1) {
      offset, reverse, invert := ConsideredFrom(bits, signal, k - 1, c);
    } else {
      offset := k - 1;
      reverse := c !in AssessReading(bits, offset, false, false, signal)
                 && c !in AssessReading(bits, offset, false, true, signal);
      invert := if reverse then c !in AssessReading(bits, offset, true, false, signal)
                else c !in AssessReading(bits, offset, false, false, signal);
    }
  }

  // The whole record of a candidate: exact bit accounting, a replayable
  // transform list of at most eight operations, truthful flags and depth.
  ghost predicate Accounted(bits: seq<bool>, c: Considered) {
    var r := c.result;
    && r.bitOffset <= 7 && r.bitOffset < |bits| == r.sourceBits
    && r.bitOffset + r.consumed + r.ignored == r.sourceBits
    && r.assessed + r.ignored == (r.sourceBits - r.bitOffset) % 8
    && r.decodedLength == |c.bytes|
    && Replay(r.transforms, RawBytes(bits, r.bitOffset)) == Some(c.bytes)
    && RadixOps(r.transforms) == r.transformDepth <= MAX_DEPTH
    && |r.transforms| <= MAX_TRANSFORMS
    && (forall t: Transform :: Did(t) in r.flags <==> t in r.transforms)
    && (PartialBits in r.flags <==> (r.sourceBits - r.bitOffset) % 8 != 0)
    && r.score <= 100
  }

  // The fields an assessment copies from its path and phase.
  lemma BaseFields(input: seq<byte>, path: Path, source: Source)
    requires source.tailBits < 8 && source.signalScore <= 100
    ensures var r := Base(input, path, source);
            && r.bitOffset == source.bitOffset && r.sourceBits == source.bitLength && r.decodedLength == |input|
            && r.transforms == path.transforms && r.transformDepth == path.depth && r.score <= 100
            && r.consumed + r.ignored == source.completeBits + source.tailBits
            && r.assessed + r.ignored == source.tailBits
            && path.flags <= r.flags <= path.flags + {Utf8, Ascii, PartialBits, OpaqueData, StructuredData}
            && (PartialBits in r.flags <==> source.tailBits > 0 || PartialBits in path.flags)
  {
    hide QualifiesOpaque, StructuredSignal, PlaintextScore;
  }

  lemma FlagsNameOperations(path: Path, raw: seq<byte>, input: seq<byte>, flags: set<FilterFlag>)
    requires Leads(path, raw, input)
    requires path.flags <= flags <= path.flags + {Utf8, Ascii, PartialBits, OpaqueData, StructuredData}
    ensures PartialBits !in path.flags
    ensures forall t: Transform :: Did(t) in flags <==> t in path.transforms
  {
    hide Replay, RadixOps;
  }

  lemma EveryCandidateAccounted(bits: seq<bool>, signal: Signal, c: Considered)
    requires signal.score <= 100 && c in AllConsidered(bits, signal, 8)
    ensures Accounted(bits, c)
  {
    hide AllConsidered, AssessReading, Replay, Base, RadixOps, RawBytes, Tail;
    var offset, reverse, invert := ConsideredFrom(bits, signal, 8, c);
    ReadingHonest(bits, offset, reverse, invert, signal, c);
    var source, raw := SourceAt(bits, offset, invert, signal), RawBytes(bits, offset);
    var path: Path :| HonestVia(path, c, raw, source);
    BaseFields(c.bytes, path, source);
    FlagsNameOperations(path, raw, c.bytes, c.result.flags);
  }

  // ----- selection -----

  lemma BetterIsStrictWeakOrder(a: FilterResult, b: FilterResult, c: FilterResult)
    ensures !Better(a, a)
    ensures Better(a, b) && Better(b, c) ==> Better(a, c)
    ensures Better(a, c) ==> Better(a, b) || Better(b, c)
  {
    hide BitOps;
  }

  // How many of the candidates score exactly `score`.
  function Scoring(cs: seq<Considered>, score: nat): nat {
    if cs == [] then 0 else Scoring(cs[..|cs| - 1], score) + (if cs[|cs| - 1].result.score == score then 1 else 0)
  }

  ghost predicate NoneAbove(cs: seq<Considered>, score: nat) {
    forall c :: c in cs ==> c.result.score <= score
  }

  lemma {:induction false} ScoringNone(cs: seq<Considered>, score: nat, bound: nat)
    requires NoneAbove(cs, bound) && bound < score
    ensures Scoring(cs, score) == 0
  {
    if cs != [] {
      ScoringNone(cs[..|cs| - 1], score, bound);
      assert cs[|cs| - 1] in cs;
    }
  }

  // The winner is one of the candidates, has the greatest score, is beaten by
  // none, and the tie count is the number of candidates that reach its score.
  lemma {:induction false} SelectionIsMaximal(cs: seq<Considered>)
    requires cs != []
    ensures var best := SelectAll(cs);
            && best.hasResult
            && (exists c :: c in cs && c.result == best.result)
            && NoneAbove(cs, best.result.score)
            && (forall c :: c in cs ==> !Better(c.result, best.result))
            && best.equal == Scoring(cs, best.result.score)
  {
    hide Better;
    var m := |cs| - 1;
    var before, last := SelectAll(cs[..m]), cs[m].result;
    assert cs[m] in cs;
    assert forall c :: c in cs <==> c in cs[..m] || c == cs[m];
    if m == 0 {
      BetterIsStrictWeakOrder(last, last, last);
      assert cs[..m] == [];
    } else {
      SelectionIsMaximal(cs[..m]);
      forall c | c in cs
        ensures !Better(c.result, SelectAll(cs).result)
      {
        BetterIsStrictWeakOrder(c.result, last, before.result);
        BetterScore(c.result, SelectAll(cs).result);
      }
      if last.score > before.result.score {
        ScoringNone(cs[..m], last.score, before.result.score);
      }
    }
  }

  lemma BetterScore(a: FilterResult, b: FilterResult)
    ensures Better(a, b) ==> a.score >= b.score
    ensures a.score > b.score ==> Better(a, b)
    ensures a == b ==> !Better(a, b)
  {
  }
}
