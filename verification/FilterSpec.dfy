/** The plaintext filter's bounded search, as the list of candidates it
    considers and the rule by which it keeps the best one. */
module FilterSpec {
  import opened Bits
  import opened Scorer
  import opened PlainText
  import K = Kt
  import R = Radix

  const MAX_DEPTH: nat := 2
  const MAX_TRANSFORMS: nat := 8

  datatype Verdict = Reject | Insufficient | Possible | Likely

  datatype Transform = ReverseBits | InvertBits | Base16 | Base32 | Base32Hex | Base64 | Base64Url

  datatype FilterFlag = Ascii | Utf8 | Did(operation: Transform) | OpaqueData | PartialBits | StructuredData

  datatype FilterResult = FilterResult(
    verdict: Verdict, score: nat, flags: set<FilterFlag>, bitOffset: nat, transformDepth: nat,
    decodedLength: nat, sourceBits: nat, consumed: nat, ignored: nat, assessed: nat,
    transforms: seq<Transform>, equalScore: nat)

  // The operations leading to a candidate, in order.
  datatype Path = Path(flags: set<FilterFlag>, depth: nat, transforms: seq<Transform>)

  // One phase of the source stream, with what the scorers said of the whole.
  datatype Source = Source(bitLength: nat, completeBits: nat, bitOffset: nat, tailBits: nat, tailOnes: nat,
                           signalFlags: set<Flag>, signalScore: nat)

  // A candidate together with the bytes it was assessed on.
  datatype Considered = Considered(result: FilterResult, bytes: seq<byte>)

  predicate IsRadix(t: Transform) {
    !t.ReverseBits? && !t.InvertBits?
  }

  function Append(path: Path, t: Transform): Path {
    Path(path.flags + {Did(t)}, path.depth + (if IsRadix(t) then 1 else 0), path.transforms + [t])
  }

  function Vary(path: Path, reverse: bool, invert: bool): Path {
    var p := if reverse then Append(path, ReverseBits) else path;
    if invert then Append(p, InvertBits) else p
  }

  // ----- byte interpretations -----

  function VaryBits(s: seq<bool>, reverse: bool, invert: bool): (t: seq<bool>)
    ensures |t| == |s|
  {
    seq(|s|, k requires 0 <= k < |s| => s[if reverse then |s| - 1 - k else k] != invert)
  }

  function ByteOf(s: seq<bool>): byte
    requires |s| == 8
  {
    ToFromBits(s);
    Pow2Eight();
    FromBits(s)
  }

  function VaryByte(b: byte, reverse: bool, invert: bool): byte {
    ByteOf(VaryBits(ToBits(b, 8), reverse, invert))
  }

  function VaryBytes(s: seq<byte>, reverse: bool, invert: bool): (t: seq<byte>)
    ensures |t| == |s|
  {
    seq(|s|, i requires 0 <= i < |s| => VaryByte(s[i], reverse, invert))
  }

  // The whole bytes of the stream from a bit offset on.
  function RawBytes(bits: seq<bool>, offset: nat): (s: seq<byte>)
    requires offset <= |bits|
    ensures |s| == (|bits| - offset) / 8
  {
    seq((|bits| - offset) / 8, i requires 0 <= i < (|bits| - offset) / 8 =>
      ByteOf(bits[offset + 8 * i..offset + 8 * i + 8]))
  }

  // ----- radix layers -----

  function RadixOf(t: Transform): R.Radix
    requires IsRadix(t) && t != Base16
  {
    match t
    case Base32 => R.Base32
    case Base32Hex => R.Base32Hex
    case Base64 => R.Base64
    case Base64Url => R.Base64Url
  }

  ghost predicate Decodes(t: Transform, input: seq<byte>, output: seq<byte>)
    requires IsRadix(t)
  {
    if t == Base16 then R.HexAccepts(input, output)
    else R.Accepts(RadixOf(t), input, output)
  }

  lemma DecodesUnique(t: Transform, input: seq<byte>, a: seq<byte>, b: seq<byte>)
    requires IsRadix(t) && Decodes(t, input, a) && Decodes(t, input, b)
    ensures a == b
  {
    hide R.Accepts;
    if t == Base16 {
      R.Encode16Injective(a, b);
    } else {
      R.AcceptsUnique(RadixOf(t), input, a, b);
    }
  }

  ghost function DecodeOf(t: Transform, input: seq<byte>): (d: Option<seq<byte>>)
    requires IsRadix(t)
    ensures d.Some? ==> Decodes(t, input, d.value)
    ensures d.None? ==> forall output :: !Decodes(t, input, output)
  {
    if output :| Decodes(t, input, output) then Some(output) else None
  }

  lemma DecodeOfIs(t: Transform, input: seq<byte>, output: seq<byte>)
    requires IsRadix(t) && Decodes(t, input, output)
    ensures DecodeOf(t, input) == Some(output)
  {
    hide Decodes;
    DecodesUnique(t, input, output, DecodeOf(t, input).value);
  }

  const RADIX_OPS: seq<Transform> := [Base16, Base32, Base32Hex, Base64, Base64Url]

  ghost predicate AnyDecodes(input: seq<byte>) {
    exists k :: 0 <= k < 5 && DecodeOf(RADIX_OPS[k], input).Some?
  }

  // ----- one assessment -----

  function Penalty(score: nat, due: bool): nat {
    if due && score >= 5 then score - 5 else score
  }

  // The text score less the price of a shifted or altered reading.
  ghost function PenalizedScore(input: seq<byte>, path: Path, source: Source): (score: nat)
    ensures score <= PlaintextScore(input).score <= score + 15
  {
    Penalty(Penalty(Penalty(PlaintextScore(input).score, source.bitOffset > 0),
                    Did(ReverseBits) in path.flags),
            Did(InvertBits) in path.flags)
  }

  ghost function TextFlags(input: seq<byte>): set<FilterFlag> {
    var t := PlaintextScore(input);
    (if t.utf8 then {Utf8} else {}) + (if t.ascii then {Ascii} else {})
  }

  ghost predicate QualifiesOpaque(input: seq<byte>, path: Path, source: Source)
    requires source.tailBits < 8
  {
    && PenalizedScore(input, path, source) < 70
    && HighUnexplained in source.signalFlags
    && (if path.depth == 0 then LooksOpaque(input, source.tailOnes, source.tailBits)
        else LooksOpaque(input, 0, 0))
  }

  predicate StructuredSignal(source: Source) {
    && source.signalScore >= 70
    && (PeriodicStructure in source.signalFlags || DictionaryStructure in source.signalFlags)
  }

  ghost function Base(input: seq<byte>, path: Path, source: Source): FilterResult
    requires source.tailBits < 8
  {
    var flags := path.flags + TextFlags(input) + (if source.tailBits > 0 then {PartialBits} else {});
    var score := PenalizedScore(input, path, source);
    var plain := FilterResult(Reject, score, flags, source.bitOffset, path.depth, |input|, source.bitLength,
                              source.completeBits, source.tailBits, 0, path.transforms, 0);
    var withTail := if path.depth == 0 && source.tailBits > 0
                    then plain.(consumed := source.completeBits + source.tailBits, ignored := 0,
                                assessed := source.tailBits)
                    else plain;
    if QualifiesOpaque(input, path, source) then withTail.(score := 70, flags := flags + {OpaqueData})
    else if score < 70 && StructuredSignal(source) then
      withTail.(score := source.signalScore, flags := flags + {StructuredData})
    else plain
  }

  // A radix wrapper is no evidence of prose.
  function Clamp(r: FilterResult, encodingValid: bool): FilterResult {
    if encodingValid && r.score > 60 && OpaqueData !in r.flags then r.(score := 60) else r
  }

  // ----- the search: what is visited, and how it scores -----

  // Bytes that are assessed, and the operations that lead to them.
  datatype Node = Node(bytes: seq<byte>, path: Path)

  ghost function BytesNodes(input: seq<byte>, path: Path): seq<Node>
    requires path.depth <= MAX_DEPTH
    decreases MAX_DEPTH - path.depth, 1, 0
  {
    (if path.depth == MAX_DEPTH then [] else RadicesNodes(input, path, 5)) + [Node(input, path)]
  }

  ghost function RadicesNodes(input: seq<byte>, path: Path, k: nat): seq<Node>
    requires path.depth < MAX_DEPTH && k <= 5
    decreases MAX_DEPTH - path.depth, 0, k
  {
    if k == 0 then []
    else RadicesNodes(input, path, k - 1) + RadixNodes(input, path, RADIX_OPS[k - 1])
  }

  ghost function RadixNodes(input: seq<byte>, path: Path, t: Transform): seq<Node>
    requires path.depth < MAX_DEPTH && IsRadix(t)
    decreases MAX_DEPTH - path.depth, 0, 0
  {
    var d := DecodeOf(t, input);
    if d.Some? then VariantsNodes(d.value, Append(path, t)) else []
  }

  ghost function VariantsNodes(input: seq<byte>, path: Path): seq<Node>
    requires path.depth <= MAX_DEPTH
    decreases MAX_DEPTH - path.depth, 2, 0
  {
    BytesNodes(input, path)
    + BytesNodes(VaryBytes(input, false, true), Vary(path, false, true))
    + BytesNodes(VaryBytes(input, true, false), Vary(path, true, false))
    + BytesNodes(VaryBytes(input, true, true), Vary(path, true, true))
  }

  // A radix wrapper whose layer is still searched.
  ghost predicate Wrapper(node: Node) {
    node.path.depth < MAX_DEPTH && AnyDecodes(node.bytes)
  }

  ghost function Scored(node: Node, source: Source): Considered
    requires source.tailBits < 8
  {
    Considered(Clamp(Base(node.bytes, node.path, source), Wrapper(node)), node.bytes)
  }

  ghost function ScoredAll(nodes: seq<Node>, source: Source): (cs: seq<Considered>)
    requires source.tailBits < 8
    ensures |cs| == |nodes|
  {
    seq(|nodes|, i requires 0 <= i < |nodes| => Scored(nodes[i], source))
  }

  // ----- phases -----

  datatype Signal = Signal(flags: set<Flag>, score: nat)

  function Tail(bits: seq<bool>, offset: nat): (t: seq<bool>)
    requires offset <= |bits|
    ensures |t| == (|bits| - offset) % 8
  {
    bits[offset + (|bits| - offset) / 8 * 8..]
  }

  function SourceAt(bits: seq<bool>, offset: nat, invert: bool, signal: Signal): (s: Source)
    requires offset <= |bits|
    ensures s.tailBits < 8
  {
    var n, tail := |bits| - offset, Tail(bits, offset);
    var ones := K.Count(tail, true);
    Source(|bits|, n / 8 * 8, offset, n % 8, if invert then n % 8 - ones else ones, signal.flags, signal.score)
  }

  const START: Path := Path({}, 0, [])

  ghost function ReadingNodes(bits: seq<bool>, offset: nat, reverse: bool, invert: bool): seq<Node>
    requires offset <= |bits|
  {
    BytesNodes(VaryBytes(RawBytes(bits, offset), reverse, invert), Vary(START, reverse, invert))
  }

  ghost function AssessReading(bits: seq<bool>, offset: nat, reverse: bool, invert: bool, signal: Signal)
    : seq<Considered>
    requires offset <= |bits|
  {
    ScoredAll(ReadingNodes(bits, offset, reverse, invert), SourceAt(bits, offset, invert, signal))
  }

  predicate LongEnough(bits: seq<bool>, offset: nat) {
    offset < |bits| && (|bits| - offset) / 8 >= MIN_BYTES
  }

  ghost function AssessPhase(bits: seq<bool>, offset: nat, signal: Signal): seq<Considered> {
    if !LongEnough(bits, offset) then []
    else
      AssessReading(bits, offset, false, false, signal)
      + AssessReading(bits, offset, false, true, signal)
      + AssessReading(bits, offset, true, false, signal)
      + AssessReading(bits, offset, true, true, signal)
  }

  // Every candidate of the first k phases, in the order they are considered.
  ghost function AllConsidered(bits: seq<bool>, signal: Signal, k: nat): seq<Considered> {
    if k == 0 then [] else AllConsidered(bits, signal, k - 1) + AssessPhase(bits, k - 1, signal)
  }

  // ----- selection -----

  function BitOps(ts: seq<Transform>): nat {
    if ts == [] then 0 else BitOps(ts[..|ts| - 1]) + (if IsRadix(ts[|ts| - 1]) then 0 else 1)
  }

  predicate Better(a: FilterResult, b: FilterResult) {
    if a.score != b.score then a.score > b.score
    else if a.bitOffset != b.bitOffset then a.bitOffset < b.bitOffset
    else if a.consumed != b.consumed then a.consumed > b.consumed
    else if BitOps(a.transforms) != BitOps(b.transforms) then BitOps(a.transforms) < BitOps(b.transforms)
    else if a.transformDepth != b.transformDepth then a.transformDepth > b.transformDepth
    else if (OpaqueData in a.flags) != (OpaqueData in b.flags) then OpaqueData in a.flags
    else false
  }

  datatype Best = Best(result: FilterResult, equal: nat, hasResult: bool)

  const NO_RESULT: FilterResult := FilterResult(Insufficient, 0, {}, 0, 0, 0, 0, 0, 0, 0, [], 0)
  const NOTHING: Best := Best(NO_RESULT, 0, false)

  function Consider(best: Best, c: FilterResult): Best {
    if !best.hasResult || c.score > best.result.score then Best(c, 1, true)
    else if c.score == best.result.score then
      Best(if Better(c, best.result) then c else best.result, best.equal + 1, true)
    else best
  }

  function SelectAll(cs: seq<Considered>): Best {
    if cs == [] then NOTHING else Consider(SelectAll(cs[..|cs| - 1]), cs[|cs| - 1].result)
  }

  function VerdictOf(best: Best): Verdict {
    if !best.hasResult || best.result.decodedLength < MIN_BYTES then Insufficient
    else if best.result.score >= 90 then Likely
    else if best.result.score >= 70 then Possible
    else Reject
  }

  ghost function FilterOf(bits: seq<bool>, signal: Signal): FilterResult {
    var best := SelectAll(AllConsidered(bits, signal, 8));
    best.result.(verdict := VerdictOf(best), equalScore := best.equal)
  }
}
