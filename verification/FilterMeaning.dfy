/** What the filter's price, order and opaque gate mean. */
module FilterMeaning {
  import opened Bits
  import opened Kt
  import opened PlainText
  import opened FilterSpec
  import opened FilterTheorems
  import opened TextMeaning
  import opened Scorer

  // Five points for each of a shifted phase, a reversal and an inversion; and
  // text worth anything is worth at least 40 before that.
  lemma PriceOfAlterations(input: seq<byte>, path: Path, source: Source)
    ensures var text := PlaintextScore(input).score;
            var alterations := (if source.bitOffset > 0 then 1 else 0)
                               + (if Did(ReverseBits) in path.flags then 1 else 0)
                               + (if Did(InvertBits) in path.flags then 1 else 0);
            && (text == 0 || text >= 40)
            && PenalizedScore(input, path, source) == if text == 0 then 0 else text - 5 * alterations
  {
    hide CleanText, TallyAll, TallyScore;
  }

  // A path says nothing but which operations were done.
  predicate Bare(path: Path) {
    path.flags !! {Utf8, Ascii, PartialBits, OpaqueData, StructuredData}
  }

  lemma PathsAreBare(bits: seq<bool>, offset: nat, reverse: bool, invert: bool, node: Node)
    requires offset <= |bits| && node in ReadingNodes(bits, offset, reverse, invert)
    ensures Bare(node.path)
  {
    hide ReadingNodes, RawBytes, Replay, RadixOps;
    ReadingLead(bits, offset, reverse, invert, node);
  }

  // What is opaque at the deepest layer scores 70 though it may be a wrapper;
  // other wrappers are capped at 60. The tail counts only for raw readings
  // below 70.
  lemma FlagsMean(node: Node, source: Source)
    requires source.tailBits < 8 && Bare(node.path)
    ensures var s, r, raw := node.bytes, Scored(node, source).result, node.path.depth == 0;
            var text := PenalizedScore(s, node.path, source);
            var looks := LooksOpaque(s, if raw then source.tailOnes else 0, if raw then source.tailBits else 0);
            var unread := text < 70 && HighUnexplained in source.signalFlags && looks;
            var structured := text < 70 && !unread && source.signalScore >= 70
                              && (PeriodicStructure in source.signalFlags || DictionaryStructure in source.signalFlags);
            var wrapper := node.path.depth < 2 && AnyDecodes(s);
            var worth := if structured then source.signalScore else text;
            var whole := raw && source.tailBits > 0 && (unread || structured);
            && (Utf8 in r.flags <==> |s| >= 6 && Readable(s))
            && (Ascii in r.flags <==> |s| >= 6 && Readable(s) && Number(HighByte, s) == 0)
            && (OpaqueData in r.flags <==> unread) && (StructuredData in r.flags <==> structured)
            && r.score == (if unread then 70 else if wrapper && worth > 60 then 60 else worth)
            && r.ignored == (if whole then 0 else source.tailBits)
            && r.assessed == (if whole then source.tailBits else 0)
  {
    hide PenalizedScore, PlaintextScore, LooksOpaque, AnyDecodes, Readable, Number;
    ScoreMeans(node.bytes);
  }

  // ----- the order of results -----

  // Where the path alters bits without decoding them.
  function AlteredAt(ts: seq<Transform>): set<nat> {
    set i: nat | i < |ts| && (ts[i] == ReverseBits || ts[i] == InvertBits)
  }

  lemma {:induction false} AlterationsCounted(ts: seq<Transform>)
    ensures BitOps(ts) == |AlteredAt(ts)|
  {
    if ts == [] {
      assert AlteredAt(ts) == {};
    } else {
      var m := |ts| - 1;
      AlterationsCounted(ts[..m]);
      var before := AlteredAt(ts[..m]);
      assert AlteredAt(ts) == if IsRadix(ts[m]) then before else before + {m};
    }
  }

  // What counts in favour of a result, the most important first.
  function Merits(r: FilterResult): (m: seq<int>)
    ensures |m| == 6
  {
    [r.score as int, -(r.bitOffset as int), r.consumed, -(|AlteredAt(r.transforms)| as int), r.transformDepth,
     if OpaqueData in r.flags then 1 else 0]
  }

  // a and b agree up to place k and a is greater there.
  predicate GreaterAt(a: seq<int>, b: seq<int>, k: nat) {
    k < |a| && k < |b| && a[..k] == b[..k] && a[k] > b[k]
  }

  ghost predicate Outranks(a: seq<int>, b: seq<int>) {
    exists k: nat :: GreaterAt(a, b, k)
  }

  lemma GreaterLater(a: seq<int>, b: seq<int>, k: nat)
    requires a != [] && b != []
    ensures GreaterAt(a, b, 0) <==> a[0] > b[0]
    ensures GreaterAt(a, b, k + 1) <==> a[0] == b[0] && GreaterAt(a[1..], b[1..], k)
  {
    if k + 1 <= |a| && k + 1 <= |b| {
      assert a[..k + 1] == [a[0]] + a[1..][..k] && b[..k + 1] == [b[0]] + b[1..][..k];
    }
  }

  lemma OutranksStep(a: seq<int>, b: seq<int>)
    requires a != [] && |a| == |b|
    ensures Outranks(a, b) <==> a[0] > b[0] || (a[0] == b[0] && Outranks(a[1..], b[1..]))
  {
    hide GreaterAt;
    GreaterLater(a, b, 0);
    if Outranks(a, b) {
      var k: nat :| GreaterAt(a, b, k);
      if k > 0 {
        GreaterLater(a, b, k - 1);
      }
    }
    if a[0] == b[0] && Outranks(a[1..], b[1..]) {
      var k: nat :| GreaterAt(a[1..], b[1..], k);
      GreaterLater(a, b, k);
    }
  }

  lemma NothingOutranks(a: seq<int>, b: seq<int>)
    requires a == []
    ensures !Outranks(a, b)
  {
  }

  // The program's comparison is the lexicographic order of the merits.
  lemma BetterIsLexicographic(a: FilterResult, b: FilterResult)
    ensures Better(a, b) <==> Outranks(Merits(a), Merits(b))
  {
    hide Outranks, BitOps, AlteredAt;
    AlterationsCounted(a.transforms);
    AlterationsCounted(b.transforms);
    var x, y := Merits(a), Merits(b);
    OutranksStep(x, y);
    OutranksStep(x[1..], y[1..]);
    OutranksStep(x[2..], y[2..]);
    OutranksStep(x[3..], y[3..]);
    OutranksStep(x[4..], y[4..]);
    OutranksStep(x[5..], y[5..]);
    NothingOutranks(x[6..], y[6..]);
    assert x[1..][1..] == x[2..] && x[2..][1..] == x[3..] && x[3..][1..] == x[4..];
    assert y[1..][1..] == y[2..] && y[2..][1..] == y[3..] && y[3..][1..] == y[4..];
    assert x[4..][1..] == x[5..] && x[5..][1..] == x[6..] && y[4..][1..] == y[5..] && y[5..][1..] == y[6..];
  }

  // Of results none of which is better, the one considered first is kept.
  lemma {:induction false} EarliestWins(cs: seq<Considered>) returns (i: nat)
    requires cs != []
    ensures i < |cs| && cs[i].result == SelectAll(cs).result
    ensures forall j :: 0 <= j < i ==> Better(cs[i].result, cs[j].result)
    ensures forall j :: i < j < |cs| ==> !Better(cs[j].result, cs[i].result)
  {
    hide Better;
    var m := |cs| - 1;
    SelectionIsMaximal(cs);
    if m == 0 {
      i := 0;
      assert cs[..m] == [];
    } else {
      i := EarliestWins(cs[..m]);
      var before, last := SelectAll(cs[..m]).result, cs[m].result;
      SelectionIsMaximal(cs[..m]);
      BetterScore(last, before);
      if SelectAll(cs).result != before || Better(last, before) {
        i := m;
        forall j | 0 <= j < m
          ensures Better(last, cs[j].result)
        {
          assert cs[..m][j] in cs[..m];
          BetterIsStrictWeakOrder(last, cs[j].result, before);
        }
      }
    }
  }

  // ----- the opaque gate -----

  function OnesAt(bits: seq<bool>): set<nat> {
    set i: nat | i < |bits| && bits[i]
  }

  lemma {:induction false} OnesCounted(bits: seq<bool>)
    ensures Count(bits, true) == |OnesAt(bits)|
  {
    if bits == [] {
      assert OnesAt(bits) == {};
    } else {
      var m := |bits| - 1;
      OnesCounted(bits[..m]);
      var before := OnesAt(bits[..m]);
      assert OnesAt(bits) == if bits[m] then before + {m} else before;
    }
  }

  // Sixteen bytes, eight values among them, and neither ones nor zeros, the
  // tail counted in, more than three short of a quarter of the bits.
  lemma OpaqueMeans(s: seq<byte>, tail: seq<bool>)
    requires |tail| < 8
    ensures var all := BytesBits(s) + tail;
            var ones := |OnesAt(all)|;
            LooksOpaque(s, Count(tail, true), |tail|) <==>
            && |s| >= 16 && |all| <= SIZE_MAX && |set b: byte | b in s| >= 8
            && 4 * (ones + 1) > |all| && 4 * (|all| - ones + 1) > |all|
  {
    hide Count, BytesBits;
    var all := BytesBits(s) + tail;
    OnesCounted(all);
    CountConcat(BytesBits(s), tail, true);
    assert Distinct(s) == set b: byte | b in s;
    Quarter(|all|, Count(all, true));
  }

  lemma Quarter(n: nat, k: nat)
    requires k <= n
    ensures n / 4 <= k <==> 4 * (k + 1) > n
    ensures k <= n - n / 4 <==> 4 * (n - k + 1) > n
  {
  }

  // ----- the bytes of a phase -----

  lemma ByteAt(s: seq<byte>, i: nat, k: nat)
    requires i < |s| && k < 8
    ensures 8 * i + k < |BytesBits(s)| && BytesBits(s)[8 * i + k] == ToBits(s[i], 8)[k]
  {
    hide BytesBits, ToBits, ByteBit;
    BytesBitsAt(s, 8 * i + k);
    ByteBitIsToBits(s[i]);
    assert (8 * i + k) / 8 == i && (8 * i + k) % 8 == k;
  }

  // The raw bytes of a phase and its tail are the stream from the offset on.
  lemma RawIsStream(bits: seq<bool>, offset: nat)
    requires offset <= |bits|
    ensures BytesBits(RawBytes(bits, offset)) + Tail(bits, offset) == bits[offset..]
  {
    hide BytesBits, ToBits, ByteOf;
    var s, n := RawBytes(bits, offset), (|bits| - offset) / 8;
    forall j: nat | j < 8 * n
      ensures BytesBits(s)[j] == bits[offset..][j]
    {
      RawBit(bits, offset, j / 8, j % 8);
    }
  }

  lemma RawBit(bits: seq<bool>, offset: nat, i: nat, k: nat)
    requires offset <= |bits| && i < (|bits| - offset) / 8 && k < 8
    ensures 8 * i + k < |BytesBits(RawBytes(bits, offset))| && offset + 8 * i + k < |bits|
    ensures BytesBits(RawBytes(bits, offset))[8 * i + k] == bits[offset + 8 * i + k]
  {
    hide BytesBits, ToBits, ByteOf;
    ByteAt(RawBytes(bits, offset), i, k);
    var octet := bits[offset + 8 * i..offset + 8 * i + 8];
    ToBitsOfByte(octet);
    assert octet[k] == bits[offset + 8 * i + k];
  }

  // Each bit of a variant is the bit of its byte it comes from, perhaps
  // inverted.
  lemma VariantBit(s: seq<byte>, reverse: bool, invert: bool, i: nat, k: nat)
    requires i < |s| && k < 8
    ensures 8 * i + 7 < |BytesBits(s)| == |BytesBits(VaryBytes(s, reverse, invert))|
    ensures BytesBits(VaryBytes(s, reverse, invert))[8 * i + k] ==
            (BytesBits(s)[8 * i + (if reverse then 7 - k else k)] != invert)
  {
    hide BytesBits, ToBits, ByteOf;
    ByteAt(VaryBytes(s, reverse, invert), i, k);
    ByteAt(s, i, if reverse then 7 - k else k);
    ToBitsOfByte(VaryBits(ToBits(s[i], 8), reverse, invert));
  }
}
