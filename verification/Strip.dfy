/** Removing default-ignorable scalars by an unchecked reparse of the bytes. */
module Strip {
  import opened Bits
  import opened Bitstream
  import opened Utf8
  import opened UnicodeProperties

  // A byte and the source offset it came from.
  datatype Cell = Cell(value: byte, origin: nat)

  function BytesOf(cells: seq<Cell>): (s: seq<byte>)
    ensures |s| == |cells|
  {
    seq(|cells|, i requires 0 <= i < |cells| => cells[i].value)
  }

  function Visible(cps: seq<Scalar>): seq<Scalar> {
    if cps == [] then []
    else
      var last := cps[|cps| - 1];
      Visible(cps[..|cps| - 1]) + (if Ignorable(last) then [] else [last])
  }

  // The cells of the scalars that are not ignorable.
  function Kept(cells: seq<Cell>, cps: seq<Scalar>): seq<Cell>
    requires |EncodeAll(cps)| == |cells|
  {
    if cps == [] then []
    else
      var m := |cps| - 1;
      var k := |EncodeAll(cps[..m])|;
      Kept(cells[..k], cps[..m]) + (if Ignorable(cps[m]) then [] else cells[k..])
  }

  ghost function ScalarsOf(s: seq<byte>): (cps: seq<Scalar>)
    requires ValidUtf8(s)
    ensures EncodeAll(cps) == s
  {
    var cps: seq<Scalar> :| EncodeAll(cps) == s;
    cps
  }

  ghost function StripCells(cells: seq<Cell>): seq<Cell>
    requires ValidUtf8(BytesOf(cells))
  {
    Kept(cells, ScalarsOf(BytesOf(cells)))
  }

  lemma OnlyDecoding(cps: seq<Scalar>, s: seq<byte>)
    requires EncodeAll(cps) == s
    ensures ValidUtf8(s) && ScalarsOf(s) == cps
  {
    hide EncodeAll;
    var other := ScalarsOf(s);
    if |cps| <= |other| {
      DecodingUnique(cps, other, s);
      EncodeAllPrefix(cps, other);
    } else {
      DecodingUnique(other, cps, s);
      EncodeAllPrefix(other, cps);
    }
  }

  // ----- what stripping does -----

  lemma {:induction false} KeptEncodesVisible(cells: seq<Cell>, cps: seq<Scalar>)
    requires EncodeAll(cps) == BytesOf(cells)
    ensures BytesOf(Kept(cells, cps)) == EncodeAll(Visible(cps))
  {
    hide Encode, Ignorable;
    if cps != [] {
      var m := |cps| - 1;
      var k := |EncodeAll(cps[..m])|;
      assert BytesOf(cells[..k]) == BytesOf(cells)[..k];
      KeptEncodesVisible(cells[..k], cps[..m]);
      if !Ignorable(cps[m]) {
        EncodeAllAppend(Visible(cps[..m]), cps[m]);
        assert BytesOf(cells[k..]) == BytesOf(cells)[k..] == Encode(cps[m]);
        assert BytesOf(Kept(cells[..k], cps[..m]) + cells[k..]) ==
               BytesOf(Kept(cells[..k], cps[..m])) + BytesOf(cells[k..]);
      } else {
        assert Kept(cells, cps) == Kept(cells[..k], cps[..m]);
        assert Visible(cps) == Visible(cps[..m]);
      }
    }
  }

  lemma {:induction false} NothingToStrip(cells: seq<Cell>, cps: seq<Scalar>)
    requires EncodeAll(cps) == BytesOf(cells)
    requires forall i :: 0 <= i < |cps| ==> !Ignorable(cps[i])
    ensures Kept(cells, cps) == cells
  {
    hide Encode, Ignorable;
    if cps != [] {
      var m := |cps| - 1;
      var k := |EncodeAll(cps[..m])|;
      assert BytesOf(cells[..k]) == BytesOf(cells)[..k];
      NothingToStrip(cells[..k], cps[..m]);
      assert cells == cells[..k] + cells[k..];
    }
  }

  lemma {:induction false} AllVisible(cps: seq<Scalar>)
    ensures forall i :: 0 <= i < |Visible(cps)| ==> !Ignorable(Visible(cps)[i])
  {
    hide Ignorable;
    if cps != [] {
      AllVisible(cps[..|cps| - 1]);
    }
  }

  // Stripping leaves the encoding of the visible scalars, which is valid, and
  // a second pass changes nothing.
  lemma StripIsFilter(cells: seq<Cell>)
    requires ValidUtf8(BytesOf(cells))
    ensures BytesOf(StripCells(cells)) == EncodeAll(Visible(ScalarsOf(BytesOf(cells))))
    ensures ValidUtf8(BytesOf(StripCells(cells)))
    ensures StripCells(StripCells(cells)) == StripCells(cells)
  {
    var cps := ScalarsOf(BytesOf(cells));
    var kept := StripCells(cells);
    KeptEncodesVisible(cells, cps);
    OnlyDecoding(Visible(cps), BytesOf(kept));
    AllVisible(cps);
    NothingToStrip(kept, Visible(cps));
  }

  // ----- the reparse -----

  // Sequence length read off the lead byte alone.
  function Width(b: byte): (n: nat)
    ensures 1 <= n <= 4
  {
    if b < 0x80 then 1 else if b / 32 == 6 then 2 else if b / 16 == 14 then 3 else 4
  }

  function RawCp(s: seq<byte>): nat
    requires 1 <= |s| <= 4
  {
    var high: nat, low: nat := s[0], s[|s| - 1] % 64;
    if |s| == 1 then high
    else if |s| == 2 then (high % 32) * 64 + low
    else
      var x: nat := s[1] % 64;
      if |s| == 3 then (high % 16) * 4096 + x * 64 + low
      else
        var y: nat := s[2] % 64;
        (high % 8) * 262144 + x * 4096 + y * 64 + low
  }

  // On an encoding, the shortcut reads what the strict scanner reads.
  lemma ReparseAgrees(cp: Scalar)
    ensures Width(Encode(cp)[0]) == |Encode(cp)| && RawCp(Encode(cp)) == cp
  {
    var s := Encode(cp);
    EncodingWellFormed(cp, []);
    assert s + [] == s;
    hide Encode;
    var n := |s| - 1;
    GatherEncodes(s, n);
    assert s[..n + 1] == s;
    EncodeInjective(cp, Gather(s, n));
    RawIsGather(s);
  }

  lemma RawIsGather(s: seq<byte>)
    requires 1 <= |s| <= 4 && WellFormed(s, |s| - 1)
    ensures Width(s[0]) == |s| && RawCp(s) == Gather(s, |s| - 1)
  {
    hide Gather;
    GatherStep(s, 0);
    if |s| > 1 {
      GatherStep(s, 1);
      if |s| > 2 {
        GatherStep(s, 2);
        if |s| > 3 {
          GatherStep(s, 3);
        }
      }
    }
  }

  // The n-th scalar's encoding, where the ones before it end.
  lemma EncodingAt(cps: seq<Scalar>, n: nat)
    requires n < |cps|
    ensures var i, e := |EncodeAll(cps[..n])|, Encode(cps[n]);
            && i + |e| <= |EncodeAll(cps)| && i + |e| == |EncodeAll(cps[..n + 1])|
            && EncodeAll(cps)[i..i + |e|] == e && EncodeAll(cps)[i] == e[0]
  {
    hide Encode;
    var i, e, all := |EncodeAll(cps[..n])|, Encode(cps[n]), EncodeAll(cps);
    EncodeAllPrefix(cps[..n], cps);
    assert cps[..n + 1][..n] == cps[..n];
    assert EncodeAll(cps[..n + 1]) == EncodeAll(cps[..n]) + e;
    hide EncodeAll;
    assert all[i..i + |e|] == all[i..][..|e|] == e;
    assert all[i..][0] == e[0];
  }

  // What is kept of the first n scalars.
  ghost function KeptTo(cells: seq<Cell>, cps: seq<Scalar>, n: nat): seq<Cell>
    requires EncodeAll(cps) == BytesOf(cells) && n <= |cps|
  {
    EncodeAllPrefix(cps[..n], cps);
    Kept(cells[..|EncodeAll(cps[..n])|], cps[..n])
  }

  lemma KeptEnds(cells: seq<Cell>, cps: seq<Scalar>)
    requires EncodeAll(cps) == BytesOf(cells)
    ensures |EncodeAll(cps[..0])| == 0 && KeptTo(cells, cps, 0) == []
    ensures KeptTo(cells, cps, |cps|) == Kept(cells, cps)
  {
    assert cps[..|cps|] == cps && cells[..|cells|] == cells;
  }

  // The reparse at the n-th scalar's offset, and what keeping it adds.
  lemma ReparseStep(cells: seq<Cell>, cps: seq<Scalar>, n: nat)
    requires EncodeAll(cps) == BytesOf(cells) && n < |cps|
    ensures |EncodeAll(cps[..n])| < |cells|
    ensures var i := |EncodeAll(cps[..n])|;
            var w := Width(cells[i].value);
            && i + w <= |cells| && i + w == |EncodeAll(cps[..n + 1])|
            && RawCp(BytesOf(cells)[i..i + w]) == cps[n]
            && KeptTo(cells, cps, n + 1) ==
               KeptTo(cells, cps, n) + if Ignorable(cps[n]) then [] else cells[i..i + w]
  {
    hide Ignorable, RawCp, Width, Encode, EncodeAll, Kept;
    EncodingAt(cps, n);
    ReparseAgrees(cps[n]);
    var i, w := |EncodeAll(cps[..n])|, |Encode(cps[n])|;
    var more, read := cps[..n + 1], cells[..i + w];
    assert more[..n] == cps[..n] && read[..i] == cells[..i] && read[i..] == cells[i..i + w];
    KeptStep(read, more, i);
    assert Kept(cells[..i], cps[..n]) + [] == Kept(cells[..i], cps[..n]);
  }

  lemma KeptStep(cells: seq<Cell>, cps: seq<Scalar>, k: nat)
    requires cps != [] && |EncodeAll(cps)| == |cells| && k == |EncodeAll(cps[..|cps| - 1])| <= |cells|
    ensures var m := |cps| - 1;
            Kept(cells, cps) == if Ignorable(cps[m]) then Kept(cells[..k], cps[..m])
                                else Kept(cells[..k], cps[..m]) + cells[k..]
  {
    hide Ignorable, EncodeAll;
  }

  // Each byte at its own offset.
  function Traced(input: seq<byte>): (cells: seq<Cell>)
    ensures BytesOf(cells) == input
  {
    seq(|input|, k requires 0 <= k < |input| => Cell(input[k], k))
  }

  // The bits of the first n scalars, less the ignorable ones.
  ghost function KeptBits(input: seq<byte>, cps: seq<Scalar>, n: nat): seq<bool>
    requires EncodeAll(cps) == input && n <= |cps|
  {
    BytesBits(BytesOf(KeptTo(Traced(input), cps, n)))
  }

  // What one turn of the loop reads, and what keeping it adds.
  lemma KeptBitsStep(input: seq<byte>, cps: seq<Scalar>, n: nat, i: nat)
    requires EncodeAll(cps) == input && n < |cps| && i == |EncodeAll(cps[..n])|
    ensures i < |input|
    ensures var w := Width(input[i]);
            && i + w <= |input| && i + w == |EncodeAll(cps[..n + 1])|
            && RawCp(input[i..i + w]) == cps[n]
            && KeptBits(input, cps, n + 1) ==
               KeptBits(input, cps, n) + if Ignorable(cps[n]) then [] else BytesBits(input[i..i + w])
  {
    hide EncodeAll, BytesBits, KeptTo, Ignorable, RawCp, Width;
    var cells := Traced(input);
    ReparseStep(cells, cps, n);
    var w := Width(cells[i].value);
    if Ignorable(cps[n]) {
      assert KeptTo(cells, cps, n + 1) == KeptTo(cells, cps, n);
    } else {
      AppendKept(KeptTo(cells, cps, n), cells[i..i + w]);
      assert BytesOf(cells[i..i + w]) == input[i..i + w];
    }
  }

  // What is kept of a prefix is a prefix of what is kept.
  lemma {:induction false} KeptBitsPrefix(input: seq<byte>, cps: seq<Scalar>, n: nat)
    requires EncodeAll(cps) == input && n <= |cps|
    ensures KeptBits(input, cps, n) <= KeptBits(input, cps, |cps|)
    decreases |cps| - n
  {
    hide EncodeAll, BytesBits, KeptBits, Ignorable, RawCp, Width;
    if n < |cps| {
      KeptBitsStep(input, cps, n, |EncodeAll(cps[..n])|);
      KeptBitsPrefix(input, cps, n + 1);
    }
  }

  lemma KeptBitsEnds(input: seq<byte>, cps: seq<Scalar>)
    requires EncodeAll(cps) == input
    ensures KeptBits(input, cps, 0) == [] && |EncodeAll(cps[..0])| == 0
    ensures KeptBits(input, cps, |cps|) == BytesBits(EncodeAll(Visible(cps)))
  {
    hide EncodeAll, Visible, KeptTo, Kept;
    KeptEnds(Traced(input), cps);
    assert BytesOf([]) == [];
    KeptEncodesVisible(Traced(input), cps);
  }

  // Reading goes on exactly while scalars are left.
  lemma MoreToRead(cps: seq<Scalar>, n: nat)
    requires n <= |cps|
    ensures |EncodeAll(cps[..n])| < |EncodeAll(cps)| <==> n < |cps|
    ensures |EncodeAll(cps[..n])| <= |EncodeAll(cps)|
  {
    hide EncodeAll;
    if n < |cps| {
      EncodingAt(cps, n);
    } else {
      assert cps[..n] == cps;
    }
  }

  // The decoder variant: the bytes of every scalar that is not ignorable, cut
  // short only where the length would pass SIZE_MAX bits.
  method StripKnownIgnorables(input: seq<byte>, output: Bitstream) returns (status: Status)
    requires output.Valid() && output.Bits() == []
    modifies output, output.bytes, output.bytes.data
    ensures output.Valid()
    ensures if !ValidUtf8(input) then status == Eutf8 && output.Bits() == []
            else
              var all := BytesBits(EncodeAll(Visible(ScalarsOf(input))));
              && status == (if |all| <= SIZE_MAX then Ok else Einval)
              && output.Bits() <= all && (status == Ok ==> output.Bits() == all)
  {
    hide EncodeAll, BytesBits, Visible, Ignorable, ValidUtf8, RawCp, Width, Contiguous, Packed, Unpack, KeptBits;
    var valid, found, errorOffset := Foreach(input);
    if valid != Ok {
      return valid;
    }
    ghost var cps, n := Values(found), 0;
    OnlyDecoding(cps, input);
    KeptBitsEnds(input, cps);
    status := Ok;
    var i := 0;
    while i < |input|
      invariant i <= |input| && n <= |cps| && i == |EncodeAll(cps[..n])| && output.Valid() && status == Ok
      invariant output.bytes.data == old(output.bytes.data) || fresh(output.bytes.data)
      invariant output.Bits() == KeptBits(input, cps, n)
      decreases |input| - i
    {
      MoreToRead(cps, n);
      KeptBitsStep(input, cps, n, i);
      KeptBitsPrefix(input, cps, n + 1);
      var w := Width(input[i]);
      var ignorable := IsIgnorable(RawCp(input[i..i + w]));
      if !ignorable {
        status := AppendBytes(input[i..i + w], output);
        if status != Ok {
          return status;
        }
      }
      i := i + w;
      n := n + 1;
    }
    MoreToRead(cps, n);
  }

  lemma AppendKept(kept: seq<Cell>, more: seq<Cell>)
    ensures BytesOf(kept + more) == BytesOf(kept) + BytesOf(more)
    ensures BytesBits(BytesOf(kept + more)) == BytesBits(BytesOf(kept)) + BytesBits(BytesOf(more))
  {
    assert BytesOf(kept + more) == BytesOf(kept) + BytesOf(more);
    BytesBitsConcat(BytesOf(kept), BytesOf(more));
  }

  // The output once the first j bytes are written.
  function Grown(before: seq<bool>, s: seq<byte>, j: nat): seq<bool>
    requires j <= |s|
  {
    before + BytesBits(s[..j])
  }

  method AppendBytes(s: seq<byte>, output: Bitstream) returns (status: Status)
    requires output.Valid()
    modifies output, output.bytes, output.bytes.data
    ensures output.Valid() && (output.bytes.data == old(output.bytes.data) || fresh(output.bytes.data))
    ensures status == if |old(output.Bits()) + BytesBits(s)| <= SIZE_MAX then Ok else Einval
    ensures output.Bits() <= old(output.Bits()) + BytesBits(s)
    ensures status == Ok ==> output.Bits() == old(output.Bits()) + BytesBits(s)
  {
    status := Ok;
    ghost var before := output.Bits();
    GrownEnds(before, s);
    hide SymbolBits, BytesBits, Grown, Unpack, Packed;
    var j := 0;
    while j < |s|
      invariant 0 <= j <= |s| && status == Ok && output.Valid()
      invariant output.bytes.data == old(output.bytes.data) || fresh(output.bytes.data)
      invariant output.Bits() == Grown(before, s, j)
    {
      GrownStep(before, s, j);
      status := output.AppendBits(s[j], 8, false);
      if status != Ok {
        return status;
      }
      j := j + 1;
    }
  }

  lemma GrownEnds(before: seq<bool>, s: seq<byte>)
    ensures Grown(before, s, 0) == before && Grown(before, s, |s|) == before + BytesBits(s)
  {
    assert s[..|s|] == s;
  }

  // One byte more, still a prefix of the whole.
  lemma GrownStep(before: seq<bool>, s: seq<byte>, j: nat)
    requires j < |s|
    ensures Grown(before, s, j + 1) == Grown(before, s, j) + SymbolBits(s[j], 8, false)
    ensures |Grown(before, s, j + 1)| == |Grown(before, s, j)| + 8 <= |before + BytesBits(s)|
    ensures Grown(before, s, j) <= before + BytesBits(s)
  {
    OneMoreByte(s, j);
    BytesPrefix(s, j);
    BytesPrefix(s, j + 1);
    hide BytesBits, ToBits;
    assert before + (BytesBits(s[..j]) + ToBits(s[j], 8)) == before + BytesBits(s[..j]) + ToBits(s[j], 8);
  }

  lemma BytesPrefix(s: seq<byte>, j: nat)
    requires j <= |s|
    ensures BytesBits(s[..j]) <= BytesBits(s)
  {
    hide BytesBits;
    assert s == s[..j] + s[j..];
    BytesBitsConcat(s[..j], s[j..]);
  }

  lemma OneMoreByte(s: seq<byte>, j: nat)
    requires j < |s|
    ensures BytesBits(s[..j + 1]) == BytesBits(s[..j]) + ToBits(s[j], 8)
  {
    assert s[..j + 1][..j] == s[..j];
  }
}
