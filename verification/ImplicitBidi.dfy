/** The implicit-bidi lane: whole lines that spell one record two ways. */
module ImplicitBidi {
  import opened Bits
  import opened Bitstream
  import opened Composite
  import opened Identity
  import Utf8

  const RECORDS: Pair := Pair([0x61, 0xD7, 0x90, 0x31, 0x0A], [0x61, 0x31, 0xD7, 0x90, 0x0A], true)

  lemma RecordsDistinctive()
    ensures Distinctive(RECORDS)
  {
  }

  // The symbol of a line, its line feed included.
  function RecordValue(input: seq<byte>, start: nat, end: nat): Option<byte>
    requires start <= end <= |input|
  {
    if end - start != 5 then None
    else if input[start..end] == RECORDS.zero then Some(0)
    else if input[start..end] == RECORDS.one then Some(1)
    else None
  }

  function Records(input: seq<byte>, n: nat): seq<Event>
    requires n <= |input|
  {
    Occurrences(RECORDS, input, n)
  }

  predicate NoLineFeed(input: seq<byte>, start: nat, end: nat)
    requires end <= |input|
  {
    forall k :: start <= k < end ==> input[k] != 0x0A
  }

  // A record found at a line start is the whole line.
  lemma RecordIsLine(input: seq<byte>, start: nat, end: nat)
    requires start <= end < |input| && LineStart(input, start) && NoLineFeed(input, start, end) && input[end] == 0x0A
    ensures TokenAt(RECORDS, input, start) ==
            match RecordValue(input, start, end + 1)
            case None => None
            case Some(v) => Some(Event(SymbolKind, start, 5, v, 1))
  {
    if TokenAt(RECORDS, input, start).Some? {
      OneLineFeed(input, start);
    }
  }

  lemma OneLineFeed(input: seq<byte>, at: nat)
    requires at <= |input| && TokenAt(RECORDS, input, at).Some?
    ensures at + 4 < |input| && input[at + 4] == 0x0A && NoLineFeed(input, at, at + 4)
  {
    var s := input[at..at + 5];
    assert s == RECORDS.zero || s == RECORDS.one;
    assert s[4] == 0x0A && s[0] != 0x0A && s[1] != 0x0A && s[2] != 0x0A && s[3] != 0x0A;
    assert forall k :: at <= k < at + 5 ==> input[k] == s[k - at];
  }

  lemma NothingMidLine(input: seq<byte>, start: nat, end: nat)
    requires start <= end <= |input| && NoLineFeed(input, start, end)
    ensures forall k :: start < k <= end ==> TokenAt(RECORDS, input, k) == None
  {
    hide Found;
    assert forall k :: start < k <= end ==> !LineStart(input, k);
  }

  lemma LineStep(input: seq<byte>, start: nat, end: nat)
    requires start <= end < |input| && LineStart(input, start) && NoLineFeed(input, start, end) && input[end] == 0x0A
    ensures Records(input, end + 1) == Records(input, start) +
            match RecordValue(input, start, end + 1)
            case None => []
            case Some(v) => [Event(SymbolKind, start, 5, v, 1)]
  {
    RecordIsLine(input, start, end);
    NothingMidLine(input, start, end);
    hide TokenAt, RecordValue, NoLineFeed, LineStart;
    var next := start + 1;
    assert Records(input, next) == Records(input, start) +
           match TokenAt(RECORDS, input, start)
           case None => []
           case Some(e) => [e];
    NothingStarts(RECORDS, input, next, end + 1);
  }

  // An unterminated last line holds no record.
  lemma LastLine(input: seq<byte>, start: nat)
    requires start <= |input| && NoLineFeed(input, start, |input|)
    ensures Records(input, |input|) == Records(input, start)
  {
    forall k | start <= k < |input|
      ensures TokenAt(RECORDS, input, k) == None
    {
      if TokenAt(RECORDS, input, k).Some? {
        OneLineFeed(input, k);
      }
    }
    NothingStarts(RECORDS, input, start, |input|);
  }

  method LineEnd(input: seq<byte>, start: nat) returns (end: nat)
    requires start <= |input|
    ensures start <= end <= |input| && NoLineFeed(input, start, end)
    ensures end < |input| ==> input[end] == 0x0A
  {
    end := start;
    while end < |input| && input[end] != 0x0A
      invariant start <= end <= |input| && NoLineFeed(input, start, end)
    {
      end := end + 1;
    }
  }

  // Reports every line that is one of the two spellings, and tallies them.
  method ScanImplicitBidi(input: seq<byte>)
    returns (emitted: seq<Event>, zero: nat, one: nat, first: nat, last: nat)
    ensures emitted == Records(input, |input|)
    ensures Tally(emitted, zero, one, first, last)
  {
    emitted, zero, one, first, last := [], 0, 0, 0, 0;
    var start, haveRecord := 0, false;
    hide Records, RecordValue, NoLineFeed, Tally, CountOf;
    NoRecordsYet(input);
    NothingTallied(emitted);
    while start < |input|
      invariant start <= |input| && LineStart(input, start)
      invariant emitted == Records(input, start) && haveRecord == (zero != 0 || one != 0)
      invariant Tally(emitted, zero, one, first, last)
      decreases |input| - start
    {
      var end := LineEnd(input, start);
      if end == |input| {
        LastLine(input, start);
        break;
      }
      var recordEnd := end + 1;
      LineStep(input, start, end);
      var value := RecordValue(input, start, recordEnd);
      if value.Some? {
        RecordLength(input, start, recordEnd);
        var e := Event(SymbolKind, start, 5, value.value, 1);
        TallyToken(emitted, e, zero, one, first, last);
        if value.value != 0 {
          one := one + 1;
        } else {
          zero := zero + 1;
        }
        if !haveRecord {
          first := start;
          haveRecord := true;
        }
        last := recordEnd;
        emitted := emitted + [e];
      }
      start := recordEnd;
    }
  }

  lemma NoRecordsYet(input: seq<byte>)
    ensures Records(input, 0) == [] && RecordBits(input, 0) == []
  {
  }

  lemma RecordLength(input: seq<byte>, start: nat, end: nat)
    requires start <= end <= |input| && RecordValue(input, start, end).Some?
    ensures end == start + 5 && RecordValue(input, start, end).value <= 1
  {
  }

  // The bits of the records found before offset n.
  function RecordBits(input: seq<byte>, n: nat): seq<bool>
    requires n <= |input|
  {
    Concat(Records(input, n))
  }

  lemma LineBits(input: seq<byte>, start: nat, end: nat)
    requires start <= end < |input| && LineStart(input, start) && NoLineFeed(input, start, end) && input[end] == 0x0A
    ensures RecordBits(input, end + 1) == RecordBits(input, start) +
            match RecordValue(input, start, end + 1)
            case None => []
            case Some(v) => ToBits(v, 1)
  {
    LineStep(input, start, end);
    hide Records, RecordValue, Concat, ToBits, NoLineFeed, LineStart;
    var value := RecordValue(input, start, end + 1);
    if value == None {
      assert Records(input, end + 1) == Records(input, start);
    } else {
      ConcatOne(Records(input, start), Event(SymbolKind, start, 5, value.value, 1));
    }
  }

  // The decoder's own pass over the lines writes the bits of those records.
  method DecodeImplicitBidi(input: seq<byte>, output: Bitstream) returns (status: Status)
    requires output.Valid() && output.Bits() == [] && |input| <= SIZE_MAX
    modifies output, output.bytes, output.bytes.data
    ensures output.Valid() && output.Bits() == Concat(Records(input, |input|))
    ensures status == if Records(input, |input|) == [] then Enotfound else Ok
  {
    hide Records, RecordValue, Concat, ToBits, Unpack, Packed, RecordBits, NoLineFeed;
    NoRecordsYet(input);
    BitsMeanRecords(input);
    var start := 0;
    while start < |input|
      invariant start <= |input| && LineStart(input, start) && output.Valid()
      invariant output.bytes.data == old(output.bytes.data) || fresh(output.bytes.data)
      invariant output.bitLength <= start && output.Bits() == RecordBits(input, start)
      decreases |input| - start
    {
      var end := LineEnd(input, start);
      if end == |input| {
        NoMoreBits(input, start);
        break;
      }
      var recordEnd := end + 1;
      LineBits(input, start, end);
      var value := RecordValue(input, start, recordEnd);
      if value.Some? {
        RecordLength(input, start, recordEnd);
        status := AppendSymbol(output, value.value, start);
      }
      start := recordEnd;
    }
    status := if output.bitLength != 0 then Ok else Enotfound;
  }

  lemma BitsMeanRecords(input: seq<byte>)
    requires |input| <= SIZE_MAX
    ensures RecordBits(input, |input|) == Concat(Records(input, |input|))
    ensures RecordBits(input, |input|) == [] <==> Records(input, |input|) == []
  {
    RecordsAgree(input, []);
  }

  lemma NoMoreBits(input: seq<byte>, start: nat)
    requires start <= |input| && NoLineFeed(input, start, |input|)
    ensures RecordBits(input, |input|) == RecordBits(input, start)
  {
    LastLine(input, start);
  }

  method ImplicitBidiDecode(input: seq<byte>, output: Bitstream) returns (status: Status)
    requires output.Valid() && output.Bits() == [] && |input| <= SIZE_MAX
    modifies output, output.bytes, output.bytes.data
    ensures output.Valid()
    ensures status == if !Utf8.ValidUtf8(input) then Eutf8
                      else if Records(input, |input|) == [] then Enotfound else Ok
    ensures output.Bits() == if status == Eutf8 then [] else Concat(Records(input, |input|))
  {
    hide Utf8.ValidUtf8, Utf8.EncodeAll, Utf8.Contiguous;
    var valid, found, errorOffset := Utf8.Foreach(input);
    if valid != Ok {
      return Eutf8;
    }
    status := DecodeImplicitBidi(input, output);
  }

  // Both passes see the same records: gluing the reports is decoding.
  lemma RecordsAgree(input: seq<byte>, glued: seq<bool>)
    requires |input| <= SIZE_MAX
    ensures var events := Records(input, |input|);
            && (events == [] <==> Concat(events) == [])
            && (events != [] ==> Gluable(events) && (GluesTo(events, glued) <==> glued == Concat(events)))
  {
    RecordsDistinctive();
    ReportsGlueToDecoded(RECORDS, input, glued);
  }
}
