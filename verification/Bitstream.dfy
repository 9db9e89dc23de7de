/** The growable byte buffer and the packed bitstream built on it. */
module Bitstream {
  import opened Bits

  datatype Status = Ok | Einval | Enomem | Eutf8 | Enotfound | Eunsupported

  class Buffer {
    var data: array<byte>  // its length is the source's `capacity`
    var len: nat

    ghost predicate Valid()
      reads this
    {
      len <= data.Length <= SIZE_MAX
    }

    ghost function Contents(): (s: seq<byte>)
      requires Valid()
      reads this, data
      ensures |s| == len
    {
      data[..len]
    }

    constructor ()
      ensures Valid() && fresh(data) && Contents() == []
    {
      data := new byte[0];
      len := 0;
    }

    // Capacity doubles until it suffices, or becomes exactly what is needed
    // where doubling would pass SIZE_MAX.
    method Append(src: seq<byte>) returns (status: Status)
      requires Valid()
      modifies this, data
      ensures Valid() && (data == old(data) || fresh(data))
      ensures status == if |src| > SIZE_MAX - old(len) then Enomem else Ok
      ensures Contents() == if status == Ok then old(Contents()) + src else old(Contents())
    {
      if |src| > SIZE_MAX - len {
        return Enomem;
      }
      ghost var before := Contents();
      var needed := len + |src|;
      if needed > data.Length {
        var capacity := if data.Length != 0 then data.Length else 64;
        while capacity < needed
          invariant 1 <= capacity <= SIZE_MAX
          decreases needed - capacity
        {
          if capacity > SIZE_MAX / 2 {
            capacity := needed;
            break;
          }
          capacity := 2 * capacity;
        }
        var next := new byte[capacity](_ => 0);
        forall i | 0 <= i < len {
          next[i] := data[i];
        }
        data := next;
      }
      assert data[..len] == before;
      forall i | 0 <= i < |src| {
        data[len + i] := src[i];
      }
      assert data[..needed] == before + src;
      len := needed;
      return Ok;
    }

    method Push(b: byte) returns (status: Status)
      requires Valid()
      modifies this, data
      ensures Valid() && (data == old(data) || fresh(data))
      ensures status == if old(len) == SIZE_MAX then Enomem else Ok
      ensures Contents() == if status == Ok then old(Contents()) + [b] else old(Contents())
    {
      status := Append([b]);
    }
  }

  // The first n bits of a byte string.
  function Unpack(bytes: seq<byte>, n: nat): (s: seq<bool>)
    requires n <= 8 * |bytes|
    ensures |s| == n
  {
    BytesBits(bytes)[..n]
  }

  // The documented storage invariant: ceil(n / 8) bytes, unused low bits zero.
  ghost predicate Packed(bytes: seq<byte>, n: nat) {
    && |bytes| == (n + 7) / 8
    && Clear(BytesBits(bytes), n)
  }

  // The mask test on the final byte is exactly "unused low bits are zero".
  lemma MaskTestIsPacked(bytes: seq<byte>, n: nat)
    requires |bytes| == (n + 7) / 8
    ensures Packed(bytes, n) <==> n % 8 == 0 || Low(bytes[|bytes| - 1], 8 - n % 8) == 0
  {
    hide BytesBits, ToBits, Low, Clear;
    if n % 8 != 0 {
      var m := |bytes| - 1;
      BytesBitsLast(bytes, bytes[m]);
      assert bytes[m := bytes[m]] == bytes;
      LowZeroBits(bytes[m], 8, 8 - n % 8);
      ClearTail(BytesBits(bytes[..m]), ToBits(bytes[m], 8), n % 8);
      assert 8 * m + n % 8 == n;
    } else {
      ClearNothing(BytesBits(bytes), n);
    }
  }

  lemma ClearTail(front: seq<bool>, last: seq<bool>, k: nat)
    ensures Clear(front + last, |front| + k) <==> Clear(last, k)
  {
    var all := front + last;
    assert forall i :: |front| <= i < |all| ==> all[i] == last[i - |front|];
    assert forall j :: 0 <= j < |last| ==> last[j] == all[|front| + j];
  }

  lemma ClearNothing(s: seq<bool>, n: nat)
    requires |s| <= n
    ensures Clear(s, n)
  {
  }

  // Two packed byte strings of one bit length hold the same bits only if equal.
  lemma PackedUnique(a: seq<byte>, b: seq<byte>, n: nat)
    requires Packed(a, n) && Packed(b, n)
    requires Unpack(a, n) == Unpack(b, n)
    ensures a == b
  {
    var x, y := BytesBits(a), BytesBits(b);
    forall i | 0 <= i < |x|
      ensures x[i] == y[i]
    {
      if i < n {
        assert x[i] == x[..n][i] && y[i] == y[..n][i];
      }
    }
    BytesBitsInjective(a, b);
  }

  // The bytes hold `bits` and then room for at least one bit more, still clear.
  ghost predicate Roomy(bytes: seq<byte>, bits: seq<bool>) {
    && |bytes| == |bits| / 8 + 1
    && Clear(BytesBits(bytes), |bits|) && BytesBits(bytes)[..|bits|] == bits
  }

  lemma PackedRoom(bytes: seq<byte>, n: nat)
    requires Packed(bytes, n) && n % 8 != 0
    ensures Roomy(bytes, Unpack(bytes, n))
  {
    hide BytesBits;
  }

  lemma PushRoom(bytes: seq<byte>, n: nat)
    requires Packed(bytes, n) && n % 8 == 0
    ensures Roomy(bytes + [0], Unpack(bytes, n))
  {
    hide BytesBits, ToBits;
    var next: seq<byte> := bytes + [0];
    ToBitsZero(8);
    BytesBitsLast(next, 0);
    assert next[|bytes| := 0] == next && next[..|bytes|] == bytes;
    assert BytesBits(next)[..n] == BytesBits(bytes) == BytesBits(bytes)[..n];
    ClearTail(BytesBits(bytes), ToBits(0, 8), 0);
  }

  // Setting the first clear bit appends it and keeps the padding clear.
  lemma SetBitEffect(bytes: seq<byte>, bits: seq<bool>, bit: bool)
    requires Roomy(bytes, bits)
    ensures var n, m := |bits|, |bytes| - 1;
            var b := bytes[m] + (if bit then Pow2(7 - n % 8) else 0);
            b < 256 && Packed(bytes[m := b], n + 1) && Unpack(bytes[m := b], n + 1) == bits + [bit]
  {
    hide BytesBits, ToBits, Pow2;
    var n, m := |bits|, |bytes| - 1;
    var k := n % 8;
    var x, last := BytesBits(bytes), ToBits(bytes[m], 8);
    var head := BytesBits(bytes[..m]);
    BytesBitsLast(bytes, bytes[m]);
    assert bytes[m := bytes[m]] == bytes;
    assert x == head + last && n == |head| + k;
    assert last[k] == x[n];
    SetClearBit(bytes[m], 8, k);
    Pow2Eight();
    var b := bytes[m] + (if bit then Pow2(7 - k) else 0);
    assert ToBits(b, 8) == last[k := bit];
    BytesBitsLast(bytes, b);
    assert head + last[k := bit] == x[n := bit];
    assert x[n := bit][..n + 1] == x[..n] + [bit];
  }

  // Bits packed most significant bit first.
  class Bitstream {
    const bytes: Buffer
    var bitLength: nat

    // What any caller's struct satisfies: its fields are of type size_t.
    ghost predicate Readable()
      reads this, bytes
    {
      bytes.data.Length <= SIZE_MAX && bitLength <= SIZE_MAX
    }

    ghost predicate Valid()
      reads this, bytes, bytes.data
    {
      Readable() && bytes.Valid() && Packed(bytes.Contents(), bitLength)
    }

    ghost function Bits(): (s: seq<bool>)
      requires Valid()
      reads this, bytes, bytes.data
      ensures |s| == bitLength
    {
      Unpack(bytes.Contents(), bitLength)
    }

    constructor ()
      ensures Valid() && Bits() == [] && fresh(bytes) && fresh(bytes.data)
    {
      bytes := new Buffer();
      bitLength := 0;
    }

    function Bit(i: nat): (b: bool)
      requires Valid() && i < bitLength
      reads this, bytes, bytes.data
      ensures b == Bits()[i]
    {
      BytesBitsAt(bytes.Contents(), i);
      ByteBit(bytes.data[i / 8], i % 8)
    }

    // The public entry points' own check of a caller-supplied stream.
    method CheckValid() returns (ok: bool)
      requires Readable()
      ensures ok <==> Valid() && bitLength <= SIZE_MAX - 7
    {
      if bitLength > SIZE_MAX - 7 {
        return false;
      }
      var required := (bitLength + 7) / 8;
      if bytes.len != required || bytes.len > bytes.data.Length {
        return false;
      }
      MaskTestIsPacked(bytes.Contents(), bitLength);
      if bitLength % 8 != 0 {
        var unused := 8 - bitLength % 8;
        if Low(bytes.data[required - 1], unused) != 0 {
          return false;
        }
      }
      return true;
    }

    method Clear()
      requires Readable()
      modifies this, bytes
      ensures Valid() && Bits() == [] && bytes.data == old(bytes.data)
    {
      bytes.len := 0;
      bitLength := 0;
    }

    // Dropping to a whole number of bytes keeps the stream packed.
    method Truncate(n: nat)
      requires Valid() && n <= bitLength && n % 8 == 0
      modifies this, bytes
      ensures Valid() && Bits() == old(Bits())[..n] && bytes.data == old(bytes.data)
    {
      ghost var before := bytes.Contents();
      bitLength := n;
      bytes.len := (n + 7) / 8;
      BytesBitsConcat(before[..n / 8], before[n / 8..]);
      assert before == before[..n / 8] + before[n / 8..];
      assert bytes.Contents() == before[..n / 8];
    }

    // A byte of clear bits is pushed where the last one is full.
    method MakeRoom() returns (status: Status)
      requires Valid() && bitLength < SIZE_MAX
      modifies bytes, bytes.data
      ensures bytes.Valid() && (bytes.data == old(bytes.data) || fresh(bytes.data))
      ensures status == Ok && Roomy(bytes.Contents(), old(Bits()))
    {
      status := Ok;
      ghost var before := bytes.Contents();
      if bitLength % 8 == 0 {
        PushRoom(before, bitLength);
        status := bytes.Push(0);
      } else {
        PackedRoom(before, bitLength);
      }
    }

    method AppendBit(bit: bool) returns (status: Status)
      requires Valid() && bitLength < SIZE_MAX
      modifies this, bytes, bytes.data
      ensures Valid() && (bytes.data == old(bytes.data) || fresh(bytes.data))
      ensures status == Ok && Bits() == old(Bits()) + [bit]
    {
      hide BytesBits, Pow2, Packed, Unpack;
      ghost var before := Bits();
      status := MakeRoom();
      ghost var room := bytes.Contents();
      SetBitEffect(room, before, bit);
      hide Roomy;
      var byteIndex, bitIndex := bitLength / 8, bitLength % 8;
      if bit {
        bytes.data[byteIndex] := bytes.data[byteIndex] + Pow2(7 - bitIndex);
      }
      assert bytes.Contents() == room[byteIndex := bytes.data[byteIndex]];
      bitLength := bitLength + 1;
    }

    method AppendBits(value: byte, count: nat, lsbFirst: bool) returns (status: Status)
      requires Valid()
      modifies this, bytes, bytes.data
      ensures Valid() && (bytes.data == old(bytes.data) || fresh(bytes.data))
      ensures status == if count == 0 || count > 8 || old(bitLength) > SIZE_MAX - count then Einval else Ok
      ensures Bits() == if status == Ok then old(Bits()) + SymbolBits(value, count, lsbFirst) else old(Bits())
    {
      if count == 0 || count > 8 || bitLength > SIZE_MAX - count {
        return Einval;
      }
      ghost var before, added := Bits(), SymbolBits(value, count, lsbFirst);
      hide Packed, Unpack, SymbolBits, Shr;
      status := Ok;
      var j := 0;
      while j < count
        invariant j <= count && Valid() && (bytes.data == old(bytes.data) || fresh(bytes.data))
        invariant bitLength == |before| + j
        invariant status == Ok
        invariant Bits() == before + added[..j]
      {
        var shift := if lsbFirst then j else count - 1 - j;
        var bit := Shr(value, shift) % 2 == 1;
        BitAdded(value, count, lsbFirst, j, before);
        status := AppendBit(bit);
        j := j + 1;
      }
    }
  }

  // The bits one symbol contributes, in the declared order.
  function SymbolBits(value: nat, count: nat, lsbFirst: bool): (s: seq<bool>)
    ensures |s| == count
  {
    if lsbFirst then seq(count, j requires 0 <= j < count => ToBits(value, count)[count - 1 - j])
    else ToBits(value, count)
  }

  // Bit j of a value goes after the j before it.
  lemma BitAdded(value: nat, width: nat, lsbFirst: bool, j: nat, before: seq<bool>)
    requires j < width
    ensures var added := SymbolBits(value, width, lsbFirst);
            var bit := Shr(value, if lsbFirst then j else width - 1 - j) % 2 == 1;
            before + added[..j + 1] == before + added[..j] + [bit] && before + added[..j] <= before + added
  {
    hide SymbolBits, Shr;
    SymbolBitAt(value, width, lsbFirst, j);
    TakeNext(before, SymbolBits(value, width, lsbFirst), j);
  }

  lemma SymbolBitAt(value: nat, width: nat, lsbFirst: bool, j: nat)
    requires j < width
    ensures SymbolBits(value, width, lsbFirst)[j] ==
            (Shr(value, if lsbFirst then j else width - 1 - j) % 2 == 1)
  {
    hide ToBits, Shr;
    ToBitsAt(value, width, if lsbFirst then width - 1 - j else j);
  }

  lemma TakeNext(before: seq<bool>, added: seq<bool>, j: nat)
    requires j < |added|
    ensures before + added[..j + 1] == before + added[..j] + [added[j]]
    ensures before + added[..j] <= before + added
  {
    assert before + added == before + added[..j] + added[j..];
  }
}
