/** `qrBitBuffer`: a byte array that grows bit by bit, most significant bit first. */
module QrBitBuffer {
  import opened Bytes
  import opened JsBits
  import opened MsbBits

  /** The bits of a byte sequence. */
  function AllBits(bytes: seq<Byte>): (s: seq<bool>)
    ensures |s| == 8 * |bytes|
  {
    if |bytes| == 0 then [] else AllBits(bytes[..|bytes| - 1]) + Bits(bytes[|bytes| - 1])
  }

  /** The bits of a byte are those of its value. */
  lemma ByteNumber(b: Byte)
    ensures Number(Bits(b)) == Value(b)
  {
    hide Number;
    var s := Bits(b);
    NumberNone();
    NumberNext(s, 7);
    NumberNext(s, 6);
    NumberNext(s, 5);
    NumberNext(s, 4);
    NumberNext(s, 3);
    NumberNext(s, 2);
    NumberNext(s, 1);
    NumberNext(s, 0);
    assert s[..8] == s && s[..0] == [];
  }

  lemma NumberNone()
    ensures Number([]) == 0
  {
  }

  lemma NumberNext(s: seq<bool>, n: nat)
    requires n < |s|
    ensures Number(s[..n + 1]) == 2 * Number(s[..n]) + (if s[n] then 1 else 0)
  {
    assert s[..n + 1][..n] == s[..n];
  }

  lemma AllBitsAppend(bytes: seq<Byte>, b: Byte)
    ensures AllBits(bytes + [b]) == AllBits(bytes) + Bits(b)
  {
    assert (bytes + [b])[..|bytes|] == bytes;
  }

  /** The byte 0x80 >>> i. */
  function Mask(i: nat): Byte {
    Byte(i == 0, i == 1, i == 2, i == 3, i == 4, i == 5, i == 6, i == 7)
  }

  /** `a | b` on bytes. */
  function OrByte(a: Byte, b: Byte): Byte {
    Byte(a.b7 || b.b7, a.b6 || b.b6, a.b5 || b.b5, a.b4 || b.b4,
         a.b3 || b.b3, a.b2 || b.b2, a.b1 || b.b1, a.b0 || b.b0)
  }

  lemma OrMaskAt(b: Byte, i: nat, j: nat)
    requires i < 8 && j < 8
    ensures Bits(OrByte(b, Mask(i)))[j] == (Bits(b)[j] || i == j)
  {
    hide Bits;
  }

  lemma ZeroBits(j: nat)
    requires j < 8
    ensures !Bits(ZERO)[j]
  {
    hide Bits;
  }

  /** A bit buffer: just enough bytes, and nothing set beyond the length. */
  ghost predicate Fits(buffer: seq<Byte>, length: nat) {
    && length <= 8 * |buffer| < length + 8
    && forall i :: length <= i < 8 * |buffer| ==> !AllBits(buffer)[i]
  }

  /** A byte more when the last one is full. */
  lemma PushByte(buffer: seq<Byte>)
    requires Fits(buffer, 8 * |buffer|)
    ensures |AllBits(buffer + [ZERO])| == 8 * |buffer| + 8
    ensures AllBits(buffer + [ZERO])[..8 * |buffer|] == AllBits(buffer)
    ensures forall i :: 8 * |buffer| <= i < 8 * |buffer| + 8 ==> !AllBits(buffer + [ZERO])[i]
  {
    hide Bits, AllBits;
    AllBitsAppend(buffer, ZERO);
    forall i | 8 * |buffer| <= i < 8 * |buffer| + 8 ensures !AllBits(buffer + [ZERO])[i] {
      ZeroBits(i - 8 * |buffer|);
    }
  }

  /** Setting bit i of the last byte. */
  lemma SetLast(buffer: seq<Byte>, i: nat, j: nat)
    requires |buffer| > 0 && i < 8 && j < 8 * |buffer|
    ensures var k := |buffer| - 1;
            AllBits(buffer[k := OrByte(buffer[k], Mask(i))])[j] == (AllBits(buffer)[j] || j == 8 * k + i)
  {
    hide Bits, AllBits, OrByte, Mask;
    var k := |buffer| - 1;
    var front, last := buffer[..k], buffer[k];
    assert buffer == front + [last];
    assert buffer[k := OrByte(last, Mask(i))] == front + [OrByte(last, Mask(i))];
    AllBitsAppend(front, last);
    AllBitsAppend(front, OrByte(last, Mask(i)));
    if j >= 8 * k { OrMaskAt(last, i, j - 8 * k); }
  }

  class QrBitBuffer {
    var buffer: seq<Byte>
    var length: nat

    ghost predicate Valid()
      reads this
    {
      Fits(buffer, length)
    }

    /** The bits put so far. */
    ghost function Contents(): (s: seq<bool>)
      reads this
      requires Valid()
      ensures |s| == length
    {
      AllBits(buffer)[..length]
    }

    constructor ()
      ensures Valid() && Contents() == []
    {
      buffer := [];
      length := 0;
    }

    method PutBit(bit: bool)
      requires Valid()
      modifies this
      ensures Valid() && Contents() == old(Contents()) + [bit]
    {
      hide Bits, AllBits, OrByte, Mask;
      ghost var before := Contents();
      var bufIndex := length / 8;
      if |buffer| <= bufIndex {
        PushByte(buffer);
        buffer := buffer + [ZERO];
      }
      assert bufIndex == |buffer| - 1 && length == 8 * bufIndex + length % 8;
      assert AllBits(buffer)[..length] == before;
      assert forall j :: length <= j < 8 * |buffer| ==> !AllBits(buffer)[j];
      ghost var bits := AllBits(buffer);
      if bit {
        forall j | 0 <= j < 8 * |buffer|
          ensures AllBits(buffer[bufIndex := OrByte(buffer[bufIndex], Mask(length % 8))])[j] ==
                  (bits[j] || j == length)
        {
          SetLast(buffer, length % 8, j);
        }
        buffer := buffer[bufIndex := OrByte(buffer[bufIndex], Mask(length % 8))];
      }
      assert forall j :: 0 <= j < 8 * |buffer| ==> AllBits(buffer)[j] == (bits[j] || (bit && j == length));
      assert AllBits(buffer)[..length + 1] == before + [bit];
      length := length + 1;
    }

    /** Appends the big-endian bits of num. */
    method Put(num: nat, len: nat)
      requires Valid()
      modifies this
      ensures Valid() && Contents() == old(Contents()) + High(num, len)
    {
      hide AllBits, High;
      for i := 0 to len
        invariant Valid() && Contents() == old(Contents()) + High(num, len)[..i]
      {
        HighAt(num, len, i);
        PutBit(Shr(num, len - i - 1) % 2 == 1);
      }
    }
  }
}
