/** `byteArrayOutputStream` and `bitOutputStream`: codes of any width packed into bytes. */
module BitOutputStream {
  import opened JsBits
  import opened LsbBits

  class BitOutputStream {
    var out: seq<nat>
    var bitLength: nat
    var bitBuffer: nat

    ghost predicate Valid()
      reads this
    {
      bitLength < 8 && bitBuffer < Pow2(bitLength)
    }

    /** Every bit written so far, in order. */
    ghost function Written(): seq<bool>
      reads this
    {
      BytesBits(out) + Low(bitBuffer, bitLength)
    }

    constructor ()
      ensures Valid() && Written() == [] && out == []
    {
      out := [];
      bitLength := 0;
      bitBuffer := 0;
    }

    method WriteByte(b: nat)
      modifies this`out
      ensures out == old(out) + [LowPart(b, 8)]
    {
      AndMask(b, 8);
      assert Pow2(8) - 1 == 0xff;
      out := out + [And(0xff, b)];
    }

    /** `write`: refuses ("length over") a number that does not fit, and otherwise appends
        exactly its bits. */
    method Write(data: nat, length: nat) returns (ok: bool)
      requires Valid()
      modifies this
      ensures Valid()
      ensures ok <==> data < Pow2(length)
      ensures ok ==> Written() == old(Written()) + Low(data, length)
      ensures !ok ==> Written() == old(Written())
    {
      hide Shr, Shl, Or, Low, LowPart, BytesBits, Pow2;
      ShrZero(data, length);
      if Shr(data, length) != 0 { return false; }
      var d: nat, l: nat := data, length;
      ghost var all := Written() + Low(data, length);
      while bitLength + l >= 8
        invariant Valid()
        invariant d < Pow2(l)
        invariant Written() + Low(d, l) == all
        decreases bitLength + l
      {
        var n := 8 - bitLength;
        OrDisjoint(d, bitBuffer, bitLength);
        EmitByte(out, bitBuffer, bitLength, d, l);
        WriteByte(Or(Shl(d, bitLength), bitBuffer));
        l := l - n;
        d := Shr(d, n);
        bitBuffer := 0;
        bitLength := 0;
        NothingPending(out);
      }
      OrDisjoint(d, bitBuffer, bitLength);
      KeepBits(out, bitBuffer, bitLength, d, l);
      bitBuffer := Or(Shl(d, bitLength), bitBuffer);
      bitLength := bitLength + l;
      return true;
    }

    /** `flush`: the last, partial byte is filled up with zero bits. */
    method Flush()
      requires Valid()
      modifies this`out
      ensures BytesBits(out) == old(Written()) + NoBits((8 - bitLength) % 8)
    {
      hide Low, LowPart, BytesBits, Pow2;
      if bitLength > 0 {
        LastByte(out, bitBuffer, bitLength);
        WriteByte(bitBuffer);
      } else {
        NoLowBits(bitBuffer);
        assert Written() == BytesBits(out);
        assert NoBits(0) == [];
      }
    }
  }

  lemma NoLowBits(x: nat)
    ensures Low(x, 0) == []
  {
  }

  lemma NothingPending(out: seq<nat>)
    ensures 0 < Pow2(0) && BytesBits(out) + Low(0, 0) == BytesBits(out)
  {
  }

  /** The byte the loop of `write` emits, and what it leaves to write. */
  lemma EmitByte(out: seq<nat>, b: nat, m: nat, d: nat, l: nat)
    requires m < 8 && b < Pow2(m) && m + l >= 8 && d < Pow2(l)
    ensures BytesBits(out + [LowPart(Shl(d, m) + b, 8)]) + Low(Shr(d, 8 - m), l - (8 - m)) ==
            BytesBits(out) + Low(b, m) + Low(d, l)
    ensures Shr(d, 8 - m) < Pow2(l - (8 - m))
  {
    hide Shr, Shl, Low, LowPart, BytesBits, Pow2;
    var n := 8 - m;
    LowJoin(b, d, m, n);
    LowOfLowPart(Shl(d, m) + b, 8);
    BytesBitsAppend(out, LowPart(Shl(d, m) + b, 8));
    LowSplit(d, n, l - n);
    ShrFits(d, n, l);
    var rest := Low(Shr(d, n), l - n);
    assert (BytesBits(out) + (Low(b, m) + Low(d, n))) + rest == BytesBits(out) + Low(b, m) + (Low(d, n) + rest);
  }

  /** The bits `write` keeps back when no byte is full. */
  lemma KeepBits(out: seq<nat>, b: nat, m: nat, d: nat, l: nat)
    requires b < Pow2(m) && d < Pow2(l)
    ensures BytesBits(out) + Low(Shl(d, m) + b, m + l) == BytesBits(out) + Low(b, m) + Low(d, l)
    ensures Shl(d, m) + b < Pow2(m + l)
  {
    hide Shr, Shl, Low, BytesBits, Pow2;
    LowJoin(b, d, m, l);
    JoinFits(d, l, b, m);
  }

  lemma LastByte(out: seq<nat>, b: nat, m: nat)
    requires 0 < m < 8 && b < Pow2(m)
    ensures BytesBits(out + [LowPart(b, 8)]) == BytesBits(out) + Low(b, m) + NoBits((8 - m) % 8)
  {
    hide Shl, Low, LowPart, BytesBits, Pow2, NoBits;
    LowJoin(b, 0, m, 8 - m);
    LowZero(8 - m);
    ShlZero(m);
    LowOfLowPart(b, 8);
    BytesBitsAppend(out, LowPart(b, 8));
  }

  lemma {:induction false} ShlZero(n: nat)
    ensures Shl(0, n) == 0
  {
    if n == 0 {
    } else {
      ShlZero(n - 1);
    }
  }

  lemma {:induction false} ShrFits(d: nat, n: nat, l: nat)
    requires d < Pow2(l) && n <= l
    ensures Shr(d, n) < Pow2(l - n)
  {
    if n == 0 {
    } else {
      ShrFits(d / 2, n - 1, l - 1);
    }
  }

  lemma {:induction false} JoinFits(d: nat, l: nat, b: nat, m: nat)
    requires d < Pow2(l) && b < Pow2(m)
    ensures Shl(d, m) + b < Pow2(m + l)
  {
    if m == 0 {
    } else {
      JoinFits(d, l, b / 2, m - 1);
    }
  }
}
