/** Bytes.  JavaScript's numbers below 256 are represented by their eight bits, so that the
    bitwise operators the source applies to code words act bit by bit. */
module Bytes {

  /** The byte with the value 128*b7 + 64*b6 + ... + b0. */
  datatype Byte = Byte(b7: bool, b6: bool, b5: bool, b4: bool,
                       b3: bool, b2: bool, b1: bool, b0: bool)

  const ZERO := Byte(false, false, false, false, false, false, false, false)
  const ONE := Byte(false, false, false, false, false, false, false, true)

  function Weight(bit: bool, w: nat): nat {
    if bit then w else 0
  }

  function Value(b: Byte): (n: nat)
    ensures n < 256
  {
    16 * Nibble(b.b7, b.b6, b.b5, b.b4) + Nibble(b.b3, b.b2, b.b1, b.b0)
  }

  function Nibble(b3: bool, b2: bool, b1: bool, b0: bool): (n: nat)
    ensures n < 16
  {
    Weight(b3, 8) + Weight(b2, 4) + Weight(b1, 2) + Weight(b0, 1)
  }

  lemma ValueInjective(a: Byte, b: Byte)
    requires Value(a) == Value(b)
    ensures a == b
  {
    hide Nibble;
    NibbleInjective(a.b7, a.b6, a.b5, a.b4, b.b7, b.b6, b.b5, b.b4);
    NibbleInjective(a.b3, a.b2, a.b1, a.b0, b.b3, b.b2, b.b1, b.b0);
  }

  lemma ValueZero(b: Byte)
    ensures Value(b) == 0 <==> b == ZERO
  {
    assert Value(ZERO) == 0;
    if Value(b) == 0 { ValueInjective(b, ZERO); }
  }

  lemma NibbleInjective(a3: bool, a2: bool, a1: bool, a0: bool, b3: bool, b2: bool, b1: bool, b0: bool)
    ensures Nibble(a3, a2, a1, a0) == Nibble(b3, b2, b1, b0) <==> a3 == b3 && a2 == b2 && a1 == b1 && a0 == b0
  {
  }

  /** Exclusive or, JavaScript's `^`. */
  function Xor(a: Byte, b: Byte): Byte {
    Byte(a.b7 != b.b7, a.b6 != b.b6, a.b5 != b.b5, a.b4 != b.b4,
         a.b3 != b.b3, a.b2 != b.b2, a.b1 != b.b1, a.b0 != b.b0)
  }

  /** Bit j, counted from the most significant one. */
  predicate BitAt(b: Byte, j: nat)
    requires j < 8
  {
    if j == 0 then b.b7 else if j == 1 then b.b6 else if j == 2 then b.b5 else if j == 3 then b.b4
    else if j == 4 then b.b3 else if j == 5 then b.b2 else if j == 6 then b.b1 else b.b0
  }

  /** The bits, most significant first. */
  function Bits(b: Byte): (s: seq<bool>)
    ensures |s| == 8 && forall j :: 0 <= j < 8 ==> s[j] == BitAt(b, j)
  {
    [b.b7, b.b6, b.b5, b.b4, b.b3, b.b2, b.b1, b.b0]
  }

  function FromBits(s: seq<bool>): Byte
    requires |s| == 8
  {
    Byte(s[0], s[1], s[2], s[3], s[4], s[5], s[6], s[7])
  }
}
