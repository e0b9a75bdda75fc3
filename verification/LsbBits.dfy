/** Bit sequences written least significant bit first, as a GIF packs its codes. */
module LsbBits {
  import opened JsBits

  /** The n low bits of x. */
  function Low(x: nat, n: nat): (s: seq<bool>)
    ensures |s| == n
  {
    if n == 0 then [] else [x % 2 == 1] + Low(x / 2, n - 1)
  }

  function Number(s: seq<bool>): nat {
    if |s| == 0 then 0 else (if s[0] then 1 else 0) + 2 * Number(s[1..])
  }

  lemma {:induction false} NumberOfLow(x: nat, n: nat)
    requires x < Pow2(n)
    ensures Number(Low(x, n)) == x
  {
    if n == 0 {
    } else {
      NumberOfLow(x / 2, n - 1);
    }
  }

  /** The low bits split anywhere. */
  lemma {:induction false} LowSplit(x: nat, m: nat, n: nat)
    ensures Low(x, m + n) == Low(x, m) + Low(Shr(x, m), n)
  {
    if m == 0 {
    } else {
      LowSplit(x / 2, m - 1, n);
    }
  }

  /** A number of m bits with another one above it. */
  lemma {:induction false} LowJoin(a: nat, b: nat, m: nat, n: nat)
    requires a < Pow2(m)
    ensures Low(Shl(b, m) + a, m + n) == Low(a, m) + Low(b, n)
  {
    if m == 0 {
    } else {
      LowJoin(a / 2, b, m - 1, n);
      assert (Shl(b, m) + a) / 2 == Shl(b, m - 1) + a / 2;
    }
  }

  lemma {:induction false} LowOfLowPart(x: nat, m: nat)
    ensures Low(LowPart(x, m), m) == Low(x, m)
  {
    if m == 0 {
    } else {
      LowOfLowPart(x / 2, m - 1);
    }
  }

  lemma {:induction false} LowZero(n: nat)
    ensures Low(0, n) == NoBits(n)
  {
    if n == 0 {
    } else {
      LowZero(n - 1);
      assert NoBits(n) == [false] + NoBits(n - 1);
    }
  }

  /** The bits of a byte sequence. */
  function BytesBits(bytes: seq<nat>): (s: seq<bool>)
    ensures |s| == 8 * |bytes|
  {
    if |bytes| == 0 then [] else BytesBits(bytes[..|bytes| - 1]) + Low(bytes[|bytes| - 1], 8)
  }

  lemma BytesBitsAppend(bytes: seq<nat>, b: nat)
    ensures BytesBits(bytes + [b]) == BytesBits(bytes) + Low(b, 8)
  {
    assert (bytes + [b])[..|bytes|] == bytes;
  }
}
