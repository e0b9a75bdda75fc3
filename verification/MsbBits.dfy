/** Bit sequences written most significant bit first. */
module MsbBits {
  import opened JsBits

  /** The n low bits of x, most significant first. */
  function High(x: nat, n: nat): (s: seq<bool>)
    ensures |s| == n
  {
    if n == 0 then [] else High(x / 2, n - 1) + [x % 2 == 1]
  }

  function Number(s: seq<bool>): nat {
    if |s| == 0 then 0 else 2 * Number(s[..|s| - 1]) + (if s[|s| - 1] then 1 else 0)
  }

  lemma {:induction false} NumberOfHigh(x: nat, n: nat)
    requires x < Pow2(n)
    ensures Number(High(x, n)) == x
  {
    if n == 0 {
    } else {
      NumberOfHigh(x / 2, n - 1);
    }
  }

  lemma {:induction false} HighAt(x: nat, n: nat, i: nat)
    requires i < n
    ensures High(x, n)[i] == (Shr(x, n - 1 - i) % 2 == 1)
  {
    if i >= n - 1 {
    } else {
      HighAt(x / 2, n - 1, i);
    }
  }

  /** The bits above and below a cut. */
  lemma {:induction false} HighSplit(x: nat, m: nat, n: nat)
    ensures High(x, m + n) == High(Shr(x, n), m) + High(x, n)
  {
    if n == 0 {
    } else {
      HighSplit(x / 2, m, n - 1);
    }
  }

  /** A number with n bits below another one. */
  lemma {:induction false} HighJoin(a: nat, b: nat, m: nat, n: nat)
    requires b < Pow2(n)
    ensures High(Shl(a, n) + b, m + n) == High(a, m) + High(b, n)
  {
    if n == 0 {
    } else {
      HighJoin(a, b / 2, m, n - 1);
      assert (Shl(a, n) + b) / 2 == Shl(a, n - 1) + b / 2;
    }
  }

  /** The bits above the m-th are out of sight. */
  lemma {:induction false} HighOfLowPart(x: nat, m: nat, n: nat)
    requires n <= m
    ensures High(LowPart(x, m), n) == High(x, n)
  {
    if n == 0 {
    } else {
      HighOfLowPart(x / 2, m - 1, n - 1);
    }
  }

  lemma LowPartOfDouble(y: nat, m: nat)
    requires m > 0
    ensures LowPart(2 * y, m) == 2 * LowPart(y, m - 1)
  {
    assert 2 * y / 2 == y;
  }

  lemma {:induction false} LowPartOfShl(a: nat, k: nat, m: nat)
    requires k <= m
    ensures LowPart(Shl(a, k), m) == Shl(LowPart(a, m - k), k)
  {
    hide LowPart;
    if k == 0 {
    } else {
      LowPartOfShl(a, k - 1, m - 1);
      LowPartOfDouble(Shl(a, k - 1), m);
    }
  }

  // --- Bytes ---

  type Octet = n: nat | n < 256

  /** The bits of the bytes. */
  function OctetBits(s: seq<Octet>): (r: seq<bool>)
    ensures |r| == 8 * |s|
  {
    if |s| == 0 then [] else High(s[0], 8) + OctetBits(s[1..])
  }

  lemma {:induction false} OctetAppend(s: seq<Octet>, n: Octet)
    ensures OctetBits(s + [n]) == OctetBits(s) + High(n, 8)
  {
    hide High;
    if |s| == 0 {
    } else {
      OctetAppend(s[1..], n);
      assert (s + [n])[1..] == s[1..] + [n];
    }
  }

  /** The eight bits of one byte. */
  lemma {:induction false} OctetAt(s: seq<Octet>, i: nat)
    requires i < |s|
    ensures OctetBits(s)[8 * i..8 * i + 8] == High(s[i], 8)
  {
    hide High;
    if i == 0 {
    } else {
      OctetAt(s[1..], i - 1);
      assert OctetBits(s)[8 * i..8 * i + 8] == OctetBits(s[1..])[8 * i - 8..8 * i];
    }
  }
}
