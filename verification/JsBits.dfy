/** JavaScript's bitwise operators on non-negative numbers, bit by bit, and the arithmetic
    they amount to when their operands do not overlap.  Everything recurs on the bits, so that
    no proof needs more than halving and doubling. */
module JsBits {

  function Pow2(n: nat): (p: nat)
    ensures p > 0
  {
    if n == 0 then 1 else 2 * Pow2(n - 1)
  }

  /** `a << n`, without the 32-bit limit. */
  function Shl(a: nat, n: nat): nat {
    if n == 0 then a else 2 * Shl(a, n - 1)
  }

  /** `a >>> n` */
  function Shr(a: nat, n: nat): nat {
    if n == 0 then a else Shr(a / 2, n - 1)
  }

  /** `(a >> i) & 1` */
  predicate Bit(a: nat, i: nat) {
    Shr(a, i) % 2 == 1
  }

  /** `a | b` */
  function Or(a: nat, b: nat): nat {
    if a == 0 then b else if b == 0 then a
    else 2 * Or(a / 2, b / 2) + (if a % 2 == 1 || b % 2 == 1 then 1 else 0)
  }

  /** `a & b` */
  function And(a: nat, b: nat): nat {
    if a == 0 || b == 0 then 0
    else 2 * And(a / 2, b / 2) + (if a % 2 == 1 && b % 2 == 1 then 1 else 0)
  }

  /** `a ^ b` */
  function Xor(a: nat, b: nat): nat {
    if a == 0 then b else if b == 0 then a
    else 2 * Xor(a / 2, b / 2) + (if a % 2 != b % 2 then 1 else 0)
  }

  /** The number formed by the n low bits: a modulo 2^n. */
  function LowPart(a: nat, n: nat): (r: nat)
    ensures r < Pow2(n)
  {
    if n == 0 then 0 else 2 * LowPart(a / 2, n - 1) + a % 2
  }

  /** n zero bits. */
  function NoBits(n: nat): (s: seq<bool>)
    ensures |s| == n
  {
    seq(n, _ => false)
  }

  lemma {:induction false} Pow2Monotone(m: nat, n: nat)
    requires m <= n
    ensures Pow2(m) <= Pow2(n)
  {
    if m >= n {
    } else {
      Pow2Monotone(m, n - 1);
    }
  }

  /** `(a << k) | b` joins a and b when b fits below the shift. */
  lemma {:induction false} OrDisjoint(a: nat, b: nat, k: nat)
    requires b < Pow2(k)
    ensures Or(Shl(a, k), b) == Shl(a, k) + b
  {
    if k == 0 {
    } else {
      OrDisjoint(a, b / 2, k - 1);
    }
  }

  /** `x & (2^k - 1)` keeps the k low bits. */
  lemma {:induction false} AndMask(x: nat, k: nat)
    ensures And(Pow2(k) - 1, x) == LowPart(x, k)
  {
    if k == 0 {
    } else {
      AndMask(x / 2, k - 1);
      var m := Pow2(k) - 1;
      assert m % 2 == 1 && m / 2 == Pow2(k - 1) - 1;
      if x == 0 { LowPartZero(k); }
    }
  }

  lemma {:induction false} LowPartZero(k: nat)
    ensures LowPart(0, k) == 0
  {
    if k == 0 {
    } else {
      LowPartZero(k - 1);
    }
  }

  /** `a >>> n` vanishes exactly when a fits into n bits. */
  lemma {:induction false} ShrZero(a: nat, n: nat)
    ensures Shr(a, n) == 0 <==> a < Pow2(n)
  {
    if n == 0 {
    } else {
      ShrZero(a / 2, n - 1);
    }
  }

  lemma {:induction false} LowPartFits(a: nat, n: nat)
    requires a < Pow2(n)
    ensures LowPart(a, n) == a
  {
    if n == 0 {
    } else {
      LowPartFits(a / 2, n - 1);
    }
  }
}
