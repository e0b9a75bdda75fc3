/** `getBCHTypeInfo` and `getBCHTypeNumber`: format and version words as multiples of a
    generator polynomial over GF(2) (sections 7.9 and 7.10 of ISO/IEC 18004:2015).  Numbers are
    read as polynomials, bit i being the coefficient of x^i. */
module Bch {
  import opened JsBits

  const G15 := 0x537   // x^10 + x^8 + x^5 + x^4 + x^2 + x + 1
  const G18 := 0x1F25  // x^12 + x^11 + x^10 + x^9 + x^8 + x^5 + x^2 + 1
  const G15_MASK := 0x5412

  // --- Exclusive or ---

  lemma {:induction false} XorZero(a: nat)
    ensures Xor(a, 0) == a && Xor(0, a) == a
  {
  }

  lemma {:induction false} XorCommutes(a: nat, b: nat)
    ensures Xor(a, b) == Xor(b, a)
  {
    if a == 0 || b == 0 {
    } else {
      XorCommutes(a / 2, b / 2);
    }
  }

  /** Exclusive or works on the halves and the last bits. */
  lemma XorHalves(a: nat, b: nat)
    ensures Xor(a, b) / 2 == Xor(a / 2, b / 2)
    ensures Xor(a, b) % 2 == (if a % 2 != b % 2 then 1 else 0)
  {
  }

  lemma {:induction false} XorAssociates(a: nat, b: nat, c: nat)
    ensures Xor(Xor(a, b), c) == Xor(a, Xor(b, c))
    decreases a + b + c
  {
    if a == 0 || b == 0 || c == 0 {
    } else {
      XorAssociates(a / 2, b / 2, c / 2);
      XorHalves(a, b);
      XorHalves(b, c);
      XorHalves(Xor(a, b), c);
      XorHalves(a, Xor(b, c));
      SameHalves(Xor(Xor(a, b), c), Xor(a, Xor(b, c)));
    }
  }

  lemma SameHalves(a: nat, b: nat)
    requires a / 2 == b / 2 && a % 2 == b % 2
    ensures a == b
  {
  }

  lemma {:induction false} XorSelf(a: nat)
    ensures Xor(a, a) == 0
  {
    if a == 0 {
    } else {
      XorSelf(a / 2);
    }
  }

  lemma XorTwice(a: nat, b: nat)
    ensures Xor(Xor(a, b), b) == a
  {
    hide Xor;
    XorAssociates(a, b, b);
    XorSelf(b);
    XorZero(a);
  }

  // --- Degrees ---

  /** `getBCHDigit`: the number of binary digits, one more than the degree. */
  function Digits(d: nat): nat {
    if d == 0 then 0 else 1 + Digits(d / 2)
  }

  lemma ShrOne(d: nat)
    ensures Shr(d, 1) == d / 2
  {
    assert Shr(d / 2, 0) == d / 2;
  }

  method GetBCHDigit(data: nat) returns (digit: nat)
    ensures digit == Digits(data)
  {
    hide Shr;
    digit := 0;
    var d := data;
    while d != 0
      invariant digit + Digits(d) == Digits(data)
      decreases d
    {
      ShrOne(d);
      digit := digit + 1;
      d := Shr(d, 1);
    }
  }

  lemma {:induction false} DigitsBound(d: nat, n: nat)
    ensures Digits(d) <= n <==> d < Pow2(n)
  {
    if n == 0 || d == 0 {
    } else {
      DigitsBound(d / 2, n - 1);
    }
  }

  lemma {:induction false} DigitsOfShl(a: nat, k: nat)
    requires a > 0
    ensures Shl(a, k) > 0 && Digits(Shl(a, k)) == Digits(a) + k
  {
    if k == 0 {
    } else {
      DigitsOfShl(a, k - 1);
    }
  }

  /** Leading terms cancel. */
  lemma {:induction false} DigitsOfXor(a: nat, b: nat)
    requires a > 0 && Digits(a) == Digits(b)
    ensures Digits(Xor(a, b)) < Digits(a)
  {
    XorHalves(a, b);
    if a <= 1 {
    } else {
      assert b > 1;
      DigitsOfXor(a / 2, b / 2);
    }
  }

  // --- Products over GF(2) ---

  function Clmul(q: nat, g: nat): nat {
    if q == 0 then 0 else Xor(2 * Clmul(q / 2, g), if q % 2 == 1 then g else 0)
  }

  lemma XorDouble(a: nat, b: nat)
    ensures Xor(2 * a, 2 * b) == 2 * Xor(a, b)
  {
  }

  lemma {:induction false} ClmulXor(a: nat, b: nat, g: nat)
    ensures Clmul(Xor(a, b), g) == Xor(Clmul(a, g), Clmul(b, g))
    decreases a + b
  {
    hide Xor;
    if a == 0 {
      XorZero(b);
      XorZero(Clmul(b, g));
    } else if b == 0 {
      XorZero(a);
      XorZero(Clmul(a, g));
    } else {
      ClmulXor(a / 2, b / 2, g);
      XorHalves(a, b);
      ClmulHalf(a, g);
      ClmulHalf(b, g);
      ClmulHalf(Xor(a, b), g);
      var u, v := Clmul(a / 2, g), Clmul(b / 2, g);
      var s, t := if a % 2 == 1 then g else 0, if b % 2 == 1 then g else 0;
      XorDouble(u, v);
      XorExchange(2 * u, s, 2 * v, t);
      XorSelf(g);
      XorZero(g);
      XorZero(0);
    }
  }

  lemma ClmulHalf(q: nat, g: nat)
    ensures Clmul(q, g) == Xor(2 * Clmul(q / 2, g), if q % 2 == 1 then g else 0)
  {
  }

  lemma XorExchange(p: nat, a: nat, q: nat, b: nat)
    ensures Xor(Xor(p, a), Xor(q, b)) == Xor(Xor(p, q), Xor(a, b))
  {
    hide Xor;
    XorAssociates(p, a, Xor(q, b));
    XorAssociates(a, q, b);
    XorCommutes(a, q);
    XorAssociates(q, a, b);
    XorAssociates(p, q, Xor(a, b));
  }

  lemma {:induction false} ClmulPower(k: nat, g: nat)
    ensures Clmul(Pow2(k), g) == Shl(g, k)
  {
    hide Xor;
    ClmulHalf(Pow2(k), g);
    if k == 0 {
      ClmulHalf(0, g);
      XorZero(g);
    } else {
      ClmulPower(k - 1, g);
      assert Pow2(k) / 2 == Pow2(k - 1) && Pow2(k) % 2 == 0;
      XorZero(2 * Shl(g, k - 1));
    }
  }

  /** d leaves the remainder r when divided by g. */
  ghost predicate Remains(d: nat, g: nat, r: nat) {
    exists q :: d == Xor(Clmul(q, g), r)
  }

  lemma RemainsStart(d: nat, g: nat)
    ensures Remains(d, g, d)
  {
    hide Xor;
    XorZero(d);
    assert d == Xor(Clmul(0, g), d);
  }

  /** Adding a shifted generator changes the quotient only. */
  lemma RemainsStep(d: nat, g: nat, r: nat, k: nat)
    requires Remains(d, g, r)
    ensures Remains(d, g, Xor(r, Shl(g, k)))
  {
    hide Xor, Clmul, Shl;
    var q :| d == Xor(Clmul(q, g), r);
    var s := Shl(g, k);
    ClmulXor(q, Pow2(k), g);
    ClmulPower(k, g);
    XorExchange(Clmul(q, g), s, r, s);
    XorSelf(s);
    XorZero(Xor(Clmul(q, g), r));
    assert d == Xor(Clmul(Xor(q, Pow2(k)), g), Xor(r, s));
  }

  /** The division loop: every step lowers the degree, down to below that of g. */
  method Reduce(dividend: nat, g: nat) returns (d: nat)
    requires g > 0
    ensures Digits(d) < Digits(g) && Remains(dividend, g, d)
  {
    hide Xor, Clmul, Shl, Remains;
    d := dividend;
    RemainsStart(d, g);
    while true
      invariant Remains(dividend, g, d)
      decreases Digits(d)
    {
      var x := GetBCHDigit(d);
      var y := GetBCHDigit(g);
      var k: int := (x as int) - (y as int);
      if !(k >= 0) { break; }
      DigitsOfShl(g, k);
      assert d > 0;
      DigitsOfXor(d, Shl(g, k));
      RemainsStep(dividend, g, d, k);
      d := Xor(d, Shl(g, k));
    }
  }

  /** data in the high bits, the remainder below, is a multiple of the generator. */
  lemma JoinedIsMultiple(data: nat, g: nat, d: nat, n: nat)
    requires d < Pow2(n) && Remains(Shl(data, n), g, d)
    ensures exists q :: Or(Shl(data, n), d) == Clmul(q, g)
    ensures Shr(Or(Shl(data, n), d), n) == data
    ensures forall m: nat :: data < Pow2(m) ==> Or(Shl(data, n), d) < Pow2(n + m)
  {
    hide Xor, Clmul, Shl, Shr, Or;
    var q :| Shl(data, n) == Xor(Clmul(q, g), d);
    XorTwice(Clmul(q, g), d);
    OrDisjoint(data, d, n);
    XorDisjoint(data, d, n);
    assert Or(Shl(data, n), d) == Clmul(q, g);
    ShrOfJoined(data, d, n);
    forall m: nat | data < Pow2(m) ensures Or(Shl(data, n), d) < Pow2(n + m) {
      JoinedFits(data, m, d, n);
    }
  }

  lemma {:induction false} JoinedFits(data: nat, m: nat, d: nat, n: nat)
    requires data < Pow2(m) && d < Pow2(n)
    ensures Shl(data, n) + d < Pow2(n + m)
  {
    if n == 0 {
    } else {
      JoinedFits(data, m, d / 2, n - 1);
    }
  }

  lemma {:induction false} XorFits(a: nat, b: nat, n: nat)
    requires a < Pow2(n) && b < Pow2(n)
    ensures Xor(a, b) < Pow2(n)
  {
    if n == 0 {
    } else {
      XorHalves(a, b);
      XorFits(a / 2, b / 2, n - 1);
    }
  }

  lemma {:induction false} XorDisjoint(a: nat, b: nat, k: nat)
    requires b < Pow2(k)
    ensures Xor(Shl(a, k), b) == Shl(a, k) + b
  {
    if k == 0 {
    } else {
      XorDisjoint(a, b / 2, k - 1);
    }
  }

  lemma {:induction false} ShrOfJoined(a: nat, b: nat, k: nat)
    requires b < Pow2(k)
    ensures Shr(Shl(a, k) + b, k) == a
  {
    if k == 0 {
    } else {
      ShrOfJoined(a, b / 2, k - 1);
      assert (Shl(a, k) + b) / 2 == Shl(a, k - 1) + b / 2;
    }
  }

  /** `getBCHTypeInfo`: unmasked, the word is a multiple of G15 whose high bits are the data. */
  method GetBCHTypeInfo(data: nat) returns (bits: nat)
    ensures exists q :: Xor(bits, G15_MASK) == Clmul(q, G15)
    ensures Shr(Xor(bits, G15_MASK), 10) == data
    ensures data < Pow2(5) ==> bits < Pow2(15)
  {
    hide Xor, Clmul, Shl, Shr, Or, Remains;
    var d := Reduce(Shl(data, 10), G15);
    assert Digits(G15) == 11 by { DigitsOfG15(); }
    DigitsBound(d, 10);
    JoinedIsMultiple(data, G15, d, 10);
    bits := Xor(Or(Shl(data, 10), d), G15_MASK);
    XorTwice(Or(Shl(data, 10), d), G15_MASK);
    MaskFits();
    if data < Pow2(5) { XorFits(Or(Shl(data, 10), d), G15_MASK, 15); }
  }

  /** `getBCHTypeNumber`: the word is a multiple of G18 whose high bits are the data. */
  method GetBCHTypeNumber(data: nat) returns (bits: nat)
    ensures exists q :: bits == Clmul(q, G18)
    ensures Shr(bits, 12) == data
    ensures data < Pow2(6) ==> bits < Pow2(18)
  {
    hide Xor, Clmul, Shl, Shr, Or, Remains;
    var d := Reduce(Shl(data, 12), G18);
    assert Digits(G18) == 13 by { DigitsOfG18(); }
    DigitsBound(d, 12);
    JoinedIsMultiple(data, G18, d, 12);
    bits := Or(Shl(data, 12), d);
  }

  lemma MaskFits()
    ensures G15_MASK < Pow2(15)
  {
    assert Pow2(12) == 4096;
  }

  lemma DigitsOfG15()
    ensures Digits(G15) == 11
  {
    hide Digits;
    DigitsBound(G15, 11);
    DigitsBound(G15, 10);
    assert Pow2(10) == 1024 && Pow2(11) == 2048;
  }

  lemma DigitsOfG18()
    ensures Digits(G18) == 13
  {
    hide Digits;
    DigitsBound(G18, 13);
    DigitsBound(G18, 12);
    assert Pow2(12) == 4096 && Pow2(13) == 8192;
  }
}
