/** The field GF(256) behind `QRMath`: bytes are polynomials over GF(2) modulo
    x^8 + x^4 + x^3 + x^2 + 1 and addition is exclusive or.  The tables of the source hold
    the powers of alpha = x.  Every law of the field is derived here from two facts:
    multiplication by alpha, `Double`, is linear, and alpha has order exactly 255. */
module Gf256 {
  import opened Bytes

  /** Addition of the field. */
  function Add(a: Byte, b: Byte): Byte {
    Xor(a, b)
  }

  /** alpha * b: a shift, reduced by x^8 = x^4 + x^3 + x^2 + 1. */
  function Double(b: Byte): Byte {
    Byte(b.b6, b.b5, b.b4, b.b3 != b.b7, b.b2 != b.b7, b.b1 != b.b7, b.b0, b.b7)
  }

  /** alpha^n * b */
  function Scale(b: Byte, n: nat): Byte {
    if n == 0 then b else Double(Scale(b, n - 1))
  }

  /** alpha^n */
  function Power(n: nat): Byte {
    Scale(ONE, n)
  }

  // --- Addition ---

  lemma AddCommutes(a: Byte, b: Byte)
    ensures Add(a, b) == Add(b, a)
  {
  }

  lemma AddAssociates(a: Byte, b: Byte, c: Byte)
    ensures Add(Add(a, b), c) == Add(a, Add(b, c))
  {
  }

  lemma AddZero(a: Byte)
    ensures Add(a, ZERO) == a && Add(ZERO, a) == a
  {
  }

  lemma AddSelf(a: Byte, b: Byte)
    ensures Add(a, b) == ZERO <==> a == b
  {
  }

  lemma AddCancels(a: Byte, b: Byte)
    ensures Add(Add(a, b), b) == a
  {
  }

  lemma AddExchange(p: Byte, q: Byte, a: Byte, b: Byte)
    ensures Add(Add(p, q), Add(a, b)) == Add(Add(p, a), Add(q, b))
  {
  }

  // --- Multiplication by alpha ---

  lemma DoubleAdd(a: Byte, b: Byte)
    ensures Double(Add(a, b)) == Add(Double(a), Double(b))
  {
  }

  lemma DoubleInjective(a: Byte, b: Byte)
    requires Double(a) == Double(b)
    ensures a == b
  {
  }

  lemma {:induction false} ScaleOfSum(a: Byte, b: Byte, n: nat)
    ensures Scale(Add(a, b), n) == Add(Scale(a, n), Scale(b, n))
  {
    hide Add, Double;
    if n == 0 {
    } else {
      ScaleOfSum(a, b, n - 1);
      DoubleAdd(Scale(a, n - 1), Scale(b, n - 1));
    }
  }

  lemma {:induction false} ScaleAdd(b: Byte, m: nat, n: nat)
    ensures Scale(b, m + n) == Scale(Scale(b, m), n)
  {
    hide Double;
    if n == 0 {
    } else {
      ScaleAdd(b, m, n - 1);
    }
  }

  lemma {:induction false} ScaleInjective(a: Byte, b: Byte, n: nat)
    requires Scale(a, n) == Scale(b, n)
    ensures a == b
  {
    hide Double;
    if n == 0 {
    } else {
      DoubleInjective(Scale(a, n - 1), Scale(b, n - 1));
      ScaleInjective(a, b, n - 1);
    }
  }

  lemma DoubleZero()
    ensures Double(ZERO) == ZERO
  {
  }

  lemma {:induction false} ScaleZero(n: nat)
    ensures Scale(ZERO, n) == ZERO
  {
    hide Double;
    if n == 0 {
    } else {
      ScaleZero(n - 1);
      DoubleZero();
    }
  }

  // --- The order of alpha ---

  /** b * b: squaring is linear in the bits and takes bit i to bit 2 * i. */
  function Square(b: Byte): Byte {
    Byte(b.b6,
         (b.b3 != b.b5) != b.b6,
         b.b5,
         (b.b2 != b.b4) != (b.b5 != b.b7),
         b.b4 != b.b6,
         (b.b1 != b.b4) != (b.b5 != b.b6),
         b.b7,
         (b.b0 != b.b4) != (b.b6 != b.b7))
  }

  lemma SquareDouble(b: Byte)
    ensures Square(Double(b)) == Double(Double(Square(b)))
  {
  }

  lemma SquareOne()
    ensures Square(ONE) == ONE
  {
  }

  lemma {:induction false} PowerTwice(n: nat)
    ensures Power(2 * n) == Square(Power(n))
  {
    hide Double, Square;
    if n == 0 {
      SquareOne();
    } else {
      PowerTwice(n - 1);
      SquareDouble(Power(n - 1));
      PowerNext(2 * n - 2);
      PowerNext(2 * n - 1);
    }
  }

  lemma PowerNext(n: nat)
    ensures Power(n + 1) == Double(Power(n))
  {
  }

  lemma PowersTo8()
    ensures Power(0) == ONE
    ensures Power(1) == Byte(false, false, false, false, false, false, true, false)
    ensures Power(3) == Byte(false, false, false, false, true, false, false, false)
    ensures Power(5) == Byte(false, false, true, false, false, false, false, false)
    ensures Power(8) == Byte(false, false, false, true, true, true, false, true)
  {
    hide Power;
    PowerZero();
    PowerNext(0);
    PowerNext(1);
    PowerNext(2);
    PowerNext(3);
    PowerNext(4);
    PowerNext(5);
    PowerNext(6);
    PowerNext(7);
  }

  lemma PowerZero()
    ensures Power(0) == ONE
  {
  }

  /** Four doublings of the exponent. */
  lemma Sixteenfold(n: nat)
    ensures Power(16 * n) == Square(Square(Square(Square(Power(n)))))
  {
    hide Power, Square;
    PowerTwice(n);
    PowerTwice(2 * n);
    PowerTwice(4 * n);
    PowerTwice(8 * n);
  }

  lemma Power256()
    ensures Power(255) == ONE
    ensures Power(15) != ONE
  {
    hide Power;
    PowersTo8();
    Sixteenfold(1);
    Sixteenfold(16);
    PowerNext(15);
    PowerNext(255);
    PowerNext(0);
    hide Square;
    DoubleInjective(Power(255), ONE);
  }

  lemma Power51()
    ensures Power(51) != ONE
  {
    hide Power;
    PowersTo8();
    Sixteenfold(3);
    PowerNext(48);
    PowerNext(49);
    PowerNext(50);
  }

  lemma Power85()
    ensures Power(85) != ONE
  {
    hide Power;
    PowersTo8();
    PowerTwice(5);
    PowerTwice(10);
    PowerNext(20);
    PowerTwice(21);
    PowerTwice(42);
    PowerNext(84);
  }

  /** The powers that tell the order of alpha from its proper divisors. */
  lemma PowerLandmarks()
    ensures Power(0) == ONE && Power(255) == ONE
    ensures Power(15) != ONE && Power(51) != ONE && Power(85) != ONE
  {
    hide Power;
    PowerZero();
    Power256();
    Power51();
    Power85();
  }

  lemma {:induction false} PowerMultiple(d: nat, q: nat)
    requires Power(d) == ONE
    ensures Power(d * q) == ONE
  {
    hide Double;
    if q == 0 {
    } else {
      PowerMultiple(d, q - 1);
      ScaleAdd(ONE, d * (q - 1), d);
      assert d * q == d * (q - 1) + d;
    }
  }

  /** The least positive n with alpha^n = 1. */
  ghost function Order(): (n: nat)
    ensures 0 < n <= 255 && Power(n) == ONE
    ensures forall i: nat :: 0 < i < n ==> Power(i) != ONE
  {
    PowerLandmarks();
    LeastReturn(255)
  }

  ghost function LeastReturn(k: nat): (n: nat)
    requires k > 0 && Power(k) == ONE
    ensures 0 < n <= k && Power(n) == ONE
    ensures forall i: nat :: 0 < i < n ==> Power(i) != ONE
  {
    if exists i: nat :: 0 < i < k && Power(i) == ONE
    then var i: nat :| 0 < i < k && Power(i) == ONE; LeastReturn(i)
    else k
  }

  lemma {:induction false} PowerReduced(n: nat, k: nat) returns (q: nat, r: nat)
    requires n > 0 && Power(n) == ONE
    ensures k == n * q + r && r < n && Power(k) == Power(r)
  {
    hide Power;
    if k < n {
      q, r := 0, k;
    } else {
      var q': nat;
      q', r := PowerReduced(n, k - n);
      PowerStep(n, k - n);
      q := q' + 1;
      Distribute(n, q');
    }
  }

  lemma Distribute(n: nat, q: nat)
    ensures n * (q + 1) == n * q + n
  {
  }

  lemma PowerStep(n: nat, k: nat)
    requires Power(n) == ONE
    ensures Power(n + k) == Power(k)
  {
    hide Double;
    ScaleAdd(ONE, n, k);
  }

  /** A proper divisor of 255 = 3 * 5 * 17 divides one of the three maximal ones. */
  lemma ProperDivisors(n: nat, q: nat)
    requires n * q == 255 && q > 1
    ensures n in {1, 3, 5, 15, 17, 51, 85}
  {
    if n <= 15 {
      SmallDivisors(n, q);
    } else if q <= 15 {
      SmallDivisors(q, n);
    } else {
      Squared(n, q);
    }
  }

  lemma Squared(n: nat, q: nat)
    requires n >= 16 && q >= 16
    ensures n * q >= 256
  {
    assert n * q >= 16 * q;
  }

  lemma SmallDivisors(n: nat, q: nat)
    requires n * q == 255 && n <= 15
    ensures n in {1, 3, 5, 15}
  {
    assert forall m: nat :: m <= 15 && m !in {1, 3, 5, 15} ==> m * q != 255;
  }

  lemma NoProperDivisor(n: nat, q: nat)
    requires n * q == 255 && Power(n) == ONE
    ensures n == 255
  {
    hide Power;
    if q > 1 {
      ProperDivisors(n, q);
      var m := if n in {17, 51} then 51 else if n == 85 then 85 else 15;
      var k := m / n;
      assert n * k == m;
      PowerMultiple(n, k);
      PowerLandmarks();
    }
  }

  /** alpha generates the non-zero bytes: its order is exactly 255. */
  lemma OrderOfAlpha()
    ensures Order() == 255
  {
    hide Power;
    PowerLandmarks();
    var q, r := PowerReduced(Order(), 255);
    assert r == 0;
    NoProperDivisor(Order(), q);
  }

  lemma PowerInjective(i: nat, j: nat)
    requires i <= j < 255 && Power(i) == Power(j)
    ensures i == j
  {
    hide Double;
    if i < j {
      ScaleAdd(ONE, j - i, i);
      ScaleInjective(ONE, Power(j - i), i);
      OrderOfAlpha();
    }
  }

  lemma PowerNonzero(n: nat)
    ensures Power(n) != ZERO
  {
    hide Double;
    if Power(n) == ZERO {
      ScaleZero(n);
      ScaleInjective(ZERO, ONE, n);
    }
  }

  lemma PowerPeriod(n: nat)
    ensures Power(n + 255) == Power(n)
  {
    hide Double;
    PowerLandmarks();
    ScaleAdd(ONE, 255, n);
  }

  // --- Discrete logarithms ---

  ghost function PowerValues(n: nat): set<nat> {
    set i: nat | i < n :: Value(Power(i))
  }

  lemma {:induction false} PowerValuesCount(n: nat)
    requires n <= 255
    ensures |PowerValues(n)| == n
  {
    hide Value, Power, Bytes.Nibble;
    if n == 0 {
    } else {
      PowerValuesCount(n - 1);
      assert PowerValues(n) == PowerValues(n - 1) + {Value(Power(n - 1))};
      if Value(Power(n - 1)) in PowerValues(n - 1) {
        var i: nat :| i < n - 1 && Value(Power(i)) == Value(Power(n - 1));
        ValueInjective(Power(i), Power(n - 1));
        PowerInjective(i, n - 1);
      }
    }
  }

  ghost function OneTo(n: nat): set<nat> {
    if n == 0 then {} else OneTo(n - 1) + {n}
  }

  lemma {:induction false} OneToCount(n: nat)
    ensures |OneTo(n)| == n
    ensures forall i: nat :: i in OneTo(n) <==> 1 <= i <= n
  {
    if n == 0 {
    } else {
      OneToCount(n - 1);
    }
  }

  lemma SubsetOfEqualSize<T>(a: set<T>, b: set<T>)
    requires a <= b && |a| == |b|
    ensures a == b
  {
    assert |b - a| == |b| - |a|;
    assert b == a + (b - a);
  }

  /** Every non-zero byte is a power of alpha: the logarithm table has no holes. */
  lemma LogExists(b: Byte)
    requires b != ZERO
    ensures exists i: nat :: i < 255 && Power(i) == b
  {
    hide Value, Power;
    PowerValuesCount(255);
    OneToCount(255);
    forall x | x in PowerValues(255) ensures x in OneTo(255) {
      var i: nat :| i < 255 && x == Value(Power(i));
      PowerNonzero(i);
      ValueZero(Power(i));
    }
    SubsetOfEqualSize(PowerValues(255), OneTo(255));
    ValueZero(b);
    assert Value(b) in OneTo(255);
    var i: nat :| i < 255 && Value(b) == Value(Power(i));
    ValueInjective(b, Power(i));
  }

  ghost function Log(b: Byte): (i: nat)
    requires b != ZERO
    ensures i < 255 && Power(i) == b
  {
    LogExists(b);
    var i: nat :| i < 255 && Power(i) == b;
    i
  }

  // --- Multiplication and its laws ---

  /** The product of the source: the exponential of the sum of the logarithms. */
  ghost function Mul(a: Byte, b: Byte): Byte {
    if a == ZERO || b == ZERO then ZERO else Power(Log(a) + Log(b))
  }

  lemma PowerShift(i: nat, j: nat, k: nat)
    requires Power(i) == Power(j)
    ensures Power(i + k) == Power(j + k)
  {
    ScaleAdd(ONE, i, k);
    ScaleAdd(ONE, j, k);
  }

  lemma PowerScale(i: nat, j: nat)
    ensures Power(i + j) == Scale(Power(i), j)
  {
    ScaleAdd(ONE, i, j);
  }

  lemma MulPower(i: nat, b: Byte)
    ensures Mul(Power(i), b) == Scale(b, i)
  {
    if b == ZERO {
      ScaleZero(i);
    } else {
      MulPowerNonzero(i, b);
    }
  }

  lemma MulPowerNonzero(i: nat, b: Byte)
    requires b != ZERO
    ensures Mul(Power(i), b) == Scale(b, i)
  {
    hide Power, Scale;
    PowerNonzero(i);
    PowerShift(Log(Power(i)), i, Log(b));
    PowerScale(Log(b), i);
  }

  lemma PowerSum(i: nat, j: nat)
    ensures Mul(Power(i), Power(j)) == Power(i + j)
  {
    MulPower(i, Power(j));
    ScaleAdd(ONE, j, i);
  }

  lemma ZeroFactor(a: Byte, b: Byte)
    ensures a == ZERO || b == ZERO ==> Mul(a, b) == ZERO
  {
  }

  lemma MulCommutes(a: Byte, b: Byte)
    ensures Mul(a, b) == Mul(b, a)
  {
  }

  lemma MulAssociates(a: Byte, b: Byte, c: Byte)
    ensures Mul(Mul(a, b), c) == Mul(a, Mul(b, c))
  {
    hide Power;
    if a != ZERO && b != ZERO && c != ZERO {
      var i, j, k := Log(a), Log(b), Log(c);
      PowerSum(i, j);
      PowerSum(i + j, k);
      PowerSum(j, k);
      PowerSum(i, j + k);
      assert Mul(a, b) == Power(i + j) && Mul(b, c) == Power(j + k);
    } else {
      ZeroFactor(a, b);
      ZeroFactor(b, c);
    }
  }

  lemma MulDistributes(a: Byte, b: Byte, c: Byte)
    ensures Mul(a, Add(b, c)) == Add(Mul(a, b), Mul(a, c))
    ensures Mul(Add(b, c), a) == Add(Mul(b, a), Mul(c, a))
  {
    if a != ZERO {
      var i := Log(a);
      MulPower(i, Add(b, c));
      MulPower(i, b);
      MulPower(i, c);
      ScaleOfSum(b, c, i);
    }
    MulCommutes(a, Add(b, c));
    MulCommutes(a, b);
    MulCommutes(a, c);
  }

  lemma MulOne(a: Byte)
    ensures Mul(ONE, a) == a && Mul(a, ONE) == a
  {
    assert Power(0) == ONE;
    MulPower(0, a);
    MulCommutes(ONE, a);
  }

  lemma MulZero(a: Byte, b: Byte)
    ensures Mul(a, b) == ZERO <==> a == ZERO || b == ZERO
  {
    hide Power;
    if a != ZERO && b != ZERO { PowerNonzero(Log(a) + Log(b)); }
  }

  lemma MulCancels(a: Byte, b: Byte, c: Byte)
    requires a != ZERO && Mul(a, b) == Mul(a, c)
    ensures b == c
  {
    MulDistributes(a, b, c);
    MulZero(a, Add(b, c));
  }
}
