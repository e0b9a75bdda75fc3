/** Polynomials over GF(256) as `qrPolynomial` stores them: a sequence of coefficients, the
    one of the highest power first.  This module is the reference the encoder is proved
    against: evaluation, product, division with remainder, and the laws that connect them. */
module Polynomials {
  import opened Bytes
  import opened Gf256

  type Poly = seq<Byte>

  function Zeros(n: nat): (r: Poly)
    ensures |r| == n && forall i :: 0 <= i < n ==> r[i] == ZERO
  {
    if n == 0 then [] else Zeros(n - 1) + [ZERO]
  }

  /** Evaluation by Horner's rule. */
  ghost function Eval(p: Poly, x: Byte): Byte {
    if |p| == 0 then ZERO else Add(Mul(Eval(p[..|p| - 1], x), x), p[|p| - 1])
  }

  ghost function ScaleBy(c: Byte, p: Poly): (r: Poly)
    ensures |r| == |p| && forall i :: 0 <= i < |p| ==> r[i] == Mul(c, p[i])
  {
    if |p| == 0 then []
    else
      hide Mul;
      var front := p[..|p| - 1];
      assert forall i :: 0 <= i < |front| ==> front[i] == p[i];
      ScaleBy(c, front) + [Mul(c, p[|p| - 1])]
  }

  /** Adds q to the low-order end of p. */
  ghost function AddLow(p: Poly, q: Poly): (r: Poly)
    requires |q| <= |p|
    ensures |r| == |p|
    ensures forall i :: 0 <= i < |p| - |q| ==> r[i] == p[i]
    ensures forall i :: |p| - |q| <= i < |p| ==> r[i] == Add(p[i], q[i - (|p| - |q|)])
  {
    if |q| == 0 then p
    else AddLow(p[..|p| - 1], q[..|q| - 1]) + [Add(p[|p| - 1], q[|q| - 1])]
  }

  /** Adds q to the high-order end of p. */
  ghost function AddHigh(p: Poly, q: Poly): (r: Poly)
    requires |q| <= |p|
    ensures |r| == |p|
    ensures forall i :: 0 <= i < |q| ==> r[i] == Add(p[i], q[i])
    ensures forall i :: |q| <= i < |p| ==> r[i] == p[i]
  {
    AddLow(p[..|q|], q) + p[|q|..]
  }

  /** The product, by long multiplication. */
  ghost function Product(a: Poly, b: Poly): (r: Poly)
    requires |b| > 0
    ensures |r| == |a| + |b| - 1
  {
    if |a| == 0 then Zeros(|b| - 1)
    else AddLow(Product(a[..|a| - 1], b) + [ZERO], ScaleBy(a[|a| - 1], b))
  }

  /** Division with remainder: p = q * e + r. */
  ghost predicate Divides(p: Poly, q: Poly, e: Poly, r: Poly) {
    && |e| > 0
    && |p| == |q| + |e| - 1
    && |r| <= |p|
    && p == AddLow(Product(q, e), r)
  }

  // --- Evaluation is a ring homomorphism ---

  lemma EvalAppend(p: Poly, c: Byte, x: Byte)
    ensures Eval(p + [c], x) == Add(Mul(Eval(p, x), x), c)
  {
    hide Add, Mul;
    assert (p + [c])[..|p|] == p;
  }

  lemma {:induction false} EvalZeros(n: nat, x: Byte)
    ensures Eval(Zeros(n), x) == ZERO
  {
    hide Add, Mul;
    if n == 0 {
    } else {
      EvalAppend(Zeros(n - 1), ZERO, x);
      EvalZeros(n - 1, x);
      ZeroFactor(ZERO, x);
      AddZero(ZERO);
    }
  }

  lemma {:induction false} EvalScaleBy(c: Byte, p: Poly, x: Byte)
    ensures Eval(ScaleBy(c, p), x) == Mul(c, Eval(p, x))
  {
    hide Add, Mul;
    if |p| == 0 {
      ZeroFactor(c, ZERO);
    } else {
      var front, last := p[..|p| - 1], p[|p| - 1];
      EvalAppend(ScaleBy(c, front), Mul(c, last), x);
      EvalScaleBy(c, front, x);
      MulAssociates(c, Eval(front, x), x);
      MulDistributes(c, Mul(Eval(front, x), x), last);
    }
  }

  lemma {:induction false} EvalAddLow(p: Poly, q: Poly, x: Byte)
    requires |q| <= |p|
    ensures Eval(AddLow(p, q), x) == Add(Eval(p, x), Eval(q, x))
  {
    hide Add, Mul;
    if |q| == 0 {
      AddZero(Eval(p, x));
    } else {
      var p', q' := p[..|p| - 1], q[..|q| - 1];
      var a, b := p[|p| - 1], q[|q| - 1];
      EvalAppend(AddLow(p', q'), Add(a, b), x);
      EvalAddLow(p', q', x);
      MulDistributes(x, Eval(p', x), Eval(q', x));
      AddExchange(Mul(Eval(p', x), x), Mul(Eval(q', x), x), a, b);
    }
  }

  lemma {:induction false} EvalProduct(a: Poly, b: Poly, x: Byte)
    requires |b| > 0
    ensures Eval(Product(a, b), x) == Mul(Eval(a, x), Eval(b, x))
  {
    hide Add, Mul;
    if |a| == 0 {
      EvalZeros(|b| - 1, x);
      ZeroFactor(ZERO, Eval(b, x));
    } else {
      var front, last := a[..|a| - 1], a[|a| - 1];
      var f, g := Eval(front, x), Eval(b, x);
      EvalAddLow(Product(front, b) + [ZERO], ScaleBy(last, b), x);
      EvalAppend(Product(front, b), ZERO, x);
      AddZero(Mul(Eval(Product(front, b), x), x));
      EvalScaleBy(last, b, x);
      EvalProduct(front, b, x);
      MulAssociates(f, g, x);
      MulCommutes(g, x);
      MulAssociates(f, x, g);
      MulDistributes(g, Mul(f, x), last);
    }
  }

  // --- Division with remainder ---

  lemma ProductAppend(a: Poly, c: Byte, b: Poly)
    requires |b| > 0
    ensures Product(a + [c], b) == AddLow(Product(a, b) + [ZERO], ScaleBy(c, b))
  {
    hide AddLow, ScaleBy;
    assert (a + [c])[..|a|] == a;
  }

  lemma AddLowPrefix(u: Poly, p: Poly, s: Poly)
    requires |s| <= |p|
    ensures AddLow(u + p, s) == u + AddLow(p, s)
  {
    hide Add, AddLow;
  }

  lemma AddHighSuffix(p: Poly, v: Poly, s: Poly)
    requires |s| <= |p|
    ensures AddHigh(p + v, s) == AddHigh(p, s) + v
  {
    hide Add, AddHigh;
  }

  lemma AddLowZeros(p: Poly, s: Poly)
    requires |s| <= |p| && forall i :: 0 <= i < |s| ==> s[i] == ZERO
    ensures AddLow(p, s) == p
  {
    hide Add, AddLow;
    forall i | 0 <= i < |p| ensures AddLow(p, s)[i] == p[i] { AddZero(p[i]); }
  }

  lemma ProductEmpty(e: Poly)
    requires |e| > 0
    ensures Product([], e) == Zeros(|e| - 1)
  {
  }

  lemma ZerosNext(n: nat)
    ensures Zeros(n + 1) == Zeros(n) + [ZERO]
  {
  }

  lemma {:induction false} ProductOfZeros(n: nat, e: Poly)
    requires |e| > 0
    ensures Product(Zeros(n), e) == Zeros(n + |e| - 1)
  {
    hide Add, Mul, AddLow, ScaleBy, Zeros, Product;
    if n == 0 {
      assert Zeros(0) == [];
      ProductEmpty(e);
    } else {
      ProductOfZeros(n - 1, e);
      ZerosNext(n - 1);
      ProductAppend(Zeros(n - 1), ZERO, e);
      forall i | 0 <= i < |e| ensures Mul(ZERO, e[i]) == ZERO { ZeroFactor(ZERO, e[i]); }
      ZerosNext(n + |e| - 2);
      AddLowZeros(Zeros(n + |e| - 1), ScaleBy(ZERO, e));
    }
  }

  lemma {:induction false} ZerosAdd(m: nat, n: nat)
    ensures Zeros(m) + Zeros(n) == Zeros(m + n)
  {
    if n == 0 {
    } else {
      ZerosAdd(m, n - 1);
      assert Zeros(m) + Zeros(n) == (Zeros(m) + Zeros(n - 1)) + [ZERO];
    }
  }

  /** Leading zeros of the quotient are leading zeros of the product. */
  lemma {:induction false} ProductLeadingZeros(n: nat, q: Poly, e: Poly)
    requires |e| > 0
    ensures Product(Zeros(n) + q, e) == Zeros(n) + Product(q, e)
  {
    hide Add, Mul, AddLow, ScaleBy, Zeros;
    if |q| == 0 {
      assert Zeros(n) + q == Zeros(n);
      ProductOfZeros(n, e);
      ZerosAdd(n, |e| - 1);
    } else {
      var front, last := q[..|q| - 1], q[|q| - 1];
      ProductLeadingZeros(n, front, e);
      assert Zeros(n) + q == (Zeros(n) + front) + [last];
      ProductAppend(Zeros(n) + front, last, e);
      assert Product(Zeros(n) + front, e) + [ZERO] == Zeros(n) + (Product(front, e) + [ZERO]);
      AddLowPrefix(Zeros(n), Product(front, e) + [ZERO], ScaleBy(last, e));
    }
  }

  lemma ProductSingle(c: Byte, e: Poly)
    requires |e| > 0
    ensures Product([c], e) == ScaleBy(c, e)
  {
    hide Add, Mul, AddLow, ScaleBy;
    ProductAppend([], c, e);
    assert [] + [c] == [c];
    assert Product([], e) + [ZERO] == Zeros(|e|);
    forall i | 0 <= i < |e| ensures AddLow(Zeros(|e|), ScaleBy(c, e))[i] == ScaleBy(c, e)[i] {
      AddZero(ScaleBy(c, e)[i]);
    }
  }

  /** Adding c to the leading coefficient of the quotient adds c * e at the high end. */
  lemma {:induction false} ProductLeading(c: Byte, q: Poly, e: Poly)
    requires |e| > 0 && |q| > 0
    ensures Product(AddHigh(q, [c]), e) == AddHigh(Product(q, e), ScaleBy(c, e))
  {
    hide Add, Mul, AddLow, AddHigh, ScaleBy, Product;
    var front, last := q[..|q| - 1], q[|q| - 1];
    if |q| == 1 {
      assert q == [last] && AddHigh(q, [c]) == [Add(last, c)];
      ProductSingle(last, e);
      ProductSingle(Add(last, c), e);
      ScaleBySum(last, c, e);
    } else {
      var low, s, t := Product(front, e) + [ZERO], ScaleBy(last, e), ScaleBy(c, e);
      ProductLeading(c, front, e);
      assert front + [last] == q;
      AddHighSuffix(front, [last], [c]);
      ProductAppend(AddHigh(front, [c]), last, e);
      ProductAppend(front, last, e);
      AddHighSuffix(Product(front, e), [ZERO], t);
      AddEnds(low, t, s);
    }
  }

  lemma ScaleBySum(a: Byte, b: Byte, e: Poly)
    ensures |ScaleBy(Add(a, b), e)| == |e|
    ensures forall i :: 0 <= i < |e| ==> ScaleBy(Add(a, b), e)[i] == Add(ScaleBy(a, e)[i], ScaleBy(b, e)[i])
  {
    hide Add, Mul;
    forall i | 0 <= i < |e| ensures ScaleBy(Add(a, b), e)[i] == Add(ScaleBy(a, e)[i], ScaleBy(b, e)[i]) {
      MulDistributes(e[i], a, b);
    }
  }

  /** Additions at the two ends of a polynomial commute. */
  lemma AddEnds(p: Poly, high: Poly, low: Poly)
    requires |high| <= |p| && |low| <= |p|
    ensures AddLow(AddHigh(p, high), low) == AddHigh(AddLow(p, low), high)
  {
    hide Add, AddLow, AddHigh;
    forall i | 0 <= i < |p| ensures AddLow(AddHigh(p, high), low)[i] == AddHigh(AddLow(p, low), high)[i] {
      AddEndsAt(p, high, low, i);
    }
  }

  lemma AddEndsAt(p: Poly, high: Poly, low: Poly, i: nat)
    requires |high| <= |p| && |low| <= |p| && i < |p|
    ensures AddLow(AddHigh(p, high), low)[i] == AddHigh(AddLow(p, low), high)[i]
  {
    hide Add, AddLow, AddHigh;
    var l, r := AddHigh(p, high), AddLow(p, low);
    var j := i - (|p| - |low|);
    if i < |high| {
      assert l[i] == Add(p[i], high[i]);
      assert AddHigh(r, high)[i] == Add(r[i], high[i]);
      if j >= 0 {
        assert r[i] == Add(p[i], low[j]);
        assert AddLow(l, low)[i] == Add(l[i], low[j]);
        AddAssociates(p[i], high[i], low[j]);
        AddCommutes(high[i], low[j]);
        AddAssociates(p[i], low[j], high[i]);
      }
    }
  }

  /** A polynomial shorter than the divisor is its own remainder. */
  lemma DivideShort(n: nat, r: Poly, e: Poly)
    requires |e| > 0 && n + |r| >= |e| - 1 && |r| < |e|
    ensures Divides(Zeros(n) + r, Zeros(n + |r| + 1 - |e|), e, r)
  {
    hide Add, Mul, AddLow, Zeros, Product;
    ProductOfZeros(n + |r| + 1 - |e|, e);
    var p := AddLow(Zeros(n + |r|), r);
    forall i | 0 <= i < n + |r| ensures p[i] == (Zeros(n) + r)[i] {
      if i >= n { AddZero(r[i - n]); }
    }
    assert p == Zeros(n) + r;
  }

  /** Leading zeros of the dividend do not matter. */
  lemma DivideLeadingZeros(n: nat, p: Poly, q: Poly, e: Poly, r: Poly)
    requires Divides(p, q, e, r)
    ensures Divides(Zeros(n) + p, Zeros(n) + q, e, r)
  {
    hide Add, Mul, AddLow, Zeros, Product;
    ProductLeadingZeros(n, q, e);
    AddLowPrefix(Zeros(n), Product(q, e), r);
  }

  /** One step of long division: what is subtracted at the high end goes to the quotient. */
  lemma DivideStep(p: Poly, c: Byte, q: Poly, e: Poly, r: Poly)
    requires 0 < |e| <= |p|
    requires Divides(AddHigh(p, ScaleBy(c, e)), q, e, r)
    ensures Divides(p, AddHigh(q, [c]), e, r)
  {
    hide Add, Mul, AddLow, AddHigh, ScaleBy, Product;
    var t := ScaleBy(c, e);
    ProductLeading(c, q, e);
    AddEnds(Product(q, e), t, r);
    AddHighTwice(p, t);
  }

  lemma AddHighTwice(p: Poly, t: Poly)
    requires |t| <= |p|
    ensures AddHigh(AddHigh(p, t), t) == p
  {
    hide Add, AddHigh;
    forall i | 0 <= i < |p| ensures AddHigh(AddHigh(p, t), t)[i] == p[i] {
      if i < |t| { AddCancels(p[i], t[i]); }
    }
  }

  lemma EvalDivides(p: Poly, q: Poly, e: Poly, r: Poly, x: Byte)
    requires Divides(p, q, e, r)
    ensures Eval(p, x) == Add(Mul(Eval(q, x), Eval(e, x)), Eval(r, x))
  {
    hide Add, Mul;
    EvalAddLow(Product(q, e), r, x);
    EvalProduct(q, e, x);
  }
}
