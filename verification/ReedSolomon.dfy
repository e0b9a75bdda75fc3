/** The Reed-Solomon code of `getErrorCorrectPolynomial` and of the error-correction part of
    `createBytes` (section 7.5 of ISO/IEC 18004:2015). */
module ReedSolomon {
  import opened Bytes
  import opened Gf256
  import opened Outcomes
  import opened Polynomials
  import opened QrMath
  import opened QrPolynomial

  /** The product of (x + alpha^i) for i < n. */
  ghost function Generator(n: nat): (g: Poly)
    ensures |g| == n + 1
  {
    if n == 0 then [ONE] else Product(Generator(n - 1), [ONE, Power(n - 1)])
  }

  // --- The coefficients of the generator ---

  ghost function At(p: Poly, i: int): Byte {
    if 0 <= i < |p| then p[i] else ZERO
  }

  lemma {:induction false} ProductMonic(p: Poly, a: Byte, k: nat)
    requires k <= |p|
    ensures Product(p, [ONE, a])[k] == Add(At(p, k), Mul(At(p, k - 1), a))
  {
    hide Add, Mul, AddLow, ScaleBy, Product, Zeros;
    if |p| == 0 {
      ProductEmpty([ONE, a]);
      ZeroFactor(ZERO, a);
      AddZero(ZERO);
    } else {
      var front, last := p[..|p| - 1], p[|p| - 1];
      assert front + [last] == p;
      ProductAppend(front, last, [ONE, a]);
      var low, s := Product(front, [ONE, a]) + [ZERO], ScaleBy(last, [ONE, a]);
      assert Product(p, [ONE, a]) == AddLow(low, s);
      if k < |p| { ProductMonic(front, a, k); }
      MulOne(last);
      AddZero(Mul(last, a));
      AddZero(At(p, k));
      AddZero(Mul(At(front, k - 1), a));
      AddCommutes(Mul(At(front, k - 1), a), last);
      if k == |p| {
        assert AddLow(low, s)[k] == Add(low[k], s[1]);
      } else if k == |p| - 1 {
        assert AddLow(low, s)[k] == Add(low[k], s[0]);
      }
    }
  }

  ghost function Coefficient(n: nat, k: int): Byte {
    At(Generator(n), k)
  }

  lemma CoefficientStep(n: nat, k: nat)
    requires k <= n + 1
    ensures Coefficient(n + 1, k) == Add(Coefficient(n, k), Scale(Coefficient(n, k - 1), n))
  {
    hide Add, Mul, Product, Power, Scale;
    ProductMonic(Generator(n), Power(n), k);
    MulCommutes(Coefficient(n, k - 1), Power(n));
    MulPower(n, Coefficient(n, k - 1));
  }

  lemma {:induction false} Monic(n: nat)
    ensures Coefficient(n, 0) == ONE
  {
    hide Add, Product, Scale;
    if n == 0 {
    } else {
      Monic(n - 1);
      CoefficientStep(n - 1, 0);
      ScaleZero(n - 1);
      AddZero(ONE);
    }
  }

  /** (alpha^n - 1) * x */
  ghost function Diff(x: Byte, n: nat): Byte {
    Add(Scale(x, n), x)
  }

  lemma DiffOfSum(x: Byte, y: Byte, n: nat)
    ensures Diff(Add(x, y), n) == Add(Diff(x, n), Diff(y, n))
  {
    hide Scale, Add;
    ScaleOfSum(x, y, n);
    AddExchange(Scale(x, n), Scale(y, n), x, y);
  }

  lemma ScaleOfDiff(x: Byte, n: nat, m: nat)
    ensures Scale(Diff(x, n), m) == Add(Scale(x, n + m), Scale(x, m))
    ensures Scale(Diff(x, n), m) == Diff(Scale(x, m), n)
  {
    hide Scale, Add;
    ScaleOfSum(Scale(x, n), x, m);
    ScaleAdd(x, n, m);
    ScaleAdd(x, m, n);
  }

  /** Neighbouring coefficients stand in the ratio of a q-binomial row, q being alpha:
      (q^k - 1) * c(n, k) = q^(k-1) * (q^(n-k+1) - 1) * c(n, k-1). */
  lemma {:induction false} CoefficientRatio(n: nat, k: nat)
    requires 1 <= k <= n + 1
    ensures Diff(Coefficient(n, k), k) == Scale(Diff(Coefficient(n, k - 1), n - k + 1), k - 1)
    decreases n, 1
  {
    hide Scale, Add, Generator, Diff;
    if k == n + 1 {
      DiffTrivial(Coefficient(n, k - 1), k);
      ScaleZero(k - 1);
    } else {
      CoefficientRatioStep(n - 1, k);
    }
  }

  lemma DiffTrivial(x: Byte, k: nat)
    ensures Diff(x, 0) == ZERO && Diff(ZERO, k) == ZERO
  {
    hide Add;
    assert Scale(x, 0) == x;
    AddSelf(x, x);
    ScaleZero(k);
    AddZero(ZERO);
  }

  lemma {:induction false} CoefficientRatioStep(n: nat, k: nat)
    requires 1 <= k <= n + 1
    ensures Diff(Coefficient(n + 1, k), k) == Scale(Diff(Coefficient(n + 1, k - 1), n - k + 2), k - 1)
    decreases n, 2
  {
    hide Scale, Add, Generator, Diff, Coefficient;
    var a, b, c := Coefficient(n, k - 1), Coefficient(n, k - 2), Coefficient(n, k);
    var m := n - k + 2;
    CoefficientStep(n, k);
    CoefficientStep(n, k - 1);
    // the left-hand side is alpha^(k-1) * a + alpha^(n+k) * a
    CoefficientRatio(n, k);
    DiffOfSum(c, Scale(a, n), k);
    ScaleOfDiff(a, n - k + 1, k - 1);
    ScaleOfDiff(a, k, n);
    AddMiddle(Scale(a, n), Scale(a, k - 1), Scale(a, n + k));
    // and so is the right-hand side
    DiffOfSum(a, Scale(b, n), m);
    ScaleOfDiff(b, m, n);
    assert Scale(Diff(b, m), n) == Scale(Diff(a, k - 1), m) by {
      if k == 1 {
        DiffTrivial(a, 0);
        assert b == ZERO by { NoCoefficient(n); }
        DiffTrivial(a, m);
        ScaleZero(n);
        ScaleZero(m);
      } else {
        CoefficientRatio(n, k - 1);
        ScaleAdd(Diff(b, m), k - 2, m);
      }
    }
    ScaleOfDiff(a, k - 1, m);
    DiffIs(a, m);
    AddMiddle(Scale(a, m), a, Scale(a, n + 1));
    ScaleOfSum(a, Scale(a, n + 1), k - 1);
    ScaleAdd(a, n + 1, k - 1);
  }

  lemma NoCoefficient(n: nat)
    ensures Coefficient(n, -1) == ZERO
  {
  }

  lemma DiffIs(x: Byte, n: nat)
    ensures Diff(x, n) == Add(Scale(x, n), x)
  {
  }

  lemma AddMiddle(x: Byte, y: Byte, z: Byte)
    ensures Add(Add(x, y), Add(z, x)) == Add(y, z)
  {
  }

  lemma DiffNonzero(x: Byte, n: nat)
    requires x != ZERO && 0 < n < 255
    ensures Diff(x, n) != ZERO
  {
    hide Scale, Add, Power, Mul;
    AddSelf(Scale(x, n), x);
    if Diff(x, n) == ZERO {
      MulPower(n, x);
      MulCommutes(Power(n), x);
      MulOne(x);
      MulCancels(x, Power(n), ONE);
      OrderOfAlpha();
    }
  }

  /** No coefficient of a generator of degree at most 254 is zero, so that building the next
      generator never takes the logarithm of zero. */
  lemma {:induction false} GeneratorNonzero(n: nat, k: nat)
    requires k <= n <= 254
    ensures Generator(n)[k] != ZERO
  {
    hide Scale, Add, Diff, Generator;
    if k == 0 {
      Monic(n);
    } else {
      GeneratorNonzero(n, k - 1);
      CoefficientRatio(n, k);
      DiffNonzero(Coefficient(n, k - 1), n - k + 1);
      ScaleNonzero(Diff(Coefficient(n, k - 1), n - k + 1), k - 1);
      DiffTrivial(ZERO, k);
    }
  }

  lemma ScaleNonzero(x: Byte, n: nat)
    requires x != ZERO
    ensures Scale(x, n) != ZERO
  {
    hide Scale;
    ScaleZero(n);
    if Scale(x, n) == ZERO { ScaleInjective(x, ZERO, n); }
  }

  /** The generator of degree 255 is x^255 - 1: its second coefficient is zero. */
  lemma Generator255()
    ensures Generator(255)[1] == ZERO
  {
    hide Scale, Add, Diff, Generator, Power;
    CoefficientRatio(255, 1);
    Monic(255);
    DiffTrivial(Coefficient(255, 0), 0);
    DiffIs(ONE, 255);
    PowerLandmarks();
    PowerIs(255);
    AddSelf(ONE, ONE);
    ScaleZero(0);
    assert Diff(Coefficient(255, 1), 1) == ZERO;
    if Coefficient(255, 1) != ZERO { DiffNonzero(Coefficient(255, 1), 1); }
  }

  lemma PowerIs(n: nat)
    ensures Power(n) == Scale(ONE, n)
  {
  }

  lemma {:induction false} GeneratorMonic(n: nat)
    ensures Generator(n)[0] == ONE && Strip(Generator(n)) == Generator(n)
  {
    hide Generator, Add;
    Monic(n);
  }

  /** `getErrorCorrectPolynomial`: throws exactly from 256 on. */
  method GetErrorCorrectPolynomial(math: QrMath, errorCorrectLength: nat) returns (r: Outcome<Poly>)
    requires math.Valid()
    ensures r == if errorCorrectLength >= 256 then Throws else Ok(Generator(errorCorrectLength))
  {
    hide Power, Mul, Add, Product, Strip, Zeros;
    var a := NewPolynomial([ONE], 0);
    StripNonzero(ONE, []);
    assert [ONE] + [] == [ONE];
    for i := 0 to errorCorrectLength
      invariant i <= 255 && a == Generator(i)
    {
      var x := math.Gexp(i);
      PowerModulo(i);
      var factor := NewPolynomial([ONE, x], 0);
      StripNonzero(ONE, [x]);
      assert [ONE] + [x] == [ONE, x];
      PowerNonzero(i);
      var p := Multiply(math, a, factor);
      NextGenerator(i);
      if p.Throws? { return Throws; }
      a := p.value;
    }
    r := Ok(a);
  }

  lemma StripNonzero(c: Byte, rest: Poly)
    requires c != ZERO
    ensures Strip([c] + rest) + Zeros(0) == [c] + rest
  {
  }

  lemma NextGenerator(i: nat)
    requires i <= 255
    ensures ZERO in Generator(i) <==> i == 255
    ensures Strip(Product(Generator(i), [ONE, Power(i)])) == Generator(i + 1)
  {
    hide Power, Mul, Add, Product, Strip, Zeros;
    GeneratorMonic(i + 1);
    if i == 255 {
      Generator255();
    } else if ZERO in Generator(i) {
      var k: nat :| k <= i && Generator(i)[k] == ZERO;
      GeneratorNonzero(i, k);
    }
  }

  // --- Roots ---

  lemma {:induction false} GeneratorRoots(n: nat, j: nat)
    requires j < n
    ensures Eval(Generator(n), Power(j)) == ZERO
  {
    hide Power, Mul, Add, Product, Eval;
    var g, f, x := Generator(n - 1), [ONE, Power(n - 1)], Power(j);
    EvalProduct(g, f, x);
    EvalLinear(Power(n - 1), x);
    if j < n - 1 {
      GeneratorRoots(n - 1, j);
      ZeroFactor(ZERO, Eval(f, x));
    } else {
      AddSelf(x, x);
      ZeroFactor(Eval(g, x), ZERO);
    }
  }

  lemma EvalLinear(a: Byte, x: Byte)
    ensures Eval([ONE, a], x) == Add(x, a)
  {
    hide Mul, Add, Eval;
    assert [] + [ONE] == [ONE];
    assert [ONE] + [a] == [ONE, a];
    EvalAppend([], ONE, x);
    EvalAppend([ONE], a, x);
    assert Eval([], x) == ZERO by { EvalEmpty(x); }
    ZeroFactor(ZERO, x);
    AddZero(ONE);
    MulOne(x);
  }

  lemma EvalEmpty(x: Byte)
    ensures Eval([], x) == ZERO
  {
  }

  /** A code word: all its first n syndromes vanish. */
  ghost predicate IsCodeword(c: Poly, n: nat) {
    forall j: nat :: j < n ==> Eval(c, Power(j)) == ZERO
  }

  lemma MultiplesAreCodewords(q: Poly, n: nat)
    ensures IsCodeword(Product(q, Generator(n)), n)
  {
    hide Power, Mul, Add, Product, Eval, Generator;
    forall j: nat | j < n ensures Eval(Product(q, Generator(n)), Power(j)) == ZERO {
      EvalProduct(q, Generator(n), Power(j));
      GeneratorRoots(n, j);
      ZeroFactor(Eval(q, Power(j)), ZERO);
    }
  }

  // --- Encoding a block ---

  lemma {:induction false} StripEmpty(p: Poly)
    ensures Strip(p) == [] <==> forall i :: 0 <= i < |p| ==> p[i] == ZERO
    decreases |p|
  {
    if |p| == 0 || p[0] != ZERO {
    } else {
      StripEmpty(p[1..]);
      assert p == [ZERO] + p[1..];
    }
  }

  /** The remainder, moved to the right end of n words. */
  function RightAligned(r: Poly, n: nat): (ec: Poly)
    requires |r| <= n
    ensures |ec| == n
  {
    Zeros(n - |r|) + r
  }

  lemma AddLowTwice(p: Poly, r: Poly)
    requires |r| <= |p|
    ensures AddLow(AddLow(p, r), r) == p
  {
    hide Add, AddLow;
    forall i | 0 <= i < |p| ensures AddLow(AddLow(p, r), r)[i] == p[i] {
      if i >= |p| - |r| { AddCancels(p[i], r[i - (|p| - |r|)]); }
    }
  }

  lemma AppendRemainder(data: Poly, n: nat, r: Poly)
    requires |r| <= n
    ensures AddLow(data + Zeros(n), r) == data + RightAligned(r, n)
  {
    hide Add, AddLow, Zeros;
    var p := data + Zeros(n);
    forall i | 0 <= i < |p| ensures AddLow(p, r)[i] == (data + RightAligned(r, n))[i] {
      if i >= |p| - |r| { AddZero(r[i - (|p| - |r|)]); }
    }
  }

  /** Dividing the stripped, shifted data and appending the remainder gives a multiple. */
  lemma Systematic(data: Poly, n: nat, q: Poly, r: Poly)
    requires |r| <= n
    requires Divides(Strip(data) + Zeros(n), q, Generator(n), r)
    ensures exists m :: data + RightAligned(r, n) == Product(m, Generator(n))
  {
    hide Add, AddLow, Zeros, Product, Strip, Generator;
    var g, s := Generator(n), Strip(data);
    var k := |data| - |s|;
    StripSplit(data);
    DivideLeadingZeros(k, s + Zeros(n), q, g, r);
    assert Zeros(k) + (s + Zeros(n)) == data + Zeros(n);
    var m := Zeros(k) + q;
    AddLowTwice(Product(m, g), r);
    AppendRemainder(data, n, r);
    assert data + RightAligned(r, n) == Product(m, g);
  }

  lemma GeneratorHasZero(n: nat)
    requires n <= 255
    ensures ZERO in Generator(n) <==> n == 255
  {
    hide *;
    NextGenerator(n);
  }

  /** The blocks for which `glog(0)` is reached. */
  predicate Unencodable(data: Poly, ecCount: int) {
    ecCount >= 256 || (ecCount == 255 && exists i :: 0 <= i < |data| && data[i] != ZERO)
  }

  lemma ModThrows(data: Poly, ecCount: nat)
    requires ecCount <= 255
    ensures var p, g := Strip(data) + Zeros(ecCount), Generator(ecCount);
            |p| >= |g| && (p[0] == ZERO || ZERO in g) <==> Unencodable(data, ecCount)
  {
    hide Zeros, Strip, Generator;
    StripEmpty(data);
    GeneratorHasZero(ecCount);
  }

  /** Data and the remainder of a division are a codeword. */
  lemma SystematicCodeword(data: Poly, n: nat, r: Poly)
    requires |r| <= n
    requires exists q :: Divides(Strip(data) + Zeros(n), q, Generator(n), r)
    ensures exists m :: data + RightAligned(r, n) == Product(m, Generator(n))
    ensures IsCodeword(data + RightAligned(r, n), n)
  {
    hide *;
    var q :| Divides(Strip(data) + Zeros(n), q, Generator(n), r);
    Systematic(data, n, q, r);
    var m :| data + RightAligned(r, n) == Product(m, Generator(n));
    MultiplesAreCodewords(m, n);
  }

  /** The error-correction code words of one block.  The encoder throws exactly when the
      generator cannot be built or used: from 256 words on, and for 255 words on data that
      is not all zero.  Otherwise data followed by parity is a multiple of the generator. */
  method EncodeBlock(math: QrMath, data: Poly, ecCount: nat) returns (r: Outcome<Poly>)
    requires math.Valid()
    ensures r.Throws? <==> Unencodable(data, ecCount)
    ensures r.Ok? ==> |r.value| == ecCount
    ensures r.Ok? ==> exists q :: data + r.value == Product(q, Generator(ecCount))
    ensures r.Ok? ==> IsCodeword(data + r.value, ecCount)
  {
    hide Add, Mul, AddLow, Zeros, Product, Strip, Divides, IsCodeword, RightAligned;
    var rsPoly := GetErrorCorrectPolynomial(math, ecCount);
    if rsPoly.Throws? { return Throws; }
    var g := rsPoly.value;
    ModThrows(data, ecCount);
    var rawPoly := NewPolynomial(data, |g| - 1);
    var modPoly := Mod(math, rawPoly, g);
    if modPoly.Throws? { return Throws; }
    var rem := modPoly.value;
    var ec := AlignRemainder(rem, |g| - 1);
    SystematicCodeword(data, ecCount, rem);
    r := Ok(ec);
  }

  method AlignRemainder(rem: Poly, n: nat) returns (ec: Poly)
    requires |rem| <= n
    ensures ec == RightAligned(rem, n)
  {
    hide Zeros;
    var ecdata := new Byte[n](_ => ZERO);
    for i := 0 to n
      invariant forall k :: 0 <= k < i ==> ecdata[k] == RightAligned(rem, n)[k]
    {
      var modIndex := i + |rem| - n;
      ecdata[i] := if modIndex >= 0 then rem[modIndex] else ZERO;
    }
    ec := ecdata[..];
  }
}
