/** `qrPolynomial`: construction, product and remainder, as the loops over coefficient
    arrays that the source runs.  An array slot JavaScript leaves undefined reads as zero. */
module QrPolynomial {
  import opened Bytes
  import opened Gf256
  import opened Outcomes
  import opened Polynomials
  import opened QrMath

  /** The polynomial without its leading zeros. */
  function Strip(num: Poly): (r: Poly)
    ensures |r| <= |num|
    ensures r == [] || r[0] != ZERO
    decreases |num|
  {
    if |num| > 0 && num[0] == ZERO then Strip(num[1..]) else num
  }

  lemma {:induction false} StripSplit(num: Poly)
    ensures num == Zeros(|num| - |Strip(num)|) + Strip(num)
    decreases |num|
  {
    hide Zeros;
    if |num| > 0 && num[0] == ZERO {
      StripSplit(num[1..]);
      ZerosPrepend(|num| - 1 - |Strip(num)|);
      assert num == [ZERO] + num[1..];
    } else {
      assert Zeros(0) == [];
    }
  }

  lemma {:induction false} ZerosPrepend(n: nat)
    ensures Zeros(n + 1) == [ZERO] + Zeros(n)
  {
    if n == 0 {
    } else {
      ZerosPrepend(n - 1);
      assert Zeros(n + 1) == ([ZERO] + Zeros(n - 1)) + [ZERO];
    }
  }

  /** `qrPolynomial(num, shift)`: leading zeros go, shift zero coefficients are appended. */
  method NewPolynomial(num: Poly, shift: nat) returns (r: Poly)
    ensures r == Strip(num) + Zeros(shift)
  {
    hide Zeros, Strip;
    var offset := SkipZeros(num);
    var out := new Byte[|num| - offset + shift](_ => ZERO);
    for i := 0 to |num| - offset
      invariant forall k :: 0 <= k < i ==> out[k] == num[k + offset]
      invariant forall k :: i <= k < out.Length ==> out[k] == ZERO
    {
      out[i] := num[i + offset];
    }
    r := out[..];
    assert r == num[offset..] + Zeros(shift);
  }

  method SkipZeros(num: Poly) returns (offset: nat)
    ensures offset <= |num| && num[offset..] == Strip(num)
  {
    offset := 0;
    assert num[0..] == num;
    while offset < |num| && num[offset] == ZERO
      invariant 0 <= offset <= |num|
      invariant Strip(num) == Strip(num[offset..])
    {
      assert num[offset..][1..] == num[offset + 1..];
      offset := offset + 1;
    }
  }

  /** Row i of the long multiplication after its first j terms. */
  ghost predicate RowDone(num: Poly, before: Poly, c: Byte, e: Poly, i: nat, j: nat) {
    && |num| == |before| && i + |e| <= |num| && j <= |e|
    && forall k :: 0 <= k < |num| ==>
                     num[k] == if i <= k < i + j then Add(before[k], Mul(c, e[k - i])) else before[k]
  }

  lemma RowStart(before: Poly, c: Byte, e: Poly, i: nat)
    requires i + |e| <= |before|
    ensures RowDone(before, before, c, e, i, 0)
  {
  }

  lemma RowStep(num: Poly, before: Poly, c: Byte, e: Poly, i: nat, j: nat)
    requires RowDone(num, before, c, e, i, j) && j < |e|
    ensures RowDone(num[i + j := Add(num[i + j], Mul(c, e[j]))], before, c, e, i, j + 1)
  {
    hide Add, Mul;
  }

  lemma RowEnd(num: Poly, a: Poly, e: Poly, i: nat)
    requires 0 < |e| && i < |a|
    requires RowDone(num, Product(a[..i], e) + Zeros(|a| - i), a[i], e, i, |e|)
    ensures num == Product(a[..i + 1], e) + Zeros(|a| - i - 1)
  {
    hide Add, Mul, AddLow, ScaleBy, Product, Zeros;
    var p := Product(a[..i], e);
    assert a[..i + 1] == a[..i] + [a[i]];
    ProductAppend(a[..i], a[i], e);
    var q := AddLow(p + [ZERO], ScaleBy(a[i], e));
    assert |p| + 1 == i + |e|;
    forall k | 0 <= k < |num| ensures num[k] == (q + Zeros(|a| - i - 1))[k] {
      if k < i {
      } else if k < i + |e| {
        assert q[k] == Add((p + [ZERO])[k], ScaleBy(a[i], e)[k - i]);
        assert (p + Zeros(|a| - i))[k] == (p + [ZERO])[k];
      } else {
      }
    }
  }

  /** One term of the product, `gexp(glog(a) + glog(b))`. */
  method Term(math: QrMath, a: Byte, b: Byte) returns (r: Outcome<Byte>)
    requires math.Valid()
    ensures r == if a == ZERO || b == ZERO then Throws else Ok(Mul(a, b))
  {
    hide Mul, Power;
    var x := math.Glog(a);
    if x.Throws? { return Throws; }
    var y := math.Glog(b);
    if y.Throws? { return Throws; }
    var t := math.Gexp(x.value + y.value);
    PowerModulo(Log(a));
    PowerIntSum(Log(a), Log(b));
    r := Ok(t);
  }

  method MultiplyRow(math: QrMath, num: array<Byte>, c: Byte, e: Poly, i: nat) returns (ok: bool)
    requires math.Valid() && num != math.exp
    requires |e| > 0 && i + |e| <= num.Length
    modifies num
    ensures ok <==> c != ZERO && ZERO !in e
    ensures ok ==> RowDone(num[..], old(num[..]), c, e, i, |e|)
  {
    hide Add, Mul, Power, RowDone;
    ghost var before := num[..];
    RowStart(before, c, e, i);
    for j := 0 to |e|
      invariant ZERO !in e[..j] && (j > 0 ==> c != ZERO)
      invariant RowDone(num[..], before, c, e, i, j)
    {
      var t := Term(math, c, e[j]);
      if t.Throws? { return false; }
      RowStep(num[..], before, c, e, i, j);
      ghost var row := num[..];
      num[i + j] := Xor(num[i + j], t.value);
      assert num[..] == row[i + j := Add(row[i + j], Mul(c, e[j]))] by { AddIsXor(row[i + j], t.value); }
      assert e[..j + 1] == e[..j] + [e[j]];
    }
    assert e[..|e|] == e;
    return true;
  }

  lemma AddIsXor(a: Byte, b: Byte)
    ensures Add(a, b) == Xor(a, b)
  {
  }

  /** `multiply`: throws exactly when a coefficient has no logarithm. */
  method Multiply(math: QrMath, a: Poly, e: Poly) returns (r: Outcome<Poly>)
    requires math.Valid()
    requires |a| > 0 && |e| > 0
    ensures r == if ZERO in a || ZERO in e then Throws else Ok(Strip(Product(a, e)))
  {
    hide Add, Mul, Product, Zeros, Strip, RowDone;
    var num := new Byte[|a| + |e| - 1](_ => ZERO);
    ProductEmpty(e);
    assert num[..] == Product(a[..0], e) + Zeros(|a|) by {
      assert a[..0] == [];
    }
    for i := 0 to |a|
      invariant ZERO !in a[..i] && (i > 0 ==> ZERO !in e)
      invariant num[..] == Product(a[..i], e) + Zeros(|a| - i)
    {
      var ok := MultiplyRow(math, num, a[i], e, i);
      if !ok { return Throws; }
      RowEnd(num[..], a, e, i);
      assert a[..i + 1] == a[..i] + [a[i]];
    }
    assert a[..|a|] == a;
    assert Product(a, e) + Zeros(0) == Product(a, e);
    var s := NewPolynomial(num[..], 0);
    assert Strip(Product(a, e)) + Zeros(0) == Strip(Product(a, e));
    r := Ok(s);
  }

  // --- Division ---

  /** The quotient of two non-zero bytes. */
  ghost function Ratio(a: Byte, b: Byte): Byte
    requires a != ZERO && b != ZERO
  {
    PowerInt(Log(a) - Log(b))
  }

  lemma RatioTimes(a: Byte, b: Byte, c: Byte)
    requires a != ZERO && b != ZERO && c != ZERO
    ensures Mul(Ratio(a, b), c) == PowerInt(Log(c) + (Log(a) - Log(b)))
    ensures Mul(Ratio(a, b), b) == a
  {
    hide Mul, Power;
    PowerIntSum(Log(a) - Log(b), Log(c));
    PowerIntSum(Log(a) - Log(b), Log(b));
    PowerModulo(Log(a));
  }

  /** Subtracts the multiple of e that cancels the leading coefficient of num. */
  method CancelHigh(math: QrMath, num: array<Byte>, e: Poly) returns (ok: bool)
    requires math.Valid() && num != math.exp
    requires 0 < |e| <= num.Length
    modifies num
    ensures ok <==> num.Length > 0 && old(num[0]) != ZERO && ZERO !in e
    ensures ok ==> num[..] == AddHigh(old(num[..]), ScaleBy(Ratio(old(num[0]), e[0]), e))
    ensures ok ==> num[0] == ZERO
  {
    hide Add, Mul, Power, PowerInt, Xor, RowDone, AddHigh, ScaleBy, Ratio;
    ghost var before := num[..];
    var x := math.Glog(num[0]);
    if x.Throws? { return false; }
    var y := math.Glog(e[0]);
    if y.Throws? { return false; }
    var l0: int, l1: int := x.value, y.value;
    var ratio := l0 - l1;
    ghost var c := Ratio(before[0], e[0]);
    RowStart(before, c, e, 0);
    for i := 0 to |e|
      invariant forall j :: 0 <= j < i ==> e[j] != ZERO
      invariant RowDone(num[..], before, c, e, 0, i)
    {
      var l := math.Glog(e[i]);
      if l.Throws? { return false; }
      var t := math.Gexp(l.value + ratio);
      RatioTimes(before[0], e[0], e[i]);
      RowStep(num[..], before, c, e, 0, i);
      ghost var row := num[..];
      num[i] := Xor(num[i], t);
      assert num[..] == row[0 + i := Add(row[0 + i], Mul(c, e[i]))] by { AddIsXor(row[i], t); }
    }
    RatioTimes(before[0], e[0], e[0]);
    RowIsAddHigh(num[..], before, c, e);
    AddSelf(before[0], before[0]);
    return true;
  }

  lemma RowIsAddHigh(num: Poly, before: Poly, c: Byte, e: Poly)
    requires |e| <= |before| && RowDone(num, before, c, e, 0, |e|)
    ensures num == AddHigh(before, ScaleBy(c, e))
    ensures |e| > 0 ==> num[0] == Add(before[0], Mul(c, e[0]))
  {
    hide Add, Mul, AddHigh, ScaleBy;
  }

  /** `mod`: the recursion strips at least one coefficient at every step.  It throws exactly
      when there is something to divide and a logarithm is missing; otherwise it leaves the
      remainder of a division, without leading zeros unless nothing was divided. */
  method Mod(math: QrMath, p: Poly, e: Poly) returns (r: Outcome<Poly>)
    requires math.Valid() && |e| > 0
    ensures r.Throws? <==> |p| >= |e| && (p[0] == ZERO || ZERO in e)
    ensures |p| < |e| ==> r == Ok(p)
    ensures r.Ok? ==> |r.value| < |e|
    ensures r.Ok? && |p| >= |e| - 1 ==> exists q :: Divides(p, q, e, r.value)
    decreases |p|
  {
    hide Mul, Power, Divides, AddHigh, ScaleBy, Ratio;
    if |p| - |e| < 0 {
      if |p| >= |e| - 1 { DivideSelf(p, e); }
      return Ok(p);
    }
    var num := new Byte[|p|](_ => ZERO);
    for i := 0 to |p|
      invariant num[..i] == p[..i]
    {
      num[i] := p[i];
    }
    assert num[..] == p;
    var ok := CancelHigh(math, num, e);
    if !ok { return Throws; }
    ghost var high := num[..];
    var s := NewPolynomial(num[..], 0);
    assert s == Strip(high) by { assert Strip(high) + Zeros(0) == Strip(high); }
    r := Mod(math, s, e);
    ModStep(p, e, high, r.value);
  }

  lemma DivideSelf(p: Poly, e: Poly)
    requires |e| > 0 && |p| == |e| - 1
    ensures exists q :: Divides(p, q, e, p)
  {
    DivideShort(0, p, e);
    assert Zeros(0) + p == p;
  }

  /** From the division of the stripped difference to the division of the dividend. */
  lemma ModStep(p: Poly, e: Poly, high: Poly, r: Poly)
    requires 0 < |e| <= |p| && p[0] != ZERO && e[0] != ZERO
    requires high == AddHigh(p, ScaleBy(Ratio(p[0], e[0]), e))
    requires |r| < |e|
    requires |Strip(high)| < |e| ==> r == Strip(high)
    requires |Strip(high)| >= |e| - 1 ==> exists q :: Divides(Strip(high), q, e, r)
    ensures exists q :: Divides(p, q, e, r)
  {
    hide *;
    var q := Unstrip(high, e, r);
    DivideStep(p, Ratio(p[0], e[0]), q, e, r);
  }

  lemma Unstrip(high: Poly, e: Poly, r: Poly) returns (q: Poly)
    requires 0 < |e| <= |high| && |r| < |e|
    requires |Strip(high)| < |e| ==> r == Strip(high)
    requires |Strip(high)| >= |e| - 1 ==> exists q :: Divides(Strip(high), q, e, r)
    ensures Divides(high, q, e, r)
  {
    hide *;
    var s := Strip(high);
    var n := |high| - |s|;
    StripSplit(high);
    if |s| < |e| {
      DivideShort(n, s, e);
      q := Zeros(n + |s| + 1 - |e|);
    } else {
      var q' :| Divides(s, q', e, r);
      DivideLeadingZeros(n, s, q', e, r);
      q := Zeros(n) + q';
    }
  }
}
