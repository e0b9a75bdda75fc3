/** What the error-correction code words are for: two different code words with n parity words
    differ in more than n places, so that up to n / 2 corrupted words have one reading only. */
module CodeDistance {
  import opened Bytes
  import opened Gf256
  import opened Polynomials
  import opened ReedSolomon

  /** The coefficient c of a polynomial, standing at the power whose value at alpha is x. */
  datatype Term = Term(c: Byte, x: Byte)

  ghost function Pow(x: Byte, j: nat): Byte {
    if j == 0 then ONE else Mul(Pow(x, j - 1), x)
  }

  /** The j-th power sum of the terms: the j-th syndrome. */
  ghost function PowerSumOf(ts: seq<Term>, j: nat): Byte {
    if |ts| == 0 then ZERO
    else Add(PowerSumOf(ts[..|ts| - 1], j), Mul(ts[|ts| - 1].c, Pow(ts[|ts| - 1].x, j)))
  }

  lemma PowerSumAppend(ts: seq<Term>, t: Term, j: nat)
    ensures PowerSumOf(ts + [t], j) == Add(PowerSumOf(ts, j), Mul(t.c, Pow(t.x, j)))
  {
    hide Add, Mul, Pow;
    assert (ts + [t])[..|ts|] == ts;
  }

  ghost predicate DistinctLocations(ts: seq<Term>) {
    forall i, k :: 0 <= i < k < |ts| ==> ts[i].x != ts[k].x
  }

  // --- Elimination: a Vandermonde system has only the trivial solution ---

  /** Multiplies every coefficient by the distance of its location from x. */
  ghost function Eliminate(ts: seq<Term>, x: Byte): (r: seq<Term>)
    ensures |r| == |ts|
    ensures forall i :: 0 <= i < |ts| ==> r[i] == Term(Mul(ts[i].c, Add(ts[i].x, x)), ts[i].x)
  {
    if |ts| == 0 then []
    else
      hide Add, Mul;
      var front, t := ts[..|ts| - 1], ts[|ts| - 1];
      assert forall i :: 0 <= i < |front| ==> front[i] == ts[i];
      Eliminate(front, x) + [Term(Mul(t.c, Add(t.x, x)), t.x)]
  }

  lemma EliminateTerm(t: Term, x: Byte, j: nat)
    ensures Mul(Mul(t.c, Add(t.x, x)), Pow(t.x, j)) ==
            Add(Mul(t.c, Pow(t.x, j + 1)), Mul(x, Mul(t.c, Pow(t.x, j))))
  {
    hide Add, Mul;
    var c, y, p := t.c, t.x, Pow(t.x, j);
    MulDistributes(c, y, x);
    MulDistributes(p, Mul(c, y), Mul(c, x));
    MulAssociates(c, y, p);
    MulCommutes(y, p);
    MulCommutes(c, x);
    MulAssociates(x, c, p);
  }

  lemma {:induction false} EliminateSum(ts: seq<Term>, x: Byte, j: nat)
    ensures PowerSumOf(Eliminate(ts, x), j) == Add(PowerSumOf(ts, j + 1), Mul(x, PowerSumOf(ts, j)))
  {
    hide Add, Mul, Pow;
    if |ts| == 0 {
      ZeroFactor(x, ZERO);
      AddZero(ZERO);
    } else {
      var front, t := ts[..|ts| - 1], ts[|ts| - 1];
      EliminateSum(front, x, j);
      PowerSumAppend(Eliminate(front, x), Term(Mul(t.c, Add(t.x, x)), t.x), j);
      EliminateTerm(t, x, j);
      var u, v := PowerSumOf(front, j), Mul(t.c, Pow(t.x, j));
      MulDistributes(x, u, v);
      AddExchange(PowerSumOf(front, j + 1), Mul(x, u), Mul(t.c, Pow(t.x, j + 1)), Mul(x, v));
    }
  }

  /** If as many power sums vanish as there are terms, every coefficient is zero. */
  lemma {:induction false} Vandermonde(ts: seq<Term>)
    requires DistinctLocations(ts)
    requires forall j: nat :: j < |ts| ==> PowerSumOf(ts, j) == ZERO
    ensures forall i :: 0 <= i < |ts| ==> ts[i].c == ZERO
    decreases |ts|
  {
    hide Add, Mul, Pow;
    if |ts| == 0 {
    } else {
      var n := |ts| - 1;
      var x, rest := ts[n].x, ts[..n];
      var reduced := Eliminate(rest, x);
      forall j: nat | j < n ensures PowerSumOf(reduced, j) == ZERO {
        EliminatedLast(ts, j);
      }
      Vandermonde(reduced);
      forall i | 0 <= i < n ensures ts[i].c == ZERO {
        assert reduced[i].c == Mul(ts[i].c, Add(ts[i].x, x));
        AddSelf(ts[i].x, x);
        MulZero(ts[i].c, Add(ts[i].x, x));
      }
      ZeroTerms(rest, 0);
      LastTerm(ts);
    }
  }

  lemma EliminatedLast(ts: seq<Term>, j: nat)
    requires |ts| > 0 && PowerSumOf(ts, j) == ZERO && PowerSumOf(ts, j + 1) == ZERO
    ensures PowerSumOf(Eliminate(ts[..|ts| - 1], ts[|ts| - 1].x), j) == ZERO
  {
    hide Add, Mul, Pow;
    var front, t := ts[..|ts| - 1], ts[|ts| - 1];
    var e := Eliminate(front, t.x);
    EliminateSum(ts, t.x, j);
    ZeroFactor(t.x, ZERO);
    AddZero(ZERO);
    PowerSumAppend(e, Term(Mul(t.c, Add(t.x, t.x)), t.x), j);
    AddSelf(t.x, t.x);
    ZeroFactor(t.c, ZERO);
    ZeroFactor(ZERO, Pow(t.x, j));
    AddZero(PowerSumOf(e, j));
    assert front + [t] == ts;
  }

  lemma {:induction false} ZeroTerms(ts: seq<Term>, j: nat)
    requires forall i :: 0 <= i < |ts| ==> ts[i].c == ZERO
    ensures PowerSumOf(ts, j) == ZERO
  {
    hide Add, Mul, Pow;
    if |ts| == 0 {
    } else {
      ZeroTerms(ts[..|ts| - 1], j);
      ZeroFactor(ZERO, Pow(ts[|ts| - 1].x, j));
      AddZero(ZERO);
    }
  }

  lemma LastTerm(ts: seq<Term>)
    requires |ts| > 0 && PowerSumOf(ts, 0) == ZERO && PowerSumOf(ts[..|ts| - 1], 0) == ZERO
    ensures ts[|ts| - 1].c == ZERO
  {
    hide Add, Mul;
    var t := ts[|ts| - 1];
    MulOne(t.c);
    AddZero(t.c);
  }

  // --- From syndromes to power sums ---

  ghost function Shift(ts: seq<Term>): (r: seq<Term>)
    ensures |r| == |ts| && forall i :: 0 <= i < |ts| ==> r[i] == Term(ts[i].c, Double(ts[i].x))
  {
    if |ts| == 0 then []
    else Shift(ts[..|ts| - 1]) + [Term(ts[|ts| - 1].c, Double(ts[|ts| - 1].x))]
  }

  ghost function Terms(p: Poly): (r: seq<Term>)
    ensures |r| == |p| && forall i :: 0 <= i < |p| ==> r[i] == Term(p[i], Power(|p| - 1 - i))
  {
    if |p| == 0 then []
    else
      hide Double;
      Shift(Terms(p[..|p| - 1])) + [Term(p[|p| - 1], ONE)]
  }

  lemma DoubleIsTimesAlpha(x: Byte)
    ensures Double(x) == Mul(Power(1), x)
  {
    hide Mul, Double;
    MulPower(1, x);
    assert Scale(x, 1) == Double(Scale(x, 0));
  }

  lemma {:induction false} PowDouble(x: Byte, j: nat)
    ensures Pow(Double(x), j) == Mul(Power(j), Pow(x, j))
  {
    hide Mul, Double, Power;
    if j == 0 {
      assert Power(0) == ONE by { PowerZero(); }
      MulOne(ONE);
    } else {
      PowDouble(x, j - 1);
      DoubleIsTimesAlpha(x);
      var a, p, b := Power(j - 1), Pow(x, j - 1), Power(1);
      MulAssociates(a, p, Mul(b, x));
      MulAssociates(p, b, x);
      MulCommutes(p, b);
      MulAssociates(b, p, x);
      MulAssociates(a, b, Mul(p, x));
      PowerSum(j - 1, 1);
    }
  }

  lemma {:induction false} ShiftSum(ts: seq<Term>, j: nat)
    ensures PowerSumOf(Shift(ts), j) == Mul(PowerSumOf(ts, j), Power(j))
  {
    hide Mul, Add, Double, Power, Pow;
    if |ts| == 0 {
      ZeroFactor(ZERO, Power(j));
    } else {
      var front, t := ts[..|ts| - 1], ts[|ts| - 1];
      ShiftSum(front, j);
      PowerSumAppend(Shift(front), Term(t.c, Double(t.x)), j);
      PowDouble(t.x, j);
      MulCommutes(Power(j), Pow(t.x, j));
      MulAssociates(t.c, Pow(t.x, j), Power(j));
      MulDistributes(Power(j), PowerSumOf(front, j), Mul(t.c, Pow(t.x, j)));
    }
  }

  lemma {:induction false} PowOne(j: nat)
    ensures Pow(ONE, j) == ONE
  {
    hide Mul;
    if j == 0 {
    } else {
      PowOne(j - 1);
      MulOne(ONE);
    }
  }

  lemma {:induction false} SyndromeIsPowerSum(p: Poly, j: nat)
    ensures Eval(p, Power(j)) == PowerSumOf(Terms(p), j)
  {
    hide Mul, Add, Double, Power, Pow, Shift;
    if |p| == 0 {
    } else {
      var front, last := p[..|p| - 1], p[|p| - 1];
      SyndromeIsPowerSum(front, j);
      ShiftSum(Terms(front), j);
      PowerSumAppend(Shift(Terms(front)), Term(last, ONE), j);
      PowOne(j);
      MulOne(last);
    }
  }

  // --- Weight and distance ---

  ghost function NonzeroTerms(ts: seq<Term>): (r: seq<Term>)
    ensures forall i :: 0 <= i < |r| ==> r[i].c != ZERO && r[i] in ts
  {
    if |ts| == 0 then []
    else
      var t := ts[|ts| - 1];
      NonzeroTerms(ts[..|ts| - 1]) + if t.c == ZERO then [] else [t]
  }

  lemma {:induction false} NonzeroDistinct(ts: seq<Term>)
    requires DistinctLocations(ts)
    ensures DistinctLocations(NonzeroTerms(ts))
  {
    if |ts| == 0 {
    } else {
      NonzeroDistinct(ts[..|ts| - 1]);
    }
  }

  lemma {:induction false} NonzeroSum(ts: seq<Term>, j: nat)
    ensures PowerSumOf(NonzeroTerms(ts), j) == PowerSumOf(ts, j)
  {
    hide Mul, Add, Pow;
    if |ts| == 0 {
    } else {
      var front, t := ts[..|ts| - 1], ts[|ts| - 1];
      NonzeroSum(front, j);
      if t.c == ZERO {
        ZeroFactor(ZERO, Pow(t.x, j));
        AddZero(PowerSumOf(front, j));
        assert NonzeroTerms(ts) == NonzeroTerms(front);
      } else {
        PowerSumAppend(NonzeroTerms(front), t, j);
      }
    }
  }

  function Weight(p: Poly): nat {
    if |p| == 0 then 0
    else Weight(p[..|p| - 1]) + if p[|p| - 1] == ZERO then 0 else 1
  }

  lemma {:induction false} WeightIsCount(p: Poly, ts: seq<Term>)
    requires |ts| == |p| && forall i :: 0 <= i < |p| ==> ts[i].c == p[i]
    ensures Weight(p) == |NonzeroTerms(ts)|
  {
    if |p| == 0 {
    } else {
      WeightIsCount(p[..|p| - 1], ts[..|p| - 1]);
    }
  }

  lemma TermsDistinct(p: Poly)
    requires |p| <= 255
    ensures DistinctLocations(Terms(p))
  {
    hide Power, Terms;
    var ts := Terms(p);
    forall i, k | 0 <= i < k < |ts| ensures ts[i].x != ts[k].x {
      if ts[i].x == ts[k].x { PowerInjective(|p| - 1 - k, |p| - 1 - i); }
    }
  }

  lemma SyndromeVanishes(p: Poly, n: nat, j: nat)
    requires IsCodeword(p, n) && j < n
    ensures Eval(p, Power(j)) == ZERO
  {
  }

  lemma NonvanishingSyndrome(ts: seq<Term>) returns (j: nat)
    requires |ts| > 0 && DistinctLocations(ts) && ts[0].c != ZERO
    ensures j < |ts| && PowerSumOf(ts, j) != ZERO
  {
    hide PowerSumOf;
    if j: nat :| j < |ts| && PowerSumOf(ts, j) != ZERO {
      return j;
    }
    Vandermonde(ts);
  }

  /** A non-zero code word with n parity words has more than n non-zero words. */
  lemma MinimumWeight(p: Poly, n: nat)
    requires |p| <= 255 && IsCodeword(p, n) && Weight(p) > 0
    ensures Weight(p) > n
  {
    hide *;
    var ts := Terms(p);
    var nz := NonzeroTerms(ts);
    WeightIsCount(p, ts);
    TermsDistinct(p);
    NonzeroDistinct(ts);
    if |nz| <= n {
      var j := NonvanishingSyndrome(nz);
      SyndromeVanishes(p, n, j);
      SyndromeIsPowerSum(p, j);
      NonzeroSum(ts, j);
    }
  }

  /** The Hamming distance. */
  function Distance(a: Poly, b: Poly): nat
    requires |a| == |b|
  {
    if |a| == 0 then 0
    else Distance(a[..|a| - 1], b[..|a| - 1]) + if a[|a| - 1] == b[|a| - 1] then 0 else 1
  }

  lemma {:induction false} DistanceIsWeight(a: Poly, b: Poly)
    requires |a| == |b|
    ensures Distance(a, b) == Weight(AddLow(a, b))
  {
    hide Add;
    if |a| == 0 {
    } else {
      DistanceIsWeight(a[..|a| - 1], b[..|a| - 1]);
      AddSelf(a[|a| - 1], b[|a| - 1]);
      assert AddLow(a, b)[..|a| - 1] == AddLow(a[..|a| - 1], b[..|a| - 1]);
    }
  }

  lemma {:induction false} DistanceZero(a: Poly, b: Poly)
    requires |a| == |b| && Distance(a, b) == 0
    ensures a == b
  {
    if |a| == 0 {
    } else {
      DistanceZero(a[..|a| - 1], b[..|a| - 1]);
      assert a == a[..|a| - 1] + [a[|a| - 1]] == b[..|a| - 1] + [b[|a| - 1]] == b;
    }
  }

  /** Two different code words of equal length (at most 255) differ in more than n places. */
  lemma MinimumDistance(a: Poly, b: Poly, n: nat)
    requires |a| == |b| <= 255 && a != b
    requires IsCodeword(a, n) && IsCodeword(b, n)
    ensures Distance(a, b) > n
  {
    hide Mul, Add, Power, Eval, Distance, Weight, AddLow;
    forall j: nat | j < n ensures Eval(AddLow(a, b), Power(j)) == ZERO {
      EvalAddLow(a, b, Power(j));
      AddZero(ZERO);
    }
    DistanceIsWeight(a, b);
    if Distance(a, b) == 0 { DistanceZero(a, b); }
    MinimumWeight(AddLow(a, b), n);
  }

  lemma {:induction false} Triangle(a: Poly, r: Poly, b: Poly)
    requires |a| == |r| == |b|
    ensures Distance(a, b) <= Distance(a, r) + Distance(r, b)
    ensures Distance(a, r) == Distance(r, a)
  {
    if |a| == 0 {
    } else {
      Triangle(a[..|a| - 1], r[..|a| - 1], b[..|a| - 1]);
    }
  }

  /** However a word was corrupted, at most one code word lies within n / 2 errors of it. */
  lemma UniqueCorrection(received: Poly, a: Poly, b: Poly, n: nat)
    requires |received| == |a| == |b| <= 255
    requires IsCodeword(a, n) && IsCodeword(b, n)
    requires 2 * Distance(received, a) <= n && 2 * Distance(received, b) <= n
    ensures a == b
  {
    hide IsCodeword;
    Triangle(a, received, b);
    if a != b { MinimumDistance(a, b, n); }
  }

  lemma {:induction false} DistanceOfSuffixes(p: Poly, a: Poly, b: Poly)
    requires |a| == |b|
    ensures Distance(p + a, p + b) <= |a|
  {
    if |a| == 0 {
      DistanceSelf(p + a);
      assert p + a == p + b;
    } else {
      DistanceOfSuffixes(p, a[..|a| - 1], b[..|a| - 1]);
      assert (p + a)[..|p + a| - 1] == p + a[..|a| - 1];
      assert (p + b)[..|p + b| - 1] == p + b[..|a| - 1];
    }
  }

  lemma {:induction false} DistanceSelf(p: Poly)
    ensures Distance(p, p) == 0
  {
    if |p| == 0 {
    } else {
      DistanceSelf(p[..|p| - 1]);
    }
  }

  /** The parity words of a block are determined by its data words. */
  lemma ParityIsUnique(data: Poly, a: Poly, b: Poly, n: nat)
    requires |a| == |b| == n && |data| + n <= 255
    requires IsCodeword(data + a, n) && IsCodeword(data + b, n)
    ensures a == b
  {
    hide IsCodeword;
    DistanceOfSuffixes(data, a, b);
    if data + a != data + b { MinimumDistance(data + a, data + b, n); }
    assert a == (data + a)[|data|..] && b == (data + b)[|data|..];
  }
}
