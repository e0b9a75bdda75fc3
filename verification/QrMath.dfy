/** `QRMath`: the exponential and logarithm tables, and the two look-ups. */
module QrMath {
  import opened Bytes
  import opened Gf256
  import opened Outcomes

  /** alpha^n for any integer n. */
  function PowerInt(n: int): Byte {
    Power(n % 255)
  }

  /** The byte 1 << i. */
  function ShiftedOne(i: nat): Byte {
    Byte(i == 7, i == 6, i == 5, i == 4, i == 3, i == 2, i == 1, i == 0)
  }

  lemma {:induction false} PowerSmall(i: nat)
    requires i < 8
    ensures Power(i) == ShiftedOne(i)
  {
    if i == 0 {
    } else {
      PowerSmall(i - 1);
    }
  }

  /** The reduction polynomial: x^8 = x^4 + x^3 + x^2 + 1. */
  lemma PowerEight()
    ensures Power(8) == Add(Add(Add(Power(4), Power(3)), Power(2)), Power(0))
  {
    PowerSmall(0);
    PowerSmall(2);
    PowerSmall(3);
    PowerSmall(4);
    PowersTo8();
    hide Power;
  }

  /** The recurrence that fills the table. */
  lemma PowerRecurrence(n: nat)
    ensures Power(n + 8) == Xor(Xor(Xor(Power(n + 4), Power(n + 3)), Power(n + 2)), Power(n))
  {
    hide Power, Mul, Add;
    var b := Power(n);
    PowerEight();
    PowerSum(n, 8);
    PowerSum(n, 4);
    PowerSum(n, 3);
    PowerSum(n, 2);
    PowerSum(n, 0);
    MulDistributes(b, Add(Add(Power(4), Power(3)), Power(2)), Power(0));
    MulDistributes(b, Add(Power(4), Power(3)), Power(2));
    MulDistributes(b, Power(4), Power(3));
    SumOfFour(Power(n + 4), Power(n + 3), Power(n + 2), b);
  }

  lemma SumOfFour(a: Byte, b: Byte, c: Byte, d: Byte)
    ensures Add(Add(Add(a, b), c), d) == Xor(Xor(Xor(a, b), c), d)
  {
  }

  lemma LogUnique(i: nat)
    requires i < 255
    ensures Power(i) != ZERO && Log(Power(i)) == i
  {
    hide Power;
    PowerNonzero(i);
    var l := Log(Power(i));
    if l < i { PowerInjective(l, i); } else { PowerInjective(i, l); }
  }

  lemma {:induction false} PowerModulo(n: nat)
    ensures Power(n) == PowerInt(n)
  {
    hide Power;
    if n < 255 {
    } else {
      PowerPeriod(n - 255);
      PowerModulo(n - 255);
      assert n % 255 == (n - 255) % 255;
    }
  }

  /** A turn of the whole circle changes nothing. */
  lemma TurnModulo(m: int)
    ensures (m + 255) % 255 == m % 255 == (m - 255) % 255
  {
  }

  lemma SameTurn(m: int, n: int)
    requires m % 255 == n % 255
    ensures PowerInt(m) == PowerInt(n)
  {
  }

  /** Exponents add. */
  lemma PowerIntSum(k: int, n: nat)
    ensures Mul(PowerInt(k), Power(n)) == PowerInt(k + n)
  {
    hide Power, Mul;
    PowerSum(k % 255, n);
    PowerModulo(k % 255 + n);
    assert (k % 255 + n) % 255 == (k + n) % 255;
  }

  class QrMath {
    const exp: array<Byte>
    var log: map<Byte, nat>

    ghost predicate Valid()
      reads this, exp
    {
      && exp.Length == 256
      && (forall i: nat :: i < 256 ==> exp[i] == Power(i))
      && (forall b: Byte :: b != ZERO ==> b in log && log[b] == Log(b))
    }

    constructor ()
      ensures Valid() && fresh(exp)
    {
      exp := new Byte[256](_ => ZERO);
      log := map[];
      new;
      FillExp();
      FillLog();
    }

    method FillExp()
      requires exp.Length == 256
      modifies exp
      ensures forall i: nat :: i < 256 ==> exp[i] == Power(i)
    {
      hide Power, Xor;
      for i := 0 to 8
        invariant forall j: nat :: j < i ==> exp[j] == Power(j)
      {
        exp[i] := ShiftedOne(i);
        PowerSmall(i);
      }
      for i := 8 to 256
        invariant forall j: nat :: j < i ==> exp[j] == Power(j)
      {
        exp[i] := Xor(Xor(Xor(exp[i - 4], exp[i - 5]), exp[i - 6]), exp[i - 8]);
        PowerRecurrence(i - 8);
      }
    }

    method FillLog()
      requires exp.Length == 256 && forall i: nat :: i < 256 ==> exp[i] == Power(i)
      modifies this
      ensures forall b: Byte :: b != ZERO ==> b in log && log[b] == Log(b)
    {
      hide Power;
      for i := 0 to 255
        invariant forall j: nat :: j < i ==> Power(j) in log && log[Power(j)] == j
      {
        forall j: nat | j < i ensures Power(j) != Power(i) {
          if Power(j) == Power(i) { PowerInjective(j, i); }
        }
        log := log[exp[i] := i];
      }
      forall b: Byte | b != ZERO ensures b in log && log[b] == Log(b) {
        assert Power(Log(b)) == b;
      }
    }

    method Glog(n: Byte) returns (r: Outcome<nat>)
      requires Valid()
      ensures r == if n == ZERO then Throws else Ok(Log(n))
    {
      if n == ZERO {
        return Throws;
      }
      return Ok(log[n]);
    }

    method Gexp(n: int) returns (r: Byte)
      requires Valid()
      ensures r == PowerInt(n)
    {
      hide Power, PowerInt, Log;
      var m := n;
      while m < 0
        invariant m % 255 == n % 255
        decreases -m
      {
        TurnModulo(m);
        m := m + 255;
      }
      while m >= 256
        invariant m >= 0 && m % 255 == n % 255
      {
        TurnModulo(m);
        m := m - 255;
      }
      PowerModulo(m);
      SameTurn(m, n);
      r := exp[m];
    }
  }
}
