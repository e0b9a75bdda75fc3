/** What the format and version words are for: two of them differ in so many modules that a
    reader finds the right one among them with any three modules wrong (sections 7.9 and 7.10
    of ISO/IEC 18004:2015). */
module BchDistance {
  import opened JsBits
  import opened LsbBits
  import opened Bch
  import opened RsBlocks
  import Symbols = QrSymbol

  // --- Bits of a word ---

  function Weight(bit: bool): nat {
    if bit then 1 else 0
  }

  /** The number of ones. */
  function Ones(n: nat): nat {
    if n == 0 then 0 else n % 2 + Ones(n / 2)
  }

  /** The number of modules in which two words differ. */
  function Distance(a: nat, b: nat): nat {
    Ones(Xor(a, b))
  }

  /** The ones among the k low bits. */
  function OnesBelow(n: nat, k: nat): nat {
    if k == 0 then 0 else OnesBelow(n, k - 1) + Weight(Bit(n, k - 1))
  }

  lemma {:induction false} OnesBelowHalf(n: nat, k: nat)
    requires k > 0
    ensures OnesBelow(n, k) == n % 2 + OnesBelow(n / 2, k - 1)
  {
    if k <= 1 {
    } else {
      OnesBelowHalf(n, k - 1);
    }
  }

  lemma {:induction false} OnesAre(n: nat, k: nat)
    requires n < Pow2(k)
    ensures Ones(n) == OnesBelow(n, k)
  {
    if k == 0 {
    } else {
      OnesBelowHalf(n, k);
      OnesAre(n / 2, k - 1);
    }
  }

  lemma {:induction false} OnesOfXor(a: nat, b: nat)
    ensures Ones(Xor(a, b)) <= Ones(a) + Ones(b)
  {
    XorHalves(a, b);
    if a == 0 || b == 0 {
    } else {
      OnesOfXor(a / 2, b / 2);
    }
  }

  /** The triangle inequality. */
  lemma DistanceTriangle(a: nat, b: nat, c: nat)
    ensures Distance(a, c) <= Distance(b, a) + Distance(b, c)
  {
    hide Xor, Ones;
    XorExchange(b, a, b, c);
    XorSelf(b);
    XorZero(Xor(a, c));
    OnesOfXor(Xor(b, a), Xor(b, c));
  }

  lemma {:induction false} BitOfXor(a: nat, b: nat, i: nat)
    ensures Bit(Xor(a, b), i) == (Bit(a, i) != Bit(b, i))
  {
    hide Xor;
    XorHalves(a, b);
    if i == 0 {
    } else {
      BitOfXor(a / 2, b / 2, i - 1);
    }
  }

  lemma BitOfDouble(a: nat, i: nat)
    ensures Bit(2 * a, i) == (i > 0 && Bit(a, i - 1))
  {
    assert 2 * a / 2 == a;
  }

  lemma {:induction false} BitOfZero(i: nat)
    ensures !Bit(0, i)
  {
    if i == 0 {
    } else {
      BitOfZero(i - 1);
    }
  }

  lemma OneBit(n: nat, m: nat, r: nat)
    requires n == 2 * m + r && r < 2
    ensures Bit(n, 0) == (r == 1)
    ensures forall i: nat :: i >= 1 ==> Bit(n, i) == Bit(m, i - 1)
  {
  }

  /** Four bits at a time. */
  lemma FourBits(n: nat, m: nat, r3: nat, r2: nat, r1: nat, r0: nat)
    requires n == 16 * m + 8 * r3 + 4 * r2 + 2 * r1 + r0 && r3 < 2 && r2 < 2 && r1 < 2 && r0 < 2
    ensures Bit(n, 0) == (r0 == 1) && Bit(n, 1) == (r1 == 1) && Bit(n, 2) == (r2 == 1) && Bit(n, 3) == (r3 == 1)
    ensures forall i: nat :: i >= 4 ==> Bit(n, i) == Bit(m, i - 4)
  {
    hide Bit;
    OneBit(2 * m + r3, m, r3);
    OneBit(4 * m + 2 * r3 + r2, 2 * m + r3, r2);
    OneBit(8 * m + 4 * r3 + 2 * r2 + r1, 4 * m + 2 * r3 + r2, r1);
    OneBit(n, 8 * m + 4 * r3 + 2 * r2 + r1, r0);
  }

  // --- Bits of a product ---

  /** Bit i of the product of g and term j of b. */
  predicate Tap(b: seq<bool>, g: nat, i: nat, j: nat)
    requires j < |b|
  {
    b[j] && j <= i && Bit(g, i - j)
  }

  /** Bit i of the product of g and the first j terms of b. */
  predicate Taps(b: seq<bool>, g: nat, i: nat, j: nat)
    requires j <= |b|
  {
    j > 0 && Taps(b, g, i, j - 1) != Tap(b, g, i, j - 1)
  }

  lemma {:induction false} TapsTail(b: seq<bool>, g: nat, i: nat, j: nat)
    requires 0 < j <= |b|
    ensures Taps(b, g, i, j) == ((b[0] && Bit(g, i)) != (i > 0 && Taps(b[1..], g, i - 1, j - 1)))
  {
    hide Bit;
    if j <= 1 {
    } else {
      TapsTail(b, g, i, j - 1);
    }
  }

  lemma {:induction false} BitOfClmul(b: seq<bool>, g: nat, i: nat)
    ensures Bit(Clmul(Number(b), g), i) == Taps(b, g, i, |b|)
  {
    hide Bit, Xor, Taps, Clmul;
    if |b| == 0 {
      ProductOfNothing(g, i);
    } else {
      var q := Number(b);
      ClmulHalf(q, g);
      assert q / 2 == Number(b[1..]) && q % 2 == Weight(b[0]);
      var half := Clmul(q / 2, g);
      BitOfXor(2 * half, if b[0] then g else 0, i);
      BitOfDouble(half, i);
      BitOfZero(i);
      TapsTail(b, g, i, |b|);
      if i > 0 { BitOfClmul(b[1..], g, i - 1); }
    }
  }

  lemma ProductOfNothing(g: nat, i: nat)
    ensures Bit(Clmul(Number([]), g), i) == Taps([], g, i, 0)
  {
    BitOfZero(i);
  }

  lemma FiveTaps(b: seq<bool>, g: nat, i: nat)
    requires |b| >= 5
    ensures Taps(b, g, i, 5) ==
            ((((Tap(b, g, i, 0) != Tap(b, g, i, 1)) != Tap(b, g, i, 2)) != Tap(b, g, i, 3)) != Tap(b, g, i, 4))
  {
    hide Bit;
    assert Taps(b, g, i, 1) == Tap(b, g, i, 0);
    assert Taps(b, g, i, 2) == (Taps(b, g, i, 1) != Tap(b, g, i, 1));
    assert Taps(b, g, i, 3) == (Taps(b, g, i, 2) != Tap(b, g, i, 2));
    assert Taps(b, g, i, 4) == (Taps(b, g, i, 3) != Tap(b, g, i, 3));
  }

  /** A product below 2^n has the ones of its n low bits. */
  ghost predicate Shows(s: seq<bool>, n: nat) {
    forall i: nat :: i < |s| ==> s[i] == Bit(n, i)
  }

  function Count(s: seq<bool>, k: nat): nat
    requires k <= |s|
  {
    if k == 0 then 0 else Count(s, k - 1) + Weight(s[k - 1])
  }

  lemma {:induction false} CountIs(s: seq<bool>, n: nat, k: nat)
    requires k <= |s| && Shows(s, n)
    ensures OnesBelow(n, k) == Count(s, k)
  {
    hide Bit;
    if k == 0 {
    } else {
      CountIs(s, n, k - 1);
    }
  }

  lemma ThreeMore(s: seq<bool>, k: nat)
    requires k + 3 <= |s|
    ensures Count(s, k + 3) == Count(s, k) + Weight(s[k]) + Weight(s[k + 1]) + Weight(s[k + 2])
  {
    assert Count(s, k + 2) == Count(s, k + 1) + Weight(s[k + 1]);
    assert Count(s, k + 3) == Count(s, k + 2) + Weight(s[k + 2]);
  }

  lemma {:induction false} SomeOne(s: seq<bool>)
    requires Number(s) > 0
    ensures exists i :: 0 <= i < |s| && s[i]
  {
    if |s| == 0 || s[0] {
    } else {
      SomeOne(s[1..]);
      var i :| 0 <= i < |s[1..]| && s[1..][i];
      assert s[i + 1];
    }
  }

  lemma {:induction false} DigitsOfClmul(q: nat, g: nat)
    requires q > 0 && g > 0
    ensures Digits(Clmul(q, g)) + 1 == Digits(q) + Digits(g)
  {
    hide Xor;
    ClmulHalf(q, g);
    if q == 1 {
      XorZero(g);
    } else {
      DigitsOfClmul(q / 2, g);
      var half := Clmul(q / 2, g);
      assert Digits(2 * half) == Digits(half) + 1;
      XorZero(2 * half);
      if q % 2 == 1 { LongerWins(2 * half, g); }
    }
  }

  lemma {:induction false} LongerWins(a: nat, b: nat)
    requires Digits(b) < Digits(a)
    ensures Digits(Xor(a, b)) == Digits(a)
  {
    XorHalves(a, b);
    if b == 0 {
    } else {
      LongerWins(a / 2, b / 2);
    }
  }

  lemma XorNonzero(a: nat, b: nat)
    requires Xor(a, b) == 0
    ensures a == b
  {
    hide Xor;
    XorTwice(a, b);
    XorZero(b);
  }

  lemma CountNone(s: seq<bool>)
    ensures Count(s, 0) == 0
  {
  }

  lemma LastTap(b: seq<bool>, g: nat, i: nat)
    requires |b| >= 6
    ensures Taps(b, g, i, 6) == (Taps(b, g, i, 5) != Tap(b, g, i, 5))
  {
  }

  // --- Format words ---

  lemma FormatGenerator()
    ensures Bit(G15, 0) && Bit(G15, 1) && Bit(G15, 2) && !Bit(G15, 3) && Bit(G15, 4) &&
            Bit(G15, 5) && !Bit(G15, 6) && !Bit(G15, 7) && Bit(G15, 8) && !Bit(G15, 9) &&
            Bit(G15, 10) && !Bit(G15, 11) && !Bit(G15, 12) && !Bit(G15, 13) && !Bit(G15, 14)
  {
    hide Bit;
    FourBits(G15, 0x53, 0, 1, 1, 1);
    FourBits(0x53, 0x5, 0, 0, 1, 1);
    FourBits(0x5, 0, 0, 1, 0, 1);
    FourBits(0, 0, 0, 0, 0, 0);
  }

  /** The 15 bits of the multiple of G15 whose quotient has the bits b0 to b4. */
  function FormatMultiple(b0: bool, b1: bool, b2: bool, b3: bool, b4: bool): (s: seq<bool>)
    ensures |s| == 15
  {
    [b0, b0 != b1, (b0 != b1) != b2, (b1 != b2) != b3, ((b0 != b2) != b3) != b4, ((b0 != b1) != b3) != b4,
     (b1 != b2) != b4, b2 != b3, (b0 != b3) != b4, b1 != b4, b0 != b2, b1 != b3, b2 != b4, b3, b4]
  }

  lemma FormatTapsLow(b0: bool, b1: bool, b2: bool, b3: bool, b4: bool, i: nat)
    requires i < 5
    ensures Taps([b0, b1, b2, b3, b4], G15, i, 5) == FormatMultiple(b0, b1, b2, b3, b4)[i]
  {
    hide Bit, Taps;
    FormatGenerator();
    FiveTaps([b0, b1, b2, b3, b4], G15, i);
  }

  lemma FormatTapsMiddle(b0: bool, b1: bool, b2: bool, b3: bool, b4: bool, i: nat)
    requires 5 <= i < 10
    ensures Taps([b0, b1, b2, b3, b4], G15, i, 5) == FormatMultiple(b0, b1, b2, b3, b4)[i]
  {
    hide Bit, Taps;
    FormatGenerator();
    FiveTaps([b0, b1, b2, b3, b4], G15, i);
  }

  lemma FormatTapsHigh(b0: bool, b1: bool, b2: bool, b3: bool, b4: bool, i: nat)
    requires 10 <= i < 15
    ensures Taps([b0, b1, b2, b3, b4], G15, i, 5) == FormatMultiple(b0, b1, b2, b3, b4)[i]
  {
    hide Bit, Taps;
    FormatGenerator();
    FiveTaps([b0, b1, b2, b3, b4], G15, i);
  }

  lemma FormatTaps(b0: bool, b1: bool, b2: bool, b3: bool, b4: bool, i: nat)
    requires i < 15
    ensures Taps([b0, b1, b2, b3, b4], G15, i, 5) == FormatMultiple(b0, b1, b2, b3, b4)[i]
  {
    hide *;
    if i < 5 {
      FormatTapsLow(b0, b1, b2, b3, b4, i);
    } else if i < 10 {
      FormatTapsMiddle(b0, b1, b2, b3, b4, i);
    } else {
      FormatTapsHigh(b0, b1, b2, b3, b4, i);
    }
  }

  lemma FormatWeight(b0: bool, b1: bool, b2: bool, b3: bool, b4: bool)
    requires b0 || b1 || b2 || b3 || b4
    ensures Count(FormatMultiple(b0, b1, b2, b3, b4), 15) >= 7
  {
    hide Count;
    var s := FormatMultiple(b0, b1, b2, b3, b4);
    CountNone(s);
    ThreeMore(s, 0);
    ThreeMore(s, 3);
    ThreeMore(s, 6);
    ThreeMore(s, 9);
    ThreeMore(s, 12);
  }

  /** Every multiple but zero has at least 7 ones. */
  lemma FormatMultiples(q: nat)
    requires 0 < q && Clmul(q, G15) < Pow2(15)
    ensures Ones(Clmul(q, G15)) >= 7
  {
    hide Clmul, Ones, OnesBelow, Bit, Taps, Count, Number, Pow2, FormatMultiple;
    DigitsOfClmul(q, G15);
    DigitsOfG15();
    DigitsBound(Clmul(q, G15), 15);
    DigitsBound(q, 5);
    NumberOfLow(q, 5);
    var b := Low(q, 5);
    SomeOne(b);
    assert b == [b[0], b[1], b[2], b[3], b[4]];
    var s := FormatMultiple(b[0], b[1], b[2], b[3], b[4]);
    forall i: nat | i < 15 ensures s[i] == Bit(Clmul(q, G15), i) {
      BitOfClmul(b, G15, i);
      FormatTaps(b[0], b[1], b[2], b[3], b[4], i);
    }
    FormatWeight(b[0], b[1], b[2], b[3], b[4]);
    OnesAre(Clmul(q, G15), 15);
    CountIs(s, Clmul(q, G15), 15);
  }

  /** Fifteen bits that are a multiple of G15 when they are unmasked. */
  ghost predicate IsFormatCode(w: nat) {
    w < Pow2(15) && exists q :: Xor(w, G15_MASK) == Clmul(q, G15)
  }

  /** Two different format words differ in at least seven modules. */
  lemma FormatDistance(a: nat, b: nat)
    requires IsFormatCode(a) && IsFormatCode(b) && a != b
    ensures Distance(a, b) >= 7
  {
    hide Xor, Clmul, Ones, Pow2;
    var p :| Xor(a, G15_MASK) == Clmul(p, G15);
    var q :| Xor(b, G15_MASK) == Clmul(q, G15);
    ClmulXor(p, q, G15);
    XorExchange(a, G15_MASK, b, G15_MASK);
    XorSelf(G15_MASK);
    XorZero(Xor(a, b));
    XorFits(a, b, 15);
    if Xor(p, q) == 0 { EmptyProduct(G15); XorNonzero(a, b); }
    FormatMultiples(Xor(p, q));
  }

  /** With at most three modules wrong, one format word is left. */
  lemma FormatIsUnique(read: nat, a: nat, b: nat)
    requires IsFormatCode(a) && IsFormatCode(b) && Distance(read, a) <= 3 && Distance(read, b) <= 3
    ensures a == b
  {
    hide IsFormatCode, Distance;
    DistanceTriangle(a, read, b);
    if a != b { FormatDistance(a, b); }
  }

  /** A reader that finds at most three modules wrong has read the level and the mask. */
  lemma FormatIsRead(read: nat, a: nat, level: Level, mask: nat, b: nat, level': Level, mask': nat)
    requires Symbols.IsFormatWord(a, level, mask) && Symbols.IsFormatWord(b, level', mask') && mask < 8 && mask' < 8
    requires Distance(read, a) <= 3 && Distance(read, b) <= 3
    ensures level == level' && mask == mask'
  {
    hide Xor, Clmul, Distance, Pow2, Shr;
    FormatIsUnique(read, a, b);
  }

  lemma EmptyProduct(g: nat)
    ensures Clmul(0, g) == 0
  {
  }

  // --- Version words ---

  lemma VersionGenerator()
    ensures Bit(G18, 0) && !Bit(G18, 1) && Bit(G18, 2) && !Bit(G18, 3) && !Bit(G18, 4) &&
            Bit(G18, 5) && !Bit(G18, 6) && !Bit(G18, 7) && Bit(G18, 8) && Bit(G18, 9) &&
            Bit(G18, 10) && Bit(G18, 11) && Bit(G18, 12) && !Bit(G18, 13) && !Bit(G18, 14) &&
            !Bit(G18, 15) && !Bit(G18, 16) && !Bit(G18, 17)
  {
    hide Bit;
    FourBits(G18, 0x1f2, 0, 1, 0, 1);
    FourBits(0x1f2, 0x1f, 0, 0, 1, 0);
    FourBits(0x1f, 0x1, 1, 1, 1, 1);
    FourBits(0x1, 0, 0, 0, 0, 1);
    FourBits(0, 0, 0, 0, 0, 0);
  }

  /** The 18 bits of the multiple of G18 whose quotient has the bits b0 to b5. */
  function VersionMultiple(b0: bool, b1: bool, b2: bool, b3: bool, b4: bool, b5: bool): (s: seq<bool>)
    ensures |s| == 18
  {
    [b0, b1, b0 != b2, b1 != b3, b2 != b4, (b0 != b3) != b5, b1 != b4, b2 != b5, b0 != b3, (b0 != b1) != b4,
     ((b0 != b1) != b2) != b5, ((b0 != b1) != b2) != b3, (((b0 != b1) != b2) != b3) != b4,
     (((b1 != b2) != b3) != b4) != b5, ((b2 != b3) != b4) != b5, (b3 != b4) != b5, b4 != b5, b5]
  }

  lemma VersionTapsLow(b0: bool, b1: bool, b2: bool, b3: bool, b4: bool, b5: bool, i: nat)
    requires i < 6
    ensures Taps([b0, b1, b2, b3, b4, b5], G18, i, 6) == VersionMultiple(b0, b1, b2, b3, b4, b5)[i]
  {
    hide Bit, Taps;
    VersionGenerator();
    FiveTaps([b0, b1, b2, b3, b4, b5], G18, i);
    LastTap([b0, b1, b2, b3, b4, b5], G18, i);
  }

  lemma VersionTapsMiddle(b0: bool, b1: bool, b2: bool, b3: bool, b4: bool, b5: bool, i: nat)
    requires 6 <= i < 12
    ensures Taps([b0, b1, b2, b3, b4, b5], G18, i, 6) == VersionMultiple(b0, b1, b2, b3, b4, b5)[i]
  {
    hide Bit, Taps;
    VersionGenerator();
    FiveTaps([b0, b1, b2, b3, b4, b5], G18, i);
    LastTap([b0, b1, b2, b3, b4, b5], G18, i);
  }

  lemma VersionTapsHigh(b0: bool, b1: bool, b2: bool, b3: bool, b4: bool, b5: bool, i: nat)
    requires 12 <= i < 18
    ensures Taps([b0, b1, b2, b3, b4, b5], G18, i, 6) == VersionMultiple(b0, b1, b2, b3, b4, b5)[i]
  {
    hide Bit, Taps;
    VersionGenerator();
    FiveTaps([b0, b1, b2, b3, b4, b5], G18, i);
    LastTap([b0, b1, b2, b3, b4, b5], G18, i);
  }

  lemma VersionTaps(b0: bool, b1: bool, b2: bool, b3: bool, b4: bool, b5: bool, i: nat)
    requires i < 18
    ensures Taps([b0, b1, b2, b3, b4, b5], G18, i, 6) == VersionMultiple(b0, b1, b2, b3, b4, b5)[i]
  {
    hide *;
    if i < 6 {
      VersionTapsLow(b0, b1, b2, b3, b4, b5, i);
    } else if i < 12 {
      VersionTapsMiddle(b0, b1, b2, b3, b4, b5, i);
    } else {
      VersionTapsHigh(b0, b1, b2, b3, b4, b5, i);
    }
  }

  lemma VersionWeightOdd(b1: bool, b2: bool, b3: bool, b4: bool, b5: bool)
    ensures Count(VersionMultiple(true, b1, b2, b3, b4, b5), 18) >= 8
  {
    hide Count;
    var s := VersionMultiple(true, b1, b2, b3, b4, b5);
    CountNone(s);
    ThreeMore(s, 0);
    ThreeMore(s, 3);
    ThreeMore(s, 6);
    ThreeMore(s, 9);
    ThreeMore(s, 12);
    ThreeMore(s, 15);
  }

  lemma VersionWeightEven(b1: bool, b2: bool, b3: bool, b4: bool, b5: bool)
    requires b1 || b2 || b3 || b4 || b5
    ensures Count(VersionMultiple(false, b1, b2, b3, b4, b5), 18) >= 8
  {
    hide Count;
    var s := VersionMultiple(false, b1, b2, b3, b4, b5);
    CountNone(s);
    ThreeMore(s, 0);
    ThreeMore(s, 3);
    ThreeMore(s, 6);
    ThreeMore(s, 9);
    ThreeMore(s, 12);
    ThreeMore(s, 15);
  }

  lemma VersionWeight(b0: bool, b1: bool, b2: bool, b3: bool, b4: bool, b5: bool)
    requires b0 || b1 || b2 || b3 || b4 || b5
    ensures Count(VersionMultiple(b0, b1, b2, b3, b4, b5), 18) >= 8
  {
    hide Count, VersionMultiple;
    if b0 { VersionWeightOdd(b1, b2, b3, b4, b5); } else { VersionWeightEven(b1, b2, b3, b4, b5); }
  }

  /** Every multiple but zero has at least 8 ones. */
  lemma VersionMultiples(q: nat)
    requires 0 < q && Clmul(q, G18) < Pow2(18)
    ensures Ones(Clmul(q, G18)) >= 8
  {
    hide Clmul, Ones, OnesBelow, Bit, Taps, Count, Number, Pow2, VersionMultiple;
    DigitsOfClmul(q, G18);
    DigitsOfG18();
    DigitsBound(Clmul(q, G18), 18);
    DigitsBound(q, 6);
    NumberOfLow(q, 6);
    var b := Low(q, 6);
    SomeOne(b);
    assert b == [b[0], b[1], b[2], b[3], b[4], b[5]];
    var s := VersionMultiple(b[0], b[1], b[2], b[3], b[4], b[5]);
    forall i: nat | i < 18 ensures s[i] == Bit(Clmul(q, G18), i) {
      BitOfClmul(b, G18, i);
      VersionTaps(b[0], b[1], b[2], b[3], b[4], b[5], i);
    }
    VersionWeight(b[0], b[1], b[2], b[3], b[4], b[5]);
    OnesAre(Clmul(q, G18), 18);
    CountIs(s, Clmul(q, G18), 18);
  }

  /** Eighteen bits that are a multiple of G18. */
  ghost predicate IsVersionCode(w: nat) {
    w < Pow2(18) && exists q :: w == Clmul(q, G18)
  }

  /** Two different version words differ in at least eight modules. */
  lemma VersionDistance(a: nat, b: nat)
    requires IsVersionCode(a) && IsVersionCode(b) && a != b
    ensures Distance(a, b) >= 8
  {
    hide Xor, Clmul, Ones, Pow2;
    var p :| a == Clmul(p, G18);
    var q :| b == Clmul(q, G18);
    ClmulXor(p, q, G18);
    XorFits(a, b, 18);
    if Xor(p, q) == 0 { EmptyProduct(G18); XorNonzero(a, b); }
    VersionMultiples(Xor(p, q));
  }

  /** With at most three modules wrong, one version word is left. */
  lemma VersionIsUnique(read: nat, a: nat, b: nat)
    requires IsVersionCode(a) && IsVersionCode(b) && Distance(read, a) <= 3 && Distance(read, b) <= 3
    ensures a == b
  {
    hide IsVersionCode, Distance;
    DistanceTriangle(a, read, b);
    if a != b { VersionDistance(a, b); }
  }

  /** A reader that finds at most three modules wrong has read the version. */
  lemma VersionIsRead(read: nat, a: nat, version: nat, b: nat, version': nat)
    requires Symbols.IsVersionWord(a, version) && Symbols.IsVersionWord(b, version')
    requires Distance(read, a) <= 3 && Distance(read, b) <= 3
    ensures version == version'
  {
    hide Xor, Clmul, Distance, Pow2, Shr;
    VersionIsUnique(read, a, b);
  }

  // --- The words themselves ---

  lemma {:induction false} SameHigh(a: nat, b: nat, n: nat)
    requires Shr(a, n) == Shr(b, n)
    ensures Xor(a, b) < Pow2(n)
  {
    if n == 0 {
      XorSelf(a);
    } else {
      SameHigh(a / 2, b / 2, n - 1);
      XorHalves(a, b);
    }
  }

  /** A multiple is zero or at least as long as its divisor. */
  lemma ShortMultiple(q: nat, g: nat, n: nat)
    requires g > 0 && Digits(g) == n + 1 && Clmul(q, g) < Pow2(n)
    ensures Clmul(q, g) == 0
  {
    hide Clmul, Pow2;
    if q == 0 {
      EmptyProduct(g);
    } else {
      DigitsOfClmul(q, g);
      DigitsBound(Clmul(q, g), n);
    }
  }

  /** Level and mask determine the format word. */
  lemma FormatDetermined(a: nat, b: nat, level: Level, mask: nat)
    requires Symbols.IsFormatWord(a, level, mask) && Symbols.IsFormatWord(b, level, mask)
    ensures a == b
  {
    hide Xor, Clmul, Pow2, Shr, Digits;
    var p :| Xor(a, G15_MASK) == Clmul(p, G15);
    var q :| Xor(b, G15_MASK) == Clmul(q, G15);
    SameHigh(Xor(a, G15_MASK), Xor(b, G15_MASK), 10);
    ClmulXor(p, q, G15);
    DigitsOfG15();
    ShortMultiple(Xor(p, q), G15, 10);
    XorNonzero(Xor(a, G15_MASK), Xor(b, G15_MASK));
    XorTwice(a, G15_MASK);
    XorTwice(b, G15_MASK);
  }

  /** The version determines the version word. */
  lemma VersionDetermined(a: nat, b: nat, version: nat)
    requires Symbols.IsVersionWord(a, version) && Symbols.IsVersionWord(b, version)
    ensures a == b
  {
    hide Xor, Clmul, Pow2, Shr, Digits;
    var p :| a == Clmul(p, G18);
    var q :| b == Clmul(q, G18);
    SameHigh(a, b, 12);
    ClmulXor(p, q, G18);
    DigitsOfG18();
    ShortMultiple(Xor(p, q), G18, 12);
    XorNonzero(a, b);
  }

  lemma XorFour(a: nat, b: nat, r3: nat, r2: nat, r1: nat, r0: nat, s3: nat, s2: nat, s1: nat, s0: nat)
    requires r3 < 2 && r2 < 2 && r1 < 2 && r0 < 2 && s3 < 2 && s2 < 2 && s1 < 2 && s0 < 2
    ensures Xor(16 * a + 8 * r3 + 4 * r2 + 2 * r1 + r0, 16 * b + 8 * s3 + 4 * s2 + 2 * s1 + s0)
         == 16 * Xor(a, b) + 8 * Weight(r3 != s3) + 4 * Weight(r2 != s2) + 2 * Weight(r1 != s1) + Weight(r0 != s0)
  {
    hide Xor;
    XorOne(8 * a + 4 * r3 + 2 * r2 + r1, 8 * b + 4 * s3 + 2 * s2 + s1, r0, s0);
    XorOne(4 * a + 2 * r3 + r2, 4 * b + 2 * s3 + s2, r1, s1);
    XorOne(2 * a + r3, 2 * b + s3, r2, s2);
    XorOne(a, b, r3, s3);
  }

  lemma XorOne(a: nat, b: nat, r: nat, t: nat)
    requires r < 2 && t < 2
    ensures Xor(2 * a + r, 2 * b + t) == 2 * Xor(a, b) + Weight(r != t)
  {
    XorHalves(2 * a + r, 2 * b + t);
  }

  /** The words of the standard's examples: level M with mask 5 (section 7.9), and version 7 (section
      7.10).  With the two lemmas above they fix generators and mask. */
  lemma FormatExample(w: nat)
    ensures Symbols.IsFormatWord(w, M, 5) <==> w == 0x40CE
  {
    hide Xor, Clmul;
    ExampleUnmasked();
    ExampleMultiple();
    ExampleFits();
    assert Symbols.IsFormatWord(0x40CE, M, 5);
    hide Symbols.IsFormatWord;
    if Symbols.IsFormatWord(w, M, 5) { FormatDetermined(w, 0x40CE, M, 5); }
  }

  lemma ExampleFits()
    ensures 0x40CE < Pow2(15) && Shr(0x14DC, 10) == 5 && LevelCode(M) == 0
  {
    assert Pow2(5) == 32 && Pow2(10) == 1024;
    HalvesOf(0x14DC, 0x0A6E, 0x0537, 0x029B, 0x014D, 0x00A6);
    HalvesOf(0x00A6, 0x0053, 0x0029, 0x0014, 0x000A, 0x0005);
    ShrAdds(0x14DC, 5, 5);
  }

  lemma HalvesOf(a: nat, b: nat, c: nat, d: nat, e: nat, f: nat)
    requires a / 2 == b && b / 2 == c && c / 2 == d && d / 2 == e && e / 2 == f
    ensures Shr(a, 5) == f
  {
    assert Shr(f, 0) == f && Shr(e, 1) == Shr(f, 0) && Shr(d, 2) == Shr(e, 1);
    assert Shr(c, 3) == Shr(d, 2) && Shr(b, 4) == Shr(c, 3) && Shr(a, 5) == Shr(b, 4);
  }

  lemma {:induction false} ShrAdds(a: nat, m: nat, n: nat)
    ensures Shr(a, m + n) == Shr(Shr(a, m), n)
  {
    if m == 0 {
    } else {
      ShrAdds(a / 2, m - 1, n);
    }
  }

  lemma ExampleMultiple()
    ensures Clmul(4, G15) == 0x14DC && Clmul(4, G18) == 0x7C94
  {
    ClmulPower(2, G15);
    ClmulPower(2, G18);
    assert Pow2(2) == 4 && Shl(G15, 2) == 0x14DC && Shl(G18, 2) == 0x7C94;
  }

  lemma ExampleUnmasked()
    ensures Xor(0x40CE, G15_MASK) == 0x14DC
  {
    hide Xor;
    XorZero(0);
    XorFour(0x0, 0x0, 0, 1, 0, 0, 0, 1, 0, 1);
    XorFour(0x4, 0x5, 0, 0, 0, 0, 0, 1, 0, 0);
    XorFour(0x40, 0x54, 1, 1, 0, 0, 0, 0, 0, 1);
    XorFour(0x40c, 0x541, 1, 1, 1, 0, 0, 0, 1, 0);
  }

  lemma VersionExample(w: nat)
    ensures Symbols.IsVersionWord(w, 7) <==> w == 0x7C94
  {
    hide Xor, Clmul;
    ExampleMultiple();
    VersionExampleFits();
    assert Symbols.IsVersionWord(0x7C94, 7);
    hide Symbols.IsVersionWord;
    if Symbols.IsVersionWord(w, 7) { VersionDetermined(w, 0x7C94, 7); }
  }

  lemma VersionExampleFits()
    ensures 0x7C94 < Pow2(18) && Shr(0x7C94, 12) == 7
  {
    assert Pow2(8) == 256;
    Pow2Monotone(15, 18);
    ThirtyTwoThousand();
    HalvesOf(0x7C94, 0x3E4A, 0x1F25, 0x0F92, 0x07C9, 0x03E4);
    HalvesOf(0x03E4, 0x01F2, 0x00F9, 0x007C, 0x003E, 0x001F);
    ShrAdds(0x7C94, 5, 5);
    ShrAdds(0x7C94, 10, 2);
    assert Shr(0x001F, 2) == 7;
  }

  lemma ThirtyTwoThousand()
    ensures Pow2(15) == 0x8000
  {
    assert Pow2(5) == 32 && Pow2(10) == 1024;
  }

  /** No format word leaves all its modules light. */
  lemma NeverBlank(level: Level, mask: nat)
    requires mask < 8
    ensures !Symbols.IsFormatWord(0, level, mask)
  {
    hide Xor, Clmul, Pow2, Ones;
    if Symbols.IsFormatWord(0, level, mask) {
      var q :| Xor(0, G15_MASK) == Clmul(q, G15);
      XorZero(G15_MASK);
      MaskFits();
      MaskOnes();
      if q == 0 { EmptyProduct(G15); }
      FormatMultiples(q);
    }
  }

  lemma MaskOnes()
    ensures Ones(G15_MASK) == 5
  {
    hide Ones;
    OnesOfFour(G15_MASK, 0x541, 0, 0, 1, 0);
    OnesOfFour(0x541, 0x54, 0, 0, 0, 1);
    OnesOfFour(0x54, 0x5, 0, 1, 0, 0);
    OnesOfFour(0x5, 0, 0, 1, 0, 1);
    NoOnes();
  }

  lemma NoOnes()
    ensures Ones(0) == 0
  {
  }

  lemma OnesOfFour(n: nat, m: nat, r3: nat, r2: nat, r1: nat, r0: nat)
    requires n == 16 * m + 8 * r3 + 4 * r2 + 2 * r1 + r0 && r3 < 2 && r2 < 2 && r1 < 2 && r0 < 2
    ensures Ones(n) == Ones(m) + r3 + r2 + r1 + r0
  {
    hide Ones;
    OnesOfOne(n, 8 * m + 4 * r3 + 2 * r2 + r1, r0);
    OnesOfOne(8 * m + 4 * r3 + 2 * r2 + r1, 4 * m + 2 * r3 + r2, r1);
    OnesOfOne(4 * m + 2 * r3 + r2, 2 * m + r3, r2);
    OnesOfOne(2 * m + r3, m, r3);
  }

  lemma OnesOfOne(n: nat, m: nat, r: nat)
    requires n == 2 * m + r && r < 2
    ensures Ones(n) == Ones(m) + r
  {
  }
}
