/** `stringToBytesFuncs['UTF-8']`: UTF-16 code units in, UTF-8 octets out (section 3 of RFC 3629). */
module Utf8 {
  import opened Outcomes
  import opened JsBits

  /** A UTF-16 code unit, as `charCodeAt` gives it. */
  type Unit = n: nat | n < 0x10000

  // --- UTF-16 ---

  predicate IsHigh(u: nat) { 0xD800 <= u < 0xDC00 }

  predicate IsLow(u: nat) { 0xDC00 <= u < 0xE000 }

  predicate IsSurrogate(u: nat) { IsHigh(u) || IsLow(u) }

  /** Every surrogate belongs to a pair, high before low. */
  predicate WellFormed(s: seq<Unit>) {
    if |s| == 0 then true
    else if !IsSurrogate(s[0]) then WellFormed(s[1..])
    else IsHigh(s[0]) && |s| >= 2 && IsLow(s[1]) && WellFormed(s[2..])
  }

  /** The code points of a well-formed string. */
  function CodePoints(s: seq<Unit>): seq<nat>
    requires WellFormed(s)
  {
    if |s| == 0 then []
    else if !IsSurrogate(s[0]) then [s[0]] + CodePoints(s[1..])
    else
      var high: nat, low: nat := s[0], s[1];
      var c: nat := 0x10000 + (high - 0xD800) * 0x400 + (low - 0xDC00);
      [c] + CodePoints(s[2..])
  }

  lemma {:induction false} CodePointsInjective(s: seq<Unit>, t: seq<Unit>)
    requires WellFormed(s) && WellFormed(t) && CodePoints(s) == CodePoints(t)
    ensures s == t
  {
    if |s| == 0 || |t| == 0 {
    } else {
      assert CodePoints(s)[0] == CodePoints(t)[0];
      var m, n := if IsSurrogate(s[0]) then 2 else 1, if IsSurrogate(t[0]) then 2 else 1;
      assert m == n && s[..m] == t[..m];
      assert CodePoints(s)[1..] == CodePoints(s[m..]) && CodePoints(t)[1..] == CodePoints(t[m..]);
      CodePointsInjective(s[m..], t[m..]);
      assert s == s[..m] + s[m..] && t == t[..m] + t[m..];
    }
  }

  // --- The decoder of RFC 3629 ---

  predicate Tail(b: nat) { 0x80 <= b <= 0xBF }

  /** The number of octets of the first character, by the grammar of section 4 of RFC 3629, which
      admits no overlong form, no surrogate and nothing above 10FFFF; 0 if there is none. */
  function CharLength(b: seq<nat>): (n: nat)
    ensures n <= |b| && n <= 4
  {
    if |b| == 0 then 0
    else if b[0] <= 0x7F then 1
    else if |b| < 2 then 0
    else if 0xC2 <= b[0] <= 0xDF then (if Tail(b[1]) then 2 else 0)
    else if |b| < 3 then 0
    else if 0xE0 <= b[0] <= 0xEF then
      (if Tail(b[1]) && Tail(b[2]) && (b[0] == 0xE0 ==> b[1] >= 0xA0) && (b[0] == 0xED ==> b[1] <= 0x9F)
       then 3 else 0)
    else if |b| < 4 then 0
    else if 0xF0 <= b[0] <= 0xF4 then
      (if Tail(b[1]) && Tail(b[2]) && Tail(b[3]) && (b[0] == 0xF0 ==> b[1] >= 0x90) && (b[0] == 0xF4 ==> b[1] <= 0x8F)
       then 4 else 0)
    else 0
  }

  /** Section 3 of RFC 3629: the free bits of the octets, in order. */
  function CharNumber(b: seq<nat>): nat
    requires CharLength(b) > 0
  {
    match CharLength(b)
    case 1 => b[0]
    case 2 => (b[0] - 0xC0) * 64 + (b[1] - 0x80)
    case 3 => (b[0] - 0xE0) * 4096 + (b[1] - 0x80) * 64 + (b[2] - 0x80)
    case _ => (b[0] - 0xF0) * 262144 + (b[1] - 0x80) * 4096 + (b[2] - 0x80) * 64 + (b[3] - 0x80)
  }

  /** The code points of an octet sequence, or None where it is not UTF-8. */
  function Decode(b: seq<nat>): Option<seq<nat>> {
    if |b| == 0 then Some([])
    else
      var n := CharLength(b);
      if n == 0 then None
      else
        match Decode(b[n..])
        case None => None
        case Some(rest) => Some([CharNumber(b)] + rest)
  }

  // --- The encoder ---

  /** The octets of one code point. */
  function Octets(c: nat): seq<nat> {
    if c < 0x80 then [c]
    else if c < 0x800 then [0xC0 + c / 64, 0x80 + c % 64]
    else if c < 0x10000 then [0xE0 + c / 4096, 0x80 + c / 64 % 64, 0x80 + c % 64]
    else [0xF0 + c / 262144, 0x80 + c / 4096 % 64, 0x80 + c / 64 % 64, 0x80 + c % 64]
  }

  lemma TwoDecode(x: nat, y: nat, rest: seq<nat>)
    requires 2 <= x < 32 && y < 64
    ensures var b := [0xC0 + x, 0x80 + y] + rest; CharLength(b) == 2 && CharNumber(b) == 64 * x + y
  {
    var b := [0xC0 + x, 0x80 + y] + rest;
    assert b[0] == 0xC0 + x && b[1] == 0x80 + y;
  }

  lemma ThreeDecode(x: nat, y: nat, z: nat, rest: seq<nat>)
    requires x < 16 && y < 64 && z < 64
    requires (x == 0 ==> y >= 0x20) && (x == 0xD ==> y < 0x20)
    ensures var b := [0xE0 + x, 0x80 + y, 0x80 + z] + rest; CharLength(b) == 3 && CharNumber(b) == 4096 * x + 64 * y + z
  {
    var b := [0xE0 + x, 0x80 + y, 0x80 + z] + rest;
    assert b[0] == 0xE0 + x && b[1] == 0x80 + y && b[2] == 0x80 + z;
  }

  lemma FourDecode(w: nat, x: nat, y: nat, z: nat, rest: seq<nat>)
    requires w < 5 && x < 64 && y < 64 && z < 64
    requires (w == 0 ==> x >= 0x10) && (w == 4 ==> x < 0x10)
    ensures var b := [0xF0 + w, 0x80 + x, 0x80 + y, 0x80 + z] + rest;
            CharLength(b) == 4 && CharNumber(b) == 262144 * w + 4096 * x + 64 * y + z
  {
    var b := [0xF0 + w, 0x80 + x, 0x80 + y, 0x80 + z] + rest;
    assert b[0] == 0xF0 + w && b[1] == 0x80 + x && b[2] == 0x80 + y && b[3] == 0x80 + z;
  }

  lemma Quotients(c: nat)
    ensures c / 4096 == c / 64 / 64 && c / 262144 == c / 4096 / 64
  {
  }

  lemma Digits(c: nat)
    ensures c == 4096 * (c / 4096) + 64 * (c / 64 % 64) + c % 64
    ensures c == 262144 * (c / 262144) + 4096 * (c / 4096 % 64) + 64 * (c / 64 % 64) + c % 64
  {
    Quotients(c);
  }

  lemma Ranges(c: nat)
    requires c < 0xD800 || 0xE000 <= c < 0x110000
    ensures 0x80 <= c < 0x800 ==> 2 <= c / 64 < 32
    ensures 0x800 <= c < 0x10000 ==>
      && c / 4096 < 16
      && (c / 4096 == 0 ==> c / 64 % 64 >= 0x20)
      && (c / 4096 == 0xD ==> c / 64 % 64 < 0x20)
    ensures c >= 0x10000 ==>
      && c / 262144 < 5
      && (c / 262144 == 0 ==> c / 4096 % 64 >= 0x10)
      && (c / 262144 == 4 ==> c / 4096 % 64 < 0x10)
  {
    Digits(c);
  }

  /** The octets of a code point decode to it: they are not overlong, no surrogate and in range. */
  lemma OctetsDecode(c: nat, rest: seq<nat>)
    requires c < 0xD800 || 0xE000 <= c < 0x110000
    ensures CharLength(Octets(c) + rest) == |Octets(c)|
    ensures CharNumber(Octets(c) + rest) == c
  {
    if c < 0x80 {
    } else {
      hide CharLength, CharNumber;
      Digits(c);
      Ranges(c);
      if c < 0x800 {
        TwoDecode(c / 64, c % 64, rest);
      } else if c < 0x10000 {
        ThreeDecode(c / 4096, c / 64 % 64, c % 64, rest);
      } else {
        FourDecode(c / 262144, c / 4096 % 64, c / 64 % 64, c % 64, rest);
      }
    }
  }

  /** The code point that the loop takes from the start of a non-empty string: any surrogate is
      paired with whatever follows it, and with 0 at the end of the string. */
  function Pair(s: seq<Unit>): (c: nat)
    requires |s| > 0
    ensures c < 0xD800 || 0xE000 <= c < 0x110000
  {
    var first: nat := s[0];
    if !IsSurrogate(first) then first
    else 0x10000 + (first % 0x400) * 0x400 + (if |s| > 1 then s[1] % 0x400 else 0)
  }

  function Rest(s: seq<Unit>): (r: seq<Unit>)
    requires |s| > 0
    ensures |r| < |s|
  {
    if !IsSurrogate(s[0]) || |s| == 1 then s[1..] else s[2..]
  }

  /** The octets of a string. */
  function Transcoded(s: seq<Unit>): seq<nat> {
    if |s| == 0 then [] else Octets(Pair(s)) + Transcoded(Rest(s))
  }

  /** `charCodeAt`, whose NaN at the end of the string is 0 to `&`. */
  function CharCodeAt(s: seq<Unit>, i: nat): nat {
    if i < |s| then s[i] else 0
  }

  // --- The shifts and masks ---

  lemma {:induction false} AndCommutes(a: nat, b: nat)
    ensures And(a, b) == And(b, a)
  {
    if a == 0 || b == 0 {
    } else {
      AndCommutes(a / 2, b / 2);
    }
  }

  lemma {:induction false} ShiftedAndMasked(x: nat, n: nat)
    ensures x == Shl(Shr(x, n), n) + LowPart(x, n) && LowPart(x, n) < Pow2(n)
    ensures And(x, Pow2(n) - 1) == LowPart(x, n)
  {
    AndMask(x, n);
    AndCommutes(x, Pow2(n) - 1);
    if n == 0 {
    } else {
      ShiftedAndMasked(x / 2, n - 1);
    }
  }

  lemma {:induction false} ShlIsProduct(y: nat, n: nat)
    ensures Shl(y, n) == y * Pow2(n)
  {
    if n == 0 {
    } else {
      ShlIsProduct(y, n - 1);
    }
  }

  lemma ShlSix(y: nat)
    ensures Shl(y, 6) == 64 * y && Pow2(6) == 64 && Shl(y, 4) == 16 * y && Pow2(4) == 16 && Shl(y, 5) == 32 * y &&
            Pow2(5) == 32
  {
    hide Shl;
    ShlIsProduct(y, 4);
    ShlIsProduct(y, 5);
    ShlIsProduct(y, 6);
  }

  lemma ShlTen(y: nat)
    ensures Shl(y, 10) == 1024 * y && Pow2(10) == 1024
    ensures Shl(y, 12) == 4096 * y && Pow2(12) == 4096
    ensures Shl(y, 18) == 262144 * y && Pow2(18) == 262144
  {
    hide Shl;
    ShlIsProduct(y, 10);
    ShlIsProduct(y, 12);
    ShlIsProduct(y, 18);
  }

  lemma Six(x: nat)
    ensures Shr(x, 6) == x / 64 && And(x, 0x3f) == x % 64
  {
    hide Shr, And, Shl, LowPart, Pow2;
    ShlSix(Shr(x, 6));
    ShiftedAndMasked(x, 6);
  }

  lemma TwelveAndEighteen(x: nat)
    ensures Shr(x, 12) == x / 4096 && Shr(x, 18) == x / 262144 && And(x, 0x3ff) == x % 1024
  {
    hide Shr, And, Shl, LowPart, Pow2;
    ShlTen(Shr(x, 12));
    ShiftedAndMasked(x, 12);
    ShlTen(Shr(x, 18));
    ShiftedAndMasked(x, 18);
    ShlTen(Shr(x, 10));
    ShiftedAndMasked(x, 10);
  }

  /** The marker bits do not overlap the payload. */
  lemma Marked(b: nat)
    ensures b < 64 ==> Or(0x80, b) == 0x80 + b && Or(0xc0, b) == 0xc0 + b
    ensures b < 32 ==> Or(0xe0, b) == 0xe0 + b
    ensures b < 16 ==> Or(0xf0, b) == 0xf0 + b
  {
    hide Or, Shl, Pow2;
    ShlSix(2);
    ShlSix(3);
    ShlSix(7);
    ShlSix(15);
    if b < 64 {
      OrDisjoint(2, b, 6);
      OrDisjoint(3, b, 6);
    }
    if b < 32 { OrDisjoint(7, b, 5); }
    if b < 16 { OrDisjoint(15, b, 4); }
  }

  lemma TwoOctets(c: nat)
    requires 0x80 <= c < 0x800
    ensures [Or(0xc0, Shr(c, 6)), Or(0x80, And(c, 0x3f))] == Octets(c)
  {
    hide Or, And, Shr;
    Six(c);
    Marked(c / 64);
    Marked(c % 64);
  }

  lemma ThreeOctets(c: nat)
    requires 0x800 <= c < 0x10000
    ensures [Or(0xe0, Shr(c, 12)), Or(0x80, And(Shr(c, 6), 0x3f)), Or(0x80, And(c, 0x3f))] == Octets(c)
  {
    hide Or, And, Shr;
    Six(c);
    TwelveAndEighteen(c);
    Six(c / 64);
    Marked(c / 4096);
    Marked(c / 64 % 64);
    Marked(c % 64);
  }

  lemma FourOctets(c: nat)
    requires 0x10000 <= c < 0x110000
    ensures [Or(0xf0, Shr(c, 18)), Or(0x80, And(Shr(c, 12), 0x3f)), Or(0x80, And(Shr(c, 6), 0x3f)),
            Or(0x80, And(c, 0x3f))]
         == Octets(c)
  {
    hide Or, And, Shr;
    Six(c);
    TwelveAndEighteen(c);
    Six(c / 64);
    Six(c / 4096);
    Marked(c / 262144);
    Marked(c / 4096 % 64);
    Marked(c / 64 % 64);
    Marked(c % 64);
  }

  lemma Paired(high: nat, low: nat)
    ensures Or(Shl(And(high, 0x3ff), 10), And(low, 0x3ff)) == (high % 0x400) * 0x400 + low % 0x400
  {
    hide Or, And, Shl, Pow2;
    TwelveAndEighteen(high);
    TwelveAndEighteen(low);
    ShlTen(high % 0x400);
    OrDisjoint(high % 0x400, low % 0x400, 10);
  }

  /** The string from the i-th unit on, empty also behind the end. */
  function From(s: seq<Unit>, i: nat): seq<Unit> {
    if i <= |s| then s[i..] else []
  }

  /** The code point taken at the i-th unit, and the number of units it takes. */
  function Taken(s: seq<Unit>, i: nat): nat
    requires i < |s|
  {
    var c: nat := s[i];
    if IsSurrogate(c) then 0x10000 + (c % 0x400) * 0x400 + CharCodeAt(s, i + 1) % 0x400 else c
  }

  lemma FromNext(s: seq<Unit>, i: nat)
    requires i < |s|
    ensures Transcoded(From(s, i)) ==
            Octets(Taken(s, i)) + Transcoded(From(s, if IsSurrogate(s[i]) then i + 2 else i + 1))
  {
    assert Pair(s[i..]) == Taken(s, i);
    assert Rest(s[i..]) == From(s, if IsSurrogate(s[i]) then i + 2 else i + 1);
  }

  /** The body of the loop: the octets of one code point, and the index of its last unit. */
  method TakeOne(str: seq<Unit>, i0: nat) returns (more: seq<nat>, i: nat)
    requires i0 < |str|
    ensures more == Octets(Taken(str, i0)) && i == if IsSurrogate(str[i0]) then i0 + 1 else i0
  {
    hide Or, And, Shr, Shl, Octets;
    i := i0;
    var charcode := CharCodeAt(str, i);
    if charcode < 0x80 {
      more := [charcode];
      OneOctet(charcode);
    } else if charcode < 0x800 {
      more := [Or(0xc0, Shr(charcode, 6)), Or(0x80, And(charcode, 0x3f))];
      TwoOctets(charcode);
    } else if charcode < 0xd800 || charcode >= 0xe000 {
      more := [Or(0xe0, Shr(charcode, 12)), Or(0x80, And(Shr(charcode, 6), 0x3f)), Or(0x80, And(charcode, 0x3f))];
      ThreeOctets(charcode);
    } else {
      i := i + 1;
      Paired(charcode, CharCodeAt(str, i));
      charcode := 0x10000 + Or(Shl(And(charcode, 0x3ff), 10), And(CharCodeAt(str, i), 0x3ff));
      more := [Or(0xf0, Shr(charcode, 18)), Or(0x80, And(Shr(charcode, 12), 0x3f)),
               Or(0x80, And(Shr(charcode, 6), 0x3f)), Or(0x80, And(charcode, 0x3f))];
      FourOctets(charcode);
    }
  }

  /** `toUTF8Array` */
  method ToUtf8Array(str: seq<Unit>) returns (utf8: seq<nat>)
    ensures utf8 == Transcoded(str)
  {
    hide *;
    utf8 := [];
    var i := 0;
    FromEnds(str, 0);
    while i < |str|
      invariant utf8 + Transcoded(From(str, i)) == Transcoded(str)
    {
      ghost var done, next := utf8, Octets(Taken(str, i));
      FromNext(str, i);
      var more;
      more, i := TakeOne(str, i);
      utf8 := utf8 + more;
      i := i + 1;
      assert done + (next + Transcoded(From(str, i))) == utf8 + Transcoded(From(str, i));
    }
    FromEnds(str, i);
  }

  lemma FromEnds(s: seq<Unit>, i: nat)
    ensures From(s, 0) == s && [] + Transcoded(s) == Transcoded(s)
    ensures i >= |s| ==> Transcoded(From(s, i)) == []
  {
    NothingLeft();
  }

  lemma OneOctet(c: nat)
    requires c < 0x80
    ensures [c] == Octets(c)
  {
  }

  lemma NothingLeft()
    ensures Transcoded([]) == []
  {
  }

  // --- What the octets mean ---

  /** The code points that the loop takes. */
  function Points(s: seq<Unit>): seq<nat> {
    if |s| == 0 then [] else [Pair(s)] + Points(Rest(s))
  }

  /** The octets of any string at all are UTF-8, in shortest form and without surrogates. */
  lemma {:induction false} DecodeTranscoded(s: seq<Unit>)
    ensures Decode(Transcoded(s)) == Some(Points(s))
    decreases |s|
  {
    if |s| == 0 {
    } else {
      hide CharLength, CharNumber, Octets, Pair, Rest;
      var c, rest := Pair(s), Transcoded(Rest(s));
      PairIsPoint(s);
      OctetsDecode(c, rest);
      SomeOctets(c);
      assert (Octets(c) + rest)[|Octets(c)|..] == rest;
      DecodeTranscoded(Rest(s));
    }
  }

  lemma PairIsPoint(s: seq<Unit>)
    requires |s| > 0
    ensures Pair(s) < 0xD800 || 0xE000 <= Pair(s) < 0x110000
    ensures |Rest(s)| < |s|
  {
  }

  lemma SomeOctets(c: nat)
    ensures |Octets(c)| > 0
  {
  }

  /** Every surrogate made a high one and paired with a low one of the same payload. */
  function Repaired(s: seq<Unit>): (r: seq<Unit>)
    decreases |s|
  {
    if |s| == 0 then []
    else if !IsSurrogate(s[0]) then [s[0]] + Repaired(s[1..])
    else
      [0xD800 + s[0] % 0x400, 0xDC00 + (if |s| > 1 then s[1] % 0x400 else 0)] + Repaired(Rest(s))
  }

  /** A repaired string is well formed and means the points that the loop takes from the original. */
  lemma {:induction false} RepairedMeans(s: seq<Unit>)
    ensures WellFormed(Repaired(s)) && CodePoints(Repaired(s)) == Points(s)
    decreases |s|
  {
    if |s| == 0 {
    } else {
      RepairedMeans(Rest(s));
      var n := if IsSurrogate(s[0]) then 2 else 1;
      assert Repaired(s)[n..] == Repaired(Rest(s));
    }
  }

  /** Nothing is repaired exactly in a well-formed string. */
  lemma {:induction false} RepairedIff(s: seq<Unit>)
    ensures Repaired(s) == s <==> WellFormed(s)
    decreases |s|
  {
    if |s| == 0 {
    } else {
      RepairedIff(Rest(s));
      var r := Repaired(s);
      if !IsSurrogate(s[0]) {
        assert r[1..] == Repaired(s[1..]) && s == [s[0]] + s[1..];
      } else if |s| > 1 {
        assert r[2..] == Repaired(s[2..]) && s == [s[0], s[1]] + s[2..];
        assert r[0] == s[0] <==> IsHigh(s[0]);
        assert r[1] == s[1] <==> IsLow(s[1]);
      } else {
        assert |r| == 2;
      }
    }
  }

  /** On well-formed strings the octets decode to the code points of the string ... */
  lemma RoundTrip(s: seq<Unit>)
    requires WellFormed(s)
    ensures Decode(Transcoded(s)) == Some(CodePoints(s))
  {
    hide Transcoded, Decode, CodePoints, Points;
    DecodeTranscoded(s);
    RepairedMeans(s);
    RepairedIff(s);
  }

  /** ... and in general two strings have the same octets exactly when they are repaired alike, so
      that well-formed strings have different octets and every ill-formed string shares its octets
      with a well-formed one. */
  lemma SameOctets(s: seq<Unit>, t: seq<Unit>)
    ensures Transcoded(s) == Transcoded(t) <==> Repaired(s) == Repaired(t)
  {
    hide Transcoded, Decode, Repaired, CodePoints, Points, WellFormed;
    DecodeTranscoded(s);
    DecodeTranscoded(t);
    RepairedMeans(s);
    RepairedMeans(t);
    if Points(s) == Points(t) { SamePoints(s, t); }
    if Transcoded(s) == Transcoded(t) {
      CodePointsInjective(Repaired(s), Repaired(t));
    }
  }

  lemma {:induction false} SamePoints(s: seq<Unit>, t: seq<Unit>)
    requires Points(s) == Points(t)
    ensures Transcoded(s) == Transcoded(t)
    decreases |s|
  {
    if |s| == 0 || |t| == 0 {
    } else {
      hide Octets, Pair, Rest;
      PairIsPoint(s);
      assert Points(s)[0] == Points(t)[0] && Points(s)[1..] == Points(Rest(s)) && Points(t)[1..] == Points(Rest(t));
      SamePoints(Rest(s), Rest(t));
    }
  }

  lemma Injective(s: seq<Unit>, t: seq<Unit>)
    requires WellFormed(s) && WellFormed(t)
    ensures Transcoded(s) == Transcoded(t) ==> s == t
  {
    hide *;
    SameOctets(s, t);
    RepairedIff(s);
    RepairedIff(t);
  }

  /** Outside the well-formed strings the octets no longer tell strings apart. */
  lemma IllFormedCollides(s: seq<Unit>)
    ensures !WellFormed(s) <==> Transcoded(Repaired(s)) == Transcoded(s) && Repaired(s) != s
  {
    hide *;
    RepairedMeans(s);
    RepairedIff(s);
    RepairedIff(Repaired(s));
    SameOctets(Repaired(s), s);
  }

  /** A lone surrogate and a pair with the same octets. */
  lemma LoneSurrogate()
    ensures Transcoded([0xD800]) == [0xF0, 0x90, 0x80, 0x80] == Transcoded([0xD800, 0xDC00])
  {
    assert Rest([0xD800]) == [] == Rest([0xD800, 0xDC00]);
    NothingLeft();
  }
}
