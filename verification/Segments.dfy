/** The data segments of a QR code: what `qrNumber`, `qrAlphaNum` and `qr8BitByte` write, and a
    reader for it (section 7.4 of ISO/IEC 18004:2015). */
module Segments {
  import opened JsBits
  import opened Outcomes
  import opened MsbBits

  datatype Segment =
    | Numeric(digits: string)
    | Alphanumeric(text: string)
    | EightBit(bytes: seq<Octet>)

  // --- Characters ---

  predicate IsDigit(c: char) {
    '0' <= c <= '9'
  }

  function DigitValue(c: char): (d: nat)
    requires IsDigit(c)
    ensures d < 10
  {
    c as int - '0' as int
  }

  function DigitChar(d: nat): (c: char)
    requires d < 10
    ensures IsDigit(c) && DigitValue(c) == d
  {
    ('0' as int + d) as char
  }

  const SYMBOLS := " $%*+-./:"

  predicate IsAlphanumeric(c: char) {
    IsDigit(c) || 'A' <= c <= 'Z' || c in SYMBOLS
  }

  /** `getCode` */
  function AlphaCode(c: char): (n: nat)
    requires IsAlphanumeric(c)
    ensures n < 45
  {
    if IsDigit(c) then c as int - '0' as int
    else if 'A' <= c <= 'Z' then c as int - 'A' as int + 10
    else match c
      case ' ' => 36
      case '$' => 37
      case '%' => 38
      case '*' => 39
      case '+' => 40
      case '-' => 41
      case '.' => 42
      case '/' => 43
      case _ => 44
  }

  /** The character a reader of the code finds for n. */
  function AlphaChar(n: nat): char
    requires n < 45
  {
    if n < 10 then ('0' as int + n) as char
    else if n < 36 then ('A' as int + n - 10) as char
    else SYMBOLS[n - 36]
  }

  lemma AlphaCharOfCode(c: char)
    requires IsAlphanumeric(c)
    ensures AlphaChar(AlphaCode(c)) == c
  {
  }

  // --- What a segment is written as ---

  predicate Legal(s: Segment) {
    match s
    case Numeric(digits) => forall i :: 0 <= i < |digits| ==> IsDigit(digits[i])
    case Alphanumeric(text) => forall i :: 0 <= i < |text| ==> IsAlphanumeric(text[i])
    case EightBit(_) => true
  }

  /** `strToNum` */
  function DigitsValue(s: string): nat
    requires forall i :: 0 <= i < |s| ==> IsDigit(s[i])
  {
    if |s| == 0 then 0 else 10 * DigitsValue(s[..|s| - 1]) + DigitValue(s[|s| - 1])
  }

  function NumericBits(s: string): seq<bool>
    requires forall i :: 0 <= i < |s| ==> IsDigit(s[i])
  {
    if |s| >= 3 then High(DigitsValue(s[..3]), 10) + NumericBits(s[3..])
    else if |s| == 2 then High(DigitsValue(s), 7)
    else if |s| == 1 then High(DigitsValue(s), 4)
    else []
  }

  function AlphaBits(s: string): seq<bool>
    requires forall i :: 0 <= i < |s| ==> IsAlphanumeric(s[i])
  {
    if |s| >= 2 then High(AlphaCode(s[0]) * 45 + AlphaCode(s[1]), 11) + AlphaBits(s[2..])
    else if |s| == 1 then High(AlphaCode(s[0]), 6)
    else []
  }

  function Mode(s: Segment): nat {
    match s
    case Numeric(_) => 1
    case Alphanumeric(_) => 2
    case EightBit(_) => 4
  }

  function Count(s: Segment): nat {
    match s
    case Numeric(digits) => |digits|
    case Alphanumeric(text) => |text|
    case EightBit(bytes) => |bytes|
  }

  function BodyBits(s: Segment): seq<bool>
    requires Legal(s)
  {
    match s
    case Numeric(digits) => NumericBits(digits)
    case Alphanumeric(text) => AlphaBits(text)
    case EightBit(bytes) => OctetBits(bytes)
  }

  /** `getLengthInBits`, for the versions 1 to 40. */
  function CountBits(mode: nat, version: nat): nat {
    if 1 <= version < 10 then
      if mode == 1 then 10 else if mode == 2 then 9 else 8
    else if version < 27 then
      if mode == 1 then 12 else if mode == 2 then 11 else 16
    else
      if mode == 1 then 14 else if mode == 2 then 13 else 16
  }

  function SegmentBits(s: Segment, version: nat): seq<bool>
    requires Legal(s)
  {
    High(Mode(s), 4) + High(Count(s), CountBits(Mode(s), version)) + BodyBits(s)
  }

  function StreamBits(segments: seq<Segment>, version: nat): seq<bool>
    requires forall i :: 0 <= i < |segments| ==> Legal(segments[i])
  {
    if |segments| == 0 then []
    else SegmentBits(segments[0], version) + StreamBits(segments[1..], version)
  }

  // --- A reader ---

  datatype Parsed<+T> = Parsed(value: T, rest: seq<bool>)

  function ParseNumeric(bits: seq<bool>, n: nat): Outcome<Parsed<string>> {
    if n == 0 then Ok(Parsed("", bits))
    else
      var digits := if n >= 3 then 3 else n;
      var width := if n >= 3 then 10 else if n == 2 then 7 else 4;
      if |bits| < width then Throws
      else
        var v := Number(bits[..width]);
        var text := if digits == 3 then Three(v) else if digits == 2 then Two(v) else One(v);
        match ParseNumeric(bits[width..], n - digits)
        case Throws => Throws
        case Ok(p) => Ok(Parsed(text + p.value, p.rest))
  }

  function One(v: nat): string {
    [DigitChar(v % 10)]
  }

  function Two(v: nat): string {
    [DigitChar(v / 10 % 10), DigitChar(v % 10)]
  }

  function Three(v: nat): string {
    [DigitChar(v / 100 % 10), DigitChar(v / 10 % 10), DigitChar(v % 10)]
  }

  function ParseAlpha(bits: seq<bool>, n: nat): Outcome<Parsed<string>> {
    if n == 0 then Ok(Parsed("", bits))
    else if n == 1 then
      if |bits| < 6 then Throws
      else
        var v := Number(bits[..6]);
        if v >= 45 then Throws else Ok(Parsed([AlphaChar(v)], bits[6..]))
    else if |bits| < 11 then Throws
    else
      var v := Number(bits[..11]);
      if v >= 45 * 45 then Throws
      else
        match ParseAlpha(bits[11..], n - 2)
        case Throws => Throws
        case Ok(p) => Ok(Parsed([AlphaChar(v / 45), AlphaChar(v % 45)] + p.value, p.rest))
  }

  function ParseOctets(bits: seq<bool>, n: nat): Outcome<Parsed<seq<Octet>>> {
    if n == 0 then Ok(Parsed([], bits))
    else if |bits| < 8 then Throws
    else
      match ParseOctets(bits[8..], n - 1)
      case Throws => Throws
      case Ok(p) => Ok(Parsed([Number(bits[..8]) % 256] + p.value, p.rest))
  }

  function ParseBody(bits: seq<bool>, mode: nat, n: nat): Outcome<Parsed<Segment>> {
    if mode == 1 then
      match ParseNumeric(bits, n)
      case Throws => Throws
      case Ok(p) => Ok(Parsed(Numeric(p.value), p.rest))
    else if mode == 2 then
      match ParseAlpha(bits, n)
      case Throws => Throws
      case Ok(p) => Ok(Parsed(Alphanumeric(p.value), p.rest))
    else if mode == 4 then
      match ParseOctets(bits, n)
      case Throws => Throws
      case Ok(p) => Ok(Parsed(EightBit(p.value), p.rest))
    else Throws
  }

  /** The width of the count as the standard tabulates it: by version range and mode. */
  function FieldWidth(mode: nat, version: nat): nat {
    var widths := if 1 <= version <= 9 then [10, 9, 8] else if version <= 26 then [12, 11, 16] else [14, 13, 16];
    widths[if mode == 1 then 0 else if mode == 2 then 1 else 2]
  }

  /** Reads segments up to the terminator, or up to less than four bits. */
  function ParseStream(bits: seq<bool>, version: nat): Outcome<seq<Segment>>
    decreases |bits|
  {
    if |bits| < 4 || Number(bits[..4]) == 0 then Ok([])
    else
      var mode, rest := Number(bits[..4]), bits[4..];
      var width := FieldWidth(mode, version);
      if |rest| < width then Throws
      else
        match ParseBody(rest[width..], mode, Number(rest[..width]))
        case Throws => Throws
        case Ok(p) =>
          if |p.rest| > |rest| then Throws
          else
            match ParseStream(p.rest, version)
            case Throws => Throws
            case Ok(more) => Ok([p.value] + more)
  }

  // --- The reader undoes the writer ---

  lemma ReadHigh(x: nat, n: nat, rest: seq<bool>)
    requires x < Pow2(n)
    ensures var bits := High(x, n) + rest;
            |bits| >= n && Number(bits[..n]) == x && bits[n..] == rest
  {
    hide High, Number;
    NumberOfHigh(x, n);
    assert (High(x, n) + rest)[..n] == High(x, n);
  }

  lemma SmallPowers()
    ensures Pow2(4) == 16 && Pow2(6) == 64 && Pow2(7) == 128 && Pow2(8) == 256
    ensures Pow2(9) == 512 && Pow2(10) == 1024 && Pow2(11) == 2048 && Pow2(12) == 4096
    ensures Pow2(13) == 8192 && Pow2(14) == 16384 && Pow2(16) == 65536
  {
    assert Pow2(4) == 16;
    assert Pow2(8) == 256;
    assert Pow2(12) == 4096;
    assert Pow2(16) == 65536;
  }

  lemma ThreeDigits(a: nat, b: nat, c: nat)
    requires a < 10 && b < 10 && c < 10
    ensures var v := 10 * (10 * a + b) + c; v / 100 % 10 == a && v / 10 % 10 == b && v % 10 == c
  {
    var v := 10 * (10 * a + b) + c;
    assert v / 10 == 10 * a + b;
    assert v / 100 == a;
  }

  lemma DigitsValueAppend(s: string, c: char)
    requires (forall i :: 0 <= i < |s| ==> IsDigit(s[i])) && IsDigit(c)
    ensures DigitsValue(s + [c]) == 10 * DigitsValue(s) + DigitValue(c)
  {
    assert (s + [c])[..|s|] == s;
  }

  lemma DigitCharOfValue(c: char)
    requires IsDigit(c)
    ensures DigitChar(DigitValue(c)) == c
  {
  }

  lemma DigitsOfThree(s: string)
    requires |s| == 3 && forall i :: 0 <= i < |s| ==> IsDigit(s[i])
    ensures DigitsValue(s) < 1000 && Three(DigitsValue(s)) == s
  {
    hide DigitsValue, DigitValue, DigitChar, IsDigit;
    var a, b, c := DigitValue(s[0]), DigitValue(s[1]), DigitValue(s[2]);
    assert s == [s[0], s[1]] + [s[2]];
    DigitsOfTwo([s[0], s[1]]);
    DigitsValueAppend([s[0], s[1]], s[2]);
    ThreeDigits(a, b, c);
    DigitCharOfValue(s[0]);
    DigitCharOfValue(s[1]);
    DigitCharOfValue(s[2]);
  }

  lemma DigitsOfTwo(s: string)
    requires |s| == 2 && forall i :: 0 <= i < |s| ==> IsDigit(s[i])
    ensures DigitsValue(s) == 10 * DigitValue(s[0]) + DigitValue(s[1])
    ensures DigitsValue(s) < 100 && Two(DigitsValue(s)) == s
  {
    hide DigitsValue, DigitValue, DigitChar, IsDigit;
    assert s == [s[0]] + [s[1]];
    DigitsOfOne([s[0]]);
    DigitsValueAppend([s[0]], s[1]);
    ThreeDigits(0, DigitValue(s[0]), DigitValue(s[1]));
    DigitCharOfValue(s[0]);
    DigitCharOfValue(s[1]);
  }

  lemma DigitsOfOne(s: string)
    requires |s| == 1 && IsDigit(s[0])
    ensures DigitsValue(s) == DigitValue(s[0])
    ensures DigitsValue(s) < 10 && One(DigitsValue(s)) == s
  {
    assert s[..0] == [];
  }

  lemma ParseThree(head: string, bits: seq<bool>, n: nat)
    requires |head| == 3 && forall i :: 0 <= i < |head| ==> IsDigit(head[i])
    requires n >= 3
    ensures ParseNumeric(High(DigitsValue(head), 10) + bits, n) ==
            match ParseNumeric(bits, n - 3)
            case Throws => Throws
            case Ok(p) => Ok(Parsed(head + p.value, p.rest))
  {
    hide High, Number, DigitsValue, One, Two, Three, Pow2, IsDigit;
    SmallPowers();
    DigitsOfThree(head);
    ReadHigh(DigitsValue(head), 10, bits);
  }

  lemma ParseShort(s: string, rest: seq<bool>)
    requires |s| < 3 && forall i :: 0 <= i < |s| ==> IsDigit(s[i])
    ensures ParseNumeric(NumericBits(s) + rest, |s|) == Ok(Parsed(s, rest))
  {
    hide High, Number, DigitsValue, One, Two, Three, Pow2, IsDigit;
    SmallPowers();
    assert ParseNumeric(rest, 0) == Ok(Parsed("", rest));
    assert s + "" == s;
    if |s| == 2 {
      DigitsOfTwo(s);
      ReadHigh(DigitsValue(s), 7, rest);
    } else if |s| == 1 {
      DigitsOfOne(s);
      ReadHigh(DigitsValue(s), 4, rest);
    } else {
      assert NumericBits(s) + rest == rest;
    }
  }

  lemma {:induction false} ParseNumericBits(s: string, rest: seq<bool>)
    requires forall i :: 0 <= i < |s| ==> IsDigit(s[i])
    ensures ParseNumeric(NumericBits(s) + rest, |s|) == Ok(Parsed(s, rest))
    decreases |s|
  {
    hide High, DigitsValue, ParseNumeric, IsDigit;
    if |s| >= 3 {
      var head, tail := s[..3], s[3..];
      ParseNumericBits(tail, rest);
      ParseThree(head, NumericBits(tail) + rest, |s|);
      assert NumericBits(s) + rest == High(DigitsValue(head), 10) + (NumericBits(tail) + rest);
      assert head + tail == s;
    } else {
      ParseShort(s, rest);
    }
  }

  lemma {:induction false} ParseAlphaBits(s: string, rest: seq<bool>)
    requires forall i :: 0 <= i < |s| ==> IsAlphanumeric(s[i])
    ensures ParseAlpha(AlphaBits(s) + rest, |s|) == Ok(Parsed(s, rest))
    decreases |s|
  {
    hide High, Number, AlphaCode, AlphaChar, Pow2, IsAlphanumeric;
    SmallPowers();
    if |s| >= 2 {
      var v := AlphaCode(s[0]) * 45 + AlphaCode(s[1]);
      AlphaCharOfCode(s[0]);
      AlphaCharOfCode(s[1]);
      ParseAlphaBits(s[2..], rest);
      ReadHigh(v, 11, AlphaBits(s[2..]) + rest);
      assert AlphaBits(s) + rest == High(v, 11) + (AlphaBits(s[2..]) + rest);
      assert v / 45 == AlphaCode(s[0]) && v % 45 == AlphaCode(s[1]);
      assert [s[0], s[1]] + s[2..] == s;
    } else if |s| == 1 {
      AlphaCharOfCode(s[0]);
      ReadHigh(AlphaCode(s[0]), 6, rest);
      assert s == [s[0]];
    } else {
      assert AlphaBits(s) + rest == rest;
    }
  }

  lemma {:induction false} ParseOctetBits(s: seq<Octet>, rest: seq<bool>)
    ensures ParseOctets(OctetBits(s) + rest, |s|) == Ok(Parsed(s, rest))
    decreases |s|
  {
    hide High, Number, Pow2;
    SmallPowers();
    if |s| == 0 {
      assert OctetBits(s) + rest == rest;
    } else {
      ParseOctetBits(s[1..], rest);
      ReadHigh(s[0], 8, OctetBits(s[1..]) + rest);
      assert OctetBits(s) + rest == High(s[0], 8) + (OctetBits(s[1..]) + rest);
      assert [s[0]] + s[1..] == s;
    }
  }

  lemma ParseBodyBits(s: Segment, rest: seq<bool>)
    requires Legal(s)
    ensures ParseBody(BodyBits(s) + rest, Mode(s), Count(s)) == Ok(Parsed(s, rest))
  {
    hide ParseNumeric, ParseAlpha, ParseOctets, NumericBits, AlphaBits, OctetBits, IsAlphanumeric, IsDigit;
    match s
    case Numeric(digits) => ParseNumericBits(digits, rest);
    case Alphanumeric(text) => ParseAlphaBits(text, rest);
    case EightBit(bytes) => ParseOctetBits(bytes, rest);
  }

  /** Every count fits into its field. */
  ghost predicate CountsFit(segments: seq<Segment>, version: nat) {
    forall i :: 0 <= i < |segments| ==> Count(segments[i]) < Pow2(CountBits(Mode(segments[i]), version))
  }

  /** What ends the stream: fewer than four bits, or a terminator. */
  predicate Ends(rest: seq<bool>) {
    |rest| < 4 || Number(rest[..4]) == 0
  }

  /** The source finds the widths of the table. */
  lemma CountBitsTabulated(mode: nat, version: nat)
    requires mode in {1, 2, 4}
    ensures CountBits(mode, version) == FieldWidth(mode, version)
  {
  }

  lemma ParseOne(s: Segment, version: nat, rest: seq<bool>)
    requires Legal(s) && Count(s) < Pow2(CountBits(Mode(s), version))
    ensures ParseStream(SegmentBits(s, version) + rest, version) ==
            match ParseStream(rest, version)
            case Throws => Throws
            case Ok(more) => Ok([s] + more)
  {
    hide High, Number, Pow2, ParseBody, BodyBits, Legal;
    SmallPowers();
    var mode, count, body := Mode(s), Count(s), BodyBits(s);
    var width := CountBits(mode, version);
    CountBitsTabulated(mode, version);
    hide CountBits, FieldWidth;
    var tail := High(count, width) + (body + rest);
    assert SegmentBits(s, version) + rest == High(mode, 4) + tail;
    ReadHigh(mode, 4, tail);
    ReadHigh(count, width, body + rest);
    ParseBodyBits(s, rest);
  }

  /** The reader returns exactly the segments written, whatever ends the stream. */
  lemma {:induction false} ParseStreamBits(segments: seq<Segment>, version: nat, rest: seq<bool>)
    requires forall i :: 0 <= i < |segments| ==> Legal(segments[i])
    requires CountsFit(segments, version) && Ends(rest)
    ensures ParseStream(StreamBits(segments, version) + rest, version) == Ok(segments)
    decreases |segments|
  {
    hide Number, Legal, SegmentBits, Pow2, CountBits, Mode, Count;
    if |segments| == 0 {
      assert StreamBits(segments, version) + rest == rest;
    } else {
      var more := StreamBits(segments[1..], version) + rest;
      ParseStreamBits(segments[1..], version, rest);
      ParseOne(segments[0], version, more);
      assert StreamBits(segments, version) + rest == SegmentBits(segments[0], version) + more;
      assert [segments[0]] + segments[1..] == segments;
    }
  }
}
