/** `base64EncodeOutputStream` and `base64DecodeInputStream` (section 4 of RFC 4648), with the
    32-bit shift register both of them keep. */
module Base64 {
  import opened JsBits
  import opened Outcomes
  import opened MsbBits

  // --- The alphabet ---

  /** `encode` for the numbers below 64. */
  function Encode(n: nat): char
    requires n < 64
  {
    if n < 26 then ('A' as int + n) as char
    else if n < 52 then ('a' as int + (n - 26)) as char
    else if n < 62 then ('0' as int + (n - 52)) as char
    else if n == 62 then '+'
    else '/'
  }

  /** `decode`, which throws on any other character. */
  function Decode(c: char): Outcome<nat> {
    if 'A' <= c <= 'Z' then Ok(c as int - 'A' as int)
    else if 'a' <= c <= 'z' then Ok(c as int - 'a' as int + 26)
    else if '0' <= c <= '9' then Ok(c as int - '0' as int + 52)
    else if c == '+' then Ok(62)
    else if c == '/' then Ok(63)
    else Throws
  }

  /** What the regular expression `\s` matches. */
  predicate IsSpace(c: char) {
    || '\t' <= c <= '\r' || c == ' ' || c as int in {0xA0, 0x1680, 0x2028, 0x2029, 0x202F, 0x205F, 0x3000, 0xFEFF}
    || 0x2000 <= c as int <= 0x200A
  }

  /** The 25 white space characters of ECMAScript. */
  lemma SpacesAre(c: char)
    ensures IsSpace(c) <==>
      c as int in {9, 10, 11, 12, 13, 32, 160, 5760, 8192, 8193, 8194, 8195, 8196, 8197, 8198, 8199, 8200, 8201, 8202,
                   8232, 8233, 8239, 8287, 12288, 65279}
  {
  }

  lemma DecodeEncode(n: nat)
    requires n < 64
    ensures Decode(Encode(n)) == Ok(n) && Encode(n) != '=' && !IsSpace(Encode(n))
  {
  }

  lemma DecodeBelow(c: char)
    ensures Decode(c).Ok? ==> Decode(c).value < 64
  {
  }

  // --- 32-bit registers ---

  /** `(a << k) | b` on a 32-bit register. */
  function ShiftIn(a: nat, k: nat, b: nat): nat {
    Or(LowPart(Shl(a, k), 32), b)
  }

  lemma ShiftInBits(a: nat, m: nat, b: nat, k: nat)
    requires b < Pow2(k) && m + k <= 32
    ensures High(ShiftIn(a, k, b), m + k) == High(a, m) + High(b, k)
  {
    hide Or, LowPart, Shl, High, Pow2;
    LowPartOfShl(a, k, 32);
    OrDisjoint(LowPart(a, 32 - k), b, k);
    HighJoin(LowPart(a, 32 - k), b, m, k);
    HighOfLowPart(a, 32 - k, m);
  }

  lemma SixBits(x: nat)
    ensures And(0x3f, x) == LowPart(x, 6) < 64
    ensures High(LowPart(x, 6), 6) == High(x, 6)
  {
    AndMask(x, 6);
    assert Pow2(6) == 64;
    HighOfLowPart(x, 6, 6);
  }

  lemma EightBits(x: nat)
    ensures And(0xff, x) == LowPart(x, 8) < 256
    ensures High(LowPart(x, 8), 8) == High(x, 8)
    ensures Number(High(x, 8)) == LowPart(x, 8)
  {
    AndMask(x, 8);
    assert Pow2(8) == 256;
    HighOfLowPart(x, 8, 8);
    NumberOfHigh(LowPart(x, 8), 8);
  }

  // --- What a text denotes ---

  /** The bits of a text over the alphabet. */
  function TextBits(s: string): seq<bool> {
    if |s| == 0 then []
    else TextBits(s[..|s| - 1]) + (match Decode(s[|s| - 1]) case Ok(n) => High(n, 6) case Throws => [])
  }

  predicate InAlphabet(s: string) {
    forall i :: 0 <= i < |s| ==> Decode(s[i]).Ok? && s[i] != '=' && !IsSpace(s[i])
  }

  lemma TextAppend(s: string, n: nat)
    requires InAlphabet(s) && n < 64
    ensures InAlphabet(s + [Encode(n)]) && TextBits(s + [Encode(n)]) == TextBits(s) + High(n, 6)
  {
    hide Encode, Decode, IsSpace, High;
    DecodeEncode(n);
    assert (s + [Encode(n)])[..|s|] == s;
  }

  function Pads(n: nat): (s: string)
    ensures |s| == n && forall i :: 0 <= i < n ==> s[i] == '='
  {
    seq(n, _ => '=')
  }

  /** The text of the bytes: their bits and n zeros in sextets, then the padding. */
  ghost predicate Encodes(text: string, n: nat, s: string, data: seq<Octet>) {
    && n in {0, 2, 4}
    && InAlphabet(text)
    && TextBits(text) == OctetBits(data) + NoBits(n)
    && s == text + Pads((3 - |data| % 3) % 3)
  }

  ghost predicate IsBase64(s: string, data: seq<Octet>) {
    exists text, n :: Encodes(text, n, s, data)
  }

  lemma {:induction false} TextLength(s: string)
    requires InAlphabet(s)
    ensures |TextBits(s)| == 6 * |s|
  {
    hide Decode, IsSpace;
    if |s| == 0 {
    } else {
      TextLength(s[..|s| - 1]);
    }
  }

  /** The six bits of one character. */
  lemma {:induction false} TextAt(s: string, i: nat)
    requires InAlphabet(s) && i < |s|
    ensures |TextBits(s)| == 6 * |s|
    ensures TextBits(s)[6 * i..6 * i + 6] == High(Decode(s[i]).value, 6)
  {
    hide Decode, IsSpace, High;
    TextLength(s);
    var front := s[..|s| - 1];
    TextLength(front);
    if i >= |front| {
    } else {
      TextAt(front, i);
      assert TextBits(s)[6 * i..6 * i + 6] == TextBits(front)[6 * i..6 * i + 6];
    }
  }

  // --- The encoder ---

  class Base64EncodeOutputStream {
    var buffer: nat
    var buflen: nat
    var length: nat
    var base64: string
    ghost var written: seq<Octet>

    ghost predicate Valid()
      reads this
    {
      && buflen in {0, 2, 4}
      && length == |written|
      && InAlphabet(base64)
      && TextBits(base64) + High(buffer, buflen) == OctetBits(written)
      && 8 * length == 6 * |base64| + buflen
    }

    constructor ()
      ensures Valid() && written == []
    {
      buffer, buflen, length := 0, 0, 0;
      base64 := "";
      written := [];
    }

    method WriteEncoded(b: nat)
      requires InAlphabet(base64)
      modifies `base64
      ensures InAlphabet(base64)
      ensures TextBits(base64) == TextBits(old(base64)) + High(b, 6) && |base64| == old(|base64|) + 1
    {
      hide Encode, High, And, LowPart, TextBits, InAlphabet;
      SixBits(b);
      TextAppend(base64, LowPart(b, 6));
      base64 := base64 + [Encode(And(0x3f, b))];
    }

    method WriteByte(n: nat)
      requires Valid()
      modifies this
      ensures Valid() && written == old(written) + [LowPart(n, 8)]
    {
      hide Encode, High, And, LowPart, TextBits, InAlphabet, OctetBits, ShiftIn, Shr, Pow2;
      EightBits(n);
      assert LowPart(n, 8) < Pow2(8) by { Fits8(n); }
      ShiftInBits(buffer, buflen, LowPart(n, 8), 8);
      OctetAppend(written, LowPart(n, 8));
      ghost var all := OctetBits(written + [LowPart(n, 8)]);
      assert TextBits(base64) + High(ShiftIn(buffer, 8, LowPart(n, 8)), buflen + 8) == all;
      buffer := ShiftIn(buffer, 8, And(0xff, n));
      buflen := buflen + 8;
      length := length + 1;
      written := written + [LowPart(n, 8)];
      while buflen >= 6
        invariant buflen % 2 == 0 && buflen <= 12
        invariant InAlphabet(base64) && TextBits(base64) + High(buffer, buflen) == all
        invariant 8 * length == 6 * |base64| + buflen
        invariant length == |written| && written == old(written) + [LowPart(n, 8)]
      {
        HighSplit(buffer, 6, buflen - 6);
        ghost var text := TextBits(base64);
        WriteEncoded(Shr(buffer, buflen - 6));
        buflen := buflen - 6;
        assert text + (High(Shr(buffer, buflen), 6) + High(buffer, buflen)) == TextBits(base64) + High(buffer, buflen);
      }
    }

    /** `flush`, which fills the last sextet up with zeros and pads. */
    method Flush()
      requires Valid()
      modifies this
      ensures IsBase64(base64, old(written))
    {
      hide Encode, High, And, LowPart, TextBits, InAlphabet, OctetBits, Shr, Shl, Pow2, NoBits;
      ghost var n := 0;
      NoZeros(OctetBits(written));
      if buflen > 0 {
        n := 6 - buflen;
        ghost var before := TextBits(base64);
        ShiftedOut(buffer, buflen);
        WriteEncoded(LowPart(Shl(buffer, 6 - buflen), 32));
        assert before + (High(buffer, buflen) + NoBits(n)) == OctetBits(written) + NoBits(n);
        buffer := 0;
        buflen := 0;
      } else {
        assert High(buffer, 0) == [] by { NoHigh(buffer); }
        assert TextBits(base64) + [] == TextBits(base64);
      }
      ghost var text := base64;
      assert TextBits(text) == OctetBits(written) + NoBits(n);
      if length % 3 != 0 {
        var padlen := 3 - length % 3;
        for i := 0 to padlen
          invariant base64 == text + Pads(i)
        {
          base64 := base64 + "=";
        }
      }
      assert Encodes(text, n, base64, old(written));
    }
  }

  lemma Fits8(n: nat)
    ensures LowPart(n, 8) < Pow2(8)
  {
  }

  lemma NoHigh(x: nat)
    ensures High(x, 0) == []
  {
  }

  lemma NoZeros(s: seq<bool>)
    ensures s + NoBits(0) == s
  {
  }

  lemma {:induction false} HighZero(n: nat)
    ensures High(0, n) == NoBits(n)
  {
    if n == 0 {
    } else {
      HighZero(n - 1);
      assert NoBits(n) == NoBits(n - 1) + [false];
    }
  }

  /** The last sextet: the pending bits and zeros. */
  lemma ShiftedOut(x: nat, m: nat)
    requires 0 < m <= 6
    ensures High(LowPart(Shl(x, 6 - m), 32), 6) == High(x, m) + NoBits(6 - m)
  {
    hide High, LowPart, Shl;
    HighOfLowPart(Shl(x, 6 - m), 32, 6);
    HighJoin(x, 0, m, 6 - m);
    HighZero(6 - m);
  }

  // --- The decoder ---

  /** The result of one `read` (-1 at the end), and what is left: a position and pending bits. */
  datatype Step = Step(result: int, pos: nat, pending: seq<bool>)

  function ReadAt(str: string, pos: nat, pending: seq<bool>): Outcome<Step>
    requires pos <= |str|
    decreases |str| - pos
  {
    if |pending| >= 8 then Ok(Step(Number(pending[..8]), pos, pending[8..]))
    else if pos == |str| then (if |pending| == 0 then Ok(Step(-1, pos, pending)) else Throws)
    else
      var c := str[pos];
      if c == '=' then Ok(Step(-1, pos + 1, []))
      else if IsSpace(c) then ReadAt(str, pos + 1, pending)
      else
        match Decode(c)
        case Throws => Throws
        case Ok(n) => ReadAt(str, pos + 1, pending + High(n, 6))
  }

  class Base64DecodeInputStream {
    const str: string
    var pos: nat
    var buffer: nat
    var buflen: nat

    ghost predicate Valid()
      reads this
    {
      pos <= |str| && buflen <= 13
    }

    ghost function Pending(): (s: seq<bool>)
      reads this
      ensures |s| == buflen
    {
      High(buffer, buflen)
    }

    constructor (str: string)
      ensures Valid() && this.str == str && pos == 0 && Pending() == []
    {
      this.str := str;
      pos, buffer, buflen := 0, 0, 0;
    }

    /** `read`, for any text. */
    method Read() returns (r: Outcome<int>)
      requires Valid()
      modifies `pos, `buffer, `buflen
      ensures Valid()
      ensures match ReadAt(str, old(pos), old(Pending()))
              case Throws => r.Throws?
              case Ok(step) => r == Ok(step.result) && pos == step.pos && Pending() == step.pending
    {
      hide High, Number, Decode, IsSpace, ShiftIn, Shr, LowPart, And, Pow2;
      while buflen < 8
        invariant Valid()
        invariant ReadAt(str, pos, Pending()) == ReadAt(str, old(pos), old(Pending()))
        decreases |str| - pos
      {
        if pos >= |str| {
          if buflen == 0 { return Ok(-1); }
          return Throws;
        }
        var c := str[pos];
        pos := pos + 1;
        if c == '=' {
          buflen := 0;
          NoHigh(buffer);
          return Ok(-1);
        } else if IsSpace(c) {
          continue;
        }
        var d := Decode(c);
        if d.Throws? { return Throws; }
        DecodeBelow(c);
        SixtyFour();
        ShiftInBits(buffer, buflen, d.value, 6);
        buffer := ShiftIn(buffer, 6, d.value);
        buflen := buflen + 6;
      }
      HighSplit(buffer, 8, buflen - 8);
      EightBits(Shr(buffer, buflen - 8));
      var n := And(0xff, Shr(buffer, buflen - 8));
      buflen := buflen - 8;
      return Ok(n);
    }
  }

  lemma SixtyFour()
    ensures Pow2(6) == 64
  {
  }

  // --- Reading back ---

  /** The results of k reads in a row. */
  function ReadMany(str: string, pos: nat, pending: seq<bool>, k: nat): Outcome<seq<int>>
    requires pos <= |str|
    decreases k
  {
    if k == 0 then Ok([])
    else
      match ReadAt(str, pos, pending)
      case Throws => Throws
      case Ok(step) =>
        if step.pos > |str| then Throws
        else
          match ReadMany(str, step.pos, step.pending, k - 1)
          case Throws => Throws
          case Ok(rest) => Ok([step.result] + rest)
  }

  function Item(data: seq<Octet>, i: nat): int {
    if i < |data| then data[i] else -1
  }

  /** The bytes from the i-th on, and then -1 for ever. */
  function Expected(data: seq<Octet>, i: nat, k: nat): (s: seq<int>)
    ensures |s| == k
  {
    seq(k, (j: nat) => Item(data, i + j))
  }

  lemma ExpectedNext(data: seq<Octet>, i: nat, k: nat)
    requires k > 0
    ensures Expected(data, i, k) == [Item(data, i)] + Expected(data, i + 1, k - 1)
  {
  }

  /** Where the reader is when i bytes have been read and `pos` characters consumed. */
  ghost predicate At(text: string, data: seq<Octet>, i: nat, pos: nat, pending: seq<bool>) {
    && i <= |data| && 8 * i <= 6 * pos && pos <= |text|
    && |TextBits(text)| == 6 * |text|
    && pending == TextBits(text)[8 * i..6 * pos]
  }

  /** One more character is consumed. */
  lemma Consume(text: string, n: nat, s: string, data: seq<Octet>, i: nat, pos: nat, pending: seq<bool>)
    requires Encodes(text, n, s, data) && At(text, data, i, pos, pending)
    requires pos < |text| && |pending| < 8
    ensures Decode(text[pos]).Ok?
    ensures At(text, data, i, pos + 1, pending + High(Decode(text[pos]).value, 6))
    ensures ReadAt(s, pos, pending) == ReadAt(s, pos + 1, pending + High(Decode(text[pos]).value, 6))
  {
    hide Decode, IsSpace, High, TextBits, OctetBits, NoBits, Pads;
    TextAt(text, pos);
    assert s[pos] == text[pos];
  }

  /** A byte that is left is read. */
  lemma {:induction false} ReadByte(text: string, n: nat, s: string, data: seq<Octet>, i: nat, pos: nat,
                                    pending: seq<bool>)
      returns (next: nat, left: seq<bool>)
    requires Encodes(text, n, s, data) && At(text, data, i, pos, pending) && i < |data|
    ensures ReadAt(s, pos, pending) == Ok(Step(data[i], next, left))
    ensures At(text, data, i + 1, next, left)
    decreases |text| - pos
  {
    hide Decode, IsSpace, High, TextBits, Pads, Number, InAlphabet;
    if |pending| >= 8 {
      OctetAt(data, i);
      Fits8(data[i]);
      Pow2Of8();
      NumberOfHigh(data[i], 8);
      var bits := TextBits(text);
      assert pending[..8] == bits[8 * i..8 * i + 8];
      assert bits[8 * i..8 * i + 8] == OctetBits(data)[8 * i..8 * i + 8];
      next, left := pos, pending[8..];
    } else {
      Consume(text, n, s, data, i, pos, pending);
      next, left := ReadByte(text, n, s, data, i, pos + 1, pending + High(Decode(text[pos]).value, 6));
    }
  }

  /** When the last byte has been read, the text has been consumed and what is left gives -1. */
  lemma ReadLast(text: string, n: nat, s: string, data: seq<Octet>, pos: nat, pending: seq<bool>)
      returns (next: nat)
    requires Encodes(text, n, s, data) && At(text, data, |data|, pos, pending)
    ensures ReadAt(s, pos, pending) == Ok(Step(-1, next, []))
    ensures |text| <= next <= |s|
  {
    hide Decode, IsSpace, High, TextBits, OctetBits, NoBits, InAlphabet;
    assert pos == |text| && |pending| == n;
    next := if |s| > |text| then pos + 1 else pos;
  }

  /** In the padding and behind it there is nothing but -1. */
  lemma {:induction false} ReadPads(text: string, s: string, p: nat, data: seq<Octet>, i: nat, pos: nat, k: nat)
    requires s == text + Pads(p) && |text| <= pos <= |s| && i >= |data|
    ensures ReadMany(s, pos, [], k) == Ok(Expected(data, i, k))
    decreases k
  {
    hide Decode, IsSpace, Number;
    if k == 0 {
    } else {
      ExpectedNext(data, i, k);
      ReadPads(text, s, p, data, i + 1, if pos < |s| then pos + 1 else pos, k - 1);
    }
  }

  lemma {:induction false} ReadRest(text: string, n: nat, s: string, data: seq<Octet>, i: nat, pos: nat,
                                    pending: seq<bool>, k: nat)
    requires Encodes(text, n, s, data) && At(text, data, i, pos, pending)
    ensures ReadMany(s, pos, pending, k) == Ok(Expected(data, i, k))
    decreases k
  {
    hide ReadAt, Encodes, At, Expected;
    EncodesIs(text, n, s, data);
    AtIs(text, data, i, pos, pending);
    if k > 0 {
      ExpectedNext(data, i, k);
      if i < |data| {
        var next, left := ReadByte(text, n, s, data, i, pos, pending);
        AtIs(text, data, i + 1, next, left);
        ReadRest(text, n, s, data, i + 1, next, left, k - 1);
      } else {
        var next := ReadLast(text, n, s, data, pos, pending);
        ReadPads(text, s, (3 - |data| % 3) % 3, data, i + 1, next, k - 1);
      }
    } else {
      ExpectedNone(data, i);
    }
  }

  lemma ExpectedNone(data: seq<Octet>, i: nat)
    ensures Expected(data, i, 0) == []
  {
  }

  lemma EncodesIs(text: string, n: nat, s: string, data: seq<Octet>)
    requires Encodes(text, n, s, data)
    ensures s == text + Pads((3 - |data| % 3) % 3) && |text| <= |s|
  {
  }

  lemma AtIs(text: string, data: seq<Octet>, i: nat, pos: nat, pending: seq<bool>)
    requires At(text, data, i, pos, pending)
    ensures pos <= |text| && i <= |data|
  {
  }

  lemma Pow2Of8()
    ensures Pow2(8) == 256
  {
  }

  /** Reading the text of the bytes gives the bytes and then -1 for ever; it never throws. */
  lemma ReadsBack(s: string, data: seq<Octet>, k: nat)
    requires IsBase64(s, data)
    ensures ReadMany(s, 0, [], k) == Ok(Expected(data, 0, k))
  {
    hide TextBits, OctetBits, ReadMany, Expected, Pads, NoBits;
    var text, n :| Encodes(text, n, s, data);
    TextLength(text);
    ReadRest(text, n, s, data, 0, 0, [], k);
  }

  /** A text is the text of one byte sequence only. */
  lemma IsBase64Unique(s: string, a: seq<Octet>, b: seq<Octet>)
    requires IsBase64(s, a) && IsBase64(s, b)
    ensures a == b
  {
    hide IsBase64, ReadMany;
    var k := |a| + |b| + 1;
    ReadsBack(s, a, k);
    ReadsBack(s, b, k);
    forall i: nat | i < k ensures Item(a, i) == Item(b, i) {
      assert Item(a, 0 + i) == Expected(a, 0, k)[i] == Expected(b, 0, k)[i] == Item(b, 0 + i);
    }
    assert Item(a, |a|) == Item(b, |a|) && Item(a, |b|) == Item(b, |b|);
    forall i | 0 <= i < |a| ensures a[i] == b[i] {
      assert Item(a, i) == Item(b, i);
    }
  }

  method EncodeAll(data: seq<Octet>) returns (s: string)
    ensures IsBase64(s, data)
  {
    hide LowPart, IsBase64, InAlphabet, TextBits, High, OctetBits;
    var encoder := new Base64EncodeOutputStream();
    for i := 0 to |data|
      invariant encoder.Valid() && fresh(encoder) && encoder.written == data[..i]
    {
      LowPartOfByte(data[i]);
      encoder.WriteByte(data[i]);
    }
    assert data[..|data|] == data;
    encoder.Flush();
    return encoder.base64;
  }

  /** The bytes through the encoder, and k reads from the decoder: the bytes, then -1 for ever,
      and nothing is thrown. */
  method ThereAndBack(data: seq<Octet>, k: nat) returns (results: seq<int>)
    ensures results == Expected(data, 0, k)
  {
    hide LowPart, Expected, IsBase64, ReadAt;
    var s := EncodeAll(data);
    ReadsBack(s, data, k);
    var decoder := new Base64DecodeInputStream(s);
    results := [];
    ghost var all := ReadMany(s, 0, [], k);
    assert [] + all.value == all.value;
    for i := 0 to k
      invariant decoder.Valid() && fresh(decoder) && decoder.str == s
      invariant Then(results, ReadMany(s, decoder.pos, decoder.Pending(), k - i)) == Ok(Expected(data, 0, k))
    {
      ghost var rest := ReadMany(s, decoder.pos, decoder.Pending(), k - i);
      var next := decoder.Read();
      assert results + rest.value == results + [next.value] + rest.value[1..];
      results := results + [next.value];
    }
  }

  function Then(first: seq<int>, rest: Outcome<seq<int>>): Outcome<seq<int>> {
    match rest
    case Throws => Throws
    case Ok(s) => Ok(first + s)
  }

  lemma LowPartOfByte(n: Octet)
    ensures LowPart(n, 8) == n
  {
    hide LowPart;
    Pow2Of8();
    LowPartFits(n, 8);
  }
}
