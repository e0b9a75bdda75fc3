/** `createData` up to interleaving: the segments, the terminator and the padding. */
module DataStream {
  import opened JsBits
  import opened Outcomes
  import opened MsbBits
  import opened QrBitBuffer
  import opened Segments

  const PAD0 := 0xEC
  const PAD1 := 0x11

  /** n pad bytes, alternating. */
  function PadBits(n: nat, first: bool): (s: seq<bool>)
    ensures |s| == 8 * n
  {
    if n == 0 then [] else High(if first then PAD0 else PAD1, 8) + PadBits(n - 1, !first)
  }

  /** The bits missing from a whole number of bytes. */
  function Gap(n: nat): (g: nat)
    ensures g < 8 && (n + g) % 8 == 0
  {
    (8 - n % 8) % 8
  }

  lemma GapWithin(n: nat, total: nat)
    requires n <= 8 * total
    ensures (n + Gap(n)) / 8 <= total && 8 * ((n + Gap(n)) / 8) == n + Gap(n)
  {
  }

  /** The stream filled up to `total` bytes. */
  function Padded(bits: seq<bool>, total: nat): (s: seq<bool>)
    requires |bits| <= 8 * total
    ensures |s| == 8 * total
  {
    var ended := if |bits| + 4 <= 8 * total then bits + High(0, 4) else bits;
    GapWithin(|ended|, total);
    var aligned := ended + NoBits(Gap(|ended|));
    aligned + PadBits(total - |aligned| / 8, true)
  }

  /** The reader returns the segments of a full stream. */
  lemma ParsePadded(segments: seq<Segment>, version: nat, total: nat)
    requires forall i :: 0 <= i < |segments| ==> Legal(segments[i])
    requires CountsFit(segments, version) && |StreamBits(segments, version)| <= 8 * total
    ensures ParseStream(Padded(StreamBits(segments, version), total), version) == Ok(segments)
  {
    hide StreamBits, High, PadBits, Number, NoBits, CountsFit, Legal, ParseStream, Gap;
    var bits := StreamBits(segments, version);
    if |bits| + 4 <= 8 * total {
      var aligned := Gap(|bits| + 4);
      GapWithin(|bits| + 4, total);
      var rest := High(0, 4) + (NoBits(aligned) + PadBits(total - (|bits| + 4 + aligned) / 8, true));
      ReadHigh(0, 4, NoBits(aligned) + PadBits(total - (|bits| + 4 + aligned) / 8, true));
      assert Padded(bits, total) == bits + rest;
      ParseStreamBits(segments, version, rest);
    } else {
      var aligned := Gap(|bits|);
      GapWithin(|bits|, total);
      var rest := NoBits(aligned);
      assert PadBits(0, true) == [] by { NoPadding(); }
      assert Padded(bits, total) == bits + rest;
      ParseStreamBits(segments, version, rest);
    }
  }

  lemma NoPadding()
    ensures PadBits(0, true) == []
  {
  }

  /** The two pad words of the standard, bit by bit. */
  function PadWord(odd: bool): seq<bool> {
    if odd then [true, true, true, false, true, true, false, false]
    else [false, false, false, true, false, false, false, true]
  }

  lemma PadWords()
    ensures High(PAD0, 8) == PadWord(true) && High(PAD1, 8) == PadWord(false)
  {
    OddPadWord();
    EvenPadWord();
  }

  lemma OddPadWord()
    ensures High(PAD0, 8) == PadWord(true)
  {
  }

  lemma EvenPadWord()
    ensures High(PAD1, 8) == PadWord(false)
  {
  }

  lemma SliceBehind(a: seq<bool>, b: seq<bool>, i: nat, j: nat)
    requires i <= j <= |b|
    ensures (a + b)[|a| + i..|a| + j] == b[i..j]
  {
  }

  lemma {:induction false} PadBitsAt(n: nat, first: bool, k: nat)
    requires k < n
    ensures PadBits(n, first)[8 * k..8 * k + 8] == PadWord((k % 2 == 0) == first)
  {
    hide High, PadWord;
    PadWords();
    var word, rest := High(if first then PAD0 else PAD1, 8), PadBits(n - 1, !first);
    HighLength(if first then PAD0 else PAD1, 8);
    if k == 0 {
      assert (word + rest)[..8] == word;
    } else {
      PadBitsAt(n - 1, !first, k - 1);
      SliceBehind(word, rest, 8 * (k - 1), 8 * (k - 1) + 8);
    }
  }

  lemma HighLength(x: nat, n: nat)
    ensures |High(x, n)| == n
  {
  }

  /** The first word of padding: after the terminator, if there is room for it. */
  function FirstPad(length: nat, total: nat): nat {
    if length + 4 <= 8 * total then (length + 11) / 8 else total
  }

  /** p is the bits, zeros up to word `first`, and then the two pad words in turn, the odd one first. */
  ghost predicate IsPadded(p: seq<bool>, bits: seq<bool>, first: nat, total: nat) {
    && |bits| <= 8 * first <= 8 * total == |p| && p[..|bits|] == bits
    && (forall i :: |bits| <= i < 8 * first ==> !p[i])
    && (forall k :: 0 <= k < total - first ==> WordOf(p[8 * first..], k) == PadWord(k % 2 == 0))
  }

  /** Word k of a sequence of bits. */
  function WordOf(s: seq<bool>, k: nat): seq<bool> {
    if 8 * k + 8 <= |s| then s[8 * k..8 * k + 8] else []
  }

  /** What follows the stream. */
  lemma PaddedIs(bits: seq<bool>, total: nat)
    requires |bits| <= 8 * total
    ensures IsPadded(Padded(bits, total), bits, FirstPad(|bits|, total), total)
  {
    hide High, PadBits, Gap, NoBits, Padded, IsPadded, FirstPad;
    var first := FirstPad(|bits|, total);
    FirstPadIs(|bits|, total);
    PaddedParts(bits, total);
    if |bits| + 4 <= 8 * total {
      NoTerminator();
      GapBits(Gap(|bits| + 4));
      assert bits + High(0, 4) + NoBits(Gap(|bits| + 4)) == bits + (High(0, 4) + NoBits(Gap(|bits| + 4)));
      Joined(bits, High(0, 4) + NoBits(Gap(|bits| + 4)), first, total);
    } else {
      GapBits(Gap(|bits|));
      Joined(bits, NoBits(Gap(|bits|)), first, total);
    }
  }

  lemma Joined(bits: seq<bool>, zeros: seq<bool>, first: nat, total: nat)
    requires |bits| + |zeros| == 8 * first && first <= total && forall i :: 0 <= i < |zeros| ==> !zeros[i]
    ensures IsPadded(bits + zeros + PadBits(total - first, true), bits, first, total)
  {
    hide PadBits, PadWord;
    var pads, p := PadBits(total - first, true), bits + zeros + PadBits(total - first, true);
    PadsLength(total - first);
    assert p[8 * first..] == pads;
    forall k | 0 <= k < total - first ensures WordOf(p[8 * first..], k) == PadWord(k % 2 == 0) {
      PadBitsAt(total - first, true, k);
    }
  }

  lemma PadsLength(n: nat)
    ensures |PadBits(n, true)| == 8 * n
  {
  }

  lemma FirstPadIs(length: nat, total: nat)
    requires length <= 8 * total
    ensures FirstPad(length, total) <= total
    ensures length + 4 <= 8 * total ==> length + 4 + Gap(length + 4) == 8 * FirstPad(length, total)
    ensures length + 4 > 8 * total ==> length + Gap(length) == 8 * FirstPad(length, total)
  {
    if length + 4 <= 8 * total { GapRounds(length + 4); } else { GapReaches(length, total); }
    hide Gap;
  }

  lemma GapRounds(n: nat)
    ensures n + Gap(n) == 8 * ((n + 7) / 8)
  {
    var q, r := n / 8, n % 8;
    assert n == 8 * q + r;
    assert Gap(n) == if r == 0 then 0 else 8 - r;
  }

  lemma GapReaches(n: nat, total: nat)
    requires n <= 8 * total < n + 4
    ensures n + Gap(n) == 8 * total
  {
    GapRounds(n);
    hide Gap;
  }

  lemma PaddedParts(bits: seq<bool>, total: nat)
    requires |bits| <= 8 * total
    ensures |bits| + 4 <= 8 * total ==>
      |High(0, 4)| == 4
      && Padded(bits, total) == bits + High(0, 4) + NoBits(Gap(|bits| + 4))
                                + PadBits(total - FirstPad(|bits|, total), true)
    ensures |bits| + 4 > 8 * total ==>
      Padded(bits, total) == bits + NoBits(Gap(|bits|)) + PadBits(total - FirstPad(|bits|, total), true)
  {
    FirstPadIs(|bits|, total);
    HighLength(0, 4);
    GapBits(Gap(|bits| + 4));
    GapBits(Gap(|bits|));
    hide High, PadBits, Gap, NoBits, FirstPad;
    GapWithin(|bits|, total);
    if |bits| + 4 <= 8 * total { GapWithin(|bits| + 4, total); }
  }

  lemma GapBits(n: nat)
    ensures |NoBits(n)| == n && forall i :: 0 <= i < n ==> !NoBits(n)[i]
  {
  }

  lemma NoTerminator()
    ensures High(0, 4) == [false, false, false, false]
  {
  }

  // --- The writers ---

  method CharToNum(c: char) returns (r: Outcome<nat>)
    ensures r == if IsDigit(c) then Ok(DigitValue(c)) else Throws
  {
    if '0' <= c <= '9' {
      return Ok(c as int - '0' as int);
    }
    return Throws;
  }

  method StrToNum(s: string) returns (r: Outcome<nat>)
    ensures r.Ok? <==> forall i :: 0 <= i < |s| ==> IsDigit(s[i])
    ensures r.Ok? ==> r.value == DigitsValue(s)
  {
    var num := 0;
    for i := 0 to |s|
      invariant forall j :: 0 <= j < i ==> IsDigit(s[j])
      invariant num == DigitsValue(s[..i])
    {
      var d := CharToNum(s[i]);
      if d.Throws? { return Throws; }
      assert s[..i + 1] == s[..i] + [s[i]];
      DigitsValueAppend(s[..i], s[i]);
      num := num * 10 + d.value;
    }
    assert s[..|s|] == s;
    return Ok(num);
  }

  ghost predicate Digits(s: string) {
    forall i :: 0 <= i < |s| ==> IsDigit(s[i])
  }

  /** `qrNumber.write` */
  method WriteNumeric(buffer: QrBitBuffer, data: string) returns (ok: bool)
    requires buffer.Valid()
    modifies buffer
    ensures buffer.Valid()
    ensures ok <==> Digits(data)
    ensures ok ==> buffer.Contents() == old(buffer.Contents()) + NumericBits(data)
  {
    hide High, IsDigit, DigitsValue;
    var i := 0;
    while i + 2 < |data|
      invariant buffer.Valid() && 0 <= i <= |data|
      invariant Digits(data[..i])
      invariant Digits(data[i..]) ==> Digits(data)
      invariant Digits(data) ==>
                  buffer.Contents() + NumericBits(data[i..]) == old(buffer.Contents()) + NumericBits(data)
      decreases |data| - i
    {
      var group := StrToNum(data[i..i + 3]);
      if group.Throws? { return false; }
      assert data[i..][..3] == data[i..i + 3] && data[i..][3..] == data[i + 3..];
      assert data[..i + 3] == data[..i] + data[i..i + 3];
      assert data[i..] == data[i..i + 3] + data[i + 3..];
      ghost var before := buffer.Contents();
      buffer.Put(group.value, 10);
      if Digits(data) {
        assert before + NumericBits(data[i..]) == before + High(group.value, 10) + NumericBits(data[i + 3..]);
      }
      i := i + 3;
    }
    if i < |data| {
      var group := StrToNum(data[i..]);
      if group.Throws? { return false; }
      if |data| - i == 1 {
        buffer.Put(group.value, 4);
      } else if |data| - i == 2 {
        buffer.Put(group.value, 7);
      }
    }
    return true;
  }

  method GetCode(c: char) returns (r: Outcome<nat>)
    ensures r == if IsAlphanumeric(c) then Ok(AlphaCode(c)) else Throws
  {
    if '0' <= c <= '9' {
      return Ok(c as int - '0' as int);
    } else if 'A' <= c <= 'Z' {
      return Ok(c as int - 'A' as int + 10);
    } else {
      match c {
        case ' ' => return Ok(36);
        case '$' => return Ok(37);
        case '%' => return Ok(38);
        case '*' => return Ok(39);
        case '+' => return Ok(40);
        case '-' => return Ok(41);
        case '.' => return Ok(42);
        case '/' => return Ok(43);
        case ':' => return Ok(44);
        case _ => return Throws;
      }
    }
  }

  ghost predicate Alphanumerics(s: string) {
    forall i :: 0 <= i < |s| ==> IsAlphanumeric(s[i])
  }

  /** `qrAlphaNum.write` */
  method WriteAlphanumeric(buffer: QrBitBuffer, s: string) returns (ok: bool)
    requires buffer.Valid()
    modifies buffer
    ensures buffer.Valid()
    ensures ok <==> Alphanumerics(s)
    ensures ok ==> buffer.Contents() == old(buffer.Contents()) + AlphaBits(s)
  {
    hide High, IsAlphanumeric, AlphaCode;
    var i := 0;
    while i + 1 < |s|
      invariant buffer.Valid() && 0 <= i <= |s|
      invariant Alphanumerics(s[..i])
      invariant Alphanumerics(s[i..]) ==> Alphanumerics(s)
      invariant Alphanumerics(s) ==>
                  buffer.Contents() + AlphaBits(s[i..]) == old(buffer.Contents()) + AlphaBits(s)
      decreases |s| - i
    {
      var first := GetCode(s[i]);
      if first.Throws? { return false; }
      var second := GetCode(s[i + 1]);
      if second.Throws? { return false; }
      assert s[i..][2..] == s[i + 2..];
      assert s[..i + 2] == s[..i] + [s[i], s[i + 1]];
      assert s[i..] == [s[i], s[i + 1]] + s[i + 2..];
      ghost var before := buffer.Contents();
      var pair := first.value * 45 + second.value;
      buffer.Put(pair, 11);
      if Alphanumerics(s) {
        assert before + AlphaBits(s[i..]) == before + High(pair, 11) + AlphaBits(s[i + 2..]);
      }
      i := i + 2;
    }
    if i < |s| {
      var last := GetCode(s[i]);
      if last.Throws? { return false; }
      assert s[i..] == [s[i]];
      buffer.Put(last.value, 6);
    }
    return true;
  }

  /** `qr8BitByte.write` */
  method WriteOctets(buffer: QrBitBuffer, bytes: seq<Octet>)
    requires buffer.Valid()
    modifies buffer
    ensures buffer.Valid()
    ensures buffer.Contents() == old(buffer.Contents()) + OctetBits(bytes)
  {
    hide High;
    for i := 0 to |bytes|
      invariant buffer.Valid()
      invariant buffer.Contents() + OctetBits(bytes[i..]) == old(buffer.Contents()) + OctetBits(bytes)
    {
      ghost var before := buffer.Contents();
      assert bytes[i..][1..] == bytes[i + 1..];
      assert before + OctetBits(bytes[i..]) == before + High(bytes[i], 8) + OctetBits(bytes[i + 1..]);
      buffer.Put(bytes[i], 8);
    }
  }

  method WriteBody(buffer: QrBitBuffer, s: Segment) returns (ok: bool)
    requires buffer.Valid()
    modifies buffer
    ensures buffer.Valid()
    ensures ok <==> Legal(s)
    ensures ok ==> buffer.Contents() == old(buffer.Contents()) + BodyBits(s)
  {
    match s
    case Numeric(digits) => ok := WriteNumeric(buffer, digits);
    case Alphanumeric(text) => ok := WriteAlphanumeric(buffer, text);
    case EightBit(bytes) => WriteOctets(buffer, bytes); ok := true;
  }

  ghost predicate AllLegal(segments: seq<Segment>) {
    forall i :: 0 <= i < |segments| ==> Legal(segments[i])
  }

  lemma {:induction false} StreamAppend(segments: seq<Segment>, s: Segment, version: nat)
    requires AllLegal(segments) && Legal(s)
    ensures StreamBits(segments + [s], version) == StreamBits(segments, version) + SegmentBits(s, version)
    decreases |segments|
  {
    hide SegmentBits, Legal;
    if |segments| == 0 {
      assert segments + [s] == [s];
      assert StreamBits([s], version) == SegmentBits(s, version) + StreamBits([], version) by {
        assert [s][1..] == [];
      }
    } else {
      StreamAppend(segments[1..], s, version);
      assert (segments + [s])[1..] == segments[1..] + [s];
    }
  }

  method WriteSegments(buffer: QrBitBuffer, segments: seq<Segment>, version: nat) returns (ok: bool)
    requires buffer.Valid() && buffer.Contents() == []
    modifies buffer
    ensures buffer.Valid()
    ensures ok <==> AllLegal(segments)
    ensures ok ==> buffer.Contents() == StreamBits(segments, version)
  {
    hide High, Legal, BodyBits, CountBits, Mode, Count;
    for i := 0 to |segments|
      invariant buffer.Valid()
      invariant AllLegal(segments[..i])
      invariant buffer.Contents() == StreamBits(segments[..i], version)
    {
      var s := segments[i];
      ghost var before := buffer.Contents();
      buffer.Put(Mode(s), 4);
      buffer.Put(Count(s), CountBits(Mode(s), version));
      ok := WriteBody(buffer, s);
      if !ok { return; }
      StreamAppend(segments[..i], s, version);
      assert segments[..i + 1] == segments[..i] + [s];
      assert buffer.Contents() == before + SegmentBits(s, version);
    }
    assert segments[..|segments|] == segments;
    return true;
  }

  /** Zero bits up to the next whole byte. */
  method Align(buffer: QrBitBuffer)
    requires buffer.Valid()
    modifies buffer
    ensures buffer.Valid()
    ensures buffer.Contents() == old(buffer.Contents()) + NoBits(Gap(old(buffer.length)))
  {
    hide NoBits, Gap;
    ghost var ended := buffer.Contents();
    NoBitsNone(ended);
    while buffer.length % 8 != 0
      invariant buffer.Valid() && |ended| <= buffer.length <= |ended| + Gap(|ended|)
      invariant buffer.Contents() == ended + NoBits(buffer.length - |ended|)
      decreases |ended| + Gap(|ended|) - buffer.length
    {
      GapLeast(|ended|, buffer.length);
      NoBitsNext(buffer.length - |ended|);
      buffer.PutBit(false);
    }
    GapReached(|ended|, buffer.length);
  }

  /** Alternating pad bytes up to the capacity. */
  method PutPads(buffer: QrBitBuffer, total: nat)
    requires buffer.Valid() && buffer.length % 8 == 0 && buffer.length <= 8 * total
    modifies buffer
    ensures buffer.Valid()
    ensures buffer.Contents() == old(buffer.Contents()) + PadBits(total - old(buffer.length) / 8, true)
  {
    hide High, PadBits;
    ghost var all := buffer.Contents() + PadBits(total - buffer.length / 8, true);
    while true
      invariant buffer.Valid() && buffer.length % 8 == 0 && buffer.length <= 8 * total
      invariant buffer.Contents() + PadBits(total - buffer.length / 8, true) == all
      decreases total - buffer.length / 8
    {
      if buffer.length >= total * 8 { break; }
      PutPad(buffer, total, true);
      if buffer.length >= total * 8 { PadNext(0, false); PadNext(0, true); break; }
      PutPad(buffer, total, false);
    }
    PadNext(0, true);
    assert buffer.Contents() + [] == buffer.Contents();
  }

  method PutPad(buffer: QrBitBuffer, total: nat, first: bool)
    requires buffer.Valid() && buffer.length % 8 == 0 && buffer.length < 8 * total
    modifies buffer
    ensures buffer.Valid() && buffer.length == old(buffer.length) + 8
    ensures buffer.Contents() + PadBits(total - buffer.length / 8, !first) ==
            old(buffer.Contents()) + PadBits(total - old(buffer.length) / 8, first)
  {
    hide High, PadBits;
    ghost var before, n := buffer.Contents(), total - buffer.length / 8;
    PadNext(n, first);
    buffer.Put(if first then PAD0 else PAD1, 8);
    assert before + (High(if first then PAD0 else PAD1, 8) + PadBits(n - 1, !first)) ==
           buffer.Contents() + PadBits(n - 1, !first);
  }

  /** The terminator and the padding. */
  method Pad(buffer: QrBitBuffer, total: nat)
    requires buffer.Valid() && buffer.length <= 8 * total
    modifies buffer
    ensures buffer.Valid()
    ensures buffer.Contents() == Padded(old(buffer.Contents()), total)
  {
    hide High, PadBits, NoBits, Gap;
    if buffer.length + 4 <= total * 8 {
      buffer.Put(0, 4);
    }
    GapWithin(buffer.length, total);
    Align(buffer);
    PutPads(buffer, total);
  }

  lemma NoBitsNone(s: seq<bool>)
    ensures s + NoBits(0) == s
  {
  }

  lemma NoBitsNext(n: nat)
    ensures NoBits(n + 1) == NoBits(n) + [false]
  {
  }

  lemma PadNext(n: nat, first: bool)
    ensures n == 0 ==> PadBits(n, first) == []
    ensures n > 0 ==> PadBits(n, first) == High(if first then PAD0 else PAD1, 8) + PadBits(n - 1, !first)
  {
  }

  lemma GapLeast(n: nat, m: nat)
    requires n <= m <= n + Gap(n) && m % 8 != 0
    ensures m < n + Gap(n)
  {
  }

  lemma GapReached(n: nat, m: nat)
    requires n <= m <= n + Gap(n) && m % 8 == 0
    ensures m == n + Gap(n)
  {
  }

  /** The stream of `createData`: it throws exactly on an illegal character or when the data do
      not fit into `total` bytes, and otherwise fills these bytes exactly. */
  method CreateStream(segments: seq<Segment>, version: nat, total: nat) returns (r: Outcome<QrBitBuffer>)
    ensures r.Throws? <==> !AllLegal(segments) || |StreamBits(segments, version)| > 8 * total
    ensures r.Ok? ==> fresh(r.value) && r.value.Valid()
    ensures r.Ok? ==> r.value.Contents() == Padded(StreamBits(segments, version), total)
  {
    hide Padded, StreamBits, Legal;
    var buffer := new QrBitBuffer();
    var ok := WriteSegments(buffer, segments, version);
    if !ok { return Throws; }
    if buffer.length > total * 8 { return Throws; }
    Pad(buffer, total);
    return Ok(buffer);
  }
}
