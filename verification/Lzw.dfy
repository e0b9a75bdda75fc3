/** `getLZWRaster`: the GIF image compressor, and a decoder written from Appendix F of the
    GIF89a specification against which it is proved. */
module Lzw {
  import opened JsBits
  import opened Outcomes
  import opened LsbBits

  /** A string of character codes. */
  type Text = seq<nat>

  /** The entries of the code table, in the order of their codes. */
  type Dictionary = seq<Text>

  const MAX_SIZE := 0xfff

  function ClearCode(k: nat): nat {
    Pow2(k)
  }

  function EndCode(k: nat): nat {
    Pow2(k) + 1
  }

  function Singles(n: nat): (d: Dictionary)
    ensures |d| == n && forall c: nat :: c < n ==> d[c] == [c]
  {
    if n == 0 then [] else Singles(n - 1) + [[n - 1]]
  }

  /** The table after a clear code: the pixel values, the clear code and the end code. */
  function InitialTable(k: nat): Dictionary {
    Singles(Pow2(k) + 2)
  }

  // --- The decoder ---

  /** The state of a decoder between two codes; no string has been read while previous is []. */
  datatype Decoder = Decoder(table: Dictionary, width: nat, previous: Text)

  function ResetDecoder(k: nat): Decoder {
    Decoder(InitialTable(k), k + 1, [])
  }

  /** The string a code stands for; the code about to be defined stands for the previous
      string followed by its own first character. */
  function Entry(d: Decoder, code: nat): Outcome<Text> {
    if code < |d.table| then Ok(d.table[code])
    else if code == |d.table| && d.previous != [] then Ok(d.previous + [d.previous[0]])
    else Throws
  }

  /** The decoder after a code for entry: one table entry more, of at most 4096, and one bit
      more per code when the codes of the present width are used up, up to twelve bits. */
  function Learn(d: Decoder, entry: Text): Decoder
    requires entry != []
  {
    if d.previous == [] then d.(previous := entry)
    else
      var table := if |d.table| < 4096 then d.table + [d.previous + [entry[0]]] else d.table;
      var width := if |table| == Pow2(d.width) && d.width < 12 then d.width + 1 else d.width;
      Decoder(table, width, entry)
  }

  /** What a decoder has after n pixels: the pixels, the bits it has not read, its state. */
  datatype Reading = Reading(pixels: seq<nat>, rest: seq<bool>, decoder: Decoder)

  /** Decodes until n pixels have been produced. */
  function Decode(bits: seq<bool>, k: nat, d: Decoder, out: seq<nat>, n: nat): Outcome<Reading>
    decreases |bits|
  {
    if |out| >= n then Ok(Reading(out, bits, d))
    else if d.width == 0 || |bits| < d.width then Throws
    else
      var code, rest := Number(bits[..d.width]), bits[d.width..];
      if code == ClearCode(k) then Decode(rest, k, ResetDecoder(k), out, n)
      else if code == EndCode(k) then Throws
      else
        var entry := Entry(d, code);
        if entry.Throws? || entry.value == [] then Throws
        else Decode(rest, k, Learn(d, entry.value), out + entry.value, n)
  }

  /** Reading an image of n pixels from its raster. */
  function DecodeRaster(bytes: seq<nat>, k: nat, n: nat): Outcome<Reading> {
    Decode(BytesBits(bytes), k, ResetDecoder(k), [], n)
  }

  /** Whether the decoder finds the end code where it looks for the next code. */
  predicate SeesEndCode(r: Reading, k: nat) {
    var w := r.decoder.width;
    |r.rest| >= w && Number(r.rest[..w]) == EndCode(k)
  }

  // --- The encoder, as a function on the pixels still to come ---

  /** The code table, the width of the next code and the string being matched. */
  datatype Encoder = Encoder(table: Dictionary, width: nat, s: Text)

  ghost function Code(table: Dictionary, s: Text): (i: nat)
    requires s in table
    ensures i < |table| && table[i] == s
  {
    var i: nat :| i < |table| && table[i] == s;
    i
  }

  lemma CodeUnique(table: Dictionary, i: nat)
    requires Distinct(table) && i < |table|
    ensures Code(table, table[i]) == i
  {
  }

  ghost predicate Distinct(table: Dictionary) {
    forall i, j :: 0 <= i < j < |table| ==> table[i] != table[j]
  }

  /** The encoder after emitting the code of its string because s + [c] is unknown. */
  function Miss(e: Encoder, c: nat): Encoder {
    if |e.table| < MAX_SIZE then
      Encoder(e.table + [e.s + [c]], if |e.table| == Pow2(e.width) then e.width + 1 else e.width, [c])
    else e.(s := [c])
  }

  ghost function Encode(e: Encoder, pixels: seq<nat>): seq<bool>
    requires e.s in e.table
    requires forall i :: 0 <= i < |pixels| ==> [pixels[i]] in e.table
    decreases |pixels|
  {
    if |pixels| == 0 then Low(Code(e.table, e.s), e.width)
    else
      var c, rest := pixels[0], pixels[1..];
      if e.s + [c] in e.table then Encode(e.(s := e.s + [c]), rest)
      else
        Low(Code(e.table, e.s), e.width) + Encode(Miss(e, c), rest)
  }

  /** The encoder when the pixels are used up. */
  ghost function Final(e: Encoder, pixels: seq<nat>): Encoder
    decreases |pixels|
  {
    if |pixels| == 0 then e
    else if e.s + [pixels[0]] in e.table then Final(e.(s := e.s + [pixels[0]]), pixels[1..])
    else Final(Miss(e, pixels[0]), pixels[1..])
  }

  // --- The round trip ---

  ghost predicate Pixels(s: seq<nat>, k: nat) {
    forall i :: 0 <= i < |s| ==> s[i] < Pow2(k)
  }

  /** What the encoder keeps: distinct entries, room for every code in the present width, and
      a match that is a string of pixels. */
  ghost predicate WellFormed(e: Encoder, k: nat) {
    && 2 <= k <= 11
    && Distinct(e.table)
    && Pow2(k) + 2 <= |e.table| <= MAX_SIZE
    && (forall c: nat :: c < Pow2(k) + 2 ==> e.table[c] == [c])
    && |e.table| <= Pow2(e.width) && e.width <= 12
    && e.s in e.table && e.s != [] && Pixels(e.s, k)
  }

  /** The decoder is one entry behind: it lacks the entry that starts with the last string and
      ends with the first character of the present one. */
  ghost predicate Synchronous(e: Encoder, d: Decoder)
    requires e.s != []
  {
    && d.width == e.width
    && if d.previous == [] then d.table == e.table && |e.table| < Pow2(e.width) && |e.table| < MAX_SIZE
       else
         var ahead := d.table + [d.previous + [e.s[0]]];
         && |d.table| <= 4096
         && |e.table| <= |ahead| && e.table == ahead[..|e.table|]
         && (|e.table| < MAX_SIZE ==> |ahead| == |e.table|)
  }

  lemma PowersOfTwo()
    ensures Pow2(11) == 2048 && Pow2(12) == 4096
  {
    assert Pow2(4) == 16;
    assert Pow2(8) == 256;
    assert Pow2(10) == 1024;
  }

  /** A code word of the encoder is never a control code, and always fits. */
  lemma CodeIsData(e: Encoder, k: nat)
    requires WellFormed(e, k)
    ensures var code := Code(e.table, e.s);
            code != ClearCode(k) && code != EndCode(k) && code < Pow2(e.width)
  {
    hide Pow2;
    assert e.table[Pow2(k)] == [Pow2(k)] && e.table[Pow2(k) + 1] == [Pow2(k) + 1];
    assert e.s[0] < Pow2(k);
  }

  /** The decoder understands the code of the present string, known to it or not. */
  lemma EntryOfCode(e: Encoder, d: Decoder, k: nat)
    requires WellFormed(e, k) && Synchronous(e, d)
    ensures Entry(d, Code(e.table, e.s)) == Ok(e.s)
  {
    hide Pow2;
    var code := Code(e.table, e.s);
    if d.previous != [] {
      var ahead := d.table + [d.previous + [e.s[0]]];
      assert e.s == ahead[code];
      if code == |d.table| {
        assert e.s[0] == d.previous[0];
      }
    }
  }

  /** Reading one code. */
  lemma DecodeCode(e: Encoder, d: Decoder, k: nat, bits: seq<bool>, out: seq<nat>, n: nat)
    requires WellFormed(e, k) && Synchronous(e, d) && |out| < n
    ensures Decode(Low(Code(e.table, e.s), e.width) + bits, k, d, out, n) ==
            Decode(bits, k, Learn(d, e.s), out + e.s, n)
  {
    hide Pow2, Low, Learn, Entry, Number;
    var code := Code(e.table, e.s);
    CodeIsData(e, k);
    EntryOfCode(e, d, k);
    NumberOfLow(code, e.width);
    var all := Low(code, e.width) + bits;
    assert all[..d.width] == Low(code, e.width) && all[d.width..] == bits;
    assert e.width > 0 by { WidthPositive(e, k); }
  }

  lemma WidthPositive(e: Encoder, k: nat)
    requires WellFormed(e, k)
    ensures e.width > 0
  {
  }

  /** Encoder and decoder stay synchronous when a code is emitted. */
  lemma StaySynchronous(e: Encoder, d: Decoder, k: nat, c: nat)
    requires WellFormed(e, k) && Synchronous(e, d)
    requires c < Pow2(k) && e.s + [c] !in e.table
    ensures WellFormed(Miss(e, c), k) && Synchronous(Miss(e, c), Learn(d, e.s))
  {
    hide Code, Pow2;
    PowersOfTwo();
    assert e.table[c] == [c];
    MissWellFormed(e, k, c);
    var d', e' := Learn(d, e.s), Miss(e, c);
    var ahead := d'.table + [e.s + [c]];
    if |e.table| < MAX_SIZE {
      assert d'.table == e.table;
      assert e'.table == ahead;
    } else {
      assert e.table == d'.table[..|e.table|];
      assert ahead[..|e.table|] == d'.table[..|e.table|];
      FullWidth(e, k);
    }
  }

  lemma FullWidth(e: Encoder, k: nat)
    requires WellFormed(e, k) && |e.table| == MAX_SIZE
    ensures e.width == 12
  {
    PowersOfTwo();
    if e.width < 12 { Pow2Monotone(e.width, 11); }
  }

  lemma Pow2Next(n: nat)
    ensures Pow2(n + 1) == 2 * Pow2(n)
  {
  }

  lemma MissWellFormed(e: Encoder, k: nat, c: nat)
    requires WellFormed(e, k)
    requires c < Pow2(k) && e.s + [c] !in e.table
    ensures WellFormed(Miss(e, c), k)
  {
    hide Code, Pow2;
    PowersOfTwo();
    assert e.table[c] == [c];
    if |e.table| < MAX_SIZE {
      assert Miss(e, c).table[c] == [c];
      Pow2Next(e.width);
    }
  }

  /** Whatever follows the codes, the decoder reproduces the pixels. */
  lemma {:induction false} DecodeEncode(e: Encoder, d: Decoder, k: nat, pixels: seq<nat>,
                                        tail: seq<bool>, out: seq<nat>, n: nat)
    returns (last: Decoder)
    requires WellFormed(e, k) && Synchronous(e, d) && Pixels(pixels, k)
    requires n == |out| + |e.s| + |pixels|
    requires forall i :: 0 <= i < |pixels| ==> [pixels[i]] in e.table
    ensures WellFormed(Final(e, pixels), k) && Synchronous(Final(e, pixels), last)
    ensures Decode(Encode(e, pixels) + tail, k, d, out, n) ==
            Ok(Reading(out + e.s + pixels, tail, Learn(last, Final(e, pixels).s)))
    decreases |pixels|
  {
    hide Pow2, Low, Learn, Entry, Number, Miss, WellFormed, Synchronous, Decode, Code;
    SomePixels(e, k);
    if |pixels| == 0 {
      DecodeCode(e, d, k, tail, out, n);
      DecodeDone(tail, k, Learn(d, e.s), out + e.s, n);
      last := d;
      assert out + e.s + pixels == out + e.s;
    } else {
      var c, rest := pixels[0], pixels[1..];
      if e.s + [c] in e.table {
        ExtendMatch(e, d, k, c);
        last := DecodeEncode(e.(s := e.s + [c]), d, k, rest, tail, out, n);
        assert out + (e.s + [c]) + rest == out + e.s + pixels;
      } else {
        StaySynchronous(e, d, k, c);
        assert [pixels[0]] in e.table;
        forall i | 0 <= i < |rest| ensures [rest[i]] in e.table { assert rest[i] == pixels[i + 1]; }
        MissKeeps(e, c, rest);
        var bits := Encode(Miss(e, c), rest);
        assert Low(Code(e.table, e.s), e.width) + bits + tail == Low(Code(e.table, e.s), e.width) + (bits + tail);
        DecodeCode(e, d, k, bits + tail, out, n);
        last := DecodeEncode(Miss(e, c), Learn(d, e.s), k, rest, tail, out + e.s, n);
        assert out + e.s + Miss(e, c).s + rest == out + e.s + pixels;
      }
    }
  }

  lemma SomePixels(e: Encoder, k: nat)
    requires WellFormed(e, k)
    ensures |e.s| > 0 && e.s in e.table
  {
  }

  lemma MissKeeps(e: Encoder, c: nat, rest: seq<nat>)
    requires [c] in e.table && forall i :: 0 <= i < |rest| ==> [rest[i]] in e.table
    ensures Miss(e, c).s == [c]
    ensures [c] in Miss(e, c).table && forall i :: 0 <= i < |rest| ==> [rest[i]] in Miss(e, c).table
  {
  }

  lemma DecodeDone(bits: seq<bool>, k: nat, d: Decoder, out: seq<nat>, n: nat)
    requires |out| >= n
    ensures Decode(bits, k, d, out, n) == Ok(Reading(out, bits, d))
  {
  }

  lemma ExtendMatch(e: Encoder, d: Decoder, k: nat, c: nat)
    requires WellFormed(e, k) && Synchronous(e, d)
    requires c < Pow2(k) && e.s + [c] in e.table
    ensures WellFormed(e.(s := e.s + [c]), k) && Synchronous(e.(s := e.s + [c]), d)
  {
    hide Pow2;
  }

  /** The end code is written without the width check: the decoder looks for it one bit wider
      exactly when the table has just used up the codes of the present width. */
  lemma EndCodeWidth(e: Encoder, d: Decoder, k: nat)
    requires WellFormed(e, k) && Synchronous(e, d)
    ensures Learn(d, e.s).width == e.width + (if |e.table| == Pow2(e.width) then 1 else 0)
  {
    hide Pow2;
    PowersOfTwo();
    if |e.table| == MAX_SIZE { FullWidth(e, k); }
  }

  lemma {:induction false} NumberPadded(s: seq<bool>)
    ensures Number(s + [false]) == Number(s)
  {
    if |s| == 0 {
    } else {
      NumberPadded(s[1..]);
      assert (s + [false])[1..] == s[1..] + [false];
    }
  }

  /** A decoder that wants another code after the last pixel finds the end code unless it
      looks one bit further and no padding bit is there to be read. */
  lemma EndCodeSeen(e: Encoder, d: Decoder, k: nat, pixels: seq<nat>, padding: nat)
    requires WellFormed(e, k) && Synchronous(e, d)
    ensures var r := Reading(pixels, Low(EndCode(k), e.width) + NoBits(padding), Learn(d, e.s));
            SeesEndCode(r, k) <==> (|e.table| != Pow2(e.width) || padding > 0)
  {
    hide Low, Number, Learn, NoBits;
    var rest := Low(EndCode(k), e.width) + NoBits(padding);
    NumberOfLow(EndCode(k), e.width);
    EndCodeWidth(e, d, k);
    if |e.table| != Pow2(e.width) {
      assert rest[..e.width] == Low(EndCode(k), e.width);
    } else if padding > 0 {
      FirstPadding(padding);
      assert rest[..e.width + 1] == Low(EndCode(k), e.width) + [false];
      NumberPadded(Low(EndCode(k), e.width));
    }
  }

  lemma FirstPadding(n: nat)
    requires n > 0
    ensures |NoBits(n)| == n && !NoBits(n)[0]
  {
  }
}
