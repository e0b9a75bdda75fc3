/** `getLZWRaster` and its table, as the loop over the pixels that the source runs. */
module GifRaster {
  import opened JsBits
  import opened Outcomes
  import opened LsbBits
  import opened BitOutputStream
  import opened Lzw
  import opened GifEndCode
  import opened LzwNames
  import opened PlainObjects

  /** `lzwTable` */
  class LzwTable {
    var codes: map<Text, nat>
    var size: nat
    ghost var entries: Dictionary

    ghost predicate Valid()
      reads this
    {
      && |entries| == size
      && Distinct(entries)
      && (forall key :: key in codes ==> codes[key] < size && entries[codes[key]] == key)
      && (forall key :: key in entries ==> key in codes)
      && (forall key :: key in entries ==> !IsName(key))
    }

    constructor ()
      ensures Valid() && entries == []
    {
      codes := map[];
      size := 0;
      entries := [];
    }

    /** The inherited names count as present. */
    method Contains(key: Text) returns (b: bool)
      requires Valid()
      ensures b <==> Has(entries, key)
    {
      b := key in codes || IsName(key);
    }

    /** The number that the bit operators make of the property: 0, where it is inherited. */
    method IndexOf(key: Text) returns (i: nat)
      requires Valid() && Has(entries, key)
      ensures i == Index(entries, key)
    {
      if key in codes {
        i := codes[key];
        CodeUnique(entries, i);
      } else {
        i := 0;
      }
    }

    /** Throws "dup key" on a key the table seems to have. */
    method Add(key: Text) returns (ok: bool)
      requires Valid()
      modifies this
      ensures Valid()
      ensures ok <==> !Has(old(entries), key)
      ensures entries == if ok then old(entries) + [key] else old(entries)
    {
      hide IsName;
      if key in codes || IsName(key) { return false; }
      codes := codes[key := size];
      size := size + 1;
      entries := entries + [key];
      return true;
    }
  }

  /** The pixels that are compressed; an image without any is compressed as one pixel 0,
      which is what an undefined character code denotes. */
  function Painted(data: seq<nat>): (p: seq<nat>)
    ensures |p| > 0
  {
    if |data| == 0 then [0] else data
  }

  ghost function Start(k: nat, first: nat): Encoder {
    Encoder(InitialTable(k), k + 1, [first])
  }

  lemma StartWellFormed(k: nat, first: nat)
    requires 2 <= k <= 11 && first < Pow2(k)
    ensures WellFormed(Start(k, first), k)
    ensures Synchronous(Start(k, first), ResetDecoder(k))
  {
    hide Pow2, Singles;
    PowersOfTwo();
    Pow2Monotone(k, 11);
    FourOrMore(k);
    Pow2Next(k);
    SinglesDistinct(Pow2(k) + 2);
    assert InitialTable(k)[first] == [first];
  }

  lemma FourOrMore(k: nat)
    requires k >= 2
    ensures Pow2(k) >= 4
  {
    Pow2Monotone(2, k);
  }

  lemma SinglesDistinct(n: nat)
    ensures Distinct(Singles(n))
  {
    hide Singles;
    forall i, j | 0 <= i < j < n ensures Singles(n)[i] != Singles(n)[j] {
      assert Singles(n)[i][0] == i && Singles(n)[j][0] == j;
    }
  }

  /** The table every raster starts from; none of its keys is a duplicate. */
  method NewTable(k: nat) returns (table: LzwTable)
    ensures fresh(table) && table.Valid() && table.entries == InitialTable(k)
  {
    hide Pow2, Shl, Singles, InitialTable, Has;
    table := new LzwTable();
    var clearCode := Shl(1, k);
    ShlOne(k);
    SinglesAre(k);
    for i := 0 to clearCode
      invariant fresh(table) && table.Valid() && table.entries == Singles(i)
    {
      NotYetIn(i);
      var _ := table.Add([i]);
    }
    NotYetIn(clearCode);
    NotYetIn(clearCode + 1);
    var _ := table.Add([clearCode]);
    var _ := table.Add([clearCode + 1]);
  }

  lemma SinglesAre(k: nat)
    ensures Singles(0) == [] && InitialTable(k) == Singles(Pow2(k) + 2)
  {
  }

  lemma NotYetIn(n: nat)
    ensures !Has(Singles(n), [n]) && Singles(n + 1) == Singles(n) + [[n]]
  {
    hide IsName;
    if IsName([n]) { NameIs([n]); }
  }

  lemma {:induction false} ShlOne(k: nat)
    ensures Shl(1, k) == Pow2(k)
  {
    if k == 0 {
    } else {
      ShlOne(k - 1);
    }
  }

  /** Emits the code of s. */
  method WriteCode(table: LzwTable, bitOut: BitOutputStream, s: Text, bitLength: nat) returns (ok: bool)
    requires table.Valid() && bitOut.Valid() && Has(table.entries, s)
    modifies bitOut
    ensures bitOut.Valid()
    ensures ok <==> Index(table.entries, s) < Pow2(bitLength)
    ensures ok ==> bitOut.Written() == old(bitOut.Written()) + Low(Index(table.entries, s), bitLength)
  {
    var code := table.IndexOf(s);
    ok := bitOut.Write(code, bitLength);
  }

  /** The codes of the pixels, from the clear code up to the end code. */
  ghost function DataBits(pixels: seq<nat>, k: nat): seq<bool>
    requires |pixels| > 0 && 2 <= k <= 11 && Pixels(pixels, k)
  {
    StartWellFormed(k, pixels[0]);
    Known(Start(k, pixels[0]), k, pixels[1..]);
    Low(ClearCode(k), k + 1) + Encode(Start(k, pixels[0]), pixels[1..])
  }

  ghost function LastEncoder(pixels: seq<nat>, k: nat): Encoder
    requires |pixels| > 0
  {
    Final(Start(k, pixels[0]), pixels[1..])
  }

  /** What the loop writes for the pixels, from the clear code up to the end code. */
  ghost function SentBits(pixels: seq<nat>, k: nat): seq<bool>
    requires |pixels| > 0
  {
    Low(ClearCode(k), k + 1) + Emitted(Start(k, pixels[0]), pixels[1..])
  }

  /** The pixels lead the table to an inherited name. */
  ghost predicate Misleads(pixels: seq<nat>, k: nat)
    requires |pixels| > 0
  {
    Misled(Start(k, pixels[0]), pixels[1..])
  }

  /** The table of a compressor that may have been misled. */
  ghost predicate Sound(e: Encoder, k: nat) {
    WellFormed(e.(s := [0]), k) && Has(e.table, e.s)
  }

  lemma SoundMiss(e: Encoder, k: nat, c: nat)
    requires Sound(e, k) && c < Pow2(k) && !Has(e.table, e.s + [c])
    ensures Sound(Miss(e, c), k)
  {
    hide Pow2, IsName;
    PowersOfTwo();
    assert e.table[c] == [c];
    if |e.table| < MAX_SIZE {
      assert Miss(e, c).table[0] == [0] && Miss(e, c).table[c] == [c];
      Pow2Next(e.width);
    }
  }

  lemma SoundFits(e: Encoder, k: nat)
    requires Sound(e, k)
    ensures Index(e.table, e.s) < Pow2(e.width) && EndCode(k) < Pow2(e.width)
  {
    hide Pow2, IsName;
  }

  /** The loop invariant: what is written, followed by what the pixels still to come lead to, is the
      whole stream. */
  ghost predicate Progress(pixels: seq<nat>, k: nat, written: seq<bool>, e: Encoder, index: nat) {
    && 0 < index <= |pixels| && 2 <= k <= 11 && Pixels(pixels, k)
    && Sound(e, k)
    && written + Emitted(e, pixels[index..]) == SentBits(pixels, k)
    && Stopped(e, pixels[index..]) == Stopped(Start(k, pixels[0]), pixels[1..])
  }

  lemma ProgressStart(pixels: seq<nat>, k: nat)
    requires |pixels| > 0 && 2 <= k <= 11 && Pixels(pixels, k)
    ensures Progress(pixels, k, Low(ClearCode(k), k + 1), Start(k, pixels[0]), 1)
  {
    hide Pow2, Low, Emitted, Stopped, InitialTable;
    StartWellFormed(k, pixels[0]);
    StartWellFormed(k, 0);
  }

  lemma ProgressMatch(pixels: seq<nat>, k: nat, written: seq<bool>, e: Encoder, index: nat)
    requires Progress(pixels, k, written, e, index) && index < |pixels|
    requires Has(e.table, e.s + [pixels[index]])
    ensures Progress(pixels, k, written, e.(s := e.s + [pixels[index]]), index + 1)
  {
    hide WellFormed, SentBits, Has, Miss;
    assert pixels[index..][0] == pixels[index] && pixels[index..][1..] == pixels[index + 1..];
  }

  lemma ProgressMiss(pixels: seq<nat>, k: nat, written: seq<bool>, e: Encoder, index: nat)
    requires Progress(pixels, k, written, e, index) && index < |pixels|
    requires !Has(e.table, e.s + [pixels[index]])
    ensures Progress(pixels, k, written + Low(Index(e.table, e.s), e.width), Miss(e, pixels[index]), index + 1)
  {
    hide Sound, SentBits, Has, Miss, Low, Index;
    assert pixels[index..][0] == pixels[index] && pixels[index..][1..] == pixels[index + 1..];
    SoundMiss(e, k, pixels[index]);
    var code, bits := Low(Index(e.table, e.s), e.width), Emitted(Miss(e, pixels[index]), pixels[index + 1..]);
    assert written + (code + bits) == written + code + bits;
  }

  lemma ProgressEnd(pixels: seq<nat>, k: nat, written: seq<bool>, e: Encoder)
    requires Progress(pixels, k, written, e, |pixels|)
    ensures e == Stopped(Start(k, pixels[0]), pixels[1..])
    ensures SentBits(pixels, k) == written + Low(Index(e.table, e.s), e.width)
  {
    hide Sound, SentBits, Low, Index;
  }

  /** A byte is filled exactly by the end code, and the decoder looks one bit further, exactly at the
      critical size of the table. */
  lemma PaddingAtCritical(pixels: seq<nat>, k: nat, bytes: nat, padding: nat)
    requires |pixels| > 0 && 2 <= k <= 11 && Pixels(pixels, k) && padding < 8
    requires 8 * bytes == |DataBits(pixels, k)| + LastEncoder(pixels, k).width + padding
    ensures var e := LastEncoder(pixels, k);
            |e.table| == Pow2(e.width) && padding == 0 <==> |e.table| == CriticalSize(k)
  {
    hide WellFormed, Encode, Low, Final, InitialTable, BitsAt, WidthAt, Pow2, CriticalSize;
    var first, e := Start(k, pixels[0]), LastEncoder(pixels, k);
    StartOnSchedule(k, pixels[0]);
    Known(first, k, pixels[1..]);
    EncodedBits(first, k, pixels[1..]);
    SizeAtLeast(e, k);
    Critical(k, |e.table|);
    LowLength(ClearCode(k), k + 1);
    if |e.table| < MAX_SIZE {
      assert |DataBits(pixels, k)| == BitsAt(k, |e.table|) + WidthAt(k, |e.table|);
    } else {
      FullTable(k, e);
    }
  }

  lemma StartOnSchedule(k: nat, first: nat)
    requires 2 <= k <= 11 && first < Pow2(k)
    ensures OnSchedule(Start(k, first), k) && |Start(k, first).table| == FirstSize(k) &&
            BitsAt(k, FirstSize(k)) == k + 1
    ensures Short(Start(k, first), k)
  {
    StartWellFormed(k, first);
  }

  lemma FullTable(k: nat, e: Encoder)
    requires WellFormed(e, k) && |e.table| >= MAX_SIZE
    ensures |e.table| != Pow2(e.width) && |e.table| != CriticalSize(k)
  {
    hide Pow2;
    PowersOfTwo();
    if e.width <= 11 { Pow2Monotone(e.width, 11); }
  }

  /** An image of more than 66 pixels never ends at the critical size of the smallest alphabet. */
  lemma LargeImage(pixels: seq<nat>)
    requires |pixels| > 66 && Pixels(pixels, 2)
    ensures |LastEncoder(pixels, 2).table| != CriticalSize(2)
  {
    hide Final, InitialTable, Pow2, WellFormed;
    StartOnSchedule(2, pixels[0]);
    PixelsAt(Start(2, pixels[0]), 2, pixels[1..]);
    SixtySix();
  }

  lemma SixtySix()
    ensures FirstSize(2) == 6 && Triangle(10) == 55 && Triangle(0) == 0
  {
    assert Pow2(2) == 4;
    assert Triangle(3) == 6;
    assert Triangle(6) == 21;
    assert Triangle(9) == 45;
  }

  /** All images of one colour and of 56 to 66 pixels do. */
  lemma SmallImage(p: nat, n: nat)
    requires p < 4 && 56 <= n <= 66
    ensures |LastEncoder(Same(p, n), 2).table| == CriticalSize(2)
  {
    hide Final, InitialTable, SameTable, Triangle;
    SixtySix();
    SameStart(p, n);
    var m, j := SamePixels(Start(2, p), 2, p, 0, 1, n - 1);
    if m < 10 { TriangleMonotone(m + 1, 10); }
    if m > 10 { TriangleMonotone(11, m); }
    TriangleNext(m);
    TriangleNext(10);
  }

  lemma SameStart(p: nat, n: nat)
    requires n > 0
    ensures |Same(p, n)| == n && Same(p, n)[0] == p && Same(p, n)[1..] == Same(p, n - 1)
    ensures Start(2, p).table == SameTable(2, p, 0) && Start(2, p).s == Same(p, 1)
  {
  }

  /** What a decoder makes of the finished raster. */
  lemma RasterReads(bytes: seq<nat>, pixels: seq<nat>, k: nat, padding: nat)
    requires |pixels| > 0 && 2 <= k <= 11 && Pixels(pixels, k) && padding < 8
    requires BytesBits(bytes) ==
             DataBits(pixels, k) + Low(EndCode(k), LastEncoder(pixels, k).width) + NoBits(padding)
    ensures var r := DecodeRaster(bytes, k, |pixels|);
            && r.Ok? && r.value.pixels == pixels
            && (SeesEndCode(r.value, k) <==> |LastEncoder(pixels, k).table| != CriticalSize(k))
  {
    hide WellFormed, Encode, Low, NoBits, Synchronous, Final, SeesEndCode, Learn, Decode, InitialTable, CriticalSize;
    var e := Start(k, pixels[0]);
    StartWellFormed(k, pixels[0]);
    Known(e, k, pixels[1..]);
    var tail := Low(EndCode(k), LastEncoder(pixels, k).width) + NoBits(padding);
    var codes := Encode(e, pixels[1..]) + tail;
    assert BytesBits(bytes) == Low(ClearCode(k), k + 1) + codes;
    ReadClearCode(k, codes, |pixels|);
    var last := DecodeEncode(e, ResetDecoder(k), k, pixels[1..], tail, [], |pixels|);
    assert [] + e.s + pixels[1..] == pixels;
    EndCodeSeen(LastEncoder(pixels, k), last, k, pixels, padding);
    LowLength(EndCode(k), LastEncoder(pixels, k).width);
    NoBitsLength(padding);
    BytesLength(bytes);
    PaddingAtCritical(pixels, k, |bytes|, padding);
  }

  /** The same of a raster that was written without being misled. */
  lemma SentReads(bytes: seq<nat>, pixels: seq<nat>, k: nat, padding: nat)
    requires |pixels| > 0 && 2 <= k <= 11 && Pixels(pixels, k) && padding < 8 && !Misleads(pixels, k)
    requires var last := Stopped(Start(k, pixels[0]), pixels[1..]);
             BytesBits(bytes) == SentBits(pixels, k) + Low(EndCode(k), last.width) + NoBits(padding)
    ensures var r := DecodeRaster(bytes, k, |pixels|);
            && r.Ok? && r.value.pixels == pixels
            && (SeesEndCode(r.value, k) <==> |LastEncoder(pixels, k).table| != CriticalSize(k))
  {
    hide Low, NoBits, WellFormed, Synchronous, Misled, Emitted, Encode, Stopped, Final, SeesEndCode, DecodeRaster;
    var e := Start(k, pixels[0]);
    StartWellFormed(k, pixels[0]);
    Known(e, k, pixels[1..]);
    NotMisled(e, pixels[1..]);
    RasterReads(bytes, pixels, k, padding);
  }

  /** A raster that was written after being misled does not give the pixels back. */
  lemma MisledReads(bytes: seq<nat>, pixels: seq<nat>, k: nat, tail: seq<bool>)
    requires |pixels| > 0 && 2 <= k <= 11 && Pixels(pixels, k) && Misleads(pixels, k)
    requires BytesBits(bytes) == SentBits(pixels, k) + tail
    ensures var r := DecodeRaster(bytes, k, |pixels|); !(r.Ok? && r.value.pixels == pixels)
  {
    hide Low, WellFormed, Synchronous, Misled, Emitted, Decode, InitialTable, Unnamed;
    var e := Start(k, pixels[0]);
    StartWellFormed(k, pixels[0]);
    StartUnnamed(k);
    var codes := Emitted(e, pixels[1..]) + tail;
    assert BytesBits(bytes) == Low(ClearCode(k), k + 1) + codes;
    ReadClearCode(k, codes, |pixels|);
    MisledDecodes(e, ResetDecoder(k), k, pixels[1..], tail, [], |pixels|);
    assert [] + e.s + pixels[1..] == pixels;
  }

  lemma StartUnnamed(k: nat)
    ensures Unnamed(InitialTable(k))
  {
    hide IsName;
    var table := InitialTable(k);
    forall i, m | 0 <= i < |table| && 0 <= m <= |table[i]| ensures !IsName(table[i][..m]) {
      if IsName(table[i][..m]) { NameIs(table[i][..m]); }
    }
  }

  lemma NoBitsLength(n: nat)
    ensures |NoBits(n)| == n
  {
  }

  lemma BytesLength(bytes: seq<nat>)
    ensures |BytesBits(bytes)| == 8 * |bytes|
  {
  }

  lemma ReadClearCode(k: nat, bits: seq<bool>, n: nat)
    requires n > 0
    ensures Decode(Low(ClearCode(k), k + 1) + bits, k, ResetDecoder(k), [], n) ==
            Decode(bits, k, ResetDecoder(k), [], n)
  {
    hide Low, Number, InitialTable;
    NumberOfLow(ClearCode(k), k + 1);
    var all := Low(ClearCode(k), k + 1) + bits;
    assert all[..k + 1] == Low(ClearCode(k), k + 1) && all[k + 1..] == bits;
  }

  /** The branch of an unknown string: its known part is written and the table grows. */
  method EmitMiss(table: LzwTable, bitOut: BitOutputStream, s: Text, c: nat, bitLength: nat)
      returns (ok: bool, newLength: nat)
    requires table.Valid() && bitOut.Valid() && Has(table.entries, s)
    modifies table, bitOut
    ensures table.Valid() && bitOut.Valid()
    ensures ok <==> && Index(old(table.entries), s) < Pow2(bitLength)
                    && (|old(table.entries)| < MAX_SIZE ==> !Has(old(table.entries), s + [c]))
    ensures ok ==> bitOut.Written() == old(bitOut.Written()) + Low(Index(old(table.entries), s), bitLength)
    ensures ok ==> Encoder(table.entries, newLength, [c]) == Miss(old(Encoder(table.entries, bitLength, s)), c)
  {
    hide Low, Pow2, Index, Shl, Has;
    newLength := bitLength;
    ok := WriteCode(table, bitOut, s, bitLength);
    if ok && table.size < MAX_SIZE {
      ShlOne(bitLength);
      if table.size == Shl(1, bitLength) {
        newLength := bitLength + 1;
      }
      ok := table.Add(s + [c]);
    }
  }

  /** The compressed image.  It never throws.  A decoder reads the pixels back from it if and only if
      they do not mislead the table, as with 64 pixel values or less they cannot.  And then a decoder
      that goes on reading finds the end code unless the table ended at the critical size, which for
      the alphabet of two bits it can do within the first 66 pixels only. */
  method GetLzwRaster(data: seq<nat>, k: nat) returns (r: Outcome<seq<nat>>)
    requires 2 <= k <= 11 && Pixels(data, k)
    ensures r.Ok?
    ensures var pixels := Painted(data);
            var read := DecodeRaster(r.value, k, |pixels|);
            && (read.Ok? && read.value.pixels == pixels <==> !Misleads(pixels, k))
            && (k <= 6 ==> !Misleads(pixels, k))
            && (!Misleads(pixels, k) ==>
                  (SeesEndCode(read.value, k) <==> |LastEncoder(pixels, k).table| != CriticalSize(k)))
            && (k == 2 && |data| > 66 ==> SeesEndCode(read.value, k))
  {
    hide Sound, Emitted, Stopped, Misled, Low, NoBits, Final, SeesEndCode, Decode, InitialTable, Progress, Pow2,
         Index, Has, Shl, SentBits, BytesBits, Miss, LastEncoder, IsName;
    ghost var pixels := Painted(data);
    assert Pixels(pixels, k);
    var clearCode := Shl(1, k);
    ShlOne(k);
    var endCode := Shl(1, k) + 1;
    var bitLength: nat := k + 1;
    var table := NewTable(k);
    var bitOut := new BitOutputStream();
    Pow2Next(k);
    var ok := bitOut.Write(clearCode, bitLength);
    if !ok { return Throws; }
    assert bitOut.Written() == Low(ClearCode(k), k + 1);
    var s := [if |data| > 0 then data[0] else 0];
    var dataIndex := 1;
    ProgressStart(pixels, k);
    while dataIndex < |data|
      invariant fresh(table) && fresh(bitOut) && table.Valid() && bitOut.Valid()
      invariant dataIndex <= |pixels|
      invariant Progress(pixels, k, bitOut.Written(), Encoder(table.entries, bitLength, s), dataIndex)
    {
      var c := data[dataIndex];
      ghost var e := Encoder(table.entries, bitLength, s);
      ghost var written := bitOut.Written();
      ProgressFits(pixels, k, written, e, dataIndex);
      var known := table.Contains(s + [c]);
      if known {
        ProgressMatch(pixels, k, written, e, dataIndex);
        s := s + [c];
      } else {
        ProgressMiss(pixels, k, written, e, dataIndex);
        ok, bitLength := EmitMiss(table, bitOut, s, c, bitLength);
        if !ok { return Throws; }
        s := [c];
      }
      dataIndex := dataIndex + 1;
    }
    ghost var e := Encoder(table.entries, bitLength, s);
    ghost var written := bitOut.Written();
    ProgressEnd(pixels, k, written, e);
    ProgressFits(pixels, k, written, e, |pixels|);
    ok := WriteCode(table, bitOut, s, bitLength);
    if !ok { return Throws; }
    ok := bitOut.Write(endCode, bitLength);
    if !ok { return Throws; }
    bitOut.Flush();
    Finished(bitOut.out, pixels, k, (8 - bitOut.bitLength) % 8);
    if k == 2 && |data| > 66 { LargeImage(pixels); }
    r := Ok(bitOut.out);
  }

  lemma ProgressFits(pixels: seq<nat>, k: nat, written: seq<bool>, e: Encoder, index: nat)
    requires Progress(pixels, k, written, e, index)
    ensures Has(e.table, e.s) && Index(e.table, e.s) < Pow2(e.width) && EndCode(k) < Pow2(e.width)
  {
    hide Index, Pow2, WellFormed, Has;
    SoundFits(e, k);
  }

  /** What the finished raster is to a decoder. */
  lemma Finished(bytes: seq<nat>, pixels: seq<nat>, k: nat, padding: nat)
    requires |pixels| > 0 && 2 <= k <= 11 && Pixels(pixels, k) && padding < 8
    requires var last := Stopped(Start(k, pixels[0]), pixels[1..]);
             BytesBits(bytes) == SentBits(pixels, k) + Low(EndCode(k), last.width) + NoBits(padding)
    ensures var r := DecodeRaster(bytes, k, |pixels|);
            && (r.Ok? && r.value.pixels == pixels <==> !Misleads(pixels, k))
            && (!Misleads(pixels, k) ==>
                  (SeesEndCode(r.value, k) <==> |LastEncoder(pixels, k).table| != CriticalSize(k)))
    ensures k <= 6 ==> !Misleads(pixels, k)
  {
    hide *;
    if Misleads(pixels, k) {
      var last := Stopped(Start(k, pixels[0]), pixels[1..]);
      JoinTail(SentBits(pixels, k), Low(EndCode(k), last.width), NoBits(padding));
      MisledReads(bytes, pixels, k, Low(EndCode(k), last.width) + NoBits(padding));
      if k <= 6 { SmallIsSafe(pixels, k); }
    } else {
      SentReads(bytes, pixels, k, padding);
    }
  }

  lemma JoinTail(a: seq<bool>, b: seq<bool>, c: seq<bool>)
    ensures a + b + c == a + (b + c)
  {
  }

  lemma SmallIsSafe(pixels: seq<nat>, k: nat)
    requires |pixels| > 0 && k <= 6 && Pixels(pixels, k)
    ensures !Misleads(pixels, k)
  {
    hide Misled, Pow2, InitialTable;
    SmallAlphabet(Start(k, pixels[0]), k, pixels[1..]);
  }

  /** Pixels that nowhere spell an inherited name do not mislead. */
  lemma Unspelled(pixels: seq<nat>, k: nat)
    requires |pixels| > 0
    requires forall i, j :: 0 <= i <= j <= |pixels| ==> !IsName(pixels[i..j])
    ensures !Misleads(pixels, k)
  {
    hide Misled, IsName, InitialTable;
    var e := Start(k, pixels[0]);
    assert [] + e.s + pixels[1..] == pixels;
    if Misleads(pixels, k) { var i, j := MisledSpells(e, pixels[1..], []); }
  }

  /** The prefixes of a name one after the other, and the name. */
  function NameImage(t: Text): (pixels: seq<nat>)
    requires |t| >= 2
    ensures |pixels| > 0
  {
    [t[0]] + Blocks(t, 2)
  }

  /** That image, of seven bits a pixel or more, misleads for every inherited name. */
  lemma EveryNameMisleads(t: Text, k: nat)
    requires IsName(t) && 7 <= k <= 11
    ensures |t| >= 2 && Pixels(NameImage(t), k) && Misleads(NameImage(t), k)
  {
    hide *;
    NameIs(t);
    NamePixels(t, k);
    FirstLearned(k, t);
    BlocksMislead(Start(k, t[0]), k, t, 2);
    ImageMisleads(t, k);
  }

  lemma ImageMisleads(t: Text, k: nat)
    requires |t| >= 2 && Misled(Start(k, t[0]), Blocks(t, 2))
    ensures Misleads(NameImage(t), k)
  {
    hide Misled, Blocks;
    assert NameImage(t)[1..] == Blocks(t, 2);
  }

  lemma NamePixels(t: Text, k: nat)
    requires 2 <= |t| <= 20 && k >= 7 && forall i :: 0 <= i < |t| ==> t[i] < 128
    ensures Pixels(NameImage(t), k)
  {
    hide Blocks, Pow2;
    BlockPixels(t, k, 2);
  }

  lemma FirstLearned(k: nat, t: Text)
    requires |t| >= 2
    ensures Learned(k, t, 2) == Start(k, t[0]).table && Start(k, t[0]).s == [t[0]]
  {
  }

  lemma {:induction false} BlockPixels(t: Text, k: nat, m: nat)
    requires 2 <= m <= |t| <= 20 && k >= 7 && forall i :: 0 <= i < |t| ==> t[i] < 128
    ensures Pixels(Blocks(t, m), k) && t[0] < Pow2(k)
    decreases |t| - m
  {
    Pow2Monotone(7, k);
    assert Pow2(4) == 16 && Pow2(7) == 128;
    hide Pow2;
    if m == |t| {
    } else {
      BlockPixels(t, k, m + 1);
    }
  }

  /** So the pixels are safe in every image exactly for the alphabets of six bits or less. */
  lemma SafeAlphabets(k: nat)
    requires 2 <= k <= 11
    ensures (forall pixels :: |pixels| > 0 && Pixels(pixels, k) ==> !Misleads(pixels, k)) <==> k <= 6
  {
    hide Misled, IsName, Pow2, Blocks;
    if k <= 6 {
      forall pixels: seq<nat> | |pixels| > 0 && Pixels(pixels, k) ensures !Misleads(pixels, k) {
        SmallIsSafe(pixels, k);
      }
    } else {
      var t := Units("toString");
      ToStringIs();
      EveryNameMisleads(t, k);
    }
  }

  lemma ToStringIs()
    ensures IsName(Units("toString"))
  {
    hide Units;
    assert "toString" in INHERITED;
  }

  /** An image of 64 equal pixels: the pixels are read back, and the end code is not seen. */
  method MissedEndCode(p: nat) returns (bytes: seq<nat>)
    requires p < 4
    ensures var read := DecodeRaster(bytes, 2, 64);
            read.Ok? && read.value.pixels == Same(p, 64) && !SeesEndCode(read.value, 2)
  {
    hide SeesEndCode, DecodeRaster, Final, InitialTable, Misled;
    assert Pow2(2) == 4;
    SmallImage(p, 64);
    var r := GetLzwRaster(Same(p, 64), 2);
    bytes := r.value;
  }

  /** An image with code size 7 whose pixels are lost. */
  method LostPixels() returns (bytes: seq<nat>, data: seq<nat>)
    ensures Pixels(data, 7) && |data| > 0
    ensures var read := DecodeRaster(bytes, 7, |data|); !(read.Ok? && read.value.pixels == data)
  {
    hide IsName, DecodeRaster, Misleads, Units, NameImage;
    ToStringIs();
    EveryNameMisleads(Units("toString"), 7);
    data := NameImage(Units("toString"));
    var r := GetLzwRaster(data, 7);
    bytes := r.value;
  }
}
