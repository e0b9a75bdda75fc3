/** A whole symbol, from segments to modules, and a reader that starts from nothing but the
    modules: the encoder's output always reads back to its input. */
module QrCode {
  import opened Bytes
  import opened JsBits
  import opened Outcomes
  import opened MsbBits
  import opened QrBitBuffer
  import opened Segments
  import opened DataStream
  import opened RsBlocks
  import opened Interleave
  import opened FinalMessage
  import opened Bch
  import opened Zigzag
  import opened FunctionPatterns
  import opened SymbolPatterns
  import opened QrSymbol
  import opened Capacity
  import opened PathOrder
  import opened MaskTiles
  import opened MaskLaws
  import LsbBits

  // --- The reader ---

  /** The word beside the left finders, bit 0 first. */
  function ReadFormat(g: Grid, n: nat): nat
    requires n >= 21 && Square(g, n)
  {
    var ps := FormatColumn(n);
    LsbBits.Number(seq(15, i requires 0 <= i < 15 => At(g, n, ps[i]) == Set(true)))
  }

  function LevelOf(code: nat): Level {
    if code == 0 then M else if code == 1 then L else if code == 2 then H else Q
  }

  function BytesOf(bits: seq<bool>): seq<Byte> {
    if |bits| < 8 then [] else BytesOf(bits[..|bits| - 8]) + [FromBits(bits[|bits| - 8..])]
  }

  function DataSizes(blocks: seq<RsBlock>): (s: seq<nat>)
    ensures |s| == |blocks| && forall r :: 0 <= r < |s| ==> s[r] == blocks[r].dataCount
  {
    seq(|blocks|, r requires 0 <= r < |blocks| => blocks[r].dataCount)
  }

  /** The data blocks of the words, and the segments in these. */
  function ReadWords(words: seq<Byte>, version: nat, level: Level): Outcome<seq<Segment>>
    requires 1 <= version <= 40
  {
    match Deinterleave(words, DataSizes(Blocks(version, level)))
    case Throws => Throws
    case Ok(d) => ParseStream(AllBits(Flat(d.blocks)), version)
  }

  /** The words along the path. */
  function PathWords(g: Grid, version: nat, level: Level, maskPattern: nat): Outcome<seq<Byte>>
    requires 1 <= version <= 40 && Square(g, Size(version))
  {
    hide TotalCount, Blocks, TableRow, Reserved, Strips, Read, TileMask, BytesOf;
    var n := Size(version);
    var bits := Read(g, n, Strips(n, 0), (p: Position) => Reserved(version, p), TileMask(maskPattern));
    var total := TotalCount(Blocks(version, level));
    if |bits| < 8 * total then Throws else Ok(BytesOf(bits[..8 * total]))
  }

  function ReadModules(g: Grid, version: nat, level: Level, maskPattern: nat): Outcome<seq<Segment>>
    requires 1 <= version <= 40 && Square(g, Size(version))
  {
    match PathWords(g, version, level, maskPattern)
    case Throws => Throws
    case Ok(words) => ReadWords(words, version, level)
  }

  /** Reads a symbol: its size gives the version, its format word the level and the mask. */
  function ReadSymbol(g: Grid): Outcome<seq<Segment>> {
    var n := |g|;
    if n < 21 || n > 177 || n % 4 != 1 || !Square(g, n) then Throws
    else
      var format := Shr(JsBits.Xor(ReadFormat(g, n), G15_MASK), 10);
      ReadModules(g, (n - 17) / 4, LevelOf(format / 8), format % 8)
  }

  // --- The counts fit ---

  lemma {:induction false} NumericLength(s: string)
    requires forall i :: 0 <= i < |s| ==> IsDigit(s[i])
    ensures 3 * |NumericBits(s)| >= 10 * |s|
    decreases |s|
  {
    if |s| < 3 {
    } else {
      NumericLength(s[3..]);
    }
  }

  lemma {:induction false} AlphaLength(s: string)
    requires forall i :: 0 <= i < |s| ==> IsAlphanumeric(s[i])
    ensures 2 * |AlphaBits(s)| >= 11 * |s|
    decreases |s|
  {
    if |s| < 2 {
    } else {
      AlphaLength(s[2..]);
    }
  }

  /** A segment that fits into the symbol has a count that fits into its field. */
  lemma CountFits(s: Segment, version: nat)
    requires 1 <= version <= 40 && Legal(s) && |SegmentBits(s, version)| <= 8 * MostData(version)
    ensures Count(s) < Pow2(CountBits(Mode(s), version))
  {
    hide NumericBits, AlphaBits, High, Pow2, IsDigit, IsAlphanumeric;
    SmallPowers();
    match s
    case Numeric(digits) => NumericLength(digits);
    case Alphanumeric(text) => AlphaLength(text);
    case EightBit(_) =>
  }

  lemma {:induction false} SegmentWithinStream(segments: seq<Segment>, version: nat, i: nat)
    requires AllLegal(segments) && i < |segments|
    ensures |SegmentBits(segments[i], version)| <= |StreamBits(segments, version)|
    decreases |segments|
  {
    hide SegmentBits, Legal;
    if i == 0 {
    } else {
      SegmentWithinStream(segments[1..], version, i - 1);
    }
  }

  lemma AllCountsFit(segments: seq<Segment>, version: nat)
    requires 1 <= version <= 40 && AllLegal(segments)
    requires |StreamBits(segments, version)| <= 8 * MostData(version)
    ensures CountsFit(segments, version)
  {
    hide SegmentBits, StreamBits, Legal, MostData, CountBits, Pow2, Count, Mode;
    forall i | 0 <= i < |segments|
      ensures Count(segments[i]) < Pow2(CountBits(Mode(segments[i]), version))
    {
      SegmentWithinStream(segments, version, i);
      CountFits(segments[i], version);
    }
  }

  // --- The blocks of the table ---

  lemma BlocksFit(version: nat, level: Level)
    requires 1 <= version <= 40
    ensures Encodable(Blocks(version, level))
    ensures forall r :: 0 <= r < |Blocks(version, level)| ==>
                          0 < EcCount(Blocks(version, level)[r]) <= 30 && Blocks(version, level)[r].totalCount <= 255
    ensures DataCount(Blocks(version, level)) <= MostData(version)
    ensures TotalCount(Blocks(version, level)) == RawModules(version) / 8
  {
    hide TableRow, RawModules, MostData;
    BlockCounts(version, level);
    var row := TableRow(version, level);
    assert RowFits(version, row);
  }

  // --- The encoder ---

  /** The message of the segments: what `createData` returns. */
  ghost predicate IsSymbolData(words: seq<Byte>, segments: seq<Segment>, version: nat, level: Level)
    requires 1 <= version <= 40 && AllLegal(segments)
    requires |StreamBits(segments, version)| <= 8 * DataCount(Blocks(version, level))
  {
    exists buffer: seq<Byte> ::
      && |buffer| == DataCount(Blocks(version, level))
      && AllBits(buffer) == Padded(StreamBits(segments, version), DataCount(Blocks(version, level)))
      && IsMessage(words, buffer, Blocks(version, level))
  }

  method SumData(blocks: seq<RsBlock>) returns (total: nat)
    ensures total == DataCount(blocks)
  {
    total := 0;
    for i := 0 to |blocks|
      invariant total == DataCount(blocks[..i])
    {
      assert blocks[..i + 1][..i] == blocks[..i];
      total := total + blocks[i].dataCount;
    }
    assert blocks[..|blocks|] == blocks;
  }

  /** `createData`: it throws exactly when a character is illegal or the data are too long. */
  method CreateData(math: QrMath.QrMath, version: nat, level: Level, segments: seq<Segment>)
      returns (r: Outcome<seq<Byte>>)
    requires math.Valid() && 1 <= version <= 40
    ensures r.Throws? <==> || !AllLegal(segments)
                           || |StreamBits(segments, version)| > 8 * DataCount(Blocks(version, level))
    ensures r.Ok? ==> |r.value| == TotalCount(Blocks(version, level))
    ensures r.Ok? ==> IsSymbolData(r.value, segments, version, level)
  {
    hide Padded, StreamBits, IsMessage, AllBits, Legal, DataCount, TotalCount, Blocks, TableRow, AllLegal, Encodable,
         RawModules, MostData;
    var rsBlocks := GetRSBlocks(version, level);
    var total := SumData(rsBlocks);
    var stream := CreateStream(segments, version, total);
    if stream.Throws? { return Throws; }
    var bytes := stream.value.buffer;
    assert |bytes| == total && AllBits(bytes)[..8 * total] == AllBits(bytes);
    BlocksFit(version, level);
    NeverStuck(bytes, rsBlocks);
    r := CreateBytes(math, bytes, rsBlocks);
  }

  // --- Reading back ---

  lemma BytesOfAppend(bits: seq<bool>, b: Byte)
    ensures BytesOf(bits + Bits(b)) == BytesOf(bits) + [b]
  {
    hide Bits, FromBits;
    var all := bits + Bits(b);
    assert all[..|all| - 8] == bits && all[|all| - 8..] == Bits(b);
    FromBitsOfBits(b);
  }

  lemma {:induction false} BytesOfAllBits(data: seq<Byte>)
    ensures BytesOf(AllBits(data)) == data
  {
    hide Bits, AllBits, BytesOf;
    if |data| == 0 {
      NoBytes(AllBits(data));
    } else {
      var front, last := data[..|data| - 1], data[|data| - 1];
      BytesOfAllBits(front);
      assert front + [last] == data;
      AllBitsAppend(front, last);
      BytesOfAppend(AllBits(front), last);
    }
  }

  lemma NoBytes(bits: seq<bool>)
    requires |bits| == 0
    ensures BytesOf(bits) == []
  {
  }

  lemma FromBitsOfBits(b: Byte)
    ensures FromBits(Bits(b)) == b
  {
  }

  lemma {:induction false} WindowAt(bits: seq<bool>, pos: nat, count: nat)
    ensures |Window(bits, pos, count)| == count
    ensures forall i :: 0 <= i < count ==> Window(bits, pos, count)[i] == BitOf(bits, pos + i)
    decreases count
  {
    hide BitOf;
    if count == 0 {
    } else {
      WindowAt(bits, pos + 1, count - 1);
      var rest := Window(bits, pos + 1, count - 1);
      assert Window(bits, pos, count) == [BitOf(bits, pos)] + rest;
      forall i | 0 < i < count ensures Window(bits, pos, count)[i] == BitOf(bits, pos + i) {
        assert rest[i - 1] == BitOf(bits, pos + 1 + (i - 1));
      }
    }
  }

  lemma {:induction false} LowAt(x: nat, n: nat, i: nat)
    requires i < n
    ensures LsbBits.Low(x, n)[i] == Bit(x, i)
  {
    if i == 0 {
    } else {
      LowAt(x / 2, n - 1, i - 1);
    }
  }

  lemma ReadFormatShown(g: Grid, n: nat, bits: nat)
    requires n >= 21 && Square(g, n) && FormatShown(g, n, bits, false) && bits < Pow2(15)
    ensures ReadFormat(g, n) == bits
  {
    hide Bit, Pow2, VerticalFormat, HorizontalFormat, VerticalFormats, HorizontalFormats, FormatColumn, FormatRow,
         LsbBits.Number, LsbBits.Low;
    FormatModules(n);
    FormatOrder(n);
    var ps := FormatColumn(n);
    var read := seq(15, i requires 0 <= i < 15 => At(g, n, ps[i]) == Set(true));
    forall i | 0 <= i < 15 ensures read[i] == LsbBits.Low(bits, 15)[i] {
      LowAt(bits, 15, i);
      assert At(g, n, ps[i]) == Set(Drawn(bits, false)(i));
    }
    assert read == LsbBits.Low(bits, 15);
    LsbBits.NumberOfLow(bits, 15);
  }

  lemma WholePathWithin(n: nat)
    requires n > 0
    ensures AllWithin(WholePath(n), n)
  {
    PathWithin(n, n - 1, true);
  }

  /** Placement leaves the format word alone. */
  lemma FormatSurvives(frame: Grid, g: Grid, n: nat, bits: nat, data: seq<Byte>, maskPattern: nat)
    requires n >= 21 && Square(frame, n) && FormatShown(frame, n, bits, false)
    requires Placed(frame, g, n, data, maskPattern)
    ensures Square(g, n) && FormatShown(g, n, bits, false)
  {
    hide VerticalFormats, HorizontalFormats, AllBits, WholePath, Fill, Drawn, MaskOf;
    FormatModules(n);
    WholePathWithin(n);
    FillFrame(frame, n, WholePath(n), AllBits(data), 0, MaskOf(maskPattern));
    forall k | 0 <= k < 15
      ensures At(g, n, VerticalFormats(n)[k]) == Set(Drawn(bits, false)(k))
      ensures At(g, n, HorizontalFormats(n)[k]) == Set(Drawn(bits, false)(k))
    {
    }
  }

  lemma LevelOfCode(level: Level, maskPattern: nat)
    requires maskPattern < 8
    ensures var d := 8 * LevelCode(level) + maskPattern; LevelOf(d / 8) == level && d % 8 == maskPattern
  {
    var d := 8 * LevelCode(level) + maskPattern;
    assert d / 8 == LevelCode(level);
  }

  lemma {:induction false} ReadSame(g: Grid, n: nat, ps: seq<Position>, reserved: Reservation, a: MaskFunction,
                                    b: MaskFunction)
    requires Square(g, n) && forall i :: 0 <= i < |ps| ==> Within(ps[i], n)
    requires forall p :: a(p) == b(p)
    ensures Read(g, n, ps, reserved, a) == Read(g, n, ps, reserved, b)
    decreases |ps|
  {
    if |ps| == 0 {
    } else {
      ReadSame(g, n, ps[1..], reserved, a, b);
    }
  }

  /** The reader counts off the path and takes the mask from its tile; that is what was placed. */
  lemma ReadCounted(g: Grid, version: nat, maskPattern: nat)
    requires 1 <= version <= 40 && maskPattern < 8 && Square(g, Size(version))
    ensures WholePath(Size(version)) == Strips(Size(version), 0)
    ensures var n, reserved := Size(version), (p: Position) => Reserved(version, p);
            Read(g, n, Strips(n, 0), reserved, TileMask(maskPattern)) ==
            Read(g, n, Strips(n, 0), reserved, MaskOf(maskPattern))
  {
    hide Read, Strips, WholePath, Reserved, Masked, Flips;
    var n := Size(version);
    PathIs(n);
    forall p ensures TileMask(maskPattern)(p) == MaskOf(maskPattern)(p) { MaskIsTile(maskPattern, p); }
    ReadSame(g, n, Strips(n, 0), (p: Position) => Reserved(version, p), TileMask(maskPattern), MaskOf(maskPattern));
  }

  /** The path returns the message. */
  lemma ReadPlaced(frame: Grid, g: Grid, version: nat, data: seq<Byte>, maskPattern: nat, total: nat)
    requires 1 <= version <= 40 && Square(frame, Size(version)) && Framed(frame, version)
    requires Placed(frame, g, Size(version), data, maskPattern)
    requires |data| == total && 8 * total <= RawModules(version)
    ensures Square(g, Size(version))
    ensures (PathWithin(Size(version), Size(version) - 1, true);
             var bits := Read(g, Size(version), WholePath(Size(version)), (p: Position) => Reserved(version, p),
                              MaskOf(maskPattern));
             |bits| >= 8 * total && bits[..8 * total] == AllBits(data))
  {
    hide Reserved, WholePath, Fill, Read, AllBits, RawModules, CountFree, Window, NoRepeat, MaskOf;
    var n := Size(version);
    var reserved := (p: Position) => Reserved(version, p);
    WholePathWithin(n);
    WholePathCovers(n);
    ReadFill(frame, n, WholePath(n), AllBits(data), 0, reserved, MaskOf(maskPattern));
    ExactRoom(version);
    var count := CountFree(WholePath(n), reserved);
    WindowAt(AllBits(data), 0, count);
    assert Window(AllBits(data), 0, count)[..8 * total] == AllBits(data);
  }

  lemma ReadMessage(words: seq<Byte>, segments: seq<Segment>, version: nat, level: Level)
    requires 1 <= version <= 40 && AllLegal(segments)
    requires |StreamBits(segments, version)| <= 8 * DataCount(Blocks(version, level))
    requires IsSymbolData(words, segments, version, level)
    ensures ReadWords(words, version, level) == Ok(segments)
  {
    hide Legal, StreamBits, DataCount, Blocks, Padded, AllBits, Interleaved, Slices, ParseStream, Flat, IsParity,
         Deinterleave, CountsFit, MostData, AllLegal;
    LegalAll(segments);
    var blocks := Blocks(version, level);
    var buffer :| |buffer| == DataCount(blocks)
                  && AllBits(buffer) == Padded(StreamBits(segments, version), DataCount(blocks))
                  && IsMessage(words, buffer, blocks);
    var dc := Slices(buffer, blocks);
    var ec: Rows<Byte> :| IsParity(ec, dc, blocks) && words == Interleaved(dc) + Interleaved(ec);
    DeinterleaveInterleaved(dc, Interleaved(ec));
    assert Sizes(dc) == DataSizes(blocks);
    BlocksFit(version, level);
    AllCountsFit(segments, version);
    ParsePadded(segments, version, DataCount(blocks));
  }

  lemma LegalAll(segments: seq<Segment>)
    requires AllLegal(segments)
    ensures forall i :: 0 <= i < |segments| ==> Legal(segments[i])
  {
  }

  /** Size and format word direct the reader to the right version, level and mask. */
  lemma ReadSymbolIs(g: Grid, version: nat, level: Level, maskPattern: nat, bits: nat)
    requires 1 <= version <= 40 && maskPattern < 8 && Square(g, Size(version))
    requires ReadFormat(g, Size(version)) == bits && IsFormatWord(bits, level, maskPattern)
    ensures ReadSymbol(g) == ReadModules(g, version, level, maskPattern)
  {
    hide ReadModules, PathWords, ReadFormat, Shr, JsBits.Xor, Pow2, LevelOf, Clmul;
    LevelOfCode(level, maskPattern);
    assert |g| == Size(version) && (Size(version) - 17) / 4 == version;
  }

  /** The words along the path of a drawn symbol are those it was drawn from. */
  lemma PathWordsPlaced(frame: Grid, g: Grid, words: seq<Byte>, version: nat, level: Level, maskPattern: nat)
    requires 1 <= version <= 40 && maskPattern < 8
    requires |words| == TotalCount(Blocks(version, level))
    requires Square(frame, Size(version)) && Framed(frame, version)
    requires Placed(frame, g, Size(version), words, maskPattern)
    ensures Square(g, Size(version))
    ensures PathWords(g, version, level, maskPattern) == Ok(words)
  {
    hide TotalCount, Blocks, Framed, Placed, RawModules, Read, BytesOf, AllBits, Reserved, MaskOf, TileMask,
         Strips, WholePath;
    BlocksFit(version, level);
    ReadPlaced(frame, g, version, words, maskPattern, |words|);
    ReadCounted(g, version, maskPattern);
    BytesOfAllBits(words);
  }

  lemma FormatWordFits(bits: nat, level: Level, maskPattern: nat)
    requires IsFormatWord(bits, level, maskPattern)
    ensures bits < Pow2(15)
  {
  }

  /** A symbol that is drawn from the message of the segments: a frame with the format word, and the
      words in it. */
  ghost predicate IsDrawnFrom(frame: Grid, words: seq<Byte>, bits: nat, g: Grid, segments: seq<Segment>, version: nat,
                              level: Level, maskPattern: nat)
  {
    && 1 <= version <= 40 && maskPattern < 8 && AllLegal(segments)
    && |StreamBits(segments, version)| <= 8 * DataCount(Blocks(version, level))
    && IsSymbolData(words, segments, version, level) && |words| == TotalCount(Blocks(version, level))
    && Square(frame, Size(version)) && Framed(frame, version)
    && IsFormatWord(bits, level, maskPattern) && FormatShown(frame, Size(version), bits, false)
    && Placed(frame, g, Size(version), words, maskPattern)
  }

  ghost predicate IsDrawing(g: Grid, segments: seq<Segment>, version: nat, level: Level, maskPattern: nat) {
    exists frame, words, bits :: IsDrawnFrom(frame, words, bits, g, segments, version, level, maskPattern)
  }

  /** What is found in a drawn symbol. */
  lemma FrameShows(frame: Grid, g: Grid, words: seq<Byte>, version: nat, level: Level, maskPattern: nat, bits: nat)
    requires 1 <= version <= 40 && maskPattern < 8 && |words| == TotalCount(Blocks(version, level))
    requires Square(frame, Size(version)) && Framed(frame, version)
    requires IsFormatWord(bits, level, maskPattern) && FormatShown(frame, Size(version), bits, false)
    requires Placed(frame, g, Size(version), words, maskPattern)
    ensures Size(version) >= 21 && Square(g, Size(version)) && ReadFormat(g, Size(version)) == bits
    ensures PathWords(g, version, level, maskPattern) == Ok(words)
    ensures ReadSymbol(g) == ReadWords(words, version, level)
  {
    hide *;
    SizeAtLeast(version);
    FormatSurvives(frame, g, Size(version), bits, words, maskPattern);
    FormatWordFits(bits, level, maskPattern);
    ReadFormatShown(g, Size(version), bits);
    PathWordsPlaced(frame, g, words, version, level, maskPattern);
    ReadSymbolIs(g, version, level, maskPattern, bits);
    ReadModulesIs(g, words, version, level, maskPattern);
  }

  lemma ReadModulesIs(g: Grid, words: seq<Byte>, version: nat, level: Level, maskPattern: nat)
    requires 1 <= version <= 40 && Square(g, Size(version))
    requires PathWords(g, version, level, maskPattern) == Ok(words)
    ensures ReadModules(g, version, level, maskPattern) == ReadWords(words, version, level)
  {
    hide PathWords, ReadWords;
  }

  lemma DrawnShows(g: Grid, segments: seq<Segment>, version: nat, level: Level, maskPattern: nat)
      returns (bits: nat, words: seq<Byte>)
    requires IsDrawing(g, segments, version, level, maskPattern)
    ensures 1 <= version <= 40 && maskPattern < 8 && AllLegal(segments) && Size(version) >= 21
    ensures |StreamBits(segments, version)| <= 8 * DataCount(Blocks(version, level))
    ensures Square(g, Size(version)) && ReadFormat(g, Size(version)) == bits
    ensures IsFormatWord(bits, level, maskPattern)
    ensures IsSymbolData(words, segments, version, level) && PathWords(g, version, level, maskPattern) == Ok(words)
    ensures ReadSymbol(g) == ReadWords(words, version, level)
  {
    hide AllLegal, StreamBits, DataCount, Blocks, IsSymbolData, TotalCount, Framed, IsFormatWord, FormatShown, Placed,
         ReadSymbol, ReadFormat, PathWords, ReadWords;
    var frame, data, format :| IsDrawnFrom(frame, data, format, g, segments, version, level, maskPattern);
    bits, words := format, data;
    FrameShows(frame, g, words, version, level, maskPattern, bits);
  }

  /** Every symbol that is drawn from the message of the segments reads back to them. */
  lemma ReadDrawn(g: Grid, segments: seq<Segment>, version: nat, level: Level, maskPattern: nat)
    requires IsDrawing(g, segments, version, level, maskPattern)
    ensures ReadSymbol(g) == Ok(segments)
  {
    hide *;
    var bits, words := DrawnShows(g, segments, version, level, maskPattern);
    ReadMessage(words, segments, version, level);
  }

  lemma DrawnFrom(frame: Grid, words: seq<Byte>, bits: nat, g: Grid, segments: seq<Segment>, version: nat, level: Level,
               maskPattern: nat)
    requires 1 <= version <= 40 && maskPattern < 8 && AllLegal(segments)
    requires |StreamBits(segments, version)| <= 8 * DataCount(Blocks(version, level))
    requires IsSymbolData(words, segments, version, level) && |words| == TotalCount(Blocks(version, level))
    requires Square(frame, Size(version)) && Framed(frame, version)
    requires IsFormatWord(bits, level, maskPattern) && FormatShown(frame, Size(version), bits, false)
    requires Placed(frame, g, Size(version), words, maskPattern)
    ensures IsDrawing(g, segments, version, level, maskPattern)
  {
    hide AllLegal, StreamBits, DataCount, Blocks, IsSymbolData, TotalCount, Framed, IsFormatWord, FormatShown, Placed;
    assert IsDrawnFrom(frame, words, bits, g, segments, version, level, maskPattern);
  }

  lemma SizeAtLeast(version: nat)
    requires version >= 1
    ensures Size(version) >= 21
  {
  }

  /** Placement leaves the function patterns and the version word alone. */
  lemma PatternsSurvive(frame: Grid, g: Grid, version: nat, data: seq<Byte>, maskPattern: nat)
    requires 1 <= version <= 40 && Square(frame, Size(version)) && Framed(frame, version)
    requires Placed(frame, g, Size(version), data, maskPattern) && PatternsShown(frame, version)
    ensures Square(g, Size(version)) && PatternsShown(g, version)
  {
    hide AllBits, WholePath, Fill, MaskOf, PatternsShown, InFinder, InSomeAdjust, OnTiming, InFormat, InVersion,
         PatternPosition;
    var n := Size(version);
    WholePathWithin(n);
    FillFrame(frame, n, WholePath(n), AllBits(data), 0, MaskOf(maskPattern));
    PatternsKept(frame, g, version);
  }

  lemma VersionSurvives(frame: Grid, g: Grid, n: nat, word: nat, data: seq<Byte>, maskPattern: nat)
    requires n >= 21 && Square(frame, n) && VersionShown(frame, n, word, false)
    requires Placed(frame, g, n, data, maskPattern)
    ensures Square(g, n) && VersionShown(g, n, word, false)
  {
    hide UpperVersions, LowerVersions, AllBits, WholePath, Fill, Drawn, MaskOf;
    VersionModules(n);
    WholePathWithin(n);
    FillFrame(frame, n, WholePath(n), AllBits(data), 0, MaskOf(maskPattern));
    forall k | 0 <= k < 18
      ensures At(g, n, UpperVersions(n)[k]) == Set(Drawn(word, false)(k))
      ensures At(g, n, LowerVersions(n)[k]) == Set(Drawn(word, false)(k))
    {
    }
  }

  /** A finished symbol: everything is decided, the function patterns have their colours, and both
      copies of the format word, and of the version word from version 7 on, can be read. */
  ghost predicate IsSymbol(g: Grid, version: nat, level: Level, maskPattern: nat)
    requires 1 <= version <= 40
  {
    && Square(g, Size(version))
    && (forall p :: Within(p, Size(version)) ==> At(g, Size(version), p).Set?)
    && PatternsShown(g, version)
    && (exists bits :: IsFormatWord(bits, level, maskPattern) && FormatShown(g, Size(version), bits, false))
    && (version >= 7 ==> exists word :: IsVersionWord(word, version) && VersionShown(g, Size(version), word, false))
  }

  predicate Fits(segments: seq<Segment>, version: nat, level: Level)
    requires 1 <= version <= 40 && forall i :: 0 <= i < |segments| ==> Legal(segments[i])
  {
    |StreamBits(segments, version)| <= 8 * DataCount(Blocks(version, level))
  }

  /** `makeImpl` with its `createData`: whatever the segments, version, level and mask, the symbol is
      refused exactly when the data are illegal or too long, and otherwise reads back. */
  method Make(math: QrMath.QrMath, version: nat, level: Level, segments: seq<Segment>, maskPattern: nat)
      returns (r: Outcome<QrSymbol>)
    requires math.Valid() && 1 <= version <= 40 && maskPattern < 8
    ensures r.Throws? <==> !AllLegal(segments) || !Fits(segments, version, level)
    ensures r.Ok? ==> fresh(r.value) && r.value.Valid() && r.value.moduleCount == Size(version)
    ensures r.Ok? ==> ReadSymbol(r.value.modules) == Ok(segments)
    ensures r.Ok? ==> IsDrawing(r.value.modules, segments, version, level, maskPattern)
    ensures r.Ok? ==> IsSymbol(r.value.modules, version, level, maskPattern)
  {
    hide *;
    FitsIs(segments, version, level);
    var data := CreateData(math, version, level, segments);
    if data.Throws? { return Throws; }
    var symbol := new QrSymbol();
    ghost var frame, bits, word := symbol.MakeImpl(version, level, false, maskPattern, data.value);
    DrawnFrom(frame, data.value, bits, symbol.modules, segments, version, level, maskPattern);
    ReadDrawn(symbol.modules, segments, version, level, maskPattern);
    Finished(frame, symbol.modules, version, level, maskPattern, data.value, bits, word);
    r := Ok(symbol);
  }

  lemma FitsIs(segments: seq<Segment>, version: nat, level: Level)
    requires 1 <= version <= 40
    ensures AllLegal(segments) ==>
      (forall i :: 0 <= i < |segments| ==> Legal(segments[i]))
      && (Fits(segments, version, level) <==> |StreamBits(segments, version)| <= 8 * DataCount(Blocks(version, level)))
  {
    hide Legal, StreamBits, DataCount, Blocks;
  }

  lemma Finished(frame: Grid, g: Grid, version: nat, level: Level, maskPattern: nat, data: seq<Byte>, bits: nat,
                 word: nat)
    requires 1 <= version <= 40 && Square(frame, Size(version)) && Framed(frame, version)
    requires IsFormatWord(bits, level, maskPattern) && FormatShown(frame, Size(version), bits, false)
    requires PatternsShown(frame, version)
    requires version >= 7 ==> IsVersionWord(word, version) && VersionShown(frame, Size(version), word, false)
    requires Placed(frame, g, Size(version), data, maskPattern)
    ensures IsSymbol(g, version, level, maskPattern)
  {
    hide Framed, PatternsShown, FormatShown, VersionShown, Placed, IsFormatWord, IsVersionWord;
    NothingUndecided(frame, g, version, data, maskPattern);
    PatternsSurvive(frame, g, version, data, maskPattern);
    FormatSurvives(frame, g, Size(version), bits, data, maskPattern);
    if version >= 7 { VersionSurvives(frame, g, Size(version), word, data, maskPattern); }
  }

  /** No module stays undecided: what the path does not visit is reserved. */
  lemma NothingUndecided(frame: Grid, g: Grid, version: nat, data: seq<Byte>, maskPattern: nat)
    requires 1 <= version <= 40 && Square(frame, Size(version)) && Framed(frame, version)
    requires Placed(frame, g, Size(version), data, maskPattern)
    ensures Square(g, Size(version)) && forall p :: Within(p, Size(version)) ==> At(g, Size(version), p).Set?
  {
    hide WholePath, Fill, AllBits, Reserved, MaskOf, NoRepeat;
    var n := Size(version);
    WholePathWithin(n);
    WholePathCovers(n);
    FillFrame(frame, n, WholePath(n), AllBits(data), 0, MaskOf(maskPattern));
    forall p | Within(p, n) ensures At(g, n, p).Set? {
      if p.col == 6 { ColumnSixReserved(version, p.row); } else { assert p in WholePath(n); }
    }
  }

  // --- Choosing the version and the mask ---

  /** No smaller version has room for the segments. */
  ghost predicate IsLeast(segments: seq<Segment>, version: nat, level: Level)
    requires forall i :: 0 <= i < |segments| ==> Legal(segments[i])
  {
    && 1 <= version <= 40
    && (forall w :: 1 <= w < version ==> !Fits(segments, w, level))
    && (version < 40 ==> Fits(segments, version, level))
  }

  /** The search in `make` for the least version below 40 with enough room, or else 40. */
  method ChooseVersion(level: Level, segments: seq<Segment>) returns (r: Outcome<nat>)
    ensures r.Throws? <==> !AllLegal(segments)
    ensures r.Ok? ==> IsLeast(segments, r.value, level)
  {
    hide StreamBits, DataCount, Blocks, Legal;
    var version := 1;
    while version < 40
      invariant 1 <= version <= 40 && (version > 1 ==> AllLegal(segments))
      invariant forall w :: 1 <= w < version ==> !Fits(segments, w, level)
    {
      var rsBlocks := GetRSBlocks(version, level);
      var buffer := new QrBitBuffer();
      var ok := WriteSegments(buffer, segments, version);
      if !ok { return Throws; }
      var total := SumData(rsBlocks);
      assert |buffer.Contents()| == buffer.length;
      if buffer.length <= total * 8 { break; }
      version := version + 1;
    }
    return Ok(version);
  }

  /** The first of the grids with the least cost. */
  ghost predicate IsFirstBest(trials: seq<Grid>, cost: Grid -> real, best: nat) {
    && best < |trials|
    && (forall i :: 0 <= i < |trials| ==> cost(trials[best]) <= cost(trials[i]))
    && (forall i :: 0 <= i < best ==> cost(trials[best]) < cost(trials[i]))
  }

  /** The frame of a trial drawing: the words and the dark module are left light. */
  ghost predicate IsTrialFrame(frame: Grid, version: nat)
    requires 1 <= version <= 40
  {
    && Square(frame, Size(version)) && Framed(frame, version) && PatternsShown(frame, version)
    && FormatShown(frame, Size(version), 0, true)
    && (version >= 7 ==> VersionShown(frame, Size(version), 0, true))
  }

  /** The trial drawing of a mask: that frame, and the whole message. */
  ghost predicate IsTrial(g: Grid, version: nat, data: seq<Byte>, maskPattern: nat)
    requires 1 <= version <= 40
  {
    exists frame :: IsTrialFrame(frame, version) && Placed(frame, g, Size(version), data, maskPattern)
  }

  /** The trial drawings of the eight masks. */
  ghost predicate AreTrials(trials: seq<Grid>, version: nat, data: seq<Byte>)
    requires 1 <= version <= 40
  {
    |trials| == 8 && forall i :: 0 <= i < 8 ==> IsTrial(trials[i], version, data, i)
  }

  /** The trial drawings for the message of the segments. */
  ghost predicate AreTrialsOf(trials: seq<Grid>, segments: seq<Segment>, version: nat, level: Level) {
    && 1 <= version <= 40 && AllLegal(segments)
    && |StreamBits(segments, version)| <= 8 * DataCount(Blocks(version, level))
    && exists data :: IsSymbolData(data, segments, version, level) && |data| == TotalCount(Blocks(version, level))
                      && AreTrials(trials, version, data)
  }

  lemma TrialsAreOf(trials: seq<Grid>, data: seq<Byte>, segments: seq<Segment>, version: nat, level: Level)
    requires 1 <= version <= 40 && AllLegal(segments)
    requires |StreamBits(segments, version)| <= 8 * DataCount(Blocks(version, level))
    requires IsSymbolData(data, segments, version, level) && |data| == TotalCount(Blocks(version, level))
    requires AreTrials(trials, version, data)
    ensures AreTrialsOf(trials, segments, version, level)
  {
    hide AllLegal, StreamBits, DataCount, Blocks, TotalCount, IsSymbolData, AreTrials;
  }

  lemma LightFormat(g: Grid, n: nat, bits: nat)
    requires n >= 21 && Square(g, n) && FormatShown(g, n, bits, true)
    ensures FormatShown(g, n, 0, true)
  {
    hide VerticalFormats, HorizontalFormats;
    FormatModules(n);
  }

  lemma LightVersion(g: Grid, n: nat, word: nat)
    requires n >= 21 && Square(g, n) && VersionShown(g, n, word, true)
    ensures VersionShown(g, n, 0, true)
  {
    hide UpperVersions, LowerVersions;
    VersionModules(n);
  }

  /** A word that is drawn light fixes its modules. */
  lemma WordFixed(f: Grid, g: Grid, n: nat, ps: seq<Position>, p: Position, bit: int -> bool)
    requires Square(f, n) && Square(g, n) && AllWithin(ps, n)
    requires WordAt(f, n, ps, |ps|, bit) && WordAt(g, n, ps, |ps|, bit) && p in ps
    ensures Within(p, n) && At(f, n, p) == At(g, n, p)
  {
    hide At;
  }

  /** Two trial frames agree on every module. */
  lemma FramesAgree(f: Grid, g: Grid, version: nat, p: Position)
    requires 1 <= version <= 40 && IsTrialFrame(f, version) && IsTrialFrame(g, version) && Within(p, Size(version))
    ensures At(f, Size(version), p) == At(g, Size(version), p)
  {
    var n, pos := Size(version), PatternPosition(version);
    hide PatternPosition, VerticalFormats, HorizontalFormats, UpperVersions, LowerVersions, InFormat, InVersion,
         InProbe, ProbeDark, AdjustAt, AdjustDark, OnTiming, TimingDark, At;
    if InFinder(p, n) || InSomeAdjust(p, pos, n) || OnTiming(p, n) {
    } else if InFormat(p, n) {
      FormatModules(n);
      if p in VerticalFormats(n) {
        WordFixed(f, g, n, VerticalFormats(n), p, Drawn(0, true));
      } else if p in HorizontalFormats(n) {
        WordFixed(f, g, n, HorizontalFormats(n), p, Drawn(0, true));
      }
    } else if version >= 7 && InVersion(p, n) {
      VersionModules(n);
      if p in UpperVersions(n) {
        WordFixed(f, g, n, UpperVersions(n), p, Drawn(0, true));
      } else {
        WordFixed(f, g, n, LowerVersions(n), p, Drawn(0, true));
      }
    }
  }

  lemma SameGrid(f: Grid, g: Grid, n: nat)
    requires Square(f, n) && Square(g, n) && forall p :: Within(p, n) ==> At(f, n, p) == At(g, n, p)
    ensures f == g
  {
    forall r | 0 <= r < n ensures f[r] == g[r] {
      forall c | 0 <= c < n ensures f[r][c] == g[r][c] {
        assert At(f, n, Position(r, c)) == At(g, n, Position(r, c));
      }
    }
  }

  /** There is one trial drawing of each mask. */
  lemma TrialIsUnique(g: Grid, h: Grid, version: nat, data: seq<Byte>, maskPattern: nat)
    requires 1 <= version <= 40 && IsTrial(g, version, data, maskPattern) && IsTrial(h, version, data, maskPattern)
    ensures g == h
  {
    hide IsTrialFrame, Fill, MaskOf, AllBits, WholePath;
    var f :| IsTrialFrame(f, version) && Placed(f, g, Size(version), data, maskPattern);
    var f' :| IsTrialFrame(f', version) && Placed(f', h, Size(version), data, maskPattern);
    forall p | Within(p, Size(version)) ensures At(f, Size(version), p) == At(f', Size(version), p) {
      FramesAgree(f, f', version, p);
    }
    SameGrid(f, f', Size(version));
  }

  /** `getBestMaskPattern`, the penalty of a drawing being any function of its modules. */
  method GetBestMaskPattern(symbol: QrSymbol, version: nat, level: Level, data: seq<Byte>, cost: Grid -> real)
      returns (pattern: nat, ghost trials: seq<Grid>)
    requires 1 <= version <= 40
    modifies symbol
    ensures IsFirstBest(trials, cost, pattern) && AreTrials(trials, version, data)
  {
    hide Framed, PatternsShown, FormatShown, Placed, IsFormatWord, IsVersionWord, VersionShown, Square;
    var minLostPoint := 0.0;
    pattern, trials := 0, [];
    for i := 0 to 8
      invariant |trials| == i && (i > 0 ==> IsFirstBest(trials, cost, pattern) && minLostPoint == cost(trials[pattern]))
      invariant forall k :: 0 <= k < i ==> IsTrial(trials[k], version, data, k)
    {
      ghost var frame, bits, word := symbol.MakeImpl(version, level, true, i, data);
      LightFormat(frame, Size(version), bits);
      if version >= 7 { LightVersion(frame, Size(version), word); }
      assert IsTrialFrame(frame, version);
      assert IsTrial(symbol.modules, version, data, i);
      var lostPoint := cost(symbol.modules);
      ghost var all := trials + [symbol.modules];
      assert forall k :: 0 <= k < i ==> all[k] == trials[k];
      trials := all;
      if i == 0 || minLostPoint > lostPoint {
        minLostPoint := lostPoint;
        pattern := i;
      }
    }
  }

  /** `make` without a given version: the data are refused exactly when they are illegal or no version
      has room for them; otherwise the symbol has the least version and the best mask, and reads back. */
  method MakeLeast(math: QrMath.QrMath, level: Level, segments: seq<Segment>, cost: Grid -> real)
      returns (r: Outcome<QrSymbol>, ghost version: nat, ghost maskPattern: nat, ghost trials: seq<Grid>)
    requires math.Valid()
    ensures r.Throws? <==> !AllLegal(segments) || forall w :: 1 <= w <= 40 ==> !Fits(segments, w, level)
    ensures r.Ok? ==> IsLeast(segments, version, level) && r.value.moduleCount == Size(version)
    ensures r.Ok? ==> IsFirstBest(trials, cost, maskPattern)
    ensures r.Ok? ==> AreTrialsOf(trials, segments, version, level)
    ensures r.Ok? ==> ReadSymbol(r.value.modules) == Ok(segments)
    ensures r.Ok? ==> IsDrawing(r.value.modules, segments, version, level, maskPattern)
    ensures r.Ok? ==> IsSymbol(r.value.modules, version, level, maskPattern)
  {
    hide *;
    version, maskPattern, trials := 1, 0, [];
    var chosen := ChooseVersion(level, segments);
    if chosen.Throws? { return Throws, version, maskPattern, trials; }
    version := chosen.value;
    LeastIs(segments, chosen.value, level);
    var data := CreateData(math, chosen.value, level, segments);
    FitsIs(segments, chosen.value, level);
    if data.Throws? { return Throws, version, maskPattern, trials; }
    var trial := new QrSymbol();
    var pattern;
    pattern, trials := GetBestMaskPattern(trial, chosen.value, level, data.value, cost);
    maskPattern := pattern;
    FirstBestIs(trials, cost, pattern, chosen.value, data.value);
    TrialsAreOf(trials, data.value, segments, version, level);
    r := Make(math, chosen.value, level, segments, pattern);
  }

  lemma LeastIs(segments: seq<Segment>, version: nat, level: Level)
    requires AllLegal(segments)
    ensures forall i :: 0 <= i < |segments| ==> Legal(segments[i])
    ensures IsLeast(segments, version, level) ==>
      1 <= version <= 40 && (Fits(segments, version, level) <==> exists w :: 1 <= w <= 40 && Fits(segments, w, level))
  {
    hide Fits, Legal;
  }

  lemma FirstBestIs(trials: seq<Grid>, cost: Grid -> real, best: nat, version: nat, data: seq<Byte>)
    requires 1 <= version <= 40 && IsFirstBest(trials, cost, best) && AreTrials(trials, version, data)
    ensures best < 8
  {
  }
}
