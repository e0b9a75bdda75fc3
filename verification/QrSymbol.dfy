/** The module matrix of `qrcode`: the `setup` functions that draw the function patterns and
    `mapData` that places the message, all writing `_modules` in place. */
module QrSymbol {
  import opened Bytes
  import opened QrBitBuffer
  import opened Zigzag
  import opened FunctionPatterns
  import opened SymbolPatterns
  import opened JsBits
  import opened Bch
  import opened RsBlocks

  /** `getMaskFunction` */
  predicate Masked(pattern: nat, p: Position) {
    var i, j := p.row, p.col;
    if pattern == 0 then (i + j) % 2 == 0
    else if pattern == 1 then i % 2 == 0
    else if pattern == 2 then j % 3 == 0
    else if pattern == 3 then (i + j) % 3 == 0
    else if pattern == 4 then (i / 2 + j / 3) % 2 == 0
    else if pattern == 5 then (i * j) % 2 + (i * j) % 3 == 0
    else if pattern == 6 then ((i * j) % 2 + (i * j) % 3) % 2 == 0
    else ((i * j) % 3 + (i + j) % 2) % 2 == 0
  }

  function MaskOf(pattern: nat): MaskFunction {
    (p: Position) => Masked(pattern, p)
  }

  lemma {:induction false} AllBitsAt(data: seq<Byte>, i: nat, j: nat)
    requires i < |data| && j < 8
    ensures AllBits(data)[8 * i + j] == BitAt(data[i], j)
  {
    hide BitAt, Bits;
    if i >= |data| - 1 {
    } else {
      AllBitsAt(data[..|data| - 1], i, j);
    }
  }

  lemma FillNext(g: Grid, n: nat, p: Position, rest: seq<Position>, bits: seq<bool>, pos: nat, mask: MaskFunction)
    requires Square(g, n) && Within(p, n) && AllWithin(rest, n)
    ensures AllWithin([p] + rest, n)
    ensures Fill(g, n, [p] + rest, bits, pos, mask) ==
            if At(g, n, p).Null? then Fill(Put(g, n, p, Set(BitOf(bits, pos) != mask(p))), n, rest, bits, pos + 1, mask)
            else Fill(g, n, rest, bits, pos, mask)
  {
    hide Put;
    assert ([p] + rest)[1..] == rest;
  }

  lemma StripWithin(n: nat, row: nat, up: bool, col: nat)
    requires row < n && 0 < col < n
    ensures AllWithin(Strip(n, row, up, col), n)
  {
    hide Strip;
    StripCovers(n, row, up, col);
    forall i | 0 <= i < |Strip(n, row, up, col)| ensures Within(Strip(n, row, up, col)[i], n) {
      assert InStrip(Strip(n, row, up, col)[i], n, row, up, col);
    }
  }

  lemma PathWithin(n: nat, col: int, up: bool)
    requires n > 0 && -1 <= col < n
    ensures AllWithin(Path(n, col, up), n)
  {
    hide Path;
    PathCovers(n, col, up);
    forall i | 0 <= i < |Path(n, col, up)| ensures Within(Path(n, col, up)[i], n) {
      assert Path(n, col, up)[i] in Path(n, col, up);
      OnPathBelow(Path(n, col, up)[i].col, col);
    }
  }

  /** What is left of the path inside a strip. */
  function Ahead(n: nat, row: nat, up: bool, col: nat): seq<Position>
    requires row < n && col > 0
  {
    Strip(n, row, up, col) + Path(n, col - 2, !up)
  }

  lemma AheadWithin(n: nat, row: nat, up: bool, col: nat)
    requires row < n && 0 < col < n
    ensures AllWithin(Ahead(n, row, up, col), n)
  {
    hide Strip, Path;
    StripWithin(n, row, up, col);
    PathWithin(n, col - 2, !up);
  }

  lemma AheadNext(n: nat, row: nat, up: bool, col: nat)
    requires row < n && col > 0
    ensures var rest := if (if up then row == 0 else row == n - 1) then Path(n, col - 2, !up)
                        else Ahead(n, if up then row - 1 else row + 1, up, col);
            Ahead(n, row, up, col) == [Position(row, col)] + ([Position(row, col - 1)] + rest)
  {
    hide Strip, Path;
    StripNext(n, row, up, col);
  }

  lemma PathNext(n: nat, col: int, up: bool)
    requires n > 0
    ensures col <= 0 ==> Path(n, col, up) == []
    ensures col > 0 ==> Path(n, col, up) == Ahead(n, if up then n - 1 else 0, up, StripColumn(col))
  {
  }

  // --- Format and version words ---

  /** Unmasked, a multiple of G15 with the level and the mask pattern in the high bits. */
  ghost predicate IsFormatWord(bits: nat, level: Level, maskPattern: nat) {
    && bits < Pow2(15)
    && (exists q :: JsBits.Xor(bits, G15_MASK) == Clmul(q, G15))
    && Shr(JsBits.Xor(bits, G15_MASK), 10) == 8 * LevelCode(level) + maskPattern
  }

  ghost predicate IsVersionWord(bits: nat, version: nat) {
    && bits < Pow2(18)
    && (exists q :: bits == Clmul(q, G18))
    && Shr(bits, 12) == version
  }

  /** The bits of a word as they are drawn: a test drawing leaves them light. */
  ghost function Drawn(bits: nat, test: bool): int -> bool {
    k => !test && k >= 0 && Bit(bits, k)
  }

  ghost predicate FormatDrawn(before: Grid, after: Grid, n: nat, bits: nat, test: bool)
    requires n >= 21 && Square(before, n) && Square(after, n)
  {
    FormatModules(n);
    && Outside(before, after, n, (p: Position) => InFormat(p, n))
    && WordAt(after, n, VerticalFormats(n), 15, Drawn(bits, test))
    && WordAt(after, n, HorizontalFormats(n), 15, Drawn(bits, test))
    && At(after, n, FixedModule(n)) == Set(!test)
  }

  ghost predicate VersionDrawn(before: Grid, after: Grid, n: nat, bits: nat, test: bool)
    requires n >= 21 && Square(before, n) && Square(after, n)
  {
    VersionModules(n);
    && Outside(before, after, n, (p: Position) => InVersion(p, n))
    && WordAt(after, n, UpperVersions(n), 18, Drawn(bits, test))
    && WordAt(after, n, LowerVersions(n), 18, Drawn(bits, test))
  }

  lemma NothingWritten(g: Grid, n: nat, ps: seq<Position>, bit: int -> bool, region: Position -> bool)
    requires Square(g, n) && AllWithin(ps, n)
    ensures WordAt(g, n, ps, 0, bit) && Outside(g, g, n, region)
  {
  }

  lemma ElementWithin(ps: seq<Position>, n: nat, i: nat)
    requires AllWithin(ps, n) && i < |ps|
    ensures Within(ps[i], n) && ps[i] in ps
  {
  }

  lemma FormatData(level: Level, maskPattern: nat)
    requires maskPattern < 8
    ensures Or(Shl(LevelCode(level), 3), maskPattern) == 8 * LevelCode(level) + maskPattern < Pow2(5)
  {
    hide Or;
    assert Pow2(3) == 8 && Pow2(5) == 32;
    OrDisjoint(LevelCode(level), maskPattern, 3);
  }

  lemma SixtyFour()
    ensures Pow2(6) == 64
  {
  }

  // --- What is decided once the function patterns are drawn ---

  /** Exactly the reserved modules of the version are decided. */
  ghost predicate Framed(g: Grid, version: nat)
    requires 1 <= version <= 40 && Square(g, Size(version))
  {
    forall p :: Within(p, Size(version)) ==> (At(g, Size(version), p).Set? <==> Reserved(version, p))
  }

  /** Both copies of the format word, and the module that is dark in every finished symbol, are in
      place. */
  ghost predicate FormatShown(g: Grid, n: nat, bits: nat, test: bool)
    requires n >= 21 && Square(g, n)
  {
    FormatModules(n);
    && WordAt(g, n, VerticalFormats(n), 15, Drawn(bits, test))
    && WordAt(g, n, HorizontalFormats(n), 15, Drawn(bits, test))
    && At(g, n, FixedModule(n)) == Set(!test)
  }

  /** Both copies of the version word are in place. */
  ghost predicate VersionShown(g: Grid, n: nat, word: nat, test: bool)
    requires n >= 21 && Square(g, n)
  {
    VersionModules(n);
    && WordAt(g, n, UpperVersions(n), 18, Drawn(word, test))
    && WordAt(g, n, LowerVersions(n), 18, Drawn(word, test))
  }

  lemma FindersSet(g0: Grid, g1: Grid, g2: Grid, g3: Grid, n: nat)
    requires n >= 21 && Square(g0, n) && Square(g1, n) && Square(g2, n) && Square(g3, n)
    requires forall p :: Within(p, n) ==> At(g0, n, p).Null?
    requires Repainted(g0, g1, n, (p: Position) => InProbe(p, 0, 0), (p: Position) => ProbeDark(p, 0, 0))
    requires Repainted(g1, g2, n, (p: Position) => InProbe(p, n - 7, 0), (p: Position) => ProbeDark(p, n - 7, 0))
    requires Repainted(g2, g3, n, (p: Position) => InProbe(p, 0, n - 7), (p: Position) => ProbeDark(p, 0, n - 7))
    ensures forall p :: Within(p, n) ==> (At(g3, n, p).Set? <==> InFinder(p, n))
  {
    hide InProbe, ProbeDark;
  }

  lemma AdjustsSet(g: Grid, h: Grid, n: nat, pos: seq<nat>)
    requires n >= 21 && Square(g, n) && Square(h, n) && AdjustsDrawn(g, h, n, pos, |pos|, 0)
    ensures forall p :: Within(p, n) ==> (At(h, n, p).Set? <==> At(g, n, p).Set? || InSomeAdjust(p, pos, n))
  {
    hide AdjustAt, AdjustDark;
    forall p | Within(p, n) ensures At(h, n, p).Set? <==> At(g, n, p).Set? || InSomeAdjust(p, pos, n) {
      if i: nat, j: nat :| i < |pos| && j < |pos| && AdjustAt(p, pos, i, j, n) {
        assert Earlier(pos, i, j, |pos|, 0);
      }
    }
  }

  lemma FormatSet(g: Grid, h: Grid, n: nat, bits: nat, test: bool)
    requires n >= 21 && Square(g, n) && Square(h, n) && FormatDrawn(g, h, n, bits, test)
    ensures forall p :: Within(p, n) ==> (At(h, n, p).Set? <==> At(g, n, p).Set? || InFormat(p, n))
    ensures FormatShown(h, n, bits, test) && Outside(g, h, n, (p: Position) => InFormat(p, n))
  {
    hide InFormat, VerticalFormats, HorizontalFormats, Drawn;
    FormatModules(n);
  }

  lemma VersionSet(g: Grid, h: Grid, n: nat, bits: nat, test: bool)
    requires n >= 21 && Square(g, n) && Square(h, n) && VersionDrawn(g, h, n, bits, test)
    ensures forall p :: Within(p, n) ==> (At(h, n, p).Set? <==> At(g, n, p).Set? || InVersion(p, n))
    ensures Outside(g, h, n, (p: Position) => InVersion(p, n)) && VersionShown(h, n, bits, test)
  {
    hide InVersion, UpperVersions, LowerVersions, Drawn;
    VersionModules(n);
  }

  lemma FrameComplete(g: Grid, version: nat)
    requires 1 <= version <= 40 && Square(g, Size(version))
    requires forall p :: Within(p, Size(version)) ==>
                           (At(g, Size(version), p).Set? <==>
                            || InFinder(p, Size(version)) || InSomeAdjust(p, PatternPosition(version), Size(version))
                            || OnTiming(p, Size(version)) || InFormat(p, Size(version))
                            || (version >= 7 && InVersion(p, Size(version))))
    ensures Framed(g, version)
  {
    hide InFinder, InSomeAdjust, OnTiming, InFormat, InVersion, PatternPosition;
  }

  /** The version word stays clear of the format word. */
  lemma FormatKept(g: Grid, h: Grid, n: nat, bits: nat, test: bool)
    requires n >= 21 && Square(g, n) && Square(h, n)
    requires FormatShown(g, n, bits, test) && Outside(g, h, n, (p: Position) => InVersion(p, n))
    ensures FormatShown(h, n, bits, test)
  {
    FormatModules(n);
    forall i | 0 <= i < 15
      ensures !InVersion(VerticalFormats(n)[i], n) && !InVersion(HorizontalFormats(n)[i], n)
      ensures Within(VerticalFormats(n)[i], n) && Within(HorizontalFormats(n)[i], n)
    {
    }
  }

  /** The message is placed along the whole path of the grid. */
  ghost predicate Placed(before: Grid, after: Grid, n: nat, data: seq<Byte>, maskPattern: nat) {
    && n > 0 && Square(before, n)
    && (PathWithin(n, n - 1, true);
        after == Fill(before, n, WholePath(n), AllBits(data), 0, MaskOf(maskPattern)))
  }

  class QrSymbol {
    var modules: Grid
    var moduleCount: nat

    ghost predicate Valid()
      reads this
    {
      Square(modules, moduleCount)
    }

    constructor ()
      ensures Valid() && moduleCount == 0
    {
      modules := [];
      moduleCount := 0;
    }

    method Write(row: nat, col: nat, dark: bool)
      requires Valid() && row < moduleCount && col < moduleCount
      modifies `modules
      ensures Valid() && modules == Put(old(modules), moduleCount, Position(row, col), Set(dark))
    {
      modules := modules[row := modules[row][col := Set(dark)]];
    }

    /** `setupPositionProbePattern`: a finder with its separator, clipped to the matrix. */
    method SetupPositionProbePattern(row: nat, col: nat)
      requires Valid()
      modifies `modules
      ensures Valid()
      ensures Repainted(old(modules), modules, moduleCount,
                        (p: Position) => InProbe(p, row, col), (p: Position) => ProbeDark(p, row, col))
    {
      hide Put, ProbeDark;
      for r := -1 to 8
        invariant Valid()
        invariant Repainted(old(modules), modules, moduleCount,
                            (p: Position) => InProbe(p, row, col) && p.row < row + r,
                            (p: Position) => ProbeDark(p, row, col))
      {
        if row + r <= -1 || moduleCount <= row + r { continue; }
        for c := -1 to 8
          invariant Valid()
          invariant Repainted(old(modules), modules, moduleCount,
                          (p: Position) =>
                            InProbe(p, row, col) && (p.row < row + r || (p.row == row + r && p.col < col + c)),
                          (p: Position) => ProbeDark(p, row, col))
        {
          if col + c <= -1 || moduleCount <= col + c { continue; }
          var dark := (0 <= r <= 6 && (c == 0 || c == 6)) || (0 <= c <= 6 && (r == 0 || r == 6)) ||
                      (2 <= r <= 4 && 2 <= c <= 4);
          assert dark == ProbeDark(Position(row + r, col + c), row, col) by { ProbeDarkAt(row, col, r, c); }
          Write(row + r, col + c, dark);
        }
      }
    }

    /** `setupTimingPattern`: fills the undecided modules of the timing lines. */
    method SetupTimingPattern()
      requires Valid() && moduleCount >= 21
      modifies `modules
      ensures Valid()
      ensures forall p :: Within(p, moduleCount) ==>
                            At(modules, moduleCount, p) ==
                            if OnTiming(p, moduleCount) && At(old(modules), moduleCount, p).Null?
                            then Set(TimingDark(p))
                            else At(old(modules), moduleCount, p)
    {
      hide Put;
      ghost var g := modules;
      ghost var n := moduleCount;
      for r := 8 to moduleCount - 8
        invariant Valid()
        invariant Repainted(g, modules, n,
                        (p: Position) => Within(p, n) && p.col == 6 && 8 <= p.row < r && At(g, n, p).Null?,
                        (p: Position) => TimingDark(p))
      {
        if modules[r][6] != Null { continue; }
        Write(r, 6, r % 2 == 0);
      }
      for c := 8 to moduleCount - 8
        invariant Valid()
        invariant Repainted(g, modules, n,
                        (p: Position) => Within(p, n) && At(g, n, p).Null? &&
                             ((p.col == 6 && 8 <= p.row < n - 8) || (p.row == 6 && 8 <= p.col < c)),
                        (p: Position) => TimingDark(p))
      {
        if modules[6][c] != Null { continue; }
        Write(6, c, c % 2 == 0);
      }
    }

    /** One alignment pattern. */
    method DrawAdjust(row: nat, col: nat)
      requires Valid() && 2 <= row && row + 2 < moduleCount && 2 <= col && col + 2 < moduleCount
      modifies `modules
      ensures Valid()
      ensures Repainted(old(modules), modules, moduleCount,
                        (p: Position) => InAdjust(p, row, col), (p: Position) => AdjustDark(p, row, col))
    {
      hide Put;
      for r := -2 to 3
        invariant Valid()
        invariant Repainted(old(modules), modules, moduleCount,
                            (p: Position) => InAdjust(p, row, col) && p.row < row + r,
                            (p: Position) => AdjustDark(p, row, col))
      {
        for c := -2 to 3
          invariant Valid()
          invariant Repainted(old(modules), modules, moduleCount,
                          (p: Position) =>
                            InAdjust(p, row, col) && (p.row < row + r || (p.row == row + r && p.col < col + c)),
                          (p: Position) => AdjustDark(p, row, col))
        {
          var dark := r == -2 || r == 2 || c == -2 || c == 2 || (r == 0 && c == 0);
          Write(row + r, col + c, dark);
        }
      }
    }

    /** `setupPositionAdjustPattern`, called when the finders are all that is drawn. */
    method SetupPositionAdjustPattern(version: nat)
      requires 1 <= version <= 40 && Valid() && moduleCount == Size(version)
      requires forall p :: Within(p, moduleCount) ==> (At(modules, moduleCount, p).Set? <==> InFinder(p, moduleCount))
      modifies `modules
      ensures Valid()
      ensures AdjustsDrawn(old(modules), modules, moduleCount, PatternPosition(version), |PatternPosition(version)|, 0)
    {
      hide Put, PatternPosition, AdjustsDrawn, AdjustDark, InAdjust, InFinder, WellSpaced, Repainted;
      ghost var g, n := modules, moduleCount;
      var pos := PatternPosition(version);
      NoneDrawn(g, n, pos);
      for i := 0 to |pos|
        invariant Valid() && AdjustsDrawn(g, modules, n, pos, i, 0)
      {
        for j := 0 to |pos|
          invariant Valid() && AdjustsDrawn(g, modules, n, pos, i, j)
        {
          var row, col := pos[i], pos[j];
          CentreUntouched(g, modules, n, pos, i, j);
          CentreInside(pos, n, i);
          CentreInside(pos, n, j);
          ghost var before := modules;
          if modules[row][col] != Null {
            CentreSkipped(g, modules, n, pos, i, j);
            continue;
          }
          DrawAdjust(row, col);
          CentreDrawn(g, before, modules, n, pos, i, j);
        }
        RowDrawn(g, modules, n, pos, i);
      }
    }

    /** `setupTypeInfo`: the masked format word, twice, and the dark module. */
    method SetupTypeInfo(level: Level, test: bool, maskPattern: nat) returns (ghost bits: nat)
      requires Valid() && moduleCount >= 21 && maskPattern < 8
      modifies `modules
      ensures Valid() && IsFormatWord(bits, level, maskPattern)
      ensures FormatDrawn(old(modules), modules, moduleCount, bits, test)
    {
      hide Put, Shr, JsBits.Xor, VerticalFormat, HorizontalFormat, InFormat, Pow2, WordAt, Outside, Bit,
           VerticalFormats, HorizontalFormats, AllWithin, NoRepeat;
      ghost var g, n := modules, moduleCount;
      var data := Or(Shl(LevelCode(level), 3), maskPattern);
      FormatData(level, maskPattern);
      var word := GetBCHTypeInfo(data);
      bits := word;
      FormatModules(n);
      ghost var vertical, horizontal := VerticalFormats(n), HorizontalFormats(n);
      ghost var region, bit := (p: Position) => InFormat(p, n), Drawn(word, test);
      NothingWritten(g, n, vertical, bit, region);
      NothingWritten(g, n, horizontal, bit, region);
      for i := 0 to 15
        invariant Valid() && Outside(g, modules, n, region)
        invariant WordAt(modules, n, vertical, i, bit)
      {
        var mod := !test && Bit(word, i);
        var p := VerticalFormat(i, moduleCount);
        ElementWithin(vertical, n, i);
        WriteNext(modules, n, vertical, i, bit);
        OutsidePut(g, modules, n, region, p, Set(mod));
        Write(p.row, p.col, mod);
      }
      NothingWritten(modules, n, horizontal, bit, region);
      for i := 0 to 15
        invariant Valid() && Outside(g, modules, n, region)
        invariant WordAt(modules, n, vertical, 15, bit) && WordAt(modules, n, horizontal, i, bit)
      {
        var mod := !test && Bit(word, i);
        var p := HorizontalFormat(i, moduleCount);
        ElementWithin(horizontal, n, i);
        WriteNext(modules, n, horizontal, i, bit);
        WriteElsewhere(modules, n, vertical, 15, bit, p, Set(mod));
        OutsidePut(g, modules, n, region, p, Set(mod));
        Write(p.row, p.col, mod);
      }
      ghost var f := FixedModule(n);
      WriteElsewhere(modules, n, vertical, 15, bit, f, Set(!test));
      WriteElsewhere(modules, n, horizontal, 15, bit, f, Set(!test));
      OutsidePut(g, modules, n, region, f, Set(!test));
      Write(moduleCount - 8, 8, !test);
    }

    /** `setupTypeNumber`: the version word, twice. */
    method SetupTypeNumber(version: nat, test: bool) returns (ghost bits: nat)
      requires Valid() && moduleCount >= 21 && version < 64
      modifies `modules
      ensures Valid() && IsVersionWord(bits, version)
      ensures VersionDrawn(old(modules), modules, moduleCount, bits, test)
    {
      hide Put, Shr, JsBits.Xor, UpperVersion, LowerVersion, InVersion, Pow2, WordAt, Outside, Bit,
           UpperVersions, LowerVersions, AllWithin, NoRepeat;
      ghost var g, n := modules, moduleCount;
      SixtyFour();
      var word := GetBCHTypeNumber(version);
      bits := word;
      VersionModules(n);
      ghost var upper, lower := UpperVersions(n), LowerVersions(n);
      ghost var region, bit := (p: Position) => InVersion(p, n), Drawn(word, test);
      NothingWritten(g, n, upper, bit, region);
      for i := 0 to 18
        invariant Valid() && Outside(g, modules, n, region)
        invariant WordAt(modules, n, upper, i, bit)
      {
        var mod := !test && Bit(word, i);
        var p := UpperVersion(i, moduleCount);
        ElementWithin(upper, n, i);
        WriteNext(modules, n, upper, i, bit);
        OutsidePut(g, modules, n, region, p, Set(mod));
        Write(p.row, p.col, mod);
      }
      NothingWritten(modules, n, lower, bit, region);
      for i := 0 to 18
        invariant Valid() && Outside(g, modules, n, region)
        invariant WordAt(modules, n, upper, 18, bit) && WordAt(modules, n, lower, i, bit)
      {
        var mod := !test && Bit(word, i);
        var p := LowerVersion(i, moduleCount);
        ElementWithin(lower, n, i);
        WriteNext(modules, n, lower, i, bit);
        WriteElsewhere(modules, n, upper, 18, bit, p, Set(mod));
        OutsidePut(g, modules, n, region, p, Set(mod));
        Write(p.row, p.col, mod);
      }
    }

    /** One step of the zigzag: the module is written if it is undecided. */
    method Place(p: Position, data: seq<Byte>, byteIndex: nat, bitIndex: nat, maskPattern: nat,
                 ghost rest: seq<Position>)
        returns (nextByte: nat, nextBit: nat)
      requires Valid() && Within(p, moduleCount) && bitIndex < 8 && AllWithin(rest, moduleCount)
      modifies `modules
      ensures Valid() && nextBit < 8
      ensures Fill(modules, moduleCount, rest, AllBits(data), 8 * nextByte + 7 - nextBit, MaskOf(maskPattern)) ==
              (FillNext(old(modules), moduleCount, p, rest, AllBits(data), 8 * byteIndex + 7 - bitIndex,
                MaskOf(maskPattern));
               Fill(old(modules), moduleCount, [p] + rest, AllBits(data), 8 * byteIndex + 7 - bitIndex,
                 MaskOf(maskPattern)))
    {
      hide AllBits, Fill, BitAt, Masked, Put;
      nextByte, nextBit := byteIndex, bitIndex;
      FillNext(modules, moduleCount, p, rest, AllBits(data), 8 * byteIndex + 7 - bitIndex, MaskOf(maskPattern));
      if modules[p.row][p.col] == Null {
        var dark := false;
        if byteIndex < |data| {
          dark := BitAt(data[byteIndex], 7 - bitIndex);
          AllBitsAt(data, byteIndex, 7 - bitIndex);
        }
        if Masked(maskPattern, p) {
          dark := !dark;
        }
        modules := Put(modules, moduleCount, p, Set(dark));
        if nextBit == 0 {
          nextByte := nextByte + 1;
          nextBit := 7;
        } else {
          nextBit := nextBit - 1;
        }
      }
    }

    /** The two modules of one row of a strip. */
    method PlaceRow(row: nat, col: nat, data: seq<Byte>, byteIndex: nat, bitIndex: nat, maskPattern: nat,
                    ghost rest: seq<Position>)
        returns (nextByte: nat, nextBit: nat)
      requires Valid() && row < moduleCount && 0 < col < moduleCount && bitIndex < 8 && AllWithin(rest, moduleCount)
      modifies `modules
      ensures Valid() && nextBit < 8
      ensures AllWithin([Position(row, col)] + ([Position(row, col - 1)] + rest), moduleCount)
      ensures Fill(modules, moduleCount, rest, AllBits(data), 8 * nextByte + 7 - nextBit, MaskOf(maskPattern)) ==
              Fill(old(modules), moduleCount, [Position(row, col)] + ([Position(row, col - 1)] + rest), AllBits(data),
                   8 * byteIndex + 7 - bitIndex, MaskOf(maskPattern))
    {
      hide AllBits, Fill, Masked, Put;
      nextByte, nextBit := byteIndex, bitIndex;
      ghost var left := [Position(row, col - 1)] + rest;
      for c := 0 to 2
        invariant Valid() && nextBit < 8
        invariant AllWithin(left, moduleCount)
        invariant c == 0 ==> modules == old(modules) && nextByte == byteIndex && nextBit == bitIndex
        invariant c == 1 ==>
                    Fill(modules, moduleCount, left, AllBits(data), 8 * nextByte + 7 - nextBit, MaskOf(maskPattern)) ==
                    Fill(old(modules), moduleCount, [Position(row, col)] + left, AllBits(data),
                         8 * byteIndex + 7 - bitIndex, MaskOf(maskPattern))
        invariant c == 2 ==>
                    Fill(modules, moduleCount, rest, AllBits(data), 8 * nextByte + 7 - nextBit, MaskOf(maskPattern)) ==
                    Fill(old(modules), moduleCount, [Position(row, col)] + left, AllBits(data),
                         8 * byteIndex + 7 - bitIndex, MaskOf(maskPattern))
      {
        nextByte, nextBit := Place(Position(row, col - c), data, nextByte, nextBit, maskPattern,
                                   if c == 0 then left else rest);
      }
    }

    /** `mapData` is the placement along the whole path. */
    method MapData(data: seq<Byte>, maskPattern: nat)
      requires Valid() && moduleCount > 0
      modifies `modules
      ensures Valid()
      ensures Placed(old(modules), modules, moduleCount, data, maskPattern)
    {
      hide AllBits, Fill, Masked, Put, Strip, Path, Ahead;
      ghost var n := moduleCount;
      PathWithin(n, n - 1, true);
      ghost var target := Fill(modules, n, WholePath(n), AllBits(data), 0, MaskOf(maskPattern));
      var inc := -1;
      var row: int := moduleCount - 1;
      var bitIndex, byteIndex := 7, 0;
      var col: int := moduleCount - 1;
      while col > 0
        invariant Valid() && -1 <= col < n && 0 <= bitIndex < 8 && byteIndex >= 0
        invariant (inc == -1 && row == n - 1) || (inc == 1 && row == 0)
        invariant AllWithin(Path(n, col, inc == -1), n)
        invariant Fill(modules, n, Path(n, col, inc == -1), AllBits(data), 8 * byteIndex + 7 - bitIndex,
                  MaskOf(maskPattern)) == target
        decreases col
      {
        PathNext(n, col, inc == -1);
        if col == 6 { col := col - 1; }
        ghost var up := inc == -1;
        while true
          invariant Valid() && 0 < col < n && 0 <= row < n && 0 <= bitIndex < 8 && byteIndex >= 0
          invariant (inc == -1 && up) || (inc == 1 && !up)
          invariant AllWithin(Ahead(n, row, up, col), n)
          invariant Fill(modules, n, Ahead(n, row, up, col), AllBits(data), 8 * byteIndex + 7 - bitIndex,
                    MaskOf(maskPattern)) == target
          decreases if up then row else n - row
        {
          AheadNext(n, row, up, col);
          ghost var last := if up then row == 0 else row == n - 1;
          PathWithin(n, col - 2, !up);
          if !last { AheadWithin(n, if up then row - 1 else row + 1, up, col); }
          byteIndex, bitIndex := PlaceRow(row, col, data, byteIndex, bitIndex, maskPattern,
            if last then Path(n, col - 2, !up) else Ahead(n, if up then row - 1 else row + 1, up, col));
          row := row + inc;
          if row < 0 || moduleCount <= row {
            row := row - inc;
            inc := -inc;
            break;
          }
        }
        col := col - 2;
      }
      PathNext(n, col, inc == -1);
      FillNothing(modules, n, AllBits(data), 8 * byteIndex + 7 - bitIndex, MaskOf(maskPattern));
    }

    /** The function patterns alone. */
    method DrawFrame(version: nat, level: Level, test: bool, maskPattern: nat)
      returns (ghost bits: nat, ghost word: nat)
      requires 1 <= version <= 40 && maskPattern < 8
      modifies this
      ensures Valid() && moduleCount == Size(version)
      ensures Framed(modules, version)
      ensures IsFormatWord(bits, level, maskPattern) && FormatShown(modules, moduleCount, bits, test)
      ensures PatternsShown(modules, version)
      ensures version >= 7 ==> IsVersionWord(word, version) && VersionShown(modules, moduleCount, word, test)
    {
      hide FindersShown, AdjustsShown, TimingShown, PatternsShown, VersionShown, Reserved, InSomeAdjust, InFinder,
           InProbe, InFormat, InVersion, OnTiming, ProbeDark, TimingDark, AdjustDark,
           AdjustsDrawn, PatternPosition, FormatDrawn, VersionDrawn, IsFormatWord, IsVersionWord, WordAt, FormatShown;
      moduleCount := version * 4 + 17;
      var n := moduleCount;
      modules := seq(n, _ => seq(n, _ => Null));
      ghost var g0 := modules;
      SetupPositionProbePattern(0, 0);
      ghost var g1 := modules;
      SetupPositionProbePattern(n - 7, 0);
      ghost var g2 := modules;
      SetupPositionProbePattern(0, n - 7);
      FindersSet(g0, g1, g2, modules, n);
      FindersDrawn(g0, g1, g2, modules, n);
      ghost var g3 := modules;
      SetupPositionAdjustPattern(version);
      AdjustsSet(g3, modules, n, PatternPosition(version));
      CentresOf(version);
      AdjustsDone(g3, modules, n, PatternPosition(version));
      ghost var g4 := modules;
      SetupTimingPattern();
      ghost var g5 := modules;
      TimingDone(g4, g5, n, PatternPosition(version));
      PatternsDone(g5, version);
      bits := SetupTypeInfo(level, test, maskPattern);
      FormatSet(g5, modules, n, bits, test);
      KeptOutside(g5, modules, version, (p: Position) => InFormat(p, n));
      word := 0;
      if version >= 7 {
        ghost var g6 := modules;
        word := SetupTypeNumber(version, test);
        VersionSet(g6, modules, n, word, test);
        KeptOutside(g6, modules, version, (p: Position) => InVersion(p, n));
        FormatKept(g6, modules, n, bits, test);
      }
      FrameComplete(modules, version);
    }

    /** `makeImpl`: the frame, then the message along the path. */
    method MakeImpl(version: nat, level: Level, test: bool, maskPattern: nat, data: seq<Byte>)
        returns (ghost frame: Grid, ghost bits: nat, ghost word: nat)
      requires 1 <= version <= 40 && maskPattern < 8
      modifies this
      ensures Valid() && moduleCount == Size(version)
      ensures Square(frame, moduleCount) && Framed(frame, version)
      ensures IsFormatWord(bits, level, maskPattern) && FormatShown(frame, moduleCount, bits, test)
      ensures PatternsShown(frame, version)
      ensures version >= 7 ==> IsVersionWord(word, version) && VersionShown(frame, moduleCount, word, test)
      ensures Placed(frame, modules, moduleCount, data, maskPattern)
    {
      hide Framed, IsFormatWord, FormatShown, Placed, PatternsShown, IsVersionWord, VersionShown;
      bits, word := DrawFrame(version, level, test, maskPattern);
      frame := modules;
      MapData(data, maskPattern);
    }
  }

  lemma ProbeDarkAt(row: nat, col: nat, r: int, c: int)
    requires row + r >= 0 && col + c >= 0
    ensures ProbeDark(Position(row + r, col + c), row, col) ==
            ((0 <= r <= 6 && (c == 0 || c == 6)) || (0 <= c <= 6 && (r == 0 || r == 6)) ||
             (2 <= r <= 4 && 2 <= c <= 4))
  {
  }

  lemma FillNothing(g: Grid, n: nat, bits: seq<bool>, pos: nat, mask: MaskFunction)
    requires Square(g, n)
    ensures Fill(g, n, [], bits, pos, mask) == g
  {
  }
}
