/** Where the function patterns of a symbol lie (section 6.3 and Annex E of
    ISO/IEC 18004:2015). */
module FunctionPatterns {
  import opened Zigzag

  /** The number of modules per side. */
  function Size(version: nat): nat {
    version * 4 + 17
  }

  // --- The table of alignment centres ---

  /** Centres start on the timing pattern, keep their distance, and end seven modules before
      the edge. */
  ghost predicate WellSpaced(pos: seq<nat>, n: nat) {
    && |pos| >= 2 && pos[0] == 6 && pos[|pos| - 1] + 7 == n
    && forall i, j :: 0 <= i < j < |pos| ==> pos[i] + 12 <= pos[j]
  }

  /** The distance of the inner centres, a multiple of two. */
  function Pitch(version: nat): nat {
    var m := version / 7 + 2;
    if version == 32 then 26 else (8 * version + 3 * m + 5) / (4 * m - 4) * 2
  }

  /** All centres but the first are evenly spaced from the last one backwards. */
  predicate Even(pos: seq<nat>, version: nat) {
    forall i :: 1 <= i < |pos| - 1 ==> pos[i] + Pitch(version) == pos[i + 1]
  }

  function TwoCentres(version: nat, b: nat): (pos: seq<nat>)
    requires 18 <= b && b + 7 == Size(version) && version / 7 + 2 == 2
    ensures WellSpaced(pos, Size(version)) && Even(pos, version) && |pos| == version / 7 + 2
  {
    [6, b]
  }

  function ThreeCentres(version: nat, b: nat, c: nat): (pos: seq<nat>)
    requires 18 <= b && b + 12 <= c && c + 7 == Size(version) && version / 7 + 2 == 3
    requires b + Pitch(version) == c
    ensures WellSpaced(pos, Size(version)) && Even(pos, version) && |pos| == version / 7 + 2
  {
    [6, b, c]
  }

  function FourCentres(version: nat, b: nat, c: nat, d: nat): (pos: seq<nat>)
    requires 18 <= b && b + 12 <= c && c + 12 <= d && d + 7 == Size(version) && version / 7 + 2 == 4
    requires b + Pitch(version) == c && c + Pitch(version) == d
    ensures WellSpaced(pos, Size(version)) && Even(pos, version) && |pos| == version / 7 + 2
  {
    [6, b, c, d]
  }

  function FiveCentres(version: nat, b: nat, c: nat, d: nat, e: nat): (pos: seq<nat>)
    requires 18 <= b && b + 12 <= c && c + 12 <= d && d + 12 <= e && e + 7 == Size(version) && version / 7 + 2 == 5
    requires b + Pitch(version) == c && c + Pitch(version) == d && d + Pitch(version) == e
    ensures WellSpaced(pos, Size(version)) && Even(pos, version) && |pos| == version / 7 + 2
  {
    [6, b, c, d, e]
  }

  function SixCentres(version: nat, b: nat, c: nat, d: nat, e: nat, f: nat): (pos: seq<nat>)
    requires 18 <= b && b + 12 <= c && c + 12 <= d && d + 12 <= e && e + 12 <= f && f + 7 == Size(version) &&
             version / 7 + 2 == 6
    requires b + Pitch(version) == c && c + Pitch(version) == d && d + Pitch(version) == e && e + Pitch(version) == f
    ensures WellSpaced(pos, Size(version)) && Even(pos, version) && |pos| == version / 7 + 2
  {
    [6, b, c, d, e, f]
  }

  function SevenCentres(version: nat, b: nat, c: nat, d: nat, e: nat, f: nat, g: nat): (pos: seq<nat>)
    requires 18 <= b && b + 12 <= c && c + 12 <= d && d + 12 <= e && e + 12 <= f && f + 12 <= g &&
             g + 7 == Size(version) && version / 7 + 2 == 7
    requires b + Pitch(version) == c && c + Pitch(version) == d && d + Pitch(version) == e
    requires e + Pitch(version) == f && f + Pitch(version) == g
    ensures WellSpaced(pos, Size(version)) && Even(pos, version) && |pos| == version / 7 + 2
  {
    [6, b, c, d, e, f, g]
  }

  function Positions2To8(version: nat): (pos: seq<nat>)
    requires 2 <= version <= 8
    ensures WellSpaced(pos, Size(version)) && Even(pos, version) && |pos| == version / 7 + 2
  {
    hide WellSpaced, Even;
    match version
    case 2 => TwoCentres(2, 18)
    case 3 => TwoCentres(3, 22)
    case 4 => TwoCentres(4, 26)
    case 5 => TwoCentres(5, 30)
    case 6 => TwoCentres(6, 34)
    case 7 => ThreeCentres(7, 22, 38)
    case _ => ThreeCentres(8, 24, 42)
  }

  function Positions9To14(version: nat): (pos: seq<nat>)
    requires 9 <= version <= 14
    ensures WellSpaced(pos, Size(version)) && Even(pos, version) && |pos| == version / 7 + 2
  {
    hide WellSpaced, Even;
    match version
    case 9 => ThreeCentres(9, 26, 46)
    case 10 => ThreeCentres(10, 28, 50)
    case 11 => ThreeCentres(11, 30, 54)
    case 12 => ThreeCentres(12, 32, 58)
    case 13 => ThreeCentres(13, 34, 62)
    case _ => FourCentres(14, 26, 46, 66)
  }

  function Positions15To20(version: nat): (pos: seq<nat>)
    requires 15 <= version <= 20
    ensures WellSpaced(pos, Size(version)) && Even(pos, version) && |pos| == version / 7 + 2
  {
    hide WellSpaced, Even;
    match version
    case 15 => FourCentres(15, 26, 48, 70)
    case 16 => FourCentres(16, 26, 50, 74)
    case 17 => FourCentres(17, 30, 54, 78)
    case 18 => FourCentres(18, 30, 56, 82)
    case 19 => FourCentres(19, 30, 58, 86)
    case _ => FourCentres(20, 34, 62, 90)
  }

  function Positions21To27(version: nat): (pos: seq<nat>)
    requires 21 <= version <= 27
    ensures WellSpaced(pos, Size(version)) && Even(pos, version) && |pos| == version / 7 + 2
  {
    hide WellSpaced, Even;
    match version
    case 21 => FiveCentres(21, 28, 50, 72, 94)
    case 22 => FiveCentres(22, 26, 50, 74, 98)
    case 23 => FiveCentres(23, 30, 54, 78, 102)
    case 24 => FiveCentres(24, 28, 54, 80, 106)
    case 25 => FiveCentres(25, 32, 58, 84, 110)
    case 26 => FiveCentres(26, 30, 58, 86, 114)
    case _ => FiveCentres(27, 34, 62, 90, 118)
  }

  function Positions28To34(version: nat): (pos: seq<nat>)
    requires 28 <= version <= 34
    ensures WellSpaced(pos, Size(version)) && Even(pos, version) && |pos| == version / 7 + 2
  {
    hide WellSpaced, Even;
    match version
    case 28 => SixCentres(28, 26, 50, 74, 98, 122)
    case 29 => SixCentres(29, 30, 54, 78, 102, 126)
    case 30 => SixCentres(30, 26, 52, 78, 104, 130)
    case 31 => SixCentres(31, 30, 56, 82, 108, 134)
    case 32 => SixCentres(32, 34, 60, 86, 112, 138)
    case 33 => SixCentres(33, 30, 58, 86, 114, 142)
    case _ => SixCentres(34, 34, 62, 90, 118, 146)
  }

  function Positions35To40(version: nat): (pos: seq<nat>)
    requires 35 <= version <= 40
    ensures WellSpaced(pos, Size(version)) && Even(pos, version) && |pos| == version / 7 + 2
  {
    hide WellSpaced, Even;
    match version
    case 35 => SevenCentres(35, 30, 54, 78, 102, 126, 150)
    case 36 => SevenCentres(36, 24, 50, 76, 102, 128, 154)
    case 37 => SevenCentres(37, 28, 54, 80, 106, 132, 158)
    case 38 => SevenCentres(38, 32, 58, 84, 110, 136, 162)
    case 39 => SevenCentres(39, 26, 54, 82, 110, 138, 166)
    case _ => SevenCentres(40, 30, 58, 86, 114, 142, 170)
  }

  /** `getPatternPosition` */
  function PatternPosition(version: nat): (pos: seq<nat>)
    requires 1 <= version <= 40
    ensures version == 1 ==> pos == []
    ensures version > 1 ==> WellSpaced(pos, Size(version)) && Even(pos, version) && |pos| == version / 7 + 2
  {
    hide *;
    if version == 1 then []
    else if version <= 8 then Positions2To8(version)
    else if version <= 14 then Positions9To14(version)
    else if version <= 20 then Positions15To20(version)
    else if version <= 27 then Positions21To27(version)
    else if version <= 34 then Positions28To34(version)
    else Positions35To40(version)
  }

  // --- Regions ---

  /** The area `setupPositionProbePattern(row, col)` writes: the finder and its separator. */
  predicate InProbe(p: Position, row: nat, col: nat) {
    row <= p.row + 1 && p.row <= row + 7 && col <= p.col + 1 && p.col <= col + 7
  }

  predicate ProbeDark(p: Position, row: nat, col: nat) {
    var r, c := p.row - row, p.col - col;
    (0 <= r <= 6 && (c == 0 || c == 6)) || (0 <= c <= 6 && (r == 0 || r == 6)) || (2 <= r <= 4 && 2 <= c <= 4)
  }

  predicate InFinder(p: Position, n: nat)
    requires n >= 21
  {
    InProbe(p, 0, 0) || InProbe(p, n - 7, 0) || InProbe(p, 0, n - 7)
  }

  predicate OnTiming(p: Position, n: nat) {
    (p.col == 6 && 8 <= p.row < n - 8) || (p.row == 6 && 8 <= p.col < n - 8)
  }

  predicate TimingDark(p: Position) {
    (if p.col == 6 then p.row else p.col) % 2 == 0
  }

  predicate InAdjust(p: Position, row: nat, col: nat) {
    row <= p.row + 2 && p.row <= row + 2 && col <= p.col + 2 && p.col <= col + 2
  }

  predicate AdjustDark(p: Position, row: nat, col: nat) {
    var r, c := p.row - row, p.col - col;
    r == -2 || r == 2 || c == -2 || c == 2 || (r == 0 && c == 0)
  }

  /** p belongs to the alignment pattern around centre (i, j), which is left out when it would
      touch a finder. */
  predicate AdjustAt(p: Position, pos: seq<nat>, i: nat, j: nat, n: nat)
    requires i < |pos| && j < |pos| && n >= 21
  {
    !InFinder(Position(pos[i], pos[j]), n) && InAdjust(p, pos[i], pos[j])
  }

  /** The centre (k, l) is drawn before the centre (i, j). */
  predicate Earlier(pos: seq<nat>, k: nat, l: nat, i: nat, j: nat) {
    k < |pos| && l < |pos| && (k < i || (k == i && l < j))
  }

  predicate InSomeAdjust(p: Position, pos: seq<nat>, n: nat)
    requires n >= 21
  {
    exists i, j :: 0 <= i < |pos| && 0 <= j < |pos| && AdjustAt(p, pos, i, j, n)
  }

  /** The modules of `setupTypeInfo`. */
  predicate InFormat(p: Position, n: nat) {
    || (p.col == 8 && ((p.row <= 8 && p.row != 6) || n - 8 <= p.row))
    || (p.row == 8 && ((p.col <= 8 && p.col != 6) || n - 8 <= p.col))
  }

  /** The modules of `setupTypeNumber`. */
  predicate InVersion(p: Position, n: nat) {
    (p.row < 6 && n - 11 <= p.col < n - 8) || (p.col < 6 && n - 11 <= p.row < n - 8)
  }

  /** Every module that does not carry the message. */
  predicate Reserved(version: nat, p: Position)
    requires 1 <= version <= 40
  {
    var n := Size(version);
    || InFinder(p, n) || OnTiming(p, n) || InSomeAdjust(p, PatternPosition(version), n)
    || InFormat(p, n) || (version >= 7 && InVersion(p, n))
  }

  /** The timing column is reserved from top to bottom. */
  lemma ColumnSixReserved(version: nat, row: nat)
    requires 1 <= version <= 40 && row < Size(version)
    ensures Reserved(version, Position(row, 6))
  {
    hide PatternPosition, InSomeAdjust;
  }

  lemma CentreInside(pos: seq<nat>, n: nat, i: nat)
    requires WellSpaced(pos, n) && i < |pos|
    ensures 6 <= pos[i] && pos[i] + 7 <= n
  {
  }

  /** What a grid shows after a drawing: `drawn` where `region` holds, the old grid elsewhere. */
  ghost predicate Repainted(before: Grid, after: Grid, n: nat, region: Position -> bool, drawn: Position -> bool)
    requires Square(before, n) && Square(after, n)
  {
    forall p :: Within(p, n) ==> At(after, n, p) == if region(p) then Set(drawn(p)) else At(before, n, p)
  }

  /** Two different centres have disjoint patterns. */
  lemma CentresApart(p: Position, pos: seq<nat>, n: nat, i: nat, j: nat, k: nat, l: nat)
    requires WellSpaced(pos, n) && i < |pos| && j < |pos| && k < |pos| && l < |pos|
    requires InAdjust(p, pos[i], pos[j]) && InAdjust(p, pos[k], pos[l])
    ensures i == k && j == l
  {
  }

  // --- The alignment patterns, centre after centre ---

  /** The patterns around the centres before (i, j) are drawn, and nothing else. */
  ghost predicate AdjustsDrawn(before: Grid, after: Grid, n: nat, pos: seq<nat>, i: nat, j: nat)
    requires n >= 21 && Square(before, n) && Square(after, n)
  {
    forall p :: Within(p, n) ==>
                  && (forall k: nat, l: nat :: Earlier(pos, k, l, i, j) && AdjustAt(p, pos, k, l, n) ==>
                        At(after, n, p) == Set(AdjustDark(p, pos[k], pos[l])))
                  && ((forall k: nat, l: nat :: Earlier(pos, k, l, i, j) ==> !AdjustAt(p, pos, k, l, n)) ==>
                        At(after, n, p) == At(before, n, p))
  }

  lemma NoneDrawn(g: Grid, n: nat, pos: seq<nat>)
    requires n >= 21 && Square(g, n)
    ensures AdjustsDrawn(g, g, n, pos, 0, 0)
  {
  }

  lemma RowDrawn(before: Grid, after: Grid, n: nat, pos: seq<nat>, i: nat)
    requires n >= 21 && Square(before, n) && Square(after, n) && i < |pos|
    requires AdjustsDrawn(before, after, n, pos, i, |pos|)
    ensures AdjustsDrawn(before, after, n, pos, i + 1, 0)
  {
    hide AdjustAt, AdjustDark;
    forall k: nat, l: nat ensures Earlier(pos, k, l, i, |pos|) <==> Earlier(pos, k, l, i + 1, 0) {
    }
  }

  /** No earlier pattern covers a centre: it is as it was at the start. */
  lemma CentreUntouched(before: Grid, after: Grid, n: nat, pos: seq<nat>, i: nat, j: nat)
    requires n >= 21 && Square(before, n) && Square(after, n)
    requires WellSpaced(pos, n) && i < |pos| && j < |pos|
    requires AdjustsDrawn(before, after, n, pos, i, j)
    ensures Within(Position(pos[i], pos[j]), n)
    ensures At(after, n, Position(pos[i], pos[j])) == At(before, n, Position(pos[i], pos[j]))
  {
    hide WellSpaced, AdjustDark, InFinder;
    var c := Position(pos[i], pos[j]);
    CentreInside(pos, n, i);
    CentreInside(pos, n, j);
    forall k: nat, l: nat | Earlier(pos, k, l, i, j) ensures !AdjustAt(c, pos, k, l, n) {
      if InAdjust(c, pos[k], pos[l]) { CentresApart(c, pos, n, i, j, k, l); }
    }
  }

  lemma CentreSkipped(before: Grid, after: Grid, n: nat, pos: seq<nat>, i: nat, j: nat)
    requires n >= 21 && Square(before, n) && Square(after, n) && i < |pos| && j < |pos|
    requires AdjustsDrawn(before, after, n, pos, i, j)
    requires InFinder(Position(pos[i], pos[j]), n)
    ensures AdjustsDrawn(before, after, n, pos, i, j + 1)
  {
    hide AdjustDark, InFinder, InAdjust;
    forall p, k: nat, l: nat | Earlier(pos, k, l, i, j + 1) && AdjustAt(p, pos, k, l, n)
      ensures Earlier(pos, k, l, i, j)
    {
    }
  }

  lemma CentreDrawn(before: Grid, middle: Grid, after: Grid, n: nat, pos: seq<nat>, i: nat, j: nat)
    requires n >= 21 && Square(before, n) && Square(middle, n) && Square(after, n)
    requires WellSpaced(pos, n) && i < |pos| && j < |pos|
    requires AdjustsDrawn(before, middle, n, pos, i, j)
    requires !InFinder(Position(pos[i], pos[j]), n)
    requires Repainted(middle, after, n, (p: Position) => InAdjust(p, pos[i], pos[j]),
                       (p: Position) => AdjustDark(p, pos[i], pos[j]))
    ensures AdjustsDrawn(before, after, n, pos, i, j + 1)
  {
    hide AdjustDark, InFinder, InAdjust, WellSpaced;
    forall p | Within(p, n)
      ensures forall k: nat, l: nat :: Earlier(pos, k, l, i, j + 1) && AdjustAt(p, pos, k, l, n) ==>
                At(after, n, p) == Set(AdjustDark(p, pos[k], pos[l]))
    {
      forall k: nat, l: nat | Earlier(pos, k, l, i, j + 1) && AdjustAt(p, pos, k, l, n)
        ensures At(after, n, p) == Set(AdjustDark(p, pos[k], pos[l]))
      {
        if InAdjust(p, pos[i], pos[j]) { CentresApart(p, pos, n, i, j, k, l); }
      }
    }
    forall p | Within(p, n) && (forall k: nat, l: nat :: Earlier(pos, k, l, i, j + 1) ==> !AdjustAt(p, pos, k, l, n))
      ensures At(after, n, p) == At(before, n, p)
    {
      assert Earlier(pos, i, j, i, j + 1);
      assert !AdjustAt(p, pos, i, j, n);
    }
  }

  // --- Format and version words ---

  /** Where `setupTypeInfo` puts bit i beside the left finders. */
  function VerticalFormat(i: nat, n: nat): Position
    requires i < 15 && n >= 21
  {
    if i < 6 then Position(i, 8) else if i < 8 then Position(i + 1, 8) else Position(n - 15 + i, 8)
  }

  /** Where it puts bit i below the upper finders. */
  function HorizontalFormat(i: nat, n: nat): Position
    requires i < 15 && n >= 21
  {
    if i < 8 then Position(8, n - i - 1) else if i < 9 then Position(8, 15 - i) else Position(8, 14 - i)
  }

  /** Where `setupTypeNumber` puts bit i of the version word, and its mirror image. */
  function UpperVersion(i: nat, n: nat): Position
    requires i < 18 && n >= 21
  {
    Position(i / 3, i % 3 + n - 8 - 3)
  }

  function LowerVersion(i: nat, n: nat): Position
    requires i < 18 && n >= 21
  {
    Position(i % 3 + n - 8 - 3, i / 3)
  }

  function VerticalFormats(n: nat): (ps: seq<Position>)
    requires n >= 21
    ensures |ps| == 15 && forall i :: 0 <= i < 15 ==> ps[i] == VerticalFormat(i, n)
  {
    seq(15, i requires 0 <= i < 15 => VerticalFormat(i, n))
  }

  function HorizontalFormats(n: nat): (ps: seq<Position>)
    requires n >= 21
    ensures |ps| == 15 && forall i :: 0 <= i < 15 ==> ps[i] == HorizontalFormat(i, n)
  {
    seq(15, i requires 0 <= i < 15 => HorizontalFormat(i, n))
  }

  function UpperVersions(n: nat): (ps: seq<Position>)
    requires n >= 21
    ensures |ps| == 18 && forall i :: 0 <= i < 18 ==> ps[i] == UpperVersion(i, n)
  {
    seq(18, i requires 0 <= i < 18 => UpperVersion(i, n))
  }

  function LowerVersions(n: nat): (ps: seq<Position>)
    requires n >= 21
    ensures |ps| == 18 && forall i :: 0 <= i < 18 ==> ps[i] == LowerVersion(i, n)
  {
    seq(18, i requires 0 <= i < 18 => LowerVersion(i, n))
  }

  function FixedModule(n: nat): Position
    requires n >= 21
  {
    Position(n - 8, 8)
  }

  /** The format modules are the two words and the dark module, all distinct. */
  lemma FormatModules(n: nat)
    requires n >= 21
    ensures AllWithin(VerticalFormats(n), n) && AllWithin(HorizontalFormats(n), n) && Within(FixedModule(n), n)
    ensures NoRepeat(VerticalFormats(n)) && NoRepeat(HorizontalFormats(n))
    ensures forall p :: p in VerticalFormats(n) ==> p !in HorizontalFormats(n)
    ensures FixedModule(n) !in VerticalFormats(n) && FixedModule(n) !in HorizontalFormats(n)
    ensures forall p :: Within(p, n) ==>
                          (InFormat(p, n) <==>
                           p == FixedModule(n) || p in VerticalFormats(n) || p in HorizontalFormats(n))
  {
    forall p | Within(p, n) && InFormat(p, n) && p != FixedModule(n)
      ensures p in VerticalFormats(n) || p in HorizontalFormats(n)
    {
      if p.col == 8 {
        var i := if p.row < 6 then p.row else if p.row <= 8 then p.row - 1 else p.row + 15 - n;
        assert p == VerticalFormats(n)[i];
      } else {
        var i := if p.col >= n - 8 then n - 1 - p.col else if p.col == 7 then 8 else 14 - p.col;
        assert p == HorizontalFormats(n)[i];
      }
    }
  }

  /** The version modules are the two words, all distinct. */
  lemma VersionModules(n: nat)
    requires n >= 21
    ensures AllWithin(UpperVersions(n), n) && AllWithin(LowerVersions(n), n)
    ensures NoRepeat(UpperVersions(n)) && NoRepeat(LowerVersions(n))
    ensures forall p :: p in UpperVersions(n) ==> p !in LowerVersions(n)
    ensures forall p :: Within(p, n) ==> (InVersion(p, n) <==> p in UpperVersions(n) || p in LowerVersions(n))
  {
    hide UpperVersions, LowerVersions;
    forall p ensures p in UpperVersions(n) <==> p.row < 6 && n - 11 <= p.col < n - 8 { UpperVersionIs(n, p); }
    forall p ensures p in LowerVersions(n) <==> p.col < 6 && n - 11 <= p.row < n - 8 { LowerVersionIs(n, p); }
    VersionsDistinct(n);
  }

  lemma UpperVersionIs(n: nat, p: Position)
    requires n >= 21
    ensures p in UpperVersions(n) <==> p.row < 6 && n - 11 <= p.col < n - 8
  {
    if p.row < 6 && n - 11 <= p.col < n - 8 {
      assert p == UpperVersions(n)[3 * p.row + (p.col - (n - 11))];
    }
  }

  lemma LowerVersionIs(n: nat, p: Position)
    requires n >= 21
    ensures p in LowerVersions(n) <==> p.col < 6 && n - 11 <= p.row < n - 8
  {
    if p.col < 6 && n - 11 <= p.row < n - 8 {
      assert p == LowerVersions(n)[3 * p.col + (p.row - (n - 11))];
    }
  }

  lemma VersionsDistinct(n: nat)
    requires n >= 21
    ensures NoRepeat(UpperVersions(n)) && NoRepeat(LowerVersions(n))
  {
  }

  // --- Writing a word module by module ---

  /** The first count modules of ps show the given bits. */
  ghost predicate WordAt(g: Grid, n: nat, ps: seq<Position>, count: nat, bit: int -> bool)
    requires Square(g, n) && AllWithin(ps, n)
  {
    forall k :: 0 <= k < count && k < |ps| ==> At(g, n, ps[k]) == Set(bit(k))
  }

  lemma WriteNext(g: Grid, n: nat, ps: seq<Position>, i: nat, bit: int -> bool)
    requires Square(g, n) && AllWithin(ps, n) && NoRepeat(ps) && i < |ps| && WordAt(g, n, ps, i, bit)
    ensures WordAt(Put(g, n, ps[i], Set(bit(i))), n, ps, i + 1, bit)
  {
    hide Put;
  }

  lemma WriteElsewhere(g: Grid, n: nat, ps: seq<Position>, count: nat, bit: int -> bool, p: Position, m: Module)
    requires Square(g, n) && AllWithin(ps, n) && WordAt(g, n, ps, count, bit) && Within(p, n) && p !in ps
    ensures WordAt(Put(g, n, p, m), n, ps, count, bit)
  {
    hide Put;
  }

  /** Only modules of the region changed. */
  ghost predicate Outside(before: Grid, after: Grid, n: nat, region: Position -> bool)
    requires Square(before, n) && Square(after, n)
  {
    forall p :: Within(p, n) && !region(p) ==> At(after, n, p) == At(before, n, p)
  }

  lemma OutsidePut(before: Grid, after: Grid, n: nat, region: Position -> bool, p: Position, m: Module)
    requires Square(before, n) && Square(after, n) && Outside(before, after, n, region) && Within(p, n) && region(p)
    ensures Outside(before, Put(after, n, p, m), n, region)
  {
    hide Put;
  }
}
