/** The order of the modules as a reader counts it off: strip by strip of two columns from the right,
    upwards and downwards in turn, the timing column left out (section 7.7.3 of ISO/IEC 18004:2015). */
module PathOrder {
  import opened Zigzag
  import opened FunctionPatterns

  /** The right column of strip s. */
  function RightColumn(n: nat, s: nat): int {
    if n - 1 - 2 * s > 6 then n - 1 - 2 * s else n - 2 - 2 * s
  }

  /** Module t of strip s: right and left in turn, a row after two of them. */
  function Spot(n: nat, s: nat, t: nat): Position
    requires RightColumn(n, s) > 0 && t < 2 * n
  {
    Position(if s % 2 == 0 then n - 1 - t / 2 else t / 2, RightColumn(n, s) - t % 2)
  }

  /** The strips from s on. */
  function Strips(n: nat, s: nat): (ps: seq<Position>)
    requires n % 2 == 1 && n >= 9
    ensures forall i :: 0 <= i < |ps| ==> Within(ps[i], n)
    decreases n - 2 * s
  {
    if 2 * s >= n - 1 then []
    else seq(2 * n, t requires 0 <= t < 2 * n => Spot(n, s, t)) + Strips(n, s + 1)
  }

  // --- The path of the placement is the same ---

  lemma {:induction false} StripAt(n: nat, row: nat, up: bool, col: nat)
    requires row < n && col > 0
    ensures |Strip(n, row, up, col)| == 2 * (if up then row + 1 else n - row)
    ensures forall t :: 0 <= t < |Strip(n, row, up, col)| ==>
              Strip(n, row, up, col)[t] == Position(if up then row - t / 2 else row + t / 2, col - t % 2)
    decreases if up then row else n - row
  {
    var ps := Strip(n, row, up, col);
    if if up then row == 0 else row == n - 1 {
      assert ps == [Position(row, col), Position(row, col - 1)];
    } else {
      var next := if up then row - 1 else row + 1;
      StripAt(n, next, up, col);
      var rest := Strip(n, next, up, col);
      assert ps == [Position(row, col), Position(row, col - 1)] + rest;
      forall t | 0 <= t < |ps| ensures ps[t] == Position(if up then row - t / 2 else row + t / 2, col - t % 2) {
        if t >= 2 { assert ps[t] == rest[t - 2]; }
      }
    }
  }

  /** The column that is passed on to strip s. */
  function Column(n: nat, s: nat): int {
    if n - 1 - 2 * s >= 6 then n - 1 - 2 * s else n - 2 - 2 * s
  }

  lemma {:induction false} PathIsStrips(n: nat, s: nat)
    requires n % 2 == 1 && n >= 9 && 2 * s <= n - 1
    ensures Path(n, Column(n, s), s % 2 == 0) == Strips(n, s)
    decreases n - 2 * s
  {
    hide Strip, Spot, RightColumn, Column;
    ColumnOf(n, s);
    if 2 * s == n - 1 {
    } else {
      PathIsStrips(n, s + 1);
      WholeStrip(n, s);
    }
  }

  lemma ColumnOf(n: nat, s: nat)
    requires n % 2 == 1 && n >= 9 && 2 * s <= n - 1
    ensures 2 * s == n - 1 ==> Column(n, s) <= 0
    ensures 2 * s < n - 1 ==>
      Column(n, s) > 0 && StripColumn(Column(n, s)) == RightColumn(n, s) && RightColumn(n, s) - 2 == Column(n, s + 1)
  {
  }

  lemma WholeStrip(n: nat, s: nat)
    requires n > 0 && RightColumn(n, s) > 0
    ensures Strip(n, if s % 2 == 0 then n - 1 else 0, s % 2 == 0, RightColumn(n, s))
         == seq(2 * n, t requires 0 <= t < 2 * n => Spot(n, s, t))
  {
    hide Strip, RightColumn;
    StripAt(n, if s % 2 == 0 then n - 1 else 0, s % 2 == 0, RightColumn(n, s));
  }

  /** So the placement goes over the modules in this order. */
  lemma PathIs(n: nat)
    requires n % 2 == 1 && n >= 9
    ensures WholePath(n) == Strips(n, 0)
  {
    hide Path;
    PathIsStrips(n, 0);
  }

  // --- The format word ---

  /** Both copies of the format word in the order of their bits: down the column beside the left
      finders, and leftwards along the row below the upper ones, the timing lines left out. */
  function FormatColumn(n: nat): (ps: seq<Position>)
    requires n >= 21
    ensures forall i :: 0 <= i < |ps| ==> Within(ps[i], n)
  {
    [Position(0, 8), Position(1, 8), Position(2, 8), Position(3, 8), Position(4, 8), Position(5, 8), Position(7, 8),
     Position(8, 8), Position(n - 7, 8), Position(n - 6, 8), Position(n - 5, 8), Position(n - 4, 8),
     Position(n - 3, 8), Position(n - 2, 8), Position(n - 1, 8)]
  }

  function FormatRow(n: nat): seq<Position>
    requires n >= 21
  {
    [Position(8, n - 1), Position(8, n - 2), Position(8, n - 3), Position(8, n - 4), Position(8, n - 5),
     Position(8, n - 6), Position(8, n - 7), Position(8, n - 8), Position(8, 7), Position(8, 5), Position(8, 4),
     Position(8, 3), Position(8, 2), Position(8, 1), Position(8, 0)]
  }

  lemma FormatOrder(n: nat)
    requires n >= 21
    ensures VerticalFormats(n) == FormatColumn(n) && HorizontalFormats(n) == FormatRow(n)
  {
  }

  // --- The version word ---

  /** The version word row by row in three columns beside the upper right finder, and mirrored. */
  lemma VersionOrder(n: nat, i: nat, j: nat)
    requires n >= 21 && i < j < 18
    ensures var p, q := UpperVersions(n)[i], UpperVersions(n)[j]; p.row < q.row || (p.row == q.row && p.col < q.col)
    ensures LowerVersions(n)[i] == Position(UpperVersions(n)[i].col, UpperVersions(n)[i].row)
  {
  }

  // --- The colours of the patterns ---

  function Apart(a: int, b: int): nat { if a < b then b - a else a - b }

  /** How many squares p lies outside the centre. */
  function Ring(p: Position, row: int, col: int): nat {
    var r, c := Apart(p.row, row), Apart(p.col, col);
    if r < c then c else r
  }

  /** A finder is dark but for its second ring and the separator around it. */
  lemma FinderRings(p: Position, row: nat, col: nat)
    requires InProbe(p, row, col)
    ensures Ring(p, row + 3, col + 3) <= 4
    ensures ProbeDark(p, row, col) <==> Ring(p, row + 3, col + 3) in {0, 1, 3}
  {
  }

  /** An alignment pattern is dark but for its first ring. */
  lemma AlignmentRings(p: Position, row: nat, col: nat)
    ensures InAdjust(p, row, col) <==> Ring(p, row, col) <= 2
    ensures InAdjust(p, row, col) ==> (AdjustDark(p, row, col) <==> Ring(p, row, col) != 1)
  {
  }

  /** Timing modules are dark where row and column have the same parity. */
  lemma TimingParity(p: Position, n: nat)
    requires OnTiming(p, n)
    ensures TimingDark(p) <==> (p.row + p.col) % 2 == 0
  {
  }
}
