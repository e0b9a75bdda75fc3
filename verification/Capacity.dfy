/** The function patterns leave exactly as much room as the block table spends: a count of the
    free modules of every version (Table 1 of ISO/IEC 18004:2015). */
module Capacity {
  import opened Zigzag
  import opened FunctionPatterns
  import opened RsBlocks
  import opened SymbolPatterns

  // --- Counting ---

  /** The modules in the rows r0 to r1 and the columns c0 to c1, both upper bounds excluded. */
  ghost function Rect(r0: nat, r1: nat, c0: nat, c1: nat): set<Position> {
    set r: nat, c: nat | r0 <= r < r1 && c0 <= c < c1 :: Position(r, c)
  }

  lemma {:induction false} ColumnSize(r0: nat, r1: nat, c: nat)
    requires r0 <= r1
    ensures |Rect(r0, r1, c, c + 1)| == r1 - r0
    decreases r1
  {
    if r0 == r1 {
      assert Rect(r0, r1, c, c + 1) == {};
    } else {
      ColumnSize(r0, r1 - 1, c);
      assert Rect(r0, r1, c, c + 1) == Rect(r0, r1 - 1, c, c + 1) + {Position(r1 - 1, c)};
    }
  }

  /** Column after column. */
  function Area(height: nat, width: nat): nat {
    if width == 0 then 0 else Area(height, width - 1) + height
  }

  lemma {:induction false} AreaIs(height: nat, width: nat)
    ensures Area(height, width) == height * width
  {
    if width == 0 {
    } else {
      AreaIs(height, width - 1);
    }
  }

  lemma {:induction false} StripSize(r0: nat, r1: nat, c0: nat, width: nat)
    requires r0 <= r1
    ensures |Rect(r0, r1, c0, c0 + width)| == Area(r1 - r0, width)
    decreases width
  {
    hide Rect;
    if width == 0 {
      RectEmpty(r0, r1, c0);
    } else {
      StripSize(r0, r1, c0, width - 1);
      ColumnSize(r0, r1, c0 + width - 1);
      RectSplit(r0, r1, c0, c0 + width);
    }
  }

  lemma RectEmpty(r0: nat, r1: nat, c: nat)
    ensures |Rect(r0, r1, c, c)| == 0
  {
    assert Rect(r0, r1, c, c) == {};
  }

  lemma RectSize(r0: nat, r1: nat, c0: nat, c1: nat)
    requires r0 <= r1 && c0 <= c1
    ensures |Rect(r0, r1, c0, c1)| == (r1 - r0) * (c1 - c0)
  {
    StripSize(r0, r1, c0, c1 - c0);
    AreaIs(r1 - r0, c1 - c0);
  }

  lemma RectSplit(r0: nat, r1: nat, c0: nat, c1: nat)
    requires c0 < c1
    ensures |Rect(r0, r1, c0, c1)| == |Rect(r0, r1, c0, c1 - 1)| + |Rect(r0, r1, c1 - 1, c1)|
  {
    assert Rect(r0, r1, c0, c1) == Rect(r0, r1, c0, c1 - 1) + Rect(r0, r1, c1 - 1, c1);
    assert Rect(r0, r1, c0, c1 - 1) !! Rect(r0, r1, c1 - 1, c1);
  }

  lemma UnionSize<T>(a: set<T>, b: set<T>)
    requires a !! b
    ensures |a + b| == |a| + |b|
  {
  }

  lemma InRect(p: Position, r0: nat, r1: nat, c0: nat, c1: nat)
    ensures p in Rect(r0, r1, c0, c1) <==> r0 <= p.row < r1 && c0 <= p.col < c1
  {
  }

  ghost function Elements(ps: seq<Position>, reserved: Reservation): set<Position> {
    set p | p in ps && !reserved(p)
  }

  /** On a path without repetition, free modules counted are free modules. */
  lemma {:induction false} CountIsSize(ps: seq<Position>, reserved: Reservation)
    requires NoRepeat(ps)
    ensures CountFree(ps, reserved) == |Elements(ps, reserved)|
    decreases |ps|
  {
    if |ps| == 0 {
      assert Elements(ps, reserved) == {};
    } else {
      TailNoRepeat(ps);
      CountIsSize(ps[1..], reserved);
      var rest := Elements(ps[1..], reserved);
      assert Elements(ps, reserved) == rest + (if reserved(ps[0]) then {} else {ps[0]}) by {
        assert ps == [ps[0]] + ps[1..];
      }
    }
  }

  // --- A cover of the reserved modules ---

  ghost function FinderCover(n: nat): set<Position>
    requires n >= 21
  {
    Rect(0, 8, 0, 8) + Rect(n - 8, n, 0, 8) + Rect(0, 8, n - 8, n)
  }

  ghost function TimingCover(n: nat): set<Position>
    requires n >= 21
  {
    Rect(8, n - 8, 6, 7) + Rect(6, 7, 8, n - 8)
  }

  ghost function FormatCover(n: nat): set<Position>
    requires n >= 21
  {
    Rect(0, 6, 8, 9) + Rect(7, 9, 8, 9) + Rect(n - 8, n, 8, 9) + Rect(8, 9, 0, 6) + Rect(8, 9, 7, 8) +
      Rect(8, 9, n - 8, n)
  }

  ghost function VersionCover(n: nat): set<Position>
    requires n >= 21
  {
    Rect(0, 6, n - 11, n - 8) + Rect(n - 11, n - 8, 0, 6)
  }

  /** The patterns off the timing lines in row i of centres, up to column j. */
  ghost function InnerRow(pos: seq<nat>, n: nat, i: nat, j: nat): set<Position>
    requires WellSpaced(pos, n) && 1 <= i < |pos| && 1 <= j <= |pos|
    decreases j
  {
    if j == 1 then {}
    else
      CentreInside(pos, n, i);
      CentreInside(pos, n, j - 1);
      InnerRow(pos, n, i, j - 1) + Rect(pos[i] - 2, pos[i] + 3, pos[j - 1] - 2, pos[j - 1] + 3)
  }

  ghost function InnerCover(pos: seq<nat>, n: nat, i: nat): set<Position>
    requires WellSpaced(pos, n) && 1 <= i <= |pos|
    decreases i
  {
    if i == 1 then {} else InnerCover(pos, n, i - 1) + InnerRow(pos, n, i - 1, |pos|)
  }

  ghost function Arms(lo: nat, hi: nat): set<Position> {
    Rect(4, 6, lo, hi) + Rect(7, 9, lo, hi) + Rect(lo, hi, 4, 6) + Rect(lo, hi, 7, 9)
  }

  /** The patterns on the timing lines, up to centre j, without their modules on these lines. */
  ghost function EdgeCover(pos: seq<nat>, n: nat, j: nat): set<Position>
    requires WellSpaced(pos, n) && 1 <= j < |pos|
    decreases j
  {
    if j == 1 then {}
    else
      CentreInside(pos, n, j - 1);
      EdgeCover(pos, n, j - 1) + Arms(pos[j - 1] - 2, pos[j - 1] + 3)
  }

  lemma Apart(r0: nat, r1: nat, c0: nat, c1: nat, s0: nat, s1: nat, d0: nat, d1: nat)
    requires r1 <= s0 || c1 <= d0
    ensures Rect(r0, r1, c0, c1) !! Rect(s0, s1, d0, d1)
  {
  }

  lemma FinderSize(n: nat)
    requires n >= 21
    ensures |FinderCover(n)| == 192
  {
    hide Rect;
    RectSize(0, 8, 0, 8);
    RectSize(n - 8, n, 0, 8);
    RectSize(0, 8, n - 8, n);
    Apart(0, 8, 0, 8, n - 8, n, 0, 8);
    Apart(0, 8, 0, 8, 0, 8, n - 8, n);
    Apart(0, 8, n - 8, n, n - 8, n, 0, 8);
  }

  lemma TimingSize(n: nat)
    requires n >= 21
    ensures |TimingCover(n)| == 2 * (n - 16)
  {
    hide Rect;
    RectSize(8, n - 8, 6, 7);
    RectSize(6, 7, 8, n - 8);
    Apart(6, 7, 8, n - 8, 8, n - 8, 6, 7);
  }

  lemma FormatSize(n: nat)
    requires n >= 21
    ensures |FormatCover(n)| == 31
  {
    hide Rect;
    var a, b, c := Rect(0, 6, 8, 9), Rect(7, 9, 8, 9), Rect(n - 8, n, 8, 9);
    var d, e, f := Rect(8, 9, 0, 6), Rect(8, 9, 7, 8), Rect(8, 9, n - 8, n);
    RectSize(0, 6, 8, 9);
    RectSize(7, 9, 8, 9);
    RectSize(n - 8, n, 8, 9);
    RectSize(8, 9, 0, 6);
    RectSize(8, 9, 7, 8);
    RectSize(8, 9, n - 8, n);
    forall p ensures !(p in a && p in b) && !(p in a + b && p in c) && !(p in a + b + c && p in d)
      ensures !(p in a + b + c + d && p in e) && !(p in a + b + c + d + e && p in f)
    {
      InFormatParts(p, n);
    }
    UnionSize(a, b);
    UnionSize(a + b, c);
    UnionSize(a + b + c, d);
    UnionSize(a + b + c + d, e);
    UnionSize(a + b + c + d + e, f);
  }

  lemma InFormatParts(p: Position, n: nat)
    requires n >= 21
    ensures p in Rect(0, 6, 8, 9) <==> p.col == 8 && p.row < 6
    ensures p in Rect(7, 9, 8, 9) <==> p.col == 8 && 7 <= p.row < 9
    ensures p in Rect(n - 8, n, 8, 9) <==> p.col == 8 && n - 8 <= p.row < n
    ensures p in Rect(8, 9, 0, 6) <==> p.row == 8 && p.col < 6
    ensures p in Rect(8, 9, 7, 8) <==> p.row == 8 && p.col == 7
    ensures p in Rect(8, 9, n - 8, n) <==> p.row == 8 && n - 8 <= p.col < n
  {
  }

  lemma VersionSize(n: nat)
    requires n >= 21
    ensures |VersionCover(n)| == 36
  {
    hide Rect;
    RectSize(0, 6, n - 11, n - 8);
    RectSize(n - 11, n - 8, 0, 6);
    Apart(0, 6, n - 11, n - 8, n - 11, n - 8, 0, 6);
  }

  // --- Which modules are in the cover ---

  lemma InFixedCovers(p: Position, n: nat)
    requires n >= 21
    ensures p in FinderCover(n) <==> Within(p, n) && InFinder(p, n)
    ensures p in TimingCover(n) <==> Within(p, n) && OnTiming(p, n)
    ensures p in FormatCover(n) <==> Within(p, n) && InFormat(p, n)
    ensures p in VersionCover(n) <==> Within(p, n) && InVersion(p, n)
  {
    hide Rect;
    InRect(p, 0, 8, 0, 8);
    InRect(p, n - 8, n, 0, 8);
    InRect(p, 0, 8, n - 8, n);
    InRect(p, 8, n - 8, 6, 7);
    InRect(p, 6, 7, 8, n - 8);
    InFormatParts(p, n);
    InRect(p, 0, 6, n - 11, n - 8);
    InRect(p, n - 11, n - 8, 0, 6);
  }

  lemma {:induction false} InnerRowOf(p: Position, pos: seq<nat>, n: nat, i: nat, j: nat) returns (k: nat)
    requires WellSpaced(pos, n) && 1 <= i < |pos| && 1 <= j <= |pos| && p in InnerRow(pos, n, i, j)
    ensures 1 <= k < j && InAdjust(p, pos[i], pos[k])
    decreases j
  {
    hide WellSpaced, Rect;
    CentreInside(pos, n, i);
    CentreInside(pos, n, j - 1);
    InRect(p, pos[i] - 2, pos[i] + 3, pos[j - 1] - 2, pos[j - 1] + 3);
    if p in InnerRow(pos, n, i, j - 1) { k := InnerRowOf(p, pos, n, i, j - 1); } else { k := j - 1; }
  }

  lemma {:induction false} InnerCoverOf(p: Position, pos: seq<nat>, n: nat, i: nat) returns (k: nat, l: nat)
    requires WellSpaced(pos, n) && 1 <= i <= |pos| && p in InnerCover(pos, n, i)
    ensures 1 <= k < i && 1 <= l < |pos| && InAdjust(p, pos[k], pos[l])
    decreases i
  {
    hide WellSpaced, InnerRow, InAdjust;
    if p in InnerCover(pos, n, i - 1) {
      k, l := InnerCoverOf(p, pos, n, i - 1);
    } else {
      k := i - 1;
      l := InnerRowOf(p, pos, n, i - 1, |pos|);
    }
  }

  lemma {:induction false} EdgeCoverOf(p: Position, pos: seq<nat>, n: nat, j: nat) returns (k: nat)
    requires WellSpaced(pos, n) && 1 <= j < |pos| && p in EdgeCover(pos, n, j)
    ensures 1 <= k < j
    ensures (InAdjust(p, 6, pos[k]) && p.row != 6) || (InAdjust(p, pos[k], 6) && p.col != 6)
    decreases j
  {
    hide WellSpaced, Rect;
    CentreInside(pos, n, j - 1);
    if p in EdgeCover(pos, n, j - 1) {
      k := EdgeCoverOf(p, pos, n, j - 1);
    } else {
      k := j - 1;
      InArms(p, pos[k] - 2, pos[k] + 3);
    }
  }

  lemma InArms(p: Position, lo: nat, hi: nat)
    ensures p in Arms(lo, hi) <==>
            || (4 <= p.row < 9 && p.row != 6 && lo <= p.col < hi)
            || (4 <= p.col < 9 && p.col != 6 && lo <= p.row < hi)
  {
  }

  /** A pattern on each timing line, without its modules on the line. */
  lemma ArmsSize(lo: nat)
    requires lo >= 9
    ensures |Arms(lo, lo + 5)| == 40
  {
    hide Rect;
    var hi := lo + 5;
    RectSize(4, 6, lo, hi);
    RectSize(7, 9, lo, hi);
    RectSize(lo, hi, 4, 6);
    RectSize(lo, hi, 7, 9);
    Apart(4, 6, lo, hi, 7, 9, lo, hi);
    Apart(4, 6, lo, hi, lo, hi, 4, 6);
    Apart(4, 6, lo, hi, lo, hi, 7, 9);
    Apart(7, 9, lo, hi, lo, hi, 4, 6);
    Apart(7, 9, lo, hi, lo, hi, 7, 9);
    Apart(lo, hi, 4, 6, lo, hi, 7, 9);
  }

  lemma {:induction false} InnerRowSize(pos: seq<nat>, n: nat, i: nat, j: nat)
    requires WellSpaced(pos, n) && 1 <= i < |pos| && 1 <= j <= |pos|
    ensures |InnerRow(pos, n, i, j)| == 25 * (j - 1)
    decreases j
  {
    hide Rect, WellSpaced;
    if j <= 1 {
    } else {
      CentreInside(pos, n, i);
      CentreInside(pos, n, j - 1);
      InnerRowSize(pos, n, i, j - 1);
      var next := Rect(pos[i] - 2, pos[i] + 3, pos[j - 1] - 2, pos[j - 1] + 3);
      RectSize(pos[i] - 2, pos[i] + 3, pos[j - 1] - 2, pos[j - 1] + 3);
      forall p | p in InnerRow(pos, n, i, j - 1) ensures p !in next {
        var k := InnerRowOf(p, pos, n, i, j - 1);
        InRect(p, pos[i] - 2, pos[i] + 3, pos[j - 1] - 2, pos[j - 1] + 3);
        if p in next { CentresApart(p, pos, n, i, k, i, j - 1); }
      }
    }
  }

  lemma {:induction false} InnerSize(pos: seq<nat>, n: nat, i: nat)
    requires WellSpaced(pos, n) && 1 <= i <= |pos|
    ensures |InnerCover(pos, n, i)| == 25 * (|pos| - 1) * (i - 1)
    decreases i
  {
    hide WellSpaced, InnerRow, InAdjust;
    if i <= 1 {
    } else {
      InnerSize(pos, n, i - 1);
      InnerRowSize(pos, n, i - 1, |pos|);
      var cover, row := InnerCover(pos, n, i - 1), InnerRow(pos, n, i - 1, |pos|);
      forall p | p in cover ensures p !in row {
        var k, l := InnerCoverOf(p, pos, n, i - 1);
        if p in row {
          var m := InnerRowOf(p, pos, n, i - 1, |pos|);
          CentresApart(p, pos, n, k, l, i - 1, m);
        }
      }
      UnionSize(cover, row);
      assert 25 * (|pos| - 1) * (i - 1) == 25 * (|pos| - 1) * (i - 2) + 25 * (|pos| - 1);
    }
  }

  lemma {:induction false} EdgeSize(pos: seq<nat>, n: nat, j: nat)
    requires WellSpaced(pos, n) && 1 <= j < |pos|
    ensures |EdgeCover(pos, n, j)| == 40 * (j - 1)
    decreases j
  {
    hide Rect, WellSpaced, Arms;
    if j <= 1 {
    } else {
      EdgeSize(pos, n, j - 1);
      CentreBeyond(pos, n, j - 1);
      var lo := pos[j - 1] - 2;
      ArmsSize(lo);
      var cover, arms := EdgeCover(pos, n, j - 1), Arms(lo, lo + 5);
      forall p | p in cover ensures p !in arms {
        var k := EdgeCoverOf(p, pos, n, j - 1);
        InArms(p, lo, lo + 5);
        if p in arms { EdgesApart(p, pos, n, k, j - 1); }
      }
      UnionSize(cover, arms);
    }
  }

  lemma CentreBeyond(pos: seq<nat>, n: nat, i: nat)
    requires WellSpaced(pos, n) && 1 <= i < |pos|
    ensures pos[0] == 6 && 18 <= pos[i] && pos[i] + 7 <= n
  {
    CentreInside(pos, n, i);
  }

  predicate OnEdge(p: Position, c: nat) {
    InAdjust(p, 6, c) || InAdjust(p, c, 6)
  }

  lemma EdgesApart(p: Position, pos: seq<nat>, n: nat, k: nat, l: nat)
    requires WellSpaced(pos, n) && 1 <= k < |pos| && 1 <= l < |pos| && OnEdge(p, pos[k]) && OnEdge(p, pos[l])
    ensures k == l
  {
    hide WellSpaced, InAdjust;
    CentreBeyond(pos, n, k);
    var i, j := if InAdjust(p, 6, pos[k]) then 0 else k, if InAdjust(p, 6, pos[k]) then k else 0;
    var a, b := if InAdjust(p, 6, pos[l]) then 0 else l, if InAdjust(p, 6, pos[l]) then l else 0;
    CentresApart(p, pos, n, i, j, a, b);
  }

  lemma {:induction false} InInnerRow(p: Position, pos: seq<nat>, n: nat, i: nat, j: nat, k: nat)
    requires WellSpaced(pos, n) && 1 <= i < |pos| && 1 <= k < j <= |pos| && InAdjust(p, pos[i], pos[k])
    ensures p in InnerRow(pos, n, i, j)
    decreases j
  {
    CentreInside(pos, n, i);
    CentreInside(pos, n, j - 1);
    if k >= j - 1 {
    } else {
      InInnerRow(p, pos, n, i, j - 1, k);
    }
  }

  lemma {:induction false} InInnerCover(p: Position, pos: seq<nat>, n: nat, i: nat, k: nat, l: nat)
    requires WellSpaced(pos, n) && 1 <= k < i <= |pos| && 1 <= l < |pos| && InAdjust(p, pos[k], pos[l])
    ensures p in InnerCover(pos, n, i)
    decreases i
  {
    hide InnerRow, WellSpaced, InAdjust;
    if k < i - 1 { InInnerCover(p, pos, n, i - 1, k, l); } else { InInnerRow(p, pos, n, k, |pos|, l); }
  }

  lemma {:induction false} InEdgeCover(p: Position, pos: seq<nat>, n: nat, j: nat, k: nat)
    requires WellSpaced(pos, n) && 1 <= k < j < |pos|
    requires (InAdjust(p, 6, pos[k]) && p.row != 6) || (InAdjust(p, pos[k], 6) && p.col != 6)
    ensures p in EdgeCover(pos, n, j)
    decreases j
  {
    CentreInside(pos, n, j - 1);
    if k >= j - 1 {
    } else {
      InEdgeCover(p, pos, n, j - 1, k);
    }
  }

  ghost function AdjustCover(pos: seq<nat>, n: nat): set<Position>
    requires WellSpaced(pos, n)
  {
    InnerCover(pos, n, |pos|) + EdgeCover(pos, n, |pos| - 1)
  }

  /** Every alignment module is covered, or lies on a timing line. */
  lemma AdjustCovered(p: Position, pos: seq<nat>, n: nat, i: nat, j: nat)
    requires n >= 21 && WellSpaced(pos, n) && i < |pos| && j < |pos| && AdjustAt(p, pos, i, j, n)
    ensures p in AdjustCover(pos, n) || OnTiming(p, n)
  {
    hide InnerCover, EdgeCover;
    if i > 0 && j > 0 {
      InInnerCover(p, pos, n, |pos|, i, j);
    } else if i == 0 {
      assert 0 < j < |pos| - 1;
      if p.row != 6 { InEdgeCover(p, pos, n, |pos| - 1, j); }
    } else {
      assert 0 < i < |pos| - 1;
      if p.col != 6 { InEdgeCover(p, pos, n, |pos| - 1, i); }
    }
  }

  ghost function Cover(version: nat): set<Position>
    requires 1 <= version <= 40
  {
    var n := Size(version);
    FinderCover(n) + TimingCover(n) + FormatCover(n)
    + (if version >= 2 then AdjustCover(PatternPosition(version), n) else {})
    + (if version >= 7 then VersionCover(n) else {})
  }

  /** Conversely the cover of the alignment patterns holds nothing else. */
  lemma AdjustCoverIs(p: Position, pos: seq<nat>, n: nat)
    requires n >= 21 && WellSpaced(pos, n) && p in AdjustCover(pos, n)
    ensures Within(p, n) && InSomeAdjust(p, pos, n)
    ensures !InFinder(p, n) && !OnTiming(p, n) && !InFormat(p, n) && !InVersion(p, n)
  {
    hide InnerCover, EdgeCover;
    var i, j := AdjustOf(p, pos, n);
    CentreKinds(pos, n, i);
    CentreKinds(pos, n, j);
    assert AdjustAt(p, pos, i, j, n);
    AdjustIsClear(p, pos, n, i, j);
  }

  lemma AdjustOf(p: Position, pos: seq<nat>, n: nat) returns (i: nat, j: nat)
    requires n >= 21 && WellSpaced(pos, n) && p in AdjustCover(pos, n)
    ensures i < |pos| && j < |pos| && InAdjust(p, pos[i], pos[j])
    ensures pos[i] == 6 ==> p.row != 6 && 18 <= pos[j] <= n - 19
    ensures pos[j] == 6 ==> p.col != 6 && 18 <= pos[i] <= n - 19
  {
    hide InnerCover, EdgeCover, InAdjust;
    if p in InnerCover(pos, n, |pos|) {
      i, j := InnerCoverOf(p, pos, n, |pos|);
      CentreBeyond(pos, n, i);
      CentreBeyond(pos, n, j);
    } else {
      var k := EdgeCoverOf(p, pos, n, |pos| - 1);
      EdgeCentre(pos, n, k);
      if InAdjust(p, 6, pos[k]) && p.row != 6 { i, j := 0, k; } else { i, j := k, 0; }
    }
  }

  lemma EdgeCentre(pos: seq<nat>, n: nat, k: nat)
    requires WellSpaced(pos, n) && 1 <= k < |pos| - 1
    ensures pos[0] == 6 && 18 <= pos[k] <= n - 19
  {
    assert pos[0] + 12 <= pos[k] && pos[k] + 12 <= pos[|pos| - 1];
  }

  lemma AdjustSize(pos: seq<nat>, n: nat)
    requires n >= 21 && WellSpaced(pos, n)
    ensures |AdjustCover(pos, n)| == 25 * (|pos| - 1) * (|pos| - 1) + 40 * (|pos| - 2)
  {
    hide InnerCover, EdgeCover, InAdjust;
    InnerSize(pos, n, |pos|);
    EdgeSize(pos, n, |pos| - 1);
    forall p | p in InnerCover(pos, n, |pos|) ensures p !in EdgeCover(pos, n, |pos| - 1) {
      var i, j := InnerCoverOf(p, pos, n, |pos|);
      if p in EdgeCover(pos, n, |pos| - 1) {
        var k := EdgeCoverOf(p, pos, n, |pos| - 1);
        if InAdjust(p, 6, pos[k]) { CentresApart(p, pos, n, i, j, 0, k); } else { CentresApart(p, pos, n, i, j, k, 0); }
      }
    }
    UnionSize(InnerCover(pos, n, |pos|), EdgeCover(pos, n, |pos| - 1));
  }

  // --- The regions do not overlap ---

  lemma FixedApart(n: nat)
    requires n >= 21
    ensures FinderCover(n) !! TimingCover(n)
    ensures FinderCover(n) + TimingCover(n) !! FormatCover(n)
    ensures FinderCover(n) + TimingCover(n) + FormatCover(n) !! VersionCover(n)
  {
    hide FinderCover, TimingCover, FormatCover, VersionCover;
    forall p
      ensures !(p in FinderCover(n) && p in TimingCover(n))
      ensures !(p in FinderCover(n) + TimingCover(n) && p in FormatCover(n))
      ensures !(p in FinderCover(n) + TimingCover(n) + FormatCover(n) && p in VersionCover(n))
    {
      InFixedCovers(p, n);
    }
  }

  lemma AdjustApart(pos: seq<nat>, n: nat)
    requires n >= 21 && WellSpaced(pos, n)
    ensures FinderCover(n) + TimingCover(n) + FormatCover(n) !! AdjustCover(pos, n)
    ensures AdjustCover(pos, n) !! VersionCover(n)
  {
    hide FinderCover, TimingCover, FormatCover, VersionCover, AdjustCover, WellSpaced;
    hide InFinder, OnTiming, InFormat, InVersion, InSomeAdjust;
    forall p | p in AdjustCover(pos, n)
      ensures p !in FinderCover(n) + TimingCover(n) + FormatCover(n) && p !in VersionCover(n)
    {
      AdjustCoverIs(p, pos, n);
      InFixedCovers(p, n);
    }
  }

  /** The cover holds exactly the reserved modules. */
  lemma CoverIs(version: nat, p: Position)
    requires 1 <= version <= 40
    ensures p in Cover(version) <==> Within(p, Size(version)) && Reserved(version, p)
  {
    hide FinderCover, TimingCover, FormatCover, VersionCover, AdjustCover, WellSpaced, PatternPosition;
    hide InFinder, OnTiming, InFormat, InVersion, InSomeAdjust;
    var n, pos := Size(version), PatternPosition(version);
    InFixedCovers(p, n);
    if version >= 2 && p in AdjustCover(pos, n) { AdjustCoverIs(p, pos, n); }
    if Within(p, n) && InSomeAdjust(p, pos, n) { InSomeAdjustCovered(p, version); }
  }

  lemma InSomeAdjustCovered(p: Position, version: nat)
    requires 1 <= version <= 40 && Within(p, Size(version))
    requires InSomeAdjust(p, PatternPosition(version), Size(version))
    ensures version >= 2
    ensures p in AdjustCover(PatternPosition(version), Size(version)) || OnTiming(p, Size(version))
  {
    hide AdjustCover, PatternPosition, WellSpaced, AdjustAt, OnTiming;
    var n, pos := Size(version), PatternPosition(version);
    var i, j :| 0 <= i < |pos| && 0 <= j < |pos| && AdjustAt(p, pos, i, j, n);
    AdjustCovered(p, pos, n, i, j);
  }

  lemma CoverSize(version: nat)
    requires 1 <= version <= 40
    ensures |Cover(version)| + RawModules(version) == Size(version) * Size(version)
  {
    hide FinderCover, TimingCover, FormatCover, VersionCover, AdjustCover, PatternPosition, WellSpaced, RawModules;
    var n, pos := Size(version), PatternPosition(version);
    var a, b, c := FinderCover(n), TimingCover(n), FormatCover(n);
    FixedApart(n);
    FinderSize(n);
    TimingSize(n);
    FormatSize(n);
    UnionSize(a, b);
    UnionSize(a + b, c);
    var d := a + b + c;
    if version >= 2 {
      AdjustApart(pos, n);
      AdjustSize(pos, n);
      UnionSize(d, AdjustCover(pos, n));
      d := d + AdjustCover(pos, n);
    }
    if version >= 7 {
      VersionSize(n);
      UnionSize(d, VersionCover(n));
      d := d + VersionCover(n);
    }
    assert d == Cover(version);
    RawModulesCount(version);
  }

  /** The closed form of the number of modules that are not covered. */
  lemma RawModulesCount(version: nat)
    requires version >= 1
    ensures var n, a := Size(version), version / 7 + 2;
            RawModules(version) ==
            n * n - 192 - 2 * (n - 16) - 31
            - (if version >= 2 then 25 * (a - 1) * (a - 1) + 40 * (a - 2) else 0)
            - (if version >= 7 then 36 else 0)
  {
    var a := version / 7 + 2;
    assert 25 * (a - 1) * (a - 1) + 40 * (a - 2) == (25 * a - 10) * a - 55;
    assert Size(version) * Size(version) == 16 * version * version + 136 * version + 289;
    assert (16 * version + 128) * version == 16 * version * version + 128 * version;
  }

  /** The path has exactly as many free modules as the version has for its message: the code
      words and at most seven bits more. */
  lemma ExactRoom(version: nat)
    requires 1 <= version <= 40
    ensures CountFree(WholePath(Size(version)), (p: Position) => Reserved(version, p)) == RawModules(version)
  {
    hide Cover, WholePath, PatternPosition, NoRepeat, Reserved, RawModules;
    var n := Size(version);
    var reserved := (p: Position) => Reserved(version, p);
    WholePathCovers(n);
    CountIsSize(WholePath(n), reserved);
    var free := Elements(WholePath(n), reserved);
    RectSize(0, n, 0, n);
    forall p ensures p in Rect(0, n, 0, n) <==> p in free || p in Cover(version)
      ensures !(p in free && p in Cover(version))
    {
      CoverIs(version, p);
      if Within(p, n) && p.col == 6 { ColumnSixReserved(version, p.row); }
    }
    assert Rect(0, n, 0, n) == free + Cover(version);
    UnionSize(free, Cover(version));
    CoverSize(version);
  }
}
