/** The colours of the function patterns of a finished symbol: what is drawn first is not spoilt by
    what is drawn later. */
module SymbolPatterns {
  import opened Zigzag
  import opened FunctionPatterns

  ghost predicate ProbeShown(g: Grid, n: nat, row: nat, col: nat)
    requires Square(g, n)
  {
    forall p :: Within(p, n) && InProbe(p, row, col) ==> At(g, n, p) == Set(ProbeDark(p, row, col))
  }

  ghost predicate FindersShown(g: Grid, n: nat)
    requires n >= 21 && Square(g, n)
  {
    ProbeShown(g, n, 0, 0) && ProbeShown(g, n, n - 7, 0) && ProbeShown(g, n, 0, n - 7)
  }

  ghost predicate AdjustsShown(g: Grid, n: nat, pos: seq<nat>)
    requires n >= 21 && Square(g, n)
  {
    forall p, i: nat, j: nat :: Within(p, n) && i < |pos| && j < |pos| && AdjustAt(p, pos, i, j, n) ==>
      At(g, n, p) == Set(AdjustDark(p, pos[i], pos[j]))
  }

  /** The part of the timing lines that no finder or alignment pattern covers. */
  predicate OnFreeTiming(p: Position, n: nat, pos: seq<nat>)
    requires n >= 21
  {
    OnTiming(p, n) && !InFinder(p, n) && !InSomeAdjust(p, pos, n)
  }

  ghost predicate TimingShown(g: Grid, n: nat, pos: seq<nat>)
    requires n >= 21 && Square(g, n)
  {
    forall p :: Within(p, n) && OnFreeTiming(p, n, pos) ==> At(g, n, p) == Set(TimingDark(p))
  }

  /** Finders, separators, alignment and timing patterns are all in place. */
  ghost predicate PatternsShown(g: Grid, version: nat)
    requires 1 <= version <= 40 && Square(g, Size(version))
  {
    var n, pos := Size(version), PatternPosition(version);
    FindersShown(g, n) && AdjustsShown(g, n, pos) && TimingShown(g, n, pos)
  }

  /** A module of one of these patterns. */
  predicate InPattern(p: Position, n: nat, pos: seq<nat>)
    requires n >= 21
  {
    InFinder(p, n) || InSomeAdjust(p, pos, n) || OnTiming(p, n)
  }

  lemma FindersDrawn(g0: Grid, g1: Grid, g2: Grid, g3: Grid, n: nat)
    requires n >= 21 && Square(g0, n) && Square(g1, n) && Square(g2, n) && Square(g3, n)
    requires Repainted(g0, g1, n, (p: Position) => InProbe(p, 0, 0), (p: Position) => ProbeDark(p, 0, 0))
    requires Repainted(g1, g2, n, (p: Position) => InProbe(p, n - 7, 0), (p: Position) => ProbeDark(p, n - 7, 0))
    requires Repainted(g2, g3, n, (p: Position) => InProbe(p, 0, n - 7), (p: Position) => ProbeDark(p, 0, n - 7))
    ensures FindersShown(g3, n)
  {
    hide ProbeDark, InProbe;
    forall p | Within(p, n)
      ensures InProbe(p, 0, 0) ==> !InProbe(p, n - 7, 0) && !InProbe(p, 0, n - 7)
      ensures InProbe(p, n - 7, 0) ==> !InProbe(p, 0, n - 7)
    {
      ProbesApart(p, n);
    }
  }

  lemma ProbesApart(p: Position, n: nat)
    requires n >= 21
    ensures InProbe(p, 0, 0) ==> !InProbe(p, n - 7, 0) && !InProbe(p, 0, n - 7)
    ensures InProbe(p, n - 7, 0) ==> !InProbe(p, 0, n - 7)
  {
  }

  /** An alignment pattern touches no finder, format or version module. */
  lemma AdjustIsClear(p: Position, pos: seq<nat>, n: nat, i: nat, j: nat)
    requires n >= 21 && (pos == [] || WellSpaced(pos, n)) && i < |pos| && j < |pos| && AdjustAt(p, pos, i, j, n)
    ensures !InFinder(p, n) && !InFormat(p, n) && !InVersion(p, n)
  {
    CentreKinds(pos, n, i);
    CentreKinds(pos, n, j);
  }

  lemma CentreKinds(pos: seq<nat>, n: nat, i: nat)
    requires WellSpaced(pos, n) && i < |pos|
    ensures pos[i] == 6 || pos[i] + 7 == n || 18 <= pos[i] <= n - 19
  {
    if 0 < i < |pos| - 1 { assert pos[0] + 12 <= pos[i] && pos[i] + 12 <= pos[|pos| - 1]; }
  }

  lemma PatternIsClear(p: Position, pos: seq<nat>, n: nat)
    requires n >= 21 && (pos == [] || WellSpaced(pos, n)) && InPattern(p, n, pos)
    ensures !InFormat(p, n) && !InVersion(p, n)
  {
    hide WellSpaced, AdjustAt;
    if i, j :| 0 <= i < |pos| && 0 <= j < |pos| && AdjustAt(p, pos, i, j, n) { AdjustIsClear(p, pos, n, i, j); }
  }

  lemma AdjustsDone(g: Grid, h: Grid, n: nat, pos: seq<nat>)
    requires n >= 21 && Square(g, n) && Square(h, n) && (pos == [] || WellSpaced(pos, n))
    requires FindersShown(g, n) && AdjustsDrawn(g, h, n, pos, |pos|, 0)
    ensures FindersShown(h, n) && AdjustsShown(h, n, pos)
  {
    hide WellSpaced, AdjustAt, AdjustDark, InProbe, ProbeDark;
    forall p | Within(p, n) && InFinder(p, n) ensures At(h, n, p) == At(g, n, p) {
      forall k: nat, l: nat | Earlier(pos, k, l, |pos|, 0) ensures !AdjustAt(p, pos, k, l, n) {
        if AdjustAt(p, pos, k, l, n) { AdjustIsClear(p, pos, n, k, l); }
      }
    }
    forall p, i: nat, j: nat | Within(p, n) && i < |pos| && j < |pos| && AdjustAt(p, pos, i, j, n)
      ensures At(h, n, p) == Set(AdjustDark(p, pos[i], pos[j]))
    {
      assert Earlier(pos, i, j, |pos|, 0);
    }
  }

  lemma TimingDone(g: Grid, h: Grid, n: nat, pos: seq<nat>)
    requires n >= 21 && Square(g, n) && Square(h, n) && FindersShown(g, n) && AdjustsShown(g, n, pos)
    requires forall p :: Within(p, n) ==> (At(g, n, p).Set? <==> InFinder(p, n) || InSomeAdjust(p, pos, n))
    requires forall p :: Within(p, n) ==>
      At(h, n, p) == if OnTiming(p, n) && At(g, n, p).Null? then Set(TimingDark(p)) else At(g, n, p)
    ensures FindersShown(h, n) && AdjustsShown(h, n, pos) && TimingShown(h, n, pos)
  {
    hide AdjustAt, AdjustDark, InProbe, ProbeDark, OnTiming, TimingDark, InSomeAdjust, InFinder;
  }

  /** A later drawing leaves the patterns as they are when it leaves their modules alone. */
  lemma PatternsKept(g: Grid, h: Grid, version: nat)
    requires 1 <= version <= 40 && Square(g, Size(version)) && Square(h, Size(version)) && PatternsShown(g, version)
    requires forall p :: Within(p, Size(version)) && InPattern(p, Size(version), PatternPosition(version)) ==>
      At(h, Size(version), p) == At(g, Size(version), p)
    ensures PatternsShown(h, version)
  {
    hide AdjustAt, AdjustDark, InProbe, ProbeDark, OnTiming, TimingDark, PatternPosition;
  }

  lemma KeptOutside(g: Grid, h: Grid, version: nat, region: Position -> bool)
    requires 1 <= version <= 40 && Square(g, Size(version)) && Square(h, Size(version)) && PatternsShown(g, version)
    requires Outside(g, h, Size(version), region)
    requires forall p :: region(p) ==> InFormat(p, Size(version)) || InVersion(p, Size(version))
    ensures PatternsShown(h, version)
  {
    hide PatternsShown, InPattern, InFormat, InVersion, PatternPosition;
    var n, pos := Size(version), PatternPosition(version);
    CentresOf(version);
    forall p | Within(p, n) && InPattern(p, n, pos) ensures At(h, n, p) == At(g, n, p) {
      PatternIsClear(p, pos, n);
    }
    PatternsKept(g, h, version);
  }

  lemma CentresOf(version: nat)
    requires 1 <= version <= 40
    ensures PatternPosition(version) == [] || WellSpaced(PatternPosition(version), Size(version))
  {
  }

  /** All patterns are in place once they have been drawn. */
  lemma PatternsDone(g: Grid, version: nat)
    requires 1 <= version <= 40 && Square(g, Size(version))
    requires var n, pos := Size(version), PatternPosition(version);
             FindersShown(g, n) && AdjustsShown(g, n, pos) && TimingShown(g, n, pos)
    ensures PatternsShown(g, version)
  {
  }
}
