/** `mapData`: the zigzag placement of the message in the modules left free by the function
    patterns, and a reader that follows the same path (section 7.7.3 of ISO/IEC 18004:2015). */
module Zigzag {

  /** A module that is not decided yet, or is dark or light. */
  datatype Module = Null | Set(dark: bool)

  type Grid = seq<seq<Module>>

  predicate Square(g: Grid, n: nat) {
    |g| == n && forall r :: 0 <= r < n ==> |g[r]| == n
  }

  datatype Position = Position(row: nat, col: nat)

  predicate Within(p: Position, n: nat) {
    p.row < n && p.col < n
  }

  function At(g: Grid, n: nat, p: Position): Module
    requires Square(g, n) && Within(p, n)
  {
    g[p.row][p.col]
  }

  function Put(g: Grid, n: nat, p: Position, m: Module): (h: Grid)
    requires Square(g, n) && Within(p, n)
    ensures Square(h, n)
    ensures forall q: Position :: Within(q, n) ==> At(h, n, q) == if q == p then m else At(g, n, q)
  {
    g[p.row := g[p.row][p.col := m]]
  }

  // --- The path ---

  /** From row on, upwards or downwards, the two modules of each row, right before left. */
  function Strip(n: nat, row: nat, up: bool, col: nat): seq<Position>
    requires row < n && col > 0
    decreases if up then row else n - row
  {
    [Position(row, col), Position(row, col - 1)] +
    if up then (if row == 0 then [] else Strip(n, row - 1, up, col))
    else (if row == n - 1 then [] else Strip(n, row + 1, up, col))
  }

  /** The column a strip starts in: the timing column is stepped over. */
  function StripColumn(col: nat): nat {
    if col == 6 then 5 else col
  }

  /** The strips from column col leftwards. */
  function Path(n: nat, col: int, up: bool): seq<Position>
    requires n > 0
    decreases col
  {
    if col <= 0 then []
    else
      var c: int := StripColumn(col);
      Strip(n, if up then n - 1 else 0, up, c) + Path(n, c - 2, !up)
  }

  ghost predicate NoRepeat(ps: seq<Position>) {
    forall i, j :: 0 <= i < j < |ps| ==> ps[i] != ps[j]
  }

  predicate InStrip(p: Position, n: nat, row: nat, up: bool, col: nat) {
    col - 1 <= p.col <= col && if up then p.row <= row else row <= p.row < n
  }

  /** The row below (or above) the given one in the direction of the strip. */
  lemma StripNext(n: nat, row: nat, up: bool, col: nat)
    requires row < n && col > 0
    ensures var head := [Position(row, col), Position(row, col - 1)];
            if (if up then row == 0 else row == n - 1) then Strip(n, row, up, col) == head
            else Strip(n, row, up, col) == head + Strip(n, if up then row - 1 else row + 1, up, col)
  {
  }

  lemma InStripNext(p: Position, n: nat, row: nat, up: bool, col: nat)
    requires row < n && col > 0
    ensures InStrip(p, n, row, up, col) <==>
            (p in [Position(row, col), Position(row, col - 1)] ||
             if up then row > 0 && InStrip(p, n, row - 1, up, col) else row < n - 1 && InStrip(p, n, row + 1, up, col))
    ensures if up then row > 0 && InStrip(p, n, row - 1, up, col) ==> p.row != row
            else InStrip(p, n, row + 1, up, col) ==> p.row != row
  {
  }

  lemma {:induction false} StripCovers(n: nat, row: nat, up: bool, col: nat)
    requires row < n && 0 < col
    ensures forall p :: p in Strip(n, row, up, col) <==> InStrip(p, n, row, up, col)
    ensures NoRepeat(Strip(n, row, up, col))
    decreases if up then row else n - row
  {
    hide NoRepeat, Strip, InStrip;
    var head := [Position(row, col), Position(row, col - 1)];
    PairNoRepeat(row, col);
    StripNext(n, row, up, col);
    forall p: Position ensures p in Strip(n, row, up, col) <==> InStrip(p, n, row, up, col) {
      InStripNext(p, n, row, up, col);
      if if up then row > 0 else row < n - 1 {
        StripCovers(n, if up then row - 1 else row + 1, up, col);
      }
    }
    if if up then row == 0 else row == n - 1 {
    } else {
      var next := if up then row - 1 else row + 1;
      StripCovers(n, next, up, col);
      forall p | p in head ensures p !in Strip(n, next, up, col) {
        InStripNext(p, n, row, up, col);
      }
      JoinNoRepeat(head, Strip(n, next, up, col));
    }
  }

  lemma PairNoRepeat(row: nat, col: nat)
    requires col > 0
    ensures NoRepeat([Position(row, col), Position(row, col - 1)])
  {
  }

  lemma JoinNoRepeat(a: seq<Position>, b: seq<Position>)
    requires NoRepeat(a) && NoRepeat(b)
    requires forall p :: p in a ==> p !in b
    ensures NoRepeat(a + b)
    ensures forall p :: p in a + b <==> p in a || p in b
  {
    forall i, j | 0 <= i < j < |a + b| ensures (a + b)[i] != (a + b)[j] {
      if i < |a| <= j { assert a[i] in a && b[j - |a|] in b; }
    }
  }

  /** A column that a path from col visits: to the left of col, and not the timing column when
      the path starts to its right in an even column. */
  predicate OnPath(c: nat, col: int) {
    c <= col && (col % 2 == 0 ==> c != 6 && (col < 6 ==> c > 0))
  }

  /** The path visits every module of its columns exactly once. */
  lemma {:induction false} PathCovers(n: nat, col: int, up: bool)
    requires n > 0 && -1 <= col
    ensures forall p :: p in Path(n, col, up) <==> (p.row < n && OnPath(p.col, col))
    ensures NoRepeat(Path(n, col, up))
    decreases col
  {
    hide Strip, OnPath, NoRepeat;
    if col > 0 {
      var c: int := StripColumn(col);
      var strip, rest := Strip(n, if up then n - 1 else 0, up, c), Path(n, c - 2, !up);
      PathCovers(n, c - 2, !up);
      StripCovers(n, if up then n - 1 else 0, up, c);
      forall p: Position ensures OnPath(p.col, col) <==> (c - 1 <= p.col <= c || OnPath(p.col, c - 2)) {
        OnPathStep(p.col, col);
      }
      forall p | p in strip ensures p !in rest { OnPathBelow(p.col, c - 2); }
      JoinNoRepeat(strip, rest);
    } else {
      forall p: Position ensures !OnPath(p.col, col) { OnPathNone(p.col, col); }
      assert NoRepeat([]) by { NothingRepeats(); }
    }
  }

  lemma OnPathStep(k: nat, col: int)
    requires col > 0
    ensures var c: int := StripColumn(col);
            OnPath(k, col) <==> (c - 1 <= k <= c || OnPath(k, c - 2))
  {
  }

  lemma OnPathBelow(k: nat, col: int)
    ensures OnPath(k, col) ==> k <= col
  {
  }

  lemma OnPathNone(k: nat, col: int)
    requires col <= 0 && col >= -1
    ensures !OnPath(k, col)
  {
  }

  lemma NothingRepeats()
    ensures NoRepeat([])
  {
  }

  /** The whole path through a symbol of odd size. */
  function WholePath(n: nat): seq<Position>
    requires n > 0
  {
    Path(n, n - 1, true)
  }

  lemma WholePathCovers(n: nat)
    requires n % 2 == 1 && n >= 7
    ensures forall p :: p in WholePath(n) <==> (Within(p, n) && p.col != 6)
    ensures NoRepeat(WholePath(n))
  {
    hide Path, NoRepeat;
    PathCovers(n, n - 1, true);
  }

  // --- Placement ---

  type MaskFunction = Position -> bool

  /** The bit at pos, light when the message has ended. */
  predicate BitOf(bits: seq<bool>, pos: nat) {
    pos < |bits| && bits[pos]
  }

  ghost predicate AllWithin(ps: seq<Position>, n: nat) {
    forall i :: 0 <= i < |ps| ==> Within(ps[i], n)
  }

  /** Writes the masked bits into the undecided modules along the path. */
  ghost function Fill(g: Grid, n: nat, ps: seq<Position>, bits: seq<bool>, pos: nat, mask: MaskFunction): (h: Grid)
    requires Square(g, n) && AllWithin(ps, n)
    ensures Square(h, n)
    decreases |ps|
  {
    if |ps| == 0 then g
    else if At(g, n, ps[0]).Null? then
      Fill(Put(g, n, ps[0], Set(BitOf(bits, pos) != mask(ps[0]))), n, ps[1..], bits, pos + 1, mask)
    else Fill(g, n, ps[1..], bits, pos, mask)
  }

  /** Which modules belong to the function patterns. */
  type Reservation = Position -> bool

  /** The unmasked modules along the path that are not reserved. */
  function Read(g: Grid, n: nat, ps: seq<Position>, reserved: Reservation, mask: MaskFunction): seq<bool>
    requires Square(g, n) && forall i :: 0 <= i < |ps| ==> Within(ps[i], n)
    decreases |ps|
  {
    if |ps| == 0 then []
    else
      (if reserved(ps[0]) then [] else [(At(g, n, ps[0]) == Set(true)) != mask(ps[0])]) +
      Read(g, n, ps[1..], reserved, mask)
  }

  /** count bits from pos on, light beyond the end. */
  function Window(bits: seq<bool>, pos: nat, count: nat): seq<bool>
    decreases count
  {
    if count == 0 then [] else [BitOf(bits, pos)] + Window(bits, pos + 1, count - 1)
  }

  /** How many modules of the path are not reserved. */
  function CountFree(ps: seq<Position>, reserved: Reservation): nat
    decreases |ps|
  {
    if |ps| == 0 then 0 else (if reserved(ps[0]) then 0 else 1) + CountFree(ps[1..], reserved)
  }

  /** Placement decides every module of the path and changes no other, and none that was decided. */
  lemma {:induction false} FillFrame(g: Grid, n: nat, ps: seq<Position>, bits: seq<bool>, pos: nat, mask: MaskFunction)
    requires Square(g, n) && AllWithin(ps, n)
    ensures var h := Fill(g, n, ps, bits, pos, mask);
            && (forall p :: Within(p, n) && (p !in ps || At(g, n, p).Set?) ==> At(h, n, p) == At(g, n, p))
            && (forall p :: p in ps ==> At(h, n, p).Set?)
    decreases |ps|
  {
    hide Put;
    if |ps| == 0 {
    } else {
      if At(g, n, ps[0]).Null? {
        var g' := Put(g, n, ps[0], Set(BitOf(bits, pos) != mask(ps[0])));
        FillFrame(g', n, ps[1..], bits, pos + 1, mask);
      } else {
        FillFrame(g, n, ps[1..], bits, pos, mask);
      }
    }
  }

  lemma TailNoRepeat(ps: seq<Position>)
    requires |ps| > 0 && NoRepeat(ps)
    ensures NoRepeat(ps[1..]) && ps[0] !in ps[1..]
  {
    forall i | 0 <= i < |ps| - 1 ensures ps[1..][i] != ps[0] {
      assert ps[1..][i] == ps[i + 1];
    }
  }

  /** The reserved modules of the path are exactly those decided before placement. */
  ghost predicate Respects(g: Grid, n: nat, ps: seq<Position>, reserved: Reservation)
    requires Square(g, n) && AllWithin(ps, n)
  {
    forall i :: 0 <= i < |ps| ==> (reserved(ps[i]) <==> At(g, n, ps[i]).Set?)
  }

  /** Unmasking the free modules in visiting order gives the bits, followed by light ones. */
  lemma {:induction false} ReadFill(g: Grid, n: nat, ps: seq<Position>, bits: seq<bool>, pos: nat,
                                    reserved: Reservation, mask: MaskFunction)
    requires Square(g, n) && AllWithin(ps, n) && NoRepeat(ps) && Respects(g, n, ps, reserved)
    ensures Read(Fill(g, n, ps, bits, pos, mask), n, ps, reserved, mask) ==
            Window(bits, pos, CountFree(ps, reserved))
    decreases |ps|
  {
    hide Put;
    if |ps| == 0 {
    } else {
      var p, rest := ps[0], ps[1..];
      TailNoRepeat(ps);
      if At(g, n, p).Null? {
        var dark := BitOf(bits, pos) != mask(p);
        var g' := Put(g, n, p, Set(dark));
        FillFrame(g', n, rest, bits, pos + 1, mask);
        assert At(Fill(g', n, rest, bits, pos + 1, mask), n, p) == Set(dark);
        ReadFill(g', n, rest, bits, pos + 1, reserved, mask);
      } else {
        ReadFill(g, n, rest, bits, pos, reserved, mask);
      }
    }
  }
}
