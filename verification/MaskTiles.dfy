/** The eight mask patterns as a reader sees them: a small tile of dark and light modules repeated over
    the symbol (section 7.8.2 of ISO/IEC 18004:2015). */
module MaskTiles {
  import opened Zigzag

  /** Row by row, '#' for a module that is flipped. */
  function Tile(pattern: nat): (rows: seq<string>)
    ensures |rows| > 0 && |rows[0]| > 0 && forall r :: 0 <= r < |rows| ==> |rows[r]| == |rows[0]|
  {
    match pattern
    case 0 => ["#.", ".#"]
    case 1 => ["#", "."]
    case 2 => ["#.."]
    case 3 => ["#..", "..#", ".#."]
    case 4 => ["###...", "###...", "...###", "...###"]
    case 5 => ["######", "#.....", "#..#..", "#.#.#.", "#..#..", "#....."]
    case 6 => ["######", "###...", "##.##.", "#.#.#.", "#.##.#", "#...##"]
    case _ => ["#.#.#.", "...###", "#...##", ".#.#.#", "###...", ".###.."]
  }

  predicate Flips(pattern: nat, p: Position) {
    var rows := Tile(pattern);
    rows[p.row % |rows|][p.col % |rows[0]|] == '#'
  }

  function TileMask(pattern: nat): MaskFunction {
    (p: Position) => Flips(pattern, p)
  }
}
