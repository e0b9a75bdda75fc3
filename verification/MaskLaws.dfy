/** The mask functions repeat the tiles of the standard. */
module MaskLaws {
  import opened Zigzag
  import opened MaskTiles
  import opened QrSymbol

  lemma FirstMasks(pattern: nat, p: Position)
    requires pattern < 4
    ensures Masked(pattern, p) == Flips(pattern, p)
  {
  }

  lemma FourthMask(p: Position)
    ensures Masked(4, p) == Flips(4, p)
  {
    FourthRepeats(p);
    FourthTile(p.row % 4, p.col % 6);
    FourthTileRepeats(p);
  }

  lemma FourthRepeats(p: Position)
    ensures Masked(4, p) == Masked(4, Position(p.row % 4, p.col % 6))
  {
    var q := Position(p.row % 4, p.col % 6);
    Halves(p.row);
    Thirds(p.col);
    SameParity(p.row / 2, p.col / 3, q.row / 2, q.col / 3);
    FourthIs(p);
    FourthIs(q);
    hide Masked;
  }

  lemma FourthIs(p: Position)
    ensures Masked(4, p) == ((p.row / 2 + p.col / 3) % 2 == 0)
  {
  }

  lemma SameParity(x: nat, y: nat, x': nat, y': nat)
    requires x % 2 == x' % 2 && y % 2 == y' % 2
    ensures (x + y) % 2 == (x' + y') % 2
  {
  }

  lemma FourthTileRepeats(p: Position)
    ensures Flips(4, p) == Flips(4, Position(p.row % 4, p.col % 6))
  {
    TileSize(4);
    hide Tile;
  }

  lemma TileSize(pattern: nat)
    requires 4 <= pattern < 8
    ensures |Tile(pattern)| == (if pattern == 4 then 4 else 6) && |Tile(pattern)[0]| == 6
  {
  }

  /** The parity of i / 2 follows from i modulo 4. */
  lemma Halves(i: nat)
    ensures (i / 2) % 2 == (i % 4 / 2) % 2
  {
  }

  lemma Thirds(j: nat)
    ensures (j / 3) % 2 == (j % 6 / 3) % 2
  {
  }

  lemma FourthTile(r: nat, c: nat)
    requires r < 4 && c < 6
    ensures Masked(4, Position(r, c)) == Flips(4, Position(r, c))
  {
  }

  lemma FifthTile(r: nat, c: nat)
    requires r < 6 && c < 6
    ensures Masked(5, Position(r, c)) == Flips(5, Position(r, c))
  {
  }

  lemma SixthTileUpper(r: nat, c: nat)
    requires r < 3 && c < 6
    ensures Masked(6, Position(r, c)) == Flips(6, Position(r, c))
  {
  }

  lemma SixthTileLower(r: nat, c: nat)
    requires 3 <= r < 6 && c < 6
    ensures Masked(6, Position(r, c)) == Flips(6, Position(r, c))
  {
  }

  lemma SixthTile(r: nat, c: nat)
    requires r < 6 && c < 6
    ensures Masked(6, Position(r, c)) == Flips(6, Position(r, c))
  {
    hide Masked, Flips;
    if r < 3 { SixthTileUpper(r, c); } else { SixthTileLower(r, c); }
  }

  lemma SeventhTileUpper(r: nat, c: nat)
    requires r < 3 && c < 6
    ensures Masked(7, Position(r, c)) == Flips(7, Position(r, c))
  {
  }

  lemma SeventhTileLower(r: nat, c: nat)
    requires 3 <= r < 6 && c < 6
    ensures Masked(7, Position(r, c)) == Flips(7, Position(r, c))
  {
  }

  lemma SeventhTile(r: nat, c: nat)
    requires r < 6 && c < 6
    ensures Masked(7, Position(r, c)) == Flips(7, Position(r, c))
  {
    hide Masked, Flips;
    if r < 3 { SeventhTileUpper(r, c); } else { SeventhTileLower(r, c); }
  }

  /** A product depends on its factors modulo 6 only, as far as its remainders by 2 and 3 go. */
  lemma ProductRemainders(i: nat, j: nat)
    ensures (i * j) % 2 == ((i % 6) * (j % 6)) % 2
    ensures (i * j) % 3 == ((i % 6) * (j % 6)) % 3
    ensures (i + j) % 2 == (i % 6 + j % 6) % 2
  {
    ProductOf(i / 6, i % 6, j / 6, j % 6);
    SumOf(i / 6, i % 6, j / 6, j % 6);
    assert i == 6 * (i / 6) + i % 6 && j == 6 * (j / 6) + j % 6;
  }

  lemma ProductOf(a: nat, r: nat, b: nat, s: nat)
    ensures ((6 * a + r) * (6 * b + s)) % 2 == (r * s) % 2 && ((6 * a + r) * (6 * b + s)) % 3 == (r * s) % 3
  {
    Expanded(a, r, b, s);
    SixfoldMore(6 * a * b + a * s + b * r, r * s);
  }

  lemma SumOf(a: nat, r: nat, b: nat, s: nat)
    ensures (6 * a + r + (6 * b + s)) % 2 == (r + s) % 2
  {
    SixfoldMore(a + b, r + s);
  }

  lemma Expanded(a: nat, r: nat, b: nat, s: nat)
    ensures (6 * a + r) * (6 * b + s) == 6 * (6 * a * b + a * s + b * r) + r * s
  {
  }

  lemma SixfoldMore(m: nat, x: nat)
    ensures (6 * m + x) % 2 == x % 2 && (6 * m + x) % 3 == x % 3
  {
    EvenMore(6 * m + x, 3 * m, x);
    ThreefoldMore(6 * m + x, 2 * m, x);
  }

  lemma EvenMore(y: nat, m: nat, x: nat)
    requires y == 2 * m + x
    ensures y % 2 == x % 2
  {
  }

  lemma ThreefoldMore(y: nat, m: nat, x: nat)
    requires y == 3 * m + x
    ensures y % 3 == x % 3
  {
  }

  /** Each mask function is its tile, all over the symbol. */
  lemma MaskIsTile(pattern: nat, p: Position)
    requires pattern < 8
    ensures Masked(pattern, p) == Flips(pattern, p)
  {
    if pattern < 4 {
      FirstMasks(pattern, p);
    } else if pattern == 4 {
      FourthMask(p);
    } else {
      SixBySix(pattern, p);
    }
  }

  lemma SixBySix(pattern: nat, p: Position)
    requires 5 <= pattern < 8
    ensures Masked(pattern, p) == Flips(pattern, p)
  {
    var q := Position(p.row % 6, p.col % 6);
    MaskRepeats(pattern, p);
    TileRepeats(pattern, p);
    hide Masked, Flips;
    if pattern == 5 {
      FifthTile(q.row, q.col);
    } else if pattern == 6 {
      SixthTile(q.row, q.col);
    } else {
      SeventhTile(q.row, q.col);
    }
  }

  lemma MaskRepeats(pattern: nat, p: Position)
    requires 5 <= pattern < 8
    ensures Masked(pattern, p) == Masked(pattern, Position(p.row % 6, p.col % 6))
  {
    ProductRemainders(p.row, p.col);
  }

  lemma TileRepeats(pattern: nat, p: Position)
    requires 5 <= pattern < 8
    ensures Flips(pattern, p) == Flips(pattern, Position(p.row % 6, p.col % 6))
  {
    TileSize(pattern);
    hide Tile;
  }
}
