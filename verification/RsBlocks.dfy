/** `QRRSBlock`: how the code words of each version and level are divided into blocks. */
module RsBlocks {

  datatype Level = L | M | Q | H

  /** `QRErrorCorrectionLevel` */
  function LevelCode(level: Level): nat {
    match level
    case L => 1
    case M => 0
    case Q => 3
    case H => 2
  }

  datatype RsBlock = RsBlock(totalCount: nat, dataCount: nat)

  /** A row of the table: `count` blocks of one size, then `count2` blocks of another. */
  datatype Row = Row(count: nat, total: nat, data: nat, count2: nat, total2: nat, data2: nat)

  // --- What holds of every row ---

  /** The modules of a symbol that carry code words, by version. */
  function RawModules(version: nat): int {
    var base := (16 * version + 128) * version + 64;
    var a := version / 7 + 2;
    if version < 2 then base
    else base - ((25 * a - 10) * a - 55) - (if version >= 7 then 36 else 0)
  }

  predicate SizeFits(total: nat, data: nat) {
    data <= total <= 255 && 0 < total - data <= 30
  }

  function RowTotal(r: Row): nat {
    r.count * r.total + r.count2 * r.total2
  }

  function RowData(r: Row): nat {
    r.count * r.data + r.count2 * r.data2
  }

  /** The most data words a version can hold at any level. */
  function MostData(version: nat): nat {
    if version < 10 then 232 else if version < 27 then 1370 else 2956
  }

  /** The row spends all the code words of its version, gives every block at most 30 words of
      error correction, keeps its data within the limit of the version range, and gives the blocks
      of the second size one data word more. */
  ghost predicate RowFits(version: nat, r: Row) {
    && RowTotal(r) == RawModules(version) / 8
    && r.count > 0 && SizeFits(r.total, r.data)
    && (r.count2 > 0 ==> SizeFits(r.total2, r.data2) && r.total2 == r.total + 1 && r.data2 == r.data + 1)
    && RowData(r) <= MostData(version)
  }

  /** A row with blocks of one size. */
  function One(version: nat, count: nat, total: nat, data: nat): (r: Row)
    requires count > 0 && SizeFits(total, data)
    requires count * total == RawModules(version) / 8 && count * data <= MostData(version)
    ensures RowFits(version, r)
  {
    Row(count, total, data, 0, 0, 0)
  }

  /** A row with blocks of two sizes. */
  function Two(version: nat, count: nat, total: nat, data: nat, count2: nat, total2: nat, data2: nat): (r: Row)
    requires count > 0 && SizeFits(total, data) && SizeFits(total2, data2)
    requires total2 == total + 1 && data2 == data + 1
    requires count * total + count2 * total2 == RawModules(version) / 8
    requires count * data + count2 * data2 <= MostData(version)
    ensures RowFits(version, r)
  {
    Row(count, total, data, count2, total2, data2)
  }

  function Pick(level: Level, l: Row, m: Row, q: Row, h: Row): Row {
    match level
    case L => l
    case M => m
    case Q => q
    case H => h
  }

  function Rows1To5(version: nat, level: Level): (r: Row)
    requires 1 <= version <= 5
    ensures RowFits(version, r)
  {
    hide RowFits;
    match version
    case 1 => Pick(level, One(1, 1, 26, 19), One(1, 1, 26, 16),
                    One(1, 1, 26, 13), One(1, 1, 26, 9))
    case 2 => Pick(level, One(2, 1, 44, 34), One(2, 1, 44, 28),
                    One(2, 1, 44, 22), One(2, 1, 44, 16))
    case 3 => Pick(level, One(3, 1, 70, 55), One(3, 1, 70, 44),
                    One(3, 2, 35, 17), One(3, 2, 35, 13))
    case 4 => Pick(level, One(4, 1, 100, 80), One(4, 2, 50, 32),
                    One(4, 2, 50, 24), One(4, 4, 25, 9))
    case _ => Pick(level, One(5, 1, 134, 108), One(5, 2, 67, 43),
                    Two(5, 2, 33, 15, 2, 34, 16), Two(5, 2, 33, 11, 2, 34, 12))
  }

  function Rows6To10(version: nat, level: Level): (r: Row)
    requires 6 <= version <= 10
    ensures RowFits(version, r)
  {
    hide RowFits;
    match version
    case 6 => Pick(level, One(6, 2, 86, 68), One(6, 4, 43, 27),
                    One(6, 4, 43, 19), One(6, 4, 43, 15))
    case 7 => Pick(level, One(7, 2, 98, 78), One(7, 4, 49, 31),
                    Two(7, 2, 32, 14, 4, 33, 15), Two(7, 4, 39, 13, 1, 40, 14))
    case 8 => Pick(level, One(8, 2, 121, 97), Two(8, 2, 60, 38, 2, 61, 39),
                    Two(8, 4, 40, 18, 2, 41, 19), Two(8, 4, 40, 14, 2, 41, 15))
    case 9 => Pick(level, One(9, 2, 146, 116), Two(9, 3, 58, 36, 2, 59, 37),
                    Two(9, 4, 36, 16, 4, 37, 17), Two(9, 4, 36, 12, 4, 37, 13))
    case _ => Pick(level, Two(10, 2, 86, 68, 2, 87, 69), Two(10, 4, 69, 43, 1, 70, 44),
                    Two(10, 6, 43, 19, 2, 44, 20), Two(10, 6, 43, 15, 2, 44, 16))
  }

  function Rows11To15(version: nat, level: Level): (r: Row)
    requires 11 <= version <= 15
    ensures RowFits(version, r)
  {
    hide RowFits;
    match version
    case 11 => Pick(level, One(11, 4, 101, 81), Two(11, 1, 80, 50, 4, 81, 51),
                    Two(11, 4, 50, 22, 4, 51, 23), Two(11, 3, 36, 12, 8, 37, 13))
    case 12 => Pick(level, Two(12, 2, 116, 92, 2, 117, 93), Two(12, 6, 58, 36, 2, 59, 37),
                    Two(12, 4, 46, 20, 6, 47, 21), Two(12, 7, 42, 14, 4, 43, 15))
    case 13 => Pick(level, One(13, 4, 133, 107), Two(13, 8, 59, 37, 1, 60, 38),
                    Two(13, 8, 44, 20, 4, 45, 21), Two(13, 12, 33, 11, 4, 34, 12))
    case 14 => Pick(level, Two(14, 3, 145, 115, 1, 146, 116), Two(14, 4, 64, 40, 5, 65, 41),
                    Two(14, 11, 36, 16, 5, 37, 17), Two(14, 11, 36, 12, 5, 37, 13))
    case _ => Pick(level, Two(15, 5, 109, 87, 1, 110, 88), Two(15, 5, 65, 41, 5, 66, 42),
                    Two(15, 5, 54, 24, 7, 55, 25), Two(15, 11, 36, 12, 7, 37, 13))
  }

  function Rows16To20(version: nat, level: Level): (r: Row)
    requires 16 <= version <= 20
    ensures RowFits(version, r)
  {
    hide RowFits;
    match version
    case 16 => Pick(level, Two(16, 5, 122, 98, 1, 123, 99), Two(16, 7, 73, 45, 3, 74, 46),
                    Two(16, 15, 43, 19, 2, 44, 20), Two(16, 3, 45, 15, 13, 46, 16))
    case 17 => Pick(level, Two(17, 1, 135, 107, 5, 136, 108), Two(17, 10, 74, 46, 1, 75, 47),
                    Two(17, 1, 50, 22, 15, 51, 23), Two(17, 2, 42, 14, 17, 43, 15))
    case 18 => Pick(level, Two(18, 5, 150, 120, 1, 151, 121), Two(18, 9, 69, 43, 4, 70, 44),
                    Two(18, 17, 50, 22, 1, 51, 23), Two(18, 2, 42, 14, 19, 43, 15))
    case 19 => Pick(level, Two(19, 3, 141, 113, 4, 142, 114), Two(19, 3, 70, 44, 11, 71, 45),
                    Two(19, 17, 47, 21, 4, 48, 22), Two(19, 9, 39, 13, 16, 40, 14))
    case _ => Pick(level, Two(20, 3, 135, 107, 5, 136, 108), Two(20, 3, 67, 41, 13, 68, 42),
                    Two(20, 15, 54, 24, 5, 55, 25), Two(20, 15, 43, 15, 10, 44, 16))
  }

  function Rows21To25(version: nat, level: Level): (r: Row)
    requires 21 <= version <= 25
    ensures RowFits(version, r)
  {
    hide RowFits;
    match version
    case 21 => Pick(level, Two(21, 4, 144, 116, 4, 145, 117), One(21, 17, 68, 42),
                    Two(21, 17, 50, 22, 6, 51, 23), Two(21, 19, 46, 16, 6, 47, 17))
    case 22 => Pick(level, Two(22, 2, 139, 111, 7, 140, 112), One(22, 17, 74, 46),
                    Two(22, 7, 54, 24, 16, 55, 25), One(22, 34, 37, 13))
    case 23 => Pick(level, Two(23, 4, 151, 121, 5, 152, 122), Two(23, 4, 75, 47, 14, 76, 48),
                    Two(23, 11, 54, 24, 14, 55, 25), Two(23, 16, 45, 15, 14, 46, 16))
    case 24 => Pick(level, Two(24, 6, 147, 117, 4, 148, 118), Two(24, 6, 73, 45, 14, 74, 46),
                    Two(24, 11, 54, 24, 16, 55, 25), Two(24, 30, 46, 16, 2, 47, 17))
    case _ => Pick(level, Two(25, 8, 132, 106, 4, 133, 107), Two(25, 8, 75, 47, 13, 76, 48),
                    Two(25, 7, 54, 24, 22, 55, 25), Two(25, 22, 45, 15, 13, 46, 16))
  }

  function Rows26To30(version: nat, level: Level): (r: Row)
    requires 26 <= version <= 30
    ensures RowFits(version, r)
  {
    hide RowFits;
    match version
    case 26 => Pick(level, Two(26, 10, 142, 114, 2, 143, 115), Two(26, 19, 74, 46, 4, 75, 47),
                    Two(26, 28, 50, 22, 6, 51, 23), Two(26, 33, 46, 16, 4, 47, 17))
    case 27 => Pick(level, Two(27, 8, 152, 122, 4, 153, 123), Two(27, 22, 73, 45, 3, 74, 46),
                    Two(27, 8, 53, 23, 26, 54, 24), Two(27, 12, 45, 15, 28, 46, 16))
    case 28 => Pick(level, Two(28, 3, 147, 117, 10, 148, 118), Two(28, 3, 73, 45, 23, 74, 46),
                    Two(28, 4, 54, 24, 31, 55, 25), Two(28, 11, 45, 15, 31, 46, 16))
    case 29 => Pick(level, Two(29, 7, 146, 116, 7, 147, 117), Two(29, 21, 73, 45, 7, 74, 46),
                    Two(29, 1, 53, 23, 37, 54, 24), Two(29, 19, 45, 15, 26, 46, 16))
    case _ => Pick(level, Two(30, 5, 145, 115, 10, 146, 116), Two(30, 19, 75, 47, 10, 76, 48),
                    Two(30, 15, 54, 24, 25, 55, 25), Two(30, 23, 45, 15, 25, 46, 16))
  }

  function Rows31To35(version: nat, level: Level): (r: Row)
    requires 31 <= version <= 35
    ensures RowFits(version, r)
  {
    hide RowFits;
    match version
    case 31 => Pick(level, Two(31, 13, 145, 115, 3, 146, 116), Two(31, 2, 74, 46, 29, 75, 47),
                    Two(31, 42, 54, 24, 1, 55, 25), Two(31, 23, 45, 15, 28, 46, 16))
    case 32 => Pick(level, One(32, 17, 145, 115), Two(32, 10, 74, 46, 23, 75, 47),
                    Two(32, 10, 54, 24, 35, 55, 25), Two(32, 19, 45, 15, 35, 46, 16))
    case 33 => Pick(level, Two(33, 17, 145, 115, 1, 146, 116), Two(33, 14, 74, 46, 21, 75, 47),
                    Two(33, 29, 54, 24, 19, 55, 25), Two(33, 11, 45, 15, 46, 46, 16))
    case 34 => Pick(level, Two(34, 13, 145, 115, 6, 146, 116), Two(34, 14, 74, 46, 23, 75, 47),
                    Two(34, 44, 54, 24, 7, 55, 25), Two(34, 59, 46, 16, 1, 47, 17))
    case _ => Pick(level, Two(35, 12, 151, 121, 7, 152, 122), Two(35, 12, 75, 47, 26, 76, 48),
                    Two(35, 39, 54, 24, 14, 55, 25), Two(35, 22, 45, 15, 41, 46, 16))
  }

  function Rows36To40(version: nat, level: Level): (r: Row)
    requires 36 <= version <= 40
    ensures RowFits(version, r)
  {
    hide RowFits;
    match version
    case 36 => Pick(level, Two(36, 6, 151, 121, 14, 152, 122), Two(36, 6, 75, 47, 34, 76, 48),
                    Two(36, 46, 54, 24, 10, 55, 25), Two(36, 2, 45, 15, 64, 46, 16))
    case 37 => Pick(level, Two(37, 17, 152, 122, 4, 153, 123), Two(37, 29, 74, 46, 14, 75, 47),
                    Two(37, 49, 54, 24, 10, 55, 25), Two(37, 24, 45, 15, 46, 46, 16))
    case 38 => Pick(level, Two(38, 4, 152, 122, 18, 153, 123), Two(38, 13, 74, 46, 32, 75, 47),
                    Two(38, 48, 54, 24, 14, 55, 25), Two(38, 42, 45, 15, 32, 46, 16))
    case 39 => Pick(level, Two(39, 20, 147, 117, 4, 148, 118), Two(39, 40, 75, 47, 7, 76, 48),
                    Two(39, 43, 54, 24, 22, 55, 25), Two(39, 10, 45, 15, 67, 46, 16))
    case _ => Pick(level, Two(40, 19, 148, 118, 6, 149, 119), Two(40, 18, 75, 47, 31, 76, 48),
                    Two(40, 34, 54, 24, 34, 55, 25), Two(40, 20, 45, 15, 61, 46, 16))
  }

  /** `RS_BLOCK_TABLE` for the versions 1 to 40. */
  function TableRow(version: nat, level: Level): (r: Row)
    requires 1 <= version <= 40
    ensures RowFits(version, r)
  {
    hide *;
    if version <= 5 then Rows1To5(version, level)
    else if version <= 10 then Rows6To10(version, level)
    else if version <= 15 then Rows11To15(version, level)
    else if version <= 20 then Rows16To20(version, level)
    else if version <= 25 then Rows21To25(version, level)
    else if version <= 30 then Rows26To30(version, level)
    else if version <= 35 then Rows31To35(version, level)
    else Rows36To40(version, level)
  }

  /** A higher level leaves less room for data. */
  ghost predicate LevelsDescend(version: nat)
    requires 1 <= version <= 40
  {
    RowData(TableRow(version, L)) > RowData(TableRow(version, M)) > RowData(TableRow(version, Q))
      > RowData(TableRow(version, H))
  }

  lemma Descend1To5(version: nat)
    requires 1 <= version <= 5
    ensures LevelsDescend(version)
  {
    hide RowFits;
  }

  lemma Descend6To10(version: nat)
    requires 6 <= version <= 10
    ensures LevelsDescend(version)
  {
    hide RowFits;
  }

  lemma Descend11To15(version: nat)
    requires 11 <= version <= 15
    ensures LevelsDescend(version)
  {
    hide RowFits;
  }

  lemma Descend16To20(version: nat)
    requires 16 <= version <= 20
    ensures LevelsDescend(version)
  {
    hide RowFits;
  }

  lemma Descend21To25(version: nat)
    requires 21 <= version <= 25
    ensures LevelsDescend(version)
  {
    hide RowFits;
  }

  lemma Descend26To30(version: nat)
    requires 26 <= version <= 30
    ensures LevelsDescend(version)
  {
    hide RowFits;
  }

  lemma Descend31To35(version: nat)
    requires 31 <= version <= 35
    ensures LevelsDescend(version)
  {
    hide RowFits;
  }

  lemma Descend36To40(version: nat)
    requires 36 <= version <= 40
    ensures LevelsDescend(version)
  {
    hide RowFits;
  }

  /** In every version the four levels are in order. */
  lemma DataDescends(version: nat)
    requires 1 <= version <= 40
    ensures LevelsDescend(version)
  {
    hide LevelsDescend;
    if version <= 5 {
      Descend1To5(version);
    } else if version <= 10 {
      Descend6To10(version);
    } else if version <= 15 {
      Descend11To15(version);
    } else if version <= 20 {
      Descend16To20(version);
    } else if version <= 25 {
      Descend21To25(version);
    } else if version <= 30 {
      Descend26To30(version);
    } else if version <= 35 {
      Descend31To35(version);
    } else {
      Descend36To40(version);
    }
  }

  // --- Expansion of a row into blocks ---

  function Repeat(b: RsBlock, n: nat): (s: seq<RsBlock>)
    ensures |s| == n && forall i :: 0 <= i < n ==> s[i] == b
  {
    if n == 0 then [] else Repeat(b, n - 1) + [b]
  }

  function Blocks(version: nat, level: Level): seq<RsBlock>
    requires 1 <= version <= 40
  {
    var r := TableRow(version, level);
    Repeat(RsBlock(r.total, r.data), r.count) + Repeat(RsBlock(r.total2, r.data2), r.count2)
  }

  /** `getRSBlocks` */
  method GetRSBlocks(version: nat, level: Level) returns (list: seq<RsBlock>)
    requires 1 <= version <= 40
    ensures list == Blocks(version, level)
  {
    hide TableRow;
    var r := TableRow(version, level);
    list := [];
    for j := 0 to r.count
      invariant list == Repeat(RsBlock(r.total, r.data), j)
    {
      list := list + [RsBlock(r.total, r.data)];
    }
    ghost var first := list;
    assert first + Repeat(RsBlock(r.total2, r.data2), 0) == first;
    for j := 0 to r.count2
      invariant list == first + Repeat(RsBlock(r.total2, r.data2), j)
    {
      list := list + [RsBlock(r.total2, r.data2)];
    }
  }

  function TotalCount(blocks: seq<RsBlock>): nat {
    if |blocks| == 0 then 0 else TotalCount(blocks[..|blocks| - 1]) + blocks[|blocks| - 1].totalCount
  }

  function DataCount(blocks: seq<RsBlock>): nat {
    if |blocks| == 0 then 0 else DataCount(blocks[..|blocks| - 1]) + blocks[|blocks| - 1].dataCount
  }

  lemma {:induction false} CountRepeat(prefix: seq<RsBlock>, b: RsBlock, n: nat)
    ensures TotalCount(prefix + Repeat(b, n)) == TotalCount(prefix) + n * b.totalCount
    ensures DataCount(prefix + Repeat(b, n)) == DataCount(prefix) + n * b.dataCount
  {
    if n == 0 {
      assert prefix + Repeat(b, 0) == prefix;
    } else {
      CountRepeat(prefix, b, n - 1);
      assert (prefix + Repeat(b, n))[..|prefix| + n - 1] == prefix + Repeat(b, n - 1);
      assert n * b.totalCount == (n - 1) * b.totalCount + b.totalCount;
      assert n * b.dataCount == (n - 1) * b.dataCount + b.dataCount;
    }
  }

  lemma BlockCounts(version: nat, level: Level)
    requires 1 <= version <= 40
    ensures TotalCount(Blocks(version, level)) == RowTotal(TableRow(version, level))
    ensures DataCount(Blocks(version, level)) == RowData(TableRow(version, level))
  {
    hide TableRow;
    var r := TableRow(version, level);
    CountRepeat([], RsBlock(r.total, r.data), r.count);
    CountRepeat(Repeat(RsBlock(r.total, r.data), r.count), RsBlock(r.total2, r.data2), r.count2);
    assert [] + Repeat(RsBlock(r.total, r.data), r.count) == Repeat(RsBlock(r.total, r.data), r.count);
  }
}
