/** The block table from two numbers per version and level, the number of blocks and the parity words of
    each (Table 9 of ISO/IEC 18004:2015): everything else in a row follows from them. */
module BlockTable {
  import opened RsBlocks

  /** The number of blocks for five versions from 5 * group + 1 on. */
  function BlockNumbers(level: Level, group: nat): (s: seq<nat>)
    ensures |s| == 5
  {
    match level
    case L =>
      if group == 0 then [1, 1, 1, 1, 1]
      else if group == 1 then [2, 2, 2, 2, 4]
      else if group == 2 then [4, 4, 4, 4, 6]
      else if group == 3 then [6, 6, 6, 7, 8]
      else if group == 4 then [8, 9, 9, 10, 12]
      else if group == 5 then [12, 12, 13, 14, 15]
      else if group == 6 then [16, 17, 18, 19, 19]
      else [20, 21, 22, 24, 25]
    case M =>
      if group == 0 then [1, 1, 1, 2, 2]
      else if group == 1 then [4, 4, 4, 5, 5]
      else if group == 2 then [5, 8, 9, 9, 10]
      else if group == 3 then [10, 11, 13, 14, 16]
      else if group == 4 then [17, 17, 18, 20, 21]
      else if group == 5 then [23, 25, 26, 28, 29]
      else if group == 6 then [31, 33, 35, 37, 38]
      else [40, 43, 45, 47, 49]
    case Q =>
      if group == 0 then [1, 1, 2, 2, 4]
      else if group == 1 then [4, 6, 6, 8, 8]
      else if group == 2 then [8, 10, 12, 16, 12]
      else if group == 3 then [17, 16, 18, 21, 20]
      else if group == 4 then [23, 23, 25, 27, 29]
      else if group == 5 then [34, 34, 35, 38, 40]
      else if group == 6 then [43, 45, 48, 51, 53]
      else [56, 59, 62, 65, 68]
    case H =>
      if group == 0 then [1, 1, 2, 4, 4]
      else if group == 1 then [4, 5, 6, 8, 8]
      else if group == 2 then [11, 11, 16, 16, 18]
      else if group == 3 then [16, 19, 21, 25, 25]
      else if group == 4 then [25, 34, 30, 32, 35]
      else if group == 5 then [37, 40, 42, 45, 48]
      else if group == 6 then [51, 54, 57, 60, 63]
      else [66, 70, 74, 77, 81]
  }

  /** The parity words of a block, likewise. */
  function ParityWords(level: Level, group: nat): (s: seq<nat>)
    ensures |s| == 5
  {
    match level
    case L =>
      if group == 0 then [7, 10, 15, 20, 26]
      else if group == 1 then [18, 20, 24, 30, 18]
      else if group == 2 then [20, 24, 26, 30, 22]
      else if group == 3 then [24, 28, 30, 28, 28]
      else if group == 4 then [28, 28, 30, 30, 26]
      else if group == 5 then [28, 30, 30, 30, 30]
      else if group == 6 then [30, 30, 30, 30, 30]
      else [30, 30, 30, 30, 30]
    case M =>
      if group == 0 then [10, 16, 26, 18, 24]
      else if group == 1 then [16, 18, 22, 22, 26]
      else if group == 2 then [30, 22, 22, 24, 24]
      else if group == 3 then [28, 28, 26, 26, 26]
      else if group == 4 then [26, 28, 28, 28, 28]
      else if group == 5 then [28, 28, 28, 28, 28]
      else if group == 6 then [28, 28, 28, 28, 28]
      else [28, 28, 28, 28, 28]
    case Q =>
      if group == 0 then [13, 22, 18, 26, 18]
      else if group == 1 then [24, 18, 22, 20, 24]
      else if group == 2 then [28, 26, 24, 20, 30]
      else if group == 3 then [24, 28, 28, 26, 30]
      else if group == 4 then [28, 30, 30, 30, 30]
      else if group == 5 then [28, 30, 30, 30, 30]
      else if group == 6 then [30, 30, 30, 30, 30]
      else [30, 30, 30, 30, 30]
    case H =>
      if group == 0 then [17, 28, 22, 16, 22]
      else if group == 1 then [28, 26, 26, 24, 28]
      else if group == 2 then [24, 28, 22, 24, 24]
      else if group == 3 then [30, 28, 28, 26, 28]
      else if group == 4 then [30, 24, 30, 30, 30]
      else if group == 5 then [30, 30, 30, 30, 30]
      else if group == 6 then [30, 30, 30, 30, 30]
      else [30, 30, 30, 30, 30]
  }

  function BlockNumber(level: Level, version: nat): nat
    requires version > 0
  {
    BlockNumbers(level, (version - 1) / 5)[(version - 1) % 5]
  }

  function ParityWord(level: Level, version: nat): nat
    requires version > 0
  {
    ParityWords(level, (version - 1) / 5)[(version - 1) % 5]
  }

  ghost predicate FollowsFrom(version: nat, level: Level, blocks: nat, parity: nat)
    requires 1 <= version <= 40
  {
    var r := TableRow(version, level);
    r.count + r.count2 == blocks && r.data + parity == r.total
  }

  /** These two numbers determine a row of the version: the words of the version are divided into blocks
      as equal as can be. */
  lemma RowDetermined(version: nat, r: Row, s: Row)
    requires RowFits(version, r) && RowFits(version, s)
    requires r.count + r.count2 == s.count + s.count2 && r.total - r.data == s.total - s.data
    ensures r.count == s.count && r.total == s.total && r.data == s.data && r.count2 == s.count2
    ensures r.count2 > 0 ==> r.total2 == s.total2 && r.data2 == s.data2
  {
    hide RawModules, MostData, SizeFits;
    var n := r.count + r.count2;
    TotalIs(r);
    TotalIs(s);
    SameDivision(n, r.total, r.count2, s.total, s.count2);
  }

  lemma TotalIs(r: Row)
    requires r.count2 > 0 ==> r.total2 == r.total + 1
    ensures RowTotal(r) == (r.count + r.count2) * r.total + r.count2
  {
    if r.count2 == 0 {
    } else {
      assert r.count2 * (r.total + 1) == r.count2 * r.total + r.count2;
    }
  }

  lemma SameDivision(n: nat, t: nat, k: nat, u: nat, l: nat)
    requires n * t + k == n * u + l && k < n && l < n
    ensures t == u && k == l
  {
    if t < u { Larger(n, t, u); }
    if u < t { Larger(n, u, t); }
  }

  lemma {:induction false} Larger(n: nat, t: nat, u: nat)
    requires t < u
    ensures n * t + n <= n * u
  {
    assert n * u == n * (u - 1) + n;
    if u == t + 1 {
    } else {
      Larger(n, t, u - 1);
    }
  }

  lemma Rows1To5L(version: nat)
    requires 1 <= version <= 5
    ensures FollowsFrom(version, L, BlockNumber(L, version), ParityWord(L, version))
  {
    hide RowFits;
  }

  lemma Rows1To5M(version: nat)
    requires 1 <= version <= 5
    ensures FollowsFrom(version, M, BlockNumber(M, version), ParityWord(M, version))
  {
    hide RowFits;
  }

  lemma Rows1To5Q(version: nat)
    requires 1 <= version <= 5
    ensures FollowsFrom(version, Q, BlockNumber(Q, version), ParityWord(Q, version))
  {
    hide RowFits;
  }

  lemma Rows1To5H(version: nat)
    requires 1 <= version <= 5
    ensures FollowsFrom(version, H, BlockNumber(H, version), ParityWord(H, version))
  {
    hide RowFits;
  }

  lemma Rows6To10L(version: nat)
    requires 6 <= version <= 10
    ensures FollowsFrom(version, L, BlockNumber(L, version), ParityWord(L, version))
  {
    hide RowFits;
  }

  lemma Rows6To10M(version: nat)
    requires 6 <= version <= 10
    ensures FollowsFrom(version, M, BlockNumber(M, version), ParityWord(M, version))
  {
    hide RowFits;
  }

  lemma Rows6To10Q(version: nat)
    requires 6 <= version <= 10
    ensures FollowsFrom(version, Q, BlockNumber(Q, version), ParityWord(Q, version))
  {
    hide RowFits;
  }

  lemma Rows6To10H(version: nat)
    requires 6 <= version <= 10
    ensures FollowsFrom(version, H, BlockNumber(H, version), ParityWord(H, version))
  {
    hide RowFits;
  }

  lemma Rows11To15L(version: nat)
    requires 11 <= version <= 15
    ensures FollowsFrom(version, L, BlockNumber(L, version), ParityWord(L, version))
  {
    hide RowFits;
  }

  lemma Rows11To15M(version: nat)
    requires 11 <= version <= 15
    ensures FollowsFrom(version, M, BlockNumber(M, version), ParityWord(M, version))
  {
    hide RowFits;
  }

  lemma Rows11To15Q(version: nat)
    requires 11 <= version <= 15
    ensures FollowsFrom(version, Q, BlockNumber(Q, version), ParityWord(Q, version))
  {
    hide RowFits;
  }

  lemma Rows11To15H(version: nat)
    requires 11 <= version <= 15
    ensures FollowsFrom(version, H, BlockNumber(H, version), ParityWord(H, version))
  {
    hide RowFits;
  }

  lemma Rows16To20L(version: nat)
    requires 16 <= version <= 20
    ensures FollowsFrom(version, L, BlockNumber(L, version), ParityWord(L, version))
  {
    hide RowFits;
  }

  lemma Rows16To20M(version: nat)
    requires 16 <= version <= 20
    ensures FollowsFrom(version, M, BlockNumber(M, version), ParityWord(M, version))
  {
    hide RowFits;
  }

  lemma Rows16To20Q(version: nat)
    requires 16 <= version <= 20
    ensures FollowsFrom(version, Q, BlockNumber(Q, version), ParityWord(Q, version))
  {
    hide RowFits;
  }

  lemma Rows16To20H(version: nat)
    requires 16 <= version <= 20
    ensures FollowsFrom(version, H, BlockNumber(H, version), ParityWord(H, version))
  {
    hide RowFits;
  }

  lemma Rows21To25L(version: nat)
    requires 21 <= version <= 25
    ensures FollowsFrom(version, L, BlockNumber(L, version), ParityWord(L, version))
  {
    hide RowFits;
  }

  lemma Rows21To25M(version: nat)
    requires 21 <= version <= 25
    ensures FollowsFrom(version, M, BlockNumber(M, version), ParityWord(M, version))
  {
    hide RowFits;
  }

  lemma Rows21To25Q(version: nat)
    requires 21 <= version <= 25
    ensures FollowsFrom(version, Q, BlockNumber(Q, version), ParityWord(Q, version))
  {
    hide RowFits;
  }

  lemma Rows21To25H(version: nat)
    requires 21 <= version <= 25
    ensures FollowsFrom(version, H, BlockNumber(H, version), ParityWord(H, version))
  {
    hide RowFits;
  }

  lemma Rows26To30L(version: nat)
    requires 26 <= version <= 30
    ensures FollowsFrom(version, L, BlockNumber(L, version), ParityWord(L, version))
  {
    hide RowFits;
  }

  lemma Rows26To30M(version: nat)
    requires 26 <= version <= 30
    ensures FollowsFrom(version, M, BlockNumber(M, version), ParityWord(M, version))
  {
    hide RowFits;
  }

  lemma Rows26To30Q(version: nat)
    requires 26 <= version <= 30
    ensures FollowsFrom(version, Q, BlockNumber(Q, version), ParityWord(Q, version))
  {
    hide RowFits;
  }

  lemma Rows26To30H(version: nat)
    requires 26 <= version <= 30
    ensures FollowsFrom(version, H, BlockNumber(H, version), ParityWord(H, version))
  {
    hide RowFits;
  }

  lemma Rows31To35L(version: nat)
    requires 31 <= version <= 35
    ensures FollowsFrom(version, L, BlockNumber(L, version), ParityWord(L, version))
  {
    hide RowFits;
  }

  lemma Rows31To35M(version: nat)
    requires 31 <= version <= 35
    ensures FollowsFrom(version, M, BlockNumber(M, version), ParityWord(M, version))
  {
    hide RowFits;
  }

  lemma Rows31To35Q(version: nat)
    requires 31 <= version <= 35
    ensures FollowsFrom(version, Q, BlockNumber(Q, version), ParityWord(Q, version))
  {
    hide RowFits;
  }

  lemma Rows31To35H(version: nat)
    requires 31 <= version <= 35
    ensures FollowsFrom(version, H, BlockNumber(H, version), ParityWord(H, version))
  {
    hide RowFits;
  }

  lemma Rows36To40L(version: nat)
    requires 36 <= version <= 40
    ensures FollowsFrom(version, L, BlockNumber(L, version), ParityWord(L, version))
  {
    hide RowFits;
  }

  lemma Rows36To40M(version: nat)
    requires 36 <= version <= 40
    ensures FollowsFrom(version, M, BlockNumber(M, version), ParityWord(M, version))
  {
    hide RowFits;
  }

  lemma Rows36To40Q(version: nat)
    requires 36 <= version <= 40
    ensures FollowsFrom(version, Q, BlockNumber(Q, version), ParityWord(Q, version))
  {
    hide RowFits;
  }

  lemma Rows36To40H(version: nat)
    requires 36 <= version <= 40
    ensures FollowsFrom(version, H, BlockNumber(H, version), ParityWord(H, version))
  {
    hide RowFits;
  }

  /** Every row of the source has these numbers. */
  lemma RowFollows(version: nat, level: Level)
    requires 1 <= version <= 40
    ensures FollowsFrom(version, level, BlockNumber(level, version), ParityWord(level, version))
  {
    hide FollowsFrom, BlockNumber, ParityWord;
    match level
    case L => RowsOfL(version);
    case M => RowsOfM(version);
    case Q => RowsOfQ(version);
    case H => RowsOfH(version);
  }

  lemma RowsOfL(version: nat)
    requires 1 <= version <= 40
    ensures FollowsFrom(version, L, BlockNumber(L, version), ParityWord(L, version))
  {
    hide *;
    if version <= 5 {
      Rows1To5L(version);
    } else if version <= 10 {
      Rows6To10L(version);
    } else if version <= 15 {
      Rows11To15L(version);
    } else if version <= 20 {
      Rows16To20L(version);
    } else if version <= 25 {
      Rows21To25L(version);
    } else if version <= 30 {
      Rows26To30L(version);
    } else if version <= 35 {
      Rows31To35L(version);
    } else {
      Rows36To40L(version);
    }
  }

  lemma RowsOfM(version: nat)
    requires 1 <= version <= 40
    ensures FollowsFrom(version, M, BlockNumber(M, version), ParityWord(M, version))
  {
    hide *;
    if version <= 5 {
      Rows1To5M(version);
    } else if version <= 10 {
      Rows6To10M(version);
    } else if version <= 15 {
      Rows11To15M(version);
    } else if version <= 20 {
      Rows16To20M(version);
    } else if version <= 25 {
      Rows21To25M(version);
    } else if version <= 30 {
      Rows26To30M(version);
    } else if version <= 35 {
      Rows31To35M(version);
    } else {
      Rows36To40M(version);
    }
  }

  lemma RowsOfQ(version: nat)
    requires 1 <= version <= 40
    ensures FollowsFrom(version, Q, BlockNumber(Q, version), ParityWord(Q, version))
  {
    hide *;
    if version <= 5 {
      Rows1To5Q(version);
    } else if version <= 10 {
      Rows6To10Q(version);
    } else if version <= 15 {
      Rows11To15Q(version);
    } else if version <= 20 {
      Rows16To20Q(version);
    } else if version <= 25 {
      Rows21To25Q(version);
    } else if version <= 30 {
      Rows26To30Q(version);
    } else if version <= 35 {
      Rows31To35Q(version);
    } else {
      Rows36To40Q(version);
    }
  }

  lemma RowsOfH(version: nat)
    requires 1 <= version <= 40
    ensures FollowsFrom(version, H, BlockNumber(H, version), ParityWord(H, version))
  {
    hide *;
    if version <= 5 {
      Rows1To5H(version);
    } else if version <= 10 {
      Rows6To10H(version);
    } else if version <= 15 {
      Rows11To15H(version);
    } else if version <= 20 {
      Rows16To20H(version);
    } else if version <= 25 {
      Rows21To25H(version);
    } else if version <= 30 {
      Rows26To30H(version);
    } else if version <= 35 {
      Rows31To35H(version);
    } else {
      Rows36To40H(version);
    }
  }
}
