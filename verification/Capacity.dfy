/** The capacity tables of the 40 versions and four error correction levels. */
module Capacity {
  import opened Patterns
  import opened ModuleCount
  import opened Interleave

  /** Error correction codewords per block at the four levels, then the number of blocks at the four levels. */
  datatype Row = Row(eccL: nat, eccM: nat, eccQ: nat, eccH: nat, blocksL: nat, blocksM: nat, blocksQ: nat, blocksH: nat)

  function Table(ver: nat): Row {
    if ver <= 20 then LowTable(ver) else HighTable(ver)
  }

  function LowTable(ver: nat): Row {
    match ver
    case 1 => Row(7, 10, 13, 17,  1, 1, 1, 1)
    case 2 => Row(10, 16, 22, 28,  1, 1, 1, 1)
    case 3 => Row(15, 26, 18, 22,  1, 1, 2, 2)
    case 4 => Row(20, 18, 26, 16,  1, 2, 2, 4)
    case 5 => Row(26, 24, 18, 22,  1, 2, 4, 4)
    case 6 => Row(18, 16, 24, 28,  2, 4, 4, 4)
    case 7 => Row(20, 18, 18, 26,  2, 4, 6, 5)
    case 8 => Row(24, 22, 22, 26,  2, 4, 6, 6)
    case 9 => Row(30, 22, 20, 24,  2, 5, 8, 8)
    case 10 => Row(18, 26, 24, 28,  4, 5, 8, 8)
    case 11 => Row(20, 30, 28, 24,  4, 5, 8, 11)
    case 12 => Row(24, 22, 26, 28,  4, 8, 10, 11)
    case 13 => Row(26, 22, 24, 22,  4, 9, 12, 16)
    case 14 => Row(30, 24, 20, 24,  4, 9, 16, 16)
    case 15 => Row(22, 24, 30, 24,  6, 10, 12, 18)
    case 16 => Row(24, 28, 24, 30,  6, 10, 17, 16)
    case 17 => Row(28, 28, 28, 28,  6, 11, 16, 19)
    case 18 => Row(30, 26, 28, 28,  6, 13, 18, 21)
    case 19 => Row(28, 26, 26, 26,  7, 14, 21, 25)
    case _ => Row(28, 26, 30, 28,  8, 16, 20, 25)
  }

  function HighTable(ver: nat): Row {
    match ver
    case 21 => Row(28, 26, 28, 30,  8, 17, 23, 25)
    case 22 => Row(28, 28, 30, 24,  9, 17, 23, 34)
    case 23 => Row(30, 28, 30, 30,  9, 18, 25, 30)
    case 24 => Row(30, 28, 30, 30,  10, 20, 27, 32)
    case 25 => Row(26, 28, 30, 30,  12, 21, 29, 35)
    case 26 => Row(28, 28, 28, 30,  12, 23, 34, 37)
    case 27 => Row(30, 28, 30, 30,  12, 25, 34, 40)
    case 28 => Row(30, 28, 30, 30,  13, 26, 35, 42)
    case 29 => Row(30, 28, 30, 30,  14, 28, 38, 45)
    case 30 => Row(30, 28, 30, 30,  15, 29, 40, 48)
    case 31 => Row(30, 28, 30, 30,  16, 31, 43, 51)
    case 32 => Row(30, 28, 30, 30,  17, 33, 45, 54)
    case 33 => Row(30, 28, 30, 30,  18, 35, 48, 57)
    case 34 => Row(30, 28, 30, 30,  19, 37, 51, 60)
    case 35 => Row(30, 28, 30, 30,  19, 38, 53, 63)
    case 36 => Row(30, 28, 30, 30,  20, 40, 56, 66)
    case 37 => Row(30, 28, 30, 30,  21, 43, 59, 70)
    case 38 => Row(30, 28, 30, 30,  22, 45, 62, 74)
    case 39 => Row(30, 28, 30, 30,  24, 47, 65, 77)
    case _ => Row(30, 28, 30, 30,  25, 49, 68, 81)
  }

  /** Error correction codewords per block. */
  function EccPerBlock(ecl: Ecc, ver: nat): nat {
    var row := Table(ver);
    match ecl
    case LOW => row.eccL
    case MEDIUM => row.eccM
    case QUARTILE => row.eccQ
    case HIGH => row.eccH
  }

  /** Number of error correction blocks. */
  function NumBlocks(ecl: Ecc, ver: nat): nat {
    var row := Table(ver);
    match ecl
    case LOW => row.blocksL
    case MEDIUM => row.blocksM
    case QUARTILE => row.blocksQ
    case HIGH => row.blocksH
  }

  function RawCodewords(ver: nat): int {
    NumRawDataModules(ver) / 8
  }

  function NumDataCodewords(ver: nat, ecl: Ecc): int {
    RawCodewords(ver) - EccPerBlock(ecl, ver) * NumBlocks(ecl, ver)
  }

  /** One entry makes sense: at least one data codeword per block, and blocks within the reach of the code. */
  ghost predicate GoodEntry(ver: nat, ecl: Ecc) {
    var (n, e, raw) := (NumBlocks(ecl, ver), EccPerBlock(ecl, ver), RawCodewords(ver));
    1 <= n && 7 <= e <= 30 && n * (e + 1) <= raw < n * 255
  }

  /** One row of the table: all levels make sense, and a higher level has more error correction codewords. */
  ghost predicate GoodCounts(r: Row, raw: int) {
    && 1 <= r.blocksL && 7 <= r.eccL <= 30 && r.blocksL * (r.eccL + 1) <= raw < r.blocksL * 255
    && 1 <= r.blocksM && 7 <= r.eccM <= 30 && r.blocksM * (r.eccM + 1) <= raw < r.blocksM * 255
    && 1 <= r.blocksQ && 7 <= r.eccQ <= 30 && r.blocksQ * (r.eccQ + 1) <= raw < r.blocksQ * 255
    && 1 <= r.blocksH && 7 <= r.eccH <= 30 && r.blocksH * (r.eccH + 1) <= raw < r.blocksH * 255
    && r.eccL * r.blocksL < r.eccM * r.blocksM < r.eccQ * r.blocksQ < r.eccH * r.blocksH
  }

  ghost predicate GoodRow(ver: nat) {
    && GoodCounts(Table(ver), RawCodewords(ver))
    && 26 <= RawCodewords(ver) && (RawCodewords(ver) < 3706 || NumRawDataModules(ver) == 29648)
  }

  /** The number of codewords of every version. */
  lemma RawTable()
    ensures RawCodewords(1) == 26 && RawCodewords(2) == 44 && RawCodewords(3) == 70 && RawCodewords(4) == 100
    ensures RawCodewords(5) == 134
    ensures RawCodewords(6) == 172 && RawCodewords(7) == 196 && RawCodewords(8) == 242 && RawCodewords(9) == 292
    ensures RawCodewords(10) == 346
    ensures RawCodewords(11) == 404 && RawCodewords(12) == 466 && RawCodewords(13) == 532 && RawCodewords(14) == 581
    ensures RawCodewords(15) == 655
    ensures RawCodewords(16) == 733 && RawCodewords(17) == 815 && RawCodewords(18) == 901 && RawCodewords(19) == 991
    ensures RawCodewords(20) == 1085
    ensures RawCodewords(21) == 1156 && RawCodewords(22) == 1258 && RawCodewords(23) == 1364
    ensures RawCodewords(24) == 1474 && RawCodewords(25) == 1588
    ensures RawCodewords(26) == 1706 && RawCodewords(27) == 1828 && RawCodewords(28) == 1921
    ensures RawCodewords(29) == 2051 && RawCodewords(30) == 2185
    ensures RawCodewords(31) == 2323 && RawCodewords(32) == 2465 && RawCodewords(33) == 2611
    ensures RawCodewords(34) == 2761 && RawCodewords(35) == 2876
    ensures RawCodewords(36) == 3034 && RawCodewords(37) == 3196 && RawCodewords(38) == 3362
    ensures RawCodewords(39) == 3532 && RawCodewords(40) == 3706
    ensures NumRawDataModules(MAX_VERSION) == 29648
  {
  }

  lemma Rows1To5()
    ensures GoodRow(1) && GoodRow(2) && GoodRow(3) && GoodRow(4) && GoodRow(5)
  {
    hide RawCodewords;
    RawTable();
  }

  lemma Rows6To10()
    ensures GoodRow(6) && GoodRow(7) && GoodRow(8) && GoodRow(9) && GoodRow(10)
  {
    hide RawCodewords;
    RawTable();
  }

  lemma Rows11To15()
    ensures GoodRow(11) && GoodRow(12) && GoodRow(13) && GoodRow(14) && GoodRow(15)
  {
    hide RawCodewords;
    RawTable();
  }

  lemma Rows16To20()
    ensures GoodRow(16) && GoodRow(17) && GoodRow(18) && GoodRow(19) && GoodRow(20)
  {
    hide RawCodewords;
    RawTable();
  }

  lemma Rows21To25()
    ensures GoodRow(21) && GoodRow(22) && GoodRow(23) && GoodRow(24) && GoodRow(25)
  {
    hide RawCodewords;
    RawTable();
  }

  lemma Rows26To30()
    ensures GoodRow(26) && GoodRow(27) && GoodRow(28) && GoodRow(29) && GoodRow(30)
  {
    hide RawCodewords;
    RawTable();
  }

  lemma Rows31To35()
    ensures GoodRow(31) && GoodRow(32) && GoodRow(33) && GoodRow(34) && GoodRow(35)
  {
    hide RawCodewords;
    RawTable();
  }

  lemma Rows36To40()
    ensures GoodRow(36) && GoodRow(37) && GoodRow(38) && GoodRow(39) && GoodRow(40)
  {
    hide RawCodewords;
    RawTable();
  }

  /** The tables are sound for every version. */
  lemma GoodTables(ver: nat)
    requires MIN_VERSION <= ver <= MAX_VERSION
    ensures GoodRow(ver)
  {
    hide *;
    VersionRange();
    Rows1To5(); Rows6To10(); Rows11To15(); Rows16To20();
    Rows21To25(); Rows26To30(); Rows31To35(); Rows36To40();
  }

  // ----- what the encoder takes from the tables -----

  lemma GoodLevel(ver: nat, ecl: Ecc)
    requires MIN_VERSION <= ver <= MAX_VERSION
    ensures GoodEntry(ver, ecl)
    ensures 208 <= NumRawDataModules(ver) <= 29648
  {
    hide Table, NumRawDataModules;
    GoodTables(ver);
  }

  /** The block structure of a version and level. */
  function LayoutOf(ver: nat, ecl: Ecc): (l: Layout)
    requires MIN_VERSION <= ver <= MAX_VERSION
    ensures l.Valid()
    ensures l.DataLen() == NumDataCodewords(ver, ecl) > 0
    ensures 8 * l.raw <= NumRawDataModules(ver)
    ensures l.raw / l.numBlocks + 1 <= 255
  {
    LayoutFacts(ver, ecl);
    Layout(NumBlocks(ecl, ver), EccPerBlock(ecl, ver), RawCodewords(ver))
  }

  lemma LayoutFacts(ver: nat, ecl: Ecc)
    requires MIN_VERSION <= ver <= MAX_VERSION
    ensures var l := Layout(NumBlocks(ecl, ver), EccPerBlock(ecl, ver),
                            if RawCodewords(ver) < 0 then 0 else RawCodewords(ver));
            && RawCodewords(ver) >= 0 && l.Valid() && l.DataLen() == NumDataCodewords(ver, ecl) > 0
            && l.raw / l.numBlocks + 1 <= 255
  {
    hide Table, NumRawDataModules, NumBlocks, EccPerBlock;
    GoodLevel(ver, ecl);
    var (n, e, raw) := (NumBlocks(ecl, ver), EccPerBlock(ecl, ver), RawCodewords(ver));
    BlockBounds(n, e, raw);
  }

  lemma BlockBounds(n: nat, e: nat, raw: nat)
    requires 1 <= n && n * (e + 1) <= raw < n * 255
    ensures e <= raw / n && raw / n + 1 <= 255 && raw - n * e > 0
  {
    var q := raw / n;
    assert raw == n * q + raw % n;
  }

  /** Levels in increasing order of redundancy. */
  function Rank(ecl: Ecc): nat {
    match ecl
    case LOW => 0
    case MEDIUM => 1
    case QUARTILE => 2
    case HIGH => 3
  }

  /** A higher level never has more room. */
  lemma CapacityFalls(ver: nat, ecl: Ecc, ecl': Ecc)
    requires MIN_VERSION <= ver <= MAX_VERSION && Rank(ecl) <= Rank(ecl')
    ensures NumDataCodewords(ver, ecl) >= NumDataCodewords(ver, ecl')
  {
    hide Table, RawCodewords, NumRawDataModules;
    GoodTables(ver);
  }
}
