/**
  The number of modules left for data: for each of the 40 versions, the modules outside the function patterns are
  exactly as many as the closed formula of the encoder says.
 */
module ModuleCount {
  import opened Zigzag
  import opened Patterns

  // ----- counting products -----

  function Range(a: int, b: int): (s: set<int>)
    ensures forall x :: x in s <==> a <= x < b
    decreases b - a
  {
    if a >= b then {} else Range(a, b - 1) + {b - 1}
  }

  function Prod(xs: set<int>, ys: set<int>): set<Cell> {
    set x, y | x in xs && y in ys :: Cell(x, y)
  }

  lemma Pick<T>(s: set<T>) returns (x: T)
    requires s != {}
    ensures x in s
  {
    x :| x in s;
  }

  lemma {:induction false} RangeSize(a: int, b: int)
    requires a <= b
    ensures |Range(a, b)| == b - a
    decreases b - a
  {
    if a < b {
      RangeSize(a, b - 1);
      assert b - 1 !in Range(a, b - 1);
    }
  }

  lemma {:induction false} LineSize(x: int, ys: set<int>)
    ensures |Prod({x}, ys)| == |ys|
  {
    if ys == {} {
      assert Prod({x}, ys) == {};
    } else {
      var y := Pick(ys);
      LineSize(x, ys - {y});
      assert Prod({x}, ys) == Prod({x}, ys - {y}) + {Cell(x, y)};
    }
  }

  lemma {:induction false} ProdSize(xs: set<int>, ys: set<int>)
    ensures |Prod(xs, ys)| == |xs| * |ys|
  {
    if xs == {} {
      assert Prod(xs, ys) == {};
    } else {
      var x := Pick(xs);
      var rest := xs - {x};
      ProdSize(rest, ys);
      LineSize(x, ys);
      ProdSplit(rest, x, ys);
      assert |xs| == |rest| + 1;
    }
  }

  lemma ProdSplit(rest: set<int>, x: int, ys: set<int>)
    requires x !in rest
    ensures |Prod(rest + {x}, ys)| == |Prod(rest, ys)| + |Prod({x}, ys)|
    ensures forall xs :: x in xs && rest == xs - {x} ==> xs == rest + {x}
  {
    assert Prod(rest + {x}, ys) == Prod(rest, ys) + Prod({x}, ys);
    assert Prod(rest, ys) !! Prod({x}, ys);
  }

  /** The columns within two of one of n centres spaced by step, counting back from last. */
  function Bands(last: int, step: nat, n: nat): set<int> {
    if n == 0 then {} else Bands(last, step, n - 1) + Range(last - (n - 1) * step - 2, last - (n - 1) * step + 3)
  }

  lemma {:induction false} BandsMembers(last: int, step: nat, n: nat, x: int)
    ensures x in Bands(last, step, n) <==> exists k: nat | k < n :: Near(last - k * step, x)
  {
    if n > 0 {
      BandsMembers(last, step, n - 1, x);
    }
  }

  lemma {:induction false} BandsRange(last: int, step: nat, n: nat, x: int)
    requires x in Bands(last, step, n)
    ensures n > 0 && last - (n - 1) * step - 2 <= x <= last + 2
  {
    if x in Bands(last, step, n - 1) {
      BandsRange(last, step, n - 1, x);
      assert (n - 1) * step == (n - 2) * step + step;
    } else {
      assert (n - 1) * step >= 0;
    }
  }

  lemma UnionSize<T>(a: set<T>, b: set<T>)
    requires a !! b
    ensures |a + b| == |a| + |b|
  {
  }

  lemma BandsStep(last: int, step: nat, n: nat)
    ensures Bands(last, step, 0) == {}
    ensures Bands(last, step, n + 1) == Bands(last, step, n) + Range(last - n * step - 2, last - n * step + 3)
  {
    hide Range;
  }

  lemma {:induction false} BandsSize(last: int, step: nat, n: nat)
    requires step >= 5
    ensures |Bands(last, step, n)| == 5 * n
  {
    hide Range, Bands;
    BandsStep(last, step, if n == 0 then 0 else n - 1);
    if n > 0 {
      BandsSize(last, step, n - 1);
      BandDisjoint(last, step, n - 1);
      var p := last - (n - 1) * step;
      RangeSize(p - 2, p + 3);
      UnionSize(Bands(last, step, n - 1), Range(p - 2, p + 3));
    }
  }

  lemma BandDisjoint(last: int, step: nat, n: nat)
    requires step >= 5
    ensures Bands(last, step, n) !! Range(last - n * step - 2, last - n * step + 3)
  {
    hide Bands;
    forall x: int | x in Bands(last, step, n)
      ensures x > last - n * step + 2
    {
      BandsRange(last, step, n, x);
      assert n * step == (n - 1) * step + step;
    }
  }

  // ----- the cells of all function patterns -----

  /** Alignment coordinates from the second centre on. */
  function Centres(version: nat): set<int>
    requires version >= 1
  {
    if version == 1 then {} else Bands(SizeOf(version) - 7, AlignStep(version), version / 7 + 1)
  }

  /** Alignment coordinates strictly between the first and the last centre. */
  function InnerCentres(version: nat): set<int>
    requires version >= 1
  {
    if version == 1 then {} else Bands(SizeOf(version) - 7 - AlignStep(version), AlignStep(version), version / 7)
  }

  /** The spacing leaves room between the finder patterns and the first centres. */
  lemma AlignSpacing(version: nat)
    requires 2 <= version <= MAX_VERSION
    ensures AlignStep(version) >= 7
    ensures version / 7 * AlignStep(version) <= SizeOf(version) - 18
  {
    var v := version;
    if v < 7 { SpacingOf(v, 0, (4 * v + 5) / 2); }
    else if v < 14 { SpacingOf(v, 1, (4 * v + 7) / 4); }
    else if v < 21 { SpacingOf(v, 2, (4 * v + 9) / 6); }
    else if v < 28 { SpacingOf(v, 3, (4 * v + 11) / 8); }
    else if v < 35 { SpacingOf(v, 4, (4 * v + 13) / 10); }
    else { SpacingOf(v, 5, (4 * v + 15) / 12); }
  }

  lemma SpacingOf(v: nat, n: nat, half: nat)
    requires 2 <= v <= MAX_VERSION && n <= 5 && v / 7 == n && half == (4 * v + 2 * n + 5) / (2 * n + 2)
    ensures AlignStep(v) >= 7 && n * AlignStep(v) <= SizeOf(v) - 18
  {
    assert v * 4 + (v / 7 + 2) * 2 + 1 == 4 * v + 2 * n + 5 && (v / 7 + 2) * 2 - 2 == 2 * n + 2;
    assert v == 32 || AlignStep(v) == 2 * half;
  }

  lemma CentresRange(version: nat, x: int)
    requires MIN_VERSION <= version <= MAX_VERSION
    ensures x in Centres(version) ==> 9 <= x < SizeOf(version)
    ensures x in InnerCentres(version) ==> 9 <= x < SizeOf(version) - 11
  {
    hide Bands, AlignStep;
    if version > 1 {
      var s: int, step, n := SizeOf(version), AlignStep(version), version / 7;
      AlignSpacing(version);
      if x in Centres(version) { BandsRange(s - 7, step, n + 1, x); }
      if x in InnerCentres(version) {
        BandsRange(s - 7 - step, step, n, x);
        assert (n - 1) * step == n * step - step;
      }
    }
  }

  lemma CentreAt(version: nat, k: nat)
    requires 2 <= version && k <= version / 7 + 1
    ensures AlignmentPositions(version)[k] ==
            if k == 0 then 6 else SizeOf(version) - 7 - (version / 7 + 1 - k) * AlignStep(version)
  {
    hide AlignStep;
  }

  /** Being near the k-th centre, k >= 1, is lying in one of the bands. */
  lemma NearCentre(version: nat, k: nat, x: int)
    requires 2 <= version && 1 <= k <= version / 7 + 1 && Near(AlignmentPositions(version)[k], x)
    ensures x in Centres(version)
    ensures k <= version / 7 ==> x in InnerCentres(version)
  {
    hide Bands, AlignStep, AlignmentPositions;
    var s: int, step, n := SizeOf(version), AlignStep(version), version / 7;
    CentreAt(version, k);
    BandsMembers(s - 7, step, n + 1, x);
    assert Near(s - 7 - (n + 1 - k) * step, x);
    if k <= n {
      assert (n + 1 - k) * step == step + (n - k) * step;
      BandsMembers(s - 7 - step, step, n, x);
      assert Near(s - 7 - step - (n - k) * step, x);
    }
  }

  lemma CentreNear(version: nat, x: int) returns (k: nat)
    requires 2 <= version && x in Centres(version)
    ensures 1 <= k <= version / 7 + 1 && Near(AlignmentPositions(version)[k], x)
  {
    hide Bands, AlignStep, AlignmentPositions;
    var s: int, step, n := SizeOf(version), AlignStep(version), version / 7;
    BandsMembers(s - 7, step, n + 1, x);
    var i: nat :| i < n + 1 && Near(s - 7 - i * step, x);
    k := n + 1 - i;
    CentreAt(version, k);
  }

  lemma InnerCentreNear(version: nat, x: int) returns (k: nat)
    requires 2 <= version && x in InnerCentres(version)
    ensures 1 <= k <= version / 7 && Near(AlignmentPositions(version)[k], x)
  {
    hide Bands, AlignStep, AlignmentPositions;
    var s: int, step, n := SizeOf(version), AlignStep(version), version / 7;
    BandsMembers(s - 7 - step, step, n, x);
    var i: nat :| i < n && Near(s - 7 - step - i * step, x);
    k := n - i;
    assert (n + 1 - k) * step == step + i * step;
    CentreAt(version, k);
  }

  /** The cells of the alignment patterns. */
  lemma AlignmentRegion(version: nat, c: Cell)
    requires version >= 1
    ensures var pos := AlignmentPositions(version);
            c in CellsOf(Alignments(pos, |pos|)) <==>
            || (c.x in Centres(version) && c.y in Centres(version))
            || (c.x in InnerCentres(version) && 4 <= c.y <= 8)
            || (4 <= c.x <= 8 && c.y in InnerCentres(version))
  {
    hide Centres, InnerCentres, AlignmentPositions, CellsOf, Alignments;
    var pos := AlignmentPositions(version);
    var m := |pos|;
    AlignmentsCells(pos, m, c);
    if version == 1 {
      NoCentres();
    } else {
      CentreAt(version, 0);
      if c in CellsOf(Alignments(pos, m)) {
        var i: nat, j: nat :| i < m && j < m && AlignedAt(pos, i, j, c);
        if i > 0 { NearCentre(version, i, c.x); }
        if j > 0 { NearCentre(version, j, c.y); }
      }
      if c.x in Centres(version) && c.y in Centres(version) {
        var i := CentreNear(version, c.x);
        var j := CentreNear(version, c.y);
        assert AlignedAt(pos, i, j, c);
      }
      if c.x in InnerCentres(version) && 4 <= c.y <= 8 {
        var i := InnerCentreNear(version, c.x);
        assert AlignedAt(pos, i, 0, c);
      }
      if 4 <= c.x <= 8 && c.y in InnerCentres(version) {
        var j := InnerCentreNear(version, c.y);
        assert AlignedAt(pos, 0, j, c);
      }
    }
  }

  lemma NoCentres()
    ensures Centres(1) == {} && InnerCentres(1) == {} && AlignmentPositions(1) == []
  {
  }

  lemma VersionRegion(version: nat, c: Cell)
    ensures var s := SizeOf(version);
            c in CellsOf(VersionInfo(version)) <==>
            || (version >= 7 && s - 11 <= c.x < s - 8 && 0 <= c.y < 6)
            || (version >= 7 && s - 11 <= c.y < s - 8 && 0 <= c.x < 6)
  {
    hide CellsOf, VersionBlocks, VersionBits;
    CellsNone(c);
    if version >= 7 {
      var s := SizeOf(version);
      VersionBlocksCells(VersionBits(version), 18, s, c);
      if s - 11 <= c.x < s - 8 && 0 <= c.y < 6 {
        var i: nat := 3 * c.y + (c.x - (s - 11));
        assert c == Cell(s - 11 + i % 3, i / 3);
      }
      if s - 11 <= c.y < s - 8 && 0 <= c.x < 6 {
        var i: nat := 3 * c.x + (c.y - (s - 11));
        assert c == Cell(i / 3, s - 11 + i % 3);
      }
    }
  }

  /** Exactly the modules covered by function patterns. */
  ghost predicate FunctionRegion(version: nat, c: Cell)
    requires version >= 1
  {
    var s := SizeOf(version);
    && Inside(c, s)
    && (|| c.x == 6 || c.y == 6
        || (c.x <= 8 && c.y <= 8) || (c.x >= s - 8 && c.y <= 8) || (c.x <= 8 && c.y >= s - 8)
        || (c.x in Centres(version) && c.y in Centres(version))
        || (c.x in InnerCentres(version) && 4 <= c.y <= 8)
        || (4 <= c.x <= 8 && c.y in InnerCentres(version))
        || (version >= 7 && s - 11 <= c.x < s - 8 && c.y < 6)
        || (version >= 7 && s - 11 <= c.y < s - 8 && c.x < 6))
  }

  lemma CellsSeven(a: seq<Stroke>, b: seq<Stroke>, c: seq<Stroke>, d: seq<Stroke>,
                   e: seq<Stroke>, f: seq<Stroke>, g: seq<Stroke>)
    ensures CellsOf(a + b + c + d + e + f + g) ==
            CellsOf(a) + CellsOf(b) + CellsOf(c) + CellsOf(d) + CellsOf(e) + CellsOf(f) + CellsOf(g)
  {
    hide CellsOf;
    CellsConcat(a, b); CellsConcat(a + b, c); CellsConcat(a + b + c, d); CellsConcat(a + b + c + d, e);
    CellsConcat(a + b + c + d + e, f); CellsConcat(a + b + c + d + e + f, g);
  }

  lemma FunctionCells(version: nat, ecl: Ecc, c: Cell)
    requires MIN_VERSION <= version <= MAX_VERSION
    ensures c in CellsOf(FunctionStrokes(version, ecl)) <==> FunctionRegion(version, c)
  {
    hide CellsOf, Timing, Finder, Alignments, AlignmentPositions, Format, FormatBits, VersionInfo, Centres;
    hide InnerCentres;
    var size := SizeOf(version);
    var pos := AlignmentPositions(version);
    CellsSeven(Timing(size), Finder(3, 3, 9, size), Finder(size - 4, 3, 9, size), Finder(3, size - 4, 9, size),
               Alignments(pos, |pos|), Format(FormatBits(ecl, 0), size), VersionInfo(version));
    TimingCells(size, c);
    FinderCells(3, 3, 9, size, c); FinderCells(size - 4, 3, 9, size, c); FinderCells(3, size - 4, 9, size, c);
    AlignmentRegion(version, c);
    FormatCells(FormatBits(ecl, 0), size, c);
    VersionRegion(version, c);
    CentresRange(version, c.x); CentresRange(version, c.y);
  }

  // ----- the count -----

  function NumRawDataModules(ver: nat): int {
    var result := (16 * ver + 128) * ver + 64;
    if ver < 2 then result else
      var numAlign := ver / 7 + 2;
      var less := result - ((25 * numAlign - 10) * numAlign - 55);
      if ver >= 7 then less - 36 else less
  }

  /** The column of coordinates of the version blocks. */
  function VersionBand(version: nat): set<int> {
    if version < 7 then {} else Range(SizeOf(version) - 11, SizeOf(version) - 8)
  }

  function Corners(version: nat): set<Cell> {
    var s := SizeOf(version);
    Prod(Range(0, 9), Range(0, 9)) + Prod(Range(s - 8, s), Range(0, 9)) + Prod(Range(0, 9), Range(s - 8, s))
  }

  function TimingLines(version: nat): set<Cell> {
    var s := SizeOf(version);
    Prod(Range(9, s - 8), {6}) + Prod({6}, Range(9, s - 8))
  }

  function AlignmentSquares(version: nat): set<Cell>
    requires version >= 1
  {
    Prod(Centres(version), Centres(version)) +
    Prod(InnerCentres(version), {4, 5, 7, 8}) + Prod({4, 5, 7, 8}, InnerCentres(version))
  }

  function VersionSquares(version: nat): set<Cell> {
    Prod(VersionBand(version), Range(0, 6)) + Prod(Range(0, 6), VersionBand(version))
  }

  lemma InProd(c: Cell, xs: set<int>, ys: set<int>)
    ensures c in Prod(xs, ys) <==> c.x in xs && c.y in ys
  {
    assert c == Cell(c.x, c.y);
  }

  lemma Disjoint(xs: set<int>, ys: set<int>, xs': set<int>, ys': set<int>)
    requires xs !! xs' || ys !! ys'
    ensures Prod(xs, ys) !! Prod(xs', ys')
  {
    forall c: Cell | c in Prod(xs, ys) ensures c !in Prod(xs', ys') {
      assert c.x in xs && c.y in ys;
    }
  }

  lemma CornersSize(version: nat)
    ensures |Corners(version)| == 225
  {
    hide Prod, Range;
    var s := SizeOf(version);
    var (lo, hi) := (Range(0, 9), Range(s - 8, s));
    RangeSize(0, 9); RangeSize(s - 8, s);
    RangesApart(0, 9, s - 8, s);
    ThreeProducts(lo, lo, hi, lo, lo, hi);
  }

  lemma RangesApart(a: int, b: int, c: int, d: int)
    requires b <= c
    ensures Range(a, b) !! Range(c, d)
  {
  }

  /** Three rectangles that are apart by rows or by columns. */
  lemma ThreeProducts(a: set<int>, b: set<int>, c: set<int>, d: set<int>, e: set<int>, f: set<int>)
    requires (a !! c || b !! d) && (a !! e || b !! f) && (c !! e || d !! f)
    ensures |Prod(a, b) + Prod(c, d) + Prod(e, f)| == |a| * |b| + |c| * |d| + |e| * |f|
  {
    hide Prod;
    ProdSize(a, b); ProdSize(c, d); ProdSize(e, f);
    Disjoint(a, b, c, d); Disjoint(a, b, e, f); Disjoint(c, d, e, f);
    UnionSize(Prod(a, b), Prod(c, d));
    UnionSize(Prod(a, b) + Prod(c, d), Prod(e, f));
  }

  lemma TimingSize(version: nat)
    ensures |TimingLines(version)| == 2 * (SizeOf(version) - 17)
  {
    hide Prod, Range;
    var s := SizeOf(version);
    var mid := Range(9, s - 8);
    RangeSize(9, s - 8);
    ProdSize(mid, {6}); ProdSize({6}, mid);
    Disjoint(mid, {6}, {6}, mid);
    UnionSize(Prod(mid, {6}), Prod({6}, mid));
  }

  lemma AlignmentSize(version: nat)
    requires MIN_VERSION <= version <= MAX_VERSION
    ensures |AlignmentSquares(version)| ==
            if version == 1 then 0 else 25 * ((version / 7 + 1) * (version / 7 + 1)) + 40 * (version / 7)
  {
    hide Prod, Centres, InnerCentres;
    var (all, inner, edge) := (Centres(version), InnerCentres(version), {4, 5, 7, 8});
    CentresSize(version);
    CentresAbove(version);
    ThreeProducts(all, all, inner, edge, edge, inner);
    if version > 1 {
      var n := version / 7 + 1;
      assert 5 * n * (5 * n) == 25 * (n * n);
    }
  }

  lemma CentresSize(version: nat)
    requires MIN_VERSION <= version <= MAX_VERSION
    ensures |Centres(version)| == if version == 1 then 0 else 5 * (version / 7 + 1)
    ensures |InnerCentres(version)| == if version == 1 then 0 else 5 * (version / 7)
  {
    hide Bands, AlignStep;
    if version > 1 {
      var s: int, step := SizeOf(version), AlignStep(version);
      AlignSpacing(version);
      BandsSize(s - 7, step, version / 7 + 1);
      BandsSize(s - 7 - step, step, version / 7);
    }
  }

  lemma CentresAbove(version: nat)
    requires MIN_VERSION <= version <= MAX_VERSION
    ensures Centres(version) !! {4, 5, 7, 8} && InnerCentres(version) !! {4, 5, 7, 8}
  {
    hide Centres, InnerCentres;
    CentresRange(version, 4); CentresRange(version, 5); CentresRange(version, 7); CentresRange(version, 8);
  }

  lemma VersionSize(version: nat)
    ensures |VersionSquares(version)| == if version < 7 then 0 else 36
  {
    hide Prod, Range;
    var s := SizeOf(version);
    var (band, low) := (VersionBand(version), Range(0, 6));
    RangeSize(s - 11, s - 8); RangeSize(0, 6);
    ProdSize(band, low); ProdSize(low, band);
    Disjoint(band, low, low, band);
    UnionSize(Prod(band, low), Prod(low, band));
  }

  lemma CornersMembers(version: nat, c: Cell)
    ensures var s := SizeOf(version);
            c in Corners(version) <==>
            Inside(c, s) && ((c.x <= 8 && c.y <= 8) || (c.x >= s - 8 && c.y <= 8) || (c.x <= 8 && c.y >= s - 8))
  {
    hide Prod, Range;
    var s := SizeOf(version);
    InProd(c, Range(0, 9), Range(0, 9)); InProd(c, Range(s - 8, s), Range(0, 9));
    InProd(c, Range(0, 9), Range(s - 8, s));
  }

  lemma TimingMembers(version: nat, c: Cell)
    ensures var s := SizeOf(version);
            c in TimingLines(version) <==> (c.y == 6 && 9 <= c.x < s - 8) || (c.x == 6 && 9 <= c.y < s - 8)
  {
    hide Prod, Range;
    var s := SizeOf(version);
    InProd(c, Range(9, s - 8), {6}); InProd(c, {6}, Range(9, s - 8));
  }

  lemma AlignmentMembers(version: nat, c: Cell)
    requires version >= 1
    ensures c in AlignmentSquares(version) <==>
            || (c.x in Centres(version) && c.y in Centres(version))
            || (c.x in InnerCentres(version) && c.y in {4, 5, 7, 8})
            || (c.x in {4, 5, 7, 8} && c.y in InnerCentres(version))
  {
    hide Prod, Centres, InnerCentres;
    var (all, inner, edge) := (Centres(version), InnerCentres(version), {4, 5, 7, 8});
    InProd(c, all, all); InProd(c, inner, edge); InProd(c, edge, inner);
  }

  lemma VersionMembers(version: nat, c: Cell)
    ensures var s := SizeOf(version);
            c in VersionSquares(version) <==>
            || (version >= 7 && s - 11 <= c.x < s - 8 && 0 <= c.y < 6)
            || (version >= 7 && s - 11 <= c.y < s - 8 && 0 <= c.x < 6)
  {
    hide Prod, Range;
    var (band, low) := (VersionBand(version), Range(0, 6));
    InProd(c, band, low); InProd(c, low, band);
  }

  function AllPatterns(version: nat): set<Cell>
    requires version >= 1
  {
    Corners(version) + TimingLines(version) + AlignmentSquares(version) + VersionSquares(version)
  }

  lemma PatternMembers(version: nat, c: Cell)
    requires MIN_VERSION <= version <= MAX_VERSION
    ensures c in AllPatterns(version) <==> FunctionRegion(version, c)
  {
    hide Corners, TimingLines, AlignmentSquares, VersionSquares, Centres, InnerCentres;
    CornersMembers(version, c); TimingMembers(version, c); AlignmentMembers(version, c); VersionMembers(version, c);
    CentresRange(version, c.x); CentresRange(version, c.y);
  }

  lemma PatternsDisjoint(version: nat)
    requires MIN_VERSION <= version <= MAX_VERSION
    ensures Corners(version) !! TimingLines(version)
    ensures Corners(version) + TimingLines(version) !! AlignmentSquares(version)
    ensures Corners(version) + TimingLines(version) + AlignmentSquares(version) !! VersionSquares(version)
  {
    hide Corners, TimingLines, AlignmentSquares, VersionSquares, Centres, InnerCentres;
    forall c: Cell
      ensures !(c in Corners(version) && c in TimingLines(version))
      ensures !((c in Corners(version) || c in TimingLines(version)) && c in AlignmentSquares(version))
      ensures c in Corners(version) || c in TimingLines(version) || c in AlignmentSquares(version) ==>
              c !in VersionSquares(version)
    {
      CornersMembers(version, c); TimingMembers(version, c); AlignmentMembers(version, c); VersionMembers(version, c);
      CentresRange(version, c.x); CentresRange(version, c.y);
    }
  }

  lemma PatternsSize(version: nat)
    requires MIN_VERSION <= version <= MAX_VERSION
    ensures |AllPatterns(version)| + NumRawDataModules(version) == SizeOf(version) * SizeOf(version)
  {
    hide Corners, TimingLines, AlignmentSquares, VersionSquares;
    PatternsDisjoint(version);
    CornersSize(version); TimingSize(version); AlignmentSize(version); VersionSize(version);
    UnionSize(Corners(version), TimingLines(version));
    UnionSize(Corners(version) + TimingLines(version), AlignmentSquares(version));
    UnionSize(Corners(version) + TimingLines(version) + AlignmentSquares(version), VersionSquares(version));
    Formula(version, version / 7);
  }

  /** size^2 minus the pattern sizes, in the two shapes the count needs. */
  lemma Formula(v: nat, n: nat)
    ensures (v * 4 + 17) * (v * 4 + 17) == (16 * v + 128) * v + 64 + 225 + 2 * (v * 4)
    ensures (25 * (n + 2) - 10) * (n + 2) - 55 == 25 * ((n + 1) * (n + 1)) + 40 * n
  {
  }

  /** The modules outside the function patterns are as many as the formula says, for all 40 versions. */
  lemma FreeModules(version: nat, free: set<Cell>)
    requires MIN_VERSION <= version <= MAX_VERSION
    requires forall c: Cell :: c in free <==> Inside(c, SizeOf(version)) && !FunctionRegion(version, c)
    ensures |free| == NumRawDataModules(version)
  {
    hide AllPatterns, FunctionRegion, Prod, Range, NumRawDataModules;
    var s := SizeOf(version);
    var square := Prod(Range(0, s), Range(0, s));
    RangeSize(0, s); ProdSize(Range(0, s), Range(0, s));
    PatternsSize(version);
    forall c: Cell ensures c in square <==> c in free || c in AllPatterns(version) {
      InProd(c, Range(0, s), Range(0, s));
      PatternMembers(version, c);
      RegionInside(version, c);
    }
    forall c: Cell ensures !(c in free && c in AllPatterns(version)) { PatternMembers(version, c); }
    assert square == free + AllPatterns(version);
    UnionSize(free, AllPatterns(version));
  }

  lemma RegionInside(version: nat, c: Cell)
    requires version >= 1
    ensures FunctionRegion(version, c) ==> Inside(c, SizeOf(version))
  {
  }
}
