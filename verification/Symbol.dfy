/** The QR Code object: drawing the function patterns and codewords, and searching for the best mask. */
module Symbol {
  import opened Galois
  import opened Wrappers
  import opened Bits
  import opened Zigzag
  import opened Patterns
  import opened ModuleCount
  import opened Interleave
  import opened Capacity
  import opened Penalty
  import opened Masking

  // ----- the grids a symbol goes through -----

  function White(size: nat): (g: Grid)
    ensures Square(g, size)
    ensures forall c: Cell | Inside(c, size) :: !Get(g, c, size)
  {
    seq(size, _ => seq(size, _ => false))
  }

  lemma FunctionInside(version: nat, ecl: Ecc)
    requires MIN_VERSION <= version <= MAX_VERSION
    ensures StrokesInside(FunctionStrokes(version, ecl), SizeOf(version))
  {
    hide FunctionStrokes, CellsOf, FunctionRegion;
    var strokes := FunctionStrokes(version, ecl);
    forall s | s in strokes ensures Inside(s.cell, SizeOf(version)) {
      StrokeCell(strokes, s);
      FunctionCells(version, ecl, s.cell);
      RegionInside(version, s.cell);
    }
  }

  /** The function patterns on a white symbol. */
  function FunctionGrid(version: nat, ecl: Ecc): (g: Grid)
    requires MIN_VERSION <= version <= MAX_VERSION
    ensures Square(g, SizeOf(version))
  {
    FunctionInside(version, ecl);
    Painted(White(SizeOf(version)), FunctionStrokes(version, ecl), SizeOf(version))
  }

  function FunctionMask(version: nat, ecl: Ecc): (g: Grid)
    requires MIN_VERSION <= version <= MAX_VERSION
    ensures Square(g, SizeOf(version))
  {
    FunctionInside(version, ecl);
    Marked(White(SizeOf(version)), FunctionStrokes(version, ecl), SizeOf(version))
  }

  /** The mask marks exactly the function region, whatever the level. */
  lemma FunctionMaskGet(version: nat, ecl: Ecc, c: Cell)
    requires MIN_VERSION <= version <= MAX_VERSION && Inside(c, SizeOf(version))
    ensures Get(FunctionMask(version, ecl), c, SizeOf(version)) <==> FunctionRegion(version, c)
  {
    hide FunctionStrokes, Marked, Get, CellsOf, FunctionRegion;
    FunctionInside(version, ecl);
    MarkedGet(White(SizeOf(version)), FunctionStrokes(version, ecl), SizeOf(version), c);
    FunctionCells(version, ecl, c);
  }

  /** There are exactly as many free modules along the scan as the capacity formula says. */
  lemma FreeCells(version: nat, ecl: Ecc)
    requires MIN_VERSION <= version <= MAX_VERSION
    ensures ScanSize(SizeOf(version)) && AllInside(FullScan(SizeOf(version)), SizeOf(version))
    ensures Distinct(FullScan(SizeOf(version)))
    ensures |Free(FunctionMask(version, ecl), FullScan(SizeOf(version)), SizeOf(version))| == NumRawDataModules(version)
  {
    hide FunctionMask, Free, FullScan, FunctionRegion, Get, Prod, Range, Distinct, NumRawDataModules;
    var (size, fn) := (SizeOf(version), FunctionMask(version, ecl));
    ScanIsBijective(size);
    var all := Prod(Range(0, size), Range(0, size));
    var free := set c | c in all && !FunctionRegion(version, c);
    forall c: Cell ensures c in free <==> Inside(c, size) && !FunctionRegion(version, c) {
      InProd(c, Range(0, size), Range(0, size));
    }
    FreeModules(version, free);
    forall c: Cell ensures c in free <==> Inside(c, size) && !Get(fn, c, size) {
      if Inside(c, size) { FunctionMaskGet(version, ecl, c); }
    }
    forall y | 0 <= y < size ensures Get(fn, Cell(6, y), size) {
      FunctionMaskGet(version, ecl, Cell(6, y));
      ColumnSix(version, y);
    }
    FreeCount(fn, size, free);
  }

  lemma ColumnSix(version: nat, y: nat)
    requires MIN_VERSION <= version <= MAX_VERSION && y < SizeOf(version)
    ensures FunctionRegion(version, Cell(6, y))
  {
  }

  /** The symbol before masking: function patterns, and the codewords along the scan. */
  function BaseGrid(version: nat, ecl: Ecc, codewords: seq<Byte>): (g: Grid)
    requires MIN_VERSION <= version <= MAX_VERSION
    ensures Square(g, SizeOf(version))
  {
    FreeCells(version, ecl);
    var size := SizeOf(version);
    Drawn(FunctionGrid(version, ecl), FunctionMask(version, ecl), FullScan(size), CodewordBits(codewords), size)
  }

  /** The finished symbol for given data codewords and mask. */
  function SymbolGrid(version: nat, ecl: Ecc, data: seq<Byte>, mask: nat): (g: Grid)
    requires MIN_VERSION <= version <= MAX_VERSION && |data| == NumDataCodewords(version, ecl)
    ensures Square(g, SizeOf(version))
  {
    var base := BaseGrid(version, ecl, Interleaved(LayoutOf(version, ecl), data));
    Finished(base, FunctionMask(version, ecl), ecl, mask, SizeOf(version))
  }

  // ----- the range checks of the format and version codes -----

  lemma TenthPowers()
    ensures Pow2(10) == 1024 && Pow2(11) == 2048 && Pow2(12) == 4096 && Pow2(14) == 16384
  {
    Pow2Seven();
    assert Pow2(9) == 512;
  }

  lemma FormatRemainderStep(rem: nat)
    requires rem < 1024
    ensures Xor(2 * rem, rem / 512 * 0x537) < 1024
  {
    hide Xor, Pow2;
    TenthPowers();
    if rem < 512 {
      XorZero(2 * rem);
    } else {
      XorTopBit(2 * rem, 0x537, 10);
    }
  }

  lemma {:induction false} FormatRemainderBound(data: nat, n: nat)
    requires data < 1024
    ensures FormatRemainder(data, n) < 1024
  {
    hide Xor;
    if n > 0 {
      FormatRemainderBound(data, n - 1);
      FormatRemainderStep(FormatRemainder(data, n - 1));
    }
  }

  lemma FormatBitsBound(ecl: Ecc, mask: nat)
    requires mask < 8
    ensures FormatBits(ecl, mask) < 32768
  {
    hide Xor, Pow2, FormatRemainder;
    var data := FormatLevel(ecl) * 8 + mask;
    FormatRemainderBound(data, 10);
    TenthPowers();
    XorTopBit(data * 1024 + FormatRemainder(data, 10), 0x5412, 14);
  }

  lemma {:induction false} VersionRemainderBound(version: nat, n: nat)
    requires version < 4096
    ensures VersionRemainder(version, n) < 4096
  {
    hide Xor;
    if n > 0 {
      VersionRemainderBound(version, n - 1);
      VersionRemainderStep(VersionRemainder(version, n - 1));
    }
  }

  lemma VersionRemainderStep(rem: nat)
    requires rem < 4096
    ensures Xor(2 * rem, rem / 2048 * 0x1F25) < 4096
  {
    hide Xor, Pow2;
    TenthPowers();
    if rem < 2048 {
      XorZero(2 * rem);
    } else {
      XorTopBit(2 * rem, 0x1F25, 12);
    }
  }

  // ----- the object -----

  class QrCode {
    const version: nat
    const size: nat
    const ecl: Ecc
    var modules: Grid
    var isFunction: Grid
    var mask: int

    ghost predicate Valid()
      reads this`modules, this`isFunction
    {
      && MIN_VERSION <= version <= MAX_VERSION && size == SizeOf(version)
      && Square(modules, size) && Square(isFunction, size)
    }

    /** The grids are g and fn with the strokes applied. */
    ghost predicate Holds(g: Grid, fn: Grid, strokes: seq<Stroke>)
      reads this`modules, this`isFunction
    {
      && Valid() && Square(g, size) && Square(fn, size) && StrokesInside(strokes, size)
      && modules == Painted(g, strokes, size)
      && isFunction == Marked(fn, strokes, size)
    }

    method SetFunctionModule(x: int, y: int, isBlack: bool)
      requires Valid() && Inside(Cell(x, y), size)
      modifies this`modules, this`isFunction
      ensures Valid()
      ensures modules == Set(old(modules), Cell(x, y), isBlack, size)
      ensures isFunction == Set(old(isFunction), Cell(x, y), true, size)
    {
      modules := modules[y := modules[y][x := isBlack]];
      isFunction := isFunction[y := isFunction[y][x := true]];
    }

    /** setFunctionModule, with the strokes made so far. */
    method Draw(s: Stroke, ghost g: Grid, ghost fn: Grid, ghost done: seq<Stroke>)
      requires Holds(g, fn, done) && Inside(s.cell, size)
      modifies this`modules, this`isFunction
      ensures Holds(g, fn, done + [s])
    {
      hide Painted, Marked, Get, Set;
      PaintedAppend(g, done, s, size);
      PaintedAppend(fn, done, s, size);
      SetFunctionModule(s.cell.x, s.cell.y, s.black);
    }

    method DrawTiming(ghost g: Grid, ghost fn: Grid)
      requires Holds(g, fn, [])
      modifies this`modules, this`isFunction
      ensures Holds(g, fn, Timing(size))
    {
      hide Painted, Marked, Get, Set;
      for i := 0 to size
        invariant Holds(g, fn, Timing(i))
      {
        ghost var done := Timing(i);
        Draw(Stroke(Cell(6, i), i % 2 == 0), g, fn, done);
        Draw(Stroke(Cell(i, 6), i % 2 == 0), g, fn, done + [Stroke(Cell(6, i), i % 2 == 0)]);
        assert Timing(i + 1) == done + [Stroke(Cell(6, i), i % 2 == 0)] + [Stroke(Cell(i, 6), i % 2 == 0)];
      }
    }

    method DrawFinderPattern(x: int, y: int, ghost g: Grid, ghost fn: Grid, ghost done: seq<Stroke>)
      requires Holds(g, fn, done)
      modifies this`modules, this`isFunction
      ensures Holds(g, fn, done + Finder(x, y, 9, size))
    {
      hide *;
      FinderStart(done, x, y, size);
      for n := 0 to 9
        invariant Holds(g, fn, done + Finder(x, y, n, size))
      {
        ghost var above := done + Finder(x, y, n, size);
        FinderRowStart(done, x, y, n, size);
        for k := 0 to 9
          invariant Holds(g, fn, above + FinderRow(x, y, n - 4, k, size))
        {
          var (dx, dy) := (k - 4, n - 4);
          var dist := Chebyshev(dx, dy);
          var (xx, yy) := (x + dx, y + dy);
          FinderRowStep(above, x, y, dy, k, size);
          if 0 <= xx < size && 0 <= yy < size {
            Draw(Stroke(Cell(xx, yy), dist != 2 && dist != 4), g, fn, above + FinderRow(x, y, dy, k, size));
          }
        }
      }
    }

    method DrawAlignmentPattern(x: int, y: int, ghost g: Grid, ghost fn: Grid, ghost done: seq<Stroke>)
      requires Holds(g, fn, done) && StrokesInside(Alignment(x, y, 5), size)
      modifies this`modules, this`isFunction
      ensures Holds(g, fn, done + Alignment(x, y, 5))
    {
      hide *;
      AlignmentStart(done, x, y);
      for n := 0 to 5
        invariant Holds(g, fn, done + Alignment(x, y, n))
      {
        ghost var above := done + Alignment(x, y, n);
        AlignmentRowStart(done, x, y, n);
        for k := 0 to 5
          invariant Holds(g, fn, above + AlignmentRow(x, y, n - 2, k))
        {
          AlignmentContains(x, y, n, k, size);
          AlignmentRowStep(above, x, y, n - 2, k);
          ghost var made := above + AlignmentRow(x, y, n - 2, k);
          Draw(Stroke(Cell(x + k - 2, y + n - 2), Chebyshev(k - 2, n - 2) != 1), g, fn, made);
        }
      }
    }

    method GetAlignmentPatternPositions() returns (result: seq<int>)
      requires MIN_VERSION <= version <= MAX_VERSION && size == SizeOf(version)
      ensures result == AlignmentPositions(version)
    {
      hide AlignStep, AlignmentPositions;
      PositionsMeaning(version);
      if version == 1 {
        return [];
      }
      var numAlign := version / 7 + 2;
      var step := AlignStep(version);
      result := [];
      var pos := size - 7;
      for i := 0 to numAlign - 1
        invariant pos == size - 7 - i * step
        invariant |result| == i
        invariant forall k | 0 <= k < i :: result[k] == AlignmentPositions(version)[numAlign - i + k]
      {
        CentreAt(version, numAlign - 1 - i);
        result := [pos] + result;
        pos := pos - step;
        assert (i + 1) * step == i * step + step;
      }
      CentreAt(version, 0);
      result := [6] + result;
    }

    method DrawAlignmentPatterns(ghost g: Grid, ghost fn: Grid, ghost done: seq<Stroke>)
      requires Holds(g, fn, done)
      requires var pos := AlignmentPositions(version); StrokesInside(Alignments(pos, |pos|), size)
      modifies this`modules, this`isFunction
      ensures var pos := AlignmentPositions(version); Holds(g, fn, done + Alignments(pos, |pos|))
    {
      hide *;
      HoldsValid(g, fn, done);
      var pos := GetAlignmentPatternPositions();
      var numAlign := |pos|;
      AlignmentsStart(done, pos);
      for i := 0 to numAlign
        invariant Holds(g, fn, done + Alignments(pos, i))
      {
        ghost var left := done + Alignments(pos, i);
        AlignmentsStep(done, pos, i);
        for j := 0 to numAlign
          invariant Holds(g, fn, left + AlignmentColumn(pos, i, j))
        {
          AlignmentColumnStep(left, pos, i, j);
          if !((i == 0 && j == 0) || (i == 0 && j == numAlign - 1) || (i == numAlign - 1 && j == 0)) {
            AlignmentsContain(pos, i, j, size);
            DrawAlignmentPattern(pos[i], pos[j], g, fn, left + AlignmentColumn(pos, i, j));
          }
        }
      }
    }

    lemma HoldsValid(g: Grid, fn: Grid, done: seq<Stroke>)
      requires Holds(g, fn, done)
      ensures MIN_VERSION <= version <= MAX_VERSION && size == SizeOf(version) >= 21
    {
    }

    method DrawFormatBits(msk: nat, ghost g: Grid, ghost fn: Grid, ghost done: seq<Stroke>)
      requires Holds(g, fn, done) && msk < 8
      modifies this`modules, this`isFunction
      ensures Holds(g, fn, done + Format(FormatBits(ecl, msk), size))
    {
      hide *;
      HoldsValid(g, fn, done);
      var data := FormatLevel(ecl) * 8 + msk;
      var rem := data;
      FormatRemainderStart(data);
      for i := 0 to 10
        invariant rem == FormatRemainder(data, i) && Holds(g, fn, done)
      {
        FormatRemainderNext(data, i);
        rem := Xor(2 * rem, rem / 512 * 0x537);
      }
      var bits := Xor(data * 1024 + rem, 0x5412);
      FormatMeaning(ecl, msk);
      FormatBitsBound(ecl, msk);
      assert bits / 32768 == 0;  // the range check of the source cannot fail
      FormatStart(done, bits, size);
      for i := 0 to 6
        invariant Holds(g, fn, done + FormatCopy1(bits, i))
      {
        FormatStep1(done, bits, i, size);
        Draw(Stroke(Cell(8, i), GetBit(bits, i)), g, fn, done + FormatCopy1(bits, i));
      }
      FormatStep1(done, bits, 6, size);
      Draw(Stroke(Cell(8, 7), GetBit(bits, 6)), g, fn, done + FormatCopy1(bits, 6));
      FormatStep1(done, bits, 7, size);
      Draw(Stroke(Cell(8, 8), GetBit(bits, 7)), g, fn, done + FormatCopy1(bits, 7));
      FormatStep1(done, bits, 8, size);
      Draw(Stroke(Cell(7, 8), GetBit(bits, 8)), g, fn, done + FormatCopy1(bits, 8));
      for i := 9 to 15
        invariant Holds(g, fn, done + FormatCopy1(bits, i))
      {
        FormatStep1(done, bits, i, size);
        Draw(Stroke(Cell(14 - i, 8), GetBit(bits, i)), g, fn, done + FormatCopy1(bits, i));
      }
      ghost var first := done + FormatCopy1(bits, 15);
      for i := 0 to 8
        invariant Holds(g, fn, first + FormatCopy2(bits, i, size))
      {
        FormatStep2(first, bits, i, size);
        Draw(Stroke(Cell(size - 1 - i, 8), GetBit(bits, i)), g, fn, first + FormatCopy2(bits, i, size));
      }
      for i := 8 to 15
        invariant Holds(g, fn, first + FormatCopy2(bits, i, size))
      {
        FormatStep2(first, bits, i, size);
        Draw(Stroke(Cell(8, size - 15 + i), GetBit(bits, i)), g, fn, first + FormatCopy2(bits, i, size));
      }
      DarkInside(size);
      Draw(Stroke(Cell(8, size - 8), true), g, fn, first + FormatCopy2(bits, 15, size));
    }

    method DrawVersion(ghost g: Grid, ghost fn: Grid, ghost done: seq<Stroke>)
      requires Holds(g, fn, done)
      modifies this`modules, this`isFunction
      ensures Holds(g, fn, done + VersionInfo(version))
    {
      hide *;
      VersionRange();
      HoldsValid(g, fn, done);
      VersionMeaning(done, version);
      if version < 7 {
        return;
      }
      var rem := version;
      VersionRemainderStart(version);
      for i := 0 to 12
        invariant rem == VersionRemainder(version, i) && Holds(g, fn, done)
      {
        VersionRemainderNext(version, i);
        rem := Xor(2 * rem, rem / 2048 * 0x1F25);
      }
      var bits := version * 4096 + rem;
      VersionRemainderBound(version, 12);
      assert bits / 0x40000 == 0;  // the range check of the source cannot fail
      for i := 0 to 18
        invariant Holds(g, fn, done + VersionBlocks(bits, i, size))
      {
        var bit := GetBit(bits, i);
        var (a, b) := (size - 11 + i % 3, i / 3);
        VersionStep(done, bits, i, size);
        Draw(Stroke(Cell(a, b), bit), g, fn, done + VersionBlocks(bits, i, size));
        Draw(Stroke(Cell(b, a), bit), g, fn, done + VersionBlocks(bits, i, size) + [Stroke(Cell(a, b), bit)]);
      }
    }

    method DrawFunctionPatterns()
      requires Valid() && modules == White(size) && isFunction == White(size)
      modifies this`modules, this`isFunction
      ensures Valid()
      ensures modules == FunctionGrid(version, ecl)
      ensures isFunction == FunctionMask(version, ecl)
    {
      hide *;
      VersionRange();
      HoldsNothing();
      ghost var w := White(size);
      ghost var pos := AlignmentPositions(version);
      PartsInside(version, ecl);
      ghost var t := Timing(size);
      DrawTiming(w, w);
      DrawFinderPattern(3, 3, w, w, t);
      ghost var f1 := t + Finder(3, 3, 9, size);
      DrawFinderPattern(size - 4, 3, w, w, f1);
      ghost var f2 := f1 + Finder(size - 4, 3, 9, size);
      DrawFinderPattern(3, size - 4, w, w, f2);
      ghost var f3 := f2 + Finder(3, size - 4, 9, size);
      DrawAlignmentPatterns(w, w, f3);
      ghost var a := f3 + Alignments(pos, |pos|);
      DrawFormatBits(0, w, w, a);
      DrawVersion(w, w, a + Format(FormatBits(ecl, 0), size));
      HoldsAll();
    }

    lemma HoldsNothing()
      requires Valid() && modules == White(size) && isFunction == White(size)
      ensures Holds(White(size), White(size), [])
      ensures MIN_VERSION <= version <= MAX_VERSION && size == SizeOf(version) >= 21
    {
      hide White;
      PaintedNothing(White(size), size);
    }

    lemma HoldsAll()
      requires MIN_VERSION <= version <= MAX_VERSION && size == SizeOf(version)
      requires var pos := AlignmentPositions(version);
               Holds(White(size), White(size),
                     Timing(size) + Finder(3, 3, 9, size) + Finder(size - 4, 3, 9, size) +
                     Finder(3, size - 4, 9, size) +
                     Alignments(pos, |pos|) + Format(FormatBits(ecl, 0), size) + VersionInfo(version))
      ensures Valid() && modules == FunctionGrid(version, ecl) && isFunction == FunctionMask(version, ecl)
    {
      hide Timing, Finder, Alignments, AlignmentPositions, Format, FormatBits, VersionInfo, White, Painted, Marked;
    }

    /** The cells visited so far have received the first i bits. */
    ghost predicate Progress(g: Grid, fn: Grid, cells: seq<Cell>, data: seq<Byte>, i: int)
      reads this`modules, this`isFunction
    {
      && Valid() && Square(g, size) && fn == isFunction && AllInside(cells, size)
      && var (free, bits) := (|Free(fn, cells, size)|, CodewordBits(data));
      && modules == Drawn(g, fn, cells, bits, size)
      && i == if free <= |bits| then free else |bits|
    }

    /** The innermost step of the scan: one bit into one free module. */
    method PlaceBit(x: int, y: int, data: seq<Byte>, i: nat, ghost g: Grid, ghost fn: Grid, ghost cells: seq<Cell>)
      returns (next: nat)
      requires Progress(g, fn, cells, data, i) && Inside(Cell(x, y), size)
      modifies this`modules
      ensures Progress(g, fn, cells + [Cell(x, y)], data, next)
    {
      hide Free, Drawn, CodewordBits, Shr;
      DrawnNext(g, fn, cells, CodewordBits(data), size, Cell(x, y));
      next := i;
      if !isFunction[y][x] && i < |data| * 8 {
        CodewordBitsAt(data, i);
        modules := modules[y := modules[y][x := Shr(data[i / 8], 7 - i % 8) % 2 != 0]];
        next := i + 1;
      }
    }

    /** The zigzag scan. Refuses a codeword sequence of the wrong length. */
    method DrawCodewords(data: seq<Byte>) returns (ok: bool)
      requires Valid() && isFunction == FunctionMask(version, ecl)
      modifies this`modules
      ensures Valid()
      ensures ok <==> |data| == RawCodewords(version)
      ensures !ok ==> modules == old(modules)
      ensures ok ==> AllInside(FullScan(size), size) &&
                     modules == Drawn(old(modules), isFunction, FullScan(size), CodewordBits(data), size)
    {
      hide *;
      SizeFacts();
      if |data| != RawCodewords(version) {
        return false;
      }
      ok := true;
      ghost var (g, fn) := (modules, isFunction);
      ghost var p := 0;
      var i := 0;
      var right: int := size - 1;
      ScanStart(data);
      while right >= 1
        invariant p <= size / 2 && right == if p == 0 then size - 1 else Right(size, p - 1) - 2
        invariant i >= 0 && Progress(g, fn, Scan(size, p), data, i)
        decreases right
      {
        RightSteps(size, p);
        if right == 6 {
          right := 5;
        }
        ghost var before := Scan(size, p);
        PairStart(before, size, right);
        for vert := 0 to size
          invariant i >= 0 && Progress(g, fn, before + PairCells(size, right, vert), data, i)
        {
          ghost var cells := before + PairCells(size, right, vert);
          ghost var visited := cells;
          for j := 0 to 2
            invariant visited == if j == 0 then cells else if j == 1 then cells + [Visit(size, right, vert, 0)]
                                 else cells + [Visit(size, right, vert, 0)] + [Visit(size, right, vert, 1)]
            invariant i >= 0 && Progress(g, fn, visited, data, i)
          {
            var x := right - j;
            var upward := (right + 1) / 2 % 2 == 0;
            var y := if upward then size - 1 - vert else vert;
            VisitMeaning(size, p, right, vert, j);
            i := PlaceBit(x, y, data, i, g, fn, visited);
            visited := visited + [Cell(x, y)];
          }
          PairNext(before, size, right, vert);
        }
        ScanNext(size, p);
        p := p + 1;
        right := right - 2;
      }
      RightEnds(size, p);
      ScanEnd(g, fn, data, i);
      assert i == |data| * 8;  // the final check of the source cannot fail
    }

    lemma SizeFacts()
      requires Valid()
      ensures MIN_VERSION <= version <= MAX_VERSION && size == SizeOf(version) && 21 <= size <= 177 && size % 2 == 1
      ensures Square(modules, size) && Square(isFunction, size)
    {
    }

    lemma ScanStart(data: seq<Byte>)
      requires Valid()
      ensures Progress(modules, isFunction, Scan(size, 0), data, 0)
    {
    }

    lemma ScanEnd(g: Grid, fn: Grid, data: seq<Byte>, i: int)
      requires Progress(g, fn, Scan(size, size / 2), data, i) && fn == FunctionMask(version, ecl)
      requires |data| == RawCodewords(version)
      ensures Valid() && AllInside(FullScan(size), size)
      ensures modules == Drawn(g, fn, FullScan(size), CodewordBits(data), size)
      ensures i == 8 * |data|
    {
      hide Free, Drawn, CodewordBits, Scan, FunctionMask, NumRawDataModules;
      FreeCells(version, ecl);
    }

    method ApplyMask(msk: nat)
      requires Valid() && msk <= 7
      modifies this`modules
      ensures Valid()
      ensures modules == Masked(old(modules), isFunction, msk, size)
      ensures forall c: Cell | Inside(c, size) ::
                Get(modules, c, size) != Get(old(modules), c, size) <==>
                !Get(isFunction, c, size) && OnTile(msk, c.x, c.y)
    {
      hide Invert, Masked, Get, OnTile;
      ghost var g := modules;
      ghost var h := Masked(g, isFunction, msk, size);
      for y := 0 to size
        invariant Square(modules, size) && MaskedUpTo(modules, g, h, size, 0, y)
      {
        for x := 0 to size
          invariant Square(modules, size) && MaskedUpTo(modules, g, h, size, x, y)
        {
          var invert := Invert(msk, x, y);
          MaskedGet(g, isFunction, msk, size, Cell(x, y));
          CellValue(modules, size, x, y);
          CellValue(isFunction, size, x, y);
          modules := Set(modules, Cell(x, y), modules[y][x] != (invert && !isFunction[y][x]), size);
        }
      }
      GridsEqual(modules, h, size);
      forall c: Cell | Inside(c, size)
        ensures Get(modules, c, size) != Get(g, c, size) <==> !Get(isFunction, c, size) && OnTile(msk, c.x, c.y)
      {
        MaskChanges(g, isFunction, msk, size, c);
      }
    }

    /** Drawing the format again on a symbol whose format modules are already marked. */
    method RedrawFormatBits(msk: nat)
      requires Valid() && msk <= 7 && isFunction == FunctionMask(version, ecl)
      modifies this`modules, this`isFunction
      ensures Valid() && isFunction == old(isFunction)
      ensures StrokesInside(Format(FormatBits(ecl, msk), size), size)
      ensures modules == Painted(old(modules), Format(FormatBits(ecl, msk), size), size)
    {
      hide *;
      SizeFacts();
      ghost var (g, fn) := (modules, isFunction);
      HoldsCurrent();
      DrawFormatBits(msk, g, fn, []);
      HoldsFormat(g, fn, msk);
    }

    lemma HoldsCurrent()
      requires Valid()
      ensures Holds(modules, isFunction, [])
    {
      PaintedNothing(modules, size);
      PaintedNothing(isFunction, size);
    }

    lemma HoldsFormat(g: Grid, fn: Grid, msk: nat)
      requires Holds(g, fn, [] + Format(FormatBits(ecl, msk), size)) && fn == FunctionMask(version, ecl)
      ensures Valid() && isFunction == fn
      ensures StrokesInside(Format(FormatBits(ecl, msk), size), size)
      ensures modules == Painted(g, Format(FormatBits(ecl, msk), size), size)
    {
      hide Painted, Marked, Format, FormatBits, FunctionMask;
      var strokes := Format(FormatBits(ecl, msk), size);
      assert [] + strokes == strokes;
      FormatMarked(version, ecl, FormatBits(ecl, msk));
    }

    /** The mask search and the final masking. */
    method FinishMasking(requested: int)
      requires Valid() && -1 <= requested <= 7 && isFunction == FunctionMask(version, ecl)
      modifies this
      ensures Valid() && isFunction == old(isFunction) && 0 <= mask <= 7
      ensures modules == Finished(old(modules), isFunction, ecl, mask, size)
      ensures requested >= 0 ==> mask == requested
      ensures requested == -1 ==> BestMask(old(modules), isFunction, ecl, size, mask, 8)
    {
      hide *;
      SizeFacts();
      ghost var (base, fn) := (modules, isFunction);
      var msk := requested;
      SameDataRefl(base, size);
      if msk == -1 {
        var minPenalty := LONG_MAX;
        for i := 0 to 8
          invariant Valid() && isFunction == fn
          invariant Square(modules, size) && SameData(modules, base, size)
          invariant if i == 0 then msk == -1 && minPenalty == LONG_MAX
                    else 0 <= msk && BestMask(base, fn, ecl, size, msk, i) &&
                         minPenalty == PenaltyScore(Finished(base, fn, ecl, msk, size), size)
        {
          ghost var h := Finished(base, fn, ecl, i, size);
          FinishedMeaning(modules, fn, ecl, i, size);
          FinishedSame(modules, base, fn, ecl, i, size);
          ApplyMask(i);
          RedrawFormatBits(i);
          SizeFacts();
          assert modules == h;
          var penalty := GetPenaltyScore(modules, size);
          PenaltyFits(h, size);
          BestMaskStep(base, fn, ecl, size, if i == 0 then 0 else msk, i);
          if penalty < minPenalty {
            msk := i;
            minPenalty := penalty;
          }
          TrialUndone(base, fn, ecl, i, size);
          ApplyMask(i);
          SizeFacts();
        }
        BestMaskBound(base, fn, ecl, size, msk);
      }
      assert 0 <= msk <= 7;  // the range check of the source cannot fail
      mask := msk;
      FinishedMeaning(modules, fn, ecl, msk, size);
      FinishedSame(modules, base, fn, ecl, msk, size);
      ApplyMask(msk);
      RedrawFormatBits(msk);
    }

    /** Draws a complete symbol; a requested mask of -1 asks for the best one. */
    constructor (ver: nat, level: Ecc, dataCodewords: seq<Byte>, requested: int)
      requires MIN_VERSION <= ver <= MAX_VERSION && -1 <= requested <= 7
      requires |dataCodewords| == NumDataCodewords(ver, level)
      ensures version == ver && size == SizeOf(ver) && ecl == level && isFunction == []
      ensures 0 <= mask <= 7 && (requested >= 0 ==> mask == requested)
      ensures modules == SymbolGrid(ver, level, dataCodewords, mask)
      ensures requested == -1 ==> LeastPenalty(ver, level, dataCodewords, mask)
    {
      version, size, ecl := ver, SizeOf(ver), level;
      modules, isFunction := White(SizeOf(ver)), White(SizeOf(ver));
      mask := requested;
      new;
      hide *;
      StartValid();
      DrawFunctionPatterns();
      LayoutMeaning(ver, level);
      var allCodewords := AddEccAndInterleave(LayoutOf(ver, level), dataCodewords);
      var ok := DrawCodewords(allCodewords.value);
      BaseMeaning(ver, level, allCodewords.value);
      FinishMasking(requested);
      SymbolMeaning(ver, level, dataCodewords, mask);
      isFunction := [];
    }

    lemma StartValid()
      requires MIN_VERSION <= version <= MAX_VERSION && size == SizeOf(version) && modules == White(size)
      requires isFunction == White(size)
      ensures Valid()
    {
      hide White;
    }
  }

  /** The public constructor with its exceptions: a symbol is made exactly when every argument is acceptable. */
  method CreateSymbol(ver: int, level: Ecc, dataCodewords: seq<Byte>, requested: int) returns (q: QrCode?)
    ensures q != null <==>
            MIN_VERSION <= ver <= MAX_VERSION && -1 <= requested <= 7 && |dataCodewords| == NumDataCodewords(ver, level)
    ensures q != null ==>
            && fresh(q) && q.version == ver && 0 <= q.mask <= 7 && (requested >= 0 ==> q.mask == requested)
            && q.modules == SymbolGrid(ver, level, dataCodewords, q.mask)
            && (requested == -1 ==> LeastPenalty(ver, level, dataCodewords, q.mask))
  {
    hide SymbolGrid, LeastPenalty;
    if ver < MIN_VERSION || ver > MAX_VERSION { return null; }
    if requested < -1 || requested > 7 { return null; }
    if |dataCodewords| != NumDataCodewords(ver, level) { return null; }
    q := new QrCode(ver, level, dataCodewords, requested);
  }

  // Unfolding the stroke lists along the drawing loops.

  lemma FinderStart(done: seq<Stroke>, x: int, y: int, size: nat)
    ensures done + Finder(x, y, 0, size) == done
  {
  }

  lemma FinderRowStart(done: seq<Stroke>, x: int, y: int, n: nat, size: nat)
    ensures done + Finder(x, y, n, size) + FinderRow(x, y, n - 4, 0, size) == done + Finder(x, y, n, size)
    ensures done + Finder(x, y, n, size) + FinderRow(x, y, n - 4, 9, size) == done + Finder(x, y, n + 1, size)
  {
    hide FinderRow;
    NoFinderRow(x, y, n - 4, size);
  }

  lemma NoFinderRow(x: int, y: int, dy: int, size: nat)
    ensures FinderRow(x, y, dy, 0, size) == []
  {
  }

  lemma FinderRowStep(above: seq<Stroke>, x: int, y: int, dy: int, k: nat, size: nat)
    ensures var (c, dist) := (Cell(x + k - 4, y + dy), Chebyshev(k - 4, dy));
            var row := above + FinderRow(x, y, dy, k, size);
            && (Inside(c, size) <==> 0 <= c.x < size && 0 <= c.y < size)
            && above + FinderRow(x, y, dy, k + 1, size) ==
               if Inside(c, size) then row + [Stroke(c, dist != 2 && dist != 4)] else row
  {
    hide Chebyshev;
  }

  lemma AlignmentStart(done: seq<Stroke>, x: int, y: int)
    ensures done + Alignment(x, y, 0) == done
  {
  }

  lemma AlignmentRowStart(done: seq<Stroke>, x: int, y: int, n: nat)
    ensures done + Alignment(x, y, n) + AlignmentRow(x, y, n - 2, 0) == done + Alignment(x, y, n)
    ensures done + Alignment(x, y, n) + AlignmentRow(x, y, n - 2, 5) == done + Alignment(x, y, n + 1)
  {
    hide AlignmentRow;
    NoAlignmentRow(x, y, n - 2);
  }

  lemma NoAlignmentRow(x: int, y: int, dy: int)
    ensures AlignmentRow(x, y, dy, 0) == []
  {
  }

  lemma AlignmentRowStep(above: seq<Stroke>, x: int, y: int, dy: int, k: nat)
    ensures above + AlignmentRow(x, y, dy, k + 1) ==
            above + AlignmentRow(x, y, dy, k) + [Stroke(Cell(x + k - 2, y + dy), Chebyshev(k - 2, dy) != 1)]
  {
    hide Chebyshev;
  }

  lemma AlignmentContains(x: int, y: int, n: nat, k: nat, size: nat)
    requires n < 5 && k < 5 && StrokesInside(Alignment(x, y, 5), size)
    ensures Inside(Cell(x + k - 2, y + n - 2), size)
  {
    hide Alignment, CellsOf;
    var c := Cell(x + k - 2, y + n - 2);
    AlignmentCells(x, y, 5, c);
    CellHasStroke(Alignment(x, y, 5), c);
  }

  lemma CellHasStroke(strokes: seq<Stroke>, c: Cell)
    requires c in CellsOf(strokes)
    ensures exists s :: s in strokes && s.cell == c
  {
  }

  lemma PositionsMeaning(version: nat)
    requires version >= 1
    ensures version == 1 ==> AlignmentPositions(version) == []
    ensures version > 1 ==> |AlignmentPositions(version)| == version / 7 + 2
  {
  }

  lemma AlignmentsStart(done: seq<Stroke>, pos: seq<int>)
    ensures done + Alignments(pos, 0) == done
  {
  }

  lemma AlignmentsStep(done: seq<Stroke>, pos: seq<int>, i: nat)
    requires i < |pos|
    ensures done + Alignments(pos, i) + AlignmentColumn(pos, i, 0) == done + Alignments(pos, i)
    ensures done + Alignments(pos, i) + AlignmentColumn(pos, i, |pos|) == done + Alignments(pos, i + 1)
  {
    hide AlignmentColumn;
    NoAlignmentColumn(pos, i);
  }

  lemma NoAlignmentColumn(pos: seq<int>, i: nat)
    requires i < |pos|
    ensures AlignmentColumn(pos, i, 0) == []
  {
  }

  lemma AlignmentColumnStep(left: seq<Stroke>, pos: seq<int>, i: nat, j: nat)
    requires i < |pos| && j < |pos|
    ensures left + AlignmentColumn(pos, i, j + 1) ==
            if (i == 0 && j == 0) || (i == 0 && j == |pos| - 1) || (i == |pos| - 1 && j == 0)
            then left + AlignmentColumn(pos, i, j)
            else left + AlignmentColumn(pos, i, j) + Alignment(pos[i], pos[j], 5)
  {
    hide Alignment;
  }

  lemma AlignmentsContain(pos: seq<int>, i: nat, j: nat, size: nat)
    requires i < |pos| && j < |pos| && StrokesInside(Alignments(pos, |pos|), size)
    requires !((i == 0 && j == 0) || (i == 0 && j == |pos| - 1) || (i == |pos| - 1 && j == 0))
    ensures StrokesInside(Alignment(pos[i], pos[j], 5), size)
  {
    hide Alignments, Alignment, CellsOf;
    forall s | s in Alignment(pos[i], pos[j], 5) ensures Inside(s.cell, size) {
      StrokeCell(Alignment(pos[i], pos[j], 5), s);
      AlignmentCells(pos[i], pos[j], 5, s.cell);
      assert AlignedAt(pos, i, j, s.cell);
      AlignmentsCells(pos, |pos|, s.cell);
      CellHasStroke(Alignments(pos, |pos|), s.cell);
    }
  }

  lemma FormatRemainderStart(data: nat)
    ensures FormatRemainder(data, 0) == data
  {
  }

  lemma FormatRemainderNext(data: nat, i: nat)
    ensures FormatRemainder(data, i + 1) == Xor(2 * FormatRemainder(data, i), FormatRemainder(data, i) / 512 * 0x537)
  {
    hide Xor;
  }

  lemma FormatMeaning(ecl: Ecc, mask: nat)
    ensures var data := FormatLevel(ecl) * 8 + mask;
            FormatBits(ecl, mask) == Xor(data * 1024 + FormatRemainder(data, 10), 0x5412)
  {
    hide Xor, FormatRemainder;
  }

  lemma FormatStart(done: seq<Stroke>, bits: nat, size: nat)
    ensures done + FormatCopy1(bits, 0) == done
    ensures done + FormatCopy1(bits, 15) + FormatCopy2(bits, 0, size) == done + FormatCopy1(bits, 15)
    ensures done + Format(bits, size) ==
            done + FormatCopy1(bits, 15) + FormatCopy2(bits, 15, size) + [Stroke(Cell(8, size - 8), true)]
  {
    hide GetBit, FormatCell, FormatCell2;
  }

  lemma FormatStep1(done: seq<Stroke>, bits: nat, i: nat, size: nat)
    requires i < 15 && size >= 9
    ensures done + FormatCopy1(bits, i + 1) == done + FormatCopy1(bits, i) + [Stroke(FormatCell(i), GetBit(bits, i))]
    ensures FormatCell(i) == if i <= 5 then Cell(8, i) else if i == 6 then Cell(8, 7) else if i == 7 then Cell(8, 8)
                             else if i == 8 then Cell(7, 8) else Cell(14 - i, 8)
    ensures Inside(FormatCell(i), size)
  {
    hide GetBit;
  }

  lemma FormatStep2(done: seq<Stroke>, bits: nat, i: nat, size: nat)
    requires i < 15 && size >= 15
    ensures done + FormatCopy2(bits, i + 1, size) ==
            done + FormatCopy2(bits, i, size) + [Stroke(FormatCell2(i, size), GetBit(bits, i))]
    ensures FormatCell2(i, size) == if i < 8 then Cell(size - 1 - i, 8) else Cell(8, size - 15 + i)
    ensures Inside(FormatCell2(i, size), size)
  {
    hide GetBit;
  }

  lemma DarkInside(size: nat)
    requires size >= 9
    ensures Inside(Cell(8, size - 8), size)
  {
  }

  lemma VersionMeaning(done: seq<Stroke>, version: nat)
    requires version >= 1
    ensures version < 7 ==> done + VersionInfo(version) == done
    ensures version >= 7 ==>
            VersionInfo(version) == VersionBlocks(version * 4096 + VersionRemainder(version, 12), 18, SizeOf(version))
    ensures forall bits: nat :: done + VersionBlocks(bits, 0, SizeOf(version)) == done
  {
    hide VersionRemainder, GetBit;
  }

  lemma VersionRemainderStart(version: nat)
    ensures VersionRemainder(version, 0) == version
  {
  }

  lemma VersionRemainderNext(version: nat, i: nat)
    ensures VersionRemainder(version, i + 1) ==
            Xor(2 * VersionRemainder(version, i), VersionRemainder(version, i) / 2048 * 0x1F25)
  {
    hide Xor;
  }

  lemma VersionStep(done: seq<Stroke>, bits: nat, i: nat, size: nat)
    requires i < 18 && size >= 21
    ensures var (a, b) := (size - 11 + i % 3, i / 3);
            && Inside(Cell(a, b), size) && Inside(Cell(b, a), size)
            && done + VersionBlocks(bits, i + 1, size) ==
               done + VersionBlocks(bits, i, size) + [Stroke(Cell(a, b), GetBit(bits, i))] +
               [Stroke(Cell(b, a), GetBit(bits, i))]
  {
    hide GetBit;
  }

  lemma PartsInside(version: nat, ecl: Ecc)
    requires MIN_VERSION <= version <= MAX_VERSION
    ensures var pos := AlignmentPositions(version); StrokesInside(Alignments(pos, |pos|), SizeOf(version))
  {
    hide Alignments, AlignmentPositions, CellsOf, Centres, InnerCentres;
    var pos := AlignmentPositions(version);
    forall s | s in Alignments(pos, |pos|) ensures Inside(s.cell, SizeOf(version)) {
      StrokeCell(Alignments(pos, |pos|), s);
      AlignmentRegion(version, s.cell);
      CentresRange(version, s.cell.x);
      CentresRange(version, s.cell.y);
    }
  }

  // Unfolding the scan along the loops that make it.

  lemma DrawnNext(g: Grid, fn: Grid, cells: seq<Cell>, bits: seq<bool>, size: nat, c: Cell)
    requires Square(g, size) && Square(fn, size) && AllInside(cells, size) && Inside(c, size)
    ensures AllInside(cells + [c], size)
    ensures Free(fn, cells + [c], size) == Free(fn, cells, size) + (if Get(fn, c, size) then [] else [c])
    ensures var (h, i) := (Drawn(g, fn, cells, bits, size), |Free(fn, cells, size)|);
            Drawn(g, fn, cells + [c], bits, size) ==
            if !Get(fn, c, size) && i < |bits| then Set(h, c, bits[i], size) else h
  {
    hide Get, Set;
    assert (cells + [c])[..|cells|] == cells;
  }

  lemma RightSteps(size: nat, p: nat)
    requires size % 2 == 1 && size >= 21 && p <= size / 2
    requires (if p == 0 then size - 1 else Right(size, p - 1) - 2) >= 1
    ensures p < size / 2
    ensures var right := if p == 0 then size - 1 else Right(size, p - 1) - 2;
            Right(size, p) == (if right == 6 then 5 else right) >= 1
  {
  }

  lemma RightEnds(size: nat, p: nat)
    requires size % 2 == 1 && size >= 21 && p <= size / 2
    requires (if p == 0 then size - 1 else Right(size, p - 1) - 2) < 1
    ensures p == size / 2
  {
  }

  lemma PairStart(before: seq<Cell>, size: nat, right: int)
    ensures before + PairCells(size, right, 0) == before
  {
  }

  lemma PairNext(before: seq<Cell>, size: nat, right: int, vert: nat)
    ensures before + PairCells(size, right, vert + 1) ==
            before + PairCells(size, right, vert) + [Visit(size, right, vert, 0)] + [Visit(size, right, vert, 1)]
  {
    hide Visit;
  }

  lemma ScanNext(size: nat, p: nat)
    ensures Scan(size, p + 1) == Scan(size, p) + PairCells(size, Right(size, p), size)
  {
    hide PairCells;
  }

  lemma VisitMeaning(size: nat, p: nat, right: int, vert: nat, j: nat)
    requires size % 2 == 1 && size >= 21 && p < size / 2 && right == Right(size, p) && vert < size && j < 2
    ensures var c := Cell(right - j, if (right + 1) / 2 % 2 == 0 then size - 1 - vert else vert);
            Visit(size, right, vert, j) == c && Inside(c, size)
  {
  }

  /** Row by row, the cells before (x, y) come from h and the others from g. */
  ghost predicate MaskedUpTo(m: Grid, g: Grid, h: Grid, size: nat, x: nat, y: nat)
    requires Square(m, size) && Square(g, size) && Square(h, size)
  {
    forall c: Cell | Inside(c, size) ::
      Get(m, c, size) == if c.y < y || (c.y == y && c.x < x) then Get(h, c, size) else Get(g, c, size)
  }

  lemma CellValue(g: Grid, size: nat, x: nat, y: nat)
    requires Square(g, size) && x < size && y < size
    ensures Get(g, Cell(x, y), size) == g[y][x]
  {
  }

  // ----- facts of the mask search -----

  lemma SameDataRefl(g: Grid, size: nat)
    requires Square(g, size)
    ensures SameData(g, g, size)
  {
  }

  lemma FinishedMeaning(g: Grid, fn: Grid, ecl: Ecc, m: nat, size: nat)
    requires Square(g, size) && Square(fn, size) && size >= 9
    ensures StrokesInside(Format(FormatBits(ecl, m), size), size)
    ensures Finished(g, fn, ecl, m, size) == Painted(Masked(g, fn, m, size), Format(FormatBits(ecl, m), size), size)
  {
    hide Painted, Masked, Format, FormatBits;
    FormatInside(FormatBits(ecl, m), size);
  }

  /** The format modules are part of the function mask, so drawing a format marks nothing new. */
  lemma FormatMarked(version: nat, ecl: Ecc, bits: nat)
    requires MIN_VERSION <= version <= MAX_VERSION
    ensures StrokesInside(Format(bits, SizeOf(version)), SizeOf(version))
    ensures Marked(FunctionMask(version, ecl), Format(bits, SizeOf(version)), SizeOf(version)) ==
            FunctionMask(version, ecl)
  {
    hide Marked, Format, FunctionMask, CellsOf, Get, FunctionRegion;
    var (size, fn) := (SizeOf(version), FunctionMask(version, ecl));
    FormatInside(bits, size);
    var h := Marked(fn, Format(bits, size), size);
    forall c: Cell | Inside(c, size) ensures Get(h, c, size) == Get(fn, c, size) {
      MarkedGet(fn, Format(bits, size), size, c);
      FormatCells(bits, size, c);
      FunctionMaskGet(version, ecl, c);
      if FormatRegion(c, size) { FormatIsFunction(version, c); }
    }
    GridsEqual(h, fn, size);
  }

  lemma FormatIsFunction(version: nat, c: Cell)
    requires MIN_VERSION <= version <= MAX_VERSION && Inside(c, SizeOf(version)) && FormatRegion(c, SizeOf(version))
    ensures FunctionRegion(version, c)
  {
  }

  lemma BestMaskStep(base: Grid, fn: Grid, ecl: Ecc, size: nat, m: nat, i: nat)
    requires Square(base, size) && Square(fn, size) && size >= 9
    requires i > 0 ==> BestMask(base, fn, ecl, size, m, i)
    ensures i == 0 ||
            PenaltyScore(Finished(base, fn, ecl, i, size), size) < PenaltyScore(Finished(base, fn, ecl, m, size), size)
            ==> BestMask(base, fn, ecl, size, i, i + 1)
    ensures i > 0 &&
            PenaltyScore(Finished(base, fn, ecl, i, size), size) >= PenaltyScore(Finished(base, fn, ecl, m, size), size)
            ==> BestMask(base, fn, ecl, size, m, i + 1)
  {
    hide Finished, PenaltyScore;
  }

  lemma BestMaskBound(base: Grid, fn: Grid, ecl: Ecc, size: nat, m: nat)
    requires Square(base, size) && Square(fn, size) && size >= 9 && BestMask(base, fn, ecl, size, m, 8)
    ensures m < 8
  {
    hide Finished, PenaltyScore;
  }

  // ----- what the constructor composes -----

  /** m is the earliest mask whose finished symbol has the least penalty of all eight. */
  ghost predicate LeastPenalty(version: nat, ecl: Ecc, data: seq<Byte>, m: nat)
    requires MIN_VERSION <= version <= MAX_VERSION && |data| == NumDataCodewords(version, ecl)
  {
    var size := SizeOf(version);
    && m < 8
    && (forall k: nat | k < 8 ::
          PenaltyScore(SymbolGrid(version, ecl, data, m), size) <=
            PenaltyScore(SymbolGrid(version, ecl, data, k), size))
    && (forall k: nat | k < m ::
          PenaltyScore(SymbolGrid(version, ecl, data, m), size) < PenaltyScore(SymbolGrid(version, ecl, data, k), size))
  }

  lemma LayoutMeaning(ver: nat, ecl: Ecc)
    requires MIN_VERSION <= ver <= MAX_VERSION
    ensures LayoutOf(ver, ecl).Valid()
    ensures LayoutOf(ver, ecl).DataLen() == NumDataCodewords(ver, ecl)
    ensures LayoutOf(ver, ecl).raw == RawCodewords(ver)
  {
  }

  lemma BaseMeaning(version: nat, ecl: Ecc, codewords: seq<Byte>)
    requires MIN_VERSION <= version <= MAX_VERSION
    ensures AllInside(FullScan(SizeOf(version)), SizeOf(version))
    ensures BaseGrid(version, ecl, codewords) ==
            var size := SizeOf(version);
            Drawn(FunctionGrid(version, ecl), FunctionMask(version, ecl), FullScan(size), CodewordBits(codewords), size)
  {
    hide Drawn, FunctionGrid, FunctionMask, FullScan, CodewordBits;
    FreeCells(version, ecl);
  }

  lemma SymbolMeaning(version: nat, ecl: Ecc, data: seq<Byte>, m: nat)
    requires MIN_VERSION <= version <= MAX_VERSION && |data| == NumDataCodewords(version, ecl)
    ensures var base := BaseGrid(version, ecl, Interleaved(LayoutOf(version, ecl), data));
            var fn := FunctionMask(version, ecl);
            var size := SizeOf(version);
            && SymbolGrid(version, ecl, data, m) == Finished(base, fn, ecl, m, size)
            && (BestMask(base, fn, ecl, size, m, 8) ==> LeastPenalty(version, ecl, data, m))
  {
    hide BaseGrid, FunctionMask, Finished, PenaltyScore, Interleaved;
  }
}
