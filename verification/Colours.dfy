/** The colour of every function module, said by its coordinates. */
module Colours {
  import opened Galois
  import opened Wrappers
  import opened Bits
  import opened Interleave
  import opened Zigzag
  import opened Patterns
  import opened ModuleCount
  import opened Capacity
  import opened Masking
  import opened Symbol

  // ----- the last stroke decides -----

  /** The colour that the last stroke on cell c gives it, if there is one. */
  function LastColour(strokes: seq<Stroke>, c: Cell): Option<bool> {
    if strokes == [] then None else
      var last := strokes[|strokes| - 1];
      if last.cell == c then Some(last.black) else LastColour(strokes[..|strokes| - 1], c)
  }

  function Later(a: Option<bool>, b: Option<bool>): Option<bool> {
    if b.Some? then b else a
  }

  lemma {:induction false} ColourConcat(a: seq<Stroke>, b: seq<Stroke>, c: Cell)
    ensures LastColour(a + b, c) == Later(LastColour(a, c), LastColour(b, c))
  {
    if b == [] {
      assert a + b == a;
    } else {
      assert (a + b)[..|a + b| - 1] == a + b[..|b| - 1];
      ColourConcat(a, b[..|b| - 1], c);
    }
  }

  lemma ColourOne(a: seq<Stroke>, s: Stroke, c: Cell)
    ensures LastColour(a + [s], c) == if s.cell == c then Some(s.black) else LastColour(a, c)
  {
    assert (a + [s])[..|a|] == a;
  }

  lemma ColourTwo(a: seq<Stroke>, s: Stroke, t: Stroke, c: Cell)
    ensures LastColour(a + [s, t], c) ==
            if t.cell == c then Some(t.black) else if s.cell == c then Some(s.black) else LastColour(a, c)
  {
    assert a + [s, t] == a + [s] + [t];
    ColourOne(a, s, c);
    ColourOne(a + [s], t, c);
  }

  lemma {:induction false} ColourNone(strokes: seq<Stroke>, c: Cell)
    requires c !in CellsOf(strokes)
    ensures LastColour(strokes, c) == None
  {
    if strokes != [] {
      hide CellsOf;
      CellsLast(strokes);
      ColourNone(strokes[..|strokes| - 1], c);
    }
  }

  lemma {:induction false} PaintedColour(g: Grid, strokes: seq<Stroke>, size: nat, c: Cell)
    requires Square(g, size) && StrokesInside(strokes, size) && Inside(c, size)
    ensures Get(Painted(g, strokes, size), c, size) ==
            if LastColour(strokes, c).Some? then LastColour(strokes, c).value else Get(g, c, size)
  {
    if strokes != [] {
      hide Get, Set;
      PaintedColour(g, strokes[..|strokes| - 1], size, c);
    }
  }

  // ----- the colours of each pattern -----

  lemma NoColour(c: Cell)
    ensures LastColour([], c) == None
  {
  }

  lemma {:induction false} TimingColour(n: nat, c: Cell)
    ensures LastColour(Timing(n), c) ==
            if c.x == 6 && 0 <= c.y < n then Some(c.y % 2 == 0)
            else if c.y == 6 && 0 <= c.x < n then Some(c.x % 2 == 0) else None
  {
    hide LastColour;
    if n == 0 {
      NoColour(c);
    } else {
      TimingColour(n - 1, c);
      var even := (n - 1) % 2 == 0;
      ColourTwo(Timing(n - 1), Stroke(Cell(6, n - 1), even), Stroke(Cell(n - 1, 6), even), c);
    }
  }

  /** Around a finder centre: a solid three by three square, a light ring, a dark ring, a light ring. */
  predicate FinderDark(dx: int, dy: int) {
    || (-1 <= dx <= 1 && -1 <= dy <= 1)
    || ((dx == 3 || dx == -3) && -3 <= dy <= 3)
    || ((dy == 3 || dy == -3) && -3 <= dx <= 3)
  }

  lemma FinderRings(dx: int, dy: int)
    requires -4 <= dx <= 4 && -4 <= dy <= 4
    ensures Chebyshev(dx, dy) != 2 && Chebyshev(dx, dy) != 4 <==> FinderDark(dx, dy)
  {
  }

  lemma {:induction false} FinderRowColour(x: int, y: int, dy: int, n: nat, size: nat, c: Cell)
    requires n <= 9 && -4 <= dy <= 4
    ensures LastColour(FinderRow(x, y, dy, n, size), c) ==
            if Inside(c, size) && c.y == y + dy && x - 4 <= c.x <= x + n - 5
            then Some(FinderDark(c.x - x, dy)) else None
  {
    hide LastColour, Chebyshev, FinderDark;
    if n == 0 {
      NoColour(c);
    } else {
      var row := FinderRow(x, y, dy, n - 1, size);
      FinderRowColour(x, y, dy, n - 1, size, c);
      FinderRings(n - 5, dy);
      var d := Cell(x + n - 5, y + dy);
      assert row + [] == row;
      ColourOne(row, Stroke(d, FinderDark(n - 5, dy)), c);
    }
  }

  lemma {:induction false} FinderColour(x: int, y: int, n: nat, size: nat, c: Cell)
    requires n <= 9
    ensures LastColour(Finder(x, y, n, size), c) ==
            if Inside(c, size) && y - 4 <= c.y <= y + n - 5 && x - 4 <= c.x <= x + 4
            then Some(FinderDark(c.x - x, c.y - y)) else None
  {
    hide LastColour, FinderRow, FinderDark;
    if n == 0 {
      NoColour(c);
    } else {
      FinderColour(x, y, n - 1, size, c);
      FinderRowColour(x, y, n - 5, 9, size, c);
      ColourConcat(Finder(x, y, n - 1, size), FinderRow(x, y, n - 5, 9, size), c);
    }
  }

  /** Around an alignment centre: the centre, a light ring, a dark ring. */
  predicate AlignmentDark(dx: int, dy: int) {
    (dx == 0 && dy == 0) || dx == 2 || dx == -2 || dy == 2 || dy == -2
  }

  lemma AlignmentRings(dx: int, dy: int)
    requires -2 <= dx <= 2 && -2 <= dy <= 2
    ensures Chebyshev(dx, dy) != 1 <==> AlignmentDark(dx, dy)
  {
  }

  lemma {:induction false} AlignmentRowColour(x: int, y: int, dy: int, n: nat, c: Cell)
    requires n <= 5 && -2 <= dy <= 2
    ensures LastColour(AlignmentRow(x, y, dy, n), c) ==
            if c.y == y + dy && x - 2 <= c.x <= x + n - 3 then Some(AlignmentDark(c.x - x, dy)) else None
  {
    hide LastColour, Chebyshev, AlignmentDark;
    if n == 0 {
      NoColour(c);
    } else {
      AlignmentRowColour(x, y, dy, n - 1, c);
      AlignmentRings(n - 3, dy);
      ColourOne(AlignmentRow(x, y, dy, n - 1), Stroke(Cell(x + n - 3, y + dy), AlignmentDark(n - 3, dy)), c);
    }
  }

  lemma {:induction false} AlignmentColour(x: int, y: int, n: nat, c: Cell)
    requires n <= 5
    ensures LastColour(Alignment(x, y, n), c) ==
            if y - 2 <= c.y <= y + n - 3 && x - 2 <= c.x <= x + 2 then Some(AlignmentDark(c.x - x, c.y - y)) else None
  {
    hide LastColour, AlignmentRow, AlignmentDark;
    if n == 0 {
      NoColour(c);
    } else {
      AlignmentColour(x, y, n - 1, c);
      AlignmentRowColour(x, y, n - 3, 5, c);
      ColourConcat(Alignment(x, y, n - 1), AlignmentRow(x, y, n - 3, 5), c);
    }
  }

  /** Centres far enough apart that no module is near two of them. */
  ghost predicate Apart(pos: seq<int>) {
    forall i, j | 0 <= i < j < |pos| :: pos[j] - pos[i] >= 5
  }

  lemma {:induction false} AlignmentColumnColour(pos: seq<int>, i: nat, j: nat, n: nat, c: Cell)
    requires i < |pos| && j < |pos| && n <= |pos| && Apart(pos) && AlignedAt(pos, i, j, c)
    ensures LastColour(AlignmentColumn(pos, i, n), c) ==
            if j < n then Some(AlignmentDark(c.x - pos[i], c.y - pos[j])) else None
  {
    hide LastColour, Alignment, AlignmentDark;
    if n == 0 {
      NoColour(c);
    } else {
      var column := AlignmentColumn(pos, i, n - 1);
      AlignmentColumnColour(pos, i, j, n - 1, c);
      AlignmentColour(pos[i], pos[n - 1], 5, c);
      ColourConcat(column, Alignment(pos[i], pos[n - 1], 5), c);
      assert column + [] == column;
    }
  }

  lemma NotInColumn(pos: seq<int>, i: nat, k: nat, c: Cell)
    requires i < |pos| && k < |pos| && i != k && Apart(pos) && Near(pos[i], c.x)
    ensures LastColour(AlignmentColumn(pos, k, |pos|), c) == None
  {
    hide CellsOf, AlignmentColumn, LastColour;
    AlignmentColumnCells(pos, k, |pos|, c);
    assert !Near(pos[k], c.x);
    ColourNone(AlignmentColumn(pos, k, |pos|), c);
  }

  lemma {:induction false} AlignmentsColour(pos: seq<int>, i: nat, j: nat, n: nat, c: Cell)
    requires i < |pos| && j < |pos| && n <= |pos| && Apart(pos) && AlignedAt(pos, i, j, c)
    ensures LastColour(Alignments(pos, n), c) ==
            if i < n then Some(AlignmentDark(c.x - pos[i], c.y - pos[j])) else None
  {
    hide LastColour, AlignmentColumn, AlignmentDark;
    if n == 0 {
      NoColour(c);
    } else {
      AlignmentsColour(pos, i, j, n - 1, c);
      ColourConcat(Alignments(pos, n - 1), AlignmentColumn(pos, n - 1, |pos|), c);
      if i == n - 1 {
        AlignmentColumnColour(pos, i, j, |pos|, c);
      } else {
        NotInColumn(pos, i, n - 1, c);
      }
    }
  }

  lemma {:induction false} Copy1Colour(bits: nat, n: nat, i: nat)
    requires i < n <= 15
    ensures LastColour(FormatCopy1(bits, n), FormatCell(i)) == Some(GetBit(bits, i))
  {
    hide LastColour, GetBit;
    ColourOne(FormatCopy1(bits, n - 1), Stroke(FormatCell(n - 1), GetBit(bits, n - 1)), FormatCell(i));
    if i < n - 1 { Copy1Colour(bits, n - 1, i); }
  }

  lemma {:induction false} Copy2Colour(bits: nat, n: nat, i: nat, size: nat)
    requires i < n <= 15 && size >= 21
    ensures LastColour(FormatCopy2(bits, n, size), FormatCell2(i, size)) == Some(GetBit(bits, i))
  {
    hide LastColour, GetBit;
    var last := Stroke(FormatCell2(n - 1, size), GetBit(bits, n - 1));
    ColourOne(FormatCopy2(bits, n - 1, size), last, FormatCell2(i, size));
    if i < n - 1 { Copy2Colour(bits, n - 1, i, size); }
  }

  lemma FormatParts(bits: nat, size: nat, c: Cell)
    ensures LastColour(Format(bits, size), c) ==
            if c == Cell(8, size - 8) then Some(true)
            else Later(LastColour(FormatCopy1(bits, 15), c), LastColour(FormatCopy2(bits, 15, size), c))
  {
    hide LastColour, FormatCopy1, FormatCopy2;
    var copies := FormatCopy1(bits, 15) + FormatCopy2(bits, 15, size);
    ColourConcat(FormatCopy1(bits, 15), FormatCopy2(bits, 15, size), c);
    ColourOne(copies, Stroke(Cell(8, size - 8), true), c);
  }

  lemma FormatColour(bits: nat, size: nat, i: nat)
    requires size >= 21 && i < 15
    ensures LastColour(Format(bits, size), FormatCell(i)) == Some(GetBit(bits, i))
    ensures LastColour(Format(bits, size), FormatCell2(i, size)) == Some(GetBit(bits, i))
    ensures LastColour(Format(bits, size), Cell(8, size - 8)) == Some(true)
  {
    hide LastColour, FormatCopy1, FormatCopy2, GetBit, CellsOf, Format;
    FormatParts(bits, size, FormatCell(i));
    FormatParts(bits, size, FormatCell2(i, size));
    FormatParts(bits, size, Cell(8, size - 8));
    Copy1Colour(bits, 15, i);
    Copy2Colour(bits, 15, i, size);
    FormatCopy2Cells(bits, 15, size, FormatCell(i));
    ColourNone(FormatCopy2(bits, 15, size), FormatCell(i));
  }

  lemma {:induction false} VersionBlocksColour(bits: nat, n: nat, size: nat, i: nat)
    requires i < n <= 18 && size >= 21
    ensures LastColour(VersionBlocks(bits, n, size), Cell(size - 11 + i % 3, i / 3)) == Some(GetBit(bits, i))
    ensures LastColour(VersionBlocks(bits, n, size), Cell(i / 3, size - 11 + i % 3)) == Some(GetBit(bits, i))
  {
    hide LastColour, GetBit;
    var k := n - 1;
    var (a, b) := (size - 11 + k % 3, k / 3);
    var (s, t) := (Stroke(Cell(a, b), GetBit(bits, k)), Stroke(Cell(b, a), GetBit(bits, k)));
    ColourTwo(VersionBlocks(bits, k, size), s, t, Cell(size - 11 + i % 3, i / 3));
    ColourTwo(VersionBlocks(bits, k, size), s, t, Cell(i / 3, size - 11 + i % 3));
    if i < k { VersionBlocksColour(bits, k, size, i); }
  }

  // ----- the function patterns of a symbol -----

  lemma SevenColours(a: seq<Stroke>, b: seq<Stroke>, c: seq<Stroke>, d: seq<Stroke>,
                     e: seq<Stroke>, f: seq<Stroke>, g: seq<Stroke>, at: Cell)
    ensures LastColour(a + b + c + d + e + f + g, at) ==
            Later(Later(Later(Later(Later(Later(LastColour(a, at), LastColour(b, at)), LastColour(c, at)),
                  LastColour(d, at)), LastColour(e, at)), LastColour(f, at)), LastColour(g, at))
  {
    hide LastColour, Later;
    ColourConcat(a, b, at); ColourConcat(a + b, c, at); ColourConcat(a + b + c, d, at);
    ColourConcat(a + b + c + d, e, at); ColourConcat(a + b + c + d + e, f, at);
    ColourConcat(a + b + c + d + e + f, g, at);
  }

  /** The colour of a module is the one its last pattern gives it. */
  lemma GridColour(version: nat, ecl: Ecc, c: Cell)
    requires MIN_VERSION <= version <= MAX_VERSION && Inside(c, SizeOf(version))
    ensures LastColour(FunctionStrokes(version, ecl), c).Some? ==>
            Get(FunctionGrid(version, ecl), c, SizeOf(version)) == LastColour(FunctionStrokes(version, ecl), c).value
  {
    hide FunctionStrokes, LastColour, Painted, Get;
    FunctionInside(version, ecl);
    PaintedColour(White(SizeOf(version)), FunctionStrokes(version, ecl), SizeOf(version), c);
  }

  lemma PatternColours(version: nat, ecl: Ecc, c: Cell)
    requires MIN_VERSION <= version <= MAX_VERSION
    ensures var (size, pos) := (SizeOf(version), AlignmentPositions(version));
            LastColour(FunctionStrokes(version, ecl), c) ==
            Later(Later(Later(Later(Later(Later(
                  LastColour(Timing(size), c), LastColour(Finder(3, 3, 9, size), c)),
                  LastColour(Finder(size - 4, 3, 9, size), c)), LastColour(Finder(3, size - 4, 9, size), c)),
                  LastColour(Alignments(pos, |pos|), c)), LastColour(Format(FormatBits(ecl, 0), size), c)),
                  LastColour(VersionInfo(version), c))
  {
    hide LastColour, Later, Timing, Finder, Alignments, AlignmentPositions, Format, FormatBits, VersionInfo;
    var (size, pos) := (SizeOf(version), AlignmentPositions(version));
    SevenColours(Timing(size), Finder(3, 3, 9, size), Finder(size - 4, 3, 9, size), Finder(3, size - 4, 9, size),
                 Alignments(pos, |pos|), Format(FormatBits(ecl, 0), size), VersionInfo(version), c);
  }

  /** No alignment pattern, format or version information where it does not belong. */
  lemma NotDrawn(version: nat, ecl: Ecc, c: Cell)
    requires MIN_VERSION <= version <= MAX_VERSION
    ensures var (s, pos) := (SizeOf(version), AlignmentPositions(version));
            && ((c.x < 9 || c.x >= s - 11) && (c.y < 9 || c.y >= s - 11) && (c.x < 9 || c.y < 9) ==>
                LastColour(Alignments(pos, |pos|), c) == None)
            && (!FormatRegion(c, s) ==> LastColour(Format(FormatBits(ecl, 0), s), c) == None)
            && ((c.x >= s - 8 || c.x < s - 11 || c.y >= 6) && (c.y >= s - 8 || c.y < s - 11 || c.x >= 6) ==>
                LastColour(VersionInfo(version), c) == None)
  {
    hide LastColour, Alignments, AlignmentPositions, Format, FormatBits, VersionInfo, CellsOf, Centres, InnerCentres;
    var (s, pos) := (SizeOf(version), AlignmentPositions(version));
    AlignmentRegion(version, c);
    CentresRange(version, c.x);
    CentresRange(version, c.y);
    if c !in CellsOf(Alignments(pos, |pos|)) { ColourNone(Alignments(pos, |pos|), c); }
    FormatCells(FormatBits(ecl, 0), s, c);
    if !FormatRegion(c, s) { ColourNone(Format(FormatBits(ecl, 0), s), c); }
    VersionRegion(version, c);
    if c !in CellsOf(VersionInfo(version)) { ColourNone(VersionInfo(version), c); }
  }

  /** The three finder patterns with their separators, clipped to the symbol. */
  lemma FinderColours(version: nat, ecl: Ecc, c: Cell)
    requires MIN_VERSION <= version <= MAX_VERSION && Inside(c, SizeOf(version))
    ensures var (g, s) := (FunctionGrid(version, ecl), SizeOf(version));
            && (c.x <= 7 && c.y <= 7 ==> Get(g, c, s) == FinderDark(c.x - 3, c.y - 3))
            && (c.x >= s - 8 && c.y <= 7 ==> Get(g, c, s) == FinderDark(c.x - (s - 4), c.y - 3))
            && (c.x <= 7 && c.y >= s - 8 ==> Get(g, c, s) == FinderDark(c.x - 3, c.y - (s - 4)))
  {
    hide LastColour, Timing, Finder, Alignments, AlignmentPositions, Format, FormatBits, VersionInfo, FinderDark;
    hide FunctionGrid, Get, FunctionStrokes;
    var s := SizeOf(version);
    GridColour(version, ecl, c);
    PatternColours(version, ecl, c);
    NotDrawn(version, ecl, c);
    FinderColour(3, 3, 9, s, c);
    FinderColour(s - 4, 3, 9, s, c);
    FinderColour(3, s - 4, 9, s, c);
  }

  lemma MoreSteps(a: nat, b: nat, step: nat)
    requires b <= a
    ensures b * step <= a * step && a * step - b * step == (a - b) * step
  {
  }

  lemma PositionsApart(version: nat)
    requires MIN_VERSION <= version <= MAX_VERSION
    ensures Apart(AlignmentPositions(version))
  {
    hide AlignStep, AlignmentPositions;
    var pos := AlignmentPositions(version);
    forall i, j | 0 <= i < j < |pos| ensures pos[j] - pos[i] >= 5 {
      var (n, step) := (version / 7, AlignStep(version));
      AlignSpacing(version);
      CentreAt(version, i);
      CentreAt(version, j);
      if i == 0 {
        MoreSteps(n, n + 1 - j, step);
      } else {
        MoreSteps(n + 1 - i, n + 1 - j, step);
        assert (n + 1 - i) * step - (n + 1 - j) * step == (j - i) * step >= step;
      }
    }
  }

  /** An alignment pattern lies on no format or version module. */
  lemma AlignedElsewhere(version: nat, ecl: Ecc, i: nat, j: nat, c: Cell)
    requires MIN_VERSION <= version <= MAX_VERSION
    requires var pos := AlignmentPositions(version); i < |pos| && j < |pos| && AlignedAt(pos, i, j, c)
    ensures LastColour(Format(FormatBits(ecl, 0), SizeOf(version)), c) == None
    ensures LastColour(VersionInfo(version), c) == None
  {
    hide LastColour, Alignments, AlignmentPositions, Format, FormatBits, VersionInfo, CellsOf, Centres, InnerCentres;
    hide AlignedAt;
    var pos := AlignmentPositions(version);
    AlignmentsCells(pos, |pos|, c);
    AlignmentRegion(version, c);
    CentresRange(version, c.x);
    CentresRange(version, c.y);
    NotDrawn(version, ecl, c);
  }

  /** The alignment patterns, on all pairs of centres except the three finder corners. */
  lemma AlignmentColours(version: nat, ecl: Ecc, i: nat, j: nat, c: Cell)
    requires MIN_VERSION <= version <= MAX_VERSION && Inside(c, SizeOf(version))
    requires var pos := AlignmentPositions(version); i < |pos| && j < |pos| && AlignedAt(pos, i, j, c)
    ensures var pos := AlignmentPositions(version);
            Get(FunctionGrid(version, ecl), c, SizeOf(version)) == AlignmentDark(c.x - pos[i], c.y - pos[j])
  {
    hide LastColour, Timing, Finder, Alignments, AlignmentPositions, Format, FormatBits, VersionInfo, AlignmentDark;
    hide FunctionGrid, Get, FunctionStrokes, Apart;
    var pos := AlignmentPositions(version);
    GridColour(version, ecl, c);
    PatternColours(version, ecl, c);
    PositionsApart(version);
    AlignmentsColour(pos, i, j, |pos|, c);
    AlignedElsewhere(version, ecl, i, j, c);
  }

  lemma EvenGap(half: int, b: int)
    requires b % 2 == 0
    ensures (2 * half - b) % 2 == 0
  {
  }

  lemma EvenSteps(version: nat, n: nat)
    requires version >= 2
    ensures n * AlignStep(version) % 2 == 0
  {
    var half := AlignStep(version) / 2;
    assert AlignStep(version) == 2 * half;
    assert n * AlignStep(version) == 2 * (n * half);
  }

  lemma PositionsEven(version: nat, k: nat)
    requires MIN_VERSION <= version <= MAX_VERSION && k < |AlignmentPositions(version)|
    ensures AlignmentPositions(version)[k] % 2 == 0
  {
    hide AlignStep, AlignmentPositions;
    CentreAt(version, k);
    if k > 0 {
      EvenSteps(version, version / 7 + 1 - k);
      EvenGap(2 * version + 5, (version / 7 + 1 - k) * AlignStep(version));
    }
  }

  lemma AlignedOnLine(pos: seq<int>, i: nat, j: nat, c: Cell)
    requires i < |pos| && j < |pos| && AlignedAt(pos, i, j, c) && pos[i] % 2 == 0 && pos[j] % 2 == 0
    ensures c.x == pos[i] ==> AlignmentDark(c.x - pos[i], c.y - pos[j]) == (c.y % 2 == 0)
    ensures c.y == pos[j] ==> AlignmentDark(c.x - pos[i], c.y - pos[j]) == (c.x % 2 == 0)
  {
  }

  lemma TimingNotFinder(version: nat, c: Cell)
    requires version >= 1 && Inside(c, SizeOf(version))
    requires 8 <= c.x < SizeOf(version) - 8 || 8 <= c.y < SizeOf(version) - 8
    ensures var s := SizeOf(version);
            && LastColour(Finder(3, 3, 9, s), c) == None && LastColour(Finder(s - 4, 3, 9, s), c) == None
            && LastColour(Finder(3, s - 4, 9, s), c) == None
  {
    hide LastColour, Finder, FinderDark;
    var s := SizeOf(version);
    FinderColour(3, 3, 9, s, c);
    FinderColour(s - 4, 3, 9, s, c);
    FinderColour(3, s - 4, 9, s, c);
  }

  lemma FarFromFirst(pos: seq<int>, i: nat)
    requires Apart(pos) && i < |pos|
    ensures i > 0 ==> pos[i] >= pos[0] + 5
  {
  }

  /** Near a centre, column 6 or row 6 can only be the line through the first centre. */
  lemma FirstCentre(version: nat, i: nat, j: nat, c: Cell)
    requires MIN_VERSION <= version <= MAX_VERSION
    requires var pos := AlignmentPositions(version); i < |pos| && j < |pos| && AlignedAt(pos, i, j, c)
    ensures c.x == 6 ==> AlignmentPositions(version)[i] == 6
    ensures c.y == 6 ==> AlignmentPositions(version)[j] == 6
  {
    hide AlignmentPositions, Apart;
    var pos := AlignmentPositions(version);
    PositionsApart(version);
    CentreAt(version, 0);
    FarFromFirst(pos, i);
    FarFromFirst(pos, j);
  }

  lemma TimingAt(version: nat, ecl: Ecc, c: Cell)
    requires MIN_VERSION <= version <= MAX_VERSION
    requires (c.x == 6 && 8 <= c.y < SizeOf(version) - 8) || (c.y == 6 && 8 <= c.x < SizeOf(version) - 8)
    ensures Get(FunctionGrid(version, ecl), c, SizeOf(version)) == ((if c.x == 6 then c.y else c.x) % 2 == 0)
  {
    hide LastColour, Timing, Finder, Alignments, AlignmentPositions, Format, FormatBits, VersionInfo, AlignmentDark;
    hide FunctionGrid, Get, FunctionStrokes, AlignedAt, CellsOf;
    var pos := AlignmentPositions(version);
    AlignmentsCells(pos, |pos|, c);
    if i: nat, j: nat :| i < |pos| && j < |pos| && AlignedAt(pos, i, j, c) {
      AlignmentColours(version, ecl, i, j, c);
      PositionsEven(version, i);
      PositionsEven(version, j);
      AlignedOnLine(pos, i, j, c);
      FirstCentre(version, i, j, c);
    } else {
      ColourNone(Alignments(pos, |pos|), c);
      GridColour(version, ecl, c);
      PatternColours(version, ecl, c);
      TimingNotFinder(version, c);
      NotDrawn(version, ecl, c);
      TimingColour(SizeOf(version), c);
    }
  }

  /** Between the finder patterns column 6 and row 6 alternate, dark at even places, alignment patterns or not. */
  lemma TimingColours(version: nat, ecl: Ecc, k: nat)
    requires MIN_VERSION <= version <= MAX_VERSION && 8 <= k < SizeOf(version) - 8
    ensures Get(FunctionGrid(version, ecl), Cell(6, k), SizeOf(version)) == (k % 2 == 0)
    ensures Get(FunctionGrid(version, ecl), Cell(k, 6), SizeOf(version)) == (k % 2 == 0)
  {
    hide FunctionGrid, Get;
    TimingAt(version, ecl, Cell(6, k));
    TimingAt(version, ecl, Cell(k, 6));
  }

  /** Bit i stands at column i % 3 and row i / 3 of the upper right block, and mirrored in the lower left one. */
  ghost predicate VersionShown(g: Grid, size: nat, bits: nat)
    requires Square(g, size) && size >= 21
  {
    forall i: nat | i < 18 ::
      && Get(g, Cell(size - 11 + i % 3, i / 3), size) == GetBit(bits, i)
      && Get(g, Cell(i / 3, size - 11 + i % 3), size) == GetBit(bits, i)
  }

  lemma VersionAt(version: nat, ecl: Ecc, i: nat, c: Cell)
    requires 7 <= version <= MAX_VERSION && i < 18 && Inside(c, SizeOf(version))
    requires LastColour(VersionInfo(version), c) == Some(GetBit(VersionBits(version), i))
    ensures Get(FunctionGrid(version, ecl), c, SizeOf(version)) == GetBit(VersionBits(version), i)
  {
    hide LastColour, Timing, Finder, Alignments, AlignmentPositions, Format, FormatBits, VersionInfo, GetBit;
    hide FunctionGrid, Get, FunctionStrokes, VersionBits;
    GridColour(version, ecl, c);
    PatternColours(version, ecl, c);
  }

  /** From version 7 on both copies of the version information are there. */
  lemma VersionColours(version: nat, ecl: Ecc)
    requires 7 <= version <= MAX_VERSION
    ensures VersionShown(FunctionGrid(version, ecl), SizeOf(version), VersionBits(version))
  {
    hide LastColour, VersionBlocks, GetBit, FunctionGrid, Get, VersionBits;
    var (s, bits) := (SizeOf(version), VersionBits(version));
    forall i: nat | i < 18
      ensures Get(FunctionGrid(version, ecl), Cell(s - 11 + i % 3, i / 3), s) == GetBit(bits, i)
      ensures Get(FunctionGrid(version, ecl), Cell(i / 3, s - 11 + i % 3), s) == GetBit(bits, i)
    {
      VersionBlocksColour(bits, 18, s, i);
      VersionAt(version, ecl, i, Cell(s - 11 + i % 3, i / 3));
      VersionAt(version, ecl, i, Cell(i / 3, s - 11 + i % 3));
    }
  }

  // ----- the finished symbol -----

  lemma FinishedFormat(base: Grid, fn: Grid, ecl: Ecc, m: nat, size: nat, c: Cell)
    requires Square(base, size) && Square(fn, size) && size >= 21 && Inside(c, size)
    requires LastColour(Format(FormatBits(ecl, m), size), c).Some?
    ensures Get(Finished(base, fn, ecl, m, size), c, size) == LastColour(Format(FormatBits(ecl, m), size), c).value
  {
    hide Masked, Get, Format, FormatBits, Painted, LastColour;
    FormatInside(FormatBits(ecl, m), size);
    PaintedColour(Masked(base, fn, m, size), Format(FormatBits(ecl, m), size), size, c);
  }

  /** Where the fifteen format bits stand, in both copies, and the module that is always dark. */
  ghost predicate FormatShown(g: Grid, size: nat, bits: nat)
    requires Square(g, size) && size >= 21
  {
    && (forall i: nat | i <= 5 :: Get(g, Cell(8, i), size) == GetBit(bits, i))
    && Get(g, Cell(8, 7), size) == GetBit(bits, 6)
    && Get(g, Cell(8, 8), size) == GetBit(bits, 7)
    && Get(g, Cell(7, 8), size) == GetBit(bits, 8)
    && (forall i: nat | 9 <= i <= 14 :: Get(g, Cell(14 - i, 8), size) == GetBit(bits, i))
    && (forall i: nat | i <= 7 :: Get(g, Cell(size - 1 - i, 8), size) == GetBit(bits, i))
    && (forall i: nat | 8 <= i <= 14 :: Get(g, Cell(8, size - 15 + i), size) == GetBit(bits, i))
    && Get(g, Cell(8, size - 8), size)
  }

  lemma BothCopies(base: Grid, fn: Grid, ecl: Ecc, m: nat, size: nat, i: nat)
    requires Square(base, size) && Square(fn, size) && size >= 21 && i < 15
    ensures var (g, bit) := (Finished(base, fn, ecl, m, size), GetBit(FormatBits(ecl, m), i));
            && Get(g, FormatCell(i), size) == bit
            && Get(g, FormatCell2(i, size), size) == bit
            && Get(g, Cell(8, size - 8), size)
  {
    hide Get, Format, FormatBits, LastColour, GetBit, Finished;
    FormatColour(FormatBits(ecl, m), size, i);
    FinishedFormat(base, fn, ecl, m, size, FormatCell(i));
    FinishedFormat(base, fn, ecl, m, size, FormatCell2(i, size));
    FinishedFormat(base, fn, ecl, m, size, Cell(8, size - 8));
  }

  /** A finished symbol shows the format of its level and mask. */
  lemma FormatColours(base: Grid, fn: Grid, ecl: Ecc, m: nat, size: nat)
    requires Square(base, size) && Square(fn, size) && size >= 21
    ensures FormatShown(Finished(base, fn, ecl, m, size), size, FormatBits(ecl, m))
  {
    hide Get, FormatBits, GetBit, Finished;
    forall i: nat | i < 15
      ensures var (g, bit) := (Finished(base, fn, ecl, m, size), GetBit(FormatBits(ecl, m), i));
              && Get(g, FormatCell(i), size) == bit
              && Get(g, FormatCell2(i, size), size) == bit
              && Get(g, Cell(8, size - 8), size)
    {
      BothCopies(base, fn, ecl, m, size, i);
    }
  }

  /** Neither the codewords nor the mask touch a function module outside the format. */
  lemma FunctionKept(version: nat, ecl: Ecc, data: seq<Byte>, m: nat, c: Cell)
    requires MIN_VERSION <= version <= MAX_VERSION && |data| == NumDataCodewords(version, ecl)
    requires FunctionRegion(version, c) && Inside(c, SizeOf(version)) && !FormatRegion(c, SizeOf(version))
    ensures Get(SymbolGrid(version, ecl, data, m), c, SizeOf(version)) ==
            Get(FunctionGrid(version, ecl), c, SizeOf(version))
  {
    hide Get, FunctionGrid, FunctionMask, Interleaved, NumDataCodewords, Finished, FunctionRegion, FormatRegion, Drawn;
    hide FullScan, Invert, CodewordBits, BaseGrid, Free;
    var (s, fn) := (SizeOf(version), FunctionMask(version, ecl));
    var codewords := Interleaved(LayoutOf(version, ecl), data);
    FunctionMaskGet(version, ecl, c);
    FinishedGet(BaseGrid(version, ecl, codewords), fn, ecl, m, s, c);
    BaseMeaning(version, ecl, codewords);
    FreeMembers(fn, FullScan(s), s, c);
    DrawnElsewhere(FunctionGrid(version, ecl), fn, FullScan(s), CodewordBits(codewords), s, c);
  }
}
