/** The function patterns of a symbol: which modules they cover and with which colours they are drawn. */
module Patterns {
  import opened Galois
  import opened Zigzag

  // ----- strokes -----

  /** One call of setFunctionModule. */
  datatype Stroke = Stroke(cell: Cell, black: bool)

  ghost predicate StrokesInside(strokes: seq<Stroke>, size: nat) {
    forall s | s in strokes :: Inside(s.cell, size)
  }

  function CellsOf(strokes: seq<Stroke>): set<Cell> {
    set s | s in strokes :: s.cell
  }

  /** The colours after the strokes. */
  function Painted(g: Grid, strokes: seq<Stroke>, size: nat): (h: Grid)
    requires Square(g, size) && StrokesInside(strokes, size)
    ensures Square(h, size)
  {
    if strokes == [] then g else
      var last := strokes[|strokes| - 1];
      Set(Painted(g, strokes[..|strokes| - 1], size), last.cell, last.black, size)
  }

  /** The function mask after the strokes. */
  function Marked(fn: Grid, strokes: seq<Stroke>, size: nat): (h: Grid)
    requires Square(fn, size) && StrokesInside(strokes, size)
    ensures Square(h, size)
  {
    if strokes == [] then fn else
      Set(Marked(fn, strokes[..|strokes| - 1], size), strokes[|strokes| - 1].cell, true, size)
  }

  lemma CellsConcat(a: seq<Stroke>, b: seq<Stroke>)
    ensures CellsOf(a + b) == CellsOf(a) + CellsOf(b)
  {
    forall c: Cell ensures c in CellsOf(a + b) <==> c in CellsOf(a) || c in CellsOf(b) {
      if c in CellsOf(a) { var s :| s in a && s.cell == c; assert s in a + b; }
      if c in CellsOf(b) { var s :| s in b && s.cell == c; assert s in a + b; }
    }
  }

  lemma CellsLast(strokes: seq<Stroke>)
    requires strokes != []
    ensures CellsOf(strokes) == CellsOf(strokes[..|strokes| - 1]) + {strokes[|strokes| - 1].cell}
  {
    var (init, last) := (strokes[..|strokes| - 1], strokes[|strokes| - 1]);
    assert strokes == init + [last];
    CellsConcat(init, [last]);
    assert CellsOf([last]) == {last.cell};
  }

  lemma PaintedAppend(g: Grid, strokes: seq<Stroke>, s: Stroke, size: nat)
    requires Square(g, size) && StrokesInside(strokes, size) && Inside(s.cell, size)
    ensures StrokesInside(strokes + [s], size)
    ensures Painted(g, strokes + [s], size) == Set(Painted(g, strokes, size), s.cell, s.black, size)
    ensures Marked(g, strokes + [s], size) == Set(Marked(g, strokes, size), s.cell, true, size)
  {
    hide Set;
    assert (strokes + [s])[..|strokes|] == strokes;
  }

  lemma PaintedNothing(g: Grid, size: nat)
    requires Square(g, size)
    ensures Painted(g, [], size) == g && Marked(g, [], size) == g
  {
  }

  lemma {:induction false} PaintedElsewhere(g: Grid, strokes: seq<Stroke>, size: nat, c: Cell)
    requires Square(g, size) && StrokesInside(strokes, size) && Inside(c, size) && c !in CellsOf(strokes)
    ensures Get(Painted(g, strokes, size), c, size) == Get(g, c, size)
  {
    if strokes != [] {
      hide Get, Set, CellsOf;
      CellsLast(strokes);
      PaintedElsewhere(g, strokes[..|strokes| - 1], size, c);
    }
  }

  /** A painted cell does not depend on what was there before. */
  lemma {:induction false} PaintedSame(g: Grid, h: Grid, strokes: seq<Stroke>, size: nat, c: Cell)
    requires Square(g, size) && Square(h, size) && StrokesInside(strokes, size) && c in CellsOf(strokes)
    ensures Inside(c, size)
    ensures Get(Painted(g, strokes, size), c, size) == Get(Painted(h, strokes, size), c, size)
  {
    hide Get, Set;
    CellsLast(strokes);
    if c != strokes[|strokes| - 1].cell {
      PaintedSame(g, h, strokes[..|strokes| - 1], size, c);
    }
  }

  lemma {:induction false} MarkedGet(fn: Grid, strokes: seq<Stroke>, size: nat, c: Cell)
    requires Square(fn, size) && StrokesInside(strokes, size) && Inside(c, size)
    ensures Get(Marked(fn, strokes, size), c, size) <==> Get(fn, c, size) || c in CellsOf(strokes)
  {
    if strokes != [] {
      hide Get, Set, CellsOf;
      CellsLast(strokes);
      MarkedGet(fn, strokes[..|strokes| - 1], size, c);
    }
  }

  /** The stroke at index k decides the colour of its cell unless a later one covers the same cell. */
  lemma {:induction false} PaintedAt(g: Grid, strokes: seq<Stroke>, size: nat, k: nat)
    requires Square(g, size) && StrokesInside(strokes, size) && k < |strokes|
    requires forall i | k < i < |strokes| :: strokes[i].cell != strokes[k].cell
    ensures Get(Painted(g, strokes, size), strokes[k].cell, size) == strokes[k].black
  {
    hide Get, Set;
    if k < |strokes| - 1 {
      PaintedAt(g, strokes[..|strokes| - 1], size, k);
    }
  }

  lemma GridsEqual(g: Grid, h: Grid, size: nat)
    requires Square(g, size) && Square(h, size)
    requires forall c: Cell | Inside(c, size) :: Get(g, c, size) == Get(h, c, size)
    ensures g == h
  {
    forall y | 0 <= y < size ensures g[y] == h[y] {
      forall x | 0 <= x < size ensures g[y][x] == h[y][x] {
        assert Get(g, Cell(x, y), size) == Get(h, Cell(x, y), size);
      }
    }
  }

  // ----- the patterns -----

  const MIN_VERSION := 1
  const MAX_VERSION := 40

  lemma VersionRange()
    ensures MIN_VERSION == 1 && MAX_VERSION == 40
  {
  }

  function SizeOf(version: nat): nat {
    version * 4 + 17
  }

  datatype Ecc = LOW | MEDIUM | QUARTILE | HIGH

  /** The two timing lines, up to position i. */
  function Timing(i: nat): seq<Stroke> {
    if i == 0 then [] else
      Timing(i - 1) + [Stroke(Cell(6, i - 1), (i - 1) % 2 == 0), Stroke(Cell(i - 1, 6), (i - 1) % 2 == 0)]
  }

  function Abs(n: int): nat {
    if n < 0 then -n else n
  }

  /** The larger of two distances. */
  function Chebyshev(dx: int, dy: int): nat {
    if Abs(dx) >= Abs(dy) then Abs(dx) else Abs(dy)
  }

  /** One row of a finder pattern, from column -4 to column n - 5, clipped to the symbol. */
  function FinderRow(x: int, y: int, dy: int, n: nat, size: nat): seq<Stroke> {
    if n == 0 then [] else
      var dx := n - 5;
      var c := Cell(x + dx, y + dy);
      var dist := Chebyshev(dx, dy);
      FinderRow(x, y, dy, n - 1, size) + (if Inside(c, size) then [Stroke(c, dist != 2 && dist != 4)] else [])
  }

  /** The first n of the nine rows of a finder pattern. */
  function Finder(x: int, y: int, n: nat, size: nat): seq<Stroke> {
    if n == 0 then [] else Finder(x, y, n - 1, size) + FinderRow(x, y, n - 5, 9, size)
  }

  function AlignmentRow(x: int, y: int, dy: int, n: nat): seq<Stroke> {
    if n == 0 then [] else
      AlignmentRow(x, y, dy, n - 1) + [Stroke(Cell(x + n - 3, y + dy), Chebyshev(n - 3, dy) != 1)]
  }

  /** The first n of the five rows of an alignment pattern. */
  function Alignment(x: int, y: int, n: nat): seq<Stroke> {
    if n == 0 then [] else Alignment(x, y, n - 1) + AlignmentRow(x, y, n - 3, 5)
  }

  function NumAlign(version: nat): nat
    requires version >= 1
  {
    if version == 1 then 0 else version / 7 + 2
  }

  function AlignStep(version: nat): nat
    requires version > 1
  {
    var n := version / 7 + 2;
    if version == 32 then 26 else (version * 4 + n * 2 + 1) / (n * 2 - 2) * 2
  }

  /** The coordinates of the alignment pattern centres: 6, then evenly spaced back from size - 7. */
  function AlignmentPositions(version: nat): (s: seq<int>)
    requires version >= 1
    ensures |s| == NumAlign(version)
  {
    if version == 1 then [] else
      [6] + seq(version / 7 + 1, k => SizeOf(version) - 7 - (version / 7 - k) * AlignStep(version))
  }

  /** The alignment patterns of one column of centres, except on the finder corners. */
  function AlignmentColumn(pos: seq<int>, i: nat, n: nat): seq<Stroke>
    requires i < |pos| && n <= |pos|
  {
    if n == 0 then [] else
      var j := n - 1;
      AlignmentColumn(pos, i, j) +
      (if (i == 0 && j == 0) || (i == 0 && j == |pos| - 1) || (i == |pos| - 1 && j == 0) then []
       else Alignment(pos[i], pos[j], 5))
  }

  function Alignments(pos: seq<int>, n: nat): seq<Stroke>
    requires n <= |pos|
  {
    if n == 0 then [] else Alignments(pos, n - 1) + AlignmentColumn(pos, n - 1, |pos|)
  }

  function FormatLevel(ecl: Ecc): nat {
    match ecl
    case LOW => 1
    case MEDIUM => 0
    case QUARTILE => 3
    case HIGH => 2
  }

  /** n rounds of the division that appends the BCH check bits. */
  function FormatRemainder(data: nat, n: nat): nat {
    if n == 0 then data else
      var rem := FormatRemainder(data, n - 1);
      Xor(2 * rem, rem / 512 * 0x537)
  }

  /** The fifteen format bits. */
  function FormatBits(ecl: Ecc, mask: nat): nat {
    var data := FormatLevel(ecl) * 8 + mask;
    Xor(data * 1024 + FormatRemainder(data, 10), 0x5412)
  }

  function GetBit(n: nat, i: nat): bool {
    Shr(n, i) % 2 != 0
  }

  /** The cell that bit i of the format takes in the first copy. */
  function FormatCell(i: nat): Cell {
    if i <= 5 then Cell(8, i)
    else if i == 6 then Cell(8, 7)
    else if i == 7 then Cell(8, 8)
    else if i == 8 then Cell(7, 8)
    else Cell(14 - i, 8)
  }

  /** The cell that bit i of the format takes in the second copy. */
  function FormatCell2(i: nat, size: nat): Cell {
    if i < 8 then Cell(size - 1 - i, 8) else Cell(8, size - 15 + i)
  }

  function FormatCopy1(bits: nat, n: nat): seq<Stroke> {
    if n == 0 then [] else FormatCopy1(bits, n - 1) + [Stroke(FormatCell(n - 1), GetBit(bits, n - 1))]
  }

  function FormatCopy2(bits: nat, n: nat, size: nat): seq<Stroke> {
    if n == 0 then [] else FormatCopy2(bits, n - 1, size) + [Stroke(FormatCell2(n - 1, size), GetBit(bits, n - 1))]
  }

  function Format(bits: nat, size: nat): seq<Stroke> {
    FormatCopy1(bits, 15) + FormatCopy2(bits, 15, size) + [Stroke(Cell(8, size - 8), true)]
  }

  function VersionRemainder(version: nat, n: nat): nat {
    if n == 0 then version else
      var rem := VersionRemainder(version, n - 1);
      Xor(2 * rem, rem / 2048 * 0x1F25)
  }

  function VersionBits(version: nat): nat {
    version * 4096 + VersionRemainder(version, 12)
  }

  /** The first n bits of the two version blocks. */
  function VersionBlocks(bits: nat, n: nat, size: nat): seq<Stroke> {
    if n == 0 then [] else
      var i := n - 1;
      var (a, b) := (size - 11 + i % 3, i / 3);
      VersionBlocks(bits, i, size) + [Stroke(Cell(a, b), GetBit(bits, i)), Stroke(Cell(b, a), GetBit(bits, i))]
  }

  function VersionInfo(version: nat): seq<Stroke> {
    if version < 7 then [] else VersionBlocks(VersionBits(version), 18, SizeOf(version))
  }

  /** Every function module, in drawing order, with the format of mask 0 as a placeholder. */
  function FunctionStrokes(version: nat, ecl: Ecc): seq<Stroke>
    requires version >= 1
  {
    var size := SizeOf(version);
    var pos := AlignmentPositions(version);
    Timing(size) +
    Finder(3, 3, 9, size) + Finder(size - 4, 3, 9, size) + Finder(3, size - 4, 9, size) +
    Alignments(pos, |pos|) +
    Format(FormatBits(ecl, 0), size) +
    VersionInfo(version)
  }

  // ----- the cells they cover -----

  lemma CellsNone(c: Cell)
    ensures c !in CellsOf([])
  {
  }

  lemma CellsTwo(a: seq<Stroke>, s: Stroke, t: Stroke, c: Cell)
    ensures c in CellsOf(a + [s, t]) <==> c in CellsOf(a) || c == s.cell || c == t.cell
  {
    CellsConcat(a, [s, t]);
    assert CellsOf([s, t]) == {s.cell, t.cell};
  }

  lemma CellsOne(a: seq<Stroke>, s: Stroke, c: Cell)
    ensures c in CellsOf(a + [s]) <==> c in CellsOf(a) || c == s.cell
  {
    CellsConcat(a, [s]);
    assert CellsOf([s]) == {s.cell};
  }

  lemma {:induction false} TimingCells(i: nat, c: Cell)
    ensures c in CellsOf(Timing(i)) <==> (c.x == 6 && 0 <= c.y < i) || (c.y == 6 && 0 <= c.x < i)
  {
    hide CellsOf;
    CellsNone(c);
    if i > 0 {
      TimingCells(i - 1, c);
      CellsTwo(Timing(i - 1), Stroke(Cell(6, i - 1), (i - 1) % 2 == 0), Stroke(Cell(i - 1, 6), (i - 1) % 2 == 0), c);
    }
  }

  lemma {:induction false} FinderRowCells(x: int, y: int, dy: int, n: nat, size: nat, c: Cell)
    ensures c in CellsOf(FinderRow(x, y, dy, n, size)) <==>
            Inside(c, size) && c.y == y + dy && x - 4 <= c.x <= x + n - 5
  {
    hide CellsOf, Chebyshev;
    CellsNone(c);
    if n > 0 {
      FinderRowCells(x, y, dy, n - 1, size, c);
      var d := Cell(x + n - 5, y + dy);
      CellsConcat(FinderRow(x, y, dy, n - 1, size), []);
      if Inside(d, size) {
        var dist := Chebyshev(n - 5, dy);
        CellsOne(FinderRow(x, y, dy, n - 1, size), Stroke(d, dist != 2 && dist != 4), c);
      }
    }
  }

  lemma {:induction false} FinderCells(x: int, y: int, n: nat, size: nat, c: Cell)
    ensures c in CellsOf(Finder(x, y, n, size)) <==>
            Inside(c, size) && y - 4 <= c.y <= y + n - 5 && x - 4 <= c.x <= x + 4
  {
    hide CellsOf, FinderRow;
    CellsNone(c);
    if n > 0 {
      FinderCells(x, y, n - 1, size, c);
      FinderRowCells(x, y, n - 5, 9, size, c);
      CellsConcat(Finder(x, y, n - 1, size), FinderRow(x, y, n - 5, 9, size));
    }
  }

  lemma {:induction false} AlignmentRowCells(x: int, y: int, dy: int, n: nat, c: Cell)
    ensures c in CellsOf(AlignmentRow(x, y, dy, n)) <==> c.y == y + dy && x - 2 <= c.x <= x + n - 3
  {
    hide CellsOf, Chebyshev;
    CellsNone(c);
    if n > 0 {
      AlignmentRowCells(x, y, dy, n - 1, c);
      CellsOne(AlignmentRow(x, y, dy, n - 1), Stroke(Cell(x + n - 3, y + dy), Chebyshev(n - 3, dy) != 1), c);
    }
  }

  lemma {:induction false} AlignmentCells(x: int, y: int, n: nat, c: Cell)
    ensures c in CellsOf(Alignment(x, y, n)) <==> y - 2 <= c.y <= y + n - 3 && x - 2 <= c.x <= x + 2
  {
    hide CellsOf, AlignmentRow;
    CellsNone(c);
    if n > 0 {
      AlignmentCells(x, y, n - 1, c);
      AlignmentRowCells(x, y, n - 3, 5, c);
      CellsConcat(Alignment(x, y, n - 1), AlignmentRow(x, y, n - 3, 5));
    }
  }

  predicate Near(p: int, x: int) {
    p - 2 <= x <= p + 2
  }

  predicate Corner(i: nat, j: nat, m: nat) {
    (i == 0 && j == 0) || (i == 0 && j == m - 1) || (i == m - 1 && j == 0)
  }

  /** Cell c belongs to the alignment pattern centred on positions i and j, which is not on a finder corner. */
  ghost predicate AlignedAt(pos: seq<int>, i: nat, j: nat, c: Cell)
    requires i < |pos| && j < |pos|
  {
    Near(pos[i], c.x) && Near(pos[j], c.y) && !Corner(i, j, |pos|)
  }

  lemma {:induction false} AlignmentColumnCells(pos: seq<int>, i: nat, n: nat, c: Cell)
    requires i < |pos| && n <= |pos|
    ensures c in CellsOf(AlignmentColumn(pos, i, n)) <==> exists j: nat | j < n :: AlignedAt(pos, i, j, c)
  {
    hide CellsOf, Alignment;
    CellsNone(c);
    if n > 0 {
      AlignmentColumnCells(pos, i, n - 1, c);
      AlignmentCells(pos[i], pos[n - 1], 5, c);
      CellsConcat(AlignmentColumn(pos, i, n - 1), Alignment(pos[i], pos[n - 1], 5));
      CellsConcat(AlignmentColumn(pos, i, n - 1), []);
      assert AlignedAt(pos, i, n - 1, c) <==>
        c in CellsOf(Alignment(pos[i], pos[n - 1], 5)) && !Corner(i, n - 1, |pos|);
    }
  }

  lemma {:induction false} AlignmentsCells(pos: seq<int>, n: nat, c: Cell)
    requires n <= |pos|
    ensures c in CellsOf(Alignments(pos, n)) <==>
            exists i: nat, j: nat | i < n && j < |pos| :: AlignedAt(pos, i, j, c)
  {
    hide CellsOf, AlignmentColumn, AlignedAt;
    CellsNone(c);
    if n > 0 {
      AlignmentsCells(pos, n - 1, c);
      AlignmentColumnCells(pos, n - 1, |pos|, c);
      CellsConcat(Alignments(pos, n - 1), AlignmentColumn(pos, n - 1, |pos|));
    }
  }

  lemma {:induction false} FormatCopy1Cells(bits: nat, n: nat, c: Cell)
    ensures c in CellsOf(FormatCopy1(bits, n)) <==> exists i: nat | i < n :: c == FormatCell(i)
  {
    hide CellsOf, GetBit, FormatCell;
    CellsNone(c);
    if n > 0 {
      FormatCopy1Cells(bits, n - 1, c);
      CellsOne(FormatCopy1(bits, n - 1), Stroke(FormatCell(n - 1), GetBit(bits, n - 1)), c);
    }
  }

  lemma {:induction false} FormatCopy2Cells(bits: nat, n: nat, size: nat, c: Cell)
    ensures c in CellsOf(FormatCopy2(bits, n, size)) <==> exists i: nat | i < n :: c == FormatCell2(i, size)
  {
    hide CellsOf, GetBit, FormatCell2;
    CellsNone(c);
    if n > 0 {
      FormatCopy2Cells(bits, n - 1, size, c);
      CellsOne(FormatCopy2(bits, n - 1, size), Stroke(FormatCell2(n - 1, size), GetBit(bits, n - 1)), c);
    }
  }

  /** The modules of the two format copies and the dark module, whatever the format. */
  predicate FormatRegion(c: Cell, size: nat) {
    || (c.x == 8 && ((0 <= c.y <= 8 && c.y != 6) || size - 8 <= c.y < size))
    || (c.y == 8 && ((0 <= c.x <= 8 && c.x != 6) || size - 8 <= c.x < size))
  }

  lemma FormatCells(bits: nat, size: nat, c: Cell)
    ensures c in CellsOf(Format(bits, size)) <==> FormatRegion(c, size)
  {
    hide CellsOf, FormatCopy1, FormatCopy2;
    FormatCopy1Cells(bits, 15, c);
    FormatCopy2Cells(bits, 15, size, c);
    CellsConcat(FormatCopy1(bits, 15), FormatCopy2(bits, 15, size));
    CellsOne(FormatCopy1(bits, 15) + FormatCopy2(bits, 15, size), Stroke(Cell(8, size - 8), true), c);
    FormatIndex(c, size);
  }

  lemma FormatIndex(c: Cell, size: nat)
    ensures FormatRegion(c, size) <==>
            || (exists i: nat | i < 15 :: c == FormatCell(i))
            || (exists i: nat | i < 15 :: c == FormatCell2(i, size))
            || c == Cell(8, size - 8)
  {
    if FormatRegion(c, size) {
      if c.x == 8 && 0 <= c.y <= 5 { assert c == FormatCell(c.y); }
      else if c == Cell(8, 7) { assert c == FormatCell(6); }
      else if c == Cell(8, 8) { assert c == FormatCell(7); }
      else if c == Cell(7, 8) { assert c == FormatCell(8); }
      else if c.y == 8 && 0 <= c.x <= 5 { assert c == FormatCell(14 - c.x); }
      else if c.y == 8 && size - 8 <= c.x < size { assert c == FormatCell2(size - 1 - c.x, size); }
      else if c != Cell(8, size - 8) { assert c == FormatCell2(c.y + 15 - size, size); }
    }
  }

  lemma {:induction false} VersionBlocksCells(bits: nat, n: nat, size: nat, c: Cell)
    ensures c in CellsOf(VersionBlocks(bits, n, size)) <==>
            exists i: nat | i < n :: c == Cell(size - 11 + i % 3, i / 3) || c == Cell(i / 3, size - 11 + i % 3)
  {
    hide CellsOf, GetBit;
    CellsNone(c);
    if n > 0 {
      var i := n - 1;
      VersionBlocksCells(bits, i, size, c);
      var (a, b) := (size - 11 + i % 3, i / 3);
      var bit := GetBit(bits, i);
      CellsTwo(VersionBlocks(bits, i, size), Stroke(Cell(a, b), bit), Stroke(Cell(b, a), bit), c);
    }
  }
}
