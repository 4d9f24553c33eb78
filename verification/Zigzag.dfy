/** The zigzag scan that visits the modules of a symbol, and drawing and reading bits along a scan. */
module Zigzag {

  datatype Cell = Cell(x: int, y: int)

  type Grid = seq<seq<bool>>

  predicate Square(g: Grid, size: nat) {
    |g| == size && forall row | row in g :: |row| == size
  }

  predicate Inside(c: Cell, size: nat) {
    0 <= c.x < size && 0 <= c.y < size
  }

  function Get(g: Grid, c: Cell, size: nat): bool
    requires Square(g, size) && Inside(c, size)
  {
    g[c.y][c.x]
  }

  function Set(g: Grid, c: Cell, b: bool, size: nat): (h: Grid)
    requires Square(g, size) && Inside(c, size)
    ensures Square(h, size)
    ensures forall d: Cell | Inside(d, size) :: Get(h, d, size) == if d == c then b else Get(g, d, size)
  {
    g[c.y := g[c.y][c.x := b]]
  }

  // ----- the order of the scan -----

  predicate ScanSize(size: nat) {
    size % 2 == 1 && size >= 7
  }

  /** The right column of the p-th column pair: every second column from the right, stepping over column 6. */
  function Right(size: nat, p: nat): int {
    var c := size - 1 - 2 * p;
    if c > 6 then c else c - 1
  }

  predicate Upward(right: int) {
    (right + 1) / 2 % 2 == 0
  }

  /** The cell visited at vertical position v on side j of the pair whose right column is given. */
  function Visit(size: nat, right: int, v: nat, j: nat): Cell {
    Cell(right - j, if Upward(right) then size - 1 - v else v)
  }

  /** The cells of the first v rows of one column pair. */
  function PairCells(size: nat, right: int, v: nat): seq<Cell> {
    if v == 0 then [] else PairCells(size, right, v - 1) + [Visit(size, right, v - 1, 0), Visit(size, right, v - 1, 1)]
  }

  /** The cells of the first p column pairs, in scan order. */
  function Scan(size: nat, p: nat): seq<Cell> {
    if p == 0 then [] else Scan(size, p - 1) + PairCells(size, Right(size, p - 1), size)
  }

  /** The whole scan. */
  function FullScan(size: nat): seq<Cell> {
    Scan(size, size / 2)
  }

  ghost predicate Distinct(cells: seq<Cell>) {
    forall i, k | 0 <= i < k < |cells| :: cells[i] != cells[k]
  }

  lemma {:induction false} PairMembers(size: nat, right: int, v: nat, c: Cell)
    requires v <= size
    ensures c in PairCells(size, right, v) <==>
            && (c.x == right || c.x == right - 1)
            && (if Upward(right) then size - v <= c.y < size else 0 <= c.y < v)
  {
    if v > 0 { PairMembers(size, right, v - 1, c); }
  }

  lemma {:induction false} PairDistinct(size: nat, right: int, v: nat)
    requires v <= size
    ensures Distinct(PairCells(size, right, v))
  {
    if v > 0 {
      PairDistinct(size, right, v - 1);
      PairMembers(size, right, v - 1, Visit(size, right, v - 1, 0));
      PairMembers(size, right, v - 1, Visit(size, right, v - 1, 1));
    }
  }

  /** The columns of the first p pairs: everything from the left column of the last one on, except column 6. */
  lemma {:induction false} ScanMembers(size: nat, p: nat, c: Cell)
    requires ScanSize(size) && p <= size / 2
    ensures c in Scan(size, p) <==> Inside(c, size) && c.x != 6 && p > 0 && c.x >= Right(size, p - 1) - 1
  {
    hide PairCells, Upward;
    if p > 0 {
      ScanMembers(size, p - 1, c);
      PairMembers(size, Right(size, p - 1), size, c);
      ColumnsReached(size, p, c.x);
    }
  }

  /** One more pair reaches its own two columns, and only column 6 is ever stepped over. */
  lemma ColumnsReached(size: nat, p: nat, x: int)
    requires ScanSize(size) && 0 < p <= size / 2
    ensures var right := Right(size, p - 1);
            (x == right || x == right - 1 || (p > 1 && x != 6 && x >= Right(size, p - 2) - 1)) && x < size <==>
            right - 1 <= x < size && x != 6
  {
  }

  lemma DistinctConcat(a: seq<Cell>, b: seq<Cell>)
    requires Distinct(a) && Distinct(b) && forall c | c in a :: c !in b
    ensures Distinct(a + b)
  {
    forall i, k | 0 <= i < k < |a + b| ensures (a + b)[i] != (a + b)[k] {
      if i < |a| <= k { assert a[i] in a && b[k - |a|] in b; }
    }
  }

  lemma {:induction false} ScanDistinct(size: nat, p: nat)
    requires ScanSize(size) && p <= size / 2
    ensures Distinct(Scan(size, p))
  {
    if p > 0 {
      hide PairCells;
      var right := Right(size, p - 1);
      ScanDistinct(size, p - 1);
      PairDistinct(size, right, size);
      forall c | c in Scan(size, p - 1) ensures c !in PairCells(size, right, size) {
        ScanMembers(size, p - 1, c);
        PairMembers(size, right, size, c);
      }
      DistinctConcat(Scan(size, p - 1), PairCells(size, right, size));
    }
  }

  /** The scan visits every cell outside column 6 exactly once, and column 6 never. */
  lemma ScanIsBijective(size: nat)
    requires ScanSize(size)
    ensures Distinct(FullScan(size))
    ensures forall c: Cell :: c in FullScan(size) <==> Inside(c, size) && c.x != 6
  {
    hide Scan;
    ScanDistinct(size, size / 2);
    forall c: Cell ensures c in FullScan(size) <==> Inside(c, size) && c.x != 6 {
      ScanMembers(size, size / 2, c);
    }
  }

  lemma {:induction false} PairAt(size: nat, right: int, n: nat, v: nat, j: nat)
    requires v < n && j < 2
    ensures |PairCells(size, right, n)| == 2 * n && PairCells(size, right, n)[2 * v + j] == Visit(size, right, v, j)
  {
    hide Visit;
    if n > 1 { PairAt(size, right, n - 1, if v < n - 1 then v else 0, j); }
  }

  lemma {:induction false} ScanLength(size: nat, p: nat)
    requires size > 0
    ensures |Scan(size, p)| == 2 * (size * p)
  {
    hide PairCells;
    if p > 0 {
      ScanLength(size, p - 1);
      PairAt(size, Right(size, p - 1), size, 0, 0);
      assert size * p == size * (p - 1) + size;
    }
  }

  lemma {:induction false} ScanVisit(size: nat, n: nat, p: nat, v: nat, j: nat)
    requires p < n && v < size && j < 2
    ensures 0 <= 2 * (size * p + v) + j < |Scan(size, n)|
    ensures Scan(size, n)[2 * (size * p + v) + j] == Visit(size, Right(size, p), v, j)
  {
    hide PairCells, Visit, Right;
    ScanLength(size, n - 1);
    ScanLength(size, n);
    if p < n - 1 {
      ScanVisit(size, n - 1, p, v, j);
    } else {
      PairAt(size, Right(size, p), size, v, j);
    }
  }

  lemma UpwardPairs(size: nat, p: nat)
    requires size % 4 == 1 && p < size / 2
    ensures Upward(Right(size, p)) <==> p % 2 == 0
  {
    var k := size / 4;
    assert (Right(size, p) + 1) / 2 == 2 * k - p;
  }

  /**
    The order of the scan on the sizes of symbols: the p-th pair of columns from the right, without column 6, its right
    column before its left one, going up when p is even and down when p is odd.
   */
  lemma ScanOrder(size: nat, p: nat, v: nat, j: nat)
    requires size >= 7 && size % 4 == 1 && p < size / 2 && v < size && j < 2
    ensures 0 <= 2 * (size * p + v) + j < |FullScan(size)|
    ensures FullScan(size)[2 * (size * p + v) + j] ==
            Cell((if 2 * p < size - 7 then size - 1 - 2 * p else size - 2 - 2 * p) - j,
                 if p % 2 == 0 then size - 1 - v else v)
  {
    hide Scan, Upward;
    ScanVisit(size, size / 2, p, v, j);
    UpwardPairs(size, p);
  }

  // ----- drawing and reading along a list of cells -----

  ghost predicate AllInside(cells: seq<Cell>, size: nat) {
    forall c | c in cells :: Inside(c, size)
  }

  /** The visited cells that are not function modules. */
  function Free(fn: Grid, cells: seq<Cell>, size: nat): seq<Cell>
    requires Square(fn, size) && AllInside(cells, size)
  {
    if cells == [] then [] else
      var (init, last) := (cells[..|cells| - 1], cells[|cells| - 1]);
      Free(fn, init, size) + (if Get(fn, last, size) then [] else [last])
  }

  /** The grid after the free cells among those visited have received the bits, as far as they go. */
  function Drawn(g: Grid, fn: Grid, cells: seq<Cell>, bits: seq<bool>, size: nat): (h: Grid)
    requires Square(g, size) && Square(fn, size) && AllInside(cells, size)
    ensures Square(h, size)
  {
    if cells == [] then g else
      var (init, last) := (cells[..|cells| - 1], cells[|cells| - 1]);
      var h := Drawn(g, fn, init, bits, size);
      var i := |Free(fn, init, size)|;
      if !Get(fn, last, size) && i < |bits| then Set(h, last, bits[i], size) else h
  }

  /** The bits read at the free cells, in the order of the visit. */
  function ReadBits(g: Grid, fn: Grid, cells: seq<Cell>, size: nat): (s: seq<bool>)
    requires Square(g, size) && Square(fn, size) && AllInside(cells, size)
    ensures |s| == |Free(fn, cells, size)|
  {
    var free := Free(fn, cells, size);
    FreeInside(fn, cells, size);
    seq(|free|, k requires 0 <= k < |free| => Get(g, free[k], size))
  }

  lemma {:induction false} FreeMembers(fn: Grid, cells: seq<Cell>, size: nat, c: Cell)
    requires Square(fn, size) && AllInside(cells, size)
    ensures c in Free(fn, cells, size) <==> c in cells && !Get(fn, c, size)
  {
    if cells != [] {
      var n := |cells| - 1;
      FreeMembers(fn, cells[..n], size, c);
      assert cells == cells[..n] + [cells[n]];
    }
  }

  lemma FreeInside(fn: Grid, cells: seq<Cell>, size: nat)
    requires Square(fn, size) && AllInside(cells, size)
    ensures AllInside(Free(fn, cells, size), size)
  {
    hide Free, Get;
    forall c | c in Free(fn, cells, size) ensures Inside(c, size) { FreeMembers(fn, cells, size, c); }
  }

  lemma {:induction false} FreeDistinct(fn: Grid, cells: seq<Cell>, size: nat)
    requires Square(fn, size) && AllInside(cells, size) && Distinct(cells)
    ensures Distinct(Free(fn, cells, size))
  {
    if cells != [] {
      var n := |cells| - 1;
      FreeDistinct(fn, cells[..n], size);
      FreeMembers(fn, cells[..n], size, cells[n]);
    }
  }

  /** Cells that are not free and visited keep their colour. */
  lemma {:induction false} DrawnElsewhere(g: Grid, fn: Grid, cells: seq<Cell>, bits: seq<bool>, size: nat, c: Cell)
    requires Square(g, size) && Square(fn, size) && AllInside(cells, size) && Inside(c, size)
    requires c !in Free(fn, cells, size)
    ensures Get(Drawn(g, fn, cells, bits, size), c, size) == Get(g, c, size)
  {
    if cells != [] {
      hide Get, Set;
      DrawnElsewhere(g, fn, cells[..|cells| - 1], bits, size, c);
    }
  }

  /** The k-th free cell holds the k-th bit, or its old colour when the bits have run out. */
  lemma {:induction false} DrawnAt(g: Grid, fn: Grid, cells: seq<Cell>, bits: seq<bool>, size: nat, k: nat)
    requires Square(g, size) && Square(fn, size) && AllInside(cells, size) && Distinct(cells)
    requires k < |Free(fn, cells, size)|
    ensures Free(fn, cells, size)[k] in cells
    ensures var c := Free(fn, cells, size)[k];
            Get(Drawn(g, fn, cells, bits, size), c, size) == if k < |bits| then bits[k] else Get(g, c, size)
  {
    hide Get, Set;
    var n := |cells| - 1;
    FreeMembers(fn, cells, size, Free(fn, cells, size)[k]);
    if k < |Free(fn, cells[..n], size)| {
      DrawnAt(g, fn, cells[..n], bits, size, k);
      assert Free(fn, cells[..n], size)[k] != cells[n];
    } else {
      assert cells[n] !in cells[..n];
      FreeMembers(fn, cells[..n], size, cells[n]);
      DrawnElsewhere(g, fn, cells[..n], bits, size, cells[n]);
    }
  }

  /** Reading back what was drawn returns the bits, followed by what the remaining free cells held before. */
  lemma ReadDrawn(g: Grid, fn: Grid, cells: seq<Cell>, bits: seq<bool>, size: nat)
    requires Square(g, size) && Square(fn, size) && AllInside(cells, size) && Distinct(cells)
    requires |bits| <= |Free(fn, cells, size)|
    ensures ReadBits(Drawn(g, fn, cells, bits, size), fn, cells, size) ==
            bits + ReadBits(g, fn, cells, size)[|bits|..]
  {
    hide Get, Free, Drawn;
    var h := Drawn(g, fn, cells, bits, size);
    forall k | 0 <= k < |Free(fn, cells, size)|
      ensures ReadBits(h, fn, cells, size)[k] == (bits + ReadBits(g, fn, cells, size)[|bits|..])[k]
    {
      DrawnAt(g, fn, cells, bits, size, k);
    }
  }

  lemma {:induction false} DistinctCount(cells: seq<Cell>, s: set<Cell>)
    requires Distinct(cells) && forall c :: c in s <==> c in cells
    ensures |cells| == |s|
  {
    if cells == [] {
      assert s == {};
    } else {
      var n := |cells| - 1;
      assert cells == cells[..n] + [cells[n]];
      assert cells[n] !in cells[..n];
      DistinctCount(cells[..n], s - {cells[n]});
    }
  }

  /** The scan has as many free cells as there are modules outside the function patterns. */
  lemma FreeCount(fn: Grid, size: nat, s: set<Cell>)
    requires Square(fn, size) && ScanSize(size)
    requires forall y | 0 <= y < size :: Get(fn, Cell(6, y), size)
    requires forall c: Cell :: c in s <==> Inside(c, size) && !Get(fn, c, size)
    ensures AllInside(FullScan(size), size)
    ensures |Free(fn, FullScan(size), size)| == |s|
  {
    hide FullScan, Free, Get;
    ScanIsBijective(size);
    FreeDistinct(fn, FullScan(size), size);
    var free := Free(fn, FullScan(size), size);
    forall c: Cell ensures c in s <==> c in free {
      FreeMembers(fn, FullScan(size), size, c);
      if Inside(c, size) && c.x == 6 { assert Get(fn, Cell(6, c.y), size); }
    }
    DistinctCount(free, s);
  }
}
