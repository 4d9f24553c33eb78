/** The eight masks: an involution on data modules that leaves function modules alone. */
module Masking {
  import opened Zigzag
  import opened Patterns
  import opened Penalty

  /** Whether mask m inverts the module at (x, y). */
  predicate Invert(m: nat, x: nat, y: nat) {
    match m
    case 0 => (x + y) % 2 == 0
    case 1 => y % 2 == 0
    case 2 => x % 3 == 0
    case 3 => (x + y) % 3 == 0
    case 4 => (x / 3 + y / 2) % 2 == 0
    case 5 => x * y % 2 + x * y % 3 == 0
    case 6 => (x * y % 2 + x * y % 3) % 2 == 0
    case _ => ((x + y) % 2 + x * y % 3) % 2 == 0
  }

  function Masked(g: Grid, fn: Grid, m: nat, size: nat): (h: Grid)
    requires Square(g, size) && Square(fn, size)
    ensures Square(h, size)
  {
    seq(size, y requires 0 <= y < size =>
      seq(size, x requires 0 <= x < size => g[y][x] != (Invert(m, x, y) && !fn[y][x])))
  }

  lemma MaskedGet(g: Grid, fn: Grid, m: nat, size: nat, c: Cell)
    requires Square(g, size) && Square(fn, size) && Inside(c, size)
    ensures Get(Masked(g, fn, m, size), c, size) == (Get(g, c, size) != (Invert(m, c.x, c.y) && !Get(fn, c, size)))
  {
    hide Invert;
  }

  /** The height of the tile that repeats; every tile is six modules wide. */
  function TileHeight(m: nat): (h: nat)
    ensures h > 0
  {
    if m == 4 then 4 else 6
  }

  /** The columns that change in row y of the tile. */
  function TileRow(m: nat, y: nat): set<nat> {
    match m
    case 0 => (match y case 0 | 2 | 4 => {0, 2, 4} case _ => {1, 3, 5})
    case 1 => (match y case 0 | 2 | 4 => {0, 1, 2, 3, 4, 5} case _ => {})
    case 2 => {0, 3}
    case 3 => (match y case 0 | 3 => {0, 3} case 1 | 4 => {2, 5} case _ => {1, 4})
    case 4 => (match y case 0 | 1 => {0, 1, 2} case _ => {3, 4, 5})
    case 5 => (match y case 0 => {0, 1, 2, 3, 4, 5} case 1 | 5 => {0} case 2 | 4 => {0, 3} case _ => {0, 2, 4})
    case 6 => (match y case 0 => {0, 1, 2, 3, 4, 5} case 1 => {0, 1, 2} case 2 => {0, 1, 3, 4}
                       case 3 => {0, 2, 4} case 4 => {0, 2, 3, 5} case _ => {0, 4, 5})
    case _ => (match y case 0 => {0, 2, 4} case 1 => {3, 4, 5} case 2 => {0, 4, 5}
                       case 3 => {1, 3, 5} case 4 => {0, 1, 2} case _ => {1, 2, 3})
  }

  /** Whether the tiles laid side by side from the top left corner mark (x, y). */
  predicate OnTile(m: nat, x: nat, y: nat) {
    x % 6 in TileRow(m, y % TileHeight(m))
  }

  lemma TileCellSums(m: nat, x: nat, y: nat)
    requires m <= 4 && x < 6 && y < TileHeight(m)
    ensures Invert(m, x, y) <==> x in TileRow(m, y)
  {
    assert x == 0 || x == 1 || x == 2 || x == 3 || x == 4 || x == 5;
    assert y == 0 || y == 1 || y == 2 || y == 3 || y == 4 || y == 5;
  }

  lemma TileCellProducts(m: nat, x: nat, y: nat)
    requires m > 4 && x < 6 && y < 6
    ensures Invert(m, x, y) <==> x in TileRow(m, y)
  {
    assert x == 0 || x == 1 || x == 2 || x == 3 || x == 4 || x == 5;
    assert y == 0 || y == 1 || y == 2 || y == 3 || y == 4 || y == 5;
  }

  lemma TimesResidue(k: int, r: int)
    ensures (6 * k + r) % 2 == r % 2 && (6 * k + r) % 3 == r % 3
  {
  }

  lemma ProductParts(p: nat, a: nat, q: nat, b: nat)
    ensures (6 * p + a) * (6 * q + b) == 6 * (p * (6 * q + b) + a * q) + a * b
  {
  }

  lemma ProductResidue(x: nat, y: nat)
    ensures x * y % 2 == x % 6 * (y % 6) % 2 && x * y % 3 == x % 6 * (y % 6) % 3
  {
    var (p, a, q, b) := (x / 6, x % 6, y / 6, y % 6);
    ProductParts(p, a, q, b);
    TimesResidue(p * (6 * q + b) + a * q, a * b);
  }

  lemma SumResidue(x: nat, y: nat)
    ensures (x + y) % 2 == (x % 6 + y % 6) % 2 && (x + y) % 3 == (x % 6 + y % 6) % 3
  {
    TimesResidue(x / 6 + y / 6, x % 6 + y % 6);
  }

  lemma BlockResidue(x: nat, y: nat)
    ensures (x / 3 + y / 2) % 2 == (x % 6 / 3 + y % 4 / 2) % 2
  {
    assert x / 3 == 2 * (x / 6) + x % 6 / 3;
    assert y / 2 == 2 * (y / 4) + y % 4 / 2;
  }

  lemma InvertPeriod(m: nat, x: nat, y: nat)
    ensures Invert(m, x, y) <==> Invert(m, x % 6, y % TileHeight(m))
  {
    if m == 4 { BlockResidue(x, y); }
    else if m == 0 || m == 3 { SumResidue(x, y); }
    else if m == 1 { TimesResidue(y / 6, y % 6); }
    else if m == 2 { TimesResidue(x / 6, x % 6); }
    else { ProductResidue(x, y); SumResidue(x, y); }
  }

  /** The formula of every mask repeats its tile. */
  lemma InvertTile(m: nat, x: nat, y: nat)
    ensures Invert(m, x, y) <==> OnTile(m, x, y)
  {
    hide Invert, TileRow;
    InvertPeriod(m, x, y);
    if m <= 4 { TileCellSums(m, x % 6, y % TileHeight(m)); } else { TileCellProducts(m, x % 6, y % 6); }
  }

  /** Mask m changes exactly the data modules that lie on its tile. */
  lemma MaskChanges(g: Grid, fn: Grid, m: nat, size: nat, c: Cell)
    requires Square(g, size) && Square(fn, size) && Inside(c, size)
    ensures Get(Masked(g, fn, m, size), c, size) != Get(g, c, size) <==> !Get(fn, c, size) && OnTile(m, c.x, c.y)
  {
    hide Invert, OnTile, Masked, Get;
    MaskedGet(g, fn, m, size, c);
    InvertTile(m, c.x, c.y);
  }

  /** Mask 0 is a chessboard, mask 1 inverts every second row, mask 2 every third column. */
  lemma PlainMasks(x: nat, y: nat)
    ensures OnTile(0, x, y) <==> (x % 2 == 0) == (y % 2 == 0)
    ensures OnTile(1, x, y) <==> y % 2 == 0
    ensures OnTile(2, x, y) <==> x % 3 == 0
  {
    hide OnTile;
    InvertTile(0, x, y);
    InvertTile(1, x, y);
    InvertTile(2, x, y);
  }

  /** A module and the one a whole tile further on are both on the tile or both off it. */
  lemma TilePeriod(m: nat, x: nat, y: nat)
    ensures OnTile(m, x + 6, y) <==> OnTile(m, x, y)
    ensures OnTile(m, x, y + TileHeight(m)) <==> OnTile(m, x, y)
  {
    hide TileRow;
  }

  /** Applying a mask twice restores the symbol. */
  lemma MaskInvolution(g: Grid, fn: Grid, m: nat, size: nat)
    requires Square(g, size) && Square(fn, size)
    ensures Masked(Masked(g, fn, m, size), fn, m, size) == g
  {
    hide Masked, Get, Invert;
    var h := Masked(g, fn, m, size);
    forall c: Cell | Inside(c, size) ensures Get(Masked(h, fn, m, size), c, size) == Get(g, c, size) {
      MaskedGet(g, fn, m, size, c);
      MaskedGet(h, fn, m, size, c);
    }
    GridsEqual(Masked(h, fn, m, size), g, size);
  }

  // ----- the finished symbol -----

  lemma FormatInside(bits: nat, size: nat)
    requires size >= 9
    ensures StrokesInside(Format(bits, size), size)
  {
    hide Format, CellsOf;
    forall s | s in Format(bits, size) ensures Inside(s.cell, size) {
      StrokeCell(Format(bits, size), s);
      FormatCells(bits, size, s.cell);
    }
  }

  lemma StrokeCell(strokes: seq<Stroke>, s: Stroke)
    requires s in strokes
    ensures s.cell in CellsOf(strokes)
  {
  }

  /** The symbol with mask m applied and its format drawn. */
  function Finished(base: Grid, fn: Grid, ecl: Ecc, m: nat, size: nat): (h: Grid)
    requires Square(base, size) && Square(fn, size) && size >= 9
    ensures Square(h, size)
  {
    FormatInside(FormatBits(ecl, m), size);
    Painted(Masked(base, fn, m, size), Format(FormatBits(ecl, m), size), size)
  }

  /** The two grids differ only in the format modules. */
  ghost predicate SameData(g: Grid, h: Grid, size: nat)
    requires Square(g, size) && Square(h, size)
  {
    forall c: Cell | Inside(c, size) && !FormatRegion(c, size) :: Get(g, c, size) == Get(h, c, size)
  }

  lemma FinishedGet(base: Grid, fn: Grid, ecl: Ecc, m: nat, size: nat, c: Cell)
    requires Square(base, size) && Square(fn, size) && size >= 9 && Inside(c, size) && !FormatRegion(c, size)
    ensures Get(Finished(base, fn, ecl, m, size), c, size) ==
            (Get(base, c, size) != (Invert(m, c.x, c.y) && !Get(fn, c, size)))
  {
    hide Masked, Get, Invert, Format, FormatBits, Painted, CellsOf;
    var bits := FormatBits(ecl, m);
    FormatInside(bits, size);
    FormatCells(bits, size, c);
    PaintedElsewhere(Masked(base, fn, m, size), Format(bits, size), size, c);
    MaskedGet(base, fn, m, size, c);
  }

  /** Left-over format bits of an earlier trial do not matter: a mask gives the same finished symbol. */
  lemma FinishedSame(g: Grid, base: Grid, fn: Grid, ecl: Ecc, m: nat, size: nat)
    requires Square(g, size) && Square(base, size) && Square(fn, size) && size >= 9 && SameData(g, base, size)
    ensures Finished(g, fn, ecl, m, size) == Finished(base, fn, ecl, m, size)
  {
    hide Masked, Get, Invert, Format, FormatBits, Painted, CellsOf;
    var bits := FormatBits(ecl, m);
    FormatInside(bits, size);
    forall c: Cell | Inside(c, size)
      ensures Get(Finished(g, fn, ecl, m, size), c, size) == Get(Finished(base, fn, ecl, m, size), c, size)
    {
      if FormatRegion(c, size) {
        FormatCells(bits, size, c);
        PaintedSame(Masked(g, fn, m, size), Masked(base, fn, m, size), Format(bits, size), size, c);
      } else {
        FinishedGet(g, fn, ecl, m, size, c);
        FinishedGet(base, fn, ecl, m, size, c);
      }
    }
    GridsEqual(Finished(g, fn, ecl, m, size), Finished(base, fn, ecl, m, size), size);
  }

  /** Undoing the mask after a trial restores the data modules. */
  lemma TrialUndone(base: Grid, fn: Grid, ecl: Ecc, m: nat, size: nat)
    requires Square(base, size) && Square(fn, size) && size >= 9
    ensures SameData(Masked(Finished(base, fn, ecl, m, size), fn, m, size), base, size)
  {
    hide Masked, Get, Invert, Finished, FormatRegion;
    var h := Finished(base, fn, ecl, m, size);
    forall c: Cell | Inside(c, size) && !FormatRegion(c, size)
      ensures Get(Masked(h, fn, m, size), c, size) == Get(base, c, size)
    {
      FinishedGet(base, fn, ecl, m, size, c);
      MaskedGet(h, fn, m, size, c);
    }
  }

  /** m is the first of the masks below n whose finished symbol has the least penalty. */
  ghost predicate BestMask(base: Grid, fn: Grid, ecl: Ecc, size: nat, m: nat, n: nat)
    requires Square(base, size) && Square(fn, size) && size >= 9
  {
    && m < n
    && (forall k: nat | k < n ::
          PenaltyScore(Finished(base, fn, ecl, m, size), size) <= PenaltyScore(Finished(base, fn, ecl, k, size), size))
    && (forall k: nat | k < m ::
          PenaltyScore(Finished(base, fn, ecl, m, size), size) < PenaltyScore(Finished(base, fn, ecl, k, size), size))
  }
}
