/** Damaged symbols: how many modules may be wrong before the segments are no longer determined. */
module Damage {
  import opened Galois
  import opened Wrappers
  import opened Bits
  import opened ReedSolomon
  import opened MinimumDistance
  import opened Interleave
  import opened Segments
  import opened Stream
  import opened Zigzag
  import opened Patterns
  import opened ModuleCount
  import opened Capacity
  import opened Masking
  import opened Symbol
  import opened Encode
  import opened Reader

  /** The module that holds bit b of codeword k. */
  ghost function ModuleOf(version: nat, k: nat, b: nat): (c: Cell)
    requires MIN_VERSION <= version <= MAX_VERSION && k < RawCodewords(version) && b < 8
    ensures Inside(c, SizeOf(version))
  {
    var (fn, cells) := (FunctionMask(version, LOW), FullScan(SizeOf(version)));
    FreeCells(version, LOW);
    RawFits(version);
    FreeInside(fn, cells, SizeOf(version));
    Free(fn, cells, SizeOf(version))[8 * k + b]
  }

  /** One of the eight modules of codeword k has another colour. */
  ghost predicate Touched(g: Grid, h: Grid, version: nat, k: nat)
    requires MIN_VERSION <= version <= MAX_VERSION && Square(g, SizeOf(version)) && Square(h, SizeOf(version))
    requires k < RawCodewords(version)
  {
    exists b: nat | b < 8 ::
      Get(g, ModuleOf(version, k, b), SizeOf(version)) != Get(h, ModuleOf(version, k, b), SizeOf(version))
  }

  ghost function Unmasked(g: Grid, version: nat, m: nat): (u: Grid)
    requires MIN_VERSION <= version <= MAX_VERSION && Square(g, SizeOf(version))
    ensures Square(u, SizeOf(version))
  {
    Masked(g, FunctionMask(version, LOW), m, SizeOf(version))
  }

  /** The codewords read from a symbol with mask m. */
  ghost function Codewords(g: Grid, version: nat, m: nat): (s: seq<Byte>)
    requires MIN_VERSION <= version <= MAX_VERSION && Square(g, SizeOf(version))
    ensures |s| == RawCodewords(version)
  {
    ReadCodewords(Unmasked(g, version, m), version, LOW)
  }

  lemma BitRead(g: Grid, version: nat, m: nat, k: nat, b: nat)
    requires MIN_VERSION <= version <= MAX_VERSION && Square(g, SizeOf(version)) && k < RawCodewords(version) && b < 8
    ensures 8 * k + b < |ScanBits(Unmasked(g, version, m), version, LOW)|
    ensures ScanBits(Unmasked(g, version, m), version, LOW)[8 * k + b] ==
            Get(Unmasked(g, version, m), ModuleOf(version, k, b), SizeOf(version))
  {
    hide FunctionMask, FullScan, Free, Get, Masked, RawCodewords;
    FreeCells(version, LOW);
    RawFits(version);
  }

  /** An untouched codeword is read as it was. */
  lemma CodewordKept(g: Grid, h: Grid, version: nat, m: nat, k: nat)
    requires MIN_VERSION <= version <= MAX_VERSION && Square(g, SizeOf(version)) && Square(h, SizeOf(version))
    requires k < RawCodewords(version)
    requires !Touched(g, h, version, k)
    ensures Codewords(g, version, m)[k] == Codewords(h, version, m)[k]
  {
    hide FunctionMask, Get, Masked, ModuleOf, ScanBits, FromBits, RawCodewords, Invert;
    var (size, fn) := (SizeOf(version), FunctionMask(version, LOW));
    var s := ScanBits(Unmasked(g, version, m), version, LOW);
    var t := ScanBits(Unmasked(h, version, m), version, LOW);
    RawFits(version);
    forall i | 8 * k <= i < 8 * k + 8 ensures s[i] == t[i] {
      var b: nat := i - 8 * k;
      BitRead(g, version, m, k, b);
      BitRead(h, version, m, k, b);
      MaskedGet(g, fn, m, size, ModuleOf(version, k, b));
      MaskedGet(h, fn, m, size, ModuleOf(version, k, b));
    }
    assert s[8 * k..8 * k + 8] == t[8 * k..8 * k + 8];
  }

  /** Where codeword i of block j stands in the interleaved sequence. */
  function PlaceOf(l: Layout, j: nat, i: nat): (k: nat)
    requires l.Valid() && j < l.numBlocks && i < l.BlockData(j) + l.eccLen
    ensures k < l.raw
  {
    PlaceBound(l, Source(l, j, i), j);
    l.Place(Source(l, j, i), j)
  }

  lemma LayoutRaw(version: nat, ecl: Ecc)
    requires MIN_VERSION <= version <= MAX_VERSION
    ensures LayoutOf(version, ecl).raw == RawCodewords(version)
  {
    hide RawCodewords;
  }

  /** How many of the first n codewords of block j are touched. */
  ghost function TouchedIn(g: Grid, h: Grid, version: nat, ecl: Ecc, j: nat, n: nat): nat
    requires MIN_VERSION <= version <= MAX_VERSION && Square(g, SizeOf(version)) && Square(h, SizeOf(version))
    requires var l := LayoutOf(version, ecl); j < l.numBlocks && n <= l.BlockData(j) + l.eccLen
  {
    if n == 0 then 0
    else
      LayoutRaw(version, ecl);
      var k := PlaceOf(LayoutOf(version, ecl), j, n - 1);
      TouchedIn(g, h, version, ecl, j, n - 1) + if Touched(g, h, version, k) then 1 else 0
  }

  /** In every block at most half as many codewords are touched as it has error correction codewords. */
  ghost predicate Tolerable(g: Grid, h: Grid, version: nat, ecl: Ecc)
    requires MIN_VERSION <= version <= MAX_VERSION && Square(g, SizeOf(version)) && Square(h, SizeOf(version))
  {
    var l := LayoutOf(version, ecl);
    forall j: nat | j < l.numBlocks :: 2 * TouchedIn(g, h, version, ecl, j, l.BlockData(j) + l.eccLen) <= l.eccLen
  }

  lemma PrefixDistance(p: seq<Byte>, q: seq<Byte>, n: nat)
    requires |p| == |q| && n < |p|
    ensures Distance(p[..n + 1], q[..n + 1]) == Distance(p[..n], q[..n]) + if p[n] == q[n] then 0 else 1
  {
    assert p[..n + 1][..n] == p[..n] && q[..n + 1][..n] == q[..n];
  }

  lemma BlockAt(l: Layout, codewords: seq<Byte>, j: nat, i: nat)
    requires l.Valid() && |codewords| == l.raw && j < l.numBlocks && i < l.BlockData(j) + l.eccLen
    ensures BlockOf(l, codewords, j)[i] == codewords[PlaceOf(l, j, i)]
  {
  }

  /** A block is at most as far from what was sent as it has touched codewords. */
  lemma {:induction false} BlockDamage(g: Grid, h: Grid, version: nat, ecl: Ecc, m: nat, j: nat, n: nat)
    requires MIN_VERSION <= version <= MAX_VERSION && Square(g, SizeOf(version)) && Square(h, SizeOf(version))
    requires var l := LayoutOf(version, ecl); j < l.numBlocks && n <= l.BlockData(j) + l.eccLen
    ensures var (l, u, v) := (LayoutOf(version, ecl), Codewords(g, version, m), Codewords(h, version, m));
            && |u| == |v| == l.raw
            && Distance(BlockOf(l, v, j)[..n], BlockOf(l, u, j)[..n]) <= TouchedIn(g, h, version, ecl, j, n)
  {
    hide Codewords, LayoutOf, Touched, RawCodewords, BlockOf, PlaceOf, Distance;
    LayoutRaw(version, ecl);
    var (l, u, v) := (LayoutOf(version, ecl), Codewords(g, version, m), Codewords(h, version, m));
    if n > 0 {
      BlockDamage(g, h, version, ecl, m, j, n - 1);
      PrefixDistance(BlockOf(l, v, j), BlockOf(l, u, j), n - 1);
      BlockAt(l, u, j, n - 1);
      BlockAt(l, v, j, n - 1);
      var k := PlaceOf(l, j, n - 1);
      if !Touched(g, h, version, k) { CodewordKept(g, h, version, m, k); }
    } else {
      NoDistance(BlockOf(l, v, j), BlockOf(l, u, j));
    }
  }

  lemma NoDistance(p: seq<Byte>, q: seq<Byte>)
    ensures Distance(p[..0], q[..0]) == 0
  {
  }

  /** Tolerable damage leaves the codewords repairable. */
  lemma TolerableRepairable(g: Grid, version: nat, ecl: Ecc, data: seq<Byte>, m: nat)
    requires MIN_VERSION <= version <= MAX_VERSION && |data| == NumDataCodewords(version, ecl) && m < 8
    requires Square(g, SizeOf(version))
    requires Tolerable(g, SymbolGrid(version, ecl, data, m), version, ecl)
    ensures |Codewords(g, version, m)| == LayoutOf(version, ecl).raw
    ensures Repairable(LayoutOf(version, ecl), Codewords(g, version, m), data)
  {
    hide SymbolGrid, LayoutOf, Codewords, Interleaved, EncodeBlock, BlockOf, Distance, TouchedIn, RawCodewords, Slice;
    hide NumDataCodewords;
    var (l, h) := (LayoutOf(version, ecl), SymbolGrid(version, ecl, data, m));
    var (u, v) := (Codewords(g, version, m), Codewords(h, version, m));
    LayoutRaw(version, ecl);
    SentCodewords(version, ecl, data, m);
    forall j: nat | j < l.numBlocks
      ensures 2 * Distance(EncodeBlock(Slice(l, data, j), l.eccLen), BlockOf(l, u, j)) <= l.eccLen
    {
      var n := l.BlockData(j) + l.eccLen;
      BlockDamage(g, h, version, ecl, m, j, n);
      BlockRecovered(l, data, j);
      assert BlockOf(l, v, j)[..n] == BlockOf(l, v, j) && BlockOf(l, u, j)[..n] == BlockOf(l, u, j);
    }
  }

  lemma SentCodewords(version: nat, ecl: Ecc, data: seq<Byte>, m: nat)
    requires MIN_VERSION <= version <= MAX_VERSION && |data| == NumDataCodewords(version, ecl) && m < 8
    ensures Codewords(SymbolGrid(version, ecl, data, m), version, m) == Interleaved(LayoutOf(version, ecl), data)
  {
    hide SymbolGrid, Interleaved, ReadCodewords, Masked, NumDataCodewords, FunctionMask;
    CodewordsReadBack(version, ecl, data, m);
  }

  /** Two symbols with the same format bits have the same level and mask. */
  lemma SameFormat(version: nat, ecl: Ecc, data: seq<Byte>, m: nat, ecl': Ecc, data': seq<Byte>, m': nat)
    requires MIN_VERSION <= version <= MAX_VERSION && m < 8 && m' < 8
    requires |data| == NumDataCodewords(version, ecl) && |data'| == NumDataCodewords(version, ecl')
    requires FormatRead(SymbolGrid(version, ecl, data, m), SizeOf(version)) ==
             FormatRead(SymbolGrid(version, ecl', data', m'), SizeOf(version))
    ensures ecl == ecl' && m == m'
  {
    hide SymbolGrid, FormatRead, NumDataCodewords, FromBits, Xor;
    SymbolFormat(version, ecl, data, m);
    SymbolFormat(version, ecl', data', m');
  }

  /**
    A damaged symbol may come from these segments: its format bits are intact, and its wrong modules touch, in every
    block, at most half as many codewords as the block has error correction codewords.
   */
  ghost predicate Explains(g: Grid, version: nat, segs: seq<Segment>, ecl: Ecc, mask: nat)
    requires MIN_VERSION <= version <= MAX_VERSION && Square(g, SizeOf(version))
  {
    && Fits(segs, version, ecl) && mask < 8 && (forall s | s in segs :: WellFormed(s))
    && var h := SymbolGrid(version, ecl, DataCodewords(segs, version, ecl), mask);
       FormatRead(g, SizeOf(version)) == FormatRead(h, SizeOf(version)) && Tolerable(g, h, version, ecl)
  }

  lemma ExplainedSegments(g: Grid, version: nat, segs: seq<Segment>, ecl: Ecc, mask: nat)
    requires MIN_VERSION <= version <= MAX_VERSION && Square(g, SizeOf(version))
    requires Explains(g, version, segs, ecl, mask)
    ensures var data := DataCodewords(segs, version, ecl);
            && |Codewords(g, version, mask)| == LayoutOf(version, ecl).raw
            && Repairable(LayoutOf(version, ecl), Codewords(g, version, mask), data)
            && ReadSymbol(SymbolGrid(version, ecl, data, mask), version) == Some(segs)
  {
    hide SymbolGrid, FormatRead, Tolerable, Repairable, LayoutOf, Codewords, WellFormed, Fits, NumDataCodewords;
    hide ReadSymbol, DataCodewords;
    var data := DataCodewords(segs, version, ecl);
    TolerableRepairable(g, version, ecl, data, mask);
    SymbolRoundTrip(segs, version, ecl, mask, SymbolGrid(version, ecl, data, mask));
  }

  /** Whatever damage two lists of segments could both explain, they are the same list. */
  lemma SegmentsDetermined(g: Grid, version: nat, segs: seq<Segment>, ecl: Ecc, mask: nat,
                           segs': seq<Segment>, ecl': Ecc, mask': nat)
    requires MIN_VERSION <= version <= MAX_VERSION && Square(g, SizeOf(version))
    requires Explains(g, version, segs, ecl, mask) && Explains(g, version, segs', ecl', mask')
    ensures segs == segs'
  {
    hide SymbolGrid, FormatRead, Tolerable, Repairable, LayoutOf, Codewords, WellFormed, Fits, NumDataCodewords;
    hide ReadSymbol, DataCodewords;
    var (data, data') := (DataCodewords(segs, version, ecl), DataCodewords(segs', version, ecl'));
    SameFormat(version, ecl, data, mask, ecl', data', mask');
    ExplainedSegments(g, version, segs, ecl, mask);
    ExplainedSegments(g, version, segs', ecl, mask);
    DamageTolerated(LayoutOf(version, ecl), Codewords(g, version, mask), data, data');
  }
}
