/** A reader of finished symbols, and the proof that it recovers what was encoded from the modules alone. */
module Reader {
  import opened Galois
  import opened Wrappers
  import opened Bits
  import opened ReedSolomon
  import opened Interleave
  import opened Segments
  import opened Stream
  import opened Zigzag
  import opened Patterns
  import opened ModuleCount
  import opened Capacity
  import opened Masking
  import opened Symbol
  import opened Encode

  // ----- the format -----

  /** The fifteen bits of the first format copy, most significant first. */
  function FormatRead(g: Grid, size: nat): (s: seq<bool>)
    requires Square(g, size) && size >= 21
    ensures |s| == 15
  {
    seq(15, k requires 0 <= k < 15 => Get(g, FormatCell(14 - k), size))
  }

  /** Level and mask, without the check bits and the fixed pattern. */
  function FormatData(g: Grid, size: nat): nat
    requires Square(g, size) && size >= 21
  {
    Xor(FromBits(FormatRead(g, size)), 0x5412) / 1024
  }

  function LevelOf(n: nat): Ecc {
    if n == 1 then LOW else if n == 0 then MEDIUM else if n == 3 then QUARTILE else HIGH
  }

  lemma {:induction false} FormatCopy1At(bits: nat, n: nat, i: nat)
    requires i < n
    ensures |FormatCopy1(bits, n)| == n && FormatCopy1(bits, n)[i] == Stroke(FormatCell(i), GetBit(bits, i))
  {
    hide GetBit, FormatCell;
    if i < n - 1 {
      FormatCopy1At(bits, n - 1, i);
    } else if n > 1 {
      FormatCopy1At(bits, n - 1, 0);
    }
  }

  lemma {:induction false} FormatCopy2At(bits: nat, n: nat, i: nat, size: nat)
    requires i < n
    ensures |FormatCopy2(bits, n, size)| == n && FormatCopy2(bits, n, size)[i].cell == FormatCell2(i, size)
  {
    hide GetBit, FormatCell2;
    if i < n - 1 {
      FormatCopy2At(bits, n - 1, i, size);
    } else if n > 1 {
      FormatCopy2At(bits, n - 1, 0, size);
    }
  }

  /** The strokes of a format after the i-th leave its cell alone. */
  lemma FormatLater(bits: nat, size: nat, i: nat, k: nat)
    requires i < 15 && i < k < 31 && size >= 21
    ensures |Format(bits, size)| == 31
    ensures Format(bits, size)[i] == Stroke(FormatCell(i), GetBit(bits, i))
    ensures Format(bits, size)[k].cell != FormatCell(i)
  {
    hide GetBit, FormatCopy1, FormatCopy2;
    FormatCopy1At(bits, 15, i);
    FormatCopy2At(bits, 15, 0, size);
    if k < 15 {
      FormatCopy1At(bits, 15, k);
    } else if k < 30 {
      FormatCopy2At(bits, 15, k - 15, size);
    }
  }

  lemma FormatCellRead(g: Grid, bits: nat, size: nat, i: nat)
    requires Square(g, size) && size >= 21 && i < 15
    ensures StrokesInside(Format(bits, size), size)
    ensures Get(Painted(g, Format(bits, size), size), FormatCell(i), size) == GetBit(bits, i)
  {
    hide Format, Painted, GetBit, FormatCell, Get;
    FormatInside(bits, size);
    FormatLater(bits, size, i, 30);
    forall k | i < k < 31 ensures Format(bits, size)[k].cell != Format(bits, size)[i].cell {
      FormatLater(bits, size, i, k);
    }
    PaintedAt(g, Format(bits, size), size, i);
  }

  lemma Pow2Fifteen()
    ensures Pow2(15) == 32768
  {
    TenthPowers();
  }

  /** The format bits are read back unchanged from a finished symbol. */
  lemma FormatReadBack(base: Grid, fn: Grid, ecl: Ecc, m: nat, size: nat)
    requires Square(base, size) && Square(fn, size) && size >= 21 && m < 8
    ensures FromBits(FormatRead(Finished(base, fn, ecl, m, size), size)) == FormatBits(ecl, m)
  {
    hide Format, Painted, FormatCell, Get, ToBits, FromBits, FormatBits, Masked, Shr, Pow2;
    var (g, bits) := (Finished(base, fn, ecl, m, size), FormatBits(ecl, m));
    forall k | 0 <= k < 15 ensures FormatRead(g, size)[k] == ToBits(bits, 15)[k] {
      FormatCellRead(Masked(base, fn, m, size), bits, size, 14 - k);
      ToBitsAt(bits, 15, k);
    }
    assert FormatRead(g, size) == ToBits(bits, 15);
    FormatBitsBound(ecl, m);
    Pow2Fifteen();
    FromToBits(bits, 15);
  }

  /** Level and mask are recovered from the modules. */
  lemma FormatRecovered(base: Grid, fn: Grid, ecl: Ecc, m: nat, size: nat)
    requires Square(base, size) && Square(fn, size) && size >= 21 && m < 8
    ensures var d := FormatData(Finished(base, fn, ecl, m, size), size); d % 8 == m && LevelOf(d / 8) == ecl
  {
    hide Finished, FormatRead, Xor, FromBits, FormatRemainder;
    FormatReadBack(base, fn, ecl, m, size);
    var data := FormatLevel(ecl) * 8 + m;
    var v := data * 1024 + FormatRemainder(data, 10);
    FormatRemainderBound(data, 10);
    XorAssoc(v, 0x5412, 0x5412);
    XorSelf(0x5412);
    XorZero(v);
  }

  // ----- the data -----

  /** The function mask does not depend on the level. */
  lemma MaskSame(version: nat, ecl: Ecc, ecl': Ecc)
    requires MIN_VERSION <= version <= MAX_VERSION
    ensures FunctionMask(version, ecl) == FunctionMask(version, ecl')
  {
    hide FunctionMask, Get, FunctionRegion;
    var size := SizeOf(version);
    forall c: Cell | Inside(c, size)
      ensures Get(FunctionMask(version, ecl), c, size) == Get(FunctionMask(version, ecl'), c, size)
    {
      FunctionMaskGet(version, ecl, c);
      FunctionMaskGet(version, ecl', c);
    }
    GridsEqual(FunctionMask(version, ecl), FunctionMask(version, ecl'), size);
  }

  lemma RawFits(version: nat)
    requires MIN_VERSION <= version <= MAX_VERSION
    ensures 0 <= 8 * RawCodewords(version) <= NumRawDataModules(version)
    ensures 8 * RawCodewords(version) % 8 == 0 && 8 * RawCodewords(version) / 8 == RawCodewords(version)
  {
    hide NumRawDataModules;
    GoodLevel(version, LOW);
  }

  /** The bits read along the scan of an unmasked symbol, without the remainder bits. */
  function ScanBits(g: Grid, version: nat, ecl: Ecc): (s: seq<bool>)
    requires MIN_VERSION <= version <= MAX_VERSION && Square(g, SizeOf(version))
    ensures RawCodewords(version) >= 0 && |s| == 8 * RawCodewords(version)
  {
    FreeCells(version, ecl);
    RawFits(version);
    ReadBits(g, FunctionMask(version, ecl), FullScan(SizeOf(version)), SizeOf(version))[..8 * RawCodewords(version)]
  }

  function ReadCodewords(g: Grid, version: nat, ecl: Ecc): (s: seq<Byte>)
    requires MIN_VERSION <= version <= MAX_VERSION && Square(g, SizeOf(version))
    ensures |s| == RawCodewords(version)
  {
    RawFits(version);
    Packed(ScanBits(g, version, ecl))
  }

  /** Modules that agree on all data cells yield the same codewords. */
  lemma ReadSame(g: Grid, h: Grid, version: nat, ecl: Ecc)
    requires MIN_VERSION <= version <= MAX_VERSION && Square(g, SizeOf(version)) && Square(h, SizeOf(version))
    requires SameData(g, h, SizeOf(version))
    ensures ReadCodewords(g, version, ecl) == ReadCodewords(h, version, ecl)
  {
    hide Free, FullScan, FunctionMask, Get, FormatRegion, FunctionRegion, Packed, RawCodewords;
    var (size, fn) := (SizeOf(version), FunctionMask(version, ecl));
    FreeCells(version, ecl);
    var cells := FullScan(size);
    var free := Free(fn, cells, size);
    FreeInside(fn, cells, size);
    forall k | 0 <= k < |free| ensures ReadBits(g, fn, cells, size)[k] == ReadBits(h, fn, cells, size)[k] {
      var c := free[k];
      FreeMembers(fn, cells, size, c);
      FunctionMaskGet(version, ecl, c);
      if FormatRegion(c, size) { FormatIsFunction(version, c); }
      assert Get(g, c, size) == Get(h, c, size);
    }
    assert ReadBits(g, fn, cells, size) == ReadBits(h, fn, cells, size);
  }

  lemma ReadBase(version: nat, ecl: Ecc, codewords: seq<Byte>)
    requires MIN_VERSION <= version <= MAX_VERSION && |codewords| == RawCodewords(version)
    ensures ReadCodewords(BaseGrid(version, ecl, codewords), version, ecl) == codewords
  {
    hide Free, FullScan, FunctionMask, FunctionGrid, Get, Drawn, Packed, CodewordBits, NumRawDataModules, ReadBits;
    hide Distinct;
    var (size, fn) := (SizeOf(version), FunctionMask(version, ecl));
    FreeCells(version, ecl);
    var bits := CodewordBits(codewords);
    ReadDrawn(FunctionGrid(version, ecl), fn, FullScan(size), bits, size);
    var read := ReadBits(BaseGrid(version, ecl, codewords), fn, FullScan(size), size);
    assert read[..|bits|] == bits;
    BytesRoundTrip(codewords);
  }

  /** The data codewords a reader extracts from a symbol. */
  function ReadData(g: Grid, version: nat): (s: seq<Byte>)
    requires MIN_VERSION <= version <= MAX_VERSION && Square(g, SizeOf(version))
  {
    var size := SizeOf(version);
    var data := FormatData(g, size);
    var (ecl, mask) := (LevelOf(data / 8), data % 8);
    var unmasked := Masked(g, FunctionMask(version, LOW), mask, size);
    var l := LayoutOf(version, ecl);
    Deinterleaved(l, ReadCodewords(unmasked, version, LOW), l.numBlocks)
  }

  /** The segments a reader extracts from a symbol, with nothing but the modules to go by. */
  function ReadSymbol(g: Grid, version: nat): Option<seq<Segment>>
    requires MIN_VERSION <= version <= MAX_VERSION && Square(g, SizeOf(version))
  {
    Parse(CodewordBits(ReadData(g, version)), version)
  }

  lemma ReadLevel(g: Grid, version: nat, ecl: Ecc)
    requires MIN_VERSION <= version <= MAX_VERSION && Square(g, SizeOf(version))
    ensures ReadCodewords(g, version, LOW) == ReadCodewords(g, version, ecl)
  {
    hide ReadBits, FullScan, Packed, FunctionMask, RawCodewords;
    MaskSame(version, LOW, ecl);
    FreeCells(version, ecl);
  }

  /** Unmasking and reading along the scan recover the interleaved codewords. */
  lemma CodewordsReadBack(version: nat, ecl: Ecc, data: seq<Byte>, m: nat)
    requires MIN_VERSION <= version <= MAX_VERSION && |data| == NumDataCodewords(version, ecl) && m < 8
    ensures var unmasked := Masked(SymbolGrid(version, ecl, data, m), FunctionMask(version, LOW), m, SizeOf(version));
            ReadCodewords(unmasked, version, LOW) == Interleaved(LayoutOf(version, ecl), data)
  {
    hide Finished, FunctionMask, BaseGrid, Interleaved, ReadCodewords, Masked, SameData, NumDataCodewords;
    var (size, l) := (SizeOf(version), LayoutOf(version, ecl));
    var codewords := Interleaved(l, data);
    var (base, fn) := (BaseGrid(version, ecl, codewords), FunctionMask(version, ecl));
    MaskSame(version, LOW, ecl);
    var unmasked := Masked(SymbolGrid(version, ecl, data, m), fn, m, size);
    TrialUndone(base, fn, ecl, m, size);
    ReadLevel(unmasked, version, ecl);
    ReadSame(unmasked, base, version, ecl);
    DataRecovered(l, data);
    ReadBase(version, ecl, codewords);
  }

  /** Level and mask of a finished symbol. */
  lemma SymbolFormat(version: nat, ecl: Ecc, data: seq<Byte>, m: nat)
    requires MIN_VERSION <= version <= MAX_VERSION && |data| == NumDataCodewords(version, ecl) && m < 8
    ensures var d := FormatData(SymbolGrid(version, ecl, data, m), SizeOf(version)); d % 8 == m && LevelOf(d / 8) == ecl
  {
    hide Finished, FunctionMask, BaseGrid, Interleaved, FormatData, NumDataCodewords;
    var codewords := Interleaved(LayoutOf(version, ecl), data);
    FormatRecovered(BaseGrid(version, ecl, codewords), FunctionMask(version, ecl), ecl, m, SizeOf(version));
  }

  /** De-interleaving then recovers the data codewords. */
  lemma DataReadBack(version: nat, ecl: Ecc, data: seq<Byte>, m: nat)
    requires MIN_VERSION <= version <= MAX_VERSION && |data| == NumDataCodewords(version, ecl) && m < 8
    ensures ReadData(SymbolGrid(version, ecl, data, m), version) == data
  {
    hide SymbolGrid, FunctionMask, Interleaved, Deinterleaved, ReadCodewords, Masked, FormatData, NumDataCodewords;
    SymbolFormat(version, ecl, data, m);
    CodewordsReadBack(version, ecl, data, m);
    DataRecovered(LayoutOf(version, ecl), data);
  }

  /**
    The whole way back: from the modules of a symbol alone a reader recovers exactly the segments that were
    encoded, for every segment list that fits, every version, level and mask.
   */
  lemma SymbolRoundTrip(segs: seq<Segment>, version: nat, ecl: Ecc, mask: int, modules: Grid)
    requires MIN_VERSION <= version <= MAX_VERSION && Encodes(segs, version, ecl, mask, modules)
    requires forall s | s in segs :: WellFormed(s)
    ensures Square(modules, SizeOf(version))
    ensures ReadSymbol(modules, version) == Some(segs)
  {
    hide SymbolGrid, ReadData, Parse, CodewordBits, Packed, StreamBits, PaddedBits, WellFormed, NumDataCodewords;
    hide CountsFit, TotalBits;
    var data := DataCodewords(segs, version, ecl);
    DataReadBack(version, ecl, data, mask);
    CapacityGood(version, ecl);
    StreamLength(segs, version);
    var padded := PaddedBits(StreamBits(segs, version), CapacityBits(version, ecl));
    PackedBits(padded);
    PaddedRoundTrip(segs, version, CapacityBits(version, ecl));
  }

  /** encodeText: any text that fits a symbol in its densest mode is encoded, and read back from the modules alone. */
  method EncodeText(text: string, ecl: Ecc) returns (status: Status, q: QrCode?, ghost segs: seq<Segment>)
    requires forall c | c in text :: c as int < 256
    ensures status == OK <==> q != null
    ensures status != INVALID_ARGUMENT && (status == LENGTH_ERROR ==> |text| > INT_MAX)
    ensures status == DATA_TOO_LONG ==> forall v: nat | MIN_VERSION <= v <= MAX_VERSION :: !Fits(segs, v, ecl)
    ensures status != LENGTH_ERROR ==>
              if text == "" then segs == [] else
                |segs| == 1 && WellFormed(segs[0]) && TextOf(segs[0]) == text && segs[0].mode == DensestMode(text)
    ensures status == OK ==>
              && SmallestVersion(segs, ecl, MIN_VERSION, MAX_VERSION, q.version) && Square(q.modules, SizeOf(q.version))
              && ChosenLevel(segs, q.version, ecl, true, q.ecl) && EncodesBest(segs, q.version, q.ecl, q.mask)
              && ReadSymbol(q.modules, q.version) == Some(segs)
  {
    hide WellFormed, TextOf, ReadSymbol, Encodes, SmallestVersion, ChosenLevel, EncodesBest, DensestMode, Fits;
    var made := MakeSegments(text);
    if made.None? {
      return LENGTH_ERROR, null, [];
    }
    segs := made.value;
    status, q := EncodeSegments(made.value, ecl, MIN_VERSION, MAX_VERSION, -1, true);
    if status == OK {
      SymbolRoundTrip(segs, q.version, q.ecl, q.mask, q.modules);
    }
  }
}
