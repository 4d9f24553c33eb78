/** encodeSegments: the version search, the level boost, the bit stream, and the symbol. */
module Encode {
  import opened Galois
  import opened Wrappers
  import opened Bits
  import opened Segments
  import opened Stream
  import opened Zigzag
  import opened Patterns
  import opened Capacity
  import opened Symbol

  /** The number of data bits of a version and level. */
  function CapacityBits(ver: nat, ecl: Ecc): int {
    NumDataCodewords(ver, ecl) * 8
  }

  ghost predicate Fits(segs: seq<Segment>, ver: nat, ecl: Ecc) {
    CountsFit(segs, ver) && TotalBits(segs, ver) <= INT_MAX && TotalBits(segs, ver) <= CapacityBits(ver, ecl)
  }

  /** The smallest version of the range that holds the segments. */
  ghost predicate SmallestVersion(segs: seq<Segment>, ecl: Ecc, minVersion: int, maxVersion: int, ver: nat) {
    && minVersion <= ver <= maxVersion && Fits(segs, ver, ecl)
    && forall v: nat | minVersion <= v < ver :: !Fits(segs, v, ecl)
  }

  /** The requested level, or with boosting the highest level that still holds the segments. */
  ghost predicate ChosenLevel(segs: seq<Segment>, ver: nat, requested: Ecc, boost: bool, ecl: Ecc) {
    && Fits(segs, ver, ecl)
    && (!boost ==> ecl == requested)
    && (boost ==> Rank(ecl) >= Rank(requested) && forall e: Ecc | Rank(e) > Rank(ecl) :: !Fits(segs, ver, e))
  }

  lemma CapacityGood(ver: nat, ecl: Ecc)
    requires MIN_VERSION <= ver <= MAX_VERSION
    ensures CapacityBits(ver, ecl) > 0
  {
    LayoutFacts(ver, ecl);
  }

  /** The data codewords of a segment list: stream, terminator and padding, packed into bytes. */
  function DataCodewords(segs: seq<Segment>, ver: nat, ecl: Ecc): (s: seq<Byte>)
    requires MIN_VERSION <= ver <= MAX_VERSION && Fits(segs, ver, ecl)
    ensures |s| == NumDataCodewords(ver, ecl)
  {
    CapacityGood(ver, ecl);
    StreamLength(segs, ver);
    Packed(PaddedBits(StreamBits(segs, ver), CapacityBits(ver, ecl)))
  }

  // ----- the searches -----

  /** Tries the versions in order; None when even the last one is too small. */
  method FindVersion(segs: seq<Segment>, ecl: Ecc, minVersion: nat, maxVersion: nat)
    returns (r: Option<nat>, dataUsedBits: int)
    requires MIN_VERSION <= minVersion <= maxVersion <= MAX_VERSION
    ensures r.Some? ==> SmallestVersion(segs, ecl, minVersion, maxVersion, r.value)
    ensures r.Some? ==> dataUsedBits == TotalBits(segs, r.value)
    ensures r.None? ==> forall v: nat | minVersion <= v <= maxVersion :: !Fits(segs, v, ecl)
  {
    hide NumDataCodewords, CountsFit, TotalBits;
    var version := minVersion;
    while true
      invariant minVersion <= version <= maxVersion
      invariant forall v: nat | minVersion <= v < version :: !Fits(segs, v, ecl)
      decreases maxVersion - version
    {
      var dataCapacityBits := NumDataCodewords(version, ecl) * 8;
      dataUsedBits := GetTotalBits(segs, version);
      if dataUsedBits != -1 && dataUsedBits <= dataCapacityBits {
        assert Fits(segs, version, ecl);
        return Some(version), dataUsedBits;
      }
      assert !Fits(segs, version, ecl);
      if version >= maxVersion {
        return None, dataUsedBits;
      }
      version := version + 1;
    }
  }

  /** Raises the level step by step while the data still fits. */
  method BoostLevel(ghost segs: seq<Segment>, version: nat, requested: Ecc, boostEcl: bool, dataUsedBits: int)
    returns (ecl: Ecc)
    requires MIN_VERSION <= version <= MAX_VERSION && Fits(segs, version, requested)
    requires dataUsedBits == TotalBits(segs, version)
    ensures ChosenLevel(segs, version, requested, boostEcl, ecl)
  {
    hide NumDataCodewords, CountsFit, TotalBits;
    ecl := requested;
    var levels := [MEDIUM, QUARTILE, HIGH];
    for i := 0 to 3
      invariant Fits(segs, version, ecl) && (!boostEcl ==> ecl == requested)
      invariant boostEcl ==> forall e: Ecc | 1 <= Rank(e) <= i && Fits(segs, version, e) :: Rank(e) <= Rank(ecl)
    {
      var newEcl := levels[i];
      assert Rank(newEcl) == i + 1;
      if boostEcl && dataUsedBits <= NumDataCodewords(version, newEcl) * 8 {
        ecl := newEcl;
      }
    }
  }

  // ----- the bit stream -----

  lemma StreamSplit(segs: seq<Segment>, i: nat, ver: nat)
    requires i < |segs|
    ensures StreamBits(segs[..i + 1], ver) == StreamBits(segs[..i], ver) + SegmentBits(segs[i], ver)
  {
    hide StreamBits, SegmentBits;
    assert segs[..i + 1] == segs[..i] + [segs[i]];
    StreamAppend(segs[..i], segs[i], ver);
  }

  /** Concatenates all segments; no append can be refused. */
  method AppendSegments(bb: BitBuffer, segs: seq<Segment>, version: nat)
    requires bb.bits == [] && CountsFit(segs, version)
    modifies bb
    ensures bb.bits == StreamBits(segs, version)
  {
    hide StreamBits, ToBits, Pow2, NumCharCountBits, ModeBits;
    NothingWritten(version);
    for i := 0 to |segs|
      invariant bb.bits == StreamBits(segs[..i], version)
    {
      var seg := segs[i];
      assert seg in segs;
      StreamSplit(segs, i, version);
      HeaderFits(seg, version);
      var ok1 := bb.AppendBits(ModeBits(seg.mode), 4);
      var ok2 := bb.AppendBits(seg.numChars, NumCharCountBits(seg.mode, version));
      assert ok1 && ok2;
      bb.bits := bb.bits + seg.data;
    }
    assert segs[..|segs|] == segs;
  }

  lemma NothingWritten(ver: nat)
    ensures StreamBits([], ver) == []
  {
  }

  lemma HeaderFits(s: Segment, ver: nat)
    ensures ModeBits(s.mode) < Pow2(4) && NumCharCountBits(s.mode, ver) <= 16
  {
    hide Pow2;
    SmallPowers();
    CountBitsSmall(s.mode, ver);
  }

  /** The terminator and the alignment to a byte. */
  method AppendTerminator(bb: BitBuffer, capacity: nat)
    requires |bb.bits| <= capacity && capacity % 8 == 0
    modifies bb
    ensures bb.bits == Terminated(old(bb.bits), capacity)
  {
    hide ToBits, Pow2, Align;
    var room := capacity - |bb.bits|;
    var ok := bb.AppendBits(0, if room < 4 then room else 4);
    assert ok;
    ok := bb.AppendBits(0, Align(|bb.bits|));
    assert ok && |bb.bits| % 8 == 0;
  }

  /** Alternating padding bytes until the capacity is reached. */
  method AppendPadBytes(bb: BitBuffer, capacity: nat)
    requires |bb.bits| <= capacity && capacity % 8 == 0 && |bb.bits| % 8 == 0
    modifies bb
    ensures bb.bits == old(bb.bits) + PadBytes((capacity - |old(bb.bits)|) / 8, 0xEC)
  {
    hide ToBits, Pow2, Xor, PadBytes;
    SmallPowers();
    PadToggle();
    var padByte := 0xEC;
    ghost var n := (capacity - |bb.bits|) / 8;
    ghost var all := bb.bits + PadBytes(n, 0xEC);
    ghost var left: nat := n;
    while |bb.bits| < capacity
      invariant padByte == 0xEC || padByte == 0x11
      invariant |bb.bits| + 8 * left == capacity
      invariant all == bb.bits + PadBytes(left, padByte)
      decreases left
    {
      PadNext(left, padByte);
      var ok := bb.AppendBits(padByte, 8);
      assert ok;
      padByte := Xor(padByte, Xor(0xEC, 0x11));
      left := left - 1;
    }
    PadNone(padByte);
  }

  lemma PadNone(byte: nat)
    ensures PadBytes(0, byte) == []
  {
  }

  lemma PadNext(n: nat, byte: nat)
    requires n > 0
    ensures PadBytes(n, byte) == ToBits(byte, 8) + PadBytes(n - 1, if byte == 0xEC then 0x11 else 0xEC)
  {
  }

  lemma PadToggle()
    ensures Xor(0xEC, Xor(0xEC, 0x11)) == 0x11 && Xor(0x11, Xor(0xEC, 0x11)) == 0xEC
  {
    hide Xor;
    XorAssoc(0xEC, 0xEC, 0x11); XorSelf(0xEC); ZeroXor(0x11);
    XorComm(0xEC, 0x11);
    XorAssoc(0x11, 0x11, 0xEC); XorSelf(0x11); ZeroXor(0xEC);
  }

  lemma ZeroXor(a: nat)
    ensures Xor(0, a) == a
  {
  }

  /** Big-endian packing, one bit at a time. */
  method PackBits(bits: seq<bool>) returns (codewords: seq<Byte>)
    requires |bits| % 8 == 0
    ensures codewords == Packed(bits)
  {
    hide FromBits, Pow2;
    var data := new Byte[|bits| / 8](_ => 0);
    PackNothing(bits, 0);
    for i := 0 to |bits|
      invariant forall k | 0 <= k < i / 8 :: data[k] == ByteOf(bits, k)
      invariant i < |bits| ==> data[i / 8] == FromBits(bits[8 * (i / 8)..i]) * Pow2(8 - i % 8)
      invariant forall k | i / 8 < k < data.Length :: data[k] == 0
    {
      PackStep(bits, i);
      data[i / 8] := data[i / 8] + (if bits[i] then Pow2(7 - i % 8) else 0);
      PackNothing(bits, i + 1);
    }
    codewords := data[..];
  }

  lemma PackNothing(bits: seq<bool>, i: nat)
    requires i <= |bits|
    ensures i % 8 == 0 ==> FromBits(bits[8 * (i / 8)..i]) == 0
  {
  }

  lemma {:induction false} Pow2Sum(a: nat, b: nat)
    ensures Pow2(a + b) == Pow2(a) * Pow2(b)
  {
    if a > 0 { Pow2Sum(a - 1, b); }
  }

  lemma PackStep(bits: seq<bool>, i: nat)
    requires i < |bits| && |bits| % 8 == 0
    ensures var (k, m) := (i / 8, i % 8);
            var v := FromBits(bits[8 * k..i]) * Pow2(8 - m) + (if bits[i] then Pow2(7 - m) else 0);
            && v == FromBits(bits[8 * k..i + 1]) * Pow2(7 - m) && v < 256
            && (m == 7 ==> v == ByteOf(bits, k))
  {
    hide FromBits, Pow2;
    var (k, m) := (i / 8, i % 8);
    var (pre, next) := (bits[8 * k..i], bits[8 * k..i + 1]);
    FromBitsStep(pre, bits[i]);
    assert next == pre + [bits[i]];
    FromBitsBound(next);
    PowerSteps(m);
    PackProduct(FromBits(next), Pow2(m + 1), Pow2(7 - m));
    PackDistribute(FromBits(pre), Pow2(7 - m), bits[i]);
  }

  lemma FromBitsStep(pre: seq<bool>, b: bool)
    ensures FromBits(pre + [b]) == 2 * FromBits(pre) + (if b then 1 else 0)
  {
    assert (pre + [b])[..|pre|] == pre;
  }

  lemma PowerSteps(m: nat)
    requires m < 8
    ensures Pow2(m + 1) * Pow2(7 - m) == 256 && Pow2(8 - m) == 2 * Pow2(7 - m) && Pow2(0) == 1
  {
    Pow2Sum(m + 1, 7 - m);
    Pow2Seven();
  }

  lemma PackProduct(v: nat, a: nat, b: nat)
    requires v < a && b > 0
    ensures v * b < a * b
  {
  }

  lemma PackDistribute(q: nat, w: nat, b: bool)
    ensures q * (2 * w) + (if b then w else 0) == (2 * q + (if b then 1 else 0)) * w
  {
  }

  // ----- the whole encoder -----

  /** The modules are the symbol of the segments at the given version, level and mask. */
  ghost predicate Encodes(segs: seq<Segment>, ver: nat, ecl: Ecc, mask: int, modules: Grid)
    requires MIN_VERSION <= ver <= MAX_VERSION
  {
    Fits(segs, ver, ecl) && 0 <= mask <= 7 && modules == SymbolGrid(ver, ecl, DataCodewords(segs, ver, ecl), mask)
  }

  /** The mask is the earliest one with the least penalty. */
  ghost predicate EncodesBest(segs: seq<Segment>, ver: nat, ecl: Ecc, mask: int)
    requires MIN_VERSION <= ver <= MAX_VERSION
  {
    Fits(segs, ver, ecl) && 0 <= mask <= 7 && LeastPenalty(ver, ecl, DataCodewords(segs, ver, ecl), mask)
  }

  /**
    How an encoding ends: a symbol, or one of the exceptions std::invalid_argument, data_too_long, std::length_error.
   */
  datatype Status = OK | INVALID_ARGUMENT | DATA_TOO_LONG | LENGTH_ERROR

  method EncodeSegments(segs: seq<Segment>, requested: Ecc, minVersion: int, maxVersion: int, mask: int, boostEcl: bool)
    returns (status: Status, q: QrCode?)
    ensures status == INVALID_ARGUMENT <==>
            !(MIN_VERSION <= minVersion <= maxVersion <= MAX_VERSION) || mask < -1 || mask > 7
    ensures status == DATA_TOO_LONG ==> forall v: nat | minVersion <= v <= maxVersion :: !Fits(segs, v, requested)
    ensures status == OK <==> q != null
    ensures status != LENGTH_ERROR
    ensures status == OK ==>
              && fresh(q) && MIN_VERSION <= q.version <= MAX_VERSION
              && SmallestVersion(segs, requested, minVersion, maxVersion, q.version)
              && ChosenLevel(segs, q.version, requested, boostEcl, q.ecl)
              && Encodes(segs, q.version, q.ecl, q.mask, q.modules)
              && (mask >= 0 ==> q.mask == mask)
              && (mask == -1 ==> EncodesBest(segs, q.version, q.ecl, q.mask))
  {
    hide NumDataCodewords, CountsFit, TotalBits, StreamBits, Terminated, PadBytes, Packed, SymbolGrid, LeastPenalty;
    if !(MIN_VERSION <= minVersion <= maxVersion <= MAX_VERSION) || mask < -1 || mask > 7 {
      return INVALID_ARGUMENT, null;
    }
    var found, dataUsedBits := FindVersion(segs, requested, minVersion, maxVersion);
    if found.None? {
      return DATA_TOO_LONG, null;
    }
    var version := found.value;
    assert dataUsedBits != -1;
    var ecl := BoostLevel(segs, version, requested, boostEcl, dataUsedBits);
    var bb := new BitBuffer();
    AppendSegments(bb, segs, version);
    StreamLength(segs, version);
    assert |bb.bits| == dataUsedBits;
    CapacityGood(version, ecl);
    var dataCapacityBits := NumDataCodewords(version, ecl) * 8;
    assert |bb.bits| <= dataCapacityBits;
    AppendTerminator(bb, dataCapacityBits);
    AppendPadBytes(bb, dataCapacityBits);
    var dataCodewords := PackBits(bb.bits);
    assert dataCodewords == DataCodewords(segs, version, ecl);
    q := new QrCode(version, ecl, dataCodewords, mask);
    status := OK;
  }
}
