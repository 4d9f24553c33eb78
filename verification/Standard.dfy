/** Figures printed in ISO/IEC 18004:2015 that the encoder's own formulas and tables must reproduce. */
module Standard {
  import opened Galois
  import opened Wrappers
  import opened Bits
  import opened Interleave
  import opened Segments
  import opened Stream
  import opened Zigzag
  import opened Patterns
  import opened Capacity
  import opened Symbol
  import opened Encode

  // ----- segment headers -----

  /** Versions 1 to 9, 10 to 26 and 27 to 40 each share one width of the count field per mode (Table 3). */
  lemma CountWidths(ver: nat)
    requires MIN_VERSION <= ver <= MAX_VERSION
    ensures NumCharCountBits(NUMERIC, ver) == if ver <= 9 then 10 else if ver <= 26 then 12 else 14
    ensures NumCharCountBits(ALPHANUMERIC, ver) == if ver <= 9 then 9 else if ver <= 26 then 11 else 13
    ensures NumCharCountBits(BYTE, ver) == if ver <= 9 then 8 else 16
    ensures NumCharCountBits(KANJI, ver) == if ver <= 9 then 8 else if ver <= 26 then 10 else 12
    ensures NumCharCountBits(ECI, ver) == 0
  {
  }

  lemma ModeIndicators()
    ensures ToBits(ModeBits(NUMERIC), 4) == [false, false, false, true]
    ensures ToBits(ModeBits(ALPHANUMERIC), 4) == [false, false, true, false]
    ensures ToBits(ModeBits(BYTE), 4) == [false, true, false, false]
    ensures ToBits(ModeBits(KANJI), 4) == [true, false, false, false]
    ensures ToBits(ModeBits(ECI), 4) == [false, true, true, true]
  {
  }

  /** The first four bits of a segment name its mode (Table 2). */
  lemma SegmentHeader(s: Segment, ver: nat)
    ensures |SegmentBits(s, ver)| >= 4
    ensures SegmentBits(s, ver)[..4] ==
            match s.mode
            case NUMERIC => [false, false, false, true]
            case ALPHANUMERIC => [false, false, true, false]
            case BYTE => [false, true, false, false]
            case KANJI => [true, false, false, false]
            case ECI => [false, true, true, true]
  {
    hide ToBits, ModeBits, NumCharCountBits;
    ModeIndicators();
    assert |ToBits(ModeBits(s.mode), 4)| == 4;
  }

  // ----- how much text a symbol holds -----

  lemma OneSegment(s: Segment, ver: nat, ecl: Ecc)
    ensures Fits([s], ver, ecl) <==>
            var len := 4 + NumCharCountBits(s.mode, ver) + |s.data|;
            s.numChars < Pow2(NumCharCountBits(s.mode, ver)) && len <= INT_MAX && len <= CapacityBits(ver, ecl)
  {
    hide NumCharCountBits, Pow2, CapacityBits;
    assert s in [s];
    assert [s][..0] == [];
    assert TotalBits([s], ver) == SegmentLen(s, ver);
  }

  lemma FieldRanges()
    ensures Pow2(0) == 1 && Pow2(8) == 256 && Pow2(9) == 512 && Pow2(10) == 1024 && Pow2(11) == 2048
    ensures Pow2(12) == 4096 && Pow2(13) == 8192 && Pow2(14) == 16384 && Pow2(16) == 65536
  {
    SmallPowers();
    assert Pow2(9) == 2 * Pow2(8);
    assert Pow2(12) == 2 * Pow2(11);
    assert Pow2(13) == 2 * Pow2(12);
    assert Pow2(16) == 2 * Pow2(15) && Pow2(15) == 2 * Pow2(14);
  }

  lemma SomeCapacities()
    ensures CapacityBits(1, LOW) == 152 && CapacityBits(9, LOW) == 1856 && CapacityBits(10, LOW) == 2192
    ensures CapacityBits(26, LOW) == 10960 && CapacityBits(27, LOW) == 11744 && CapacityBits(40, LOW) == 23648
  {
    hide RawCodewords;
    RawTable();
  }

  /** The segment fits version ver at level LOW exactly when it has no more than the given characters. */
  ghost predicate HoldsUpTo(s: Segment, ver: nat, most: nat) {
    Fits([s], ver, LOW) <==> s.numChars <= most
  }

  lemma DigitsHeld(s: Segment)
    requires s.mode == NUMERIC
    requires var n := s.numChars;
             |s.data| == 10 * (n / 3) + (if n % 3 == 0 then 0 else if n % 3 == 1 then 4 else 7)
    ensures HoldsUpTo(s, 1, 41) && HoldsUpTo(s, 9, 552) && HoldsUpTo(s, 10, 652)
    ensures HoldsUpTo(s, 26, 3283) && HoldsUpTo(s, 27, 3517) && HoldsUpTo(s, 40, 7089)
  {
    hide Fits, CapacityBits, NumCharCountBits, Pow2;
    FieldRanges();
    SomeCapacities();
    OneSegment(s, 1, LOW); OneSegment(s, 9, LOW); OneSegment(s, 10, LOW);
    OneSegment(s, 26, LOW); OneSegment(s, 27, LOW); OneSegment(s, 40, LOW);
    CountWidths(1); CountWidths(9); CountWidths(10); CountWidths(26); CountWidths(27); CountWidths(40);
  }

  lemma PairsHeld(s: Segment)
    requires s.mode == ALPHANUMERIC
    requires |s.data| == 11 * (s.numChars / 2) + 6 * (s.numChars % 2)
    ensures HoldsUpTo(s, 1, 25) && HoldsUpTo(s, 9, 335) && HoldsUpTo(s, 10, 395)
    ensures HoldsUpTo(s, 26, 1990) && HoldsUpTo(s, 27, 2132) && HoldsUpTo(s, 40, 4296)
  {
    hide Fits, CapacityBits, NumCharCountBits, Pow2;
    FieldRanges();
    SomeCapacities();
    OneSegment(s, 1, LOW); OneSegment(s, 9, LOW); OneSegment(s, 10, LOW);
    OneSegment(s, 26, LOW); OneSegment(s, 27, LOW); OneSegment(s, 40, LOW);
    CountWidths(1); CountWidths(9); CountWidths(10); CountWidths(26); CountWidths(27); CountWidths(40);
  }

  lemma BytesHeld(s: Segment)
    requires s.mode == BYTE
    requires |s.data| == 8 * s.numChars
    ensures HoldsUpTo(s, 1, 17) && HoldsUpTo(s, 9, 230) && HoldsUpTo(s, 10, 271)
    ensures HoldsUpTo(s, 26, 1367) && HoldsUpTo(s, 27, 1465) && HoldsUpTo(s, 40, 2953)
  {
    hide Fits, CapacityBits, NumCharCountBits, Pow2;
    FieldRanges();
    SomeCapacities();
    OneSegment(s, 1, LOW); OneSegment(s, 9, LOW); OneSegment(s, 10, LOW);
    OneSegment(s, 26, LOW); OneSegment(s, 27, LOW); OneSegment(s, 40, LOW);
    CountWidths(1); CountWidths(9); CountWidths(10); CountWidths(26); CountWidths(27); CountWidths(40);
  }

  /** Kanji segments, which the encoder accepts from its caller: 13 bits a character. */
  lemma KanjiHeld(s: Segment)
    requires s.mode == KANJI
    requires |s.data| == 13 * s.numChars
    ensures HoldsUpTo(s, 1, 10) && HoldsUpTo(s, 9, 141) && HoldsUpTo(s, 10, 167)
    ensures HoldsUpTo(s, 26, 842) && HoldsUpTo(s, 27, 902) && HoldsUpTo(s, 40, 1817)
  {
    hide Fits, CapacityBits, NumCharCountBits, Pow2;
    FieldRanges();
    SomeCapacities();
    OneSegment(s, 1, LOW); OneSegment(s, 9, LOW); OneSegment(s, 10, LOW);
    OneSegment(s, 26, LOW); OneSegment(s, 27, LOW); OneSegment(s, 40, LOW);
    CountWidths(1); CountWidths(9); CountWidths(10); CountWidths(26); CountWidths(27); CountWidths(40);
  }

  /** How many digits, alphanumeric characters and bytes one segment brings into a symbol at level LOW (Table 7). */
  lemma TextCapacity(text: string, data: seq<Byte>)
    ensures var s := Segment(NUMERIC, |text|, GroupBits(DIGITS, Values(DIGITS, text)));
            && HoldsUpTo(s, 1, 41) && HoldsUpTo(s, 9, 552) && HoldsUpTo(s, 10, 652)
            && HoldsUpTo(s, 26, 3283) && HoldsUpTo(s, 27, 3517) && HoldsUpTo(s, 40, 7089)
    ensures var s := Segment(ALPHANUMERIC, |text|, GroupBits(PAIRS, Values(PAIRS, text)));
            && HoldsUpTo(s, 1, 25) && HoldsUpTo(s, 9, 335) && HoldsUpTo(s, 10, 395)
            && HoldsUpTo(s, 26, 1990) && HoldsUpTo(s, 27, 2132) && HoldsUpTo(s, 40, 4296)
    ensures var s := Segment(BYTE, |data|, CodewordBits(data));
            && HoldsUpTo(s, 1, 17) && HoldsUpTo(s, 9, 230) && HoldsUpTo(s, 10, 271)
            && HoldsUpTo(s, 26, 1367) && HoldsUpTo(s, 27, 1465) && HoldsUpTo(s, 40, 2953)
  {
    hide HoldsUpTo, GroupBits, Values, CodewordBits;
    GroupLength(DIGITS, Values(DIGITS, text));
    GroupLength(PAIRS, Values(PAIRS, text));
    DigitsHeld(Segment(NUMERIC, |text|, GroupBits(DIGITS, Values(DIGITS, text))));
    PairsHeld(Segment(ALPHANUMERIC, |text|, GroupBits(PAIRS, Values(PAIRS, text))));
    BytesHeld(Segment(BYTE, |data|, CodewordBits(data)));
  }

  /** An assignment number takes one, two or three bytes after its four-bit header, and no count. */
  lemma EciLength(v: nat, ver: nat)
    ensures TotalBits([Segment(ECI, 0, EciBits(v))], ver) == if v < 128 then 12 else if v < 16384 then 20 else 28
  {
    hide ToBits;
    var s := Segment(ECI, 0, EciBits(v));
    assert [s][..0] == [];
    assert TotalBits([s], ver) == SegmentLen(s, ver);
  }

  // ----- the alphanumeric characters -----

  /** The character of each value (Table 5): the digits, the letters, and nine others. */
  function CharOf(v: nat): char
    requires v < 45
  {
    if v < 10 then ('0' as int + v) as char
    else if v < 36 then ('A' as int + v - 10) as char
    else match v
         case 36 => ' ' case 37 => '$' case 38 => '%' case 39 => '*' case 40 => '+'
         case 41 => '-' case 42 => '.' case 43 => '/' case _ => ':'
  }

  lemma CharsetDigits(v: nat)
    requires v < 10
    ensures |CHARSET| == 45 && CHARSET[v] == CharOf(v)
  {
    assert v == 0 || v == 1 || v == 2 || v == 3 || v == 4 || v == 5 || v == 6 || v == 7 || v == 8 || v == 9;
  }

  lemma CharsetLetters(v: nat)
    requires 10 <= v < 36
    ensures |CHARSET| == 45 && CHARSET[v] == CharOf(v)
  {
    if v < 23 {
      assert v == 10 || v == 11 || v == 12 || v == 13 || v == 14 || v == 15 || v == 16 || v == 17 || v == 18 ||
             v == 19 || v == 20 || v == 21 || v == 22;
    } else {
      assert v == 23 || v == 24 || v == 25 || v == 26 || v == 27 || v == 28 || v == 29 || v == 30 || v == 31 ||
             v == 32 || v == 33 || v == 34 || v == 35;
    }
  }

  lemma CharsetOthers(v: nat)
    requires 36 <= v < 45
    ensures |CHARSET| == 45 && CHARSET[v] == CharOf(v)
  {
    assert v == 36 || v == 37 || v == 38 || v == 39 || v == 40 || v == 41 || v == 42 || v == 43 || v == 44;
  }

  lemma CharsetAt(v: nat)
    requires v < 45
    ensures |CHARSET| == 45 && CHARSET[v] == CharOf(v)
  {
    hide CHARSET, CharOf;
    if v < 10 { CharsetDigits(v); } else if v < 36 { CharsetLetters(v); } else { CharsetOthers(v); }
  }

  lemma {:induction false} CharIndexComplete(c: char, n: nat, k: nat)
    requires k < n <= |CHARSET| && CHARSET[k] == c
    ensures CharIndex(c, n).Some?
  {
    hide CHARSET;
    if k < n - 1 { CharIndexComplete(c, n - 1, k); }
  }

  lemma CharOfDistinct(v: nat, w: nat)
    requires v < 45 && w < 45 && CharOf(v) == CharOf(w)
    ensures v == w
  {
  }

  /** A character has value v exactly when it is the character of v. */
  lemma CharValueExactly(c: char, v: nat)
    ensures CharValue(PAIRS, c) == Some(v) <==> v < 45 && c == CharOf(v)
  {
    hide CHARSET, CharIndex, CharOf;
    CharsetSize();
    CharIndexMeaning(c, |CHARSET|);
    if CharValue(PAIRS, c).Some? { CharsetAt(CharValue(PAIRS, c).value); }
    if v < 45 && c == CharOf(v) {
      CharsetAt(v);
      CharIndexComplete(c, |CHARSET|, v);
      CharOfDistinct(v, CharValue(PAIRS, c).value);
    }
  }

  // ----- packing, terminator and padding -----

  lemma FullGroup(p: Packing, ds: seq<nat>)
    requires |ds| >= p.Group()
    ensures GroupBits(p, ds) == ToBits(FromDigits(p, ds[..p.Group()]), p.Full()) + GroupBits(p, ds[p.Group()..])
  {
    hide ToBits, FromDigits;
  }

  lemma LastGroup(p: Packing, ds: seq<nat>)
    requires |ds| < p.Group()
    ensures GroupBits(p, ds) == if ds == [] then [] else ToBits(FromDigits(p, ds), p.Part(|ds|))
  {
    hide ToBits, FromDigits;
  }

  lemma FromFew(p: Packing, ds: seq<nat>)
    ensures |ds| >= 1 ==> FromDigits(p, ds[..1]) == ds[0]
    ensures |ds| >= 2 ==> FromDigits(p, ds[..2]) == if p.DIGITS? then 10 * ds[0] + ds[1] else 45 * ds[0] + ds[1]
    ensures |ds| >= 3 && p.DIGITS? ==> FromDigits(p, ds[..3]) == 100 * ds[0] + 10 * ds[1] + ds[2]
    ensures |ds| == 1 ==> ds[..1] == ds
    ensures |ds| == 2 ==> ds[..2] == ds
  {
    hide FromDigits;
    if |ds| >= 1 { FromDigitsStep(p, [], ds[0]); assert [] + [ds[0]] == ds[..1]; }
    if |ds| >= 2 { FromDigitsStep(p, ds[..1], ds[1]); assert ds[..1] + [ds[1]] == ds[..2]; }
    if |ds| >= 3 { FromDigitsStep(p, ds[..2], ds[2]); assert ds[..2] + [ds[2]] == ds[..3]; }
  }

  /** Three digits make a number of ten bits, two left over one of seven, one left over one of four (7.4.3). */
  lemma DigitGroups(ds: seq<nat>)
    ensures |ds| >= 3 ==>
            GroupBits(DIGITS, ds) == ToBits(100 * ds[0] + 10 * ds[1] + ds[2], 10) + GroupBits(DIGITS, ds[3..])
    ensures |ds| == 2 ==> GroupBits(DIGITS, ds) == ToBits(10 * ds[0] + ds[1], 7)
    ensures |ds| == 1 ==> GroupBits(DIGITS, ds) == ToBits(ds[0], 4)
    ensures |ds| == 0 ==> GroupBits(DIGITS, ds) == []
  {
    hide ToBits, FromDigits, GroupBits;
    FromFew(DIGITS, ds);
    if |ds| >= 3 { FullGroup(DIGITS, ds); } else { LastGroup(DIGITS, ds); }
  }

  /** Two characters make a number of eleven bits, one left over a number of six (7.4.4). */
  lemma PairGroups(ds: seq<nat>)
    ensures |ds| >= 2 ==> GroupBits(PAIRS, ds) == ToBits(45 * ds[0] + ds[1], 11) + GroupBits(PAIRS, ds[2..])
    ensures |ds| == 1 ==> GroupBits(PAIRS, ds) == ToBits(ds[0], 6)
    ensures |ds| == 0 ==> GroupBits(PAIRS, ds) == []
  {
    hide ToBits, FromDigits, GroupBits;
    FromFew(PAIRS, ds);
    if |ds| >= 2 { FullGroup(PAIRS, ds); } else { LastGroup(PAIRS, ds); }
  }

  lemma LastBit(v: nat, n: nat, b: bool)
    ensures ToBits(if b then 2 * v + 1 else 2 * v, n + 1) == ToBits(v, n) + [b]
  {
  }

  lemma PadWords()
    ensures ToBits(0xEC, 8) == [true, true, true, false, true, true, false, false]
    ensures ToBits(0x11, 8) == [false, false, false, true, false, false, false, true]
  {
    hide ToBits;
    LastBit(0x76, 7, false); LastBit(0x3B, 6, false); LastBit(0x1D, 5, true); LastBit(0xE, 4, true);
    LastBit(7, 3, false); LastBit(3, 2, true); LastBit(1, 1, true); LastBit(0, 0, true);
    LastBit(8, 7, true); LastBit(4, 6, false); LastBit(2, 5, false); LastBit(1, 4, false); LastBit(0, 3, true);
    LastBit(0, 2, false); LastBit(0, 1, false); LastBit(0, 0, false);
    NoBits(0);
  }

  lemma {:induction false} PadFrom(n: nat, byte: nat, k: nat)
    requires k < n && (byte == 0xEC || byte == 0x11)
    ensures PadBytes(n, byte)[8 * k..8 * k + 8] == ToBits(if (k % 2 == 0) == (byte == 0xEC) then 0xEC else 0x11, 8)
  {
    hide ToBits;
    var next := if byte == 0xEC then 0x11 else 0xEC;
    var rest := PadBytes(n - 1, next);
    assert PadBytes(n, byte) == ToBits(byte, 8) + rest;
    if k > 0 {
      PadFrom(n - 1, next, k - 1);
      assert (ToBits(byte, 8) + rest)[8 * k..8 * k + 8] == rest[8 * (k - 1)..8 * (k - 1) + 8];
    }
  }

  /** The padding bytes are 11101100 and 00010001 in turn (7.4.10). */
  lemma PadPattern(n: nat, k: nat)
    requires k < n
    ensures PadBytes(n, 0xEC)[8 * k..8 * k + 8] ==
            if k % 2 == 0 then [true, true, true, false, true, true, false, false]
            else [false, false, false, true, false, false, false, true]
  {
    hide ToBits, PadBytes;
    PadWords();
    PadFrom(n, 0xEC, k);
  }

  lemma AllZero(n: nat)
    ensures forall i | 0 <= i < n :: !ZeroBits(n)[i]
  {
    hide ToBits, Shr;
    forall i | 0 <= i < n ensures !ZeroBits(n)[i] {
      ToBitsAt(0, n, i);
      ShrZero(0, n - 1 - i);
      assert Shr(0, n - 1 - i) == 0;
    }
  }

  /** The terminator adds four zeros, or what room is left, and then zeros up to a whole byte (7.4.9 and 7.4.10). */
  lemma TerminatorZeros(bits: seq<bool>, capacity: nat)
    requires |bits| <= capacity && capacity % 8 == 0
    ensures var t := Terminated(bits, capacity);
            && |t| == (if |bits| + 4 <= capacity then (|bits| + 11) / 8 * 8 else capacity)
            && bits <= t
            && forall i | |bits| <= i < |t| :: !t[i]
  {
    hide ToBits;
    var room := capacity - |bits|;
    var n := if room < 4 then room else 4;
    AllZero(n);
    AllZero(Align(|bits| + n));
  }

  // ----- data codewords -----

  /** The number of data codewords at the four levels. */
  predicate DataRow(ver: nat, low: nat, medium: nat, quartile: nat, high: nat) {
    && NumDataCodewords(ver, LOW) == low && NumDataCodewords(ver, MEDIUM) == medium
    && NumDataCodewords(ver, QUARTILE) == quartile && NumDataCodewords(ver, HIGH) == high
  }

  /** The number of data codewords of every version and level (Table 7). */
  lemma DataRows1To5()
    ensures DataRow(1, 19, 16, 13, 9) && DataRow(2, 34, 28, 22, 16)
    ensures DataRow(3, 55, 44, 34, 26) && DataRow(4, 80, 64, 48, 36)
    ensures DataRow(5, 108, 86, 62, 46)
  {
    hide RawCodewords;
    RawTable();
  }

  lemma DataRows6To10()
    ensures DataRow(6, 136, 108, 76, 60) && DataRow(7, 156, 124, 88, 66)
    ensures DataRow(8, 194, 154, 110, 86) && DataRow(9, 232, 182, 132, 100)
    ensures DataRow(10, 274, 216, 154, 122)
  {
    hide RawCodewords;
    RawTable();
  }

  lemma DataRows11To15()
    ensures DataRow(11, 324, 254, 180, 140) && DataRow(12, 370, 290, 206, 158)
    ensures DataRow(13, 428, 334, 244, 180) && DataRow(14, 461, 365, 261, 197)
    ensures DataRow(15, 523, 415, 295, 223)
  {
    hide RawCodewords;
    RawTable();
  }

  lemma DataRows16To20()
    ensures DataRow(16, 589, 453, 325, 253) && DataRow(17, 647, 507, 367, 283)
    ensures DataRow(18, 721, 563, 397, 313) && DataRow(19, 795, 627, 445, 341)
    ensures DataRow(20, 861, 669, 485, 385)
  {
    hide RawCodewords;
    RawTable();
  }

  lemma DataRows21To25()
    ensures DataRow(21, 932, 714, 512, 406) && DataRow(22, 1006, 782, 568, 442)
    ensures DataRow(23, 1094, 860, 614, 464) && DataRow(24, 1174, 914, 664, 514)
    ensures DataRow(25, 1276, 1000, 718, 538)
  {
    hide RawCodewords;
    RawTable();
  }

  lemma DataRows26To30()
    ensures DataRow(26, 1370, 1062, 754, 596) && DataRow(27, 1468, 1128, 808, 628)
    ensures DataRow(28, 1531, 1193, 871, 661) && DataRow(29, 1631, 1267, 911, 701)
    ensures DataRow(30, 1735, 1373, 985, 745)
  {
    hide RawCodewords;
    RawTable();
  }

  lemma DataRows31To35()
    ensures DataRow(31, 1843, 1455, 1033, 793) && DataRow(32, 1955, 1541, 1115, 845)
    ensures DataRow(33, 2071, 1631, 1171, 901) && DataRow(34, 2191, 1725, 1231, 961)
    ensures DataRow(35, 2306, 1812, 1286, 986)
  {
    hide RawCodewords;
    RawTable();
  }

  lemma DataRows36To40()
    ensures DataRow(36, 2434, 1914, 1354, 1054) && DataRow(37, 2566, 1992, 1426, 1096)
    ensures DataRow(38, 2702, 2102, 1502, 1142) && DataRow(39, 2812, 2216, 1582, 1222)
    ensures DataRow(40, 2956, 2334, 1666, 1276)
  {
    hide RawCodewords;
    RawTable();
  }

  // ----- format and version information -----

  /** The product of two polynomials over the field of two elements, given by their bits. */
  function Carryless(q: nat, g: nat): nat {
    if q == 0 then 0 else Xor(2 * Carryless(q / 2, g), q % 2 * g)
  }

  lemma CarrylessStep(q: nat, t: nat, g: nat)
    requires t < 2
    ensures Carryless(2 * q + t, g) == Xor(2 * Carryless(q, g), t * g)
  {
    hide Xor;
    if q == 0 && t == 0 { XorZero(0); }
  }

  /** One step of the division keeps the difference to the shifted data a multiple of the generator. */
  lemma DivisionStep(a: nat, rem: nat, t: nat, g: nat, q: nat)
    requires t < 2 && Xor(a, rem) == Carryless(q, g)
    ensures Xor(2 * a, Xor(2 * rem, t * g)) == Carryless(2 * q + t, g)
  {
    hide Xor, Carryless;
    XorAssoc(2 * a, 2 * rem, t * g);
    XorDouble(a, rem);
    CarrylessStep(q, t, g);
  }

  lemma XorAppend(b: nat, r: nat)
    requires Xor(b, r / 2) == b + r / 2
    ensures Xor(2 * b, r) == 2 * b + r
  {
    hide Xor;
    XorStep(2 * b, r);
  }

  lemma {:induction false} XorShifted(a: nat, r: nat, k: nat)
    requires r < Pow2(k)
    ensures Xor(a * Pow2(k), r) == a * Pow2(k) + r
  {
    hide Xor;
    if k == 0 {
      XorZero(a * Pow2(k));
    } else {
      XorShifted(a, r / 2, k - 1);
      assert a * Pow2(k) == 2 * (a * Pow2(k - 1));
      XorAppend(a * Pow2(k - 1), r);
    }
  }

  lemma NoProduct(g: nat)
    ensures Carryless(0, g) == 0
  {
  }

  lemma {:induction false} FormatDivision(data: nat, n: nat) returns (q: nat)
    requires data < 32
    ensures Xor(data * Pow2(n), FormatRemainder(data, n)) == Carryless(q, 0x537)
  {
    hide Xor, Carryless, FormatRemainder;
    if n == 0 {
      XorSelf(data);
      NoProduct(0x537);
      FormatRemainderStart(data);
      return 0;
    }
    var p := FormatDivision(data, n - 1);
    var rem := FormatRemainder(data, n - 1);
    FormatRemainderBound(data, n - 1);
    FormatRemainderNext(data, n - 1);
    DivisionStep(data * Pow2(n - 1), rem, rem / 512, 0x537, p);
    assert data * Pow2(n) == 2 * (data * Pow2(n - 1));
    return 2 * p + rem / 512;
  }

  /** The five data bits: 01 for level L, 00 for M, 11 for Q, 10 for H, then the mask (Table 12). */
  function LevelAndMask(ecl: Ecc, mask: nat): nat {
    mask + match ecl case LOW => 8 case MEDIUM => 0 case QUARTILE => 24 case HIGH => 16
  }

  /** The format is a word of the (15, 5) code generated by 10100110111, under the fixed pattern (Annex C). */
  lemma FormatWord(ecl: Ecc, mask: nat)
    requires mask < 8
    ensures exists q: nat :: FormatBits(ecl, mask) == Xor(Carryless(q, 0x537), 0x5412)
    ensures Xor(FormatBits(ecl, mask), 0x5412) / 1024 == LevelAndMask(ecl, mask)
  {
    hide Xor, Carryless, FormatRemainder, Pow2;
    var data := FormatLevel(ecl) * 8 + mask;
    var rem := FormatRemainder(data, 10);
    FormatRemainderBound(data, 10);
    TenthPowers();
    XorShifted(data, rem, 10);
    var q := FormatDivision(data, 10);
    XorAssoc(data * 1024 + rem, 0x5412, 0x5412);
    XorSelf(0x5412);
    XorZero(data * 1024 + rem);
  }

  lemma {:induction false} VersionDivision(version: nat, n: nat) returns (q: nat)
    requires version < 64
    ensures Xor(version * Pow2(n), VersionRemainder(version, n)) == Carryless(q, 0x1F25)
  {
    hide Xor, Carryless, VersionRemainder;
    if n == 0 {
      XorSelf(version);
      NoProduct(0x1F25);
      VersionRemainderStart(version);
      return 0;
    }
    var p := VersionDivision(version, n - 1);
    var rem := VersionRemainder(version, n - 1);
    VersionRemainderBound(version, n - 1);
    VersionRemainderNext(version, n - 1);
    DivisionStep(version * Pow2(n - 1), rem, rem / 2048, 0x1F25, p);
    assert version * Pow2(n) == 2 * (version * Pow2(n - 1));
    return 2 * p + rem / 2048;
  }

  /** The version information is a word of the (18, 6) code generated by 1111100100101 (Annex D). */
  lemma VersionWord(version: nat)
    requires version < 64
    ensures exists q: nat :: VersionBits(version) == Carryless(q, 0x1F25)
    ensures VersionBits(version) / 4096 == version
  {
    hide Xor, Carryless, VersionRemainder, Pow2;
    VersionRemainderBound(version, 12);
    TenthPowers();
    XorShifted(version, VersionRemainder(version, 12), 12);
    var q := VersionDivision(version, 12);
  }

  // ----- alignment centres -----

  lemma HalfStep(version: nat, gaps: nat, half: nat)
    requires version >= 2 && version != 32 && gaps == version / 7 + 1
    requires half == (4 * version + 3 + 2 * gaps) / (2 * gaps)
    ensures AlignStep(version) == 2 * half
  {
    assert version * 4 + (version / 7 + 2) * 2 + 1 == 4 * version + 3 + 2 * gaps;
    assert (version / 7 + 2) * 2 - 2 == 2 * gaps;
  }

  lemma RoundedUp(n: nat, d: nat)
    requires d > 0
    ensures var half := (n + d - 1) / d; d * half >= n > d * half - d || n == 0
  {
    var half := (n + d - 1) / d;
    assert n + d - 1 == d * half + (n + d - 1) % d;
  }

  lemma Doubled(gaps: nat, half: nat)
    ensures gaps * (2 * half) == 2 * gaps * half && gaps * (2 * half - 2) == 2 * gaps * half - 2 * gaps
  {
  }

  /** The spacing is the smallest even one whose steps reach from the last centre back to the first (Annex E). */
  lemma SmallestSpacing(version: nat)
    requires version >= 2 && version != 32
    ensures var (gaps, step) := (NumAlign(version) - 1, AlignStep(version));
            && step % 2 == 0
            && SizeOf(version) - 7 - gaps * step <= 6
            && SizeOf(version) - 7 - gaps * (step - 2) > 6
  {
    hide AlignStep;
    var gaps := version / 7 + 1;
    var half := (4 * version + 3 + 2 * gaps) / (2 * gaps);
    HalfStep(version, gaps, half);
    RoundedUp(4 * version + 4, 2 * gaps);
    Doubled(gaps, half);
  }

  /** The centres of version 32, whose spacing is an exception, and of the largest version (Annex E). */
  lemma SomeCentres()
    ensures AlignmentPositions(32) == [6, 34, 60, 86, 112, 138]
    ensures AlignmentPositions(40) == [6, 30, 58, 86, 114, 142, 170]
  {
  }

  // ----- error correction -----

  /** The field: r^i is 2^i up to 128, and r^8 = 00011101, so the field polynomial is 100011101 (7.5.2). */
  lemma FieldPolynomial()
    ensures RootPower(0) == 1 && RootPower(1) == 2 && RootPower(2) == 4 && RootPower(3) == 8
    ensures RootPower(4) == 16 && RootPower(5) == 32 && RootPower(6) == 64 && RootPower(7) == 128
    ensures RootPower(8) == 0x1D
  {
    hide Xor;
    assert RootPower(3) == 8;
    assert RootPower(5) == 32;
    assert RootPower(7) == 128;
    assert Pow2(8) == 256 by { Pow2Seven(); }
    XorShifted(1, 0x1D, 8);
    XorAssoc(256, 256, 0x1D);
    XorSelf(256);
    XorComm(0, 0x1D);
    XorZero(0x1D);
  }

  /** Version 5 at level Q: two blocks of 15 data codewords, then two of 16, each with 18 more (Table 9). */
  lemma Version5Blocks()
    ensures var l := LayoutOf(5, QUARTILE);
            && l.numBlocks == 4 && l.eccLen == 18
            && l.BlockData(0) == 15 && l.BlockData(1) == 15 && l.BlockData(2) == 16 && l.BlockData(3) == 16
            && l.Start(0) == 0 && l.Start(1) == 15 && l.Start(2) == 30 && l.Start(3) == 46
  {
    hide RawCodewords;
    RawTable();
  }
}
