/** The bit stream of a segment list: headers, terminator and padding, and the parser that reads it back. */
module Stream {
  import opened Galois
  import opened Wrappers
  import opened Bits
  import opened Segments

  // ----- measuring -----

  /** Every character count fits its field. */
  ghost predicate CountsFit(segs: seq<Segment>, ver: nat) {
    forall s | s in segs :: s.numChars < Pow2(NumCharCountBits(s.mode, ver))
  }

  function SegmentLen(s: Segment, ver: nat): nat {
    4 + NumCharCountBits(s.mode, ver) + |s.data|
  }

  function TotalBits(segs: seq<Segment>, ver: nat): nat {
    if segs == [] then 0 else TotalBits(segs[..|segs| - 1], ver) + SegmentLen(segs[|segs| - 1], ver)
  }

  lemma {:induction false} TotalMonotone(segs: seq<Segment>, ver: nat, n: nat)
    requires n <= |segs|
    ensures TotalBits(segs[..n], ver) <= TotalBits(segs, ver)
  {
    if n == |segs| {
      assert segs[..n] == segs;
    } else {
      TotalMonotone(segs[..|segs| - 1], ver, n);
      assert segs[..|segs| - 1][..n] == segs[..n];
    }
  }

  lemma CountBitsSmall(mode: Mode, ver: nat)
    ensures NumCharCountBits(mode, ver) <= 16
  {
  }

  /** The length of the stream, or -1 when a count does not fit or the length overflows an int. */
  method GetTotalBits(segs: seq<Segment>, version: nat) returns (result: int)
    ensures var total := TotalBits(segs, version);
            result == if CountsFit(segs, version) && total <= 0x7FFF_FFFF then total else -1
  {
    hide NumCharCountBits, Pow2;
    result := 0;
    for i := 0 to |segs|
      invariant CountsFit(segs[..i], version)
      invariant result == TotalBits(segs[..i], version) <= INT_MAX
    {
      var seg := segs[i];
      var ccbits := NumCharCountBits(seg.mode, version);
      CountBitsSmall(seg.mode, version);
      assert segs[..i + 1][..i] == segs[..i];
      TotalMonotone(segs, version, i + 1);
      if seg.numChars >= Pow2(ccbits) {
        assert seg in segs;
        return -1;
      }
      if 4 + ccbits > INT_MAX - result {
        return -1;
      }
      result := result + 4 + ccbits;
      if |seg.data| > INT_MAX - result {
        return -1;
      }
      result := result + |seg.data|;
    }
    assert segs[..|segs|] == segs;
  }

  // ----- writing -----

  function SegmentBits(s: Segment, ver: nat): (bits: seq<bool>)
    ensures |bits| == SegmentLen(s, ver)
  {
    ToBits(ModeBits(s.mode), 4) + ToBits(s.numChars, NumCharCountBits(s.mode, ver)) + s.data
  }

  function StreamBits(segs: seq<Segment>, ver: nat): seq<bool> {
    if segs == [] then [] else SegmentBits(segs[0], ver) + StreamBits(segs[1..], ver)
  }

  lemma {:induction false} StreamAppend(segs: seq<Segment>, s: Segment, ver: nat)
    ensures StreamBits(segs + [s], ver) == StreamBits(segs, ver) + SegmentBits(s, ver)
  {
    hide SegmentBits;
    if segs == [] {
      assert segs + [s] == [s];
      assert StreamBits([s][1..], ver) == [];
    } else {
      assert (segs + [s])[1..] == segs[1..] + [s];
      StreamAppend(segs[1..], s, ver);
    }
  }

  lemma {:induction false} StreamLength(segs: seq<Segment>, ver: nat)
    ensures |StreamBits(segs, ver)| == TotalBits(segs, ver)
  {
    hide SegmentBits;
    if segs != [] {
      var (init, last) := (segs[..|segs| - 1], segs[|segs| - 1]);
      StreamLength(init, ver);
      StreamAppend(init, last, ver);
      assert segs == init + [last];
    }
  }

  function ZeroBits(n: nat): (s: seq<bool>)
    ensures |s| == n
  {
    ToBits(0, n)
  }

  /** n padding bytes, alternating from the given one between 0xEC and 0x11. */
  function PadBytes(n: nat, byte: nat): (s: seq<bool>)
    ensures |s| == 8 * n
  {
    if n == 0 then [] else ToBits(byte, 8) + PadBytes(n - 1, if byte == 0xEC then 0x11 else 0xEC)
  }

  /** The number of bits to the next byte boundary. */
  function Align(n: nat): (k: nat)
    ensures k < 8 && (n + k) % 8 == 0
  {
    (8 - n % 8) % 8
  }

  /** The terminator: up to four zero bits, then zeros to the next byte. */
  function Terminated(bits: seq<bool>, capacity: nat): (s: seq<bool>)
    requires |bits| <= capacity && capacity % 8 == 0
    ensures |s| <= capacity && |s| % 8 == 0
  {
    var room := capacity - |bits|;
    var t := bits + ZeroBits(if room < 4 then room else 4);
    t + ZeroBits(Align(|t|))
  }

  function PaddedBits(bits: seq<bool>, capacity: nat): (s: seq<bool>)
    requires |bits| <= capacity && capacity % 8 == 0
    ensures |s| == capacity
  {
    var t := Terminated(bits, capacity);
    WholeBytes(capacity, |t|);
    t + PadBytes((capacity - |t|) / 8, 0xEC)
  }

  lemma WholeBytes(capacity: nat, n: nat)
    requires n <= capacity && capacity % 8 == 0 && n % 8 == 0
    ensures n + 8 * ((capacity - n) / 8) == capacity
  {
  }

  // ----- reading -----

  function ModeOf(m: nat): Option<Mode> {
    if m == 1 then Some(NUMERIC)
    else if m == 2 then Some(ALPHANUMERIC)
    else if m == 4 then Some(BYTE)
    else if m == 8 then Some(KANJI)
    else if m == 7 then Some(ECI)
    else None
  }

  /** The payload length a reader computes from the mode, the count and, for an ECI, the leading bits. */
  function PayloadLen(mode: Mode, n: nat, rest: seq<bool>): Option<nat> {
    match mode
    case NUMERIC => Some(GroupLen(DIGITS, n))
    case ALPHANUMERIC => Some(GroupLen(PAIRS, n))
    case BYTE => Some(8 * n)
    case KANJI => Some(13 * n)
    case ECI => EciLen(rest)
  }

  /** A segment whose payload has the length its header announces. */
  predicate WellFormed(s: Segment) {
    PayloadLen(s.mode, s.numChars, s.data) == Some(|s.data|)
  }

  /** The reader: segments up to the terminator or until fewer than four bits are left. */
  function Parse(bits: seq<bool>, ver: nat): Option<seq<Segment>>
    decreases |bits|
  {
    if |bits| < 4 || FromBits(bits[..4]) == 0 then Some([]) else
      var mode := ModeOf(FromBits(bits[..4]));
      if mode.None? then None else
      var cc := NumCharCountBits(mode.value, ver);
      if |bits| < 4 + cc then None else
      var (n, rest) := (FromBits(bits[4..4 + cc]), bits[4 + cc..]);
      var len := PayloadLen(mode.value, n, rest);
      if len.None? || len.value > |rest| then None else
      var tail := Parse(rest[len.value..], ver);
      if tail.None? then None else Some([Segment(mode.value, n, rest[..len.value])] + tail.value)
  }

  lemma ModeRoundTrip(mode: Mode)
    ensures FromBits(ToBits(ModeBits(mode), 4)) == ModeBits(mode) != 0 && ModeOf(ModeBits(mode)) == Some(mode)
  {
    hide ToBits, FromBits, Pow2;
    SmallPowers();
    FromToBits(ModeBits(mode), 4);
  }

  lemma PayloadPrefix(s: Segment, tail: seq<bool>)
    requires WellFormed(s)
    ensures PayloadLen(s.mode, s.numChars, s.data + tail) == Some(|s.data|)
  {
    hide GroupLen;
  }

  /** The reader takes one segment off the stream. */
  lemma ParseSegment(s: Segment, tail: seq<bool>, ver: nat)
    requires WellFormed(s) && s.numChars < Pow2(NumCharCountBits(s.mode, ver))
    ensures Parse(SegmentBits(s, ver) + tail, ver) ==
            var t := Parse(tail, ver); if t.None? then None else Some([s] + t.value)
  {
    hide ToBits, FromBits, Pow2, NumCharCountBits, PayloadLen, ModeOf, ModeBits;
    var cc := NumCharCountBits(s.mode, ver);
    var bits := SegmentBits(s, ver) + tail;
    ModeRoundTrip(s.mode);
    FromToBits(s.numChars, cc);
    PayloadPrefix(s, tail);
    assert bits[..4] == ToBits(ModeBits(s.mode), 4);
    assert bits[4..4 + cc] == ToBits(s.numChars, cc);
    var rest := bits[4 + cc..];
    assert rest == s.data + tail;
    assert rest[..|s.data|] == s.data && rest[|s.data|..] == tail;
  }

  lemma {:induction false} ParseStream(segs: seq<Segment>, tail: seq<bool>, ver: nat)
    requires (forall s | s in segs :: WellFormed(s)) && CountsFit(segs, ver)
    ensures Parse(StreamBits(segs, ver) + tail, ver) ==
            var t := Parse(tail, ver); if t.None? then None else Some(segs + t.value)
  {
    hide Parse, SegmentBits, WellFormed, Pow2;
    if segs == [] {
      assert StreamBits(segs, ver) + tail == tail;
      if Parse(tail, ver).Some? { assert segs + Parse(tail, ver).value == Parse(tail, ver).value; }
    } else {
      var rest := StreamBits(segs[1..], ver) + tail;
      assert StreamBits(segs, ver) + tail == SegmentBits(segs[0], ver) + rest;
      assert segs == [segs[0]] + segs[1..];
      ParseSegment(segs[0], rest, ver);
      ParseStream(segs[1..], tail, ver);
      if Parse(tail, ver).Some? {
        assert [segs[0]] + (segs[1..] + Parse(tail, ver).value) == segs + Parse(tail, ver).value;
      }
    }
  }

  lemma ParseEnd(tail: seq<bool>, ver: nat)
    requires |tail| < 4 || tail[..4] == ZeroBits(4)
    ensures Parse(tail, ver) == Some([])
  {
    if |tail| >= 4 {
      assert Pow2(4) > 0;
      FromToBits(0, 4);
    }
  }

  /** Reading the padded stream gives back exactly the segments. */
  lemma PaddedRoundTrip(segs: seq<Segment>, ver: nat, capacity: nat)
    requires (forall s | s in segs :: WellFormed(s)) && CountsFit(segs, ver)
    requires TotalBits(segs, ver) <= capacity && capacity % 8 == 0
    ensures |StreamBits(segs, ver)| == TotalBits(segs, ver)
    ensures Parse(PaddedBits(StreamBits(segs, ver), capacity), ver) == Some(segs)
  {
    hide Parse, StreamBits, WellFormed, Pow2, CountsFit, TotalBits, ZeroBits, PadBytes;
    StreamLength(segs, ver);
    var bits := StreamBits(segs, ver);
    var tail := PaddedBits(bits, capacity)[|bits|..];
    assert PaddedBits(bits, capacity) == bits + tail;
    if capacity - |bits| >= 4 { assert tail[..4] == ZeroBits(4); }
    ParseEnd(tail, ver);
    ParseStream(segs, tail, ver);
    assert segs + [] == segs;
  }

  // ----- text -----

  /** The text a reader shows for one segment; ECI and Kanji payloads are left aside. */
  function TextOf(s: Segment): string
    requires WellFormed(s)
  {
    match s.mode
    case NUMERIC => DecodeText(DIGITS, s.data, s.numChars)
    case ALPHANUMERIC => DecodeText(PAIRS, s.data, s.numChars)
    case BYTE => var bytes := Packed(s.data); seq(|bytes|, i requires 0 <= i < |bytes| => bytes[i] as char)
    case _ => ""
  }

  function DensestMode(text: string): Mode {
    if Encodable(DIGITS, text) then NUMERIC else if Encodable(PAIRS, text) then ALPHANUMERIC else BYTE
  }

  /** Chooses the densest mode for the whole text. The segments are well formed and carry exactly the text. */
  method MakeSegments(text: string) returns (r: Option<seq<Segment>>)
    requires forall c | c in text :: c as int < 256
    ensures |text| <= INT_MAX ==> r.Some?
    ensures r.Some? ==> if text == "" then r.value == [] else
              |r.value| == 1 && WellFormed(r.value[0]) && TextOf(r.value[0]) == text
    ensures r.Some? && text != "" ==> r.value[0].mode == DensestMode(text)
  {
    hide GroupBits, GroupLen, DecodeGroups, DecodeText, CodewordBits, Packed, CharValue;
    if text == "" {
      return Some([]);
    } else if Encodable(DIGITS, text) {
      var s := MakeNumeric(text);
      TextRoundTrip(DIGITS, text);
      return Some([s.value]);
    } else if Encodable(PAIRS, text) {
      var s := MakeAlphanumeric(text);
      TextRoundTrip(PAIRS, text);
      return Some([s.value]);
    } else {
      var bytes: seq<Byte> := [];
      for i := 0 to |text|
        invariant |bytes| == i && forall k | 0 <= k < i :: bytes[k] == text[k] as int
      {
        assert text[i] in text;
        var b: Byte := text[i] as int;
        bytes := bytes + [b];
      }
      var s := MakeBytes(bytes);
      if s.None? {
        return None;
      }
      BytesRoundTrip(bytes);
      return Some([s.value]);
    }
  }
}
