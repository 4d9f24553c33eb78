/** Segments of a QR Code: making them from text, measuring them, and the decoders that undo the making. */
module Segments {
  import opened Galois
  import opened Wrappers
  import opened Bits

  datatype Mode = NUMERIC | ALPHANUMERIC | BYTE | KANJI | ECI

  function ModeBits(mode: Mode): nat {
    match mode
    case NUMERIC => 1
    case ALPHANUMERIC => 2
    case BYTE => 4
    case KANJI => 8
    case ECI => 7
  }

  /** The width of the character count field, by version group. */
  function NumCharCountBits(mode: Mode, ver: nat): nat {
    var group := (ver + 7) / 17;
    match mode
    case NUMERIC => (if group == 0 then 10 else if group == 1 then 12 else 14)
    case ALPHANUMERIC => (if group == 0 then 9 else if group == 1 then 11 else 13)
    case BYTE => (if group == 0 then 8 else 16)
    case KANJI => (if group == 0 then 8 else if group == 1 then 10 else 12)
    case ECI => 0
  }

  datatype Segment = Segment(mode: Mode, numChars: nat, data: seq<bool>)

  lemma SmallPowers()
    ensures Pow2(4) == 16 && Pow2(6) == 64 && Pow2(7) == 128 && Pow2(8) == 256 && Pow2(10) == 1024 && Pow2(11) == 2048
    ensures Pow2(14) == 16384 && Pow2(21) == 2097152
  {
    assert Pow2(4) == 16;
    Pow2Seven();
    assert Pow2(9) == 512;
    assert Pow2(12) == 4096;
    assert Pow2(16) == 65536 by { assert Pow2(14) == 16384; }
    assert Pow2(19) == 524288;
  }

  // ----- numeric and alphanumeric text -----

  /** How characters are grouped: decimal digits by three, the 45 alphanumeric characters by two. */
  datatype Packing = DIGITS | PAIRS {

    function Group(): nat { if DIGITS? then 3 else 2 }

    function Base(): nat { if DIGITS? then 10 else 45 }

    /** The bits of a full group. */
    function Full(): nat { if DIGITS? then 10 else 11 }

    /** The bits of n characters left over at the end. */
    function Part(n: nat): nat { if DIGITS? then n * 3 + 1 else 6 }

    function TextMode(): Mode { if DIGITS? then NUMERIC else ALPHANUMERIC }
  }

  const CHARSET := "0123456789" + "ABCDEFGHIJKLMNOPQRSTUVWXYZ" + " $%*+-./:"

  /** The first position of c in the first n characters of the alphanumeric set. */
  function CharIndex(c: char, n: nat): Option<nat>
    requires n <= |CHARSET|
  {
    if n == 0 then None
    else
      var r := CharIndex(c, n - 1);
      if r.Some? then r else if CHARSET[n - 1] == c then Some(n - 1) else None
  }

  lemma {:induction false} CharIndexMeaning(c: char, n: nat)
    requires n <= |CHARSET|
    ensures CharIndex(c, n).Some? ==> CharIndex(c, n).value < n && CHARSET[CharIndex(c, n).value] == c
  {
    hide CHARSET;
    if n > 0 { CharIndexMeaning(c, n - 1); }
  }

  lemma CharsetSize()
    ensures |CHARSET| == 45
  {
  }

  /** The value of a character, if the packing can encode it. */
  function CharValue(p: Packing, c: char): Option<nat> {
    if p.DIGITS? then
      if '0' <= c <= '9' then Some(c as int - '0' as int) else None
    else CharIndex(c, |CHARSET|)
  }

  /** The character a reader shows for a value. */
  function ValueChar(p: Packing, v: nat): char {
    if p.DIGITS? then
      if v < 10 then ('0' as int + v) as char else '0'
    else if v < |CHARSET| then CHARSET[v] else '0'
  }

  lemma CharRoundTrip(p: Packing, c: char)
    requires CharValue(p, c).Some?
    ensures CharValue(p, c).value < p.Base() && ValueChar(p, CharValue(p, c).value) == c
  {
    hide CharIndex;
    CharsetSize();
    CharIndexMeaning(c, |CHARSET|);
  }

  predicate Encodable(p: Packing, text: string) {
    forall i | 0 <= i < |text| :: CharValue(p, text[i]).Some?
  }

  function Values(p: Packing, text: string): (s: seq<nat>)
    ensures |s| == |text|
  {
    seq(|text|, i requires 0 <= i < |text| => var v := CharValue(p, text[i]); if v.Some? then v.value else 0)
  }

  ghost predicate Below(ds: seq<nat>, base: nat) {
    forall i | 0 <= i < |ds| :: ds[i] < base
  }

  /** The number with the given digits, most significant first. */
  function FromDigits(p: Packing, ds: seq<nat>): nat {
    if ds == [] then 0 else
      var (q, d) := (FromDigits(p, ds[..|ds| - 1]), ds[|ds| - 1]);
      if p.DIGITS? then q * 10 + d else q * 45 + d
  }

  function ToDigits(p: Packing, v: nat, n: nat): (s: seq<nat>)
    ensures |s| == n
  {
    if n == 0 then []
    else if p.DIGITS? then ToDigits(p, v / 10, n - 1) + [v % 10]
    else ToDigits(p, v / 45, n - 1) + [v % 45]
  }

  lemma ToDigitsStep(p: Packing, q: nat, d: nat, n: nat)
    requires d < p.Base()
    ensures ToDigits(p, if p.DIGITS? then q * 10 + d else q * 45 + d, n + 1) == ToDigits(p, q, n) + [d]
  {
    if p.DIGITS? {
      assert (q * 10 + d) / 10 == q && (q * 10 + d) % 10 == d;
    } else {
      assert (q * 45 + d) / 45 == q && (q * 45 + d) % 45 == d;
    }
  }

  lemma FromDigitsStep(p: Packing, ds: seq<nat>, d: nat)
    ensures FromDigits(p, []) == 0
    ensures FromDigits(p, ds + [d]) == var q := FromDigits(p, ds); if p.DIGITS? then q * 10 + d else q * 45 + d
  {
    assert (ds + [d])[..|ds|] == ds;
  }

  lemma {:induction false} DigitsRoundTrip(p: Packing, ds: seq<nat>)
    requires Below(ds, p.Base())
    ensures ToDigits(p, FromDigits(p, ds), |ds|) == ds
  {
    hide FromDigits, ToDigits;
    if ds == [] {
    } else {
      var (init, d) := (ds[..|ds| - 1], ds[|ds| - 1]);
      DigitsRoundTrip(p, init);
      assert ds == init + [d];
      FromDigitsStep(p, init, d);
      ToDigitsStep(p, FromDigits(p, init), d, |init|);
    }
  }

  /** Full groups one after the other, then what is left over. */
  function GroupBits(p: Packing, ds: seq<nat>): seq<bool> {
    if |ds| >= p.Group() then
      ToBits(FromDigits(p, ds[..p.Group()]), p.Full()) + GroupBits(p, ds[p.Group()..])
    else if ds == [] then []
    else ToBits(FromDigits(p, ds), p.Part(|ds|))
  }

  function GroupLen(p: Packing, n: nat): nat {
    n / p.Group() * p.Full() + (if n % p.Group() == 0 then 0 else p.Part(n % p.Group()))
  }

  /** The values a reader recovers from a payload of n characters. */
  function DecodeGroups(p: Packing, bits: seq<bool>, n: nat): seq<nat>
    requires |bits| == GroupLen(p, n)
  {
    if n >= p.Group() then
      ToDigits(p, FromBits(bits[..p.Full()]), p.Group()) + DecodeGroups(p, bits[p.Full()..], n - p.Group())
    else ToDigits(p, FromBits(bits), n)
  }

  lemma {:induction false} GroupLength(p: Packing, ds: seq<nat>)
    ensures |GroupBits(p, ds)| == GroupLen(p, |ds|)
  {
    hide ToBits, FromDigits;
    if |ds| >= p.Group() { GroupLength(p, ds[p.Group()..]); }
  }

  lemma {:induction false} DigitsBound(p: Packing, ds: seq<nat>)
    requires Below(ds, p.Base())
    ensures |ds| == 0 ==> FromDigits(p, ds) == 0
    ensures |ds| == 1 ==> FromDigits(p, ds) < p.Base()
    ensures |ds| == 2 ==> FromDigits(p, ds) < if p.DIGITS? then 100 else 2025
    ensures |ds| == 3 && p.DIGITS? ==> FromDigits(p, ds) < 1000
  {
    if 1 <= |ds| <= 3 { DigitsBound(p, ds[..|ds| - 1]); }
  }

  /** A group always fits its bits. */
  lemma GroupFits(p: Packing, ds: seq<nat>)
    requires Below(ds, p.Base()) && 0 < |ds| <= p.Group()
    ensures FromDigits(p, ds) < Pow2(if |ds| == p.Group() then p.Full() else p.Part(|ds|))
  {
    hide FromDigits, Pow2;
    DigitsBound(p, ds);
    SmallPowers();
  }

  /** Reading a packed payload gives back every character value. */
  lemma {:induction false} GroupsRoundTrip(p: Packing, ds: seq<nat>)
    requires Below(ds, p.Base())
    ensures |GroupBits(p, ds)| == GroupLen(p, |ds|)
    ensures DecodeGroups(p, GroupBits(p, ds), |ds|) == ds
  {
    hide ToBits, FromBits, Pow2, FromDigits, ToDigits;
    GroupLength(p, ds);
    var g := p.Group();
    if |ds| >= g {
      var head := ds[..g];
      GroupsRoundTrip(p, ds[g..]);
      GroupFits(p, head);
      FromToBits(FromDigits(p, head), p.Full());
      DigitsRoundTrip(p, head);
      var bits := GroupBits(p, ds);
      assert bits[..p.Full()] == ToBits(FromDigits(p, head), p.Full());
      assert bits[p.Full()..] == GroupBits(p, ds[g..]);
      assert ds == head + ds[g..];
    } else if ds == [] {
      NoDigits(p);
    } else {
      GroupFits(p, ds);
      FromToBits(FromDigits(p, ds), p.Part(|ds|));
      DigitsRoundTrip(p, ds);
    }
  }

  lemma NoDigits(p: Packing)
    ensures ToDigits(p, FromBits([]), 0) == []
  {
  }

  /** The packing loop has consumed i values; the last count of them are accumulated and not yet appended. */
  ghost predicate Partial(p: Packing, ds: seq<nat>, bits: seq<bool>, i: nat, data: nat, count: nat) {
    && count <= i <= |ds| && count < p.Group() && Below(ds[..i], p.Base())
    && data == FromDigits(p, ds[i - count..i])
    && GroupBits(p, ds) == bits + GroupBits(p, ds[i - count..])
  }

  /** A number is accumulated digit by digit and appended when its group is complete. */
  method PackText(p: Packing, text: string) returns (r: Option<Segment>)
    ensures r.Some? <==> Encodable(p, text)
    ensures r.Some? ==> r.value == Segment(p.TextMode(), |text|, GroupBits(p, Values(p, text)))
  {
    hide *;
    ghost var ds := Values(p, text);
    var bb := new BitBuffer();
    var accumData: nat, accumCount: nat := 0, 0;
    PackStart(p, ds);
    for i := 0 to |text|
      invariant Encodable(p, text[..i]) && Partial(p, ds, bb.bits, i, accumData, accumCount)
    {
      EncodableStep(p, text, i);
      var v := CharValue(p, text[i]);
      if v.None? {
        return None;
      }
      CharRoundTrip(p, text[i]);
      PackNext(p, ds, bb.bits, i, accumData, accumCount);
      accumData := accumData * p.Base() + v.value;
      accumCount := accumCount + 1;
      if accumCount == p.Group() {
        var ok := bb.AppendBits(accumData, p.Full());
        accumData := 0;
        accumCount := 0;
      }
    }
    assert text[..|text|] == text;
    PackEnd(p, ds, bb.bits, accumData, accumCount);
    if accumCount > 0 {
      var ok := bb.AppendBits(accumData, p.Part(accumCount));
    }
    return Some(Segment(p.TextMode(), |text|, bb.bits));
  }

  lemma PackStart(p: Packing, ds: seq<nat>)
    ensures Partial(p, ds, [], 0, 0, 0) && Encodable(p, [])
  {
    assert ds[0..0] == [] && ds[0..] == ds;
  }

  lemma EncodableStep(p: Packing, text: string, i: nat)
    requires i < |text| && Encodable(p, text[..i])
    ensures CharValue(p, text[i]).Some? ==>
            Encodable(p, text[..i + 1]) && Values(p, text)[i] == CharValue(p, text[i]).value
    ensures CharValue(p, text[i]).None? ==> !Encodable(p, text)
    ensures text[..0] == []
  {
    hide CharValue;
  }

  lemma PackNext(p: Packing, ds: seq<nat>, bits: seq<bool>, i: nat, data: nat, count: nat)
    requires i < |ds| && ds[i] < p.Base() && Partial(p, ds, bits, i, data, count)
    ensures var next := data * p.Base() + ds[i];
            if count + 1 == p.Group() then
              next < Pow2(p.Full()) && p.Full() <= 31 && Partial(p, ds, bits + ToBits(next, p.Full()), i + 1, 0, 0)
            else Partial(p, ds, bits, i + 1, next, count + 1)
  {
    hide ToBits, Pow2, GroupBits, FromDigits;
    AccumulateStep(p, ds, i, count);
    if count + 1 == p.Group() { GroupStep(p, ds, i - count); }
  }

  lemma PackEnd(p: Packing, ds: seq<nat>, bits: seq<bool>, data: nat, count: nat)
    requires Partial(p, ds, bits, |ds|, data, count)
    ensures count == 0 ==> bits == GroupBits(p, ds)
    ensures count > 0 ==> data < Pow2(p.Part(count)) && p.Part(count) <= 31
    ensures count > 0 ==> bits + ToBits(data, p.Part(count)) == GroupBits(p, ds)
  {
    hide ToBits, Pow2, GroupBits, FromDigits;
    assert ds[..|ds|] == ds && ds[|ds| - count..|ds|] == ds[|ds| - count..];
    GroupTail(p, ds, |ds| - count);
  }

  lemma AccumulateStep(p: Packing, ds: seq<nat>, i: nat, k: nat)
    requires k <= i < |ds|
    ensures FromDigits(p, ds[i - k..i + 1]) ==
            var q := FromDigits(p, ds[i - k..i]); if p.DIGITS? then q * 10 + ds[i] else q * 45 + ds[i]
  {
    hide FromDigits;
    assert ds[i - k..i + 1] == ds[i - k..i] + [ds[i]];
    FromDigitsStep(p, ds[i - k..i], ds[i]);
  }

  lemma GroupStep(p: Packing, ds: seq<nat>, j: nat)
    requires j + p.Group() <= |ds| && Below(ds[..j + p.Group()], p.Base())
    ensures var g := p.Group();
            && GroupBits(p, ds[j..]) == ToBits(FromDigits(p, ds[j..j + g]), p.Full()) + GroupBits(p, ds[j + g..])
            && FromDigits(p, ds[j..j + g]) < Pow2(p.Full())
            && FromDigits(p, ds[j + g..j + g]) == 0
            && p.Full() <= 31
  {
    hide ToBits, Pow2, FromDigits;
    var g := p.Group();
    var head := ds[j..j + g];
    assert ds[j..][..g] == head && ds[j..][g..] == ds[j + g..];
    GroupFits(p, head);
    FromDigitsStep(p, [], 0);
    assert ds[j + g..j + g] == [];
  }

  lemma GroupTail(p: Packing, ds: seq<nat>, j: nat)
    requires j <= |ds| < j + p.Group() && Below(ds, p.Base())
    ensures var n := |ds| - j;
            && GroupBits(p, ds[j..]) == (if n == 0 then [] else ToBits(FromDigits(p, ds[j..]), p.Part(n)))
            && (n > 0 ==> FromDigits(p, ds[j..]) < Pow2(p.Part(n)) && p.Part(n) <= 31)
  {
    hide ToBits, Pow2, FromDigits;
    if j < |ds| { GroupFits(p, ds[j..]); }
  }

  method MakeNumeric(digits: string) returns (r: Option<Segment>)
    ensures r.Some? <==> Encodable(DIGITS, digits)
    ensures r.Some? ==> r.value == Segment(NUMERIC, |digits|, GroupBits(DIGITS, Values(DIGITS, digits)))
  {
    r := PackText(DIGITS, digits);
  }

  method MakeAlphanumeric(text: string) returns (r: Option<Segment>)
    ensures r.Some? <==> Encodable(PAIRS, text)
    ensures r.Some? ==> r.value == Segment(ALPHANUMERIC, |text|, GroupBits(PAIRS, Values(PAIRS, text)))
  {
    r := PackText(PAIRS, text);
  }

  /** The text a reader recovers from a numeric or alphanumeric payload. */
  function DecodeText(p: Packing, bits: seq<bool>, n: nat): string
    requires |bits| == GroupLen(p, n)
  {
    var vs := DecodeGroups(p, bits, n);
    seq(|vs|, i requires 0 <= i < |vs| => ValueChar(p, vs[i]))
  }

  /** Numeric and alphanumeric segments carry their text without loss. */
  lemma TextRoundTrip(p: Packing, text: string)
    requires Encodable(p, text)
    ensures |GroupBits(p, Values(p, text))| == GroupLen(p, |text|)
    ensures DecodeText(p, GroupBits(p, Values(p, text)), |text|) == text
  {
    hide GroupBits, DecodeGroups, CharValue, ValueChar;
    var vs := Values(p, text);
    forall i | 0 <= i < |text| ensures vs[i] < p.Base() && ValueChar(p, vs[i]) == text[i] { CharRoundTrip(p, text[i]); }
    GroupsRoundTrip(p, vs);
  }

  // ----- bytes -----

  const INT_MAX := 0x7FFF_FFFF

  method MakeBytes(data: seq<Byte>) returns (r: Option<Segment>)
    ensures r.Some? <==> |data| <= 0x7FFF_FFFF
    ensures r.Some? ==> r.value == Segment(BYTE, |data|, CodewordBits(data))
  {
    hide ToBits, Pow2;
    if |data| > INT_MAX {
      return None;
    }
    SmallPowers();
    var bb := new BitBuffer();
    for i := 0 to |data|
      invariant bb.bits == CodewordBits(data[..i])
    {
      assert data[..i + 1][..i] == data[..i];
      var ok := bb.AppendBits(data[i], 8);
    }
    assert data[..|data|] == data;
    return Some(Segment(BYTE, |data|, bb.bits));
  }

  /** The bytes of a byte payload are recovered by packing it. */
  lemma {:induction false} BytesRoundTrip(data: seq<Byte>)
    ensures |CodewordBits(data)| % 8 == 0 && Packed(CodewordBits(data)) == data
  {
    hide ToBits, FromBits, Pow2;
    if data != [] {
      var (n, bits) := (|data| - 1, CodewordBits(data));
      BytesRoundTrip(data[..n]);
      var init := CodewordBits(data[..n]);
      SmallPowers();
      FromToBits(data[n], 8);
      assert bits[8 * n..8 * n + 8] == ToBits(data[n], 8);
      forall k | 0 <= k < n ensures Packed(bits)[k] == data[k] {
        assert bits[8 * k..8 * k + 8] == init[8 * k..8 * k + 8];
        assert Packed(init)[k] == data[..n][k];
      }
    }
  }

  // ----- extended channel interpretations -----

  /** One, two or three bytes, told apart by their leading bits. */
  function EciBits(v: nat): seq<bool> {
    if v < 128 then ToBits(v, 8)
    else if v < 16384 then ToBits(2, 2) + ToBits(v, 14)
    else ToBits(6, 3) + ToBits(v, 21)
  }

  method MakeEci(assignVal: int) returns (r: Option<Segment>)
    ensures r.Some? <==> 0 <= assignVal < 1000000
    ensures r.Some? ==> r.value == Segment(ECI, 0, EciBits(assignVal))
  {
    hide ToBits, Pow2;
    SmallPowers();
    TinyPowers();
    var bb := new BitBuffer();
    var ok;
    if assignVal < 0 {
      return None;
    } else if assignVal < 128 {
      ok := bb.AppendBits(assignVal, 8);
    } else if assignVal < 16384 {
      ok := bb.AppendBits(2, 2);
      ok := bb.AppendBits(assignVal, 14);
    } else if assignVal < 1000000 {
      ok := bb.AppendBits(6, 3);
      ok := bb.AppendBits(assignVal, 21);
    } else {
      return None;
    }
    return Some(Segment(ECI, 0, bb.bits));
  }

  lemma TinyPowers()
    ensures Pow2(2) == 4 && Pow2(3) == 8
  {
  }

  /** The length of an ECI payload, from its leading bits. */
  function EciLen(bits: seq<bool>): Option<nat> {
    if |bits| < 3 then None
    else if !bits[0] then Some(8)
    else if !bits[1] then Some(16)
    else if !bits[2] then Some(24)
    else None
  }

  function DecodeEci(bits: seq<bool>): nat
    requires EciLen(bits) == Some(|bits|)
  {
    if |bits| == 8 then FromBits(bits)
    else if |bits| == 16 then FromBits(bits[2..])
    else FromBits(bits[3..])
  }

  lemma EciRoundTrip(v: nat)
    requires v < 1000000
    ensures EciLen(EciBits(v)) == Some(|EciBits(v)|)
    ensures DecodeEci(EciBits(v)) == v
  {
    hide ToBits, FromBits, Pow2, Shr;
    SmallPowers();
    if v < 128 {
      FromToBits(v, 8);
      ToBitsAt(v, 8, 0);
      ShrZero(v, 7);
    } else if v < 16384 {
      TwoAndSix();
      FromToBits(v, 14);
      assert EciBits(v)[2..] == ToBits(v, 14);
    } else {
      TwoAndSix();
      FromToBits(v, 21);
      assert EciBits(v)[3..] == ToBits(v, 21);
    }
  }

  lemma TwoAndSix()
    ensures ToBits(2, 2) == [true, false] && ToBits(6, 3) == [true, true, false]
  {
    assert ToBits(0, 0) == [];
    assert ToBits(1, 1) == [true];
    assert ToBits(3, 2) == [true, true];
  }
}
