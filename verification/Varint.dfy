/** The variable-length integers of the transaction format: seven bits a byte, least significant group first. */
module Varint {
  import opened Galois
  import opened Wrappers

  function Encoded(v: nat): (s: seq<Byte>)
    ensures |s| >= 1
  {
    if v < 128 then [v] else [v % 128 + 128] + Encoded(v / 128)
  }

  /** v without its i lowest groups of seven bits. */
  function Without(v: nat, i: nat): nat {
    if i == 0 then v else Without(v, i - 1) / 128
  }

  lemma {:induction false} WithoutFirst(v: nat, i: nat)
    requires i > 0
    ensures Without(v, i) == Without(v / 128, i - 1)
  {
    if i > 1 { WithoutFirst(v, i - 1); }
  }

  /** Byte i holds the i-th group of seven bits, and every byte but the last has its top bit set. */
  lemma {:induction false} EncodedAt(v: nat, i: nat)
    requires i < |Encoded(v)|
    ensures Encoded(v)[i] == Without(v, i) % 128 + (if i + 1 < |Encoded(v)| then 128 else 0)
    ensures Without(v, i) < 128 <==> i + 1 == |Encoded(v)|
    decreases v
  {
    if v >= 128 && i > 0 {
      EncodedAt(v / 128, i - 1);
      WithoutFirst(v, i);
    }
  }

  /** The value read at an offset and the offset after it; None when the bytes run out. */
  function Read(buf: seq<Byte>, offset: nat): (r: Option<(nat, nat)>)
    ensures r.Some? ==> offset < r.value.1 <= |buf|
    decreases |buf| - offset
  {
    if offset >= |buf| then None
    else if buf[offset] < 128 then Some((buf[offset], offset + 1))
    else
      var rest := Read(buf, offset + 1);
      if rest.None? then None else Some((buf[offset] % 128 + 128 * rest.value.0, rest.value.1))
  }

  method WriteVarint(val: nat) returns (buf: seq<Byte>)
    ensures buf == Encoded(val)
  {
    buf := [];
    var v := val;
    while v >= 128
      invariant Encoded(val) == buf + Encoded(v)
    {
      buf := buf + [v % 128 + 128];
      v := v / 128;
    }
    buf := buf + [v % 128];
  }

  /** What the loop will return when it has gathered val at the given scale. */
  function Gathered(rest: Option<(nat, nat)>, val: nat, scale: nat): Option<(nat, nat)> {
    if rest.None? then None else Some((val + scale * rest.value.0, rest.value.1))
  }

  lemma GatherNext(buf: seq<Byte>, offset: nat, val: nat, scale: nat)
    requires offset < |buf|
    ensures var next := val + scale * (buf[offset] % 128);
            Gathered(Read(buf, offset), val, scale) ==
            if buf[offset] < 128 then Some((next, offset + 1)) else Gathered(Read(buf, offset + 1), next, scale * 128)
  {
    var rest := Read(buf, offset + 1);
    if buf[offset] >= 128 && rest.Some? { Distribute(val, scale, buf[offset] % 128, rest.value.0); }
  }

  lemma Distribute(val: nat, scale: nat, low: nat, high: nat)
    ensures val + scale * low + scale * 128 * high == val + scale * (low + 128 * high)
  {
  }

  lemma GatherStart(buf: seq<Byte>, start: nat)
    ensures Gathered(Read(buf, start), 0, 1) == Read(buf, start)
  {
  }

  lemma GatherEnd(buf: seq<Byte>, offset: nat, val: nat, scale: nat)
    requires offset >= |buf|
    ensures Gathered(Read(buf, offset), val, scale) == None
  {
  }

  method ReadVarint(buf: seq<Byte>, start: nat) returns (r: Option<(nat, nat)>)
    ensures r == Read(buf, start)
  {
    hide *;
    var val: nat, scale: nat, offset: nat := 0, 1, start;
    GatherStart(buf, start);
    while offset < |buf|
      invariant Gathered(Read(buf, offset), val, scale) == Read(buf, start)
      decreases |buf| - offset
    {
      GatherNext(buf, offset, val, scale);
      var b: nat := buf[offset];
      offset := offset + 1;
      val := val + scale * (b % 128);
      scale := scale * 128;
      if b < 128 {
        return Some((val, offset));
      }
    }
    GatherEnd(buf, offset, val, scale);
    return None;
  }

  /** Reading what was written returns the value and the exact next offset, wherever it stands. */
  lemma {:induction false} ReadEncoded(v: nat, pre: seq<Byte>, post: seq<Byte>)
    ensures Read(pre + Encoded(v) + post, |pre|) == Some((v, |pre| + |Encoded(v)|))
    decreases v
  {
    var buf := pre + Encoded(v) + post;
    assert buf[|pre|] == Encoded(v)[0];
    if v >= 128 {
      var pre' := pre + [v % 128 + 128];
      ReadEncoded(v / 128, pre', post);
      assert buf == pre' + Encoded(v / 128) + post;
    }
  }

  /** The same for bytes that are known to hold the written form between two others. */
  lemma ReadAt(pre: seq<Byte>, v: nat, post: seq<Byte>, buf: seq<Byte>)
    requires buf == pre + Encoded(v) + post
    ensures Read(buf, |pre|) == Some((v, |pre| + |Encoded(v)|))
  {
    ReadEncoded(v, pre, post);
  }

  /** No byte string that reads back to a value is shorter than the written one. */
  lemma {:induction false} EncodedShortest(buf: seq<Byte>, offset: nat)
    requires Read(buf, offset).Some?
    ensures |Encoded(Read(buf, offset).value.0)| <= Read(buf, offset).value.1 - offset
    decreases |buf| - offset
  {
    if buf[offset] >= 128 {
      EncodedShortest(buf, offset + 1);
      var (b, high) := (buf[offset] % 128, Read(buf, offset + 1).value.0);
      assert (b + 128 * high) / 128 == high;
    }
  }

  /** A read looks at nothing beyond the bytes it consumes. */
  lemma {:induction false} ReadLocal(buf: seq<Byte>, other: seq<Byte>, offset: nat)
    requires Read(buf, offset).Some?
    requires Read(buf, offset).value.1 <= |other|
    requires forall i | offset <= i < Read(buf, offset).value.1 :: buf[i] == other[i]
    ensures Read(other, offset) == Read(buf, offset)
    decreases |buf| - offset
  {
    if buf[offset] >= 128 { ReadLocal(buf, other, offset + 1); }
  }
}
