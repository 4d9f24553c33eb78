/** Bit strings, big endian: appending numbers, reading them back, packing into codewords. */
module Bits {
  import opened Galois

  /** The low len bits of v, most significant first. */
  function ToBits(v: nat, len: nat): (s: seq<bool>)
    ensures |s| == len
  {
    if len == 0 then [] else ToBits(v / 2, len - 1) + [v % 2 != 0]
  }

  function FromBits(bits: seq<bool>): nat {
    if bits == [] then 0 else 2 * FromBits(bits[..|bits| - 1]) + (if bits[|bits| - 1] then 1 else 0)
  }

  lemma {:induction false} FromBitsBound(bits: seq<bool>)
    ensures FromBits(bits) < Pow2(|bits|)
  {
    if bits != [] { FromBitsBound(bits[..|bits| - 1]); }
  }

  lemma {:induction false} FromToBits(v: nat, len: nat)
    requires v < Pow2(len)
    ensures FromBits(ToBits(v, len)) == v
  {
    if len > 0 {
      FromToBits(v / 2, len - 1);
      assert ToBits(v, len)[..len - 1] == ToBits(v / 2, len - 1);
    }
  }

  lemma {:induction false} ToFromBits(bits: seq<bool>)
    ensures ToBits(FromBits(bits), |bits|) == bits
  {
    if bits != [] {
      var n := |bits| - 1;
      ToFromBits(bits[..n]);
      assert bits == bits[..n] + [bits[n]];
      assert FromBits(bits) / 2 == FromBits(bits[..n]);
    }
  }

  /** Bit i of the string is the bit that a shift by len - 1 - i brings down. */
  lemma {:induction false} ToBitsAt(v: nat, len: nat, i: nat)
    requires i < len
    ensures ToBits(v, len)[i] == (Shr(v, len - 1 - i) % 2 != 0)
  {
    hide Pow2, Shr;
    if i == len - 1 {
      ShrNothing(v);
    } else {
      ToBitsAt(v / 2, len - 1, i);
      ShrOfHalf(v, len - 2 - i);
    }
  }

  // ----- the bit buffer -----

  class BitBuffer {
    var bits: seq<bool>

    constructor ()
      ensures bits == []
    {
      bits := [];
    }

    /** Appends the len low bits of val; refuses lengths outside 0..31 and values that do not fit. */
    method AppendBits(val: nat, len: int) returns (ok: bool)
      modifies this
      ensures ok <==> 0 <= len <= 31 && val < Pow2(len)
      ensures bits == if ok then old(bits) + ToBits(val, len) else old(bits)
    {
      hide ToBits, Pow2, Shr;
      if len < 0 || len > 31 || Shr(val, len) != 0 {
        if 0 <= len { ShrZero(val, len); }
        return false;
      }
      ShrZero(val, len);
      ok := true;
      var i := len - 1;
      NoBits(Shr(val, len));
      while i >= 0
        invariant -1 <= i < len
        invariant bits == old(bits) + ToBits(Shr(val, i + 1), len - 1 - i)
      {
        NextBit(val, i, len - 1 - i);
        bits := bits + [Shr(val, i) % 2 != 0];
        i := i - 1;
      }
      ShrNothing(val);
    }
  }

  lemma NoBits(v: nat)
    ensures ToBits(v, 0) == []
  {
  }

  lemma NextBit(v: nat, i: nat, n: nat)
    ensures ToBits(Shr(v, i), n + 1) == ToBits(Shr(v, i + 1), n) + [Shr(v, i) % 2 != 0]
  {
    hide Pow2, Shr;
    ShrStep(v, i);
  }

  // ----- codewords -----

  /** The bits of a codeword sequence, in the order they are drawn. */
  function CodewordBits(data: seq<Byte>): (s: seq<bool>)
    ensures |s| == 8 * |data|
  {
    if data == [] then [] else CodewordBits(data[..|data| - 1]) + ToBits(data[|data| - 1], 8)
  }

  lemma {:induction false} CodewordBitsAt(data: seq<Byte>, i: nat)
    requires i < 8 * |data|
    ensures CodewordBits(data)[i] == (Shr(data[i / 8], 7 - i % 8) % 2 != 0)
  {
    hide ToBits, Pow2, Shr;
    var n := |data| - 1;
    if i < 8 * n {
      CodewordBitsAt(data[..n], i);
    } else {
      ToBitsAt(data[n], 8, i - 8 * n);
    }
  }

  function ByteOf(bits: seq<bool>, k: nat): Byte
    requires 8 * k + 8 <= |bits|
  {
    FromBitsBound(bits[8 * k..8 * k + 8]);
    Pow2Seven();
    FromBits(bits[8 * k..8 * k + 8])
  }

  /** The bits packed into bytes, eight at a time. */
  function Packed(bits: seq<bool>): (s: seq<Byte>)
    requires |bits| % 8 == 0
    ensures |s| == |bits| / 8
  {
    seq(|bits| / 8, k requires 0 <= k < |bits| / 8 => ByteOf(bits, k))
  }

  /** Packing loses nothing. */
  lemma {:induction false} PackedBits(bits: seq<bool>)
    requires |bits| % 8 == 0
    ensures CodewordBits(Packed(bits)) == bits
  {
    hide ToBits, FromBits, Packed;
    if bits != [] {
      var n := |bits| / 8 - 1;
      var (init, last) := (bits[..8 * n], bits[8 * n..8 * n + 8]);
      PackedBits(init);
      PackedStep(bits, n);
      ToFromBits(last);
      assert bits == init + last;
    } else {
      assert Packed(bits) == [];
    }
  }

  lemma PackedStep(bits: seq<bool>, n: nat)
    requires |bits| == 8 * n + 8
    ensures |Packed(bits)| == n + 1 && Packed(bits)[..n] == Packed(bits[..8 * n])
    ensures Packed(bits)[n] == FromBits(bits[8 * n..8 * n + 8])
  {
    hide FromBits;
    var init := bits[..8 * n];
    forall k | 0 <= k < n ensures Packed(bits)[k] == Packed(init)[k] {
      assert init[8 * k..8 * k + 8] == bits[8 * k..8 * k + 8];
    }
  }
}
