/**
  The fields of an extra, and which of them the blanking scan crosses exactly.
 */
module ExtraFields {
  import opened Galois
  import opened Wrappers
  import opened Varint
  import opened Governance
  import opened Signing
  import ZeroScan

  datatype Field =
    | PubKey(key: seq<Byte>)
    | Nonce(payload: seq<Byte>)
    | AdditionalKeys(count: nat, keys: seq<Byte>)
    | Padding(bytes: seq<Byte>)
    | NetworkFund(amount: nat, recipient: seq<Byte>)
    | Other(tag: Byte)

  ghost predicate ValidField(f: Field) {
    match f
    case PubKey(key) => |key| == 32
    case Nonce(_) => true
    case AdditionalKeys(count, keys) => |keys| == 32 * count
    case Padding(_) => true
    case NetworkFund(_, recipient) => |recipient| == 64
    case Other(tag) => tag !in [0x01, 0x02, 0x03, 0x04, 0xB0, 0xC0]
  }

  function FieldBytes(f: Field): (s: seq<Byte>)
    ensures s != []
  {
    match f
    case PubKey(key) => [0x01] + key
    case Nonce(payload) => [0x02] + Encoded(|payload|) + payload
    case AdditionalKeys(count, keys) => [0x03] + Encoded(count) + keys
    case Padding(bytes) => [0x04] + Encoded(|bytes|) + bytes
    case NetworkFund(amount, recipient) => [0xC0] + Encoded(amount) + recipient
    case Other(tag) => [tag]
  }

  function FieldsBytes(fs: seq<Field>): seq<Byte> {
    if fs == [] then [] else FieldsBytes(fs[..|fs| - 1]) + FieldBytes(fs[|fs| - 1])
  }

  /** Every nonce has a payload one byte longer than the offset it stands at. */
  ghost predicate Aligned(fs: seq<Field>) {
    fs == [] ||
    (Aligned(fs[..|fs| - 1]) &&
     var last := fs[|fs| - 1]; last.Nonce? ==> |last.payload| == |FieldsBytes(fs[..|fs| - 1])| + 1)
  }

  lemma VarintField(pre: seq<Byte>, tag: Byte, v: nat, tail: seq<Byte>, x: seq<Byte>)
    ensures var s := pre + ([tag] + Encoded(v) + tail) + x;
            s[|pre|] == tag && Read(s, |pre| + 1) == Some((v, |pre| + 1 + |Encoded(v)|))
  {
    hide Encoded, Read;
    var s := pre + ([tag] + Encoded(v) + tail) + x;
    Regroup(pre, [tag], Encoded(v), tail, x);
    ReadAt(pre + [tag], v, tail + x, s);
  }

  lemma Regroup(a: seq<Byte>, b: seq<Byte>, c: seq<Byte>, d: seq<Byte>, e: seq<Byte>)
    ensures a + (b + c + d) + e == a + b + c + (d + e)
  {
    Assoc(a, b, c);
    Assoc(a, b + c, d);
    Assoc(a + b + c, d, e);
  }

  /** The scan steps over a field exactly, except that a nonce at offset p must have p + 1 payload bytes. */
  lemma FieldSkipped(pre: seq<Byte>, f: Field, x: seq<Byte>)
    requires ValidField(f)
    ensures var s := pre + FieldBytes(f) + x;
            && s[|pre|] != 0xB0
            && (ZeroScan.Skip(s, |pre|) == Some(|pre| + |FieldBytes(f)|) <==> (f.Nonce? ==> |f.payload| == |pre| + 1))
  {
    hide Encoded, Read;
    match f
    case PubKey(key) =>
    case Nonce(payload) => VarintField(pre, 0x02, |payload|, payload, x);
    case AdditionalKeys(count, keys) => VarintField(pre, 0x03, count, keys, x);
    case Padding(bytes) => VarintField(pre, 0x04, |bytes|, bytes, x);
    case NetworkFund(amount, recipient) => VarintField(pre, 0xC0, amount, recipient, x);
    case Other(tag) =>
  }

  lemma {:induction false} CrossExtended(pre: seq<Byte>, x: seq<Byte>, off: nat)
    requires Crosses(pre, off) && Crosses(pre + x, |pre|)
    ensures Crosses(pre + x, off)
    decreases |pre| - off
  {
    hide ZeroScan.Skip;
    if off < |pre| {
      SkipExtended(pre, x, off);
      CrossExtended(pre, x, ZeroScan.Skip(pre, off).value);
    }
  }

  lemma LastFieldCross(pre: seq<Byte>, f: Field)
    requires Crosses(pre, 0) && ValidField(f) && (f.Nonce? ==> |f.payload| == |pre| + 1)
    ensures Crosses(pre + FieldBytes(f), 0)
  {
    hide FieldBytes, ValidField, ZeroScan.Skip;
    FieldSkipped(pre, f, []);
    assert pre + FieldBytes(f) + [] == pre + FieldBytes(f);
    CrossExtended(pre, FieldBytes(f), 0);
  }

  /** Aligned fields are crossed exactly. */
  lemma {:induction false} FieldsCross(fs: seq<Field>)
    requires Aligned(fs) && forall i | 0 <= i < |fs| :: ValidField(fs[i])
    ensures Crosses(FieldsBytes(fs), 0)
  {
    if fs != [] {
      var (init, last) := (fs[..|fs| - 1], fs[|fs| - 1]);
      FieldsCross(init);
      LastFieldCross(FieldsBytes(init), last);
    }
  }
}
