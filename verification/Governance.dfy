/** The governance fields of tx_extra: serialising them with real or zero signatures, and parsing them. */
module Governance {
  import opened Galois
  import opened Wrappers
  import opened Varint

  const TAG_TRANSFER: Byte := 0xB0
  const TAG_ADD_SIGNER: Byte := 0xB1
  const TAG_REMOVE_SIGNER: Byte := 0xB2

  datatype Signature = Signature(signer: seq<Byte>, sig: seq<Byte>)

  datatype Action =
    | Transfer(amount: nat, spend: seq<Byte>, view: seq<Byte>)
    | AddSigner(newSigner: seq<Byte>)
    | RemoveSigner(index: nat)

  /** Signer keys are 32 bytes, signatures 64. */
  ghost predicate ValidSigs(sigs: seq<Signature>) {
    forall i | 0 <= i < |sigs| :: |sigs[i].signer| == 32 && |sigs[i].sig| == 64
  }

  ghost predicate ValidAction(a: Action) {
    match a
    case Transfer(_, spend, view) => |spend| == 32 && |view| == 32
    case AddSigner(key) => |key| == 32
    case RemoveSigner(_) => true
  }

  // ----- serialising -----

  function SigBytes(sigs: seq<Signature>): seq<Byte> {
    if sigs == [] then [] else SigBytes(sigs[..|sigs| - 1]) + sigs[|sigs| - 1].signer + sigs[|sigs| - 1].sig
  }

  function ActionBytes(a: Action): seq<Byte> {
    match a
    case Transfer(amount, spend, view) => [TAG_TRANSFER] + Encoded(amount) + spend + view
    case AddSigner(key) => [TAG_ADD_SIGNER] + key
    case RemoveSigner(index) => [TAG_REMOVE_SIGNER] + Encoded(index)
  }

  /** The tag, the action and the signature count. */
  function HeaderBytes(a: Action, count: nat): seq<Byte> {
    ActionBytes(a) + Encoded(count)
  }

  function ExtraBytes(a: Action, sigs: seq<Signature>): seq<Byte> {
    HeaderBytes(a, |sigs|) + SigBytes(sigs)
  }

  method AppendSignatures(data: seq<Byte>, sigs: seq<Signature>) returns (r: seq<Byte>)
    ensures r == data + SigBytes(sigs)
  {
    r := data;
    for i := 0 to |sigs|
      invariant r == data + SigBytes(sigs[..i])
    {
      assert sigs[..i + 1][..i] == sigs[..i];
      r := r + sigs[i].signer;
      r := r + sigs[i].sig;
    }
    assert sigs[..|sigs|] == sigs;
  }

  method BuildTransfer(amount: nat, spend: seq<Byte>, view: seq<Byte>, sigs: seq<Signature>) returns (blob: seq<Byte>)
    ensures blob == ExtraBytes(Transfer(amount, spend, view), sigs)
    ensures blob == [0xB0] + Encoded(amount) + spend + view + Encoded(|sigs|) + SigBytes(sigs)
  {
    hide Encoded, SigBytes;
    var data := WriteVarint(amount);
    data := data + spend;
    data := data + view;
    var count := WriteVarint(|sigs|);
    data := data + count;
    data := AppendSignatures(data, sigs);
    blob := [TAG_TRANSFER] + data;
  }

  method BuildAddSigner(newSigner: seq<Byte>, sigs: seq<Signature>) returns (blob: seq<Byte>)
    ensures blob == ExtraBytes(AddSigner(newSigner), sigs)
    ensures blob == [0xB1] + newSigner + Encoded(|sigs|) + SigBytes(sigs)
  {
    hide Encoded, SigBytes;
    var count := WriteVarint(|sigs|);
    var data := AppendSignatures(newSigner + count, sigs);
    blob := [TAG_ADD_SIGNER] + data;
  }

  method BuildRemoveSigner(index: nat, sigs: seq<Signature>) returns (blob: seq<Byte>)
    ensures blob == ExtraBytes(RemoveSigner(index), sigs)
    ensures blob == [0xB2] + Encoded(index) + Encoded(|sigs|) + SigBytes(sigs)
  {
    hide Encoded, SigBytes;
    var data := WriteVarint(index);
    var count := WriteVarint(|sigs|);
    data := AppendSignatures(data + count, sigs);
    blob := [TAG_REMOVE_SIGNER] + data;
  }

  // ----- parsing -----

  function Min(a: nat, b: nat): nat {
    if a <= b then a else b
  }

  /** A Python slice: bounds beyond the end are clipped. */
  function Clip(blob: seq<Byte>, from: nat, to: nat): seq<Byte>
    requires from <= to
  {
    blob[Min(from, |blob|)..Min(to, |blob|)]
  }

  /** n signatures from the given offset. */
  function SigsAt(blob: seq<Byte>, off: nat, n: nat): (s: seq<Signature>)
    ensures |s| == n
    decreases n
  {
    if n == 0 then [] else
      SigsAt(blob, off, n - 1) +
      [Signature(Clip(blob, off + 96 * (n - 1), off + 96 * (n - 1) + 32),
                 Clip(blob, off + 96 * (n - 1) + 32, off + 96 * n))]
  }

  function Parsed(blob: seq<Byte>): Option<(Action, seq<Signature>)> {
    if blob == [] then None
    else if blob[0] == TAG_TRANSFER then
      var (amount, a) :- Read(blob, 1);
      var (count, b) :- Read(blob, a + 64);
      Some((Transfer(amount, Clip(blob, a, a + 32), Clip(blob, a + 32, a + 64)), SigsAt(blob, b, count)))
    else if blob[0] == TAG_ADD_SIGNER then
      var (count, b) :- Read(blob, 33);
      Some((AddSigner(Clip(blob, 1, 33)), SigsAt(blob, b, count)))
    else if blob[0] == TAG_REMOVE_SIGNER then
      var (index, a) :- Read(blob, 1);
      var (count, b) :- Read(blob, a);
      Some((RemoveSigner(index), SigsAt(blob, b, count)))
    else None
  }

  /** The first byte names the action; any other first byte is refused. */
  ghost predicate NamedBy(first: Byte, a: Action) {
    match a
    case Transfer(_, _, _) => first == 0xB0
    case AddSigner(_) => first == 0xB1
    case RemoveSigner(_) => first == 0xB2
  }

  lemma TagNamesAction(a: Action, sigs: seq<Signature>, blob: seq<Byte>)
    ensures ExtraBytes(a, sigs) != [] && NamedBy(ExtraBytes(a, sigs)[0], a)
    ensures Parsed(blob).Some? ==> blob != [] && NamedBy(blob[0], Parsed(blob).value.0)
  {
    hide Encoded, SigBytes, Read, SigsAt;
  }

  method ParseSigs(blob: seq<Byte>, start: nat, count: nat) returns (sigs: seq<Signature>, offset: nat)
    ensures sigs == SigsAt(blob, start, count) && offset == start + 96 * count
  {
    sigs, offset := [], start;
    for i := 0 to count
      invariant sigs == SigsAt(blob, start, i) && offset == start + 96 * i
    {
      var sk := Clip(blob, offset, offset + 32);
      offset := offset + 32;
      var sg := Clip(blob, offset, offset + 64);
      offset := offset + 64;
      sigs := sigs + [Signature(sk, sg)];
    }
  }

  method ParseGovernanceExtra(blob: seq<Byte>) returns (r: Option<(Action, seq<Signature>)>)
    ensures r == Parsed(blob)
    ensures r.Some? ==> blob != [] && NamedBy(blob[0], r.value.0)
  {
    hide Read, SigsAt;
    if blob == [] { return None; }
    var tag, offset: nat := blob[0], 1;
    var sigs;
    if tag == TAG_TRANSFER {
      var amount := ReadVarint(blob, offset);
      if amount.None? { return None; }
      offset := amount.value.1;
      var spend := Clip(blob, offset, offset + 32);
      offset := offset + 32;
      var view := Clip(blob, offset, offset + 32);
      offset := offset + 32;
      var count := ReadVarint(blob, offset);
      if count.None? { return None; }
      sigs, offset := ParseSigs(blob, count.value.1, count.value.0);
      return Some((Transfer(amount.value.0, spend, view), sigs));
    } else if tag == TAG_ADD_SIGNER {
      var key := Clip(blob, offset, offset + 32);
      offset := offset + 32;
      var count := ReadVarint(blob, offset);
      if count.None? { return None; }
      sigs, offset := ParseSigs(blob, count.value.1, count.value.0);
      return Some((AddSigner(key), sigs));
    } else if tag == TAG_REMOVE_SIGNER {
      var index := ReadVarint(blob, offset);
      if index.None? { return None; }
      var count := ReadVarint(blob, index.value.1);
      if count.None? { return None; }
      sigs, offset := ParseSigs(blob, count.value.1, count.value.0);
      return Some((RemoveSigner(index.value.0), sigs));
    }
    return None;
  }

  // ----- the parser undoes the serialisers -----

  lemma {:induction false} SigLength(sigs: seq<Signature>)
    requires ValidSigs(sigs)
    ensures |SigBytes(sigs)| == 96 * |sigs|
  {
    if sigs != [] { SigLength(sigs[..|sigs| - 1]); }
  }

  lemma SigBytesStep(sigs: seq<Signature>)
    requires sigs != []
    ensures SigBytes(sigs) == SigBytes(sigs[..|sigs| - 1]) + sigs[|sigs| - 1].signer + sigs[|sigs| - 1].sig
  {
  }

  lemma SigsAtStep(blob: seq<Byte>, off: nat, n: nat)
    ensures SigsAt(blob, off, 0) == []
    ensures SigsAt(blob, off, n + 1) == SigsAt(blob, off, n) +
            [Signature(Clip(blob, off + 96 * n, off + 96 * n + 32), Clip(blob, off + 96 * n + 32, off + 96 * n + 96))]
  {
    hide Clip;
  }

  lemma ClipMiddle(pre: seq<Byte>, mid: seq<Byte>, post: seq<Byte>, blob: seq<Byte>)
    requires blob == pre + mid + post
    ensures Clip(blob, |pre|, |pre| + |mid|) == mid
  {
  }

  lemma {:induction false} SigsParsed(head: seq<Byte>, sigs: seq<Signature>, post: seq<Byte>)
    requires ValidSigs(sigs)
    ensures SigsAt(head + SigBytes(sigs) + post, |head|, |sigs|) == sigs
    decreases |sigs|
  {
    hide SigBytes, SigsAt, Clip;
    var blob := head + SigBytes(sigs) + post;
    if sigs == [] {
      SigsAtStep(blob, |head|, 0);
    } else {
      var (init, last) := (sigs[..|sigs| - 1], sigs[|sigs| - 1]);
      var (mid, tail) := (SigBytes(init), last.signer + last.sig + post);
      SigsParsed(head, init, tail);
      SigLength(init);
      SigBytesStep(sigs);
      assert blob == head + mid + tail;
      ClipMiddle(head + mid, last.signer, last.sig + post, blob);
      ClipMiddle(head + mid + last.signer, last.sig, post, blob);
      SigsAtStep(blob, |head|, |init|);
      assert sigs == init + [last];
    }
  }

  /** Whatever was serialised, and whatever follows it, is parsed back: action, signers and signatures. */
  lemma ParseRoundTrip(a: Action, sigs: seq<Signature>, post: seq<Byte>)
    requires ValidAction(a) && ValidSigs(sigs)
    ensures Parsed(ExtraBytes(a, sigs) + post) == Some((a, sigs))
  {
    hide Read, Encoded, SigsAt, SigBytes, ActionBytes;
    var blob := ExtraBytes(a, sigs) + post;
    var tail := SigBytes(sigs) + post;
    var act := ActionBytes(a);
    assert blob == act + Encoded(|sigs|) + tail;
    ReadAt(act, |sigs|, tail, blob);
    assert blob == HeaderBytes(a, |sigs|) + SigBytes(sigs) + post;
    SigsParsed(HeaderBytes(a, |sigs|), sigs, post);
    ActionRead(a, Encoded(|sigs|) + tail);
    assert blob == act + (Encoded(|sigs|) + tail);
  }

  /** The tag and the fields of an action are found where it was written. */
  lemma ActionRead(a: Action, rest: seq<Byte>)
    requires ValidAction(a)
    ensures var blob := ActionBytes(a) + rest;
            match a
            case Transfer(amount, spend, view) =>
              var at := 1 + |Encoded(amount)|;
              && blob[0] == TAG_TRANSFER && Read(blob, 1) == Some((amount, at)) && |ActionBytes(a)| == at + 64
              && blob[at..at + 32] == spend && blob[at + 32..at + 64] == view
            case AddSigner(key) =>
              blob[0] == TAG_ADD_SIGNER && |ActionBytes(a)| == 33 && blob[1..33] == key
            case RemoveSigner(index) =>
              blob[0] == TAG_REMOVE_SIGNER && Read(blob, 1) == Some((index, |ActionBytes(a)|))
  {
    hide Read, Encoded;
    var blob := ActionBytes(a) + rest;
    match a
    case Transfer(amount, spend, view) =>
      assert blob == [TAG_TRANSFER] + Encoded(amount) + (spend + view + rest);
      ReadAt([TAG_TRANSFER], amount, spend + view + rest, blob);
    case AddSigner(key) =>
    case RemoveSigner(index) =>
      ReadAt([TAG_REMOVE_SIGNER], index, rest, blob);
  }

  // ----- zero and real signatures -----

  ghost predicate SameSigners(sigs: seq<Signature>, other: seq<Signature>) {
    |sigs| == |other| && forall i | 0 <= i < |sigs| :: sigs[i].signer == other[i].signer
  }

  /** The same signers, each with 64 zero bytes for a signature. */
  function ZeroSigs(sigs: seq<Signature>): (s: seq<Signature>)
    ensures SameSigners(sigs, s) && (ValidSigs(sigs) ==> ValidSigs(s))
    ensures forall i, k | 0 <= i < |s| && 0 <= k < 64 :: |s[i].sig| == 64 && s[i].sig[k] == 0
  {
    seq(|sigs|, i requires 0 <= i < |sigs| => Signature(sigs[i].signer, seq(64, _ => 0)))
  }

  lemma {:induction false} SigByteAt(sigs: seq<Signature>, i: nat, k: nat)
    requires ValidSigs(sigs) && i < |sigs| && k < 96
    ensures |SigBytes(sigs)| == 96 * |sigs|
    ensures SigBytes(sigs)[96 * i + k] == if k < 32 then sigs[i].signer[k] else sigs[i].sig[k - 32]
  {
    SigLength(sigs);
    var n := |sigs| - 1;
    SigLength(sigs[..n]);
    if i < n { SigByteAt(sigs[..n], i, k); }
  }

  /** The position lies inside the 64 bytes of one of n signatures that start after the header. */
  predicate InSignature(pos: int, header: nat, n: nat) {
    header <= pos < header + 96 * n && (pos - header) % 96 >= 32
  }

  /** Two blobs of the same action and signers have equal length and agree outside the signature bytes. */
  lemma BlobsAgree(a: Action, sigs: seq<Signature>, other: seq<Signature>)
    requires ValidSigs(sigs) && ValidSigs(other) && SameSigners(sigs, other)
    ensures |ExtraBytes(a, sigs)| == |ExtraBytes(a, other)| == |HeaderBytes(a, |sigs|)| + 96 * |sigs|
    ensures forall pos | 0 <= pos < |ExtraBytes(a, sigs)| ::
              InSignature(pos, |HeaderBytes(a, |sigs|)|, |sigs|) ||
              ExtraBytes(a, sigs)[pos] == ExtraBytes(a, other)[pos]
  {
    hide HeaderBytes, SigBytes;
    SigLength(sigs);
    SigLength(other);
    var header := |HeaderBytes(a, |sigs|)|;
    forall pos | header <= pos < header + 96 * |sigs| && !InSignature(pos, header, |sigs|)
      ensures ExtraBytes(a, sigs)[pos] == ExtraBytes(a, other)[pos]
    {
      var (i, k) := ((pos - header) / 96, (pos - header) % 96);
      SigByteAt(sigs, i, k);
      SigByteAt(other, i, k);
    }
  }

  /** With zero signatures, every signature byte is zero. */
  lemma ZeroBytes(a: Action, sigs: seq<Signature>, pos: int)
    requires ValidSigs(sigs) && InSignature(pos, |HeaderBytes(a, |sigs|)|, |sigs|)
    ensures 0 <= pos < |ExtraBytes(a, ZeroSigs(sigs))| && ExtraBytes(a, ZeroSigs(sigs))[pos] == 0
  {
    hide HeaderBytes, SigBytes, ZeroSigs;
    var zeros := ZeroSigs(sigs);
    var header := |HeaderBytes(a, |sigs|)|;
    SigLength(zeros);
    var (i, k) := ((pos - header) / 96, (pos - header) % 96);
    SigByteAt(zeros, i, k);
    assert ExtraBytes(a, zeros)[pos] == SigBytes(zeros)[pos - header];
  }
}
