/**
  The governance signing protocol: signatures live inside the bytes whose hash they sign, so they are blanked
  before hashing. Injecting the real signatures must not change the bytes that the signers hashed.
 */
module Signing {
  import opened Galois
  import opened Wrappers
  import opened Varint
  import opened Governance
  import opened TxPrefix
  import ZeroScan

  // ----- the bytes that are hashed -----

  lemma RangeOrdered(blob: seq<Byte>)
    requires ExtraRange(blob).Some?
    ensures var (start, end) := ExtraRange(blob).value; start <= end && start <= |blob|
  {
    hide SkipInputs, SkipOutputs;
  }

  /** The prefix up to the end of the extra field, with governance signatures blanked. */
  function HashedBytes(blob: seq<Byte>): Option<seq<Byte>> {
    var (start, end) :- ExtraRange(blob);
    RangeOrdered(blob);
    var raw := Clip(blob, start, end);
    var (_, off) :- Read(raw, 0);
    var scanned :- ZeroScan.Scanned(raw[off..]);
    Some(blob[..start] + raw[..off] + scanned)
  }

  method ComputeHashedBytes(blob: seq<Byte>) returns (r: Option<seq<Byte>>)
    ensures r == HashedBytes(blob)
  {
    hide ExtraRange, Read, ZeroScan.Scanned;
    var range := FindExtraRange(blob);
    if range.None? { return None; }
    RangeOrdered(blob);
    var start, end := range.value.0, range.value.1;
    var raw := Clip(blob, start, end);
    var size := ReadVarint(raw, 0);
    if size.None? { return None; }
    var off := size.value.1;
    var extra := raw[off..];
    var mod := new Byte[|extra|](i requires 0 <= i < |extra| => extra[i]);
    assert mod[..] == extra;
    var ok := ZeroScan.ZeroSignatures(mod);
    if !ok { return None; }
    return Some(blob[..start] + raw[..off] + mod[..]);
  }

  // ----- injecting the real signatures -----

  /** The position of the first byte with the given value. */
  function Find(s: seq<Byte>, b: Byte): (r: Option<nat>)
    ensures r.Some? ==> r.value < |s| && s[r.value] == b && forall i | 0 <= i < r.value :: s[i] != b
    ensures r.None? ==> forall i | 0 <= i < |s| :: s[i] != b
  {
    if s == [] then None
    else if s[0] == b then Some(0)
    else
      var r := Find(s[1..], b);
      assert forall i | 1 <= i < |s| :: s[i] == s[1..][i - 1];
      if r.None? then None else Some(r.value + 1)
  }

  /** The extra data with its governance part replaced; proceed is the answer when the lengths do not match. */
  function Replaced(data: seq<Byte>, signed: seq<Byte>, proceed: bool): Option<seq<Byte>> {
    var tag :- Find(data, TAG_TRANSFER);
    if |signed| == |data| then Some(signed)
    else if |data| - tag == |signed| then Some(data[..tag] + signed)
    else if proceed then Some(data[..tag] + signed[..Min(|signed|, |data| - tag)])
    else None
  }

  /** The transaction blob with the real signatures in place. */
  function Patched(blob: seq<Byte>, signed: seq<Byte>, proceed: bool): Option<seq<Byte>> {
    var (start, end) :- ExtraRange(blob);
    RangeOrdered(blob);
    var raw := Clip(blob, start, end);
    var (_, pos) :- Read(raw, 0);
    var data :- Replaced(raw[pos..], signed, proceed);
    Some(blob[..start] + (raw[..pos] + data) + blob[Min(end, |blob|)..])
  }

  method PatchExtra(blob: seq<Byte>, signed: seq<Byte>, proceed: bool) returns (r: Option<seq<Byte>>)
    ensures r == Patched(blob, signed, proceed)
  {
    hide ExtraRange, Read;
    var range := FindExtraRange(blob);
    if range.None? { return None; }
    RangeOrdered(blob);
    var start, end := range.value.0, range.value.1;
    var raw := Clip(blob, start, end);
    var size := ReadVarint(raw, 0);
    if size.None? { return None; }
    var pos := size.value.1;
    var data := raw[pos..];
    var tag := Find(data, TAG_TRANSFER);
    if tag.None? { return None; }
    var modified;
    if |signed| != |data| {
      var govPart := data[tag.value..];
      if |govPart| == |signed| {
        modified := data[..tag.value] + signed;
      } else if proceed {
        modified := data[..tag.value] + signed[..Min(|signed|, |govPart|)];
      } else {
        return None;
      }
    } else {
      modified := signed;
    }
    var field := raw[..pos] + modified;
    return Some(blob[..start] + field + blob[Min(end, |blob|)..]);
  }

  // ----- on a printed transaction -----

  lemma RawField(p: Prefix, rest: seq<Byte>)
    requires ValidPrefix(p)
    ensures var blob := Print(p) + rest;
            var raw := Encoded(|p.extra|) + p.extra;
            && ExtraRange(blob) == Some((|PrintHead(p)|, |Print(p)|))
            && Clip(blob, |PrintHead(p)|, |Print(p)|) == raw
            && Read(raw, 0) == Some((|p.extra|, |Encoded(|p.extra|)|))
            && raw[|Encoded(|p.extra|)|..] == p.extra
            && blob[..|PrintHead(p)|] == PrintHead(p) && blob[|Print(p)|..] == rest
  {
    hide Read, Encoded, PrintHead, ExtraRange, ValidPrefix;
    ExtraFound(p, rest);
    var e := Encoded(|p.extra|);
    ReadEncoded(|p.extra|, [], p.extra);
    assert [] + e + p.extra == e + p.extra;
  }

  /** On a printed transaction, exactly the extra field is scanned, and everything before it is kept. */
  lemma HashedPrinted(p: Prefix, rest: seq<Byte>)
    requires ValidPrefix(p)
    ensures HashedBytes(Print(p) + rest) ==
            var scanned := ZeroScan.Scanned(p.extra);
            if scanned.None? then None else Some(PrintHead(p) + Encoded(|p.extra|) + scanned.value)
  {
    hide Read, Encoded, PrintHead, Print, ExtraRange, ZeroScan.Scanned, ValidPrefix, Clip;
    PrintedLength(p);
    RawField(p, rest);
  }

  lemma PrintedLength(p: Prefix)
    ensures |PrintHead(p)| <= |Print(p)|
  {
  }

  /** On a printed transaction, the patch replaces the extra field by the replaced data. */
  lemma PatchedPrinted(p: Prefix, rest: seq<Byte>, signed: seq<Byte>, proceed: bool)
    requires ValidPrefix(p)
    ensures Patched(Print(p) + rest, signed, proceed) ==
            var data := Replaced(p.extra, signed, proceed);
            if data.None? then None else Some(PrintHead(p) + (Encoded(|p.extra|) + data.value) + rest)
  {
    hide Read, Encoded, PrintHead, Print, ExtraRange, Replaced, ValidPrefix, Clip;
    PrintedLength(p);
    RawField(p, rest);
  }

  // ----- fields the scan crosses exactly -----

  /** From off the scan skips from field to field and lands exactly on the end of pre. */
  predicate Crosses(pre: seq<Byte>, off: nat)
    decreases |pre| - off
  {
    off == |pre| ||
    (off < |pre| && pre[off] != 0xB0 &&
     var next := ZeroScan.Skip(pre, off);
     next.Some? && Crosses(pre, next.value))
  }

  lemma SkipExtended(pre: seq<Byte>, x: seq<Byte>, off: nat)
    requires off < |pre| && pre[off] != 0xB0 && ZeroScan.Skip(pre, off).Some?
    ensures ZeroScan.Skip(pre + x, off) == ZeroScan.Skip(pre, off)
  {
    hide Read;
    if Read(pre, off + 1).Some? { ReadLocal(pre, pre + x, off + 1); }
  }

  lemma {:induction false} CrossPlan(pre: seq<Byte>, x: seq<Byte>, off: nat)
    requires Crosses(pre, off)
    ensures ZeroScan.Plan(pre + x, off) == ZeroScan.Plan(pre + x, |pre|)
    decreases |pre| - off
  {
    hide ZeroScan.Skip;
    if off < |pre| {
      SkipExtended(pre, x, off);
      CrossPlan(pre, x, ZeroScan.Skip(pre, off).value);
    }
  }

  lemma TransferRead(pre: seq<Byte>, a: Action, sigs: seq<Signature>)
    requires a.Transfer? && ValidAction(a)
    ensures var s := pre + ExtraBytes(a, sigs);
            && s[|pre|] == TAG_TRANSFER
            && ZeroScan.TransferAt(s, |pre|) == Some((|pre| + |HeaderBytes(a, |sigs|)|, |sigs|))
  {
    hide Read, Encoded, SigBytes, ExtraBytes;
    var (front, keys, tail) := (pre + [TAG_TRANSFER], a.spend + a.view, SigBytes(sigs));
    var s := front + Encoded(a.amount) + keys + Encoded(|sigs|) + tail;
    assert s == pre + ExtraBytes(a, sigs) by { TransferLayout(pre, a, sigs); }
    assert s == front + Encoded(a.amount) + (keys + Encoded(|sigs|) + tail);
    ReadAt(front, a.amount, keys + Encoded(|sigs|) + tail, s);
    ReadAt(front + Encoded(a.amount) + keys, |sigs|, tail, s);
  }

  lemma TransferLayout(pre: seq<Byte>, a: Action, sigs: seq<Signature>)
    requires a.Transfer?
    ensures pre + ExtraBytes(a, sigs) ==
            pre + [TAG_TRANSFER] + Encoded(a.amount) + (a.spend + a.view) + Encoded(|sigs|) + SigBytes(sigs)
  {
    hide Encoded, SigBytes;
    var (t, c, g) := ([TAG_TRANSFER] + Encoded(a.amount), Encoded(|sigs|), SigBytes(sigs));
    Assoc(pre, [TAG_TRANSFER], Encoded(a.amount));
    Assoc(t, a.spend, a.view);
    Assoc(pre, t, a.spend + a.view);
    Assoc(pre, t + a.spend + a.view, c);
    Assoc(pre, t + a.spend + a.view + c, g);
  }

  lemma Assoc(a: seq<Byte>, b: seq<Byte>, c: seq<Byte>)
    ensures a + b + c == a + (b + c)
  {
  }

  /** A transfer standing at the end of the bytes: its signatures, and nothing else, are planned. */
  lemma TransferPlan(pre: seq<Byte>, a: Action, sigs: seq<Signature>)
    requires a.Transfer? && ValidAction(a) && ValidSigs(sigs)
    ensures var s := pre + ExtraBytes(a, sigs);
            ZeroScan.Plan(s, |pre|) == Some(ZeroScan.Starts(|pre| + |HeaderBytes(a, |sigs|)|, |sigs|))
  {
    hide HeaderBytes, SigBytes, ZeroScan.Plan, ZeroScan.Starts, ZeroScan.TransferAt;
    var s := pre + ExtraBytes(a, sigs);
    SigLength(sigs);
    TransferRead(pre, a, sigs);
    ZeroScan.PlanTransfer(s, |pre|);
    PlanPastEnd(s);
    var starts := ZeroScan.Starts(|pre| + |HeaderBytes(a, |sigs|)|, |sigs|);
    assert starts + [] == starts;
  }

  lemma PlanPastEnd(s: seq<Byte>)
    ensures ZeroScan.Plan(s, |s|) == Some([])
  {
  }

  lemma StartsMeaning(pre: nat, header: nat, n: nat, pos: int)
    ensures ZeroScan.Covered(pos, ZeroScan.Starts(pre + header, n)) <==> InSignature(pos - pre, header, n)
  {
    var (starts, d) := (ZeroScan.Starts(pre + header, n), pos - pre - header);
    hide ZeroScan.Starts;
    if InSignature(pos - pre, header, n) {
      SlotOf(d, d / 96);
      assert starts[d / 96] <= pos < starts[d / 96] + 64;
    } else {
      forall i | 0 <= i < n ensures !(starts[i] <= pos < starts[i] + 64) {
        SlotOf(d, i);
      }
    }
  }

  lemma SlotOf(d: int, i: int)
    ensures 96 * i + 32 <= d < 96 * i + 96 <==> d / 96 == i && d % 96 >= 32
  {
  }

  /** Behind fields the scan crosses exactly, zero and real signatures give the same scanned bytes. */
  lemma ScanStable(pre: seq<Byte>, a: Action, sigs: seq<Signature>, other: seq<Signature>)
    requires Crosses(pre, 0) && a.Transfer? && ValidAction(a)
    requires ValidSigs(sigs) && ValidSigs(other) && SameSigners(sigs, other)
    ensures ZeroScan.Scanned(pre + ExtraBytes(a, sigs)).Some?
    ensures ZeroScan.Scanned(pre + ExtraBytes(a, sigs)) == ZeroScan.Scanned(pre + ExtraBytes(a, other))
  {
    hide Crosses, ZeroScan.Plan, ZeroScan.Covered, ZeroScan.Starts, ExtraBytes, HeaderBytes, InSignature;
    var (s, t) := (pre + ExtraBytes(a, sigs), pre + ExtraBytes(a, other));
    var header := |HeaderBytes(a, |sigs|)|;
    CrossPlan(pre, ExtraBytes(a, sigs), 0);
    TransferPlan(pre, a, sigs);
    BlobsAgree(a, sigs, other);
    forall i | 0 <= i < |s| && !ZeroScan.Covered(i, ZeroScan.Plan(s, 0).value) ensures s[i] == t[i] {
      StartsMeaning(|pre|, header, |sigs|, i);
    }
    ZeroScan.ScanInsensitive(s, t);
  }

  /** Zero signatures are what the scan leaves. */
  lemma ScanZero(pre: seq<Byte>, a: Action, sigs: seq<Signature>)
    requires Crosses(pre, 0) && a.Transfer? && ValidAction(a) && ValidSigs(sigs)
    ensures var x := pre + ExtraBytes(a, ZeroSigs(sigs)); ZeroScan.Scanned(x) == Some(x)
  {
    hide Crosses, ZeroScan.Plan, ZeroScan.Covered, ZeroScan.Starts, ExtraBytes, HeaderBytes, InSignature, ZeroSigs;
    var zeros := ZeroSigs(sigs);
    var (x, header) := (pre + ExtraBytes(a, zeros), |HeaderBytes(a, |sigs|)|);
    CrossPlan(pre, ExtraBytes(a, zeros), 0);
    TransferPlan(pre, a, zeros);
    var starts := ZeroScan.Plan(x, 0).value;
    forall i | 0 <= i < |x| && ZeroScan.Covered(i, starts) ensures x[i] == 0 {
      StartsMeaning(|pre|, header, |sigs|, i);
      ZeroBytes(a, sigs, i - |pre|);
    }
    assert ZeroScan.Blanked(x, starts) == x;
  }

  // ----- the protocol -----

  lemma FindAfter(pre: seq<Byte>, x: seq<Byte>, b: Byte)
    requires b !in pre && x != [] && x[0] == b
    ensures Find(pre + x, b) == Some(|pre|)
  {
    hide Find;
    assert (pre + x)[|pre|] == b;
    assert forall i | 0 <= i < |pre| :: (pre + x)[i] == pre[i] && pre[i] in pre;
  }

  lemma FindInside(pre: seq<Byte>, x: seq<Byte>, b: Byte)
    requires b in pre
    ensures Find(pre + x, b).Some? && Find(pre + x, b).value < |pre|
  {
    hide Find;
    var i :| 0 <= i < |pre| && pre[i] == b;
    assert (pre + x)[i] == b;
  }

  lemma ExtraTag(a: Action, sigs: seq<Signature>)
    requires a.Transfer?
    ensures ExtraBytes(a, sigs) != [] && ExtraBytes(a, sigs)[0] == TAG_TRANSFER
  {
  }

  /**
    The patch puts the signed transfer exactly where the zero one was if and only if no earlier byte looks like the
    tag and nothing follows the transfer, whatever is answered when the lengths do not match.
   */
  lemma ReplacedExactly(pre: seq<Byte>, a: Action, sigs: seq<Signature>, other: seq<Signature>, post: seq<Byte>,
                        proceed: bool)
    requires a.Transfer? && ValidSigs(sigs) && ValidSigs(other) && SameSigners(sigs, other)
    ensures Replaced(pre + ExtraBytes(a, sigs) + post, ExtraBytes(a, other), proceed) ==
            Some(pre + ExtraBytes(a, other) + post)
            <==> TAG_TRANSFER !in pre && post == []
  {
    hide ExtraBytes, HeaderBytes, InSignature, Find;
    var (zero, signed) := (ExtraBytes(a, sigs), ExtraBytes(a, other));
    BlobsAgree(a, sigs, other);
    ExtraTag(a, sigs);
    var data := pre + zero + post;
    assert data == pre + (zero + post);
    if TAG_TRANSFER in pre {
      FindInside(pre, zero + post, TAG_TRANSFER);
    } else {
      FindAfter(pre, zero + post, TAG_TRANSFER);
      assert data[..|pre|] == pre && pre + signed + [] == pre + signed && (pre == [] ==> pre + signed == signed);
    }
    var r := Replaced(data, signed, proceed);
    assert r.Some? && (TAG_TRANSFER in pre || post != []) ==> |r.value| < |pre + signed + post|;
  }

  /**
    The signing theorem. The extra field is a run of fields the scan crosses exactly, holding no byte like the
    transfer tag, followed by the transfer with any signatures. Injecting other signatures of the same signers gives
    the transaction with those signatures, the bytes hashed for it are the bytes hashed before, and the two blobs
    differ only inside signatures.
   */
  lemma SigningStable(p: Prefix, rest: seq<Byte>, pre: seq<Byte>, a: Action, sigs: seq<Signature>,
                      other: seq<Signature>, proceed: bool)
    requires ValidPrefix(p) && p.extra == pre + ExtraBytes(a, sigs)
    requires Crosses(pre, 0) && TAG_TRANSFER !in pre
    requires a.Transfer? && ValidAction(a) && ValidSigs(sigs) && ValidSigs(other) && SameSigners(sigs, other)
    ensures var blob := Print(p) + rest;
            var q := p.(extra := pre + ExtraBytes(a, other));
            var patched := Print(q) + rest;
            var header := |PrintHead(p)| + |Encoded(|p.extra|)| + |pre| + |HeaderBytes(a, |sigs|)|;
            && Patched(blob, ExtraBytes(a, other), proceed) == Some(patched)
            && HashedBytes(blob).Some? && HashedBytes(patched) == HashedBytes(blob)
            && |patched| == |blob|
            && forall i | 0 <= i < |blob| :: InSignature(i, header, |sigs|) || patched[i] == blob[i]
  {
    hide ExtraBytes, HeaderBytes, InSignature, Crosses, Replaced, Patched, HashedBytes, ZeroScan.Scanned, PrintHead;
    hide Encoded, ValidPrefix, ValidSigs;
    var q := p.(extra := pre + ExtraBytes(a, other));
    BlobsAgree(a, sigs, other);
    SameHead(p, q);
    PatchedPrinted(p, rest, ExtraBytes(a, other), proceed);
    ReplacedExactly(pre, a, sigs, other, [], proceed);
    assert pre + ExtraBytes(a, sigs) + [] == p.extra && pre + ExtraBytes(a, other) + [] == q.extra;
    HashedPrinted(p, rest);
    HashedPrinted(q, rest);
    ScanStable(pre, a, sigs, other);
    BlobPositions(PrintHead(p) + Encoded(|p.extra|) + pre, a, sigs, other, rest);
    assert PrintHead(p) + (Encoded(|p.extra|) + q.extra) + rest == Print(q) + rest;
    assert PrintHead(p) + Encoded(|p.extra|) + pre + ExtraBytes(a, sigs) + rest == Print(p) + rest;
    assert PrintHead(p) + Encoded(|p.extra|) + pre + ExtraBytes(a, other) + rest == Print(q) + rest;
  }

  /** What is hashed for a signed transaction is the transaction prefix that carries zero signatures. */
  lemma HashedIsZeroed(p: Prefix, rest: seq<Byte>, pre: seq<Byte>, a: Action, sigs: seq<Signature>)
    requires ValidPrefix(p) && p.extra == pre + ExtraBytes(a, sigs)
    requires Crosses(pre, 0) && a.Transfer? && ValidAction(a) && ValidSigs(sigs)
    ensures HashedBytes(Print(p) + rest) == Some(Print(p.(extra := pre + ExtraBytes(a, ZeroSigs(sigs)))))
  {
    hide ExtraBytes, HeaderBytes, InSignature, Crosses, HashedBytes, ZeroScan.Scanned, PrintHead, Encoded;
    hide ValidPrefix, ValidSigs, ZeroSigs;
    var (zeros, q) := (ZeroSigs(sigs), p.(extra := pre + ExtraBytes(a, ZeroSigs(sigs))));
    BlobsAgree(a, sigs, zeros);
    SameHead(p, q);
    HashedPrinted(p, rest);
    ScanStable(pre, a, sigs, zeros);
    ScanZero(pre, a, sigs);
  }

  lemma SameHead(p: Prefix, q: Prefix)
    requires q == p.(extra := q.extra)
    ensures PrintHead(q) == PrintHead(p) && (ValidPrefix(p) ==> ValidPrefix(q))
  {
  }

  lemma BlobPositions(front: seq<Byte>, a: Action, sigs: seq<Signature>, other: seq<Signature>, rest: seq<Byte>)
    requires ValidSigs(sigs) && ValidSigs(other) && SameSigners(sigs, other)
    ensures var (s, t) := (front + ExtraBytes(a, sigs) + rest, front + ExtraBytes(a, other) + rest);
            && |s| == |t|
            && forall i | 0 <= i < |s| :: InSignature(i, |front| + |HeaderBytes(a, |sigs|)|, |sigs|) || t[i] == s[i]
  {
    hide ExtraBytes, HeaderBytes;
    BlobsAgree(a, sigs, other);
    var (s, t) := (front + ExtraBytes(a, sigs) + rest, front + ExtraBytes(a, other) + rest);
    var header := |HeaderBytes(a, |sigs|)|;
    forall i | 0 <= i < |s| ensures InSignature(i, |front| + header, |sigs|) || t[i] == s[i] {
      if |front| <= i < |front| + |ExtraBytes(a, sigs)| {
        assert InSignature(i - |front|, header, |sigs|) ||
          ExtraBytes(a, sigs)[i - |front|] == ExtraBytes(a, other)[i - |front|];
      }
    }
  }
}
