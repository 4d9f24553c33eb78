/**
  When signing works: for any bytes before a transfer, exactly when the hashed bytes never depend on the signatures, and
  exactly when the whole protocol goes through.
 */
module Stability {
  import opened Galois
  import opened Wrappers
  import opened Varint
  import opened Governance
  import opened TxPrefix
  import opened Signing
  import opened ExtraFields
  import ZeroScan

  // ----- where the scan ends up -----

  /**
    From off the scan comes to the transfer behind pre: it lands on the end of pre, stepping over fields and over whole
    transfers, or it meets a tag whose amount runs on to the end of pre and so swallows the tag of the transfer.
   */
  ghost predicate Lands(pre: seq<Byte>, off: nat)
    decreases |pre| - off
  {
    || off == |pre|
    || (off < |pre| && pre[off] != 0xB0 &&
        var next := ZeroScan.Skip(pre, off);
        next.Some? && Lands(pre, next.value))
    || (off < |pre| && pre[off] == 0xB0 &&
        (Read(pre, off + 1).None? ||
         var inner := ZeroScan.TransferAt(pre, off);
         && inner.Some? && inner.value.0 + 96 * inner.value.1 <= |pre|
         && Lands(pre, inner.value.0 + 96 * inner.value.1)))
  }

  lemma {:induction false} CrossesLands(pre: seq<Byte>, off: nat)
    requires Crosses(pre, off)
    ensures Lands(pre, off)
    decreases |pre| - off
  {
    hide ZeroScan.Skip;
    if off < |pre| { CrossesLands(pre, ZeroScan.Skip(pre, off).value); }
  }

  /** Without a byte like the tag there is nothing but fields to step over. */
  lemma {:induction false} LandsCrosses(pre: seq<Byte>, off: nat)
    requires Lands(pre, off) && TAG_TRANSFER !in pre
    ensures Crosses(pre, off)
    decreases |pre| - off
  {
    hide ZeroScan.Skip, ZeroScan.TransferAt, Read;
    if off < |pre| {
      assert pre[off] in pre;
      LandsCrosses(pre, ZeroScan.Skip(pre, off).value);
    }
  }

  /** From front, crossed exactly, the walk goes on where it would start behind it. */
  lemma {:induction false} WalkFrom(front: seq<Byte>, x: seq<Byte>, off: nat)
    requires Crosses(front, off)
    ensures Lands(front + x, off) <==> Lands(front + x, |front|)
    decreases |front| - off
  {
    hide ZeroScan.Skip, ZeroScan.TransferAt, Read;
    if off < |front| {
      SkipExtended(front, x, off);
      WalkFrom(front, x, ZeroScan.Skip(front, off).value);
    }
  }

  // ----- landing keeps the hashed bytes -----

  lemma TransferExtended(pre: seq<Byte>, x: seq<Byte>, off: nat)
    requires off < |pre| && ZeroScan.TransferAt(pre, off).Some?
    ensures ZeroScan.TransferAt(pre + x, off) == ZeroScan.TransferAt(pre, off)
  {
    hide Read;
    ReadLocal(pre, pre + x, off + 1);
    ReadLocal(pre, pre + x, Read(pre, off + 1).value.1 + 64);
  }

  /** A varint that the end of pre cuts off reads on over the tag and over the varint behind it. */
  lemma {:induction false} ReadOver(pre: seq<Byte>, v: nat, post: seq<Byte>, off: nat)
    requires off <= |pre| && Read(pre, off).None?
    ensures var r := Read(pre + [TAG_TRANSFER] + Encoded(v) + post, off);
            r.Some? && r.value.1 == |pre| + 1 + |Encoded(v)|
    decreases |pre| - off
  {
    var s := pre + [TAG_TRANSFER] + Encoded(v) + post;
    if off < |pre| {
      ReadOver(pre, v, post, off + 1);
    } else {
      ReadEncoded(v, pre + [TAG_TRANSFER], post);
    }
  }

  /** A tag whose amount runs into the transfer has its signature count and its signatures. */
  lemma SwallowedTag(pre: seq<Byte>, a: Action, sigs: seq<Signature>, off: nat)
    requires a.Transfer? && ValidAction(a) && off < |pre| && Read(pre, off + 1).None?
    ensures ZeroScan.TransferAt(pre + ExtraBytes(a, sigs), off) == Some((|pre| + |HeaderBytes(a, |sigs|)|, |sigs|))
  {
    hide Read, Encoded, SigBytes, ExtraBytes;
    var (front, keys, tail) := (pre + [TAG_TRANSFER] + Encoded(a.amount), a.spend + a.view, SigBytes(sigs));
    var s := front + keys + Encoded(|sigs|) + tail;
    TransferLayout(pre, a, sigs);
    Assoc(front, keys, Encoded(|sigs|));
    Assoc(front, keys + Encoded(|sigs|), tail);
    ReadOver(pre, a.amount, keys + Encoded(|sigs|) + tail, off + 1);
    ReadAt(front + keys, |sigs|, tail, s);
  }

  lemma PlanSkips(s: seq<Byte>, off: nat)
    requires off < |s| && s[off] != 0xB0 && ZeroScan.Skip(s, off).Some?
    ensures ZeroScan.Plan(s, off) == ZeroScan.Plan(s, ZeroScan.Skip(s, off).value)
  {
    hide ZeroScan.Skip;
  }

  lemma LastTransfer(s: seq<Byte>, off: nat, first: nat, count: nat)
    requires off < |s| && s[off] == 0xB0 && ZeroScan.TransferAt(s, off) == Some((first, count))
    requires first + 96 * count == |s|
    ensures ZeroScan.Plan(s, off) == Some(ZeroScan.Starts(first, count))
  {
    hide ZeroScan.Plan, ZeroScan.TransferAt, ZeroScan.Starts;
    ZeroScan.PlanTransfer(s, off);
    PlanPastEnd(s);
    assert ZeroScan.Starts(first, count) + [] == ZeroScan.Starts(first, count);
  }

  /** Wherever the scan lands, every signature of the transfer is blanked. */
  lemma {:induction false} LandingCovers(pre: seq<Byte>, a: Action, sigs: seq<Signature>, off: nat, pos: int)
    requires Lands(pre, off) && a.Transfer? && ValidAction(a) && ValidSigs(sigs)
    ensures var plan := ZeroScan.Plan(pre + ExtraBytes(a, sigs), off);
            && plan.Some?
            && (InSignature(pos - |pre|, |HeaderBytes(a, |sigs|)|, |sigs|) ==> ZeroScan.Covered(pos, plan.value))
    decreases |pre| - off
  {
    hide Read, ExtraBytes, HeaderBytes, InSignature, SigBytes, ValidSigs;
    hide ZeroScan.Plan, ZeroScan.Covered, ZeroScan.Starts, ZeroScan.Skip, ZeroScan.TransferAt;
    var (s, header) := (pre + ExtraBytes(a, sigs), |HeaderBytes(a, |sigs|)|);
    StartsMeaning(|pre|, header, |sigs|, pos);
    if off == |pre| {
      TransferPlan(pre, a, sigs);
    } else if pre[off] != 0xB0 {
      SkipExtended(pre, ExtraBytes(a, sigs), off);
      PlanSkips(s, off);
      LandingCovers(pre, a, sigs, ZeroScan.Skip(pre, off).value, pos);
    } else if Read(pre, off + 1).None? {
      SwallowedTag(pre, a, sigs, off);
      BlobsAgree(a, sigs, sigs);
      LastTransfer(s, off, |pre| + header, |sigs|);
    } else {
      var (first, count) := ZeroScan.TransferAt(pre, off).value;
      TransferExtended(pre, ExtraBytes(a, sigs), off);
      ZeroScan.PlanTransfer(s, off);
      LandingCovers(pre, a, sigs, first + 96 * count, pos);
      ZeroScan.CoveredConcat(pos, ZeroScan.Starts(first, count), ZeroScan.Plan(s, first + 96 * count).value);
    }
  }

  /** Two extra fields of one length hash alike in a transaction exactly when the scan gives the same bytes. */
  lemma HashedAlike(p: Prefix, rest: seq<Byte>, x: seq<Byte>, y: seq<Byte>)
    requires ValidPrefix(p) && |x| == |y|
    ensures HashedBytes(Print(p.(extra := x)) + rest) == HashedBytes(Print(p.(extra := y)) + rest)
            <==> ZeroScan.Scanned(x) == ZeroScan.Scanned(y)
  {
    hide HashedBytes, ZeroScan.Scanned, Print, PrintHead, Encoded;
    var (q, r) := (p.(extra := x), p.(extra := y));
    SameHead(q, r);
    HashedPrinted(q, rest);
    HashedPrinted(r, rest);
    var head := PrintHead(q) + Encoded(|x|);
    if ZeroScan.Scanned(x).Some? && ZeroScan.Scanned(y).Some? {
      assert (head + ZeroScan.Scanned(x).value)[|head|..] == ZeroScan.Scanned(x).value;
      assert (head + ZeroScan.Scanned(y).value)[|head|..] == ZeroScan.Scanned(y).value;
    }
  }

  lemma LandingStable(p: Prefix, rest: seq<Byte>, pre: seq<Byte>, a: Action, sigs: seq<Signature>,
                      other: seq<Signature>)
    requires ValidPrefix(p) && Lands(pre, 0)
    requires a.Transfer? && ValidAction(a) && ValidSigs(sigs) && ValidSigs(other) && SameSigners(sigs, other)
    ensures HashedBytes(Print(p.(extra := pre + ExtraBytes(a, sigs))) + rest) ==
            HashedBytes(Print(p.(extra := pre + ExtraBytes(a, other))) + rest)
  {
    hide HashedBytes, Print, ExtraBytes, Lands, ValidPrefix, ValidSigs, InSignature, HeaderBytes;
    hide ZeroScan.Scanned, ZeroScan.Plan, ZeroScan.Covered;
    var (s, t) := (pre + ExtraBytes(a, sigs), pre + ExtraBytes(a, other));
    BlobsAgree(a, sigs, other);
    LandingCovers(pre, a, sigs, 0, 0);
    forall i | 0 <= i < |s| && !ZeroScan.Covered(i, ZeroScan.Plan(s, 0).value) ensures s[i] == t[i] {
      LandingCovers(pre, a, sigs, 0, i);
    }
    ZeroScan.ScanInsensitive(s, t);
    HashedAlike(p, rest, s, t);
  }

  // ----- a transfer that the scan misses -----

  function Bytes(b: Byte, n: nat): (s: seq<Byte>)
    ensures |s| == n && forall i | 0 <= i < n :: s[i] == b
  {
    seq(n, _ => b)
  }

  /** Bytes that start no field with a length and no transfer. */
  ghost predicate Plain(s: seq<Byte>, from: nat) {
    forall k | from <= k < |s| :: s[k] in [0, 1, 5, 128]
  }

  lemma {:induction false} NothingPlanned(s: seq<Byte>, off: nat)
    requires Plain(s, off)
    ensures ZeroScan.Plan(s, off) == Some([])
    decreases |s| - off
  {
    if off < |s| {
      NothingPlanned(s, if s[off] == 1 then off + 33 else off + 1);
    }
  }

  /** The tag, the amount and the keys of a transfer of nothing to the all-zero keys. */
  function Front(): (s: seq<Byte>)
    ensures |s| == 66 && s[0] == TAG_TRANSFER && forall i | 1 <= i < 66 :: s[i] == 0
  {
    [TAG_TRANSFER] + Bytes(0, 65)
  }

  /** What may follow pre to show what a scan that does not land misses. */
  ghost predicate Harmless(g: seq<Byte>) {
    |g| >= 66 && g[..66] == Front() && Plain(g, 1)
  }

  lemma {:induction false} ReadEnds(s: seq<Byte>, off: nat)
    requires off < |s| && s[|s| - 1] < 128
    ensures Read(s, off).Some?
    decreases |s| - off
  {
    if off < |s| - 1 { ReadEnds(s, off + 1); }
  }

  /** Reading near the end of pre sees no more than the front of what follows. */
  lemma ReadFront(pre: seq<Byte>, g: seq<Byte>, off: nat)
    requires off < |pre| + 66 && Harmless(g)
    ensures Read(pre + Front(), off).Some? && Read(pre + g, off) == Read(pre + Front(), off)
  {
    hide Read;
    var s := pre + Front();
    ReadEnds(s, off);
    assert forall i | 0 <= i < |s| :: s[i] == (pre + g)[i] by {
      assert forall i | 0 <= i < 66 :: g[i] == g[..66][i];
    }
    ReadLocal(s, pre + g, off);
  }

  /** A varint that does not end in pre ends behind it. */
  lemma ReadPast(pre: seq<Byte>, g: seq<Byte>, off: nat)
    requires off <= |pre| && Read(pre, off).None? && Read(pre + g, off).Some?
    ensures Read(pre + g, off).value.1 > |pre|
  {
    hide Read;
    if Read(pre + g, off).value.1 <= |pre| { ReadLocal(pre + g, pre, off); }
  }

  lemma SkipOver(pre: seq<Byte>, g: seq<Byte>, off: nat)
    requires off < |pre| && pre[off] != 0xB0 && ZeroScan.Skip(pre, off).None? && Harmless(g)
    ensures ZeroScan.Skip(pre + g, off).Some? && ZeroScan.Skip(pre + g, off).value > |pre|
  {
    hide Read, Harmless;
    ReadFront(pre, g, off + 1);
    ReadPast(pre, g, off + 1);
  }

  /** How far behind pre a transfer met inside pre may blank. */
  ghost function Reach(pre: seq<Byte>, off: nat): nat
    decreases |pre| - off
  {
    if off >= |pre| then 0
    else if pre[off] != 0xB0 then
      var next := ZeroScan.Skip(pre, off);
      if next.Some? then Reach(pre, next.value) else 0
    else
      var amount := Read(pre, off + 1);
      if amount.None? then 0
      else
        var count := Read(pre + Front(), amount.value.1 + 64);
        if count.None? then 0
        else
          var end := count.value.1 + 96 * count.value.0;
          if end <= |pre| then Reach(pre, end) else end - |pre|
  }

  /** A transfer met inside pre, read with what follows. */
  lemma InnerTransfer(pre: seq<Byte>, g: seq<Byte>, off: nat)
    requires off < |pre| && pre[off] == 0xB0 && Read(pre, off + 1).Some? && Harmless(g)
    ensures var count := Read(pre + Front(), Read(pre, off + 1).value.1 + 64);
            && count.Some?
            && ZeroScan.TransferAt(pre + g, off) == Some((count.value.1, count.value.0))
            && (count.value.1 <= |pre| ==> ZeroScan.TransferAt(pre, off) == Some((count.value.1, count.value.0)))
  {
    hide Read, Harmless, Front;
    var a := Read(pre, off + 1).value.1;
    ReadLocal(pre, pre + g, off + 1);
    ReadFront(pre, g, a + 64);
    if Read(pre + Front(), a + 64).value.1 <= |pre| { ReadLocal(pre + Front(), pre, a + 64); }
  }

  lemma PlainBehind(pre: seq<Byte>, g: seq<Byte>, off: nat)
    requires Harmless(g) && off > |pre|
    ensures ZeroScan.Plan(pre + g, off) == Some([])
  {
    hide ZeroScan.Plan;
    NothingPlanned(pre + g, off);
  }

  /** A scan that does not land blanks nothing beyond its reach, however long the transfer is. */
  lemma {:induction false} Misses(pre: seq<Byte>, g: seq<Byte>, off: nat, i: nat)
    requires !Lands(pre, off) && Harmless(g) && |g| > Reach(pre, off)
    ensures var plan := ZeroScan.Plan(pre + g, off);
            plan.Some? && (i < |plan.value| ==> plan.value[i] + 64 <= |pre| + Reach(pre, off))
    decreases |pre| - off
  {
    hide ZeroScan.Skip, ZeroScan.Plan, ZeroScan.TransferAt, Read, Front, Harmless;
    var s := pre + g;
    if off > |pre| {
      PlainBehind(pre, g, off);
    } else if pre[off] != 0xB0 {
      var next := ZeroScan.Skip(pre, off);
      if next.Some? {
        SkipExtended(pre, g, off);
        PlanSkips(s, off);
        Misses(pre, g, next.value, i);
      } else {
        SkipOver(pre, g, off);
        PlanSkips(s, off);
        PlainBehind(pre, g, ZeroScan.Skip(s, off).value);
      }
    } else {
      InnerTransfer(pre, g, off);
      ZeroScan.PlanTransfer(s, off);
      var (first, count) := ZeroScan.TransferAt(s, off).value;
      var end := first + 96 * count;
      if end <= |pre| {
        Misses(pre, g, end, if i < count then 0 else i - count);
      } else {
        PlainBehind(pre, g, end);
      }
    }
  }

  // ----- sample transfers of any length -----

  function Pow128(k: nat): (n: nat)
    ensures n >= 1
  {
    if k == 0 then 1 else 128 * Pow128(k - 1)
  }

  lemma {:induction false} PowerBeyond(n: nat)
    ensures Pow128(n) > n
  {
    if n > 0 { PowerBeyond(n - 1); }
  }

  lemma {:induction false} EncodedPower(k: nat)
    ensures Plain(Encoded(Pow128(k)), 0)
  {
    if k > 0 {
      EncodedPower(k - 1);
      assert Encoded(Pow128(k)) == [128] + Encoded(Pow128(k - 1));
    }
  }

  /** A transfer of nothing to the all-zero keys. */
  function SampleTransfer(): Action {
    Action.Transfer(0, Bytes(0, 32), Bytes(0, 32))
  }

  /** n signers with the all-zero key, whose signatures repeat one byte. */
  function SampleSigs(b: Byte, n: nat): (sigs: seq<Signature>)
    ensures |sigs| == n && forall i | 0 <= i < n :: sigs[i] == Signature(Bytes(0, 32), Bytes(b, 64))
  {
    seq(n, _ => Signature(Bytes(0, 32), Bytes(b, 64)))
  }

  lemma SampleSigBytes(b: Byte, n: nat)
    requires b in [0, 5] && n >= 1
    ensures var t := SigBytes(SampleSigs(b, n)); |t| == 96 * n && Plain(t, 0) && t[|t| - 1] == b
  {
    hide SigBytes, SampleSigs;
    var sigs := SampleSigs(b, n);
    var t := SigBytes(sigs);
    SigLength(sigs);
    forall k | 0 <= k < |t| ensures t[k] in [0, 1, 5, 128] { SigByteAt(sigs, k / 96, k % 96); }
    SigByteAt(sigs, n - 1, 95);
  }

  lemma SampleFront(sigs: seq<Signature>)
    ensures ExtraBytes(SampleTransfer(), sigs) == Front() + Encoded(|sigs|) + SigBytes(sigs)
  {
    assert Encoded(0) == [0];
    hide Encoded, SigBytes;
    assert [TAG_TRANSFER] + [0] + Bytes(0, 32) + Bytes(0, 32) == Front();
  }

  lemma SampleBytes(b: Byte, k: nat)
    requires b in [0, 5]
    ensures var g := ExtraBytes(SampleTransfer(), SampleSigs(b, Pow128(k)));
            Harmless(g) && |g| > 96 * Pow128(k) && g[|g| - 1] == b
  {
    hide SigBytes, SampleSigs, Pow128, Encoded, ExtraBytes, Front;
    SampleFront(SampleSigs(b, Pow128(k)));
    EncodedPower(k);
    SampleSigBytes(b, Pow128(k));
  }

  // ----- the hashed bytes -----

  /** Signatures never change the hashed bytes of a transaction whose extra field is pre followed by a transfer. */
  ghost predicate Stable(p: Prefix, rest: seq<Byte>, pre: seq<Byte>) {
    forall a: Action, sigs: seq<Signature>, other: seq<Signature> |
      a.Transfer? && ValidAction(a) && ValidSigs(sigs) && ValidSigs(other) && SameSigners(sigs, other) ::
      HashedBytes(Print(p.(extra := pre + ExtraBytes(a, sigs))) + rest) ==
      HashedBytes(Print(p.(extra := pre + ExtraBytes(a, other))) + rest)
  }

  /** The last byte of a missed transfer survives the scan. */
  lemma LastByteKept(pre: seq<Byte>, g: seq<Byte>)
    requires !Lands(pre, 0) && Harmless(g) && |g| > Reach(pre, 0)
    ensures var r := ZeroScan.Scanned(pre + g);
            r.Some? && |r.value| == |pre + g| && r.value[|pre + g| - 1] == g[|g| - 1]
  {
    hide Lands, Harmless, Reach, ZeroScan.Plan;
    var (s, last) := (pre + g, |pre + g| - 1);
    Misses(pre, g, 0, 0);
    var plan := ZeroScan.Plan(s, 0).value;
    forall i | 0 <= i < |plan| ensures plan[i] + 64 <= last { Misses(pre, g, 0, i); }
    assert !ZeroScan.Covered(last, plan);
  }

  lemma MissedUnstable(p: Prefix, rest: seq<Byte>, pre: seq<Byte>)
    requires ValidPrefix(p) && !Lands(pre, 0)
    ensures !Stable(p, rest, pre)
  {
    hide HashedBytes, ZeroScan.Scanned, Print, ExtraBytes, Lands, Harmless, Reach, ValidPrefix, Pow128;
    hide InSignature, HeaderBytes;
    var (a, k) := (SampleTransfer(), Reach(pre, 0));
    var (sigs, other) := (SampleSigs(0, Pow128(k)), SampleSigs(5, Pow128(k)));
    PowerBeyond(k);
    SampleBytes(0, k);
    SampleBytes(5, k);
    LastByteKept(pre, ExtraBytes(a, sigs));
    LastByteKept(pre, ExtraBytes(a, other));
    BlobsAgree(a, sigs, other);
    HashedAlike(p, rest, pre + ExtraBytes(a, sigs), pre + ExtraBytes(a, other));
    assert ValidAction(a) && SameSigners(sigs, other);
  }

  /**
    For any bytes before the transfer: the hashed bytes never depend on the signatures if and only if the scan lands.
   */
  lemma StableExactly(p: Prefix, rest: seq<Byte>, pre: seq<Byte>)
    requires ValidPrefix(p)
    ensures Stable(p, rest, pre) <==> Lands(pre, 0)
  {
    hide HashedBytes, Print, ExtraBytes, Lands, ValidPrefix, ValidSigs;
    if Lands(pre, 0) {
      forall a: Action, sigs: seq<Signature>, other: seq<Signature> |
        a.Transfer? && ValidAction(a) && ValidSigs(sigs) && ValidSigs(other) && SameSigners(sigs, other)
        ensures HashedBytes(Print(p.(extra := pre + ExtraBytes(a, sigs))) + rest) ==
                HashedBytes(Print(p.(extra := pre + ExtraBytes(a, other))) + rest)
      {
        LandingStable(p, rest, pre, a, sigs, other);
      }
    } else {
      MissedUnstable(p, rest, pre);
    }
  }

  // ----- the whole protocol -----

  /** Any signatures can be injected behind pre: the patch hits, and the hashed bytes stay the same. */
  ghost predicate SigningWorks(p: Prefix, rest: seq<Byte>, pre: seq<Byte>) {
    forall a: Action, sigs: seq<Signature>, other: seq<Signature>, proceed: bool |
      a.Transfer? && ValidAction(a) && ValidSigs(sigs) && ValidSigs(other) && SameSigners(sigs, other) ::
      var blob := Print(p.(extra := pre + ExtraBytes(a, sigs))) + rest;
      var patched := Print(p.(extra := pre + ExtraBytes(a, other))) + rest;
      Patched(blob, ExtraBytes(a, other), proceed) == Some(patched) && HashedBytes(patched) == HashedBytes(blob)
  }

  lemma WorksStable(p: Prefix, rest: seq<Byte>, pre: seq<Byte>)
    ensures SigningWorks(p, rest, pre) ==> Stable(p, rest, pre)
  {
    hide HashedBytes, Patched, Print, ExtraBytes, ValidSigs, SameSigners;
    if SigningWorks(p, rest, pre) {
      forall a: Action, sigs: seq<Signature>, other: seq<Signature> |
        a.Transfer? && ValidAction(a) && ValidSigs(sigs) && ValidSigs(other) && SameSigners(sigs, other)
        ensures HashedBytes(Print(p.(extra := pre + ExtraBytes(a, sigs))) + rest) ==
                HashedBytes(Print(p.(extra := pre + ExtraBytes(a, other))) + rest)
      {
        var blob := Print(p.(extra := pre + ExtraBytes(a, sigs))) + rest;
        assert Patched(blob, ExtraBytes(a, other), true).Some?;
      }
    }
  }

  lemma Injected(p: Prefix, rest: seq<Byte>, pre: seq<Byte>, a: Action, sigs: seq<Signature>, other: seq<Signature>,
                 proceed: bool)
    requires ValidPrefix(p) && Crosses(pre, 0) && TAG_TRANSFER !in pre
    requires a.Transfer? && ValidAction(a) && ValidSigs(sigs) && ValidSigs(other) && SameSigners(sigs, other)
    ensures var blob := Print(p.(extra := pre + ExtraBytes(a, sigs))) + rest;
            var patched := Print(p.(extra := pre + ExtraBytes(a, other))) + rest;
            && Patched(blob, ExtraBytes(a, other), proceed) == Some(patched)
            && HashedBytes(patched) == HashedBytes(blob)
  {
    hide HashedBytes, Patched, Print, PrintHead, ExtraBytes, HeaderBytes, Encoded, Crosses, InSignature, ValidSigs;
    var q := p.(extra := pre + ExtraBytes(a, sigs));
    SameHead(p, q);
    SigningStable(q, rest, pre, a, sigs, other, proceed);
    assert q.(extra := pre + ExtraBytes(a, other)) == p.(extra := pre + ExtraBytes(a, other));
  }

  lemma PrintedParts(p: Prefix)
    ensures Print(p) == PrintHead(p) + Encoded(|p.extra|) + p.extra
  {
    hide PrintHead, Encoded;
  }

  lemma Cancelled(head: seq<Byte>, x: seq<Byte>, y: seq<Byte>, rest: seq<Byte>)
    ensures head + x + rest == head + y + rest <==> x == y
  {
    var (s, t) := (head + x + rest, head + y + rest);
    assert |x| == |s| - |head| - |rest| && |y| == |t| - |head| - |rest|;
    assert x == s[|head|..|head| + |x|] && y == t[|head|..|head| + |y|];
  }

  /** A byte like the tag before the transfer misleads the patch. */
  lemma PatchMisses(p: Prefix, rest: seq<Byte>, pre: seq<Byte>)
    requires ValidPrefix(p) && TAG_TRANSFER in pre
    ensures !SigningWorks(p, rest, pre)
  {
    hide HashedBytes, Patched, Print, PrintHead, ExtraBytes, HeaderBytes, Encoded, Replaced;
    var (a, sigs) := (SampleTransfer(), SampleSigs(0, 1));
    var (g, data) := (ExtraBytes(a, sigs), Replaced(pre + ExtraBytes(a, sigs), ExtraBytes(a, sigs), true));
    var q := p.(extra := pre + g);
    SameHead(p, q);
    PatchedPrinted(q, rest, g, true);
    ReplacedExactly(pre, a, sigs, sigs, [], true);
    assert pre + g + [] == pre + g;
    PrintedParts(q);
    var head := PrintHead(q) + Encoded(|q.extra|);
    if data.Some? {
      Cancelled(head, data.value, q.extra, rest);
      Assoc(PrintHead(q), Encoded(|q.extra|), data.value);
    }
    assert Patched(Print(q) + rest, g, true) != Some(Print(q) + rest);
    assert SameSigners(sigs, sigs);
  }

  /**
    For any bytes before the transfer: signing works if and only if they hold no byte like the tag and the scan lands
    exactly on their end.
   */
  lemma SigningExactly(p: Prefix, rest: seq<Byte>, pre: seq<Byte>)
    requires ValidPrefix(p)
    ensures SigningWorks(p, rest, pre) <==> TAG_TRANSFER !in pre && Crosses(pre, 0)
  {
    hide HashedBytes, Patched, Print, ExtraBytes, Crosses, Lands, ValidPrefix, ValidSigs, SameSigners;
    if TAG_TRANSFER in pre {
      PatchMisses(p, rest, pre);
    } else if Crosses(pre, 0) {
      forall a: Action, sigs: seq<Signature>, other: seq<Signature>, proceed: bool |
        a.Transfer? && ValidAction(a) && ValidSigs(sigs) && ValidSigs(other) && SameSigners(sigs, other)
        ensures var blob := Print(p.(extra := pre + ExtraBytes(a, sigs))) + rest;
                var patched := Print(p.(extra := pre + ExtraBytes(a, other))) + rest;
                && Patched(blob, ExtraBytes(a, other), proceed) == Some(patched)
                && HashedBytes(patched) == HashedBytes(blob)
      {
        Injected(p, rest, pre, a, sigs, other, proceed);
      }
    } else {
      if Lands(pre, 0) { LandsCrosses(pre, 0); }
      MissedUnstable(p, rest, pre);
      WorksStable(p, rest, pre);
    }
  }

  /**
    Behind a transaction key alone, as a wallet writes it, signing works if and only if no byte of the key is the tag.
   */
  lemma KeyAlone(p: Prefix, rest: seq<Byte>, key: seq<Byte>)
    requires ValidPrefix(p) && |key| == 32
    ensures SigningWorks(p, rest, FieldBytes(PubKey(key))) <==> TAG_TRANSFER !in key
  {
    hide SigningWorks, ValidPrefix;
    LastFieldCross([], PubKey(key));
    assert [] + FieldBytes(PubKey(key)) == FieldBytes(PubKey(key));
    SigningExactly(p, rest, FieldBytes(PubKey(key)));
  }

  /** A lone byte like the tag is swallowed: the hashed bytes are right all the same, and only the patch goes wrong. */
  lemma TagSwallowed(p: Prefix, rest: seq<Byte>)
    requires ValidPrefix(p)
    ensures Stable(p, rest, [TAG_TRANSFER]) && !SigningWorks(p, rest, [TAG_TRANSFER])
  {
    hide Stable, SigningWorks, ValidPrefix;
    StableExactly(p, rest, [TAG_TRANSFER]);
    SigningExactly(p, rest, [TAG_TRANSFER]);
  }

  // ----- a nonce -----

  /** Where the scan goes on behind a nonce that stands at offset p: p + 1 bytes after the start of its payload. */
  function Landing(front: seq<Byte>, payload: seq<Byte>): nat {
    |front| + 1 + |Encoded(|payload|)| + |front| + 1
  }

  lemma NonceWalk(front: seq<Byte>, payload: seq<Byte>, later: seq<Byte>)
    requires Crosses(front, 0)
    ensures var pre := front + FieldBytes(Nonce(payload)) + later;
            Lands(pre, 0) <==> Lands(pre, Landing(front, payload))
  {
    hide Encoded, Read;
    var pre := front + FieldBytes(Nonce(payload)) + later;
    VarintField(front, 0x02, |payload|, payload, later);
    WalkFrom(front, FieldBytes(Nonce(payload)) + later, 0);
    assert front + (FieldBytes(Nonce(payload)) + later) == pre;
  }

  /**
    A nonce behind fields crossed exactly, followed by any bytes: the hashed bytes never depend on the signatures if and
    only if the scan lands from the landing point on, be it inside the payload or in a later field.
   */
  lemma NonceThenFields(p: Prefix, rest: seq<Byte>, front: seq<Byte>, payload: seq<Byte>, later: seq<Byte>)
    requires ValidPrefix(p) && Crosses(front, 0)
    ensures var pre := front + FieldBytes(Nonce(payload)) + later;
            Stable(p, rest, pre) <==> Lands(pre, Landing(front, payload))
  {
    hide Stable, ValidPrefix, Lands;
    StableExactly(p, rest, front + FieldBytes(Nonce(payload)) + later);
    NonceWalk(front, payload, later);
  }

  /** So an empty nonce, one byte short, does no harm when a field of one byte follows: the scan lands behind that. */
  lemma MisalignedStable(p: Prefix, rest: seq<Byte>)
    requires ValidPrefix(p)
    ensures Stable(p, rest, FieldBytes(Nonce([])) + FieldBytes(Other(5)))
  {
    hide Stable, ValidPrefix;
    assert Encoded(0) == [0];
    var pre := [] + FieldBytes(Nonce([])) + [5];
    assert pre == FieldBytes(Nonce([])) + FieldBytes(Other(5)) == [2, 0, 5];
    NonceThenFields(p, rest, [], [], [5]);
  }

  /** A payload of n bytes in which a walk that starts at index k jumps over the end. */
  function SamplePayload(n: nat, k: nat): (s: seq<Byte>)
    ensures |s| == n
  {
    if n <= k then Bytes(0, n) else Bytes(0, n - 1) + [1]
  }

  lemma {:induction false} ZeroWalk(s: seq<Byte>, i: nat, j: nat)
    requires i <= j <= |s| && forall k | i <= k < j :: s[k] == 0
    ensures Lands(s, i) <==> Lands(s, j)
    decreases j - i
  {
    if i < j { ZeroWalk(s, i + 1, j); }
  }

  lemma SampleMissed(head: seq<Byte>, n: nat, k: nat)
    requires n != k
    ensures !Lands(head + SamplePayload(n, k), |head| + k)
  {
    var s := head + SamplePayload(n, k);
    if n > k { ZeroWalk(s, |head| + k, |s| - 1); }
  }

  /** Signing is stable behind front and any nonce of n bytes. */
  ghost predicate NonceStable(p: Prefix, rest: seq<Byte>, front: seq<Byte>, n: nat) {
    forall payload: seq<Byte> | |payload| == n :: Stable(p, rest, front + FieldBytes(Nonce(payload)))
  }

  lemma SampleUnstable(p: Prefix, rest: seq<Byte>, front: seq<Byte>, n: nat)
    requires ValidPrefix(p) && Crosses(front, 0) && n != |front| + 1
    ensures !NonceStable(p, rest, front, n)
  {
    hide Stable, Crosses, ValidPrefix, Lands, Encoded, SamplePayload;
    var payload := SamplePayload(n, |front| + 1);
    var (pre, head) := (front + FieldBytes(Nonce(payload)), front + [0x02] + Encoded(n));
    Regroup(front, [0x02], Encoded(n), payload, []);
    assert pre + [] == pre && payload + [] == payload;
    assert pre == head + payload;
    SampleMissed(head, n, |front| + 1);
    NonceThenFields(p, rest, front, payload, []);
  }

  /**
    Behind fields crossed exactly and directly before the transfer, a nonce of n bytes keeps signing stable whatever it
    holds if and only if n happens to be its offset plus one.
   */
  lemma NonceStableExactly(p: Prefix, rest: seq<Byte>, front: seq<Byte>, n: nat)
    requires ValidPrefix(p) && Crosses(front, 0)
    ensures NonceStable(p, rest, front, n) <==> n == |front| + 1
  {
    hide Stable, Crosses, FieldBytes, ValidPrefix, Lands;
    if n == |front| + 1 {
      forall payload: seq<Byte> | |payload| == n ensures Stable(p, rest, front + FieldBytes(Nonce(payload))) {
        LastFieldCross(front, Nonce(payload));
        CrossesLands(front + FieldBytes(Nonce(payload)), 0);
        StableExactly(p, rest, front + FieldBytes(Nonce(payload)));
      }
    } else {
      SampleUnstable(p, rest, front, n);
    }
  }

  /** A wallet's usual extra field, a transaction key and then an encrypted payment id, is such a case. */
  lemma PaymentIdUnstable(p: Prefix, rest: seq<Byte>, key: seq<Byte>)
    requires ValidPrefix(p) && |key| == 32
    ensures !NonceStable(p, rest, FieldBytes(PubKey(key)), 9)
  {
    hide NonceStable;
    LastFieldCross([], PubKey(key));
    assert [] + FieldBytes(PubKey(key)) == FieldBytes(PubKey(key));
    NonceStableExactly(p, rest, FieldBytes(PubKey(key)), 9);
  }
}
