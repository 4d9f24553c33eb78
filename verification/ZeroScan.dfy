/** The scan that blanks governance signatures inside the extra field before hashing. */
module ZeroScan {
  import opened Galois
  import opened Wrappers
  import opened Varint
  import opened Governance

  // ----- where the scan goes -----

  /** The offset after the field at off, for the fields the scan only skips. A nonce adds the absolute offset. */
  function Skip(s: seq<Byte>, off: nat): (r: Option<nat>)
    requires off < |s| && s[off] != 0xB0
    ensures r.Some? ==> r.value > off
  {
    if s[off] == 0x01 then Some(off + 33)
    else if s[off] == 0x02 then
      var (_, next) :- Read(s, off + 1);
      Some(off + 1 + next)
    else if s[off] == 0x03 then
      var (count, next) :- Read(s, off + 1);
      Some(next + count * 32)
    else if s[off] == 0x04 then
      var (len, next) :- Read(s, off + 1);
      Some(next + len)
    else if s[off] == 0xC0 then
      var (_, next) :- Read(s, off + 1);
      Some(next + 64)
    else Some(off + 1)
  }

  /** For a governance transfer: where its first signer key starts, and how many signatures follow. */
  function TransferAt(s: seq<Byte>, off: nat): (r: Option<(nat, nat)>)
    requires off < |s|
    ensures r.Some? ==> off < r.value.0 <= |s|
  {
    var (_, a) :- Read(s, off + 1);
    var (count, b) :- Read(s, a + 64);
    Some((b, count))
  }

  /** The starts of n signatures when the first signer key is at off. */
  function Starts(off: nat, n: nat): (r: seq<nat>)
    ensures |r| == n
    ensures forall i | 0 <= i < n :: r[i] == off + 96 * i + 32
  {
    seq(n, i requires 0 <= i < n => off + 96 * i + 32)
  }

  /** The starts of all signatures the scan will blank from off on; None when it raises. */
  function Plan(s: seq<Byte>, off: nat): Option<seq<nat>>
    decreases |s| - off
  {
    if off >= |s| then Some([])
    else if s[off] != 0xB0 then
      var next :- Skip(s, off);
      Plan(s, next)
    else
      var (first, count) :- TransferAt(s, off);
      if first + 96 * count > |s| then None else
      var rest :- Plan(s, first + 96 * count);
      Some(Starts(first, count) + rest)
  }

  predicate Covered(pos: int, starts: seq<nat>) {
    exists i | 0 <= i < |starts| :: starts[i] <= pos < starts[i] + 64
  }

  /** The bytes with every planned signature blanked. */
  function Blanked(s: seq<Byte>, starts: seq<nat>): (r: seq<Byte>)
    ensures |r| == |s|
    ensures forall i | 0 <= i < |s| :: r[i] == if Covered(i, starts) then 0 else s[i]
  {
    seq(|s|, i requires 0 <= i < |s| => if Covered(i, starts) then 0 else s[i])
  }

  /** The result of the scan over a whole extra field. */
  function Scanned(s: seq<Byte>): Option<seq<Byte>> {
    var starts :- Plan(s, 0);
    Some(Blanked(s, starts))
  }

  // ----- the scan never looks at a byte it blanks -----

  lemma {:induction false} PlanAhead(s: seq<Byte>, off: nat, i: nat)
    requires Plan(s, off).Some? && i < |Plan(s, off).value|
    ensures off < Plan(s, off).value[i] && Plan(s, off).value[i] + 64 <= |s|
    decreases |s| - off
  {
    hide Read;
    if s[off] != 0xB0 {
      PlanAhead(s, Skip(s, off).value, i);
    } else {
      var (first, count) := TransferAt(s, off).value;
      if i >= count { PlanAhead(s, first + 96 * count, i - count); }
    }
  }

  /** s and t agree from off on, except inside the planned signatures of s. */
  ghost predicate AgreeFrom(s: seq<Byte>, t: seq<Byte>, off: nat)
    requires Plan(s, off).Some?
  {
    |s| == |t| && forall i | off <= i < |s| && !Covered(i, Plan(s, off).value) :: s[i] == t[i]
  }

  /** A byte before the next planned signature is not covered. */
  lemma NotCovered(s: seq<Byte>, off: nat, pos: int)
    requires Plan(s, off).Some? && pos <= off
    ensures !Covered(pos, Plan(s, off).value)
  {
    hide Plan;
    if Covered(pos, Plan(s, off).value) {
      var i: nat :| i < |Plan(s, off).value| && Plan(s, off).value[i] <= pos < Plan(s, off).value[i] + 64;
      PlanAhead(s, off, i);
    }
  }

  lemma SameSkip(s: seq<Byte>, t: seq<Byte>, off: nat)
    requires off < |s| == |t| && s[off] == t[off] != 0xB0 && Skip(s, off).Some?
    requires forall i | off < i < Skip(s, off).value && i < |s| :: s[i] == t[i]
    ensures Skip(t, off) == Skip(s, off)
  {
    hide Read;
    if Read(s, off + 1).Some? && s[off] in [0x02, 0x03, 0x04, 0xC0] {
      assert Read(s, off + 1).value.1 <= Skip(s, off).value;
      ReadLocal(s, t, off + 1);
    }
  }

  lemma SameTransfer(s: seq<Byte>, t: seq<Byte>, off: nat)
    requires off < |s| == |t| && TransferAt(s, off).Some?
    requires forall i | off < i < TransferAt(s, off).value.0 :: s[i] == t[i]
    ensures TransferAt(t, off) == TransferAt(s, off)
  {
    hide Read;
    ReadLocal(s, t, off + 1);
    ReadLocal(s, t, Read(s, off + 1).value.1 + 64);
  }

  lemma StartsCover(first: nat, count: nat, pos: int)
    ensures Covered(pos, Starts(first, count)) ==> first + 32 <= pos < first + 96 * count
  {
  }

  lemma CoveredConcat(pos: int, a: seq<nat>, b: seq<nat>)
    ensures Covered(pos, a + b) <==> Covered(pos, a) || Covered(pos, b)
  {
    if Covered(pos, a) { var i :| 0 <= i < |a| && a[i] <= pos < a[i] + 64; assert (a + b)[i] == a[i]; }
    if Covered(pos, b) { var i :| 0 <= i < |b| && b[i] <= pos < b[i] + 64; assert (a + b)[|a| + i] == b[i]; }
  }

  /** Inputs that differ only in bytes the scan blanks lead it along the same path. */
  lemma {:induction false} SamePlan(s: seq<Byte>, t: seq<Byte>, off: nat)
    requires Plan(s, off).Some? && AgreeFrom(s, t, off)
    ensures Plan(t, off) == Plan(s, off)
    decreases |s| - off
  {
    hide Read, Covered, Skip, TransferAt, Starts;
    if off < |s| {
      NotCovered(s, off, off);
      if s[off] != 0xB0 {
        var next := Skip(s, off).value;
        forall i | off < i < next && i < |s| ensures s[i] == t[i] { NotCovered(s, next, i); }
        SameSkip(s, t, off);
        SamePlan(s, t, next);
      } else {
        var (first, count) := TransferAt(s, off).value;
        var end := first + 96 * count;
        var rest := Plan(s, end).value;
        forall i | off < i < |s| && (i < first || (i >= end && !Covered(i, rest))) ensures s[i] == t[i] {
          CoveredConcat(i, Starts(first, count), rest);
          StartsCover(first, count, i);
          if i < first { NotCovered(s, end, i); }
        }
        SameTransfer(s, t, off);
        SamePlan(s, t, end);
      }
    }
  }

  /** Two inputs that differ only in bytes the scan blanks have the same result. */
  lemma ScanInsensitive(s: seq<Byte>, t: seq<Byte>)
    requires Plan(s, 0).Some? && AgreeFrom(s, t, 0)
    ensures Scanned(t) == Scanned(s)
  {
    hide Plan, Covered;
    SamePlan(s, t, 0);
    assert Blanked(s, Plan(s, 0).value) == Blanked(t, Plan(s, 0).value);
  }

  /** The scan preserves the length, and scanning its result again changes nothing. */
  lemma ScanIdempotent(s: seq<Byte>)
    requires Scanned(s).Some?
    ensures |Scanned(s).value| == |s|
    ensures Scanned(Scanned(s).value) == Scanned(s)
  {
    hide Plan, Covered;
    ScanInsensitive(s, Scanned(s).value);
  }

  // ----- the in-place loop -----

  /** The array holds s with the signatures planned before off blanked. */
  ghost predicate Progress(s: seq<Byte>, now: seq<Byte>, off: nat, done: seq<nat>) {
    && now == Blanked(s, done)
    && (forall i | 0 <= i < |done| :: done[i] + 64 <= off)
    && Plan(s, 0) == (if Plan(s, off).None? then None else Some(done + Plan(s, off).value))
  }

  lemma ProgressSuffix(s: seq<Byte>, now: seq<Byte>, off: nat, done: seq<nat>)
    requires Progress(s, now, off, done)
    ensures |now| == |s| && forall i | off <= i < |s| :: now[i] == s[i]
  {
    hide Plan;
  }

  lemma {:induction false} ReadSuffix(s: seq<Byte>, t: seq<Byte>, off: nat)
    requires |s| == |t| && forall i | off <= i < |s| :: s[i] == t[i]
    ensures Read(s, off) == Read(t, off)
    decreases |s| - off
  {
    if off < |s| { ReadSuffix(s, t, off + 1); }
  }

  lemma ProgressSkip(s: seq<Byte>, now: seq<Byte>, off: nat, done: seq<nat>)
    requires Progress(s, now, off, done) && off < |s| && now[off] != 0xB0
    ensures Skip(now, off) == Skip(s, off)
    ensures if Skip(s, off).None? then Plan(s, 0).None? else Progress(s, now, Skip(s, off).value, done)
  {
    hide Read, Covered;
    ProgressSuffix(s, now, off, done);
    ReadSuffix(s, now, off + 1);
  }

  lemma ProgressTransfer(s: seq<Byte>, now: seq<Byte>, off: nat, done: seq<nat>)
    requires Progress(s, now, off, done) && off < |s| && now[off] == 0xB0
    ensures TransferAt(now, off) == TransferAt(s, off)
    ensures TransferAt(s, off).None? ==> Plan(s, 0).None?
    ensures TransferAt(s, off).Some? ==>
              var (first, count) := TransferAt(s, off).value;
              var next := done + Starts(first, count);
              if first + 96 * count > |s| then Plan(s, 0).None?
              else Progress(s, Blanked(s, next), first + 96 * count, next)
  {
    hide Plan, TransferAt, Covered, Starts, Blanked;
    ProgressSuffix(s, now, off, done);
    TransferSuffix(s, now, off);
    PlanTransfer(s, off);
    if TransferAt(s, off).Some? {
      var (first, count) := TransferAt(s, off).value;
      var starts := Starts(first, count);
      if first + 96 * count <= |s| && Plan(s, first + 96 * count).Some? {
        assert done + (starts + Plan(s, first + 96 * count).value) == done + starts + Plan(s, first + 96 * count).value;
      }
    }
  }

  lemma TransferSuffix(s: seq<Byte>, t: seq<Byte>, off: nat)
    requires off < |s| == |t| && forall i | off <= i < |s| :: t[i] == s[i]
    ensures TransferAt(t, off) == TransferAt(s, off)
  {
    hide Read;
    ReadSuffix(s, t, off + 1);
    if Read(s, off + 1).Some? { ReadSuffix(s, t, Read(s, off + 1).value.1 + 64); }
  }

  lemma PlanTransfer(s: seq<Byte>, off: nat)
    requires off < |s| && s[off] == 0xB0
    ensures Plan(s, off) ==
            if TransferAt(s, off).None? then None else
            var (first, count) := TransferAt(s, off).value;
            if first + 96 * count > |s| || Plan(s, first + 96 * count).None? then None
            else Some(Starts(first, count) + Plan(s, first + 96 * count).value)
  {
    hide TransferAt, Starts;
  }

  /** Blanks the 64 bytes at off, or stops at the end of the array. */
  method ZeroBlock(a: array<Byte>, off: nat) returns (ok: bool)
    modifies a
    ensures ok <==> off + 64 <= a.Length
    ensures ok ==> forall i | 0 <= i < a.Length :: a[i] == if off <= i < off + 64 then 0 else old(a[i])
  {
    for j := 0 to 64
      invariant j > 0 ==> off + j <= a.Length
      invariant forall i | 0 <= i < a.Length :: a[i] == if off <= i < off + j then 0 else old(a[i])
    {
      if off + j >= a.Length {
        return false;
      }
      a[off + j] := 0;
    }
    return true;
  }

  lemma BlankNext(s: seq<Byte>, done: seq<nat>, first: nat, k: nat, now: seq<Byte>)
    requires |now| == |s|
    requires forall i | 0 <= i < |s| ::
               now[i] == if first + 96 * k + 32 <= i < first + 96 * k + 96 then 0
                 else Blanked(s, done + Starts(first, k))[i]
    ensures now == Blanked(s, done + Starts(first, k + 1))
  {
    hide Covered;
    forall i | 0 <= i < |s| ensures now[i] == Blanked(s, done + Starts(first, k + 1))[i] {
      var at := first + 96 * k + 32;
      assert done + Starts(first, k + 1) == done + Starts(first, k) + [at];
      CoveredConcat(i, done + Starts(first, k), [at]);
      CoveredOne(i, at);
    }
  }

  lemma CoveredOne(pos: int, at: nat)
    ensures Covered(pos, [at]) <==> at <= pos < at + 64
  {
    assert [at][0] == at;
  }

  /** The signatures of one transfer: skip each signer key, blank the signature behind it. */
  method ZeroTransfer(a: array<Byte>, ghost s: seq<Byte>, ghost done: seq<nat>, first: nat, count: nat)
    returns (ok: bool)
    requires a[..] == Blanked(s, done) && first <= |s|
    modifies a
    ensures ok <==> first + 96 * count <= |s|
    ensures ok ==> a[..] == Blanked(s, done + Starts(first, count))
  {
    hide Covered, Starts;
    var off := first;
    assert done + Starts(first, 0) == done;
    for k := 0 to count
      invariant off == first + 96 * k <= |s|
      invariant a[..] == Blanked(s, done + Starts(first, k))
    {
      ghost var before := a[..];
      off := off + 32;
      ok := ZeroBlock(a, off);
      if !ok {
        return false;
      }
      BlankNext(s, done, first, k, a[..]);
      off := off + 64;
    }
    return true;
  }

  lemma ProgressStart(s: seq<Byte>)
    ensures Progress(s, s, 0, [])
  {
    hide Plan;
    assert s == Blanked(s, []);
    if Plan(s, 0).Some? { assert [] + Plan(s, 0).value == Plan(s, 0).value; }
  }

  lemma ProgressEnd(s: seq<Byte>, now: seq<Byte>, off: nat, done: seq<nat>)
    requires Progress(s, now, off, done) && off >= |s|
    ensures Plan(s, 0).Some? && now == Blanked(s, Plan(s, 0).value)
  {
    hide Covered;
    assert done + [] == done;
  }

  lemma ProgressHere(s: seq<Byte>, now: seq<Byte>, off: nat, done: seq<nat>)
    requires Progress(s, now, off, done)
    ensures |now| == |s| && now == Blanked(s, done)
  {
    hide Plan;
  }

  /** The scanning loop over the extra bytes. Succeeds exactly when the scan does not raise. */
  method ZeroSignatures(a: array<Byte>) returns (ok: bool)
    modifies a
    ensures ok <==> Scanned(old(a[..])).Some?
    ensures ok ==> a[..] == Scanned(old(a[..])).value
  {
    hide Read, Plan, Covered, Starts, Progress;
    ghost var s := a[..];
    ghost var done: seq<nat> := [];
    var off: nat := 0;
    ProgressStart(s);
    while off < a.Length
      invariant Progress(s, a[..], off, done)
      decreases a.Length - off
    {
      ProgressHere(s, a[..], off, done);
      var tag := a[off];
      if tag == 0xB0 {
        ProgressTransfer(s, a[..], off, done);
        var amount := ReadVarint(a[..], off + 1);
        if amount.None? { return false; }
        var count := ReadVarint(a[..], amount.value.1 + 64);
        if count.None? { return false; }
        ok := ZeroTransfer(a, s, done, count.value.1, count.value.0);
        if !ok { return false; }
        done := done + Starts(count.value.1, count.value.0);
        off := count.value.1 + 96 * count.value.0;
      } else {
        ProgressSkip(s, a[..], off, done);
        if tag == 0x01 {
          off := off + 1 + 32;
        } else if tag == 0x02 {
          off := off + 1;
          var nonce := ReadVarint(a[..], off);
          if nonce.None? { return false; }
          off := off + nonce.value.1;
        } else if tag == 0x03 {
          var keys := ReadVarint(a[..], off + 1);
          if keys.None? { return false; }
          off := keys.value.1 + keys.value.0 * 32;
        } else if tag == 0x04 {
          var pad := ReadVarint(a[..], off + 1);
          if pad.None? { return false; }
          off := pad.value.1 + pad.value.0;
        } else if tag == 0xC0 {
          var amount := ReadVarint(a[..], off + 1);
          if amount.None? { return false; }
          off := amount.value.1 + 64;
        } else {
          off := off + 1;
        }
      }
    }
    ProgressHere(s, a[..], off, done);
    ProgressEnd(s, a[..], off, done);
    return true;
  }
}
