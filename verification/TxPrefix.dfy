/** Locating the extra field of a serialised transaction prefix. */
module TxPrefix {
  import opened Galois
  import opened Wrappers
  import opened Varint

  // ----- what the tool reads -----

  function SkipVarints(buf: seq<Byte>, off: nat, n: nat): Option<nat>
    decreases n
  {
    if n == 0 then Some(off) else
      var (_, next) :- Read(buf, off);
      SkipVarints(buf, next, n - 1)
  }

  /** One input: amount, key image, and its ring offsets. */
  function SkipInput(buf: seq<Byte>, off: nat): Option<nat> {
    var (_, a) :- Read(buf, off);
    var (count, b) :- Read(buf, a + 32);
    SkipVarints(buf, b, count)
  }

  function SkipInputs(buf: seq<Byte>, off: nat, n: nat): Option<nat>
    decreases n
  {
    if n == 0 then Some(off) else
      var next :- SkipInput(buf, off);
      SkipInputs(buf, next, n - 1)
  }

  /** One output: amount, target type, key, and for a tagged key two more bytes. */
  function SkipOutput(buf: seq<Byte>, off: nat): Option<nat> {
    var (_, a) :- Read(buf, off);
    if a >= |buf| then None
    else if buf[a] == 2 then Some(a + 1 + 32)
    else if buf[a] == 3 then Some(a + 1 + 32 + 2)
    else None
  }

  function SkipOutputs(buf: seq<Byte>, off: nat, n: nat): Option<nat>
    decreases n
  {
    if n == 0 then Some(off) else
      var next :- SkipOutput(buf, off);
      SkipOutputs(buf, next, n - 1)
  }

  /** The range from the length varint of the extra field to its end; the end is not checked against the buffer. */
  function ExtraRange(buf: seq<Byte>): Option<(nat, nat)> {
    var (_, o1) :- Read(buf, 0);
    var (_, o2) :- Read(buf, o1);
    var (vinCount, o3) :- Read(buf, o2);
    var o4 :- SkipInputs(buf, o3, vinCount);
    var (voutCount, o5) :- Read(buf, o4);
    var start :- SkipOutputs(buf, o5, voutCount);
    var (size, data) :- Read(buf, start);
    Some((start, data + size))
  }

  method FindExtraRange(buf: seq<Byte>) returns (r: Option<(nat, nat)>)
    ensures r == ExtraRange(buf)
  {
    hide Read;
    var step := ReadVarint(buf, 0);
    if step.None? { return None; }
    step := ReadVarint(buf, step.value.1);
    if step.None? { return None; }
    step := ReadVarint(buf, step.value.1);
    if step.None? { return None; }
    var vinCount, offset := step.value.0, step.value.1;
    ghost var inputs := SkipInputs(buf, offset, vinCount);
    for i := 0 to vinCount
      invariant offset >= 0 && SkipInputs(buf, offset, vinCount - i) == inputs
    {
      step := ReadVarint(buf, offset);
      if step.None? { return None; }
      offset := step.value.1 + 32;
      step := ReadVarint(buf, offset);
      if step.None? { return None; }
      var keyOffsetsCount := step.value.0;
      offset := step.value.1;
      ghost var ring := SkipVarints(buf, offset, keyOffsetsCount);
      for j := 0 to keyOffsetsCount
        invariant offset >= 0 && SkipVarints(buf, offset, keyOffsetsCount - j) == ring
      {
        step := ReadVarint(buf, offset);
        if step.None? { return None; }
        offset := step.value.1;
      }
    }
    step := ReadVarint(buf, offset);
    if step.None? { return None; }
    var voutCount := step.value.0;
    offset := step.value.1;
    ghost var outputs := SkipOutputs(buf, offset, voutCount);
    for i := 0 to voutCount
      invariant offset >= 0 && SkipOutputs(buf, offset, voutCount - i) == outputs
    {
      step := ReadVarint(buf, offset);
      if step.None? || step.value.1 >= |buf| { return None; }
      offset := step.value.1;
      var targetType := buf[offset];
      offset := offset + 1;
      if targetType == 2 {
        offset := offset + 32;
      } else if targetType == 3 {
        offset := offset + 32;
        offset := offset + 2;
      } else {
        return None;
      }
    }
    var extraStart := offset;
    step := ReadVarint(buf, offset);
    if step.None? { return None; }
    return Some((extraStart, step.value.1 + step.value.0));
  }

  // ----- the grammar it reads -----

  datatype Input = Input(amount: nat, keyImage: seq<Byte>, offsets: seq<nat>)

  datatype Target = ToKey(key: seq<Byte>) | ToTaggedKey(key: seq<Byte>, tag: seq<Byte>)

  datatype Output = Output(amount: nat, target: Target)

  datatype Prefix = Prefix(version: nat, unlockTime: nat, vin: seq<Input>, vout: seq<Output>, extra: seq<Byte>)

  ghost predicate ValidOutput(o: Output) {
    |o.target.key| == 32 && (o.target.ToTaggedKey? ==> |o.target.tag| == 2)
  }

  ghost predicate ValidPrefix(p: Prefix) {
    && (forall i | 0 <= i < |p.vin| :: |p.vin[i].keyImage| == 32)
    && (forall i | 0 <= i < |p.vout| :: ValidOutput(p.vout[i]))
  }

  function PrintVarints(vs: seq<nat>): seq<Byte> {
    if vs == [] then [] else Encoded(vs[0]) + PrintVarints(vs[1..])
  }

  function PrintInput(i: Input): seq<Byte> {
    Encoded(i.amount) + i.keyImage + Encoded(|i.offsets|) + PrintVarints(i.offsets)
  }

  function PrintInputs(ins: seq<Input>): seq<Byte> {
    if ins == [] then [] else PrintInput(ins[0]) + PrintInputs(ins[1..])
  }

  function PrintOutput(o: Output): seq<Byte> {
    match o.target
    case ToKey(key) => Encoded(o.amount) + [2] + key
    case ToTaggedKey(key, tag) => Encoded(o.amount) + [3] + key + tag
  }

  function PrintOutputs(outs: seq<Output>): seq<Byte> {
    if outs == [] then [] else PrintOutput(outs[0]) + PrintOutputs(outs[1..])
  }

  /** Everything before the extra field. */
  function PrintHead(p: Prefix): seq<Byte> {
    Encoded(p.version) + Encoded(p.unlockTime) + Encoded(|p.vin|) + PrintInputs(p.vin) +
    Encoded(|p.vout|) + PrintOutputs(p.vout)
  }

  function Print(p: Prefix): seq<Byte> {
    PrintHead(p) + Encoded(|p.extra|) + p.extra
  }

  lemma {:induction false} VarintsSkipped(a: seq<Byte>, vs: seq<nat>, b: seq<Byte>)
    ensures SkipVarints(a + PrintVarints(vs) + b, |a|, |vs|) == Some(|a| + |PrintVarints(vs)|)
    decreases |vs|
  {
    hide Read, Encoded;
    if vs != [] {
      var (e, rest) := (Encoded(vs[0]), PrintVarints(vs[1..]));
      var buf := a + PrintVarints(vs) + b;
      assert buf == a + e + (rest + b) && buf == (a + e) + rest + b;
      ReadAt(a, vs[0], rest + b, buf);
      VarintsSkipped(a + e, vs[1..], b);
    }
  }

  lemma InputSkipped(a: seq<Byte>, i: Input, b: seq<Byte>)
    requires |i.keyImage| == 32
    ensures SkipInput(a + PrintInput(i) + b, |a|) == Some(|a| + |PrintInput(i)|)
  {
    hide Read, Encoded, SkipVarints, PrintVarints;
    var buf := a + PrintInput(i) + b;
    var (e, c, r) := (Encoded(i.amount), Encoded(|i.offsets|), PrintVarints(i.offsets));
    assert buf == a + e + (i.keyImage + c + r + b);
    ReadAt(a, i.amount, i.keyImage + c + r + b, buf);
    var a' := a + e + i.keyImage;
    assert buf == a' + c + (r + b);
    ReadAt(a', |i.offsets|, r + b, buf);
    assert buf == (a' + c) + r + b;
    VarintsSkipped(a' + c, i.offsets, b);
  }

  lemma {:induction false} InputsSkipped(a: seq<Byte>, ins: seq<Input>, b: seq<Byte>)
    requires forall i | 0 <= i < |ins| :: |ins[i].keyImage| == 32
    ensures SkipInputs(a + PrintInputs(ins) + b, |a|, |ins|) == Some(|a| + |PrintInputs(ins)|)
    decreases |ins|
  {
    hide SkipInput, PrintInput;
    if ins != [] {
      var (e, rest) := (PrintInput(ins[0]), PrintInputs(ins[1..]));
      assert a + PrintInputs(ins) + b == a + e + (rest + b) && a + PrintInputs(ins) + b == (a + e) + rest + b;
      InputSkipped(a, ins[0], rest + b);
      InputsSkipped(a + e, ins[1..], b);
    }
  }

  lemma OutputSkipped(a: seq<Byte>, o: Output, b: seq<Byte>)
    requires ValidOutput(o)
    ensures SkipOutput(a + PrintOutput(o) + b, |a|) == Some(|a| + |PrintOutput(o)|)
  {
    hide Read, Encoded;
    var buf := a + PrintOutput(o) + b;
    var e := Encoded(o.amount);
    match o.target
    case ToKey(key) =>
      assert buf == a + e + ([2] + key + b);
      ReadAt(a, o.amount, [2] + key + b, buf);
    case ToTaggedKey(key, tag) =>
      assert buf == a + e + ([3] + key + tag + b);
      ReadAt(a, o.amount, [3] + key + tag + b, buf);
  }

  lemma {:induction false} OutputsSkipped(a: seq<Byte>, outs: seq<Output>, b: seq<Byte>)
    requires forall i | 0 <= i < |outs| :: ValidOutput(outs[i])
    ensures SkipOutputs(a + PrintOutputs(outs) + b, |a|, |outs|) == Some(|a| + |PrintOutputs(outs)|)
    decreases |outs|
  {
    hide SkipOutput, PrintOutput, ValidOutput;
    if outs != [] {
      var (e, rest) := (PrintOutput(outs[0]), PrintOutputs(outs[1..]));
      assert a + PrintOutputs(outs) + b == a + e + (rest + b) && a + PrintOutputs(outs) + b == (a + e) + rest + b;
      OutputSkipped(a, outs[0], rest + b);
      OutputsSkipped(a + e, outs[1..], b);
    }
  }

  /** The part of the head up to and including the inputs. */
  function PrintInputPart(p: Prefix): seq<Byte> {
    Encoded(p.version) + Encoded(p.unlockTime) + Encoded(|p.vin|) + PrintInputs(p.vin)
  }

  lemma InputPartRead(p: Prefix, tail: seq<Byte>)
    requires ValidPrefix(p)
    ensures var buf := PrintInputPart(p) + tail;
            var (o1, o2) := (|Encoded(p.version)|, |Encoded(p.version)| + |Encoded(p.unlockTime)|);
            var o3 := o2 + |Encoded(|p.vin|)|;
            && Read(buf, 0) == Some((p.version, o1))
            && Read(buf, o1) == Some((p.unlockTime, o2))
            && Read(buf, o2) == Some((|p.vin|, o3))
            && SkipInputs(buf, o3, |p.vin|) == Some(|PrintInputPart(p)|)
  {
    hide Read, Encoded, SkipInputs, PrintInputs, ValidOutput;
    var buf := PrintInputPart(p) + tail;
    var (a1, a2, a3, a4) := (Encoded(p.version), Encoded(p.unlockTime), Encoded(|p.vin|), PrintInputs(p.vin));
    assert buf == [] + a1 + (a2 + a3 + a4 + tail);
    ReadAt([], p.version, a2 + a3 + a4 + tail, buf);
    assert buf == a1 + a2 + (a3 + a4 + tail);
    ReadAt(a1, p.unlockTime, a3 + a4 + tail, buf);
    assert buf == (a1 + a2) + a3 + (a4 + tail);
    ReadAt(a1 + a2, |p.vin|, a4 + tail, buf);
    assert buf == (a1 + a2 + a3) + a4 + tail;
    InputsSkipped(a1 + a2 + a3, p.vin, tail);
  }

  lemma HeadParts(p: Prefix)
    ensures PrintHead(p) == PrintInputPart(p) + Encoded(|p.vout|) + PrintOutputs(p.vout)
    ensures Print(p) == PrintHead(p) + Encoded(|p.extra|) + p.extra
  {
    hide Encoded, PrintInputs, PrintOutputs;
  }

  lemma OutputPartRead(p: Prefix, rest: seq<Byte>)
    requires ValidPrefix(p)
    ensures var (buf, a) := (Print(p) + rest, PrintInputPart(p));
            var o5 := |a| + |Encoded(|p.vout|)|;
            && Read(buf, |a|) == Some((|p.vout|, o5))
            && SkipOutputs(buf, o5, |p.vout|) == Some(|PrintHead(p)|)
            && Read(buf, |PrintHead(p)|) == Some((|p.extra|, |PrintHead(p)| + |Encoded(|p.extra|)|))
  {
    hide Read, Encoded, SkipOutputs, PrintOutputs, ValidOutput, PrintInputPart, PrintHead, Print;
    HeadParts(p);
    var (buf, a) := (Print(p) + rest, PrintInputPart(p));
    var (a5, a6) := (Encoded(|p.vout|), PrintOutputs(p.vout));
    var tail := Encoded(|p.extra|) + p.extra + rest;
    assert buf == a + a5 + (a6 + tail);
    ReadAt(a, |p.vout|, a6 + tail, buf);
    assert buf == (a + a5) + a6 + tail;
    OutputsSkipped(a + a5, p.vout, tail);
    assert buf == PrintHead(p) + Encoded(|p.extra|) + (p.extra + rest);
    ReadAt(PrintHead(p), |p.extra|, p.extra + rest, buf);
  }

  /** For every prefix of the grammar, whatever follows it, the range found is exactly the extra field. */
  lemma ExtraFound(p: Prefix, rest: seq<Byte>)
    requires ValidPrefix(p)
    ensures ExtraRange(Print(p) + rest) == Some((|PrintHead(p)|, |Print(p)|))
  {
    hide Read, Encoded, SkipInputs, SkipOutputs, PrintInputs, PrintOutputs, ValidPrefix;
    var tail := Encoded(|p.vout|) + PrintOutputs(p.vout) + Encoded(|p.extra|) + p.extra + rest;
    assert Print(p) + rest == PrintInputPart(p) + tail;
    InputPartRead(p, tail);
    OutputPartRead(p, rest);
  }

  lemma ReadByte(buf: seq<Byte>, off: nat)
    requires off < |buf| && buf[off] < 128
    ensures Read(buf, off) == Some((buf[off], off + 1))
  {
  }

  /** One input with one ring offset and one plain output: version, time and counts, 32 bytes of image, 32 of key. */
  lemma PlainSample(image: seq<Byte>, key: seq<Byte>, extra: seq<Byte>)
    requires |image| == 32 && |key| == 32 && |extra| < 128
    ensures ExtraRange([2, 60, 1, 9] + image + [1, 5, 1, 7, 2] + key + [|extra|] + extra) == Some((73, 74 + |extra|))
  {
    hide Read;
    var buf := [2, 60, 1, 9] + image + [1, 5, 1, 7, 2] + key + [|extra|] + extra;
    ReadByte(buf, 0); ReadByte(buf, 1); ReadByte(buf, 2); ReadByte(buf, 3); ReadByte(buf, 36); ReadByte(buf, 37);
    ReadByte(buf, 38); ReadByte(buf, 39); ReadByte(buf, 73);
    assert SkipVarints(buf, 37, 1) == Some(38);
    assert SkipInputs(buf, 3, 1) == Some(38);
    assert SkipOutputs(buf, 39, 1) == Some(73);
  }

  /** One tagged output: two more bytes. */
  lemma TaggedSample(key: seq<Byte>, tag: seq<Byte>, extra: seq<Byte>)
    requires |key| == 32 && |tag| == 2 && |extra| < 128
    ensures ExtraRange([2, 60, 0, 1, 7, 3] + key + tag + [|extra|] + extra) == Some((40, 41 + |extra|))
  {
    hide Read;
    var buf := [2, 60, 0, 1, 7, 3] + key + tag + [|extra|] + extra;
    ReadByte(buf, 0); ReadByte(buf, 1); ReadByte(buf, 2); ReadByte(buf, 3); ReadByte(buf, 4); ReadByte(buf, 40);
    assert SkipOutputs(buf, 4, 1) == Some(40);
  }
}
