/**
  The participation outputs of a coinbase transaction: the check every received block goes through, and the builder.
 */
module Coinbase {
  import opened Galois
  import opened Wrappers

  const U64_SIZE: nat := 0x1_0000_0000_0000_0000
  const HF_VERSION_PARTICIPATION_VALIDATION: nat := 13
  const UNLOCK_WINDOW: nat := 60

  type U64 = n: nat | n < 0x1_0000_0000_0000_0000

  function Sum(s: seq<U64>): nat {
    if s == [] then 0 else Sum(s[..|s| - 1]) + s[|s| - 1]
  }

  // ----- the check -----

  datatype Verdict = Accepted | Missing(amount: U64) | Exceeds(sum: U64)

  /** The amounts other than the miner's, as a multiset. */
  ghost function Others(vout: seq<U64>, minerReward: U64): multiset<U64> {
    multiset(vout)[minerReward := 0]
  }

  ghost predicate Acceptable(vout: seq<U64>, expected: seq<U64>, minerReward: U64, totalReward: U64, hf: nat) {
    || hf < HF_VERSION_PARTICIPATION_VALIDATION
    || expected == []
    || (multiset(expected) <= Others(vout, minerReward) && Sum(vout) % U64_SIZE <= totalReward)
  }

  /** Some amount is expected more often than it is paid. */
  ghost predicate Lacks(vout: seq<U64>, expected: seq<U64>, minerReward: U64, amount: U64) {
    multiset(expected)[amount] > Others(vout, minerReward)[amount]
  }

  ghost predicate Sorted(s: seq<U64>) {
    forall i, j | 0 <= i < j < |s| :: s[i] <= s[j]
  }

  lemma MultisetSnoc(s: seq<U64>, i: nat)
    requires i < |s|
    ensures multiset(s[..i + 1]) == multiset(s[..i]) + multiset{s[i]}
  {
    assert s[..i + 1] == s[..i] + [s[i]];
  }

  method CollectOthers(vout: seq<U64>, minerReward: U64) returns (r: seq<U64>)
    ensures multiset(r) == Others(vout, minerReward)
  {
    r := [];
    for i := 0 to |vout|
      invariant multiset(r) == Others(vout[..i], minerReward)
    {
      MultisetSnoc(vout, i);
      if vout[i] != minerReward {
        r := r + [vout[i]];
      }
    }
    assert vout[..|vout|] == vout;
  }

  method Sort(s: seq<U64>) returns (r: seq<U64>)
    ensures Sorted(r) && multiset(r) == multiset(s)
  {
    r := [];
    for i := 0 to |s|
      invariant Sorted(r) && multiset(r) == multiset(s[..i])
    {
      MultisetSnoc(s, i);
      r := InsertSorted(r, s[i]);
    }
    assert s[..|s|] == s;
  }

  method InsertSorted(s: seq<U64>, x: U64) returns (r: seq<U64>)
    requires Sorted(s)
    ensures Sorted(r) && multiset(r) == multiset(s) + multiset{x}
  {
    var k := 0;
    while k < |s| && s[k] < x
      invariant k <= |s| && forall j | 0 <= j < k :: s[j] < x
    {
      k := k + 1;
    }
    r := s[..k] + [x] + s[k..];
    assert s[..k] + s[k..] == s;
  }

  /** Every expected amount in turn is looked for in what remains, and erased. */
  method MatchAll(expected: seq<U64>, actual: seq<U64>) returns (missing: Option<U64>)
    requires Sorted(expected)
    ensures missing.None? <==> multiset(expected) <= multiset(actual)
    ensures missing.Some? ==> multiset(expected)[missing.value] > multiset(actual)[missing.value]
    ensures missing.Some? ==> forall x: U64 | x < missing.value :: multiset(expected)[x] <= multiset(actual)[x]
  {
    var remaining := actual;
    for i := 0 to |expected|
      invariant multiset(remaining) + multiset(expected[..i]) == multiset(actual)
    {
      var at := IndexOf(remaining, expected[i]);
      MultisetSnoc(expected, i);
      if at == |remaining| {
        FirstMissing(expected, i, multiset(remaining), multiset(actual));
        return Some(expected[i]);
      }
      assert remaining == remaining[..at] + [remaining[at]] + remaining[at + 1..];
      remaining := remaining[..at] + remaining[at + 1..];
    }
    assert expected[..|expected|] == expected;
    return None;
  }

  method IndexOf(s: seq<U64>, x: U64) returns (at: nat)
    ensures at <= |s| && (at < |s| ==> s[at] == x) && (at == |s| ==> x !in multiset(s))
  {
    at := 0;
    while at < |s| && s[at] != x
      invariant at <= |s| && forall j | 0 <= j < at :: s[j] != x
    {
      at := at + 1;
    }
  }

  /** In a sorted expectation everything smaller than the amount at i stands before i. */
  lemma FirstMissing(expected: seq<U64>, i: nat, remaining: multiset<U64>, actual: multiset<U64>)
    requires Sorted(expected) && i < |expected|
    requires remaining + multiset(expected[..i]) == actual && expected[i] !in remaining
    ensures multiset(expected)[expected[i]] > actual[expected[i]]
    ensures forall x: U64 | x < expected[i] :: multiset(expected)[x] <= actual[x]
  {
    var rest := expected[i..];
    assert expected == expected[..i] + rest && rest[0] == expected[i];
    forall x: U64 | x < expected[i] ensures multiset(expected)[x] <= actual[x] {
      assert x !in rest;
      assert multiset(rest)[x] == 0;
    }
  }

  lemma WrapStep(sum: nat, x: U64)
    ensures (sum % U64_SIZE + x) % U64_SIZE == (sum + x) % U64_SIZE
  {
  }

  method WrappedSum(vout: seq<U64>) returns (sum: U64)
    ensures sum == Sum(vout) % U64_SIZE
  {
    sum := 0;
    for i := 0 to |vout|
      invariant sum == Sum(vout[..i]) % U64_SIZE
    {
      assert vout[..i + 1][..i] == vout[..i];
      WrapStep(Sum(vout[..i]), vout[i]);
      sum := (sum + vout[i]) % U64_SIZE;
    }
    assert vout[..|vout|] == vout;
  }

  /**
    The block is accepted exactly when the expected amounts are a sub-multiset of the amounts that are not the
    miner's and the wrapped sum is covered; a rejection names the smallest amount that is short.
   */
  method CheckParticipationCoinbase(vout: seq<U64>, expected: seq<U64>, minerReward: U64, totalReward: U64, hf: nat)
    returns (v: Verdict)
    ensures v.Accepted? <==> Acceptable(vout, expected, minerReward, totalReward, hf)
    ensures v.Missing? ==> Lacks(vout, expected, minerReward, v.amount)
    ensures v.Missing? ==> forall x: U64 | x < v.amount :: !Lacks(vout, expected, minerReward, x)
    ensures v.Exceeds? ==> v.sum == Sum(vout) % U64_SIZE && v.sum > totalReward
    ensures v.Exceeds? ==> forall x: U64 :: !Lacks(vout, expected, minerReward, x)
  {
    hide Sum, Sorted;
    if hf < HF_VERSION_PARTICIPATION_VALIDATION || expected == [] {
      return Accepted;
    }
    var actual := CollectOthers(vout, minerReward);
    actual := Sort(actual);
    var amounts := Sort(expected);
    var missing := MatchAll(amounts, actual);
    if missing.Some? {
      return Missing(missing.value);
    }
    var sum := WrappedSum(vout);
    if sum > totalReward {
      return Exceeds(sum);
    }
    return Accepted;
  }

  // ----- what the check lets through -----

  /** Up to hard fork 12 everything is accepted; from 13 on a block that pays an expected amount to nobody is not. */
  lemma ValidationStarts(vout: seq<U64>, expected: seq<U64>, minerReward: U64, totalReward: U64, hf: nat)
    ensures hf <= 12 ==> Acceptable(vout, expected, minerReward, totalReward, hf)
    ensures hf >= 13 ==> !Acceptable([], [5], minerReward, totalReward, hf)
  {
    assert multiset([5])[5] == 1;
    assert Others([], minerReward)[5] == 0;
  }

  /** An accepted block keeps within the reward if and only if its outputs add up to less than 2^64. */
  lemma WithinRewardExactly(vout: seq<U64>, expected: seq<U64>, minerReward: U64, totalReward: U64, hf: nat)
    requires hf >= HF_VERSION_PARTICIPATION_VALIDATION && expected != []
    requires Acceptable(vout, expected, minerReward, totalReward, hf)
    ensures Sum(vout) <= totalReward <==> Sum(vout) < U64_SIZE
  {
    hide Sum;
  }

  lemma SumSnoc(s: seq<U64>, x: U64)
    ensures Sum(s + [x]) == Sum(s) + x
  {
    assert (s + [x])[..|s|] == s;
  }

  lemma OnePaid(vout: seq<U64>, i: nat, minerReward: U64)
    requires i < |vout| && vout[i] != minerReward
    ensures multiset([vout[i]]) <= Others(vout, minerReward)
  {
    assert vout[i] in multiset(vout);
  }

  lemma SumFour(a: U64, b: U64, c: U64, d: U64)
    ensures Sum([a, b, c, d]) == a + b + c + d
  {
    SumSnoc([], a);
    hide Sum;
    SumSnoc([a], b); SumSnoc([a, b], c); SumSnoc([a, b, c], d);
    assert [] + [a] == [a] && [a] + [b] == [a, b] && [a, b] + [c] == [a, b, c] && [a, b, c] + [d] == [a, b, c, d];
    NoSum();
  }

  lemma NoSum()
    ensures Sum([]) == 0
  {
  }

  /** A block whose outputs add up to 2^64 + 60 is accepted against a reward of 100. */
  lemma OverpaidAccepted()
    ensures var half: U64 := 0x8000_0000_0000_0000;
            Sum([10, 50, half, half]) == U64_SIZE + 60 && Acceptable([10, 50, half, half], [50], 10, 100, 13)
  {
    hide Sum, Others;
    var half: U64 := 0x8000_0000_0000_0000;
    SumFour(10, 50, half, half);
    OnePaid([10, 50, half, half], 1, 10);
  }

  // ----- the builder -----

  type Key = seq<Byte>

  datatype Address = Address(view: Key, spend: Key)

  datatype Reward = Reward(address: Address, amount: U64)

  datatype TxOut = TxOut(amount: U64, key: Key)

  /** Key derivation under the one-time transaction key; each step may fail. */
  datatype Derivation = Derivation(shared: Key -> Option<Key>, onetime: (Key, nat, Key) -> Option<Key>)

  function OutputKey(d: Derivation, to: Address, index: nat): Option<Key> {
    var shared :- d.shared(to.view);
    d.onetime(shared, index, to.spend)
  }

  /**
    What the owner of an address does to find an output: the shared secret for the view key, then the one-time key
    for the index and the spend key, must be the key of the output.
   */
  predicate Finds(d: Derivation, owner: Address, index: nat, key: Key) {
    d.shared(owner.view).Some? && d.onetime(d.shared(owner.view).value, index, owner.spend) == Some(key)
  }

  /** An output can be made for an address when both steps succeed. */
  predicate Derivable(d: Derivation, owner: Address, index: nat) {
    d.shared(owner.view).Some? && d.onetime(d.shared(owner.view).value, index, owner.spend).Some?
  }

  lemma OutputFound(d: Derivation, to: Address, index: nat)
    ensures OutputKey(d, to, index).Some? <==> Derivable(d, to, index)
    ensures OutputKey(d, to, index).Some? ==> Finds(d, to, index, OutputKey(d, to, index).value)
  {
  }

  /** A node's output is made when its amount is not zero and both derivations succeed. */
  predicate Pays(d: Derivation, r: Reward, index: nat) {
    r.amount != 0 && OutputKey(d, r.address, index).Some?
  }

  /** The positions, among the first n rewards, of the nodes that get an output. */
  function Kept(d: Derivation, rewards: seq<Reward>, n: nat): (r: seq<nat>)
    requires n <= |rewards|
    ensures forall k | 0 <= k < |r| :: r[k] < n && Pays(d, rewards[r[k]], r[k] + 1)
  {
    if n == 0 then []
    else if Pays(d, rewards[n - 1], n) then Kept(d, rewards, n - 1) + [n - 1]
    else Kept(d, rewards, n - 1)
  }

  lemma {:induction false} KeptOrder(d: Derivation, rewards: seq<Reward>, n: nat)
    requires n <= |rewards|
    ensures var r := Kept(d, rewards, n);
            && |r| <= n
            && (forall k | 0 <= k < |r| :: k <= r[k] <= n - |r| + k)
            && forall k, l | 0 <= k < l < |r| :: r[k] < r[l]
  {
    hide Pays;
    if n > 0 { KeptOrder(d, rewards, n - 1); }
  }

  lemma {:induction false} KeptComplete(d: Derivation, rewards: seq<Reward>, n: nat, i: nat)
    requires i < n <= |rewards| && Pays(d, rewards[i], i + 1)
    ensures i in Kept(d, rewards, n)
  {
    hide Pays;
    if i < n - 1 { KeptComplete(d, rewards, n - 1, i); }
  }

  function NodeOutput(d: Derivation, rewards: seq<Reward>, i: nat): TxOut
    requires i < |rewards| && Pays(d, rewards[i], i + 1)
  {
    TxOut(rewards[i].amount, OutputKey(d, rewards[i].address, i + 1).value)
  }

  function NodeOutputs(d: Derivation, rewards: seq<Reward>, n: nat): seq<TxOut>
    requires n <= |rewards|
  {
    var kept := Kept(d, rewards, n);
    seq(|kept|, k requires 0 <= k < |kept| => NodeOutput(d, rewards, kept[k]))
  }

  lemma NodeOutputsStep(d: Derivation, rewards: seq<Reward>, i: nat)
    requires i < |rewards|
    ensures NodeOutputs(d, rewards, i + 1) ==
            if Pays(d, rewards[i], i + 1) then NodeOutputs(d, rewards, i) + [NodeOutput(d, rewards, i)]
            else NodeOutputs(d, rewards, i)
  {
    hide Pays, NodeOutput;
  }

  /** The k-th output made for the nodes pays the k-th node kept its amount under a key that node finds. */
  ghost predicate NodePaid(d: Derivation, rewards: seq<Reward>, i: nat, out: TxOut)
    requires i < |rewards|
  {
    out.amount == rewards[i].amount && Finds(d, rewards[i].address, i + 1, out.key)
  }

  lemma NodesPaid(d: Derivation, rewards: seq<Reward>)
    ensures var (kept, outs) := (Kept(d, rewards, |rewards|), NodeOutputs(d, rewards, |rewards|));
            |outs| == |kept| && forall k | 0 <= k < |kept| :: NodePaid(d, rewards, kept[k], outs[k])
  {
    hide Kept, OutputKey, Finds;
    var kept := Kept(d, rewards, |rewards|);
    forall k | 0 <= k < |kept| ensures NodePaid(d, rewards, kept[k], NodeOutputs(d, rewards, |rewards|)[k]) {
      OutputFound(d, rewards[kept[k]].address, kept[k] + 1);
    }
  }

  /** A node is left out exactly when its amount is zero or one of the two derivation steps fails for it. */
  lemma KeptExactly(d: Derivation, rewards: seq<Reward>, i: nat)
    requires i < |rewards|
    ensures i in Kept(d, rewards, |rewards|) <==>
            rewards[i].amount != 0 && Derivable(d, rewards[i].address, i + 1)
  {
    hide Kept, OutputKey, Derivable;
    OutputFound(d, rewards[i].address, i + 1);
    if Pays(d, rewards[i], i + 1) { KeptComplete(d, rewards, |rewards|, i); }
    if i in Kept(d, rewards, |rewards|) {
      var k :| 0 <= k < |Kept(d, rewards, |rewards|)| && Kept(d, rewards, |rewards|)[k] == i;
    }
  }

  function Amounts(outs: seq<TxOut>): (r: seq<U64>)
    ensures |r| == |outs| && forall i | 0 <= i < |outs| :: r[i] == outs[i].amount
  {
    seq(|outs|, i requires 0 <= i < |outs| => outs[i].amount)
  }

  function Expected(rewards: seq<Reward>): (r: seq<U64>)
    ensures |r| == |rewards| && forall i | 0 <= i < |rewards| :: r[i] == rewards[i].amount
  {
    seq(|rewards|, i requires 0 <= i < |rewards| => rewards[i].amount)
  }

  /** What a built transaction pays, output by output. */
  function BuiltAmounts(d: Derivation, minerReward: U64, rewards: seq<Reward>): seq<U64> {
    [minerReward] + Amounts(NodeOutputs(d, rewards, |rewards|))
  }

  lemma BuiltPays(d: Derivation, minerReward: U64, rewards: seq<Reward>, key: Key)
    ensures Amounts([TxOut(minerReward, key)] + NodeOutputs(d, rewards, |rewards|)) ==
            BuiltAmounts(d, minerReward, rewards)
  {
    hide NodeOutputs;
  }

  lemma NoOutputs(d: Derivation, rewards: seq<Reward>)
    ensures NodeOutputs(d, rewards, 0) == []
  {
  }

  lemma PaysMeaning(d: Derivation, r: Reward, index: nat)
    ensures Pays(d, r, index) <==> r.amount != 0 && OutputKey(d, r.address, index).Some?
  {
  }

  class Transaction {
    var version: nat
    var unlockTime: U64
    var vin: seq<U64>
    var vout: seq<TxOut>
    var extra: seq<Byte>

    /** The outputs of the nodes; the index counts the nodes that are skipped as well. */
    method PayNodes(rewards: seq<Reward>, d: Derivation)
      modifies this`vout
      ensures vout == old(vout) + NodeOutputs(d, rewards, |rewards|)
      ensures var kept := Kept(d, rewards, |rewards|);
              && |vout| == |old(vout)| + |kept|
              && forall k | 0 <= k < |kept| :: NodePaid(d, rewards, kept[k], vout[|old(vout)| + k])
    {
      hide Pays, Kept, NodeOutputs, OutputKey, Finds;
      NoOutputs(d, rewards);
      NodesPaid(d, rewards);
      var index := 1;
      while index <= |rewards|
        invariant 1 <= index <= |rewards| + 1 && vout == old(vout) + NodeOutputs(d, rewards, index - 1)
      {
        var r := rewards[index - 1];
        NodeOutputsStep(d, rewards, index - 1);
        PaysMeaning(d, r, index);
        if r.amount != 0 {
          var key := OutputKey(d, r.address, index);
          if key.Some? {
            vout := vout + [TxOut(r.amount, key.value)];
          }
        }
        index := index + 1;
      }
    }

    /**
      Fills this transaction: one input for the height, the miner's output, then the outputs of the nodes kept.
      keyField and nonceField are the bytes the two extra helpers append, or their failure.
     */
    method Construct(height: U64, minerReward: U64, miner: Address, rewards: seq<Reward>, nonce: bool, hf: nat,
                     snapshot: seq<Byte>, d: Derivation, keyField: Option<seq<Byte>>, nonceField: Option<seq<Byte>>)
      returns (ok: bool)
      modifies this
      ensures ok <==> keyField.Some? && (nonce ==> nonceField.Some?) && Derivable(d, miner, 0)
      ensures ok ==> vin == [height]
      ensures ok ==> vout != [] && vout[0].amount == minerReward && Finds(d, miner, 0, vout[0].key)
      ensures ok ==> vout[1..] == NodeOutputs(d, rewards, |rewards|)
      ensures ok ==> Amounts(vout) == BuiltAmounts(d, minerReward, rewards)
      ensures ok ==> extra == keyField.value + (if nonce then nonceField.value else []) + snapshot
      ensures ok ==> version == (if hf >= 4 then 2 else 1) && unlockTime == (height + 60) % 0x1_0000_0000_0000_0000
      ensures !ok ==> vout == [] && version == old(version) && unlockTime == old(unlockTime)
      ensures !ok ==> extra ==
                      if keyField.None? then []
                      else if nonce && nonceField.None? then keyField.value
                      else keyField.value + (if nonce then nonceField.value else []) + snapshot
      ensures !ok ==> vin == if keyField.Some? && (nonce ==> nonceField.Some?) then [height] else []
    {
      hide Pays, Kept, NodeOutputs, OutputKey, Amounts, BuiltAmounts, Finds, Derivable;
      OutputFound(d, miner, 0);
      vin, vout, extra := [], [], [];
      if keyField.None? { return false; }
      extra := extra + keyField.value;
      if nonce {
        if nonceField.None? { return false; }
        extra := extra + nonceField.value;
      }
      extra := extra + snapshot;
      vin := vin + [height];
      var minerKey := OutputKey(d, miner, 0);
      if minerKey.None? { return false; }
      vout := vout + [TxOut(minerReward, minerKey.value)];
      PayNodes(rewards, d);
      BuiltPays(d, minerReward, rewards, minerKey.value);
      version := if hf >= 4 then 2 else 1;
      unlockTime := (height + UNLOCK_WINDOW) % U64_SIZE;
      return true;
    }
  }

  // ----- the builder against the check -----

  ghost predicate AllPaid(d: Derivation, rewards: seq<Reward>) {
    forall i | 0 <= i < |rewards| :: Pays(d, rewards[i], i + 1)
  }

  lemma {:induction false} KeptAll(d: Derivation, rewards: seq<Reward>, n: nat)
    requires n <= |rewards|
    ensures |Kept(d, rewards, n)| == n <==> forall i | 0 <= i < n :: Pays(d, rewards[i], i + 1)
  {
    hide Pays, Kept;
    KeptOrder(d, rewards, n);
    if n > 0 {
      KeptOrder(d, rewards, n - 1);
      KeptAll(d, rewards, n - 1);
      KeptStep(d, rewards, n - 1);
    }
  }

  lemma KeptStep(d: Derivation, rewards: seq<Reward>, i: nat)
    requires i < |rewards|
    ensures |Kept(d, rewards, i + 1)| == |Kept(d, rewards, i)| + if Pays(d, rewards[i], i + 1) then 1 else 0
  {
    hide Pays;
  }

  lemma AllPaidAmounts(d: Derivation, rewards: seq<Reward>)
    requires AllPaid(d, rewards)
    ensures Amounts(NodeOutputs(d, rewards, |rewards|)) == Expected(rewards)
  {
    hide Pays, Kept;
    KeptAll(d, rewards, |rewards|);
    KeptOrder(d, rewards, |rewards|);
  }

  lemma SubmultisetSize(a: multiset<U64>, b: multiset<U64>)
    requires a <= b
    ensures |a| <= |b|
  {
    assert b == a + (b - a);
  }

  lemma DroppedSize(s: seq<U64>, x: U64)
    ensures |multiset(s)[x := 0]| == |s| - multiset(s)[x]
  {
  }

  /**
    A transaction built from the rewards that the check expects is accepted if and only if every node was paid, no
    node's amount equals the miner's, and the wrapped sum is covered.
   */
  lemma BuiltAcceptedExactly(d: Derivation, minerReward: U64, rewards: seq<Reward>, totalReward: U64, hf: nat)
    requires hf >= HF_VERSION_PARTICIPATION_VALIDATION && rewards != []
    ensures Acceptable(BuiltAmounts(d, minerReward, rewards), Expected(rewards), minerReward, totalReward, hf) <==>
            && AllPaid(d, rewards)
            && minerReward !in Expected(rewards)
            && (minerReward + Sum(Expected(rewards))) % U64_SIZE <= totalReward
  {
    hide Pays, Kept, NodeOutputs, Sum, Expected;
    var (vout, expected) := (BuiltAmounts(d, minerReward, rewards), Expected(rewards));
    var others := Others(vout, minerReward);
    if AllPaid(d, rewards) {
      AllPaidAmounts(d, rewards);
      SumCons(minerReward, expected);
    } else {
      KeptAll(d, rewards, |rewards|);
      KeptOrder(d, rewards, |rewards|);
      BuiltLength(d, minerReward, rewards);
      DroppedSize(vout, minerReward);
      if multiset(expected) <= others {
        SubmultisetSize(multiset(expected), others);
      }
    }
  }

  lemma BuiltLength(d: Derivation, minerReward: U64, rewards: seq<Reward>)
    ensures |BuiltAmounts(d, minerReward, rewards)| == 1 + |Kept(d, rewards, |rewards|)|
  {
    hide Kept;
  }

  lemma {:induction false} SumCons(x: U64, s: seq<U64>)
    ensures Sum([x] + s) == x + Sum(s)
  {
    if s != [] {
      SumCons(x, s[..|s| - 1]);
      assert ([x] + s)[..|s|] == [x] + s[..|s| - 1];
    } else {
      assert ([x] + s)[..0] == [];
    }
  }

  /** The case the documentation has in mind: a miner and nodes that share the reward. */
  lemma SharedRewardAccepted(d: Derivation, minerReward: U64, rewards: seq<Reward>, totalReward: U64, hf: nat)
    requires hf >= HF_VERSION_PARTICIPATION_VALIDATION && rewards != []
    requires minerReward + Sum(Expected(rewards)) <= totalReward
    ensures Acceptable(BuiltAmounts(d, minerReward, rewards), Expected(rewards), minerReward, totalReward, hf) <==>
            AllPaid(d, rewards) && minerReward !in Expected(rewards)
  {
    hide AllPaid, Sum, BuiltAmounts, Acceptable, Expected;
    BuiltAcceptedExactly(d, minerReward, rewards, totalReward, hf);
  }

  /** An even split between the miner and one node is built, and then refused. */
  lemma EvenSplitRejected(d: Derivation, node: Address)
    requires OutputKey(d, node, 1).Some?
    ensures BuiltAmounts(d, 50, [Reward(node, 50)]) == [50, 50]
    ensures !Acceptable(BuiltAmounts(d, 50, [Reward(node, 50)]), [50], 50, 100, 13)
  {
    hide OutputKey, NodeOutputs, Kept;
    var rewards := [Reward(node, 50)];
    assert Expected(rewards) == [50];
    AllPaidAmounts(d, rewards);
    assert multiset([50 as U64])[50] == 1;
  }

  /** The check sees amounts only: an output may go to any other key. */
  lemma KeysUnchecked(vout: seq<TxOut>, i: nat, key: Key, expected: seq<U64>, minerReward: U64, totalReward: U64,
                      hf: nat)
    requires i < |vout|
    ensures Acceptable(Amounts(vout[i := vout[i].(key := key)]), expected, minerReward, totalReward, hf) <==>
            Acceptable(Amounts(vout), expected, minerReward, totalReward, hf)
  {
    hide Acceptable;
    assert Amounts(vout[i := vout[i].(key := key)]) == Amounts(vout);
  }

  // ----- what the builder conserves -----

  /** What the rewards not paid amount to. */
  function Unpaid(d: Derivation, rewards: seq<Reward>, n: nat): nat
    requires n <= |rewards|
  {
    if n == 0 then 0
    else Unpaid(d, rewards, n - 1) + (if Pays(d, rewards[n - 1], n) then 0 else rewards[n - 1].amount)
  }

  lemma {:induction false} PaidAndUnpaid(d: Derivation, rewards: seq<Reward>, n: nat)
    requires n <= |rewards|
    ensures Sum(Amounts(NodeOutputs(d, rewards, n))) + Unpaid(d, rewards, n) == Sum(Expected(rewards)[..n])
  {
    hide Pays, Kept, NodeOutputs;
    if n == 0 {
      NoOutputs(d, rewards);
    } else {
      PaidAndUnpaid(d, rewards, n - 1);
      NodeOutputsStep(d, rewards, n - 1);
      var (outs, all) := (NodeOutputs(d, rewards, n - 1), Expected(rewards)[..n]);
      assert all[..n - 1] == Expected(rewards)[..n - 1];
      if Pays(d, rewards[n - 1], n) {
        var more := Amounts(outs + [NodeOutput(d, rewards, n - 1)]);
        assert more[..|outs|] == Amounts(outs);
      }
    }
  }

  lemma {:induction false} UnpaidZero(d: Derivation, rewards: seq<Reward>, n: nat)
    requires n <= |rewards|
    ensures Unpaid(d, rewards, n) == 0 <==>
            forall i | 0 <= i < n && !Pays(d, rewards[i], i + 1) :: rewards[i].amount == 0
  {
    hide Pays;
    if n > 0 { UnpaidZero(d, rewards, n - 1); }
  }

  /** The outputs add up to the whole reward if and only if only nodes without a reward were left out. */
  lemma RewardConserved(d: Derivation, minerReward: U64, rewards: seq<Reward>)
    ensures Sum(BuiltAmounts(d, minerReward, rewards)) <= minerReward + Sum(Expected(rewards))
    ensures Sum(BuiltAmounts(d, minerReward, rewards)) == minerReward + Sum(Expected(rewards)) <==>
            forall i | 0 <= i < |rewards| && rewards[i].amount != 0 :: OutputKey(d, rewards[i].address, i + 1).Some?
  {
    hide Kept, NodeOutputs, Sum, OutputKey;
    PaidAndUnpaid(d, rewards, |rewards|);
    UnpaidZero(d, rewards, |rewards|);
    SumCons(minerReward, Amounts(NodeOutputs(d, rewards, |rewards|)));
    assert Expected(rewards)[..|rewards|] == Expected(rewards);
  }

  /** A derivation that fails loses the reward of its node. */
  lemma RewardLost(d: Derivation, node: Address)
    requires OutputKey(d, node, 1).None?
    ensures BuiltAmounts(d, 97, [Reward(node, 3)]) == [97] && Sum([97]) < 97 + Sum(Expected([Reward(node, 3)]))
  {
    var rewards := [Reward(node, 3)];
    assert Kept(d, rewards, 1) == [];
    assert Expected(rewards) == [3];
    assert [97 as U64][..0] == [] && [3 as U64][..0] == [];
  }

  /** A node without a reward shifts the one behind it: its output stands at index 1 and is derived for index 2. */
  lemma IndexShifted(d: Derivation, node: Address)
    requires OutputKey(d, node, 2).Some?
    ensures Kept(d, [Reward(node, 0), Reward(node, 5)], 2) == [1]
  {
    assert Kept(d, [Reward(node, 0), Reward(node, 5)], 1) == [];
  }

  /**
    Each node output stands at the index its key was derived for, if and only if no paid node follows a skipped one.
   */
  lemma IndexesExactly(d: Derivation, rewards: seq<Reward>)
    ensures var kept := Kept(d, rewards, |rewards|);
            (forall k | 0 <= k < |kept| :: kept[k] == k) <==>
            (forall i, j | 0 <= i < j < |rewards| && Pays(d, rewards[j], j + 1) :: Pays(d, rewards[i], i + 1))
  {
    hide Pays, Kept;
    var kept := Kept(d, rewards, |rewards|);
    KeptOrder(d, rewards, |rewards|);
    if forall k | 0 <= k < |kept| :: kept[k] == k {
      forall i, j | 0 <= i < j < |rewards| && Pays(d, rewards[j], j + 1) ensures Pays(d, rewards[i], i + 1) {
        KeptComplete(d, rewards, |rewards|, j);
        assert kept[i] == i;
      }
    } else {
      var k :| 0 <= k < |kept| && kept[k] != k;
      KeptGap(d, rewards, k);
    }
  }

  /** A kept node further along than its place among the kept has a skipped node before it. */
  lemma {:induction false} KeptGap(d: Derivation, rewards: seq<Reward>, k: nat)
    requires k < |Kept(d, rewards, |rewards|)| && Kept(d, rewards, |rewards|)[k] != k
    ensures exists i | 0 <= i < Kept(d, rewards, |rewards|)[k] :: !Pays(d, rewards[i], i + 1)
  {
    hide Pays, Kept;
    var kept := Kept(d, rewards, |rewards|);
    KeptOrder(d, rewards, |rewards|);
    if k > 0 && kept[k - 1] != k - 1 {
      KeptGap(d, rewards, k - 1);
      var i :| 0 <= i < kept[k - 1] && !Pays(d, rewards[i], i + 1);
      assert i < kept[k];
    } else {
      assert k !in kept;
      if Pays(d, rewards[k], k + 1) { KeptComplete(d, rewards, |rewards|, k); }
    }
  }
}
