/** The minimum distance of the Reed-Solomon code: what makes it correct errors. */
module MinimumDistance {
  import opened Galois
  import opened Polynomials
  import opened ReedSolomon

  /** The number of non-zero coefficients. */
  function Weight(p: seq<Byte>): nat {
    if p == [] then 0 else Weight(p[..|p| - 1]) + (if p[|p| - 1] == 0 then 0 else 1)
  }

  lemma {:induction false} WeightZero(p: seq<Byte>)
    ensures Weight(p) == 0 <==> forall i | 0 <= i < |p| :: p[i] == 0
  {
    if p != [] { WeightZero(p[..|p| - 1]); }
  }

  lemma {:induction false} WeightBound(p: seq<Byte>)
    ensures Weight(p) <= |p|
  {
    if p != [] { WeightBound(p[..|p| - 1]); }
  }

  lemma {:induction false} WeightSame(p: seq<Byte>, q: seq<Byte>)
    requires |p| == |q| && forall i | 0 <= i < |p| :: p[i] == 0 <==> q[i] == 0
    ensures Weight(p) == Weight(q)
  {
    if p != [] { WeightSame(p[..|p| - 1], q[..|p| - 1]); }
  }

  lemma {:induction false} WeightDrop(p: seq<Byte>, q: seq<Byte>, j: nat)
    requires j < |p| == |q| && p[j] != 0
    requires forall i | 0 <= i < |p| :: q[i] == 0 <==> p[i] == 0 || i == j
    ensures Weight(q) == Weight(p) - 1
  {
    var n := |p| - 1;
    if j == n {
      WeightSame(p[..n], q[..n]);
    } else {
      WeightDrop(p[..n], q[..n], j);
    }
  }

  /** p(r * x). */
  function Dilate(p: seq<Byte>): (q: seq<Byte>)
    ensures |q| == |p|
  {
    if p == [] then [] else Times(Dilate(p[..|p| - 1]), 2) + [p[|p| - 1]]
  }

  lemma {:induction false} DilateAt(p: seq<Byte>, i: nat)
    requires i < |p|
    ensures Dilate(p)[i] == Mul(p[i], RootPower(|p| - 1 - i))
  {
    var n := |p| - 1;
    hide Add, Mul, RootPower;
    if i == n {
      StartValues(); MulOne(p[n]);
    } else {
      DilateAt(p[..n], i);
      NextPower(n - 1 - i);
      MulAssoc(p[i], RootPower(n - 1 - i), 2);
    }
  }

  lemma {:induction false} EvalDilate(p: seq<Byte>, x: Byte)
    ensures Eval(Dilate(p), x) == Eval(p, Mul(x, 2))
  {
    hide Add, Mul;
    if p != [] {
      var (init, c) := (p[..|p| - 1], p[|p| - 1]);
      EvalDilate(init, x);
      EvalAppend(Times(Dilate(init), 2), c, x);
      EvalTimes(Dilate(init), 2, x);
      MulAssoc(Eval(Dilate(init), x), 2, x);
      MulComm(2, x);
    }
  }

  /** p(r * x) + r^m * p(x), where m is the power at index j: it loses the term at j and no other. */
  function Reduce(p: seq<Byte>, j: nat): (q: seq<Byte>)
    requires j < |p|
    ensures |q| == |p|
  {
    Plus(Dilate(p), Times(p, RootPower(|p| - 1 - j)))
  }

  lemma ReduceAt(p: seq<Byte>, j: nat, i: nat)
    requires j < |p| <= 255 && i < |p|
    ensures Reduce(p, j)[i] == 0 <==> p[i] == 0 || i == j
  {
    hide Add, Mul, RootPower, Dilate;
    var (m, k) := (|p| - 1 - j, |p| - 1 - i);
    DilateAt(p, i);
    AddEqualZero(Mul(p[i], RootPower(k)), Mul(p[i], RootPower(m)));
    if p[i] == 0 {
      OneMul(RootPower(k)); OneMul(RootPower(m));
    } else if k < m {
      PowersDistinct(p[i], k, m);
    } else if m < k {
      PowersDistinct(p[i], m, k);
    }
  }

  lemma ReduceCodeword(p: seq<Byte>, j: nat, d: nat)
    requires j < |p| && IsCodeword(p, d + 1)
    ensures IsCodeword(Reduce(p, j), d)
  {
    hide Eval, Add, Mul, RootPower, Dilate, Plus, Times;
    var a := RootPower(|p| - 1 - j);
    forall i: nat | i < d ensures Eval(Reduce(p, j), RootPower(i)) == 0 {
      var x := RootPower(i);
      EvalPlus(Dilate(p), Times(p, a), x);
      EvalDilate(p, x);
      NextPower(i);
      assert Eval(p, RootPower(i + 1)) == 0;
      EvalTimes(p, a, x);
      OneMul(a); AddZero(0);
    }
  }

  /** A polynomial with one term does not vanish at 1. */
  lemma SingleTerm(p: seq<Byte>, j: nat)
    requires j < |p| && p[j] != 0 && forall i | 0 <= i < |p| :: i == j || p[i] == 0
    ensures Eval(p, 1) != 0
  {
    hide Eval, Add, Mul, PowerOf;
    var (c, k) := (p[j], |p| - 1 - j);
    assert p == Zeros(j) + ([c] + Zeros(k));
    EvalConcat(Zeros(j), [c] + Zeros(k), 1);
    EvalConcat([c], Zeros(k), 1);
    EvalZeros(j, 1); EvalZeros(k, 1); EvalConstant(c, 1);
    PowerOfOne(k); PowerOfOne(k + 1);
    MulOne(c); MulOne(0); AddZero(c);
  }

  lemma {:induction false} PowerOfOne(n: nat)
    ensures PowerOf(1, n) == 1
  {
    if n > 0 { PowerOfOne(n - 1); MulOne(1); }
  }

  /** A non-zero word of at most 255 symbols with d zero syndromes has more than d non-zero symbols. */
  lemma {:induction false} CodewordWeight(p: seq<Byte>, d: nat)
    requires |p| <= 255 && IsCodeword(p, d) && Weight(p) > 0
    ensures Weight(p) > d
    decreases d
  {
    if d > 0 {
      hide Eval, RootPower, Reduce;
      assert Eval(p, RootPower(0)) == 0;
      StartValues();
      WeightZero(p);
      var j: nat :| j < |p| && p[j] != 0;
      var q := Reduce(p, j);
      ReduceCodeword(p, j, d - 1);
      forall i | 0 <= i < |p| ensures q[i] == 0 <==> p[i] == 0 || i == j { ReduceAt(p, j, i); }
      WeightDrop(p, q, j);
      if Weight(q) > 0 {
        CodewordWeight(q, d - 1);
      } else {
        WeightZero(q);
        SingleTerm(p, j);
      }
    }
  }

  /** The number of positions at which two words differ. */
  function Distance(p: seq<Byte>, q: seq<Byte>): nat
    requires |p| == |q|
  {
    if p == [] then 0
    else Distance(p[..|p| - 1], q[..|q| - 1]) + (if p[|p| - 1] == q[|q| - 1] then 0 else 1)
  }

  lemma {:induction false} DistanceIsWeight(p: seq<Byte>, q: seq<Byte>)
    requires |p| == |q|
    ensures Distance(p, q) == Weight(Plus(p, q))
  {
    if p != [] {
      hide Add;
      var n := |p| - 1;
      DistanceIsWeight(p[..n], q[..n]);
      assert Plus(p, q)[..n] == Plus(p[..n], q[..n]);
      AddEqualZero(p[n], q[n]);
    }
  }

  lemma {:induction false} DistanceZero(p: seq<Byte>, q: seq<Byte>)
    requires |p| == |q|
    ensures Distance(p, q) == 0 <==> p == q
  {
    if p != [] {
      var n := |p| - 1;
      DistanceZero(p[..n], q[..n]);
      assert p == p[..n] + [p[n]] && q == q[..n] + [q[n]];
    }
  }

  lemma {:induction false} DistanceTriangle(p: seq<Byte>, w: seq<Byte>, q: seq<Byte>)
    requires |p| == |w| == |q|
    ensures Distance(p, q) <= Distance(p, w) + Distance(q, w)
  {
    if p != [] {
      var n := |p| - 1;
      DistanceTriangle(p[..n], w[..n], q[..n]);
    }
  }

  /** Codewords are closed under addition. */
  lemma PlusCodeword(p: seq<Byte>, q: seq<Byte>, d: nat)
    requires |p| == |q| && IsCodeword(p, d) && IsCodeword(q, d)
    ensures IsCodeword(Plus(p, q), d)
  {
    hide Eval, Add, RootPower, Plus;
    AddZero(0);
    forall i: nat | i < d ensures Eval(Plus(p, q), RootPower(i)) == 0 {
      EvalPlus(p, q, RootPower(i));
    }
  }

  /** Two different words of at most 255 symbols whose d syndromes vanish differ at more than d positions. */
  lemma CodewordDistance(p: seq<Byte>, q: seq<Byte>, d: nat)
    requires |p| == |q| <= 255 && IsCodeword(p, d) && IsCodeword(q, d) && p != q
    ensures Distance(p, q) > d
  {
    hide IsCodeword, Plus;
    PlusCodeword(p, q, d);
    DistanceIsWeight(p, q);
    DistanceZero(p, q);
    CodewordWeight(Plus(p, q), d);
  }

  /** Any two different data blocks are encoded more than degree codewords apart. */
  lemma BlockDistance(data: seq<Byte>, data': seq<Byte>, degree: nat)
    requires |data| == |data'| && data != data' && degree >= 1 && |data| + degree <= 255
    ensures Distance(EncodeBlock(data, degree), EncodeBlock(data', degree)) > degree
  {
    hide IsCodeword, Remainder;
    EncodedIsCodeword(data, degree);
    EncodedIsCodeword(data', degree);
    assert EncodeBlock(data, degree)[..|data|] == data;
    assert EncodeBlock(data', degree)[..|data|] == data';
    CodewordDistance(EncodeBlock(data, degree), EncodeBlock(data', degree), degree);
  }

  /** So a block with at most degree / 2 wrong codewords still determines its data. */
  lemma ErrorsAreCorrectable(data: seq<Byte>, data': seq<Byte>, degree: nat, received: seq<Byte>, errors: nat)
    requires |data| == |data'| && degree >= 1 && |received| == |data| + degree <= 255
    requires 2 * errors <= degree
    requires Distance(EncodeBlock(data, degree), received) <= errors
    requires Distance(EncodeBlock(data', degree), received) <= errors
    ensures data == data'
  {
    hide EncodeBlock, Distance;
    DistanceTriangle(EncodeBlock(data, degree), received, EncodeBlock(data', degree));
    if data != data' {
      BlockDistance(data, data', degree);
    }
  }

  /** The error correction codewords are the only ones that make the syndromes of the data vanish. */
  lemma RemainderUnique(data: seq<Byte>, ecc: seq<Byte>, degree: nat)
    requires 1 <= degree <= 255 && |ecc| == degree
    ensures IsCodeword(data + ecc, degree) <==> ecc == Remainder(data, Divisor(degree))
  {
    hide Remainder, Plus, Eval, Add, RootPower;
    var rem := Remainder(data, Divisor(degree));
    EncodedIsCodeword(data, degree);
    if IsCodeword(data + ecc, degree) && ecc != rem {
      PlusCodeword(data + ecc, data + rem, degree);
      forall i: nat | i < degree ensures Eval(Plus(ecc, rem), RootPower(i)) == 0 {
        EvalSum(data, ecc, rem, RootPower(i));
        assert Eval(Plus(data + ecc, data + rem), RootPower(i)) == 0;
      }
      DistanceIsWeight(ecc, rem);
      DistanceZero(ecc, rem);
      CodewordWeight(Plus(ecc, rem), degree);
      WeightBound(Plus(ecc, rem));
    }
  }

  /** A common prefix cancels. */
  lemma EvalSum(d: seq<Byte>, p: seq<Byte>, q: seq<Byte>, x: Byte)
    requires |p| == |q|
    ensures Eval(Plus(d + p, d + q), x) == Eval(Plus(p, q), x)
  {
    hide Eval, Add, Mul, PowerOf, Plus;
    EvalPlus(d + p, d + q, x); EvalPlus(p, q, x);
    EvalConcat(d, p, x); EvalConcat(d, q, x);
    var w := Mul(Eval(d, x), PowerOf(x, |p|));
    AddSwap(w, Eval(p, x), w, Eval(q, x));
    AddSelf(w); AddZero(Add(Eval(p, x), Eval(q, x)));
  }
}
