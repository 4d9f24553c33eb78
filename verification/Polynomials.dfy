/**
  Polynomials over GF(2^8), as sequences of coefficients with the highest power first, and their values.
 */
module Polynomials {
  import opened Galois

  /** The value of p at x, by Horner's rule. */
  function Eval(p: seq<Byte>, x: Byte): Byte {
    if p == [] then 0 else Add(Mul(Eval(p[..|p| - 1], x), x), p[|p| - 1])
  }

  function Plus(p: seq<Byte>, q: seq<Byte>): (s: seq<Byte>)
    requires |p| == |q|
    ensures |s| == |p|
  {
    seq(|p|, i requires 0 <= i < |p| => Add(p[i], q[i]))
  }

  function Times(p: seq<Byte>, a: Byte): (s: seq<Byte>)
    ensures |s| == |p|
  {
    seq(|p|, i requires 0 <= i < |p| => Mul(p[i], a))
  }

  function Zeros(n: nat): (s: seq<Byte>)
    ensures |s| == n
  {
    seq(n, _ => 0)
  }

  /** p * (x + a). */
  function TimesLinear(p: seq<Byte>, a: Byte): (s: seq<Byte>)
    ensures |s| == |p| + 1
  {
    Plus(p + [0], [0] + Times(p, a))
  }

  function PowerOf(x: Byte, n: nat): Byte {
    if n == 0 then 1 else Mul(PowerOf(x, n - 1), x)
  }

  lemma EvalAppend(p: seq<Byte>, c: Byte, x: Byte)
    ensures Eval(p + [c], x) == Add(Mul(Eval(p, x), x), c)
  {
    hide Add, Mul;
    assert (p + [c])[..|p|] == p;
  }

  lemma PlusAppend(p: seq<Byte>, c: Byte, q: seq<Byte>, d: Byte)
    requires |p| == |q|
    ensures Plus(p + [c], q + [d]) == Plus(p, q) + [Add(c, d)]
  {
    hide Add;
  }

  lemma TimesAppend(p: seq<Byte>, c: Byte, a: Byte)
    ensures Times(p + [c], a) == Times(p, a) + [Mul(c, a)]
  {
    hide Mul;
  }

  lemma {:induction false} EvalPlus(p: seq<Byte>, q: seq<Byte>, x: Byte)
    requires |p| == |q|
    ensures Eval(Plus(p, q), x) == Add(Eval(p, x), Eval(q, x))
  {
    if p == [] {
      AddZero(0);
    } else {
      var n := |p| - 1;
      EvalPlus(p[..n], q[..n], x);
      EvalPlusStep(p[..n], p[n], q[..n], q[n], x);
      assert p == p[..n] + [p[n]] && q == q[..n] + [q[n]];
    }
  }

  lemma EvalPlusStep(p: seq<Byte>, c: Byte, q: seq<Byte>, d: Byte, x: Byte)
    requires |p| == |q| && Eval(Plus(p, q), x) == Add(Eval(p, x), Eval(q, x))
    ensures Eval(Plus(p + [c], q + [d]), x) == Add(Eval(p + [c], x), Eval(q + [d], x))
  {
    hide *;
    PlusAppend(p, c, q, d);
    EvalAppend(Plus(p, q), Add(c, d), x); EvalAppend(p, c, x); EvalAppend(q, d, x);
    AddMul(Eval(p, x), Eval(q, x), x);
    AddSwap(Mul(Eval(p, x), x), Mul(Eval(q, x), x), c, d);
  }

  lemma {:induction false} EvalTimes(p: seq<Byte>, a: Byte, x: Byte)
    ensures Eval(Times(p, a), x) == Mul(Eval(p, x), a)
  {
    if p == [] {
      OneMul(a);
    } else {
      var n := |p| - 1;
      EvalTimes(p[..n], a, x);
      EvalTimesStep(p[..n], p[n], a, x);
      assert p == p[..n] + [p[n]];
    }
  }

  lemma MulRotate(e: Byte, x: Byte, a: Byte)
    ensures Mul(Mul(e, x), a) == Mul(Mul(e, a), x)
  {
    hide *;
    MulAssoc(e, x, a); MulComm(x, a); MulAssoc(e, a, x);
  }

  lemma EvalTimesStep(p: seq<Byte>, c: Byte, a: Byte, x: Byte)
    requires Eval(Times(p, a), x) == Mul(Eval(p, x), a)
    ensures Eval(Times(p + [c], a), x) == Mul(Eval(p + [c], x), a)
  {
    hide *;
    TimesAppend(p, c, a);
    EvalAppend(Times(p, a), Mul(c, a), x); EvalAppend(p, c, x);
    AddMul(Mul(Eval(p, x), x), c, a);
    MulRotate(Eval(p, x), x, a);
  }

  lemma {:induction false} EvalConcat(p: seq<Byte>, q: seq<Byte>, x: Byte)
    ensures Eval(p + q, x) == Add(Mul(Eval(p, x), PowerOf(x, |q|)), Eval(q, x))
  {
    if q == [] {
      hide Add, Mul;
      assert p + q == p;
      MulOne(Eval(p, x)); AddZero(Eval(p, x));
    } else {
      var n := |q| - 1;
      EvalConcat(p, q[..n], x);
      assert p + q == p + q[..n] + [q[n]] && q == q[..n] + [q[n]];
      EvalConcatStep(p, q[..n], q[n], x);
    }
  }

  lemma EvalConcatStep(p: seq<Byte>, q: seq<Byte>, c: Byte, x: Byte)
    requires Eval(p + q, x) == Add(Mul(Eval(p, x), PowerOf(x, |q|)), Eval(q, x))
    ensures Eval(p + q + [c], x) == Add(Mul(Eval(p, x), PowerOf(x, |q + [c]|)), Eval(q + [c], x))
  {
    hide Eval, Add, Mul;
    var (e, f, w) := (Eval(p, x), Eval(q, x), PowerOf(x, |q|));
    EvalAppend(p + q, c, x); EvalAppend(q, c, x);
    AddMul(Mul(e, w), f, x);
    MulAssoc(e, w, x);
    AddAssoc(Mul(e, Mul(w, x)), Mul(f, x), c);
  }

  lemma {:induction false} EvalZeros(n: nat, x: Byte)
    ensures Eval(Zeros(n), x) == 0
  {
    if n > 0 {
      EvalZeros(n - 1, x);
      assert Zeros(n) == Zeros(n - 1) + [0];
      EvalAppend(Zeros(n - 1), 0, x);
      OneMul(x); AddZero(0);
    }
  }

  /** p * (x + a) takes the value p(y) * (y + a) at every y. */
  lemma EvalTimesLinear(p: seq<Byte>, a: Byte, y: Byte)
    ensures Eval(TimesLinear(p, a), y) == Mul(Eval(p, y), Add(y, a))
  {
    TimesLinearMeaning(p, a);
    hide *;
    EvalPlus(p + [0], [0] + Times(p, a), y);
    EvalAppend(p, 0, y);
    AddZero(Mul(Eval(p, y), y));
    EvalLeadingZero(Times(p, a), y);
    EvalTimes(p, a, y);
    MulAdd(Eval(p, y), y, a);
  }

  lemma TimesLinearMeaning(p: seq<Byte>, a: Byte)
    ensures TimesLinear(p, a) == Plus(p + [0], [0] + Times(p, a))
  {
  }

  lemma EvalLeadingZero(p: seq<Byte>, x: Byte)
    ensures Eval([0] + p, x) == Eval(p, x)
  {
    EvalConcat([0], p, x);
    assert Zeros(1) == [0];
    EvalZeros(1, x);
    OneMul(PowerOf(x, |p|));
    AddZero(Eval(p, x));
  }

  /** The coefficient at an index that may lie outside the polynomial. */
  function At(p: seq<Byte>, m: int): Byte {
    if 0 <= m < |p| then p[m] else 0
  }

  lemma TimesLinearAt(p: seq<Byte>, a: Byte, m: int)
    ensures At(TimesLinear(p, a), m) == Add(Mul(At(p, m - 1), a), At(p, m))
  {
    hide Add, Mul;
    OneMul(a); AddZero(0);
    AddComm(Mul(At(p, m - 1), a), At(p, m));
  }
}
