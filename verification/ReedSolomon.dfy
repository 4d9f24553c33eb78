/**
  The Reed-Solomon code of the QR encoder: the divisor and remainder loops against polynomials over GF(2^8), and the
  vanishing syndromes of every encoded block.
 */
module ReedSolomon {
  import opened Galois
  import opened Polynomials
  import opened Wrappers

  // ----- the divisor -----

  /** (x + r^0) * ... * (x + r^(n-1)), with its leading coefficient. */
  function Generator(n: nat): (s: seq<Byte>)
    ensures |s| == n + 1
  {
    if n == 0 then [1] else TimesLinear(Generator(n - 1), RootPower(n - 1))
  }

  /** Every r^i with i < n is a root of the generator polynomial. */
  lemma {:induction false} GeneratorRoots(n: nat, i: nat)
    requires i < n
    ensures Eval(Generator(n), RootPower(i)) == 0
  {
    hide Eval, Add, Mul, TimesLinear, RootPower;
    var (x, a) := (RootPower(i), RootPower(n - 1));
    EvalTimesLinear(Generator(n - 1), a, x);
    if i == n - 1 {
      AddSelf(a);
      MulOne(Eval(Generator(n - 1), x));
    } else {
      GeneratorRoots(n - 1, i);
      OneMul(Add(x, a));
    }
  }

  /** The coefficients the encoder stores: the generator polynomial without its leading 1. */
  function Divisor(degree: nat): (s: seq<Byte>)
    ensures |s| == degree
  {
    Generator(degree)[1..]
  }

  lemma {:induction false} GeneratorMonic(n: nat)
    ensures Generator(n) == [1] + Divisor(n)
  {
    if n > 0 {
      GeneratorMonic(n - 1);
      hide Add, Mul, RootPower;
      AddZero(1);
    }
  }

  lemma GeneratorAt(i: nat, m: int)
    ensures At(Generator(i + 1), m) == Add(Mul(At(Generator(i), m - 1), RootPower(i)), At(Generator(i), m))
  {
    hide Add, Mul, RootPower, TimesLinear, At;
    TimesLinearAt(Generator(i), RootPower(i), m);
  }

  /** After i rounds the array holds the last degree coefficients of Generator(i), preceded by zeros. */
  ghost predicate HoldsProduct(s: seq<Byte>, i: nat) {
    forall k | 0 <= k < |s| :: s[k] == At(Generator(i), i + 1 + k - |s|)
  }

  /** The in-place double loop; only degrees 1 to 255 are accepted. */
  method ReedSolomonComputeDivisor(degree: int) returns (r: Option<seq<Byte>>)
    ensures r.Some? <==> 1 <= degree <= 255
    ensures r.Some? ==> r.value == Divisor(degree)
  {
    hide Add, Mul, RootPower, Generator;
    if degree < 1 || degree > 255 {
      return None;
    }
    var result := new Byte[degree](_ => 0);
    result[degree - 1] := 1;
    var root: Byte := 1;
    StartValues();
    for i := 0 to degree
      invariant root == RootPower(i)
      invariant HoldsProduct(result[..], i)
    {
      ghost var before := result[..];
      for j := 0 to degree
        invariant forall k | j <= k < degree :: result[k] == before[k]
        invariant forall k | 0 <= k < j :: result[k] == At(Generator(i + 1), i + 2 + k - degree)
      {
        GeneratorAt(i, i + 2 + j - degree);
        result[j] := ReedSolomonMultiply(result[j], root);
        if j + 1 < degree {
          result[j] := Add(result[j], result[j + 1]);
        } else {
          AddZero(result[j]);
        }
      }
      root := ReedSolomonMultiply(root, 2);
      NextPower(i);
    }
    return Some(result[..]);
  }

  lemma StartValues()
    ensures RootPower(0) == 1 && Generator(0) == [1]
  {
  }

  lemma NextPower(i: nat)
    ensures RootPower(i + 1) == Mul(RootPower(i), 2)
  {
    hide Mul, Xtime;
    MulOne(RootPower(i));
  }

  // ----- the remainder -----

  /** One step of the division: shift the register and subtract a multiple of the divisor. */
  function RemainderStep(rem: seq<Byte>, b: Byte, divisor: seq<Byte>): (s: seq<Byte>)
    requires |rem| == |divisor| >= 1
    ensures |s| == |divisor|
  {
    Plus(rem[1..] + [0], Times(divisor, Add(b, rem[0])))
  }

  function Remainder(data: seq<Byte>, divisor: seq<Byte>): (s: seq<Byte>)
    requires |divisor| >= 1
    ensures |s| == |divisor|
  {
    if data == [] then Zeros(|divisor|)
    else RemainderStep(Remainder(data[..|data| - 1], divisor), data[|data| - 1], divisor)
  }

  /** The division loop, with its inner loop over the shifted register. */
  method ReedSolomonComputeRemainder(data: seq<Byte>, divisor: seq<Byte>) returns (result: seq<Byte>)
    requires |divisor| >= 1
    ensures result == Remainder(data, divisor)
  {
    hide Add, Mul, RootPower;
    result := Zeros(|divisor|);
    for n := 0 to |data|
      invariant result == Remainder(data[..n], divisor)
    {
      var factor := Add(data[n], result[0]);
      ghost var next := RemainderStep(result, data[n], divisor);
      result := result[1..] + [0];
      ghost var shifted := result;
      for i := 0 to |result|
        invariant |result| == |divisor|
        invariant result[i..] == shifted[i..]
        invariant result[..i] == next[..i]
      {
        var product := ReedSolomonMultiply(divisor[i], factor);
        result := result[i := Add(result[i], product)];
      }
      assert data[..n + 1][..n] == data[..n];
    }
    assert data[..|data|] == data;
  }

  /** r^0, ..., r^(degree-1) are roots: the syndromes of the block are all zero. */
  ghost predicate IsCodeword(c: seq<Byte>, degree: nat) {
    forall i: nat | i < degree :: Eval(c, RootPower(i)) == 0
  }

  lemma DivisorRoot(degree: nat, i: nat)
    requires i < degree
    ensures Eval(Divisor(degree), RootPower(i)) == PowerOf(RootPower(i), degree)
  {
    hide *;
    var (d, x) := (Divisor(degree), RootPower(i));
    GeneratorRoots(degree, i);
    GeneratorMonic(degree);
    EvalConcat([1], d, x);
    EvalOne(x);
    OneMul(PowerOf(x, degree));
    AddEqualZero(PowerOf(x, degree), Eval(d, x));
  }

  lemma EvalOne(x: Byte)
    ensures Eval([1], x) == 1
  {
    OneMul(x);
    assert Eval([1][..0], x) == 0;
  }

  /** Shifting the register multiplies by x and drops the leading term. */
  lemma EvalShift(rem: seq<Byte>, x: Byte)
    requires |rem| >= 1
    ensures Eval(rem[1..] + [0], x) == Add(Mul(Eval(rem, x), x), Mul(rem[0], PowerOf(x, |rem|)))
  {
    hide Eval, Add, Mul;
    var (a, tail) := (rem[0], rem[1..]);
    var (e, w) := (Eval(tail, x), PowerOf(x, |tail|));
    EvalAppend(tail, 0, x); AddZero(Mul(e, x));
    assert rem == [a] + tail;
    EvalConcat([a], tail, x);
    EvalConstant(a, x);
    AddMul(Mul(a, w), e, x);
    MulAssoc(a, w, x);
    assert PowerOf(x, |rem|) == Mul(w, x);
    var lead := Mul(a, Mul(w, x));
    AddComm(lead, Mul(e, x));
    AddCancel(Mul(e, x), lead);
  }

  lemma EvalConstant(a: Byte, x: Byte)
    ensures Eval([a], x) == a
  {
    assert Eval([a][..0], x) == 0;
    OneMul(x); AddZero(a);
  }

  lemma RemainderStepValue(rem: seq<Byte>, b: Byte, divisor: seq<Byte>, x: Byte)
    requires |rem| == |divisor| >= 1
    requires Eval(divisor, x) == PowerOf(x, |divisor|)
    ensures Eval(RemainderStep(rem, b, divisor), x) ==
            Add(Mul(Eval(rem, x), x), Mul(b, PowerOf(x, |divisor|)))
  {
    hide Eval, Add, Mul, PowerOf, Plus, Times;
    var (f, w, e) := (Add(b, rem[0]), PowerOf(x, |divisor|), Mul(Eval(rem, x), x));
    EvalPlus(rem[1..] + [0], Times(divisor, f), x);
    EvalShift(rem, x);
    EvalTimes(divisor, f, x);
    MulComm(w, f);
    AddMul(b, rem[0], w);
    var (r, c) := (Mul(rem[0], w), Mul(b, w));
    AddComm(c, r);
    AddAssoc(e, r, Add(r, c));
    AddCancel(c, r);
  }

  /** At a root of the monic divisor, the remainder takes the value of data * x^n. */
  lemma {:induction false} RemainderValue(data: seq<Byte>, divisor: seq<Byte>, x: Byte)
    requires |divisor| >= 1 && Eval(divisor, x) == PowerOf(x, |divisor|)
    ensures Eval(Remainder(data, divisor), x) == Mul(Eval(data, x), PowerOf(x, |divisor|))
  {
    hide Add, Mul, PowerOf, RemainderStep, RootPower;
    var w := PowerOf(x, |divisor|);
    if data == [] {
      EvalZeros(|divisor|, x);
      OneMul(w);
    } else {
      var (init, b) := (data[..|data| - 1], data[|data| - 1]);
      RemainderValue(init, divisor, x);
      RemainderStepValue(Remainder(init, divisor), b, divisor, x);
      AddMul(Mul(Eval(init, x), x), b, w);
      MulRotate(Eval(init, x), x, w);
    }
  }

  /** The data followed by its remainder has only zero syndromes, for every block length and degree. */
  lemma EncodedIsCodeword(data: seq<Byte>, degree: nat)
    requires degree >= 1
    ensures IsCodeword(data + Remainder(data, Divisor(degree)), degree)
  {
    hide Eval, Add, Mul, PowerOf, Remainder, RootPower, Generator;
    var div := Divisor(degree);
    forall i: nat | i < degree ensures Eval(data + Remainder(data, div), RootPower(i)) == 0 {
      var x := RootPower(i);
      DivisorRoot(degree, i);
      RemainderValue(data, div, x);
      EvalConcat(data, Remainder(data, div), x);
      AddSelf(Mul(Eval(data, x), PowerOf(x, degree)));
    }
  }

  /** A block as the encoder emits it: the data followed by its error correction codewords. */
  function EncodeBlock(data: seq<Byte>, degree: nat): (s: seq<Byte>)
    requires degree >= 1
    ensures |s| == |data| + degree
  {
    data + Remainder(data, Divisor(degree))
  }
}
