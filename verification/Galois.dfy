/** Bytes, their exclusive or, and the arithmetic of GF(2^8) modulo x^8 + x^4 + x^3 + x^2 + 1 (0x11D). */
module Galois {

  type Byte = n: nat | n < 256

  function Pow2(n: nat): (r: nat)
    ensures r > 0
  {
    if n == 0 then 1 else 2 * Pow2(n - 1)
  }

  /** The right shift v >> i. */
  function Shr(v: nat, i: nat): (r: nat)
    ensures r <= v
  {
    if i == 0 then v else Shr(v, i - 1) / 2
  }

  lemma {:induction false} ShrOfHalf(v: nat, i: nat)
    ensures Shr(v / 2, i) == Shr(v, i + 1)
  {
    if i > 0 { ShrOfHalf(v, i - 1); }
  }

  /** Shifting by i leaves nothing exactly when the value has at most i bits. */
  lemma {:induction false} ShrZero(v: nat, i: nat)
    ensures Shr(v, i) == 0 <==> v < Pow2(i)
  {
    if i > 0 {
      ShrZero(v / 2, i - 1);
      ShrOfHalf(v, i - 1);
    }
  }

  // ----- exclusive or on unsigned integers -----

  /** Bitwise exclusive or of two unsigned integers of any width. */
  function Xor(a: nat, b: nat): nat {
    if a == 0 then b
    else if b == 0 then a
    else 2 * Xor(a / 2, b / 2) + (if a % 2 == b % 2 then 0 else 1)
  }

  lemma XorStep(a: nat, b: nat)
    ensures Xor(a, b) / 2 == Xor(a / 2, b / 2)
    ensures Xor(a, b) % 2 == if a % 2 == b % 2 then 0 else 1
  {
  }

  lemma {:induction false} XorComm(a: nat, b: nat)
    ensures Xor(a, b) == Xor(b, a)
  {
    if a != 0 && b != 0 { XorComm(a / 2, b / 2); }
  }

  lemma {:induction false} XorSelf(a: nat)
    ensures Xor(a, a) == 0
  {
    if a != 0 { XorSelf(a / 2); }
  }

  lemma {:induction false} XorAssoc(a: nat, b: nat, c: nat)
    ensures Xor(Xor(a, b), c) == Xor(a, Xor(b, c))
  {
    if a != 0 && b != 0 && c != 0 {
      hide Xor;
      XorAssoc(a / 2, b / 2, c / 2);
      XorStep(a, b);
      XorStep(b, c);
      XorStep(Xor(a, b), c);
      XorStep(a, Xor(b, c));
    }
  }

  /** The top bit of an exclusive or is the exclusive or of the top bits. */
  lemma {:induction false} XorTopBit(a: nat, b: nat, j: nat)
    requires a < 2 * Pow2(j) && b < 2 * Pow2(j)
    ensures Xor(a, b) < 2 * Pow2(j)
    ensures Xor(a, b) >= Pow2(j) <==> (a >= Pow2(j)) != (b >= Pow2(j))
  {
    if j != 0 {
      XorTopBit(a / 2, b / 2, j - 1);
      XorStep(a, b);
    }
  }

  lemma Pow2Seven()
    ensures Pow2(7) == 128
  {
    assert Pow2(3) == 8;
    assert Pow2(5) == 32;
  }

  // ----- the field -----

  function Add(a: Byte, b: Byte): Byte {
    Pow2Seven(); XorTopBit(a, b, 7);
    Xor(a, b)
  }

  /** Multiplication by the generator r = 2: shift, and reduce by 0x11D when bit 8 comes up. */
  function Xtime(a: Byte): Byte {
    assert Pow2(8) == 256 by { Pow2Seven(); }
    XorTopBit(2 * a, 0x11D, 8);
    if a < 128 then 2 * a else Xor(2 * a, 0x11D)
  }

  /** The reference product: the sum of a * r^i over the set bits i of b. */
  function Mul(a: Byte, b: Byte): Byte {
    if b == 0 then 0
    else if b % 2 == 1 then Add(a, Xtime(Mul(a, b / 2)))
    else Xtime(Mul(a, b / 2))
  }

  /** r^n for the generator r = 2. */
  function RootPower(n: nat): Byte {
    if n == 0 then 1 else Xtime(RootPower(n - 1))
  }

  lemma AddZero(a: Byte)
    ensures Add(a, 0) == a && Add(0, a) == a
  {
  }

  lemma AddSelf(a: Byte)
    ensures Add(a, a) == 0
  {
    XorSelf(a);
  }

  lemma AddComm(a: Byte, b: Byte)
    ensures Add(a, b) == Add(b, a)
  {
    XorComm(a, b);
  }

  lemma AddAssoc(a: Byte, b: Byte, c: Byte)
    ensures Add(Add(a, b), c) == Add(a, Add(b, c))
  {
    hide Xor, Xtime, Mul;
    XorAssoc(a, b, c);
  }

  /** Adding the same byte twice changes nothing. */
  lemma AddCancel(a: Byte, b: Byte)
    ensures Add(Add(a, b), b) == a
    ensures Add(b, Add(b, a)) == a
  {
    hide *;
    AddAssoc(a, b, b);
    AddAssoc(b, b, a);
    AddSelf(b);
    AddZero(a);
  }

  lemma AddEqualZero(a: Byte, b: Byte)
    ensures Add(a, b) == 0 <==> a == b
  {
    hide *;
    AddSelf(b);
    AddCancel(a, b);
    AddZero(b);
  }

  lemma AddSwap(p: Byte, q: Byte, s: Byte, t: Byte)
    ensures Add(Add(p, q), Add(s, t)) == Add(Add(p, s), Add(q, t))
  {
    hide *;
    AddAssoc(p, q, Add(s, t));
    AddAssoc(q, s, t);
    AddComm(q, s);
    AddAssoc(s, q, t);
    AddAssoc(p, s, Add(q, t));
  }

  lemma {:induction false} XorDouble(a: nat, b: nat)
    ensures Xor(2 * a, 2 * b) == 2 * Xor(a, b)
  {
    XorStep(2 * a, 2 * b);
  }

  lemma XtimeAdd(a: Byte, b: Byte)
    ensures Xtime(Add(a, b)) == Add(Xtime(a), Xtime(b))
  {
    hide Xor, Mul, Pow2;
    Pow2Seven();
    XorTopBit(a, b, 7);
    XorDouble(a, b);
    var m := 0x11D;
    XorAssoc(2 * a, 2 * b, m);          // (2a + 2b) + m
    XorAssoc(2 * a, m, 2 * b);
    XorComm(m, 2 * b);
    XorAssoc(Xor(2 * a, m), 2 * b, m);  // ((2a + m) + 2b) + m
    XorAssoc(Xor(2 * a, 2 * b), m, m);
    XorSelf(m);
    XorZero(Xor(2 * a, 2 * b));
  }

  lemma XorZero(a: nat)
    ensures Xor(a, 0) == a
  {
  }

  lemma {:induction false} MulAdd(a: Byte, b: Byte, c: Byte)
    ensures Mul(a, Add(b, c)) == Add(Mul(a, b), Mul(a, c))
    decreases b + c
  {
    if b != 0 && c != 0 {
      MulAdd(a, b / 2, c / 2);
      MulAddStep(a, b, c);
    } else {
      hide Xtime;
      AddZero(Mul(a, b)); AddZero(Mul(a, c)); AddZero(b); AddZero(c);
    }
  }

  function LowBit(b: Byte, a: Byte): Byte { if b % 2 == 1 then a else 0 }

  lemma MulUnfold(a: Byte, b: Byte)
    ensures Mul(a, b) == Add(LowBit(b, a), Xtime(Mul(a, b / 2)))
  {
    hide Xor;
    AddZero(Xtime(Mul(a, b / 2)));
    if b == 0 { assert Xtime(0) == 0; }
  }

  lemma AddHalf(b: Byte, c: Byte, a: Byte)
    ensures Add(b, c) / 2 == Add(b / 2, c / 2)
    ensures LowBit(Add(b, c), a) == Add(LowBit(b, a), LowBit(c, a))
  {
    XorStep(b, c);
    AddSelf(a); AddZero(a);
  }

  lemma MulAddStep(a: Byte, b: Byte, c: Byte)
    requires Mul(a, Add(b / 2, c / 2)) == Add(Mul(a, b / 2), Mul(a, c / 2))
    ensures Mul(a, Add(b, c)) == Add(Mul(a, b), Mul(a, c))
  {
    hide *;
    MulUnfold(a, Add(b, c)); MulUnfold(a, b); MulUnfold(a, c);
    AddHalf(b, c, a);
    XtimeAdd(Mul(a, b / 2), Mul(a, c / 2));
    AddSwap(LowBit(b, a), LowBit(c, a), Xtime(Mul(a, b / 2)), Xtime(Mul(a, c / 2)));
  }

  lemma {:induction false} AddMul(b: Byte, c: Byte, a: Byte)
    ensures Mul(Add(b, c), a) == Add(Mul(b, a), Mul(c, a))
    decreases a
  {
    if a == 0 {
      AddZero(0);
    } else {
      AddMul(b, c, a / 2);
      hide *;
      MulUnfold(Add(b, c), a); MulUnfold(b, a); MulUnfold(c, a);
      XtimeAdd(Mul(b, a / 2), Mul(c, a / 2));
      AddSwap(LowBit(a, b), LowBit(a, c), Xtime(Mul(b, a / 2)), Xtime(Mul(c, a / 2)));
      LowBitAdd(a, b, c);
    }
  }

  lemma LowBitAdd(a: Byte, b: Byte, c: Byte)
    ensures LowBit(a, Add(b, c)) == Add(LowBit(a, b), LowBit(a, c))
  {
    AddZero(0);
  }

  lemma {:induction false} XtimeMul(a: Byte, b: Byte)
    ensures Mul(Xtime(a), b) == Xtime(Mul(a, b))
    decreases b
  {
    if b == 0 {
      assert Xtime(0) == 0;
    } else {
      XtimeMul(a, b / 2);
      assert LowBit(b, Xtime(a)) == Xtime(LowBit(b, a));
      hide *;
      MulUnfold(Xtime(a), b); MulUnfold(a, b);
      XtimeAdd(LowBit(b, a), Xtime(Mul(a, b / 2)));
    }
  }

  lemma MulOne(a: Byte)
    ensures Mul(a, 1) == a && Mul(a, 0) == 0 && Mul(a, 2) == Xtime(a)
  {
    hide Add, Xor;
    MulUnfold(a, 1); MulUnfold(a, 2);
    assert Xtime(0) == 0;
    AddZero(a); AddZero(Xtime(a));
  }

  /** A byte is its low bit plus r times its upper seven bits. */
  lemma Decompose(a: Byte)
    ensures a == Add(a % 2, Xtime(a / 2))
  {
    XorStep(a % 2, 2 * (a / 2));
  }

  lemma {:induction false} OneMul(b: Byte)
    ensures Mul(1, b) == b && Mul(0, b) == 0
  {
    if b != 0 {
      OneMul(b / 2);
      assert Xtime(0) == 0;
      assert LowBit(b, 1) == b % 2 && LowBit(b, 0) == 0;
      hide *;
      MulUnfold(1, b); MulUnfold(0, b);
      Decompose(b);
      AddZero(0);
    }
  }

  lemma LowBitMul(b: Byte, a: Byte)
    ensures Mul(b % 2, a) == LowBit(b, a)
  {
    hide Mul;
    OneMul(a);
  }

  lemma {:induction false} MulComm(a: Byte, b: Byte)
    ensures Mul(a, b) == Mul(b, a)
    decreases b
  {
    if b == 0 {
      OneMul(a);
    } else {
      MulComm(a, b / 2);
      hide *;
      MulUnfold(a, b);
      Decompose(b);
      AddMul(b % 2, Xtime(b / 2), a);
      LowBitMul(b, a);
      XtimeMul(b / 2, a);
    }
  }

  lemma MulXtime(a: Byte, b: Byte)
    ensures Mul(a, Xtime(b)) == Xtime(Mul(a, b))
  {
    hide *;
    MulComm(a, Xtime(b)); XtimeMul(b, a); MulComm(b, a);
  }

  lemma MulLowBit(a: Byte, c: Byte, b: Byte)
    ensures Mul(a, LowBit(c, b)) == LowBit(c, Mul(a, b))
  {
    MulOne(a);
  }

  lemma {:induction false} MulAssoc(a: Byte, b: Byte, c: Byte)
    ensures Mul(Mul(a, b), c) == Mul(a, Mul(b, c))
    decreases c
  {
    if c == 0 {
      hide Xor, Xtime;
    } else {
      MulAssoc(a, b, c / 2);
      hide *;
      MulUnfold(Mul(a, b), c);
      MulUnfold(b, c);
      MulAdd(a, LowBit(c, b), Xtime(Mul(b, c / 2)));
      MulLowBit(a, c, b);
      MulXtime(a, Mul(b, c / 2));
    }
  }

  // ----- powers of the generator -----

  lemma {:induction false} RootPowerAdd(m: nat, n: nat)
    ensures RootPower(m + n) == Mul(RootPower(m), RootPower(n))
  {
    if n == 0 {
      hide Mul;
      MulOne(RootPower(m));
    } else {
      RootPowerAdd(m, n - 1);
      hide Mul, Xtime;
      MulXtime(RootPower(m), RootPower(n - 1));
    }
  }

  /** Multiplying c by r^k gives c back. */
  predicate Fixes(c: Byte, k: nat) {
    Mul(c, RootPower(k)) == c
  }

  lemma FixesAdd(c: Byte, j: nat, k: nat)
    requires Fixes(c, j)
    ensures Fixes(c, j + k) <==> Fixes(c, k)
  {
    hide Mul, RootPower;
    RootPowerAdd(j, k);
    MulAssoc(c, RootPower(j), RootPower(k));
  }

  lemma {:induction false} FixesMultiple(c: Byte, k: nat, m: nat)
    requires Fixes(c, k)
    ensures Fixes(c, m * k)
  {
    if m == 0 {
      hide Mul; MulOne(c);
    } else {
      FixesMultiple(c, k, m - 1);
      FixesAdd(c, k, (m - 1) * k);
      assert m * k == k + (m - 1) * k;
    }
  }

  /** The exponents that fix c are closed under the greatest common divisor. */
  lemma {:induction false} FixesDivisor(c: Byte, j: nat, k: nat) returns (g: nat, m: nat, n: nat)
    requires Fixes(c, j) && Fixes(c, k) && j > 0 && k > 0
    ensures 0 < g <= j && g <= k && j == g * m && k == g * n && Fixes(c, g)
    decreases j + k
  {
    hide Fixes;
    if j == k {
      g, m, n := j, 1, 1;
    } else if j < k {
      FixesAdd(c, j, k - j);
      g, m, n := FixesDivisor(c, j, k - j);
      assert g * (n + m) == g * n + g * m;
      n := n + m;
    } else {
      FixesAdd(c, k, j - k);
      g, m, n := FixesDivisor(c, j - k, k);
      assert g * (m + n) == g * m + g * n;
      m := m + n;
    }
  }

  /** A proper divisor of 255 = 3 * 5 * 17 divides 85, 51 or 15. */
  lemma DivisorOf255(g: nat, m: nat)
    requires g * m == 255 && g < 255
    ensures m % 3 == 0 || m % 5 == 0 || m % 17 == 0
  {
    assert g != 0 && m > 1;
    if m > 15 {
      assert g <= 15;
      assert g == 1 || g == 2 || g == 3 || g == 4 || g == 5 || g == 6 || g == 7 || g == 8 ||
             g == 9 || g == 10 || g == 11 || g == 12 || g == 13 || g == 14 || g == 15;
    } else {
      assert m == 2 || m == 3 || m == 4 || m == 5 || m == 6 || m == 7 || m == 8 ||
             m == 9 || m == 10 || m == 11 || m == 12 || m == 13 || m == 14 || m == 15;
    }
  }

  lemma XorPush(a: nat, b: nat, x: nat, y: nat)
    requires x < 2 && y < 2
    ensures Xor(2 * a + x, 2 * b + y) == 2 * Xor(a, b) + (if x == y then 0 else 1)
  {
    hide Xor;
    XorStep(2 * a + x, 2 * b + y);
  }

  lemma XorEight(u: nat)
    requires u < 8
    ensures Xor(8 + u, 8) == u
  {
    hide Xor;
    var (a, b, c) := (u / 4, u / 2 % 2, u % 2);
    assert 4 * a + 2 * b + c == u;
    XorEightBits(a, b, c);
  }

  lemma XorEightBits(a: nat, b: nat, c: nat)
    requires a < 2 && b < 2 && c < 2
    ensures Xor(8 + (4 * a + 2 * b + c), 8) == 4 * a + 2 * b + c
  {
    hide Xor;
    XorSelf(1);
    XorPush(1, 1, a, 0);
    XorPush(2 + a, 2, b, 0);
    XorPush(4 + 2 * a + b, 4, c, 0);
  }

  /** Doubling a byte with bit 7 set, in closed form: the reduction flips bits 0, 2, 3 and 4. */
  lemma XtimeHigh(u: nat, s: nat, t: nat, v: nat, w: nat)
    requires u < 8 && s < 2 && t < 2 && v < 2 && w < 2
    ensures Xtime(128 + 16 * u + 8 * s + 4 * t + 2 * v + w) ==
            32 * u + 16 * (1 - s) + 8 * (1 - t) + 4 * (1 - v) + 2 * w + 1
  {
    hide Xor;
    XorEight(u);
    XorPush(8 + u, 8, s, 1);
    XorPush(16 + 2 * u + s, 17, t, 1);
    XorPush(32 + 4 * u + 2 * s + t, 35, v, 1);
    XorPush(64 + 8 * u + 4 * s + 2 * t + v, 71, w, 0);
    XorPush(128 + 16 * u + 8 * s + 4 * t + 2 * v + w, 142, 0, 1);
  }

  // The next power of r, from one without and from one with bit 7 set.

  lemma Low(n: nat, a: Byte)
    requires RootPower(n) == a < 128
    ensures RootPower(n + 1) == 2 * a
  {
  }

  lemma High(n: nat, u: nat, s: nat, t: nat, v: nat, w: nat)
    requires u < 8 && s < 2 && t < 2 && v < 2 && w < 2
    requires RootPower(n) == 128 + 16 * u + 8 * s + 4 * t + 2 * v + w
    ensures RootPower(n + 1) == 32 * u + 16 * (1 - s) + 8 * (1 - t) + 4 * (1 - v) + 2 * w + 1
  {
    hide Xtime;
    XtimeHigh(u, s, t, v, w);
  }

  lemma FirstPower()
    ensures RootPower(0) == 1
  {
  }

  lemma PowersTo17()
    ensures RootPower(15) == 38 && RootPower(17) == 152
  {
    hide *;
    FirstPower();
    Low(0, 1); Low(1, 2); Low(2, 4); Low(3, 8); Low(4, 16); Low(5, 32); Low(6, 64); High(7, 0, 0, 0, 0, 0);
    Low(8, 29); Low(9, 58); Low(10, 116); High(11, 6, 1, 0, 0, 0); High(12, 4, 1, 1, 0, 1); High(13, 0, 0, 1, 1, 1);
    Low(14, 19); Low(15, 38); Low(16, 76);
  }

  lemma PowersTo33()
    ensures RootPower(25) == 3 && RootPower(33) == 39
  {
    hide *;
    PowersTo17();
    High(17, 1, 1, 0, 0, 0); Low(18, 45); Low(19, 90); High(20, 3, 0, 1, 0, 0); Low(21, 117);
    High(22, 6, 1, 0, 1, 0); High(23, 4, 1, 0, 0, 1); High(24, 0, 1, 1, 1, 1); Low(25, 3); Low(26, 6); Low(27, 12);
    Low(28, 24); Low(29, 48); Low(30, 96); High(31, 4, 0, 0, 0, 0); High(32, 1, 1, 1, 0, 1);
  }

  lemma PowersTo51()
    ensures RootPower(51) == 10
  {
    hide *;
    PowersTo33();
    Low(33, 39); Low(34, 78); High(35, 1, 1, 1, 0, 0); Low(36, 37); Low(37, 74); High(38, 1, 0, 1, 0, 0);
    Low(39, 53); Low(40, 106); High(41, 5, 0, 1, 0, 0); High(42, 3, 0, 1, 0, 1); Low(43, 119);
    High(44, 6, 1, 1, 1, 0); High(45, 4, 0, 0, 0, 1); High(46, 1, 1, 1, 1, 1); Low(47, 35); Low(48, 70);
    High(49, 0, 1, 1, 0, 0); Low(50, 5);
  }

  lemma PowersTo68()
    ensures RootPower(68) == 153
  {
    hide *;
    PowersTo51();
    Low(51, 10); Low(52, 20); Low(53, 40); Low(54, 80); High(55, 2, 0, 0, 0, 0); Low(56, 93);
    High(57, 3, 1, 0, 1, 0); Low(58, 105); High(59, 5, 0, 0, 1, 0); High(60, 3, 1, 0, 0, 1); Low(61, 111);
    High(62, 5, 1, 1, 1, 0); High(63, 2, 0, 0, 0, 1); Low(64, 95); High(65, 3, 1, 1, 1, 0); Low(66, 97);
    High(67, 4, 0, 0, 1, 0);
  }

  // ----- the generator has order 255 -----

  /** v = r^17 satisfies v^4 = v + 1 and r^85 = v^2 + v. */
  lemma Seventeen()
    ensures RootPower(68) == Add(RootPower(17), 1)
    ensures RootPower(85) == Add(RootPower(34), RootPower(17))
  {
    hide *;
    var v := RootPower(17);
    assert RootPower(68) == Add(v, 1) by { PowersTo17(); PowersTo68(); AddEven(152); }
    RootPowerAdd(68, 17);
    RootPowerAdd(17, 17);
    AddMul(v, 1, v);
    OneMul(v);
  }

  /** Adding 1 to an even byte sets its low bit. */
  lemma AddEven(a: Byte)
    requires a % 2 == 0
    ensures Add(a, 1) == a + 1
  {
    XorStep(a, 1);
  }

  /** Squaring is additive. */
  lemma SquareAdd(a: Byte, b: Byte)
    ensures Mul(Add(a, b), Add(a, b)) == Add(Mul(a, a), Mul(b, b))
  {
    hide *;
    AddMul(a, b, Add(a, b));
    MulAdd(a, a, b); MulAdd(b, a, b); MulComm(a, b);
    var ab := Mul(a, b);
    AddAssoc(Mul(a, a), ab, Add(ab, Mul(b, b)));
    AddCancel(Mul(b, b), ab);
  }

  /** w = r^85 satisfies w^2 = w + 1, hence w^3 = 1. */
  lemma OrderDivides255()
    ensures RootPower(170) == Add(RootPower(85), 1)
    ensures RootPower(255) == 1
  {
    hide *;
    Seventeen();
    var v, u, w := RootPower(17), RootPower(34), RootPower(85);
    RootPowerAdd(85, 85);
    SquareAdd(u, v);
    RootPowerAdd(34, 34); RootPowerAdd(17, 17);
    AddAssoc(v, 1, u); AddComm(1, u); AddAssoc(v, u, 1); AddComm(v, u);
    RootPowerAdd(170, 85);
    AddMul(w, 1, w); OneMul(w);
    AddCancel(1, w); AddComm(Add(w, 1), w); AddComm(w, 1);
  }

  lemma FixesMeaning(c: Byte, k: nat)
    ensures Fixes(c, k) <==> Mul(c, RootPower(k)) == c
  {
  }

  /** If (r^k + 1) * d = 1 then r^k moves every non-zero byte. */
  lemma NotFixed(c: Byte, k: nat, d: Byte)
    requires Fixes(c, k)
    requires Mul(Add(RootPower(k), 1), d) == 1
    ensures c == 0
  {
    hide *;
    var p := RootPower(k);
    FixesMeaning(c, k);
    MulAdd(c, p, 1); MulOne(c); AddSelf(c);
    MulAssoc(c, Add(p, 1), d);
    OneMul(d);
  }

  lemma NotFixed15(c: Byte)
    requires Fixes(c, 15)
    ensures c == 0
  {
    hide *;
    OrderDivides255();
    RootPowerAdd(33, 222);
    PowersTo17(); PowersTo33(); AddEven(38);
    NotFixed(c, 15, RootPower(222));
  }

  lemma NotFixed51(c: Byte)
    requires Fixes(c, 51)
    ensures c == 0
  {
    hide *;
    Seventeen();
    var v := RootPower(17);
    RootPowerAdd(51, 17);
    AddMul(RootPower(51), 1, v); OneMul(v);
    AddCancel(1, v); AddComm(1, v); AddComm(v, Add(v, 1));
    NotFixed(c, 51, v);
  }

  lemma NotFixed85(c: Byte)
    requires Fixes(c, 85)
    ensures c == 0
  {
    hide *;
    OrderDivides255();
    RootPowerAdd(170, 85);
    NotFixed(c, 85, RootPower(85));
  }

  lemma FactorMoved(m: nat, g: nat, p: nat)
    requires p > 0 && m % p == 0 && g * m == 255
    ensures p * (m / p * g) == 255
  {
    calc { p * (m / p * g); (p * (m / p)) * g; m * g; }
  }

  /** r is a generator: no power of it below the 255th fixes a non-zero byte. */
  lemma GeneratorMoves(c: Byte, k: nat)
    requires c != 0 && 0 < k < 255
    ensures Mul(c, RootPower(k)) != c
  {
    hide *;
    FixesMeaning(c, k); FixesMeaning(c, 255);
    if Fixes(c, k) {
      OrderDivides255(); MulOne(c);
      var g, m, n := FixesDivisor(c, 255, k);
      DivisorOf255(g, m);
      if m % 3 == 0 {
        FactorMoved(m, g, 3); FixesMultiple(c, g, m / 3);
        NotFixed85(c);
      } else if m % 5 == 0 {
        FactorMoved(m, g, 5); FixesMultiple(c, g, m / 5);
        NotFixed51(c);
      } else {
        FactorMoved(m, g, 17); FixesMultiple(c, g, m / 17);
        NotFixed15(c);
      }
    }
  }

  /** Multiplication by a power of r loses nothing. */
  lemma PowerMulZero(c: Byte, i: nat)
    requires i <= 255 && Mul(c, RootPower(i)) == 0
    ensures c == 0
  {
    hide *;
    OrderDivides255();
    RootPowerAdd(i, 255 - i);
    MulAssoc(c, RootPower(i), RootPower(255 - i));
    OneMul(RootPower(255 - i));
    MulOne(c);
  }

  /** The multiples of a non-zero byte by r^0, ..., r^254 are pairwise different. */
  lemma PowersDistinct(c: Byte, i: nat, j: nat)
    requires c != 0 && i < j < 255
    ensures Mul(c, RootPower(i)) != Mul(c, RootPower(j))
  {
    hide *;
    var d := Mul(c, RootPower(i));
    RootPowerAdd(i, j - i);
    MulAssoc(c, RootPower(i), RootPower(j - i));
    if d == 0 { PowerMulZero(c, i); }
    GeneratorMoves(d, j - i);
  }

  // ----- the loop -----

  /** Russian peasant multiplication, most significant bit of y first. */
  method ReedSolomonMultiply(x: Byte, y: Byte) returns (r: Byte)
    ensures r == Mul(x, y)
  {
    hide *;
    var z := 0;
    var i := 7;
    PeasantStart(x, y);
    while i >= 0
      invariant -1 <= i <= 7
      invariant z == Mul(x, Shr(y, i + 1))
    {
      PeasantStep(x, y, i, z);
      z := Xor(2 * z, z / 128 * 0x11D);
      z := Xor(z, Shr(y, i) % 2 * x);
      i := i - 1;
    }
    assert z / 256 == 0;  // the final range check of the source cannot fail
    ShrNothing(y);
    r := z;
  }

  lemma ShrNothing(y: nat)
    ensures Shr(y, 0) == y
  {
  }

  lemma PeasantStart(x: Byte, y: Byte)
    ensures Mul(x, Shr(y, 8)) == 0
  {
    Pow2Seven();
    ShrZero(y, 8);
  }

  lemma PeasantStep(x: Byte, y: Byte, i: nat, z: Byte)
    requires z == Mul(x, Shr(y, i + 1))
    ensures Xor(Xor(2 * z, z / 128 * 0x11D), Shr(y, i) % 2 * x) == Mul(x, Shr(y, i))
  {
    hide *;
    var b := Shr(y, i);
    ShrStep(y, i);
    XtimeShift(z);
    LowBitTimes(b, x);
    MulUnfold(x, b);
    AddComm(LowBit(b, x), Xtime(z));
    AddIsXor(Xtime(z), LowBit(b, x));
  }

  lemma AddIsXor(a: Byte, b: Byte)
    ensures Add(a, b) == Xor(a, b)
  {
  }

  lemma XtimeShift(z: Byte)
    ensures Xor(2 * z, z / 128 * 0x11D) == Xtime(z)
  {
    hide Xor;
    XorZero(2 * z);
  }

  lemma LowBitTimes(b: Byte, x: Byte)
    ensures b % 2 * x == LowBit(b, x)
  {
  }

  lemma ShrStep(y: nat, i: nat)
    ensures Shr(y, i) / 2 == Shr(y, i + 1)
  {
  }
}
