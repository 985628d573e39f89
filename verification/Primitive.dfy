/** The polynomial x generates the multiplicative group of GF(2^8): its first 255 powers
    are exactly the non-zero elements. Logarithms and inverses rest on this. */
module Primitive {
  import opened Bits
  import opened GF256

  // ---------- the first powers of x ----------

  /** Reducing by 29 = 11101b flips four known bits of an even number. */
  lemma ReduceDigits(h: nat, p: bit, q: bit, s: bit, u: bit)
    ensures Xor(32 * h + 16 * p + 8 * q + 4 * s + 2 * u, 29)
         == 32 * h + 16 * (1 - p) + 8 * (1 - q) + 4 * (1 - s) + 2 * u + 1
  {
    hide Xor;
    XorZero(h);
    XorDigit(h, 0, p);
    XorDigit(2 * h + p, 1, q);
    XorDigit(4 * h + 2 * p + q, 3, s);
    XorDigit(8 * h + 4 * p + 2 * q + s, 7, u);
    XorDigit(16 * h + 8 * p + 4 * q + 2 * s + u, 14, 0);
  }

  lemma Low(i: nat)
    requires Exp(i) < 128
    ensures Exp(i + 1) == 2 * Exp(i)
  {
    hide Add;
  }

  lemma High(i: nat, h: nat, p: bit, q: bit, s: bit, u: bit)
    requires Exp(i) == 128 + 16 * h + 8 * p + 4 * q + 2 * s + u
    ensures Exp(i + 1) == 32 * h + 16 * (1 - p) + 8 * (1 - q) + 4 * (1 - s) + 2 * u + 1
  {
    hide Xor;
    ReduceDigits(h, p, q, s, u);
  }

  lemma PowersTo14()
    ensures Exp(0) == 1 && Exp(3) == 8 && Exp(4) == 16 && Exp(7) == 128 && Exp(12) == 205 && Exp(14) == 19
  {
    assert Exp(0) == 1;
    hide Xor, Exp;
    Low(0); Low(1); Low(2); Low(3); Low(4); Low(5); Low(6);
    High(7, 0, 0, 0, 0, 0);
    Low(8); Low(9); Low(10);
    High(11, 6, 1, 0, 0, 0);
    High(12, 4, 1, 1, 0, 1);
    High(13, 0, 0, 1, 1, 1);
  }

  lemma PowersTo28()
    ensures Exp(15) == 38 && Exp(16) == 76 && Exp(17) == 152 && Exp(28) == 24
  {
    PowersTo14();
    hide Xor, Exp;
    Low(14); Low(15); Low(16);
    High(17, 1, 1, 0, 0, 0);
    Low(18); Low(19);
    High(20, 3, 0, 1, 0, 0);
    Low(21);
    High(22, 6, 1, 0, 1, 0);
    High(23, 4, 1, 0, 0, 1);
    High(24, 0, 1, 1, 1, 1);
    Low(25); Low(26); Low(27);
  }

  // ---------- exponent laws ----------

  lemma {:induction false} ExpAdd(i: nat, j: nat)
    ensures Exp(i + j) == Mul(Exp(i), Exp(j))
  {
    hide Mul, Xtime;
    if i == 0 {
      MulOne(Exp(j));
    } else {
      ExpAdd(i - 1, j);
      MulXtime(Exp(i - 1), Exp(j));
    }
  }

  /** Squaring is additive in characteristic two. */
  lemma Frobenius(a: gf, b: gf)
    ensures Mul(Add(a, b), Add(a, b)) == Add(Mul(a, a), Mul(b, b))
  {
    hide Mul, Add;
    DistribLeft(a, b, Add(a, b));
    DistribRight(a, a, b);
    DistribRight(b, a, b);
    MulComm(a, b);
    AddComm(Mul(a, b), Mul(b, b));
    AddSwap(Mul(a, a), Mul(a, b), Mul(b, b), Mul(a, b));
    AddZero(Mul(a, b));
    AddZero(Add(Mul(a, a), Mul(b, b)));
  }

  lemma FourthPower(a: gf, b: gf)
    ensures Mul(Mul(Add(a, b), Add(a, b)), Mul(Add(a, b), Add(a, b)))
         == Add(Mul(Mul(a, a), Mul(a, a)), Mul(Mul(b, b), Mul(b, b)))
  {
    hide Mul, Add;
    Frobenius(a, b);
    Frobenius(Mul(a, a), Mul(b, b));
  }

  lemma ExpFourth(i: nat)
    ensures Exp(4 * i) == Mul(Mul(Exp(i), Exp(i)), Mul(Exp(i), Exp(i)))
  {
    hide Mul, Exp;
    ExpAdd(i, i);
    ExpAdd(2 * i, 2 * i);
  }

  /** With g = x^17: g^4 = g + 1. Everything about the order of x follows from this. */
  lemma Generator()
    ensures Exp(68) == Add(Exp(17), 1)
  {
    hide Mul, Exp, Xor;
    PowersTo14();
    PowersTo28();
    assert Add(8, 16) == 24 by { XorSums(); }
    assert Add(128, 24) == 152 by { XorSums(); }
    assert Add(24, Add(76, 205)) == 153 && Add(152, 1) == 153 by { XorSums(); }
    ExpFourth(3);
    ExpFourth(4);
    ExpFourth(7);
    ExpFourth(17);
    FourthPower(8, 16);
    FourthPower(128, 24);
    AddComm(205, 76);
  }

  lemma XorSums()
    ensures Xor(8, 16) == 24 && Xor(128, 24) == 152 && Xor(152, 1) == 153
    ensures Xor(76, 205) == 129 && Xor(24, 129) == 153
  {
    hide Xor;
    assert Pow2(3) == 8 && Pow2(7) == 128;
    XorDisjoint(3, 1);
    XorTop(0, 24, 7);
    XorZero(24);
    XorZero(76);
    XorDigit(76, 0, 0);
    XorZero(1);
    XorComm(0, 1);
    XorDigit(0, 1, 1); XorDigit(1, 3, 0); XorDigit(2, 6, 0); XorDigit(4, 12, 1);
    XorDigit(9, 25, 1); XorDigit(19, 51, 0); XorDigit(38, 102, 0);
    XorTop(1, 24, 7);
    XorComm(1, 24);
    XorZero(12);
    XorDigit(12, 0, 0);
    XorComm(24, 129);
  }

  // ---------- the order of x is 255 ----------

  lemma Period()
    ensures Exp(255) == 1
  {
    hide Mul, Exp, Xor, Add;
    var g := Exp(17);
    Generator();
    AddZero(1);
    AddZero(g);
    MulOne(1);
    // g^8 = g^2 + 1 and g^16 = g, so g * (g^3 + 1) = 1 gives g^15 = 1.
    ExpAdd(17, 17);
    ExpAdd(34, 34);
    ExpAdd(68, 68);
    ExpAdd(136, 136);
    Frobenius(g, 1);
    Frobenius(Exp(34), 1);
    AddAssoc(g, 1, 1);
    ExpAdd(255, 17);
    ExpAdd(255, 68);
    ExpAdd(272, 51);
    ExpAdd(17, 51);
    DistribRight(Exp(255), g, 1);
    MulOne(Exp(255));
    AddMove(g, Exp(255), Exp(68));
    AddMove(g, 1, Exp(68));
  }

  lemma ProperPeriods()
    ensures Exp(51) != 1 && Exp(85) != 1 && Exp(15) != 1
  {
    hide Mul, Exp, Xor, Add;
    var g := Exp(17);
    PowersTo28();
    Generator();
    Period();
    MulOne(g);
    MulOne(1);
    // g^3 = 1 would give g = g + 1.
    ExpAdd(17, 51);
    AddMove(g, 1, g);
    AddZero(g);
    // g^5 = g^2 + g = 1 would give g^4 = g^2, hence g^2 = 1 and g = 0.
    ExpAdd(68, 17);
    ExpAdd(17, 17);
    ExpAdd(34, 34);
    ExpAdd(34, 221);
    DistribLeft(g, 1, g);
    AddMove(Exp(34), g, 1);
    AddComm(1, g);
    MulAssoc(Exp(34), Exp(34), Exp(221));
    MulOne(Exp(34));
    AddMove(g, 1, 1);
    AddZero(1);
  }

  lemma {:induction false} PeriodMultiple(q: nat, d: nat, r: nat)
    requires Exp(d) == 1
    ensures Exp(q * d + r) == Exp(r)
    decreases q
  {
    hide Mul, Exp;
    if q > 0 {
      assert q * d + r == ((q - 1) * d + r) + d;
      ExpAdd((q - 1) * d + r, d);
      MulOne(Exp((q - 1) * d + r));
      PeriodMultiple(q - 1, d, r);
    }
  }

  lemma PeriodMod(i: nat, d: nat)
    requires d > 0 && Exp(d) == 1
    ensures Exp(i) == Exp(i % d)
  {
    hide Exp;
    PeriodMultiple(i / d, d, i % d);
  }

  /** Every proper divisor of 255 = 3 * 5 * 17 divides 85, 51 or 15. */
  lemma Divisors(d: nat)
    requires 0 < d < 255 && 255 % d == 0
    ensures 85 % d == 0 || 51 % d == 0 || 15 % d == 0
  {
    var q := 255 / d;
    assert d * q == 255;
    if d > 15 {
      assert d * q >= 16 * q;
      DivisorsByQuotient(d, q);
    } else {
      SmallDivisors(d);
    }
  }

  lemma SmallDivisors(d: nat)
    requires 0 < d <= 15 && 255 % d == 0
    ensures 15 % d == 0
  {
  }

  lemma DivisorsByQuotient(d: nat, q: nat)
    requires 0 < d < 255 && d * q == 255 && q <= 15
    ensures d == 85 || d == 51 || d == 17
  {
  }

  /** The order of x divides 255 and is not a proper divisor of it. */
  lemma {:induction false} NoShortPeriod(d: nat)
    requires 0 < d < 255
    ensures Exp(d) != 1
    decreases d
  {
    hide Mul, Exp;
    assert Exp(0) == 1 by { PowersTo14(); }
    ProperPeriods();
    Period();
    if 255 % d != 0 {
      NoShortPeriod(255 % d);
      if Exp(d) == 1 {
        PeriodMod(255, d);
      }
    } else {
      Divisors(d);
      if Exp(d) == 1 {
        PeriodMod(85, d);
        PeriodMod(51, d);
        PeriodMod(15, d);
      }
    }
  }

  lemma ExpInjective(i: nat, j: nat)
    requires i < j < 255
    ensures Exp(i) != Exp(j)
  {
    hide Mul, Exp;
    ExpAdd(i, 255 - i);
    ExpAdd(j, 255 - i);
    ExpAdd(j - i, 255);
    assert j + (255 - i) == (j - i) + 255;
    Period();
    MulOne(Exp(j - i));
    NoShortPeriod(j - i);
  }

  // ---------- logarithms and inverses ----------

  /** The set of the first n powers. */
  ghost function Powers(n: nat): set<int>
  {
    set i | 0 <= i < n :: Exp(i)
  }

  ghost function NonZero(n: nat): (s: set<int>)
    ensures forall y :: y in s <==> 0 < y <= n
    ensures |s| == n
  {
    if n == 0 then {} else NonZero(n - 1) + {n}
  }

  lemma {:induction false} PowersSize(n: nat)
    requires n <= 255
    ensures |Powers(n)| == n
  {
    hide Exp;
    if n > 0 {
      PowersSize(n - 1);
      assert Powers(n) == Powers(n - 1) + {Exp(n - 1)};
      forall i | 0 <= i < n - 1
        ensures Exp(i) != Exp(n - 1)
      {
        ExpInjective(i, n - 1);
      }
    }
  }

  lemma SubsetOfSameSize(a: set<int>, b: set<int>)
    requires a <= b && |a| == |b|
    ensures a == b
  {
    assert b == a + (b - a);
    assert |b| == |a| + |b - a|;
    assert b - a == {};
  }

  lemma ExpNonZero(i: nat)
    ensures Exp(i) != 0
  {
    hide Exp, Mul;
    Period();
    PeriodMod(i, 255);
    ExpAdd(i % 255, 255 - i % 255);
    MulZero(Exp(255 - i % 255));
  }

  /** Every non-zero element is a power of x. */
  lemma LogExists(x: gf)
    requires x != 0
    ensures exists i: nat :: i < 255 && Exp(i) == x
  {
    hide Exp;
    forall y | y in Powers(255)
      ensures y in NonZero(255)
    {
      var i :| 0 <= i < 255 && y == Exp(i);
      ExpNonZero(i);
    }
    PowersSize(255);
    SubsetOfSameSize(Powers(255), NonZero(255));
    assert x in Powers(255);
  }

  ghost function Log(x: gf): (i: nat)
    requires x != 0
    ensures i < 255 && Exp(i) == x
  {
    LogExists(x);
    var i: nat :| i < 255 && Exp(i) == x;
    i
  }

  lemma LogExp(i: nat)
    requires i < 255
    ensures Exp(i) != 0 && Log(Exp(i)) == i
  {
    hide Exp;
    ExpNonZero(i);
    var l := Log(Exp(i));
    if l < i {
      ExpInjective(l, i);
    } else if i < l {
      ExpInjective(i, l);
    }
  }

  /** The multiplicative inverse; zero, which has none, is sent to zero. */
  ghost function Inv(x: gf): (y: gf)
    ensures x != 0 ==> Mul(x, y) == 1 && y != 0
    ensures x == 0 ==> y == 0
  {
    if x == 0 then 0 else
      ExpAdd(Log(x), 255 - Log(x));
      Period();
      ExpNonZero(255 - Log(x));
      Exp(255 - Log(x))
  }

  lemma InvUnique(x: gf, y: gf)
    requires x != 0 && Mul(x, y) == 1
    ensures y == Inv(x)
  {
    hide Mul, Inv;
    MulOne(Inv(x));
    MulOne(y);
    MulComm(Inv(x), x);
    MulAssoc(Inv(x), x, y);
  }

  lemma NoZeroDivisors(x: gf, y: gf)
    requires x != 0 && Mul(x, y) == 0
    ensures y == 0
  {
    hide Mul, Inv;
    MulOne(y);
    MulComm(Inv(x), x);
    MulAssoc(Inv(x), x, y);
    MulZero(Inv(x));
  }
}
