/** The field GF(2^8) of polynomials over GF(2) modulo x^8 + x^4 + x^3 + x^2 + 1.
    An element is the byte whose bit i is the coefficient of x^i. */
module GF256 {
  import opened Bits

  type gf = x: int | 0 <= x < 256

  /** Addition of polynomials. Every element is its own opposite. */
  function Add(a: gf, b: gf): gf
  {
    assert Pow2(8) == 256;
    XorBound(a, b, 8);
    Xor(a, b)
  }

  /** Multiplication by the polynomial x, reduced modulo the field polynomial. */
  function Xtime(a: gf): gf
  {
    if a >= 128 then Add(2 * (a - 128), 29) else 2 * a
  }

  /** Polynomial product: the sum of a * x^i over the set bits i of b. */
  function Mul(a: gf, b: nat): gf
    decreases b
  {
    if b == 0 then 0 else Add(if b % 2 == 1 then a else 0, Mul(Xtime(a), b / 2))
  }

  /** The powers of the polynomial x. */
  function Exp(i: nat): gf
  {
    if i == 0 then 1 else Xtime(Exp(i - 1))
  }

  // ---------- addition ----------

  lemma AddZero(a: gf)
    ensures Add(a, 0) == a && Add(0, a) == a && Add(a, a) == 0
  {
    XorZero(a);
    XorSelf(a);
  }

  lemma AddComm(a: gf, b: gf)
    ensures Add(a, b) == Add(b, a)
  {
    XorComm(a, b);
  }

  lemma AddAssoc(a: gf, b: gf, c: gf)
    ensures Add(Add(a, b), c) == Add(a, Add(b, c))
  {
    hide Xor;
    XorAssoc(a, b, c);
  }

  lemma AddSwap(a: gf, b: gf, c: gf, d: gf)
    ensures Add(Add(a, b), Add(c, d)) == Add(Add(a, c), Add(b, d))
  {
    hide Add;
    AddAssoc(a, b, Add(c, d));
    AddAssoc(b, c, d);
    AddComm(b, c);
    AddAssoc(c, b, d);
    AddAssoc(a, c, Add(b, d));
  }

  /** Moving a summand across an equation. */
  lemma AddMove(a: gf, b: gf, c: gf)
    ensures Add(a, b) == c <==> a == Add(c, b)
    ensures Add(a, b) == c <==> b == Add(a, c)
  {
    hide Add;
    AddAssoc(a, b, b);
    AddAssoc(c, b, b);
    AddAssoc(a, a, b);
    AddAssoc(a, a, c);
    AddZero(a);
    AddZero(b);
    AddZero(c);
  }

  // ---------- multiplication ----------

  lemma XtimeLinear(a: gf, b: gf)
    ensures Xtime(Add(a, b)) == Add(Xtime(a), Xtime(b))
  {
    hide Xor;
    assert Pow2(7) == 128;
    var c := if a >= 128 then a - 128 else a;
    var d := if b >= 128 then b - 128 else b;
    XorBound(c, d, 7);
    XorTop(c, d, 7);
    XorTop(d, c, 7);
    XorComm(c, d);
    XorComm(128 + d, c);
    XorHalf(2 * c, 2 * d);
    XorTop(0, c, 7);
    XorTop(0, d, 7);
    XorZero(c);
    XorZero(d);
    if a >= 128 && b >= 128 {
      AddSwap(128, c, 128, d);
      AddSwap(2 * c, 29, 2 * d, 29);
      AddZero(128);
      AddZero(29);
      AddZero(Add(c, d));
      AddZero(Add(2 * c, 2 * d));
    } else if a >= 128 {
      AddComm(2 * c, 29);
      AddAssoc(29, 2 * c, 2 * d);
      AddComm(29, Add(2 * c, 2 * d));
    } else {
      AddAssoc(2 * c, 2 * d, 29);
    }
  }

  lemma MulStep(a: gf, b: nat)
    ensures Mul(a, b) == Add(if b % 2 == 1 then a else 0, Mul(Xtime(a), b / 2))
  {
    AddZero(0);
  }

  lemma {:induction false} DistribLeft(a: gf, c: gf, b: nat)
    ensures Mul(Add(a, c), b) == Add(Mul(a, b), Mul(c, b))
    decreases b
  {
    hide Add, Xtime;
    AddZero(0);
    if b != 0 {
      XtimeLinear(a, c);
      DistribLeft(Xtime(a), Xtime(c), b / 2);
      AddSwap(if b % 2 == 1 then a else 0, Mul(Xtime(a), b / 2), if b % 2 == 1 then c else 0, Mul(Xtime(c), b / 2));
    }
  }

  lemma {:induction false} DistribXor(a: gf, b: nat, c: nat)
    ensures Mul(a, Xor(b, c)) == Add(Mul(a, b), Mul(a, c))
    decreases b + c
  {
    hide Add, Xtime, Mul, Xor;
    XorZero(0);
    AddZero(a);
    AddZero(0);
    MulStep(a, b);
    MulStep(a, c);
    MulStep(a, Xor(b, c));
    if b == 0 && c == 0 {
      MulZero(a);
    } else {
      XorHalf(b, c);
      DistribXor(Xtime(a), b / 2, c / 2);
      AddSwap(if b % 2 == 1 then a else 0, Mul(Xtime(a), b / 2), if c % 2 == 1 then a else 0, Mul(Xtime(a), c / 2));
    }
  }

  lemma DistribRight(a: gf, b: gf, c: gf)
    ensures Mul(a, Add(b, c)) == Add(Mul(a, b), Mul(a, c))
  {
    hide Mul, Xor;
    DistribXor(a, b, c);
  }

  lemma MulZero(a: gf)
    ensures Mul(a, 0) == 0 && Mul(0, a) == 0
  {
    hide Add;
    AddZero(0);
    AddZero(Mul(0, a));
    DistribLeft(0, 0, a);
  }

  lemma {:induction false} MulXtime(a: gf, b: nat)
    ensures Mul(Xtime(a), b) == Xtime(Mul(a, b))
    decreases b
  {
    hide Add, Xtime;
    assert Xtime(0) == 0 by {
      AddZero(0);
      XtimeLinear(0, 0);
      AddZero(Xtime(0));
    }
    if b != 0 {
      MulXtime(Xtime(a), b / 2);
      XtimeLinear(if b % 2 == 1 then a else 0, Mul(Xtime(a), b / 2));
    }
  }

  lemma {:induction false} MulPow2(k: nat, b: nat)
    requires Pow2(k) * b < 256 && Pow2(k) < 256
    ensures Mul(Pow2(k), b) == Pow2(k) * b
    decreases b
  {
    hide Mul, Xor;
    var p, h := Pow2(k), b / 2;
    MulStep(p, b);
    AddZero(p);
    if b == 0 {
      MulZero(p);
    } else if b == 1 {
      MulZero(Xtime(p));
    } else {
      MulPow2Halves(p, b, h);
      assert Pow2(k + 1) == 2 * p;
      MulPow2(k + 1, h);
      XorDisjoint(k, h);
      AddZero(2 * (p * h));
    }
  }

  lemma MulPow2Halves(p: nat, b: nat, h: nat)
    requires p * b < 256 && b >= 2 && h == b / 2
    ensures p < 128 && 2 * p * h == 2 * (p * h) < 256
    ensures p * b == 2 * (p * h) + if b % 2 == 1 then p else 0
  {
    assert b == 2 * h + b % 2;
    assert p * b == p * (2 * h) + p * (b % 2);
    assert p * (2 * h) == 2 * (p * h);
    assert p * h >= p;
  }

  lemma MulOne(a: gf)
    ensures Mul(1, a) == a && Mul(a, 1) == a
  {
    assert Pow2(0) == 1;
    MulPow2(0, a);
    AddZero(a);
  }

  /** A product on the left may be formed inside or outside. */
  lemma {:induction false} MulExchange(c: gf, b: nat, a: gf)
    ensures Mul(Mul(c, b), a) == Mul(Mul(c, a), b)
    decreases b
  {
    hide Add, Xtime;
    MulZero(a);
    if b != 0 {
      DistribLeft(if b % 2 == 1 then c else 0, Mul(Xtime(c), b / 2), a);
      MulExchange(Xtime(c), b / 2, a);
      MulXtime(c, a);
    }
  }

  lemma MulComm(a: gf, b: gf)
    ensures Mul(a, b) == Mul(b, a)
  {
    hide Mul;
    MulOne(a);
    MulOne(b);
    MulExchange(1, a, b);
  }

  lemma MulAssoc(a: gf, b: gf, c: gf)
    ensures Mul(Mul(a, b), c) == Mul(a, Mul(b, c))
  {
    hide Mul;
    MulComm(a, b);
    MulExchange(b, a, c);
    MulComm(Mul(b, c), a);
  }
}
