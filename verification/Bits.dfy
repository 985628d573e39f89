/** Bitwise exclusive-or on unsigned integers, as C's `^` on operands of any width. */
module Bits {

  function Xor(a: nat, b: nat): nat
  {
    if a == 0 && b == 0 then 0
    else (a + b) % 2 + 2 * Xor(a / 2, b / 2)
  }

  function Pow2(k: nat): nat
  {
    if k == 0 then 1 else 2 * Pow2(k - 1)
  }

  lemma XorHalf(a: nat, b: nat)
    ensures Xor(a, b) % 2 == (a + b) % 2
    ensures Xor(a, b) / 2 == Xor(a / 2, b / 2)
    ensures Xor(a, b) == (a + b) % 2 + 2 * Xor(a / 2, b / 2)
  {
  }

  type bit = d: int | 0 <= d <= 1

  /** Appending one binary digit to each operand. */
  lemma XorDigit(a: nat, b: nat, p: bit)
    ensures Xor(2 * a + p, 2 * b) == 2 * Xor(a, b) + p
    ensures Xor(2 * a + p, 2 * b + 1) == 2 * Xor(a, b) + (1 - p)
  {
    hide Xor;
    XorHalf(2 * a + p, 2 * b);
    XorHalf(2 * a + p, 2 * b + 1);
  }

  lemma {:induction false} XorComm(a: nat, b: nat)
    ensures Xor(a, b) == Xor(b, a)
  {
    if a != 0 || b != 0 {
      XorComm(a / 2, b / 2);
    }
  }

  lemma {:induction false} XorZero(a: nat)
    ensures Xor(a, 0) == a && Xor(0, a) == a
  {
    if a != 0 {
      XorZero(a / 2);
    }
  }

  lemma {:induction false} XorSelf(a: nat)
    ensures Xor(a, a) == 0
  {
    if a != 0 {
      XorSelf(a / 2);
    }
  }

  lemma ParityAssoc(a: nat, b: nat, c: nat, x: nat, y: nat)
    requires x % 2 == (a + b) % 2 && y % 2 == (b + c) % 2
    ensures (x + c) % 2 == (a + y) % 2
  {
    assert (x + c) % 2 == (a + b + c) % 2;
  }

  lemma {:induction false} XorAssoc(a: nat, b: nat, c: nat)
    ensures Xor(Xor(a, b), c) == Xor(a, Xor(b, c))
  {
    hide Xor;
    XorZero(0);
    if a != 0 || b != 0 || c != 0 {
      XorAssoc(a / 2, b / 2, c / 2);
      XorHalf(a, b);
      XorHalf(b, c);
      ParityAssoc(a, b, c, Xor(a, b), Xor(b, c));
      XorHalf(Xor(a, b), c);
      XorHalf(a, Xor(b, c));
    }
  }

  lemma {:induction false} XorBound(a: nat, b: nat, k: nat)
    requires a < Pow2(k) && b < Pow2(k)
    ensures Xor(a, b) < Pow2(k)
  {
    if k > 0 {
      XorBound(a / 2, b / 2, k - 1);
    }
  }

  /** A bit above every bit of both operands passes through unchanged. */
  lemma {:induction false} XorTop(a: nat, b: nat, k: nat)
    requires a < Pow2(k) && b < Pow2(k)
    ensures Xor(Pow2(k) + a, b) == Pow2(k) + Xor(a, b)
  {
    hide Xor;
    if k == 0 {
      XorZero(0);
      XorZero(1);
    } else {
      var h := Pow2(k - 1);
      assert Pow2(k) == 2 * h;
      hide Pow2;
      XorTop(a / 2, b / 2, k - 1);
      XorHalf(2 * h + a, b);
      XorHalf(a, b);
      assert (2 * h + a) / 2 == h + a / 2;
    }
  }

  /** Exclusive-or of two numbers with no set bit in common is their sum. */
  lemma {:induction false} XorDisjoint(k: nat, m: nat)
    ensures Xor(Pow2(k), 2 * (Pow2(k) * m)) == Pow2(k) + 2 * (Pow2(k) * m)
  {
    hide Xor;
    XorHalf(Pow2(k), 2 * (Pow2(k) * m));
    if k == 0 {
      XorZero(m);
    } else {
      assert Pow2(k) * m == 2 * (Pow2(k - 1) * m);
      XorDisjoint(k - 1, m);
    }
  }
}
