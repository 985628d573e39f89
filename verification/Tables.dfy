/** The lookup tables of the field, filled by loops, and the buffer kernels that use them. */
module Tables {
  import opened Bits
  import opened GF256
  import opened Primitive

  /** The bits of the field polynomial, lowest degree first. */
  const POLYNOMIAL := "101110001"

  /** x mod 255 for non-negative x without dividing by 255; a negative x is truncated to a byte. */
  method Modnn(x: int) returns (r: gf)
    ensures x >= 0 ==> r == x % 255
    ensures x < 0 ==> r == x % 256
  {
    var v := x;
    while v >= 255
      invariant x < 0 ==> v == x
      invariant x >= 0 ==> v >= 0 && Residue(v) == Residue(x)
      decreases v
    {
      v := v - 255;
      FoldByte(v);
      v := v / 256 + v % 256;
    }
    r := v % 256;
  }

  function Residue(x: nat): nat { x % 255 }

  lemma FoldByte(v: nat)
    ensures Residue(v / 256 + v % 256) == Residue(v) == Residue(v + 255)
    ensures v / 256 + v % 256 <= v
  {
    var h, l := v / 256, v % 256;
    assert v == 255 * h + (h + l);
    AddMultiple(h, h + l);
    AddMultiple(1, v);
  }

  lemma {:induction false} AddMultiple(q: nat, m: nat)
    ensures (255 * q + m) % 255 == m % 255
  {
    if q > 0 {
      AddMultiple(q - 1, m);
      assert 255 * q + m == (255 * (q - 1) + m) + 255;
    }
  }

  /** The sums that form x^8 from the polynomial's bits. */
  lemma PolynomialSums()
    ensures Xor(0, 1) == 1 && Xor(1, 4) == 5 && Xor(5, 8) == 13 && Xor(13, 16) == 29
  {
    assert Pow2(2) == 4 && Pow2(3) == 8 && Pow2(4) == 16;
    hide Xor;
    XorZero(1);
    XorZero(5);
    XorZero(13);
    XorTop(0, 1, 2);
    XorTop(0, 5, 3);
    XorTop(0, 13, 4);
    XorComm(1, 4);
    XorComm(5, 8);
    XorComm(13, 16);
  }

  class GfTables {
    const gfExp: array<gf>
    const gfLog: array<int>
    const inverse: array<gf>
    const mulTable: array<gf>

    ghost predicate Shape()
    {
      && gfExp.Length == 510
      && gfLog.Length == 256
      && inverse.Length == 256
      && mulTable.Length == 65536
      && gfExp != inverse && gfExp != mulTable && inverse != mulTable
    }

    ghost predicate Powers()
      requires Shape()
      reads gfExp, gfLog
    {
      && (forall i :: 0 <= i < 510 ==> gfExp[i] == Exp(i))
      && (forall x: gf :: x != 0 ==> gfLog[x] == Log(x))
      && gfLog[0] == 255
    }

    ghost predicate Inverses()
      requires Shape()
      reads inverse
    {
      forall x: gf :: inverse[x] == Inv(x)
    }

    ghost predicate Products()
      requires Shape()
      reads mulTable
    {
      forall x: gf, y: gf :: mulTable[256 * x + y] == Mul(x, y)
    }

    ghost predicate Valid()
      reads gfExp, gfLog, inverse, mulTable
    {
      Shape() && Powers() && Inverses() && Products()
    }

    constructor ()
      ensures Valid()
      ensures fresh(gfExp) && fresh(gfLog) && fresh(inverse) && fresh(mulTable)
    {
      gfExp := new gf[510];
      gfLog := new int[256];
      inverse := new gf[256];
      mulTable := new gf[65536];
      new;
      GenerateGf();
      InitMulTable();
    }

    method GenerateGf()
      requires Shape()
      modifies gfExp, gfLog, inverse
      ensures Powers() && Inverses()
    {
      FirstPowers();
      RemainingPowers();
      FillInverses();
    }

    method FillInverses()
      requires Shape() && Powers()
      modifies inverse
      ensures Inverses()
    {
      hide Exp, Inv, Mul, Xor;
      inverse[0] := 0;
      inverse[1] := 1;
      OneInverse();
      for i := 2 to 256
        invariant forall x: gf :: x < i ==> inverse[x] == Inv(x)
      {
        inverse[i] := gfExp[255 - gfLog[i]];
        InverseByLog(i);
      }
    }

    method InitMulTable()
      requires Shape() && Powers()
      modifies mulTable
      ensures Products()
    {
      hide Exp, Mul, Xor;
      for i := 0 to 256
        invariant forall x: gf, y: gf :: x < i && x != 0 && y != 0 ==> mulTable[256 * x + y] == Mul(x, y)
      {
        for j := 0 to 256
          invariant forall x: gf, y: gf :: x < i && x != 0 && y != 0 ==> mulTable[256 * x + y] == Mul(x, y)
          invariant forall y: gf :: y < j && i != 0 && y != 0 ==> mulTable[256 * i + y] == Mul(i, y)
        {
          var m := Modnn(gfLog[i] + gfLog[j]);
          mulTable[256 * i + j] := gfExp[m];
          if i != 0 && j != 0 {
            ProductByLog(i, j);
          }
        }
      }
      forall x: gf
        ensures Mul(x, 0) == 0 && Mul(0, x) == 0
      {
        MulZero(x);
      }
      for j := 0 to 256
        invariant forall x: gf, y: gf :: x != 0 && y != 0 ==> mulTable[256 * x + y] == Mul(x, y)
        invariant forall y: gf :: y < j ==> mulTable[y] == 0 && mulTable[256 * y] == 0
      {
        mulTable[256 * j] := 0;
        mulTable[j] := mulTable[256 * j];
      }
    }

    /** The powers below x^8 are single bits; meanwhile x^8 is summed up from the polynomial. */
    method FirstPowers()
      requires Shape()
      modifies gfExp, gfLog
      ensures forall i :: 0 <= i <= 8 ==> gfExp[i] == Exp(i) && gfLog[Exp(i)] == i
    {
      hide Xor, Exp;
      assert Exp(0) == 1 by { PowersTo14(); }
      var mask: gf := 1;
      gfExp[8] := 0;
      for i := 0 to 8
        invariant i < 8 ==> mask == Exp(i)
        invariant mask == [1, 2, 4, 8, 16, 32, 64, 128, 0][i]
        invariant gfExp[8] == [0, 1, 1, 5, 13, 29, 29, 29, 29][i]
        invariant forall j :: 0 <= j < i ==> gfExp[j] == Exp(j) && gfLog[Exp(j)] == j
      {
        gfExp[i] := mask;
        NewPower(i);
        gfLog[gfExp[i]] := i;
        if POLYNOMIAL[i] == '1' {
          PolynomialSums();
          gfExp[8] := Xor(gfExp[8], mask);
        }
        if mask < 128 {
          Low(i);
        }
        mask := (mask * 2) % 256;
      }
      High(7, 0, 0, 0, 0, 0) by { PowersTo14(); }
      NewPower(8);
      gfLog[gfExp[8]] := 8;
    }

    /** Each further power doubles the last one, reduced when its top bit is set. */
    method RemainingPowers()
      requires Shape()
      requires forall i :: 0 <= i <= 8 ==> gfExp[i] == Exp(i) && gfLog[Exp(i)] == i
      modifies gfExp, gfLog
      ensures Powers()
    {
      hide Xor, Exp;
      assert gfExp[8] == Exp(8) == 29 by {
        PowersTo14();
        High(7, 0, 0, 0, 0, 0);
      }
      var mask := 128;
      for i := 9 to 255
        invariant forall j :: 0 <= j < i ==> gfExp[j] == Exp(j) && gfLog[Exp(j)] == j
      {
        if gfExp[i - 1] >= mask {
          TopBit(i - 1);
          gfExp[i] := Xor(gfExp[8], Xor(gfExp[i - 1], mask) * 2);
        } else {
          Low(i - 1);
          gfExp[i] := gfExp[i - 1] * 2;
        }
        NewPower(i);
        gfLog[gfExp[i]] := i;
      }
      forall j | 0 <= j < 255
        ensures Exp(j) != 0
      {
        NewPower(j);
      }
      gfLog[0] := 255;
      for i := 0 to 255
        invariant forall j :: 0 <= j < 255 + i ==> gfExp[j] == Exp(j)
        invariant forall j :: 0 <= j < 255 ==> gfLog[Exp(j)] == j
        invariant gfLog[0] == 255
      {
        gfExp[i + 255] := gfExp[i];
        NextTurn(i);
      }
      forall x: gf | x != 0
        ensures gfLog[x] == Log(x)
      {
        assert Exp(Log(x)) == x;
      }
    }
  }

  /** A power not reached before differs from all earlier ones and from zero. */
  lemma NewPower(i: nat)
    requires i < 255
    ensures Exp(i) != 0
    ensures forall j :: 0 <= j < i ==> Exp(j) != Exp(i)
  {
    hide Exp;
    ExpNonZero(i);
    forall j | 0 <= j < i
      ensures Exp(j) != Exp(i)
    {
      ExpInjective(j, i);
    }
  }

  lemma TopBit(i: nat)
    requires Exp(i) >= 128
    ensures Xor(Exp(i), 128) < 128
    ensures Xor(29, Xor(Exp(i), 128) * 2) == Exp(i + 1)
  {
    hide Xor;
    var r := Exp(i) - 128;
    assert Pow2(7) == 128;
    XorTop(r, 0, 7);
    XorZero(r);
    XorAssoc(r, 128, 128);
    XorSelf(128);
    XorTop(0, r, 7);
    XorZero(128);
    XorComm(r, 128);
    AddComm(29, 2 * r);
  }

  lemma NextTurn(i: nat)
    ensures Exp(i + 255) == Exp(i)
  {
    hide Exp, Mul;
    ExpAdd(i, 255);
    Period();
    MulOne(Exp(i));
  }

  lemma OneInverse()
    ensures Inv(1) == 1
  {
    hide Mul, Inv;
    MulOne(1);
    InvUnique(1, 1);
  }

  lemma InverseByLog(x: gf)
    requires x >= 2
    ensures Log(x) > 0 && Inv(x) == Exp(255 - Log(x))
  {
    hide Exp, Mul;
    assert Exp(0) == 1 by { PowersTo14(); }
  }

  lemma ProductByLog(x: gf, y: gf)
    requires x != 0 && y != 0
    ensures Exp((Log(x) + Log(y)) % 255) == Mul(x, y)
  {
    hide Exp, Mul;
    ExpAdd(Log(x), Log(y));
    Period();
    PeriodMod(Log(x) + Log(y), 255);
  }
}
