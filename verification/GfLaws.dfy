// The three multiplications of the codec agree, and they make the bytes a field.
module GfLaws {
  import opened Gf256
  import opened GfTables
  import opened GfTableLaws

  // ----- every non-zero byte is a power of 2

  lemma ExpStart()
    ensures Exp(0) == 1 && Exp(255) == 1
  {}

  lemma {:induction false} PowPeriod(p: nat, i: nat)
    requires Pow(p) == 1
    ensures Pow(i + p) == Pow(i)
  {
    hide Xtime;
    if i > 0 { PowPeriod(p, i - 1); }
  }

  lemma {:induction false} ExpIsPowLow(i: bv9)
    requires i <= 255
    ensures Exp(i) == Pow(i as nat)
    decreases i
  {
    hide Exp, Xtime;
    if i == 0 {
      ExpStart();
    } else {
      var j := i - 1;
      assert j + 1 == i && j as nat + 1 == i as nat;
      ExpIsPowLow(j);
      ExpNext(j);
    }
  }

  // The powers table holds the powers of 2, also in its second half.
  lemma ExpIsPow(i: bv9)
    requires i < 510
    ensures Exp(i) == Pow(i as nat)
  {
    hide Exp, Xtime, Pow;
    if i < 255 {
      ExpIsPowLow(i);
    } else {
      var j, p: bv9 := i - 255, 255;
      assert j + 255 == i && j as nat + p as nat == i as nat;
      ExpIsPowLow(j);
      ExpRepeats(j);
      ExpIsPowLow(p);
      ExpStart();
      PowPeriod(p as nat, j as nat);
    }
  }

  lemma {:induction false} MulPow(i: nat, b: Byte, j: nat)
    requires b == Pow(j)
    ensures Mul(Pow(i), b) == Pow(i + j)
  {
    hide Xtime, Mul;
    if i == 0 {
      MulOneLeft(b);
    } else {
      MulPow(i - 1, b, j);
      MulXtimeLeft(Pow(i - 1), b);
    }
  }

  lemma LogPow(a: Byte) returns (i: nat)
    requires a != 0
    ensures a == Pow(i)
  {
    hide Exp, Log, Pow;
    ExpOfLog(a);
    ExpIsPow(Log(a) as bv9);
    i := Log(a) as bv9 as nat;
  }

  // ----- the field laws

  lemma PowProduct(a: Byte, i: nat, b: Byte, j: nat)
    requires a == Pow(i) && b == Pow(j)
    ensures Mul(a, b) == Pow(i + j)
  {
    hide Mul, Pow;
    MulPow(i, b, j);
  }

  lemma MulComm(a: Byte, b: Byte)
    ensures Mul(a, b) == Mul(b, a)
  {
    hide Mul, Pow;
    if a == 0 || b == 0 {
      MulZero(a);
      MulZero(b);
    } else {
      var i := LogPow(a);
      var j := LogPow(b);
      PowProduct(a, i, b, j);
      PowProduct(b, j, a, i);
    }
  }

  lemma MulAssocOfPowers(a: Byte, b: Byte, c: Byte, i: nat, j: nat, k: nat)
    requires a == Pow(i) && b == Pow(j) && c == Pow(k)
    ensures Mul(Mul(a, b), c) == Mul(a, Mul(b, c))
  {
    hide *;
    PowProduct(a, i, b, j);
    PowProduct(Mul(a, b), i + j, c, k);
    PowProduct(b, j, c, k);
    PowProduct(a, i, Mul(b, c), j + k);
    assert i + (j + k) == (i + j) + k;
  }

  lemma MulAssoc(a: Byte, b: Byte, c: Byte)
    ensures Mul(Mul(a, b), c) == Mul(a, Mul(b, c))
  {
    hide *;
    MulZero(a);
    MulZero(b);
    MulZero(c);
    MulZero(Mul(a, b));
    MulZero(Mul(b, c));
    if a != 0 && b != 0 && c != 0 {
      var i := LogPow(a);
      var j := LogPow(b);
      var k := LogPow(c);
      MulAssocOfPowers(a, b, c, i, j, k);
    }
  }

  lemma MulAddRight(a: Byte, b: Byte, c: Byte)
    ensures Mul(a, Add(b, c)) == Add(Mul(a, b), Mul(a, c))
  {
    hide Add, Mul;
    MulAddLeft(b, c, a);
    MulComm(a, b);
    MulComm(a, c);
    MulComm(a, Add(b, c));
  }

  lemma MulOne(a: Byte)
    ensures Mul(1, a) == a && Mul(a, 1) == a
  {
    hide Mul;
    MulOneLeft(a);
    MulComm(a, 1);
  }

  // GF2_8_INV holds inverses.
  lemma MulInv(a: Byte)
    requires a != 0
    ensures Mul(a, Inv(a)) == 1 && Mul(Inv(a), a) == 1 && Inv(a) != 0
  {
    hide Exp, Log, Mul, Inv, Pow;
    ExpOfLog(a);
    ExpOfNegatedLog(a);
    var l, m, p: bv9 := Log(a) as bv9, 255 - Log(a) as bv9, 255;
    assert l as nat + m as nat == p as nat;
    ExpIsPow(l);
    ExpIsPow(m);
    ExpIsPow(p);
    ExpStart();
    MulPow(l as nat, Inv(a), m as nat);
    MulComm(a, Inv(a));
    MulZero(a);
  }

  // ----- the product by logarithms

  // gf2_8_mul of the table-driven build: neither lookup leaves its table.
  function LogExpMul(a: Byte, b: Byte): Byte {
    if a == 0 || b == 0 then 0
    else
      ExpOfLog(a);
      ExpOfLog(b);
      Exp(Log(a) as bv9 + Log(b) as bv9)
  }

  lemma SumAsNat(l: Byte, m: Byte)
    requires l <= 254 && m <= 254
    ensures l as bv9 + m as bv9 < 510
    ensures (l as bv9 + m as bv9) as nat == l as nat + m as nat
  {}

  lemma ExpSum(a: Byte, b: Byte, l: Byte, m: Byte)
    requires l <= 254 && m <= 254 && a == Exp(l as bv9) && b == Exp(m as bv9)
    ensures l as bv9 + m as bv9 < 510
    ensures Exp(l as bv9 + m as bv9) == Mul(a, b)
  {
    hide Exp, Mul, Pow;
    SumAsNat(l, m);
    ExpIsPow(l as bv9);
    ExpIsPow(m as bv9);
    ExpIsPow(l as bv9 + m as bv9);
    MulPow(l as nat, b, m as nat);
  }

  lemma LogExpMulOfNonZero(a: Byte, b: Byte)
    requires a != 0 && b != 0
    ensures LogExpMul(a, b) == Mul(a, b)
  {
    hide Exp, Log, Mul, LogExpMul;
    ExpOfLog(a);
    ExpOfLog(b);
    var l, m := Log(a), Log(b);
    ExpSum(a, b, l, m);
    assert LogExpMul(a, b) == Exp(l as bv9 + m as bv9) by { LogExpMulUnfolds(a, b, l, m); }
  }

  lemma LogExpMulUnfolds(a: Byte, b: Byte, l: Byte, m: Byte)
    requires a != 0 && b != 0 && l == Log(a) && m == Log(b)
    requires l as bv9 + m as bv9 < 510
    ensures LogExpMul(a, b) == Exp(l as bv9 + m as bv9)
  {
    hide Exp, Log;
  }

  lemma LogExpMulIsMul(a: Byte, b: Byte)
    ensures LogExpMul(a, b) == Mul(a, b)
  {
    hide Exp, Log, Mul;
    MulZero(a);
    MulZero(b);
    if a != 0 && b != 0 { LogExpMulOfNonZero(a, b); }
  }

  // ----- the product by nibbles

  // What one lane of the shuffle kernels computes from the two 16-byte rows of u.
  function NibbleMul(u: Byte, b: Byte): Byte {
    Add(Lane(ShufLoRow(u), b & 0x0F), Lane(ShufHiRow(u), b >> 4))
  }

  // Multiplication by four bits, written out.
  lemma MulNibble(u: Byte, n: Byte)
    requires n < 16
    ensures Mul(u, n) == SubsetSum(n, u, Xtime(u), Xtime(Xtime(u)), Xtime(Xtime(Xtime(u))))
  {
    hide Add, Pick, Xtime, Odd, Mul;
    var n1 := Half(n);
    var n2 := Half(n1);
    var n3 := Half(n2);
    assert Half(n3) == 0;
    var u2 := Xtime(u);
    var u4 := Xtime(u2);
    var u8 := Xtime(u4);
    MulStep(u, n);
    MulStep(u2, n1);
    MulStep(u4, n2);
    MulStep(u8, n3);
    MulZero(Xtime(u8));
    AddZero(Pick(Odd(n3), u8));
  }

  lemma SplitNibbles(b: Byte)
    ensures b & 0x0F < 16 && b >> 4 < 16
    ensures b == Add(b & 0x0F, Xtime(Xtime(Xtime(Xtime(b >> 4)))))
  {}

  lemma XtimeMul(a: Byte, b: Byte)
    ensures Mul(Xtime(a), b) == Xtime(Mul(a, b)) == Mul(a, Xtime(b))
  {
    hide Xtime, Mul;
    MulXtimeLeft(a, b);
    MulXtimeLeft(b, a);
    MulComm(a, b);
    MulComm(a, Xtime(b));
  }

  lemma LanesAddUp(u: Byte, lo: Byte, hi: Byte)
    requires lo < 16 && hi < 16
    ensures Add(Lane(ShufLoRow(u), lo), Lane(ShufHiRow(u), hi)) == Mul(u, Add(lo, Xtime(Xtime(Xtime(Xtime(hi))))))
  {
    hide Add, ShufLoRow, ShufHiRow, Lane, Mul, Xtime, Multiples, SubsetSum;
    ShufRows(u);
    LaneOfMultiples(u, lo);
    MulNibble(u, lo);
    var u2 := Xtime(u);
    var u4 := Xtime(u2);
    var u8 := Xtime(u4);
    LaneOfMultiples(Xtime(u8), hi);
    MulNibble(Xtime(u8), hi);
    XtimeMul(u8, hi);
    XtimeMul(u4, Xtime(hi));
    XtimeMul(u2, Xtime(Xtime(hi)));
    XtimeMul(u, Xtime(Xtime(Xtime(hi))));
    MulAddRight(u, lo, Xtime(Xtime(Xtime(Xtime(hi)))));
  }

  lemma NibbleMulIsMul(u: Byte, b: Byte)
    ensures NibbleMul(u, b) == Mul(u, b)
  {
    hide Add, ShufLoRow, ShufHiRow, Lane, Mul, Xtime;
    SplitNibbles(b);
    LanesAddUp(u, b & 0x0F, b >> 4);
  }
}
