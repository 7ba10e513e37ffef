// The field GF(2^8) with reduction polynomial 285 (0x11D): addition is exclusive or,
// multiplication is the carry-less product reduced step by step ("xtime").
module Gf256 {
  type Byte = bv8

  function Add(a: Byte, b: Byte): Byte { a ^ b }

  function Double(a: Byte): Byte { a << 1 }

  function Half(a: Byte): Byte { a >> 1 }

  predicate Odd(a: Byte) { a & 1 != 0 }

  predicate High(a: Byte) { a & 0x80 != 0 }

  function Pick(t: bool, a: Byte): Byte { if t then a else 0 }

  // Multiplication by the generator 2.
  function Xtime(a: Byte): Byte { Add(Double(a), Pick(High(a), 0x1D)) }

  // The carry-less product reduced by the polynomial, one bit of b at a time.
  function Mul(a: Byte, b: Byte): Byte
    decreases b
  {
    if b == 0 then 0 else Add(Pick(Odd(b), a), Mul(Xtime(a), Half(b)))
  }

  // 2 to the power i.
  function Pow(i: nat): Byte { if i == 0 then 1 else Xtime(Pow(i - 1)) }

  // ----- addition

  lemma AddComm(a: Byte, b: Byte)
    ensures Add(a, b) == Add(b, a)
  {}

  lemma AddAssoc(a: Byte, b: Byte, c: Byte)
    ensures Add(Add(a, b), c) == Add(a, Add(b, c))
  {}

  lemma AddSelf(a: Byte)
    ensures Add(a, a) == 0
  {}

  lemma AddZero(a: Byte)
    ensures Add(a, 0) == a && Add(0, a) == a
  {}

  lemma AddSwap(a: Byte, b: Byte, c: Byte, d: Byte)
    ensures Add(Add(a, b), Add(c, d)) == Add(Add(a, c), Add(b, d))
  {
    hide Add;
    AddAssoc(a, b, Add(c, d));
    AddAssoc(b, c, d);
    AddComm(b, c);
    AddAssoc(c, b, d);
    AddAssoc(a, c, Add(b, d));
  }

  // ----- single bits

  lemma DoubleAdd(a: Byte, b: Byte)
    ensures Double(Add(a, b)) == Add(Double(a), Double(b))
  {}

  lemma HighAdd(a: Byte, b: Byte)
    ensures High(Add(a, b)) == (High(a) != High(b))
  {}

  lemma PickAdd(t: bool, a: Byte, b: Byte)
    ensures Pick(t, Add(a, b)) == Add(Pick(t, a), Pick(t, b))
  {}

  lemma PickXor(t: bool, u: bool, a: Byte)
    ensures Pick(t != u, a) == Add(Pick(t, a), Pick(u, a))
  {}

  lemma XtimeAdd(a: Byte, b: Byte)
    ensures Xtime(Add(a, b)) == Add(Xtime(a), Xtime(b))
  {
    hide Add, Double, High, Pick;
    DoubleAdd(a, b);
    HighAdd(a, b);
    PickXor(High(a), High(b), 0x1D);
    AddSwap(Double(a), Double(b), Pick(High(a), 0x1D), Pick(High(b), 0x1D));
  }

  lemma XtimeZero()
    ensures Xtime(0) == 0
  {}

  lemma XtimePick(t: bool, a: Byte)
    ensures Xtime(Pick(t, a)) == Pick(t, Xtime(a))
  {
    hide Xtime;
    XtimeZero();
  }

  // ----- multiplication

  lemma MulStep(a: Byte, b: Byte)
    ensures Mul(a, b) == Add(Pick(Odd(b), a), Mul(Xtime(a), Half(b)))
  {
    hide Xtime;
    if b == 0 { AddZero(0); }
  }

  lemma {:induction false} MulAddLeft(a: Byte, c: Byte, b: Byte)
    ensures Mul(Add(a, c), b) == Add(Mul(a, b), Mul(c, b))
    decreases b
  {
    hide Add, Pick, Xtime, Half, Odd;
    if b == 0 {
      AddZero(0);
    } else {
      HalfIsLess(b);
      XtimeAdd(a, c);
      PickAdd(Odd(b), a, c);
      MulAddLeft(Xtime(a), Xtime(c), Half(b));
      AddSwap(Pick(Odd(b), a), Pick(Odd(b), c), Mul(Xtime(a), Half(b)), Mul(Xtime(c), Half(b)));
    }
  }

  lemma HalfIsLess(b: Byte)
    requires b != 0
    ensures Half(b) < b
  {}

  lemma {:induction false} MulXtimeLeft(a: Byte, b: Byte)
    ensures Mul(Xtime(a), b) == Xtime(Mul(a, b))
    decreases b
  {
    hide Add, Pick, Xtime, Half, Odd;
    if b == 0 {
      XtimeZero();
    } else {
      HalfIsLess(b);
      MulXtimeLeft(Xtime(a), Half(b));
      XtimePick(Odd(b), a);
      XtimeAdd(Pick(Odd(b), a), Mul(Xtime(a), Half(b)));
    }
  }

  lemma {:induction false} MulZero(a: Byte)
    ensures Mul(0, a) == 0 && Mul(a, 0) == 0
    decreases a
  {
    if a != 0 {
      hide Xtime;
      HalfIsLess(a);
      XtimeZero();
      MulZero(Half(a));
      AddZero(0);
    }
  }

  // A byte is the sum of its bits.
  lemma SumOfBits(b: Byte)
    ensures var b1 := Half(b); var b2 := Half(b1); var b3 := Half(b2); var b4 := Half(b3);
      var b5 := Half(b4); var b6 := Half(b5); var b7 := Half(b6);
      b == Add(Pick(Odd(b), 1), Add(Pick(Odd(b1), 2), Add(Pick(Odd(b2), 4), Add(Pick(Odd(b3), 8),
           Add(Pick(Odd(b4), 16), Add(Pick(Odd(b5), 32), Add(Pick(Odd(b6), 64), Add(Pick(Odd(b7), 128), 0))))))))
      && Half(b7) == 0
  {}

  lemma FirstPowers()
    ensures Xtime(1) == 2 && Xtime(2) == 4 && Xtime(4) == 8 && Xtime(8) == 16
    ensures Xtime(16) == 32 && Xtime(32) == 64 && Xtime(64) == 128
  {}

  lemma MulOneLeft(b: Byte)
    ensures Mul(1, b) == b
  {
    hide Add, Pick, Odd, Half, Xtime, Mul;
    FirstPowers();
    SumOfBits(b);
    var b1 := Half(b);
    var b2 := Half(b1);
    var b3 := Half(b2);
    var b4 := Half(b3);
    var b5 := Half(b4);
    var b6 := Half(b5);
    var b7 := Half(b6);
    MulStep(1, b);
    MulStep(2, b1);
    MulStep(4, b2);
    MulStep(8, b3);
    MulStep(16, b4);
    MulStep(32, b5);
    MulStep(64, b6);
    MulStep(128, b7);
    MulZero(Xtime(128));
  }
}
