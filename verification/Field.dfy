// Bytes as field elements. A byte is boxed so that algebraic proofs treat it as a whole
// and never as eight separate bits.
module Field {
  import Gf256
  import GfTables
  import GfLaws

  datatype Byte = Byte(bits: bv8)

  const ZERO := Byte(0)
  const ONE := Byte(1)

  function Plus(a: Byte, b: Byte): Byte { Byte(Gf256.Add(a.bits, b.bits)) }

  function Times(a: Byte, b: Byte): Byte { Byte(Gf256.Mul(a.bits, b.bits)) }

  function Recip(a: Byte): Byte { Byte(GfTables.Inv(a.bits)) }

  lemma PlusComm(a: Byte, b: Byte)
    ensures Plus(a, b) == Plus(b, a)
  {
    Gf256.AddComm(a.bits, b.bits);
  }

  lemma PlusAssoc(a: Byte, b: Byte, c: Byte)
    ensures Plus(Plus(a, b), c) == Plus(a, Plus(b, c))
  {
    Gf256.AddAssoc(a.bits, b.bits, c.bits);
  }

  lemma PlusZero(a: Byte)
    ensures Plus(a, ZERO) == a && Plus(ZERO, a) == a
  {
    Gf256.AddZero(a.bits);
  }

  lemma PlusSelf(a: Byte)
    ensures Plus(a, a) == ZERO
  {
    Gf256.AddSelf(a.bits);
  }

  lemma TimesComm(a: Byte, b: Byte)
    ensures Times(a, b) == Times(b, a)
  {
    hide Gf256.Mul;
    GfLaws.MulComm(a.bits, b.bits);
  }

  lemma TimesAssoc(a: Byte, b: Byte, c: Byte)
    ensures Times(Times(a, b), c) == Times(a, Times(b, c))
  {
    hide Gf256.Mul;
    GfLaws.MulAssoc(a.bits, b.bits, c.bits);
  }

  lemma TimesPlus(a: Byte, b: Byte, c: Byte)
    ensures Times(a, Plus(b, c)) == Plus(Times(a, b), Times(a, c))
    ensures Times(Plus(b, c), a) == Plus(Times(b, a), Times(c, a))
  {
    hide Gf256.Mul, Gf256.Add;
    GfLaws.MulAddRight(a.bits, b.bits, c.bits);
    Gf256.MulAddLeft(b.bits, c.bits, a.bits);
  }

  lemma TimesZero(a: Byte)
    ensures Times(a, ZERO) == ZERO && Times(ZERO, a) == ZERO
  {
    hide Gf256.Mul;
    Gf256.MulZero(a.bits);
  }

  lemma TimesOne(a: Byte)
    ensures Times(a, ONE) == a && Times(ONE, a) == a
  {
    hide Gf256.Mul;
    GfLaws.MulOne(a.bits);
  }

  lemma TimesRecip(a: Byte)
    requires a != ZERO
    ensures Times(a, Recip(a)) == ONE && Times(Recip(a), a) == ONE && Recip(a) != ZERO
  {
    hide Gf256.Mul, GfTables.Inv;
    GfLaws.MulInv(a.bits);
  }

  // ----- consequences used in place of the laws

  lemma PlusCancel(a: Byte, b: Byte)
    ensures Plus(Plus(a, b), b) == a
    ensures Plus(a, b) == ZERO <==> a == b
  {
    hide Plus;
    PlusAssoc(a, b, b);
    PlusSelf(b);
    PlusZero(a);
    PlusZero(b);
  }

  lemma PlusSwap(a: Byte, b: Byte, c: Byte, d: Byte)
    ensures Plus(Plus(a, b), Plus(c, d)) == Plus(Plus(a, c), Plus(b, d))
  {
    hide Plus;
    PlusAssoc(a, b, Plus(c, d));
    PlusAssoc(b, c, d);
    PlusComm(b, c);
    PlusAssoc(c, b, d);
    PlusAssoc(a, c, Plus(b, d));
  }

  lemma TimesSwap(a: Byte, b: Byte, c: Byte, d: Byte)
    ensures Times(Times(a, b), Times(c, d)) == Times(Times(a, c), Times(b, d))
  {
    hide Times;
    TimesAssoc(a, b, Times(c, d));
    TimesAssoc(b, c, d);
    TimesComm(b, c);
    TimesAssoc(c, b, d);
    TimesAssoc(a, c, Times(b, d));
  }

  lemma TimesCancel(u: Byte, a: Byte, b: Byte)
    requires u != ZERO
    ensures Times(u, a) == Times(u, b) <==> a == b
  {
    hide Times, Recip;
    TimesRecip(u);
    TimesAssoc(Recip(u), u, a);
    TimesAssoc(Recip(u), u, b);
    TimesOne(a);
    TimesOne(b);
  }

  lemma NonZeroTimes(a: Byte, b: Byte)
    requires a != ZERO && b != ZERO
    ensures Times(a, b) != ZERO
  {
    hide Times;
    TimesCancel(a, b, ZERO);
    TimesZero(a);
  }

  // ----- bytes as numbers

  function Num(n: nat): Byte
    requires n < 256
  {
    Byte(n as bv8)
  }

  lemma NumRoundTrip(n: nat)
    requires n < 256
    ensures (n as bv8) as nat == n
  {
    assert n % 256 == n;
  }

  lemma NumInjective(m: nat, n: nat)
    requires m < 256 && n < 256
    ensures Num(m) == Num(n) <==> m == n
  {
    NumRoundTrip(m);
    NumRoundTrip(n);
  }
}
