// The tables agree with the field arithmetic, for every entry.
module GfTableLaws {
  import opened Gf256
  import opened GfTables

  // ----- logarithms, powers and inverses

  lemma ExpOfLog(u: Byte)
    requires u != 0
    ensures Log(u) <= 254 && Exp(Log(u) as bv9) == u
  {}

  lemma ExpOfNegatedLog(u: Byte)
    requires u != 0
    ensures Log(u) <= 254 && Exp(255 - Log(u) as bv9) == Inv(u)
  {}

  lemma ExpRepeats(i: bv9)
    requires i < 255
    ensures Exp(i + 255) == Exp(i)
  {}

  lemma ExpNext(i: bv9)
    requires i < 255
    ensures Exp(i + 1) == Xtime(Exp(i))
  {}

  // ----- nibble rows

  function Join(
    b0: Byte, b1: Byte, b2: Byte, b3: Byte, b4: Byte, b5: Byte, b6: Byte, b7: Byte,
    b8: Byte, b9: Byte, b10: Byte, b11: Byte, b12: Byte, b13: Byte, b14: Byte, b15: Byte): bv128
  {
    (b0 as bv128) | ((b1 as bv128) << 8) | ((b2 as bv128) << 16) | ((b3 as bv128) << 24)
    | ((b4 as bv128) << 32) | ((b5 as bv128) << 40) | ((b6 as bv128) << 48) | ((b7 as bv128) << 56)
    | ((b8 as bv128) << 64) | ((b9 as bv128) << 72) | ((b10 as bv128) << 80) | ((b11 as bv128) << 88)
    | ((b12 as bv128) << 96) | ((b13 as bv128) << 104) | ((b14 as bv128) << 112) | ((b15 as bv128) << 120)
  }

  lemma LaneOfJoin(
    b0: Byte, b1: Byte, b2: Byte, b3: Byte, b4: Byte, b5: Byte, b6: Byte, b7: Byte,
    b8: Byte, b9: Byte, b10: Byte, b11: Byte, b12: Byte, b13: Byte, b14: Byte, b15: Byte, n: Byte)
    requires n < 16
    ensures Lane(Join(b0, b1, b2, b3, b4, b5, b6, b7, b8, b9, b10, b11, b12, b13, b14, b15), n)
         == (match n
             case 0 => b0 case 1 => b1 case 2 => b2 case 3 => b3 case 4 => b4 case 5 => b5 case 6 => b6 case 7 => b7
             case 8 => b8 case 9 => b9 case 10 => b10 case 11 => b11 case 12 => b12 case 13 => b13 case 14 => b14
             case _ => b15)
  {}

  function Add2(a: Byte, b: Byte): Byte { a ^ b }

  function Add3(a: Byte, b: Byte, c: Byte): Byte { a ^ b ^ c }

  function Add4(a: Byte, b: Byte, c: Byte, d: Byte): Byte { a ^ b ^ c ^ d }

  // The multiples 0*u, 1*u, ..., 15*u, the lowest in the lowest byte.
  function Multiples(x1: Byte): bv128 {
    var x2 := Xtime(x1);
    var x4 := Xtime(x2);
    var x8 := Xtime(x4);
    Join(0, x1, x2, Add2(x1, x2),
         x4, Add2(x1, x4), Add2(x2, x4), Add3(x1, x2, x4),
         x8, Add2(x1, x8), Add2(x2, x8), Add3(x1, x2, x8),
         Add2(x4, x8), Add3(x1, x4, x8), Add3(x2, x4, x8), Add4(x1, x2, x4, x8))
  }

  // The same row with the sums written in place.
  function RawMultiples(x1: Byte): bv128 {
    var x2 := Xtime(x1);
    var x4 := Xtime(x2);
    var x8 := Xtime(x4);
    Join(0, x1, x2, x1 ^ x2, x4, x1 ^ x4, x2 ^ x4, x1 ^ x2 ^ x4,
         x8, x1 ^ x8, x2 ^ x8, x1 ^ x2 ^ x8, x4 ^ x8, x1 ^ x4 ^ x8, x2 ^ x4 ^ x8, x1 ^ x2 ^ x4 ^ x8)
  }

  lemma RawMultiplesAreMultiples(x1: Byte)
    ensures RawMultiples(x1) == Multiples(x1)
  {
    hide Join, Xtime;
  }

  // The sum of the values selected by the four low bits of n.
  function SubsetSum(n: Byte, x1: Byte, x2: Byte, x4: Byte, x8: Byte): Byte {
    var h, q, e := Half(n), Half(Half(n)), Half(Half(Half(n)));
    Add(Pick(Odd(n), x1), Add(Pick(Odd(h), x2), Add(Pick(Odd(q), x4), Pick(Odd(e), x8))))
  }

  lemma SubsetSums(x1: Byte, x2: Byte, x4: Byte, x8: Byte)
    ensures SubsetSum(0, x1, x2, x4, x8) == 0 && SubsetSum(1, x1, x2, x4, x8) == x1
    ensures SubsetSum(2, x1, x2, x4, x8) == x2 && SubsetSum(3, x1, x2, x4, x8) == Add(x1, x2)
    ensures SubsetSum(4, x1, x2, x4, x8) == x4 && SubsetSum(5, x1, x2, x4, x8) == Add(x1, x4)
    ensures SubsetSum(6, x1, x2, x4, x8) == Add(x2, x4) && SubsetSum(7, x1, x2, x4, x8) == Add(x1, Add(x2, x4))
    ensures SubsetSum(8, x1, x2, x4, x8) == x8 && SubsetSum(9, x1, x2, x4, x8) == Add(x1, x8)
    ensures SubsetSum(10, x1, x2, x4, x8) == Add(x2, x8) && SubsetSum(11, x1, x2, x4, x8) == Add(x1, Add(x2, x8))
    ensures SubsetSum(12, x1, x2, x4, x8) == Add(x4, x8) && SubsetSum(13, x1, x2, x4, x8) == Add(x1, Add(x4, x8))
    ensures SubsetSum(14, x1, x2, x4, x8) == Add(x2, Add(x4, x8))
    ensures SubsetSum(15, x1, x2, x4, x8) == Add(x1, Add(x2, Add(x4, x8)))
  {
    hide Add;
    forall x ensures Add(0, x) == x && Add(x, 0) == x { AddZero(x); }
  }

  lemma Add2IsSum(a: Byte, b: Byte)
    ensures Add2(a, b) == Add(a, b)
  {}

  lemma Add3IsSum(a: Byte, b: Byte, c: Byte)
    ensures Add3(a, b, c) == Add(a, Add(b, c))
  {}

  lemma Add4IsSum(a: Byte, b: Byte, c: Byte, d: Byte)
    ensures Add4(a, b, c, d) == Add(a, Add(b, Add(c, d)))
  {}

  lemma LaneOfMultiples(u: Byte, n: Byte)
    requires n < 16
    ensures Lane(Multiples(u), n) == SubsetSum(n, u, Xtime(u), Xtime(Xtime(u)), Xtime(Xtime(Xtime(u))))
  {
    hide Lane, Join, Xtime, SubsetSum, Add, Add2, Add3, Add4;
    var x1, x2 := u, Xtime(u);
    var x4 := Xtime(x2);
    var x8 := Xtime(x4);
    SubsetSums(x1, x2, x4, x8);
    Add2IsSum(x1, x2); Add2IsSum(x1, x4); Add2IsSum(x2, x4);
    Add2IsSum(x1, x8); Add2IsSum(x2, x8); Add2IsSum(x4, x8);
    Add3IsSum(x1, x2, x4); Add3IsSum(x1, x2, x8); Add3IsSum(x1, x4, x8); Add3IsSum(x2, x4, x8);
    Add4IsSum(x1, x2, x4, x8);
    LaneOfJoin(0, x1, x2, Add2(x1, x2),
               x4, Add2(x1, x4), Add2(x2, x4), Add3(x1, x2, x4),
               x8, Add2(x1, x8), Add2(x2, x8), Add3(x1, x2, x8),
               Add2(x4, x8), Add3(x1, x4, x8), Add3(x2, x4, x8), Add4(x1, x2, x4, x8), n);
  }

  lemma LoRows0(u: Byte)
    requires u >> 4 == 0
    ensures ShufLoRow(u) == RawMultiples(u)
  {}

  lemma HiRows0(u: Byte)
    requires u >> 4 == 0
    ensures ShufHiRow(u) == RawMultiples(Xtime(Xtime(Xtime(Xtime(u)))))
  {}

  lemma LoRows1(u: Byte)
    requires u >> 4 == 1
    ensures ShufLoRow(u) == RawMultiples(u)
  {}

  lemma HiRows1(u: Byte)
    requires u >> 4 == 1
    ensures ShufHiRow(u) == RawMultiples(Xtime(Xtime(Xtime(Xtime(u)))))
  {}

  lemma LoRows2(u: Byte)
    requires u >> 4 == 2
    ensures ShufLoRow(u) == RawMultiples(u)
  {}

  lemma HiRows2(u: Byte)
    requires u >> 4 == 2
    ensures ShufHiRow(u) == RawMultiples(Xtime(Xtime(Xtime(Xtime(u)))))
  {}

  lemma LoRows3(u: Byte)
    requires u >> 4 == 3
    ensures ShufLoRow(u) == RawMultiples(u)
  {}

  lemma HiRows3(u: Byte)
    requires u >> 4 == 3
    ensures ShufHiRow(u) == RawMultiples(Xtime(Xtime(Xtime(Xtime(u)))))
  {}

  lemma LoRows4(u: Byte)
    requires u >> 4 == 4
    ensures ShufLoRow(u) == RawMultiples(u)
  {}

  lemma HiRows4(u: Byte)
    requires u >> 4 == 4
    ensures ShufHiRow(u) == RawMultiples(Xtime(Xtime(Xtime(Xtime(u)))))
  {}

  lemma LoRows5(u: Byte)
    requires u >> 4 == 5
    ensures ShufLoRow(u) == RawMultiples(u)
  {}

  lemma HiRows5(u: Byte)
    requires u >> 4 == 5
    ensures ShufHiRow(u) == RawMultiples(Xtime(Xtime(Xtime(Xtime(u)))))
  {}

  lemma LoRows6(u: Byte)
    requires u >> 4 == 6
    ensures ShufLoRow(u) == RawMultiples(u)
  {}

  lemma HiRows6(u: Byte)
    requires u >> 4 == 6
    ensures ShufHiRow(u) == RawMultiples(Xtime(Xtime(Xtime(Xtime(u)))))
  {}

  lemma LoRows7(u: Byte)
    requires u >> 4 == 7
    ensures ShufLoRow(u) == RawMultiples(u)
  {}

  lemma HiRows7(u: Byte)
    requires u >> 4 == 7
    ensures ShufHiRow(u) == RawMultiples(Xtime(Xtime(Xtime(Xtime(u)))))
  {}

  lemma LoRows8(u: Byte)
    requires u >> 4 == 8
    ensures ShufLoRow(u) == RawMultiples(u)
  {}

  lemma HiRows8(u: Byte)
    requires u >> 4 == 8
    ensures ShufHiRow(u) == RawMultiples(Xtime(Xtime(Xtime(Xtime(u)))))
  {}

  lemma LoRows9(u: Byte)
    requires u >> 4 == 9
    ensures ShufLoRow(u) == RawMultiples(u)
  {}

  lemma HiRows9(u: Byte)
    requires u >> 4 == 9
    ensures ShufHiRow(u) == RawMultiples(Xtime(Xtime(Xtime(Xtime(u)))))
  {}

  lemma LoRows10(u: Byte)
    requires u >> 4 == 10
    ensures ShufLoRow(u) == RawMultiples(u)
  {}

  lemma HiRows10(u: Byte)
    requires u >> 4 == 10
    ensures ShufHiRow(u) == RawMultiples(Xtime(Xtime(Xtime(Xtime(u)))))
  {}

  lemma LoRows11(u: Byte)
    requires u >> 4 == 11
    ensures ShufLoRow(u) == RawMultiples(u)
  {}

  lemma HiRows11(u: Byte)
    requires u >> 4 == 11
    ensures ShufHiRow(u) == RawMultiples(Xtime(Xtime(Xtime(Xtime(u)))))
  {}

  lemma LoRows12(u: Byte)
    requires u >> 4 == 12
    ensures ShufLoRow(u) == RawMultiples(u)
  {}

  lemma HiRows12(u: Byte)
    requires u >> 4 == 12
    ensures ShufHiRow(u) == RawMultiples(Xtime(Xtime(Xtime(Xtime(u)))))
  {}

  lemma LoRows13(u: Byte)
    requires u >> 4 == 13
    ensures ShufLoRow(u) == RawMultiples(u)
  {}

  lemma HiRows13(u: Byte)
    requires u >> 4 == 13
    ensures ShufHiRow(u) == RawMultiples(Xtime(Xtime(Xtime(Xtime(u)))))
  {}

  lemma LoRows14(u: Byte)
    requires u >> 4 == 14
    ensures ShufLoRow(u) == RawMultiples(u)
  {}

  lemma HiRows14(u: Byte)
    requires u >> 4 == 14
    ensures ShufHiRow(u) == RawMultiples(Xtime(Xtime(Xtime(Xtime(u)))))
  {}

  lemma LoRows15(u: Byte)
    requires u >> 4 == 15
    ensures ShufLoRow(u) == RawMultiples(u)
  {}

  lemma HiRows15(u: Byte)
    requires u >> 4 == 15
    ensures ShufHiRow(u) == RawMultiples(Xtime(Xtime(Xtime(Xtime(u)))))
  {}

  lemma ShufRows(u: Byte)
    ensures ShufLoRow(u) == Multiples(u) && ShufHiRow(u) == Multiples(Xtime(Xtime(Xtime(Xtime(u)))))
  {
    hide ShufLoRow, ShufHiRow, Multiples, RawMultiples, Xtime;
    RawMultiplesAreMultiples(u);
    RawMultiplesAreMultiples(Xtime(Xtime(Xtime(Xtime(u)))));
    match u >> 4 {
      case 0 => LoRows0(u); HiRows0(u);
      case 1 => LoRows1(u); HiRows1(u);
      case 2 => LoRows2(u); HiRows2(u);
      case 3 => LoRows3(u); HiRows3(u);
      case 4 => LoRows4(u); HiRows4(u);
      case 5 => LoRows5(u); HiRows5(u);
      case 6 => LoRows6(u); HiRows6(u);
      case 7 => LoRows7(u); HiRows7(u);
      case 8 => LoRows8(u); HiRows8(u);
      case 9 => LoRows9(u); HiRows9(u);
      case 10 => LoRows10(u); HiRows10(u);
      case 11 => LoRows11(u); HiRows11(u);
      case 12 => LoRows12(u); HiRows12(u);
      case 13 => LoRows13(u); HiRows13(u);
      case 14 => LoRows14(u); HiRows14(u);
      case _ => LoRows15(u); HiRows15(u);
    }
  }
}
