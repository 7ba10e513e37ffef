// The bit-row kernel of obl/oblas_lite.c: every set bit of a row of 32-bit words adds u to one
// byte. The plain build clears one bit at a time, the vector builds spread a word over lanes.
module Axpyb32 {
  import opened Field
  import opened Oblas

  // ----- bits of a word

  predicate Clear(w: bv32, m: bv32) { w & m == 0 }

  function Twice(m: bv32): bv32 { m << 1 }

  // The bits below a single bit.
  function Below(m: bv32): bv32 { m - 1 }

  function Minus(w: bv32, m: bv32): bv32 { w & !m }

  predicate Inside(m: bv32, n: bv32) { m & !Below(n) == 0 }

  predicate Single(m: bv32) { m != 0 && m & (m - 1) == 0 }

  // tmp & (tmp - 1)
  function DropLowest(w: bv32): bv32 { w & (w - 1) }

  function Mask(t: nat): bv32
    requires t < 32
  {
    if t == 0 then 1 else Twice(Mask(t - 1))
  }

  predicate Bit(w: bv32, t: nat)
    requires t < 32
  {
    !Clear(w, Mask(t))
  }

  // __builtin_ctz, counted from bit t up.
  function CtzFrom(w: bv32, t: nat): (z: nat)
    requires t < 32 && exists i :: t <= i < 32 && Bit(w, i)
    ensures t <= z < 32 && Bit(w, z)
    ensures forall i :: t <= i < z ==> !Bit(w, i)
    decreases 32 - t
  {
    if Bit(w, t) then t else CtzFrom(w, t + 1)
  }

  // ----- facts about single words

  lemma DropsOne(w: bv32, m: bv32)
    requires Single(m) && !Clear(w, m) && Clear(w, Below(m))
    ensures DropLowest(w) == Minus(w, m)
  {}

  lemma Gone(w: bv32, m: bv32)
    ensures Clear(Minus(w, m), m)
  {}

  lemma Without(w: bv32, m: bv32, n: bv32)
    requires Clear(m, n)
    ensures Clear(Minus(w, m), n) <==> Clear(w, n)
  {
    Kept(w, m, n);
  }

  lemma Kept(w: bv32, m: bv32, n: bv32)
    requires Clear(m, n)
    ensures (w & !m) & n == w & n
  {
    assert !m & n == n;
    assert (w & !m) & n == w & (!m & n);
  }

  lemma ClearSwap(m: bv32, n: bv32)
    ensures Clear(m, n) <==> Clear(n, m)
  {
    assert m & n == n & m;
  }

  lemma TwiceSingle(m: bv32)
    requires Single(m) && Twice(m) != 0
    ensures Single(Twice(m))
  {}

  lemma BelowTwice(w: bv32, m: bv32)
    requires Single(m) && Twice(m) != 0 && Clear(w, Below(m)) && Clear(w, m)
    ensures Clear(w, Below(Twice(m)))
  {}

  lemma SingleBelow(m: bv32, n: bv32)
    requires Single(m) && Single(n) && Twice(n) != 0 && (m == n || Inside(m, n))
    ensures Inside(m, Twice(n)) && Clear(m, Twice(n))
  {}

  lemma LastMask()
    ensures Mask(8) == 0x100 && Mask(16) == 0x1_0000 && Mask(24) == 0x100_0000 && Mask(31) == 0x8000_0000
  {
    assert Mask(2) == 0x4;
    assert Mask(4) == 0x10;
    assert Mask(6) == 0x40;
    assert Mask(8) == 0x100;
    assert Mask(10) == 0x400;
    assert Mask(12) == 0x1000;
    assert Mask(14) == 0x4000;
    assert Mask(16) == 0x10000;
    assert Mask(18) == 0x40000;
    assert Mask(20) == 0x100000;
    assert Mask(22) == 0x400000;
    assert Mask(24) == 0x1000000;
    assert Mask(26) == 0x4000000;
    assert Mask(28) == 0x10000000;
    assert Mask(30) == 0x40000000;
  }

  // A mask shifted out of the word would stay zero, but the last one is not.
  lemma {:induction false} MaskNonZero(t: nat)
    requires t < 32
    ensures Mask(t) != 0
    decreases 32 - t
  {
    if t == 31 {
      hide Mask;
      LastMask();
    } else {
      MaskNonZero(t + 1);
    }
  }

  lemma {:induction false} MaskSingle(t: nat)
    requires t < 32
    ensures Single(Mask(t)) && Mask(t) != 0
  {
    if t > 0 {
      hide Single, Twice;
      MaskSingle(t - 1);
      MaskNonZero(t);
      TwiceSingle(Mask(t - 1));
    }
    MaskNonZero(t);
  }

  lemma {:induction false} LowerBits(w: bv32, t: nat)
    requires t < 32 && forall i :: 0 <= i < t ==> !Bit(w, i)
    ensures Clear(w, Below(Mask(t)))
  {
    if t > 0 {
      hide Clear, Twice, Below, Single;
      LowerBits(w, t - 1);
      assert !Bit(w, t - 1);
      MaskSingle(t - 1);
      MaskSingle(t);
      BelowTwice(w, Mask(t - 1));
    }
  }

  // Different bits have disjoint masks.
  lemma {:induction false} MasksDisjoint(s: nat, t: nat)
    requires s < t < 32
    ensures Inside(Mask(s), Mask(t)) && Clear(Mask(s), Mask(t))
  {
    hide Clear, Twice, Below, Single, Inside;
    MaskSingle(s);
    MaskSingle(t);
    MaskSingle(t - 1);
    if s < t - 1 { MasksDisjoint(s, t - 1); }
    SingleBelow(Mask(s), Mask(t - 1));
  }

  // w & (w - 1) clears the lowest set bit and nothing else.
  lemma ClearLowest(w: bv32, z: nat, t: nat)
    requires z < 32 && t < 32 && Bit(w, z) && forall i :: 0 <= i < z ==> !Bit(w, i)
    ensures Bit(DropLowest(w), t) <==> Bit(w, t) && t != z
  {
    hide Mask, Clear, Twice, Below, Single, DropLowest, Minus;
    LowerBits(w, z);
    MaskSingle(z);
    DropsOne(w, Mask(z));
    if t == z {
      Gone(w, Mask(z));
    } else {
      if t < z { MasksDisjoint(t, z); } else { MasksDisjoint(z, t); }
      ClearSwap(Mask(t), Mask(z));
      Without(w, Mask(z), Mask(t));
    }
  }

  // A word without bits is zero.
  lemma NoBit(w: bv32)
    requires forall t :: 0 <= t < 32 ==> !Bit(w, t)
    ensures w == 0
  {
    hide Mask;
    LowerBits(w, 31);
    LastMask();
    assert !Bit(w, 31);
  }

  // ----- the lanes of the vector builds

  // Byte j of a word in memory order.
  function WordByte(w: bv32, j: nat): bv8
    requires j < 4
  {
    match j
    case 0 => (w & 0xFF) as bv8
    case 1 => ((w >> 8) & 0xFF) as bv8
    case 2 => ((w >> 16) & 0xFF) as bv8
    case _ => ((w >> 24) & 0xFF) as bv8
  }

  // Byte e of the compare mask 0x8040201008040201.
  function CmpMask(e: nat): bv8
    requires e < 8
  {
    match e
    case 0 => 0x01 case 1 => 0x02 case 2 => 0x04 case 3 => 0x08
    case 4 => 0x10 case 5 => 0x20 case 6 => 0x40 case _ => 0x80
  }

  // One lane: and-not with the mask, compare with zero, and with u.
  function Lane(x: bv8, mask: bv8, u: bv8): bv8 {
    (if !x & mask == 0 then 0xFF else 0) & u
  }

  // A register: the word broadcast over all lanes, then byte first + i / 8 of it moved to
  // lane i by the shuffle.
  function Selected(w: bv32, u: Byte, first: nat, width: nat): seq<Byte>
    requires first + width / 8 <= 4 && width % 8 == 0
  {
    seq(width, i requires 0 <= i < width => Byte(Lane(WordByte(w, first + i / 8), CmpMask(i % 8), u.bits)))
  }

  function Spread(b: bv8, j: nat): bv32
    requires j < 4
  {
    match j
    case 0 => b as bv32
    case 1 => (b as bv32) << 8
    case 2 => (b as bv32) << 16
    case _ => (b as bv32) << 24
  }

  lemma SpreadByte(w: bv32, b: bv8, j: nat)
    requires j < 4
    ensures Clear(w, Spread(b, j)) <==> WordByte(w, j) & b == 0
  {}

  lemma SpreadTwice(e: nat, j: nat)
    requires j < 4 && e < 7
    ensures Twice(Spread(CmpMask(e), j)) == Spread(CmpMask(e + 1), j)
  {}

  lemma {:induction false} MaskSpread(j: nat, e: nat)
    requires j < 4 && e < 8
    ensures Mask(8 * j + e) == Spread(CmpMask(e), j)
  {
    if e == 0 {
      FirstMask(j);
    } else {
      hide Twice, Spread, CmpMask;
      MaskSpread(j, e - 1);
      SpreadTwice(e - 1, j);
    }
  }

  lemma FirstMask(j: nat)
    requires j < 4
    ensures Mask(8 * j) == Spread(CmpMask(0), j)
  {
    LastMask();
  }

  lemma LaneSelects(x: bv8, e: nat, u: bv8)
    requires e < 8
    ensures Lane(x, CmpMask(e), u) == if x & CmpMask(e) != 0 then u else 0
  {}

  // A lane holds u exactly when its bit of the word is set.
  lemma LaneIsBit(w: bv32, j: nat, e: nat, u: bv8)
    requires j < 4 && e < 8
    ensures Lane(WordByte(w, j), CmpMask(e), u) == if Bit(w, 8 * j + e) then u else 0
  {
    hide Lane, WordByte, CmpMask, Mask, Spread, Clear;
    LaneSelects(WordByte(w, j), e, u);
    MaskSpread(j, e);
    SpreadByte(w, CmpMask(e), j);
  }

  // ----- the kernels

  // What bit t of the word does to its byte.
  function Put(was: Byte, w: bv32, t: nat, u: Byte): Byte
    requires t < 32
  {
    if Bit(w, t) then Plus(was, u) else was
  }

  // The same when the bits in left are still to come.
  function PutSoFar(was: Byte, w: bv32, left: bv32, t: nat, u: Byte): Byte
    requires t < 32
  {
    if Bit(left, t) then was else Put(was, w, t, u)
  }

  ghost predicate Within(v: bv32, w: bv32) {
    forall t :: 0 <= t < 32 && Bit(v, t) ==> Bit(w, t)
  }

  ghost predicate Lowest(w: bv32, z: nat) {
    z < 32 && Bit(w, z) && forall i :: 0 <= i < z ==> !Bit(w, i)
  }

  lemma NextBit(w: bv32, left: bv32, z: nat)
    requires Lowest(left, z) && Within(left, w)
    ensures Within(DropLowest(left), w)
    ensures forall t :: 0 <= t <= z ==> !Bit(DropLowest(left), t)
  {
    hide Bit, DropLowest;
    forall t | 0 <= t <= z ensures !Bit(DropLowest(left), t) {
      ClearLowest(left, z, t);
    }
    forall t | 0 <= t < 32 && Bit(DropLowest(left), t) ensures Bit(w, t) {
      ClearLowest(left, z, t);
    }
  }

  lemma PutNext(was: Byte, w: bv32, left: bv32, z: nat, t: nat, u: Byte)
    requires Lowest(left, z) && Within(left, w) && t < 32
    ensures PutSoFar(was, w, DropLowest(left), t, u)
      == if t == z then Plus(was, u) else PutSoFar(was, w, left, t, u)
    ensures PutSoFar(was, w, left, z, u) == was
  {
    hide Bit, DropLowest, Plus;
    ClearLowest(left, z, t);
  }

  lemma PutEnds(was: Byte, w: bv32, left: bv32, t: nat, u: Byte)
    requires t < 32
    ensures PutSoFar(was, w, w, t, u) == was
    ensures !(left > 0) ==> PutSoFar(was, w, left, t, u) == Put(was, w, t, u)
  {
    hide Plus, Mask;
  }

  // One word, bit by bit from the lowest.
  method WordRef(a: array<Byte>, at: nat, w: bv32, u: Byte)
    requires at + 32 <= a.Length
    modifies a
    ensures forall i {:trigger a[i]} :: 0 <= i < a.Length ==>
      a[i] == if at <= i < at + 32 then Put(old(a[i]), w, i - at, u) else old(a[i])
  {
    hide *;
    var tmp := w;
    forall i {:trigger a[i]} | at <= i < at + 32 ensures a[i] == PutSoFar(old(a[i]), w, w, i - at, u) {
      PutEnds(old(a[i]), w, w, i - at, u);
    }
    WithinItself(w);
    ghost var done: nat := 0;
    while tmp > 0
      invariant Within(tmp, w) && done <= 32
      invariant forall t :: 0 <= t < done ==> !Bit(tmp, t)
      invariant forall i {:trigger a[i]} :: 0 <= i < a.Length ==>
        a[i] == if at <= i < at + 32 then PutSoFar(old(a[i]), w, tmp, i - at, u) else old(a[i])
      decreases 32 - done
    {
      HasBit(tmp);
      var tz := CtzFrom(tmp, 0);
      IsLowest(tmp, tz);
      NextBit(w, tmp, tz);
      forall i {:trigger a[i]} | at <= i < at + 32
        ensures PutSoFar(old(a[i]), w, DropLowest(tmp), i - at, u) == if i == at + tz then Plus(a[i], u) else a[i]
      {
        PutNext(old(a[i]), w, tmp, tz, i - at, u);
      }
      tmp, done := DropLowest(tmp), tz + 1;
      a[at + tz] := Plus(a[at + tz], u);
    }
    forall i {:trigger a[i]} | at <= i < at + 32 ensures a[i] == Put(old(a[i]), w, i - at, u) {
      PutEnds(old(a[i]), w, tmp, i - at, u);
    }
  }

  lemma WithinItself(w: bv32)
    ensures Within(w, w)
  {}

  lemma IsLowest(w: bv32, z: nat)
    requires z < 32 && Bit(w, z) && forall i :: 0 <= i < z ==> !Bit(w, i)
    ensures Lowest(w, z)
  {}

  lemma HasBit(w: bv32)
    requires w > 0
    ensures exists t :: 0 <= t < 32 && Bit(w, t)
  {
    hide Mask, Clear;
    if forall t :: 0 <= t < 32 ==> !Bit(w, t) { NoBit(w); }
  }

  // A store of one register added to what is there.
  method AddRegister(a: array<Byte>, at: nat, v: seq<Byte>)
    requires at + |v| <= a.Length
    modifies a
    ensures forall i {:trigger a[i]} :: 0 <= i < a.Length ==>
      a[i] == if at <= i < at + |v| then Plus(old(a[i]), v[i - at]) else old(a[i])
  {
    hide Plus;
    forall i | 0 <= i < |v| {
      a[at + i] := Plus(a[at + i], v[i]);
    }
  }

  lemma LaneAdds(was: Byte, w: bv32, u: Byte, first: nat, width: nat, i: nat)
    requires first + width / 8 <= 4 && width % 8 == 0 && i < width
    ensures Plus(was, Selected(w, u, first, width)[i]) == Put(was, w, 8 * first + i, u)
  {
    hide Plus, Lane, WordByte, CmpMask, Bit;
    LaneIsBit(w, first + i / 8, i % 8, u.bits);
    assert 8 * (first + i / 8) + i % 8 == 8 * first + i;
    PlusZero(was);
  }

  // One word, by one register of 32 lanes or two of 16.
  method WordSimd(simd: Simd, a: array<Byte>, at: nat, w: bv32, u: Byte)
    requires at + 32 <= a.Length && (simd.Avx2? || simd.Ssse3OrNeon?)
    modifies a
    ensures forall i {:trigger a[i]} :: 0 <= i < a.Length ==>
      a[i] == if at <= i < at + 32 then Put(old(a[i]), w, i - at, u) else old(a[i])
  {
    hide Plus, Selected, Put;
    if simd.Avx2? {
      AddSelected(a, at, w, u, 0, 32);
    } else {
      AddSelected(a, at, w, u, 0, 16);
      AddSelected(a, at + 16, w, u, 2, 16);
    }
  }

  method AddSelected(a: array<Byte>, at: nat, w: bv32, u: Byte, first: nat, width: nat)
    requires first + width / 8 <= 4 && width % 8 == 0 && at + width <= a.Length
    modifies a
    ensures forall i {:trigger a[i]} :: 0 <= i < a.Length ==>
      a[i] == if at <= i < at + width then Put(old(a[i]), w, 8 * first + (i - at), u) else old(a[i])
  {
    hide Plus, Put, Lane, WordByte, CmpMask;
    AddRegister(a, at, Selected(w, u, first, width));
    forall i {:trigger a[i]} | at <= i < at + width ensures a[i] == Put(old(a[i]), w, 8 * first + (i - at), u) {
      LaneAdds(old(a[i]), w, u, first, width, i - at);
    }
  }

  // How many words it takes to cover k bytes.
  function Words(k: nat): (n: nat)
    ensures k <= 32 * n < k + 32
  {
    (k + 31) / 32
  }

  // Byte i after a row of words.
  function Target(was: Byte, b: seq<bv32>, i: nat, u: Byte): Byte
    requires i < 32 * |b|
  {
    Put(was, b[i / 32], i % 32, u)
  }

  lemma TargetInWord(was: Byte, b: seq<bv32>, p: nat, t: nat, u: Byte)
    requires p < |b| && t < 32
    ensures Target(was, b, 32 * p + t, u) == Put(was, b[p], t, u)
  {
    hide Put;
  }

  method OneWord(simd: Simd, a: array<Byte>, w: bv32, p: nat, u: Byte)
    requires !simd.Avx512? && 32 * p + 32 <= a.Length
    modifies a
    ensures forall i {:trigger a[i]} :: 0 <= i < a.Length ==>
      a[i] == if 32 * p <= i < 32 * p + 32 then Put(old(a[i]), w, i - 32 * p, u) else old(a[i])
  {
    hide *;
    if simd.NoSimd? {
      WordRef(a, 32 * p, w, u);
    } else {
      WordSimd(simd, a, 32 * p, w, u);
    }
  }

  // obl_axpyb32, and obl_axpyb32_ref where there is no vector unit: bit i of the row of words
  // adds u to byte i.
  method OblAxpyb32(simd: Simd, a: array<Byte>, b: seq<bv32>, u: Byte, k: nat)
    requires !simd.Avx512?
    requires 32 * Words(k) <= a.Length && Words(k) <= |b|
    modifies a
    ensures forall i {:trigger a[i]} :: 0 <= i < a.Length ==>
      a[i] == if i < 32 * Words(k) then Target(old(a[i]), b, i, u) else old(a[i])
  {
    hide Plus, Put, Target;
    var p := 0;
    while 32 * p < k
      invariant p <= Words(k)
      invariant forall i {:trigger a[i]} :: 0 <= i < a.Length ==>
        a[i] == if i < 32 * p then Target(old(a[i]), b, i, u) else old(a[i])
      decreases Words(k) - p
    {
      OneWord(simd, a, b[p], p, u);
      forall i {:trigger a[i]} | 32 * p <= i < 32 * p + 32 ensures a[i] == Target(old(a[i]), b, i, u) {
        TargetInWord(old(a[i]), b, p, i - 32 * p, u);
      }
      p := p + 1;
    }
  }
}
