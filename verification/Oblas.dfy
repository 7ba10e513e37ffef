// The byte-row kernels of obl/oblas_lite.c: a += u*b and a *= u, over a stretch of an
// array, in the plain and in the vector builds.
module Oblas {
  import opened Field
  import Gf256
  import GfTables
  import GfLaws

  // How the kernels were compiled: with the log/exp product or the product table, and with
  // which vector unit.
  datatype Simd = Avx512 | Avx2 | Ssse3OrNeon | NoSimd
  datatype Build = Build(tiny: bool, simd: Simd)

  function Width(simd: Simd): nat {
    match simd
    case Avx512 => 64
    case Avx2 => 32
    case Ssse3OrNeon => 16
    case NoSimd => 1
  }

  // The product the scalar kernels look up; row u of the product table is b -> u*b.
  function RefProduct(build: Build, u: Byte, b: Byte): Byte {
    if build.tiny then Byte(GfLaws.LogExpMul(u.bits, b.bits)) else Times(u, b)
  }

  lemma RefProductIsTimes(build: Build, u: Byte, b: Byte)
    ensures RefProduct(build, u, b) == Times(u, b)
  {
    hide GfLaws.LogExpMul, Gf256.Mul;
    GfLaws.LogExpMulIsMul(u.bits, b.bits);
  }

  // ----- vector registers, as byte sequences

  type Register = seq<Byte>

  function LowNibble(b: bv8): bv8 { b & 0x0F }

  function ShiftInto(b: bv8, next: bv8): bv8 { (b >> 4) | (next << 4) }

  function LookUp(row: bv128, index: bv8): bv8 {
    if index & 0x80 != 0 then 0 else GfTables.Lane(row, index & 0x0F)
  }

  // Keep the low four bits of every byte.
  function LowNibbles(v: Register): Register {
    seq(|v|, i requires 0 <= i < |v| => Byte(LowNibble(v[i].bits)))
  }

  // Shift every 64-bit little-endian lane right by four: bits cross byte borders inside a lane.
  function ShiftRight4(v: Register): Register {
    seq(|v|, i requires 0 <= i < |v| =>
      Byte(ShiftInto(v[i].bits, if i % 8 == 7 || i + 1 == |v| then 0 else v[i + 1].bits)))
  }

  // Look every index byte up in a 16-byte row; an index with its top bit set gives zero.
  function Shuffle(row: bv128, index: Register): Register {
    seq(|index|, i requires 0 <= i < |index| => Byte(LookUp(row, index[i].bits)))
  }

  function XorRegisters(v: Register, w: Register): Register
    requires |v| == |w|
  {
    seq(|v|, i requires 0 <= i < |v| => Plus(v[i], w[i]))
  }

  // The product of every byte of a register with u, as the shuffle kernels compute it.
  function ShuffleProduct(u: Byte, v: Register): Register {
    XorRegisters(Shuffle(GfTables.ShufLoRow(u.bits), LowNibbles(v)),
                 Shuffle(GfTables.ShufHiRow(u.bits), LowNibbles(ShiftRight4(v))))
  }

  lemma NibblesOf(b: bv8, next: bv8, row: bv128)
    ensures LookUp(row, LowNibble(b)) == GfTables.Lane(row, b & 0x0F)
    ensures LookUp(row, LowNibble(ShiftInto(b, next))) == GfTables.Lane(row, b >> 4)
  {
    hide GfTables.Lane;
    LowBits(b);
    HighBits(b, next);
  }

  lemma LowBits(b: bv8)
    ensures LowNibble(b) & 0x80 == 0 && LowNibble(b) & 0x0F == b & 0x0F
  {}

  lemma HighBits(b: bv8, next: bv8)
    ensures LowNibble(ShiftInto(b, next)) & 0x80 == 0 && LowNibble(ShiftInto(b, next)) & 0x0F == b >> 4
  {}

  lemma LookUpsAddUp(u: bv8, b: bv8, next: bv8)
    ensures Gf256.Add(LookUp(GfTables.ShufLoRow(u), LowNibble(b)),
                      LookUp(GfTables.ShufHiRow(u), LowNibble(ShiftInto(b, next)))) == Gf256.Mul(u, b)
  {
    hide *;
    NibblesOf(b, next, GfTables.ShufLoRow(u));
    NibblesOf(b, next, GfTables.ShufHiRow(u));
    GfLaws.NibbleMulIsMul(u, b);
    NibbleMulUnfolds(u, b);
  }

  lemma NibbleMulUnfolds(u: bv8, b: bv8)
    ensures GfLaws.NibbleMul(u, b)
         == Gf256.Add(GfTables.Lane(GfTables.ShufLoRow(u), b & 0x0F), GfTables.Lane(GfTables.ShufHiRow(u), b >> 4))
  {
    hide GfTables.Lane, GfTables.ShufLoRow, GfTables.ShufHiRow, Gf256.Add;
  }

  // Every lane holds the field product.
  lemma ShuffleProductIsTimes(u: Byte, v: Register, i: nat)
    requires i < |v|
    ensures |ShuffleProduct(u, v)| == |v|
    ensures ShuffleProduct(u, v)[i] == Times(u, v[i])
  {
    hide Gf256.Mul, GfTables.ShufLoRow, GfTables.ShufHiRow, Gf256.Add, LookUp, LowNibble, ShiftInto;
    LookUpsAddUp(u.bits, v[i].bits, if i % 8 == 7 || i + 1 == |v| then 0 else v[i + 1].bits);
  }

  // ----- kernels

  // No byte of the source is overwritten before it is read.
  ghost predicate Apart(a: array<Byte>, ao: nat, b: array<Byte>, bo: nat, k: nat) {
    a != b || ao + k <= bo || bo + k <= ao
  }

  // a += u*b, byte by byte.
  method AxpyRef(build: Build, a: array<Byte>, ao: nat, b: array<Byte>, bo: nat, u: Byte, k: nat)
    requires ao + k <= a.Length && bo + k <= b.Length && Apart(a, ao, b, bo, k)
    modifies a
    ensures forall i {:trigger a[i]} :: 0 <= i < a.Length ==>
      a[i] == if ao <= i < ao + k then Plus(old(a[i]), Times(u, old(b[bo + (i - ao)]))) else old(a[i])
  {
    hide Plus, Times, RefProduct;
    var p := 0;
    while p < k
      invariant p <= k
      invariant forall i {:trigger a[i]} :: 0 <= i < a.Length ==>
        a[i] == if ao <= i < ao + p then Plus(old(a[i]), Times(u, old(b[bo + (i - ao)]))) else old(a[i])
    {
      RefProductIsTimes(build, u, b[bo + p]);
      a[ao + p] := Plus(a[ao + p], RefProduct(build, u, b[bo + p]));
      p := p + 1;
    }
  }

  // a *= u, byte by byte.
  method ScalRef(build: Build, a: array<Byte>, ao: nat, u: Byte, k: nat)
    requires ao + k <= a.Length
    modifies a
    ensures forall i {:trigger a[i]} :: 0 <= i < a.Length ==>
      a[i] == if ao <= i < ao + k then Times(u, old(a[i])) else old(a[i])
  {
    hide Times, RefProduct;
    var p := 0;
    while p < k
      invariant p <= k
      invariant forall i {:trigger a[i]} :: 0 <= i < a.Length ==>
        a[i] == if ao <= i < ao + p then Times(u, old(a[i])) else old(a[i])
    {
      RefProductIsTimes(build, u, a[ao + p]);
      a[ao + p] := RefProduct(build, u, a[ao + p]);
      p := p + 1;
    }
  }

  // a += b, byte by byte.
  method XorInto(a: array<Byte>, ao: nat, b: array<Byte>, bo: nat, k: nat)
    requires ao + k <= a.Length && bo + k <= b.Length && Apart(a, ao, b, bo, k)
    modifies a
    ensures forall i {:trigger a[i]} :: 0 <= i < a.Length ==>
      a[i] == if ao <= i < ao + k then Plus(old(a[i]), Times(ONE, old(b[bo + (i - ao)]))) else old(a[i])
  {
    hide Plus, Times;
    var p := 0;
    while p < k
      invariant p <= k
      invariant forall i {:trigger a[i]} :: 0 <= i < a.Length ==>
        a[i] == if ao <= i < ao + p then Plus(old(a[i]), Times(ONE, old(b[bo + (i - ao)]))) else old(a[i])
    {
      TimesOne(b[bo + p]);
      a[ao + p] := Plus(a[ao + p], b[bo + p]);
      p := p + 1;
    }
  }

  // obl_axpy: whole registers first, then the rest byte by byte.
  method OblAxpy(build: Build, a: array<Byte>, ao: nat, b: array<Byte>, bo: nat, u: Byte, k: nat)
    requires ao + k <= a.Length && bo + k <= b.Length && Apart(a, ao, b, bo, k)
    modifies a
    ensures forall i {:trigger a[i]} :: 0 <= i < a.Length ==>
      a[i] == if ao <= i < ao + k then Plus(old(a[i]), Times(u, old(b[bo + (i - ao)]))) else old(a[i])
  {
    hide Plus, Times, ShuffleProduct;
    if u == ONE {
      XorInto(a, ao, b, bo, k);
    } else if build.simd.NoSimd? {
      AxpyRef(build, a, ao, b, bo, u, k);
    } else {
      var w := Width(build.simd);
      var p := 0;
      while p < k - k % w
        invariant p <= k - k % w && p % w == 0
        invariant forall i {:trigger a[i]} :: 0 <= i < a.Length ==>
          a[i] == if ao <= i < ao + p then Plus(old(a[i]), Times(u, old(b[bo + (i - ao)]))) else old(a[i])
      {
        WholeRegister(k, w, p);
        var bx := b[bo + p..bo + p + w];
        var product := ShuffleProduct(u, bx);
        ShuffleProductIsTimes(u, bx, 0);
        forall i | 0 <= i < w ensures product[i] == Times(u, old(b[bo + p + i])) {
          ShuffleProductIsTimes(u, bx, i);
        }
        forall i | 0 <= i < w {
          a[ao + p + i] := Plus(a[ao + p + i], product[i]);
        }
        p := p + w;
      }
      AxpyRef(build, a, ao + p, b, bo + p, u, k % w);
    }
  }

  // obl_scal.
  method OblScal(build: Build, a: array<Byte>, ao: nat, u: Byte, k: nat)
    requires ao + k <= a.Length
    modifies a
    ensures forall i {:trigger a[i]} :: 0 <= i < a.Length ==>
      a[i] == if ao <= i < ao + k then Times(u, old(a[i])) else old(a[i])
  {
    hide Plus, Times, ShuffleProduct;
    if build.simd.NoSimd? {
      ScalRef(build, a, ao, u, k);
    } else {
      var w := Width(build.simd);
      var p := 0;
      while p < k - k % w
        invariant p <= k - k % w && p % w == 0
        invariant forall i {:trigger a[i]} :: 0 <= i < a.Length ==>
          a[i] == if ao <= i < ao + p then Times(u, old(a[i])) else old(a[i])
      {
        WholeRegister(k, w, p);
        var ax := a[ao + p..ao + p + w];
        var product := ShuffleProduct(u, ax);
        ShuffleProductIsTimes(u, ax, 0);
        forall i | 0 <= i < w ensures product[i] == Times(u, old(a[ao + p + i])) {
          ShuffleProductIsTimes(u, ax, i);
        }
        forall i | 0 <= i < w {
          a[ao + p + i] := product[i];
        }
        p := p + w;
      }
      ScalRef(build, a, ao + p, u, k % w);
    }
  }

  lemma WholeRegister(k: nat, w: nat, p: nat)
    requires w in {16, 32, 64} && p % w == 0 && p < k - k % w
    ensures p + w <= k - k % w && (p + w) % w == 0
  {}
}
