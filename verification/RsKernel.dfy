// The row operations of rs.c and how a square matrix and a set of shards lie in memory.
module RsKernel {
  import opened Field
  import opened Oblas
  import LinearSystem

  type Vec = LinearSystem.Vec

  // axpy: a += u*b, skipping u = 0.
  method Axpy(build: Build, a: array<Byte>, ao: nat, b: array<Byte>, bo: nat, u: Byte, k: nat)
    requires ao + k <= a.Length && bo + k <= b.Length && Apart(a, ao, b, bo, k)
    modifies a
    ensures forall i {:trigger a[i]} :: 0 <= i < a.Length ==>
      a[i] == if ao <= i < ao + k then Plus(old(a[i]), Times(u, old(b[bo + (i - ao)]))) else old(a[i])
  {
    hide Plus, Times;
    if u == ZERO {
      forall x | true ensures Times(ZERO, x) == ZERO { TimesZero(x); }
      forall x | true ensures Plus(x, ZERO) == x { PlusZero(x); }
      return;
    }
    if u == ONE {
      XorInto(a, ao, b, bo, k);
    } else {
      OblAxpy(build, a, ao, b, bo, u, k);
    }
  }

  // Where the bytes that scal writes end: for u < 2 it writes none.
  function ScalEnd(ao: nat, u: Byte, k: nat): nat {
    if u.bits < 2 then ao else ao + k
  }

  // scal: a *= u, skipping u < 2.
  method Scal(build: Build, a: array<Byte>, ao: nat, u: Byte, k: nat)
    requires ScalEnd(ao, u, k) <= a.Length
    modifies a
    ensures forall i {:trigger a[i]} :: 0 <= i < a.Length ==>
      a[i] == if u != ZERO && ao <= i < ao + k then Times(u, old(a[i])) else old(a[i])
  {
    hide Plus, Times;
    if u.bits < 2 {
      assert u == ZERO || u == ONE by { BelowTwo(u.bits); }
      forall x | true ensures Times(ONE, x) == x { TimesOne(x); }
      return;
    }
    OblScal(build, a, ao, u, k);
  }

  lemma BelowTwo(b: bv8)
    requires b < 2
    ensures b == 0 || b == 1
  {}

  // The same operations on whole buffers.
  method AxpyAll(build: Build, a: array<Byte>, b: array<Byte>, u: Byte, k: nat)
    requires a != b && a.Length == b.Length == k
    modifies a
    ensures a[..] == LinearSystem.Axpy(old(a[..]), old(b[..]), u)
  {
    hide Plus, Times;
    Axpy(build, a, 0, b, 0, u, k);
  }

  method ScalAll(build: Build, a: array<Byte>, u: Byte, k: nat)
    requires a.Length == k && u != ZERO
    modifies a
    ensures a[..] == LinearSystem.Scale(old(a[..]), u)
  {
    hide Plus, Times;
    Scal(build, a, 0, u, k);
  }

  // ----- a square matrix stored row by row from offset off

  // Where row i of a matrix with w columns starts.
  function RowAt(w: nat, i: nat): nat { i * w }

  lemma RowNext(w: nat, i: nat)
    ensures RowAt(w, 0) == 0 && RowAt(w, i + 1) == RowAt(w, i) + w
  {}

  lemma {:induction false} RowOrder(w: nat, i: nat, j: nat)
    requires i < j
    ensures RowAt(w, i) + w <= RowAt(w, j)
    decreases j
  {
    hide RowAt;
    RowNext(w, j - 1);
    if i < j - 1 { RowOrder(w, i, j - 1); }
  }

  // Entry (i, j) of a is at its place.
  ghost predicate InPlace(p: Vec, off: nat, a: seq<Vec>, i: nat, j: nat)
    requires LinearSystem.Square(a) && i < |a| && j < |a| && off + RowAt(|a|, |a|) <= |p|
  {
    RowAt(|a|, i) + |a| <= RowAt(|a|, |a|) && p[off + RowAt(|a|, i) + j] == a[i][j]
  }

  ghost predicate MatrixIn(p: Vec, off: nat, a: seq<Vec>) {
    && LinearSystem.Square(a)
    && off + RowAt(|a|, |a|) <= |p|
    && forall i, j :: 0 <= i < |a| && 0 <= j < |a| ==> InPlace(p, off, a, i, j)
  }

  // A cell lies in row n's stretch exactly when it is a cell of row n.
  lemma CellInRow(w: nat, i: nat, j: nat, n: nat)
    requires j < w
    ensures RowAt(w, n) <= RowAt(w, i) + j < RowAt(w, n) + w <==> i == n
  {
    hide RowAt;
    if i < n {
      RowOrder(w, i, n);
    } else if n < i {
      RowOrder(w, n, i);
    }
  }

  // Adding u times row s to row n.
  lemma MatrixRowAdded(p: Vec, p': Vec, off: nat, a: seq<Vec>, n: nat, s: nat, u: Byte)
    requires MatrixIn(p, off, a) && n < |a| && s < |a| && |p'| == |p|
    requires off + RowAt(|a|, n) + |a| <= |p| && off + RowAt(|a|, s) + |a| <= |p|
    requires forall i {:trigger p'[i]} :: 0 <= i < |p| ==>
      p'[i] == if off + RowAt(|a|, n) <= i < off + RowAt(|a|, n) + |a|
               then Plus(p[i], Times(u, p[off + RowAt(|a|, s) + (i - (off + RowAt(|a|, n)))])) else p[i]
    ensures MatrixIn(p', off, a[n := LinearSystem.Axpy(a[n], a[s], u)])
  {
    hide Plus, Times, RowAt;
    var w, a' := |a|, a[n := LinearSystem.Axpy(a[n], a[s], u)];
    forall i, j | 0 <= i < w && 0 <= j < w
      ensures InPlace(p', off, a', i, j)
    {
      RowOrder(w, i, w);
      CellInRow(w, i, j, n);
      assert InPlace(p, off, a, i, j) && InPlace(p, off, a, s, j);
    }
  }

  ghost predicate ZeroBefore(row: Vec, x: nat)
  {
    x <= |row| && forall c :: 0 <= c < x ==> row[c] == ZERO
  }

  // Scaling w bytes from the diagonal of row x runs on into row x + 1; where those entries
  // and the ones left of the diagonal are zero it scales row x and nothing else.
  lemma MatrixDiagonalScaled(p: Vec, p': Vec, off: nat, a: seq<Vec>, x: nat, u: Byte)
    requires MatrixIn(p, off, a) && x < |a| && |p'| == |p|
    requires ZeroBefore(a[x], x) && (x + 1 < |a| ==> ZeroBefore(a[x + 1], x))
    requires forall i {:trigger p'[i]} :: 0 <= i < |p| ==>
      p'[i] == if off + RowAt(|a|, x) + x <= i < off + RowAt(|a|, x) + x + |a| then Times(u, p[i]) else p[i]
    ensures MatrixIn(p', off, a[x := LinearSystem.Scale(a[x], u)])
  {
    hide Times, RowAt;
    var w, a' := |a|, a[x := LinearSystem.Scale(a[x], u)];
    TimesZero(u);
    forall i, j | 0 <= i < w && 0 <= j < w
      ensures InPlace(p', off, a', i, j)
    {
      RowOrder(w, i, w);
      CellInRow(w, i, j, x);
      CellInRow(w, i, j, x + 1);
      RowNext(w, x);
      assert InPlace(p, off, a, i, j);
    }
  }
}
