// invert_mat of rs.c: solve the lost shards in place by elimination without pivoting.
module RsSolve {
  import opened Field
  import opened Oblas
  import opened LinearSystem
  import opened RsKernel
  import opened Cauchy
  import opened Elimination

  // ----- shards in memory

  ghost predicate Distinct(data: seq<array<Byte>>) {
    forall i, j :: 0 <= i < j < |data| ==> data[i] != data[j]
  }

  ghost predicate Sized(data: seq<array<Byte>>, bs: nat) {
    forall i :: 0 <= i < |data| ==> data[i].Length == bs
  }

  // The blocks held by a list of buffers.
  ghost predicate Holds(data: seq<array<Byte>>, b: seq<Vec>)
    reads data
  {
    |b| == |data| && forall i :: 0 <= i < |data| ==> data[i][..] == b[i]
  }

  // ----- the forward pass

  // Step x divides its row by the pivot the closed form gives.
  ghost function Factor(xs: Vec, ys: Vec, x: nat): Byte
    requires |xs| == |ys| && x < |xs|
  {
    Recip(Entry(xs, ys, x, x, x))
  }

  // Every diagonal scaling of the forward pass ends inside a buffer of the given length.
  ghost predicate ScalingsFit(off: nat, length: nat, xs: Vec, ys: Vec)
    requires |xs| == |ys|
  {
    forall x :: 0 <= x < |xs| ==> ScalEnd(off + RowAt(|xs|, x) + x, Factor(xs, ys, x), |xs|) <= length
  }

  // Only the last scaling can end behind the matrix.
  lemma OnlyLastScaling(off: nat, length: nat, xs: Vec, ys: Vec)
    requires |xs| == |ys| && off + RowAt(|xs|, |xs|) <= length
    ensures var w := |xs|;
      ScalingsFit(off, length, xs, ys)
      <==> (w > 0 ==> ScalEnd(off + RowAt(w, w - 1) + w - 1, Factor(xs, ys, w - 1), w) <= length)
  {
    hide RowAt, Factor;
    var w := |xs|;
    forall x | 0 <= x < w - 1
      ensures ScalEnd(off + RowAt(w, x) + x, Factor(xs, ys, x), w) <= length
    {
      RowNext(w, x);
      RowOrder(w, x + 1, w);
    }
  }

  method ForwardPass(build: Build, p: array<Byte>, off: nat, w: nat, lost: seq<array<Byte>>, t: nat,
                     ghost a0: seq<Vec>, ghost b0: seq<Vec>, ghost xs: Vec, ghost ys: Vec)
    returns (ghost a: seq<Vec>, ghost b: seq<Vec>)
    requires |lost| == w && Distinct(lost) && Sized(lost, t) && p !in lost
    requires |a0| == w && MatrixIn(p[..], off, a0) && Holds(lost, b0)
    requires Points(xs, ys) && Forward(a0, xs, ys, 0) && ScalingsFit(off, p.Length, xs, ys)
    modifies p, lost
    ensures p[..off] == old(p[..off])
    ensures |a| == w && MatrixIn(p[..], off, a) && Holds(lost, b) && Blocks(b, w, t)
    ensures SameSolutions(a0, b0, a, b, t) && Upper(a)
  {
    hide RowAt, Forward, Upper, SameSolutions, Points, InPlace;
    a, b := a0, b0;
    var x := 0;
    SameRefl(a0, b0, t);
    while x < w
      invariant x <= w
      invariant p[..off] == old(p[..off])
      invariant |a| == w && MatrixIn(p[..], off, a) && Holds(lost, b)
      invariant SameSolutions(a0, b0, a, b, t) && Forward(a, xs, ys, x)
    {
      a, b := ForwardStep(build, p, off, w, lost, t, x, a, b, xs, ys, a0, b0);
      x := x + 1;
    }
    ForwardEnds(a, xs, ys);
  }

  lemma SameRefl(a: seq<Vec>, b: seq<Vec>, t: nat)
    requires Square(a) && Blocks(b, |a|, t)
    ensures SameSolutions(a, b, a, b, t)
  {}

  // Step x: normalise the pivot row, then clear column x below it.
  method ForwardStep(build: Build, p: array<Byte>, off: nat, w: nat, lost: seq<array<Byte>>, t: nat, x: nat,
                     ghost a1: seq<Vec>, ghost b1: seq<Vec>, ghost xs: Vec, ghost ys: Vec,
                     ghost a0: seq<Vec>, ghost b0: seq<Vec>)
    returns (ghost a: seq<Vec>, ghost b: seq<Vec>)
    requires |lost| == w && Distinct(lost) && Sized(lost, t) && p !in lost
    requires |a1| == w && MatrixIn(p[..], off, a1) && Holds(lost, b1) && x < w
    requires Points(xs, ys) && Forward(a1, xs, ys, x) && SameSolutions(a0, b0, a1, b1, t)
    requires ScalingsFit(off, p.Length, xs, ys)
    modifies p, lost
    ensures p[..off] == old(p[..off])
    ensures |a| == w && MatrixIn(p[..], off, a) && Holds(lost, b)
    ensures SameSolutions(a0, b0, a, b, t) && Forward(a, xs, ys, x + 1)
  {
    hide RowAt;
    a, b := NormaliseRow(build, p, off, w, lost, t, x, a1, b1, xs, ys);
    SameTrans(a0, b0, a1, b1, a, b, t);
    var row := x + 1;
    while row < w
      invariant x < row <= w
      invariant p[..off] == old(p[..off])
      invariant |a| == w && MatrixIn(p[..], off, a) && Holds(lost, b)
      invariant SameSolutions(a0, b0, a, b, t) && ForwardMid(a, xs, ys, x, row)
    {
      ghost var a2, b2 := a, b;
      a, b := ClearBelow(build, p, off, w, lost, t, x, row, a, b, xs, ys);
      SameTrans(a0, b0, a2, b2, a, b, t);
      row := row + 1;
    }
    StepFinished(a, xs, ys, x);
  }

  // Divide row x by its pivot. The stretch scaled in the matrix starts at the diagonal and
  // is w bytes long, so it runs on into the next row.
  method NormaliseRow(build: Build, p: array<Byte>, off: nat, w: nat, lost: seq<array<Byte>>, t: nat, x: nat,
                      ghost a1: seq<Vec>, ghost b1: seq<Vec>, ghost xs: Vec, ghost ys: Vec)
    returns (ghost a: seq<Vec>, ghost b: seq<Vec>)
    requires |lost| == w && Distinct(lost) && Sized(lost, t) && p !in lost
    requires |a1| == w && MatrixIn(p[..], off, a1) && Holds(lost, b1) && x < w
    requires Points(xs, ys) && Forward(a1, xs, ys, x) && ScalingsFit(off, p.Length, xs, ys)
    modifies p, lost
    ensures p[..off] == old(p[..off])
    ensures |a| == w && MatrixIn(p[..], off, a) && Holds(lost, b)
    ensures SameSolutions(a1, b1, a, b, t) && ForwardMid(a, xs, ys, x, x + 1)
  {
    hide Plus, Times, Recip, Scale, Entry, SameSolutions, RowAt;
    ghost var p0 := p[..];
    RowOrder(w, x, w);
    var diagonal := off + RowAt(w, x) + x;
    assert InPlace(p0, off, a1, x, x);
    assert RowAtStage(a1[x], xs, ys, x, x);
    var u := Recip(p[diagonal]);
    assert ScalEnd(diagonal, u, w) <= p.Length;
    NormalisePivot(a1, xs, ys, x);
    SameRowScale(a1, b1, x, u, t);
    a, b := a1[x := Scale(a1[x], u)], b1[x := Scale(b1[x], u)];
    Scal(build, p, diagonal, u, w);
    assert x + 1 < w ==> RowAtStage(a1[x + 1], xs, ys, x, x + 1);
    assert RowAtStage(a1[x], xs, ys, x, x);
    MatrixDiagonalScaled(p0, p[..], off, a1, x, u);
    ScalAll(build, lost[x], u, t);
  }

  // Clear column x of one row below the pivot row.
  method ClearBelow(build: Build, p: array<Byte>, off: nat, w: nat, lost: seq<array<Byte>>, t: nat, x: nat, row: nat,
                    ghost a1: seq<Vec>, ghost b1: seq<Vec>, ghost xs: Vec, ghost ys: Vec)
    returns (ghost a: seq<Vec>, ghost b: seq<Vec>)
    requires |lost| == w && Distinct(lost) && Sized(lost, t) && p !in lost
    requires off + RowAt(w, w) <= p.Length && x < row < w
    requires |a1| == w && MatrixIn(p[..], off, a1) && Holds(lost, b1) && Blocks(b1, w, t)
    requires Points(xs, ys) && ForwardMid(a1, xs, ys, x, row)
    modifies p, lost
    ensures p[..off] == old(p[..off])
    ensures |a| == w && MatrixIn(p[..], off, a) && Holds(lost, b)
    ensures SameSolutions(a1, b1, a, b, t) && ForwardMid(a, xs, ys, x, row + 1)
  {
    hide Plus, Times, Recip, Entry, SameSolutions, RowAt;
    ghost var p0 := p[..];
    RowOrder(w, x, row);
    RowOrder(w, row, w);
    assert InPlace(p0, off, a1, row, x);
    var u := p[off + RowAt(w, row) + x];
    ClearRow(a1, xs, ys, x, row);
    SameRowAdd(a1, b1, row, x, u, t);
    a, b := a1[row := LinearSystem.Axpy(a1[row], a1[x], u)], b1[row := LinearSystem.Axpy(b1[row], b1[x], u)];
    RsKernel.Axpy(build, p, off + RowAt(w, row), p, off + RowAt(w, x), u, w);
    MatrixRowAdded(p0, p[..], off, a1, row, x, u);
    AxpyAll(build, lost[row], lost[x], u, t);
  }

  // ----- the backward pass

  // Substitute from the last row up; only the shards change, the matrix is read.
  method BackwardPass(build: Build, p: array<Byte>, off: nat, w: nat, lost: seq<array<Byte>>, t: nat,
                      ghost a: seq<Vec>, ghost b0: seq<Vec>)
    returns (ghost g: seq<Vec>, ghost b: seq<Vec>)
    requires |lost| == w && Distinct(lost) && Sized(lost, t) && p !in lost
    requires |a| == w && MatrixIn(p[..], off, a) && Upper(a) && Holds(lost, b0) && Blocks(b0, w, t)
    modifies lost
    ensures Holds(lost, b) && SameSolutions(a, b0, g, b, t) && Identity(g)
  {
    hide Plus, Times, SameSolutions, RowAt;
    g, b := a, b0;
    SameRefl(a, b0, t);
    BackStart(a);
    var x := w;
    while x > 0
      invariant x <= w
      invariant Holds(lost, b) && Blocks(b, w, t)
      invariant SameSolutions(a, b0, g, b, t) && Back(a, g, x as int - 1, 0)
    {
      x := x - 1;
      var from := lost[x];
      var row := 0;
      while row < x
        invariant row <= x
        invariant Holds(lost, b) && Blocks(b, w, t)
        invariant SameSolutions(a, b0, g, b, t) && Back(a, g, x, row)
      {
        assert InPlace(p[..], off, a, row, x);
        var u := p[off + RowAt(w, row) + x];
        ghost var g', b' := g[row := LinearSystem.Axpy(g[row], g[x], u)], b[row := LinearSystem.Axpy(b[row], b[x], u)];
        BackClear(a, g, x, row);
        SameRowAdd(g, b, row, x, u, t);
        SameTrans(a, b0, g, b, g', b', t);
        AxpyAll(build, lost[row], from, u, t);
        g, b := g', b';
        row := row + 1;
      }
      BackNext(a, g, x);
    }
    BackEnds(a, g);
  }

  // ----- setting the system up

  // Row r of a matrix with k columns, restricted to some columns.
  function Coefs(m: Vec, k: nat, r: nat, cols: seq<nat>): (v: Vec)
    requires forall j :: 0 <= j < |cols| ==> cols[j] < k
    requires RowAt(k, r) + k <= |m|
    ensures |v| == |cols|
  {
    seq(|cols|, j requires 0 <= j < |cols| => m[RowAt(k, r) + cols[j]])
  }

  // The square system for the lost shards: parity rows d, lost columns cols.
  ghost function LostMatrix(m: Vec, k: nat, d: seq<nat>, cols: seq<nat>): (a: seq<Vec>)
    requires |d| == |cols|
    requires forall j :: 0 <= j < |cols| ==> cols[j] < k
    requires forall i :: 0 <= i < |d| ==> RowAt(k, d[i]) + k <= |m|
    ensures |a| == |d| && Square(a)
    ensures forall i :: 0 <= i < |a| ==> a[i] == Coefs(m, k, d[i], cols)
  {
    seq(|d|, i requires 0 <= i < |d| => Coefs(m, k, d[i], cols))
  }

  ghost predicate RowsFit(m: Vec, k: nat, d: seq<nat>) {
    forall i :: 0 <= i < |d| ==> RowAt(k, d[i]) + k <= |m|
  }

  ghost predicate Below(c: seq<nat>, k: nat) {
    forall j :: 0 <= j < |c| ==> c[j] < k
  }

  // The first i rows and j more cells of a are in place.
  ghost predicate Copied(p: Vec, off: nat, a: seq<Vec>, i: nat, j: nat) {
    && Square(a) && off + RowAt(|a|, |a|) <= |p|
    && forall r, c :: 0 <= r < |a| && 0 <= c < |a| && (r < i || (r == i && c < j)) ==> InPlace(p, off, a, r, c)
  }

  lemma CopiedCell(p: Vec, off: nat, a: seq<Vec>, i: nat, j: nat)
    requires Copied(p, off, a, i, j) && i < |a| && j < |a|
    ensures off + RowAt(|a|, i) + j < |p|
    ensures Copied(p[off + RowAt(|a|, i) + j := a[i][j]], off, a, i, j + 1)
  {
    hide RowAt;
    var w := |a|;
    RowOrder(w, i, w);
    var p' := p[off + RowAt(w, i) + j := a[i][j]];
    forall r, c | 0 <= r < w && 0 <= c < w && (r < i || (r == i && c < j + 1))
      ensures InPlace(p', off, a, r, c)
    {
      RowOrder(w, r, w);
      CellInRow(w, r, c, i);
      assert r < i || (r == i && c < j) ==> InPlace(p, off, a, r, c);
    }
  }

  lemma CopiedRow(p: Vec, off: nat, a: seq<Vec>, i: nat)
    requires Copied(p, off, a, i, |a|)
    ensures Copied(p, off, a, i + 1, 0)
  {
    hide InPlace;
  }

  lemma CopiedAll(p: Vec, off: nat, a: seq<Vec>)
    requires Copied(p, off, a, |a|, 0)
    ensures MatrixIn(p, off, a)
  {
    hide InPlace;
  }

  // Copy the square submatrix to the scratch area behind the codec matrix.
  method CopyMatrix(p: array<Byte>, off: nat, k: nat, w: nat, d: seq<nat>, cols: seq<nat>)
    requires |d| == |cols| == w && off + RowAt(w, w) <= p.Length
    requires Below(cols, k) && RowsFit(p[..off], k, d)
    modifies p
    ensures p[..off] == old(p[..off])
    ensures MatrixIn(p[..], off, LostMatrix(old(p[..off]), k, d, cols))
  {
    hide RowAt;
    ghost var m := p[..off];
    ghost var a := LostMatrix(m, k, d, cols);
    var i := 0;
    while i < w
      invariant i <= w
      invariant p[..off] == m && Copied(p[..], off, a, i, 0)
    {
      var dr := RowAt(k, d[i]);
      var at := off + RowAt(w, i);
      var j := 0;
      while j < w
        invariant j <= w
        invariant p[..off] == m && Copied(p[..], off, a, i, j)
      {
        CopiedCell(p[..], off, a, i, j);
        ghost var before := p[..];
        assert p[dr + cols[j]] == m[dr + cols[j]] == a[i][j];
        p[at + j] := p[dr + cols[j]];
        assert p[..] == before[at + j := a[i][j]];
        j := j + 1;
      }
      CopiedRow(p[..], off, a, i);
      i := i + 1;
    }
    CopiedAll(p[..], off, a);
  }

  // ----- moving the surviving shards to the right-hand side

  // Block b after adding the first n known blocks, each times its coefficient.
  ghost function AddKnown(b: Vec, known: seq<Vec>, cf: Vec, n: nat): (r: Vec)
    requires |known| == |cf| && n <= |cf|
    requires forall i :: 0 <= i < |known| ==> |known[i]| == |b|
    ensures |r| == |b|
  {
    if n == 0 then b else LinearSystem.Axpy(AddKnown(b, known, cf, n - 1), known[n - 1], cf[n - 1])
  }

  lemma {:induction false} AddKnownAt(b: Vec, known: seq<Vec>, cf: Vec, n: nat, q: nat)
    requires |known| == |cf| && n <= |cf| && q < |b|
    requires forall i :: 0 <= i < |known| ==> |known[i]| == |b|
    ensures AddKnown(b, known, cf, n)[q] == Plus(b[q], Dot(cf[..n], Column(known, q)[..n]))
  {
    hide Plus, Times;
    if n == 0 {
      PlusZero(b[q]);
    } else {
      AddKnownAt(b, known, cf, n - 1, q);
      var col := Column(known, q);
      assert cf[..n][..n - 1] == cf[..n - 1] && col[..n][..n - 1] == col[..n - 1];
      PlusAssoc(b[q], Dot(cf[..n - 1], col[..n - 1]), Times(cf[n - 1], col[n - 1]));
    }
  }

  ghost function AllKnownAdded(m: Vec, k: nat, d: seq<nat>, cols: seq<nat>, known: seq<Vec>, b: seq<Vec>,
                               t: nat): (r: seq<Vec>)
    requires |known| == |cols| && |b| == |d|
    requires Below(cols, k) && RowsFit(m, k, d) && Blocks(known, |known|, t) && Blocks(b, |b|, t)
    ensures Blocks(r, |b|, t)
    ensures forall i :: 0 <= i < |b| ==> r[i] == AddKnown(b[i], known, Coefs(m, k, d[i], cols), |cols|)
  {
    seq(|b|, i requires 0 <= i < |b| => AddKnown(b[i], known, Coefs(m, k, d[i], cols), |cols|))
  }

  method SubtractKnown(build: Build, p: array<Byte>, off: nat, k: nat, t: nat, d: seq<nat>, cols: seq<nat>,
                       known: seq<array<Byte>>, lost: seq<array<Byte>>, ghost kb: seq<Vec>, ghost b0: seq<Vec>)
    requires |known| == |cols| && |lost| == |d| && off <= p.Length
    requires Below(cols, k) && RowsFit(p[..off], k, d)
    requires Distinct(lost) && Sized(lost, t) && Sized(known, t) && p !in lost
    requires forall i, j :: 0 <= i < |lost| && 0 <= j < |known| ==> lost[i] != known[j]
    requires Holds(known, kb) && Holds(lost, b0) && Blocks(kb, |kb|, t) && Blocks(b0, |b0|, t)
    modifies lost
    ensures Holds(lost, AllKnownAdded(p[..off], k, d, cols, kb, b0, t))
  {
    hide Plus, Times, LinearSystem.Axpy, RowAt;
    ghost var m := p[..off];
    ghost var all := AllKnownAdded(m, k, d, cols, kb, b0, t);
    var i := 0;
    while i < |lost|
      invariant i <= |lost|
      invariant forall l :: 0 <= l < |lost| ==> lost[l][..] == if l < i then all[l] else b0[l]
    {
      var dr := RowAt(k, d[i]);
      ghost var cf := Coefs(m, k, d[i], cols);
      var row := 0;
      while row < |known|
        invariant row <= |known|
        invariant lost[i][..] == AddKnown(b0[i], kb, cf, row)
        invariant forall l :: 0 <= l < |lost| && l != i ==> lost[l][..] == if l < i then all[l] else b0[l]
      {
        assert p[dr + cols[row]] == m[dr + cols[row]] == cf[row];
        var u := p[dr + cols[row]];
        AxpyAll(build, lost[i], known[row], u, t);
        row := row + 1;
      }
      i := i + 1;
    }
  }

  // ----- invert_mat

  // The equations the lost bytes x at position q must meet, given the surviving blocks and
  // the surviving parity blocks.
  ghost predicate Equations(m: Vec, k: nat, d: seq<nat>, knownCols: seq<nat>, lostCols: seq<nat>,
                            known: seq<Vec>, parity: seq<Vec>, t: nat, q: nat, x: Vec)
    requires |known| == |knownCols| && |parity| == |d| == |lostCols| == |x| && q < t
    requires Below(knownCols, k) && Below(lostCols, k) && RowsFit(m, k, d)
    requires Blocks(known, |known|, t) && Blocks(parity, |parity|, t)
  {
    forall i :: 0 <= i < |d| ==>
      Dot(Coefs(m, k, d[i], lostCols), x)
      == Plus(parity[i][q], Dot(Coefs(m, k, d[i], knownCols), Column(known, q)))
  }

  ghost predicate CauchyAt(a: seq<Vec>, xs: Vec, ys: Vec) {
    && Points(xs, ys) && Square(a) && |a| == |xs|
    && forall i, j :: 0 <= i < |a| && 0 <= j < |a| ==> a[i][j] == Recip(Plus(xs[i], ys[j]))
  }

  lemma CauchyStarts(a: seq<Vec>, xs: Vec, ys: Vec)
    requires CauchyAt(a, xs, ys)
    ensures Forward(a, xs, ys, 0)
  {
    hide Plus, Times, Recip;
    forall r | 0 <= r < |a| ensures RowAtStage(a[r], xs, ys, 0, r) {
      forall c | 0 <= c < |a| ensures a[r][c] == Entry(xs, ys, 0, r, c) { EntryStart(xs, ys, r, c); }
    }
  }

  lemma EquationsAreSystem(m: Vec, k: nat, d: seq<nat>, knownCols: seq<nat>, lostCols: seq<nat>,
                           known: seq<Vec>, parity: seq<Vec>, t: nat, q: nat, x: Vec)
    requires |known| == |knownCols| && |parity| == |d| == |lostCols| == |x| && q < t
    requires Below(knownCols, k) && Below(lostCols, k) && RowsFit(m, k, d)
    requires Blocks(known, |known|, t) && Blocks(parity, |parity|, t)
    ensures Equations(m, k, d, knownCols, lostCols, known, parity, t, q, x)
       <==> Solves(LostMatrix(m, k, d, lostCols), Column(AllKnownAdded(m, k, d, knownCols, known, parity, t), q), x)
  {
    hide Plus, Times, Dot, Coefs, AddKnown, RowAt;
    var a := LostMatrix(m, k, d, lostCols);
    var all := AllKnownAdded(m, k, d, knownCols, known, parity, t);
    var n := |knownCols|;
    forall i | 0 <= i < |d|
      ensures Column(all, q)[i] == Plus(parity[i][q], Dot(Coefs(m, k, d[i], knownCols), Column(known, q)))
    {
      var cf := Coefs(m, k, d[i], knownCols);
      AddKnownAt(parity[i], known, cf, n, q);
      assert cf[..n] == cf && Column(known, q)[..n] == Column(known, q);
    }
    if Equations(m, k, d, knownCols, lostCols, known, parity, t, q, x) {
      forall i | 0 <= i < |a| ensures Dot(a[i], x) == Column(all, q)[i] {
        assert Dot(Coefs(m, k, d[i], lostCols), x)
            == Plus(parity[i][q], Dot(Coefs(m, k, d[i], knownCols), Column(known, q)));
      }
    }
    if Solves(a, Column(all, q), x) {
      forall i | 0 <= i < |d|
        ensures Dot(Coefs(m, k, d[i], lostCols), x)
             == Plus(parity[i][q], Dot(Coefs(m, k, d[i], knownCols), Column(known, q)))
      {
        assert Dot(a[i], x) == Column(all, q)[i];
      }
    }
  }

  // On entry the lost buffers hold parity blocks; on exit they hold the only blocks that
  // meet the equations, byte by byte.
  method InvertMat(build: Build, p: array<Byte>, off: nat, k: nat, t: nat,
                   known: seq<array<Byte>>, lost: seq<array<Byte>>,
                   knownCols: seq<nat>, lostCols: seq<nat>, d: seq<nat>,
                   ghost kb: seq<Vec>, ghost parity: seq<Vec>, ghost xs: Vec, ghost ys: Vec)
    returns (ghost b: seq<Vec>)
    requires |known| == |knownCols| && |lost| == |lostCols| == |d|
    requires off + RowAt(|d|, |d|) <= p.Length && |xs| == |ys| && ScalingsFit(off, p.Length, xs, ys)
    requires Below(knownCols, k) && Below(lostCols, k) && RowsFit(p[..off], k, d)
    requires Distinct(lost) && Sized(lost, t) && Sized(known, t) && p !in lost && p !in known
    requires forall i, j :: 0 <= i < |lost| && 0 <= j < |known| ==> lost[i] != known[j]
    requires Holds(known, kb) && Holds(lost, parity) && Blocks(kb, |kb|, t) && Blocks(parity, |parity|, t)
    requires CauchyAt(LostMatrix(p[..off], k, d, lostCols), xs, ys)
    modifies p, lost
    ensures p[..off] == old(p[..off])
    ensures Holds(lost, b) && Blocks(b, |d|, t)
    ensures forall q, x: Vec :: 0 <= q < t && |x| == |d| ==>
      (Equations(old(p[..off]), k, d, knownCols, lostCols, kb, parity, t, q, x) <==> x == Column(b, q))
  {
    hide Plus, Times, Recip, Dot, Entry, Coefs, AddKnown, SameSolutions, Equations, Solves, RowAt;
    ghost var m := p[..off];
    ghost var a0 := LostMatrix(m, k, d, lostCols);
    ghost var b0 := AllKnownAdded(m, k, d, knownCols, kb, parity, t);
    var w := |d|;
    CopyMatrix(p, off, k, w, d, lostCols);
    SubtractKnown(build, p, off, k, t, d, knownCols, known, lost, kb, parity);
    CauchyStarts(a0, xs, ys);
    ghost var a, b1 := ForwardPass(build, p, off, w, lost, t, a0, b0, xs, ys);
    ghost var g;
    g, b := BackwardPass(build, p, off, w, lost, t, a, b1);
    SameTrans(a0, b0, a, b1, g, b, t);
    forall q, x: Vec | 0 <= q < t && |x| == w
      ensures Equations(m, k, d, knownCols, lostCols, kb, parity, t, q, x) <==> x == Column(b, q)
    {
      EquationsAreSystem(m, k, d, knownCols, lostCols, kb, parity, t, q, x);
      ReducedIsUnique(a0, b0, g, b, t, q, x);
    }
  }
}
