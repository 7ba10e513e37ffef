// The erasure code of rs.c on values: which shards belong together, which data explain a
// set of surviving shards, and why there is only one such data.
module ErasureCode {
  import opened Field
  import opened LinearSystem
  import opened Cauchy
  import opened RsKernel
  import opened RsSolve

  // ----- selecting by mark

  // The indices in [lo, hi) whose mark equals want, ascending.
  function Indices(marks: seq<bool>, lo: nat, hi: nat, want: bool): (r: seq<nat>)
    requires lo <= hi <= |marks|
    ensures forall i :: 0 <= i < |r| ==> lo <= r[i] < hi && marks[r[i]] == want
    ensures forall i, j :: 0 <= i < j < |r| ==> r[i] < r[j]
  {
    if lo == hi then []
    else Indices(marks, lo, hi - 1, want) + (if marks[hi - 1] == want then [hi - 1] else [])
  }

  lemma {:induction false} IndicesComplete(marks: seq<bool>, lo: nat, hi: nat, want: bool, k: nat)
    returns (i: nat)
    requires lo <= k < hi <= |marks| && marks[k] == want
    ensures i < |Indices(marks, lo, hi, want)| && Indices(marks, lo, hi, want)[i] == k
    decreases hi
  {
    if k == hi - 1 {
      i := |Indices(marks, lo, hi - 1, want)|;
    } else {
      i := IndicesComplete(marks, lo, hi - 1, want, k);
    }
  }

  lemma {:induction false} IndicesSplit(marks: seq<bool>, lo: nat, mid: nat, hi: nat, want: bool)
    requires lo <= mid <= hi <= |marks|
    ensures Indices(marks, lo, hi, want) == Indices(marks, lo, mid, want) + Indices(marks, mid, hi, want)
    decreases hi
  {
    if mid < hi { IndicesSplit(marks, lo, mid, hi - 1, want); }
  }

  lemma {:induction false} IndicesCount(marks: seq<bool>, lo: nat, hi: nat)
    requires lo <= hi <= |marks|
    ensures |Indices(marks, lo, hi, true)| + |Indices(marks, lo, hi, false)| == hi - lo
    decreases hi
  {
    if lo < hi { IndicesCount(marks, lo, hi - 1); }
  }

  lemma {:induction false} IndicesNone(marks: seq<bool>, lo: nat, hi: nat)
    requires lo <= hi <= |marks| && forall i :: lo <= i < hi ==> !marks[i]
    ensures Indices(marks, lo, hi, true) == []
    decreases hi
  {
    if lo < hi { IndicesNone(marks, lo, hi - 1); }
  }

  lemma IndicesNext(marks: seq<bool>, n: nat)
    requires 0 < n <= |marks|
    ensures Indices(marks, 0, n, marks[n - 1]) == Indices(marks, 0, n - 1, marks[n - 1]) + [n - 1]
    ensures Indices(marks, 0, n, !marks[n - 1]) == Indices(marks, 0, n - 1, !marks[n - 1])
  {}

  function Select<T>(v: seq<T>, index: seq<nat>): (r: seq<T>)
    requires forall i :: 0 <= i < |index| ==> index[i] < |v|
    ensures |r| == |index|
    ensures forall i :: 0 <= i < |r| ==> r[i] == v[index[i]]
  {
    seq(|index|, i requires 0 <= i < |index| => v[index[i]])
  }

  // The part of a dot product at the given positions.
  function DotAt(row: Vec, x: Vec, index: seq<nat>): Byte
    requires |row| == |x| && forall i :: 0 <= i < |index| ==> index[i] < |row|
  {
    Dot(Select(row, index), Select(x, index))
  }

  lemma DotAtAppend(row: Vec, x: Vec, index: seq<nat>, k: nat)
    requires k < |row| == |x| && forall i :: 0 <= i < |index| ==> index[i] < |row|
    ensures DotAt(row, x, index + [k]) == Plus(DotAt(row, x, index), Times(row[k], x[k]))
  {
    hide Plus, Times;
    assert Select(row, index + [k])[..|index|] == Select(row, index);
    assert Select(x, index + [k])[..|index|] == Select(x, index);
  }

  lemma DotSplitStep(row: Vec, x: Vec, unmarked: seq<nat>, marked: seq<nat>, n: nat, mark: bool)
    requires 0 < n <= |row| == |x|
    requires forall i :: 0 <= i < |unmarked| ==> unmarked[i] < |row|
    requires forall i :: 0 <= i < |marked| ==> marked[i] < |row|
    requires Dot(row[..n - 1], x[..n - 1]) == Plus(DotAt(row, x, unmarked), DotAt(row, x, marked))
    ensures mark ==> Dot(row[..n], x[..n]) == Plus(DotAt(row, x, unmarked), DotAt(row, x, marked + [n - 1]))
    ensures !mark ==> Dot(row[..n], x[..n]) == Plus(DotAt(row, x, unmarked + [n - 1]), DotAt(row, x, marked))
  {
    hide Plus, Times, DotAt;
    assert row[..n][..n - 1] == row[..n - 1] && x[..n][..n - 1] == x[..n - 1];
    var u, m, term := DotAt(row, x, unmarked), DotAt(row, x, marked), Times(row[n - 1], x[n - 1]);
    PlusAssoc(u, m, term);
    PlusAssoc(u, term, m);
    PlusComm(m, term);
    DotAtAppend(row, x, unmarked, n - 1);
    DotAtAppend(row, x, marked, n - 1);
  }

  // A dot product splits into the unmarked and the marked positions.
  lemma {:induction false} DotSplit(row: Vec, x: Vec, marks: seq<bool>, n: nat)
    requires n <= |row| == |x| && n <= |marks|
    ensures Dot(row[..n], x[..n])
         == Plus(DotAt(row, x, Indices(marks, 0, n, false)), DotAt(row, x, Indices(marks, 0, n, true)))
  {
    hide Plus, Times;
    if n == 0 {
      PlusZero(ZERO);
    } else {
      hide DotAt, Dot;
      DotSplit(row, x, marks, n - 1);
      IndicesNext(marks, n);
      DotSplitStep(row, x, Indices(marks, 0, n - 1, false), Indices(marks, 0, n - 1, true), n, marks[n - 1]);
    }
  }

  // ----- the code

  ghost predicate Dimensions(ds: nat, ps: nat) {
    1 <= ds && 1 <= ps && ds + ps <= 255
  }

  // Entry (j, i) of the coefficient matrix.
  function Coef(ds: nat, ps: nat, j: nat, i: nat): Byte
    requires Dimensions(ds, ps) && j < ps && i < ds
  {
    Recip(Plus(Num(ps + i), Num(j)))
  }

  function CoefRow(ds: nat, ps: nat, j: nat): (r: Vec)
    requires Dimensions(ds, ps) && j < ps
    ensures |r| == ds
  {
    seq(ds, i requires 0 <= i < ds => Coef(ds, ps, j, i))
  }

  // Parity shard j is row j of the matrix times the data shards, at every byte position.
  ghost predicate Codeword(ds: nat, ps: nat, s: seq<Vec>, bs: nat)
    requires Dimensions(ds, ps)
  {
    && Blocks(s, ds + ps, bs)
    && forall j, q :: 0 <= j < ps && 0 <= q < bs ==> s[ds + j][q] == Dot(CoefRow(ds, ps, j), Column(s[..ds], q))
  }

  function Lost(ds: nat, marks: seq<bool>): seq<nat>
    requires ds <= |marks|
  {
    Indices(marks, 0, ds, true)
  }

  // The parity rows that survive.
  function Spare(ds: nat, ps: nat, marks: seq<bool>): (r: seq<nat>)
    requires ds + ps <= |marks|
    ensures forall i :: 0 <= i < |r| ==> r[i] < ps && !marks[ds + r[i]]
    ensures forall i, j :: 0 <= i < j < |r| ==> r[i] < r[j]
  {
    var ix := Indices(marks, ds, ds + ps, false);
    seq(|ix|, i requires 0 <= i < |ix| => ix[i] - ds)
  }

  ghost predicate Recoverable(ds: nat, ps: nat, marks: seq<bool>)
    requires ds + ps <= |marks|
  {
    |Lost(ds, marks)| <= |Spare(ds, ps, marks)|
  }

  // The data d agrees with every surviving data shard and with the first surviving parity
  // shards, as many as data shards are lost.
  ghost predicate Explains(ds: nat, ps: nat, s: seq<Vec>, marks: seq<bool>, bs: nat, d: seq<Vec>)
    requires Dimensions(ds, ps) && Blocks(s, ds + ps, bs) && ds + ps <= |marks| && Recoverable(ds, ps, marks)
  {
    && Blocks(d, ds, bs)
    && (forall i :: 0 <= i < ds && !marks[i] ==> d[i] == s[i])
    && (forall i, q :: 0 <= i < |Lost(ds, marks)| && 0 <= q < bs ==>
         ParityMet(ds, ps, s, Spare(ds, ps, marks)[i], bs, d, q))
  }

  ghost predicate ParityMet(ds: nat, ps: nat, s: seq<Vec>, j: nat, bs: nat, d: seq<Vec>, q: nat)
    requires Dimensions(ds, ps) && Blocks(s, ds + ps, bs) && j < ps && Blocks(d, ds, bs) && q < bs
  {
    s[ds + j][q] == Dot(CoefRow(ds, ps, j), Column(d, q))
  }

  // What was encoded explains whatever survives of it, however the lost shards were overwritten.
  lemma CodewordExplains(ds: nat, ps: nat, c: seq<Vec>, s: seq<Vec>, marks: seq<bool>, bs: nat)
    requires Dimensions(ds, ps) && Codeword(ds, ps, c, bs) && Blocks(s, ds + ps, bs)
    requires ds + ps <= |marks| && Recoverable(ds, ps, marks)
    requires forall i :: 0 <= i < ds + ps && !marks[i] ==> s[i] == c[i]
    ensures Explains(ds, ps, s, marks, bs, c[..ds])
  {
    hide Dot, CoefRow;
    var spare := Spare(ds, ps, marks);
    forall i, q | 0 <= i < |Lost(ds, marks)| && 0 <= q < bs
      ensures ParityMet(ds, ps, s, spare[i], bs, c[..ds], q)
    {
      assert !marks[ds + spare[i]];
      assert s[ds + spare[i]] == c[ds + spare[i]];
    }
  }

  // ----- the matrix in memory

  // Row j of the stored matrix is in place.
  ghost predicate RowHolds(m: Vec, ds: nat, ps: nat, j: nat)
    requires Dimensions(ds, ps) && j < ps
  {
    RowAt(ds, j) + ds <= |m| && m[RowAt(ds, j)..RowAt(ds, j) + ds] == CoefRow(ds, ps, j)
  }

  ghost predicate CodecMatrix(m: Vec, ds: nat, ps: nat)
    requires Dimensions(ds, ps)
  {
    && |m| == RowAt(ds, ps)
    && forall j :: 0 <= j < ps ==> RowHolds(m, ds, ps, j)
  }

  lemma CoefsAreSelected(m: Vec, ds: nat, ps: nat, j: nat, cols: seq<nat>)
    requires Dimensions(ds, ps) && CodecMatrix(m, ds, ps) && j < ps && Below(cols, ds)
    ensures RowAt(ds, j) + ds <= |m| && Coefs(m, ds, j, cols) == Select(CoefRow(ds, ps, j), cols)
  {
    hide CoefRow, RowAt;
    assert RowHolds(m, ds, ps, j);
    var at := RowAt(ds, j);
    forall i | 0 <= i < |cols| ensures m[at + cols[i]] == CoefRow(ds, ps, j)[cols[i]] {
      assert m[at..at + ds][cols[i]] == m[at + cols[i]];
    }
  }

  lemma CoefAt(ds: nat, ps: nat, j: nat, i: nat)
    requires Dimensions(ds, ps) && j < ps && i < ds
    ensures CoefRow(ds, ps, j)[i] == Recip(Plus(Num(ps + i), Num(j)))
  {
    hide Plus, Recip, Num;
  }

  // The submatrix of the surviving parity rows and the lost columns is a Cauchy matrix.
  lemma LostMatrixIsCauchy(m: Vec, ds: nat, ps: nat, d: seq<nat>, cols: seq<nat>, xs: Vec, ys: Vec)
    requires Dimensions(ds, ps) && CodecMatrix(m, ds, ps) && |d| == |cols| == |xs| == |ys|
    requires Below(cols, ds) && Below(d, ps) && RowsFit(m, ds, d)
    requires forall i, j :: 0 <= i < j < |d| ==> d[i] < d[j]
    requires forall i, j :: 0 <= i < j < |cols| ==> cols[i] < cols[j]
    requires forall i :: 0 <= i < |d| ==> xs[i] == Num(d[i]) && ys[i] == Num(ps + cols[i])
    ensures CauchyAt(LostMatrix(m, ds, d, cols), xs, ys)
  {
    hide Plus, Recip, Num, RowAt, CodecMatrix, Coefs, CoefRow;
    forall i, j | 0 <= i < j < |d| ensures xs[i] != xs[j] && ys[i] != ys[j] {
      NumInjective(d[i], d[j]);
      NumInjective(ps + cols[i], ps + cols[j]);
    }
    forall i, j | 0 <= i < |d| && 0 <= j < |d| ensures xs[i] != ys[j] {
      NumInjective(d[i], ps + cols[j]);
    }
    var a := LostMatrix(m, ds, d, cols);
    forall i, j | 0 <= i < |d| && 0 <= j < |d| ensures a[i][j] == Recip(Plus(xs[i], ys[j])) {
      CoefsAreSelected(m, ds, ps, d[i], cols);
      CoefAt(ds, ps, d[i], cols[j]);
      PlusComm(xs[i], ys[j]);
    }
  }

  lemma RowsInMatrix(ds: nat, ps: nat, m: Vec, d: seq<nat>)
    requires Dimensions(ds, ps) && CodecMatrix(m, ds, ps) && Below(d, ps)
    ensures RowsFit(m, ds, d)
  {
    hide CoefRow, RowAt;
    forall i | 0 <= i < |d| ensures RowAt(ds, d[i]) + ds <= |m| { assert RowHolds(m, ds, ps, d[i]); }
  }

  // The points of the matrix that is inverted for the given marks: its rows are the first
  // surviving parity rows, its columns the lost data shards.
  ghost function LostRows(ds: nat, ps: nat, marks: seq<bool>): (xs: Vec)
    requires Dimensions(ds, ps) && ds + ps <= |marks| && Recoverable(ds, ps, marks)
    ensures |xs| == |Lost(ds, marks)|
  {
    var d := Spare(ds, ps, marks);
    seq(|Lost(ds, marks)|, i requires 0 <= i < |Lost(ds, marks)| => Num(d[i]))
  }

  ghost function LostCols(ds: nat, ps: nat, marks: seq<bool>): (ys: Vec)
    requires Dimensions(ds, ps) && ds + ps <= |marks|
    ensures |ys| == |Lost(ds, marks)|
  {
    var lost := Lost(ds, marks);
    seq(|lost|, i requires 0 <= i < |lost| => Num(ps + lost[i]))
  }

  // The system for the lost shards is a Cauchy system at these points.
  lemma LostSystem(ds: nat, ps: nat, m: Vec, marks: seq<bool>)
    requires Dimensions(ds, ps) && CodecMatrix(m, ds, ps) && ds + ps <= |marks| && Recoverable(ds, ps, marks)
    ensures var lost := Lost(ds, marks);
      var spare := Spare(ds, ps, marks)[..|lost|];
      && Below(lost, ds) && RowsFit(m, ds, spare)
      && CauchyAt(LostMatrix(m, ds, spare, lost), LostRows(ds, ps, marks), LostCols(ds, ps, marks))
  {
    hide CodecMatrix, LostMatrix, CauchyAt, Num, Indices;
    var lost := Lost(ds, marks);
    var d := Spare(ds, ps, marks)[..|lost|];
    RowsInMatrix(ds, ps, m, d);
    LostMatrixIsCauchy(m, ds, ps, d, lost, LostRows(ds, ps, marks), LostCols(ds, ps, marks));
  }

  // ----- decoding is exact

  // At one byte position the equations for the lost bytes say that the parity is met.
  lemma EquationsMeanParity(ds: nat, ps: nat, m: Vec, s: seq<Vec>, marks: seq<bool>, bs: nat, d: seq<Vec>, q: nat)
    requires Dimensions(ds, ps) && CodecMatrix(m, ds, ps) && Blocks(s, ds + ps, bs) && q < bs
    requires ds + ps <= |marks| && Recoverable(ds, ps, marks)
    requires Blocks(d, ds, bs) && forall i :: 0 <= i < ds && !marks[i] ==> d[i] == s[i]
    ensures var known, lost := Indices(marks, 0, ds, false), Lost(ds, marks);
      var spare := Spare(ds, ps, marks)[..|lost|];
      RowsFit(m, ds, spare) &&
      (Equations(m, ds, spare, known, lost, Select(s, known), Select(s[ds..], spare), bs, q, Select(Column(d, q), lost))
       <==> forall i :: 0 <= i < |lost| ==> ParityMet(ds, ps, s, spare[i], bs, d, q))
  {
    hide Plus, Times, Dot, CoefRow, Coefs, Indices, RowAt, CodecMatrix;
    var known, lost := Indices(marks, 0, ds, false), Lost(ds, marks);
    var spare := Spare(ds, ps, marks)[..|lost|];
    var col := Column(d, q);
    assert Column(Select(s, known), q) == Select(col, known);
    forall i | 0 <= i < |lost|
      ensures RowAt(ds, spare[i]) + ds <= |m|
      ensures Dot(Coefs(m, ds, spare[i], lost), Select(col, lost))
              == Plus(Select(s[ds..], spare)[i][q], Dot(Coefs(m, ds, spare[i], known), Column(Select(s, known), q)))
         <==> ParityMet(ds, ps, s, spare[i], bs, d, q)
    {
      var row := CoefRow(ds, ps, spare[i]);
      CoefsAreSelected(m, ds, ps, spare[i], lost);
      CoefsAreSelected(m, ds, ps, spare[i], known);
      DotSplit(row, col, marks, ds);
      assert row[..ds] == row && col[..ds] == col;
      assert Select(s[ds..], spare)[i] == s[ds + spare[i]];
      var u, v := Dot(Select(row, known), Select(col, known)), Dot(Select(row, lost), Select(col, lost));
      var y := s[ds + spare[i]][q];
      SplitSum(u, v, y);
    }
  }

  lemma SplitSum(u: Byte, v: Byte, y: Byte)
    ensures v == Plus(y, u) <==> y == Plus(u, v)
  {
    hide Plus;
    PlusComm(u, v);
    PlusCancel(y, u);
    PlusCancel(v, u);
  }

  // Solved blocks b put in the lost places are the one and only explanation.
  lemma SolutionExplains(ds: nat, ps: nat, m: Vec, s: seq<Vec>, marks: seq<bool>, bs: nat,
                         b: seq<Vec>, r: seq<Vec>, d: seq<Vec>)
    requires Dimensions(ds, ps) && CodecMatrix(m, ds, ps) && Blocks(s, ds + ps, bs)
    requires ds + ps <= |marks| && Recoverable(ds, ps, marks)
    requires Blocks(b, |Lost(ds, marks)|, bs) && Blocks(r, ds, bs)
    requires forall i :: 0 <= i < ds && !marks[i] ==> r[i] == s[i]
    requires forall i :: 0 <= i < |b| ==> r[Lost(ds, marks)[i]] == b[i]
    requires var known, lost := Indices(marks, 0, ds, false), Lost(ds, marks);
      var spare := Spare(ds, ps, marks)[..|lost|];
      RowsFit(m, ds, spare) &&
      forall q, x: Vec :: 0 <= q < bs && |x| == |lost| ==>
        (Equations(m, ds, spare, known, lost, Select(s, known), Select(s[ds..], spare), bs, q, x)
         <==> x == Column(b, q))
    ensures Explains(ds, ps, s, marks, bs, d) <==> d == r
  {
    hide Equations, Indices, ParityMet;
    var lost := Lost(ds, marks);
    if Explains(ds, ps, s, marks, bs, d) {
      forall i, q | 0 <= i < |lost| && 0 <= q < bs ensures d[lost[i]][q] == b[i][q] {
        EquationsMeanParity(ds, ps, m, s, marks, bs, d, q);
        assert Select(Column(d, q), lost)[i] == Column(b, q)[i];
      }
      forall i | 0 <= i < ds ensures d[i] == r[i] {
        if marks[i] {
          var k := IndicesComplete(marks, 0, ds, true, i);
          assert d[i] == b[k];
        }
      }
      assert d == r;
    }
    if d == r {
      forall i, q | 0 <= i < |lost| && 0 <= q < bs
        ensures ParityMet(ds, ps, s, Spare(ds, ps, marks)[i], bs, d, q)
      {
        assert Select(Column(d, q), lost) == Column(b, q);
        EquationsMeanParity(ds, ps, m, s, marks, bs, d, q);
      }
    }
  }
}
