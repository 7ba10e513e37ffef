// What the erasure code can do at best: the data are determined by the surviving shards
// exactly when no more data shards are lost than parity shards survive. So the decoder gives
// up only where every decoder would have to.
module Mds {
  import opened Field
  import opened LinearSystem
  import opened Cauchy
  import opened Elimination
  import opened RsKernel
  import opened RsSolve
  import opened ErasureCode
  import ReedSolomon

  // ----- a Cauchy system has one solution, whatever the right-hand side

  lemma {:induction false} ClearRows(a1: seq<Vec>, b1: seq<Vec>, xs: Vec, ys: Vec, s: nat, n: nat, t: nat)
    returns (a: seq<Vec>, b: seq<Vec>)
    requires Points(xs, ys) && ForwardMid(a1, xs, ys, s, n) && Blocks(b1, |a1|, t)
    ensures |a| == |a1| && SameSolutions(a1, b1, a, b, t) && ForwardMid(a, xs, ys, s, |a1|)
    decreases |a1| - n
  {
    hide Plus, Times, Recip, Entry, Solves;
    if n == |a1| {
      a, b := a1, b1;
    } else {
      var u := a1[n][s];
      SameRowAdd(a1, b1, n, s, u, t);
      ClearRow(a1, xs, ys, s, n);
      var a2, b2 := a1[n := LinearSystem.Axpy(a1[n], a1[s], u)], b1[n := LinearSystem.Axpy(b1[n], b1[s], u)];
      a, b := ClearRows(a2, b2, xs, ys, s, n + 1, t);
      SameTrans(a1, b1, a2, b2, a, b, t);
    }
  }

  lemma {:induction false} Triangle(a1: seq<Vec>, b1: seq<Vec>, xs: Vec, ys: Vec, s: nat, t: nat)
    returns (a: seq<Vec>, b: seq<Vec>)
    requires Points(xs, ys) && Forward(a1, xs, ys, s) && Blocks(b1, |a1|, t)
    ensures |a| == |a1| && SameSolutions(a1, b1, a, b, t) && Upper(a)
    decreases |a1| - s
  {
    hide Plus, Times, Recip, Entry, Solves, Scale;
    if s == |a1| {
      ForwardEnds(a1, xs, ys);
      a, b := a1, b1;
    } else {
      var u := Recip(a1[s][s]);
      NormalisePivot(a1, xs, ys, s);
      SameRowScale(a1, b1, s, u, t);
      var a2, b2 := a1[s := Scale(a1[s], u)], b1[s := Scale(b1[s], u)];
      var a3, b3 := ClearRows(a2, b2, xs, ys, s, s + 1, t);
      SameTrans(a1, b1, a2, b2, a3, b3, t);
      StepFinished(a3, xs, ys, s);
      a, b := Triangle(a3, b3, xs, ys, s + 1, t);
      SameTrans(a1, b1, a3, b3, a, b, t);
    }
  }

  lemma {:induction false} ClearColumn(a1: seq<Vec>, g1: seq<Vec>, b1: seq<Vec>, x: nat, n: nat, t: nat)
    returns (g: seq<Vec>, b: seq<Vec>)
    requires Back(a1, g1, x, n) && n <= x < |a1| && Blocks(b1, |a1|, t)
    ensures |g| == |g1| && SameSolutions(g1, b1, g, b, t) && Back(a1, g, x, x)
    decreases x - n
  {
    hide Plus, Times, Solves;
    if n == x {
      g, b := g1, b1;
    } else {
      var u := a1[n][x];
      BackClear(a1, g1, x, n);
      SameRowAdd(g1, b1, n, x, u, t);
      var g2, b2 := g1[n := LinearSystem.Axpy(g1[n], g1[x], u)], b1[n := LinearSystem.Axpy(b1[n], b1[x], u)];
      g, b := ClearColumn(a1, g2, b2, x, n + 1, t);
      SameTrans(g1, b1, g2, b2, g, b, t);
    }
  }

  lemma {:induction false} Diagonal(a1: seq<Vec>, g1: seq<Vec>, b1: seq<Vec>, x: nat, t: nat)
    returns (g: seq<Vec>, b: seq<Vec>)
    requires Back(a1, g1, x as int - 1, 0) && x <= |a1| && Blocks(b1, |a1|, t)
    ensures |g| == |g1| && SameSolutions(g1, b1, g, b, t) && Identity(g)
    decreases x
  {
    hide Plus, Times, Solves;
    if x == 0 {
      BackEnds(a1, g1);
      g, b := g1, b1;
    } else {
      var g2, b2 := ClearColumn(a1, g1, b1, x - 1, 0, t);
      BackNext(a1, g2, x - 1);
      g, b := Diagonal(a1, g2, b2, x - 1, t);
      SameTrans(g1, b1, g2, b2, g, b, t);
    }
  }

  // A Cauchy matrix is regular: every right-hand side has exactly one solution.
  lemma CauchyIsRegular(a: seq<Vec>, rhs: seq<Vec>, xs: Vec, ys: Vec, t: nat) returns (b: seq<Vec>)
    requires CauchyAt(a, xs, ys) && Blocks(rhs, |a|, t)
    ensures Blocks(b, |a|, t)
    ensures forall q, x: Vec :: 0 <= q < t && |x| == |a| ==> (Solves(a, Column(rhs, q), x) <==> x == Column(b, q))
  {
    hide Plus, Times, Recip, Entry, Solves, Dot;
    CauchyStarts(a, xs, ys);
    var a2, b2 := Triangle(a, rhs, xs, ys, 0, t);
    BackStart(a2);
    var g, b3 := Diagonal(a2, a2, b2, |a2|, t);
    SameTrans(a, rhs, a2, b2, g, b3, t);
    b := b3;
    forall q, x: Vec | 0 <= q < t && |x| == |a| ensures Solves(a, Column(rhs, q), x) <==> x == Column(b, q) {
      ReducedIsUnique(a, rhs, g, b, t, q, x);
    }
  }

  // ----- survivors that suffice leave one explanation

  lemma {:induction false} MatrixExists(ds: nat, ps: nat, n: nat) returns (m: Vec)
    requires Dimensions(ds, ps) && n <= ps
    ensures ReedSolomon.RowsDone(m, ds, ps, n)
  {
    if n == 0 {
      m := [];
    } else {
      m := MatrixExists(ds, ps, n - 1);
      ReedSolomon.RowsDoneNext(m, ds, ps, n - 1, CoefRow(ds, ps, n - 1));
      m := m + CoefRow(ds, ps, n - 1);
    }
  }

  // The shards r with the blocks b in the places of the lost data shards.
  function Patched(s: seq<Vec>, ds: nat, lost: seq<nat>, b: seq<Vec>, n: nat): (r: seq<Vec>)
    requires ds <= |s| && n <= |lost| == |b| && Below(lost, ds)
    ensures |r| == ds
  {
    if n == 0 then s[..ds] else Patched(s, ds, lost, b, n - 1)[lost[n - 1] := b[n - 1]]
  }

  lemma {:induction false} PatchedAt(s: seq<Vec>, ds: nat, lost: seq<nat>, b: seq<Vec>, n: nat)
    requires ds <= |s| && n <= |lost| == |b| && Below(lost, ds)
    requires forall i, j :: 0 <= i < j < |lost| ==> lost[i] < lost[j]
    ensures forall i :: 0 <= i < n ==> Patched(s, ds, lost, b, n)[lost[i]] == b[i]
    ensures forall l :: 0 <= l < ds && l !in lost ==> Patched(s, ds, lost, b, n)[l] == s[l]
    ensures forall l :: 0 <= l < ds ==> Patched(s, ds, lost, b, n)[l] == s[l] || Patched(s, ds, lost, b, n)[l] in b
  {
    if n > 0 { PatchedAt(s, ds, lost, b, n - 1); }
  }

  lemma MatrixIsComplete(m: Vec, ds: nat, ps: nat)
    requires Dimensions(ds, ps) && ReedSolomon.RowsDone(m, ds, ps, ps)
    ensures CodecMatrix(m, ds, ps)
  {
    hide RowHolds, RowAt;
  }

  lemma Selected(s: seq<Vec>, index: seq<nat>, bs: nat)
    requires Blocks(s, |s|, bs) && Below(index, |s|)
    ensures Blocks(Select(s, index), |index|, bs)
  {}

  // The right-hand side of the system for the lost shards, and its solution.
  lemma SolveLost(ds: nat, ps: nat, m: Vec, s: seq<Vec>, marks: seq<bool>, bs: nat) returns (b: seq<Vec>)
    requires Dimensions(ds, ps) && CodecMatrix(m, ds, ps) && Blocks(s, ds + ps, bs)
    requires ds + ps <= |marks| && Recoverable(ds, ps, marks)
    ensures var known, lost := Indices(marks, 0, ds, false), Lost(ds, marks);
      var spare := Spare(ds, ps, marks)[..|lost|];
      Blocks(b, |lost|, bs) && RowsFit(m, ds, spare) &&
      forall q, x: Vec :: 0 <= q < bs && |x| == |lost| ==>
        (Equations(m, ds, spare, known, lost, Select(s, known), Select(s[ds..], spare), bs, q, x)
         <==> x == Column(b, q))
  {
    hide CodecMatrix, LostMatrix, CauchyAt, Indices, Equations, Solves, Select, LostRows, LostCols;
    var known, lost := Indices(marks, 0, ds, false), Lost(ds, marks);
    var spare := Spare(ds, ps, marks)[..|lost|];
    var xs, ys := LostRows(ds, ps, marks), LostCols(ds, ps, marks);
    LostSystem(ds, ps, m, marks);
    Selected(s, known, bs);
    Selected(s[ds..], spare, bs);
    var kb, parity := Select(s, known), Select(s[ds..], spare);
    var a, rhs := LostMatrix(m, ds, spare, lost), AllKnownAdded(m, ds, spare, known, kb, parity, bs);
    b := CauchyIsRegular(a, rhs, xs, ys, bs);
    forall q, x: Vec | 0 <= q < bs && |x| == |lost|
      ensures Equations(m, ds, spare, known, lost, kb, parity, bs, q, x) <==> x == Column(b, q)
    {
      EquationsAreSystem(m, ds, spare, known, lost, kb, parity, bs, q, x);
    }
  }

  // Exactly one data explains the survivors, if there are enough of them.
  lemma UniqueExplanation(ds: nat, ps: nat, s: seq<Vec>, marks: seq<bool>, bs: nat) returns (r: seq<Vec>)
    requires Dimensions(ds, ps) && Blocks(s, ds + ps, bs) && ds + ps <= |marks| && Recoverable(ds, ps, marks)
    ensures forall d :: Explains(ds, ps, s, marks, bs, d) <==> d == r
  {
    hide CodecMatrix, Indices, Equations, Explains, Select, ReedSolomon.RowsDone, Recoverable, Patched;
    var m := MatrixExists(ds, ps, ps);
    MatrixIsComplete(m, ds, ps);
    var b := SolveLost(ds, ps, m, s, marks, bs);
    var lost := Lost(ds, marks);
    r := Patched(s, ds, lost, b, |lost|);
    PatchedAt(s, ds, lost, b, |lost|);
    forall d ensures Explains(ds, ps, s, marks, bs, d) <==> d == r {
      SolutionExplains(ds, ps, m, s, marks, bs, b, r, d);
    }
  }

  // ----- and too few leave several

  ghost function Encoded(ds: nat, ps: nat, d: seq<Vec>, bs: nat): (c: seq<Vec>)
    requires Dimensions(ds, ps) && Blocks(d, ds, bs)
    ensures Blocks(c, ds + ps, bs) && c[..ds] == d
  {
    d + seq(ps, j requires 0 <= j < ps =>
      seq(bs, q requires 0 <= q < bs => Dot(CoefRow(ds, ps, j), Column(d, q))))
  }

  lemma EncodedIsCodeword(ds: nat, ps: nat, d: seq<Vec>, bs: nat)
    requires Dimensions(ds, ps) && Blocks(d, ds, bs)
    ensures Codeword(ds, ps, Encoded(ds, ps, d, bs), bs)
  {
    hide Dot, CoefRow;
  }

  // All marks on data shards from position k on removed.
  function Restored(marks: seq<bool>, ds: nat, k: nat): (r: seq<bool>)
    ensures |r| == |marks|
  {
    seq(|marks|, i requires 0 <= i < |marks| => marks[i] && (i < k || ds <= i))
  }

  lemma {:induction false} IndicesAgree(marks: seq<bool>, other: seq<bool>, lo: nat, hi: nat, want: bool)
    requires lo <= hi <= |marks| == |other| && forall i :: lo <= i < hi ==> marks[i] == other[i]
    ensures Indices(marks, lo, hi, want) == Indices(other, lo, hi, want)
    decreases hi
  {
    if lo < hi { IndicesAgree(marks, other, lo, hi - 1, want); }
  }

  // The marked position that has exactly n marked ones before it.
  lemma {:induction false} FindMarked(marks: seq<bool>, hi: nat, n: nat) returns (k: nat)
    requires hi <= |marks| && n < |Indices(marks, 0, hi, true)|
    ensures k < hi && marks[k] && |Indices(marks, 0, k, true)| == n
    decreases hi
  {
    if n < |Indices(marks, 0, hi - 1, true)| {
      k := FindMarked(marks, hi - 1, n);
    } else {
      k := hi - 1;
    }
  }

  lemma RestoredRecoverable(ds: nat, ps: nat, marks: seq<bool>, k: nat)
    requires ds + ps <= |marks| && k < ds && |Indices(marks, 0, k, true)| == |Spare(ds, ps, marks)|
    ensures Recoverable(ds, ps, Restored(marks, ds, k))
    ensures |Lost(ds, Restored(marks, ds, k))| == |Spare(ds, ps, marks)|
    ensures Spare(ds, ps, Restored(marks, ds, k)) == Spare(ds, ps, marks)
  {
    var rest := Restored(marks, ds, k);
    IndicesAgree(marks, rest, ds, ds + ps, false);
    IndicesAgree(marks, rest, 0, k, true);
    IndicesNone(rest, k, ds);
    IndicesSplit(rest, 0, k, ds, true);
  }

  ghost predicate Agree(c: seq<Vec>, c': seq<Vec>, marks: seq<bool>) {
    |c| == |c'| <= |marks| && forall i :: 0 <= i < |c| && !marks[i] ==> c[i] == c'[i]
  }

  // Codewords that look the same where nothing is marked carry the same data.
  ghost predicate Determined(ds: nat, ps: nat, marks: seq<bool>, bs: nat)
    requires Dimensions(ds, ps)
  {
    forall c, c' :: Codeword(ds, ps, c, bs) && Codeword(ds, ps, c', bs) && Agree(c, c', marks) ==> c[..ds] == c'[..ds]
  }

  lemma EnoughDetermines(ds: nat, ps: nat, marks: seq<bool>, bs: nat)
    requires Dimensions(ds, ps) && ds + ps <= |marks| && Recoverable(ds, ps, marks)
    ensures Determined(ds, ps, marks, bs)
  {
    hide Explains, Recoverable;
    forall c, c' | Codeword(ds, ps, c, bs) && Codeword(ds, ps, c', bs) && Agree(c, c', marks)
      ensures c[..ds] == c'[..ds]
    {
      var r := UniqueExplanation(ds, ps, c, marks, bs);
      CodewordExplains(ds, ps, c, c, marks, bs);
      CodewordExplains(ds, ps, c', c, marks, bs);
    }
  }

  // With too few parity shards two codewords that differ in a lost shard look the same.
  lemma TooFewConfuse(ds: nat, ps: nat, marks: seq<bool>, bs: nat) returns (c: seq<Vec>, c': seq<Vec>)
    requires Dimensions(ds, ps) && ds + ps <= |marks| && !Recoverable(ds, ps, marks) && bs > 0
    ensures Codeword(ds, ps, c, bs) && Codeword(ds, ps, c', bs) && Agree(c, c', marks) && c[..ds] != c'[..ds]
  {
    hide Indices, Spare, Restored, Dot, CoefRow, Explains;
    var zeros, ones := seq(bs, _ => ZERO), seq(bs, _ => ONE);
    var d: seq<Vec> := seq(ds, _ => zeros);
    c := Encoded(ds, ps, d, bs);
    EncodedIsCodeword(ds, ps, d, bs);
    var k := FindMarked(marks, ds, |Spare(ds, ps, marks)|);
    RestoredRecoverable(ds, ps, marks, k);
    var s := c[k := ones];
    var r := UniqueExplanation(ds, ps, s, Restored(marks, ds, k), bs);
    assert Explains(ds, ps, s, Restored(marks, ds, k), bs, r);
    assert zeros[0] != ones[0];
    c' := Confused(ds, ps, c, s, marks, k, bs, r);
  }

  lemma Confused(ds: nat, ps: nat, c: seq<Vec>, s: seq<Vec>, marks: seq<bool>, k: nat, bs: nat, r: seq<Vec>)
    returns (c': seq<Vec>)
    requires Dimensions(ds, ps) && ds + ps <= |marks| && Codeword(ds, ps, c, bs) && k < ds && marks[k]
    requires |Indices(marks, 0, k, true)| == |Spare(ds, ps, marks)|
    requires Blocks(s, ds + ps, bs) && s[k] != c[k] && forall i :: 0 <= i < ds + ps && i != k ==> s[i] == c[i]
    requires Recoverable(ds, ps, Restored(marks, ds, k)) && Explains(ds, ps, s, Restored(marks, ds, k), bs, r)
    ensures Codeword(ds, ps, c', bs) && Agree(c, c', marks) && c[..ds] != c'[..ds]
  {
    hide Indices, Spare, Lost, Dot, CoefRow, Recoverable;
    c' := Encoded(ds, ps, r, bs);
    EncodedIsCodeword(ds, ps, r, bs);
    var rest := Restored(marks, ds, k);
    RestoredRecoverable(ds, ps, marks, k);
    assert !rest[k] && c'[k] == r[k] == s[k];
    forall i | 0 <= i < ds + ps && !marks[i] ensures c[i] == c'[i] {
      assert !rest[i];
      if i < ds {
        assert c'[i] == r[i] == s[i];
      } else {
        var l := SpareComplete(ds, ps, rest, i - ds);
        forall q | 0 <= q < bs ensures c[i][q] == c'[i][q] {
          assert ParityMet(ds, ps, s, Spare(ds, ps, rest)[l], bs, r, q);
        }
      }
    }
    assert c[..ds][k] != c'[..ds][k];
  }

  lemma SpareComplete(ds: nat, ps: nat, marks: seq<bool>, j: nat) returns (l: nat)
    requires ds + ps <= |marks| && j < ps && !marks[ds + j]
    ensures l < |Spare(ds, ps, marks)| && Spare(ds, ps, marks)[l] == j
  {
    l := IndicesComplete(marks, ds, ds + ps, false, ds + j);
  }

  // The data are determined by the surviving shards exactly when the decoder recovers them.
  lemma RecoverableExactly(ds: nat, ps: nat, marks: seq<bool>, bs: nat)
    requires Dimensions(ds, ps) && ds + ps <= |marks| && bs > 0
    ensures Recoverable(ds, ps, marks) <==> Determined(ds, ps, marks, bs)
  {
    hide Recoverable, Codeword;
    if Recoverable(ds, ps, marks) {
      EnoughDetermines(ds, ps, marks, bs);
    } else {
      var c, c' := TooFewConfuse(ds, ps, marks, bs);
    }
  }
}
