// What the two passes of the decoder do to the matrix: the forward pass takes a Cauchy
// matrix to a unit upper triangle without choosing pivots, the backward pass clears the
// rest, and neither changes the solutions.
module Elimination {
  import opened Field
  import opened LinearSystem
  import opened Cauchy

  // ----- forward pass

  ghost predicate RowAtStage(row: Vec, xs: Vec, ys: Vec, s: nat, r: nat)
    requires |xs| == |ys| && s <= |xs| && r < |xs|
  {
    && |row| == |xs|
    && (forall c :: 0 <= c < s ==> row[c] == ZERO)
    && (forall c :: s <= c < |xs| ==> row[c] == Entry(xs, ys, s, r, c))
  }

  ghost predicate RowDone(row: Vec, r: nat) {
    && r < |row|
    && row[r] == ONE
    && forall c :: 0 <= c < r ==> row[c] == ZERO
  }

  // The state before step s: rows above s are finished, the others have their closed form.
  ghost predicate Forward(a: seq<Vec>, xs: Vec, ys: Vec, s: nat) {
    && Square(a) && |a| == |xs| == |ys| && s <= |a|
    && (forall r :: 0 <= r < s ==> RowDone(a[r], r))
    && (forall r :: s <= r < |a| ==> RowAtStage(a[r], xs, ys, s, r))
  }

  // The state inside step s: the pivot row is normalised, rows s + 1 up to n are cleared.
  ghost predicate ForwardMid(a: seq<Vec>, xs: Vec, ys: Vec, s: nat, n: nat) {
    && Square(a) && |a| == |xs| == |ys| && s < n <= |a|
    && (forall r :: 0 <= r <= s ==> RowDone(a[r], r))
    && (forall c :: s <= c < |a| ==> a[s][c] == Times(Recip(Entry(xs, ys, s, s, s)), Entry(xs, ys, s, s, c)))
    && (forall r :: s < r < n ==> RowAtStage(a[r], xs, ys, s + 1, r))
    && (forall r :: n <= r < |a| ==> RowAtStage(a[r], xs, ys, s, r))
  }

  lemma NormalisePivot(a: seq<Vec>, xs: Vec, ys: Vec, s: nat)
    requires Points(xs, ys) && Forward(a, xs, ys, s) && s < |a|
    ensures a[s][s] != ZERO && Recip(a[s][s]) != ZERO
    ensures ForwardMid(a[s := Scale(a[s], Recip(a[s][s]))], xs, ys, s, s + 1)
  {
    hide Times, Recip, Entry;
    EntryNonZero(xs, ys, s, s, s);
    var u := Recip(a[s][s]);
    TimesRecip(a[s][s]);
    TimesZero(u);
    var a' := a[s := Scale(a[s], u)];
    assert RowDone(a'[s], s);
    forall r | 0 <= r <= s ensures RowDone(a'[r], r) {}
    forall r | s + 1 <= r < |a| ensures RowAtStage(a'[r], xs, ys, s, r) {}
  }

  lemma ClearRow(a: seq<Vec>, xs: Vec, ys: Vec, s: nat, n: nat)
    requires Points(xs, ys) && ForwardMid(a, xs, ys, s, n) && n < |a|
    ensures ForwardMid(a[n := Axpy(a[n], a[s], a[n][s])], xs, ys, s, n + 1)
  {
    hide Plus, Times, Recip, Entry;
    var u := a[n][s];
    var row := Axpy(a[n], a[s], u);
    forall c | 0 <= c <= s ensures row[c] == ZERO {
      if c < s {
        TimesZero(u);
        PlusZero(ZERO);
      } else {
        TimesOne(u);
        PlusSelf(u);
      }
    }
    forall c | s < c < |a| ensures row[c] == Entry(xs, ys, s + 1, n, c) {
      EntryStep(xs, ys, s, n, c);
    }
    var a' := a[n := row];
    assert RowAtStage(a'[n], xs, ys, s + 1, n);
    forall r | s < r < n + 1 ensures RowAtStage(a'[r], xs, ys, s + 1, r) {}
    forall r | n + 1 <= r < |a| ensures RowAtStage(a'[r], xs, ys, s, r) {}
  }

  lemma StepFinished(a: seq<Vec>, xs: Vec, ys: Vec, s: nat)
    requires ForwardMid(a, xs, ys, s, |a|)
    ensures Forward(a, xs, ys, s + 1)
  {}

  // ----- backward pass

  // A unit upper triangle.
  ghost predicate Upper(a: seq<Vec>) {
    Square(a) && forall r :: 0 <= r < |a| ==> RowDone(a[r], r)
  }

  lemma ForwardEnds(a: seq<Vec>, xs: Vec, ys: Vec)
    requires Forward(a, xs, ys, |a|)
    ensures Upper(a)
  {}

  // Columns right of x are cleared above the diagonal, and column x in its first n rows.
  ghost predicate Back(a: seq<Vec>, g: seq<Vec>, x: int, n: nat) {
    && Square(a) && Square(g) && |g| == |a|
    && forall i, c :: 0 <= i < |a| && 0 <= c < |a| ==>
         g[i][c] == if i == c then ONE
                    else if c < i || x < c || (c == x && i < n) then ZERO
                    else a[i][c]
  }

  lemma BackStart(a: seq<Vec>)
    requires Upper(a)
    ensures Back(a, a, |a| - 1, 0)
  {
    forall i | 0 <= i < |a| ensures RowDone(a[i], i) {}
  }

  lemma BackClear(a: seq<Vec>, g: seq<Vec>, x: nat, n: nat)
    requires Back(a, g, x, n) && n < x < |a|
    ensures Back(a, g[n := Axpy(g[n], g[x], a[n][x])], x, n + 1)
  {
    hide Plus, Times;
    var u := a[n][x];
    var row := Axpy(g[n], g[x], u);
    forall c | 0 <= c < |a|
      ensures row[c] == if c == x then ZERO else g[n][c]
    {
      TimesZero(u);
      TimesOne(u);
      PlusZero(g[n][c]);
      PlusSelf(u);
    }
  }

  lemma BackNext(a: seq<Vec>, g: seq<Vec>, x: nat)
    requires Back(a, g, x, x) && x < |a|
    ensures Back(a, g, x as int - 1, 0)
  {}

  lemma BackEnds(a: seq<Vec>, g: seq<Vec>)
    requires Back(a, g, -1, 0)
    ensures Identity(g)
  {
    forall i | 0 <= i < |g| ensures UnitRow(g[i], i) {}
  }
}
