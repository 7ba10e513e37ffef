// Systems of linear equations over bytes and the row operations that keep their solutions.
module LinearSystem {
  import opened Field

  type Vec = seq<Byte>

  function Axpy(a: Vec, b: Vec, u: Byte): Vec
    requires |a| == |b|
  {
    seq(|a|, i requires 0 <= i < |a| => Plus(a[i], Times(u, b[i])))
  }

  function Scale(a: Vec, u: Byte): Vec {
    seq(|a|, i requires 0 <= i < |a| => Times(u, a[i]))
  }

  function Dot(r: Vec, x: Vec): Byte
    requires |r| == |x|
  {
    if r == [] then ZERO
    else Plus(Dot(r[..|r| - 1], x[..|r| - 1]), Times(r[|r| - 1], x[|r| - 1]))
  }

  lemma {:induction false} DotAxpy(a: Vec, b: Vec, u: Byte, x: Vec)
    requires |a| == |b| == |x|
    ensures Dot(Axpy(a, b, u), x) == Plus(Dot(a, x), Times(u, Dot(b, x)))
  {
    hide Plus, Times;
    if a == [] {
      TimesZero(u);
      PlusZero(ZERO);
    } else {
      var n := |a| - 1;
      var a', b', x' := a[..n], b[..n], x[..n];
      DotAxpy(a', b', u, x');
      assert Axpy(a, b, u)[..n] == Axpy(a', b', u);
      TimesPlus(x[n], a[n], Times(u, b[n]));
      TimesAssoc(u, b[n], x[n]);
      TimesPlus(u, Dot(b', x'), Times(b[n], x[n]));
      PlusSwap(Dot(a', x'), Times(u, Dot(b', x')), Times(a[n], x[n]), Times(u, Times(b[n], x[n])));
    }
  }

  lemma {:induction false} DotScale(a: Vec, u: Byte, x: Vec)
    requires |a| == |x|
    ensures Dot(Scale(a, u), x) == Times(u, Dot(a, x))
  {
    hide Plus, Times;
    if a == [] {
      TimesZero(u);
    } else {
      var n := |a| - 1;
      var a', x' := a[..n], x[..n];
      DotScale(a', u, x');
      assert Scale(a, u)[..n] == Scale(a', u);
      TimesAssoc(u, a[n], x[n]);
      TimesPlus(u, Dot(a', x'), Times(a[n], x[n]));
    }
  }

  ghost predicate UnitRow(r: Vec, k: int) {
    forall j :: 0 <= j < |r| ==> r[j] == if j == k then ONE else ZERO
  }

  lemma {:induction false} DotUnit(r: Vec, k: int, x: Vec)
    requires |r| == |x| && UnitRow(r, k)
    ensures Dot(r, x) == if 0 <= k < |x| then x[k] else ZERO
  {
    hide Plus, Times;
    if r != [] {
      var n := |r| - 1;
      DotUnit(r[..n], k, x[..n]);
      TimesZero(x[n]);
      TimesOne(x[n]);
      PlusZero(x[n]);
      PlusZero(Dot(r[..n], x[..n]));
      PlusZero(ZERO);
    }
  }

  // ----- systems

  // A square matrix given by its rows.
  ghost predicate Square(a: seq<Vec>) {
    forall i :: 0 <= i < |a| ==> |a[i]| == |a|
  }

  ghost predicate Solves(a: seq<Vec>, b: Vec, x: Vec)
    requires Square(a) && |b| == |a| == |x|
  {
    forall i :: 0 <= i < |a| ==> Dot(a[i], x) == b[i]
  }

  lemma SolvesRowAdd(a: seq<Vec>, b: Vec, x: Vec, r: nat, s: nat, u: Byte)
    requires Square(a) && |b| == |a| == |x| && r < |a| && s < |a| && r != s
    ensures var a' := a[r := Axpy(a[r], a[s], u)];
      Square(a') && (Solves(a', b[r := Plus(b[r], Times(u, b[s]))], x) <==> Solves(a, b, x))
  {
    hide Plus, Times, Dot, Axpy;
    var row := Axpy(a[r], a[s], u);
    assert |row| == |a| by { AxpyLength(a[r], a[s], u); }
    var a', b' := a[r := row], b[r := Plus(b[r], Times(u, b[s]))];
    DotAxpy(a[r], a[s], u, x);
    PlusCancel(Dot(a[r], x), Times(u, b[s]));
    PlusCancel(b[r], Times(u, b[s]));
    if Solves(a', b', x) {
      assert a'[s] == a[s] && a'[r] == row;
      forall i | 0 <= i < |a| ensures Dot(a[i], x) == b[i] {
        assert Dot(a'[i], x) == b'[i];
      }
    }
    if Solves(a, b, x) {
      forall i | 0 <= i < |a| ensures Dot(a'[i], x) == b'[i] {
        assert Dot(a[i], x) == b[i];
      }
    }
  }

  lemma AxpyLength(a: Vec, b: Vec, u: Byte)
    requires |a| == |b|
    ensures |Axpy(a, b, u)| == |a|
  {}

  lemma SolvesRowScale(a: seq<Vec>, b: Vec, x: Vec, r: nat, u: Byte)
    requires Square(a) && |b| == |a| == |x| && r < |a| && u != ZERO
    ensures var a' := a[r := Scale(a[r], u)];
      Square(a') && (Solves(a', b[r := Times(u, b[r])], x) <==> Solves(a, b, x))
  {
    hide Plus, Times, Dot;
    var a', b' := a[r := Scale(a[r], u)], b[r := Times(u, b[r])];
    DotScale(a[r], u, x);
    TimesCancel(u, Dot(a[r], x), b[r]);
    if Solves(a', b', x) {
      forall i | 0 <= i < |a| ensures Dot(a[i], x) == b[i] {
        assert Dot(a'[i], x) == b'[i];
      }
    }
    if Solves(a, b, x) {
      forall i | 0 <= i < |a| ensures Dot(a'[i], x) == b'[i] {
        assert Dot(a[i], x) == b[i];
      }
    }
  }

  // ----- one system per byte position, all with the same matrix

  ghost predicate Blocks(b: seq<Vec>, n: nat, t: nat) {
    |b| == n && forall i :: 0 <= i < n ==> |b[i]| == t
  }

  // The bytes of all blocks at position p.
  ghost function Column(b: seq<Vec>, p: nat): (c: Vec)
    requires forall i :: 0 <= i < |b| ==> p < |b[i]|
    ensures |c| == |b|
  {
    seq(|b|, i requires 0 <= i < |b| => b[i][p])
  }

  // Both systems have the same solutions at every byte position.
  ghost predicate SameSolutions(a: seq<Vec>, b: seq<Vec>, a': seq<Vec>, b': seq<Vec>, t: nat)
  {
    && Square(a) && Square(a') && |a'| == |a|
    && Blocks(b, |a|, t) && Blocks(b', |a|, t)
    && forall p, x: Vec :: 0 <= p < t && |x| == |a| ==> (Solves(a', Column(b', p), x) <==> Solves(a, Column(b, p), x))
  }

  lemma SameRowAdd(a: seq<Vec>, b: seq<Vec>, r: nat, s: nat, u: Byte, t: nat)
    requires Square(a) && Blocks(b, |a|, t) && r < |a| && s < |a| && r != s
    ensures SameSolutions(a, b, a[r := Axpy(a[r], a[s], u)], b[r := Axpy(b[r], b[s], u)], t)
  {
    hide Plus, Times, Dot, Solves;
    var a', b' := a[r := Axpy(a[r], a[s], u)], b[r := Axpy(b[r], b[s], u)];
    forall p, x: Vec | 0 <= p < t && |x| == |a|
      ensures Solves(a', Column(b', p), x) <==> Solves(a, Column(b, p), x)
    {
      var c := Column(b, p);
      SolvesRowAdd(a, c, x, r, s, u);
      assert Column(b', p) == c[r := Plus(c[r], Times(u, c[s]))];
    }
  }

  lemma SameRowScale(a: seq<Vec>, b: seq<Vec>, r: nat, u: Byte, t: nat)
    requires Square(a) && Blocks(b, |a|, t) && r < |a| && u != ZERO
    ensures SameSolutions(a, b, a[r := Scale(a[r], u)], b[r := Scale(b[r], u)], t)
  {
    hide Plus, Times, Dot, Solves;
    var a', b' := a[r := Scale(a[r], u)], b[r := Scale(b[r], u)];
    forall p, x: Vec | 0 <= p < t && |x| == |a|
      ensures Solves(a', Column(b', p), x) <==> Solves(a, Column(b, p), x)
    {
      var c := Column(b, p);
      SolvesRowScale(a, c, x, r, u);
      assert Column(b', p) == c[r := Times(u, c[r])];
    }
  }

  lemma SameTrans(a: seq<Vec>, b: seq<Vec>, a': seq<Vec>, b': seq<Vec>, a'': seq<Vec>, b'': seq<Vec>, t: nat)
    requires SameSolutions(a, b, a', b', t) && SameSolutions(a', b', a'', b'', t)
    ensures SameSolutions(a, b, a'', b'', t)
  {
    hide Solves;
    forall p, x: Vec | 0 <= p < t && |x| == |a|
      ensures Solves(a'', Column(b'', p), x) <==> Solves(a, Column(b, p), x)
    {
      assert Solves(a', Column(b', p), x) <==> Solves(a, Column(b, p), x);
    }
  }

  ghost predicate Identity(a: seq<Vec>) {
    Square(a) && forall i :: 0 <= i < |a| ==> UnitRow(a[i], i)
  }

  lemma SolvesIdentity(a: seq<Vec>, b: Vec, x: Vec)
    requires Identity(a) && |b| == |a| == |x|
    ensures Solves(a, b, x) <==> x == b
  {
    hide Dot;
    forall i | 0 <= i < |a| ensures Dot(a[i], x) == x[i] { DotUnit(a[i], i, x); }
    if Solves(a, b, x) {
      forall i | 0 <= i < |a| ensures x[i] == b[i] { assert Dot(a[i], x) == b[i]; }
    }
  }

  // A system reduced to the identity has exactly one solution: its right-hand side.
  lemma ReducedIsUnique(a: seq<Vec>, b: seq<Vec>, a': seq<Vec>, b': seq<Vec>, t: nat, p: nat, x: Vec)
    requires SameSolutions(a, b, a', b', t) && Identity(a') && p < t && |x| == |a|
    ensures Solves(a, Column(b, p), x) <==> x == Column(b', p)
  {
    hide Solves;
    SolvesIdentity(a', Column(b', p), x);
    assert Solves(a', Column(b', p), x) <==> Solves(a, Column(b, p), x);
  }
}
