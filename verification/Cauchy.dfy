// Elimination of a Cauchy matrix: the entry left at (r, c) after s steps has a closed
// form, and no pivot is ever zero.
module Cauchy {
  import opened Field

  // The points of a Cauchy matrix: entry (r, c) is 1 / (xs[r] + ys[c]).
  ghost predicate Points(xs: seq<Byte>, ys: seq<Byte>) {
    && |xs| == |ys|
    && (forall i, j :: 0 <= i < j < |xs| ==> xs[i] != xs[j])
    && (forall i, j :: 0 <= i < j < |ys| ==> ys[i] != ys[j])
    && (forall i, j :: 0 <= i < |xs| && 0 <= j < |ys| ==> xs[i] != ys[j])
  }

  ghost function RowFactor(xs: seq<Byte>, ys: seq<Byte>, s: nat, r: nat): Byte
    requires |xs| == |ys| && s <= |xs| && r < |xs|
  {
    if s == 0 then ONE
    else Times(RowFactor(xs, ys, s - 1, r), Times(Plus(xs[r], xs[s - 1]), Recip(Plus(xs[r], ys[s - 1]))))
  }

  ghost function ColFactor(xs: seq<Byte>, ys: seq<Byte>, s: nat, c: nat): Byte
    requires |xs| == |ys| && s <= |xs| && c < |xs|
  {
    if s == 0 then ONE
    else Times(ColFactor(xs, ys, s - 1, c), Times(Plus(ys[c], ys[s - 1]), Recip(Plus(xs[s - 1], ys[c]))))
  }

  // The entry at (r, c) after s elimination steps, for r >= s and c >= s.
  ghost function Entry(xs: seq<Byte>, ys: seq<Byte>, s: nat, r: nat, c: nat): Byte
    requires |xs| == |ys| && s <= |xs| && r < |xs| && c < |xs|
  {
    Times(Times(RowFactor(xs, ys, s, r), ColFactor(xs, ys, s, c)), Recip(Plus(xs[r], ys[c])))
  }

  lemma EntryStart(xs: seq<Byte>, ys: seq<Byte>, r: nat, c: nat)
    requires |xs| == |ys| && r < |xs| && c < |xs|
    ensures Entry(xs, ys, 0, r, c) == Recip(Plus(xs[r], ys[c]))
  {
    hide Times, Plus, Recip;
    TimesOne(ONE);
    TimesOne(Recip(Plus(xs[r], ys[c])));
  }

  // ----- no zero pivot

  lemma RatioNonZero(a: Byte, b: Byte, c: Byte)
    requires a != b && a != c
    ensures Times(Plus(a, b), Recip(Plus(a, c))) != ZERO
    ensures Times(Plus(a, b), Recip(Plus(c, a))) != ZERO
  {
    hide Times, Plus, Recip;
    PlusCancel(a, b);
    PlusCancel(a, c);
    PlusComm(a, c);
    TimesRecip(Plus(a, c));
    NonZeroTimes(Plus(a, b), Recip(Plus(a, c)));
  }

  lemma {:induction false} FactorsNonZero(xs: seq<Byte>, ys: seq<Byte>, s: nat, r: nat)
    requires Points(xs, ys) && s <= r < |xs|
    ensures RowFactor(xs, ys, s, r) != ZERO && ColFactor(xs, ys, s, r) != ZERO
  {
    hide Times, Plus, Recip;
    if s > 0 {
      FactorsNonZero(xs, ys, s - 1, r);
      RatioNonZero(xs[r], xs[s - 1], ys[s - 1]);
      RatioNonZero(ys[r], ys[s - 1], xs[s - 1]);
      NonZeroTimes(RowFactor(xs, ys, s - 1, r), Times(Plus(xs[r], xs[s - 1]), Recip(Plus(xs[r], ys[s - 1]))));
      NonZeroTimes(ColFactor(xs, ys, s - 1, r), Times(Plus(ys[r], ys[s - 1]), Recip(Plus(xs[s - 1], ys[r]))));
    }
  }

  // Every pivot, and every other entry of the remaining block, is non-zero.
  lemma EntryNonZero(xs: seq<Byte>, ys: seq<Byte>, s: nat, r: nat, c: nat)
    requires Points(xs, ys) && s <= r < |xs| && s <= c < |xs|
    ensures Entry(xs, ys, s, r, c) != ZERO
  {
    hide Times, Plus, Recip, RowFactor, ColFactor;
    FactorsNonZero(xs, ys, s, r);
    FactorsNonZero(xs, ys, s, c);
    NonZeroTimes(RowFactor(xs, ys, s, r), ColFactor(xs, ys, s, c));
    PlusCancel(xs[r], ys[c]);
    TimesRecip(Plus(xs[r], ys[c]));
    NonZeroTimes(Times(RowFactor(xs, ys, s, r), ColFactor(xs, ys, s, c)), Recip(Plus(xs[r], ys[c])));
  }

  // ----- one elimination step

  lemma ProductOfSums(a: Byte, b: Byte, c: Byte, d: Byte)
    ensures Times(Plus(a, b), Plus(c, d)) == Plus(Plus(Times(a, c), Times(a, d)), Plus(Times(b, c), Times(b, d)))
  {
    hide Times, Plus;
    TimesPlus(Plus(c, d), a, b);
    TimesPlus(a, c, d);
    TimesPlus(b, c, d);
  }

  lemma SumCancels(ab: Byte, ac: Byte, bd: Byte, cd: Byte, ad: Byte, bc: Byte)
    ensures Plus(Plus(Plus(ab, ac), Plus(bd, cd)), Plus(Plus(ab, ad), Plus(bc, cd))) == Plus(Plus(ac, ad), Plus(bc, bd))
  {
    hide Plus;
    PlusSwap(Plus(ab, ac), Plus(bd, cd), Plus(ab, ad), Plus(bc, cd));
    PlusSwap(ab, ac, ab, ad);
    PlusSwap(bd, cd, bc, cd);
    PlusSelf(ab);
    PlusSelf(cd);
    PlusZero(Plus(ac, ad));
    PlusZero(Plus(bd, bc));
    PlusComm(bd, bc);
  }

  lemma CrossProducts(a: Byte, b: Byte, c: Byte, d: Byte)
    ensures Plus(Times(Plus(a, d), Plus(b, c)), Times(Plus(a, c), Plus(b, d))) == Times(Plus(a, b), Plus(c, d))
  {
    hide Times, Plus;
    ProductOfSums(a, d, b, c);
    ProductOfSums(a, c, b, d);
    ProductOfSums(a, b, c, d);
    TimesComm(d, b);
    TimesComm(d, c);
    TimesComm(c, b);
    SumCancels(Times(a, b), Times(a, c), Times(b, d), Times(c, d), Times(a, d), Times(b, c));
  }

  // Dividing both sides by (a+c)(a+d)(b+c).
  lemma CrossFractions(a: Byte, b: Byte, c: Byte, d: Byte, i: Byte, j: Byte, k: Byte)
    requires Times(i, Plus(a, c)) == ONE && Times(j, Plus(a, d)) == ONE && Times(k, Plus(b, c)) == ONE
    ensures Plus(i, Times(Times(j, k), Plus(b, d))) == Times(Times(i, Times(j, k)), Times(Plus(a, b), Plus(c, d)))
  {
    hide Times, Plus;
    var jk := Times(j, k);
    var ijk := Times(i, jk);
    assert Times(ijk, Times(Plus(a, d), Plus(b, c))) == i by {
      TimesAssoc(i, jk, Times(Plus(a, d), Plus(b, c)));
      TimesSwap(j, k, Plus(a, d), Plus(b, c));
      TimesOne(ONE);
      TimesOne(i);
    }
    assert Times(ijk, Times(Plus(a, c), Plus(b, d))) == Times(jk, Plus(b, d)) by {
      TimesSwap(i, jk, Plus(a, c), Plus(b, d));
      TimesOne(Times(jk, Plus(b, d)));
    }
    TimesPlus(ijk, Times(Plus(a, d), Plus(b, c)), Times(Plus(a, c), Plus(b, d)));
    CrossProducts(a, b, c, d);
  }

  // The multiplier times the normalised pivot row, with the pivot's own factors cancelled.
  lemma PivotCancels(p: Byte, q: Byte, p0: Byte, q0: Byte, j: Byte, k: Byte, m: Byte, d: Byte, u: Byte)
    requires Times(u, Times(Times(p0, q0), m)) == ONE && Times(m, d) == ONE
    ensures Times(Times(Times(p, q0), j), Times(u, Times(Times(p0, q), k))) == Times(Times(p, q), Times(Times(j, k), d))
  {
    hide Times;
    var w := Times(u, Times(p0, q0));
    assert w == d by {
      TimesAssoc(u, Times(p0, q0), m);
      TimesAssoc(w, m, d);
      TimesOne(w);
      TimesOne(d);
    }
    var pq0, p0q := Times(p, q0), Times(p0, q);
    TimesAssoc(u, p0q, k);
    TimesSwap(pq0, j, Times(u, p0q), k);
    assert Times(pq0, Times(u, p0q)) == Times(Times(p, q), w) by {
      TimesComm(q, Times(u, p0));
      TimesAssoc(u, p0, q);
      TimesSwap(p, q0, q, Times(u, p0));
      TimesComm(q0, Times(u, p0));
      TimesAssoc(u, p0, q0);
    }
    TimesAssoc(Times(p, q), w, Times(j, k));
    TimesComm(w, Times(j, k));
  }

  // The two new factors and the old entry make the next entry.
  lemma FactorsJoin(p: Byte, q: Byte, i: Byte, j: Byte, k: Byte, f: Byte, g: Byte)
    ensures Times(Times(Times(p, Times(f, j)), Times(q, Times(g, k))), i)
         == Times(Times(p, q), Times(Times(i, Times(j, k)), Times(f, g)))
  {
    hide Times;
    TimesSwap(p, Times(f, j), q, Times(g, k));
    TimesSwap(f, j, g, k);
    TimesAssoc(Times(p, q), Times(Times(f, g), Times(j, k)), i);
    TimesAssoc(Times(f, g), Times(j, k), i);
    TimesComm(Times(j, k), i);
    TimesComm(Times(f, g), Times(i, Times(j, k)));
  }

  // One step of Gauss elimination takes the closed form after s steps to the one after s + 1.
  lemma EntryStep(xs: seq<Byte>, ys: seq<Byte>, s: nat, r: nat, c: nat)
    requires Points(xs, ys) && s < r < |xs| && s <= c < |xs|
    ensures Plus(Entry(xs, ys, s, r, c),
                 Times(Entry(xs, ys, s, r, s), Times(Recip(Entry(xs, ys, s, s, s)), Entry(xs, ys, s, s, c))))
         == Entry(xs, ys, s + 1, r, c)
  {
    hide Times, Plus, Recip;
    var a, b, e, d := xs[r], xs[s], ys[c], ys[s];
    var i, j, k, m := Recip(Plus(a, e)), Recip(Plus(a, d)), Recip(Plus(b, e)), Recip(Plus(b, d));
    PlusCancel(a, e);
    PlusCancel(a, d);
    PlusCancel(b, e);
    PlusCancel(b, d);
    TimesRecip(Plus(a, e));
    TimesRecip(Plus(a, d));
    TimesRecip(Plus(b, e));
    TimesRecip(Plus(b, d));
    EntryNonZero(xs, ys, s, s, s);
    TimesRecip(Entry(xs, ys, s, s, s));
    var p, q := RowFactor(xs, ys, s, r), ColFactor(xs, ys, s, c);
    var p0, q0 := RowFactor(xs, ys, s, s), ColFactor(xs, ys, s, s);
    PivotCancels(p, q, p0, q0, j, k, m, Plus(b, d), Recip(Entry(xs, ys, s, s, s)));
    TimesPlus(Times(p, q), i, Times(Times(j, k), Plus(b, d)));
    CrossFractions(a, b, e, d, i, j, k);
    FactorsJoin(p, q, i, j, k, Plus(a, b), Plus(e, d));
  }
}
