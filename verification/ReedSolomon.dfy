// The codec object of rs.c: construction, encoding, and decoding in place.
module ReedSolomon {
  import opened Field
  import opened Oblas
  import opened RsKernel
  import opened LinearSystem
  import opened Cauchy
  import Gf256
  import GfLaws
  import opened RsSolve
  import opened ErasureCode

  const HEADER_SIZE: nat := 12

  // What the buffers hold.
  ghost function Contents(data: seq<array<Byte>>): (s: seq<Vec>)
    reads data
    ensures Holds(data, s)
  {
    if data == [] then [] else Contents(data[..|data| - 1]) + [data[|data| - 1][..]]
  }

  ghost predicate RowsDone(m: Vec, ds: nat, ps: nat, n: nat)
    requires Dimensions(ds, ps) && n <= ps
  {
    && |m| == RowAt(ds, n)
    && forall j :: 0 <= j < n ==> RowHolds(m, ds, ps, j)
  }

  lemma RowsDoneNext(m: Vec, ds: nat, ps: nat, n: nat, row: Vec)
    requires Dimensions(ds, ps) && n < ps && RowsDone(m, ds, ps, n) && row == CoefRow(ds, ps, n)
    ensures RowsDone(m + row, ds, ps, n + 1)
  {
    hide CoefRow, RowAt;
    var m' := m + row;
    RowNext(ds, n);
    forall j | 0 <= j < n + 1 ensures RowHolds(m', ds, ps, j) {
      if j < n {
        RowOrder(ds, j, n);
        assert RowHolds(m, ds, ps, j);
        var at := RowAt(ds, j);
        assert m'[at..at + ds] == m[at..at + ds];
      } else {
        assert m'[|m|..|m| + ds] == row;
      }
    }
  }

  lemma WholePrefix(v: Vec)
    ensures v[..|v|] == v
  {}

  lemma KnownAddedToZero(zero: Vec, d: seq<Vec>, cf: Vec, bs: nat)
    requires |d| == |cf| && |zero| == bs && Blocks(d, |d|, bs) && forall q :: 0 <= q < bs ==> zero[q] == ZERO
    ensures forall q :: 0 <= q < bs ==> AddKnown(zero, d, cf, |cf|)[q] == Dot(cf, Column(d, q))
  {
    hide Plus, Times, Dot, AddKnown;
    forall q | 0 <= q < bs ensures AddKnown(zero, d, cf, |cf|)[q] == Dot(cf, Column(d, q)) {
      AddKnownAt(zero, d, cf, |cf|, q);
      WholePrefix(cf);
      WholePrefix(Column(d, q));
      PlusZero(Dot(cf, Column(d, q)));
    }
  }

  // ----- planning a decode

  // List the lost data shards, then the surviving ones followed by the lost ones.
  method PlanColumns(ds: nat, marks: seq<bool>, erasures: array<nat>, colperm: array<nat>) returns (gaps: nat)
    requires ds <= |marks| && erasures.Length == ds == colperm.Length && erasures != colperm
    modifies erasures, colperm
    ensures gaps == |Lost(ds, marks)| <= ds && erasures[..gaps] == Lost(ds, marks)
    ensures colperm[..] == Indices(marks, 0, ds, false) + Lost(ds, marks)
  {
    gaps := ListLost(ds, marks, erasures);
    IndicesCount(marks, 0, ds);
    ListSurvivors(ds, marks, gaps, colperm);
    ghost var survivors := Indices(marks, 0, ds, false);
    var i, j := 0, ds - gaps;
    while i < gaps
      invariant i <= gaps && j == ds - gaps + i
      invariant erasures[..gaps] == Lost(ds, marks)
      invariant colperm[..j] == survivors + erasures[..i]
    {
      colperm[j] := erasures[i];
      i, j := i + 1, j + 1;
    }
  }

  method ListLost(ds: nat, marks: seq<bool>, erasures: array<nat>) returns (gaps: nat)
    requires ds <= |marks| && erasures.Length == ds
    modifies erasures
    ensures gaps <= ds && erasures[..gaps] == Lost(ds, marks)
  {
    gaps := 0;
    var k := 0;
    while k < ds
      invariant k <= ds && gaps <= k
      invariant erasures[..gaps] == Indices(marks, 0, k, true)
    {
      if marks[k] {
        erasures[gaps] := k;
        gaps := gaps + 1;
      }
      k := k + 1;
    }
  }

  method ListSurvivors(ds: nat, marks: seq<bool>, gaps: nat, colperm: array<nat>)
    requires ds <= |marks| && colperm.Length == ds
    requires gaps <= ds && |Indices(marks, 0, ds, false)| == ds - gaps
    modifies colperm
    ensures colperm[..ds - gaps] == Indices(marks, 0, ds, false)
  {
    var i, j := 0, 0;
    while i < ds - gaps
      invariant i <= ds - gaps && j <= ds
      invariant colperm[..i] == Indices(marks, 0, j, false)
    {
      IndicesSplit(marks, 0, j, ds, false);
      while marks[j]
        invariant j < ds
        invariant Indices(marks, 0, j, false) == colperm[..i]
        decreases ds - j
      {
        IndicesSplit(marks, 0, j + 1, ds, false);
        j := j + 1;
      }
      colperm[i] := j;
      i, j := i + 1, j + 1;
    }
    IndicesSplit(marks, 0, j, ds, false);
  }

  // Ascending positions below n, all marked like want.
  ghost predicate Chosen(marks: seq<bool>, index: seq<nat>, n: nat, want: bool)
  {
    && n <= |marks|
    && (forall i :: 0 <= i < |index| ==> index[i] < n && marks[index[i]] == want)
    && (forall i, j :: 0 <= i < j < |index| ==> index[i] < index[j])
  }

  lemma PlanFacts(ds: nat, ps: nat, marks: seq<bool>, knownCols: seq<nat>, lostCols: seq<nat>, d: seq<nat>)
    requires ds + ps <= |marks| && Recoverable(ds, ps, marks)
    requires knownCols == Indices(marks, 0, ds, false) && lostCols == Lost(ds, marks)
    requires d == Spare(ds, ps, marks)[..|lostCols|]
    ensures Chosen(marks, knownCols, ds, false) && Chosen(marks, lostCols, ds, true)
    ensures |d| == |lostCols| && Below(d, ps) && forall i, j :: 0 <= i < j < |d| ==> d[i] < d[j]
  {
    hide Indices, Spare;
  }

  lemma SelectDistinct(data: seq<array<Byte>>, index: seq<nat>, bs: nat)
    requires Distinct(data) && Sized(data, bs) && Below(index, |data|)
    requires forall i, j :: 0 <= i < j < |index| ==> index[i] < index[j]
    ensures Distinct(Select(data, index)) && Sized(Select(data, index), bs)
  {}

  lemma SelectApart(data: seq<array<Byte>>, index: seq<nat>, other: seq<nat>)
    requires Distinct(data) && Below(index, |data|) && Below(other, |data|)
    requires forall i, j :: 0 <= i < |index| && 0 <= j < |other| ==> index[i] != other[j]
    ensures forall i, j :: 0 <= i < |index| && 0 <= j < |other| ==> Select(data, index)[i] != Select(data, other)[j]
  {
    forall i, j | 0 <= i < |index| && 0 <= j < |other| ensures Select(data, index)[i] != Select(data, other)[j] {
      assert data[index[i]] != data[other[j]];
    }
  }

  method Memcpy(dst: array<Byte>, src: array<Byte>, n: nat)
    requires dst != src && dst.Length == n == src.Length
    modifies dst
    ensures dst[..] == old(src[..])
  {
    forall q | 0 <= q < n { dst[q] := src[q]; }
  }

  class Codec {
    const build: Build
    const ds: nat
    const ps: nat
    const ts: nat
    // The coefficient matrix, row by row, followed by scratch space.
    const p: array<Byte>

    ghost predicate Valid()
      reads p
    {
      && Dimensions(ds, ps) && ts == ds + ps
      && 2 * RowAt(ds, ps) <= p.Length
      && CodecMatrix(p[..RowAt(ds, ps)], ds, ps)
    }

    // Whether decoding with the given marks stays inside the buffer: the matrix fits behind the
    // coefficients, and every diagonal scaling, which runs on behind its row, ends in time.
    ghost predicate ScratchFits(marks: seq<bool>)
      requires Dimensions(ds, ps) && ds + ps <= |marks| && Recoverable(ds, ps, marks)
    {
      var g := |Lost(ds, marks)|;
      && RowAt(ds, ps) + RowAt(g, g) <= p.Length
      && ScalingsFit(RowAt(ds, ps), p.Length, LostRows(ds, ps, marks), LostCols(ds, ps, marks))
    }

    // reed_solomon_new_static on a buffer with the given room for matrix and scratch.
    constructor (build: Build, room: nat, ds: nat, ps: nat)
      requires Dimensions(ds, ps) && 2 * RowAt(ds, ps) <= room
      ensures Valid() && fresh(p)
      ensures this.build == build && this.ds == ds && this.ps == ps && p.Length == room
    {
      this.build, this.ds, this.ps, this.ts := build, ds, ps, ds + ps;
      p := new Byte[room](_ => ZERO);
      new;
      FillMatrix();
    }

    method FillMatrix()
      requires Dimensions(ds, ps) && 2 * RowAt(ds, ps) <= p.Length
      modifies p
      ensures CodecMatrix(p[..RowAt(ds, ps)], ds, ps)
    {
      hide RowAt, RowHolds, CoefRow;
      RowNext(ds, 0);
      var j := 0;
      while j < ps
        invariant j <= ps
        invariant RowAt(ds, j) <= p.Length && RowsDone(p[..RowAt(ds, j)], ds, ps, j)
      {
        var at := RowAt(ds, j);
        RowOrder(ds, j, ps);
        RowNext(ds, j);
        ghost var before := p[..at];
        FillRow(j, at);
        assert p[..at + ds] == before + CoefRow(ds, ps, j);
        RowsDoneNext(before, ds, ps, j, CoefRow(ds, ps, j));
        j := j + 1;
      }
    }

    // The inner loop of the constructor: one row.
    method FillRow(j: nat, at: nat)
      requires Dimensions(ds, ps) && j < ps && at + ds <= p.Length
      modifies p
      ensures p[..at] == old(p[..at]) && p[at..at + ds] == CoefRow(ds, ps, j)
    {
      hide Recip, Plus, Num;
      var i := 0;
      while i < ds
        invariant i <= ds
        invariant p[..at] == old(p[..at])
        invariant forall l :: 0 <= l < i ==> p[at + l] == CoefRow(ds, ps, j)[l]
      {
        p[at + i] := Recip(Plus(Num(ps + i), Num(j)));
        i := i + 1;
      }
    }

    // ----- encoding

    // reed_solomon_encode: refuse too few buffers, otherwise fill the parity shards. Buffers
    // behind the last shard are ignored.
    method Encode(shards: seq<array<Byte>>, nrShards: nat, bs: nat) returns (ret: int)
      requires Valid() && |shards| == nrShards
      requires Distinct(shards) && Sized(shards, bs) && p !in shards
      modifies set i | ds <= i < |shards| && i < ts :: shards[i]
      ensures ret == if nrShards < ts then -1 else 0
      ensures ret != 0 ==> forall i :: 0 <= i < |shards| ==> shards[i][..] == old(shards[i][..])
      ensures forall i :: 0 <= i < |shards| && (i < ds || ts <= i) ==> shards[i][..] == old(shards[i][..])
      ensures ret == 0 ==> Codeword(ds, ps, Contents(shards[..ts]), bs)
    {
      if nrShards < ts {
        return -1;
      }
      var used := shards[..ts];
      Gemm(used[..ds], used[ds..], bs, Contents(used[..ds]));
      CodewordBuilt(used, bs, Contents(used[..ds]));
      return 0;
    }

    lemma CodewordBuilt(shards: seq<array<Byte>>, bs: nat, data: seq<Vec>)
      requires Valid() && |shards| == ts && Sized(shards, bs)
      requires Holds(shards[..ds], data)
      requires forall j, q :: 0 <= j < ps && 0 <= q < bs ==>
        shards[ds..][j].Length == bs && shards[ds..][j][q] == Dot(CoefRow(ds, ps, j), Column(data, q))
      ensures Codeword(ds, ps, Contents(shards), bs)
    {
      hide CoefRow, Dot, CodecMatrix, RowAt, Contents, Column;
      var s := Contents(shards);
      assert s[..ds] == data by {
        forall i | 0 <= i < ds ensures s[i] == data[i] { assert shards[..ds][i] == shards[i]; }
      }
      forall j, q | 0 <= j < ps && 0 <= q < bs
        ensures s[ds + j][q] == Dot(CoefRow(ds, ps, j), Column(data, q))
      {
        assert shards[ds + j] == shards[ds..][j];
        assert shards[ds..][j][q] == Dot(CoefRow(ds, ps, j), Column(data, q));
      }
    }

    // gemm with the coefficient matrix: every parity buffer becomes its row times the data.
    method Gemm(data: seq<array<Byte>>, parity: seq<array<Byte>>, bs: nat, ghost d: seq<Vec>)
      requires Valid() && |data| == ds && |parity| == ps
      requires Distinct(parity) && Sized(data, bs) && Sized(parity, bs) && p !in data && p !in parity
      requires forall i, j :: 0 <= i < |data| && 0 <= j < |parity| ==> data[i] != parity[j]
      requires Holds(data, d)
      modifies parity
      ensures forall j, q :: 0 <= j < ps && 0 <= q < bs ==>
        parity[j].Length == bs && parity[j][q] == Dot(CoefRow(ds, ps, j), Column(d, q))
    {
      hide Plus, Times, CoefRow, Dot, LinearSystem.Axpy;
      var row := 0;
      while row < ps
        invariant row <= ps
        invariant forall j, q :: 0 <= j < row && 0 <= q < bs ==>
          parity[j].Length == bs && parity[j][q] == Dot(CoefRow(ds, ps, j), Column(d, q))
      {
        GemmRow(data, parity[row], row, bs, d);
        row := row + 1;
      }
    }

    method GemmRow(data: seq<array<Byte>>, c: array<Byte>, row: nat, bs: nat, ghost d: seq<Vec>)
      requires Valid() && |data| == ds && row < ps
      requires Sized(data, bs) && c.Length == bs && c != p && c !in data && Holds(data, d)
      modifies c
      ensures forall q :: 0 <= q < bs ==> c[q] == Dot(CoefRow(ds, ps, row), Column(d, q))
    {
      hide Plus, Times, CoefRow, Dot, AddKnown, RowAt;
      ghost var cf := CoefRow(ds, ps, row);
      var ap := RowAt(ds, row);
      RowInMemory(row, ap);
      forall q | 0 <= q < bs { c[q] := ZERO; }
      ghost var zero := c[..];
      Accumulate(data, c, ap, bs, d, cf);
      KnownAddedToZero(zero, d, cf, bs);
    }

    // c += the data buffers, each times its coefficient stored from ap on.
    method Accumulate(data: seq<array<Byte>>, c: array<Byte>, ap: nat, bs: nat, ghost d: seq<Vec>, ghost cf: Vec)
      requires |data| == ds && ap + ds <= p.Length && p[ap..ap + ds] == cf
      requires Sized(data, bs) && c.Length == bs && c != p && c !in data && Holds(data, d)
      modifies c
      ensures c[..] == AddKnown(old(c[..]), d, cf, ds)
    {
      hide Plus, Times, LinearSystem.Axpy;
      var idx := 0;
      while idx < ds
        invariant idx <= ds
        invariant c[..] == AddKnown(old(c[..]), d, cf, idx)
      {
        assert p[ap + idx] == cf[idx];
        AxpyAll(build, c, data[idx], p[ap + idx], bs);
        idx := idx + 1;
      }
    }

    lemma RowInMemory(row: nat, ap: nat)
      requires Valid() && row < ps && ap == RowAt(ds, row)
      ensures ap + ds <= p.Length && p[ap..ap + ds] == CoefRow(ds, ps, row)
    {
      hide CoefRow, RowAt;
      var m := p[..RowAt(ds, ps)];
      assert RowHolds(m, ds, ps, row);
      assert p[ap..ap + ds] == m[ap..ap + ds];
    }

    // ----- decoding

    // The parity scan ends inside the marks: enough parity shards survive, or there is an
    // unmarked entry behind the last shard.
    ghost predicate CanScan(marks: seq<bool>)
      requires Dimensions(ds, ps) && ts == ds + ps
    {
      ts <= |marks| && (Recoverable(ds, ps, marks) || exists k :: ts <= k < |marks| && !marks[k])
    }

    // The parity rows found unmarked before position j.
    ghost predicate Scanned(marks: seq<bool>, j: nat, rows: seq<nat>) {
      && ds <= j <= |marks| && |rows| == |Indices(marks, ds, j, false)|
      && forall l :: 0 <= l < |rows| ==> rows[l] == Indices(marks, ds, j, false)[l] - ds
    }

    // While rows are missing there is an unmarked entry ahead, behind the shards only if too
    // few survive.
    lemma ScanStops(marks: seq<bool>, j: nat, rows: seq<nat>) returns (k: nat)
      requires Dimensions(ds, ps) && ts == ds + ps && CanScan(marks)
      requires ds <= j <= ts && Scanned(marks, j, rows) && |rows| < |Lost(ds, marks)|
      ensures j <= k < |marks| && !marks[k]
      ensures j == ts ==> !Recoverable(ds, ps, marks)
    {
      hide Indices;
      IndicesSplit(marks, ds, j, ts, false);
      var ahead := Indices(marks, j, ts, false);
      if ahead != [] {
        k := ahead[0];
      } else {
        k :| ts <= k < |marks| && !marks[k];
      }
    }

    lemma ScanMarked(marks: seq<bool>, j: nat, rows: seq<nat>)
      requires ds <= j < |marks| && Scanned(marks, j, rows)
      ensures Scanned(marks, j + 1, if marks[j] then rows else rows + [j - ds])
    {
      assert Indices(marks, ds, j + 1, false) == Indices(marks, ds, j, false) + (if marks[j] then [] else [j]);
    }

    lemma ScanResult(marks: seq<bool>, j: nat, rows: seq<nat>)
      requires Dimensions(ds, ps) && ts == ds + ps <= |marks|
      requires ds <= j <= ts && Scanned(marks, j, rows) && |rows| <= |Lost(ds, marks)|
      requires |rows| == |Lost(ds, marks)| || j == ts
      ensures |rows| == |Lost(ds, marks)| <==> Recoverable(ds, ps, marks)
      ensures |rows| <= |Spare(ds, ps, marks)| && rows == Spare(ds, ps, marks)[..|rows|]
    {
      hide Indices;
      IndicesSplit(marks, ds, j, ts, false);
      var all, first := Indices(marks, ds, ts, false), Indices(marks, ds, j, false);
      assert all[..|first|] == first;
      if j == ts { assert Indices(marks, ds, j, false) == all; }
    }

    // The end of the part of the scan that looks at shards.
    function Inside(j: nat): nat { if j < ts then j else ts }

    // Skip marked entries, behind the shards too.
    method NextSpare(marks: seq<bool>, from: nat, ghost rows: seq<nat>) returns (j: nat)
      requires Dimensions(ds, ps) && ts == ds + ps && CanScan(marks)
      requires ds <= from <= ts && Scanned(marks, from, rows) && |rows| < |Lost(ds, marks)|
      ensures from <= j < |marks| && !marks[j] && Scanned(marks, Inside(j), rows)
      ensures j < ts ==> Scanned(marks, j + 1, rows + [j - ds])
      ensures ts <= j ==> !Recoverable(ds, ps, marks)
    {
      hide Indices, Scanned, CanScan, Recoverable;
      j := from;
      ghost var k := ScanStops(marks, j, rows);
      while marks[j]
        invariant from <= j <= k < |marks| && !marks[k]
        invariant Scanned(marks, Inside(j), rows)
        decreases |marks| - j
      {
        if j < ts { ScanMarked(marks, j, rows); }
        j := j + 1;
        if j <= ts { k := ScanStops(marks, j, rows); }
      }
      if j < ts {
        ScanMarked(marks, j, rows);
      } else {
        ghost var _ := ScanStops(marks, ts, rows);
      }
    }

    // The state after copying the parity rows listed in rows: nothing else has changed.
    ghost predicate Taken(data: seq<array<Byte>>, marks: seq<bool>, lost: seq<nat>, rows: seq<nat>, s: seq<Vec>)
      reads data
    {
      && |data| == |s| <= |marks| && |rows| <= |lost|
      && (forall l :: 0 <= l < |data| && (ds <= l || !marks[l]) ==> data[l][..] == s[l])
      && (forall l :: 0 <= l < |rows| ==>
            lost[l] < |data| && ds + rows[l] < |s| && data[lost[l]][..] == s[ds + rows[l]])
    }

    method TakeShard(data: seq<array<Byte>>, marks: seq<bool>, bs: nat, dst: nat, j: nat,
                     ghost lost: seq<nat>, ghost rows: seq<nat>, ghost s: seq<Vec>)
      requires Distinct(data) && Sized(data, bs) && Taken(data, marks, lost, rows, s)
      requires ds <= j < |data| && |rows| < |lost| && lost[|rows|] == dst && ds <= |data|
      requires Chosen(marks, lost, ds, true)
      modifies data[dst]
      ensures Taken(data, marks, lost, rows + [j - ds], s)
    {
      Memcpy(data[dst], data[j], bs);
    }

    // Copy the first surviving parity shards, one for each lost data shard, into the lost
    // buffers; stop short when they run out.
    method TakeParity(data: seq<array<Byte>>, marks: seq<bool>, nrShards: nat, bs: nat,
                      erasures: array<nat>, gaps: nat, rowperm: array<nat>, ghost s: seq<Vec>)
      returns (i: nat)
      requires Dimensions(ds, ps) && |data| == ts == ds + ps <= |marks| && CanScan(marks)
      requires nrShards == ts || (nrShards > ts && Recoverable(ds, ps, marks))
      requires Distinct(data) && Sized(data, bs) && Holds(data, s)
      requires erasures.Length == ds == rowperm.Length && erasures != rowperm
      requires gaps == |Lost(ds, marks)| <= ds && erasures[..gaps] == Lost(ds, marks)
      modifies rowperm, set l | 0 <= l < ds && l < |data| :: data[l]
      ensures i <= gaps && (i == gaps <==> Recoverable(ds, ps, marks))
      ensures i == gaps ==> rowperm[..gaps] == Spare(ds, ps, marks)[..gaps]
      ensures i == gaps ==> Taken(data, marks, Lost(ds, marks), Spare(ds, ps, marks)[..gaps], s)
      ensures forall l :: 0 <= l < |data| && (ds <= l || !marks[l]) ==> data[l][..] == s[l]
    {
      hide Scanned, Taken, Recoverable, Lost, Spare, CanScan, Chosen, Distinct, Sized, Holds;
      ghost var lost := Lost(ds, marks);
      ghost var rows := [];
      StartTaking(data, marks, s);
      i := 0;
      var j := ds;
      while i < gaps
        invariant i <= gaps && ds <= j <= ts
        invariant i == |rows| && gaps == |lost|
        invariant erasures[..gaps] == lost
        invariant rowperm[..i] == rows
        invariant Scanned(marks, j, rows) && Taken(data, marks, lost, rows, s)
      {
        j := NextSpare(marks, j, rows);
        if j >= nrShards {
          break;
        }
        assert erasures[i] == lost[i];
        rowperm[i] := j - ds;
        TakeShard(data, marks, bs, erasures[i], j, lost, rows, s);
        rows := rows + [j - ds];
        i, j := i + 1, j + 1;
      }
      ScanResult(marks, Inside(j), rows);
      RestHolds(data, marks, lost, rows, s);
    }

    lemma StartTaking(data: seq<array<Byte>>, marks: seq<bool>, s: seq<Vec>)
      requires Dimensions(ds, ps) && ts == ds + ps == |data| && CanScan(marks) && Holds(data, s)
      ensures Scanned(marks, ds, []) && Taken(data, marks, Lost(ds, marks), [], s)
      ensures Chosen(marks, Lost(ds, marks), ds, true)
    {}

    lemma RestHolds(data: seq<array<Byte>>, marks: seq<bool>, lost: seq<nat>, rows: seq<nat>, s: seq<Vec>)
      requires Taken(data, marks, lost, rows, s)
      ensures |data| <= |marks| && |data| == |s|
      ensures forall l :: 0 <= l < |data| && (ds <= l || !marks[l]) ==> data[l][..] == s[l]
    {}

    // reed_solomon_decode. The lost data shards are rebuilt in place: afterwards the data
    // shards are the only data that explains the survivors. Buffers behind the last shard are
    // ignored, as long as the scan does not reach them.
    method Decode(data: seq<array<Byte>>, marks: seq<bool>, nrShards: nat, bs: nat) returns (ret: int)
      requires Valid() && |data| == nrShards
      requires Distinct(data) && Sized(data, bs) && p !in data
      requires nrShards >= ts ==> CanScan(marks)
      requires nrShards > ts ==> Recoverable(ds, ps, marks)
      requires nrShards >= ts && Recoverable(ds, ps, marks) ==> ScratchFits(marks)
      modifies p, data
      ensures Valid()
      ensures ret == if nrShards >= ts && Recoverable(ds, ps, marks) then 0 else -1
      ensures nrShards < ts ==> forall l :: 0 <= l < |data| ==> data[l][..] == old(data[l][..])
      ensures nrShards >= ts ==>
        forall l :: 0 <= l < |data| && (ds <= l || !marks[l]) ==> data[l][..] == old(data[l][..])
      ensures ret == 0 ==>
        forall d :: Explains(ds, ps, old(Contents(data[..ts])), marks, bs, d) <==> d == Contents(data[..ts])[..ds]
    {
      hide Indices, Explains, Recoverable, CodecMatrix, Spare, Contents, Taken, ScratchFits, RowAt, Lost;
      if nrShards < ts {
        return -1;
      }
      var erasures, colperm, rowperm := new nat[ds], new nat[ds], new nat[ds];
      var shards := data[..ts];
      ghost var s := Contents(shards);
      var gaps := PlanColumns(ds, marks, erasures, colperm);
      var i := TakeParity(shards, marks, nrShards, bs, erasures, gaps, rowperm, s);
      if i < gaps {
        return -1;
      }
      Rebuild(shards, marks, bs, colperm[..], rowperm[..gaps], gaps, s);
      return 0;
    }

    method Rebuild(data: seq<array<Byte>>, marks: seq<bool>, bs: nat, c: seq<nat>, d: seq<nat>, gaps: nat,
                   ghost s: seq<Vec>)
      requires Valid() && |data| == ts <= |marks| && Recoverable(ds, ps, marks)
      requires Distinct(data) && Sized(data, bs) && p !in data && Blocks(s, ts, bs)
      requires gaps == |Lost(ds, marks)| <= ds && ScratchFits(marks)
      requires c == Indices(marks, 0, ds, false) + Lost(ds, marks)
      requires d == Spare(ds, ps, marks)[..gaps]
      requires Taken(data, marks, Lost(ds, marks), d, s)
      modifies p, data
      ensures Valid()
      ensures forall l :: 0 <= l < ts && (ds <= l || !marks[l]) ==> data[l][..] == s[l]
      ensures forall r :: Explains(ds, ps, s, marks, bs, r) <==> r == Contents(data)[..ds]
    {
      hide Indices, CodecMatrix, Equations, Explains, Recoverable, LostMatrix, CauchyAt, Taken, Holds, Distinct;
      hide Num, Spare, Contents, RowAt, ScalingsFit, LostRows, LostCols;
      IndicesCount(marks, 0, ds);
      var knownCols, lostCols := c[..ds - gaps], c[ds - gaps..];
      assert knownCols == Indices(marks, 0, ds, false) && lostCols == Lost(ds, marks);
      PlanFacts(ds, ps, marks, knownCols, lostCols, d);
      var known, lost := Select(data, knownCols), Select(data, lostCols);
      ghost var m := p[..RowAt(ds, ps)];
      ghost var kb, parity := Select(s, knownCols), Select(s[ds..], d);
      BuffersReady(data, marks, bs, knownCols, lostCols, d, s);
      LostSystem(ds, ps, m, marks);
      ghost var b := InvertMat(build, p, RowAt(ds, ps), ds, bs, known, lost, knownCols, lostCols, d, kb, parity,
                               LostRows(ds, ps, marks), LostCols(ds, ps, marks));
      assert p[..RowAt(ds, ps)] == m;
      Rebuilt(data, marks, bs, m, s, d, b);
    }

    lemma BuffersReady(data: seq<array<Byte>>, marks: seq<bool>, bs: nat, knownCols: seq<nat>, lostCols: seq<nat>,
                       d: seq<nat>, s: seq<Vec>)
      requires |data| == ts == ds + ps == |s| <= |marks| && |d| == |lostCols|
      requires Distinct(data) && Sized(data, bs) && p !in data
      requires Chosen(marks, knownCols, ds, false) && Chosen(marks, lostCols, ds, true)
      requires Below(d, ps) && Taken(data, marks, lostCols, d, s)
      ensures var known, lost := Select(data, knownCols), Select(data, lostCols);
        && Distinct(lost) && Sized(lost, bs) && Sized(known, bs) && p !in lost && p !in known
        && (forall i, j :: 0 <= i < |lost| && 0 <= j < |known| ==> lost[i] != known[j])
        && Holds(known, Select(s, knownCols)) && Holds(lost, Select(s[ds..], d))
      ensures forall l :: 0 <= l < |data| && (ds <= l || !marks[l]) ==>
        data[l] !in Select(data, lostCols) && data[l][..] == s[l]
    {
      SelectDistinct(data, lostCols, bs);
      SelectDistinct(data, knownCols, bs);
      SelectApart(data, lostCols, knownCols);
      forall i | 0 <= i < |d| ensures data[lostCols[i]][..] == s[ds..][d[i]] {}
      forall l | 0 <= l < |data| && (ds <= l || !marks[l]) ensures data[l] !in Select(data, lostCols) {
        SelectApart(data, lostCols, [l]);
        assert Select(data, [l])[0] == data[l];
      }
    }

    lemma Rebuilt(data: seq<array<Byte>>, marks: seq<bool>, bs: nat, m: Vec, s: seq<Vec>, d: seq<nat>, b: seq<Vec>)
      requires Dimensions(ds, ps) && CodecMatrix(m, ds, ps) && |data| == ts == ds + ps <= |marks|
      requires Recoverable(ds, ps, marks)
      requires Sized(data, bs) && Blocks(s, ts, bs) && Blocks(b, |Lost(ds, marks)|, bs)
      requires forall l :: 0 <= l < ds && !marks[l] ==> data[l][..] == s[l]
      requires Holds(Select(data, Lost(ds, marks)), b)
      requires d == Spare(ds, ps, marks)[..|Lost(ds, marks)|] && RowsFit(m, ds, d)
      requires var known, lost := Indices(marks, 0, ds, false), Lost(ds, marks);
        forall q, x: Vec :: 0 <= q < bs && |x| == |lost| ==>
          (Equations(m, ds, d, known, lost, Select(s, known), Select(s[ds..], d), bs, q, x) <==> x == Column(b, q))
      ensures forall r :: Explains(ds, ps, s, marks, bs, r) <==> r == Contents(data)[..ds]
    {
      hide Indices, CodecMatrix, Equations, Explains, Recoverable;
      var r := Contents(data)[..ds];
      forall r' ensures Explains(ds, ps, s, marks, bs, r') <==> r' == r {
        SolutionExplains(ds, ps, m, s, marks, bs, b, r, r');
      }
    }

    // ----- the round trip

    // After encoding, whatever is written over the marked shards, decoding restores the data
    // as long as no more data shards are marked than parity shards are left.
    method EncodeOverwriteDecode(shards: seq<array<Byte>>, marks: seq<bool>, bs: nat, junk: seq<Vec>)
      returns (ret: int)
      requires Valid() && |shards| == ts <= |marks|
      requires Distinct(shards) && Sized(shards, bs) && p !in shards && Blocks(junk, ts, bs)
      requires Recoverable(ds, ps, marks) && ScratchFits(marks)
      modifies p, shards
      ensures Valid() && ret == 0
      ensures forall l :: 0 <= l < ds ==> shards[l][..] == old(shards[l][..])
    {
      hide Codeword, Explains, Recoverable, Indices, CodecMatrix, Contents, Spare, CoefRow, Dot, ScratchFits;
      assert shards[..ts] == shards;
      ret := Encode(shards, ts, bs);
      ghost var c := Contents(shards);
      Overwrite(shards, marks, bs, junk);
      ghost var s := Contents(shards);
      CodewordExplains(ds, ps, c, s, marks, bs);
      ret := Decode(shards, marks, ts, bs);
      assert c[..ds] == Contents(shards)[..ds];
      forall l | 0 <= l < ds ensures shards[l][..] == old(shards[l][..]) {
        assert c[..ds][l] == Contents(shards)[..ds][l];
      }
    }

    static method Overwrite(shards: seq<array<Byte>>, marks: seq<bool>, bs: nat, junk: seq<Vec>)
      requires |shards| == |junk| <= |marks| && Distinct(shards) && Sized(shards, bs) && Blocks(junk, |junk|, bs)
      modifies shards
      ensures forall l :: 0 <= l < |shards| ==> shards[l][..] == if marks[l] then junk[l] else old(shards[l][..])
    {
      var l := 0;
      while l < |shards|
        invariant l <= |shards|
        invariant forall i :: 0 <= i < |shards| ==>
          shards[i][..] == if i < l && marks[i] then junk[i] else old(shards[i][..])
      {
        if marks[l] {
          forall q | 0 <= q < bs { shards[l][q] := junk[l][q]; }
          assert shards[l][..] == junk[l];
        }
        l := l + 1;
      }
    }

    // In the buffer reed_solomon_new asks for, decoding stays inside except when two or more
    // data shards are lost, all of them, no parity shard is to spare, and the last factor is
    // not one. Then the last scaling ends behind the buffer.
    lemma MinimalScratch(marks: seq<bool>)
      requires Valid() && ds + ps <= |marks| && Recoverable(ds, ps, marks)
      requires p.Length == 2 * RowAt(ds, ps)
      ensures ScratchFits(marks) <==> !Tight(marks) || LastFactor(marks) == ONE
      ensures Tight(marks) && LastFactor(marks) != ONE ==> LastScaling(marks) == p.Length + ds - 1
    {
      hide Indices, Lost, Spare, LostRows, LostCols, Factor, CodecMatrix, ScalingsFit, LostMatrix, RowAt;
      var g := |Lost(ds, marks)|;
      LossBounds(ds, ps, marks);
      Room(ps, ds, g);
      OnlyLastScaling(RowAt(ds, ps), p.Length, LostRows(ds, ps, marks), LostCols(ds, ps, marks));
      LastFactorNonZero(marks);
    }

    // A larger buffer, or a loss that leaves room, is enough.
    lemma ScratchSuffices(marks: seq<bool>)
      requires Valid() && ds + ps <= |marks| && Recoverable(ds, ps, marks) && !Tight(marks)
      ensures ScratchFits(marks)
    {
      hide Indices, Lost, Spare, LostRows, LostCols, Factor, CodecMatrix, ScalingsFit, RowAt;
      LossBounds(ds, ps, marks);
      Room(ps, ds, |Lost(ds, marks)|);
      OnlyLastScaling(RowAt(ds, ps), p.Length, LostRows(ds, ps, marks), LostCols(ds, ps, marks));
    }

    ghost predicate Tight(marks: seq<bool>)
      requires ds <= |marks|
    {
      |Lost(ds, marks)| == ds == ps && ds >= 2
    }

    ghost function LastFactor(marks: seq<bool>): Byte
      requires Dimensions(ds, ps) && ds + ps <= |marks| && Recoverable(ds, ps, marks)
    {
      var xs, ys := LostRows(ds, ps, marks), LostCols(ds, ps, marks);
      if |xs| == 0 then ONE else Factor(xs, ys, |xs| - 1)
    }

    // Where the last diagonal scaling ends.
    ghost function LastScaling(marks: seq<bool>): nat
      requires Dimensions(ds, ps) && ds + ps <= |marks| && Recoverable(ds, ps, marks)
      requires |Lost(ds, marks)| > 0
    {
      var g := |Lost(ds, marks)|;
      ScalEnd(RowAt(ds, ps) + RowAt(g, g - 1) + g - 1, LastFactor(marks), g)
    }

    lemma LastFactorNonZero(marks: seq<bool>)
      requires Valid() && ds + ps <= |marks| && Recoverable(ds, ps, marks)
      ensures LastFactor(marks) != ZERO
    {
      hide Recip, Entry, Indices, CodecMatrix, LostRows, LostCols;
      LostSystem(ds, ps, p[..RowAt(ds, ps)], marks);
      var xs, ys := LostRows(ds, ps, marks), LostCols(ds, ps, marks);
      if |xs| > 0 {
        var n := |xs| - 1;
        EntryNonZero(xs, ys, n, n, n);
        TimesRecip(Entry(xs, ys, n, n, n));
      }
    }

    // Such a loss exists: both data shards of a code with two data and two parity shards. The
    // last factor is 10, and the last byte written lies just behind the buffer.
    lemma TwoByTwoRunsOver(marks: seq<bool>)
      requires Valid() && ds == ps == 2 && p.Length == 2 * RowAt(ds, ps)
      requires 4 <= |marks| && marks[..4] == [true, true, false, false]
      ensures Recoverable(ds, ps, marks) && LastFactor(marks) == Byte(10)
      ensures Lost(ds, marks) == [0, 1] && LastScaling(marks) == p.Length + 1 && !ScratchFits(marks)
    {
      hide CodecMatrix, Factor, ScratchFits;
      BothLost(marks);
      var xs, ys := LostRows(2, 2, marks), LostCols(2, 2, marks);
      assert xs == [Byte(0), Byte(1)] && ys == [Byte(2), Byte(3)];
      LastFactorOfTwo();
      MinimalScratch(marks);
    }
  }

  lemma BothLost(marks: seq<bool>)
    requires 4 <= |marks| && marks[..4] == [true, true, false, false]
    ensures Lost(2, marks) == [0, 1] && Spare(2, 2, marks) == [0, 1]
  {
    assert marks[..4][0] == marks[0] && marks[..4][1] == marks[1];
    assert marks[..4][2] == marks[2] && marks[..4][3] == marks[3];
    assert Indices(marks, 0, 1, true) == [0] && Indices(marks, 2, 3, false) == [2];
  }

  // The closed form of the last pivot of the two by two matrix, and its inverse.
  lemma LastFactorOfTwo()
    ensures Factor([Byte(0), Byte(1)], [Byte(2), Byte(3)], 1) == Byte(10)
  {
    var xs, ys := [Byte(0), Byte(1)], [Byte(2), Byte(3)];
    SumsOfTwo();
    var third, half := Byte(244), Byte(142);
    assert RowFactor(xs, ys, 1, 1) == third && ColFactor(xs, ys, 1, 1) == third by {
      hide Plus, Times, Recip;
      TimesOne(third);
    }
    assert Entry(xs, ys, 1, 1, 1) == Byte(221) by {
      hide Plus, Times, Recip, RowFactor, ColFactor;
      ProductsOfTwo();
    }
  }

  lemma SumsOfTwo()
    ensures Plus(Byte(1), Byte(0)) == ONE && Plus(Byte(3), Byte(2)) == ONE
    ensures Plus(Byte(1), Byte(2)) == Byte(3) && Plus(Byte(0), Byte(3)) == Byte(3)
    ensures Plus(Byte(1), Byte(3)) == Byte(2)
    ensures Recip(Byte(3)) == Byte(244) && Recip(Byte(2)) == Byte(142) && Recip(Byte(221)) == Byte(10)
  {}

  lemma ProductsOfTwo()
    ensures Times(Byte(244), Byte(244)) == Byte(167) && Times(Byte(167), Byte(142)) == Byte(221)
  {
    hide Gf256.Mul;
    GfLaws.LogExpMulIsMul(244, 244);
    GfLaws.LogExpMulIsMul(167, 142);
  }

  lemma LossBounds(ds: nat, ps: nat, marks: seq<bool>)
    requires ds + ps <= |marks|
    ensures |Lost(ds, marks)| <= ds && |Spare(ds, ps, marks)| <= ps
  {
    hide Indices;
    IndicesCount(marks, 0, ds);
    IndicesCount(marks, ds, ds + ps);
  }

  lemma {:induction false} ProductGrows(a: nat, b: nat, w: nat)
    requires a <= b
    ensures a * w <= b * w
  {}

  // How much of the requested scratch area a g by g matrix leaves.
  lemma Room(ps: nat, ds: nat, g: nat)
    requires g <= ds && g <= ps
    ensures RowAt(g, g) <= RowAt(ds, ps) && (g > 0 ==> RowAt(g, g - 1) + g == RowAt(g, g))
    ensures g < ds || g < ps ==> RowAt(g, g) + g <= RowAt(ds, ps)
  {
    ProductGrows(g, ps, ds);
    ProductGrows(g, ds, g);
    if g < ds {
      ProductGrows(g + 1, ds, g);
      assert (g + 1) * g == g * g + g;
    } else if g < ps {
      ProductGrows(g + 1, ps, ds);
      assert (g + 1) * ds == g * ds + ds;
    }
  }

  // reed_solomon_new_static: nothing is built for bad dimensions or a short buffer.
  method NewStatic(build: Build, len: nat, ds: int, ps: int) returns (rs: Codec?)
    ensures rs == null <==> ds + ps > 255 || ds <= 0 || ps <= 0 || len < 12 + 2 * (ps * ds)
    ensures rs != null ==> rs.Valid() && fresh(rs) && fresh(rs.p)
    ensures rs != null ==> rs.build == build && rs.ds == ds && rs.ps == ps && rs.p.Length == len - 12
  {
    if ds + ps > 255 || ds <= 0 || ps <= 0 {
      return null;
    }
    if len < HEADER_SIZE + 2 * (ps * ds) {
      return null;
    }
    assert 0 < ps * ds;
    rs := new Codec(build, len - HEADER_SIZE, ds, ps);
  }
}
