// The fragment reassembler of ustun.c (and its copy in uctun.c): a packet is sent as two
// data fragments and one parity fragment, and is complete when any two have arrived.
module Fec {
  import opened Field
  import opened LinearSystem
  import opened ErasureCode
  import RsSolve
  import ReedSolomon
  import opened Dedup

  const FEC_RS_K: nat := 2
  const FEC_RS_N: nat := 1
  const FEC_RS_T: nat := 750
  const FEC_UNUSED: nat := 0xAA55

  // A fragment as it arrives: wire number, packet length, index and payload.
  datatype Fragment = Fragment(number: nat, plen: nat, index: nat, payload: Vec) {
    ghost predicate Ok() {
      number < SEQ_RANGE && index < FEC_RS_K + FEC_RS_N && |payload| == FEC_RS_T
    }
  }

  // ----- one slot as a value

  datatype Slot = Slot(number: nat, plen: nat, cnt: nat, marks: seq<bool>, buf: seq<Vec>) {
    ghost predicate Ok() {
      |marks| == FEC_RS_K + FEC_RS_N && Blocks(buf, FEC_RS_K + FEC_RS_N, FEC_RS_T)
    }
  }

  // A slot holding another number is taken over.
  function Opened(v: Slot, g: Fragment): Slot {
    if v.number != g.number then Slot(g.number, g.plen, 0, [true, true, true], v.buf) else v
  }

  function Stored(v: Slot, g: Fragment): Slot
    requires g.index < |v.buf| && g.index < |v.marks|
  {
    v.(buf := v.buf[g.index := g.payload], marks := v.marks[g.index := false], cnt := v.cnt + 1)
  }

  // The bytes the decoder's scan sees from the marks on: behind them lie the count, which is
  // not zero by then, and padding that is never written.
  function Memory(marks: seq<bool>): seq<bool> {
    marks + [true, false]
  }

  // One call on a slot. A second fragment always leads to decoding, which fails if the
  // fragments stored are too few.
  ghost predicate SlotStep(v: Slot, g: Fragment, v': Slot, done: bool)
    requires v.Ok() && g.Ok()
  {
    var o := Opened(v, g);
    if FEC_RS_K <= o.cnt then v' == o && !done
    else
      var s := Stored(o, g);
      if s.cnt < FEC_RS_K then v' == s && !done
      else
        && v' == s.(buf := v'.buf)
        && done == Recoverable(FEC_RS_K, FEC_RS_N, Memory(s.marks))
        && if done then Rebuilt(s, v'.buf) else Spoilt(s, v'.buf)
  }

  // A failed decode may leave parity in the places of missing fragments, and nowhere else.
  ghost predicate Spoilt(s: Slot, buf: seq<Vec>)
    requires s.Ok()
  {
    && Blocks(buf, FEC_RS_K + FEC_RS_N, FEC_RS_T)
    && forall l :: 0 <= l < FEC_RS_K + FEC_RS_N && (FEC_RS_K <= l || !s.marks[l]) ==> buf[l] == s.buf[l]
  }

  // The data fragments become the only data that explains what has arrived.
  ghost predicate Rebuilt(s: Slot, buf: seq<Vec>)
    requires s.Ok() && Recoverable(FEC_RS_K, FEC_RS_N, Memory(s.marks))
  {
    && Blocks(buf, FEC_RS_K + FEC_RS_N, FEC_RS_T)
    && buf[FEC_RS_K..] == s.buf[FEC_RS_K..]
    && forall d :: Explains(FEC_RS_K, FEC_RS_N, s.buf, Memory(s.marks), FEC_RS_T, d) <==> d == buf[..FEC_RS_K]
  }

  // Two of the three fragments suffice, whichever they are, and one does not.
  lemma RecoverableIfTwo(marks: seq<bool>)
    requires FEC_RS_K + FEC_RS_N <= |marks|
    ensures Recoverable(FEC_RS_K, FEC_RS_N, marks)
      <==> !(marks[0] && marks[1]) && !(marks[0] && marks[2]) && !(marks[1] && marks[2])
  {
    assert Indices(marks, 0, 0, true) == [] && Indices(marks, 2, 2, false) == [];
    var first, last := Indices(marks, 0, 1, true), Indices(marks, 2, 3, false);
    assert first == (if marks[0] then [0] else []) && last == (if marks[2] then [] else [2]);
    assert Indices(marks, 0, 2, true) == first + (if marks[1] then [1] else []);
  }

  // With one fragment stored, the next one completes the packet if and only if it is another
  // one. A repeated fragment costs the packet: its slot then ignores the missing ones.
  lemma RepeatLosesPacket(v: Slot, k: nat, g: Fragment, v': Slot, done: bool, later: Fragment, v'': Slot, d: bool)
    requires v.Ok() && g.Ok() && v.number == g.number && v.cnt == 1
    requires k < FEC_RS_K + FEC_RS_N && v.marks == [true, true, true][k := false]
    requires SlotStep(v, g, v', done)
    requires v'.Ok() && later.Ok() && later.number == g.number && SlotStep(v', later, v'', d)
    ensures done <==> g.index != k
    ensures !d && v'' == v'
  {
    hide Recoverable, Rebuilt, Spoilt;
    RecoverableIfTwo(Memory(Stored(v, g).marks));
  }

  // ----- the slot object

  method ZeroBuffer() returns (b: array<Byte>)
    ensures fresh(b) && b.Length == FEC_RS_T && b[..] == ZeroBlock()
  {
    b := new Byte[FEC_RS_T](_ => ZERO);
  }

  class FecSlot {
    var number: nat
    var plen: nat
    var cnt: nat
    var marks: seq<bool>
    const buf: seq<array<Byte>>

    ghost predicate Valid()
      reads this
    {
      && |buf| == FEC_RS_K + FEC_RS_N == |marks|
      && RsSolve.Distinct(buf) && RsSolve.Sized(buf, FEC_RS_T)
    }

    ghost function Value(): (v: Slot)
      requires Valid()
      reads this, buf
      ensures v.Ok()
    {
      Slot(number, plen, cnt, marks, ReedSolomon.Contents(buf))
    }

    // A slot of the static table after init_dedup_state.
    constructor ()
      ensures Valid() && fresh(buf)
      ensures Value() == UnusedSlot()
    {
      hide ReedSolomon.Contents;
      var b0 := ZeroBuffer();
      var b1 := ZeroBuffer();
      var b2 := ZeroBuffer();
      number, plen, cnt, marks := FEC_UNUSED, 0, 0, [false, false, false];
      buf := [b0, b1, b2];
      new;
      hide ZeroBlock;
      assert buf == [b0, b1, b2];
      assert ReedSolomon.Contents(buf) == [ZeroBlock(), ZeroBlock(), ZeroBlock()];
    }

    method Receive(g: Fragment, rs: ReedSolomon.Codec) returns (done: bool)
      requires Valid() && g.Ok()
      requires rs.Valid() && rs.ds == FEC_RS_K && rs.ps == FEC_RS_N && rs.p !in buf
      modifies this, buf, rs.p
      ensures Valid() && rs.Valid()
      ensures SlotStep(old(Value()), g, Value(), done)
    {
      hide Recoverable, Rebuilt, Spoilt, RsSolve.Distinct, RsSolve.Sized, ReedSolomon.Contents, Dimensions;
      done := false;
      if number != g.number {
        number, plen, cnt, marks := g.number, g.plen, 0, [true, true, true];
      }
      assert Value() == Opened(old(Value()), g);
      if cnt < FEC_RS_K {
        Copy(g);
        marks := marks[g.index := false];
        cnt := cnt + 1;
        assert Value() == Stored(Opened(old(Value()), g), g);
        if cnt >= FEC_RS_K {
          done := Rebuild(rs);
        }
      }
    }

    // Two fragments have arrived: decode in place.
    method Rebuild(rs: ReedSolomon.Codec) returns (done: bool)
      requires Valid() && rs.Valid() && rs.ds == FEC_RS_K && rs.ps == FEC_RS_N && rs.p !in buf
      modifies buf, rs.p
      ensures Valid() && rs.Valid() && done == Recoverable(FEC_RS_K, FEC_RS_N, Memory(marks))
      ensures Value() == old(Value()).(buf := Value().buf)
      ensures if done then Rebuilt(old(Value()), Value().buf) else Spoilt(old(Value()), Value().buf)
    {
      hide Recoverable, Explains, ReedSolomon.Codec.ScratchFits;
      ghost var before := ReedSolomon.Contents(buf);
      ghost var seen := Memory(marks);
      assert !seen[4] && buf[..FEC_RS_K + FEC_RS_N] == buf;
      if Recoverable(FEC_RS_K, FEC_RS_N, seen) { rs.ScratchSuffices(seen); }
      var ret := rs.Decode(buf, Memory(marks), FEC_RS_K + FEC_RS_N, FEC_RS_T);
      done := ret == 0;
      assert ReedSolomon.Contents(buf)[FEC_RS_K..] == before[FEC_RS_K..];
    }

    method Copy(g: Fragment)
      requires Valid() && g.Ok()
      modifies buf
      ensures ReedSolomon.Contents(buf) == old(ReedSolomon.Contents(buf))[g.index := g.payload]
    {
      ghost var before := ReedSolomon.Contents(buf);
      forall q | 0 <= q < FEC_RS_T { buf[g.index][q] := g.payload[q]; }
      assert buf[g.index][..] == g.payload;
      forall i | 0 <= i < |buf| ensures ReedSolomon.Contents(buf)[i] == before[g.index := g.payload][i] {
        assert i != g.index ==> buf[i] != buf[g.index];
        assert before[i] == old(buf[i][..]);
      }
    }
  }

  function ZeroBlock(): Vec {
    seq(FEC_RS_T, _ => ZERO)
  }

  function UnusedSlot(): Slot {
    Slot(FEC_UNUSED, 0, 0, [false, false, false], [ZeroBlock(), ZeroBlock(), ZeroBlock()])
  }
}
