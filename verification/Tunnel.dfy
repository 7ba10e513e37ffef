// The two ends of the fragment tunnel as objects: the table of slots behind fec_recv_done
// and the fragmenting send of send_to_gateway, both in ustun.c.
module Tunnel {
  import opened Common
  import opened Field
  import opened LinearSystem
  import opened ErasureCode
  import RsSolve
  import opened ReedSolomon
  import Mds
  import Dedup
  import opened Fec
  import opened FecRun

  const PKG_FEC_ENCODE_MIN_LEN: nat := 1200

  // ----- receiving

  ghost function Buffers(slots: seq<FecSlot>): set<object> {
    set s, b | s in slots && b in s.buf :: b
  }

  ghost predicate AllValid(slots: seq<FecSlot>)
    reads slots
  {
    forall i :: 0 <= i < |slots| ==> slots[i].Valid()
  }

  ghost function Values(slots: seq<FecSlot>): (v: seq<Slot>)
    requires AllValid(slots)
    reads slots, Buffers(slots)
    ensures |v| == |slots| && forall i :: 0 <= i < |slots| ==> v[i] == slots[i].Value()
  {
    if slots == [] then []
    else
      var n := |slots| - 1;
      assert forall s :: s in slots[..n] ==> s in slots;
      assert forall b :: b in slots[n].buf ==> b in Buffers(slots) by { assert slots[n] in slots; }
      Values(slots[..n]) + [slots[n].Value()]
  }

  // Different slots with different buffers.
  ghost predicate Separate(slots: seq<FecSlot>)
    reads slots
  {
    && AllValid(slots)
    && (forall i, j :: 0 <= i < j < |slots| ==> slots[i] != slots[j])
    && (forall i, j, b :: 0 <= i < |slots| && 0 <= j < |slots| && i != j && b in slots[i].buf ==> b !in slots[j].buf)
  }

  lemma NothingSeparate()
    ensures Separate([])
  {}

  lemma SeparateNext(slots: seq<FecSlot>, slot: FecSlot)
    requires Separate(slots) && slot.Valid() && slot !in slots
    requires forall i, b :: 0 <= i < |slots| && b in slots[i].buf ==> b !in slot.buf
    ensures Separate(slots + [slot])
  {}

  lemma UnusedTable(st: seq<Slot>)
    requires |st| == Dedup.SEQ_MAP_SIZE && forall i :: 0 <= i < |st| ==> st[i] == UnusedSlot()
    ensures TableUnused(st)
  {}

  class FecTable {
    const slots: seq<FecSlot>

    ghost predicate Valid()
      reads slots
    {
      |slots| == Dedup.SEQ_MAP_SIZE && Separate(slots)
    }

    // The static table after the first init_dedup_state: every slot unused, with buffers of
    // its own.
    constructor ()
      ensures Valid() && TableUnused(Values(slots))
      ensures forall i :: 0 <= i < |slots| ==> Values(slots)[i] == UnusedSlot()
    {
      hide Values, Separate, UnusedSlot, FecSlot.Value, FecSlot.Valid;
      var s: seq<FecSlot> := [];
      NothingSeparate();
      while |s| < Dedup.SEQ_MAP_SIZE
        invariant |s| <= Dedup.SEQ_MAP_SIZE && Separate(s)
        invariant AllValid(s) && forall i :: 0 <= i < |s| ==> s[i].Value() == UnusedSlot()
      {
        var slot := new FecSlot();
        SeparateNext(s, slot);
        s := s + [slot];
      }
      slots := s;
      new;
      UnusedTable(Values(slots));
    }

    // Store a fragment; done when its packet is complete in the addressed slot.
    method FecRecvDone(g: Fragment, rs: Codec) returns (done: bool, slot: FecSlot)
      requires Valid() && g.Ok()
      requires rs.Valid() && rs.ds == FEC_RS_K && rs.ps == FEC_RS_N && rs.p !in Buffers(slots)
      modifies slots[g.number % Dedup.SEQ_MAP_SIZE], slots[g.number % Dedup.SEQ_MAP_SIZE].buf, rs.p
      ensures Valid() && rs.Valid() && slot == slots[g.number % Dedup.SEQ_MAP_SIZE]
      ensures TableStep(old(Values(slots)), g, Values(slots), done)
    {
      hide SlotStep, Contents;
      var idx := g.number % Dedup.SEQ_MAP_SIZE;
      slot := slots[idx];
      ghost var before := Values(slots);
      done := slot.Receive(g, rs);
      assert AllValid(slots);
      forall i | 0 <= i < |slots| && i != idx ensures slots[i].Value() == before[i] {
        var other := slots[i];
        assert other != slot by {
          if i < idx { assert slots[i] != slots[idx]; } else { assert slots[idx] != slots[i]; }
        }
        assert forall b :: b in other.buf ==> b in Buffers(slots) && b !in slot.buf;
        forall k | 0 <= k < |other.buf| ensures other.buf[k][..] == old(other.buf[k][..]) {
          assert other.buf[k] in other.buf;
        }
        assert Contents(other.buf) == old(Contents(other.buf));
        assert before[i] == old(other.Value());
      }
      assert Values(slots) == before[idx := slot.Value()];
    }
  }

  // ----- sending

  class FecSender {
    var sequence: nat

    // The fragmenting branch of send_to_gateway. The packet of len bytes lies in the two data
    // buffers; the third takes the parity.
    method SendFec(rs: Codec, buf: seq<array<Byte>>, len: nat) returns (sent: seq<Fragment>)
      requires rs.Valid() && rs.ds == FEC_RS_K && rs.ps == FEC_RS_N && rs.p !in buf
      requires |buf| == FEC_RS_K + FEC_RS_N && RsSolve.Distinct(buf) && RsSolve.Sized(buf, FEC_RS_T)
      requires PKG_FEC_ENCODE_MIN_LEN < len <= BUFFER_SIZE && sequence < Dedup.SEQ_RANGE
      modifies this, buf[2]
      ensures sequence == (old(sequence) + 1) % Dedup.SEQ_RANGE
      ensures var p := Packet(len, Contents(buf));
        p.Ok() && p.Bytes() == old((buf[0][..] + buf[1][..])[..len])
        && |sent| == FEC_RS_K + FEC_RS_N
        && forall i :: 0 <= i < |sent| ==> sent[i] == Fragment(old(sequence), len, i, p.shards[i])
    {
      hide Codeword;
      var seqno := sequence;
      sequence := (sequence + 1) % Dedup.SEQ_RANGE;
      assert buf[..FEC_RS_K + FEC_RS_N] == buf;
      var ret := rs.Encode(buf, FEC_RS_K + FEC_RS_N, FEC_RS_T);
      sent := [];
      var i := 0;
      while i < FEC_RS_K + FEC_RS_N
        invariant i <= FEC_RS_K + FEC_RS_N && |sent| == i
        invariant forall k :: 0 <= k < i ==> sent[k] == Fragment(seqno, len, k, Contents(buf)[k])
      {
        sent := sent + [Fragment(seqno, len, i, buf[i][..])];
        i := i + 1;
      }
    }
  }
}
