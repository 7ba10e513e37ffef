// Whole runs of the fragment tunnel: any interleaving of fragments, repeated ones included,
// over 8192 slots and 16-bit wire numbers, delivers every packet at most once and intact, and
// exactly those of which the first two fragments to arrive are different ones.
module FecRun {
  import opened Field
  import opened LinearSystem
  import opened ErasureCode
  import Mds
  import opened Dedup
  import opened Fec

  // What the sender put on the wire for one packet number.
  datatype Packet = Packet(plen: nat, shards: seq<Vec>) {
    ghost predicate Ok() {
      plen <= FEC_RS_K * FEC_RS_T && Codeword(FEC_RS_K, FEC_RS_N, shards, FEC_RS_T)
    }

    function Bytes(): seq<Byte>
      requires |shards| >= 2 && plen <= |shards[0]| + |shards[1]|
    {
      (shards[0] + shards[1])[..plen]
    }
  }

  // Fragment i of the packet the sender numbered n arrives.
  datatype Event = Event(n: nat, i: nat)

  function Wire(packets: nat -> Packet, e: Event): Fragment
    requires e.i < |packets(e.n).shards|
  {
    Fragment(e.n % SEQ_RANGE, packets(e.n).plen, e.i, packets(e.n).shards[e.i])
  }

  function Residue(e: Event): nat { e.n % SEQ_MAP_SIZE }

  // The number last seen in slot r.
  datatype Holder = Nobody | Holder(n: nat)

  function HolderOf(h: seq<Event>, r: nat): Holder {
    if h == [] then Nobody
    else if Residue(h[|h| - 1]) == r then Holder.Holder(h[|h| - 1].n)
    else HolderOf(h[..|h| - 1], r)
  }

  // The indices of the fragments of packet n that have arrived, in order of arrival.
  function Seen(h: seq<Event>, n: nat): seq<nat> {
    if h == [] then []
    else
      var e := h[|h| - 1];
      Seen(h[..|h| - 1], n) + (if e.n == n then [e.i] else [])
  }

  // The fragment is the second of its packet and not the first one again.
  predicate Completes(h: seq<Event>, e: Event) {
    var q := Seen(h, e.n);
    |q| == 1 && q[0] != e.i
  }

  // Less than 8192 numbers behind every earlier fragment.
  ghost predicate InOrder(h: seq<Event>, e: Event) {
    e.i < FEC_RS_K + FEC_RS_N && forall s :: 0 <= s < |h| ==> h[s].n < e.n + SEQ_MAP_SIZE
  }

  // The slot holds the same wire number for another packet, or is unused and the packet has
  // the filler's number.
  predicate Clash(h: seq<Event>, e: Event) {
    match HolderOf(h, Residue(e))
    case Nobody => e.n % SEQ_RANGE == FEC_UNUSED
    case Holder(m) => m != e.n && m % SEQ_RANGE == e.n % SEQ_RANGE
  }

  ghost predicate NextOk(h: seq<Event>, e: Event) {
    InOrder(h, e) && !Clash(h, e)
  }

  ghost predicate Orderly(ev: seq<Event>) {
    forall t :: 0 <= t < |ev| ==> NextOk(ev[..t], ev[t])
  }

  // ----- what a slot holds

  ghost predicate SlotHolds(packets: nat -> Packet, h: seq<Event>, r: nat, v: Slot)
    requires forall n :: packets(n).Ok()
  {
    && v.Ok()
    && match HolderOf(h, r)
       case Nobody => v.number == FEC_UNUSED
       case Holder(n) =>
         && packets(n).Ok()
         && v.number == n % SEQ_RANGE && v.plen == packets(n).plen
         && Holds(packets(n), Seen(h, n), v)
  }

  // A slot that has seen the fragments q of packet p.
  ghost predicate Holds(p: Packet, q: seq<nat>, v: Slot)
    requires p.Ok() && v.Ok()
  {
    && 1 <= |q|
    && v.cnt == (if |q| == 1 then 1 else 2)
    && (|q| == 1 ==> Partial(p, q[0], v))
    && (|q| >= 2 && q[0] != q[1] ==> v.buf[..FEC_RS_K] == p.shards[..FEC_RS_K])
  }

  // Fragment k alone is stored.
  ghost predicate Partial(p: Packet, k: nat, v: Slot)
    requires p.Ok() && v.Ok()
  {
    k < FEC_RS_K + FEC_RS_N && v.marks == [true, true, true][k := false] && v.buf[k] == p.shards[k]
  }

  lemma {:induction false} HolderBounds(h: seq<Event>, r: nat, s: nat)
    requires forall t :: 0 <= t < |h| ==> NextOk(h[..t], h[t])
    requires s < |h| && Residue(h[s]) == r
    ensures HolderOf(h, r).Holder? && h[s].n <= HolderOf(h, r).n && HolderOf(h, r).n % SEQ_MAP_SIZE == r
  {
    hide Clash;
    var last := |h| - 1;
    if Residue(h[last]) == r {
      if s < last {
        assert NextOk(h[..last], h[last]);
        assert h[..last][s] == h[s];
        SameSlot(h[s].n, h[last].n);
      }
    } else {
      forall t | 0 <= t < last ensures NextOk(h[..last][..t], h[..last][t]) {
        assert h[..last][..t] == h[..t];
      }
      HolderBounds(h[..last], r, s);
    }
  }

  lemma SameSlot(m: nat, n: nat)
    requires m % SEQ_MAP_SIZE == n % SEQ_MAP_SIZE && m < n + SEQ_MAP_SIZE
    ensures m <= n
  {}

  lemma {:induction false} HolderInHistory(h: seq<Event>, r: nat) returns (s: nat)
    requires HolderOf(h, r).Holder?
    ensures s < |h| && h[s].n == HolderOf(h, r).n && Residue(h[s]) == r
  {
    if Residue(h[|h| - 1]) == r {
      s := |h| - 1;
    } else {
      s := HolderInHistory(h[..|h| - 1], r);
    }
  }

  lemma {:induction false} SeenSomewhere(h: seq<Event>, n: nat) returns (s: nat)
    requires Seen(h, n) != []
    ensures s < |h| && h[s].n == n
  {
    if h[|h| - 1].n == n {
      s := |h| - 1;
    } else {
      s := SeenSomewhere(h[..|h| - 1], n);
    }
  }

  // A packet that is not the holder of its slot is new.
  lemma NewHolder(h: seq<Event>, e: Event)
    requires Orderly(h) && InOrder(h, e)
    requires HolderOf(h, Residue(e)) != Holder.Holder(e.n)
    ensures Seen(h, e.n) == []
  {
    if Seen(h, e.n) != [] {
      var s := SeenSomewhere(h, e.n);
      HolderBounds(h, Residue(e), s);
      var k := HolderInHistory(h, Residue(e));
      SameSlot(h[k].n, e.n);
    }
  }

  // ----- one step

  // What must hold of the packets: they were encoded by the sender.
  ghost predicate Encoded(packets: nat -> Packet) {
    forall n :: packets(n).Ok()
  }

  // In an orderly run decoding succeeds exactly when the second fragment is not the first again.
  lemma NextDecodable(packets: nat -> Packet, h: seq<Event>, e: Event, v: Slot)
    requires Encoded(packets) && Orderly(h) && NextOk(h, e) && SlotHolds(packets, h, Residue(e), v)
    ensures packets(e.n).Ok() && Wire(packets, e).Ok()
    ensures var o := Opened(v, Wire(packets, e));
      o.cnt == 1 ==>
        (Recoverable(FEC_RS_K, FEC_RS_N, Memory(Stored(o, Wire(packets, e)).marks)) <==> Completes(h, e))
  {
    hide Recoverable, Codeword;
    PacketShape(packets(e.n));
    var g := Wire(packets, e);
    if Opened(v, g).cnt == 1 {
      assert HolderOf(h, Residue(e)) == Holder.Holder(e.n);
      assert Partial(packets(e.n), Seen(h, e.n)[0], v);
      RecoverableIfTwo(Memory(Stored(Opened(v, g), g).marks));
    }
  }

  lemma SeenNext(h: seq<Event>, e: Event)
    ensures forall n :: Seen(h + [e], n) == Seen(h, n) + (if n == e.n then [e.i] else [])
    ensures HolderOf(h + [e], Residue(e)) == Holder.Holder(e.n)
    ensures forall r :: r != Residue(e) ==> HolderOf(h + [e], r) == HolderOf(h, r)
  {
    assert (h + [e])[..|h|] == h;
  }

  lemma PacketShape(p: Packet)
    requires p.Ok()
    ensures Blocks(p.shards, FEC_RS_K + FEC_RS_N, FEC_RS_T)
  {}

  // The first fragment of a packet takes the slot over.
  lemma FirstFragment(packets: nat -> Packet, h: seq<Event>, e: Event, v: Slot, v': Slot, done: bool)
    requires Encoded(packets) && Orderly(h) && NextOk(h, e) && SlotHolds(packets, h, Residue(e), v)
    requires packets(e.n).Ok() && Wire(packets, e).Ok()
    requires SlotStep(v, Wire(packets, e), v', done) && HolderOf(h, Residue(e)) != Holder.Holder(e.n)
    ensures Seen(h, e.n) == [] && !done
    ensures SlotHolds(packets, h + [e], Residue(e), v')
  {
    hide Recoverable, Codeword, Rebuilt, Spoilt;
    PacketShape(packets(e.n));
    NewHolder(h, e);
    SeenNext(h, e);
    var g := Wire(packets, e);
    assert v.number != g.number;
    var o := Slot(g.number, g.plen, 0, [true, true, true], v.buf);
    assert Opened(v, g) == o && v' == Stored(o, g);
    assert Partial(packets(e.n), e.i, v');
  }

  // Taking over fails exactly at a clash: then the slot goes on as if the packet before, or
  // the filler, were the one arriving.
  lemma TakeoverExact(packets: nat -> Packet, h: seq<Event>, e: Event, v: Slot, v': Slot, done: bool)
    requires Encoded(packets) && Orderly(h) && InOrder(h, e) && SlotHolds(packets, h, Residue(e), v)
    requires HolderOf(h, Residue(e)) != Holder.Holder(e.n)
    requires HolderOf(h, Residue(e)).Nobody? ==> v.cnt > 0 || v.marks == [false, false, false]
    requires packets(e.n).Ok() && Wire(packets, e).Ok()
    requires SlotStep(v, Wire(packets, e), v', done)
    ensures SlotHolds(packets, h + [e], Residue(e), v') <==> !Clash(h, e)
  {
    hide Recoverable, Codeword, Rebuilt, Spoilt;
    PacketShape(packets(e.n));
    NewHolder(h, e);
    SeenNext(h, e);
    if Clash(h, e) {
      assert v' != v ==> v'.cnt == v.cnt + 1;
      if v'.cnt == 1 {
        var other := if e.i == 0 then 1 else 0;
        assert !v'.marks[other];
      }
    } else {
      FirstFragment(packets, h, e, v, v', done);
    }
  }

  // A packet that clashes at its first fragment is lost: its next fragment, whatever it is, does
  // not report it with its own length.
  lemma ClashLosesPacket(packets: nat -> Packet, h: seq<Event>, e: Event, v: Slot, v': Slot, done: bool,
                         next: Event, v'': Slot, done': bool)
    requires Encoded(packets) && Orderly(h) && InOrder(h, e) && SlotHolds(packets, h, Residue(e), v)
    requires HolderOf(h, Residue(e)) != Holder.Holder(e.n) && Clash(h, e) && packets(e.n).plen > 0
    requires HolderOf(h, Residue(e)).Nobody? ==> v.cnt > 0 || v.plen == 0
    requires packets(e.n).Ok() && Wire(packets, e).Ok() && SlotStep(v, Wire(packets, e), v', done) && v'.Ok()
    requires next.n == e.n && next.i < |packets(e.n).shards|
    requires Wire(packets, next).Ok() && SlotStep(v', Wire(packets, next), v'', done')
    ensures done' ==> v''.plen != packets(e.n).plen
  {
    hide Recoverable, Codeword, Rebuilt, Spoilt, Partial;
    PacketShape(packets(e.n));
  }

  // The second fragment completes the packet, unless it is the first one again.
  lemma SecondFragment(packets: nat -> Packet, h: seq<Event>, e: Event, v: Slot, v': Slot, done: bool)
    requires Encoded(packets) && Orderly(h) && NextOk(h, e) && SlotHolds(packets, h, Residue(e), v)
    requires packets(e.n).Ok() && Wire(packets, e).Ok()
    requires SlotStep(v, Wire(packets, e), v', done)
    requires HolderOf(h, Residue(e)) == Holder.Holder(e.n) && |Seen(h, e.n)| == 1
    ensures done <==> Completes(h, e)
    ensures SlotHolds(packets, h + [e], Residue(e), v')
  {
    hide Recoverable, Codeword, Explains;
    var p := packets(e.n);
    PacketShape(p);
    SeenNext(h, e);
    NextDecodable(packets, h, e, v);
    if done {
      assert Partial(p, Seen(h, e.n)[0], v);
      var s := Stored(v, Wire(packets, e));
      CodewordExplains(FEC_RS_K, FEC_RS_N, p.shards, s.buf, Memory(s.marks), FEC_RS_T);
      assert v'.buf[..FEC_RS_K] == p.shards[..FEC_RS_K];
    }
  }

  // The addressed slot after one step.
  lemma SlotAfterStep(packets: nat -> Packet, h: seq<Event>, e: Event, v: Slot, v': Slot, done: bool)
    requires Encoded(packets) && Orderly(h) && NextOk(h, e) && SlotHolds(packets, h, Residue(e), v)
    requires packets(e.n).Ok() && Wire(packets, e).Ok()
    requires SlotStep(v, Wire(packets, e), v', done)
    ensures SlotHolds(packets, h + [e], Residue(e), v')
    ensures done <==> Completes(h, e)
  {
    hide Recoverable, Codeword, Rebuilt, Spoilt, Partial;
    SeenNext(h, e);
    if HolderOf(h, Residue(e)) != Holder.Holder(e.n) {
      FirstFragment(packets, h, e, v, v', done);
    } else if |Seen(h, e.n)| == 1 {
      SecondFragment(packets, h, e, v, v', done);
    }
  }

  lemma OrderlyNext(h: seq<Event>, e: Event)
    requires Orderly(h) && NextOk(h, e)
    ensures Orderly(h + [e])
  {
    hide NextOk;
    forall t | 0 <= t < |h| + 1 ensures NextOk((h + [e])[..t], (h + [e])[t]) {
      if t < |h| {
        assert (h + [e])[..t] == h[..t];
      } else {
        assert (h + [e])[..t] == h;
      }
    }
  }

  // After a first fragment that takes the slot from another packet, or finds it unused, another
  // fragment of the packet delivers it, whole, if and only if the first one did not clash.
  lemma DeliveredExactly(packets: nat -> Packet, h: seq<Event>, e: Event, v: Slot, v': Slot, done: bool,
                         next: Event, v'': Slot, done': bool)
    requires Encoded(packets) && Orderly(h) && InOrder(h, e) && SlotHolds(packets, h, Residue(e), v)
    requires HolderOf(h, Residue(e)) != Holder.Holder(e.n) && packets(e.n).plen > 0
    requires HolderOf(h, Residue(e)).Nobody? ==> v.cnt > 0 || v.plen == 0
    requires packets(e.n).Ok() && Wire(packets, e).Ok() && SlotStep(v, Wire(packets, e), v', done) && v'.Ok()
    requires next.n == e.n && next.i != e.i && next.i < |packets(e.n).shards|
    requires Wire(packets, next).Ok() && SlotStep(v', Wire(packets, next), v'', done')
    ensures (done' && v''.Ok() && v''.plen == packets(e.n).plen
             && |packets(e.n).shards| >= 2 && v''.buf[..FEC_RS_K] == packets(e.n).shards[..FEC_RS_K])
      <==> !Clash(h, e)
  {
    hide Recoverable, Codeword, Rebuilt, Spoilt, Partial, SlotStep, SlotHolds, Packet.Ok, Encoded, Clash;
    if Clash(h, e) {
      ClashLosesPacket(packets, h, e, v, v', done, next, v'', done');
    } else {
      FirstFragment(packets, h, e, v, v', done);
      OrderlyNext(h, e);
      SeenNext(h, e);
      NoClashAgain(h, e, next);
      SlotAfterStep(packets, h + [e], next, v', v'', done');
      DeliveredSlot(packets, h + [e], next, v'');
    }
  }

  lemma NoClashAgain(h: seq<Event>, e: Event, next: Event)
    requires InOrder(h, e) && next.n == e.n && next.i < FEC_RS_K + FEC_RS_N
    ensures NextOk(h + [e], next)
  {
    SeenNext(h, e);
  }

  lemma DeliveredSlot(packets: nat -> Packet, h: seq<Event>, e: Event, v: Slot)
    requires Encoded(packets) && Completes(h, e) && SlotHolds(packets, h + [e], Residue(e), v)
    ensures var p := packets(e.n);
      v.Ok() && p.Ok() && v.plen == p.plen && |p.shards| >= 2 && v.buf[..FEC_RS_K] == p.shards[..FEC_RS_K]
  {
    hide Codeword;
    SeenNext(h, e);
    PacketShape(packets(e.n));
  }

  // ----- whole runs

  // One call on the table: only the addressed slot takes part.
  ghost predicate TableStep(st: seq<Slot>, g: Fragment, st': seq<Slot>, done: bool) {
    && |st| == |st'| == SEQ_MAP_SIZE && g.Ok()
    && var r := g.number % SEQ_MAP_SIZE;
       st[r].Ok() && SlotStep(st[r], g, st'[r], done) && st' == st[r := st'[r]]
  }

  ghost predicate TableHolds(packets: nat -> Packet, h: seq<Event>, st: seq<Slot>)
    requires Encoded(packets)
  {
    |st| == SEQ_MAP_SIZE && forall r :: 0 <= r < SEQ_MAP_SIZE ==> SlotHolds(packets, h, r, st[r])
  }

  ghost predicate TableOk(st: seq<Slot>) {
    |st| == SEQ_MAP_SIZE && forall r :: 0 <= r < SEQ_MAP_SIZE ==> st[r].Ok()
  }

  // The table as init_dedup_state leaves it.
  ghost predicate TableUnused(st: seq<Slot>) {
    TableOk(st) && forall r :: 0 <= r < SEQ_MAP_SIZE ==> st[r].number == FEC_UNUSED
  }

  // A run from the table init_dedup_state leaves behind.
  ghost predicate IsRun(packets: nat -> Packet, ev: seq<Event>, st: seq<seq<Slot>>, dones: seq<bool>) {
    && |st| == |ev| + 1 && |dones| == |ev|
    && TableUnused(st[0])
    && forall t :: 0 <= t < |ev| ==>
         ev[t].i < |packets(ev[t].n).shards| && TableStep(st[t], Wire(packets, ev[t]), st[t + 1], dones[t])
  }

  lemma TableAfterStep(packets: nat -> Packet, h: seq<Event>, e: Event, st: seq<Slot>, st': seq<Slot>, done: bool)
    requires Encoded(packets) && Orderly(h) && NextOk(h, e) && TableHolds(packets, h, st)
    requires e.i < |packets(e.n).shards| && TableStep(st, Wire(packets, e), st', done)
    ensures TableHolds(packets, h + [e], st')
    ensures done <==> Completes(h, e)
  {
    hide SlotStep, Holds, Seen;
    SlotOf(e.n);
    var q := Residue(e);
    SlotAfterStep(packets, h, e, st[q], st'[q], done);
    forall r | 0 <= r < SEQ_MAP_SIZE && r != q ensures SlotHolds(packets, h + [e], r, st'[r]) {
      OtherSlotKept(packets, h, e, r, st[r]);
    }
  }

  lemma OtherSlotKept(packets: nat -> Packet, h: seq<Event>, e: Event, r: nat, v: Slot)
    requires Encoded(packets) && r != Residue(e) && SlotHolds(packets, h, r, v)
    ensures SlotHolds(packets, h + [e], r, v)
  {
    hide Holds;
    SeenNext(h, e);
    if HolderOf(h, r).Holder? {
      var k := HolderInHistory(h, r);
      var n := HolderOf(h, r).n;
      assert n != e.n && Seen(h + [e], n) == Seen(h, n);
    }
  }

  lemma {:induction false} RunHolds(packets: nat -> Packet, ev: seq<Event>, st: seq<seq<Slot>>, dones: seq<bool>,
                                    t: nat)
    requires Encoded(packets) && Orderly(ev) && IsRun(packets, ev, st, dones) && t <= |ev|
    ensures TableHolds(packets, ev[..t], st[t]) && Orderly(ev[..t])
    decreases t
  {
    hide SlotStep;
    forall k | 0 <= k < t ensures NextOk(ev[..t][..k], ev[..t][k]) {
      assert ev[..t][..k] == ev[..k];
    }
    if t > 0 {
      RunHolds(packets, ev, st, dones, t - 1);
      assert ev[..t] == ev[..t - 1] + [ev[t - 1]];
      TableAfterStep(packets, ev[..t - 1], ev[t - 1], st[t - 1], st[t], dones[t - 1]);
    }
  }

  // For every interleaving: a call reports completion exactly at the second fragment of a
  // packet, if it is not the first again, and then the slot holds the packet that was sent.
  lemma EndToEnd(packets: nat -> Packet, ev: seq<Event>, st: seq<seq<Slot>>, dones: seq<bool>, t: nat)
    requires Encoded(packets) && Orderly(ev) && IsRun(packets, ev, st, dones) && t < |ev|
    ensures dones[t] <==> Completes(ev[..t], ev[t])
    ensures dones[t] ==>
      var v, p := st[t + 1][Residue(ev[t])], packets(ev[t].n);
      v.Ok() && p.Ok() && v.plen == p.plen && (v.buf[0] + v.buf[1])[..v.plen] == p.Bytes()
  {
    hide SlotStep, Codeword;
    RunHolds(packets, ev, st, dones, t);
    assert NextOk(ev[..t], ev[t]);
    TableAfterStep(packets, ev[..t], ev[t], st[t], st[t + 1], dones[t]);
    if dones[t] { CompletedSlot(packets, ev[..t], ev[t], st[t + 1][Residue(ev[t])]); }
  }

  // After the second fragment the slot holds the packet.
  lemma CompletedSlot(packets: nat -> Packet, h: seq<Event>, e: Event, v: Slot)
    requires Encoded(packets) && NextOk(h, e) && Completes(h, e)
    requires SlotHolds(packets, h + [e], Residue(e), v)
    ensures var p := packets(e.n);
      v.Ok() && p.Ok() && v.plen == p.plen && (v.buf[0] + v.buf[1])[..v.plen] == p.Bytes()
  {
    hide Codeword;
    DeliveredSlot(packets, h, e, v);
    PacketShape(packets(e.n));
    assert v.buf[0] == v.buf[..FEC_RS_K][0] && v.buf[1] == v.buf[..FEC_RS_K][1];
  }

  // Every call has an outcome.
  lemma StepExists(v: Slot, g: Fragment) returns (v': Slot, done: bool)
    requires v.Ok() && g.Ok()
    ensures v'.Ok() && SlotStep(v, g, v', done)
  {
    hide Recoverable, Explains;
    var o := Opened(v, g);
    v', done := o, false;
    if o.cnt < FEC_RS_K {
      var s := Stored(o, g);
      v', done := s, FEC_RS_K <= s.cnt && Recoverable(FEC_RS_K, FEC_RS_N, Memory(s.marks));
      if done {
        var r := Mds.UniqueExplanation(FEC_RS_K, FEC_RS_N, s.buf, Memory(s.marks), FEC_RS_T);
        assert Explains(FEC_RS_K, FEC_RS_N, s.buf, Memory(s.marks), FEC_RS_T, r);
        ExplanationShape(s, r);
        v' := s.(buf := r + s.buf[FEC_RS_K..]);
        assert v'.buf[..FEC_RS_K] == r;
      }
    }
  }

  lemma ExplanationShape(s: Slot, r: seq<Vec>)
    requires s.Ok() && Recoverable(FEC_RS_K, FEC_RS_N, Memory(s.marks))
    requires Explains(FEC_RS_K, FEC_RS_N, s.buf, Memory(s.marks), FEC_RS_T, r)
    ensures Blocks(r, FEC_RS_K, FEC_RS_T)
  {}

  // Every sequence of fragments has a run from every unused table.
  lemma {:induction false} RunExists(packets: nat -> Packet, ev: seq<Event>, start: seq<Slot>)
    returns (st: seq<seq<Slot>>, dones: seq<bool>)
    requires Encoded(packets) && forall e :: e in ev ==> e.i < FEC_RS_K + FEC_RS_N
    requires TableUnused(start)
    ensures IsRun(packets, ev, st, dones) && st[0] == start
    ensures forall t :: 0 <= t < |st| ==> TableOk(st[t])
  {
    hide SlotStep, Codeword, Slot.Ok;
    if ev == [] {
      st, dones := [start], [];
    } else {
      var m := |ev| - 1;
      st, dones := RunExists(packets, ev[..m], start);
      assert ev[m] in ev;
      PacketShape(packets(ev[m].n));
      var g := Wire(packets, ev[m]);
      var r := g.number % SEQ_MAP_SIZE;
      assert TableOk(st[m]);
      var v', done := StepExists(st[m][r], g);
      st, dones := st + [st[m][r := v']], dones + [done];
      assert TableStep(st[m], g, st[m + 1], done);
    }
  }

  // So every orderly sequence of fragments has a run, and every such run completes each packet
  // at its second fragment.
  lemma OrderlyRun(packets: nat -> Packet, ev: seq<Event>, start: seq<Slot>)
    returns (st: seq<seq<Slot>>, dones: seq<bool>)
    requires Encoded(packets) && Orderly(ev) && TableUnused(start)
    ensures IsRun(packets, ev, st, dones) && st[0] == start
    ensures forall t :: 0 <= t < |ev| ==> (dones[t] <==> Completes(ev[..t], ev[t]))
  {
    hide SlotStep, Codeword, Slot.Ok, IsRun, Completes, Encoded;
    forall e | e in ev ensures e.i < FEC_RS_K + FEC_RS_N {
      var t :| 0 <= t < |ev| && ev[t] == e;
      assert NextOk(ev[..t], ev[t]);
    }
    st, dones := RunExists(packets, ev, start);
    RunShape(packets, ev, st, dones);
    forall t | 0 <= t < |ev| ensures dones[t] <==> Completes(ev[..t], ev[t]) {
      EndToEnd(packets, ev, st, dones, t);
    }
  }

  lemma RunShape(packets: nat -> Packet, ev: seq<Event>, st: seq<seq<Slot>>, dones: seq<bool>)
    requires IsRun(packets, ev, st, dones)
    ensures |st| == |ev| + 1 && |dones| == |ev|
  {}

  // No packet is reported complete twice.
  lemma CompleteOnce(packets: nat -> Packet, ev: seq<Event>, st: seq<seq<Slot>>, dones: seq<bool>, s: nat, t: nat)
    requires Encoded(packets) && Orderly(ev) && IsRun(packets, ev, st, dones) && s < t < |ev|
    requires ev[s].n == ev[t].n
    ensures !(dones[s] && dones[t])
  {
    hide SlotStep, Codeword, IsRun, Encoded, Packet.Ok;
    EndToEnd(packets, ev, st, dones, s);
    EndToEnd(packets, ev, st, dones, t);
    SeenNext(ev[..s], ev[s]);
    assert ev[..s + 1] == ev[..s] + [ev[s]];
    SeenGrows(ev, s + 1, t, ev[s].n);
  }

  lemma {:induction false} SeenGrows(ev: seq<Event>, s: nat, t: nat, n: nat)
    requires s <= t <= |ev|
    ensures Seen(ev[..s], n) <= Seen(ev[..t], n)
    decreases t
  {
    if s < t {
      SeenGrows(ev, s, t - 1, n);
      assert ev[..t][..t - 1] == ev[..t - 1];
    }
  }

  // Where the arrival that was seen as number k happened.
  lemma {:induction false} SeenAt(ev: seq<Event>, n: nat, u: nat, k: nat) returns (t: nat)
    requires u <= |ev| && k < |Seen(ev[..u], n)|
    ensures t < u && ev[t] == Event(n, Seen(ev[..u], n)[k]) && |Seen(ev[..t], n)| == k
    ensures Seen(ev[..t], n) <= Seen(ev[..u], n)
    decreases u
  {
    t := u - 1;
    assert ev[..u][..t] == ev[..t];
    if k < |Seen(ev[..t], n)| {
      t := SeenAt(ev, n, t, k);
    }
  }

  // A packet is reported complete if and only if the first two of its fragments to arrive are
  // different ones; more fragments do not help.
  lemma CompleteExactly(packets: nat -> Packet, ev: seq<Event>, st: seq<seq<Slot>>, dones: seq<bool>, n: nat)
    requires Encoded(packets) && Orderly(ev) && IsRun(packets, ev, st, dones) && |dones| == |ev|
    ensures (exists t :: 0 <= t < |ev| && ev[t].n == n && dones[t])
      <==> |Seen(ev, n)| >= 2 && Seen(ev, n)[0] != Seen(ev, n)[1]
  {
    hide SlotStep, Codeword, Encoded, Orderly, IsRun, Packet.Ok;
    assert ev[..|ev|] == ev;
    if t :| 0 <= t < |ev| && ev[t].n == n && dones[t] {
      EndToEnd(packets, ev, st, dones, t);
      SeenNext(ev[..t], ev[t]);
      assert ev[..t + 1] == ev[..t] + [ev[t]];
      SeenGrows(ev, t + 1, |ev|, n);
    }
    if |Seen(ev, n)| >= 2 && Seen(ev, n)[0] != Seen(ev, n)[1] {
      var t := SeenAt(ev, n, |ev|, 1);
      EndToEnd(packets, ev, st, dones, t);
      assert dones[t];
    }
  }

  // Where no fragment is repeated, any two suffice.
  lemma CompleteIfTwo(packets: nat -> Packet, ev: seq<Event>, st: seq<seq<Slot>>, dones: seq<bool>, n: nat)
    requires Encoded(packets) && Orderly(ev) && IsRun(packets, ev, st, dones) && |dones| == |ev|
    requires forall s, t :: 0 <= s < t < |ev| ==> ev[s] != ev[t]
    requires |Seen(ev, n)| >= 2
    ensures exists t :: 0 <= t < |ev| && ev[t].n == n && dones[t]
  {
    hide Encoded, Orderly, IsRun;
    assert ev[..|ev|] == ev;
    var s := SeenAt(ev, n, |ev|, 0);
    var t := SeenAt(ev, n, |ev|, 1);
    assert s != t && ev[s] != ev[t];
    CompleteExactly(packets, ev, st, dones, n);
  }

  // The filler costs a packet: a packet numbered 0xAA55 that meets an unused slot is reported
  // complete with length zero, and a lost data fragment is not rebuilt.
  lemma UnusedNumberLost(p: Packet, v: Slot, v': Slot, d: bool, d': bool)
    requires p.Ok() && |p.shards| == 3
    requires Fragment(0xAA55, p.plen, 1, p.shards[1]).Ok() && Fragment(0xAA55, p.plen, 2, p.shards[2]).Ok()
    requires UnusedSlot().Ok()
    requires SlotStep(UnusedSlot(), Fragment(0xAA55, p.plen, 1, p.shards[1]), v, d)
    requires v.Ok() && SlotStep(v, Fragment(0xAA55, p.plen, 2, p.shards[2]), v', d')
    ensures d' && v'.plen == 0 && v'.buf[0] == ZeroBlock()
  {
    hide Codeword, ZeroBlock;
    var s := Stored(v, Fragment(0xAA55, p.plen, 2, p.shards[2]));
    assert s.marks == [false, false, false];
    IndicesNone(Memory(s.marks), 0, FEC_RS_K);
    RecoverableIfTwo(Memory(s.marks));
    assert Explains(FEC_RS_K, FEC_RS_N, s.buf, Memory(s.marks), FEC_RS_T, s.buf[..FEC_RS_K]);
    assert v'.buf[0] == v'.buf[..FEC_RS_K][0];
  }
}
