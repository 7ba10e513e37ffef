// Both ends of the tunnel together: large packets as fragments, small ones as copies on several
// paths, one counter for both, and a receiver that sorts them out again. Every message that
// arrives comes out once, whole.
module Transport {
  import opened Common
  import opened Field
  import opened LinearSystem
  import opened ErasureCode
  import RsSolve
  import opened ReedSolomon
  import Mds
  import Dedup
  import opened Fec
  import opened FecRun
  import opened Tunnel

  // ----- what is on the wire

  // A datagram holds a fragment or a whole packet.
  datatype Datagram = Coded(fragment: Fragment) | Plain(number: nat, payload: seq<Byte>)

  // What the receiver thread writes to the TUN device for a datagram.
  datatype Output = Silent | Write(bytes: seq<Byte>)

  // What the sender put on the wire for one number. A coded message travels as the fragments of
  // its packet, a plain one as copies of its bytes; its packet is not used then.
  datatype Message = Message(bytes: seq<Byte>, packet: Packet)

  ghost predicate MessageOk(m: Message, coded: bool) {
    m.packet.Ok() && (coded ==> PacketBytes(m.packet) == m.bytes)
  }

  ghost function PacketBytes(p: Packet): seq<Byte>
    requires p.Ok()
  {
    PacketShape(p);
    p.Bytes()
  }

  // Every number stands for a proper message.
  ghost predicate AllOk(coded: nat -> bool, sent: nat -> Message) {
    forall n :: MessageOk(sent(n), coded(n))
  }

  ghost function Packets(sent: nat -> Message): nat -> Packet {
    (n: nat) => sent(n).packet
  }

  lemma PacketsEncoded(coded: nat -> bool, sent: nat -> Message)
    requires AllOk(coded, sent)
    ensures Encoded(Packets(sent))
  {
    hide Codeword;
    forall n: nat ensures Packets(sent)(n).Ok() { assert MessageOk(sent(n), coded(n)); }
  }

  // Datagram i of the message numbered n: a fragment, or a copy sent on path i.
  ghost predicate OnWire(coded: nat -> bool, sent: nat -> Message, e: Event, d: Datagram) {
    if coded(e.n) then
      e.i < |sent(e.n).packet.shards| && d == Coded(Wire(Packets(sent), e))
    else
      d == Plain(e.n % Dedup.SEQ_RANGE, sent(e.n).bytes)
  }

  // ----- splitting the traffic

  // The fragments among the datagrams.
  ghost function Fragments(coded: nat -> bool, ev: seq<Event>): seq<Event> {
    if ev == [] then []
    else
      var e := ev[|ev| - 1];
      Fragments(coded, ev[..|ev| - 1]) + (if coded(e.n) then [e] else [])
  }

  // The whole packets among them, with their times of arrival.
  ghost function Wholes(coded: nat -> bool, ev: seq<Event>, times: seq<int>): seq<Dedup.Arrival>
    requires |times| == |ev|
  {
    if ev == [] then []
    else
      var m := |ev| - 1;
      Wholes(coded, ev[..m], times[..m]) + (if coded(ev[m].n) then [] else [Dedup.Arrival(ev[m].n, times[m])])
  }

  lemma {:induction false} FragmentsGrow(coded: nat -> bool, ev: seq<Event>, t: nat)
    requires t <= |ev|
    ensures Fragments(coded, ev[..t]) <= Fragments(coded, ev)
    decreases |ev|
  {
    if t == |ev| {
      assert ev[..t] == ev;
    } else {
      var m := |ev| - 1;
      FragmentsGrow(coded, ev[..m], t);
      assert ev[..m][..t] == ev[..t];
    }
  }

  lemma {:induction false} WholesGrow(coded: nat -> bool, ev: seq<Event>, times: seq<int>, t: nat)
    requires t <= |ev| == |times|
    ensures Wholes(coded, ev[..t], times[..t]) <= Wholes(coded, ev, times)
    decreases |ev|
  {
    if t == |ev| {
      assert ev[..t] == ev && times[..t] == times;
    } else {
      var m := |ev| - 1;
      WholesGrow(coded, ev[..m], times[..m], t);
      assert ev[..m][..t] == ev[..t] && times[..m][..t] == times[..t];
    }
  }

  // Adding datagram t to those before it.
  lemma SplitNext(coded: nat -> bool, ev: seq<Event>, times: seq<int>, t: nat)
    requires t < |ev| == |times|
    ensures var f, w := Fragments(coded, ev[..t]), Wholes(coded, ev[..t], times[..t]);
      && Fragments(coded, ev[..t + 1]) == (if coded(ev[t].n) then f + [ev[t]] else f)
      && Wholes(coded, ev[..t + 1], times[..t + 1])
         == (if coded(ev[t].n) then w else w + [Dedup.Arrival(ev[t].n, times[t])])
  {
    assert ev[..t + 1][..t] == ev[..t] && times[..t + 1][..t] == times[..t];
  }

  // A plain message has arrived before exactly if its number is among the whole packets.
  lemma {:induction false} WholesHave(coded: nat -> bool, ev: seq<Event>, times: seq<int>, n: nat)
    requires |times| == |ev| && !coded(n)
    ensures (exists u :: 0 <= u < |ev| && ev[u].n == n)
      <==> (exists k :: 0 <= k < |Wholes(coded, ev, times)| && Wholes(coded, ev, times)[k].n == n)
    decreases |ev|
  {
    if ev != [] {
      var m := |ev| - 1;
      WholesHave(coded, ev[..m], times[..m], n);
      var before, w := Wholes(coded, ev[..m], times[..m]), Wholes(coded, ev, times);
      if k :| 0 <= k < |before| && before[k].n == n { assert w[k] == before[k]; }
      if u :| 0 <= u < |ev| && ev[u].n == n {
        if u < m { assert ev[..m][u] == ev[u]; } else { assert w[|before|].n == n; }
      }
      if k :| 0 <= k < |w| && w[k].n == n {
        if k < |before| { assert before[k].n == n; } else { assert ev[m].n == n; }
      }
      if u :| 0 <= u < m && ev[..m][u].n == n { assert ev[u].n == n; }
    }
  }

  // ----- what the receiver should do

  // A fragmented message is written at its second fragment, if that is not the first again, a
  // plain one at its first copy.
  ghost function Expected(coded: nat -> bool, ev: seq<Event>, t: nat, bytes: seq<Byte>): Output
    requires t < |ev|
  {
    if coded(ev[t].n) then
      if Completes(Fragments(coded, ev[..t]), ev[t]) then Write(bytes) else Silent
    else
      if forall u :: 0 <= u < t ==> ev[u].n != ev[t].n then Write(bytes) else Silent
  }

  // Arrival t is the second datagram of its message, and not the first one again.
  ghost predicate SecondOfTwo(ev: seq<Event>, t: int) {
    0 <= t < |ev| && exists s :: 0 <= s < t && OneOther(ev, s, t)
  }

  // Arrival s is another datagram of the message, and the only one before arrival t.
  ghost predicate OneOther(ev: seq<Event>, s: int, t: int) {
    && 0 <= s < t < |ev| && ev[s].n == ev[t].n && ev[s].i != ev[t].i
    && forall u :: 0 <= u < t && u != s ==> ev[u].n != ev[t].n
  }

  // Arrival t is the first datagram of its message.
  ghost predicate FirstOfAll(ev: seq<Event>, t: int) {
    0 <= t < |ev| && forall u :: 0 <= u < t ==> ev[u].n != ev[t].n
  }

  lemma {:induction false} SeenAmongAll(coded: nat -> bool, ev: seq<Event>, n: nat)
    requires coded(n)
    ensures Seen(Fragments(coded, ev), n) == Seen(ev, n)
  {
    if ev != [] {
      var m := |ev| - 1;
      SeenAmongAll(coded, ev[..m], n);
      SeenNext(Fragments(coded, ev[..m]), ev[m]);
      assert Fragments(coded, ev) == Fragments(coded, ev[..m]) + if coded(ev[m].n) then [ev[m]] else [];
      if !coded(ev[m].n) { assert Fragments(coded, ev) == Fragments(coded, ev[..m]); }
    }
  }

  lemma {:induction false} SeenNotEmpty(h: seq<Event>, n: nat, s: nat)
    requires s < |h| && h[s].n == n
    ensures Seen(h, n) != []
  {
    if s < |h| - 1 { SeenNotEmpty(h[..|h| - 1], n, s); }
  }

  lemma {:induction false} SeenOnce(h: seq<Event>, n: nat, s: nat)
    requires s < |h| && h[s].n == n
    ensures |Seen(h, n)| == 1 <==> forall u :: 0 <= u < |h| && u != s ==> h[u].n != n
    ensures |Seen(h, n)| == 1 ==> Seen(h, n) == [h[s].i]
  {
    var m := |h| - 1;
    var before := h[..m];
    if s == m {
      if Seen(before, n) != [] { var u := SeenSomewhere(before, n); }
      if u :| 0 <= u < m && h[u].n == n { SeenNotEmpty(before, n, u); }
    } else {
      SeenOnce(before, n, s);
      SeenNotEmpty(before, n, s);
      if u :| 0 <= u < m && u != s && h[u].n == n { assert before[u].n == n; }
      if u :| 0 <= u < m && u != s && before[u].n == n { assert h[u].n == n; }
    }
  }

  lemma CompletesMeans(ev: seq<Event>, t: nat)
    requires t < |ev|
    ensures Completes(ev[..t], ev[t]) <==> SecondOfTwo(ev, t)
  {
    hide Seen;
    var h := ev[..t];
    if Completes(h, ev[t]) {
      var s := SeenSomewhere(h, ev[t].n);
      SeenOnce(h, ev[t].n, s);
      assert OneOther(ev, s, t);
    }
    if s :| 0 <= s < t && OneOther(ev, s, t) {
      assert h[s] == ev[s];
      SeenOnce(h, ev[t].n, s);
    }
  }

  // What Expected says of the order of arrival alone.
  lemma ExpectedMeans(coded: nat -> bool, ev: seq<Event>, t: nat, bytes: seq<Byte>)
    requires t < |ev|
    ensures Expected(coded, ev, t, bytes)
         == if (if coded(ev[t].n) then SecondOfTwo(ev, t) else FirstOfAll(ev, t)) then Write(bytes) else Silent
  {
    hide Seen, Fragments, SecondOfTwo;
    CompletesMeans(ev, t);
    if coded(ev[t].n) { SeenAmongAll(coded, ev[..t], ev[t].n); }
  }

  // Where fragment j came among all datagrams.
  lemma {:induction false} FragmentAt(coded: nat -> bool, ev: seq<Event>, j: nat) returns (t: nat)
    requires j < |Fragments(coded, ev)|
    ensures t < |ev| && ev[t] == Fragments(coded, ev)[j] && coded(ev[t].n)
    ensures Fragments(coded, ev[..t]) == Fragments(coded, ev)[..j]
    decreases |ev|
  {
    var m := |ev| - 1;
    var before := Fragments(coded, ev[..m]);
    if j < |before| {
      t := FragmentAt(coded, ev[..m], j);
      assert ev[..m][..t] == ev[..t];
      assert Fragments(coded, ev)[..j] == before[..j];
    } else {
      t := m;
      assert Fragments(coded, ev)[..j] == before;
    }
  }

  // No message is written twice.
  lemma WrittenOnce(coded: nat -> bool, ev: seq<Event>, s: nat, t: nat, bytes: seq<Byte>)
    requires s < t < |ev| && ev[s].n == ev[t].n
    ensures !(Expected(coded, ev, s, bytes).Write? && Expected(coded, ev, t, bytes).Write?)
  {
    hide Seen;
    if coded(ev[t].n) {
      var h := Fragments(coded, ev[..t]);
      var before := Fragments(coded, ev[..s]);
      assert ev[..t][..s + 1] == ev[..s + 1] && ev[..s + 1][..s] == ev[..s];
      FragmentsGrow(coded, ev[..t], s + 1);
      assert before + [ev[s]] <= h && h[..|before| + 1] == before + [ev[s]] && h[..|h|] == h;
      SeenNext(before, ev[s]);
      SeenGrows(h, |before| + 1, |h|, ev[s].n);
    }
  }

  // A plain message is written if a copy arrives; a coded one if and only if the first two of its
  // fragments to arrive are different.
  lemma WrittenExactly(coded: nat -> bool, ev: seq<Event>, n: nat, bytes: seq<Byte>)
    ensures (exists t :: 0 <= t < |ev| && ev[t].n == n && Expected(coded, ev, t, bytes).Write?)
      <==> if coded(n) then var q := Seen(Fragments(coded, ev), n); |q| >= 2 && q[0] != q[1]
           else exists t :: 0 <= t < |ev| && ev[t].n == n
  {
    hide Seen, Fragments;
    var f := Fragments(coded, ev);
    assert f[..|f|] == f;
    if coded(n) {
      if t :| 0 <= t < |ev| && ev[t].n == n && Expected(coded, ev, t, bytes).Write? {
        var h := Fragments(coded, ev[..t]);
        NextFragment(coded, ev, t);
        SeenNext(h, ev[t]);
        SeenGrows(f, |h| + 1, |f|, n);
      }
      if |Seen(f, n)| >= 2 && Seen(f, n)[0] != Seen(f, n)[1] {
        var j := SeenAt(f, n, |f|, 1);
        var t := FragmentAt(coded, ev, j);
        assert Expected(coded, ev, t, bytes).Write?;
      }
    } else if t :| 0 <= t < |ev| && ev[t].n == n {
      var first := FirstWith(ev, n, t);
      assert Expected(coded, ev, first, bytes).Write?;
    }
  }

  lemma NextFragment(coded: nat -> bool, ev: seq<Event>, t: nat)
    requires t < |ev| && coded(ev[t].n)
    ensures var h, f := Fragments(coded, ev[..t]), Fragments(coded, ev);
      |h| < |f| && f[..|h| + 1] == h + [ev[t]]
  {
    FragmentsGrow(coded, ev, t + 1);
    assert ev[..t + 1][..t] == ev[..t];
  }

  lemma {:induction false} FirstWith(ev: seq<Event>, n: nat, t: nat) returns (u: nat)
    requires t < |ev| && ev[t].n == n
    ensures u <= t && ev[u].n == n && forall v :: 0 <= v < u ==> ev[v].n != n
    decreases t
  {
    u := t;
    if v :| 0 <= v < t && ev[v].n == n {
      u := FirstWith(ev, n, v);
    }
  }

  // The fragments come in order and do not clash; neither do the whole packets, whose copies
  // lie within three minutes of the first, on a filter last updated at the given time.
  ghost predicate Calm(coded: nat -> bool, ev: seq<Event>, times: seq<int>, last: int)
    requires |times| == |ev|
  {
    var w := Wholes(coded, ev, times);
    && Orderly(Fragments(coded, ev))
    && Dedup.Orderly(w) && Dedup.NeverConfused(Dedup.Ideal(map[], last), w, |w|)
    && forall j, k :: 0 <= j < k < |w| && w[j].n == w[k].n ==> w[k].time <= w[j].time + CONN_TIMEOUT
  }

  // The receiver after the fragments h: its objects are in order and every slot holds what it
  // should.
  ghost predicate Ready(table: FecTable, rs: Codec, packets: nat -> Packet, h: seq<Event>)
    requires Encoded(packets)
    reads table.slots, Buffers(table.slots), rs.p
  {
    && table.Valid() && rs.Valid() && rs.ds == FEC_RS_K && rs.ps == FEC_RS_N
    && rs.p !in Buffers(table.slots)
    && TableHolds(packets, h, Values(table.slots))
  }

  lemma StartsReady(table: FecTable, rs: Codec, packets: nat -> Packet)
    requires table.Valid() && TableUnused(Values(table.slots)) && Encoded(packets)
    requires rs.Valid() && rs.ds == FEC_RS_K && rs.ps == FEC_RS_N && rs.p !in Buffers(table.slots)
    ensures Ready(table, rs, packets, [])
  {
    assert TableHolds(packets, [], Values(table.slots));
  }

  lemma OrderlyPrefix(ev: seq<Event>, h: seq<Event>)
    requires Orderly(ev) && h <= ev
    ensures Orderly(h)
  {
    hide NextOk;
    forall k | 0 <= k < |h| ensures NextOk(h[..k], h[k]) {
      assert h[..k] == ev[..k];
    }
  }

  lemma OrderlyLast(h: seq<Event>, e: Event)
    requires Orderly(h + [e])
    ensures NextOk(h, e)
  {
    hide NextOk;
    assert (h + [e])[..|h|] == h;
    assert NextOk((h + [e])[..|h|], (h + [e])[|h|]);
  }

  lemma BuffersOf(slots: seq<FecSlot>, i: nat)
    requires i < |slots|
    ensures forall b :: b in slots[i].buf ==> b in Buffers(slots)
  {
    assert slots[i] in slots;
  }

  lemma FragmentOk(packets: nat -> Packet, h: seq<Event>, e: Event)
    requires Encoded(packets) && NextOk(h, e)
    ensures packets(e.n).Ok() && e.i < |packets(e.n).shards| && Wire(packets, e).Ok()
  {
    hide Codeword;
    PacketShape(packets(e.n));
  }

  // ----- the receiver thread

  // The branch for fragments.
  method ReceiveFragment(table: FecTable, rs: Codec, g: Fragment, ghost packets: nat -> Packet, ghost h: seq<Event>,
                         ghost e: Event)
    returns (one: Output)
    requires Encoded(packets) && Orderly(h) && NextOk(h, e)
    requires e.i < |packets(e.n).shards| && g == Wire(packets, e) && Ready(table, rs, packets, h)
    modifies table.slots, Buffers(table.slots), rs.p
    ensures Ready(table, rs, packets, h + [e])
    ensures packets(e.n).Ok() && one == if Completes(h, e) then Write(PacketBytes(packets(e.n))) else Silent
  {
    hide SlotStep, Completes, TableStep, Contents, Codeword, NextOk, Values, Orderly;
    var idx := g.number % Dedup.SEQ_MAP_SIZE;
    ghost var before := Values(table.slots);
    BuffersOf(table.slots, idx);
    FragmentOk(packets, h, e);
    var done, slot := table.FecRecvDone(g, rs);
    ghost var after := Values(table.slots);
    TableAfterStep(packets, h, e, before, after, done);
    one := Silent;
    if done {
      Dedup.SlotOf(e.n);
      CompletedSlot(packets, h, e, after[idx]);
      one := Write((slot.buf[0][..] + slot.buf[1][..])[..slot.plen]);
    }
  }

  // The branch for whole packets: arrival k of w.
  method ReceiveWhole(state: Dedup.DedupState, number: nat, payload: seq<Byte>, now: int,
                      ghost f: Dedup.Filter, ghost w: seq<Dedup.Arrival>, ghost k: nat)
    returns (one: Output)
    requires state.Valid() && f.Ok() && k < |w| && state.Value() == Dedup.Run(f, w[..k])
    requires number == w[k].n % Dedup.SEQ_RANGE && now == w[k].time
    modifies state, state.seqMap
    ensures state.Valid() && state.Value() == Dedup.Run(f, w[..k + 1])
    ensures one == if Dedup.Accepted(f, w, k) then Write(payload) else Silent
  {
    Dedup.RunNext(f, w, k);
    var duplicate := state.IsDuplicate(number, now);
    one := if duplicate then Silent else Write(payload);
  }

  // In calm traffic exactly the first copy of a plain message is passed on.
  lemma FirstCopyOnly(coded: nat -> bool, ev: seq<Event>, times: seq<int>, f: Dedup.Filter, t: nat)
    requires |times| == |ev| && t < |ev| && !coded(ev[t].n)
    requires f.Ok() && Dedup.Agrees(f, Dedup.Ideal(map[], f.last)) && Calm(coded, ev, times, f.last)
    ensures var w, k := Wholes(coded, ev, times), |Wholes(coded, ev[..t], times[..t])|;
      && k < |w| && w[..k] == Wholes(coded, ev[..t], times[..t])
      && w[..k + 1] == Wholes(coded, ev[..t + 1], times[..t + 1])
      && w[k] == Dedup.Arrival(ev[t].n, times[t])
      && (Dedup.Accepted(f, w, k) <==> forall u :: 0 <= u < t ==> ev[u].n != ev[t].n)
  {
    hide Dedup.Accepted, Dedup.Agrees, Dedup.NeverConfused, Dedup.Orderly, Orderly, Wholes, Fragments;
    var w, before := Wholes(coded, ev, times), Wholes(coded, ev[..t], times[..t]);
    var k := |before|;
    WholesGrow(coded, ev, times, t + 1);
    SplitNext(coded, ev, times, t);
    assert w[..k] == before && w[..k + 1] == before + [w[k]];
    var s := Dedup.First(w, k);
    Dedup.ExactlyOnce(f, w, k);
    WholesHave(coded, ev[..t], times[..t], ev[t].n);
    if u :| 0 <= u < t && ev[u].n == ev[t].n {
      assert ev[..t][u].n == ev[t].n;
      var j :| 0 <= j < |before| && before[j].n == ev[t].n;
      assert w[j].n == w[k].n;
    }
    if s < k {
      assert before[s].n == ev[t].n;
      var u :| 0 <= u < |ev[..t]| && ev[..t][u].n == ev[t].n;
      assert ev[u].n == ev[t].n;
    }
  }

  // The receiver after the datagrams h.
  ghost predicate BothReady(table: FecTable, rs: Codec, state: Dedup.DedupState, coded: nat -> bool,
                            sent: nat -> Message, f: Dedup.Filter, h: seq<Event>, times: seq<int>)
    requires |times| == |h| && f.Ok()
    reads table.slots, Buffers(table.slots), rs.p, state, state.seqMap
  {
    && Encoded(Packets(sent)) && Ready(table, rs, Packets(sent), Fragments(coded, h))
    && state.Valid() && Apart(table, rs, state) && state.Value() == Dedup.Run(f, Wholes(coded, h, times))
  }

  // The filter's memory is not the table's.
  ghost predicate Apart(table: FecTable, rs: Codec, state: Dedup.DedupState) {
    state !in Buffers(table.slots) && state.seqMap !in Buffers(table.slots) && (rs.p as object) != state.seqMap
  }

  method ReceiveOne(table: FecTable, rs: Codec, state: Dedup.DedupState, d: Datagram, now: int,
                    ghost coded: nat -> bool, ghost sent: nat -> Message, ghost f: Dedup.Filter,
                    ghost ev: seq<Event>, ghost times: seq<int>, ghost t: nat)
    returns (one: Output)
    requires t < |ev| == |times| && f.Ok() && Dedup.Agrees(f, Dedup.Ideal(map[], f.last))
    requires AllOk(coded, sent) && Calm(coded, ev, times, f.last)
    requires OnWire(coded, sent, ev[t], d) && now == times[t]
    requires BothReady(table, rs, state, coded, sent, f, ev[..t], times[..t])
    modifies table.slots, Buffers(table.slots), rs.p, state, state.seqMap
    ensures BothReady(table, rs, state, coded, sent, f, ev[..t + 1], times[..t + 1])
    ensures one == Expected(coded, ev, t, sent(ev[t].n).bytes)
  {
    hide Ready, Fragments, Wholes, Dedup.Run, Dedup.Accepted, Completes, Orderly, Encoded, MessageOk;
    hide Dedup.Agrees, Dedup.NeverConfused, Dedup.Orderly, Dedup.DedupState.Value;
    SplitNext(coded, ev, times, t);
    match d
    case Coded(g) =>
      FragmentsGrow(coded, ev, t);
      FragmentsGrow(coded, ev, t + 1);
      OrderlyPrefix(Fragments(coded, ev), Fragments(coded, ev[..t]));
      OrderlyPrefix(Fragments(coded, ev), Fragments(coded, ev[..t + 1]));
      OrderlyLast(Fragments(coded, ev[..t]), ev[t]);
      CodedBytes(coded, sent, ev[t].n);
      one := ReceiveFragment(table, rs, g, Packets(sent), Fragments(coded, ev[..t]), ev[t]);
      assert Ready(table, rs, Packets(sent), Fragments(coded, ev[..t + 1]));
      assert state.Value() == Dedup.Run(f, Wholes(coded, ev[..t + 1], times[..t + 1]));
    case Plain(number, payload) =>
      FirstCopyOnly(coded, ev, times, f, t);
      ghost var w, k := Wholes(coded, ev, times), |Wholes(coded, ev[..t], times[..t])|;
      one := ReceiveWhole(state, number, payload, now, f, w, k);
      assert state.Value() == Dedup.Run(f, Wholes(coded, ev[..t + 1], times[..t + 1]));
      assert Fragments(coded, ev[..t + 1]) == Fragments(coded, ev[..t]);
      assert Ready(table, rs, Packets(sent), Fragments(coded, ev[..t]));
  }

  lemma CodedBytes(coded: nat -> bool, sent: nat -> Message, n: nat)
    requires AllOk(coded, sent) && coded(n)
    ensures sent(n).packet.Ok() && PacketBytes(Packets(sent)(n)) == sent(n).bytes
  {
    hide PacketBytes, Packet.Ok;
    assert MessageOk(sent(n), coded(n));
  }

  // The receiver thread: fragments go to the table, whole packets to the duplicate filter.
  method Receive(table: FecTable, rs: Codec, state: Dedup.DedupState, arrivals: seq<Datagram>, times: seq<int>,
                 ghost coded: nat -> bool, ghost sent: nat -> Message, ghost ev: seq<Event>)
    returns (out: seq<Output>)
    requires table.Valid() && TableUnused(Values(table.slots))
    requires rs.Valid() && rs.ds == FEC_RS_K && rs.ps == FEC_RS_N && rs.p !in Buffers(table.slots)
    requires state.Valid() && Apart(table, rs, state)
    requires Dedup.Agrees(state.Value(), Dedup.Ideal(map[], state.lastUpdate))
    requires AllOk(coded, sent) && |arrivals| == |ev| == |times| && Calm(coded, ev, times, state.lastUpdate)
    requires forall t :: 0 <= t < |ev| ==> OnWire(coded, sent, ev[t], arrivals[t])
    modifies table.slots, Buffers(table.slots), rs.p, state, state.seqMap
    ensures |out| == |ev| && forall t :: 0 <= t < |ev| ==> out[t] == Expected(coded, ev, t, sent(ev[t].n).bytes)
  {
    hide *;
    ghost var f := state.Value();
    out := [];
    BothStart(table, rs, state, coded, sent);
    var t := 0;
    assert ev[..0] == [] && times[..0] == [];
    while t < |arrivals|
      invariant t <= |arrivals| && |out| == t
      invariant BothReady(table, rs, state, coded, sent, f, ev[..t], times[..t])
      invariant forall u :: 0 <= u < t ==> out[u] == Expected(coded, ev, u, sent(ev[u].n).bytes)
    {
      var one := ReceiveOne(table, rs, state, arrivals[t], times[t], coded, sent, f, ev, times, t);
      out := out + [one];
      t := t + 1;
    }
  }

  lemma BothStart(table: FecTable, rs: Codec, state: Dedup.DedupState, coded: nat -> bool,
                  sent: nat -> Message)
    requires table.Valid() && TableUnused(Values(table.slots)) && AllOk(coded, sent)
    requires rs.Valid() && rs.ds == FEC_RS_K && rs.ps == FEC_RS_N && rs.p !in Buffers(table.slots)
    requires state.Valid() && Apart(table, rs, state)
    ensures state.Value().last == state.lastUpdate && BothReady(table, rs, state, coded, sent, state.Value(), [], [])
  {
    hide Encoded, Ready;
    PacketsEncoded(coded, sent);
    StartsReady(table, rs, Packets(sent));
  }

  // ----- sending

  // Read a packet into the two data buffers, which lie behind each other.
  method Load(buf: seq<array<Byte>>, msg: seq<Byte>)
    requires |buf| == FEC_RS_K + FEC_RS_N && RsSolve.Distinct(buf) && RsSolve.Sized(buf, FEC_RS_T)
    requires |msg| <= BUFFER_SIZE
    modifies buf[0], buf[1]
    ensures (buf[0][..] + buf[1][..])[..|msg|] == msg
  {
    forall q | 0 <= q < FEC_RS_T && q < |msg| { buf[0][q] := msg[q]; }
    forall q | 0 <= q < FEC_RS_T && FEC_RS_T + q < |msg| { buf[1][q] := msg[FEC_RS_T + q]; }
  }

  // What stands in for the packet of a message that is not coded.
  ghost function Blank(): (p: Packet)
    ensures p.Ok()
  {
    BlockLength();
    Mds.EncodedIsCodeword(FEC_RS_K, FEC_RS_N, [ZeroBlock(), ZeroBlock()], FEC_RS_T);
    Packet(0, Mds.Encoded(FEC_RS_K, FEC_RS_N, [ZeroBlock(), ZeroBlock()], FEC_RS_T))
  }

  lemma BlockLength()
    ensures |ZeroBlock()| == FEC_RS_T
  {}

  function Copies(usable: seq<bool>): nat {
    if usable == [] then 0 else Copies(usable[..|usable| - 1]) + (if usable[|usable| - 1] then 1 else 0)
  }

  lemma {:induction false} CopiesCount(usable: seq<bool>)
    ensures Copies(usable) == multiset(usable)[true]
  {
    if usable != [] {
      var m := |usable| - 1;
      CopiesCount(usable[..m]);
      assert usable == usable[..m] + [usable[m]];
    }
  }

  // The datagrams carry the message under the given number.
  ghost predicate Carries(coded: bool, m: Message, msg: seq<Byte>, number: nat, usable: seq<bool>,
                          sent: seq<Datagram>)
  {
    && m.bytes == msg && MessageOk(m, coded)
    && (coded ==>
          && |m.packet.shards| == FEC_RS_K + FEC_RS_N == |sent|
          && forall i :: 0 <= i < |sent| ==> sent[i] == Coded(Fragment(number, m.packet.plen, i, m.packet.shards[i])))
    && (!coded ==> |sent| == Copies(usable) && forall i :: 0 <= i < |sent| ==> sent[i] == Plain(number, msg))
  }

  // Which packets are cut into fragments.
  predicate IsCoded(coding: bool, msg: seq<Byte>) {
    coding && PKG_FEC_ENCODE_MIN_LEN < |msg|
  }

  // The parity of two data bytes. The coefficients are the inverses of 1 and 2.
  lemma ParityOfTwo(x: Vec)
    requires |x| == 2
    ensures Dot(CoefRow(FEC_RS_K, FEC_RS_N, 0), x) == Plus(x[0], Times(Byte(142), x[1]))
  {
    var row := CoefRow(FEC_RS_K, FEC_RS_N, 0);
    CoefAt(FEC_RS_K, FEC_RS_N, 0, 0);
    CoefAt(FEC_RS_K, FEC_RS_N, 0, 1);
    InversesOfTwo();
    hide CoefRow, Plus, Times, Recip;
    assert row[..1][..0] == x[..1][..0] == [];
    TimesOne(x[0]);
    PlusZero(x[0]);
    assert Dot(row[..1], x[..1]) == x[0];
  }

  lemma InversesOfTwo()
    ensures Recip(Plus(Num(1), Num(0))) == ONE && Recip(Plus(Num(2), Num(0))) == Byte(142)
  {}

  // The three datagrams of a coded message: its bytes in the first two payloads, parity in the
  // third.
  ghost predicate ThreeFragments(sent: seq<Datagram>, number: nat, msg: seq<Byte>) {
    && |sent| == 3
    && (forall i :: 0 <= i < 3 ==> NumberedFragment(sent[i], number, |msg|, i))
    && (sent[0].fragment.payload + sent[1].fragment.payload)[..|msg|] == msg
    && forall q :: 0 <= q < 750 ==>
         sent[2].fragment.payload[q]
         == Plus(sent[0].fragment.payload[q], Times(Byte(142), sent[1].fragment.payload[q]))
  }

  ghost predicate NumberedFragment(d: Datagram, number: nat, len: nat, i: int) {
    && d.Coded? && d.fragment.number == number && d.fragment.plen == len && d.fragment.index == i
    && |d.fragment.payload| == 750 && len <= 1500
  }

  ghost predicate PlainCopies(sent: seq<Datagram>, number: nat, msg: seq<Byte>, usable: seq<bool>) {
    |sent| == multiset(usable)[true] && forall i :: 0 <= i < |sent| ==> sent[i] == Plain(number, msg)
  }

  // What carrying a message means, for either kind.
  lemma CarriesMeans(coding: bool, m: Message, msg: seq<Byte>, number: nat, usable: seq<bool>, sent: seq<Datagram>)
    requires Carries(IsCoded(coding, msg), m, msg, number, usable, sent)
    ensures if coding && 1200 < |msg| then ThreeFragments(sent, number, msg) else PlainCopies(sent, number, msg, usable)
  {
    hide Plus, Times, Dot, CoefRow;
    CopiesCount(usable);
    if coding && 1200 < |msg| {
      PacketShape(m.packet);
      var p := m.packet.shards;
      forall q | 0 <= q < 750 ensures p[2][q] == Plus(p[0][q], Times(Byte(142), p[1][q])) {
        ParityOfTwo(Column(p[..2], q));
        assert p[FEC_RS_K + 0][q] == Dot(CoefRow(FEC_RS_K, FEC_RS_N, 0), Column(p[..FEC_RS_K], q));
      }
    }
  }

  // send_to_gateway once the gateway is found: a large packet as fragments if coding is on, any
  // other as a copy on every usable path. Both use up a number.
  method SendToGateway(sender: FecSender, coding: bool, rs: Codec, buf: seq<array<Byte>>, usable: seq<bool>,
                       msg: seq<Byte>)
    returns (sent: seq<Datagram>, ghost m: Message)
    requires rs.Valid() && rs.ds == FEC_RS_K && rs.ps == FEC_RS_N && rs.p !in buf
    requires |buf| == FEC_RS_K + FEC_RS_N && RsSolve.Distinct(buf) && RsSolve.Sized(buf, FEC_RS_T)
    requires |msg| <= BUFFER_SIZE && sender.sequence < Dedup.SEQ_RANGE
    modifies sender, buf
    ensures rs.Valid() && sender.sequence == (old(sender.sequence) + 1) % 65536
    ensures if coding && 1200 < |msg| then ThreeFragments(sent, old(sender.sequence), msg)
            else PlainCopies(sent, old(sender.sequence), msg, usable)
    ensures Carries(IsCoded(coding, msg), m, msg, old(sender.sequence), usable, sent)
  {
    hide Codeword, Contents, Copies, Blank, ThreeFragments, PlainCopies;
    var number := sender.sequence;
    Load(buf, msg);
    sent := [];
    if coding && |msg| > PKG_FEC_ENCODE_MIN_LEN {
      var three := sender.SendFec(rs, buf, |msg|);
      m := Message(msg, Packet(|msg|, Contents(buf)));
      PacketShape(m.packet);
      sent := Wrap(three);
    } else {
      m := Message(msg, Blank());
      sender.sequence := (sender.sequence + 1) % Dedup.SEQ_RANGE;
      sent := SendCopies(number, buf, |msg|, usable);
    }
    CarriesMeans(coding, m, msg, number, usable, sent);
  }

  method Wrap(fragments: seq<Fragment>) returns (sent: seq<Datagram>)
    ensures |sent| == |fragments| && forall i :: 0 <= i < |sent| ==> sent[i] == Coded(fragments[i])
  {
    sent := [];
    for i := 0 to |fragments|
      invariant |sent| == i && forall k :: 0 <= k < i ==> sent[k] == Coded(fragments[k])
    {
      sent := sent + [Coded(fragments[i])];
    }
  }

  method SendCopies(number: nat, buf: seq<array<Byte>>, len: nat, usable: seq<bool>) returns (sent: seq<Datagram>)
    requires |buf| == FEC_RS_K + FEC_RS_N && RsSolve.Sized(buf, FEC_RS_T) && len <= BUFFER_SIZE
    ensures |sent| == Copies(usable)
    ensures forall i :: 0 <= i < |sent| ==> sent[i] == Plain(number, (buf[0][..] + buf[1][..])[..len])
  {
    sent := [];
    assert usable[..0] == [];
    for i := 0 to |usable|
      invariant |sent| == Copies(usable[..i])
      invariant forall k :: 0 <= k < |sent| ==> sent[k] == Plain(number, (buf[0][..] + buf[1][..])[..len])
    {
      assert usable[..i + 1][..i] == usable[..i];
      if usable[i] {
        sent := sent + [Plain(number, (buf[0][..] + buf[1][..])[..len])];
      }
    }
    assert usable[..|usable|] == usable;
  }

  // ----- both ends

  ghost predicate AllCarried(coding: bool, msgs: seq<seq<Byte>>, first: nat, usable: seq<seq<bool>>,
                             sent: seq<seq<Datagram>>, ms: seq<Message>)
  {
    && |ms| == |sent| <= |msgs| == |usable|
    && forall k :: 0 <= k < |sent| ==>
         Carries(IsCoded(coding, msgs[k]), ms[k], msgs[k], (first + k) % Dedup.SEQ_RANGE, usable[k], sent[k])
  }

  // Send one message after the other, from whatever number the counter has reached.
  method SendAll(sender: FecSender, coding: bool, rs: Codec, buf: seq<array<Byte>>, usable: seq<seq<bool>>,
                 msgs: seq<seq<Byte>>)
    returns (sent: seq<seq<Datagram>>, ghost ms: seq<Message>)
    requires rs.Valid() && rs.ds == FEC_RS_K && rs.ps == FEC_RS_N && rs.p !in buf
    requires |buf| == FEC_RS_K + FEC_RS_N && RsSolve.Distinct(buf) && RsSolve.Sized(buf, FEC_RS_T)
    requires sender.sequence < Dedup.SEQ_RANGE && |usable| == |msgs|
    requires forall k :: 0 <= k < |msgs| ==> |msgs[k]| <= BUFFER_SIZE
    modifies sender, buf
    ensures |sent| == |msgs| && AllCarried(coding, msgs, old(sender.sequence), usable, sent, ms)
  {
    hide Carries, CodecMatrix;
    ghost var first := sender.sequence;
    sent, ms := [], [];
    while |sent| < |msgs|
      invariant rs.Valid() && sender.sequence == (first + |sent|) % Dedup.SEQ_RANGE
      invariant AllCarried(coding, msgs, first, usable, sent, ms)
    {
      var k := |sent|;
      var some, m := SendToGateway(sender, coding, rs, buf, usable[k], msgs[k]);
      sent, ms := sent + [some], ms + [m];
    }
  }

  // Which of the numbers from first on belong to coded messages.
  ghost function CodedNumbers(coding: bool, msgs: seq<seq<Byte>>, first: nat): nat -> bool {
    (n: nat) => first <= n < first + |msgs| && IsCoded(coding, msgs[n - first])
  }

  ghost function SentAs(ms: seq<Message>, first: nat): nat -> Message {
    (n: nat) => if first <= n < first + |ms| then ms[n - first] else Message([], Blank())
  }

  lemma AllSentOk(coding: bool, msgs: seq<seq<Byte>>, first: nat, usable: seq<seq<bool>>,
                  sent: seq<seq<Datagram>>, ms: seq<Message>)
    requires |sent| == |msgs| && AllCarried(coding, msgs, first, usable, sent, ms)
    ensures AllOk(CodedNumbers(coding, msgs, first), SentAs(ms, first))
  {
    hide Codeword, Copies, Blank, PacketBytes;
    var coded, all := CodedNumbers(coding, msgs, first), SentAs(ms, first);
    forall n: nat ensures MessageOk(all(n), coded(n)) {
      if first <= n < first + |ms| {
        var k := n - first;
        assert Carries(IsCoded(coding, msgs[k]), ms[k], msgs[k], (first + k) % Dedup.SEQ_RANGE, usable[k], sent[k]);
        assert all(n) == ms[k];
      } else {
        assert all(n) == Message([], Blank()) && !coded(n);
      }
    }
  }

  // Datagram i of message n was sent.
  ghost predicate WasSent(coding: bool, msgs: seq<seq<Byte>>, first: nat, usable: seq<seq<bool>>, e: Event)
    requires |usable| == |msgs|
  {
    && first <= e.n < first + |msgs|
    && e.i < if IsCoded(coding, msgs[e.n - first]) then FEC_RS_K + FEC_RS_N else Copies(usable[e.n - first])
  }

  lemma ArrivalOnWire(coding: bool, msgs: seq<seq<Byte>>, first: nat, usable: seq<seq<bool>>,
                      sent: seq<seq<Datagram>>, ms: seq<Message>, e: Event)
    requires |sent| == |msgs| && AllCarried(coding, msgs, first, usable, sent, ms)
    requires WasSent(coding, msgs, first, usable, e)
    ensures first <= e.n < first + |sent| && e.i < |sent[e.n - first]|
    ensures OnWire(CodedNumbers(coding, msgs, first), SentAs(ms, first), e, sent[e.n - first][e.i])
    ensures SentAs(ms, first)(e.n).bytes == msgs[e.n - first]
  {
    hide Codeword, Copies, Blank, PacketBytes;
    var k := e.n - first;
    assert Carries(IsCoded(coding, msgs[k]), ms[k], msgs[k], (first + k) % Dedup.SEQ_RANGE, usable[k], sent[k]);
  }

  // In what is sent with coding on, a message of more than 1200 bytes comes out at the second of
  // its datagrams to arrive, whichever two these are, and only then, unless the second is the
  // first again. Any other message comes out at its first datagram.
  lemma WrittenWhen(coding: bool, msgs: seq<seq<Byte>>, first: nat, ev: seq<Event>, t: nat)
    requires t < |ev| && first <= ev[t].n < first + |msgs|
    ensures var msg := msgs[ev[t].n - first];
      var due := if coding && 1200 < |msg| then SecondOfTwo(ev, t) else FirstOfAll(ev, t);
      Expected(CodedNumbers(coding, msgs, first), ev, t, msg) == if due then Write(msg) else Silent
  {
    hide SecondOfTwo, FirstOfAll, Expected;
    var coded, msg := CodedNumbers(coding, msgs, first), msgs[ev[t].n - first];
    assert coded(ev[t].n) == (coding && 1200 < |msg|);
    ExpectedMeans(coded, ev, t, msg);
  }

  // So with coding on any two of the three datagrams of a large message bring it out.
  lemma LargeFromAnyTwo(msgs: seq<seq<Byte>>, first: nat, ev: seq<Event>, s: nat, t: nat)
    requires s < t < |ev| && ev[s].n == ev[t].n && ev[s].i != ev[t].i
    requires forall u :: 0 <= u < t && u != s ==> ev[u].n != ev[t].n
    requires first <= ev[t].n < first + |msgs| && 1200 < |msgs[ev[t].n - first]|
    ensures var msg, coded := msgs[ev[t].n - first], CodedNumbers(true, msgs, first);
      Expected(coded, ev, s, msg) == Silent && Expected(coded, ev, t, msg) == Write(msg)
  {
    hide Expected, CodedNumbers;
    WrittenWhen(true, msgs, first, ev, s);
    WrittenWhen(true, msgs, first, ev, t);
    assert OneOther(ev, s, t);
  }

  // Large and small messages, sent under one counter from any number on, whose datagrams arrive
  // in any calm order ev, some perhaps never, some more than once: a large one comes out whole at
  // its second fragment, if that is not the first again, a small one at its first copy, and
  // nothing comes out otherwise.
  method Transport(sender: FecSender, coding: bool, enc: Codec, buf: seq<array<Byte>>, usable: seq<seq<bool>>,
                   table: FecTable, dec: Codec, state: Dedup.DedupState,
                   msgs: seq<seq<Byte>>, ev: seq<Event>, times: seq<int>)
    returns (out: seq<Output>)
    requires enc.Valid() && enc.ds == FEC_RS_K && enc.ps == FEC_RS_N && enc.p !in buf
    requires |buf| == FEC_RS_K + FEC_RS_N && RsSolve.Distinct(buf) && RsSolve.Sized(buf, FEC_RS_T)
    requires sender.sequence < Dedup.SEQ_RANGE && |usable| == |msgs|
    requires forall k :: 0 <= k < |msgs| ==> |msgs[k]| <= BUFFER_SIZE
    requires table.Valid() && TableUnused(Values(table.slots)) && forall b :: b in buf ==> b !in Buffers(table.slots)
    requires dec.Valid() && dec.ds == FEC_RS_K && dec.ps == FEC_RS_N
    requires dec.p !in Buffers(table.slots) && dec.p !in buf
    requires state.Valid() && Apart(table, dec, state)
    requires Dedup.Agrees(state.Value(), Dedup.Ideal(map[], state.lastUpdate))
    requires |times| == |ev| && Calm(CodedNumbers(coding, msgs, sender.sequence), ev, times, state.lastUpdate)
    requires forall t :: 0 <= t < |ev| ==> WasSent(coding, msgs, sender.sequence, usable, ev[t])
    modifies sender, buf, table.slots, Buffers(table.slots), dec.p, state, state.seqMap
    ensures |out| == |ev|
    ensures forall t :: 0 <= t < |ev| ==>
      old(sender.sequence) <= ev[t].n < old(sender.sequence) + |msgs| &&
      out[t] == Expected(CodedNumbers(coding, msgs, old(sender.sequence)), ev, t, msgs[ev[t].n - old(sender.sequence)])
    ensures forall t :: 0 <= t < |ev| ==>
      var msg := msgs[ev[t].n - old(sender.sequence)];
      var due := if coding && 1200 < |msg| then SecondOfTwo(ev, t) else FirstOfAll(ev, t);
      out[t] == if due then Write(msg) else Silent
  {
    hide SecondOfTwo, FirstOfAll;
    hide Calm, Expected, OnWire, AllCarried, AllOk, CodedNumbers, SentAs, WasSent, Carries, IsCoded, Copies, Values;
    hide Separate, CodecMatrix, TableUnused, Dedup.Agrees, Dedup.DedupState.Value, RsSolve.Distinct, RsSolve.Sized;
    var number := sender.sequence;
    ghost var first, f := number, state.Value();
    SeparateEnds(sender, buf, table, dec, state);
    ghost var st := Values(table.slots);
    var sent, ms := SendAll(sender, coding, enc, buf, usable, msgs);
    assert Values(table.slots) == st && state.Value() == f;
    ghost var coded, all := CodedNumbers(coding, msgs, first), SentAs(ms, first);
    AllSentOk(coding, msgs, first, usable, sent, ms);
    forall t | 0 <= t < |ev|
      ensures first <= ev[t].n < first + |sent| && ev[t].i < |sent[ev[t].n - first]|
      ensures OnWire(coded, all, ev[t], sent[ev[t].n - first][ev[t].i])
      ensures all(ev[t].n).bytes == msgs[ev[t].n - first]
    {
      ArrivalOnWire(coding, msgs, first, usable, sent, ms, ev[t]);
    }
    var from := number;
    var arrivals := seq(|ev|, t requires 0 <= t < |ev| => sent[ev[t].n - from][ev[t].i]);
    out := Receive(table, dec, state, arrivals, times, coded, all, ev);
    forall t | 0 <= t < |ev|
      ensures var msg := msgs[ev[t].n - first];
        var due := if coding && 1200 < |msg| then SecondOfTwo(ev, t) else FirstOfAll(ev, t);
        out[t] == if due then Write(msg) else Silent
    {
      WrittenWhen(coding, msgs, first, ev, t);
    }
  }

  // The sender's objects are not the receiver's.
  lemma SeparateEnds(sender: FecSender, buf: seq<array<Byte>>, table: FecTable, dec: Codec, state: Dedup.DedupState)
    requires table.Valid()
    ensures AllValid(table.slots) && sender !in Buffers(table.slots)
    ensures (sender as object) != state && (sender as object) != state.seqMap
    ensures forall i :: 0 <= i < |buf| ==> (buf[i] as object) != state && (buf[i] as object) != state.seqMap
  {}
}
