// The duplicate filter of ustun.c (and its copy in uctun.c): 8192 slots, each remembering
// the last 16-bit number accepted with its residue, forgotten after three idle minutes.
module Dedup {
  import opened Common

  const SEQ_MAP_SIZE: nat := 8192
  const SEQ_RANGE: nat := 65536
  // memset stores the low byte of 0x55AA in both halves of every slot.
  const CLEARED: nat := 0xAAAA

  // ----- the filter as a value

  datatype Filter = Filter(slots: seq<nat>, last: int) {
    ghost predicate Ok() {
      |slots| == SEQ_MAP_SIZE
    }
  }

  function AllCleared(): (s: seq<nat>)
    ensures |s| == SEQ_MAP_SIZE && forall i :: 0 <= i < SEQ_MAP_SIZE ==> s[i] == CLEARED
  {
    seq(SEQ_MAP_SIZE, _ => CLEARED)
  }

  // One call: the filter afterwards, and whether the packet is a duplicate.
  function Step(f: Filter, number: nat, ts: int): (r: (Filter, bool))
    requires f.Ok() && number < SEQ_RANGE
    ensures r.0.Ok()
  {
    var g := if ts - f.last > CONN_TIMEOUT then Filter(AllCleared(), ts) else f;
    var idx := number % SEQ_MAP_SIZE;
    if number != g.slots[idx] then (Filter(g.slots[idx := number], ts), false) else (g, true)
  }

  // After more than three minutes without an accepted packet every slot holds the filler first. A
  // packet is a duplicate if and only if its slot holds its number, which it does afterwards; all
  // other slots stay, and an accepted packet moves the time of the last update.
  lemma StepMeans(f: Filter, number: nat, ts: int)
    requires f.Ok() && number < 65536
    ensures var (g, duplicate) := Step(f, number, ts);
      var late := f.last + 180 < ts;
      && |f.slots| == |g.slots| == 8192
      && (duplicate <==> number == if late then 0xAAAA else f.slots[number % 8192])
      && g.slots[number % 8192] == number
      && (forall i :: 0 <= i < 8192 && i != number % 8192 ==> g.slots[i] == if late then 0xAAAA else f.slots[i])
      && g.last == if late || !duplicate then ts else f.last
  {}

  class DedupState {
    const seqMap: array<nat>
    var lastUpdate: int

    ghost predicate Valid()
      reads this
    {
      seqMap.Length == SEQ_MAP_SIZE
    }

    ghost function Value(): (f: Filter)
      requires Valid()
      reads this, seqMap
      ensures f.Ok()
    {
      Filter(seqMap[..], lastUpdate)
    }

    constructor (ts: int)
      ensures Valid() && fresh(seqMap) && Value() == Filter(AllCleared(), ts)
    {
      seqMap := new nat[SEQ_MAP_SIZE];
      lastUpdate := ts;
      new;
      Clear();
    }

    method Clear()
      requires Valid()
      modifies seqMap
      ensures seqMap[..] == AllCleared()
    {
      forall i | 0 <= i < seqMap.Length { seqMap[i] := CLEARED; }
    }

    method IsDuplicate(number: nat, ts: int) returns (duplicate: bool)
      requires Valid() && number < SEQ_RANGE
      modifies this, seqMap
      ensures Valid()
      ensures (Value(), duplicate) == Step(old(Value()), number, ts)
    {
      duplicate := true;
      var idx := number % SEQ_MAP_SIZE;
      if ts - lastUpdate > CONN_TIMEOUT {
        Clear();
        lastUpdate := ts;
      }
      if number != seqMap[idx] {
        duplicate := false;
        seqMap[idx] := number;
        lastUpdate := ts;
      }
    }
  }

  // ----- runs

  // The arrival of a copy of the packet the sender numbered n; only n mod 2^16 is on the wire.
  datatype Arrival = Arrival(n: nat, time: int)

  function Run(f: Filter, a: seq<Arrival>): (r: Filter)
    requires f.Ok()
    ensures r.Ok()
  {
    if a == [] then f
    else Step(Run(f, a[..|a| - 1]), a[|a| - 1].n % SEQ_RANGE, a[|a| - 1].time).0
  }

  // Whether arrival t is passed on.
  predicate Accepted(f: Filter, a: seq<Arrival>, t: nat)
    requires f.Ok() && t < |a|
  {
    !Step(Run(f, a[..t]), a[t].n % SEQ_RANGE, a[t].time).1
  }

  // Time does not run backwards, and no packet is 8192 numbers or more behind an earlier one.
  ghost predicate Orderly(a: seq<Arrival>) {
    forall s, t :: 0 <= s < t < |a| ==> a[s].time <= a[t].time && a[s].n < a[t].n + SEQ_MAP_SIZE
  }

  lemma RunNext(f: Filter, a: seq<Arrival>, t: nat)
    requires f.Ok() && t < |a|
    ensures Run(f, a[..t + 1]) == Step(Run(f, a[..t]), a[t].n % SEQ_RANGE, a[t].time).0
  {
    assert a[..t + 1][..t] == a[..t];
  }

  lemma SlotOf(n: nat)
    ensures n % SEQ_RANGE % SEQ_MAP_SIZE == n % SEQ_MAP_SIZE
  {}

  // Two numbers less than 8192 apart share a slot only when they are equal.
  lemma OtherSlot(n: nat, m: nat, n': nat)
    requires n < m + SEQ_MAP_SIZE && m < n' + SEQ_MAP_SIZE && n == n'
    ensures m % SEQ_MAP_SIZE == n % SEQ_MAP_SIZE ==> m == n
  {}

  lemma StepKeeps(g: Filter, n: nat, since: int, m: nat, ts: int)
    requires g.Ok() && g.slots[n % SEQ_MAP_SIZE] == n % SEQ_RANGE && since <= g.last
    requires since <= ts <= since + CONN_TIMEOUT
    requires m % SEQ_MAP_SIZE == n % SEQ_MAP_SIZE ==> m == n
    ensures var h := Step(g, m % SEQ_RANGE, ts).0;
      h.slots[n % SEQ_MAP_SIZE] == n % SEQ_RANGE && since <= h.last
  {
    SlotOf(m);
  }

  // Once passed on, and for three minutes, a number stays in its slot.
  lemma {:induction false} Remembered(f: Filter, a: seq<Arrival>, s: nat, t: nat, u: nat)
    requires f.Ok() && Orderly(a) && s < u <= t < |a|
    requires Accepted(f, a, s) && a[s].n == a[t].n && a[t].time - a[s].time <= CONN_TIMEOUT
    ensures var g := Run(f, a[..u]);
      g.slots[a[s].n % SEQ_MAP_SIZE] == a[s].n % SEQ_RANGE && a[s].time <= g.last
    decreases u
  {
    var v := u - 1;
    RunNext(f, a, v);
    if s == v {
      SlotOf(a[s].n);
    } else {
      Remembered(f, a, s, t, v);
      OtherSlot(a[s].n, a[v].n, a[t].n);
      StepKeeps(Run(f, a[..v]), a[s].n, a[s].time, a[v].n, a[v].time);
    }
  }

  // At most one copy of every number is passed on, however many arrive and however often the
  // wire number wraps around, as long as the copies lie within three minutes.
  lemma AtMostOnce(f: Filter, a: seq<Arrival>, s: nat, t: nat)
    requires f.Ok() && Orderly(a) && s < t < |a|
    requires a[s].n == a[t].n && a[t].time - a[s].time <= CONN_TIMEOUT
    ensures !(Accepted(f, a, s) && Accepted(f, a, t))
  {
    if Accepted(f, a, s) {
      Remembered(f, a, s, t, t);
      SlotOf(a[t].n);
    }
  }

  // The filter was last updated when the run began or when a packet arrived.
  lemma {:induction false} LastIsArrival(f: Filter, a: seq<Arrival>, bound: int)
    requires f.Ok() && f.last <= bound && forall u :: 0 <= u < |a| ==> a[u].time <= bound
    ensures Run(f, a).last <= bound
  {
    hide Step;
    if a != [] {
      var m := |a| - 1;
      LastIsArrival(f, a[..m], bound);
      StepMeans(Run(f, a[..m]), a[m].n % SEQ_RANGE, a[m].time);
    }
  }

  // A packet that comes after more than three quiet minutes is passed on, even if its number was
  // seen before, unless it has the filler's number.
  lemma PassesAfterSilence(f: Filter, a: seq<Arrival>, t: nat)
    requires f.Ok() && t < |a| && f.last + 180 < a[t].time
    requires forall u :: 0 <= u < t ==> a[u].time + 180 < a[t].time
    ensures Accepted(f, a, t) <==> a[t].n % 65536 != 0xAAAA
  {
    hide Step, Run;
    LastIsArrival(f, a[..t], a[t].time - 181);
    StepMeans(Run(f, a[..t]), a[t].n % SEQ_RANGE, a[t].time);
  }

  // ----- what 16-bit numbers lose

  // The same filter remembering whole numbers, with empty slots instead of a filler value.
  datatype Ideal = Ideal(seen: map<nat, nat>, last: int)

  function Expire(i: Ideal, ts: int): Ideal {
    if ts - i.last > CONN_TIMEOUT then Ideal(map[], ts) else i
  }

  function IdealStep(i: Ideal, n: nat, ts: int): (Ideal, bool) {
    var g := Expire(i, ts);
    var idx := n % SEQ_MAP_SIZE;
    if idx in g.seen && g.seen[idx] == n then (g, true) else (Ideal(g.seen[idx := n], ts), false)
  }

  function IdealRun(i: Ideal, a: seq<Arrival>): Ideal {
    if a == [] then i
    else IdealStep(IdealRun(i, a[..|a| - 1]), a[|a| - 1].n, a[|a| - 1].time).0
  }

  predicate IdealAccepted(i: Ideal, a: seq<Arrival>, t: nat)
    requires t < |a|
  {
    !IdealStep(IdealRun(i, a[..t]), a[t].n, a[t].time).1
  }

  ghost predicate Agrees(f: Filter, i: Ideal)
    requires f.Ok()
  {
    && f.last == i.last
    && forall r :: 0 <= r < SEQ_MAP_SIZE ==>
         f.slots[r] == if r in i.seen then i.seen[r] % SEQ_RANGE else CLEARED
  }

  // The slot's holder, or the filler, has the wire number of a different packet.
  predicate Confused(i: Ideal, n: nat, ts: int) {
    var g := Expire(i, ts);
    var idx := n % SEQ_MAP_SIZE;
    if idx in g.seen then g.seen[idx] != n && g.seen[idx] % SEQ_RANGE == n % SEQ_RANGE
    else n % SEQ_RANGE == CLEARED
  }

  // One call decides as the ideal filter does exactly when the wire number does not confuse it.
  lemma StepExact(f: Filter, i: Ideal, n: nat, ts: int)
    requires f.Ok() && Agrees(f, i)
    ensures Step(f, n % SEQ_RANGE, ts).1 == IdealStep(i, n, ts).1 <==> !Confused(i, n, ts)
    ensures !Confused(i, n, ts) ==> Agrees(Step(f, n % SEQ_RANGE, ts).0, IdealStep(i, n, ts).0)
  {
    SlotOf(n);
  }

  ghost predicate NeverConfused(i: Ideal, a: seq<Arrival>, t: nat)
    requires t <= |a|
  {
    forall u :: 0 <= u < t ==> !Confused(IdealRun(i, a[..u]), a[u].n, a[u].time)
  }

  lemma {:induction false} RunAgrees(f: Filter, i: Ideal, a: seq<Arrival>, t: nat)
    requires f.Ok() && Agrees(f, i) && t <= |a| && NeverConfused(i, a, t)
    ensures Agrees(Run(f, a[..t]), IdealRun(i, a[..t]))
    decreases t
  {
    if t > 0 {
      RunAgrees(f, i, a, t - 1);
      assert a[..t][..t - 1] == a[..t - 1];
      StepExact(Run(f, a[..t - 1]), IdealRun(i, a[..t - 1]), a[t - 1].n, a[t - 1].time);
    }
  }

  // Over a whole run every packet is judged as by the ideal filter if and only if no arrival
  // meets a slot holding its wire number for another packet, nor a cleared slot with the filler.
  lemma RunExact(f: Filter, i: Ideal, a: seq<Arrival>)
    requires f.Ok() && Agrees(f, i)
    ensures (forall t :: 0 <= t < |a| ==> Accepted(f, a, t) == IdealAccepted(i, a, t)) <==> NeverConfused(i, a, |a|)
  {
    if NeverConfused(i, a, |a|) {
      forall t | 0 <= t < |a| ensures Accepted(f, a, t) == IdealAccepted(i, a, t) {
        RunAgrees(f, i, a, t);
        StepExact(Run(f, a[..t]), IdealRun(i, a[..t]), a[t].n, a[t].time);
      }
    } else {
      var t := FirstConfused(i, a);
      RunAgrees(f, i, a, t);
      StepExact(Run(f, a[..t]), IdealRun(i, a[..t]), a[t].n, a[t].time);
      assert Accepted(f, a, t) != IdealAccepted(i, a, t);
    }
  }

  lemma FirstConfused(i: Ideal, a: seq<Arrival>) returns (t: nat)
    requires !NeverConfused(i, a, |a|)
    ensures t < |a| && NeverConfused(i, a, t) && Confused(IdealRun(i, a[..t]), a[t].n, a[t].time)
  {
    hide IdealRun, Confused;
    t := 0;
    while !Confused(IdealRun(i, a[..t]), a[t].n, a[t].time)
      invariant t < |a| && NeverConfused(i, a, t)
      decreases |a| - t
    {
      t := t + 1;
    }
  }

  // The filler costs a packet: the first packet after a clear is dropped if its wire number
  // is 0xAAAA.
  lemma FillerDropsPacket(ts: int)
    ensures Agrees(Filter(AllCleared(), ts), Ideal(map[], ts))
    ensures Step(Filter(AllCleared(), ts), 0xAAAA, ts).1 && !IdealStep(Ideal(map[], ts), 0xAAAA, ts).1
  {
    SlotOf(0xAAAA);
  }

  // ----- every packet once

  // What the ideal filter remembers has arrived.
  lemma {:induction false} SeenArrived(last: int, a: seq<Arrival>, r: nat) returns (s: nat)
    requires r in IdealRun(Ideal(map[], last), a).seen
    ensures s < |a| && a[s].n == IdealRun(Ideal(map[], last), a).seen[r]
  {
    var m := |a| - 1;
    var i := IdealRun(Ideal(map[], last), a[..m]);
    if r in i.seen && IdealRun(Ideal(map[], last), a).seen[r] == i.seen[r] {
      s := SeenArrived(last, a[..m], r);
    } else {
      s := m;
    }
  }

  // In a run that starts with a cleared filter and has met no confusion, the first copy of a
  // packet is passed on exactly when its wire number does not confuse the filter.
  lemma FirstCopyPasses(f: Filter, a: seq<Arrival>, t: nat)
    requires f.Ok() && Agrees(f, Ideal(map[], f.last)) && t < |a|
    requires NeverConfused(Ideal(map[], f.last), a, t) && forall s :: 0 <= s < t ==> a[s].n != a[t].n
    ensures Accepted(f, a, t) <==> !Confused(IdealRun(Ideal(map[], f.last), a[..t]), a[t].n, a[t].time)
  {
    var start := Ideal(map[], f.last);
    RunAgrees(f, start, a, t);
    StepExact(Run(f, a[..t]), IdealRun(start, a[..t]), a[t].n, a[t].time);
    var g := IdealRun(start, a[..t]);
    var r := a[t].n % SEQ_MAP_SIZE;
    if r in g.seen {
      var s := SeenArrived(f.last, a[..t], r);
      assert a[s].n != a[t].n;
    }
  }

  // So of the copies of a packet that lie within three minutes exactly the first is passed on.
  lemma ExactlyOnce(f: Filter, a: seq<Arrival>, t: nat)
    requires f.Ok() && Agrees(f, Ideal(map[], f.last)) && NeverConfused(Ideal(map[], f.last), a, |a|)
    requires Orderly(a) && t < |a|
    requires forall s :: 0 <= s < |a| && a[s].n == a[t].n ==> a[s].time <= a[First(a, t)].time + CONN_TIMEOUT
    ensures Accepted(f, a, t) <==> t == First(a, t)
  {
    var s := First(a, t);
    FirstCopyPasses(f, a, s);
    if s < t { AtMostOnce(f, a, s, t); }
  }

  // The first arrival of a packet.
  function First(a: seq<Arrival>, t: nat): (s: nat)
    requires t < |a|
    ensures s <= t && a[s].n == a[t].n && forall u :: 0 <= u < s ==> a[u].n != a[t].n
  {
    FirstFrom(a, t, 0)
  }

  function FirstFrom(a: seq<Arrival>, t: nat, u: nat): (s: nat)
    requires u <= t < |a| && forall v :: 0 <= v < u ==> a[v].n != a[t].n
    ensures s <= t && a[s].n == a[t].n && forall v :: 0 <= v < s ==> a[v].n != a[t].n
    decreases t - u
  {
    if a[u].n == a[t].n then u else FirstFrom(a, t, u + 1)
  }
}
