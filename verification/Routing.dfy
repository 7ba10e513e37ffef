// Which gateway a reply goes to: the connection table of ustun.c on values, and what it
// guarantees over whole runs of requests, replies and cleanups.
module Routing {
  import opened Common

  datatype Conn = Conn(hash: nat, gw: nat, lastUsed: int)

  type Table = seq<Conn>

  // ----- the key of a packet

  // A 32-bit little-endian load.
  function Load32(s: seq<u8>, at: nat): nat
    requires at + 4 <= |s|
  {
    s[at] as nat + 0x100 * s[at + 1] as nat + 0x1_0000 * s[at + 2] as nat + 0x100_0000 * s[at + 3] as nat
  }

  // conn_hash_cal: source plus destination address, in 32 bits.
  function ConnHash(packet: seq<u8>): (h: nat)
    requires 20 <= |packet|
    ensures h < 0x1_0000_0000
  {
    (Load32(packet, 12) + Load32(packet, 16)) % 0x1_0000_0000
  }

  predicate IsIPv4(packet: seq<u8>)
    requires 20 <= |packet|
  {
    packet[0] / 16 == 4
  }

  // A reply, whose addresses are exchanged, has the key of its request.
  lemma ReplyHasRequestKey(request: seq<u8>, reply: seq<u8>)
    requires 20 <= |request| && 20 <= |reply|
    requires reply[12..16] == request[16..20] && reply[16..20] == request[12..16]
    ensures ConnHash(reply) == ConnHash(request)
  {
    assert Load32(reply, 12) == Load32(request, 16) by { LoadSlice(reply, 12); LoadSlice(request, 16); }
    assert Load32(reply, 16) == Load32(request, 12) by { LoadSlice(reply, 16); LoadSlice(request, 12); }
  }

  lemma LoadSlice(s: seq<u8>, at: nat)
    requires at + 4 <= |s|
    ensures Load32(s, at) == Load32(s[at..at + 4], 0)
  {}

  lemma LoadDecides(p: seq<u8>, q: seq<u8>, at: nat)
    requires at + 4 <= |p| && at + 4 <= |q|
    ensures Load32(p, at) == Load32(q, at) <==> p[at..at + 4] == q[at..at + 4]
  {
    LoadSlice(p, at);
    LoadSlice(q, at);
    if Load32(p, at) == Load32(q, at) {
      var x2, y2 := p[at + 2] as int + 0x100 * p[at + 3] as int, q[at + 2] as int + 0x100 * q[at + 3] as int;
      var x1, y1 := p[at + 1] as int + 0x100 * x2, q[at + 1] as int + 0x100 * y2;
      LowByte(p[at], x1, q[at], y1);
      LowByte(p[at + 1], x2, q[at + 1], y2);
      LowByte(p[at + 2], p[at + 3], q[at + 2], q[at + 3]);
      assert p[at..at + 4] == [p[at], p[at + 1], p[at + 2], p[at + 3]];
    }
  }

  lemma LowByte(a: u8, x: int, b: u8, y: int)
    requires a as int + 0x100 * x == b as int + 0x100 * y
    ensures a == b && x == y
  {}

  // Of the packets with one of the two addresses in common, different ones have different keys.
  lemma KeySeparates(p: seq<u8>, q: seq<u8>)
    requires 20 <= |p| && 20 <= |q|
    ensures p[12..16] == q[12..16] ==> (ConnHash(p) == ConnHash(q) <==> p[16..20] == q[16..20])
    ensures p[16..20] == q[16..20] ==> (ConnHash(p) == ConnHash(q) <==> p[12..16] == q[12..16])
  {
    hide Load32;
    LoadDecides(p, q, 12);
    LoadDecides(p, q, 16);
    LoadBounded(p, 12);
    LoadBounded(p, 16);
    LoadBounded(q, 12);
    LoadBounded(q, 16);
  }

  lemma LoadBounded(s: seq<u8>, at: nat)
    requires at + 4 <= |s|
    ensures Load32(s, at) < 0x1_0000_0000
  {}

  // ----- the table

  function Find(t: Table, hash: nat): (k: nat)
    ensures k <= |t|
    ensures k < |t| ==> t[k].hash == hash
    ensures forall i :: 0 <= i < k ==> t[i].hash != hash
  {
    if t == [] || t[0].hash == hash then 0 else 1 + Find(t[1..], hash)
  }

  function Touch(t: Table, k: nat, now: int): Table
    requires k < |t|
  {
    t[k := t[k].(lastUsed := now)]
  }

  // a packet with the given key arrives from a gateway.
  function Request(t: Table, gw: nat, hash: nat, now: int): Table {
    var k := Find(t, hash);
    if k < |t| then Touch(t, k, now) else [Conn(hash, gw, now)] + t
  }

  // update_conn_table: other packets than IPv4 are ignored, and so is a new key that finds no
  // memory.
  function Updated(t: Table, gw: nat, packet: seq<u8>, now: int, memory: bool): Table
    requires 20 <= |packet|
  {
    if !IsIPv4(packet) || (Find(t, ConnHash(packet)) == |t| && !memory) then t
    else Request(t, gw, ConnHash(packet), now)
  }

  // Entry k is the first one with the key.
  ghost predicate FirstWith(t: Table, k: int, key: nat) {
    0 <= k < |t| && t[k].hash == key && forall i :: 0 <= i < k ==> t[i].hash != key
  }

  ghost predicate Unknown(t: Table, key: nat) {
    forall i :: 0 <= i < |t| ==> t[i].hash != key
  }

  // An IPv4 packet refreshes the first entry with its key, and that entry keeps its gateway; an
  // unknown key is entered in front. Nothing else happens to the table.
  lemma UpdatedExactly(t: Table, gw: nat, packet: seq<u8>, now: int, memory: bool)
    requires 20 <= |packet|
    ensures var u, key := Updated(t, gw, packet, now, memory), ConnHash(packet);
      if packet[0] < 0x40 || 0x50 <= packet[0] then u == t
      else
        && (forall k :: FirstWith(t, k, key) ==> u == t[k := Conn(key, t[k].gw, now)])
        && (Unknown(t, key) ==> u == if memory then [Conn(key, gw, now)] + t else t)
  {
    hide Load32;
    var key := ConnHash(packet);
    forall k | FirstWith(t, k, key) ensures Find(t, key) == k {
      assert t[k].hash == key;
    }
  }

  // A reply refreshes the first entry with its key and gets that entry's gateway; otherwise it
  // changes nothing and gets 0.
  lemma RoutedExactly(t: Table, packet: seq<u8>, now: int)
    requires 20 <= |packet|
    ensures var r, key := Routed(t, packet, now), ConnHash(packet);
      if packet[0] < 0x40 || 0x50 <= packet[0] then r == (t, 0)
      else
        && (forall k :: FirstWith(t, k, key) ==> r == (t[k := Conn(key, t[k].gw, now)], t[k].gw))
        && (Unknown(t, key) ==> r == (t, 0))
  {
    hide Load32;
    var key := ConnHash(packet);
    forall k | FirstWith(t, k, key) ensures Find(t, key) == k {
      assert t[k].hash == key;
    }
  }

  // A reply with the given key: the table afterwards and the gateway, 0 for none.
  function Reply(t: Table, hash: nat, now: int): (Table, nat) {
    var k := Find(t, hash);
    if k < |t| then (Touch(t, k, now), t[k].gw) else (t, 0)
  }

  // find_gateway_for_packet: only IPv4 is looked up.
  function Routed(t: Table, packet: seq<u8>, now: int): (Table, nat)
    requires 20 <= |packet|
  {
    if IsIPv4(packet) then Reply(t, ConnHash(packet), now) else (t, 0)
  }

  predicate Expired(c: Conn, expire: bool, now: int) {
    expire || now - c.lastUsed > CONN_TIMEOUT
  }

  // cleanup_expired_connections.
  function Clean(t: Table, expire: bool, now: int): Table {
    if t == [] then []
    else (if Expired(t[0], expire, now) then [] else [t[0]]) + Clean(t[1..], expire, now)
  }

  // Sweeping entry by entry from the front.
  lemma {:induction false} CleanNext(t: Table, k: nat, expire: bool, now: int)
    requires k < |t|
    ensures Clean(t[..k + 1], expire, now)
      == Clean(t[..k], expire, now) + (if Expired(t[k], expire, now) then [] else [t[k]])
  {
    if k > 0 {
      CleanNext(t[1..], k - 1, expire, now);
      assert t[..k + 1][1..] == t[1..][..k] && t[..k][1..] == t[1..][..k - 1];
    }
  }

  ghost predicate Unique(t: Table) {
    forall i, j :: 0 <= i < j < |t| ==> t[i].hash != t[j].hash
  }

  // The periodic cleanup keeps exactly the entries used in the last three minutes, the one at the
  // end keeps none.
  lemma {:induction false} CleanExact(t: Table, now: int, c: Conn)
    ensures c in Clean(t, false, now) <==> c in t && now <= c.lastUsed + 180
    ensures Clean(t, true, now) == []
  {
    if t != [] {
      CleanExact(t[1..], now, c);
      assert c in t <==> c == t[0] || c in t[1..];
    }
  }

  // Cleanup treats every part of the table on its own, so what it keeps stays in order.
  lemma {:induction false} CleanConcat(t: Table, u: Table, expire: bool, now: int)
    ensures Clean(t + u, expire, now) == Clean(t, expire, now) + Clean(u, expire, now)
  {
    if t == [] {
      assert t + u == u;
    } else {
      assert (t + u)[1..] == t[1..] + u;
      CleanConcat(t[1..], u, expire, now);
    }
  }

  lemma {:induction false} CleanUnique(t: Table, now: int)
    requires Unique(t)
    ensures Unique(Clean(t, false, now))
  {
    if t != [] {
      CleanUnique(t[1..], now);
      var rest := Clean(t[1..], false, now);
      forall i | 0 <= i < |rest| ensures rest[i].hash != t[0].hash {
        CleanExact(t[1..], now, rest[i]);
      }
    }
  }

  // ----- runs

  datatype Op =
    | Req(gw: nat, hash: nat, now: int)
    | Rep(hash: nat, now: int)
    | Sweep(now: int)

  function Apply(t: Table, op: Op): Table {
    match op
    case Req(gw, hash, now) => Request(t, gw, hash, now)
    case Rep(hash, now) => Reply(t, hash, now).0
    case Sweep(now) => Clean(t, false, now)
  }

  function Run(t: Table, ops: seq<Op>): Table {
    if ops == [] then t else Apply(Run(t, ops[..|ops| - 1]), ops[|ops| - 1])
  }

  // No key ever has two entries.
  lemma {:induction false} AlwaysUnique(t: Table, ops: seq<Op>)
    requires Unique(t)
    ensures Unique(Run(t, ops))
  {
    if ops != [] {
      AlwaysUnique(t, ops[..|ops| - 1]);
      var u := Run(t, ops[..|ops| - 1]);
      if ops[|ops| - 1].Sweep? { CleanUnique(u, ops[|ops| - 1].now); }
    }
  }

  predicate Uses(op: Op, hash: nat) {
    !op.Sweep? && op.hash == hash
  }

  // The time of the last use of a key in ops, or since if there is none.
  function LastUse(ops: seq<Op>, hash: nat, since: int): int {
    if ops == [] then since
    else if Uses(ops[|ops| - 1], hash) then ops[|ops| - 1].now
    else LastUse(ops[..|ops| - 1], hash, since)
  }

  // Every sweep comes at most three minutes after the key's last use.
  ghost predicate KeptAlive(ops: seq<Op>, hash: nat, since: int) {
    forall u :: 0 <= u < |ops| && ops[u].Sweep? ==> ops[u].now - LastUse(ops[..u], hash, since) <= CONN_TIMEOUT
  }

  // In a table without duplicates the search finds the entry that holds the key.
  lemma FindsIt(t: Table, c: Conn)
    requires Unique(t) && c in t
    ensures Find(t, c.hash) < |t| && t[Find(t, c.hash)] == c
  {
    var i :| 0 <= i < |t| && t[i] == c;
    var k := Find(t, c.hash);
    assert i == k;
  }

  // One operation: a use of the key refreshes the entry, a sweep in time and everything
  // about other keys leave it alone.
  lemma StepKeeps(t: Table, op: Op, c: Conn)
    requires Unique(t) && c in t
    requires op.Sweep? ==> op.now - c.lastUsed <= CONN_TIMEOUT
    ensures (if Uses(op, c.hash) then c.(lastUsed := op.now) else c) in Apply(t, op)
  {
    FindsIt(t, c);
    match op
    case Req(gw, hash, now) =>
      if Find(t, hash) < |t| {
        StillThere(t, c, hash, now);
      } else {
        assert c in [Conn(hash, gw, now)] + t;
      }
    case Rep(hash, now) =>
      if Find(t, hash) < |t| { StillThere(t, c, hash, now); }
    case Sweep(now) => CleanExact(t, now, c);
  }

  lemma StillThere(t: Table, c: Conn, hash: nat, now: int)
    requires Unique(t) && c in t && Find(t, hash) < |t|
    ensures (if hash == c.hash then c.(lastUsed := now) else c) in Touch(t, Find(t, hash), now)
  {
    FindsIt(t, c);
    var i, k := Find(t, c.hash), Find(t, hash);
    assert Touch(t, k, now)[i] == if hash == c.hash then c.(lastUsed := now) else c;
  }

  // An entry whose key is used in time stays, keeps its gateway, and remembers its last use.
  lemma {:induction false} Sticky(t: Table, ops: seq<Op>, c: Conn)
    requires Unique(t) && c in t && KeptAlive(ops, c.hash, c.lastUsed)
    ensures Conn(c.hash, c.gw, LastUse(ops, c.hash, c.lastUsed)) in Run(t, ops)
  {
    if ops != [] {
      var m := |ops| - 1;
      forall u | 0 <= u < m && ops[..m][u].Sweep?
        ensures ops[..m][u].now - LastUse(ops[..m][..u], c.hash, c.lastUsed) <= CONN_TIMEOUT
      {
        assert ops[..m][..u] == ops[..u] && ops[u].Sweep?;
      }
      Sticky(t, ops[..m], c);
      AlwaysUnique(t, ops[..m]);
      StepKeeps(Run(t, ops[..m]), ops[m], Conn(c.hash, c.gw, LastUse(ops[..m], c.hash, c.lastUsed)));
    }
  }

  // So every reply in such a run is routed to the gateway of the entry.
  lemma RepliesStick(t: Table, ops: seq<Op>, c: Conn, now: int)
    requires Unique(t) && c in t && KeptAlive(ops, c.hash, c.lastUsed)
    ensures Reply(Run(t, ops), c.hash, now).1 == c.gw
  {
    Sticky(t, ops, c);
    AlwaysUnique(t, ops);
    FindsIt(Run(t, ops), Conn(c.hash, c.gw, LastUse(ops, c.hash, c.lastUsed)));
  }

  // Every entry's time of last use is that of an entry the run began with or of a use on the way.
  lemma {:induction false} LastUseIsUse(t: Table, ops: seq<Op>, c: Conn)
    requires c in Run(t, ops)
    ensures (exists d :: d in t && d.hash == c.hash && d.lastUsed == c.lastUsed)
      || exists u :: 0 <= u < |ops| && Uses(ops[u], c.hash) && ops[u].now == c.lastUsed
  {
    if ops != [] {
      var m := |ops| - 1;
      var before := Run(t, ops[..m]);
      if c in before {
        LastUseIsUse(t, ops[..m], c);
        if u :| 0 <= u < m && Uses(ops[..m][u], c.hash) && ops[..m][u].now == c.lastUsed {
          assert Uses(ops[u], c.hash);
        }
      } else {
        NewIsUse(before, ops[m], c);
      }
    }
  }

  // What one operation brings into the table has just been used.
  lemma NewIsUse(t: Table, op: Op, c: Conn)
    requires c in Apply(t, op) && c !in t
    ensures Uses(op, c.hash) && op.now == c.lastUsed
  {
    if op.Sweep? { CleanExact(t, op.now, c); }
  }

  // A key that was not used in the three minutes before a sweep is unknown after it, so the next
  // request with it decides the gateway anew.
  lemma Forgotten(t: Table, ops: seq<Op>, hash: nat, now: int, gw: nat, asked: int, replied: int)
    requires forall c :: c in t && c.hash == hash ==> c.lastUsed + 180 < now
    requires forall u :: 0 <= u < |ops| && Uses(ops[u], hash) ==> ops[u].now + 180 < now
    ensures var u := Run(t, ops + [Sweep(now)]);
      Unknown(u, hash) && Reply(Request(u, gw, hash, asked), hash, replied).1 == gw
  {
    var before, u := Run(t, ops), Run(t, ops + [Sweep(now)]);
    assert (ops + [Sweep(now)])[..|ops|] == ops;
    forall i | 0 <= i < |u| ensures u[i].hash != hash {
      CleanExact(before, now, u[i]);
      LastUseIsUse(t, ops, u[i]);
    }
    FoundAfterRequest(u, gw, hash, asked, replied);
  }

  // A connection kept in use so far is still known after a sweep if and only if its last use lies
  // at most three minutes back.
  lemma ForgottenExactly(t: Table, ops: seq<Op>, c: Conn, now: int)
    requires Unique(t) && c in t && KeptAlive(ops, c.hash, c.lastUsed)
    ensures Unknown(Run(t, ops + [Sweep(now)]), c.hash) <==> LastUse(ops, c.hash, c.lastUsed) + 180 < now
  {
    var before, u := Run(t, ops), Run(t, ops + [Sweep(now)]);
    var d := Conn(c.hash, c.gw, LastUse(ops, c.hash, c.lastUsed));
    assert (ops + [Sweep(now)])[..|ops|] == ops;
    Sticky(t, ops, c);
    AlwaysUnique(t, ops);
    CleanExact(before, now, d);
    FindsIt(before, d);
    forall i | 0 <= i < |u| && u[i].hash == c.hash ensures u[i] == d {
      CleanExact(before, now, u[i]);
      FindsIt(before, u[i]);
    }
  }

  // send_to_gateway takes 0 for "no gateway" and drops the reply.
  predicate Delivered(found: nat, gw: nat) {
    found != 0 && found == gw
  }

  // From the request that opens a connection on, as long as the connection stays in use, every
  // reply finds the gateway that request came from; it is delivered there unless that gateway
  // has number 0.
  lemma FirstRequestDecides(t: Table, gw: nat, hash: nat, began: int, ops: seq<Op>, now: int)
    requires Unique(t) && Find(t, hash) == |t|
    requires KeptAlive(ops, hash, began)
    ensures var found := Reply(Run(Request(t, gw, hash, began), ops), hash, now).1;
      found == gw && (Delivered(found, gw) <==> 0 < gw)
  {
    var u := Request(t, gw, hash, began);
    assert u[0] == Conn(hash, gw, began);
    RepliesStick(u, ops, u[0], now);
  }

  // A gateway numbered 0 never gets a reply: what its entry gives is what an unknown key gives.
  lemma GatewayZeroUnanswered(hash: nat, asked: int, now: int)
    ensures Reply(Request([], 0, hash, asked), hash, now).1 == Reply([], hash, now).1
    ensures !Delivered(Reply(Request([], 0, hash, asked), hash, now).1, 0)
  {}

  // The entry found for a key right after a request with it.
  lemma FoundAfterRequest(t: Table, gw: nat, hash: nat, asked: int, now: int)
    ensures Reply(Request(t, gw, hash, asked), hash, now).1
         == if Find(t, hash) < |t| then t[Find(t, hash)].gw else gw
  {
    var k := Find(t, hash);
    if k < |t| { FindSame(t, Touch(t, k, asked), hash); }
  }

  // The reply to an IPv4 request is delivered to the gateway that sent the request if and only
  // if that gateway is not numbered 0 and either holds the key already, or nobody does and the
  // allocation of an entry succeeds.
  lemma RoutedBack(t: Table, gw: nat, request: seq<u8>, asked: int, memory: bool, reply: seq<u8>, now: int)
    requires 20 <= |request| && 20 <= |reply| && IsIPv4(request) && IsIPv4(reply)
    requires reply[12..16] == request[16..20] && reply[16..20] == request[12..16]
    ensures var found := Routed(Updated(t, gw, request, asked, memory), reply, now).1;
      var k := Find(t, ConnHash(request));
      Delivered(found, gw) <==> gw != 0 && (if k < |t| then t[k].gw == gw else memory)
  {
    hide ConnHash, IsIPv4;
    ReplyHasRequestKey(request, reply);
    FoundAfterRequest(t, gw, ConnHash(request), asked, now);
  }

  // Two hosts that talk to one destination through different gateways each get their replies
  // at their own gateway.
  lemma TwoHosts(t: Table, g: nat, h: nat, a: seq<u8>, b: seq<u8>, toA: seq<u8>, toB: seq<u8>, now: int)
    requires 20 <= |a| && 20 <= |b| && 20 <= |toA| && 20 <= |toB|
    requires IsIPv4(a) && IsIPv4(b) && IsIPv4(toA) && IsIPv4(toB)
    requires a[12..16] != b[12..16] && a[16..20] == b[16..20]
    requires toA[12..16] == a[16..20] && toA[16..20] == a[12..16]
    requires toB[12..16] == b[16..20] && toB[16..20] == b[12..16]
    requires 0 < g && 0 < h && Unknown(t, ConnHash(a)) && Unknown(t, ConnHash(b))
    ensures var asked := Updated(Updated(t, g, a, now, true), h, b, now, true);
      var (answered, found) := Routed(asked, toA, now);
      Delivered(found, g) && Delivered(Routed(answered, toB, now).1, h)
      && Delivered(Routed(asked, toB, now).1, h)
  {
    hide ConnHash, IsIPv4;
    KeySeparates(a, b);
    ReplyHasRequestKey(a, toA);
    ReplyHasRequestKey(b, toB);
    var first := Conn(ConnHash(a), g, now);
    var second := Conn(ConnHash(b), h, now);
    var one := Updated(t, g, a, now, true);
    assert one == [first] + t;
    assert Find(one, ConnHash(b)) == |one|;
    var asked := Updated(one, h, b, now, true);
    assert asked == [second] + one;
    assert asked[0] == second && asked[1] == first;
    assert Find(asked, ConnHash(a)) == 1 && Find(asked, ConnHash(b)) == 0;
  }

  // The search looks at the keys only.
  lemma {:induction false} FindSame(t: Table, u: Table, hash: nat)
    requires |t| == |u| && forall i :: 0 <= i < |t| ==> t[i].hash == u[i].hash
    ensures Find(u, hash) == Find(t, hash)
  {
    if t != [] && t[0].hash != hash { FindSame(t[1..], u[1..], hash); }
  }

  // Different connections can share a key: the sum of the addresses says nothing about the
  // summands. Here the second gateway's reply goes to the first gateway.
  lemma CollidingConnections(a: seq<u8>, b: seq<u8>)
    requires 20 <= |a| && 20 <= |b|
    requires a[12..20] == [10, 0, 0, 1, 10, 0, 0, 4] && b[12..20] == [10, 0, 0, 2, 10, 0, 0, 3]
    ensures ConnHash(a) == 0x0500_0014 == ConnHash(b)
    ensures Reply(Request(Request([], 1, ConnHash(a), 0), 2, ConnHash(b), 0), ConnHash(b), 0).1 == 1
  {
    Bytes(a, [10, 0, 0, 1, 10, 0, 0, 4]);
    Bytes(b, [10, 0, 0, 2, 10, 0, 0, 3]);
  }

  lemma Bytes(p: seq<u8>, s: seq<u8>)
    requires 20 <= |p| && |s| == 8 && p[12..20] == s
    ensures Load32(p, 12) == Load32(s, 0) && Load32(p, 16) == Load32(s, 4)
  {
    assert p[12..20][0] == p[12] && p[12..20][1] == p[13] && p[12..20][2] == p[14] && p[12..20][3] == p[15];
    assert p[12..20][4] == p[16] && p[12..20][5] == p[17] && p[12..20][6] == p[18] && p[12..20][7] == p[19];
  }
}
