// The connection table of ustun.c: entries on an intrusive list that is searched, extended and
// swept in place. Every method acts on the table's value as the functions of Routing do.
module ConnTable {
  import opened Common
  import opened IhList
  import opened Routing

  class ConnEntry {
    const hash: nat
    const gw: nat
    var lastUsed: int

    constructor (hash: nat, gw: nat, now: int)
      ensures this.hash == hash && this.gw == gw && lastUsed == now
    {
      this.hash := hash;
      this.gw := gw;
      lastUsed := now;
    }

    function Value(): Conn
      reads this
    {
      Conn(hash, gw, lastUsed)
    }
  }

  // Node i is embedded in entry i, and no entry occurs twice.
  ghost predicate Embedded(ns: seq<Node>, es: seq<ConnEntry>) {
    && |ns| == |es|
    && (forall i :: 0 <= i < |ns| ==> ns[i].owner == es[i])
    && (forall i, j :: 0 <= i < j < |es| ==> es[i] != es[j])
  }

  lemma EmbeddedFront(n: Node, e: ConnEntry, ns: seq<Node>, es: seq<ConnEntry>)
    requires Embedded(ns, es) && n.owner == e && e !in es
    ensures Embedded([n] + ns, [e] + es)
  {}

  lemma EmbeddedWithout(ns: seq<Node>, es: seq<ConnEntry>, i: nat)
    requires Embedded(ns, es) && i < |ns|
    ensures Embedded(ns[..i] + ns[i + 1..], es[..i] + es[i + 1..])
  {}

  lemma ValuesWithout(es: seq<ConnEntry>, i: nat)
    requires i < |es|
    ensures Values(es[..i] + es[i + 1..]) == Values(es)[..i] + Values(es)[i + 1..]
  {
    hide Values;
    var short, t := es[..i] + es[i + 1..], Values(es);
    forall j | 0 <= j < |short| ensures Values(short)[j] == (t[..i] + t[i + 1..])[j] {
      assert short[j] == if j < i then es[j] else es[j + 1];
    }
  }

  // s with element k taken out or passed by.
  function Passed<T>(s: seq<T>, k: nat, gone: bool): (r: seq<T>)
    requires k < |s|
    ensures forall x :: x in r ==> x in s
  {
    if gone then s[..k] + s[k + 1..] else s
  }

  // From position kept on, s is what was behind position k of the whole.
  ghost predicate Swept<T>(s: seq<T>, whole: seq<T>, kept: nat, k: nat) {
    kept <= |s| && k <= |whole| && s[kept..] == whole[k..]
  }

  lemma SweptNext<T>(s: seq<T>, whole: seq<T>, kept: nat, k: nat, gone: bool)
    requires Swept(s, whole, kept, k) && k < |whole|
    ensures kept < |s| && s[kept] == whole[k] && |s| - kept == |whole| - k
    ensures k + 1 < |whole| ==> s[kept + 1] == whole[k + 1]
    ensures Swept(Passed(s, kept, gone), whole, if gone then kept else kept + 1, k + 1)
  {
    assert s[kept..][0] == whole[k..][0];
    if k + 1 < |whole| { assert s[kept..][1] == whole[k..][1]; }
    assert s[kept + 1..] == s[kept..][1..] == whole[k..][1..] == whole[k + 1..];
  }

  // ... and before that, what cleaning leaves of the first k entries.
  ghost predicate Cleaned(v: Table, t: Table, kept: nat, k: nat, expire: bool, now: int) {
    Swept(v, t, kept, k) && v[..kept] == Clean(t[..k], expire, now)
  }

  lemma SweepStart(ns: seq<Node>, t: Table, expire: bool, now: int)
    ensures Swept(ns, ns, 0, 0) && Cleaned(t, t, 0, 0, expire, now)
  {}

  lemma CleanedNext(v: Table, t: Table, kept: nat, k: nat, expire: bool, now: int)
    requires Cleaned(v, t, kept, k, expire, now) && k < |t|
    ensures kept < |v| && v[kept] == t[k]
    ensures var gone := Expired(t[k], expire, now);
      Cleaned(Passed(v, kept, gone), t, if gone then kept else kept + 1, k + 1, expire, now)
  {
    SweptNext(v, t, kept, k, Expired(t[k], expire, now));
    CleanNext(t, k, expire, now);
  }

  lemma CleanedEnd(v: Table, t: Table, kept: nat, expire: bool, now: int)
    requires Cleaned(v, t, kept, |t|, expire, now)
    ensures v == Clean(t, expire, now)
  {
    assert t[..|t|] == t && v[..kept] + v[kept..] == v;
  }

  class ConnTable {
    const head: Node
    ghost var nodes: seq<Node>
    ghost var entries: seq<ConnEntry>

    // The ring from the head holds the nodes of the entries.
    ghost predicate Valid()
      reads this, head, nodes
    {
      Ring([head] + nodes) && |nodes| == |entries| && Embedded(nodes, entries)
    }

    ghost function Value(): (t: Table)
      reads this, entries
      ensures |t| == |entries|
      ensures forall i :: 0 <= i < |t| ==> t[i] == entries[i].Value()
    {
      Values(entries)
    }

    constructor ()
      ensures Valid() && Value() == [] && fresh(head)
    {
      var h := new Node(null);
      head := h;
      nodes, entries := [], [];
      new;
      assert [head] + nodes == [h];
    }

    // The search loop shared by requests and replies: the first entry with the key.
    method Lookup(hash: nat) returns (entry: ConnEntry?)
      requires Valid()
      ensures var k := Find(Value(), hash); entry == if k < |entries| then entries[k] else null
    {
      ghost var ring := [head] + nodes;
      var pos := head.next;
      ghost var k: nat := 0;
      Neighbours(ring, 0);
      while pos != head
        invariant k <= |nodes| && pos == After(ring, k)
        invariant forall i :: 0 <= i < k ==> entries[i].hash != hash
        decreases |nodes| - k
      {
        assert pos == nodes[k];
        entry := pos.owner as ConnEntry;
        if entry.hash == hash {
          assert Find(Value(), hash) == k;
          return;
        }
        Neighbours(ring, k + 1);
        pos := pos.next;
        k := k + 1;
      }
      entry := null;
    }

    // The entry's time of last use moves to now.
    method Refresh(entry: ConnEntry, now: int, ghost k: nat)
      requires Valid() && k < |entries| && entry == entries[k]
      modifies entry
      ensures Valid() && Value() == Touch(old(Value()), k, now)
    {
      entry.lastUsed := now;
    }

    // A new entry goes to the front of the list.
    method Insert(entry: ConnEntry, node: Node)
      requires Valid() && node.owner == entry && node !in [head] + nodes && entry !in entries
      modifies this, node, head, head.next
      ensures Valid() && Value() == [entry.Value()] + old(Value())
    {
      hide Ring, Chain, Linked, Different, Embedded, Values;
      EmbeddedFront(node, entry, nodes, entries);
      ghost var t := [entry.Value()] + Value();
      Add(node, head, nodes);
      assert [head] + ([node] + nodes) == [head, node] + nodes;
      assert Values([entry] + entries) == t;
      nodes, entries := [node] + nodes, [entry] + entries;
    }

    // update_conn_table, for a packet from a gateway. buf is the receive buffer the packet lies
    // in, len the packet's length, which is not looked at: behind a short packet the addresses
    // are whatever the buffer holds. memory says whether malloc succeeds.
    method Update(gw: nat, buf: seq<u8>, len: nat, now: int, memory: bool)
      requires Valid() && len <= |buf| == BUFFER_SIZE
      modifies this, head, nodes, entries
      ensures Valid()
      ensures Value() == Updated(old(Value()), gw, buf, now, memory)
    {
      hide Ring, Values;
      if !IsIPv4(buf) {
        return;
      }
      var hash := ConnHash(buf);
      var entry := Lookup(hash);
      if entry != null {
        Refresh(entry, now, Find(Value(), hash));
      } else if memory {
        FirstNode();
        entry := new ConnEntry(hash, gw, now);
        var node := new Node(entry);
        Insert(entry, node);
      }
    }

    // find_gateway_for_packet: 0 when no gateway is known.
    method FindGateway(buf: seq<u8>, len: nat, now: int) returns (gw: nat)
      requires Valid() && len <= |buf| == BUFFER_SIZE
      modifies entries
      ensures Valid() && nodes == old(nodes) && entries == old(entries)
      ensures (Value(), gw) == Routed(old(Value()), buf, now)
    {
      hide Ring, Values;
      gw := 0;
      if !IsIPv4(buf) {
        return;
      }
      var hash := ConnHash(buf);
      var entry := Lookup(hash);
      if entry != null {
        gw := entry.gw;
        Refresh(entry, now, Find(Value(), hash));
      }
    }

    // Entry i is unlinked and freed.
    method Remove(pos: Node, ghost i: nat)
      requires Valid() && i < |nodes| && nodes[i] == pos
      modifies this`nodes, this`entries, head, set n | n in nodes
      ensures Valid()
      ensures nodes == old(nodes[..i] + nodes[i + 1..]) && entries == old(entries[..i] + entries[i + 1..])
      ensures Value() == old(Value()[..i] + Value()[i + 1..])
    {
      hide Ring, Chain, Linked, Different, Embedded, Values;
      EmbeddedWithout(nodes, entries, i);
      ValuesWithout(entries, i);
      RingNeighbours(i);
      ghost var s := [head] + nodes;
      Del(pos, s, i + 1);
      assert s[..i + 1] + s[i + 1 + 1..] == [head] + (nodes[..i] + nodes[i + 1..]);
      nodes, entries := nodes[..i] + nodes[i + 1..], entries[..i] + entries[i + 1..];
    }

    // One round of the cleanup loop; the successor is read before the entry is unlinked.
    method SweepOne(pos: Node, expire: bool, now: int, ghost i: nat) returns (gone: bool, n: Node)
      requires Valid() && i < |nodes| && nodes[i] == pos
      modifies this`nodes, this`entries, head, set n | n in nodes
      ensures Valid() && gone == Expired(old(Value()[i]), expire, now)
      ensures n == if i + 1 < |old(nodes)| then old(nodes)[i + 1] else head
      ensures nodes == Passed(old(nodes), i, gone) && Value() == Passed(old(Value()), i, gone)
    {
      hide Ring, Chain, Linked, Different, Values;
      RingNeighbours(i);
      n := pos.next;
      var entry := pos.owner as ConnEntry;
      gone := expire || now - entry.lastUsed > CONN_TIMEOUT;
      if gone {
        hide Embedded;
        Remove(pos, i);
      }
    }

    // cleanup_expired_connections.
    method Cleanup(expire: bool, now: int)
      requires Valid()
      modifies this`nodes, this`entries, head, set n | n in nodes
      ensures Valid() && Value() == Clean(old(Value()), expire, now)
      ensures expire ==> Value() == []
      ensures !expire ==> forall c :: c in Value() <==> c in old(Value()) && now <= c.lastUsed + 180
    {
      hide Ring, Chain, Linked, Different, Embedded, Values, Swept, Clean, Passed, Cleaned;
      ghost var t, ns := Value(), nodes;
      ghost var k: nat, kept: nat := 0, 0;
      FirstNode();
      SweepStart(nodes, t, expire, now);
      var pos := head.next;
      while pos != head
        invariant Valid() && k <= |t| == |ns|
        invariant pos == if k < |ns| then ns[k] else head
        invariant Swept(nodes, ns, kept, k) && Cleaned(Value(), t, kept, k, expire, now)
        invariant forall n :: n in nodes ==> n in ns
        decreases |t| - k
      {
        SweptNext(nodes, ns, kept, k, Expired(t[k], expire, now));
        CleanedNext(Value(), t, kept, k, expire, now);

        var gone, n := SweepOne(pos, expire, now, kept);
        pos, k, kept := n, k + 1, if gone then kept else kept + 1;
      }
      CleanedEnd(Value(), t, kept, expire, now);
      forall c ensures c in Clean(t, false, now) <==> c in t && now <= c.lastUsed + 180 {
        CleanExact(t, now, c);
      }
      CleanExact(t, now, Conn(0, 0, 0));
    }

    lemma RingNeighbours(i: nat)
      requires Valid() && i < |nodes|
      ensures nodes[i].next == if i + 1 < |nodes| then nodes[i + 1] else head
      ensures nodes[i].prev == if i > 0 then nodes[i - 1] else head
    {
      Neighbours([head] + nodes, i + 1);
    }

    lemma FirstNode()
      requires Valid()
      ensures head.next == (if |nodes| > 0 then nodes[0] else head) && head !in nodes
    {
      var s := [head] + nodes;
      Neighbours(s, 0);
      forall i | 0 <= i < |nodes| ensures nodes[i] != head {
        assert s[i + 1] != s[0];
      }
    }
  }

  ghost function Values(es: seq<ConnEntry>): (t: Table)
    reads es
    ensures |t| == |es|
    ensures forall i :: 0 <= i < |t| ==> t[i] == es[i].Value()
  {
    if es == [] then [] else [es[0].Value()] + Values(es[1..])
  }
}
