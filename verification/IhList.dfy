// The intrusive circular doubly linked list of ih_list.h. A list is a ring of nodes that
// starts at its head; every operation is shown to act on the sequence of nodes.
module IhList {
  // A list node; owner is the record the node is embedded in, null for a list head.
  class Node {
    var next: Node?
    var prev: Node?
    const owner: object?

    constructor (owner: object?)
      ensures next == this == prev && this.owner == owner
    {
      this.owner := owner;
      new;
      next := this;
      prev := this;
    }
  }

  ghost predicate Different(s: seq<Node>) {
    forall i, j :: 0 <= i < j < |s| ==> s[i] != s[j]
  }

  // b follows a.
  ghost predicate Linked(a: Node, b: Node)
    reads a, b
  {
    a.next == b && b.prev == a
  }

  ghost predicate LinkedAt(s: seq<Node>, i: nat)
    requires i + 1 < |s|
    reads s[i], s[i + 1]
  {
    Linked(s[i], s[i + 1])
  }

  // Neighbours in s are linked both ways.
  ghost predicate Chain(s: seq<Node>)
    reads s
  {
    forall i :: 0 <= i < |s| - 1 ==> LinkedAt(s, i)
  }

  // A closed ring of different nodes; s[0] is the head.
  ghost predicate Ring(s: seq<Node>)
    reads s
  {
    |s| > 0 && Different(s) && Chain(s) && Linked(s[|s| - 1], s[0])
  }

  function After(s: seq<Node>, k: nat): Node
    requires k < |s|
  {
    if k + 1 == |s| then s[0] else s[k + 1]
  }

  function Before(s: seq<Node>, k: nat): Node
    requires k < |s|
  {
    if k == 0 then s[|s| - 1] else s[k - 1]
  }

  // In a ring every node is linked with both its neighbours.
  lemma Neighbours(s: seq<Node>, k: nat)
    requires Ring(s) && k < |s|
    ensures Linked(Before(s, k), s[k]) && Linked(s[k], After(s, k))
  {
    if k + 1 < |s| { assert LinkedAt(s, k); }
    if 0 < k { assert LinkedAt(s, k - 1); }
  }

  // ----- elementary operations

  method InitListHead(list: Node)
    modifies list
    ensures Ring([list])
  {
    list.next := list;
    list.prev := list;
  }

  // __ih_list_add: put a node between two neighbours, here behind position k of the ring.
  method AddBetween(n: Node, prev: Node, next: Node, ghost s: seq<Node>, ghost k: nat)
    requires Ring(s) && k < |s| && n !in s
    requires prev == s[k] && next == After(s, k)
    modifies n, prev, next
    ensures Ring(s[..k + 1] + [n] + s[k + 1..])
  {
    next.prev := n;
    n.next := next;
    n.prev := prev;
    prev.next := n;
    ghost var r := s[..k + 1] + [n] + s[k + 1..];
    forall i | 0 <= i < |r| - 1 ensures LinkedAt(r, i) {
      if i < k {
        assert old(LinkedAt(s, i));
      } else if i > k + 1 {
        assert old(LinkedAt(s, i - 1));
      }
    }
  }

  method Add(n: Node, head: Node, ghost rest: seq<Node>)
    requires Ring([head] + rest) && n !in [head] + rest
    modifies n, head, head.next
    ensures Ring([head, n] + rest)
  {
    ghost var s := [head] + rest;
    Neighbours(s, 0);
    AddBetween(n, head, head.next, s, 0);
    assert s[..1] + [n] + s[1..] == [head, n] + rest;
  }

  method AddTail(n: Node, head: Node, ghost rest: seq<Node>)
    requires Ring([head] + rest) && n !in [head] + rest
    modifies n, head, head.prev
    ensures Ring([head] + rest + [n])
  {
    ghost var s := [head] + rest;
    AddBetween(n, head.prev, head, s, |s| - 1);
    assert s[..|s|] + [n] + s[|s|..] == [head] + rest + [n];
  }

  // __ih_list_del on the neighbours of position k.
  method Unlink(prev: Node, next: Node, ghost s: seq<Node>, ghost k: nat)
    requires Ring(s) && 0 < k < |s|
    requires prev == s[k - 1] && next == After(s, k)
    modifies prev, next
    ensures Ring(s[..k] + s[k + 1..])
  {
    next.prev := prev;
    prev.next := next;
    ghost var r := s[..k] + s[k + 1..];
    forall i | 0 <= i < |r| - 1 ensures LinkedAt(r, i) {
      if i < k - 1 {
        assert old(LinkedAt(s, i));
      } else if k <= i {
        assert old(LinkedAt(s, i + 1));
      }
    }
    assert k + 1 < |s| ==> old(Linked(s[|s| - 1], s[0]));
  }

  // ih_list_del: the node leaves the ring and its links are poisoned.
  method Del(entry: Node, ghost s: seq<Node>, ghost k: nat)
    requires Ring(s) && 0 < k < |s| && s[k] == entry
    modifies entry, entry.prev, entry.next
    ensures Ring(s[..k] + s[k + 1..])
    ensures entry.next == null == entry.prev
  {
    Neighbours(s, k);
    Unlink(entry.prev, entry.next, s, k);
    entry.next := null;
    entry.prev := null;
  }

  method DelInit(entry: Node, ghost s: seq<Node>, ghost k: nat)
    requires Ring(s) && 0 < k < |s| && s[k] == entry
    modifies entry, entry.prev, entry.next
    ensures Ring(s[..k] + s[k + 1..]) && Ring([entry])
  {
    Neighbours(s, k);
    Unlink(entry.prev, entry.next, s, k);
    InitListHead(entry);
  }

  // ih_list_replace: the new node takes the old one's place. A head alone in its ring is
  // replaced too: its neighbours are the head itself, and the second line already redirects
  // the links that the last two read.
  method Replace(oldNode: Node, newNode: Node, ghost s: seq<Node>, ghost k: nat)
    requires Ring(s) && k < |s| && s[k] == oldNode && newNode !in s
    modifies newNode, oldNode, oldNode.next, oldNode.prev
    ensures Ring(s[k := newNode])
    ensures |s| > 1 ==> oldNode.next == old(oldNode.next) && oldNode.prev == old(oldNode.prev)
  {
    ghost var r := s[k := newNode];
    Neighbours(s, k);
    newNode.next := oldNode.next;
    newNode.next.prev := newNode;
    newNode.prev := oldNode.prev;
    newNode.prev.next := newNode;
    forall i | 0 <= i < |r| - 1 ensures LinkedAt(r, i) {
      assert old(LinkedAt(s, i));
    }
  }

  method ReplaceInit(oldNode: Node, newNode: Node, ghost s: seq<Node>, ghost k: nat)
    requires Ring(s) && k < |s| && s[k] == oldNode && newNode !in s
    modifies newNode, oldNode, oldNode.next, oldNode.prev
    ensures Ring(s[k := newNode]) && Ring([oldNode])
  {
    Replace(oldNode, newNode, s, k);
    InitListHead(oldNode);
  }

  // ----- tests

  // ih_list_is_last.
  method IsLast(list: Node, head: Node, ghost s: seq<Node>, ghost k: nat) returns (r: bool)
    requires Ring(s) && s[0] == head && k < |s| && s[k] == list
    ensures r <==> k == |s| - 1
  {
    Neighbours(s, k);
    r := list.next == head;
  }

  method Empty(head: Node, ghost s: seq<Node>) returns (r: bool)
    requires Ring(s) && s[0] == head
    ensures r <==> s == [head]
  {
    Neighbours(s, 0);
    r := head.next == head;
  }

  method IsSingular(head: Node, ghost s: seq<Node>) returns (r: bool)
    requires Ring(s) && s[0] == head
    ensures r <==> |s| == 2
  {
    var e := Empty(head, s);
    Neighbours(s, 0);
    r := !e && head.next == head.prev;
  }

  // ----- moving

  // ih_list_move inside one ring: the node comes right behind the head.
  method MoveWithin(list: Node, head: Node, ghost s: seq<Node>, ghost k: nat)
    requires Ring(s) && s[0] == head && 0 < k < |s| && s[k] == list
    modifies s
    ensures Ring([head, list] + s[1..k] + s[k + 1..])
  {
    Neighbours(s, k);
    Unlink(list.prev, list.next, s, k);
    ghost var rest := s[1..k] + s[k + 1..];
    assert s[..k] + s[k + 1..] == [head] + rest;
    Neighbours([head] + rest, 0);
    Add(list, head, rest);
    assert [head, list] + rest == [head, list] + s[1..k] + s[k + 1..];
  }

  ghost predicate Disjoint(s: seq<Node>, t: seq<Node>) {
    forall i, j :: 0 <= i < |s| && 0 <= j < |t| ==> s[i] != t[j]
  }

  // ih_list_move from one ring to another.
  method MoveAcross(list: Node, head: Node, ghost s: seq<Node>, ghost k: nat, ghost t: seq<Node>)
    requires Ring(s) && Ring(t) && Disjoint(s, t) && t[0] == head && 0 < k < |s| && s[k] == list
    modifies s, t
    ensures Ring(s[..k] + s[k + 1..]) && Ring([head, list] + t[1..])
  {
    Neighbours(s, k);
    Unlink(list.prev, list.next, s, k);
    assert t == [head] + t[1..];
    Neighbours(t, 0);
    Add(list, head, t[1..]);
  }

  // ----- cutting and splicing

  // ih_list_cut_position: the nodes up to entry move to a new head. An empty list is left
  // alone, and so is the new head then.
  method CutPosition(list: Node, head: Node, entry: Node, ghost s: seq<Node>, ghost k: nat)
    requires Ring(s) && s[0] == head && k < |s| && s[k] == entry && list !in s
    modifies list, s
    ensures |s| == 1 ==> Ring(s) && list.next == old(list.next) && list.prev == old(list.prev)
    ensures |s| > 1 ==> Ring([list] + s[1..k + 1]) && Ring([head] + s[k + 1..])
  {
    var empty := Empty(head, s);
    if empty {
      return;
    }
    var singular := IsSingular(head, s);
    Neighbours(s, 0);
    if singular && head.next != entry && head != entry {
      assert false;
    }
    if entry == head {
      InitListHead(list);
      assert [head] + s[1..] == s;
    } else {
      CutBehind(list, head, entry, s, k);
    }
  }

  method CutBehind(list: Node, head: Node, entry: Node, ghost s: seq<Node>, ghost k: nat)
    requires Ring(s) && s[0] == head && 0 < k < |s| && s[k] == entry && list !in s
    modifies list, s
    ensures Ring([list] + s[1..k + 1]) && Ring([head] + s[k + 1..])
  {
    Neighbours(s, 0);
    Neighbours(s, k);
    var newFirst := entry.next;
    list.next := head.next;
    list.next.prev := list;
    list.prev := entry;
    entry.next := list;
    head.next := newFirst;
    newFirst.prev := head;
    ghost var a, b := [list] + s[1..k + 1], [head] + s[k + 1..];
    forall i | 0 <= i < |a| - 1 ensures LinkedAt(a, i) {
      if 0 < i { assert old(LinkedAt(s, i)); }
    }
    forall i | 0 <= i < |b| - 1 ensures LinkedAt(b, i) {
      if 0 < i { assert old(LinkedAt(s, k + i)); }
    }
  }

  // __ih_list_splice: all nodes of ring x but its head go behind position k of ring y.
  method SpliceBetween(list: Node, prev: Node, next: Node, ghost x: seq<Node>, ghost y: seq<Node>, ghost k: nat)
    requires Ring(x) && Ring(y) && Disjoint(x, y) && x[0] == list && |x| > 1
    requires k < |y| && prev == y[k] && next == After(y, k)
    modifies x[1..], prev, next
    ensures Ring(y[..k + 1] + x[1..] + y[k + 1..])
  {
    Neighbours(x, 0);
    var first, last := list.next, list.prev;
    first.prev := prev;
    prev.next := first;
    last.next := next;
    next.prev := last;
    ghost var r := y[..k + 1] + x[1..] + y[k + 1..];
    ghost var m := |x| - 1;
    forall i | 0 <= i < |r| - 1 ensures LinkedAt(r, i) {
      if i < k {
        assert old(LinkedAt(y, i));
      } else if k < i < k + m {
        assert old(LinkedAt(x, i - k));
      } else if k + m < i {
        assert old(LinkedAt(y, i - m));
      }
    }
  }

  method Splice(list: Node, head: Node, ghost x: seq<Node>, ghost y: seq<Node>)
    requires Ring(x) && Ring(y) && Disjoint(x, y) && x[0] == list && y[0] == head
    modifies x[1..], y
    ensures Ring([head] + x[1..] + y[1..])
  {
    var empty := Empty(list, x);
    if !empty {
      Neighbours(y, 0);
      SpliceBetween(list, head, head.next, x, y, 0);
      assert y[..1] + x[1..] + y[1..] == [head] + x[1..] + y[1..];
    } else {
      assert [head] + x[1..] + y[1..] == y;
    }
  }

  method SpliceTail(list: Node, head: Node, ghost x: seq<Node>, ghost y: seq<Node>)
    requires Ring(x) && Ring(y) && Disjoint(x, y) && x[0] == list && y[0] == head
    modifies x[1..], y
    ensures Ring(y + x[1..])
  {
    var empty := Empty(list, x);
    if !empty {
      Neighbours(y, 0);
      SpliceBetween(list, head.prev, head, x, y, |y| - 1);
      assert y[..|y|] + x[1..] + y[|y|..] == y + x[1..];
    } else {
      assert y + x[1..] == y;
    }
  }

  method SpliceInit(list: Node, head: Node, ghost x: seq<Node>, ghost y: seq<Node>)
    requires Ring(x) && Ring(y) && Disjoint(x, y) && x[0] == list && y[0] == head
    modifies x, y
    ensures Ring([head] + x[1..] + y[1..]) && Ring([list])
  {
    var empty := Empty(list, x);
    if !empty {
      Neighbours(y, 0);
      SpliceBetween(list, head, head.next, x, y, 0);
      ghost var r := [head] + x[1..] + y[1..];
      assert y[..1] + x[1..] + y[1..] == r;
      assert list !in r;
      InitListHead(list);
    } else {
      assert [head] + x[1..] + y[1..] == y;
    }
  }

  // Splicing a cut prefix back restores the ring.
  method CutThenSplice(list: Node, head: Node, entry: Node, ghost s: seq<Node>, ghost k: nat)
    requires Ring(s) && s[0] == head && 0 < k < |s| && s[k] == entry && list !in s
    modifies list, s
    ensures Ring(s)
  {
    CutPosition(list, head, entry, s, k);
    ghost var x, y := [list] + s[1..k + 1], [head] + s[k + 1..];
    Splice(list, head, x, y);
    assert [head] + x[1..] + y[1..] == s;
  }
}
