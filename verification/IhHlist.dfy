// The pprev list of ih_list.h: a singly linked chain from a head, in which every node also
// names the link that points at it, and the insertion that keeps such a chain sorted.
module IhHlist {
  class HlistHead {
    var first: HlistNode?
  }

  // The address of a link field: the head's, or the next field of a node.
  datatype Link = Nowhere | InHead(head: HlistHead) | InNode(node: HlistNode)

  // sortNum belongs to the record the node is embedded in.
  class HlistNode {
    var next: HlistNode?
    var pprev: Link
    const sortNum: int
  }

  ghost predicate Different(s: seq<HlistNode>) {
    forall i, j :: 0 <= i < j < |s| ==> s[i] != s[j]
  }

  // The link that leads to position i.
  function LinkTo(h: HlistHead, s: seq<HlistNode>, i: nat): Link
    requires i <= |s|
  {
    if i == 0 then InHead(h) else InNode(s[i - 1])
  }

  // The node at position i, or what the last link points at.
  function At(s: seq<HlistNode>, end: HlistNode?, i: nat): HlistNode?
    requires i <= |s|
  {
    if i == |s| then end else s[i]
  }

  // Node i points at its successor and names the link that points at it.
  ghost predicate Placed(h: HlistHead, s: seq<HlistNode>, end: HlistNode?, i: nat)
    requires i < |s|
    reads s[i]
  {
    s[i].next == At(s, end, i + 1) && s[i].pprev == LinkTo(h, s, i)
  }

  // The chain from h runs through exactly s and then points at end.
  ghost predicate Chain(h: HlistHead, s: seq<HlistNode>, end: HlistNode?)
    reads h, s
  {
    && Different(s)
    && h.first == At(s, end, 0)
    && (forall i :: 0 <= i < |s| ==> Placed(h, s, end, i))
  }

  ghost predicate Hlist(h: HlistHead, s: seq<HlistNode>)
    reads h, s
  {
    Chain(h, s, null)
  }

  // The store through a pprev pointer.
  method Store(at: Link, n: HlistNode?)
    requires !at.Nowhere?
    modifies if at.InHead? then {at.head as object} else {at.node as object}
    ensures at.InHead? ==> at.head.first == n
    ensures at.InNode? ==> at.node.next == n && at.node.pprev == old(at.node.pprev)
  {
    match at
    case InHead(h) => h.first := n;
    case InNode(m) => m.next := n;
  }

  function Inserted<T>(s: seq<T>, k: nat, n: T): seq<T>
    requires k <= |s|
  {
    s[..k] + [n] + s[k..]
  }

  function Removed<T>(s: seq<T>, k: nat): seq<T>
    requires k < |s|
  {
    s[..k] + s[k + 1..]
  }

  // The node in the middle of a chain and the links around it.
  lemma Around(h: HlistHead, s: seq<HlistNode>, k: nat)
    requires Hlist(h, s) && k < |s|
    ensures Placed(h, s, null, k)
    ensures k + 1 < |s| ==> Placed(h, s, null, k + 1)
    ensures k > 0 ==> Placed(h, s, null, k - 1)
  {}

  // ih_hlist_del: the node leaves the chain; its links are poisoned.
  method Del(n: HlistNode, ghost h: HlistHead, ghost s: seq<HlistNode>, ghost k: nat)
    requires Hlist(h, s) && k < |s| && s[k] == n
    modifies h, s
    ensures Hlist(h, Removed(s, k)) && n.next == null && n.pprev == Nowhere
  {
    Around(h, s, k);
    var next, pprev := n.next, n.pprev;
    Store(pprev, next);
    if next != null {
      next.pprev := pprev;
    }
    n.next := null;
    n.pprev := Nowhere;
    ghost var r := Removed(s, k);
    forall i | 0 <= i < |r| ensures Placed(h, r, null, i) {
      var j := if i < k then i else i + 1;
      assert old(Placed(h, s, null, j));
    }
  }

  method AddHead(n: HlistNode, h: HlistHead, ghost s: seq<HlistNode>)
    requires Hlist(h, s) && n !in s
    modifies n, h, s
    ensures Hlist(h, Inserted(s, 0, n))
  {
    if |s| > 0 { Around(h, s, 0); }
    var first := h.first;
    n.next := first;
    if first != null {
      first.pprev := InNode(n);
    }
    h.first := n;
    n.pprev := InHead(h);
    ghost var r := Inserted(s, 0, n);
    forall i | 0 <= i < |r| ensures Placed(h, r, null, i) {
      var j := i - 1;
      assert i > 0 ==> old(Placed(h, s, null, j));
    }
  }

  method AddBefore(n: HlistNode, next: HlistNode, ghost h: HlistHead, ghost s: seq<HlistNode>, ghost k: nat)
    requires Hlist(h, s) && n !in s && k < |s| && s[k] == next
    modifies n, h, s
    ensures Hlist(h, Inserted(s, k, n))
  {
    Around(h, s, k);
    n.pprev := next.pprev;
    n.next := next;
    next.pprev := InNode(n);
    Store(n.pprev, n);
    ghost var r := Inserted(s, k, n);
    forall i | 0 <= i < |r| ensures Placed(h, r, null, i) {
      var j := if i < k then i else i - 1;
      assert i != k ==> old(Placed(h, s, null, j));
    }
  }

  // ih_hlist_add_after puts its second argument behind its first.
  method AddAfter(n: HlistNode, next: HlistNode, ghost h: HlistHead, ghost s: seq<HlistNode>, ghost k: nat)
    requires Hlist(h, s) && next !in s && k < |s| && s[k] == n
    modifies next, h, s
    ensures Hlist(h, Inserted(s, k + 1, next))
  {
    Around(h, s, k);
    next.next := n.next;
    n.next := next;
    next.pprev := InNode(n);
    if next.next != null {
      next.next.pprev := InNode(next);
    }
    ghost var r := Inserted(s, k + 1, next);
    forall i | 0 <= i < |r| ensures Placed(h, r, null, i) {
      var j := if i < k + 1 then i else i - 1;
      assert i != k + 1 ==> old(Placed(h, s, null, j));
    }
  }

  // ih_hlist_move_list: the chain changes its head.
  method MoveList(from: HlistHead, to: HlistHead, ghost s: seq<HlistNode>)
    requires Hlist(from, s) && from != to
    modifies from, to, s
    ensures Hlist(to, s) && Hlist(from, [])
  {
    to.first := from.first;
    if to.first != null {
      Around(from, s, 0);
      to.first.pprev := InHead(to);
    }
    from.first := null;
    forall i | 0 <= i < |s| ensures Placed(to, s, null, i) {
      assert old(Placed(from, s, null, i));
    }
  }

  // ----- sorted insertion

  function Keys(s: seq<HlistNode>): seq<int> {
    seq(|s|, i requires 0 <= i < |s| => s[i].sortNum)
  }

  // The comparison of ih_hlist_add_ascending and ih_hlist_add_descending.
  predicate Earlier(ascending: bool, a: int, b: int) {
    if ascending then a < b else a > b
  }

  ghost predicate Sorted(ascending: bool, keys: seq<int>) {
    forall i, j :: 0 <= i < j < |keys| ==> !Earlier(ascending, keys[j], keys[i])
  }

  // The first position whose key is not earlier than the new one.
  function Place(ascending: bool, keys: seq<int>, key: int): (k: nat)
    ensures k <= |keys|
    ensures forall i :: 0 <= i < k ==> Earlier(ascending, keys[i], key)
    ensures k < |keys| ==> !Earlier(ascending, keys[k], key)
  {
    if keys == [] || !Earlier(ascending, keys[0], key) then 0 else 1 + Place(ascending, keys[1..], key)
  }

  lemma {:induction false} PlaceIs(ascending: bool, keys: seq<int>, key: int, k: nat)
    requires k <= |keys| && (forall i :: 0 <= i < k ==> Earlier(ascending, keys[i], key))
    requires k < |keys| ==> !Earlier(ascending, keys[k], key)
    ensures Place(ascending, keys, key) == k
  {
    if k > 0 { PlaceIs(ascending, keys[1..], key, k - 1); }
  }

  // Inserting there keeps a list sorted, ascending or descending, and puts the key before its
  // equals.
  lemma PlaceKeepsSorted(ascending: bool, keys: seq<int>, key: int)
    requires Sorted(ascending, keys)
    ensures var k := Place(ascending, keys, key);
      var r := Inserted(keys, k, key);
      && Sorted(ascending, r)
      && (forall i, j :: 0 <= i < j < |r| ==> if ascending then r[i] <= r[j] else r[i] >= r[j])
      && (forall i :: 0 <= i < k ==> if ascending then keys[i] < key else keys[i] > key)
      && (forall i :: k <= i < |keys| ==> if ascending then key <= keys[i] else key >= keys[i])
  {
    var k := Place(ascending, keys, key);
    var r := Inserted(keys, k, key);
    forall i | k <= i < |keys| ensures !Earlier(ascending, keys[i], key) {
      assert i > k ==> !Earlier(ascending, keys[i], keys[k]);
    }
    forall i, j | 0 <= i < j < |r| ensures !Earlier(ascending, r[j], r[i]) {
      if j > k {
        assert r[j] == keys[j - 1] && !Earlier(ascending, keys[j - 1], keys[k]);
      }
    }
  }

  // The chain with the node in its place is sorted if the chain was.
  lemma InsertionSorted(ascending: bool, s: seq<HlistNode>, n: HlistNode)
    requires Sorted(ascending, Keys(s))
    ensures Sorted(ascending, Keys(Inserted(s, Place(ascending, Keys(s), n.sortNum), n)))
  {
    var k := Place(ascending, Keys(s), n.sortNum);
    PlaceKeepsSorted(ascending, Keys(s), n.sortNum);
    assert Keys(Inserted(s, k, n)) == Inserted(Keys(s), k, n.sortNum);
  }

  // The nodes before its place have smaller keys, or greater ones in descending order, and the
  // node at its place has not.
  lemma PlaceAmongNodes(ascending: bool, s: seq<HlistNode>, n: HlistNode)
    ensures var k := Place(ascending, Keys(s), n.sortNum);
      && (forall i :: 0 <= i < k ==> if ascending then s[i].sortNum < n.sortNum else s[i].sortNum > n.sortNum)
      && (k < |s| ==> if ascending then n.sortNum <= s[k].sortNum else n.sortNum >= s[k].sortNum)
  {
    forall i | 0 <= i < |s| ensures Keys(s)[i] == s[i].sortNum {}
  }

  // The search loop: the node to insert before, or null and the last node.
  method FindPlace(ascending: bool, key: int, h: HlistHead, ghost s: seq<HlistNode>)
    returns (pos: HlistNode?, last: HlistNode?)
    requires Hlist(h, s) && |s| > 0
    ensures var k := Place(ascending, Keys(s), key);
      if k < |s| then pos == s[k] else pos == null && last == s[|s| - 1]
  {
    pos, last := h.first, null;
    ghost var k: nat := 0;
    while pos != null
      invariant k <= |s| && pos == At(s, null, k)
      invariant k > 0 ==> last == s[k - 1]
      invariant forall i :: 0 <= i < k ==> Earlier(ascending, Keys(s)[i], key)
      decreases |s| - k
    {
      Around(h, s, k);
      last := pos;
      if !Earlier(ascending, pos.sortNum, key) {
        break;
      }
      pos := pos.next;
      k := k + 1;
    }
    PlaceIs(ascending, Keys(s), key, k);
  }

  // A chain ends properly exactly when what it ends with is null.
  lemma OneEnd(h: HlistHead, s: seq<HlistNode>, end: HlistNode?)
    requires Chain(h, s, end) && |s| > 0
    ensures Hlist(h, s) <==> end == null
  {
    var k := |s| - 1;
    assert Placed(h, s, end, k);
    assert Hlist(h, s) ==> Placed(h, s, null, k);
  }

  // ih_hlist_add_ascending and its mirror image. A node that becomes the last one keeps its
  // own next pointer, so the result ends properly exactly when that pointer was null or the
  // node did not become the last.
  method AddSorted(ascending: bool, n: HlistNode, h: HlistHead, ghost s: seq<HlistNode>)
    requires Hlist(h, s) && n !in s
    modifies n, h, s
    ensures var k := Place(ascending, Keys(s), n.sortNum);
      Chain(h, Inserted(s, k, n), if k < |s| then null else old(n.next))
    ensures var k := Place(ascending, Keys(s), n.sortNum);
      Hlist(h, Inserted(s, k, n)) <==> k < |s| || old(n.next) == null
    ensures Sorted(ascending, Keys(s)) ==>
      Sorted(ascending, Keys(Inserted(s, Place(ascending, Keys(s), n.sortNum), n)))
    ensures var k := Place(ascending, Keys(s), n.sortNum);
      && (forall i :: 0 <= i < k ==> if ascending then s[i].sortNum < n.sortNum else s[i].sortNum > n.sortNum)
      && (k < |s| ==> if ascending then n.sortNum <= s[k].sortNum else n.sortNum >= s[k].sortNum)
  {
    hide Place, Sorted;
    PlaceAmongNodes(ascending, s, n);
    if Sorted(ascending, Keys(s)) { InsertionSorted(ascending, s, n); }
    if h.first == null {
      h.first := n;
      n.pprev := InHead(h);
      assert Inserted(s, 0, n) == [n];
      OneEnd(h, [n], n.next);
    } else {
      var pos, last := FindPlace(ascending, n.sortNum, h, s);
      ghost var k := Place(ascending, Keys(s), n.sortNum);
      if pos != null {
        InsertAt(n, pos, h, s, k);
      } else {
        Append(n, last, h, s);
        assert Inserted(s, |s|, n) == s + [n];
        OneEnd(h, s + [n], n.next);
      }
    }
  }

  // The branch that found a node to insert before.
  method InsertAt(n: HlistNode, pos: HlistNode, ghost h: HlistHead, ghost s: seq<HlistNode>, ghost k: nat)
    requires Hlist(h, s) && n !in s && k < |s| && s[k] == pos
    modifies n, h, s
    ensures Hlist(h, Inserted(s, k, n))
  {
    Around(h, s, k);
    Store(pos.pprev, n);
    n.pprev := pos.pprev;
    n.next := pos;
    pos.pprev := InNode(n);
    ghost var r := Inserted(s, k, n);
    forall i | 0 <= i < |r| ensures Placed(h, r, null, i) {
      var j := if i < k then i else i - 1;
      assert i != k ==> old(Placed(h, s, null, j));
    }
  }

  // The branch that reached the end.
  method Append(n: HlistNode, last: HlistNode, ghost h: HlistHead, ghost s: seq<HlistNode>)
    requires Hlist(h, s) && n !in s && |s| > 0 && last == s[|s| - 1]
    modifies n, last
    ensures n.next == old(n.next) && Chain(h, s + [n], n.next)
  {
    last.next := n;
    n.pprev := InNode(last);
    ghost var r := s + [n];
    forall i | 0 <= i < |r| ensures Placed(h, r, n.next, i) {
      assert i < |s| ==> old(Placed(h, s, null, i));
    }
  }

  // Deleting a node takes its insertion back.
  method AddThenDel(ascending: bool, n: HlistNode, h: HlistHead, ghost s: seq<HlistNode>)
    requires Hlist(h, s) && n !in s && n.next == null
    modifies n, h, s
    ensures Hlist(h, s) && n.next == null && n.pprev == Nowhere
  {
    AddSorted(ascending, n, h, s);
    ghost var k := Place(ascending, Keys(s), n.sortNum);
    Del(n, h, Inserted(s, k, n), k);
    assert Removed(Inserted(s, k, n), k) == s;
  }
}
