/**
 * The capacity-bounded LRU cache: a key -> node map plus a doubly linked recency
 * list between a head and a tail sentinel.  The most recently used node sits right
 * after `head`; the least recently used one right before `tail`.
 *
 * The abstract state is the list of (key, value) pairs in recency order, most
 * recent first.  `ListPut` and `ListGet` below are `put` and `get` on that state;
 * the class `LRUCache` is proved to follow them.
 */
module LRU {
  import opened Wrappers

  /** A (key, value) pair of the recency list. */
  type Entry = (int, int)

  /** The value the source's `get` returns for an absent key. */
  const Miss: int := -1

  ghost predicate HasKey(c: seq<Entry>, k: int) {
    exists i :: 0 <= i < |c| && c[i].0 == k
  }

  /** No key occurs twice in the recency list. */
  ghost predicate UniqueKeys(c: seq<Entry>) {
    forall i, j :: 0 <= i < j < |c| ==> c[i].0 != c[j].0
  }

  /** The recency list with the entry for `k` unlinked; the others keep their order. */
  function Without(c: seq<Entry>, k: int): (r: seq<Entry>)
    ensures !HasKey(r, k)
    ensures forall e :: e in r ==> e in c
    ensures !HasKey(c, k) ==> r == c
    ensures UniqueKeys(c) ==> UniqueKeys(r) && |r| == if HasKey(c, k) then |c| - 1 else |c|
  {
    if c == [] then []
    else
      var rest := Without(c[1..], k);
      assert forall e :: e in rest ==> e in c[1..];
      assert HasKey(c, k) && c[0].0 != k ==> HasKey(c[1..], k) by {
        if HasKey(c, k) && c[0].0 != k {
          var i :| 0 <= i < |c| && c[i].0 == k;
          assert c[1..][i - 1].0 == k;
        }
      }
      assert !HasKey(c, k) ==> !HasKey(c[1..], k) by {
        if HasKey(c[1..], k) {
          var i :| 0 <= i < |c[1..]| && c[1..][i].0 == k;
          assert c[i + 1].0 == k;
        }
      }
      if c[0].0 == k then
        assert UniqueKeys(c) ==> !HasKey(c[1..], k) by {
          if UniqueKeys(c) {
            forall m | 0 <= m < |c[1..]| ensures c[1..][m].0 != k {
              assert c[1..][m] == c[m + 1];
            }
          }
        }
        rest
      else
        var r := [c[0]] + rest;
        assert !HasKey(r, k) by {
          forall m | 0 <= m < |r| ensures r[m].0 != k {
            if m > 0 {
              assert r[m] == rest[m - 1];
            }
          }
        }
        assert UniqueKeys(c) ==> UniqueKeys(r) by {
          if UniqueKeys(c) {
            forall i, j | 0 <= i < j < |r| ensures r[i].0 != r[j].0 {
              if i == 0 {
                assert r[j] in c[1..];
                var m :| 0 <= m < |c[1..]| && c[1..][m] == r[j];
                assert c[m + 1] == r[j];
              }
            }
          }
        }
        r
  }

  /** The value stored for `k`, if any. */
  function Lookup(c: seq<Entry>, k: int): (r: Option<int>)
    ensures r.Some? <==> HasKey(c, k)
    ensures r.Some? ==> exists i :: 0 <= i < |c| && c[i] == (k, r.value)
  {
    if c == [] then None
    else if c[0].0 == k then Some(c[0].1)
    else
      var r := Lookup(c[1..], k);
      assert HasKey(c, k) ==> HasKey(c[1..], k) by {
        if HasKey(c, k) {
          var i :| 0 <= i < |c| && c[i].0 == k;
          assert c[1..][i - 1].0 == k;
        }
      }
      assert r.Some? ==> exists i :: 0 <= i < |c| && c[i] == (k, r.value) by {
        if r.Some? {
          var i :| 0 <= i < |c[1..]| && c[1..][i] == (k, r.value);
          assert c[i + 1] == (k, r.value);
        }
      }
      r
  }

  /**
   * `put(key, value)` on the recency list: unlink the old entry of `key`, evict the
   * least recently used entry if the list is still at capacity, and link the new
   * entry as most recent.  A capacity of 0 is excluded (the source then unlinks
   * its own head sentinel); a negative capacity never evicts.
   */
  function ListPut(c: seq<Entry>, capacity: int, k: int, v: int): seq<Entry>
    requires capacity != 0
  {
    var rest := Without(c, k);
    var kept := if |rest| == capacity then rest[..|rest| - 1] else rest;
    [(k, v)] + kept
  }

  /** `get(key)` on the recency list: the value (or -1) and the list with the entry moved to the front. */
  function ListGet(c: seq<Entry>, k: int): (int, seq<Entry>) {
    match Lookup(c, k)
    case Some(v) => (v, [(k, v)] + Without(c, k))
    case None => (Miss, c)
  }

  /** The capacity bound every state of the cache keeps. */
  ghost predicate WithinCapacity(c: seq<Entry>, capacity: int) {
    capacity <= 0 || |c| <= capacity
  }

  /** A key absent from a list is absent from each of its prefixes. */
  lemma NoKeyInPrefix(c: seq<Entry>, n: int, k: int)
    requires !HasKey(c, k) && 0 <= n <= |c|
    ensures !HasKey(c[..n], k)
  {
    forall m | 0 <= m < n ensures c[..n][m].0 != k {
      assert c[..n][m] == c[m];
    }
  }

  /** Unlinking the entry at position `i` is `Without` its key, when keys are unique. */
  lemma {:induction false} WithoutAt(c: seq<Entry>, i: int)
    requires UniqueKeys(c) && 0 <= i < |c|
    ensures Without(c, c[i].0) == c[..i] + c[i + 1..]
  {
    if i == 0 {
      assert !HasKey(c[1..], c[0].0) by {
        forall m | 0 <= m < |c[1..]| ensures c[1..][m].0 != c[0].0 {
          assert c[1..][m] == c[m + 1];
        }
      }
      assert c[..0] + c[1..] == c[1..];
    } else {
      assert UniqueKeys(c[1..]);
      WithoutAt(c[1..], i - 1);
      assert c[1..][i - 1] == c[i];
      assert c[..i] + c[i + 1..] == [c[0]] + (c[1..][..i - 1] + c[1..][i..]);
    }
  }

  /** Unlinking position `i` of a list with unique keys keeps the others unique and drops exactly key `c[i].0`. */
  lemma {:induction false} RemoveAtKeys(c: seq<Entry>, i: int)
    requires UniqueKeys(c) && 0 <= i < |c|
    ensures UniqueKeys(c[..i] + c[i + 1..])
    ensures forall k :: HasKey(c[..i] + c[i + 1..], k) <==> HasKey(c, k) && k != c[i].0
  {
    var r := c[..i] + c[i + 1..];
    forall j | 0 <= j < |r| ensures r[j] == c[if j < i then j else j + 1] && r[j].0 != c[i].0 {
    }
    forall j | 0 <= j < |c| && j != i ensures HasKey(r, c[j].0) {
      assert r[if j < i then j else j - 1] == c[j];
    }
    forall a, b | 0 <= a < b < |r| ensures r[a].0 != r[b].0 {
      assert r[a] == c[if a < i then a else a + 1] && r[b] == c[if b < i then b else b + 1];
    }
  }

  /** Linking a fresh key in front keeps keys unique and adds exactly that key. */
  lemma {:induction false} PrependKeys(e: Entry, c: seq<Entry>)
    requires UniqueKeys(c) && !HasKey(c, e.0)
    ensures UniqueKeys([e] + c)
    ensures forall k :: HasKey([e] + c, k) <==> k == e.0 || HasKey(c, k)
  {
    var r := [e] + c;
    assert r[0].0 == e.0;
    forall j | 0 <= j < |c| ensures r[j + 1] == c[j] {
    }
    forall j | 0 < j < |r| ensures r[j] == c[j - 1] {
    }
    forall a, b | 0 <= a < b < |r| ensures r[a].0 != r[b].0 {
      if a == 0 {
        assert r[b] == c[b - 1];
      } else {
        assert r[a] == c[a - 1] && r[b] == c[b - 1];
      }
    }
  }

  /** A `put` keeps keys unique and the list within capacity, and puts the new entry first. */
  lemma {:induction false} PutKeepsInvariant(c: seq<Entry>, capacity: int, k: int, v: int)
    requires capacity != 0 && UniqueKeys(c) && WithinCapacity(c, capacity)
    ensures UniqueKeys(ListPut(c, capacity, k, v)) && WithinCapacity(ListPut(c, capacity, k, v), capacity)
    ensures ListPut(c, capacity, k, v)[0] == (k, v)
    ensures Lookup(ListPut(c, capacity, k, v), k) == Some(v)
  {
    var rest := Without(c, k);
    var kept := if |rest| == capacity then rest[..|rest| - 1] else rest;
    var r := [(k, v)] + kept;
    assert !HasKey(kept, k) by {
      forall m | 0 <= m < |kept| ensures kept[m].0 != k {
        assert kept[m] == rest[m];
      }
    }
    forall i, j | 0 <= i < j < |r| ensures r[i].0 != r[j].0 {
      if i == 0 {
        assert kept[j - 1].0 != k;
      } else {
        assert kept[i - 1] == rest[i - 1] && kept[j - 1] == rest[j - 1];
      }
    }
  }

  /** Overwriting a present key replaces its value and leaves the number of entries unchanged. */
  lemma {:induction false} PutExistingKeepsSize(c: seq<Entry>, capacity: int, k: int, v: int)
    requires capacity != 0 && UniqueKeys(c) && WithinCapacity(c, capacity) && HasKey(c, k)
    ensures |ListPut(c, capacity, k, v)| == |c|
    ensures ListPut(c, capacity, k, v) == [(k, v)] + Without(c, k)
  {
  }

  /**
   * A new key on a full cache evicts exactly the least recently used entry, the last
   * one; every other entry stays, in order, behind the new one.
   */
  lemma {:induction false} PutEvictsLeastRecent(c: seq<Entry>, capacity: int, k: int, v: int)
    requires capacity >= 1 && UniqueKeys(c) && |c| == capacity && !HasKey(c, k)
    ensures ListPut(c, capacity, k, v) == [(k, v)] + c[..|c| - 1]
    ensures !HasKey(ListPut(c, capacity, k, v), c[|c| - 1].0)
  {
    var r := ListPut(c, capacity, k, v);
    var last := c[|c| - 1].0;
    forall j | 0 <= j < |r| ensures r[j].0 != last {
      if j == 0 {
        assert c[|c| - 1].0 != k;
      } else {
        assert r[j] == c[j - 1];
      }
    }
  }

  /** An immediate `get` after `put` returns the value just stored and changes nothing else. */
  lemma {:induction false} PutThenGet(c: seq<Entry>, capacity: int, k: int, v: int)
    requires capacity != 0 && UniqueKeys(c) && WithinCapacity(c, capacity)
    ensures ListGet(ListPut(c, capacity, k, v), k) == (v, ListPut(c, capacity, k, v))
  {
    var r := ListPut(c, capacity, k, v);
    PutKeepsInvariant(c, capacity, k, v);
    WithoutAt(r, 0);
    assert r[..0] + r[1..] == r[1..];
  }

  /**
   * A hit returns the stored value and moves that entry to the front; the other
   * entries keep their relative order.
   */
  lemma {:induction false} GetHitMovesToFront(c: seq<Entry>, i: int)
    requires UniqueKeys(c) && 0 <= i < |c|
    ensures ListGet(c, c[i].0) == (c[i].1, [c[i]] + (c[..i] + c[i + 1..]))
  {
    var k := c[i].0;
    WithoutAt(c, i);
    assert HasKey(c, k);
    var v := Lookup(c, k).value;
    var j :| 0 <= j < |c| && c[j] == (k, v);
    assert j == i;
    assert ListGet(c, k) == (v, [(k, v)] + Without(c, k));
  }

  /** A miss returns -1 and leaves the recency list as it was. */
  lemma {:induction false} GetMissUnchanged(c: seq<Entry>, k: int)
    requires !HasKey(c, k)
    ensures ListGet(c, k) == (Miss, c)
  {
  }

  /** A `get` keeps keys unique and the number of entries, so it keeps the capacity bound. */
  lemma {:induction false} GetKeepsInvariant(c: seq<Entry>, k: int)
    requires UniqueKeys(c)
    ensures UniqueKeys(ListGet(c, k).1) && |ListGet(c, k).1| == |c|
  {
    if HasKey(c, k) {
      var i :| 0 <= i < |c| && c[i].0 == k;
      GetHitMovesToFront(c, i);
      var r := ListGet(c, k).1;
      forall a, b | 0 <= a < b < |r| ensures r[a].0 != r[b].0 {
        if a == 0 {
          assert r[b] in c[..i] + c[i + 1..];
          assert r[b] in c[..i] || r[b] in c[i + 1..];
        }
      }
    }
  }

  /**
   * The demonstration run with capacity 2: put(1,1), put(2,2), get(1) = 1,
   * put(3,3) evicts 2, get(2) = -1, put(4,4) evicts 1, get(1) = -1, get(3) = 3, get(4) = 4.
   */
  lemma DemoRun()
    ensures
      var c1 := ListPut(ListPut([], 2, 1, 1), 2, 2, 2);
      var (g1, c2) := ListGet(c1, 1);
      var c3 := ListPut(c2, 2, 3, 3);
      var (g2, c4) := ListGet(c3, 2);
      var c5 := ListPut(c4, 2, 4, 4);
      var (g3, c6) := ListGet(c5, 1);
      var (g4, c7) := ListGet(c6, 3);
      var (g5, c8) := ListGet(c7, 4);
      g1 == 1 && g2 == Miss && g3 == Miss && g4 == 3 && g5 == 4 && c8 == [(4, 4), (3, 3)]
  {
    var c1 := ListPut(ListPut([], 2, 1, 1), 2, 2, 2);
    assert c1 == [(2, 2), (1, 1)];
    var c2 := ListGet(c1, 1).1;
    assert c2 == [(1, 1), (2, 2)];
    var c3 := ListPut(c2, 2, 3, 3);
    assert c3 == [(3, 3), (1, 1)];
    assert !HasKey(c3, 2);
    var c5 := ListPut(c3, 2, 4, 4);
    assert c5 == [(4, 4), (3, 3)];
    assert !HasKey(c5, 1);
    var c7 := ListGet(c5, 3).1;
    assert c7 == [(3, 3), (4, 4)];
  }

  /** A node of the recency list; the sentinels are nodes too.  Key and value never change. */
  class Node {
    const key: int
    const value: int
    var prev: Node?
    var next: Node?

    constructor (key: int, value: int)
      ensures this.key == key && this.value == value
      ensures prev == null && next == null
    {
      this.key := key;
      this.value := value;
      this.prev := null;
      this.next := null;
    }
  }

  /**
   * `head`, the nodes of `ns` and `tail` form a doubly linked chain: every node's
   * `next` is its successor and its `prev` its predecessor.
   */
  ghost predicate Linked(head: Node, ns: seq<Node>, tail: Node)
    reads head, tail, ns
  {
    && head.next == (if ns == [] then tail else ns[0])
    && tail.prev == (if ns == [] then head else ns[|ns| - 1])
    && (forall i {:trigger ns[i].next} :: 0 <= i < |ns| ==>
          ns[i].next == if i + 1 < |ns| then ns[i + 1] else tail)
    && (forall i {:trigger ns[i].prev} :: 0 <= i < |ns| ==>
          ns[i].prev == if i == 0 then head else ns[i - 1])
  }

  /** The sentinels are two distinct nodes, neither of them in `ns`. */
  ghost predicate Sentinels(head: Node, ns: seq<Node>, tail: Node) {
    && head != tail
    && (forall i :: 0 <= i < |ns| ==> ns[i] != head && ns[i] != tail)
  }

  /** The nodes of `ns` are pairwise distinct. */
  ghost predicate Distinct(ns: seq<Node>) {
    forall i, j :: 0 <= i < j < |ns| ==> ns[i] != ns[j]
  }

  /**
   * The map and the abstract list agree with the nodes: entry `i` is the pair of node
   * `i`, keys are unique, the map sends each key of the list to its node and holds no
   * other key, and the list is within capacity.
   */
  ghost predicate Tracks(hm: map<int, Node>, ns: seq<Node>, cs: seq<Entry>, capacity: int) {
    && |cs| == |ns|
    && (forall i :: 0 <= i < |ns| ==> cs[i] == (ns[i].key, ns[i].value))
    && UniqueKeys(cs)
    && (forall k :: k in hm ==> HasKey(cs, k))
    && (forall i :: 0 <= i < |ns| ==> ns[i].key in hm && hm[ns[i].key] == ns[i])
    && |hm| == |ns|
    && WithinCapacity(cs, capacity)
  }

  /** Unique keys make the nodes carrying them pairwise distinct. */
  lemma DistinctNodes(hm: map<int, Node>, ns: seq<Node>, cs: seq<Entry>, capacity: int)
    requires Tracks(hm, ns, cs, capacity)
    ensures Distinct(ns)
  {
    forall a, b | 0 <= a < b < |ns| ensures ns[a] != ns[b] {
      assert cs[a].0 != cs[b].0;
    }
  }

  /** Unlinking node `i` and dropping its key keeps the map and the list in step. */
  lemma {:induction false} TracksRemove(hm: map<int, Node>, ns: seq<Node>, cs: seq<Entry>, capacity: int, i: int)
    requires Tracks(hm, ns, cs, capacity) && 0 <= i < |ns|
    ensures Tracks(hm - {ns[i].key}, ns[..i] + ns[i + 1..], cs[..i] + cs[i + 1..], capacity)
  {
    RemoveAtKeys(cs, i);
    var hm', ns', cs' := hm - {ns[i].key}, ns[..i] + ns[i + 1..], cs[..i] + cs[i + 1..];
    assert forall a :: 0 <= a < |ns'| ==> ns'[a] == ns[if a < i then a else a + 1];
    assert forall a :: 0 <= a < |cs'| ==> cs'[a] == cs[if a < i then a else a + 1];
    forall a | 0 <= a < |ns'| ensures ns'[a].key in hm' && hm'[ns'[a].key] == ns'[a] {
      var a' := if a < i then a else a + 1;
      assert cs[a'].0 != cs[i].0;
    }
  }

  /** Linking a node with a fresh key in front keeps the map and the list in step. */
  lemma {:induction false} TracksInsert(hm: map<int, Node>, ns: seq<Node>, cs: seq<Entry>, capacity: int, n: Node)
    requires Tracks(hm, ns, cs, capacity) && !HasKey(cs, n.key)
    requires capacity <= 0 || |cs| < capacity
    ensures Tracks(hm[n.key := n], [n] + ns, [(n.key, n.value)] + cs, capacity)
    ensures forall a :: 0 <= a < |ns| ==> ns[a] != n
  {
    PrependKeys((n.key, n.value), cs);
    assert forall a :: 0 <= a < |ns| ==> cs[a].0 != n.key;
    var ns' := [n] + ns;
    forall a | 0 <= a < |ns'| ensures ns'[a].key in hm[n.key := n] && hm[n.key := n][ns'[a].key] == ns'[a] {
      if a > 0 {
        assert ns'[a] == ns[a - 1];
      }
    }
  }

  /**
   * Pointing the neighbours of node `i` at each other, and changing no other link,
   * leaves a chain without node `i`.
   */
  twostate lemma {:induction false} LinkedUnlink(new head: Node, new ns: seq<Node>, new tail: Node, i: int, new before: Node, new after: Node)
    requires old(allocated(head)) && old(allocated(ns)) && old(allocated(tail))
    requires old(Linked(head, ns, tail)) && Sentinels(head, ns, tail) && Distinct(ns) && 0 <= i < |ns|
    requires before == (if i == 0 then head else ns[i - 1])
    requires after == (if i + 1 < |ns| then ns[i + 1] else tail)
    requires before.next == after && after.prev == before
    requires head != before ==> head.next == old(head.next)
    requires tail != after ==> tail.prev == old(tail.prev)
    requires forall a {:trigger ns[a].next} :: 0 <= a < |ns| && ns[a] != before ==> ns[a].next == old(ns[a].next)
    requires forall a {:trigger ns[a].prev} :: 0 <= a < |ns| && ns[a] != after ==> ns[a].prev == old(ns[a].prev)
    ensures Linked(head, ns[..i] + ns[i + 1..], tail)
  {
    var ns' := ns[..i] + ns[i + 1..];
    assert forall a :: 0 <= a < |ns'| ==> ns'[a] == ns[if a < i then a else a + 1];
    forall a | 0 <= a < |ns'|
      ensures ns'[a].next == if a + 1 < |ns'| then ns'[a + 1] else tail
    {
      if a < i - 1 {
        assert old(ns[a].next) == ns[a + 1];
      } else if a >= i {
        assert ns[a + 1] != before;
        assert old(ns[a + 1].next) == if a + 2 < |ns| then ns[a + 2] else tail;
      }
    }
    forall a | 0 <= a < |ns'|
      ensures ns'[a].prev == if a == 0 then head else ns'[a - 1]
    {
      if a < i {
        assert ns[a] != after;
        assert old(ns[a].prev) == if a == 0 then head else ns[a - 1];
      } else if a > i {
        assert old(ns[a + 1].prev) == ns[a];
      }
    }
  }

  /**
   * Linking `node` between `head` and the old first node, and changing no other link,
   * leaves a chain with `node` in front.
   */
  twostate lemma {:induction false} LinkedLink(new head: Node, new ns: seq<Node>, new tail: Node, new node: Node)
    requires old(allocated(head)) && old(allocated(ns)) && old(allocated(tail)) && old(allocated(node))
    requires old(Linked(head, ns, tail)) && Sentinels(head, ns, tail) && Distinct(ns)
    requires node != head && node != tail && forall a :: 0 <= a < |ns| ==> ns[a] != node
    requires head.next == node && node.prev == head
    requires node.next == (if ns == [] then tail else ns[0])
    requires node.next.prev == node
    requires ns != [] ==> tail.prev == old(tail.prev)
    requires forall a {:trigger ns[a].next} :: 0 <= a < |ns| ==> ns[a].next == old(ns[a].next)
    requires forall a {:trigger ns[a].prev} :: 0 < a < |ns| ==> ns[a].prev == old(ns[a].prev)
    ensures Linked(head, [node] + ns, tail)
  {
    var ns' := [node] + ns;
    assert forall a :: 0 < a < |ns'| ==> ns'[a] == ns[a - 1];
    forall a | 0 <= a < |ns'|
      ensures ns'[a].next == if a + 1 < |ns'| then ns'[a + 1] else tail
    {
      if a > 0 {
        assert old(ns[a - 1].next) == if a < |ns| then ns[a] else tail;
      }
    }
    forall a | 0 <= a < |ns'|
      ensures ns'[a].prev == if a == 0 then head else ns'[a - 1]
    {
      if a > 1 {
        assert old(ns[a - 1].prev) == ns[a - 2];
      }
    }
  }

  /** The four link updates of `insert`: `node` goes between `head` and its old successor. */
  method LinkFront(head: Node, tail: Node, node: Node, ghost ns: seq<Node>)
    requires Linked(head, ns, tail) && Sentinels(head, ns, tail) && Distinct(ns)
    requires node != head && node != tail && forall a :: 0 <= a < |ns| ==> ns[a] != node
    modifies head, node, head.next
    ensures Linked(head, [node] + ns, tail)
  {
    var first := head.next;
    node.next := first;
    node.prev := head;
    first.prev := node;
    head.next := node;
    LinkedLink(head, ns, tail, node);
  }

  /** The two link updates of `remove`: the neighbours of node `i` are pointed at each other. */
  method Unlink(head: Node, tail: Node, node: Node, ghost ns: seq<Node>, ghost i: int)
    requires Linked(head, ns, tail) && Sentinels(head, ns, tail) && Distinct(ns)
    requires 0 <= i < |ns| && ns[i] == node
    modifies node.prev, node.next
    ensures Linked(head, ns[..i] + ns[i + 1..], tail)
  {
    var before, after := node.prev, node.next;
    before.next := after;
    after.prev := before;
    LinkedUnlink(head, ns, tail, i, before, after);
  }

  class LRUCache {
    var hm: map<int, Node>
    const capacity: int
    const head: Node
    const tail: Node

    /** The nodes linked between the sentinels, most recent first. */
    ghost var Nodes: seq<Node>
    /** The (key, value) pairs of `Nodes`: the abstract state. */
    ghost var Contents: seq<Entry>
    ghost var Repr: set<object>

    /**
     * The sentinels bracket exactly the nodes of `Nodes`, linked in both directions;
     * the map and `Contents` agree with the nodes; keys are unique and the list is
     * within capacity.
     */
    ghost predicate Valid()
      reads this, Repr
    {
      && head in Repr && tail in Repr
      && (forall i :: 0 <= i < |Nodes| ==> Nodes[i] in Repr)
      && Sentinels(head, Nodes, tail)
      && Linked(head, Nodes, tail)
      && Tracks(hm, Nodes, Contents, capacity)
    }

    /** `new LRUCache()` followed by `lrucache_intialise(capacity)`: two sentinels linked to each other. */
    constructor (capacity: int)
      ensures Valid() && fresh(Repr)
      ensures Contents == [] && hm == map[] && this.capacity == capacity
      ensures head.next == tail && tail.prev == head
    {
      var h := new Node(0, 0);
      var t := new Node(0, 0);
      h.next := t;
      t.prev := h;
      head, tail := h, t;
      this.capacity := capacity;
      hm := map[];
      Nodes, Contents := [], [];
      Repr := {h, t};
    }

    /** Links `node` right after `head` and maps its key to it. */
    method Insert(node: Node) returns (ok: bool)
      requires Valid()
      requires node != head && node != tail
      requires !HasKey(Contents, node.key)
      requires capacity <= 0 || |Contents| < capacity
      modifies this, Repr, node
      ensures Valid() && ok
      ensures Nodes == [node] + old(Nodes)
      ensures Contents == [(node.key, node.value)] + old(Contents)
      ensures Repr == old(Repr) + {node}
    {
      ghost var ns, cs := Nodes, Contents;
      TracksInsert(hm, ns, cs, capacity, node);
      DistinctNodes(hm, ns, cs, capacity);
      hm := hm[node.key := node];
      LinkFront(head, tail, node, ns);
      Nodes := [node] + ns;
      Contents := [(node.key, node.value)] + cs;
      Repr := Repr + {node};
      ok := true;
    }

    /**
     * Unlinks `node`, which sits at position `i` of the list, from its neighbours and
     * drops its key from the map.
     */
    method Remove(node: Node, ghost i: int) returns (ok: bool)
      requires Valid() && 0 <= i < |Nodes| && Nodes[i] == node
      modifies this, Repr
      ensures Valid() && ok
      ensures Nodes == old(Nodes)[..i] + old(Nodes)[i + 1..]
      ensures Contents == old(Contents)[..i] + old(Contents)[i + 1..]
      ensures Repr == old(Repr)
    {
      ghost var ns, cs := Nodes, Contents;
      TracksRemove(hm, ns, cs, capacity, i);
      DistinctNodes(hm, ns, cs, capacity);
      hm := hm - {node.key};
      Unlink(head, tail, node, ns, i);
      Nodes := ns[..i] + ns[i + 1..];
      Contents := cs[..i] + cs[i + 1..];
      ok := true;
    }

    /** The first step of `put`: unlinks the node of `key`, if the map has one. */
    method Unmap(key: int) returns (ok: bool)
      requires Valid()
      modifies this, Repr
      ensures Valid() && ok
      ensures Contents == Without(old(Contents), key)
      ensures Repr == old(Repr)
    {
      ok := true;
      if key in hm {
        var old_node := hm[key];
        ghost var j :| 0 <= j < |Contents| && Contents[j].0 == key;
        assert Nodes[j] == old_node;
        WithoutAt(Contents, j);
        ok := Remove(old_node, j);
      }
    }

    /** The second step of `put`: when the map is at capacity, unlinks the node before `tail`. */
    method Evict(key: int) returns (ok: bool)
      requires Valid() && capacity != 0 && !HasKey(Contents, key)
      modifies this, Repr
      ensures Valid() && ok
      ensures Contents == if |old(Contents)| == capacity then old(Contents)[..|old(Contents)| - 1] else old(Contents)
      ensures !HasKey(Contents, key) && (capacity <= 0 || |Contents| < capacity)
      ensures Repr == old(Repr)
    {
      ok := true;
      ghost var c := Contents;
      if |hm| == capacity {
        assert |Nodes| == |hm| > 0;
        var lru := tail.prev;
        assert lru == Nodes[|Nodes| - 1];
        ok := Remove(lru, |Nodes| - 1);
        NoKeyInPrefix(c, |c| - 1, key);
      }
    }

    /**
     * `put`: unlinks the old node of `key` if any, evicts the node before `tail` if the
     * map is still at capacity, and links a fresh node for (key, value) after `head`.
     */
    method Put(key: int, value: int) returns (ok: bool)
      requires Valid() && capacity != 0
      modifies this, Repr
      ensures Valid() && ok
      ensures Contents == ListPut(old(Contents), capacity, key, value)
    {
      ok := Unmap(key);
      ok := Evict(key);
      var n := new Node(key, value);
      ok := Insert(n);
    }

    /** The hit path of `get`: unlinks the node at position `i` and links it again right after `head`. */
    method MoveToFront(n: Node, ghost i: int)
      requires Valid() && 0 <= i < |Nodes| && Nodes[i] == n
      modifies this, Repr
      ensures Valid()
      ensures Contents == [old(Contents)[i]] + (old(Contents)[..i] + old(Contents)[i + 1..])
      ensures Repr == old(Repr)
    {
      ghost var c := Contents;
      assert n in Repr && n != head && n != tail;
      RemoveAtKeys(c, i);
      var ok := Remove(n, i);
      ok := Insert(n);
    }

    /** A hit moves the node right after `head` and returns its value; a miss returns -1. */
    method Get(key: int) returns (v: int)
      requires Valid()
      modifies this, Repr
      ensures Valid()
      ensures (v, Contents) == ListGet(old(Contents), key)
      ensures Repr == old(Repr)
    {
      if key in hm {
        ghost var c := Contents;
        var n := hm[key];
        ghost var i :| 0 <= i < |c| && c[i].0 == key;
        assert Nodes[i] == n && c[i] == (n.key, n.value);
        MoveToFront(n, i);
        v := n.value;
        GetHitMovesToFront(c, i);
      } else {
        v := Miss;
      }
    }
  }
}
