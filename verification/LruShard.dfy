/**
 * One shard of the cache's eviction tracker (`LruShard` in crates/rv-cache/src/lru.rs): a map
 * from digests to heap nodes and an intrusive doubly linked list of those nodes, oldest first.
 */
module LruShards {
  import opened Types
  import opened Recency

  class LruNode {
    const digest: Digest
    var timestamp: nat
    var prev: LruNode?
    var next: LruNode?

    constructor (digest: Digest, timestamp: nat)
      ensures this.digest == digest && this.timestamp == timestamp && prev == null && next == null
    {
      this.digest := digest;
      this.timestamp := timestamp;
      prev := null;
      next := null;
    }
  }

  /** What a node says: a digest and when it was last inserted or touched. */
  datatype Item = Item(digest: Digest, timestamp: nat)

  /** The items without the one for `d`, if any. */
  function RemoveDigest(items: seq<Item>, d: Digest): (r: seq<Item>) {
    if items == [] then []
    else if items[0].digest == d then items[1..]
    else [items[0]] + RemoveDigest(items[1..], d)
  }

  predicate HasDigest(items: seq<Item>, d: Digest) {
    exists k | 0 <= k < |items| :: items[k].digest == d
  }

  /** Each digest is listed once. */
  ghost predicate Distinct(items: seq<Item>) {
    forall j, k | 0 <= j < k < |items| :: items[j].digest != items[k].digest
  }

  /** Timestamps strictly increase from the oldest to the newest. */
  ghost predicate Rising(items: seq<Item>) {
    forall j, k | 0 <= j < k < |items| :: items[j].timestamp < items[k].timestamp
  }

  lemma {:induction false} RemoveDigestAt(items: seq<Item>, k: nat)
    requires k < |items| && Distinct(items)
    ensures RemoveDigest(items, items[k].digest) == Without(items, k)
  {
    if k > 0 {
      assert items[1..][k - 1] == items[k] && items[0].digest != items[k].digest;
      RemoveDigestAt(items[1..], k - 1);
      assert Without(items, k) == [items[0]] + Without(items[1..], k - 1);
    }
  }

  lemma {:induction false} RemoveDigestAbsent(items: seq<Item>, d: Digest)
    requires !HasDigest(items, d)
    ensures RemoveDigest(items, d) == items
  {
    if items != [] {
      assert items[0].digest != d;
      RemoveDigestAbsent(items[1..], d);
    }
  }

  lemma {:induction false} HasRemove(r: seq<Item>, d: Digest)
    requires Distinct(r)
    ensures forall e :: HasDigest(RemoveDigest(r, d), e) <==> HasDigest(r, e) && e != d
    ensures |RemoveDigest(r, d)| == if HasDigest(r, d) then |r| - 1 else |r|
    ensures Distinct(RemoveDigest(r, d))
  {
    if r != [] {
      HasRemove(r[1..], d);
      HasCons(r);
      if r[0].digest == d {
        assert !HasDigest(r[1..], d);
      } else {
        HasCons(RemoveDigest(r, d));
        assert !HasDigest(r[1..], r[0].digest);
        assert !HasDigest(RemoveDigest(r[1..], d), r[0].digest);
      }
    }
  }

  lemma HasCons(r: seq<Item>)
    requires r != []
    ensures forall e :: HasDigest(r, e) <==> r[0].digest == e || HasDigest(r[1..], e)
  {
    forall e
      ensures HasDigest(r, e) <==> r[0].digest == e || HasDigest(r[1..], e)
    {
      if HasDigest(r[1..], e) {
        var k :| 0 <= k < |r| - 1 && r[1..][k].digest == e;
        assert r[k + 1].digest == e;
      }
      if HasDigest(r, e) && r[0].digest != e {
        var k :| 0 <= k < |r| && r[k].digest == e;
        assert r[1..][k - 1].digest == e;
      }
    }
  }

  lemma HasPush(r: seq<Item>, x: Item)
    ensures forall e :: HasDigest(r + [x], e) <==> HasDigest(r, e) || x.digest == e
  {
    forall e
      ensures HasDigest(r + [x], e) <==> HasDigest(r, e) || x.digest == e
    {
      assert (r + [x])[|r|] == x;
      assert forall k | 0 <= k < |r| :: (r + [x])[k] == r[k];
    }
  }

  function OrNull(n: Option<LruNode>): LruNode? {
    if n.Some? then n.value else null
  }

  /** The `k`-th node of the list points at its two neighbours. */
  ghost predicate LinkAt(nodes: seq<LruNode>, k: nat)
    requires k < |nodes|
    reads nodes[k]
  {
    nodes[k].prev == OrNull(Before(nodes, k)) && nodes[k].next == OrNull(After(nodes, k))
  }

  /** The links form one acyclic list through exactly `nodes`. */
  ghost predicate Linked(nodes: seq<LruNode>, head: LruNode?, tail: LruNode?)
    reads nodes
  {
    && NoDup(nodes) && head == OrNull(First(nodes)) && tail == OrNull(Last(nodes))
    && forall k | 0 <= k < |nodes| :: LinkAt(nodes, k)
  }

  /** The map finds each node of the list under its digest, and nothing else. */
  ghost predicate Filed(index: map<Digest, LruNode>, nodes: seq<LruNode>) {
    && (forall k | 0 <= k < |nodes| :: nodes[k].digest in index && index[nodes[k].digest] == nodes[k])
    && (forall d | d in index :: index[d] in nodes && index[d].digest == d)
  }

  ghost predicate SaysAt(nodes: seq<LruNode>, items: seq<Item>, k: nat)
    requires k < |nodes| == |items|
    reads nodes[k]
  {
    items[k] == Item(nodes[k].digest, nodes[k].timestamp)
  }

  /** What the nodes say, in list order. */
  ghost predicate Described(nodes: seq<LruNode>, items: seq<Item>)
    reads nodes
  {
    |nodes| == |items| && forall k | 0 <= k < |nodes| :: SaysAt(nodes, items, k)
  }

  lemma DescribedWithout(nodes: seq<LruNode>, items: seq<Item>, k: nat)
    requires k < |nodes| == |items|
    requires forall j | 0 <= j < |nodes| && j != k :: SaysAt(nodes, items, j)
    ensures Described(Without(nodes, k), Without(items, k))
  {
    var r, its := Without(nodes, k), Without(items, k);
    forall m | 0 <= m < |r|
      ensures SaysAt(r, its, m)
    {
      var j := if m < k then m else m + 1;
      WithoutAt(nodes, k, m);
      WithoutAt(items, k, m);
      assert SaysAt(nodes, items, j);
    }
  }

  lemma DescribedPush(nodes: seq<LruNode>, items: seq<Item>, node: LruNode)
    requires Described(nodes, items)
    ensures Described(nodes + [node], items + [Item(node.digest, node.timestamp)])
  {
    var r, its := nodes + [node], items + [Item(node.digest, node.timestamp)];
    forall m | 0 <= m < |r|
      ensures SaysAt(r, its, m)
    {
      if m < |nodes| {
        assert SaysAt(nodes, items, m);
      }
    }
  }

  lemma WithinWithout(nodes: seq<LruNode>, k: nat, repr: set<LruNode>)
    requires k < |nodes| && Within(nodes, repr)
    ensures Within(Without(nodes, k), repr) && Within(Without(nodes, k) + [nodes[k]], repr)
  {
  }

  ghost predicate Within(nodes: seq<LruNode>, repr: set<LruNode>) {
    forall k | 0 <= k < |nodes| :: nodes[k] in repr
  }

  lemma FiledFind(index: map<Digest, LruNode>, nodes: seq<LruNode>, items: seq<Item>, d: Digest) returns (k: nat)
    requires Filed(index, nodes) && Described(nodes, items) && NoDup(nodes)
    ensures Distinct(items)
    ensures d in index <==> HasDigest(items, d)
    ensures d in index ==> k < |nodes| && nodes[k] == index[d] && items[k].digest == d
  {
    k := 0;
    forall j | 0 <= j < |nodes|
      ensures items[j].digest == nodes[j].digest
    {
      assert SaysAt(nodes, items, j);
    }
    if d in index {
      k :| 0 <= k < |nodes| && nodes[k] == index[d];
    }
  }

  lemma FiledWithout(index: map<Digest, LruNode>, nodes: seq<LruNode>, k: nat)
    requires Filed(index, nodes) && NoDup(nodes) && k < |nodes|
    ensures Filed(index - {nodes[k].digest}, Without(nodes, k))
  {
    var r := Without(nodes, k);
    WithoutNoDup(nodes, k);
    forall m | 0 <= m < |r|
      ensures r[m].digest in index && index[r[m].digest] == r[m] && r[m].digest != nodes[k].digest
    {
      WithoutAt(nodes, k, m);
    }
  }

  lemma FiledPush(index: map<Digest, LruNode>, nodes: seq<LruNode>, node: LruNode)
    requires Filed(index, nodes) && node.digest !in index
    ensures Filed(index[node.digest := node], nodes + [node])
  {
    var r := nodes + [node];
    assert forall m | 0 <= m < |nodes| :: r[m] == nodes[m];
    assert r[|nodes|] == node;
  }

  /** Moving a node to the end files the same nodes. */
  lemma FiledRotate(index: map<Digest, LruNode>, nodes: seq<LruNode>, k: nat)
    requires Filed(index, nodes) && NoDup(nodes) && k < |nodes|
    ensures Filed(index, Without(nodes, k) + [nodes[k]])
  {
    FiledWithout(index, nodes, k);
    FiledPush(index - {nodes[k].digest}, Without(nodes, k), nodes[k]);
    assert (index - {nodes[k].digest})[nodes[k].digest := nodes[k]] == index;
  }

  /** The map is as large as the list is long. */
  lemma {:induction false} FiledSize(index: map<Digest, LruNode>, nodes: seq<LruNode>)
    requires Filed(index, nodes) && NoDup(nodes)
    ensures |index| == |nodes|
    decreases |nodes|
  {
    if nodes == [] {
      assert index.Keys == {};
    } else {
      var k := |nodes| - 1;
      FiledWithout(index, nodes, k);
      WithoutNoDup(nodes, k);
      FiledSize(index - {nodes[k].digest}, Without(nodes, k));
      assert index.Keys == (index - {nodes[k].digest}).Keys + {nodes[k].digest};
    }
  }

  class LruShard {
    var index: map<Digest, LruNode>
    var head: LruNode?
    var tail: LruNode?
    ghost var nodes: seq<LruNode>
    ghost var items: seq<Item>
    ghost var repr: set<LruNode>

    ghost predicate Valid()
      reads this, repr
    {
      Within(nodes, repr) && Linked(nodes, head, tail) && Filed(index, nodes) && Described(nodes, items)
    }

    constructor ()
      ensures Valid() && repr == {} && items == []
    {
      index := map[];
      head := null;
      tail := null;
      nodes := [];
      items := [];
      repr := {};
    }

    /** Take `node`, the `k`-th of the list, out of the links. */
    method Unlink(node: LruNode, ghost k: nat)
      requires k < |nodes| && nodes[k] == node && Linked(nodes, head, tail)
      modifies this`head, this`tail, nodes`prev, nodes`next
      ensures Linked(Without(nodes, k), head, tail)
      ensures node.prev == null && node.next == null
    {
      var prev := node.prev;
      var next := node.next;
      assert LinkAt(nodes, k);
      if prev == null {
        head := next;
      } else {
        prev.next := next;
      }
      if next == null {
        tail := prev;
      } else {
        next.prev := prev;
      }
      node.prev := null;
      node.next := null;
      ghost var r := Without(nodes, k);
      WithoutNoDup(nodes, k);
      forall m | 0 <= m < |r|
        ensures LinkAt(r, m)
      {
        ghost var j := if m < k then m else m + 1;
        WithoutAt(nodes, k, m);
        assert old(LinkAt(nodes, j));
        BeforeWithout(nodes, k, m);
        AfterWithout(nodes, k, m);
      }
      assert First(r) == if k == 0 then After(nodes, k) else First(nodes);
      assert Last(r) == if k == |nodes| - 1 then Before(nodes, k) else Last(nodes);
    }

    /** Append `node`, which is in no list. */
    method PushTail(node: LruNode, ghost path: seq<LruNode>)
      requires Linked(path, head, tail) && node !in path
      modifies this`head, this`tail, node`prev, node`next, path`next
      ensures Linked(path + [node], head, tail)
    {
      node.prev := tail;
      node.next := null;
      if tail == null {
        head := node;
      } else {
        tail.next := node;
      }
      tail := node;
      ghost var r := path + [node];
      forall m | 0 <= m < |r|
        ensures LinkAt(r, m)
      {
        if m < |path| {
          assert old(LinkAt(path, m));
        }
      }
    }

    method Len() returns (n: nat)
      requires Valid()
      ensures n == |items|
    {
      FiledSize(index, nodes);
      n := |index|;
    }

    method HeadTimestamp() returns (r: Option<nat>)
      requires Valid()
      ensures r == if items == [] then None else Some(items[0].timestamp)
    {
      if head == null {
        return None;
      }
      assert SaysAt(nodes, items, 0);
      return Some(head.timestamp);
    }

    /** Record the new list, already linked, with its map. */
    method Install(index': map<Digest, LruNode>, ghost nodes': seq<LruNode>, ghost items': seq<Item>,
                   ghost repr': set<LruNode>)
      requires Within(nodes', repr') && Linked(nodes', head, tail) && Filed(index', nodes') && Described(nodes', items')
      modifies this`index, this`nodes, this`items, this`repr
      ensures Valid() && index == index' && nodes == nodes' && items == items' && repr == repr'
    {
      index := index';
      nodes := nodes';
      items := items';
      repr := repr';
    }

    method Restamp(node: LruNode, timestamp: nat)
      requires Linked(nodes, head, tail)
      modifies node`timestamp
      ensures node.timestamp == timestamp && Linked(nodes, head, tail)
    {
      node.timestamp := timestamp;
      forall j | 0 <= j < |nodes|
        ensures LinkAt(nodes, j)
      {
        assert old(LinkAt(nodes, j));
      }
    }

    method MoveToTail(node: LruNode, ghost k: nat)
      requires k < |nodes| && nodes[k] == node && Linked(nodes, head, tail)
      modifies this`head, this`tail, nodes`prev, nodes`next
      ensures Linked(Without(nodes, k) + [node], head, tail)
    {
      WithoutNoDup(nodes, k);
      Unlink(node, k);
      PushTail(node, Without(nodes, k));
    }

    /** Restamp a listed node and move it to the tail. */
    method Refresh(node: LruNode, timestamp: nat)
      requires Valid() && node.digest in index && index[node.digest] == node
      modifies this, repr
      ensures Valid() && repr == old(repr)
      ensures items == RemoveDigest(old(items), node.digest) + [Item(node.digest, timestamp)]
    {
      ghost var k := FiledFind(index, nodes, items, node.digest);
      ghost var rest, restItems := Without(nodes, k), Without(items, k);
      RemoveDigestAt(items, k);
      FiledRotate(index, nodes, k);
      WithinWithout(nodes, k, repr);
      Restamp(node, timestamp);
      MoveToTail(node, k);
      forall j | 0 <= j < |nodes| && j != k
        ensures SaysAt(nodes, items, j)
      {
        assert old(SaysAt(nodes, items, j)) && nodes[j] != node;
      }
      DescribedWithout(nodes, items, k);
      DescribedPush(rest, restItems, node);
      Install(index, rest + [node], restItems + [Item(node.digest, timestamp)], repr);
    }

    /** Append a new node for a digest that is not listed. */
    method Add(digest: Digest, timestamp: nat)
      requires Valid() && digest !in index
      modifies this, repr
      ensures Valid() && fresh(repr - old(repr))
      ensures items == old(items) + [Item(digest, timestamp)]
    {
      var node := new LruNode(digest, timestamp);
      PushTail(node, nodes);
      forall j | 0 <= j < |nodes|
        ensures SaysAt(nodes, items, j)
      {
        assert old(SaysAt(nodes, items, j));
      }
      DescribedPush(nodes, items, node);
      FiledPush(index, nodes, node);
      Install(index[digest := node], nodes + [node], items + [Item(digest, timestamp)], repr + {node});
    }

    method Insert(digest: Digest, timestamp: nat)
      requires Valid()
      modifies this, repr
      ensures Valid() && fresh(repr - old(repr))
      ensures items == RemoveDigest(old(items), digest) + [Item(digest, timestamp)]
    {
      ghost var k := FiledFind(index, nodes, items, digest);
      if digest in index {
        Refresh(index[digest], timestamp);
      } else {
        RemoveDigestAbsent(items, digest);
        Add(digest, timestamp);
      }
    }

    method Touch(digest: Digest, timestamp: nat) returns (found: bool)
      requires Valid()
      modifies this, repr
      ensures Valid() && repr == old(repr) && found == HasDigest(old(items), digest)
      ensures items == if found then RemoveDigest(old(items), digest) + [Item(digest, timestamp)] else old(items)
    {
      ghost var k := FiledFind(index, nodes, items, digest);
      if digest in index {
        Refresh(index[digest], timestamp);
        return true;
      }
      return false;
    }

    /** Unlink a listed node and forget its digest. */
    method Take(node: LruNode, ghost k: nat)
      requires Valid() && k < |nodes| && nodes[k] == node
      modifies this, repr
      ensures Valid() && repr == old(repr) && items == Without(old(items), k)
    {
      Unlink(node, k);
      forall j | 0 <= j < |nodes| && j != k
        ensures SaysAt(nodes, items, j)
      {
        assert old(SaysAt(nodes, items, j));
      }
      DescribedWithout(nodes, items, k);
      FiledWithout(index, nodes, k);
      WithinWithout(nodes, k, repr);
      Install(index - {node.digest}, Without(nodes, k), Without(items, k), repr);
    }

    method Remove(digest: Digest) returns (found: bool)
      requires Valid()
      modifies this, repr
      ensures Valid() && repr == old(repr) && found == HasDigest(old(items), digest)
      ensures items == RemoveDigest(old(items), digest)
    {
      ghost var k := FiledFind(index, nodes, items, digest);
      if digest in index {
        RemoveDigestAt(items, k);
        Take(index[digest], k);
        return true;
      }
      RemoveDigestAbsent(items, digest);
      return false;
    }

    method PopHead() returns (r: Option<Digest>)
      requires Valid()
      modifies this, repr
      ensures Valid() && repr == old(repr)
      ensures old(items) == [] ==> r == None && items == []
      ensures old(items) != [] ==> r == Some(old(items)[0].digest) && items == old(items)[1..]
    {
      if head == null {
        return None;
      }
      var digest := head.digest;
      assert SaysAt(nodes, items, 0);
      Take(head, 0);
      return Some(digest);
    }
  }
}
