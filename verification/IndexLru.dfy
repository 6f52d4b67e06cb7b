/**
 * The index-linked eviction list (crates/rv-storage/src/lru.rs): a doubly linked list whose
 * links are positions in one vector, with a free list of vacated positions. The list refines
 * a sequence of positions, most recently used first.
 */
module IndexLru {
  import opened Types
  import opened Recency

  datatype LruEntry = LruEntry(key: nat, prev: Option<nat>, next: Option<nat>, active: bool)

  /** The `k`-th position of the path points at its two neighbours. */
  ghost predicate LinkAt(entries: seq<LruEntry>, order: seq<nat>, k: nat)
    requires k < |order|
  {
    order[k] < |entries| && entries[order[k]].prev == Before(order, k) && entries[order[k]].next == After(order, k)
  }

  /** The links form one path through exactly the positions of `order`. */
  ghost predicate Linked(entries: seq<LruEntry>, head: Option<nat>, tail: Option<nat>, order: seq<nat>) {
    && NoDup(order) && head == First(order) && tail == Last(order)
    && (forall k | 0 <= k < |order| :: order[k] < |entries|)
    && (forall k | 0 <= k < |order| :: LinkAt(entries, order, k))
  }

  /** Active positions are those on the path; the free list holds the others, each once. */
  ghost predicate Partition(entries: seq<LruEntry>, order: seq<nat>, free: seq<nat>) {
    && NoDup(free)
    && (forall i :: i in order <==> 0 <= i < |entries| && entries[i].active)
    && (forall i :: i in free <==> 0 <= i < |entries| && !entries[i].active)
    && |entries| == |order| + |free|
  }

  /** Keys along the path. */
  ghost function KeysOf(entries: seq<LruEntry>, order: seq<nat>): (r: seq<nat>)
    requires forall k | 0 <= k < |order| :: order[k] < |entries|
    ensures |r| == |order| && forall k | 0 <= k < |r| :: r[k] == entries[order[k]].key
  {
    seq(|order|, k requires 0 <= k < |order| => entries[order[k]].key)
  }

  /** Nothing but links differs. */
  ghost predicate SamePayload(a: seq<LruEntry>, b: seq<LruEntry>) {
    |a| == |b| && forall i | 0 <= i < |a| :: a[i].key == b[i].key && a[i].active == b[i].active
  }

  /** `b` is `a` with position `idx` rewritten or appended. */
  ghost predicate Rewritten(a: seq<LruEntry>, b: seq<LruEntry>, idx: nat, e: LruEntry) {
    && |a| <= |b| <= |a| + 1 && idx < |b| && (|a| < |b| ==> idx == |a|) && b[idx] == e
    && forall i | 0 <= i < |a| && i != idx :: b[i] == a[i]
  }

  lemma PartitionSame(a: seq<LruEntry>, b: seq<LruEntry>, order: seq<nat>, free: seq<nat>)
    requires Partition(a, order, free) && SamePayload(a, b)
    ensures Partition(b, order, free)
  {
    forall i
      ensures i in order <==> 0 <= i < |b| && b[i].active
      ensures i in free <==> 0 <= i < |b| && !b[i].active
    {
    }
  }

  // ---------------------------------------------------------------- changing links

  function SetNext(entries: seq<LruEntry>, at: Option<nat>, to: Option<nat>): (r: seq<LruEntry>)
    ensures |r| == |entries|
  {
    if at.Some? && at.value < |entries| then entries[at.value := entries[at.value].(next := to)] else entries
  }

  function SetPrev(entries: seq<LruEntry>, at: Option<nat>, to: Option<nat>): (r: seq<LruEntry>)
    ensures |r| == |entries|
  {
    if at.Some? && at.value < |entries| then entries[at.value := entries[at.value].(prev := to)] else entries
  }

  /** The vector after `unlink(idx)`. */
  function Unlinked(entries: seq<LruEntry>, idx: nat): (r: seq<LruEntry>)
    requires idx < |entries|
    ensures |r| == |entries|
  {
    var prev, next := entries[idx].prev, entries[idx].next;
    SetPrev(SetNext(entries, prev, next), next, prev)[idx := entries[idx].(prev := None, next := None)]
  }

  /** Unlinking touches only links, and besides `idx` only those of its two neighbours. */
  lemma UnlinkedAt(entries: seq<LruEntry>, idx: nat, i: nat)
    requires idx < |entries| && i < |entries| && i != idx
    ensures Unlinked(entries, idx)[i] == entries[i].(
              next := if entries[idx].prev == Some(i) then entries[idx].next else entries[i].next,
              prev := if entries[idx].next == Some(i) then entries[idx].prev else entries[i].prev)
  {
  }

  lemma UnlinkNeighbours(entries: seq<LruEntry>, head: Option<nat>, tail: Option<nat>, order: seq<nat>, k: nat, j: nat)
    requires k < |order| && j < |order| && j != k && Linked(entries, head, tail, order)
    ensures LinkAt(entries, order, k)
    ensures entries[order[k]].prev == Some(order[j]) <==> j == k - 1
    ensures entries[order[k]].next == Some(order[j]) <==> j == k + 1
  {
    assert LinkAt(entries, order, k);
  }

  lemma UnlinkLinkedAt(entries: seq<LruEntry>, head: Option<nat>, tail: Option<nat>, order: seq<nat>, k: nat, m: nat)
    requires k < |order| && m < |order| - 1 && Linked(entries, head, tail, order)
    ensures LinkAt(entries, order, k) && LinkAt(Unlinked(entries, order[k]), Without(order, k), m)
  {
    assert LinkAt(entries, order, k);
    var j := if m < k then m else m + 1;
    WithoutAt(order, k, m);
    assert LinkAt(entries, order, j);
    UnlinkedAt(entries, order[k], order[j]);
    UnlinkNeighbours(entries, head, tail, order, k, j);
    BeforeWithout(order, k, m);
    AfterWithout(order, k, m);
  }

  /** The two neighbours of an unlinked position become each other's neighbours. */
  lemma UnlinkLinked(entries: seq<LruEntry>, head: Option<nat>, tail: Option<nat>, order: seq<nat>, k: nat)
    requires k < |order| && Linked(entries, head, tail, order)
    ensures LinkAt(entries, order, k)
    ensures Linked(Unlinked(entries, order[k]),
                   if k == 0 then After(order, k) else head,
                   if k == |order| - 1 then Before(order, k) else tail, Without(order, k))
  {
    WithoutNoDup(order, k);
    assert LinkAt(entries, order, k);
    forall m | 0 <= m < |order| - 1
      ensures LinkAt(Unlinked(entries, order[k]), Without(order, k), m)
    {
      UnlinkLinkedAt(entries, head, tail, order, k, m);
    }
    assert First(Without(order, k)) == if k == 0 then After(order, k) else First(order);
    assert Last(Without(order, k)) == if k == |order| - 1 then Before(order, k) else Last(order);
  }

  /** A position written before the old head becomes the new head. */
  lemma PushLinked(entries: seq<LruEntry>, head: Option<nat>, tail: Option<nat>, order: seq<nat>, es: seq<LruEntry>,
                   idx: nat)
    requires Linked(entries, head, tail, order) && idx !in order
    requires idx < |es| && Rewritten(entries, es, idx, es[idx]) && es[idx].prev == None && es[idx].next == head
    ensures Linked(SetPrev(es, head, Some(idx)), Some(idx), if tail.None? then Some(idx) else tail, [idx] + order)
  {
    var es', r := SetPrev(es, head, Some(idx)), [idx] + order;
    forall m | 0 <= m < |r|
      ensures LinkAt(es', r, m)
    {
      if m > 0 {
        assert LinkAt(entries, order, m - 1);
        assert r[m] == order[m - 1];
      }
    }
  }

  /** Marking a position off the path leaves the path alone. */
  lemma DeactivateLinked(entries: seq<LruEntry>, head: Option<nat>, tail: Option<nat>, order: seq<nat>, idx: nat)
    requires Linked(entries, head, tail, order) && idx < |entries| && idx !in order
    ensures Linked(entries[idx := entries[idx].(active := false)], head, tail, order)
  {
    var es := entries[idx := entries[idx].(active := false)];
    forall k | 0 <= k < |order|
      ensures LinkAt(es, order, k)
    {
      assert LinkAt(entries, order, k);
    }
  }

  lemma InsertPartition(entries: seq<LruEntry>, free: seq<nat>, order: seq<nat>, idx: nat, es: seq<LruEntry>)
    requires Partition(entries, order, free)
    requires if free == [] then idx == |entries| && |es| == |entries| + 1
             else idx == free[|free| - 1] && |es| == |entries|
    requires idx < |es| && es[idx].active && Rewritten(entries, es, idx, es[idx])
    ensures idx !in order
    ensures Partition(es, [idx] + order, if free == [] then [] else free[..|free| - 1])
  {
    var free', order' := if free == [] then [] else free[..|free| - 1], [idx] + order;
    assert forall i :: i in order' <==> i == idx || i in order;
    if free == [] {
      assert forall i | 0 <= i < |entries| :: entries[i].active by {
        forall i | 0 <= i < |entries| ensures entries[i].active { assert i !in free; }
      }
    } else {
      assert free == free' + [idx];
      assert idx in free;
      forall i
        ensures i in free' <==> i in free && i != idx
      {
        if i in free' {
          var j :| 0 <= j < |free'| && free'[j] == i;
          assert free[j] != free[|free| - 1];
        }
      }
    }
  }

  lemma RemovePartition(entries: seq<LruEntry>, free: seq<nat>, order: seq<nat>, k: nat, es: seq<LruEntry>)
    requires k < |order| && NoDup(order) && Partition(entries, order, free) && |es| == |entries|
    requires order[k] < |entries|
    requires forall i | 0 <= i < |es| :: es[i].active == (i != order[k] && entries[i].active)
    ensures Partition(es, Without(order, k), free + [order[k]])
  {
    WithoutNoDup(order, k);
    assert entries[order[k]].active;
    assert order[k] !in free;
  }

  lemma KeysPush(es0: seq<LruEntry>, es: seq<LruEntry>, order: seq<nat>, idx: nat)
    requires idx < |es| && (forall k | 0 <= k < |order| :: order[k] < |es0|) && |es0| <= |es|
    requires forall k | 0 <= k < |order| :: es[order[k]].key == es0[order[k]].key
    ensures KeysOf(es, [idx] + order) == [es[idx].key] + KeysOf(es0, order)
  {
  }

  lemma KeysWithout(es0: seq<LruEntry>, es: seq<LruEntry>, order: seq<nat>, k: nat)
    requires k < |order| && (forall j | 0 <= j < |order| :: order[j] < |es0|) && |es0| == |es|
    requires forall i | 0 <= i < |es| :: es[i].key == es0[i].key
    ensures KeysOf(es, Without(order, k)) == Without(KeysOf(es0, order), k)
  {
  }

  /** Rotating the `k`-th position to the front keeps the same positions. */
  lemma FrontSame(order: seq<nat>, k: nat)
    requires k < |order| && NoDup(order)
    ensures forall x :: x in [order[k]] + Without(order, k) <==> x in order
  {
    WithoutNoDup(order, k);
  }

  lemma FrontPartition(a: seq<LruEntry>, b: seq<LruEntry>, order: seq<nat>, k: nat, free: seq<nat>)
    requires k < |order| && NoDup(order) && Partition(a, order, free) && SamePayload(a, b)
    ensures Partition(b, [order[k]] + Without(order, k), free)
  {
    FrontSame(order, k);
    PartitionSame(a, b, order, free);
  }

  class Lru {
    var entries: seq<LruEntry>
    var head: Option<nat>
    var tail: Option<nat>
    var len: nat
    var freeList: seq<nat>
    ghost var order: seq<nat>

    ghost predicate Valid()
      reads this
    {
      Linked(entries, head, tail, order) && Partition(entries, order, freeList) && len == |order|
    }

    /** The refined list: keys, most recently used first. */
    ghost function Keys(): (r: seq<nat>)
      requires Valid()
      reads this
    {
      KeysOf(entries, order)
    }

    constructor ()
      ensures Valid() && order == []
    {
      entries := [];
      head := None;
      tail := None;
      len := 0;
      freeList := [];
      order := [];
    }

    /** Take position `idx`, the `k`-th of the path, out of the links. */
    method Unlink(idx: nat, ghost k: nat)
      requires k < |order| && order[k] == idx && Linked(entries, head, tail, order)
      modifies this`entries, this`head, this`tail
      ensures Linked(entries, head, tail, Without(order, k))
      ensures |entries| == |old(entries)| && entries[idx] == old(entries)[idx].(prev := None, next := None)
      ensures SamePayload(old(entries), entries)
    {
      UnlinkLinked(entries, head, tail, order, k);
      forall i | 0 <= i < |entries| && i != idx
        ensures Unlinked(entries, idx)[i].key == entries[i].key && Unlinked(entries, idx)[i].active == entries[i].active
      {
        UnlinkedAt(entries, idx, i);
      }
      ghost var es := entries;
      var prev := entries[idx].prev;
      var next := entries[idx].next;
      assert LinkAt(es, order, k);
      if prev.Some? {
        entries := entries[prev.value := entries[prev.value].(next := next)];
      } else {
        head := next;
      }
      assert entries == SetNext(es, prev, next);
      if next.Some? {
        entries := entries[next.value := entries[next.value].(prev := prev)];
      } else {
        tail := prev;
      }
      assert entries == SetPrev(SetNext(es, prev, next), next, prev);
      assert entries[idx] == es[idx];
      entries := entries[idx := entries[idx].(prev := None, next := None)];
      assert entries == Unlinked(es, idx);
    }

    /** Link position `idx`, already written with the old head as its successor, before the old head. */
    method LinkHead(idx: nat, ghost es0: seq<LruEntry>, ghost path: seq<nat>)
      requires Linked(es0, head, tail, path) && idx !in path
      requires idx < |entries| && Rewritten(es0, entries, idx, entries[idx])
      requires entries[idx].prev == None && entries[idx].next == head
      modifies this`entries, this`head, this`tail
      ensures Linked(entries, head, tail, [idx] + path)
      ensures SamePayload(old(entries), entries)
    {
      PushLinked(es0, head, tail, path, entries, idx);
      if head.Some? {
        entries := entries[head.value := entries[head.value].(prev := Some(idx))];
      }
      head := Some(idx);
      if tail.None? {
        tail := Some(idx);
      }
    }

    /** Take a vacated position, else a new one, for `key`. */
    method Place(key: nat) returns (idx: nat)
      requires Valid()
      modifies this`entries, this`freeList
      ensures idx == if old(freeList) == [] then |old(entries)| else old(freeList)[|old(freeList)| - 1]
      ensures freeList == if old(freeList) == [] then [] else old(freeList)[..|old(freeList)| - 1]
      ensures |entries| == if old(freeList) == [] then |old(entries)| + 1 else |old(entries)|
      ensures Rewritten(old(entries), entries, idx, LruEntry(key, None, head, true))
    {
      if freeList != [] {
        idx := freeList[|freeList| - 1];
        assert idx in freeList;
        freeList := freeList[..|freeList| - 1];
        entries := entries[idx := LruEntry(key, None, head, true)];
      } else {
        idx := |entries|;
        entries := entries + [LruEntry(key, None, head, true)];
      }
    }

    /** Insert at the head, reusing the most recently vacated position if there is one. */
    method Insert(key: nat) returns (idx: nat)
      requires Valid()
      modifies this
      ensures Valid() && order == [idx] + old(order) && Keys() == [key] + old(Keys())
      ensures idx == if old(freeList) == [] then |old(entries)| else old(freeList)[|old(freeList)| - 1]
      ensures |entries| == if old(freeList) == [] then |old(entries)| + 1 else |old(entries)|
    {
      ghost var es0, f0 := entries, freeList;
      idx := Place(key);
      InsertPartition(es0, f0, order, idx, entries);
      ghost var es := entries;
      LinkHead(idx, es0, order);
      PartitionSame(es, entries, [idx] + order, freeList);
      KeysPush(es0, entries, order, idx);
      len := len + 1;
      order := [idx] + order;
    }

    /** Move position `idx` to the head; nothing happens for a position not in use. */
    method Touch(idx: nat)
      requires Valid()
      modifies this
      ensures Valid() && freeList == old(freeList) && SamePayload(old(entries), entries)
      ensures order == if idx in old(order) then [idx] + Drop(old(order), idx) else old(order)
    {
      if idx >= |entries| || !entries[idx].active {
        assert idx !in order;
        return;
      }
      ghost var k :| 0 <= k < |order| && order[k] == idx;
      DropIsWithout(order, k);
      if head == Some(idx) {
        assert order == [idx] + Without(order, 0);
        return;
      }
      MoveToHead(idx, k);
      FrontSame(order, k);
      FrontPartition(old(entries), entries, order, k, freeList);
      order := [idx] + Without(order, k);
    }

    /** Unlink position `idx` and link it in again as the head. */
    method MoveToHead(idx: nat, ghost k: nat)
      requires k < |order| && order[k] == idx && Linked(entries, head, tail, order)
      modifies this`entries, this`head, this`tail
      ensures Linked(entries, head, tail, [idx] + Without(order, k)) && SamePayload(old(entries), entries)
    {
      Unlink(idx, k);
      WithoutNoDup(order, k);
      ghost var es0 := entries;
      entries := entries[idx := entries[idx].(prev := None, next := head)];
      LinkHead(idx, es0, Without(order, k));
    }

    /** Unlink position `idx` and mark it as not in use. */
    method Retire(idx: nat, ghost k: nat)
      requires k < |order| && order[k] == idx && Linked(entries, head, tail, order)
      modifies this`entries, this`head, this`tail
      ensures Linked(entries, head, tail, Without(order, k)) && |entries| == |old(entries)|
      ensures forall i | 0 <= i < |entries| ::
                entries[i].key == old(entries)[i].key && entries[i].active == (i != idx && old(entries)[i].active)
    {
      Unlink(idx, k);
      WithoutNoDup(order, k);
      DeactivateLinked(entries, head, tail, Without(order, k), idx);
      entries := entries[idx := entries[idx].(active := false)];
    }

    /** Account for the unlinked position `idx`. */
    method Vacate(idx: nat, ghost k: nat)
      requires k < |order| && len == |order|
      requires Linked(entries, head, tail, Without(order, k)) && Partition(entries, Without(order, k), freeList + [idx])
      modifies this`len, this`freeList, this`order
      ensures Valid() && order == Without(old(order), k) && freeList == old(freeList) + [idx]
    {
      len := len - 1;
      freeList := freeList + [idx];
      order := Without(order, k);
    }

    /** Remove position `idx` and return its key; `None` for a position not in use. */
    method Remove(idx: nat) returns (r: Option<nat>)
      requires Valid()
      modifies this
      ensures Valid() && |entries| == |old(entries)|
      ensures order == Drop(old(order), idx)
      ensures freeList == if idx in old(order) then old(freeList) + [idx] else old(freeList)
      ensures r == if idx in old(order) && idx < |old(entries)| then Some(old(entries)[idx].key) else None
      ensures forall i | 0 <= i < |entries| :: entries[i].key == old(entries)[i].key
    {
      if idx >= |entries| || !entries[idx].active {
        DropAbsent(order, idx);
        return None;
      }
      ghost var k :| 0 <= k < |order| && order[k] == idx;
      DropIsWithout(order, k);
      Retire(idx, k);
      RemovePartition(old(entries), freeList, order, k, entries);
      Vacate(idx, k);
      return Some(entries[idx].key);
    }

    /** Evict the least recently used key, the last of the list. */
    method EvictOldest() returns (r: Option<nat>)
      requires Valid()
      modifies this
      ensures Valid()
      ensures old(Keys()) == [] ==> r == None && Keys() == []
      ensures old(Keys()) != [] ==>
                && r == Some(old(Keys())[|old(Keys())| - 1])
                && Keys() == old(Keys())[..|old(Keys())| - 1]
    {
      if tail.None? {
        return None;
      }
      ghost var k, es0, order0 := |order| - 1, entries, order;
      DropIsWithout(order, k);
      r := Remove(tail.value);
      KeysWithout(es0, entries, order0, k);
    }
  }
}
