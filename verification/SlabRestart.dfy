/**
 * What a restart finds after a compaction. `compact` (crates/rv-storage/src/persistent.rs)
 * records each moved slab at its old table position and renumbers the slabs afterwards, so
 * the table still describes the vector before renumbering, dropped slabs included.
 */
module SlabRestart {
  import opened Types
  import opened Slabs
  import opened Compaction
  import opened SlabTable

  // ---------------------------------------------------------------- the block of moved slabs

  ghost predicate Within(idx: seq<nat>, n: nat) {
    forall k | 0 <= k < |idx| :: idx[k] < n
  }

  /** The sizes of the slabs at the listed positions together. */
  ghost function SumSizes(allocs: seq<Slab>, idx: seq<nat>): nat
    requires Within(idx, |allocs|)
  {
    if idx == [] then 0 else SumSizes(allocs, idx[..|idx| - 1]) + allocs[idx[|idx| - 1]].size
  }

  lemma {:induction false} SumWithout(allocs: seq<Slab>, idx: seq<nat>, k: nat)
    requires k < |idx| && Within(idx, |allocs|)
    ensures SumSizes(allocs, idx) == SumSizes(allocs, idx[..k] + idx[k + 1..]) + allocs[idx[k]].size
  {
    var n := |idx| - 1;
    if k == n {
      assert idx[..k] + idx[k + 1..] == idx[..n];
    } else {
      SumWithout(allocs, idx[..n], k);
      var r := idx[..k] + idx[k + 1..];
      assert r[..|r| - 1] == idx[..n][..k] + idx[..n][k + 1..];
      assert r[|r| - 1] == idx[n];
    }
  }

  /** The sum does not depend on the order. */
  lemma {:induction false} SumPermuted(allocs: seq<Slab>, a: seq<nat>, b: seq<nat>)
    requires Within(a, |allocs|) && Within(b, |allocs|)
    requires multiset(a) == multiset(b)
    ensures SumSizes(allocs, a) == SumSizes(allocs, b)
    decreases |a|
  {
    if a == [] {
      assert |b| == |multiset(b)| == 0;
    } else {
      var n := |a| - 1;
      var k := RemoveSame(a, b);
      SumPermuted(allocs, a[..n], b[..k] + b[k + 1..]);
      SumWithout(allocs, b, k);
    }
  }

  lemma RemoveSame(a: seq<nat>, b: seq<nat>) returns (k: nat)
    requires a != [] && multiset(a) == multiset(b)
    ensures k < |b| && b[k] == a[|a| - 1]
    ensures multiset(a[..|a| - 1]) == multiset(b[..k] + b[k + 1..])
  {
    var n := |a| - 1;
    assert a[n] in multiset(b);
    k :| 0 <= k < |b| && b[k] == a[n];
    assert b == b[..k] + [b[k]] + b[k + 1..];
    assert a == a[..n] + [a[n]];
    assert multiset(a[..n]) == multiset(a) - multiset{a[n]};
  }

  lemma {:induction false} SumLive(allocs: seq<Slab>)
    ensures Within(LiveIdx(allocs), |allocs|) && SumSizes(allocs, LiveIdx(allocs)) == LiveSize(allocs)
  {
    if allocs != [] {
      var n := |allocs| - 1;
      var before := LiveIdx(allocs[..n]);
      SumLive(allocs[..n]);
      SumPrefix(allocs, before, n);
      assert (before + [n])[..|before|] == before;
    }
  }

  lemma {:induction false} SumPrefix(allocs: seq<Slab>, idx: seq<nat>, n: nat)
    requires n <= |allocs| && Within(idx, n)
    ensures SumSizes(allocs, idx) == SumSizes(allocs[..n], idx)
  {
    if idx != [] {
      SumPrefix(allocs, idx[..|idx| - 1], n);
    }
  }

  lemma {:induction false} SumSame(a: seq<Slab>, b: seq<Slab>, idx: seq<nat>)
    requires |a| == |b| && forall i | 0 <= i < |a| :: a[i].size == b[i].size
    requires Within(idx, |a|)
    ensures SumSizes(a, idx) == SumSizes(b, idx)
  {
    if idx != [] {
      SumSame(a, b, idx[..|idx| - 1]);
    }
  }

  /** Chained slabs cover one block without a gap. */
  lemma {:induction false} ChainEnd(allocs: seq<Slab>, order: seq<nat>, next: nat, k: nat)
    requires Chained(allocs, order, next) && k < |order|
    ensures allocs[order[k]].End() == next + SumSizes(allocs, order[..k + 1])
  {
    assert order[..k + 1][..k] == order[..k];
    if k > 0 {
      ChainEnd(allocs, order, next, k - 1);
    } else {
      assert SumSizes(allocs, order[..0]) == 0;
    }
  }

  lemma {:induction false} SumGrows(allocs: seq<Slab>, idx: seq<nat>, k: nat)
    requires k <= |idx| && Within(idx, |allocs|)
    ensures SumSizes(allocs, idx[..k]) <= SumSizes(allocs, idx)
  {
    if k == |idx| {
      assert idx[..k] == idx;
    } else {
      var n := |idx| - 1;
      SumGrows(allocs, idx[..n], k);
      assert idx[..n][..k] == idx[..k];
    }
  }

  /** A place inside the block is inside one of the slabs. */
  lemma {:induction false} ChainCovers(allocs: seq<Slab>, order: seq<nat>, next: nat, at: nat, n: nat) returns (k: nat)
    requires Chained(allocs, order, next) && n <= |order|
    requires next <= at < next + SumSizes(allocs, order[..n])
    ensures k < n && allocs[order[k]].offset <= at < allocs[order[k]].End()
    decreases n
  {
    ChainEnd(allocs, order, next, n - 1);
    assert order[..n][..n - 1] == order[..n - 1];
    if next + SumSizes(allocs, order[..n - 1]) <= at {
      k := n - 1;
    } else {
      k := ChainCovers(allocs, order, next, at, n - 1);
    }
  }

  /** After the moves the live slabs cover exactly the first `used` bytes of the data region. */
  lemma PackedBlock(s: Store, total: nat)
    requires Inv(s, total) && s.mem != []
    ensures var r, order := Packed(s, total), Order(s.allocs);
            && Chained(r.allocs, order, DATA_REGION_OFFSET) && SumSizes(r.allocs, order) == s.used
            && forall i :: i in order <==> 0 <= i < |s.allocs| && s.allocs[i].inUse
  {
    var r, order := Packed(s, total), Order(s.allocs);
    PackedMoved(s, total);
    OrderLive(s.allocs);
    SumLive(s.allocs);
    assert multiset(order) == multiset(LiveIdx(s.allocs));
    assert forall k | 0 <= k < |order| :: order[k] in order;
    SumPermuted(s.allocs, order, LiveIdx(s.allocs));
    forall i | 0 <= i < |s.allocs|
      ensures r.allocs[i].size == s.allocs[i].size
    {
      PackedSlab(s, total, i);
    }
    SumSame(r.allocs, s.allocs, order);
  }

  // ---------------------------------------------------------------- free and moved slabs

  /** A slab is clear of a chain of slabs exactly when it begins behind the block they cover. */
  lemma ClearOfChain(allocs: seq<Slab>, order: seq<nat>, next: nat, s: Slab)
    requires Chained(allocs, order, next) && next <= s.offset && s.size > 0
    ensures (forall k | 0 <= k < |order| :: Apart(s, allocs[order[k]])) <==> next + SumSizes(allocs, order) <= s.offset
  {
    assert order[..|order|] == order;
    if next + SumSizes(allocs, order) <= s.offset {
      forall k | 0 <= k < |order|
        ensures Apart(s, allocs[order[k]])
      {
        ChainEnd(allocs, order, next, k);
        SumGrows(allocs, order, k + 1);
      }
    } else {
      var k := ChainCovers(allocs, order, next, s.offset, |order|);
      assert !Apart(s, allocs[order[k]]);
    }
  }

  /** Slab `t` is clear of every moved live slab. */
  ghost predicate ClearOfLive(s: Store, total: nat, t: Slab)
    requires Inv(s, total) && s.mem != []
  {
    forall j | 0 <= j < |s.allocs| && s.allocs[j].inUse :: Apart(t, Packed(s, total).allocs[j])
  }

  lemma ClearByOrder(s: Store, total: nat, t: Slab)
    requires Inv(s, total) && s.mem != []
    ensures var allocs, order := Packed(s, total).allocs, Order(s.allocs);
            && (forall k | 0 <= k < |order| :: order[k] < |allocs|)
            && (ClearOfLive(s, total, t) <==> forall k | 0 <= k < |order| :: Apart(t, allocs[order[k]]))
  {
    var allocs, order := Packed(s, total).allocs, Order(s.allocs);
    OrderLive(s.allocs);
    assert forall k | 0 <= k < |order| :: order[k] in order;
    if forall k | 0 <= k < |order| :: Apart(t, allocs[order[k]]) {
      forall j | 0 <= j < |s.allocs| && s.allocs[j].inUse
        ensures Apart(t, allocs[j])
      {
        var k :| 0 <= k < |order| && order[k] == j;
      }
    }
  }

  /** A free slab is clear of all moved ones exactly when it begins behind the block. */
  lemma ClearOfBlock(s: Store, total: nat, i: nat)
    requires Inv(s, total) && s.mem != [] && i < |s.allocs|
    ensures ClearOfLive(s, total, s.allocs[i]) <==> DATA_REGION_OFFSET + s.used <= s.allocs[i].offset
  {
    assert Placed(s.allocs[i], total);
    PackedBlock(s, total);
    ClearByOrder(s, total, s.allocs[i]);
    ClearOfChain(Packed(s, total).allocs, Order(s.allocs), DATA_REGION_OFFSET, s.allocs[i]);
  }

  // ---------------------------------------------------------------- a restart after a compaction

  /** What the table describes once a store in step has been compacted. */
  lemma CompactedBounded(s: Store, total: nat)
    requires Inv(s, total) && s.mem != [] && Fits(total)
    ensures Bounded(Packed(s, total).allocs)
  {
    forall i | 0 <= i < |s.allocs|
      ensures Packed(s, total).allocs[i].End() <= total
    {
      PackedPlace(s, total, i);
    }
  }

  /** A free slab stays where it is; a live one is placed. */
  lemma PackedPlace(s: Store, total: nat, i: nat)
    requires Inv(s, total) && s.mem != [] && i < |s.allocs|
    ensures var t := Packed(s, total).allocs[i];
            && t == s.allocs[i].(offset := t.offset) && Placed(t, total) && (!s.allocs[i].inUse ==> t == s.allocs[i])
  {
    PackedSlab(s, total, i);
    PackedMoved(s, total);
    OrderLive(s.allocs);
    assert Placed(s.allocs[i], total);
  }

  /**
   * A restart after a compaction finds every slab there was before, the dropped ones too,
   * with the live ones moved, exactly when none of them looks blank.
   */
  lemma CompactedRecovery(s: Store, total: nat)
    requires Inv(s, total) && s.mem != [] && Synced(s) && Fits(total)
    ensures var r := Open(Some(Compact(s, total).mem), total);
            && r.allocs == Recovered(Packed(s, total).allocs)
            && (r.allocs == Stripped(Packed(s, total).allocs) <==>
                forall i | 0 <= i < |s.allocs| :: !LooksBlank(s.allocs[i]))
  {
    var table := Packed(s, total).allocs;
    PackedSynced(s, total);
    CompactedBounded(s, total);
    RestartReads(Compact(s, total).mem, table, total);
    RecoveredAll(table);
    forall i | 0 <= i < |table|
      ensures LooksBlank(table[i]) <==> LooksBlank(s.allocs[i])
    {
      PackedSlab(s, total, i);
    }
  }

  /** No free slab below `n` is covered by a moved one below `n`. */
  ghost predicate Uncovered(s: Store, total: nat, n: nat)
    requires Inv(s, total) && s.mem != [] && n <= |s.allocs|
  {
    forall i, j | 0 <= i < n && 0 <= j < n && !s.allocs[i].inUse && s.allocs[j].inUse ::
      Apart(s.allocs[i], Packed(s, total).allocs[j])
  }

  lemma PackedPair(s: Store, total: nat, n: nat, i: nat, j: nat)
    requires Inv(s, total) && s.mem != [] && i < j < n <= |s.allocs| && Uncovered(s, total, n)
    ensures Apart(Packed(s, total).allocs[i], Packed(s, total).allocs[j])
  {
    PackedPlace(s, total, i);
    PackedPlace(s, total, j);
    if s.allocs[i].inUse && s.allocs[j].inUse {
      PackedApart(s, total, i, j);
    } else if !s.allocs[i].inUse && !s.allocs[j].inUse {
      assert Apart(s.allocs[i], s.allocs[j]);
    }
  }

  /** A recovered slab is where the moved one is. */
  lemma RecoveredPlace(s: Store, total: nat, i: nat)
    requires Inv(s, total) && s.mem != [] && i < |Recovered(Packed(s, total).allocs)|
    ensures var t, r := Packed(s, total).allocs[i], Recovered(Packed(s, total).allocs)[i];
            && Placed(r, total) && r.index == i && r.offset == t.offset && r.size == t.size
            && (!s.allocs[i].inUse ==> t == s.allocs[i])
  {
    PackedPlace(s, total, i);
  }

  lemma UncoveredLaidOut(s: Store, total: nat)
    requires Inv(s, total) && s.mem != [] && Uncovered(s, total, |Recovered(Packed(s, total).allocs)|)
    ensures Layout(Recovered(Packed(s, total).allocs), total)
  {
    var r := Recovered(Packed(s, total).allocs);
    forall i, j | 0 <= i < j < |r|
      ensures Apart(r[i], r[j])
    {
      PackedPair(s, total, |r|, i, j);
      RecoveredPlace(s, total, i);
      RecoveredPlace(s, total, j);
    }
    forall i | 0 <= i < |r|
      ensures Placed(r[i], total) && r[i].index == i
    {
      RecoveredPlace(s, total, i);
    }
  }

  lemma LaidOutUncovered(s: Store, total: nat, i: nat, j: nat)
    requires Inv(s, total) && s.mem != [] && Layout(Recovered(Packed(s, total).allocs), total)
    requires i < |Recovered(Packed(s, total).allocs)| && j < |Recovered(Packed(s, total).allocs)|
    requires !s.allocs[i].inUse && s.allocs[j].inUse
    ensures Apart(s.allocs[i], Packed(s, total).allocs[j])
  {
    var r := Recovered(Packed(s, total).allocs);
    assert if i < j then Apart(r[i], r[j]) else Apart(r[j], r[i]);
    RecoveredPlace(s, total, i);
    RecoveredPlace(s, total, j);
  }

  lemma PackedLayout(s: Store, total: nat)
    requires Inv(s, total) && s.mem != []
    ensures var r := Recovered(Packed(s, total).allocs); Layout(r, total) <==> Uncovered(s, total, |r|)
  {
    var r := Recovered(Packed(s, total).allocs);
    if Uncovered(s, total, |r|) {
      UncoveredLaidOut(s, total);
    }
    if Layout(r, total) {
      forall i, j | 0 <= i < |r| && 0 <= j < |r| && !s.allocs[i].inUse && s.allocs[j].inUse
        ensures Apart(s.allocs[i], Packed(s, total).allocs[j])
      {
        LaidOutUncovered(s, total, i, j);
      }
    }
  }

  /** Every free slab began behind the bytes that the live ones need. */
  ghost predicate FreeBehind(s: Store) {
    forall i | 0 <= i < |s.allocs| && !s.allocs[i].inUse :: DATA_REGION_OFFSET + s.used <= s.allocs[i].offset
  }

  lemma UncoveredBehind(s: Store, total: nat)
    requires Inv(s, total) && s.mem != []
    ensures Uncovered(s, total, |s.allocs|) <==> FreeBehind(s)
  {
    forall i | 0 <= i < |s.allocs| && !s.allocs[i].inUse
      ensures ClearOfLive(s, total, s.allocs[i]) <==> DATA_REGION_OFFSET + s.used <= s.allocs[i].offset
    {
      ClearOfBlock(s, total, i);
    }
    assert Uncovered(s, total, |s.allocs|) <==>
           forall i | 0 <= i < |s.allocs| && !s.allocs[i].inUse :: ClearOfLive(s, total, s.allocs[i]);
  }

  /**
   * The restarted store is sound exactly when no recovered free slab is covered by a
   * recovered live one; with no slab that looks blank, exactly when every free slab lay
   * behind the bytes that the live ones need.
   */
  lemma CompactedInv(s: Store, total: nat)
    requires Inv(s, total) && s.mem != [] && Synced(s) && Fits(total)
    ensures var r := Open(Some(Compact(s, total).mem), total);
            && |r.allocs| <= |s.allocs| && (Inv(r, total) <==> Uncovered(s, total, |r.allocs|))
            && ((forall i | 0 <= i < |s.allocs| :: !LooksBlank(s.allocs[i])) ==> (Inv(r, total) <==> FreeBehind(s)))
  {
    var table := Packed(s, total).allocs;
    PackedSynced(s, total);
    CompactedBounded(s, total);
    RestartReads(Compact(s, total).mem, table, total);
    CompactedRecovery(s, total);
    PackedLayout(s, total);
    UncoveredBehind(s, total);
  }
}
