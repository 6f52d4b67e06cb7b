/**
 * The cache's eviction tracker (`ShardedLru` in crates/rv-cache/src/lru.rs): 64 shards, each
 * an `LruShard`, and one clock that stamps every insertion and touch. It refines one global
 * recency list, oldest first. Each call is one atomic step.
 */
module ShardedLrus {
  import opened Types
  import opened Recency
  import opened LruShards

  const N_SHARDS: nat := 64
  const U64_MAX: nat := 0xFFFF_FFFF_FFFF_FFFF

  function ShardIndex(d: Digest): (i: nat)
    ensures i < N_SHARDS
  {
    d.bytes[0] % N_SHARDS
  }

  // ---------------------------------------------------------------- the global list

  /** The part of the global list that shard `i` holds. */
  function OfShard(r: seq<Item>, i: nat): (s: seq<Item>) {
    if r == [] then []
    else if ShardIndex(r[0].digest) == i then [r[0]] + OfShard(r[1..], i)
    else OfShard(r[1..], i)
  }

  lemma {:induction false} OfShardAppend(r: seq<Item>, x: Item, i: nat)
    ensures OfShard(r + [x], i) == if ShardIndex(x.digest) == i then OfShard(r, i) + [x] else OfShard(r, i)
  {
    if r == [] {
      assert r + [x] == [x];
      assert [x][1..] == [];
    } else {
      assert (r + [x])[1..] == r[1..] + [x];
      OfShardAppend(r[1..], x, i);
    }
  }

  lemma {:induction false} OfShardRemove(r: seq<Item>, d: Digest, i: nat)
    ensures OfShard(RemoveDigest(r, d), i) ==
              if ShardIndex(d) == i then RemoveDigest(OfShard(r, i), d) else OfShard(r, i)
  {
    if r != [] {
      OfShardRemove(r[1..], d, i);
      if r[0].digest != d {
        assert RemoveDigest(r, d)[1..] == RemoveDigest(r[1..], d);
      }
    }
  }

  /** Every item of a shard's part is an item of the list. */
  lemma {:induction false} OfShardMember(r: seq<Item>, i: nat, k: nat) returns (j: nat)
    requires k < |OfShard(r, i)|
    ensures j < |r| && r[j] == OfShard(r, i)[k] && ShardIndex(r[j].digest) == i
  {
    if ShardIndex(r[0].digest) == i {
      if k == 0 {
        j := 0;
      } else {
        j := OfShardMember(r[1..], i, k - 1);
        j := j + 1;
      }
    } else {
      j := OfShardMember(r[1..], i, k);
      j := j + 1;
    }
  }

  /** Every item of the list is in its shard's part. */
  lemma {:induction false} OfShardContains(r: seq<Item>, j: nat) returns (k: nat)
    requires j < |r|
    ensures var s := OfShard(r, ShardIndex(r[j].digest)); k < |s| && s[k] == r[j]
  {
    if j == 0 {
      k := 0;
    } else {
      k := OfShardContains(r[1..], j - 1);
      if ShardIndex(r[0].digest) == ShardIndex(r[j].digest) {
        k := k + 1;
      }
    }
  }

  lemma OfShardHas(r: seq<Item>, d: Digest)
    ensures HasDigest(OfShard(r, ShardIndex(d)), d) <==> HasDigest(r, d)
  {
    var s := OfShard(r, ShardIndex(d));
    if HasDigest(s, d) {
      var k :| 0 <= k < |s| && s[k].digest == d;
      var j := OfShardMember(r, ShardIndex(d), k);
    }
    if HasDigest(r, d) {
      var j :| 0 <= j < |r| && r[j].digest == d;
      var k := OfShardContains(r, j);
    }
  }

  /** Each digest once, timestamps strictly increasing, all in the past of `clock`. */
  ghost predicate Recent(r: seq<Item>, clock: nat) {
    Distinct(r) && Rising(r) && forall k | 0 <= k < |r| :: r[k].timestamp < clock
  }

  lemma RecentWithout(r: seq<Item>, k: nat, clock: nat)
    requires k < |r| && Recent(r, clock)
    ensures Recent(Without(r, k), clock) && !HasDigest(Without(r, k), r[k].digest)
  {
    var s := Without(r, k);
    forall m | 0 <= m < |s|
      ensures s[m] == r[if m < k then m else m + 1]
    {
      WithoutAt(r, k, m);
    }
    assert forall m | 0 <= m < |s| :: s[m].digest != r[k].digest;
  }

  lemma RecentRemove(r: seq<Item>, d: Digest, clock: nat)
    requires Recent(r, clock)
    ensures Recent(RemoveDigest(r, d), clock) && !HasDigest(RemoveDigest(r, d), d)
  {
    if HasDigest(r, d) {
      var k :| 0 <= k < |r| && r[k].digest == d;
      RemoveDigestAt(r, k);
      RecentWithout(r, k, clock);
    } else {
      RemoveDigestAbsent(r, d);
    }
  }

  lemma RecentPush(r: seq<Item>, d: Digest, clock: nat)
    requires Recent(r, clock) && !HasDigest(r, d)
    ensures Recent(r + [Item(d, clock)], clock + 1)
  {
    var s := r + [Item(d, clock)];
    assert forall m | 0 <= m < |r| :: s[m] == r[m];
  }

  lemma RecentTail(r: seq<Item>, clock: nat)
    requires r != [] && Recent(r, clock)
    ensures Recent(r[1..], clock)
  {
  }

  lemma OfShardTail(r: seq<Item>, i: nat)
    requires r != []
    ensures OfShard(r[1..], i) == if ShardIndex(r[0].digest) == i then OfShard(r, i)[1..] else OfShard(r, i)
  {
  }

  /** Shard `i` holds its part of the global list. */
  ghost predicate HoldsPart(s: LruShard, r: seq<Item>, i: nat)
    reads s, s.repr
  {
    s.Valid() && s.items == OfShard(r, i)
  }

  ghost predicate Covers(shards: seq<LruShard>, repr: set<object>)
    reads shards
  {
    forall i | 0 <= i < |shards| :: shards[i] in repr && shards[i].repr <= repr
  }

  /** No two shards share memory. */
  ghost predicate Apart(shards: seq<LruShard>)
    reads shards
  {
    forall i, j | 0 <= i < |shards| && 0 <= j < |shards| && i != j ::
      shards[i] != shards[j] && shards[i].repr !! shards[j].repr
  }

  // ---------------------------------------------------------------- whole runs

  datatype Use = DoInsert(d: Digest) | DoTouch(d: Digest) | DoRemove(d: Digest) | DoEvict

  /** The global list after one call made at time `clock`. */
  function AfterUse(r: seq<Item>, clock: nat, op: Use): (r': seq<Item>) {
    match op
    case DoInsert(d) => RemoveDigest(r, d) + [Item(d, clock)]
    case DoTouch(d) => if HasDigest(r, d) then RemoveDigest(r, d) + [Item(d, clock)] else r
    case DoRemove(d) => RemoveDigest(r, d)
    case DoEvict => if r == [] then [] else r[1..]
  }

  /** The clock after a run: insertions and touches advance it. */
  function Ticks(ops: seq<Use>): nat {
    if ops == [] then 0
    else
      var last := ops[|ops| - 1];
      Ticks(ops[..|ops| - 1]) + if last.DoInsert? || last.DoTouch? then 1 else 0
  }

  function RunUses(ops: seq<Use>): (r: seq<Item>) {
    if ops == [] then [] else AfterUse(RunUses(ops[..|ops| - 1]), Ticks(ops[..|ops| - 1]), ops[|ops| - 1])
  }

  /** When `d` was last inserted or touched. */
  function LastUse(ops: seq<Use>, d: Digest): nat {
    if ops == [] then 0
    else
      var n := |ops| - 1;
      if ops[n] == DoInsert(d) || ops[n] == DoTouch(d) then Ticks(ops[..n]) else LastUse(ops[..n], d)
  }

  ghost predicate StampedByUse(r: seq<Item>, ops: seq<Use>) {
    forall k | 0 <= k < |r| :: r[k].timestamp == LastUse(ops, r[k].digest)
  }

  lemma RecentAfter(r: seq<Item>, clock: nat, op: Use)
    requires Recent(r, clock)
    ensures Recent(AfterUse(r, clock, op), clock + if op.DoInsert? || op.DoTouch? then 1 else 0)
  {
    match op
    case DoInsert(d) =>
      RecentRemove(r, d, clock);
      RecentPush(RemoveDigest(r, d), d, clock);
    case DoTouch(d) =>
      RecentRemove(r, d, clock);
      RecentPush(RemoveDigest(r, d), d, clock);
    case DoRemove(d) => RecentRemove(r, d, clock);
    case DoEvict =>
  }

  lemma {:induction false} RemoveSubset(r: seq<Item>, d: Digest)
    ensures forall x :: x in RemoveDigest(r, d) ==> x in r
  {
    if r != [] && r[0].digest != d {
      RemoveSubset(r[1..], d);
    }
  }

  /** A call leaves old items alone, except that an insertion or touch restamps its own digest. */
  lemma AfterMember(r: seq<Item>, clock: nat, op: Use, k: nat)
    requires Recent(r, clock) && k < |AfterUse(r, clock, op)|
    ensures var x := AfterUse(r, clock, op)[k];
            if (op.DoInsert? || op.DoTouch?) && x.digest == op.d then x.timestamp == clock ||
                (op.DoTouch? && !HasDigest(r, op.d))
            else x in r
  {
    match op
    case DoInsert(d) => RemovedMember(r, clock, d, k);
    case DoTouch(d) => if HasDigest(r, d) { RemovedMember(r, clock, d, k); }
    case DoRemove(d) => RemoveSubset(r, d);
    case DoEvict =>
  }

  lemma RemovedMember(r: seq<Item>, clock: nat, d: Digest, k: nat)
    requires Recent(r, clock) && k <= |RemoveDigest(r, d)|
    ensures var x := (RemoveDigest(r, d) + [Item(d, clock)])[k];
            if x.digest == d then x.timestamp == clock else x in r
  {
    RecentRemove(r, d, clock);
    RemoveSubset(r, d);
  }

  lemma StampedAfter(ops: seq<Use>)
    requires ops != [] && StampedByUse(RunUses(ops[..|ops| - 1]), ops[..|ops| - 1])
    requires Recent(RunUses(ops[..|ops| - 1]), Ticks(ops[..|ops| - 1]))
    ensures StampedByUse(RunUses(ops), ops)
  {
    var n := |ops| - 1;
    var init, op, clock := RunUses(ops[..n]), ops[n], Ticks(ops[..n]);
    var r := RunUses(ops);
    forall k | 0 <= k < |r|
      ensures r[k].timestamp == LastUse(ops, r[k].digest)
    {
      AfterMember(init, clock, op, k);
    }
  }

  /**
   * Over every run, the list is ordered by last use, so the digest the next eviction takes
   * was used before every other tracked digest.
   */
  lemma {:induction false} RunOrderedByUse(ops: seq<Use>)
    ensures Recent(RunUses(ops), Ticks(ops)) && StampedByUse(RunUses(ops), ops)
    ensures var r := RunUses(ops);
            forall k | 0 < k < |r| :: LastUse(ops, r[0].digest) < LastUse(ops, r[k].digest)
  {
    if ops != [] {
      var n := |ops| - 1;
      RunOrderedByUse(ops[..n]);
      RecentAfter(RunUses(ops[..n]), Ticks(ops[..n]), ops[n]);
      StampedAfter(ops);
    }
    var r := RunUses(ops);
    forall k | 0 < k < |r|
      ensures LastUse(ops, r[0].digest) < LastUse(ops, r[k].digest)
    {
      assert r[0].timestamp < r[k].timestamp;
    }
  }

  // ---------------------------------------------------------------- over all shards

  /** How many items the first `n` shards hold together. */
  ghost function SumParts(r: seq<Item>, n: nat): nat {
    if n == 0 then 0 else SumParts(r, n - 1) + |OfShard(r, n - 1)|
  }

  lemma {:induction false} SumPartsCons(r: seq<Item>, n: nat)
    requires r != []
    ensures SumParts(r, n) == SumParts(r[1..], n) + if ShardIndex(r[0].digest) < n then 1 else 0
  {
    if n > 0 {
      SumPartsCons(r, n - 1);
    }
  }

  lemma {:induction false} SumPartsNil(n: nat)
    ensures SumParts([], n) == 0
  {
    if n > 0 {
      SumPartsNil(n - 1);
    }
  }

  /** Every item is in exactly one shard. */
  lemma {:induction false} SumPartsAll(r: seq<Item>)
    ensures SumParts(r, N_SHARDS) == |r|
  {
    if r == [] {
      SumPartsNil(N_SHARDS);
    } else {
      SumPartsCons(r, N_SHARDS);
      SumPartsAll(r[1..]);
    }
  }

  /** The oldest head over all shards is the head of the global list. */
  lemma OldestHead(r: seq<Item>, clock: nat, k: nat)
    requires Recent(r, clock) && OfShard(r, k) != []
    requires forall i | 0 <= i < N_SHARDS && OfShard(r, i) != [] ::
            OfShard(r, k)[0].timestamp <= OfShard(r, i)[0].timestamp
    ensures r != [] && OfShard(r, k)[0] == r[0] && ShardIndex(r[0].digest) == k
  {
    var j := OfShardMember(r, k, 0);
    assert OfShard(r, ShardIndex(r[0].digest))[0] == r[0];
    assert r[j].timestamp <= r[0].timestamp;
  }

  // ---------------------------------------------------------------- which digests are tracked

  /** Call `j` of a run removes or evicts `d`. */
  ghost predicate Drops(ops: seq<Use>, j: nat, d: Digest)
    requires j < |ops|
  {
    || ops[j] == DoRemove(d)
    || (ops[j].DoEvict? && var r := RunUses(ops[..j]); r != [] && r[0].digest == d)
  }

  /** Call `i` inserted `d`, and no later one removed or evicted it. */
  ghost predicate KeptSince(ops: seq<Use>, d: Digest, i: nat) {
    i < |ops| && ops[i] == DoInsert(d) && forall j | i < j < |ops| :: !Drops(ops, j, d)
  }

  lemma TrackedAfter(r: seq<Item>, clock: nat, op: Use, d: Digest)
    requires Recent(r, clock)
    ensures HasDigest(AfterUse(r, clock, op), d) <==>
            || op == DoInsert(d)
            || (HasDigest(r, d) && op != DoRemove(d) && !(op.DoEvict? && r != [] && r[0].digest == d))
  {
    match op
    case DoInsert(x) =>
      HasRemove(r, x);
      HasPush(RemoveDigest(r, x), Item(x, clock));
    case DoTouch(x) =>
      HasRemove(r, x);
      HasPush(RemoveDigest(r, x), Item(x, clock));
    case DoRemove(x) => HasRemove(r, x);
    case DoEvict =>
      if r != [] {
        HasCons(r);
        assert !HasDigest(r[1..], r[0].digest);
      }
  }

  lemma KeptSincePrefix(ops: seq<Use>, d: Digest, i: nat)
    requires ops != [] && i < |ops| - 1
    ensures var n := |ops| - 1; KeptSince(ops, d, i) <==> KeptSince(ops[..n], d, i) && !Drops(ops, n, d)
  {
    var n := |ops| - 1;
    forall j | 0 <= j < n
      ensures Drops(ops[..n], j, d) <==> Drops(ops, j, d)
    {
      assert ops[..n][..j] == ops[..j];
    }
  }

  /** Over every run a digest is tracked exactly when it was inserted and not removed or evicted since. */
  lemma {:induction false} RunTracksExactly(ops: seq<Use>, d: Digest)
    ensures HasDigest(RunUses(ops), d) <==> exists i: nat :: KeptSince(ops, d, i)
  {
    if ops != [] {
      var n := |ops| - 1;
      var init := ops[..n];
      RunTracksExactly(init, d);
      RunOrderedByUse(init);
      TrackedAfter(RunUses(init), Ticks(init), ops[n], d);
      if HasDigest(RunUses(ops), d) {
        if ops[n] == DoInsert(d) {
          assert KeptSince(ops, d, n);
        } else {
          var i: nat :| KeptSince(init, d, i);
          KeptSincePrefix(ops, d, i);
        }
      }
      if i: nat :| KeptSince(ops, d, i) {
        if i < n {
          KeptSincePrefix(ops, d, i);
        }
      }
    }
  }

  class ShardedLru {
    const shards: seq<LruShard>
    const capacity: nat
    var clock: nat
    ghost var recency: seq<Item>
    ghost var repr: set<object>

    ghost predicate Valid()
      reads this, repr
    {
      && |shards| == N_SHARDS && this !in repr
      && (forall i | 0 <= i < |shards| :: shards[i] in repr) && Covers(shards, repr) && Apart(shards)
      && (forall i | 0 <= i < |shards| :: HoldsPart(shards[i], recency, i))
      && Recent(recency, clock) && clock <= U64_MAX
    }

    /** Record the list the shards now hold. */
    method Commit(clock': nat, ghost r: seq<Item>, ghost repr': set<object>)
      requires |shards| == N_SHARDS && this !in repr' && Covers(shards, repr') && Apart(shards)
      requires forall i | 0 <= i < |shards| :: HoldsPart(shards[i], r, i)
      requires Recent(r, clock') && clock' <= U64_MAX
      modifies this
      ensures Valid() && clock == clock' && recency == r && repr == repr'
    {
      clock := clock';
      recency := r;
      repr := repr';
      forall i | 0 <= i < |shards|
        ensures HoldsPart(shards[i], recency, i)
      {
        assert old(HoldsPart(shards[i], r, i));
      }
    }

    /** The clock must not wrap: the source counts in 64 bits. */
    method Insert(d: Digest)
      requires Valid() && clock < U64_MAX
      modifies this, repr
      ensures Valid() && fresh(repr - old(repr)) && clock == old(clock) + 1
      ensures recency == AfterUse(old(recency), old(clock), DoInsert(d))
      ensures recency == RemoveDigest(old(recency), d) + [Item(d, old(clock))]
    {
      var ts := clock;
      var idx := ShardIndex(d);
      ghost var r := RemoveDigest(recency, d) + [Item(d, ts)];
      RecentRemove(recency, d, ts);
      RecentPush(RemoveDigest(recency, d), d, ts);
      assert HoldsPart(shards[idx], recency, idx);
      shards[idx].Insert(d, ts);
      forall i | 0 <= i < |shards|
        ensures HoldsPart(shards[i], r, i)
      {
        assert old(HoldsPart(shards[i], recency, i));
        OfShardRemove(recency, d, i);
        OfShardAppend(RemoveDigest(recency, d), Item(d, ts), i);
      }
      Commit(clock + 1, r, repr + shards[idx].repr);
    }

    constructor (capacity: nat)
      ensures Valid() && fresh(repr) && recency == [] && clock == 0 && this.capacity == capacity
    {
      this.capacity := capacity;
      clock := 0;
      recency := [];
      var ss: seq<LruShard> := [];
      ghost var all: set<object> := {};
      while |ss| < N_SHARDS
        invariant |ss| <= N_SHARDS && Covers(ss, all) && Apart(ss) && fresh(all)
        invariant forall i | 0 <= i < |ss| :: HoldsPart(ss[i], [], i)
        invariant forall i | 0 <= i < |ss| :: ss[i].repr == {}
      {
        var s := new LruShard();
        assert forall i | 0 <= i < |ss| :: ss[i] != s;
        ss := ss + [s];
        all := all + {s};
      }
      shards := ss;
      repr := all;
    }

    /** A digest that is not tracked is left untracked, but the clock still advances. */
    method Touch(d: Digest)
      requires Valid() && clock < U64_MAX
      modifies this, repr
      ensures Valid() && repr == old(repr) && clock == old(clock) + 1
      ensures recency == AfterUse(old(recency), old(clock), DoTouch(d))
      ensures recency == if HasDigest(old(recency), d) then RemoveDigest(old(recency), d) + [Item(d, old(clock))]
                         else old(recency)
    {
      var ts := clock;
      var idx := ShardIndex(d);
      ghost var r := if HasDigest(recency, d) then RemoveDigest(recency, d) + [Item(d, ts)] else recency;
      RecentRemove(recency, d, ts);
      RecentPush(RemoveDigest(recency, d), d, ts);
      OfShardHas(recency, d);
      assert HoldsPart(shards[idx], recency, idx);
      var found := shards[idx].Touch(d, ts);
      forall i | 0 <= i < |shards|
        ensures HoldsPart(shards[i], r, i)
      {
        assert old(HoldsPart(shards[i], recency, i));
        OfShardRemove(recency, d, i);
        OfShardAppend(RemoveDigest(recency, d), Item(d, ts), i);
      }
      Commit(clock + 1, r, repr);
    }

    method Remove(d: Digest)
      requires Valid()
      modifies this, repr
      ensures Valid() && repr == old(repr) && clock == old(clock)
      ensures recency == AfterUse(old(recency), old(clock), DoRemove(d))
      ensures recency == RemoveDigest(old(recency), d)
    {
      var idx := ShardIndex(d);
      RecentRemove(recency, d, clock);
      assert HoldsPart(shards[idx], recency, idx);
      var found := shards[idx].Remove(d);
      forall i | 0 <= i < |shards|
        ensures HoldsPart(shards[i], RemoveDigest(recency, d), i)
      {
        assert old(HoldsPart(shards[i], recency, i));
        OfShardRemove(recency, d, i);
      }
      Commit(clock, RemoveDigest(recency, d), repr);
    }

    /** The first pass of `evict_oldest`: the shard with the oldest head. */
    method OldestShard() returns (k: Option<nat>)
      requires Valid()
      ensures recency == [] ==> k == None
      ensures recency != [] ==> k == Some(ShardIndex(recency[0].digest))
    {
      k := None;
      var oldest := U64_MAX;
      for i := 0 to |shards|
        invariant k.None? ==> oldest == U64_MAX && forall j | 0 <= j < i :: OfShard(recency, j) == []
        invariant k.Some? ==>
                    && k.value < i && OfShard(recency, k.value) != [] &&
                        oldest == OfShard(recency, k.value)[0].timestamp
                    && forall j | 0 <= j < i && OfShard(recency, j) != [] :: oldest <= OfShard(recency, j)[0].timestamp
      {
        assert HoldsPart(shards[i], recency, i);
        var ts := shards[i].HeadTimestamp();
        if ts.Some? {
          ghost var j := OfShardMember(recency, i, 0);
          if ts.value < oldest {
            oldest := ts.value;
            k := Some(i);
          }
        }
      }
      if k.Some? {
        OldestHead(recency, clock, k.value);
      } else if recency != [] {
        ghost var j := OfShardContains(recency, 0);
      }
    }

    /** Evict the digest whose last insertion or touch is the oldest of all. */
    method EvictOldest() returns (r: Option<Digest>)
      requires Valid()
      modifies this, repr
      ensures Valid() && repr == old(repr) && clock == old(clock)
      ensures recency == AfterUse(old(recency), old(clock), DoEvict)
      ensures old(recency) == [] ==> r == None && recency == []
      ensures old(recency) != [] ==> r == Some(old(recency)[0].digest) && recency == old(recency)[1..]
    {
      var k := OldestShard();
      if k.None? {
        return None;
      }
      r := PopFirst(k.value);
    }

    /** The second pass of `evict_oldest`: the head of that shard leaves. */
    method PopFirst(idx: nat) returns (r: Option<Digest>)
      requires Valid() && recency != [] && idx == ShardIndex(recency[0].digest)
      modifies this, repr
      ensures Valid() && repr == old(repr) && clock == old(clock)
      ensures r == Some(old(recency)[0].digest) && recency == old(recency)[1..]
    {
      assert HoldsPart(shards[idx], recency, idx);
      RecentTail(recency, clock);
      r := shards[idx].PopHead();
      forall i | 0 <= i < |shards|
        ensures HoldsPart(shards[i], recency[1..], i)
      {
        assert old(HoldsPart(shards[i], recency, i));
        OfShardTail(recency, i);
      }
      Commit(clock, recency[1..], repr);
    }

    /** One call. */
    method Perform(op: Use)
      requires Valid() && clock < U64_MAX
      modifies this, repr
      ensures Valid() && fresh(repr - old(repr)) && recency == AfterUse(old(recency), old(clock), op)
      ensures clock == old(clock) + if op.DoInsert? || op.DoTouch? then 1 else 0
    {
      match op
      case DoInsert(d) => Insert(d);
      case DoTouch(d) => Touch(d);
      case DoRemove(d) => Remove(d);
      case DoEvict => var victim := EvictOldest();
    }

    method Len() returns (n: nat)
      requires Valid()
      ensures n == |recency|
    {
      n := 0;
      for i := 0 to |shards|
        invariant n == SumParts(recency, i)
      {
        assert HoldsPart(shards[i], recency, i);
        var m := shards[i].Len();
        n := n + m;
      }
      SumPartsAll(recency);
    }
  }

  lemma RunUsesNext(ops: seq<Use>, i: nat)
    requires i < |ops|
    ensures RunUses(ops[..i + 1]) == AfterUse(RunUses(ops[..i]), Ticks(ops[..i]), ops[i])
    ensures Ticks(ops[..i + 1]) == Ticks(ops[..i]) + if ops[i].DoInsert? || ops[i].DoTouch? then 1 else 0
  {
    assert ops[..i + 1][..i] == ops[..i];
  }

  /** A tracker driven through any run holds the list that the run leaves. */
  method RunTracker(capacity: nat, ops: seq<Use>) returns (l: ShardedLru)
    requires |ops| < U64_MAX
    ensures fresh(l) && l.Valid() && l.recency == RunUses(ops) && l.clock == Ticks(ops)
  {
    l := new ShardedLru(capacity);
    for i := 0 to |ops|
      invariant fresh(l) && l.Valid() && fresh(l.repr)
      invariant l.recency == RunUses(ops[..i]) && l.clock == Ticks(ops[..i]) <= i
    {
      RunUsesNext(ops, i);
      l.Perform(ops[i]);
    }
    assert ops[..|ops|] == ops;
  }
}
