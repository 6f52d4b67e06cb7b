/**
 * The cache engine (crates/rv-cache/src/engine.rs): a map from digests to variants, the
 * eviction tracker and the expiry queue, updated together. `now` and the outcome of the two
 * storage calls are parameters; each call is one atomic step.
 */
module Engine {
  import opened Types
  import opened Vary
  import opened Objects
  import opened Expiry
  import opened LruShards
  import opened ShardedLrus

  type Variants = map<Digest, seq<ObjCore>>

  /** The map and the tracker hold the same digests. */
  ghost predicate Tracked(objects: Variants, r: seq<Item>) {
    forall d :: d in objects <==> HasDigest(r, d)
  }

  /** Every live object is filed under its own digest and has its deadline pending. */
  ghost predicate Scheduled(objects: Variants, pending: multiset<Entry>) {
    forall d | d in objects ::
      objects[d] != [] && forall oc | oc in objects[d] :: oc.digest == d && Entry(oc.Deadline(), oc) in pending
  }

  // ---------------------------------------------------------------- the tracked list

  /** As many digests as tracked items. */
  lemma {:induction false} TrackedCount(objects: Variants, r: seq<Item>)
    requires Distinct(r) && Tracked(objects, r)
    ensures |objects| == |r|
  {
    if r == [] {
      assert forall d | d in objects :: HasDigest(r, d);
      assert objects == map[];
    } else {
      var d := r[0].digest;
      HasCons(r);
      assert !HasDigest(r[1..], d);
      assert objects.Keys == (objects - {d}).Keys + {d};
      TrackedCount(objects - {d}, r[1..]);
    }
  }

  /** The list without the digests in `gone`. */
  function Keep(r: seq<Item>, gone: set<Digest>): (k: seq<Item>) {
    if r == [] then []
    else if r[0].digest in gone then Keep(r[1..], gone)
    else [r[0]] + Keep(r[1..], gone)
  }

  lemma {:induction false} KeepMore(r: seq<Item>, gone: set<Digest>, d: Digest)
    requires Distinct(r)
    ensures RemoveDigest(Keep(r, gone), d) == Keep(r, gone + {d})
  {
    if r != [] {
      KeepMore(r[1..], gone, d);
      HasCons(r);
      if r[0].digest == d && d !in gone {
        assert !HasDigest(r[1..], d);
        KeepAbsent(r[1..], gone, d);
      }
    }
  }

  lemma {:induction false} KeepAbsent(r: seq<Item>, gone: set<Digest>, d: Digest)
    requires !HasDigest(r, d)
    ensures Keep(r, gone + {d}) == Keep(r, gone)
  {
    if r != [] {
      HasCons(r);
      KeepAbsent(r[1..], gone, d);
    }
  }

  lemma {:induction false} KeepAll(r: seq<Item>)
    ensures Keep(r, {}) == r
  {
    if r != [] {
      KeepAll(r[1..]);
    }
  }

  // ---------------------------------------------------------------- deadlines

  /** Some pending entry of `d` is due, whether or not its object is still live. */
  ghost predicate Due(pending: multiset<Entry>, d: Digest, now: real) {
    exists e | e in pending :: e.oc.digest == d && e.when <= now
  }

  lemma DueMore(pending: multiset<Entry>, more: multiset<Entry>, d: Digest, now: real)
    requires Due(pending, d, now)
    ensures Due(pending + more, d, now)
  {
    var e :| e in pending && e.oc.digest == d && e.when <= now;
    assert e in pending + more;
  }

  /** The digests of the first `n` due entries. */
  function Digests(due: seq<Entry>, n: nat): (s: set<Digest>)
    requires n <= |due|
    ensures forall i | 0 <= i < n :: due[i].oc.digest in s
    ensures forall d | d in s :: exists i | 0 <= i < n :: due[i].oc.digest == d
  {
    if n == 0 then {} else Digests(due, n - 1) + {due[n - 1].oc.digest}
  }

  lemma DigestsDue(before: multiset<Entry>, due: seq<Entry>, kept: multiset<Entry>, now: real)
    requires SplitAt(before, multiset(due), kept, now)
    ensures forall d :: d in Digests(due, |due|) <==> Due(before, d, now)
  {
    forall d
      ensures d in Digests(due, |due|) <==> Due(before, d, now)
    {
      if d in Digests(due, |due|) {
        var i :| 0 <= i < |due| && due[i].oc.digest == d;
        assert due[i] in multiset(due);
      }
      if Due(before, d, now) {
        var e :| e in before && e.oc.digest == d && e.when <= now;
        assert e in multiset(due);
        var i :| 0 <= i < |due| && due[i] == e;
      }
    }
  }

  /** No live object's deadline has passed. */
  ghost predicate NoneOverdue(objects: Variants, now: real) {
    forall d, oc | d in objects && oc in objects[d] :: oc.Deadline() > now
  }

  /** What survives an expiry run keeps its pending deadlines, all later than `now`. */
  lemma ScheduledAfterExpiry(objects: Variants, before: multiset<Entry>, due: multiset<Entry>, kept: multiset<Entry>,
                             now: real, rest: Variants)
    requires Scheduled(objects, before) && SplitAt(before, due, kept, now)
    requires forall d | d in rest :: d in objects && rest[d] == objects[d] && !Due(before, d, now)
    ensures Scheduled(rest, kept)
    ensures NoneOverdue(rest, now)
  {
    forall d, oc | d in rest && oc in rest[d]
      ensures oc.digest == d && Entry(oc.Deadline(), oc) in kept && oc.Deadline() > now
    {
      assert Entry(oc.Deadline(), oc) in before;
    }
  }

  /** With no negative grace or keep, an object's own entry is due only once lookup has stopped serving it. */
  lemma DueAfterServed(oc: ObjCore, now: real)
    requires oc.grace >= 0.0 && oc.keep >= 0.0
    ensures InGrace(oc, now) ==> oc.tOrigin + oc.ttl + oc.grace + oc.keep > now
    ensures Fresh(oc, now) && oc.tOrigin + oc.ttl + oc.grace + oc.keep <= now <==>
            oc.tOrigin + oc.ttl == now && oc.grace == oc.keep == 0.0
  {
  }

  // ---------------------------------------------------------------- eviction

  /** How many digests eviction removes: down to below the limit, or all when the limit is zero. */
  function Surplus(n: nat, limit: nat): (k: nat)
    ensures k <= n && (n - k < limit || k == n) && (k > 0 ==> n - k + 1 >= limit)
  {
    if n < limit then 0 else if limit == 0 then n else n - limit + 1
  }

  /** The map restricted to the tracked digests. */
  ghost function Restrict(objects: Variants, r: seq<Item>): Variants {
    map d | d in objects && HasDigest(r, d) :: objects[d]
  }

  /** Dropping the oldest tracked digest from both sides. */
  lemma EvictOne(objects: Variants, r: seq<Item>)
    requires r != [] && Distinct(r)
    ensures Restrict(objects, r) - {r[0].digest} == Restrict(objects, r[1..])
    ensures Tracked(objects, r) ==> Tracked(objects - {r[0].digest}, r[1..])
  {
    HasCons(r);
    assert !HasDigest(r[1..], r[0].digest);
  }

  lemma RestrictTracked(objects: Variants, r: seq<Item>)
    requires Tracked(objects, r)
    ensures Restrict(objects, r) == objects
  {
  }

  // ---------------------------------------------------------------- the variants of a digest

  function Listed(objects: Variants, d: Digest): (variants: seq<ObjCore>) {
    if d in objects then objects[d] else []
  }

  function Push(objects: Variants, d: Digest, oc: ObjCore): (objects': Variants) {
    objects[d := Listed(objects, d) + [oc]]
  }

  /**
   * What an insertion leaves: every digest still tracked after eviction keeps its variants, in
   * their order, and the new one comes behind those of its own digest.
   */
  ghost predicate Inserted(before: Variants, kept: seq<Item>, d: Digest, stored: Option<ObjCore>, after: Variants) {
    forall x ::
      && (x in after <==> (x in before && HasDigest(kept, x)) || (stored.Some? && x == d))
      && (x in after ==>
            after[x] == (if x in before && HasDigest(kept, x) then before[x] else []) +
                        (if stored.Some? && x == d then [stored.value] else []))
  }

  lemma RestrictKeeps(before: Variants, kept: seq<Item>, d: Digest)
    ensures Inserted(before, kept, d, None, Restrict(before, kept))
  {
  }

  lemma PushKeeps(before: Variants, kept: seq<Item>, d: Digest, oc: ObjCore)
    ensures Inserted(before, kept, d, Some(oc), Push(Restrict(before, kept), d, oc))
  {
  }

  /** A new variant with its deadline pending. */
  lemma ScheduledPush(objects: Variants, pending: multiset<Entry>, d: Digest, oc: ObjCore)
    requires Scheduled(objects, pending) && oc.digest == d
    ensures Scheduled(Push(objects, d, oc), pending + multiset{Entry(oc.Deadline(), oc)})
    ensures OnTime(pending) ==> OnTime(pending + multiset{Entry(oc.Deadline(), oc)})
  {
  }

  lemma TrackedPush(objects: Variants, r: seq<Item>, d: Digest, oc: ObjCore, clock: nat)
    requires Tracked(objects, r) && Distinct(r)
    ensures Tracked(Push(objects, d, oc), RemoveDigest(r, d) + [Item(d, clock)])
    ensures |RemoveDigest(r, d) + [Item(d, clock)]| <= |r| + 1
  {
    HasRemove(r, d);
    HasPush(RemoveDigest(r, d), Item(d, clock));
  }

  lemma TrackedDrop(objects: Variants, r: seq<Item>, d: Digest)
    requires Tracked(objects, r) && Distinct(r)
    ensures Tracked(objects - {d}, RemoveDigest(r, d)) && |RemoveDigest(r, d)| <= |r|
  {
    HasRemove(r, d);
  }

  lemma TrackedTouch(objects: Variants, r: seq<Item>, d: Digest, clock: nat)
    requires Tracked(objects, r) && Distinct(r) && d in objects
    ensures Tracked(objects, RemoveDigest(r, d) + [Item(d, clock)])
    ensures |RemoveDigest(r, d) + [Item(d, clock)]| == |r|
  {
    HasRemove(r, d);
    HasPush(RemoveDigest(r, d), Item(d, clock));
  }

  lemma DropMore(objects: Variants, gone: set<Digest>, d: Digest)
    ensures (objects - gone) - {d} == objects - (gone + {d})
  {
  }

  lemma CorrectForOrigins(u: Utf8, variants: seq<ObjCore>, headers: Option<seq<Header>>, now: real, r: LookupResult)
    requires Answers(u, variants, headers, now, r)
    ensures Inverse(u) && headers.Some? ==>
              forall origins | StoredFrom(u, variants, origins) :: Correct(variants, origins, headers.value, now, r)
  {
    if Inverse(u) && headers.Some? {
      forall origins | StoredFrom(u, variants, origins)
        ensures Correct(variants, origins, headers.value, now, r)
      {
        LookupExactly(u, variants, origins, headers.value, now, r);
      }
    }
  }

  datatype Command =
    | DoLookup(d: Digest, headers: Option<seq<Header>>)
    | DoStore(d: Digest, ttl: real, grace: real, keep: real, vary: Option<seq<byte>>, stored: bool)
    | DoDrop(d: Digest)
    | DoPurge(d: Digest)
    | DoExpire

  /** Every live object's Vary data was built from some response and request. */
  ghost predicate Originated(u: Utf8, objects: Variants) {
    forall d, oc | d in objects && oc in objects[d] :: HasOrigin(u, oc.vary)
  }

  /** Then lookup answers correctly, for the origins there are. */
  lemma OriginsOf(u: Utf8, objects: Variants, d: Digest) returns (origins: seq<Origin>)
    requires Originated(u, objects)
    ensures StoredFrom(u, Listed(objects, d), origins)
  {
    origins := OriginsExist(u, Listed(objects, d));
  }

  /** A stored command's Vary data has an origin. */
  ghost predicate Built(u: Utf8, c: Command) {
    c.DoStore? ==> HasOrigin(u, c.vary)
  }

  ghost predicate AllBuilt(u: Utf8, commands: seq<Command>) {
    forall i | 0 <= i < |commands| :: Built(u, commands[i])
  }

  // ---------------------------------------------------------------- what a call does to a digest

  /** What the engine holds: the variants, the recency list with its clock, and the pending deadlines. */
  datatype Snapshot = Snapshot(objects: Variants, recency: seq<Item>, clock: nat, pending: multiset<Entry>)

  /**
   * The reasons for which a call drops all variants of a digest: a lookup that misses, an
   * insertion that evicts it, a removal, a purge, or a due entry.
   */
  ghost predicate Leaves(s: Snapshot, c: Command, now: real, missed: bool, maxObjects: nat, d: Digest) {
    match c
    case DoLookup(x, _) => x == d && missed
    case DoStore(_, _, _, _, _, _) => !HasDigest(s.recency[Surplus(|s.recency|, maxObjects)..], d)
    case DoDrop(x) => x == d
    case DoPurge(x) => x == d
    case DoExpire => exists e | e in s.pending :: e.oc.digest == d && e.when <= now
  }

  ghost predicate StoredAs(oc: ObjCore, c: Command, now: real) {
    && c.DoStore? && oc.digest == c.d && oc.vary == c.vary
    && oc.tOrigin == now && oc.ttl == c.ttl && oc.grace == c.grace && oc.keep == c.keep
  }

  /** The variants of `d` after a call: those it had, unless they leave, followed by the one stored for it. */
  ghost predicate VariantsAfter(s: Snapshot, c: Command, now: real, missed: bool, stored: Option<ObjCore>,
                                maxObjects: nat, d: Digest, after: Variants)
    requires stored.Some? ==> c.DoStore?
  {
    var kept := d in s.objects && !Leaves(s, c, now, missed, maxObjects, d);
    var added := stored.Some? && c.d == d;
    && (d in after <==> kept || added)
    && (d in after ==>
          after[d] == (if kept then s.objects[d] else []) + (if added then [stored.value] else []))
  }

  /** The pending deadlines after a call: a stored object's is added, and an expiry takes the due ones. */
  ghost predicate PendingAfter(s: Snapshot, c: Command, now: real, stored: Option<ObjCore>, after: multiset<Entry>)
    requires stored.Some? ==> c.DoStore?
  {
    if c.DoExpire? then after <= s.pending && forall e | e in s.pending ::
      after[e] == if e.when <= now then 0 else s.pending[e]
    else if stored.Some? then
      after == s.pending + multiset{Entry(now + c.ttl + c.grace + c.keep, stored.value)}
    else after == s.pending
  }

  /** The call uses the digest it names: it stores an object for it, or finds one. */
  ghost predicate Uses(c: Command, missed: bool, stored: Option<ObjCore>) {
    stored.Some? || (c.DoLookup? && !missed)
  }

  /**
   * The recency list after a call: it tracks the digests there are, in the order of their
   * timestamps. A use stamps its digest with the clock and advances that; no other stamp changes.
   */
  ghost predicate RecencyAfter(s: Snapshot, c: Command, missed: bool, stored: Option<ObjCore>, s': Snapshot)
    requires stored.Some? ==> c.DoStore?
  {
    && Recent(s'.recency, s'.clock) && Tracked(s'.objects, s'.recency)
    && s'.clock == s.clock + (if Uses(c, missed, stored) then 1 else 0)
    && forall x | x in s'.recency ::
         if Uses(c, missed, stored) && x.digest == c.d then x.timestamp == s.clock else x in s.recency
  }

  lemma Restamped(r: seq<Item>, d: Digest, clock: nat)
    requires Recent(r, clock)
    ensures forall x | x in RemoveDigest(r, d) :: x in r && x.digest != d
    ensures forall x | x in RemoveDigest(r, d) + [Item(d, clock)] ::
              if x.digest == d then x.timestamp == clock else x in r
  {
    RecentRemove(r, d, clock);
    RemoveSubset(r, d);
  }

  lemma SuffixStamps(r: seq<Item>, k: nat, d: Digest, clock: nat)
    requires Recent(r, clock) && k <= |r|
    ensures forall x | x in r[k..] :: x in r
    ensures forall x | x in RemoveDigest(r[k..], d) + [Item(d, clock)] ::
              if x.digest == d then x.timestamp == clock else x in r
  {
    assert Recent(r[k..], clock);
    Restamped(r[k..], d, clock);
  }

  lemma {:induction false} KeepSubset(r: seq<Item>, gone: set<Digest>)
    ensures forall x | x in Keep(r, gone) :: x in r
  {
    if r != [] {
      KeepSubset(r[1..], gone);
    }
  }

  /** One call leads from `s` to `s'`. */
  ghost predicate Follows(s: Snapshot, c: Command, now: real, missed: bool, stored: Option<ObjCore>, maxObjects: nat,
                          s': Snapshot) {
    && (stored.Some? <==> c.DoStore? && c.stored) && (stored.Some? ==> StoredAs(stored.value, c, now))
    && (forall d :: VariantsAfter(s, c, now, missed, stored, maxObjects, d, s'.objects))
    && PendingAfter(s, c, now, stored, s'.pending) && RecencyAfter(s, c, missed, stored, s')
  }

  /** Every call but an insertion: what leaves is gone and the rest is unchanged. */
  lemma OthersFollow(s: Snapshot, c: Command, now: real, missed: bool, maxObjects: nat, s': Snapshot)
    requires !c.DoStore?
    requires forall d :: d in s'.objects <==> d in s.objects && !Leaves(s, c, now, missed, maxObjects, d)
    requires forall d | d in s'.objects :: s'.objects[d] == s.objects[d]
    requires PendingAfter(s, c, now, None, s'.pending) && RecencyAfter(s, c, missed, None, s')
    ensures Follows(s, c, now, missed, None, maxObjects, s')
  {
  }

  lemma StoreRecency(s: Snapshot, c: Command, stored: Option<ObjCore>, maxObjects: nat, kept: seq<Item>, s': Snapshot)
    requires c.DoStore? && Recent(s.recency, s.clock)
    requires Recent(s'.recency, s'.clock) && Tracked(s'.objects, s'.recency)
    requires s'.clock == s.clock + if stored.Some? then 1 else 0
    requires kept == s.recency[Surplus(|s.recency|, maxObjects)..]
    requires stored.None? ==> s'.recency == kept
    requires stored.Some? ==> s'.recency == RemoveDigest(kept, c.d) + [Item(c.d, s.clock)]
    ensures RecencyAfter(s, c, false, stored, s')
  {
    SuffixStamps(s.recency, Surplus(|s.recency|, maxObjects), c.d, s.clock);
  }

  lemma StoreFollows(s: Snapshot, c: Command, now: real, stored: Option<ObjCore>, maxObjects: nat, kept: seq<Item>,
                     s': Snapshot)
    requires c.DoStore? && (stored.Some? <==> c.stored) && (stored.Some? ==> StoredAs(stored.value, c, now))
    requires kept == s.recency[Surplus(|s.recency|, maxObjects)..]
    requires Inserted(s.objects, kept, c.d, stored, s'.objects) && PendingAfter(s, c, now, stored, s'.pending)
    requires RecencyAfter(s, c, false, stored, s')
    ensures Follows(s, c, now, false, stored, maxObjects, s')
  {
  }

  lemma ExpireFollows(s: Snapshot, now: real, due: multiset<Entry>, maxObjects: nat, s': Snapshot)
    requires SplitAt(s.pending, due, s'.pending, now) && RecencyAfter(s, DoExpire, false, None, s')
    requires forall d :: d in s'.objects <==> d in s.objects && !Due(s.pending, d, now)
    requires forall d | d in s'.objects :: s'.objects[d] == s.objects[d]
    ensures Follows(s, DoExpire, now, false, None, maxObjects, s')
  {
    assert PendingAfter(s, DoExpire, now, None, s'.pending);
    OthersFollow(s, DoExpire, now, false, maxObjects, s');
  }

  lemma OriginsFollow(u: Utf8, s: Snapshot, c: Command, now: real, missed: bool, stored: Option<ObjCore>,
                      maxObjects: nat, s': Snapshot)
    requires Follows(s, c, now, missed, stored, maxObjects, s')
    ensures Originated(u, s.objects) && Built(u, c) ==> Originated(u, s'.objects)
  {
    forall d, oc | d in s'.objects && oc in s'.objects[d] && Originated(u, s.objects) && Built(u, c)
      ensures HasOrigin(u, oc.vary)
    {
      assert VariantsAfter(s, c, now, missed, stored, maxObjects, d, s'.objects);
      assert (stored.Some? && oc == stored.value) || (d in s.objects && oc in s.objects[d]);
    }
  }

  class CacheEngine {
    const lru: ShardedLru
    const expiry: ExpiryManager
    const maxObjects: nat
    var objects: Variants

    ghost predicate Valid()
      reads this, lru, lru.repr, expiry
    {
      && this !in lru.repr && expiry !in lru.repr
      && lru.Valid() && expiry.Valid()
      && Tracked(objects, lru.recency)
      && Scheduled(objects, expiry.Pending()) && OnTime(expiry.Pending())
      && |lru.recency| <= Limit()
    }

    ghost function View(): Snapshot
      requires expiry.Valid()
      reads this, lru, expiry
    {
      Snapshot(objects, lru.recency, lru.clock, expiry.Pending())
    }

    /** Insertion evicts first, so even a limit of zero leaves room for one digest. */
    function Limit(): nat {
      if maxObjects == 0 then 1 else maxObjects
    }

    constructor (maxObjects: nat)
      ensures Valid() && fresh(lru) && fresh(lru.repr) && fresh(expiry) && this.maxObjects == maxObjects
      ensures objects == map[] && lru.recency == [] && lru.clock == 0 && expiry.Pending() == multiset{}
    {
      lru := new ShardedLru(maxObjects);
      expiry := new ExpiryManager();
      this.maxObjects := maxObjects;
      objects := map[];
    }

    /** Never more digests than the limit. */
    lemma Bounded()
      requires Valid()
      ensures |objects| == |lru.recency| <= Limit()
    {
      TrackedCount(objects, lru.recency);
    }

    /** Drop `d` from the map and the tracker. */
    method Untrack(d: Digest)
      requires this !in lru.repr && lru.Valid() && Tracked(objects, lru.recency)
      modifies this`objects, lru, lru.repr
      ensures lru.Valid() && Tracked(objects, lru.recency) && lru.repr == old(lru.repr) && lru.clock == old(lru.clock)
      ensures objects == old(objects) - {d}
      ensures lru.recency == RemoveDigest(old(lru.recency), d) && |lru.recency| <= |old(lru.recency)|
    {
      TrackedDrop(objects, lru.recency, d);
      objects := objects - {d};
      lru.Remove(d);
    }

    method Lookup(u: Utf8, d: Digest, headers: Option<seq<Header>>, now: real) returns (r: LookupResult)
      requires Valid() && lru.clock < U64_MAX
      modifies this`objects, lru, lru.repr
      ensures Valid() && lru.repr == old(lru.repr) && expiry.Pending() == old(expiry.Pending())
      ensures r.Hit? || r.Grace? ==> d in old(objects) && r.oc in old(objects)[d]
      ensures old(allocated(r)) && old(Answers(u, Listed(objects, d), headers, now, r))
      ensures r.Miss? <==> old(NothingToServe(u, Listed(objects, d), headers, now))
      ensures Inverse(u) && headers.Some? ==>
                forall origins | StoredFrom(u, old(Listed(objects, d)), origins) ::
                  old(Correct(Listed(objects, d), origins, headers.value, now, r))
      ensures !r.Miss? ==> d in old(objects) && objects == old(objects)
                           && lru.recency == RemoveDigest(old(lru.recency), d) + [Item(d, old(lru.clock))]
      ensures r.Miss? ==> objects == old(objects) - {d} && lru.recency == RemoveDigest(old(lru.recency), d)
      ensures lru.clock == old(lru.clock) + if r.Miss? then 0 else 1
    {
      if d in objects {
        TrackedTouch(objects, lru.recency, d, lru.clock);
        r := ScanVariants(u, objects[d], headers, now);
        CorrectForOrigins(u, objects[d], headers, now, r);
        MissExactly(u, objects[d], headers, now, r);
        if !r.Miss? {
          lru.Touch(d);
          return r;
        }
        Untrack(d);
      } else {
        RemoveDigestAbsent(lru.recency, d);
        CorrectForOrigins(u, [], headers, now, Miss);
        assert objects - {d} == objects;
        return Miss;
      }
    }

    /** Remove every variant of `d` and report how many there were. */
    method Remove(d: Digest) returns (count: nat)
      requires Valid()
      modifies this`objects, lru, lru.repr
      ensures Valid() && lru.repr == old(lru.repr) && expiry.Pending() == old(expiry.Pending())
      ensures objects == old(objects) - {d} && lru.recency == RemoveDigest(old(lru.recency), d) &&
              lru.clock == old(lru.clock)
      ensures count == if d in old(objects) then |old(objects)[d]| else 0
    {
      count := if d in objects then |objects[d]| else 0;
      Untrack(d);
    }

    /** Purge: the deadlines of the purged objects stay pending. */
    method Purge(d: Digest)
      requires Valid()
      modifies this`objects, lru, lru.repr
      ensures Valid() && lru.repr == old(lru.repr) && expiry.Pending() == old(expiry.Pending())
      ensures objects == old(objects) - {d} && lru.recency == RemoveDigest(old(lru.recency), d) &&
              lru.clock == old(lru.clock)
    {
      Untrack(d);
    }

    /** One round of eviction: the least recently used digest leaves the tracker and the map. */
    method EvictOldest() returns (evicted: bool)
      requires Valid()
      modifies this`objects, lru, lru.repr
      ensures Valid() && lru.repr == old(lru.repr) && lru.clock == old(lru.clock) &&
              expiry.Pending() == old(expiry.Pending())
      ensures evicted <==> old(lru.recency) != []
      ensures !evicted ==> objects == old(objects) && lru.recency == []
      ensures evicted ==> objects == old(objects) - {old(lru.recency)[0].digest} && lru.recency == old(lru.recency)[1..]
    {
      if lru.recency != [] {
        EvictOne(objects, lru.recency);
      }
      var victim := lru.EvictOldest();
      if victim.None? {
        return false;
      }
      objects := objects - {victim.value};
      return true;
    }

    /** The recency list without the digests that have to go before another one is inserted. */
    ghost function Kept(): seq<Item>
      reads this, lru
    {
      lru.recency[Surplus(|lru.recency|, maxObjects)..]
    }

    /** Evict the least recently used digests until there is room for one more. */
    method EnforceCapacity()
      requires Valid()
      modifies this`objects, lru, lru.repr
      ensures Valid() && lru.repr == old(lru.repr) && lru.clock == old(lru.clock) &&
              expiry.Pending() == old(expiry.Pending())
      ensures lru.recency == old(Kept()) && objects == Restrict(old(objects), lru.recency)
    {
      ghost var before, k := lru.recency, 0;
      RestrictTracked(objects, lru.recency);
      var n := lru.Len();
      while n >= maxObjects
        invariant Valid() && lru.repr == old(lru.repr) && lru.clock == old(lru.clock) &&
                expiry.Pending() == old(expiry.Pending())
        invariant 0 <= k <= Surplus(|before|, maxObjects) && lru.recency == before[k..] && n == |before| - k
        invariant objects == Restrict(old(objects), lru.recency)
        decreases |before| - k
      {
        if k < |before| {
          EvictOne(old(objects), before[k..]);
          assert before[k..][1..] == before[k + 1..];
        }
        var evicted := EvictOldest();
        if !evicted {
          break;
        }
        k := k + 1;
        n := lru.Len();
      }
    }

    /** List `oc` for `d` and make `d` the most recent. */
    method Track(d: Digest, oc: ObjCore)
      requires this !in lru.repr && expiry !in lru.repr && lru.Valid() && Tracked(objects, lru.recency)
      requires lru.clock < U64_MAX
      modifies this`objects, lru, lru.repr
      ensures lru.Valid() && Tracked(objects, lru.recency) && fresh(lru.repr - old(lru.repr))
      ensures objects == Push(old(objects), d, oc)
      ensures lru.recency == RemoveDigest(old(lru.recency), d) + [Item(d, old(lru.clock))] &&
              lru.clock == old(lru.clock) + 1 && |lru.recency| <= |old(lru.recency)| + 1
    {
      TrackedPush(objects, lru.recency, d, oc, lru.clock);
      objects := Push(objects, d, oc);
      lru.Insert(d);
    }

    /** File a stored object: the map, the tracker and the expiry queue. */
    method File(d: Digest, oc: ObjCore)
      requires Valid() && lru.clock < U64_MAX && oc.digest == d && |lru.recency| < Limit()
      modifies this`objects, lru, lru.repr, expiry
      ensures Valid() && fresh(lru.repr - old(lru.repr))
      ensures objects == Push(old(objects), d, oc)
      ensures lru.recency == RemoveDigest(old(lru.recency), d) + [Item(d, old(lru.clock))] &&
              lru.clock == old(lru.clock) + 1
      ensures expiry.Pending() == old(expiry.Pending()) + multiset{Entry(oc.Deadline(), oc)}
    {
      ScheduledPush(objects, expiry.Pending(), d, oc);
      Track(d, oc);
      expiry.Insert(oc);
      assert expiry.Pending() == old(expiry.Pending()) + multiset{Entry(oc.Deadline(), oc)};
      assert Scheduled(objects, expiry.Pending()) && OnTime(expiry.Pending());
    }

    /** Make the object and file it. */
    method StoreNew(d: Digest, ttl: real, grace: real, keep: real, vary: Option<seq<byte>>, now: real)
      returns (oc: ObjCore)
      requires Valid() && lru.clock < U64_MAX && |lru.recency| < Limit()
      modifies this`objects, lru, lru.repr, expiry
      ensures Valid() && fresh(lru.repr - old(lru.repr)) && fresh(oc) && oc !in lru.repr
      ensures oc.digest == d && oc.vary == vary && oc.flags == {}
      ensures oc.tOrigin == now && oc.ttl == ttl && oc.grace == grace && oc.keep == keep
      ensures objects == Push(old(objects), d, oc)
      ensures lru.recency == RemoveDigest(old(lru.recency), d) + [Item(d, old(lru.clock))] &&
              lru.clock == old(lru.clock) + 1
      ensures expiry.Pending() == old(expiry.Pending()) + multiset{Entry(now + ttl + grace + keep, oc)}
    {
      oc := new ObjCore(d, now, ttl, grace, keep, vary);
      File(d, oc);
    }

    /**
     * Insert a new variant for `d`. `stored` is whether the storage accepted the body; when it
     * did not, the evictions have already happened.
     */
    method Insert(d: Digest, ttl: real, grace: real, keep: real, vary: Option<seq<byte>>, stored: bool, now: real)
      returns (r: Option<ObjCore>)
      requires Valid() && lru.clock < U64_MAX
      modifies this`objects, lru, lru.repr, expiry
      ensures Valid() && fresh(lru.repr - old(lru.repr))
      ensures r.Some? <==> stored
      ensures r.Some? ==>
                && fresh(r.value) && r.value !in lru.repr
                && r.value.digest == d && r.value.vary == vary && r.value.flags == {}
                && r.value.tOrigin == now && r.value.ttl == ttl && r.value.grace == grace && r.value.keep == keep
      ensures Inserted(old(objects), old(Kept()), d, r, objects)
      ensures r.None? ==>
                && lru.recency == old(Kept()) && lru.clock == old(lru.clock)
                && expiry.Pending() == old(expiry.Pending())
      ensures r.Some? ==>
                && lru.recency == RemoveDigest(old(Kept()), d) + [Item(d, old(lru.clock))]
                && lru.clock == old(lru.clock) + 1
                && expiry.Pending() == old(expiry.Pending()) + multiset{Entry(now + ttl + grace + keep, r.value)}
    {
      EnforceCapacity();
      if !stored {
        RestrictKeeps(old(objects), lru.recency, d);
        return None;
      }
      ghost var kept := lru.recency;
      var oc := StoreNew(d, ttl, grace, keep, vary, now);
      PushKeeps(old(objects), kept, d, oc);
      return Some(oc);
    }

    /** Expire: a digest survives exactly when none of its pending entries is due. */
    method ExpireObjects(now: real) returns (count: nat)
      requires Valid()
      modifies this`objects, lru, lru.repr, expiry
      ensures Valid() && lru.repr == old(lru.repr) && lru.clock == old(lru.clock)
      ensures forall d :: d in objects <==> d in old(objects) && !Due(old(expiry.Pending()), d, now)
      ensures forall d | d in objects :: objects[d] == old(objects)[d]
      ensures NoneOverdue(objects, now)
      ensures exists due: seq<Entry> ::
                && |due| == count && SplitAt(old(expiry.Pending()), multiset(due), expiry.Pending(), now)
                && lru.recency == Keep(old(lru.recency), Digests(due, |due|))
    {
      var due := expiry.Expire(now);
      count := |due|;
      ghost var before := lru.recency;
      KeepAll(before);
      for i := 0 to |due|
        invariant lru.Valid() && lru.repr == old(lru.repr) && lru.clock == old(lru.clock)
        invariant expiry.Valid() && SplitAt(old(expiry.Pending()), multiset(due), expiry.Pending(), now)
        invariant lru.recency == Keep(before, Digests(due, i)) && |lru.recency| <= |before|
        invariant objects == old(objects) - Digests(due, i)
        invariant Tracked(objects, lru.recency)
      {
        KeepMore(before, Digests(due, i), due[i].oc.digest);
        DropMore(old(objects), Digests(due, i), due[i].oc.digest);
        Untrack(due[i].oc.digest);
      }
      DigestsDue(old(expiry.Pending()), due, expiry.Pending(), now);
      ScheduledAfterExpiry(old(objects), old(expiry.Pending()), multiset(due), expiry.Pending(), now, objects);
    }

    /** One call at time `now`, whether it was a lookup that missed, and the object it stored. */
    method Apply(u: Utf8, command: Command, now: real) returns (missed: bool, stored: Option<ObjCore>)
      requires Valid() && lru.clock < U64_MAX
      modifies this`objects, lru, lru.repr, expiry
      ensures Valid() && fresh(lru.repr - old(lru.repr)) && lru.clock <= old(lru.clock) + 1
      ensures Follows(old(View()), command, now, missed, stored, maxObjects, View())
      ensures stored.Some? ==> fresh(stored.value)
      ensures missed <==> command.DoLookup? && old(NothingToServe(u, Listed(objects, command.d), command.headers, now))
      ensures command.DoExpire? ==> NoneOverdue(objects, now)
      ensures old(Originated(u, objects)) && Built(u, command) ==> Originated(u, objects)
    {
      missed, stored := false, None;
      match command {
        case DoLookup(d, headers) =>
          missed := ApplyLookup(u, d, headers, now);
        case DoStore(_, _, _, _, _, _) =>
          stored := ApplyStore(command, now);
        case DoDrop(d) =>
          Restamped(lru.recency, d, lru.clock);
          var n := Remove(d);
          OthersFollow(old(View()), command, now, false, maxObjects, View());
        case DoPurge(d) =>
          Restamped(lru.recency, d, lru.clock);
          Purge(d);
          OthersFollow(old(View()), command, now, false, maxObjects, View());
        case DoExpire => ApplyExpire(now);
      }
      OriginsFollow(u, old(View()), command, now, missed, stored, maxObjects, View());
    }

    method ApplyLookup(u: Utf8, d: Digest, headers: Option<seq<Header>>, now: real) returns (missed: bool)
      requires Valid() && lru.clock < U64_MAX
      modifies this`objects, lru, lru.repr
      ensures Valid() && lru.repr == old(lru.repr) && lru.clock <= old(lru.clock) + 1
      ensures Follows(old(View()), DoLookup(d, headers), now, missed, None, maxObjects, View())
      ensures missed <==> old(NothingToServe(u, Listed(objects, d), headers, now))
    {
      Restamped(lru.recency, d, lru.clock);
      var r := Lookup(u, d, headers, now);
      missed := r.Miss?;
      OthersFollow(old(View()), DoLookup(d, headers), now, missed, maxObjects, View());
    }

    method ApplyStore(command: Command, now: real) returns (stored: Option<ObjCore>)
      requires Valid() && lru.clock < U64_MAX && command.DoStore?
      modifies this`objects, lru, lru.repr, expiry
      ensures Valid() && fresh(lru.repr - old(lru.repr)) && lru.clock <= old(lru.clock) + 1
      ensures Follows(old(View()), command, now, false, stored, maxObjects, View())
      ensures stored.Some? ==> fresh(stored.value)
    {
      var c := command;
      stored := Insert(c.d, c.ttl, c.grace, c.keep, c.vary, c.stored, now);
      ghost var s, kept, s' := old(View()), old(Kept()), View();
      assert RecencyAfter(s, c, false, stored, s') by { StoreRecency(s, c, stored, maxObjects, kept, s'); }
      assert PendingAfter(s, c, now, stored, s'.pending);
      StoreFollows(s, c, now, stored, maxObjects, kept, s');
    }

    method ApplyExpire(now: real)
      requires Valid()
      modifies this`objects, lru, lru.repr, expiry
      ensures Valid() && lru.repr == old(lru.repr) && lru.clock == old(lru.clock)
      ensures Follows(old(View()), DoExpire, now, false, None, maxObjects, View())
      ensures NoneOverdue(objects, now)
    {
      var n := ExpireObjects(now);
      ghost var due: seq<Entry> :| SplitAt(old(expiry.Pending()), multiset(due), expiry.Pending(), now)
                                   && lru.recency == Keep(old(lru.recency), Digests(due, |due|));
      KeepSubset(old(lru.recency), Digests(due, |due|));
      ExpireFollows(old(View()), now, multiset(due), maxObjects, View());
    }
  }

  // ---------------------------------------------------------------- objects that are lost

  lemma DueOne(oc: ObjCore, now: real)
    requires oc.Deadline() <= now
    ensures Due(multiset{Entry(oc.Deadline(), oc)}, oc.digest, now)
  {
    assert Entry(oc.Deadline(), oc) in multiset{Entry(oc.Deadline(), oc)};
  }

  /** A new engine that holds one object. */
  method StoreOne(maxObjects: nat, d: Digest, ttl: real, grace: real, keep: real, vary: Option<seq<byte>>, now: real)
    returns (e: CacheEngine, oc: ObjCore)
    ensures fresh(e) && fresh(e.lru) && fresh(e.lru.repr) && fresh(e.expiry) && e.Valid() && e.maxObjects == maxObjects
    ensures fresh(oc) && oc !in e.lru.repr && oc.digest == d && oc.vary == vary && oc.flags == {}
    ensures oc.tOrigin == now && oc.ttl == ttl && oc.grace == grace && oc.keep == keep
    ensures e.objects == map[d := [oc]] && e.lru.recency == [Item(d, 0)] && e.lru.clock == 1
    ensures e.expiry.Pending() == multiset{Entry(now + ttl + grace + keep, oc)}
  {
    e := new CacheEngine(maxObjects);
    var r := e.Insert(d, ttl, grace, keep, vary, true, now);
    oc := r.value;
    assert e.objects[d] == [oc] && forall x :: x in e.objects <==> x == d;
    assert multiset{} + multiset{Entry(now + ttl + grace + keep, oc)} == multiset{Entry(now + ttl + grace + keep, oc)};
  }

  /** A new engine that has stored and purged `d`: its deadline is still pending. */
  method StoreAndPurge(d: Digest, ttl: real, stored: real) returns (e: CacheEngine)
    ensures fresh(e) && fresh(e.lru) && fresh(e.lru.repr) && fresh(e.expiry) && e.Valid() && e.lru.clock == 1
    ensures d !in e.objects && Due(e.expiry.Pending(), d, stored + ttl)
  {
    var oc;
    e, oc := StoreOne(10, d, ttl, 0.0, 0.0, None, stored);
    DueOne(oc, stored + ttl);
    e.Purge(d);
  }

  /**
   * Storing `d` again and expiring at the purged object's deadline drops the new object, however
   * long it has to live.
   */
  method StoreAgain(e: CacheEngine, d: Digest, ttl: real, stored: real, now: real) returns (oc: ObjCore)
    requires e.Valid() && e.lru.clock < U64_MAX
    requires d !in e.objects && Due(e.expiry.Pending(), d, now) && stored <= now <= stored + ttl
    modifies e`objects, e.lru, e.lru.repr, e.expiry
    ensures e.Valid() && oc.digest == d && oc.Deadline() == stored + ttl && Fresh(oc, now) && d !in e.objects
  {
    var r := e.Insert(d, ttl, 0.0, 0.0, None, true, stored);
    oc := r.value;
    DueMore(old(e.expiry.Pending()), multiset{Entry(oc.Deadline(), oc)}, d, now);
    var n := e.ExpireObjects(now);
  }

  /**
   * On a new engine: store for 10 seconds at time 0, purge, store for 100 seconds at time 5,
   * expire at time 10. The object stored at time 5 is gone 95 seconds early.
   */
  method StaleDeadline(d: Digest) returns (e: CacheEngine, oc: ObjCore)
    ensures e.Valid() && oc.digest == d && oc.Deadline() == 105.0 && Fresh(oc, 10.0) && d !in e.objects
  {
    e := StoreAndPurge(d, 10.0, 0.0);
    oc := StoreAgain(e, d, 100.0, 5.0, 10.0);
  }

  /** A new engine that holds one fresh object for `d`, which matches `headers` and does not match `other`. */
  method StoreVaried(u: Utf8, d: Digest, data: seq<byte>, headers: seq<Header>,
                     other: seq<Header>) returns (e: CacheEngine)
    requires Matches(u, data, headers) && !Matches(u, data, other)
    ensures fresh(e) && fresh(e.lru) && fresh(e.lru.repr) && fresh(e.expiry) && e.Valid() && e.lru.clock == 1
    ensures |Listed(e.objects, d)| == 1 && HitAt(u, Listed(e.objects, d), Some(headers), 1.0, 0)
    ensures forall oc | oc in Listed(e.objects, d) :: !Considered(u, oc, Some(other))
  {
    var oc;
    e, oc := StoreOne(10, d, 100.0, 0.0, 0.0, Some(data), 0.0);
  }

  /** A lookup that matches no variant misses and drops them all. */
  method LookupUnmatched(u: Utf8, e: CacheEngine, d: Digest, other: seq<Header>, now: real) returns (r: LookupResult)
    requires e.Valid() && e.lru.clock < U64_MAX
    requires forall oc | oc in Listed(e.objects, d) :: !Considered(u, oc, Some(other))
    modifies e`objects, e.lru, e.lru.repr
    ensures r.Miss? && e.Valid() && e.lru.clock == old(e.lru.clock) && e.lru.repr == old(e.lru.repr) && d !in e.objects
  {
    r := e.Lookup(u, d, Some(other), now);
  }

  /** The same request, asked of two engines in the same state: one is asked `other` first. */
  method AskTwice(u: Utf8, d: Digest, data: seq<byte>, headers: seq<Header>, other: seq<Header>)
    returns (alone: LookupResult, between: LookupResult, after: LookupResult)
    requires Matches(u, data, headers) && !Matches(u, data, other)
    ensures alone.Hit? && Fresh(alone.oc, 1.0) && between.Miss? && after.Miss?
  {
    var e := StoreVaried(u, d, data, headers, other);
    alone := e.Lookup(u, d, Some(headers), 1.0);
    between, after := AskOtherFirst(u, d, data, headers, other);
  }

  method AskOtherFirst(u: Utf8, d: Digest, data: seq<byte>, headers: seq<Header>, other: seq<Header>)
    returns (between: LookupResult, after: LookupResult)
    requires Matches(u, data, headers) && !Matches(u, data, other)
    ensures between.Miss? && after.Miss?
  {
    var e := StoreVaried(u, d, data, headers, other);
    between := LookupUnmatched(u, e, d, other, 1.0);
    after := LookupUnmatched(u, e, d, headers, 1.0);
  }

  /**
   * On a new engine: a response with `Vary: a` is stored for a request with `a: 1`. A lookup
   * with `a: 1` hits; but after a lookup with `a: 2`, which misses, it misses too.
   */
  method MissDropsVariants(u: Utf8, d: Digest) returns (alone: LookupResult, between: LookupResult, after: LookupResult)
    requires Inverse(u) && ByteSized(u)
    ensures alone.Hit? && Fresh(alone.oc, 1.0) && between.Miss? && after.Miss?
  {
    TwoRequests(u, ONE, TWO);
    alone, between, after := AskTwice(u, d, VaryData(u, Some("a"), ONE).value, ONE, TWO);
  }

  /** On a new engine with room for one: an insertion that the storage refuses has dropped the object there was. */
  method RefusedInsertEvicts(d: Digest, other: Digest) returns (e: CacheEngine, r: Option<ObjCore>)
    ensures e.Valid() && r.None? && e.objects == map[]
  {
    var stored;
    e, stored := StoreOne(1, d, 100.0, 0.0, 0.0, None, 0.0);
    r := e.Insert(other, 100.0, 0.0, 0.0, None, false, 1.0);
    assert e.lru.recency == [];
  }
}
