/** Whole runs of the cache engine: how long a stored object stays, and what is served meanwhile. */
module EngineRuns {
  import opened Types
  import opened Vary
  import opened Objects
  import opened Expiry
  import opened LruShards
  import opened ShardedLrus
  import opened Engine

  // ---------------------------------------------------------------- traces

  /** A run: the calls, when they were made, and what each did. */
  datatype Log = Log(commands: seq<Command>, times: seq<real>, missed: seq<bool>, stored: seq<Option<ObjCore>>)

  ghost predicate Aligned(log: Log, trace: seq<Snapshot>) {
    |log.commands| == |log.times| == |log.missed| == |log.stored| == |trace| - 1
  }

  ghost predicate StepAt(log: Log, trace: seq<Snapshot>, maxObjects: nat, i: nat)
    requires Aligned(log, trace) && i < |log.commands|
  {
    Follows(trace[i], log.commands[i], log.times[i], log.missed[i], log.stored[i], maxObjects, trace[i + 1])
  }

  /** No object is stored twice. */
  ghost predicate Separate(stored: seq<Option<ObjCore>>) {
    forall i, j | 0 <= i < j < |stored| && stored[i].Some? && stored[j].Some? :: stored[i].value != stored[j].value
  }

  /** `trace` lists what the engine holds before the first call and after each. */
  ghost predicate IsTrace(log: Log, trace: seq<Snapshot>, maxObjects: nat) {
    && Aligned(log, trace) && trace[0] == Snapshot(map[], [], 0, multiset{}) && Separate(log.stored)
    && forall i | 0 <= i < |log.commands| :: StepAt(log, trace, maxObjects, i)
  }

  lemma TraceGrows(log: Log, trace: seq<Snapshot>, maxObjects: nat, c: Command, now: real, missed: bool,
                   stored: Option<ObjCore>, s: Snapshot)
    requires IsTrace(log, trace, maxObjects) && Follows(trace[|trace| - 1], c, now, missed, stored, maxObjects, s)
    requires stored.Some? ==> forall i | 0 <= i < |log.stored| :: log.stored[i] != stored
    ensures IsTrace(Log(log.commands + [c], log.times + [now], log.missed + [missed], log.stored + [stored]),
                    trace + [s], maxObjects)
  {
    var log' := Log(log.commands + [c], log.times + [now], log.missed + [missed], log.stored + [stored]);
    var trace' := trace + [s];
    forall i | 0 <= i < |log'.commands|
      ensures StepAt(log', trace', maxObjects, i)
    {
      if i < |log.commands| {
        assert StepAt(log, trace, maxObjects, i);
      }
    }
  }

  /** A stored object fits the command that stored it. */
  lemma StoredFor(log: Log, trace: seq<Snapshot>, maxObjects: nat, i: nat)
    requires IsTrace(log, trace, maxObjects) && i < |log.stored|
    ensures log.stored[i].Some? <==> log.commands[i].DoStore? && log.commands[i].stored
    ensures log.stored[i].Some? ==> StoredAs(log.stored[i].value, log.commands[i], log.times[i])
  {
    assert StepAt(log, trace, maxObjects, i);
  }

  // ---------------------------------------------------------------- how long an object stays

  /** After `i` calls the engine holds `oc` for `d`. */
  ghost predicate Holds(trace: seq<Snapshot>, i: nat, d: Digest, oc: ObjCore)
    requires i < |trace|
  {
    d in trace[i].objects && oc in trace[i].objects[d]
  }

  ghost predicate LeavesAt(log: Log, trace: seq<Snapshot>, maxObjects: nat, i: nat, d: Digest)
    requires Aligned(log, trace) && i < |log.commands|
  {
    Leaves(trace[i], log.commands[i], log.times[i], log.missed[i], maxObjects, d)
  }

  /** A call that does not store `oc` keeps it exactly when it does not make its digest leave. */
  lemma HoldsNext(log: Log, trace: seq<Snapshot>, maxObjects: nat, i: nat, d: Digest, oc: ObjCore)
    requires IsTrace(log, trace, maxObjects) && i < |log.commands| && log.stored[i] != Some(oc)
    ensures Holds(trace, i + 1, d, oc) <==> Holds(trace, i, d, oc) && !LeavesAt(log, trace, maxObjects, i, d)
  {
    assert StepAt(log, trace, maxObjects, i);
    assert VariantsAfter(trace[i], log.commands[i], log.times[i], log.missed[i], log.stored[i], maxObjects, d,
                         trace[i + 1].objects);
  }

  lemma HoldsStored(log: Log, trace: seq<Snapshot>, maxObjects: nat, i: nat)
    requires IsTrace(log, trace, maxObjects) && i < |log.commands| && log.stored[i].Some?
    ensures log.commands[i].DoStore? && Holds(trace, i + 1, log.commands[i].d, log.stored[i].value)
  {
    StoredFor(log, trace, maxObjects, i);
    assert StepAt(log, trace, maxObjects, i);
    assert VariantsAfter(trace[i], log.commands[i], log.times[i], log.missed[i], log.stored[i], maxObjects,
                         log.commands[i].d, trace[i + 1].objects);
  }

  /**
   * In every run, an object stored by call `i` is held after `n` calls exactly when no call
   * in between made its digest leave: no eviction, no due entry, no removal or purge of it,
   * and no lookup of it that missed.
   */
  lemma {:induction false} StaysExactly(log: Log, trace: seq<Snapshot>, maxObjects: nat, i: nat, n: nat)
    requires IsTrace(log, trace, maxObjects) && i < n <= |log.commands| && log.stored[i].Some?
    requires log.commands[i].DoStore?
    ensures Holds(trace, n, log.commands[i].d, log.stored[i].value) <==>
            forall j | i < j < n :: !LeavesAt(log, trace, maxObjects, j, log.commands[i].d)
    decreases n
  {
    if n == i + 1 {
      HoldsStored(log, trace, maxObjects, i);
    } else {
      StaysExactly(log, trace, maxObjects, i, n - 1);
      HoldsNext(log, trace, maxObjects, n - 1, log.commands[i].d, log.stored[i].value);
    }
  }

  /** And it is held for no other digest. */
  lemma {:induction false} HeldForOwn(log: Log, trace: seq<Snapshot>, maxObjects: nat, n: nat, d: Digest, oc: ObjCore)
    requires IsTrace(log, trace, maxObjects) && n <= |log.commands| && Holds(trace, n, d, oc)
    ensures exists i | 0 <= i < n :: log.stored[i] == Some(oc) && log.commands[i].DoStore? && log.commands[i].d == d
  {
    var i := n - 1;
    assert StepAt(log, trace, maxObjects, i);
    assert VariantsAfter(trace[i], log.commands[i], log.times[i], log.missed[i], log.stored[i], maxObjects, d,
                         trace[n].objects);
    if Holds(trace, i, d, oc) {
      HeldForOwn(log, trace, maxObjects, i, d, oc);
    }
  }

  // ---------------------------------------------------------------- which digest is evicted

  /** Call `i` stored an object for `d`, or found one. */
  ghost predicate UsesAt(log: Log, i: nat, d: Digest)
    requires i < |log.commands| == |log.missed| == |log.stored|
  {
    && Uses(log.commands[i], log.missed[i], log.stored[i]) && !log.commands[i].DoExpire?
    && log.commands[i].d == d
  }

  /** Of the first `n` calls, `i` is the last one to use `d`. */
  ghost predicate LastUse(log: Log, n: nat, d: Digest, i: nat)
    requires n <= |log.commands| == |log.missed| == |log.stored|
  {
    i < n && UsesAt(log, i, d) && forall j | i < j < n :: !UsesAt(log, j, d)
  }

  /** A timestamp is the clock at the digest's last use. */
  lemma {:induction false} StampedAtLastUse(log: Log, trace: seq<Snapshot>, maxObjects: nat, n: nat, x: Item)
    returns (i: nat)
    requires IsTrace(log, trace, maxObjects) && n <= |log.commands| && x in trace[n].recency
    ensures LastUse(log, n, x.digest, i) && trace[i].clock == x.timestamp
  {
    var c, last := log.commands[n - 1], n - 1;
    assert StepAt(log, trace, maxObjects, last);
    if UsesAt(log, last, x.digest) {
      i := last;
    } else {
      i := StampedAtLastUse(log, trace, maxObjects, last, x);
    }
  }

  lemma {:induction false} ClockGrows(log: Log, trace: seq<Snapshot>, maxObjects: nat, i: nat, n: nat)
    requires IsTrace(log, trace, maxObjects) && i <= n <= |log.commands|
    ensures trace[i].clock <= trace[n].clock
  {
    if i < n {
      ClockGrows(log, trace, maxObjects, i, n - 1);
      assert StepAt(log, trace, maxObjects, n - 1);
    }
  }

  lemma {:induction false} AlwaysTracked(log: Log, trace: seq<Snapshot>, maxObjects: nat, n: nat)
    requires IsTrace(log, trace, maxObjects) && n <= |log.commands|
    ensures Recent(trace[n].recency, trace[n].clock) && Tracked(trace[n].objects, trace[n].recency)
  {
    if n > 0 {
      assert StepAt(log, trace, maxObjects, n - 1);
    }
  }

  lemma SuffixHas(r: seq<Item>, k: nat, p: nat)
    requires k <= p < |r|
    ensures HasDigest(r[k..], r[p].digest)
  {
    assert r[k..][p - k] == r[p];
  }

  lemma EvictedIsOlder(r: seq<Item>, clock: nat, k: nat, d: Digest, e: Digest) returns (x: Item, y: Item)
    requires Recent(r, clock) && k <= |r| && HasDigest(r, d) && !HasDigest(r[k..], d) && HasDigest(r[k..], e)
    ensures x in r && y in r && x.digest == d && y.digest == e && x.timestamp < y.timestamp
  {
    var p: nat :| p < |r| && r[p].digest == d;
    var q :| 0 <= q < |r[k..]| && r[k..][q].digest == e;
    x, y := r[p], r[k + q];
    if k <= p {
      SuffixHas(r, k, p);
    }
    assert r[k..][q] == r[k + q];
  }

  /**
   * In every run, when an insertion evicts `d` and keeps `e`, then `d` was last stored or
   * found before `e` was.
   */
  lemma EvictsLeastRecent(log: Log, trace: seq<Snapshot>, maxObjects: nat, n: nat, d: Digest, e: Digest)
    returns (i: nat, j: nat)
    requires IsTrace(log, trace, maxObjects) && n < |log.commands| && log.commands[n].DoStore?
    requires d in trace[n].objects && LeavesAt(log, trace, maxObjects, n, d)
    requires e in trace[n].objects && !LeavesAt(log, trace, maxObjects, n, e)
    ensures LastUse(log, n, d, i) && LastUse(log, n, e, j) && i < j
  {
    AlwaysTracked(log, trace, maxObjects, n);
    var r := trace[n].recency;
    var x, y := EvictedIsOlder(r, trace[n].clock, Surplus(|r|, maxObjects), d, e);
    i := StampedAtLastUse(log, trace, maxObjects, n, x);
    j := StampedAtLastUse(log, trace, maxObjects, n, y);
    if j <= i {
      ClockGrows(log, trace, maxObjects, j, i);
    }
  }

  // ---------------------------------------------------------------- any run on a new engine

  /** What a run promises about the objects left after its first `i` commands. */
  ghost predicate Kept(u: Utf8, commands: seq<Command>, times: seq<real>, i: nat, objects: Variants)
    requires i <= |commands| == |times|
  {
    && (i > 0 && commands[i - 1].DoExpire? ==> NoneOverdue(objects, times[i - 1]))
    && (AllBuilt(u, commands) ==> Originated(u, objects))
  }

  /** `log` and `trace` record the first `i` calls. */
  ghost predicate Recorded(log: Log, trace: seq<Snapshot>, maxObjects: nat, commands: seq<Command>, times: seq<real>,
                           i: nat)
    requires i <= |commands| == |times|
  {
    log.commands == commands[..i] && log.times == times[..i] && IsTrace(log, trace, maxObjects) && |trace| == i + 1
  }

  /** The next call of a run. */
  method Advance(u: Utf8, e: CacheEngine, commands: seq<Command>, times: seq<real>, i: nat, log: Log,
                 ghost trace: seq<Snapshot>) returns (log': Log, ghost trace': seq<Snapshot>)
    requires i < |commands| == |times| && e.Valid() && e.lru.clock < U64_MAX
    requires Recorded(log, trace, e.maxObjects, commands, times, i) && trace[i] == e.View()
    requires Kept(u, commands, times, i, e.objects)
    modifies e`objects, e.lru, e.lru.repr, e.expiry
    ensures e.Valid() && fresh(e.lru.repr - old(e.lru.repr)) && e.lru.clock <= old(e.lru.clock) + 1
    ensures Recorded(log', trace', e.maxObjects, commands, times, i + 1) && trace'[i + 1] == e.View()
    ensures Kept(u, commands, times, i + 1, e.objects)
  {
    var missed, stored := e.Apply(u, commands[i], times[i]);
    TraceGrows(log, trace, e.maxObjects, commands[i], times[i], missed, stored, e.View());
    log' := Log(log.commands + [commands[i]], log.times + [times[i]], log.missed + [missed], log.stored + [stored]);
    trace' := trace + [e.View()];
  }

  lemma NothingYet(u: Utf8, commands: seq<Command>, times: seq<real>, maxObjects: nat)
    requires |commands| == |times|
    ensures Recorded(Log([], [], [], []), [Snapshot(map[], [], 0, multiset{})], maxObjects, commands, times, 0)
    ensures Kept(u, commands, times, 0, map[])
  {
  }

  method RunAll(u: Utf8, e: CacheEngine, commands: seq<Command>, times: seq<real>)
    returns (log: Log, ghost trace: seq<Snapshot>)
    requires |times| == |commands| < U64_MAX && e.Valid() && e.View() == Snapshot(map[], [], 0, multiset{})
    modifies e`objects, e.lru, e.lru.repr, e.expiry
    ensures e.Valid() && Kept(u, commands, times, |commands|, e.objects)
    ensures Recorded(log, trace, e.maxObjects, commands, times, |commands|) && trace[|commands|] == e.View()
  {
    log, trace := Log([], [], [], []), [e.View()];
    NothingYet(u, commands, times, e.maxObjects);
    for i := 0 to |commands|
      invariant e.Valid() && e.lru.clock <= i && fresh(e.lru.repr - old(e.lru.repr))
      invariant Kept(u, commands, times, i, e.objects)
      invariant Recorded(log, trace, e.maxObjects, commands, times, i) && trace[i] == e.View()
    {
      log, trace := Advance(u, e, commands, times, i, log, trace);
    }
  }

  /**
   * Any run of calls on a new engine, each at its own time: the engine is consistent and
   * within its limit at the end, right after an expiry no live deadline has passed, when all
   * stored Vary data was built from responses, so is all there is, and every object stays as
   * `StaysExactly` says.
   */
  method RunCommands(u: Utf8, maxObjects: nat, commands: seq<Command>, times: seq<real>)
    returns (e: CacheEngine, log: Log, ghost trace: seq<Snapshot>)
    requires |times| == |commands| < U64_MAX
    ensures fresh(e) && e.maxObjects == maxObjects && e.Valid() &&
            |e.objects| <= if maxObjects == 0 then 1 else maxObjects
    ensures commands != [] && commands[|commands| - 1].DoExpire? ==>
              NoneOverdue(e.objects, times[|times| - 1])
    ensures AllBuilt(u, commands) ==> Originated(u, e.objects)
    ensures log.commands == commands && log.times == times && IsTrace(log, trace, maxObjects)
    ensures trace[|commands|] == e.View()
  {
    e := new CacheEngine(maxObjects);
    log, trace := RunAll(u, e, commands, times);
    assert commands[..|commands|] == commands && times[..|commands|] == times;
    e.Bounded();
  }

  // ---------------------------------------------------------------- grace

  /** Every pending entry of `d` is that of a live object in grace which is kept no shorter. */
  ghost predicate OnlyGrace(objects: Variants, pending: multiset<Entry>, d: Digest, now: real) {
    forall e | e in pending && e.oc.digest == d ::
      d in objects && e.oc in objects[d] && InGrace(e.oc, now) && e.oc.grace >= 0.0 && e.oc.keep >= 0.0
  }

  lemma GraceNotDue(objects: Variants, pending: multiset<Entry>, d: Digest, now: real)
    requires OnTime(pending) && OnlyGrace(objects, pending, d, now)
    ensures !Due(pending, d, now)
  {
    forall e | e in pending && e.oc.digest == d
      ensures e.when > now
    {
      DueAfterServed(e.oc, now);
    }
  }

  /** Objects in grace survive an expiry run, and are then served in grace. */
  method GraceOutlivesExpiry(u: Utf8, e: CacheEngine, d: Digest, headers: Option<seq<Header>>, now: real)
    returns (r: LookupResult)
    requires e.Valid() && e.lru.clock < U64_MAX && d in e.objects
    requires OnlyGrace(e.objects, e.expiry.Pending(), d, now)
    requires exists oc | oc in e.objects[d] :: Considered(u, oc, headers) && Servable(oc)
    requires forall oc | oc in e.objects[d] :: oc !in e.lru.repr
    modifies e`objects, e.lru, e.lru.repr, e.expiry
    ensures e.Valid() && d in e.objects && e.objects[d] == old(e.objects)[d]
    ensures r.Grace? && r.oc in old(e.objects)[d] && InGrace(r.oc, now)
  {
    GraceNotDue(e.objects, e.expiry.Pending(), d, now);
    forall oc | oc in e.objects[d]
      ensures InGrace(oc, now)
    {
      assert Entry(oc.Deadline(), oc) in e.expiry.Pending();
    }
    var n := e.ExpireObjects(now);
    r := e.Lookup(u, d, headers, now);
  }

  /** On a new engine: stored at time 0 for 120 seconds and 10 of grace, an object is served at 121, after expiry. */
  method StoredThenGraced(u: Utf8, d: Digest, headers: Option<seq<Header>>) returns (oc: ObjCore, r: LookupResult)
    ensures r == Grace(oc)
  {
    var e;
    e, oc := StoreOne(10, d, 120.0, 10.0, 0.0, None, 0.0);
    r := GraceOutlivesExpiry(u, e, d, headers, 121.0);
  }

  // ---------------------------------------------------------------- two variants

  lemma SecondBehindFirst(d: Digest, a: ObjCore, b: ObjCore, after: Variants)
    requires Inserted(map[d := [a]], [Item(d, 0)], d, Some(b), after)
    ensures after == map[d := [a, b]]
  {
    assert HasDigest([Item(d, 0)], d) by { assert [Item(d, 0)][0].digest == d; }
    assert after[d] == [a] + [b] == [a, b] && forall x :: x in after <==> x == d;
  }

  /** The engine holds a second variant of `d` behind the first. */
  method StoreSecond(e: CacheEngine, d: Digest, a: ObjCore, vary: seq<byte>) returns (b: ObjCore)
    requires e.Valid() && e.lru.clock == 1 && e.maxObjects == 10
    requires e.objects == map[d := [a]] && e.lru.recency == [Item(d, 0)]
    modifies e`objects, e.lru, e.lru.repr, e.expiry
    ensures e.Valid() && e.lru.clock == 2 && fresh(e.lru.repr - old(e.lru.repr)) && e.objects == map[d := [a, b]]
    ensures fresh(b) && b !in e.lru.repr && b.flags == {} && b.vary == Some(vary) && Fresh(b, 2.0)
  {
    assert e.lru.recency[Surplus(1, 10)..] == [Item(d, 0)];
    var r := e.Insert(d, 100.0, 0.0, 0.0, Some(vary), true, 1.0);
    b := r.value;
    SecondBehindFirst(d, a, b, e.objects);
  }

  method StoreTwo(d: Digest, first: seq<byte>, second: seq<byte>) returns (e: CacheEngine, a: ObjCore, b: ObjCore)
    ensures fresh(e) && fresh(e.lru) && fresh(e.lru.repr) && fresh(e.expiry) && e.Valid() && e.lru.clock == 2
    ensures fresh(a) && fresh(b) && a != b && a !in e.lru.repr && b !in e.lru.repr && a.flags == b.flags == {}
    ensures a.vary == Some(first) && b.vary == Some(second) && Fresh(a, 2.0) && Fresh(b, 2.0)
    ensures e.objects == map[d := [a, b]]
  {
    e, a := StoreOne(10, d, 100.0, 0.0, 0.0, Some(first), 0.0);
    b := StoreSecond(e, d, a, second);
  }

  /** A lookup answers with the first variant that is a hit. */
  method LookupFirstHit(u: Utf8, e: CacheEngine, d: Digest, headers: Option<seq<Header>>, now: real, i: nat)
    returns (r: LookupResult)
    requires e.Valid() && e.lru.clock < U64_MAX && d in e.objects && i < |e.objects[d]|
    requires HitAt(u, e.objects[d], headers, now, i)
    requires forall j | 0 <= j < i :: !HitAt(u, e.objects[d], headers, now, j)
    modifies e`objects, e.lru, e.lru.repr
    ensures r == Hit(old(e.objects)[d][i]) && e.Valid() && e.objects == old(e.objects)
    ensures e.lru.repr == old(e.lru.repr) && e.lru.clock == old(e.lru.clock) + 1
  {
    r := e.Lookup(u, d, headers, now);
  }

  /** Each of two requests is answered from its own variant. */
  method AskBoth(u: Utf8, e: CacheEngine, d: Digest, a: ObjCore, b: ObjCore, x: seq<Header>, y: seq<Header>)
    returns (one: LookupResult, two: LookupResult)
    requires e.Valid() && e.lru.clock < 10 && d in e.objects && e.objects[d] == [a, b]
    requires a !in e.lru.repr && b !in e.lru.repr && Servable(a) && Servable(b) && Fresh(a, 2.0) && Fresh(b, 2.0)
    requires Considered(u, a, Some(x)) && Considered(u, b, Some(y)) && !Considered(u, a, Some(y))
    modifies e`objects, e.lru, e.lru.repr
    ensures one == Hit(a) && two == Hit(b)
  {
    one := LookupFirstHit(u, e, d, Some(x), 2.0, 0);
    two := LookupFirstHit(u, e, d, Some(y), 2.0, 1);
  }

  /**
   * On a new engine: responses with `Vary: a` are stored for requests with `a: 1` and with
   * `a: 2`. Both requests hit, each its own.
   */
  method BothVariantsHit(u: Utf8, d: Digest) returns (a: ObjCore, b: ObjCore, one: LookupResult, two: LookupResult)
    requires Inverse(u) && ByteSized(u)
    ensures a != b && one == Hit(a) && two == Hit(b)
  {
    var first := BuildVaryData(u, Some("a"), ONE);
    var second := BuildVaryData(u, Some("a"), TWO);
    TwoRequests(u, ONE, TWO);
    TwoRequests(u, TWO, ONE);
    var e;
    e, a, b := StoreTwo(d, first.value, second.value);
    one, two := AskBoth(u, e, d, a, b, ONE, TWO);
  }
}
