/**
 * The expiry queue (crates/rv-cache/src/expire.rs): sixteen priority queues of deadlines.
 * A binary heap is foreign code; here a queue is a sequence from which an entry with the
 * least deadline is taken.
 */
module Expiry {
  import opened Types
  import opened Recency
  import opened Objects

  const N_EXPIRY_SHARDS: nat := 16

  datatype Entry = Entry(when: real, oc: ObjCore)

  function ShardOf(d: Digest): (i: nat)
    ensures i < N_EXPIRY_SHARDS
  {
    d.bytes[0] % N_EXPIRY_SHARDS
  }

  /** Where an entry with the least deadline is. */
  function MinIndex(heap: seq<Entry>): (k: nat)
    requires heap != []
    ensures k < |heap| && forall j | 0 <= j < |heap| :: heap[k].when <= heap[j].when
  {
    var n := |heap| - 1;
    if n == 0 then 0
    else
      var k := MinIndex(heap[..n]);
      assert forall j | 0 <= j < n :: heap[j] == heap[..n][j];
      if heap[n].when < heap[k].when then n else k
  }

  /** The entries of the first `n` shards together. */
  ghost function Sum(shards: seq<seq<Entry>>, n: nat): multiset<Entry>
    requires n <= |shards|
  {
    if n == 0 then multiset{} else Sum(shards, n - 1) + multiset(shards[n - 1])
  }

  lemma {:induction false} SumElsewhere(shards: seq<seq<Entry>>, n: nat, i: nat, h: seq<Entry>)
    requires n <= i < |shards|
    ensures Sum(shards[i := h], n) == Sum(shards, n)
  {
    if n > 0 {
      SumElsewhere(shards, n - 1, i, h);
    }
  }

  lemma {:induction false} SumUpdate(shards: seq<seq<Entry>>, n: nat, i: nat, h: seq<Entry>)
    requires i < n <= |shards|
    ensures Sum(shards[i := h], n) + multiset(shards[i]) == Sum(shards, n) + multiset(h)
  {
    if i == n - 1 {
      SumElsewhere(shards, n - 1, i, h);
      Swap(Sum(shards, n - 1), multiset(h), multiset(shards[i]));
    } else {
      SumUpdate(shards, n - 1, i, h);
      var last := multiset(shards[n - 1]);
      Swap(Sum(shards[i := h], n - 1), last, multiset(shards[i]));
      Swap(Sum(shards, n - 1), last, multiset(h));
    }
  }

  lemma Swap(a: multiset<Entry>, b: multiset<Entry>, c: multiset<Entry>)
    ensures (a + b) + c == (a + c) + b
  {
  }

  lemma CancelCommon(x: multiset<Entry>, y: multiset<Entry>, a: multiset<Entry>)
    requires x + a == y + a
    ensures x == y
  {
    forall e | e in x + y
      ensures x[e] == y[e]
    {
      assert (x + a)[e] == (y + a)[e];
    }
  }

  lemma WithoutMultiset<T>(s: seq<T>, k: nat)
    requires k < |s|
    ensures multiset(Without(s, k)) + multiset{s[k]} == multiset(s)
  {
    assert s == s[..k] + [s[k]] + s[k + 1..];
  }

  /** The entries whose deadline has passed, and those whose deadline has not. */
  ghost predicate SplitAt(before: multiset<Entry>, due: multiset<Entry>, kept: multiset<Entry>, now: real) {
    && before == due + kept
    && (forall e | e in due :: e.when <= now)
    && (forall e | e in kept :: e.when > now)
  }

  /** Every entry falls due when its object's lifetime, grace and keep are over. */
  ghost predicate OnTime(pending: multiset<Entry>) {
    forall e | e in pending :: e.when == e.oc.tOrigin + e.oc.ttl + e.oc.grace + e.oc.keep
  }

  class ExpiryManager {
    var shards: seq<seq<Entry>>

    ghost predicate Valid()
      reads this
    {
      |shards| == N_EXPIRY_SHARDS
    }

    /** All pending deadlines. */
    ghost function Pending(): multiset<Entry>
      requires Valid()
      reads this
    {
      Sum(shards, |shards|)
    }

    constructor ()
      ensures Valid() && Pending() == multiset{}
    {
      shards := seq(N_EXPIRY_SHARDS, _ => []);
      new;
      EmptySum(shards, |shards|);
    }

    /** Schedule the object at the end of its lifetime, grace and keep. */
    method Insert(oc: ObjCore)
      requires Valid()
      modifies this
      ensures Valid()
      ensures Pending() == old(Pending()) + multiset{Entry(oc.tOrigin + oc.ttl + oc.grace + oc.keep, oc)}
    {
      var when := oc.tOrigin + oc.ttl + oc.grace + oc.keep;
      var idx := ShardOf(oc.digest);
      SumUpdate(shards, |shards|, idx, shards[idx] + [Entry(when, oc)]);
      CancelCommon(Sum(shards[idx := shards[idx] + [Entry(when, oc)]], |shards|),
             Sum(shards, |shards|) + multiset{Entry(when, oc)}, multiset(shards[idx]));
      shards := shards[idx := shards[idx] + [Entry(when, oc)]];
    }

    /** The earliest deadline. */
    method PeekWhen() returns (r: Option<real>)
      requires Valid()
      ensures r.None? <==> Pending() == multiset{}
      ensures r.Some? ==> (exists e :: e in Pending() && e.when == r.value) && forall e :: e in Pending() ==>
              r.value <= e.when
    {
      r := None;
      for i := 0 to |shards|
        invariant r.None? ==> Sum(shards, i) == multiset{}
        invariant r.Some? ==> (exists e :: e in Sum(shards, i) && e.when == r.value) && forall e ::
                e in Sum(shards, i) ==> r.value <= e.when
      {
        if shards[i] != [] {
          var top := shards[i][MinIndex(shards[i])];
          assert top in shards[i] && top in Sum(shards, i + 1);
          if r.None? || r.value > top.when {
            r := Some(top.when);
          }
        }
      }
    }

    /** Pop every due entry of one shard. */
    method DrainShard(heap: seq<Entry>, now: real) returns (rest: seq<Entry>, due: seq<Entry>)
      ensures SplitAt(multiset(heap), multiset(due), multiset(rest), now)
    {
      rest, due := heap, [];
      while rest != []
        invariant multiset(heap) == multiset(due) + multiset(rest)
        invariant forall e | e in multiset(due) :: e.when <= now
        decreases |rest|
      {
        var k := MinIndex(rest);
        if rest[k].when > now {
          break;
        }
        WithoutMultiset(rest, k);
        due := due + [rest[k]];
        rest := Without(rest, k);
      }
      if rest != [] {
        var k := MinIndex(rest);
        assert forall e | e in multiset(rest) :: e in rest;
      }
    }

    /** Remove every entry whose deadline has passed; their objects are returned. */
    method Expire(now: real) returns (due: seq<Entry>)
      requires Valid()
      modifies this
      ensures Valid() && SplitAt(old(Pending()), multiset(due), Pending(), now)
    {
      due := [];
      for i := 0 to |shards|
        invariant Valid() && old(Pending()) == multiset(due) + Pending()
        invariant forall e | e in multiset(due) :: e.when <= now
        invariant forall j, e | 0 <= j < i && e in shards[j] :: e.when > now
      {
        var rest, popped := DrainShard(shards[i], now);
        SumUpdate(shards, |shards|, i, rest);
        CancelCommon(multiset(popped) + Sum(shards[i := rest], |shards|), Sum(shards, |shards|), multiset(rest));
        assert forall e | e in rest :: e in multiset(rest);
        due := due + popped;
        shards := shards[i := rest];
      }
      forall e | e in Pending()
        ensures e.when > now
      {
        InSum(shards, |shards|, e);
      }
    }
  }

  lemma {:induction false} EmptySum(shards: seq<seq<Entry>>, n: nat)
    requires n <= |shards| && forall i | 0 <= i < |shards| :: shards[i] == []
    ensures Sum(shards, n) == multiset{}
  {
    if n > 0 {
      EmptySum(shards, n - 1);
    }
  }

  lemma {:induction false} InSum(shards: seq<seq<Entry>>, n: nat, e: Entry)
    requires n <= |shards| && e in Sum(shards, n)
    ensures exists j | 0 <= j < n :: e in shards[j]
  {
    if e !in shards[n - 1] {
      InSum(shards, n - 1, e);
    }
  }
}
