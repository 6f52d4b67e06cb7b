/**
 * The consistent-hash director (crates/rv-backend/src/shard_director.rs). The hash of
 * "{name}-{replica}" is an arbitrary 64-bit function of the two; a backend's health is given
 * at the time of the call.
 */
module HashRing {
  import opened Types
  import opened Recency

  const RING_SIZE: nat := 0x1_0000_0000_0000_0000

  type u64 = x: int | 0 <= x < RING_SIZE

  type HashFn = (string, nat) -> u64

  /** A virtual node: its place on the ring and the backend it stands for. */
  datatype Point = Point(hash: u64, backend: nat)

  // ---------------------------------------------------------------- the points

  /** The virtual nodes of one backend. */
  function PointsFor(h: HashFn, name: string, backend: nat, replicas: nat): (s: seq<Point>)
    ensures |s| == replicas
  {
    if replicas == 0 then [] else PointsFor(h, name, backend, replicas - 1) + [Point(h(name, replicas - 1), backend)]
  }

  /** The virtual nodes of the first `n` backends. */
  function PointsOf(h: HashFn, names: seq<string>, n: nat, replicas: nat): (s: seq<Point>)
    requires n <= |names|
  {
    if n == 0 then [] else PointsOf(h, names, n - 1, replicas) + PointsFor(h, names[n - 1], n - 1, replicas)
  }

  /** `p` is the virtual node of backend `i` with replica number `r`. */
  predicate IsPoint(h: HashFn, names: seq<string>, replicas: nat, p: Point, r: nat) {
    p.backend < |names| && r < replicas && p.hash == h(names[p.backend], r)
  }

  lemma {:induction false} PointsForMember(h: HashFn, name: string, backend: nat, replicas: nat, p: Point)
    ensures p in PointsFor(h, name, backend, replicas) <==>
              p.backend == backend && exists r: nat | r < replicas :: p.hash == h(name, r)
  {
    if replicas > 0 {
      PointsForMember(h, name, backend, replicas - 1, p);
    }
  }

  lemma {:induction false} PointsOfMember(h: HashFn, names: seq<string>, n: nat, replicas: nat, p: Point)
    requires n <= |names|
    ensures p in PointsOf(h, names, n, replicas) <==>
            p.backend < n && exists r: nat :: IsPoint(h, names, replicas, p, r)
  {
    if n > 0 {
      PointsOfMember(h, names, n - 1, replicas, p);
      PointsForMember(h, names[n - 1], n - 1, replicas, p);
      if p.backend == n - 1 {
        PointOfBackend(h, names, replicas, p);
      }
    }
  }

  lemma PointOfBackend(h: HashFn, names: seq<string>, replicas: nat, p: Point)
    requires p.backend < |names|
    ensures (exists r: nat :: IsPoint(h, names, replicas, p, r)) <==>
            exists r: nat | r < replicas :: p.hash == h(names[p.backend], r)
  {
    if r: nat :| r < replicas && p.hash == h(names[p.backend], r) {
      assert IsPoint(h, names, replicas, p, r);
    }
  }

  // ---------------------------------------------------------------- sorting

  ghost predicate SortedByHash(ring: seq<Point>) {
    forall i, j | 0 <= i < j < |ring| :: ring[i].hash <= ring[j].hash
  }

  function InsertByHash(ring: seq<Point>, p: Point): seq<Point> {
    if ring != [] && ring[|ring| - 1].hash > p.hash then InsertByHash(ring[..|ring| - 1], p) + [ring[|ring| - 1]]
    else ring + [p]
  }

  /** A stable sort by hash. */
  function SortByHash(points: seq<Point>): seq<Point> {
    if points == [] then [] else InsertByHash(SortByHash(points[..|points| - 1]), points[|points| - 1])
  }

  lemma {:induction false} InsertContents(ring: seq<Point>, p: Point)
    ensures multiset(InsertByHash(ring, p)) == multiset(ring) + multiset{p}
  {
    if ring != [] && ring[|ring| - 1].hash > p.hash {
      var n := |ring| - 1;
      InsertContents(ring[..n], p);
      assert ring == ring[..n] + [ring[n]];
    }
  }

  lemma {:induction false} InsertSorted(ring: seq<Point>, p: Point)
    requires SortedByHash(ring)
    ensures SortedByHash(InsertByHash(ring, p))
    ensures forall i | 0 <= i < |InsertByHash(ring, p)| ::
            InsertByHash(ring, p)[i] == p || InsertByHash(ring, p)[i] in ring
  {
    if ring != [] && ring[|ring| - 1].hash > p.hash {
      InsertSorted(ring[..|ring| - 1], p);
    }
  }

  lemma {:induction false} SortContents(points: seq<Point>)
    ensures multiset(SortByHash(points)) == multiset(points)
  {
    if points != [] {
      var n := |points| - 1;
      SortContents(points[..n]);
      InsertContents(SortByHash(points[..n]), points[n]);
      LastApart(points);
    }
  }

  lemma LastApart(points: seq<Point>)
    requires points != []
    ensures multiset(points) == multiset(points[..|points| - 1]) + multiset{points[|points| - 1]}
  {
    assert points == points[..|points| - 1] + [points[|points| - 1]];
  }

  lemma {:induction false} SortSorted(points: seq<Point>)
    ensures SortedByHash(SortByHash(points))
  {
    if points != [] {
      var n := |points| - 1;
      SortSorted(points[..n]);
      InsertSorted(SortByHash(points[..n]), points[n]);
    }
  }

  /** What `build_ring` makes. */
  ghost predicate IsRing(h: HashFn, names: seq<string>, replicas: nat, ring: seq<Point>) {
    SortedByHash(ring) && multiset(ring) == multiset(PointsOf(h, names, |names|, replicas))
  }

  // ---------------------------------------------------------------- clockwise distance

  /** How far clockwise from the key. */
  function Distance(key: u64, hash: u64): nat {
    if hash >= key then hash - key else hash + RING_SIZE - key
  }

  /** `p` stands for a healthy backend and no such point is nearer. */
  ghost predicate Nearest(ring: seq<Point>, healthy: seq<bool>, key: u64, p: Point) {
    && p in ring && p.backend < |healthy| && healthy[p.backend]
    && forall q | q in ring && q.backend < |healthy| && healthy[q.backend] ::
        Distance(key, p.hash) <= Distance(key, q.hash)
  }

  ghost predicate DistinctHashes(ring: seq<Point>) {
    forall i, j | 0 <= i < j < |ring| :: ring[i].hash != ring[j].hash
  }

  /** Where the search for the key ends, on a sorted ring. */
  ghost predicate IsStart(ring: seq<Point>, key: u64, start: nat) {
    && start < |ring|
    && (|| (start == 0 && forall i | 0 <= i < |ring| :: ring[i].hash < key)
        || (&& (forall i | start <= i < |ring| :: ring[i].hash >= key)
            && (ring[start].hash == key || forall i | 0 <= i < start :: ring[i].hash < key)))
  }

  function Wrap(start: nat, offset: nat, n: nat): nat {
    if start + offset < n then start + offset else start + offset - n
  }

  lemma WrapIsMod(start: nat, offset: nat, n: nat)
    requires start < n && offset < n
    ensures (start + offset) % n == Wrap(start, offset, n) < n
  {
    if start + offset >= n {
      assert (start + offset - n) % n == start + offset - n;
      assert (start + offset) / n == 1;
    }
  }

  /** Walking on from the start, the distance from the key grows. */
  lemma WalkGrows(ring: seq<Point>, key: u64, start: nat, a: nat, b: nat)
    requires SortedByHash(ring) && DistinctHashes(ring) && IsStart(ring, key, start) && a < b < |ring|
    ensures var i, j := Wrap(start, a, |ring|), Wrap(start, b, |ring|);
            Distance(key, ring[i].hash) < Distance(key, ring[j].hash)
  {
    var i, j := Wrap(start, a, |ring|), Wrap(start, b, |ring|);
    assert i < j ==> ring[i].hash < ring[j].hash;
    assert j < i ==> ring[j].hash < ring[i].hash;
    assert i < start ==> ring[i].hash < ring[start].hash;
    assert j < start ==> ring[j].hash < ring[start].hash;
  }

  // ---------------------------------------------------------------- counting visited backends

  function CountTrue(s: seq<bool>): (n: nat)
    ensures n <= |s|
  {
    if s == [] then 0 else CountTrue(s[..|s| - 1]) + if s[|s| - 1] then 1 else 0
  }

  lemma {:induction false} CountTrueUpdate(s: seq<bool>, i: nat)
    requires i < |s| && !s[i]
    ensures CountTrue(s[i := true]) == CountTrue(s) + 1
  {
    var n := |s| - 1;
    if i == n {
      assert s[i := true][..n] == s[..n];
    } else {
      CountTrueUpdate(s[..n], i);
      assert s[i := true][..n] == s[..n][i := true];
    }
  }

  lemma {:induction false} CountTrueAll(s: seq<bool>)
    requires CountTrue(s) == |s|
    ensures forall i | 0 <= i < |s| :: s[i]
  {
    if s != [] {
      var n := |s| - 1;
      CountTrueAll(s[..n]);
      assert forall i | 0 <= i < n :: s[i] == s[..n][i];
    }
  }

  lemma {:induction false} CountTrueNone(n: nat)
    ensures CountTrue(seq(n, _ => false)) == 0
  {
    if n > 0 {
      CountTrueNone(n - 1);
      assert seq(n, _ => false)[..n - 1] == seq(n - 1, _ => false);
    }
  }

  // ---------------------------------------------------------------- the director

  ghost predicate InRange(ring: seq<Point>, n: nat) {
    forall p | p in ring :: p.backend < n
  }

  ghost predicate AllSick(ring: seq<Point>, healthy: seq<bool>) {
    forall p | p in ring && p.backend < |healthy| :: !healthy[p.backend]
  }

  /** What the director answers, said of the points and not of the walk. */
  ghost predicate Resolves(ring: seq<Point>, healthy: seq<bool>, key: u64, r: Option<nat>) {
    match r
    case None => AllSick(ring, healthy)
    case Some(b) =>
      && b < |healthy| && healthy[b] && (exists p | p in ring :: p.backend == b)
      && (DistinctHashes(ring) ==> exists p | Nearest(ring, healthy, key, p) :: p.backend == b)
  }

  /** The ring's points are exactly the virtual nodes. */
  lemma RingPoints(h: HashFn, names: seq<string>, replicas: nat, ring: seq<Point>, p: Point)
    requires multiset(ring) == multiset(PointsOf(h, names, |names|, replicas))
    ensures p in ring <==> exists r: nat :: IsPoint(h, names, replicas, p, r)
  {
    PointsOfMember(h, names, |names|, replicas, p);
    var all := PointsOf(h, names, |names|, replicas);
    assert p in ring <==> p in multiset(ring);
    assert p in all <==> p in multiset(all);
  }

  lemma RingInRange(h: HashFn, names: seq<string>, replicas: nat, ring: seq<Point>)
    requires multiset(ring) == multiset(PointsOf(h, names, |names|, replicas))
    ensures InRange(ring, |names|)
  {
    forall p | p in ring
      ensures p.backend < |names|
    {
      RingPoints(h, names, replicas, ring, p);
    }
  }

  /** Every point passed so far stands for a sick backend. */
  ghost predicate Passed(ring: seq<Point>, healthy: seq<bool>, start: nat, offset: nat)
    requires start < |ring| && offset <= |ring|
  {
    forall o | 0 <= o < offset :: SickAt(ring, healthy, Wrap(start, o, |ring|))
  }

  ghost predicate SickAt(ring: seq<Point>, healthy: seq<bool>, i: nat) {
    i < |ring| && ring[i].backend < |healthy| && !healthy[ring[i].backend]
  }

  lemma PassedAll(ring: seq<Point>, healthy: seq<bool>, start: nat)
    requires start < |ring| && Passed(ring, healthy, start, |ring|)
    ensures AllSick(ring, healthy)
  {
    forall p | p in ring && p.backend < |healthy|
      ensures !healthy[p.backend]
    {
      var i: nat :| i < |ring| && ring[i] == p;
      var o: nat := if i >= start then i - start else i + |ring| - start;
      assert Wrap(start, o, |ring|) == i;
      assert SickAt(ring, healthy, i);
    }
  }

  /** Every backend marked as seen is sick. */
  ghost predicate SeenSick(seen: seq<bool>, healthy: seq<bool>) {
    |seen| == |healthy| && forall b | 0 <= b < |seen| :: seen[b] ==> !healthy[b]
  }

  lemma AllVisited(ring: seq<Point>, seen: seq<bool>, healthy: seq<bool>)
    requires SeenSick(seen, healthy) && CountTrue(seen) == |seen|
    ensures AllSick(ring, healthy)
  {
    CountTrueAll(seen);
    forall p | p in ring && p.backend < |healthy|
      ensures !healthy[p.backend]
    {
      assert seen[p.backend];
    }
  }

  /** The first healthy point of the walk is the nearest. */
  lemma FirstHealthyIsNearest(ring: seq<Point>, healthy: seq<bool>, key: u64, start: nat, offset: nat)
    requires SortedByHash(ring) && DistinctHashes(ring) && IsStart(ring, key, start) && offset < |ring|
    requires Passed(ring, healthy, start, offset)
    requires var p := ring[Wrap(start, offset, |ring|)]; p.backend < |healthy| && healthy[p.backend]
    ensures Nearest(ring, healthy, key, ring[Wrap(start, offset, |ring|)])
  {
    var p := ring[Wrap(start, offset, |ring|)];
    forall q | q in ring && q.backend < |healthy| && healthy[q.backend]
      ensures Distance(key, p.hash) <= Distance(key, q.hash)
    {
      var i: nat :| i < |ring| && ring[i] == q;
      var o: nat := if i >= start then i - start else i + |ring| - start;
      assert Wrap(start, o, |ring|) == i;
      assert o < offset ==> SickAt(ring, healthy, i);
      if offset < o {
        WalkGrows(ring, key, start, offset, o);
      }
    }
  }

  lemma WalkResolves(ring: seq<Point>, healthy: seq<bool>, key: u64, start: nat, offset: nat)
    requires SortedByHash(ring) && IsStart(ring, key, start) && offset < |ring| && Passed(ring, healthy, start, offset)
    requires var p := ring[Wrap(start, offset, |ring|)]; p.backend < |healthy| && healthy[p.backend]
    ensures Resolves(ring, healthy, key, Some(ring[Wrap(start, offset, |ring|)].backend))
  {
    if DistinctHashes(ring) {
      FirstHealthyIsNearest(ring, healthy, key, start, offset);
    }
  }

  class ShardDirector {
    const h: HashFn
    const replicas: nat
    var ring: seq<Point>
    var names: seq<string>

    ghost predicate Valid()
      reads this
    {
      IsRing(h, names, replicas, ring)
    }

    constructor (h: HashFn, names: seq<string>, replicas: nat)
      ensures Valid() && this.h == h && this.names == names && this.replicas == replicas
    {
      this.h := h;
      this.replicas := replicas;
      this.names := names;
      var r := BuildRing(h, names, replicas);
      ring := r;
    }

    static method BuildRing(h: HashFn, names: seq<string>, replicas: nat) returns (ring: seq<Point>)
      ensures IsRing(h, names, replicas, ring)
    {
      ring := [];
      for idx := 0 to |names|
        invariant ring == PointsOf(h, names, idx, replicas)
      {
        for r := 0 to replicas
          invariant ring == PointsOf(h, names, idx, replicas) + PointsFor(h, names[idx], idx, r)
        {
          ring := ring + [Point(h(names[idx], r), idx)];
        }
      }
      SortSorted(ring);
      SortContents(ring);
      ring := SortByHash(ring);
    }

    method SetBackends(names: seq<string>)
      modifies this
      ensures Valid() && this.names == names
    {
      var r := BuildRing(h, names, replicas);
      ring := r;
      this.names := names;
    }

    /** A binary search by hash: some point with that hash, or where one would go. */
    method Search(key: u64) returns (found: bool, pos: nat)
      requires Valid()
      ensures pos <= |ring| && (found ==> pos < |ring| && ring[pos].hash == key)
      ensures !found ==> forall i | 0 <= i < pos :: ring[i].hash < key
      ensures !found ==> forall i | pos <= i < |ring| :: ring[i].hash > key
    {
      var lo, hi := 0, |ring|;
      while lo < hi
        invariant 0 <= lo <= hi <= |ring|
        invariant (forall i | 0 <= i < lo :: ring[i].hash < key) && (forall i | hi <= i < |ring| :: ring[i].hash > key)
      {
        var mid := (lo + hi) / 2;
        if ring[mid].hash == key {
          return true, mid;
        } else if ring[mid].hash < key {
          lo := mid + 1;
        } else {
          hi := mid;
        }
      }
      return false, lo;
    }

    /** The first point at or after the key, wrapping around. */
    method StartOf(key: u64) returns (start: nat)
      requires Valid() && ring != []
      ensures IsStart(ring, key, start)
    {
      var found, pos := Search(key);
      start := if pos >= |ring| then 0 else pos;
    }

    /** Walk clockwise from `start` to the first healthy backend, stopping once all have been tried. */
    method Walk(start: nat, healthy: seq<bool>) returns (r: Option<nat>, ghost offset: nat)
      requires start < |ring| && |healthy| == |names| > 0 && InRange(ring, |names|)
      ensures r.None? ==> AllSick(ring, healthy)
      ensures r.Some? ==>
                && offset < |ring| && Passed(ring, healthy, start, offset)
                && r.value == ring[Wrap(start, offset, |ring|)].backend && r.value < |healthy| && healthy[r.value]
    {
      var seen := seq(|names|, _ => false);
      var distinctVisited := 0;
      CountTrueNone(|names|);
      offset := 0;
      for o := 0 to |ring|
        invariant |seen| == |names| && distinctVisited == CountTrue(seen) < |names|
        invariant SeenSick(seen, healthy)
        invariant Passed(ring, healthy, start, o)
      {
        WrapIsMod(start, o, |ring|);
        var idx := (start + o) % |ring|;
        var backend := ring[idx].backend;
        if backend < |names| {
          if healthy[backend] {
            return Some(backend), o;
          }
          if !seen[backend] {
            CountTrueUpdate(seen, backend);
            seen := seen[backend := true];
            distinctVisited := distinctVisited + 1;
            if distinctVisited >= |names| {
              AllVisited(ring, seen, healthy);
              return None, o;
            }
          }
        }
      }
      PassedAll(ring, healthy, start);
      return None, 0;
    }

    /**
     * Nothing is resolved exactly when every point stands for a sick backend; otherwise, with
     * distinct hashes, the healthy point nearest to the key decides.
     */
    method ResolveWithHash(key: u64, healthy: seq<bool>) returns (r: Option<nat>)
      requires Valid() && |healthy| == |names|
      ensures Resolves(ring, healthy, key, r)
    {
      RingInRange(h, names, replicas, ring);
      if |ring| == 0 || |names| == 0 {
        return None;
      }
      var start := StartOf(key);
      ghost var offset;
      r, offset := Walk(start, healthy);
      if r.Some? {
        WalkResolves(ring, healthy, key, start, offset);
      }
    }
  }

  // ---------------------------------------------------------------- removing a backend

  /** No two virtual nodes share a place. */
  ghost predicate Distinct(h: HashFn, names: seq<string>, replicas: nat) {
    forall p: Point, q: Point, r: nat, s: nat |
      IsPoint(h, names, replicas, p, r) && IsPoint(h, names, replicas, q, s) && p.hash == q.hash :: p == q && r == s
  }

  lemma {:induction false} PointsForDistinct(h: HashFn, names: seq<string>, i: nat, replicas: nat, k: nat)
    requires i < |names| && k <= replicas && Distinct(h, names, replicas)
    ensures DistinctHashes(PointsFor(h, names[i], i, k))
  {
    if k > 0 {
      PointsForDistinct(h, names, i, replicas, k - 1);
      var s, last := PointsFor(h, names[i], i, k - 1), Point(h(names[i], k - 1), i);
      forall j | 0 <= j < |s|
        ensures s[j].hash != last.hash
      {
        PointsForMember(h, names[i], i, k - 1, s[j]);
        var r: nat :| r < k - 1 && s[j].hash == h(names[i], r);
        assert IsPoint(h, names, replicas, s[j], r) && IsPoint(h, names, replicas, last, k - 1);
      }
    }
  }

  /** Points of different backends. */
  lemma BackendsApart(h: HashFn, names: seq<string>, replicas: nat, n: nat, p: Point, q: Point)
    requires n < |names| && Distinct(h, names, replicas)
    requires p in PointsOf(h, names, n, replicas) && q in PointsFor(h, names[n], n, replicas)
    ensures p.hash != q.hash
  {
    PointsOfMember(h, names, n, replicas, p);
    PointsForMember(h, names[n], n, replicas, q);
    PointOfBackend(h, names, replicas, q);
    var r: nat :| IsPoint(h, names, replicas, p, r);
    var s: nat :| IsPoint(h, names, replicas, q, s);
  }

  lemma {:induction false} PointsOfDistinct(h: HashFn, names: seq<string>, n: nat, replicas: nat)
    requires n <= |names| && Distinct(h, names, replicas)
    ensures DistinctHashes(PointsOf(h, names, n, replicas))
  {
    if n > 0 {
      PointsOfDistinct(h, names, n - 1, replicas);
      PointsForDistinct(h, names, n - 1, replicas, replicas);
      var s, t := PointsOf(h, names, n - 1, replicas), PointsFor(h, names[n - 1], n - 1, replicas);
      forall i, j | 0 <= i < |s| && 0 <= j < |t|
        ensures s[i].hash != t[j].hash
      {
        BackendsApart(h, names, replicas, n - 1, s[i], t[j]);
      }
    }
  }

  /** With at least one replica, nothing is resolved exactly when every backend is sick; no hash need be distinct. */
  lemma NoneIffAllSick(h: HashFn, names: seq<string>, replicas: nat, ring: seq<Point>, healthy: seq<bool>, key: u64,
                       r: Option<nat>)
    requires IsRing(h, names, replicas, ring) && replicas >= 1 && |healthy| == |names| &&
            Resolves(ring, healthy, key, r)
    ensures r.None? <==> forall b | 0 <= b < |names| :: !healthy[b]
  {
    if r.None? {
      forall b | 0 <= b < |names|
        ensures !healthy[b]
      {
        var p := Point(h(names[b], 0), b);
        assert IsPoint(h, names, replicas, p, 0);
        RingPoints(h, names, replicas, ring, p);
        assert p in ring && p.backend < |healthy|;
      }
    }
  }

  lemma {:induction false} OnceEach(s: seq<Point>)
    requires DistinctHashes(s)
    ensures forall p :: multiset(s)[p] <= 1
  {
    if s != [] {
      var n := |s| - 1;
      OnceEach(s[..n]);
      assert s == s[..n] + [s[n]];
      assert s[n] !in multiset(s[..n]) by {
        assert forall i | 0 <= i < n :: s[..n][i] != s[n];
      }
    }
  }

  lemma TwiceThere(s: seq<Point>, i: nat, j: nat)
    requires i < j < |s| && s[i] == s[j]
    ensures multiset(s)[s[i]] >= 2
  {
    assert s == s[..j] + [s[j]] + s[j + 1..];
    assert s[..j][i] in multiset(s[..j]);
  }

  /** Reordering keeps hashes distinct. */
  lemma DistinctReordered(s: seq<Point>, t: seq<Point>)
    requires DistinctHashes(s) && multiset(s) == multiset(t)
    ensures DistinctHashes(t)
  {
    OnceEach(s);
    forall i, j | 0 <= i < j < |t|
      ensures t[i].hash != t[j].hash
    {
      assert t[i] in multiset(t) && t[j] in multiset(t);
      assert t[i] in s && t[j] in s;
      if t[i] == t[j] {
        TwiceThere(t, i, j);
      }
    }
  }

  lemma RingDistinct(h: HashFn, names: seq<string>, replicas: nat, ring: seq<Point>)
    requires IsRing(h, names, replicas, ring) && Distinct(h, names, replicas)
    ensures DistinctHashes(ring)
  {
    PointsOfDistinct(h, names, |names|, replicas);
    DistinctReordered(PointsOf(h, names, |names|, replicas), ring);
  }

  /** A point's backend number in the longer list, when `b` was removed from it. */
  function Lift(p: Point, b: nat): Point {
    Point(p.hash, if p.backend < b then p.backend else p.backend + 1)
  }

  function Shift(i: nat, b: nat): nat
    requires i != b
  {
    if i < b then i else i - 1
  }

  lemma LiftPoint(h: HashFn, names: seq<string>, replicas: nat, b: nat, p: Point, r: nat)
    requires b < |names|
    ensures IsPoint(h, Without(names, b), replicas, p, r) <==> IsPoint(h, names, replicas, Lift(p, b), r)
  {
    if p.backend < |names| - 1 {
      WithoutAt(names, b, p.backend);
    }
  }

  lemma LiftRing(h: HashFn, names: seq<string>, replicas: nat, b: nat, ring: seq<Point>, ring': seq<Point>, p: Point)
    requires b < |names| && IsRing(h, names, replicas, ring) && IsRing(h, Without(names, b), replicas, ring')
    ensures p in ring' <==> Lift(p, b) in ring
  {
    RingPoints(h, Without(names, b), replicas, ring', p);
    RingPoints(h, names, replicas, ring, Lift(p, b));
    forall r: nat
      ensures IsPoint(h, Without(names, b), replicas, p, r) <==> IsPoint(h, names, replicas, Lift(p, b), r)
    {
      LiftPoint(h, names, replicas, b, p, r);
    }
  }

  lemma DistinctWithout(h: HashFn, names: seq<string>, replicas: nat, b: nat)
    requires b < |names| && Distinct(h, names, replicas)
    ensures Distinct(h, Without(names, b), replicas)
  {
    forall p: Point, q: Point, r: nat, s: nat |
      && IsPoint(h, Without(names, b), replicas, p, r) && IsPoint(h, Without(names, b), replicas, q, s)
      && p.hash == q.hash
      ensures p == q && r == s
    {
      LiftPoint(h, names, replicas, b, p, r);
      LiftPoint(h, names, replicas, b, q, s);
      assert Lift(p, b) == Lift(q, b);
    }
  }

  /** The nearest healthy point is unique, so the answer is determined. */
  lemma NearestUnique(ring: seq<Point>, healthy: seq<bool>, key: u64, p: Point, r: Option<nat>)
    requires DistinctHashes(ring) && Nearest(ring, healthy, key, p) && Resolves(ring, healthy, key, r)
    ensures r == Some(p.backend)
  {
    if r.Some? {
      var q :| Nearest(ring, healthy, key, q) && q.backend == r.value;
      var i, j :| 0 <= i < |ring| && 0 <= j < |ring| && ring[i] == p && ring[j] == q;
      assert p.hash == q.hash;
    }
  }

  /**
   * Removing a backend remaps only the keys that resolved to it: every other key resolves to
   * the backend it had, under its new number.
   */
  lemma RemovalRemapsOnlyItsKeys(h: HashFn, names: seq<string>, replicas: nat, b: nat,
                                 ring: seq<Point>, ring': seq<Point>,
                                 healthy: seq<bool>, key: u64, r: Option<nat>, r': Option<nat>)
    requires b < |names| == |healthy| && Distinct(h, names, replicas)
    requires IsRing(h, names, replicas, ring) && IsRing(h, Without(names, b), replicas, ring')
    requires Resolves(ring, healthy, key, r) && Resolves(ring', Without(healthy, b), key, r')
    requires r != Some(b)
    ensures r' == if r.None? then None else Some(Shift(r.value, b))
  {
    RingDistinct(h, names, replicas, ring);
    DistinctWithout(h, names, replicas, b);
    RingDistinct(h, Without(names, b), replicas, ring');
    if r.None? {
      StillSick(h, names, replicas, b, ring, ring', healthy);
    } else {
      var p :| Nearest(ring, healthy, key, p) && p.backend == r.value;
      var p' := Point(p.hash, Shift(p.backend, b));
      StillNearest(h, names, replicas, b, ring, ring', healthy, key, p');
      NearestUnique(ring', Without(healthy, b), key, p', r');
    }
  }

  lemma StillSick(h: HashFn, names: seq<string>, replicas: nat, b: nat, ring: seq<Point>, ring': seq<Point>,
                  healthy: seq<bool>)
    requires b < |names| == |healthy| && AllSick(ring, healthy)
    requires IsRing(h, names, replicas, ring) && IsRing(h, Without(names, b), replicas, ring')
    ensures AllSick(ring', Without(healthy, b))
  {
    forall q | q in ring' && q.backend < |healthy| - 1
      ensures !Without(healthy, b)[q.backend]
    {
      LiftRing(h, names, replicas, b, ring, ring', q);
      WithoutAt(healthy, b, q.backend);
      assert Lift(q, b) in ring;
    }
  }

  lemma StillNearest(h: HashFn, names: seq<string>, replicas: nat, b: nat, ring: seq<Point>, ring': seq<Point>,
                     healthy: seq<bool>, key: u64, p: Point)
    requires b < |names| == |healthy| && Nearest(ring, healthy, key, Lift(p, b))
    requires IsRing(h, names, replicas, ring) && IsRing(h, Without(names, b), replicas, ring')
    ensures Nearest(ring', Without(healthy, b), key, p)
  {
    LiftRing(h, names, replicas, b, ring, ring', p);
    WithoutAt(healthy, b, p.backend);
    forall q | q in ring' && q.backend < |healthy| - 1 && Without(healthy, b)[q.backend]
      ensures Distance(key, p.hash) <= Distance(key, q.hash)
    {
      LiftRing(h, names, replicas, b, ring, ring', q);
      WithoutAt(healthy, b, q.backend);
      assert Lift(q, b) in ring;
    }
  }

  /** A sick backend is as good as absent. */
  lemma SickIsAbsent(h: HashFn, names: seq<string>, replicas: nat, b: nat, ring: seq<Point>, ring': seq<Point>,
                     healthy: seq<bool>, key: u64, r: Option<nat>, r': Option<nat>)
    requires b < |names| == |healthy| && Distinct(h, names, replicas) && !healthy[b]
    requires IsRing(h, names, replicas, ring) && IsRing(h, Without(names, b), replicas, ring')
    requires Resolves(ring, healthy, key, r) && Resolves(ring', Without(healthy, b), key, r')
    ensures r != Some(b) && r' == if r.None? then None else Some(Shift(r.value, b))
  {
    RemovalRemapsOnlyItsKeys(h, names, replicas, b, ring, ring', healthy, key, r, r');
  }
}
