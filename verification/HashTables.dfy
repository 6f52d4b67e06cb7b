/**
 * The three object-head tables (crates/rv-hash/src/critbit.rs, classic.rs, simple.rs)
 * against one specification of what `lookup` and `deref` answer.
 *
 * Each operation is one atomic step. The source searches under a read lock and again under
 * the write lock; with nothing in between the second search finds what the first did, so
 * the methods search once.
 */
module HashTables {
  import opened Types
  import opened ObjHeads
  import opened DigestBits
  import opened Critbit
  import opened Endian

  // ---------------------------------------------------------------- specification

  /** A stored head: which allocation it is and how many references are outstanding. */
  datatype Entry = Entry(serial: nat, count: nat)

  type Model = map<Digest, Entry>

  /** What a call returns: the head and whether the offered head came back; or the removal flag. */
  datatype Out = Head(serial: nat, unused: bool) | Removed(removed: bool)

  function LookupSpec(m: Model, d: Digest, offered: nat): (r: (Model, Out)) {
    if d in m then (m[d := Entry(m[d].serial, m[d].count + 1)], Head(m[d].serial, true))
    else (m[d := Entry(offered, 1)], Head(offered, false))
  }

  function DerefSpec(m: Model, d: Digest): (r: (Model, Out))
    requires d in m && m[d].count > 0
  {
    if m[d].count == 1 then (m - {d}, Removed(true))
    else (m[d := Entry(m[d].serial, m[d].count - 1)], Removed(false))
  }

  datatype Op = Lookup(d: Digest) | Deref(d: Digest)

  function Lookups(ops: seq<Op>, d: Digest): nat {
    if ops == [] then 0
    else Lookups(ops[..|ops| - 1], d) + if ops[|ops| - 1] == Lookup(d) then 1 else 0
  }

  function Derefs(ops: seq<Op>, d: Digest): nat {
    if ops == [] then 0
    else Derefs(ops[..|ops| - 1], d) + if ops[|ops| - 1] == Deref(d) then 1 else 0
  }

  /** Every deref gives back a reference some earlier lookup handed out. */
  ghost predicate Balanced(ops: seq<Op>) {
    forall n, d | 0 <= n <= |ops| :: Derefs(ops[..n], d) <= Lookups(ops[..n], d)
  }

  datatype State = State(model: Model, outs: seq<Out>)

  /** One call; the lookup at position `i` offers a head with serial `i`. */
  ghost function Call(m: Model, op: Op, i: nat): (r: (Model, Out))
    requires op.Deref? ==> op.d in m && m[op.d].count > 0
  {
    match op
    case Lookup(d) => LookupSpec(m, d, i)
    case Deref(d) => DerefSpec(m, d)
  }

  ghost function Next(s: State, op: Op, i: nat): (s': State) {
    if op.Deref? && !(op.d in s.model && s.model[op.d].count > 0) then s
    else
      var (m, o) := Call(s.model, op, i);
      State(m, s.outs + [o])
  }

  ghost function Run(ops: seq<Op>): (r: State) {
    if ops == [] then State(map[], []) else Next(Run(ops[..|ops| - 1]), ops[|ops| - 1], |ops| - 1)
  }

  /** `m` stores a digest exactly while references to it are outstanding, and counts them. */
  ghost predicate CountsOutstanding(m: Model, ops: seq<Op>) {
    && (forall d | d in m :: m[d].count > 0)
    && (forall d :: Lookups(ops, d) - Derefs(ops, d) == if d in m then m[d].count else 0)
  }

  lemma BalancedPrefix(ops: seq<Op>, n: nat)
    requires n <= |ops| && Balanced(ops)
    ensures Balanced(ops[..n])
  {
    forall k, d | 0 <= k <= n
      ensures Derefs(ops[..n][..k], d) <= Lookups(ops[..n][..k], d)
    {
      assert ops[..n][..k] == ops[..k];
    }
  }

  /** Over every balanced run: stored iff outstanding, and the count is the number outstanding. */
  lemma {:induction false} RunCounts(ops: seq<Op>)
    requires Balanced(ops)
    ensures CountsOutstanding(Run(ops).model, ops)
    ensures |Run(ops).outs| == |ops|
  {
    if ops != [] {
      var init, last := ops[..|ops| - 1], ops[|ops| - 1];
      BalancedPrefix(ops, |ops| - 1);
      RunCounts(init);
      assert ops[..|ops|] == ops;
      assert Derefs(ops[..|ops|], last.d) <= Lookups(ops[..|ops|], last.d);
      assert last.Deref? ==> Lookups(ops, last.d) == Lookups(init, last.d);
    }
  }

  function Outstanding(ops: seq<Op>, d: Digest): int {
    Lookups(ops, d) - Derefs(ops, d)
  }

  /** The lookup at position `s` found `d` unreferenced and `d` has been referenced ever since. */
  ghost predicate OpenedAt(ops: seq<Op>, d: Digest, s: nat) {
    && s < |ops| && ops[s] == Lookup(d) && Outstanding(ops[..s], d) == 0
    && forall n | s < n <= |ops| :: Outstanding(ops[..n], d) > 0
  }

  lemma OpenedExtend(ops: seq<Op>, d: Digest, s: nat)
    requires ops != [] && OpenedAt(ops[..|ops| - 1], d, s) && Outstanding(ops, d) > 0
    ensures OpenedAt(ops, d, s)
  {
    var init := ops[..|ops| - 1];
    assert init[..s] == ops[..s];
    forall n | s < n <= |ops|
      ensures Outstanding(ops[..n], d) > 0
    {
      if n < |ops| {
        assert init[..n] == ops[..n];
      } else {
        assert ops[..n] == ops;
      }
    }
  }

  /** The head a digest is served by is the one offered when its references last left zero. */
  lemma {:induction false} RunServesOpener(ops: seq<Op>)
    requires Balanced(ops)
    ensures forall d | d in Run(ops).model :: OpenedAt(ops, d, Run(ops).model[d].serial)
  {
    if ops != [] {
      var init, last := ops[..|ops| - 1], ops[|ops| - 1];
      BalancedPrefix(ops, |ops| - 1);
      RunServesOpener(init);
      RunCounts(init);
      RunCounts(ops);
      forall d | d in Run(ops).model
        ensures OpenedAt(ops, d, Run(ops).model[d].serial)
      {
        assert Outstanding(ops, d) > 0;
        if d in Run(init).model {
          OpenedExtend(ops, d, Run(init).model[d].serial);
        } else {
          assert ops[..|ops|] == ops;
          assert Outstanding(init, d) == 0;
        }
      }
    }
  }

  /**
   * What call `n` answers: a lookup the opener's head, and that the offered one is unused
   * exactly when the digest was referenced before; a deref whether it was the last reference.
   */
  ghost predicate AnswerIs(ops: seq<Op>, n: nat, o: Out)
    requires n < |ops|
  {
    match ops[n]
    case Lookup(d) => o.Head? && (o.unused <==> Outstanding(ops[..n], d) > 0) && OpenedAt(ops[..n + 1], d, o.serial)
    case Deref(d) => o == Removed(Outstanding(ops[..n + 1], d) == 0)
  }

  lemma LastAnswer(ops: seq<Op>)
    requires ops != [] && Balanced(ops)
    ensures |Run(ops).outs| == |ops| && AnswerIs(ops, |ops| - 1, Run(ops).outs[|ops| - 1])
  {
    var n := |ops| - 1;
    var init, last := ops[..n], ops[n];
    BalancedPrefix(ops, n);
    RunCounts(init);
    RunCounts(ops);
    RunServesOpener(ops);
    assert ops[..n + 1] == ops;
  }

  /** Over every balanced run, every answer is the right one. */
  lemma {:induction false} RunOuts(ops: seq<Op>, n: nat)
    requires Balanced(ops) && n < |ops|
    ensures |Run(ops).outs| == |ops| && AnswerIs(ops, n, Run(ops).outs[n])
    decreases |ops|
  {
    LastAnswer(ops);
    if n < |ops| - 1 {
      var init := ops[..|ops| - 1];
      BalancedPrefix(ops, |ops| - 1);
      RunOuts(init, n);
      assert init[..n] == ops[..n] && init[..n + 1] == ops[..n + 1];
    }
  }

  // ---------------------------------------------------------------- crit-bit tree

  /** The slow path of `lookup` on a digest that is not stored. */
  method InsertIntoRoot(root: Option<Node>, newOh: ObjHead) returns (r: Option<Node>)
    requires RootWellFormed(root, 0) && newOh.digest !in RootContents(root)
    ensures RootWellFormed(r, 0)
    ensures RootContents(r) == RootContents(root)[newOh.digest := newOh]
  {
    if root.None? {
      r := Some(Leaf(newOh));
    } else {
      WalkFindsExactly(root.value, 0, newOh.digest);
      var leaf := WalkToLeaf(root.value, newOh.digest);
      var critBit := FindCriticalBit(newOh.digest, leaf.digest);
      InsertCorrect(root.value, 0, newOh, critBit.value);
      r := Some(InsertNode(root.value, Leaf(newOh), critBit.value, newOh.digest));
    }
  }

  /** The leaf a lookup would use, when it is the digest asked for. */
  function FindInRoot(root: Option<Node>, d: Digest): (r: Option<ObjHead>)
    requires RootWellFormed(root, 0)
    ensures r == if d in RootContents(root) then Some(RootContents(root)[d]) else None
  {
    if root.None? then None
    else
      WalkFindsExactly(root.value, 0, d);
      var leaf := WalkToLeaf(root.value, d);
      if leaf.digest == d then Some(leaf) else None
  }

  function RemoveFromRoot(root: Option<Node>, d: Digest): (r: Option<Node>)
    requires RootWellFormed(root, 0)
    ensures RootWellFormed(r, 0)
    ensures RootContents(r) == RootContents(root) - {d}
  {
    if root.None? then None
    else
      WellFormedInRange(root.value, 0);
      RemoveCorrect(root.value, 0, d);
      RemoveNode(root.value, d).0
  }

  class CritbitHash {
    var root: Option<Node>
    ghost var view: map<Digest, ObjHead>

    ghost predicate Valid()
      reads this
    {
      RootWellFormed(root, 0) && RootContents(root) == view
    }

    constructor ()
      ensures Valid() && view == map[]
    {
      root := None;
      view := map[];
    }

    method Lookup(d: Digest, newOh: ObjHead) returns (oh: ObjHead, unused: Option<ObjHead>)
      requires Valid() && newOh.digest == d && newOh.refcnt == 0
      modifies this, newOh, if d in view then {view[d]} else {}
      ensures Valid()
      ensures oh == if d in old(view) then old(view)[d] else newOh
      ensures unused == if d in old(view) then Some(newOh) else None
      ensures view == old(view)[d := oh]
      ensures oh.refcnt == old(oh.refcnt) + 1
      ensures oh != newOh ==> newOh.refcnt == 0
    {
      var leaf := FindInRoot(root, d);
      if leaf.Some? {
        var n := leaf.value.IncRef();
        return leaf.value, Some(newOh);
      }
      var n := newOh.IncRef();
      root := InsertIntoRoot(root, newOh);
      view := view[d := newOh];
      return newOh, None;
    }

    /** Removal is by digest, whichever head is filed under it. */
    method Deref(oh: ObjHead) returns (removed: bool)
      requires Valid() && oh.refcnt > 0
      modifies this, oh
      ensures Valid()
      ensures oh.refcnt == old(oh.refcnt) - 1
      ensures removed <==> oh.refcnt == 0
      ensures view == if removed then old(view) - {oh.digest} else old(view)
    {
      var newCount := oh.DecRef();
      if newCount == 0 {
        root := RemoveFromRoot(root, oh.digest);
        view := view - {oh.digest};
        return true;
      } else {
        return false;
      }
    }
  }

  // ---------------------------------------------------------------- vectors of heads

  /** `es` lists the heads of `v`, each once. */
  ghost predicate Lists(v: map<Digest, ObjHead>, es: seq<ObjHead>) {
    && NoDup(es)
    && (forall i | 0 <= i < |es| :: es[i].digest in v && v[es[i].digest] == es[i])
    && (forall d | d in v :: v[d].digest == d && v[d] in es)
  }

  /** `Vec::swap_remove`: the last element takes the removed one's place. */
  function SwapRemove<T>(s: seq<T>, pos: nat): (r: seq<T>)
    requires pos < |s|
  {
    s[pos := s[|s| - 1]][..|s| - 1]
  }

  lemma SwapRemoveLists(v: map<Digest, ObjHead>, es: seq<ObjHead>, pos: nat)
    requires pos < |es| && Lists(v, es)
    ensures Lists(v - {es[pos].digest}, SwapRemove(es, pos))
  {
    var r, v' := SwapRemove(es, pos), v - {es[pos].digest};
    forall i | 0 <= i < |r|
      ensures r[i].digest in v' && v'[r[i].digest] == r[i]
    {
      var j := if i == pos then |es| - 1 else i;
      assert r[i] == es[j] && es[j] != es[pos];
    }
    forall d | d in v'
      ensures v'[d] in r
    {
      var j :| 0 <= j < |es| && es[j] == v[d];
      assert r[if j == |es| - 1 then pos else j] == v[d];
    }
  }

  lemma PushLists(v: map<Digest, ObjHead>, es: seq<ObjHead>, h: ObjHead)
    requires Lists(v, es) && h.digest !in v
    ensures Lists(v[h.digest := h], es + [h])
  {
    var es' := es + [h];
    assert forall i | 0 <= i < |es| :: es'[i] == es[i];
    var v' := v[h.digest := h];
    forall d | d in v'
      ensures v'[d] in es'
    {
      if d == h.digest {
        assert es'[|es|] == h;
      }
    }
  }

  /** The scan that `lookup` makes over a vector. */
  method FindDigest(es: seq<ObjHead>, d: Digest, ghost v: map<Digest, ObjHead>) returns (r: Option<ObjHead>)
    requires Lists(v, es)
    ensures r == if d in v then Some(v[d]) else None
  {
    for i := 0 to |es|
      invariant forall j | 0 <= j < i :: es[j].digest != d
    {
      if es[i].digest == d {
        return Some(es[i]);
      }
    }
    return None;
  }

  /** The table without `oh`, if it is filed. */
  ghost function Unfile(v: map<Digest, ObjHead>, oh: ObjHead): map<Digest, ObjHead> {
    if oh.digest in v && v[oh.digest] == oh then v - {oh.digest} else v
  }

  /** `position` by pointer identity followed by `swap_remove`. */
  method RemoveHead(es: seq<ObjHead>, oh: ObjHead, ghost v: map<Digest, ObjHead>) returns (r: seq<ObjHead>)
    requires Lists(v, es)
    ensures Lists(Unfile(v, oh), r)
  {
    for i := 0 to |es|
      invariant forall j | 0 <= j < i :: es[j] != oh
    {
      if es[i] == oh {
        SwapRemoveLists(v, es, i);
        return SwapRemove(es, i);
      }
    }
    return es;
  }

  class SimpleListHash {
    var entries: seq<ObjHead>
    ghost var view: map<Digest, ObjHead>

    ghost predicate Valid()
      reads this
    {
      Lists(view, entries)
    }

    constructor ()
      ensures Valid() && view == map[]
    {
      entries := [];
      view := map[];
    }

    method Lookup(d: Digest, newOh: ObjHead) returns (oh: ObjHead, unused: Option<ObjHead>)
      requires Valid() && newOh.digest == d && newOh.refcnt == 0
      modifies this, newOh, if d in view then {view[d]} else {}
      ensures Valid()
      ensures oh == if d in old(view) then old(view)[d] else newOh
      ensures unused == if d in old(view) then Some(newOh) else None
      ensures view == old(view)[d := oh]
      ensures oh.refcnt == old(oh.refcnt) + 1
      ensures oh != newOh ==> newOh.refcnt == 0
    {
      var entry := FindDigest(entries, d, view);
      if entry.Some? {
        var n := entry.value.IncRef();
        return entry.value, Some(newOh);
      }
      var n := newOh.IncRef();
      PushLists(view, entries, newOh);
      entries := entries + [newOh];
      view := view[d := newOh];
      return newOh, None;
    }

    /** Removal is by identity: a head that is not filed takes nothing with it. */
    method Deref(oh: ObjHead) returns (removed: bool)
      requires Valid() && oh.refcnt > 0
      modifies this, oh
      ensures Valid()
      ensures oh.refcnt == old(oh.refcnt) - 1
      ensures removed <==> oh.refcnt == 0
      ensures view == if removed then Unfile(old(view), oh) else old(view)
    {
      var newCount := oh.DecRef();
      if newCount == 0 {
        entries := RemoveHead(entries, oh, view);
        view := Unfile(view, oh);
        return true;
      } else {
        return false;
      }
    }
  }

  // ---------------------------------------------------------------- bucketed table

  /** The first eight digest bytes as a little-endian number, modulo the bucket count. */
  function BucketIndex(d: Digest, n: nat): (i: nat)
    requires n > 0
    ensures i < n
  {
    FromLE(d.bytes[..8]) % n
  }

  /** The part of the table that belongs in bucket `i`. */
  ghost function Slice(v: map<Digest, ObjHead>, n: nat, i: nat): map<Digest, ObjHead>
    requires n > 0
  {
    map d | d in v && BucketIndex(d, n) == i :: v[d]
  }

  ghost predicate Buckets(v: map<Digest, ObjHead>, buckets: seq<seq<ObjHead>>) {
    |buckets| > 0 && forall i | 0 <= i < |buckets| :: Lists(Slice(v, |buckets|, i), buckets[i])
  }

  /** Changing one bucket to list its slice of the new contents suffices. */
  lemma UpdateBucket(v: map<Digest, ObjHead>, v': map<Digest, ObjHead>, buckets: seq<seq<ObjHead>>, d: Digest,
                     b: seq<ObjHead>)
    requires Buckets(v, buckets)
    requires v' - {d} == v - {d}
    requires Lists(Slice(v', |buckets|, BucketIndex(d, |buckets|)), b)
    ensures Buckets(v', buckets[BucketIndex(d, |buckets|) := b])
  {
    var n := |buckets|;
    forall i | 0 <= i < n && i != BucketIndex(d, n)
      ensures Slice(v', n, i) == Slice(v, n, i)
    {
      assert Slice(v', n, i) == Slice(v' - {d}, n, i);
      assert Slice(v, n, i) == Slice(v - {d}, n, i);
    }
  }

  method PushBucket(buckets: seq<seq<ObjHead>>, newOh: ObjHead,
                    ghost v: map<Digest, ObjHead>) returns (bs: seq<seq<ObjHead>>)
    requires Buckets(v, buckets) && newOh.digest !in v
    ensures Buckets(v[newOh.digest := newOh], bs)
  {
    var d := newOh.digest;
    var idx := BucketIndex(d, |buckets|);
    ghost var slice := Slice(v, |buckets|, idx);
    PushLists(slice, buckets[idx], newOh);
    assert Slice(v[d := newOh], |buckets|, idx) == slice[d := newOh];
    UpdateBucket(v, v[d := newOh], buckets, d, buckets[idx] + [newOh]);
    bs := buckets[idx := buckets[idx] + [newOh]];
  }

  method RemoveBucket(buckets: seq<seq<ObjHead>>, oh: ObjHead,
                      ghost v: map<Digest, ObjHead>) returns (bs: seq<seq<ObjHead>>)
    requires Buckets(v, buckets)
    ensures Buckets(Unfile(v, oh), bs)
  {
    var d := oh.digest;
    var idx := BucketIndex(d, |buckets|);
    ghost var slice := Slice(v, |buckets|, idx);
    var b := RemoveHead(buckets[idx], oh, slice);
    assert Slice(Unfile(v, oh), |buckets|, idx) == Unfile(slice, oh);
    UpdateBucket(v, Unfile(v, oh), buckets, d, b);
    bs := buckets[idx := b];
  }

  class ClassicHash {
    var buckets: seq<seq<ObjHead>>
    ghost var view: map<Digest, ObjHead>

    ghost predicate Valid()
      reads this
    {
      Buckets(view, buckets)
    }

    constructor (nBuckets: nat)
      requires nBuckets > 0
      ensures Valid() && view == map[]
    {
      buckets := seq(nBuckets, _ => []);
      view := map[];
    }

    method Lookup(d: Digest, newOh: ObjHead) returns (oh: ObjHead, unused: Option<ObjHead>)
      requires Valid() && newOh.digest == d && newOh.refcnt == 0
      modifies this, newOh, if d in view then {view[d]} else {}
      ensures Valid()
      ensures oh == if d in old(view) then old(view)[d] else newOh
      ensures unused == if d in old(view) then Some(newOh) else None
      ensures view == old(view)[d := oh]
      ensures oh.refcnt == old(oh.refcnt) + 1
      ensures oh != newOh ==> newOh.refcnt == 0
    {
      var idx := BucketIndex(d, |buckets|);
      var entry := FindDigest(buckets[idx], d, Slice(view, |buckets|, idx));
      if entry.Some? {
        var n := entry.value.IncRef();
        return entry.value, Some(newOh);
      }
      var n := newOh.IncRef();
      buckets := PushBucket(buckets, newOh, view);
      view := view[d := newOh];
      return newOh, None;
    }

    /** Removal is by identity: a head that is not filed takes nothing with it. */
    method Deref(oh: ObjHead) returns (removed: bool)
      requires Valid() && oh.refcnt > 0
      modifies this, oh
      ensures Valid()
      ensures oh.refcnt == old(oh.refcnt) - 1
      ensures removed <==> oh.refcnt == 0
      ensures view == if removed then Unfile(old(view), oh) else old(view)
    {
      var newCount := oh.DecRef();
      if newCount == 0 {
        buckets := RemoveBucket(buckets, oh, view);
        view := Unfile(view, oh);
        return true;
      } else {
        return false;
      }
    }
  }

  // ---------------------------------------------------------------- whole runs

  /** The heads of `v` stand for the abstract table `m`, except that `oh` may be off by `delta`. */
  ghost predicate RepresentsBut(v: map<Digest, ObjHead>, m: Model, oh: ObjHead?, delta: int)
    reads v.Values
  {
    && v.Keys == m.Keys
    && forall d | d in v ::
         && v[d].digest == d && v[d].serial == m[d].serial && m[d].count > 0
         && v[d].refcnt == m[d].count + if v[d] == oh then delta else 0
  }

  ghost predicate Represents(v: map<Digest, ObjHead>, m: Model)
    reads v.Values
  {
    RepresentsBut(v, m, null, 0)
  }

  ghost predicate HeldBy(v: map<Digest, ObjHead>, held: map<Digest, ObjHead>) {
    forall d | d in v :: d in held && held[d] == v[d]
  }

  /** One more reference to `oh`, filed before or newly, is what `LookupSpec` says. */
  lemma Looked(v: map<Digest, ObjHead>, m: Model, oh: ObjHead, offered: nat)
    requires RepresentsBut(v, m, oh, 1)
    requires oh.digest in v ==> v[oh.digest] == oh
    requires oh.digest !in v ==> oh.refcnt == 1 && oh.serial == offered
    ensures Represents(v[oh.digest := oh], LookupSpec(m, oh.digest, offered).0)
    ensures LookupSpec(m, oh.digest, offered).1 == Head(oh.serial, oh.digest in v)
  {
  }

  /** One reference fewer to `oh`, which leaves the table at zero, is what `DerefSpec` says. */
  lemma Released(v: map<Digest, ObjHead>, m: Model, oh: ObjHead)
    requires oh.digest in v && v[oh.digest] == oh && RepresentsBut(v, m, oh, -1)
    ensures Represents(if oh.refcnt == 0 then v - {oh.digest} else v, DerefSpec(m, oh.digest).0)
    ensures DerefSpec(m, oh.digest).1 == Removed(oh.refcnt == 0)
  {
  }

  lemma RunStep(ops: seq<Op>, i: nat)
    requires i < |ops| && Balanced(ops)
    ensures Balanced(ops[..i]) && CountsOutstanding(Run(ops[..i]).model, ops[..i])
    ensures Run(ops[..i + 1]) == Next(Run(ops[..i]), ops[i], i)
    ensures ops[i].Deref? ==> ops[i].d in Run(ops[..i]).model
  {
    BalancedPrefix(ops, i);
    RunCounts(ops[..i]);
    assert ops[..i + 1][..i] == ops[..i];
    var d := ops[i].d;
    assert Derefs(ops[..i + 1], d) <= Lookups(ops[..i + 1], d);
  }

  /** Any of the three tables. */
  datatype Table = Tree(critbit: CritbitHash) | Bucketed(classic: ClassicHash) | Listed(simple: SimpleListHash)

  ghost function SelfOf(table: Table): object {
    match table
    case Tree(t) => t
    case Bucketed(t) => t
    case Listed(t) => t
  }

  ghost predicate TableValid(table: Table)
    reads SelfOf(table)
  {
    match table
    case Tree(t) => t.Valid()
    case Bucketed(t) => t.Valid()
    case Listed(t) => t.Valid()
  }

  ghost function ViewOf(table: Table): map<Digest, ObjHead>
    reads SelfOf(table)
  {
    match table
    case Tree(t) => t.view
    case Bucketed(t) => t.view
    case Listed(t) => t.view
  }

  method LookupIn(table: Table, d: Digest, newOh: ObjHead) returns (oh: ObjHead, unused: Option<ObjHead>)
    requires TableValid(table) && newOh.digest == d && newOh.refcnt == 0
    modifies SelfOf(table), newOh, if d in ViewOf(table) then {ViewOf(table)[d]} else {}
    ensures TableValid(table)
    ensures oh == if d in old(ViewOf(table)) then old(ViewOf(table))[d] else newOh
    ensures unused == if d in old(ViewOf(table)) then Some(newOh) else None
    ensures ViewOf(table) == old(ViewOf(table))[d := oh]
    ensures oh.refcnt == old(oh.refcnt) + 1
    ensures oh != newOh ==> newOh.refcnt == 0
  {
    match table
    case Tree(t) => oh, unused := t.Lookup(d, newOh);
    case Bucketed(t) => oh, unused := t.Lookup(d, newOh);
    case Listed(t) => oh, unused := t.Lookup(d, newOh);
  }

  /** On a filed head the three tables do the same. */
  method DerefIn(table: Table, oh: ObjHead) returns (removed: bool)
    requires TableValid(table) && oh.digest in ViewOf(table) && ViewOf(table)[oh.digest] == oh && oh.refcnt > 0
    modifies SelfOf(table), oh
    ensures TableValid(table)
    ensures oh.refcnt == old(oh.refcnt) - 1
    ensures removed <==> oh.refcnt == 0
    ensures ViewOf(table) == if removed then old(ViewOf(table)) - {oh.digest} else old(ViewOf(table))
  {
    match table
    case Tree(t) => removed := t.Deref(oh);
    case Bucketed(t) => removed := t.Deref(oh);
    case Listed(t) => removed := t.Deref(oh);
  }

  /** A caller looks up with a fresh head and is given one. */
  method StepLookup(table: Table, d: Digest, i: nat, ghost m: Model) returns (out: Out, oh: ObjHead)
    requires TableValid(table) && Represents(ViewOf(table), m)
    modifies SelfOf(table), ViewOf(table).Values
    ensures TableValid(table) && ViewOf(table) == old(ViewOf(table))[d := oh]
    ensures if d in old(ViewOf(table)) then oh == old(ViewOf(table))[d] else fresh(oh)
    ensures Represents(ViewOf(table), LookupSpec(m, d, i).0) && out == LookupSpec(m, d, i).1
  {
    ghost var view := ViewOf(table);
    var newOh := new ObjHead(d, i);
    var unused;
    oh, unused := LookupIn(table, d, newOh);
    Looked(view, m, oh, i);
    return Head(oh.serial, unused.Some?), oh;
  }

  /** A caller gives back the head it holds. */
  method StepDeref(table: Table, d: Digest, oh: ObjHead, ghost m: Model) returns (out: Out)
    requires TableValid(table) && Represents(ViewOf(table), m) && d in m && m[d].count > 0 && oh == ViewOf(table)[d]
    modifies SelfOf(table), ViewOf(table).Values
    ensures TableValid(table) && (ViewOf(table) == old(ViewOf(table)) || ViewOf(table) == old(ViewOf(table)) - {d})
    ensures Represents(ViewOf(table), DerefSpec(m, d).0) && out == DerefSpec(m, d).1
  {
    ghost var view := ViewOf(table);
    var removed := DerefIn(table, oh);
    Released(view, m, oh);
    return Removed(removed);
  }

  method StepTable(table: Table, op: Op, i: nat, held: map<Digest, ObjHead>, ghost m: Model)
    returns (out: Out, held': map<Digest, ObjHead>)
    requires TableValid(table) && Represents(ViewOf(table), m) && HeldBy(ViewOf(table), held)
    requires op.Deref? ==> op.d in m && m[op.d].count > 0
    modifies SelfOf(table), ViewOf(table).Values
    ensures TableValid(table) && HeldBy(ViewOf(table), held')
    ensures Represents(ViewOf(table), Call(m, op, i).0) && out == Call(m, op, i).1
    ensures forall d | d in ViewOf(table) :: fresh(ViewOf(table)[d]) || ViewOf(table)[d] in old(ViewOf(table).Values)
  {
    match op
    case Lookup(d) =>
      var oh;
      out, oh := StepLookup(table, d, i, m);
      held' := held[d := oh];
    case Deref(d) =>
      out := StepDeref(table, d, held[d], m);
      held' := held;
  }

  /** One call of a run, in terms of the state before it. */
  lemma RunCall(ops: seq<Op>, i: nat, m: Model, outs: seq<Out>)
    requires i < |ops| && Balanced(ops) && State(m, outs) == Run(ops[..i])
    ensures ops[i].Deref? ==> ops[i].d in m && m[ops[i].d].count > 0
    ensures var (m', o) := Call(m, ops[i], i); State(m', outs + [o]) == Run(ops[..i + 1])
  {
    RunStep(ops, i);
  }

  /** Call `i` of a run, on a table that stands for the model the calls before leave. */
  method RunOne(table: Table, ops: seq<Op>, i: nat, held: map<Digest, ObjHead>, ghost outs: seq<Out>, ghost m: Model,
                ghost heads: set<ObjHead>)
    returns (out: Out, held': map<Digest, ObjHead>, ghost m': Model, ghost heads': set<ObjHead>)
    requires i < |ops| && Balanced(ops) && State(m, outs) == Run(ops[..i])
    requires TableValid(table) && Represents(ViewOf(table), m) && HeldBy(ViewOf(table), held)
    requires ViewOf(table).Values <= heads
    modifies SelfOf(table), heads
    ensures TableValid(table) && Represents(ViewOf(table), m') && HeldBy(ViewOf(table), held')
    ensures ViewOf(table).Values <= heads' && fresh(heads' - heads)
    ensures State(m', outs + [out]) == Run(ops[..i + 1])
  {
    RunCall(ops, i, m, outs);
    out, held' := StepTable(table, ops[i], i, held, m);
    m', heads' := Call(m, ops[i], i).0, heads + ViewOf(table).Values;
  }

  /** Any of the tables, driven from empty, gives the outputs of the reference map. */
  method RunTable(table: Table, ops: seq<Op>) returns (outs: seq<Out>)
    requires Balanced(ops) && TableValid(table) && ViewOf(table) == map[]
    modifies SelfOf(table)
    ensures outs == Run(ops).outs
  {
    var held: map<Digest, ObjHead> := map[];
    ghost var model: Model, heads: set<ObjHead> := map[], {};
    outs := [];
    for i := 0 to |ops|
      invariant TableValid(table) && Represents(ViewOf(table), model) && HeldBy(ViewOf(table), held)
      invariant ViewOf(table).Values <= heads && fresh(heads)
      invariant State(model, outs) == Run(ops[..i])
    {
      var out;
      out, held, model, heads := RunOne(table, ops, i, held, outs, model, heads);
      outs := outs + [out];
    }
    assert ops[..|ops|] == ops;
  }

  /** Driven by the same calls, the three tables return the same heads and removal flags. */
  method RunAll(ops: seq<Op>, nBuckets: nat) returns (critbit: seq<Out>, classic: seq<Out>, simple: seq<Out>)
    requires Balanced(ops) && nBuckets > 0
    ensures critbit == classic == simple == Run(ops).outs
  {
    var tree := new CritbitHash();
    critbit := RunTable(Tree(tree), ops);
    var bucketed := new ClassicHash(nBuckets);
    classic := RunTable(Bucketed(bucketed), ops);
    var list := new SimpleListHash();
    simple := RunTable(Listed(list), ops);
  }
}
