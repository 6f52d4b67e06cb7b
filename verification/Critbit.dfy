/**
 * The crit-bit tree over 256-bit digests (crates/rv-hash/src/critbit.rs).
 *
 * An internal node names a bit position; its left leaves have a 0 there, its right
 * leaves a 1, and all its leaves agree on every earlier bit. Insertion compares the
 * new digest with one leaf only, the one it walks to. The lemmas here show that this
 * single comparison is right for the whole tree.
 */
module Critbit {
  import opened Types
  import opened ObjHeads
  import opened DigestBits

  // ---------------------------------------------------------------- trees

  datatype Node =
    | Internal(bitPos: nat, left: Node, right: Node)
    | Leaf(head: ObjHead)

  /** What a tree stores. */
  ghost function Contents(t: Node): (m: map<Digest, ObjHead>)
    ensures m.Keys != {}
    ensures forall d | d in m :: m[d].digest == d
  {
    match t
    case Leaf(h) =>
      var m := map[h.digest := h];
      assert h.digest in m.Keys;
      m
    case Internal(_, l, r) =>
      var m := Contents(l) + Contents(r);
      assert m.Keys == Contents(l).Keys + Contents(r).Keys;
      m
  }

  /** Every digest in `ds` has bit `p` equal to `b`. */
  ghost predicate AllBit(ds: set<Digest>, p: nat, b: nat)
    requires p < DIGEST_BITS
  {
    forall d | d in ds :: GetBit(d, p) == b
  }

  ghost predicate SharePrefix(ds: set<Digest>, n: nat)
    requires n <= DIGEST_BITS
  {
    forall a, b | a in ds && b in ds :: AgreeBelow(a, b, n)
  }

  /**
   * Bit positions strictly increase downward from `lo`, each internal node splits its
   * leaves by its own bit, and its leaves share all earlier bits.
   */
  ghost predicate WellFormed(t: Node, lo: nat) {
    t.Internal? ==>
      && lo <= t.bitPos < DIGEST_BITS
      && WellFormed(t.left, t.bitPos + 1)
      && WellFormed(t.right, t.bitPos + 1)
      && AllBit(Contents(t.left).Keys, t.bitPos, 0)
      && AllBit(Contents(t.right).Keys, t.bitPos, 1)
      && SharePrefix(Contents(t).Keys, t.bitPos)
  }

  /** Enough for the bit tests to be in bounds. */
  predicate BitsInRange(t: Node) {
    t.Internal? ==> t.bitPos < DIGEST_BITS && BitsInRange(t.left) && BitsInRange(t.right)
  }

  lemma WellFormedInRange(t: Node, lo: nat)
    requires WellFormed(t, lo)
    ensures BitsInRange(t)
  {
  }

  // ---------------------------------------------------------------- operations

  /** The source's `walk_to_leaf`. */
  function WalkToLeaf(t: Node, d: Digest): (h: ObjHead)
    requires BitsInRange(t)
  {
    match t
    case Leaf(h) => h
    case Internal(p, l, r) =>
      if GetBit(d, p) == 0 then WalkToLeaf(l, d) else WalkToLeaf(r, d)
  }

  /** A fresh internal node at `critBit` above `t`, with the new leaf on its own side. */
  function Split(t: Node, newLeaf: Node, critBit: nat, d: Digest): (r: Node)
    requires critBit < DIGEST_BITS
  {
    if GetBit(d, critBit) == 0 then Internal(critBit, newLeaf, t) else Internal(critBit, t, newLeaf)
  }

  /** The source's `insert_node`. */
  function InsertNode(t: Node, newLeaf: Node, critBit: nat, d: Digest): (r: Node)
    requires BitsInRange(t) && critBit < DIGEST_BITS
  {
    match t
    case Leaf(_) => Split(t, newLeaf, critBit, d)
    case Internal(p, l, r) =>
      if critBit < p then Split(t, newLeaf, critBit, d)
      else if GetBit(d, p) == 0 then Internal(p, InsertNode(l, newLeaf, critBit, d), r)
      else Internal(p, l, InsertNode(r, newLeaf, critBit, d))
  }

  /** The source's `remove_node`: the remaining tree and the removed head. */
  function RemoveNode(t: Node, d: Digest): (r: (Option<Node>, Option<ObjHead>))
    requires BitsInRange(t)
    ensures r.0.None? ==> r.1.Some?
  {
    match t
    case Leaf(h) => if h.digest == d then (None, Some(h)) else (Some(t), None)
    case Internal(p, l, r) =>
      if GetBit(d, p) == 0 then
        var (l', removed) := RemoveNode(l, d);
        if removed.Some? then
          match l'
          case Some(x) => (Some(Internal(p, x, r)), removed)
          case None => (Some(r), removed)
        else (Some(Internal(p, l'.value, r)), None)
      else
        var (r', removed) := RemoveNode(r, d);
        if removed.Some? then
          match r'
          case Some(x) => (Some(Internal(p, l, x)), removed)
          case None => (Some(l), removed)
        else (Some(Internal(p, l, r'.value)), None)
  }

  // ---------------------------------------------------------------- walking

  lemma SidesDisjoint(t: Node, lo: nat)
    requires t.Internal? && WellFormed(t, lo)
    ensures Contents(t.left).Keys !! Contents(t.right).Keys
    ensures Contents(t).Keys == Contents(t.left).Keys + Contents(t.right).Keys
  {
  }

  /** A digest is stored exactly when the walk ends at it. */
  lemma {:induction false} WalkFindsExactly(t: Node, lo: nat, d: Digest)
    requires WellFormed(t, lo)
    ensures BitsInRange(t)
    ensures var h := WalkToLeaf(t, d); h.digest in Contents(t) && Contents(t)[h.digest] == h
    ensures d in Contents(t) <==> WalkToLeaf(t, d).digest == d
  {
    WellFormedInRange(t, lo);
    match t
    case Leaf(_) =>
    case Internal(p, l, r) =>
      SidesDisjoint(t, lo);
      if GetBit(d, p) == 0 {
        WalkFindsExactly(l, p + 1, d);
      } else {
        WalkFindsExactly(r, p + 1, d);
      }
  }

  // ---------------------------------------------------------------- insertion

  lemma SharePrefixAdd(ds: set<Digest>, leaf: Digest, d: Digest, n: nat)
    requires n <= DIGEST_BITS && leaf in ds
    requires SharePrefix(ds, n) && AgreeBelow(d, leaf, n)
    ensures SharePrefix(ds + {d}, n)
  {
    forall a, b | a in ds + {d} && b in ds + {d}
      ensures AgreeBelow(a, b, n)
    {
      assert a == d || AgreeBelow(leaf, a, n);
      assert b == d || AgreeBelow(leaf, b, n);
    }
  }

  lemma PrefixMonotone(ds: set<Digest>, n: nat, m: nat)
    requires m <= n <= DIGEST_BITS && SharePrefix(ds, n)
    ensures SharePrefix(ds, m)
  {
    forall a, b | a in ds && b in ds
      ensures AgreeBelow(a, b, m)
    {
      assert AgreeBelow(a, b, n);
    }
  }

  /**
   * The critical bit found against the walked-to leaf is the right one for every digest
   * of the subtree the new node is placed above: all of them are on the leaf's side of it,
   * and all of them agree with the new digest before it.
   */
  lemma CriticalBitOfSubtree(t: Node, lo: nat, d: Digest, leaf: Digest, p: nat)
    requires WellFormed(t, lo)
    requires leaf in Contents(t) && FirstDiff(d, leaf, p)
    requires t.Internal? ==> p < t.bitPos
    ensures AllBit(Contents(t).Keys, p, 1 - GetBit(d, p))
    ensures SharePrefix(Contents(t).Keys + {d}, p)
  {
    if t.Internal? {
      forall x | x in Contents(t).Keys
        ensures GetBit(x, p) == GetBit(leaf, p)
      {
        assert AgreeBelow(leaf, x, t.bitPos);
      }
      PrefixMonotone(Contents(t).Keys, t.bitPos, p);
    }
    SharePrefixAdd(Contents(t).Keys, leaf, d, p);
  }

  lemma MergeKeys<K, V>(m: map<K, V>, n: map<K, V>)
    ensures (m + n).Keys == m.Keys + n.Keys
    ensures m.Keys !! n.Keys ==> m + n == n + m
  {
  }

  lemma BitsDisjoint(a: set<Digest>, b: set<Digest>, p: nat)
    requires p < DIGEST_BITS && AllBit(a, p, 0) && AllBit(b, p, 1)
    ensures a !! b
  {
  }

  lemma AllBitAdd(ds: set<Digest>, d: Digest, p: nat, b: nat)
    requires p < DIGEST_BITS && AllBit(ds, p, b) && GetBit(d, p) == b
    ensures AllBit(ds + {d}, p, b)
  {
  }

  lemma Join(p: nat, l: Node, r: Node)
    requires p < DIGEST_BITS && WellFormed(l, p + 1) && WellFormed(r, p + 1)
    requires AllBit(Contents(l).Keys, p, 0) && AllBit(Contents(r).Keys, p, 1)
    requires SharePrefix(Contents(l).Keys + Contents(r).Keys, p)
    ensures WellFormed(Internal(p, l, r), p)
    ensures Contents(Internal(p, l, r)) == Contents(l) + Contents(r) == Contents(r) + Contents(l)
  {
    MergeKeys(Contents(l), Contents(r));
    BitsDisjoint(Contents(l).Keys, Contents(r).Keys, p);
  }

  lemma SplitCorrect(t: Node, lo: nat, h: ObjHead, leaf: Digest, p: nat)
    requires WellFormed(t, lo)
    requires leaf in Contents(t) && FirstDiff(h.digest, leaf, p)
    requires t.Internal? ==> p < t.bitPos
    ensures WellFormed(Split(t, Leaf(h), p, h.digest), p)
    ensures Contents(Split(t, Leaf(h), p, h.digest)) == Contents(t)[h.digest := h]
  {
    var d := h.digest;
    CriticalBitOfSubtree(t, lo, d, leaf, p);
    assert Contents(Leaf(h)) == map[d := h];
    assert Contents(t).Keys + {d} == {d} + Contents(t).Keys;
    if GetBit(d, p) == 0 {
      Join(p, Leaf(h), t);
    } else {
      Join(p, t, Leaf(h));
    }
  }

  lemma MergeUpdate<K, V>(m: map<K, V>, n: map<K, V>, k: K, v: V)
    requires k !in m && k !in n
    ensures m[k := v] + n == (m + n)[k := v]
    ensures m + n[k := v] == (m + n)[k := v]
  {
  }

  lemma MergeRemove<K, V>(m: map<K, V>, n: map<K, V>, k: K)
    ensures k !in n ==> (m - {k}) + n == (m + n) - {k}
    ensures k !in m ==> m + (n - {k}) == (m + n) - {k}
  {
  }

  /** Insertion at the walked-to leaf's critical bit adds exactly the new head. */
  lemma {:induction false} InsertCorrect(t: Node, lo: nat, h: ObjHead, p: nat)
    requires WellFormed(t, lo) && BitsInRange(t)
    requires lo <= p && FirstDiff(h.digest, WalkToLeaf(t, h.digest).digest, p)
    ensures WellFormed(InsertNode(t, Leaf(h), p, h.digest), lo)
    ensures Contents(InsertNode(t, Leaf(h), p, h.digest)) == Contents(t)[h.digest := h]
    ensures h.digest !in Contents(t)
    decreases t, 1
  {
    var d := h.digest;
    var leaf := WalkToLeaf(t, d).digest;
    WalkFindsExactly(t, lo, d);
    if t.Leaf? || p < t.bitPos {
      SplitCorrect(t, lo, h, leaf, p);
    } else {
      InsertBelow(t, lo, h, leaf, p);
    }
  }

  lemma {:induction false} InsertBelow(t: Node, lo: nat, h: ObjHead, leaf: Digest, p: nat)
    requires t.Internal? && WellFormed(t, lo) && BitsInRange(t)
    requires leaf == WalkToLeaf(t, h.digest).digest
    requires t.bitPos <= p && FirstDiff(h.digest, leaf, p) && h.digest !in Contents(t)
    ensures WellFormed(InsertNode(t, Leaf(h), p, h.digest), lo)
    ensures Contents(InsertNode(t, Leaf(h), p, h.digest)) == Contents(t)[h.digest := h]
    decreases t, 0
  {
    var q, d := t.bitPos, h.digest;
    WalkedSide(t, lo, d);
    SharePrefixAdd(Contents(t).Keys, leaf, d, q);
    if GetBit(d, q) == 0 {
      InsertCorrect(t.left, q + 1, h, p);
      GraftLeft(t, lo, InsertNode(t.left, Leaf(h), p, d), h);
    } else {
      InsertCorrect(t.right, q + 1, h, p);
      GraftRight(t, lo, InsertNode(t.right, Leaf(h), p, d), h);
    }
  }

  /** The walked-to leaf is on the digest's own side of the root. */
  lemma WalkedSide(t: Node, lo: nat, d: Digest)
    requires t.Internal? && WellFormed(t, lo) && BitsInRange(t)
    ensures WalkToLeaf(t, d).digest in Contents(t) && GetBit(WalkToLeaf(t, d).digest, t.bitPos) == GetBit(d, t.bitPos)
  {
    WalkFindsExactly(if GetBit(d, t.bitPos) == 0 then t.left else t.right, t.bitPos + 1, d);
    MergeKeys(Contents(t.left), Contents(t.right));
  }

  /** A left subtree that has gained `h`, put back under its node. */
  lemma GraftLeft(t: Node, lo: nat, l: Node, h: ObjHead)
    requires t.Internal? && WellFormed(t, lo) && h.digest !in Contents(t) && GetBit(h.digest, t.bitPos) == 0
    requires SharePrefix(Contents(t).Keys + {h.digest}, t.bitPos)
    requires WellFormed(l, t.bitPos + 1) && Contents(l) == Contents(t.left)[h.digest := h]
    ensures WellFormed(Internal(t.bitPos, l, t.right), lo)
    ensures Contents(Internal(t.bitPos, l, t.right)) == Contents(t)[h.digest := h]
  {
    MergeKeys(Contents(t.left), Contents(t.right));
    assert Contents(l).Keys == Contents(t.left).Keys + {h.digest};
    AllBitAdd(Contents(t.left).Keys, h.digest, t.bitPos, 0);
    assert Contents(l).Keys + Contents(t.right).Keys == Contents(t).Keys + {h.digest};
    Join(t.bitPos, l, t.right);
    MergeUpdate(Contents(t.left), Contents(t.right), h.digest, h);
  }

  lemma GraftRight(t: Node, lo: nat, r: Node, h: ObjHead)
    requires t.Internal? && WellFormed(t, lo) && h.digest !in Contents(t) && GetBit(h.digest, t.bitPos) == 1
    requires SharePrefix(Contents(t).Keys + {h.digest}, t.bitPos)
    requires WellFormed(r, t.bitPos + 1) && Contents(r) == Contents(t.right)[h.digest := h]
    ensures WellFormed(Internal(t.bitPos, t.left, r), lo)
    ensures Contents(Internal(t.bitPos, t.left, r)) == Contents(t)[h.digest := h]
  {
    MergeKeys(Contents(t.left), Contents(t.right));
    assert Contents(r).Keys == Contents(t.right).Keys + {h.digest};
    AllBitAdd(Contents(t.right).Keys, h.digest, t.bitPos, 1);
    assert Contents(t.left).Keys + Contents(r).Keys == Contents(t).Keys + {h.digest};
    Join(t.bitPos, t.left, r);
    MergeUpdate(Contents(t.left), Contents(t.right), h.digest, h);
  }

  // ---------------------------------------------------------------- removal

  ghost function RootContents(r: Option<Node>): (m: map<Digest, ObjHead>)
    ensures forall d | d in m :: m[d].digest == d
  {
    if r.None? then map[] else Contents(r.value)
  }

  ghost predicate RootWellFormed(r: Option<Node>, lo: nat) {
    r.Some? ==> WellFormed(r.value, lo)
  }

  lemma WeakenLo(t: Node, lo: nat, lo': nat)
    requires lo' <= lo && WellFormed(t, lo)
    ensures WellFormed(t, lo')
  {
  }

  /** Replacing one side by a tree with fewer digests keeps the node well formed. */
  lemma ShrinkSide(t: Node, lo: nat, l: Node, r: Node)
    requires t.Internal? && WellFormed(t, lo)
    requires WellFormed(l, t.bitPos + 1) && Contents(l).Keys <= Contents(t.left).Keys
    requires WellFormed(r, t.bitPos + 1) && Contents(r).Keys <= Contents(t.right).Keys
    ensures WellFormed(Internal(t.bitPos, l, r), lo)
  {
    var s := Internal(t.bitPos, l, r);
    assert Contents(s).Keys <= Contents(t).Keys;
  }

  /** What removal from one side leaves, put back beside the other side. */
  ghost predicate RemovedFrom(r: (Option<Node>, Option<ObjHead>), t: Node, lo: nat, d: Digest) {
    && RootWellFormed(r.0, lo)
    && RootContents(r.0) == Contents(t) - {d}
    && r.1 == if d in Contents(t) then Some(Contents(t)[d]) else None
  }

  lemma RemoveLeft(t: Node, lo: nat, d: Digest)
    requires t.Internal? && WellFormed(t, lo) && BitsInRange(t) && GetBit(d, t.bitPos) == 0
    requires RemovedFrom(RemoveNode(t.left, d), t.left, t.bitPos + 1, d)
    ensures RemovedFrom(RemoveNode(t, d), t, lo, d)
  {
    var l, r := t.left, t.right;
    MergeRemove(Contents(l), Contents(r), d);
    assert d !in Contents(r).Keys;
    var l' := RemoveNode(l, d).0;
    if l'.Some? {
      ShrinkSide(t, lo, l'.value, r);
    } else {
      WeakenLo(r, t.bitPos + 1, lo);
      assert Contents(r) == map[] + Contents(r);
    }
  }

  lemma RemoveRight(t: Node, lo: nat, d: Digest)
    requires t.Internal? && WellFormed(t, lo) && BitsInRange(t) && GetBit(d, t.bitPos) == 1
    requires RemovedFrom(RemoveNode(t.right, d), t.right, t.bitPos + 1, d)
    ensures RemovedFrom(RemoveNode(t, d), t, lo, d)
  {
    var l, r := t.left, t.right;
    MergeRemove(Contents(l), Contents(r), d);
    assert d !in Contents(l).Keys;
    var r' := RemoveNode(r, d).0;
    if r'.Some? {
      ShrinkSide(t, lo, l, r'.value);
    } else {
      WeakenLo(l, t.bitPos + 1, lo);
      assert Contents(l) == Contents(l) + map[];
    }
  }

  /** Removal deletes exactly the digest asked for and reports what it deleted. */
  lemma {:induction false} RemoveCorrect(t: Node, lo: nat, d: Digest)
    requires WellFormed(t, lo) && BitsInRange(t)
    ensures RootWellFormed(RemoveNode(t, d).0, lo)
    ensures RootContents(RemoveNode(t, d).0) == Contents(t) - {d}
    ensures RemoveNode(t, d).1 == if d in Contents(t) then Some(Contents(t)[d]) else None
  {
    if t.Internal? {
      if GetBit(d, t.bitPos) == 0 {
        RemoveCorrect(t.left, t.bitPos + 1, d);
        RemoveLeft(t, lo, d);
      } else {
        RemoveCorrect(t.right, t.bitPos + 1, d);
        RemoveRight(t, lo, d);
      }
    }
  }
}
