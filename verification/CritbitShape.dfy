/** The shape of a crit-bit tree is a function of its contents (crates/rv-hash/src/critbit.rs). */
module CritbitShape {
  import opened Types
  import opened ObjHeads
  import opened DigestBits
  import opened Critbit

  // ---------------------------------------------------------------- canonicity

  lemma TwoLeaves(t: Node, lo: nat) returns (a: Digest, b: Digest)
    requires t.Internal? && WellFormed(t, lo)
    ensures a in Contents(t).Keys && b in Contents(t).Keys
    ensures GetBit(a, t.bitPos) == 0 && GetBit(b, t.bitPos) == 1
  {
    a :| a in Contents(t.left).Keys;
    b :| b in Contents(t.right).Keys;
  }

  /** An internal node's bit is where its leaves first disagree, so contents determine it. */
  lemma BitIsForced(t: Node, u: Node, lo: nat)
    requires t.Internal? && WellFormed(t, lo)
    requires u.Internal? && WellFormed(u, lo)
    requires Contents(t).Keys == Contents(u).Keys
    ensures t.bitPos == u.bitPos
  {
    var a, b := TwoLeaves(t, lo);
    var c, d := TwoLeaves(u, lo);
    assert AgreeBelow(a, b, u.bitPos);
    assert AgreeBelow(c, d, t.bitPos);
  }

  /** Each side holds what the node's bit selects. */
  lemma SideContents(t: Node, lo: nat)
    requires t.Internal? && WellFormed(t, lo)
    ensures Contents(t.left) == map d | d in Contents(t) && GetBit(d, t.bitPos) == 0 :: Contents(t)[d]
    ensures Contents(t.right) == map d | d in Contents(t) && GetBit(d, t.bitPos) == 1 :: Contents(t)[d]
  {
    SidesDisjoint(t, lo);
  }

  lemma SameSides(t: Node, u: Node, lo: nat)
    requires t.Internal? && WellFormed(t, lo)
    requires u.Internal? && WellFormed(u, lo)
    requires Contents(t) == Contents(u)
    ensures t.bitPos == u.bitPos
    ensures Contents(t.left) == Contents(u.left)
    ensures Contents(t.right) == Contents(u.right)
  {
    BitIsForced(t, u, lo);
    SideContents(t, lo);
    SideContents(u, lo);
  }

  /** Two well-formed trees that store the same heads are the same tree. */
  lemma {:induction false} Canonical(t: Node, u: Node, lo: nat)
    requires WellFormed(t, lo) && WellFormed(u, lo)
    requires Contents(t) == Contents(u)
    ensures t == u
  {
    SameKind(t, u, lo);
    if t.Internal? {
      SameSides(t, u, lo);
      Canonical(t.left, u.left, t.bitPos + 1);
      Canonical(t.right, u.right, t.bitPos + 1);
    }
  }

  /** A leaf stores one head and an internal node at least two. */
  lemma SameKind(t: Node, u: Node, lo: nat)
    requires WellFormed(t, lo) && WellFormed(u, lo)
    requires Contents(t) == Contents(u)
    ensures t.Leaf? <==> u.Leaf?
    ensures t.Leaf? ==> t == u
  {
    if t.Leaf? && u.Leaf? {
      assert t.head.digest in Contents(u);
    } else if t.Leaf? {
      var _, _ := TwoLeaves(u, lo);
    } else if u.Leaf? {
      var _, _ := TwoLeaves(t, lo);
    }
  }

  ghost function Depth(t: Node): nat {
    match t
    case Leaf(_) => 0
    case Internal(_, l, r) => 1 + if Depth(l) > Depth(r) then Depth(l) else Depth(r)
  }

  /** No path has more than one internal node per digest bit. */
  lemma {:induction false} DepthBound(t: Node, lo: nat)
    requires lo <= DIGEST_BITS && WellFormed(t, lo)
    ensures Depth(t) <= DIGEST_BITS - lo
  {
    match t
    case Leaf(_) =>
    case Internal(p, l, r) =>
      DepthBound(l, p + 1);
      DepthBound(r, p + 1);
  }

  lemma CanonicalRoot(r: Option<Node>, s: Option<Node>)
    requires RootWellFormed(r, 0) && RootWellFormed(s, 0)
    requires RootContents(r) == RootContents(s)
    ensures r == s
  {
    if r.Some? && s.Some? {
      Canonical(r.value, s.value, 0);
    }
  }

  /** Removing a digest that was just inserted restores the tree itself, not just its contents. */
  lemma RemoveUndoesInsert(t: Node, h: ObjHead, p: nat)
    requires WellFormed(t, 0) && BitsInRange(t)
    requires FirstDiff(h.digest, WalkToLeaf(t, h.digest).digest, p)
    ensures BitsInRange(InsertNode(t, Leaf(h), p, h.digest))
    ensures RemoveNode(InsertNode(t, Leaf(h), p, h.digest), h.digest) == (Some(t), Some(h))
  {
    var s := InsertNode(t, Leaf(h), p, h.digest);
    assert WellFormed(s, 0) && h.digest !in Contents(t) && Contents(s) == Contents(t)[h.digest := h] by {
      InsertCorrect(t, 0, h, p);
    }
    RemovedAgain(s, t, h);
  }

  lemma AddThenRemove(m: map<Digest, ObjHead>, h: ObjHead)
    ensures h.digest !in m ==> m[h.digest := h] - {h.digest} == m
  {
  }

  lemma RemovedAgain(s: Node, t: Node, h: ObjHead)
    requires WellFormed(s, 0) && WellFormed(t, 0)
    requires h.digest !in Contents(t) && Contents(s) == Contents(t)[h.digest := h]
    ensures BitsInRange(s) && RemoveNode(s, h.digest) == (Some(t), Some(h))
  {
    WellFormedInRange(s, 0);
    RemoveCorrect(s, 0, h.digest);
    AddThenRemove(Contents(t), h);
    CanonicalRoot(RemoveNode(s, h.digest).0, Some(t));
  }

  // ---------------------------------------------------------------- insertion order

  /** The root after a lookup that offers `h`: unchanged when the digest is already stored. */
  ghost function InsertRoot(r: Option<Node>, h: ObjHead): (r': Option<Node>)
    requires RootWellFormed(r, 0)
    ensures RootWellFormed(r', 0)
    ensures h.digest in RootContents(r) ==> r' == r
    ensures h.digest !in RootContents(r) ==> RootContents(r') == RootContents(r)[h.digest := h]
  {
    if r.None? then Some(Leaf(h))
    else
      WalkFindsExactly(r.value, 0, h.digest);
      var leaf := WalkToLeaf(r.value, h.digest).digest;
      if leaf == h.digest then r
      else
        var p := CriticalBit(h.digest, leaf);
        InsertCorrect(r.value, 0, h, p);
        Some(InsertNode(r.value, Leaf(h), p, h.digest))
  }

  ghost function Build(hs: seq<ObjHead>): (r: Option<Node>)
    ensures RootWellFormed(r, 0)
  {
    if hs == [] then None else InsertRoot(Build(hs[..|hs| - 1]), hs[|hs| - 1])
  }

  ghost predicate DistinctDigests(hs: seq<ObjHead>) {
    forall i, j :: 0 <= i < j < |hs| ==> hs[i].digest != hs[j].digest
  }

  /** `m` holds exactly the heads of `hs`. */
  ghost predicate Holds(m: map<Digest, ObjHead>, hs: seq<ObjHead>) {
    && (forall i | 0 <= i < |hs| :: hs[i].digest in m && m[hs[i].digest] == hs[i])
    && (forall d | d in m :: m[d] in hs)
  }

  lemma HoldsExtend(m: map<Digest, ObjHead>, hs: seq<ObjHead>, h: ObjHead)
    requires Holds(m, hs) && DistinctDigests(hs + [h])
    requires forall d | d in m :: m[d].digest == d
    ensures h.digest !in m
    ensures Holds(m[h.digest := h], hs + [h])
  {
    var ext := hs + [h];
    forall i | 0 <= i < |hs|
      ensures hs[i].digest != h.digest
    {
      assert ext[i].digest != ext[|hs|].digest;
    }
  }

  lemma {:induction false} BuildContents(hs: seq<ObjHead>)
    requires DistinctDigests(hs)
    ensures Holds(RootContents(Build(hs)), hs)
  {
    if hs != [] {
      var init, last := hs[..|hs| - 1], hs[|hs| - 1];
      BuildContents(init);
      assert hs == init + [last];
      HoldsExtend(RootContents(Build(init)), init, last);
    }
  }

  lemma BuildIncluded(hs: seq<ObjHead>, ks: seq<ObjHead>)
    requires DistinctDigests(hs) && DistinctDigests(ks)
    requires forall h :: h in hs ==> h in ks
    ensures var m, n := RootContents(Build(hs)), RootContents(Build(ks));
            forall d | d in m :: d in n && m[d] == n[d]
  {
    BuildContents(hs);
    BuildContents(ks);
    var m := RootContents(Build(hs));
    forall d | d in m
      ensures var n := RootContents(Build(ks)); d in n && m[d] == n[d]
    {
      assert m[d] in ks;
      var i :| 0 <= i < |ks| && ks[i] == m[d];
    }
  }

  /** The tree does not remember in which order its digests arrived. */
  lemma OrderIndependent(hs: seq<ObjHead>, ks: seq<ObjHead>)
    requires DistinctDigests(hs) && DistinctDigests(ks)
    requires forall h :: h in hs <==> h in ks
    ensures Build(hs) == Build(ks)
  {
    BuildIncluded(hs, ks);
    BuildIncluded(ks, hs);
    assert RootContents(Build(hs)) == RootContents(Build(ks));
    CanonicalRoot(Build(hs), Build(ks));
  }
}
