/**
 * Short runs of the persistent store on a new file that reach the cases in which it does not
 * keep what it holds: freed all-zero digests, restarts after a compaction, and digests
 * allocated while they are live.
 */
module SlabCases {
  import opened Types
  import opened Slabs
  import opened Compaction
  import opened SlabTable
  import opened SlabRestart
  import opened SlabRuns

  /** Room for two of the smallest slabs. */
  const ROOM: nat := DATA_REGION_OFFSET + 2 * MIN_SLAB

  /** The smallest slab at position `i` of a vector of such slabs. */
  function Slot(i: nat, inUse: bool, d: Digest, len: nat): Slab {
    Slab(i, DATA_REGION_OFFSET + MIN_SLAB * i, MIN_SLAB, inUse, d, len)
  }

  function New(total: nat): Store
    requires ROOM <= total
  {
    Open(None, total)
  }

  function One(total: nat, a: Digest): Store
    requires ROOM <= total
  {
    Alloc(New(total), a, MIN_SLAB, total).0
  }

  function Two(total: nat, a: Digest, b: Digest): Store
    requires ROOM <= total
  {
    Alloc(One(total, a), b, MIN_SLAB, total).0
  }

  /** An allocation that adds a slab. */
  lemma AllocAdds(s: Store, d: Digest, slab: Slab, total: nat)
    requires Inv(s, total) && |s.mem| == total
    requires FirstFit(s.allocs, MIN_SLAB, 0).None? && NewSlab(s.allocs, MIN_SLAB, total) == Some(slab)
    ensures var s' := Alloc(s, d, MIN_SLAB, total).0;
            && s'.allocs == s.allocs + [slab.(inUse := true, digest := d, bodyLen := 0)] &&
                s'.index == s.index[d := |s.allocs|]
            && Inv(s', total) && (Synced(s) ==> Synced(s')) && |s'.mem| == total
  {
    AllocInv(s, d, MIN_SLAB, total);
    if Synced(s) {
      AllocSyncs(s, d, MIN_SLAB, total);
    }
    assert Choose(s.allocs, MIN_SLAB, total) == Some((s.allocs + [slab], |s.allocs|));
  }

  lemma FirstSlot(total: nat)
    requires ROOM <= total
    ensures NewSlab([], MIN_SLAB, total) == Some(Slot(0, false, ZERO_DIGEST, 0))
  {
  }

  lemma SecondSlot(total: nat, a: Digest)
    requires ROOM <= total
    ensures var allocs := [Slot(0, true, a, 0)];
            FirstFit(allocs, MIN_SLAB, 0).None? &&
                NewSlab(allocs, MIN_SLAB, total) == Some(Slot(1, false, ZERO_DIGEST, 0))
  {
    var allocs := [Slot(0, true, a, 0)];
    assert allocs[..0] == [];
    assert MaxEnd(allocs) == DATA_REGION_OFFSET + MIN_SLAB;
  }

  lemma OneHolds(total: nat, a: Digest)
    requires ROOM <= total
    ensures One(total, a).allocs == [Slot(0, true, a, 0)] && One(total, a).index == map[a := 0]
    ensures Inv(One(total, a), total) && Synced(One(total, a)) && |One(total, a).mem| == total
  {
    NewFileSynced(total);
    FirstSlot(total);
    AllocAdds(New(total), a, Slot(0, false, ZERO_DIGEST, 0), total);
  }

  lemma TwoHold(total: nat, a: Digest, b: Digest)
    requires ROOM <= total
    ensures Two(total, a, b).allocs == [Slot(0, true, a, 0), Slot(1, true, b, 0)]
    ensures Two(total, a, b).index == map[a := 0][b := 1]
    ensures Inv(Two(total, a, b), total) && Synced(Two(total, a, b)) && |Two(total, a, b).mem| == total
    ensures a != b ==> OneToOne(Two(total, a, b).index, Two(total, a, b).allocs)
  {
    OneHolds(total, a);
    SecondSlot(total, a);
    AllocAdds(One(total, a), b, Slot(1, false, ZERO_DIGEST, 0), total);
  }

  /** The first of two slabs is freed. */
  lemma FreedFirst(total: nat, a: Digest, b: Digest)
    requires ROOM <= total && a != b
    ensures var s := Free(Two(total, a, b), a);
            && s.allocs == [Slot(0, false, a, 0), Slot(1, true, b, 0)] && s.index == map[b := 1]
            && Inv(s, total) && Synced(s) && |s.mem| == total && OneToOne(s.index, s.allocs)
  {
    TwoHold(total, a, b);
    FreeFirst(Two(total, a, b), total, a, b, 0);
    FreeSyncs(Two(total, a, b), a, total);
  }

  lemma FreeFirst(s: Store, total: nat, a: Digest, b: Digest, len: nat)
    requires Inv(s, total) && OneToOne(s.index, s.allocs) && a != b
    requires s.allocs == [Slot(0, true, a, 0), Slot(1, true, b, len)] && s.index == map[a := 0][b := 1]
    ensures var s' := Free(s, a);
            && s'.allocs == [Slot(0, false, a, 0), Slot(1, true, b, len)] && s'.index == map[b := 1]
            && Inv(s', total) && |s'.mem| == |s.mem| && OneToOne(s'.index, s'.allocs)
  {
    FreeInv(s, a, total);
    FreeOneToOne(s, a, total);
    LiveSizeUpdate(s.allocs, 0, Slot(0, false, a, 0));
  }

  // ---------------------------------------------------------------- the zero digest

  /**
   * Store the zero digest, store `b`, free the zero digest: `b` is live, but a restart
   * recovers nothing.
   */
  lemma RestartLosesLive(total: nat, b: Digest)
    requires ROOM <= total && Fits(total) && b != ZERO_DIGEST
    ensures var s := Free(Two(total, ZERO_DIGEST, b), ZERO_DIGEST);
            b in s.index && Open(Some(s.mem), total).allocs == [] && b !in Open(Some(s.mem), total).index
  {
    var s := Free(Two(total, ZERO_DIGEST, b), ZERO_DIGEST);
    FreedFirst(total, ZERO_DIGEST, b);
    LosesAll(s, total);
  }

  lemma LosesAll(s: Store, total: nat)
    requires Inv(s, total) && Synced(s) && Fits(total) && |s.mem| == total
    requires s.allocs != [] && LooksBlank(s.allocs[0])
    ensures Open(Some(s.mem), total).allocs == [] && Open(Some(s.mem), total).index == map[]
  {
    RestartReads(s.mem, s.allocs, total);
  }

  /** Freeing the only slab, of the zero digest, and compacting keeps the table in step although a slab is dropped. */
  lemma CompactDropsBlank(total: nat)
    requires ROOM <= total
    ensures var s := Free(One(total, ZERO_DIGEST), ZERO_DIGEST);
            |s.allocs| == 1 && !s.allocs[0].inUse && Inv(s, total) && Synced(Compact(s, total))
  {
    var s0 := One(total, ZERO_DIGEST);
    var s := Free(s0, ZERO_DIGEST);
    OneHolds(total, ZERO_DIGEST);
    FreeInv(s0, ZERO_DIGEST, total);
    FreeSyncs(s0, ZERO_DIGEST, total);
    LiveSizeUpdate(s0.allocs, 0, Slot(0, false, ZERO_DIGEST, 0));
    assert BlankAfter(s.allocs, 0);
    CompactSyncs(s, total);
  }

  /** Freeing the first of two nonzero digests and compacting leaves a table that is out of step. */
  lemma CompactLosesStep(total: nat, a: Digest, b: Digest)
    requires ROOM <= total && a != b && a != ZERO_DIGEST
    ensures var s := Free(Two(total, a, b), a); Inv(s, total) && Synced(s) && !Synced(Compact(s, total))
  {
    var s := Free(Two(total, a, b), a);
    FreedFirst(total, a, b);
    CompactSyncs(s, total);
    assert !s.allocs[0].inUse && !LooksBlank(s.allocs[0]);
  }

  // ---------------------------------------------------------------- a restart after a compaction

  /** Two digests are stored, the first is freed, and the store is compacted. */
  ghost function Squeezed(total: nat, a: Digest, b: Digest): Store
    requires ROOM <= total && a != b
  {
    FreedFirst(total, a, b);
    Compact(Free(Two(total, a, b), a), total)
  }

  /** What the table describes then: the freed slab, and `b` on top of it. */
  function SqueezedTable(a: Digest, b: Digest): seq<Slab> {
    [Slot(0, false, a, 0), Slot(0, true, b, 0).(index := 1)]
  }

  lemma MovesOver(s: Store, total: nat, a: Digest, b: Digest)
    requires Inv(s, total) && |s.mem| == total && s.allocs == [Slot(0, false, a, 0), Slot(1, true, b, 0)]
    ensures Packed(s, total).allocs == SqueezedTable(a, b)
  {
    var order := Order(s.allocs);
    assert Chained(Packed(s, total).allocs, order, DATA_REGION_OFFSET) &&
           forall i :: i in order <==> 0 <= i < 2 && s.allocs[i].inUse by { PackedBlock(s, total); }
    assert 1 in order && order[0] in order;
    PackedPlace(s, total, 0);
    PackedPlace(s, total, 1);
  }

  /** Of a free and a live slab only the second is kept and indexed. */
  lemma SecondLive(s: Slab, t: Slab)
    requires !s.inUse && t.inUse
    ensures Active([s, t]) == [t.(index := 0)] && BuildIndex([s, t]) == map[t.digest := 1]
  {
    assert [s, t][..1] == [s] && [s][..0] == [];
    assert Active([s]) == Active([]) == [];
    assert BuildIndex([s]) == BuildIndex([]) == map[];
  }

  lemma OnlyIndexed(t: Slab)
    requires t.inUse
    ensures BuildIndex([t]) == map[t.digest := 0]
  {
    assert [t][..0] == [];
  }

  lemma SqueezeHolds(s: Store, total: nat, a: Digest, b: Digest)
    requires Inv(s, total) && |s.mem| == total && s.allocs == [Slot(0, false, a, 0), Slot(1, true, b, 0)] && Synced(s)
    ensures var s' := Compact(s, total);
            && s'.allocs == [Slot(0, true, b, 0)] && s'.index == map[b := 0] && |s'.mem| == total
            && Described(s', SqueezedTable(a, b), total)
  {
    MovesOver(s, total, a, b);
    PackedSynced(s, total);
    SecondLive(Slot(0, false, a, 0), Slot(0, true, b, 0).(index := 1));
    OnlyIndexed(Slot(0, true, b, 0));
  }

  lemma SqueezedHolds(total: nat, a: Digest, b: Digest)
    requires ROOM <= total && a != b
    ensures var s := Squeezed(total, a, b);
            && s.allocs == [Slot(0, true, b, 0)] && s.index == map[b := 0] && Inv(s, total) && |s.mem| == total
            && Described(s, SqueezedTable(a, b), total)
  {
    var s := Free(Two(total, a, b), a);
    FreedFirst(total, a, b);
    SqueezeHolds(s, total, a, b);
    CompactInv(s, total);
  }

  lemma PairRecovered(s: Slab, t: Slab)
    requires !LooksBlank(s) && t.inUse && s.bodyLen == t.bodyLen == 0
    ensures Recovered([s, t]) == [s, t]
  {
    assert BlankFrom([s, t], 0) == 2;
  }

  /**
   * A restart at this point finds the freed slab and `b` in the same place: the restarted
   * store is not sound.
   */
  lemma RestartOverlaps(total: nat, a: Digest, b: Digest)
    requires ROOM <= total && Fits(total) && a != b && a != ZERO_DIGEST
    ensures var s' := Open(Some(Squeezed(total, a, b).mem), total);
            s'.allocs == SqueezedTable(a, b) && !Inv(s', total)
  {
    SqueezedHolds(total, a, b);
    var table := SqueezedTable(a, b);
    RestartReads(Squeezed(total, a, b).mem, table, total);
    PairRecovered(table[0], table[1]);
    assert !Apart(table[0], table[1]);
  }

  /**
   * Store `c` before the restart: every slab is in use, but `c` has taken the table entry
   * that described `b`, and the restart loses `b`.
   */
  lemma RestartForgets(total: nat, a: Digest, b: Digest, c: Digest)
    requires ROOM <= total && Fits(total) && a != b && a != ZERO_DIGEST && c != b
    ensures var s := Alloc(Squeezed(total, a, b), c, MIN_SLAB, total).0;
            && s.allocs == [Slot(0, true, b, 0), Slot(1, true, c, 0)] && s.index == map[b := 0][c := 1]
            && Open(Some(s.mem), total).index == map[c := 1]
  {
    SqueezedHolds(total, a, b);
    StoreNext(Squeezed(total, a, b), total, a, b, c);
  }

  lemma StoreNext(s: Store, total: nat, a: Digest, b: Digest, c: Digest)
    requires ROOM <= total && Fits(total) && a != ZERO_DIGEST && c != b
    requires s.allocs == [Slot(0, true, b, 0)] && s.index == map[b := 0] && Inv(s, total) && |s.mem| == total
    requires Described(s, SqueezedTable(a, b), total)
    ensures var s' := Alloc(s, c, MIN_SLAB, total).0;
            && s'.allocs == [Slot(0, true, b, 0), Slot(1, true, c, 0)] && s'.index == map[b := 0][c := 1]
            && Open(Some(s'.mem), total).index == map[c := 1]
  {
    var s', table := Alloc(s, c, MIN_SLAB, total).0, [Slot(0, false, a, 0), Slot(1, true, c, 0)];
    SecondSlot(total, b);
    AllocAdds(s, c, Slot(1, false, ZERO_DIGEST, 0), total);
    assert Described(s', table, total) by { EntryTaken(s, total, a, b, c); }
    RestartReads(s'.mem, table, total);
    PairRecovered(table[0], table[1]);
    SecondLive(table[0], table[1]);
  }

  lemma EntryTaken(s: Store, total: nat, a: Digest, b: Digest, c: Digest)
    requires Inv(s, total) && Described(s, SqueezedTable(a, b), total)
    requires var (s', r) := Alloc(s, c, MIN_SLAB, total);
             r == Ok && s'.allocs == [Slot(0, true, b, 0), Slot(1, true, c, 0)] && c in s'.index && s'.index[c] == 1
    ensures Described(Alloc(s, c, MIN_SLAB, total).0, [Slot(0, false, a, 0), Slot(1, true, c, 0)], total)
  {
    AllocDescribed(s, SqueezedTable(a, b), c, MIN_SLAB, total);
    assert Entered(SqueezedTable(a, b), Slot(1, true, c, 0)) == [Slot(0, false, a, 0), Slot(1, true, c, 0)];
  }

  // ---------------------------------------------------------------- a live digest allocated again

  /** Two slabs carry `d`; only the second is indexed. */
  lemma AllocatedTwice(total: nat, d: Digest)
    requires ROOM <= total
    ensures var s := Two(total, d, d);
            |s.allocs| == 2 && s.allocs[0].inUse && s.allocs[0].digest == d && s.index == map[d := 1] &&
            !OneToOne(s.index, s.allocs)
  {
    TwoHold(total, d, d);
    SecondOnly(Two(total, d, d), d);
  }

  lemma SecondOnly(s: Store, d: Digest)
    requires s.allocs == [Slot(0, true, d, 0), Slot(1, true, d, 0)] && s.index == map[d := 0][d := 1]
    ensures s.index == map[d := 1] && !OneToOne(s.index, s.allocs)
  {
    assert s.allocs[0].inUse && s.allocs[0].digest == d;
  }

  /**
   * Store `a` and `d` with body `x`, free `a`, store `d` again with body `y`, compact: `d`
   * has its old body back.
   */
  lemma OldBodyReturns(total: nat, a: Digest, d: Digest, x: seq<byte>, y: seq<byte>)
    requires ROOM <= total && a != d && 0 < |x| <= MIN_SLAB && |y| <= MIN_SLAB
    ensures var s := Free(Extend(Two(total, a, d), d, x).0, a);
            var s1 := Alloc(s, d, MIN_SLAB, total).0;
            var s2 := Extend(s1, d, y).0;
            && Extend(s1, d, y).1 == Ok && Body(s2, d) == y
            && Inv(s2, total) && GetBody(Compact(s2, total), d) == Some(x)
  {
    var s := Free(Extend(Two(total, a, d), d, x).0, a);
    StoredThenFreed(total, a, d, x);
    Reallocated(s, total, a, d, |x|, y);
    ReallocThenCompact(s, d, MIN_SLAB, y, total);
  }

  lemma StoredThenFreed(total: nat, a: Digest, d: Digest, x: seq<byte>)
    requires ROOM <= total && a != d && 0 < |x| <= MIN_SLAB
    ensures var s := Free(Extend(Two(total, a, d), d, x).0, a);
            && s.allocs == [Slot(0, false, a, 0), Slot(1, true, d, |x|)] && d in s.index && s.index[d] == 1
            && Inv(s, total) && |s.mem| == total && OneToOne(s.index, s.allocs) && GetBody(s, d) == Some(x)
  {
    var s0 := Two(total, a, d);
    var sx := Extend(s0, d, x).0;
    StoredBody(total, a, d, x);
    FreeFirst(sx, total, a, d, |x|);
    FreeOther(sx, a, total, d);
  }

  lemma StoredBody(total: nat, a: Digest, d: Digest, x: seq<byte>)
    requires ROOM <= total && a != d && 0 < |x| <= MIN_SLAB
    ensures var s := Extend(Two(total, a, d), d, x).0;
            && s.allocs == [Slot(0, true, a, 0), Slot(1, true, d, |x|)] && s.index == map[a := 0][d := 1]
            && Inv(s, total) && |s.mem| == total && OneToOne(s.index, s.allocs) && GetBody(s, d) == Some(x)
  {
    TwoHold(total, a, d);
    ExtendSecond(Two(total, a, d), total, a, d, x);
  }

  lemma ExtendSecond(s: Store, total: nat, a: Digest, d: Digest, x: seq<byte>)
    requires Inv(s, total) && |s.mem| == total && OneToOne(s.index, s.allocs) && 0 < |x| <= MIN_SLAB
    requires s.allocs == [Slot(0, true, a, 0), Slot(1, true, d, 0)] && s.index == map[a := 0][d := 1]
    ensures var s' := Extend(s, d, x).0;
            && s'.allocs == [Slot(0, true, a, 0), Slot(1, true, d, |x|)] && s'.index == s.index
            && Inv(s', total) && |s'.mem| == total && OneToOne(s'.index, s'.allocs) && GetBody(s', d) == Some(x)
  {
    assert Extend(s, d, x) == (Appended(s, 1, x), Ok);
    AppendedInv(s, 1, x, total);
    ExtendOneToOne(s, d, x, total);
    AppendedOwn(s, 1, x, total);
    assert s.mem != [] && Content(s.mem, s.allocs[1]) == [];
  }

  /** Free `d` instead of extending it: its old body is back after compaction, and `d` with it. */
  lemma FreedObjectReturns(total: nat, a: Digest, d: Digest, x: seq<byte>)
    requires ROOM <= total && a != d && 0 < |x| <= MIN_SLAB
    ensures var s := Free(Extend(Two(total, a, d), d, x).0, a);
            var s2 := Free(Alloc(s, d, MIN_SLAB, total).0, d);
            d !in s2.index && Inv(s2, total) && GetBody(Compact(s2, total), d) == Some(x)
  {
    var s := Free(Extend(Two(total, a, d), d, x).0, a);
    StoredThenFreed(total, a, d, x);
    Reallocated(s, total, a, d, |x|, []);
    FreedReturns(s, d, MIN_SLAB, total);
  }

  /** The freed first slab is taken for `d`, which is live in the second. */
  lemma Reallocated(s: Store, total: nat, a: Digest, d: Digest, len: nat, y: seq<byte>)
    requires Inv(s, total) && |s.mem| == total && |y| <= MIN_SLAB
    requires s.allocs == [Slot(0, false, a, 0), Slot(1, true, d, len)]
    ensures var (s1, r) := Alloc(s, d, MIN_SLAB, total);
            && r == Ok && d in s1.index && s1.index[d] == 0
            && Extend(s1, d, y).1 == Ok && Body(Extend(s1, d, y).0, d) == y
  {
    var s1 := Alloc(s, d, MIN_SLAB, total).0;
    assert FirstFit(s.allocs, MIN_SLAB, 0) == Some(0);
    AllocInv(s, d, MIN_SLAB, total);
    AllocBodies(s, d, MIN_SLAB, total);
    ExtendAnswers(s1, d, y, total);
    ExtendBodies(s1, d, y, total);
  }

  // ---------------------------------------------------------------- a bad header

  /** With its first byte overwritten, a file with one slab opens as empty, and with the slab when opened again. */
  lemma DamagedHeader(total: nat, a: Digest)
    requires ROOM <= total && Fits(total)
    ensures var mem := One(total, a).mem;
            && |mem| == total
            && var s := Open(Some(mem[0 := 0]), total);
               s.allocs == [] && Open(Some(s.mem), total).allocs == [Slot(0, true, a, 0)]
  {
    var s := One(total, a);
    OneHolds(total, a);
    Overwritten(s, total);
    assert Recovered(s.allocs) == s.allocs;
  }

  lemma Overwritten(s: Store, total: nat)
    requires Inv(s, total) && Synced(s) && Fits(total) && |s.mem| == total
    ensures var s' := Open(Some(s.mem[0 := 0]), total);
            s'.allocs == [] && Open(Some(s'.mem), total).allocs == Recovered(s.allocs)
  {
    var file := s.mem[0 := 0];
    assert !HeaderOk(file) by { assert file[..8][0] == 0; }
    assert forall i | 0 <= i < |s.allocs| :: Placed(s.allocs[i], total);
    SameTable(s.mem, file, s.allocs);
    ForgottenReturn(file, s.allocs, total);
  }

  // ---------------------------------------------------------------- opening an open store

  /** Opening a store that is already open lists every slab twice, one on top of the other. */
  lemma ReopenDuplicates(total: nat, a: Digest)
    requires ROOM <= total && Fits(total)
    ensures var s := One(total, a);
            var s' := Reopen(s, Some(s.mem), total);
            s'.allocs == [Slot(0, true, a, 0), Slot(0, true, a, 0)] && !Inv(s', total)
  {
    var s := One(total, a);
    OneHolds(total, a);
    ReopenAppends(s, total);
    ReopenExact(s, total);
    assert Recovered(s.allocs) == s.allocs;
  }
}
