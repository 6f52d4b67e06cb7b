/** Whole runs of the persistent store: safety, stored bodies, and recovery after a restart. */
module SlabRuns {
  import opened Types
  import opened Slabs
  import opened Compaction
  import opened SlabTable

  datatype Op =
    | DoAlloc(d: Digest, hint: nat)
    | DoExtend(d: Digest, data: seq<byte>)
    | DoFree(d: Digest)
    | DoCompact

  ghost function Step(s: Store, op: Op, total: nat): (r: Store)
    requires Inv(s, total)
  {
    match op
    case DoAlloc(d, hint) => Alloc(s, d, hint, total).0
    case DoExtend(d, data) => Extend(s, d, data).0
    case DoFree(d) => Free(s, d)
    case DoCompact => Compact(s, total)
  }

  lemma StepInv(s: Store, op: Op, total: nat)
    requires Inv(s, total)
    ensures Inv(Step(s, op, total), total)
  {
    match op
    case DoAlloc(d, hint) => AllocInv(s, d, hint, total);
    case DoExtend(d, data) => ExtendInv(s, d, data, total);
    case DoFree(d) => FreeInv(s, d, total);
    case DoCompact => CompactInv(s, total);
  }

  ghost function Run(s: Store, ops: seq<Op>, total: nat): (r: Store)
    requires Inv(s, total)
    decreases |ops|
  {
    if ops == [] then s
    else
      StepInv(s, ops[0], total);
      Run(Step(s, ops[0], total), ops[1..], total)
  }

  /** Slabs stay disjoint, aligned and in the data region over every run, and the used size is exact. */
  lemma {:induction false} RunInv(s: Store, ops: seq<Op>, total: nat)
    requires Inv(s, total)
    ensures Inv(Run(s, ops, total), total)
    decreases |ops|
  {
    if ops != [] {
      StepInv(s, ops[0], total);
      RunInv(Step(s, ops[0], total), ops[1..], total);
    }
  }

  // ---------------------------------------------------------------- what is stored

  /** The reference: the concatenation of the successful extends since each digest's allocation. */
  ghost function Record(m: map<Digest, seq<byte>>, s: Store, op: Op, total: nat): (m': map<Digest, seq<byte>>) {
    match op
    case DoAlloc(d, hint) => if Alloc(s, d, hint, total).1 == Ok then m[d := []] else m
    case DoExtend(d, data) => if Extend(s, d, data).1 == Ok && d in m then m[d := m[d] + data] else m
    case DoFree(d) => m - {d}
    case DoCompact => m
  }

  ghost function Recorded(m: map<Digest, seq<byte>>, s: Store, ops: seq<Op>, total: nat): (m': map<Digest, seq<byte>>)
    requires Inv(s, total)
    decreases |ops|
  {
    if ops == [] then m
    else
      StepInv(s, ops[0], total);
      Recorded(Record(m, s, ops[0], total), Step(s, ops[0], total), ops[1..], total)
  }

  /** The store answers what the reference says: the digests it knows, and their bodies. */
  ghost predicate Answers(s: Store, m: map<Digest, seq<byte>>) {
    && s.index.Keys == m.Keys
    && forall d | d in m :: GetBody(s, d) == if m[d] == [] then None else Some(m[d])
  }

  /** No digest is allocated while it is live. */
  ghost predicate FreshAllocs(s: Store, ops: seq<Op>, total: nat)
    requires Inv(s, total)
    decreases |ops|
  {
    StepInv(s, if ops == [] then DoCompact else ops[0], total);
    ops == [] || ((ops[0].DoAlloc? ==> ops[0].d !in s.index) && FreshAllocs(Step(s, ops[0], total), ops[1..], total))
  }

  lemma AnswerSet(s: Store, s': Store, m: map<Digest, seq<byte>>, d: Digest, b: seq<byte>)
    requires Answers(s, m) && OthersKept(s, s', d)
    requires d in s'.index && GetBody(s', d) == if b == [] then None else Some(b)
    ensures Answers(s', m[d := b])
  {
    assert s'.index.Keys == m.Keys + {d};
  }

  lemma AnswerDrop(s: Store, s': Store, m: map<Digest, seq<byte>>, d: Digest)
    requires Answers(s, m) && OthersKept(s, s', d) && d !in s'.index
    ensures Answers(s', m - {d})
  {
    assert s'.index.Keys == m.Keys - {d};
  }

  lemma AllocRecorded(s: Store, m: map<Digest, seq<byte>>, d: Digest, hint: nat, total: nat)
    requires Inv(s, total) && Answers(s, m)
    ensures Answers(Alloc(s, d, hint, total).0, Record(m, s, DoAlloc(d, hint), total))
  {
    var (s', r) := Alloc(s, d, hint, total);
    AllocBodies(s, d, hint, total);
    if r == Ok {
      AnswerSet(s, s', m, d, []);
    } else {
      AllocSucceeds(s, d, hint, total);
    }
  }

  lemma ExtendRecorded(s: Store, m: map<Digest, seq<byte>>, d: Digest, data: seq<byte>, total: nat)
    requires Inv(s, total) && Answers(s, m)
    ensures Answers(Extend(s, d, data).0, Record(m, s, DoExtend(d, data), total))
  {
    var (s', r) := Extend(s, d, data);
    if r == Ok {
      ExtendBodies(s, d, data, total);
      ExtendedBody(s, d, data, total);
      assert d in s.index.Keys;
      assert Body(s, d) == m[d];
      AnswerSet(s, s', m, d, m[d] + data);
    } else {
      assert s' == s;
    }
  }

  lemma ExtendedBody(s: Store, d: Digest, data: seq<byte>, total: nat)
    requires Inv(s, total) && Extend(s, d, data).1 == Ok
    ensures var b := Body(s, d) + data;
            GetBody(Extend(s, d, data).0, d) == if b == [] then None else Some(b)
  {
    ExtendInv(s, d, data, total);
    ExtendBodies(s, d, data, total);
  }

  lemma StepAnswers(s: Store, m: map<Digest, seq<byte>>, op: Op, total: nat)
    requires Inv(s, total) && OneToOne(s.index, s.allocs) && Answers(s, m)
    ensures Answers(Step(s, op, total), Record(m, s, op, total))
  {
    match op
    case DoAlloc(d, hint) => AllocRecorded(s, m, d, hint, total);
    case DoExtend(d, data) => ExtendRecorded(s, m, d, data, total);
    case DoFree(d) =>
      FreeBodies(s, d, total);
      AnswerDrop(s, Free(s, d), m, d);
    case DoCompact => CompactPreserves(s, total);
  }

  lemma StepOneToOne(s: Store, op: Op, total: nat)
    requires Inv(s, total) && OneToOne(s.index, s.allocs)
    requires op.DoAlloc? ==> op.d !in s.index
    ensures OneToOne(Step(s, op, total).index, Step(s, op, total).allocs)
  {
    match op
    case DoAlloc(d, hint) =>
      if Alloc(s, d, hint, total).1 == Ok {
        AllocOneToOne(s, d, hint, total);
      } else {
        AllocSucceeds(s, d, hint, total);
      }
    case DoExtend(d, data) => ExtendOneToOne(s, d, data, total);
    case DoFree(d) => FreeOneToOne(s, d, total);
    case DoCompact => CompactPreserves(s, total);
  }

  /** Over every run without reallocation, `get_body` is the concatenation of the successful extends. */
  lemma {:induction false} RunAnswers(s: Store, m: map<Digest, seq<byte>>, ops: seq<Op>, total: nat)
    requires Inv(s, total) && OneToOne(s.index, s.allocs) && Answers(s, m) && FreshAllocs(s, ops, total)
    ensures OneToOne(Run(s, ops, total).index, Run(s, ops, total).allocs)
    ensures Answers(Run(s, ops, total), Recorded(m, s, ops, total))
    decreases |ops|
  {
    if ops != [] {
      StepInv(s, ops[0], total);
      StepOneToOne(s, ops[0], total);
      StepAnswers(s, m, ops[0], total);
      RunAnswers(Step(s, ops[0], total), Record(m, s, ops[0], total), ops[1..], total);
    }
  }

  // ---------------------------------------------------------------- restart

  /** Every compaction meets a store whose free slabs are all at the end and look blank. */
  ghost predicate Benign(s: Store, ops: seq<Op>, total: nat)
    requires Inv(s, total)
    decreases |ops|
  {
    StepInv(s, if ops == [] then DoCompact else ops[0], total);
    ops == [] || ((ops[0].DoCompact? ==> exists n: nat :: BlankAfter(s.allocs, n))
                  && Benign(Step(s, ops[0], total), ops[1..], total))
  }

  /** The table is in step with the slabs before and after every operation. */
  ghost predicate InStep(s: Store, ops: seq<Op>, total: nat)
    requires Inv(s, total)
    decreases |ops|
  {
    StepInv(s, if ops == [] then DoCompact else ops[0], total);
    Synced(s) && (ops == [] || InStep(Step(s, ops[0], total), ops[1..], total))
  }

  /** Every allocation names a nonzero digest. */
  ghost predicate NonZeroAllocs(ops: seq<Op>) {
    forall i | 0 <= i < |ops| :: ops[i].DoAlloc? ==> ops[i].d != ZERO_DIGEST
  }

  ghost predicate NonZero(allocs: seq<Slab>) {
    forall i | 0 <= i < |allocs| :: allocs[i].digest != ZERO_DIGEST
  }

  lemma AllocNonZero(s: Store, d: Digest, hint: nat, total: nat)
    requires Inv(s, total) && NonZero(s.allocs) && d != ZERO_DIGEST
    ensures NonZero(Alloc(s, d, hint, total).0.allocs)
  {
    if Choose(s.allocs, hint, total).Some? {
      ChooseGood(s.allocs, hint, total);
      var (allocs, i) := Choose(s.allocs, hint, total).value;
      var allocs' := Alloc(s, d, hint, total).0.allocs;
      forall k | 0 <= k < |allocs'|
        ensures allocs'[k].digest != ZERO_DIGEST
      {
        if k != i {
          assert allocs'[k] == allocs[k] == allocs[..|s.allocs|][k] == s.allocs[k];
        }
      }
    }
  }

  lemma CompactNonZero(s: Store, total: nat)
    requires Inv(s, total) && NonZero(s.allocs)
    ensures NonZero(Compact(s, total).allocs)
  {
    if s.mem != [] {
      var active := Compact(s, total).allocs;
      PackedSame(s, total);
      ActiveAt(Packed(s, total).allocs);
      forall p | 0 <= p < |active|
        ensures active[p].digest != ZERO_DIGEST
      {
        CompactAt(s, total, p);
        PackedSlab(s, total, LiveIdx(s.allocs)[p]);
      }
    }
  }

  lemma StepSyncs(s: Store, op: Op, total: nat)
    requires Inv(s, total) && Synced(s)
    ensures Synced(Step(s, op, total)) <==> (op.DoCompact? ==> exists n: nat :: BlankAfter(s.allocs, n))
    ensures |Step(s, op, total).mem| == |s.mem|
  {
    match op
    case DoAlloc(d, hint) => AllocSyncs(s, d, hint, total);
    case DoExtend(d, data) => ExtendSyncs(s, d, data, total);
    case DoFree(d) => FreeSyncs(s, d, total);
    case DoCompact => CompactSyncs(s, total);
  }

  lemma StepNonZero(s: Store, op: Op, total: nat)
    requires Inv(s, total) && NonZero(s.allocs) && (op.DoAlloc? ==> op.d != ZERO_DIGEST)
    ensures NonZero(Step(s, op, total).allocs)
  {
    match op
    case DoAlloc(d, hint) => AllocNonZero(s, d, hint, total);
    case DoExtend(d, data) =>
    case DoFree(d) =>
    case DoCompact => CompactNonZero(s, total);
  }

  /**
   * A run keeps the table on disk in step throughout exactly when every compaction in it is
   * benign, whatever the digests.
   */
  lemma {:induction false} RunSyncs(s: Store, ops: seq<Op>, total: nat)
    requires Inv(s, total) && Synced(s)
    ensures InStep(s, ops, total) <==> Benign(s, ops, total)
    ensures Benign(s, ops, total) ==> Synced(Run(s, ops, total)) && |Run(s, ops, total).mem| == |s.mem|
    decreases |ops|
  {
    if ops != [] {
      StepInv(s, ops[0], total);
      StepSyncs(s, ops[0], total);
      if Synced(Step(s, ops[0], total)) {
        RunSyncs(Step(s, ops[0], total), ops[1..], total);
      }
    }
  }

  lemma {:induction false} RunNonZero(s: Store, ops: seq<Op>, total: nat)
    requires Inv(s, total) && NonZero(s.allocs) && NonZeroAllocs(ops)
    ensures NonZero(Run(s, ops, total).allocs)
    decreases |ops|
  {
    if ops != [] {
      StepInv(s, ops[0], total);
      StepNonZero(s, ops[0], total);
      RunNonZero(Step(s, ops[0], total), ops[1..], total);
    }
  }

  /** A store from which a restart recovers everything but the bodies. */
  ghost predicate Recoverable(s: Store, total: nat) {
    Inv(s, total) && Synced(s) && OneToOne(s.index, s.allocs) && NonZero(s.allocs) && |s.mem| == total
  }

  lemma NewFileRecoverable(total: nat)
    requires DATA_REGION_OFFSET < total
    ensures Recoverable(Open(None, total), total)
  {
    NewFileSynced(total);
  }

  /** The digests a store knows and their bodies, as a reference to start a run from. */
  ghost function Stored(s: Store): map<Digest, seq<byte>> {
    map d | d in s.index :: Body(s, d)
  }

  lemma StoredAnswers(s: Store, total: nat)
    requires Inv(s, total)
    ensures Answers(s, Stored(s))
  {
    forall d | d in s.index
      ensures GetBody(s, d) == if Body(s, d) == [] then None else Some(Body(s, d))
    {
      assert Placed(s.allocs[s.index[d]], total);
    }
  }

  lemma RunRecoverable(s0: Store, ops: seq<Op>, total: nat)
    requires Recoverable(s0, total)
    requires NonZeroAllocs(ops) && FreshAllocs(s0, ops, total) && Benign(s0, ops, total)
    ensures Recoverable(Run(s0, ops, total), total)
  {
    StoredAnswers(s0, total);
    RunInv(s0, ops, total);
    RunSyncs(s0, ops, total);
    RunNonZero(s0, ops, total);
    RunAnswers(s0, Stored(s0), ops, total);
  }

  /**
   * After any run that allocates nonzero digests, none of them while live, and whose
   * compactions are benign, reopening the file rebuilds every slab, the index and the used
   * size, and the reopened store is again one from which such runs may start.
   */
  lemma RestartRecovers(s0: Store, ops: seq<Op>, total: nat)
    requires Recoverable(s0, total) && Fits(total)
    requires NonZeroAllocs(ops) && FreshAllocs(s0, ops, total) && Benign(s0, ops, total)
    ensures var s := Run(s0, ops, total);
            var s' := Open(Some(s.mem), total);
            s' == Store(s.mem, Stripped(s.allocs), s.index, s.used) && Recoverable(s', total)
  {
    RunRecoverable(s0, ops, total);
    Restarted(Run(s0, ops, total), total);
  }

  lemma Restarted(s: Store, total: nat)
    requires Recoverable(s, total) && Fits(total)
    ensures var s' := Open(Some(s.mem), total);
            s' == Store(s.mem, Stripped(s.allocs), s.index, s.used) && Recoverable(s', total)
  {
    RecoveryIndex(s, total);
    ReopenInv(s, total);
    StrippedSynced(s.mem, s.allocs);
  }

  // ---------------------------------------------------------------- restart after any run

  /** The table describes `table`, which may be ahead of the slabs the store knows. */
  ghost predicate Described(s: Store, table: seq<Slab>, total: nat) {
    && HeaderOk(s.mem) && TableOf(s.mem, table) && |s.allocs| <= |table|
    && forall i | 0 <= i < |table| :: table[i].End() <= total
  }

  /** The table with a slab's entry written, at its number or at the end. */
  ghost function Entered(table: seq<Slab>, slab: Slab): seq<Slab> {
    if slab.index < |table| then table[slab.index := slab] else table + [slab]
  }

  /**
   * The reference: what the table describes after an operation. Allocation and release write
   * one entry; compaction changes places only and leaves the old numbers and flags.
   */
  ghost function TableStep(table: seq<Slab>, s: Store, op: Op, total: nat): seq<Slab>
    requires Inv(s, total) && s.mem != [] && |s.allocs| <= |table|
  {
    match op
    case DoAlloc(d, hint) =>
      (var s' := Alloc(s, d, hint, total).0;
       if Alloc(s, d, hint, total).1 == Ok && d in s'.index && s'.index[d] < |s'.allocs|
       then Entered(table, s'.allocs[s'.index[d]]) else table)
    case DoExtend(d, data) => table
    case DoFree(d) =>
      if d in s.index then Entered(table, s.allocs[s.index[d]].(inUse := false, bodyLen := 0)) else table
    case DoCompact => CompactedTable(s, table, total)
  }

  /** Writing the entry of a slab that is listed or next keeps the table described. */
  lemma EnteredDescribed(s: Store, s': Store, table: seq<Slab>, i: nat, total: nat)
    requires Described(s, table, total) && i < |s'.allocs| <= MAX_SLABS && i <= |s.allocs|
    requires |s'.allocs| == |s.allocs| + if i == |s.allocs| then 1 else 0
    requires s'.allocs[i].index == i && s'.allocs[i].bodyLen == 0 && s'.allocs[i].End() <= total
    requires s'.mem == WriteEntry(s.mem, s'.allocs[i])
    ensures Described(s', Entered(table, s'.allocs[i]), total)
  {
    WriteEntrySyncs(s.mem, table, Entered(table, s'.allocs[i]), i);
  }

  /** The slab an allocation takes, and the one entry it writes. */
  lemma AllocWrites(s: Store, d: Digest, hint: nat, total: nat)
    requires Inv(s, total) && Alloc(s, d, hint, total).1 == Ok
    ensures var s' := Alloc(s, d, hint, total).0;
            && d in s'.index && s'.index[d] < |s'.allocs| <= MAX_SLABS && s'.index[d] <= |s.allocs|
            && |s'.allocs| == |s.allocs| + (if s'.index[d] == |s.allocs| then 1 else 0)
            && s'.allocs[s'.index[d]].index == s'.index[d] && s'.allocs[s'.index[d]].bodyLen == 0
            && s'.allocs[s'.index[d]].End() <= total && s'.mem == WriteEntry(s.mem, s'.allocs[s'.index[d]])
  {
    var s' := Alloc(s, d, hint, total).0;
    ChooseGood(s.allocs, hint, total);
    AllocInv(s, d, hint, total);
    assert Placed(s'.allocs[s'.index[d]], total);
  }

  lemma AllocDescribed(s: Store, table: seq<Slab>, d: Digest, hint: nat, total: nat)
    requires Inv(s, total) && Described(s, table, total)
    ensures Described(Alloc(s, d, hint, total).0, TableStep(table, s, DoAlloc(d, hint), total), total)
  {
    var (s', r) := Alloc(s, d, hint, total);
    if r == Ok {
      AllocWrites(s, d, hint, total);
      EnteredDescribed(s, s', table, s'.index[d], total);
    }
  }

  lemma FreeDescribed(s: Store, table: seq<Slab>, d: Digest, total: nat)
    requires Inv(s, total) && Described(s, table, total)
    ensures Described(Free(s, d), TableStep(table, s, DoFree(d), total), total)
  {
    if d in s.index {
      var i := s.index[d];
      FreeInv(s, d, total);
      LiveSizeUpdate(s.allocs, i, s.allocs[i].(inUse := false, bodyLen := 0));
      assert Placed(s.allocs[i], total);
      EnteredDescribed(s, Free(s, d), table, i, total);
    }
  }

  lemma ExtendDescribed(s: Store, table: seq<Slab>, d: Digest, data: seq<byte>, total: nat)
    requires Inv(s, total) && Described(s, table, total)
    ensures Described(Extend(s, d, data).0, table, total)
  {
    var (s', r) := Extend(s, d, data);
    if r == Ok {
      var slab := s.allocs[s.index[d]];
      assert s'.mem == Splice(s.mem, slab.offset + slab.bodyLen, data);
      DataWriteSyncs(s.mem, table, table, slab.offset + slab.bodyLen, data);
    } else {
      assert s' == s;
    }
  }

  lemma CompactDescribed(s: Store, table: seq<Slab>, total: nat)
    requires Inv(s, total) && Described(s, table, total)
    ensures Described(Compact(s, total), CompactedTable(s, table, total), total)
  {
    CompactTable(s, table, total);
    ActiveAt(Packed(s, total).allocs);
    ActiveShorter(Packed(s, total).allocs);
    forall i | 0 <= i < |table|
      ensures CompactedTable(s, table, total)[i].End() <= total
    {
      if i < |s.allocs| {
        PackedSlab(s, total, i);
      }
    }
  }

  lemma {:induction false} ActiveShorter(allocs: seq<Slab>)
    ensures |Active(allocs)| <= |allocs|
  {
    if allocs != [] {
      ActiveShorter(allocs[..|allocs| - 1]);
    }
  }

  lemma StepDescribed(s: Store, table: seq<Slab>, op: Op, total: nat)
    requires Inv(s, total) && Described(s, table, total)
    ensures Described(Step(s, op, total), TableStep(table, s, op, total), total)
  {
    match op
    case DoAlloc(d, hint) => AllocDescribed(s, table, d, hint, total);
    case DoExtend(d, data) => ExtendDescribed(s, table, d, data, total);
    case DoFree(d) => FreeDescribed(s, table, d, total);
    case DoCompact => CompactDescribed(s, table, total);
  }

  /** What the table describes after a run. */
  ghost function RunTable(table: seq<Slab>, s: Store, ops: seq<Op>, total: nat): seq<Slab>
    requires Inv(s, total) && Described(s, table, total)
    decreases |ops|
  {
    if ops == [] then table
    else
      StepInv(s, ops[0], total);
      StepDescribed(s, table, ops[0], total);
      RunTable(TableStep(table, s, ops[0], total), Step(s, ops[0], total), ops[1..], total)
  }

  lemma {:induction false} RunDescribed(s: Store, table: seq<Slab>, ops: seq<Op>, total: nat)
    requires Inv(s, total) && Described(s, table, total)
    ensures Described(Run(s, ops, total), RunTable(table, s, ops, total), total)
    decreases |ops|
  {
    if ops != [] {
      StepInv(s, ops[0], total);
      StepDescribed(s, table, ops[0], total);
      RunDescribed(Step(s, ops[0], total), TableStep(table, s, ops[0], total), ops[1..], total);
    }
  }

  /**
   * After every run, compactions and zero digests included, a restart finds the described
   * slabs up to the first that looks blank, and is sound exactly when those are laid out.
   * The table then still describes the restarted store, so the next run may be added to it.
   */
  lemma RestartFinds(s0: Store, table0: seq<Slab>, ops: seq<Op>, total: nat)
    requires Inv(s0, total) && Described(s0, table0, total) && Fits(total)
    ensures var s, table := Run(s0, ops, total), RunTable(table0, s0, ops, total);
            var s', r := Open(Some(s.mem), total), Recovered(table);
            && s' == Store(s.mem, r, BuildIndex(r), LiveSize(r)) && Described(s', table, total)
            && (Inv(s', total) <==> Layout(r, total))
            && (forall d :: d in s'.index <==> exists i | 0 <= i < |r| :: r[i].inUse && r[i].digest == d)
  {
    BuildIndexExact(Recovered(RunTable(table0, s0, ops, total)));
    RunInv(s0, ops, total);
    RunDescribed(s0, table0, ops, total);
    RestartReads(Run(s0, ops, total).mem, RunTable(table0, s0, ops, total), total);
  }
}
