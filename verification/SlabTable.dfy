/**
 * The on-disk slab table (`write_slab_entry`, `load_existing`, `open` in
 * crates/rv-storage/src/persistent.rs): what a restart reads back from the mapped bytes.
 */
module SlabTable {
  import opened Types
  import opened Endian
  import opened Slabs
  import opened Compaction

  // ---------------------------------------------------------------- reading the table

  /** The scan stops at an entry that is free and has an all-zero digest. */
  predicate Blank(mem: seq<byte>, i: nat)
    requires EntryAt(i) + SLAB_ENTRY_SIZE <= |mem|
  {
    mem[EntryAt(i)..EntryAt(i) + 32] == ZERO_BYTES && mem[EntryAt(i) + 48] == 0
  }

  /** Entry `i` as `load_existing` decodes it. */
  function ReadSlab(mem: seq<byte>, i: nat): (s: Slab)
    requires EntryAt(i) + SLAB_ENTRY_SIZE <= |mem|
  {
    var e := EntryAt(i);
    var inUse := mem[e + 48] != 0;
    Slab(i, FromLE(mem[e + 32..e + 40]), FromLE(mem[e + 40..e + 48]), inUse, Digest(mem[e..e + 32]),
         if inUse then FromLE(mem[e + 49..e + 57]) else 0)
  }

  /** The slabs `load_existing` finds from entry `i` on. */
  predicate ScanEnds(mem: seq<byte>, i: nat) {
    i >= MAX_SLABS || EntryAt(i) + SLAB_ENTRY_SIZE > |mem| || Blank(mem, i)
  }

  function Scan(mem: seq<byte>, i: nat): (r: seq<Slab>)
    decreases MAX_SLABS - i
  {
    if ScanEnds(mem, i) then []
    else [ReadSlab(mem, i)] + Scan(mem, i + 1)
  }

  /** The store `load_existing` builds from the mapped bytes. */
  function Reload(mem: seq<byte>): (s: Store) {
    Store(mem, Scan(mem, 0), BuildIndex(Scan(mem, 0)), LiveSize(Scan(mem, 0)))
  }

  // ---------------------------------------------------------------- the file header

  const MAGIC: seq<byte> := [82, 86, 83, 76, 65, 66, 48, 49]  // "RVSLAB01"
  const VERSION: nat := 1

  predicate HeaderOk(mem: seq<byte>) {
    FILE_HEADER_SIZE <= |mem| && mem[..8] == MAGIC && FromLE(mem[8..12]) == VERSION
  }

  function Header(total: nat): (h: seq<byte>)
    ensures |h| == 20
  {
    MAGIC + ToLE(VERSION, 4) + ToLE(total, 8)
  }

  function Zeros(n: nat): (z: seq<byte>)
    ensures |z| == n && forall i | 0 <= i < n :: z[i] == 0
  {
    seq(n, _ => 0)
  }

  /** The file's bytes after `set_len`. */
  function Resize(file: seq<byte>, total: nat): (mem: seq<byte>)
    ensures |mem| == total
    ensures forall i | 0 <= i < total :: mem[i] == if i < |file| then file[i] else 0
    ensures |file| == total ==> mem == file
  {
    if |file| >= total then file[..total] else file + Zeros(total - |file|)
  }

  /** The source's `open`: `None` when the file did not exist. */
  function Open(file: Option<seq<byte>>, total: nat): (s: Store)
    requires DATA_REGION_OFFSET < total
  {
    var mem := Resize(if file.Some? then file.value else [], total);
    if file.Some? && HeaderOk(mem) then Reload(mem)
    else Store(Splice(mem, 0, Header(total)), [], map[], 0)
  }

  /** A header is good when it begins with "RVSLAB01" and the version, which is 1. */
  lemma HeaderExact(mem: seq<byte>)
    ensures HeaderOk(mem) <==>
            FILE_HEADER_SIZE <= |mem| && mem[..12] == [82, 86, 83, 76, 65, 66, 48, 49, 1, 0, 0, 0]
  {
    if FILE_HEADER_SIZE <= |mem| {
      assert mem[..12] == mem[..8] + mem[8..12];
      VersionBytes(mem[8..12]);
      assert MAGIC + [1, 0, 0, 0] == [82, 86, 83, 76, 65, 66, 48, 49, 1, 0, 0, 0];
    }
  }

  lemma VersionBytes(v: seq<byte>)
    requires |v| == 4
    ensures FromLE(v) == 1 <==> v == [1, 0, 0, 0]
  {
    var a, b, c := v[1..], v[1..][1..], v[1..][1..][1..];
    assert a[0] == v[1] && b[0] == v[2] && c[0] == v[3] && c[1..] == [];
    assert FromLE(c) == v[3];
    assert FromLE(b) == v[2] + 256 * FromLE(c);
    assert FromLE(a) == v[1] + 256 * FromLE(b);
  }

  /** `load_existing` on a store that may already hold slabs: it appends to them. */
  function LoadedOnto(s: Store, mem: seq<byte>): Store {
    Store(mem, s.allocs + Scan(mem, 0), s.index + BuildIndex(Scan(mem, 0)), LiveSize(Scan(mem, 0)))
  }

  /** `open` on a store that may already be open. */
  function Reopen(s: Store, file: Option<seq<byte>>, total: nat): Store
    requires DATA_REGION_OFFSET < total
  {
    var mem := Resize(if file.Some? then file.value else [], total);
    if file.Some? && HeaderOk(mem) then LoadedOnto(s, mem)
    else s.(mem := Splice(mem, 0, Header(total)))
  }

  lemma ReopenClosed(file: Option<seq<byte>>, total: nat)
    requires DATA_REGION_OFFSET < total
    ensures Reopen(Store([], [], map[], 0), file, total) == Open(file, total)
  {
    var r := Scan(Resize(if file.Some? then file.value else [], total), 0);
    assert [] + r == r && map[] + BuildIndex(r) == BuildIndex(r);
  }

  // ---------------------------------------------------------------- the table follows the slabs

  /** Entry `s.index` records `s`, with the body length it had when last written: zero. */
  ghost predicate EntryIs(mem: seq<byte>, s: Slab) {
    && EntryAt(s.index) + SLAB_ENTRY_SIZE <= |mem|
    && mem[EntryAt(s.index)..EntryAt(s.index) + ENTRY_USED] == EncodeEntry(s.(bodyLen := 0))
  }

  /** The table records every slab in order, and nothing after them. */
  ghost predicate TableOf(mem: seq<byte>, allocs: seq<Slab>) {
    && DATA_REGION_OFFSET <= |mem| && |allocs| <= MAX_SLABS
    && (forall i | 0 <= i < |allocs| :: allocs[i].index == i && EntryIs(mem, allocs[i]))
    && (forall i | |allocs| <= i < MAX_SLABS :: Blank(mem, i))
  }

  /** The file describes the store. */
  ghost predicate Synced(s: Store) {
    HeaderOk(s.mem) && TableOf(s.mem, s.allocs)
  }

  /** Numbers in the table are 64 bits wide. */
  predicate Fits(total: nat) {
    total < Pow256(8)
  }

  lemma SliceOfSlice(mem: seq<byte>, e: nat, n: nat, lo: nat, hi: nat)
    requires e + n <= |mem| && lo <= hi <= n
    ensures mem[e..e + n][lo..hi] == mem[e + lo..e + hi]
  {
    var a, b := mem[e..e + n][lo..hi], mem[e + lo..e + hi];
    forall k | 0 <= k < |a|
      ensures a[k] == b[k]
    {
      assert mem[e..e + n][lo + k] == mem[e + lo + k];
    }
  }

  /** The bytes from `e` on are the five fields of a slab's entry. */
  ghost predicate FieldsAt(m: seq<byte>, e: nat, s: Slab) {
    && e + ENTRY_USED <= |m|
    && m[e..e + 32] == s.digest.bytes && m[e + 32..e + 40] == ToLE(s.offset, 8) && m[e + 40..e + 48] == ToLE(s.size, 8)
    && m[e + 48] == (if s.inUse then 1 else 0) && m[e + 49..e + 57] == ToLE(s.bodyLen, 8)
  }

  lemma EntryFields(s: Slab)
    ensures FieldsAt(EncodeEntry(s), 0, s)
  {
  }

  lemma FieldsMoved(mem: seq<byte>, e: nat, b: seq<byte>, s: Slab)
    requires |b| == ENTRY_USED && e + |b| <= |mem| && mem[e..e + |b|] == b && FieldsAt(b, 0, s)
    ensures FieldsAt(mem, e, s)
  {
    FieldAt(mem, e, b, 0, 32);
    FieldAt(mem, e, b, 32, 40);
    FieldAt(mem, e, b, 40, 48);
    FieldAt(mem, e, b, 49, 57);
    assert mem[e..e + |b|][48] == mem[e + 48];
  }

  lemma FieldAt(mem: seq<byte>, e: nat, b: seq<byte>, lo: nat, hi: nat)
    requires e + |b| <= |mem| && mem[e..e + |b|] == b && lo <= hi <= |b|
    ensures mem[e + lo..e + hi] == b[lo..hi]
  {
    SliceOfSlice(mem, e, |b|, lo, hi);
  }

  lemma EncodedFields(mem: seq<byte>, s: Slab)
    requires EntryIs(mem, s)
    ensures FieldsAt(mem, EntryAt(s.index), s.(bodyLen := 0))
  {
    EntryFields(s.(bodyLen := 0));
    FieldsMoved(mem, EntryAt(s.index), EncodeEntry(s.(bodyLen := 0)), s.(bodyLen := 0));
  }

  /** Decoding an entry gives back the slab it was written from. */
  lemma ReadBack(mem: seq<byte>, s: Slab)
    requires EntryIs(mem, s) && s.offset < Pow256(8) && s.size < Pow256(8)
    ensures ReadSlab(mem, s.index) == s.(bodyLen := 0)
    ensures Blank(mem, s.index) <==> !s.inUse && s.digest == ZERO_DIGEST
  {
    EncodedFields(mem, s);
    RoundTrip(s.offset, 8);
    RoundTrip(s.size, 8);
    RoundTrip(0, 8);
  }

  // ---------------------------------------------------------------- every operation keeps it

  /** A write that stays inside entry `k` or inside the data region leaves entry `i` as it was. */
  lemma EntryUntouched(mem: seq<byte>, at: nat, data: seq<byte>, i: nat)
    requires at + |data| <= |mem| && i < MAX_SLABS && DATA_REGION_OFFSET <= |mem|
    requires at + |data| <= EntryAt(i) || EntryAt(i) + SLAB_ENTRY_SIZE <= at
    ensures var m := Splice(mem, at, data);
            && m[EntryAt(i)..EntryAt(i) + ENTRY_USED] == mem[EntryAt(i)..EntryAt(i) + ENTRY_USED]
            && (Blank(m, i) <==> Blank(mem, i))
  {
    var e := EntryAt(i);
    SpliceSlice(mem, at, data, e, e + ENTRY_USED);
    SpliceSlice(mem, at, data, e, e + 32);
  }

  lemma HeaderUntouched(mem: seq<byte>, at: nat, data: seq<byte>)
    requires at + |data| <= |mem| && FILE_HEADER_SIZE <= at
    ensures HeaderOk(Splice(mem, at, data)) <==> HeaderOk(mem)
  {
    SpliceSlice(mem, at, data, 0, 8);
    SpliceSlice(mem, at, data, 8, 12);
    assert mem[..8] == mem[0..8] && Splice(mem, at, data)[..8] == Splice(mem, at, data)[0..8];
  }

  /** Writing slab `i`'s entry, existing or next, keeps the table in step with the vector. */
  lemma WriteEntrySyncs(mem: seq<byte>, allocs: seq<Slab>, allocs': seq<Slab>, i: nat)
    requires HeaderOk(mem) && TableOf(mem, allocs)
    requires i < |allocs'| <= MAX_SLABS && |allocs| <= |allocs'| <= |allocs| + 1
    requires |allocs'| > |allocs| ==> i == |allocs|
    requires allocs'[i].index == i && allocs'[i].bodyLen == 0
    requires forall k | 0 <= k < |allocs| && k != i :: allocs'[k] == allocs[k]
    ensures HeaderOk(WriteEntry(mem, allocs'[i])) && TableOf(WriteEntry(mem, allocs'[i]), allocs')
  {
    var e, data := EntryAt(i), EncodeEntry(allocs'[i]);
    var m := Splice(mem, e, data);
    assert WriteEntry(mem, allocs'[i]) == m;
    HeaderUntouched(mem, e, data);
    SpliceSlice(mem, e, data, e, e + ENTRY_USED);
    assert allocs'[i].(bodyLen := 0) == allocs'[i];
    forall k | 0 <= k < MAX_SLABS && k != i
      ensures k < |allocs'| ==> EntryIs(m, allocs'[k])
      ensures |allocs'| <= k ==> Blank(m, k)
    {
      EntryUntouched(mem, e, data, k);
    }
  }

  lemma AllocSyncs(s: Store, d: Digest, hint: nat, total: nat)
    requires Inv(s, total) && Synced(s)
    ensures Synced(Alloc(s, d, hint, total).0)
  {
    if Choose(s.allocs, hint, total).Some? {
      ChooseGood(s.allocs, hint, total);
      var (allocs, i) := Choose(s.allocs, hint, total).value;
      var allocs' := Alloc(s, d, hint, total).0.allocs;
      forall k | 0 <= k < |s.allocs| && k != i
        ensures allocs'[k] == s.allocs[k]
      {
        assert allocs[k] == allocs[..|s.allocs|][k];
      }
      WriteEntrySyncs(s.mem, s.allocs, allocs', i);
    }
  }

  lemma FreeSyncs(s: Store, d: Digest, total: nat)
    requires Inv(s, total) && Synced(s)
    ensures Synced(Free(s, d))
  {
    if d in s.index && s.allocs[s.index[d]].size <= s.used {
      WriteEntrySyncs(s.mem, s.allocs, Free(s, d).allocs, s.index[d]);
    }
  }

  /** A write to the data region that changes body lengths only leaves the table in step. */
  lemma DataWriteSyncs(mem: seq<byte>, allocs: seq<Slab>, allocs': seq<Slab>, at: nat, data: seq<byte>)
    requires HeaderOk(mem) && TableOf(mem, allocs) && DATA_REGION_OFFSET <= at && at + |data| <= |mem|
    requires |allocs'| == |allocs| && forall k | 0 <= k < |allocs| ::
            allocs'[k].(bodyLen := 0) == allocs[k].(bodyLen := 0)
    ensures HeaderOk(Splice(mem, at, data)) && TableOf(Splice(mem, at, data), allocs')
  {
    HeaderUntouched(mem, at, data);
    forall k | 0 <= k < MAX_SLABS
      ensures k < |allocs'| ==> allocs'[k].index == k && EntryIs(Splice(mem, at, data), allocs'[k])
      ensures |allocs'| <= k ==> Blank(Splice(mem, at, data), k)
    {
      EntryUntouched(mem, at, data, k);
    }
  }

  lemma ExtendSyncs(s: Store, d: Digest, data: seq<byte>, total: nat)
    requires Inv(s, total) && Synced(s)
    ensures Synced(Extend(s, d, data).0)
  {
    var (s', r) := Extend(s, d, data);
    if r == Ok {
      var slab := s.allocs[s.index[d]];
      var at := slab.offset + slab.bodyLen;
      assert s'.mem == Splice(s.mem, at, data);
      DataWriteSyncs(s.mem, s.allocs, s'.allocs, at, data);
      assert Synced(s');
    } else {
      assert s' == s;
    }
  }

  lemma NewHeaderOk(mem: seq<byte>, total: nat)
    requires DATA_REGION_OFFSET <= |mem|
    ensures HeaderOk(Splice(mem, 0, Header(total)))
  {
    var m := Splice(mem, 0, Header(total));
    assert m[..8] == MAGIC && m[8..12] == ToLE(VERSION, 4);
    RoundTrip(VERSION, 4);
  }

  lemma NewTableBlank(total: nat, i: nat)
    requires DATA_REGION_OFFSET < total && i < MAX_SLABS
    ensures Blank(Splice(Zeros(total), 0, Header(total)), i)
  {
    EntryUntouched(Zeros(total), 0, Header(total), i);
    assert Zeros(total)[EntryAt(i)..EntryAt(i) + 32] == ZERO_BYTES;
  }

  lemma NewFileSynced(total: nat)
    requires DATA_REGION_OFFSET < total
    ensures Inv(Open(None, total), total) && Synced(Open(None, total))
  {
    assert Resize([], total) == Zeros(total);
    NewHeaderOk(Zeros(total), total);
    forall i | 0 <= i < MAX_SLABS
      ensures Blank(Splice(Zeros(total), 0, Header(total)), i)
    {
      NewTableBlank(total, i);
    }
  }

  /**
   * A file with a bad header is taken for a new one: the store is empty, and the header is
   * written over the file. The table is not cleared, so it is in step exactly when it was blank.
   */
  lemma OpenInvalid(file: seq<byte>, total: nat)
    requires DATA_REGION_OFFSET < total && !HeaderOk(Resize(file, total))
    ensures var s := Open(Some(file), total);
            && Inv(s, total) && s.allocs == [] && s.index == map[] && s.used == 0 && |s.mem| == total && HeaderOk(s.mem)
            && (forall i | 20 <= i < total :: s.mem[i] == Resize(file, total)[i])
            && (Synced(s) <==> forall i | 0 <= i < MAX_SLABS :: Blank(Resize(file, total), i))
  {
    var mem := Resize(file, total);
    NewHeaderOk(mem, total);
    forall i | 0 <= i < MAX_SLABS
      ensures Blank(Splice(mem, 0, Header(total)), i) <==> Blank(mem, i)
    {
      EntryUntouched(mem, 0, Header(total), i);
    }
  }

  // ---------------------------------------------------------------- recovery

  /** The slabs without their body lengths, which the table does not keep. */
  function Stripped(allocs: seq<Slab>): (r: seq<Slab>)
    ensures |r| == |allocs| && forall i | 0 <= i < |r| :: r[i] == allocs[i].(bodyLen := 0)
  {
    seq(|allocs|, i requires 0 <= i < |allocs| => allocs[i].(bodyLen := 0))
  }

  /** A freed slab with an all-zero digest looks like the end of the table. */
  predicate LooksBlank(s: Slab) {
    !s.inUse && s.digest == ZERO_DIGEST
  }

  /** Table entry `i` is read back as the slab, or taken for the end of the table. */
  ghost predicate ReadsAs(mem: seq<byte>, slab: Slab, i: nat) {
    && i < MAX_SLABS && EntryAt(i) + SLAB_ENTRY_SIZE <= |mem|
    && ReadSlab(mem, i) == slab.(bodyLen := 0) && (Blank(mem, i) <==> LooksBlank(slab))
  }

  /** The recorded places fit the 64 bits they are recorded in. */
  ghost predicate Bounded(table: seq<Slab>) {
    forall i | 0 <= i < |table| :: table[i].offset < Pow256(8) && table[i].size < Pow256(8)
  }

  lemma EntryReads(mem: seq<byte>, table: seq<Slab>, i: nat)
    requires TableOf(mem, table) && Bounded(table) && i < |table|
    ensures ReadsAs(mem, table[i], i)
  {
    ReadBack(mem, table[i]);
  }

  /** `r` is the slabs from `i` to `n`, without their body lengths. */
  ghost predicate StrippedPart(r: seq<Slab>, allocs: seq<Slab>, i: nat, n: nat) {
    i <= n <= |allocs| && |r| == n - i && forall k | i <= k < n :: r[k - i] == allocs[k].(bodyLen := 0)
  }

  lemma PartCons(r: seq<Slab>, allocs: seq<Slab>, i: nat, n: nat)
    requires i < n && StrippedPart(r, allocs, i + 1, n)
    ensures StrippedPart([allocs[i].(bodyLen := 0)] + r, allocs, i, n)
  {
  }

  lemma ScanStep(mem: seq<byte>, slab: Slab, i: nat)
    requires ReadsAs(mem, slab, i) && !LooksBlank(slab)
    ensures Scan(mem, i) == [slab.(bodyLen := 0)] + Scan(mem, i + 1)
  {
  }

  /** The scan recovers the slabs up to the first that looks blank. */
  lemma {:induction false} ScanFrom(mem: seq<byte>, allocs: seq<Slab>, i: nat, n: nat)
    requires i <= n <= |allocs| && forall k | 0 <= k < |allocs| :: ReadsAs(mem, allocs[k], k)
    requires forall k | i <= k < n :: !LooksBlank(allocs[k])
    requires ScanEnds(mem, n)
    ensures StrippedPart(Scan(mem, i), allocs, i, n)
    decreases n - i
  {
    if i < n {
      ScanFrom(mem, allocs, i + 1, n);
      ScanStep(mem, allocs[i], i);
      PartCons(Scan(mem, i + 1), allocs, i, n);
    }
  }

  /** The first slab from `i` on that looks blank. */
  function BlankFrom(allocs: seq<Slab>, i: nat): (n: nat)
    requires i <= |allocs|
    ensures i <= n <= |allocs| && (forall k | i <= k < n :: !LooksBlank(allocs[k]))
    ensures n < |allocs| ==> LooksBlank(allocs[n])
    decreases |allocs| - i
  {
    if i == |allocs| || LooksBlank(allocs[i]) then i else BlankFrom(allocs, i + 1)
  }

  /** What a restart can make of a table: its slabs up to the first that looks blank. */
  function Recovered(table: seq<Slab>): (r: seq<Slab>)
    ensures r <= Stripped(table)
  {
    Stripped(table)[..BlankFrom(table, 0)]
  }

  lemma RecoveredAll(table: seq<Slab>)
    ensures Recovered(table) == Stripped(table) <==> forall i | 0 <= i < |table| :: !LooksBlank(table[i])
  {
    assert Stripped(table)[..|table|] == Stripped(table);
  }

  lemma {:induction false} StrippedSame(allocs: seq<Slab>)
    ensures BuildIndex(Stripped(allocs)) == BuildIndex(allocs) && LiveSize(Stripped(allocs)) == LiveSize(allocs)
  {
    if allocs != [] {
      var n := |allocs| - 1;
      assert Stripped(allocs)[..n] == Stripped(allocs[..n]);
      StrippedSame(allocs[..n]);
    }
  }

  lemma ScanRecovers(mem: seq<byte>, table: seq<Slab>)
    requires TableOf(mem, table) && Bounded(table)
    ensures Scan(mem, 0) == Recovered(table)
  {
    var n := BlankFrom(table, 0);
    forall i | 0 <= i < |table|
      ensures ReadsAs(mem, table[i], i)
    {
      EntryReads(mem, table, i);
    }
    ScanFrom(mem, table, 0, n);
    assert Scan(mem, 0) == Stripped(table)[..n];
  }

  /**
   * Whatever the store held, a restart finds the slabs the table describes, up to the first
   * that looks blank; what it finds is a sound store exactly when those slabs are laid out.
   */
  lemma RestartReads(mem: seq<byte>, table: seq<Slab>, total: nat)
    requires DATA_REGION_OFFSET < total == |mem| && HeaderOk(mem) && TableOf(mem, table) && Bounded(table)
    ensures var r := Recovered(table); Open(Some(mem), total) == Store(mem, r, BuildIndex(r), LiveSize(r))
    ensures Inv(Open(Some(mem), total), total) <==> Layout(Recovered(table), total)
  {
    assert Resize(mem, total) == mem;
    ScanRecovers(mem, table);
    BuildIndexExact(Recovered(table));
  }

  /**
   * A restart of a store whose table is in step recovers every slab's number, offset, size,
   * in-use flag and digest exactly when no freed slab has an all-zero digest; otherwise it
   * loses slabs.
   */
  lemma RecoveryExact(s: Store, total: nat)
    requires Inv(s, total) && Synced(s) && Fits(total) && |s.mem| == total
    ensures Open(Some(s.mem), total).allocs == Stripped(s.allocs) <==>
            forall i | 0 <= i < |s.allocs| :: !LooksBlank(s.allocs[i])
    ensures Open(Some(s.mem), total).allocs <= Stripped(s.allocs)
  {
    RestartReads(s.mem, s.allocs, total);
    RecoveredAll(s.allocs);
  }

  /** It then also recovers the digest index and the used size; the bodies are lost. */
  lemma RecoveryIndex(s: Store, total: nat)
    requires Inv(s, total) && Synced(s) && Fits(total) && |s.mem| == total && OneToOne(s.index, s.allocs)
    requires forall i | 0 <= i < |s.allocs| :: !LooksBlank(s.allocs[i])
    ensures Open(Some(s.mem), total) == Store(s.mem, Stripped(s.allocs), s.index, s.used)
    ensures forall d :: GetBody(Open(Some(s.mem), total), d) == None
  {
    var r := Stripped(s.allocs);
    assert Open(Some(s.mem), total) == Store(s.mem, r, BuildIndex(r), LiveSize(r)) by {
      RestartReads(s.mem, s.allocs, total);
      RecoveredAll(s.allocs);
    }
    StrippedSame(s.allocs);
    OneToOneIndex(s.index, s.allocs);
  }

  /**
   * Reopening a store whose table is in step gives a sound store even where it loses slabs,
   * so that runs can go on.
   */
  lemma ReopenInv(s: Store, total: nat)
    requires Inv(s, total) && Synced(s) && Fits(total) && |s.mem| == total
    ensures Inv(Open(Some(s.mem), total), total)
  {
    RestartReads(s.mem, s.allocs, total);
    RecoveredLayout(s.allocs, total);
  }

  lemma RecoveredLayout(allocs: seq<Slab>, total: nat)
    requires Layout(allocs, total)
    ensures Layout(Recovered(allocs), total)
  {
    var r := Recovered(allocs);
    assert forall i | 0 <= i < |r| :: r[i] == allocs[i].(bodyLen := 0);
    forall i, j | 0 <= i < j < |r|
      ensures Apart(r[i], r[j])
    {
      assert Apart(allocs[i], allocs[j]);
    }
  }

  /** The table is in the bytes between the header and the data region. */
  lemma SameTable(mem: seq<byte>, mem': seq<byte>, table: seq<Slab>)
    requires TableOf(mem, table) && DATA_REGION_OFFSET <= |mem'|
    requires forall i | FILE_HEADER_SIZE <= i < DATA_REGION_OFFSET :: mem'[i] == mem[i]
    ensures TableOf(mem', table)
  {
    forall i | 0 <= i < MAX_SLABS
      ensures Blank(mem', i) <==> Blank(mem, i)
      ensures i < |table| ==> EntryIs(mem', table[i])
    {
      var e := EntryAt(i);
      assert mem[e..e + 32] == mem'[e..e + 32] && mem[e..e + ENTRY_USED] == mem'[e..e + ENTRY_USED];
    }
  }

  /** So after a restart with a bad header forgot the slabs, the next restart finds them again. */
  lemma ForgottenReturn(file: seq<byte>, table: seq<Slab>, total: nat)
    requires DATA_REGION_OFFSET < total == |file| && !HeaderOk(file) && TableOf(file, table) && Bounded(table)
    ensures var s := Open(Some(file), total);
            s.allocs == [] && Open(Some(s.mem), total).allocs == Recovered(table)
  {
    var s := Open(Some(file), total);
    OpenInvalid(file, total);
    SameTable(file, s.mem, table);
    RestartReads(s.mem, table, total);
  }

  /**
   * Reopening with another size finds the same slabs and keeps the bytes that fit. The store
   * is sound exactly when every slab found still ends inside the file; so a larger size is
   * always safe.
   */
  lemma ReopenResized(s: Store, total: nat, total': nat)
    requires Inv(s, total) && Synced(s) && Fits(total) && |s.mem| == total && DATA_REGION_OFFSET < total'
    ensures var s' := Open(Some(s.mem), total');
            && s'.allocs == Recovered(s.allocs) && |s'.mem| == total'
            && (forall i | 0 <= i < total' :: s'.mem[i] == if i < total then s.mem[i] else 0)
            && (Inv(s', total') <==> forall i | 0 <= i < |s'.allocs| :: s'.allocs[i].End() <= total')
            && (total <= total' ==> Inv(s', total'))
  {
    var mem' := Resize(s.mem, total');
    assert forall i | 0 <= i < |s.allocs| :: Placed(s.allocs[i], total);
    SameTable(s.mem, mem', s.allocs);
    assert s.mem[..8] == mem'[..8] && s.mem[8..12] == mem'[8..12];
    RestartReads(mem', s.allocs, total');
    assert Open(Some(s.mem), total') == Open(Some(mem'), total');
    RecoveredLayout(s.allocs, total);
    LayoutResized(Recovered(s.allocs), total, total');
  }

  lemma LayoutResized(allocs: seq<Slab>, total: nat, total': nat)
    requires Layout(allocs, total)
    ensures Layout(allocs, total') <==> forall i | 0 <= i < |allocs| :: allocs[i].End() <= total'
    ensures total <= total' ==> Layout(allocs, total')
  {
    forall i | 0 <= i < |allocs|
      ensures Placed(allocs[i], total') <==> allocs[i].End() <= total'
      ensures allocs[i].End() <= total
    {
      assert Placed(allocs[i], total);
    }
  }

  /** Opening a store that is already open appends what a restart would find, on top of what is there. */
  lemma ReopenAppends(s: Store, total: nat)
    requires Inv(s, total) && Synced(s) && Fits(total) && |s.mem| == total
    ensures var r, s' := Recovered(s.allocs), Reopen(s, Some(s.mem), total);
            s' == Store(s.mem, s.allocs + r, s.index + BuildIndex(r), LiveSize(r))
  {
    assert Resize(s.mem, total) == s.mem;
    ScanRecovers(s.mem, s.allocs);
  }

  lemma OnTopOverlaps(allocs: seq<Slab>, r: seq<Slab>, total: nat)
    requires Layout(allocs, total) && allocs != [] && r != [] && r[0] == allocs[0].(bodyLen := 0)
    ensures !Layout(allocs + r, total)
  {
    var both := allocs + r;
    assert both[0] == allocs[0] && both[|allocs|] == r[0];
    assert !Apart(both[0], both[|allocs|]);
  }

  lemma OnTopExact(s: Store, total: nat)
    requires Inv(s, total)
    ensures var r := Recovered(s.allocs);
            Inv(Store(s.mem, s.allocs + r, s.index + BuildIndex(r), LiveSize(r)), total) <==>
            s.used == 0 && (s.allocs == [] || LooksBlank(s.allocs[0]))
  {
    var r := Recovered(s.allocs);
    if s.allocs == [] || LooksBlank(s.allocs[0]) {
      assert r == [] && s.allocs + r == s.allocs && s.index + BuildIndex(r) == s.index;
    } else {
      assert |r| == BlankFrom(s.allocs, 0) > 0;
      OnTopOverlaps(s.allocs, r, total);
    }
  }

  /** The store is sound after that exactly when nothing was in use and a restart would find nothing. */
  lemma ReopenExact(s: Store, total: nat)
    requires Inv(s, total) && Synced(s) && Fits(total) && |s.mem| == total
    ensures Inv(Reopen(s, Some(s.mem), total), total) <==>
            s.used == 0 && (s.allocs == [] || LooksBlank(s.allocs[0]))
  {
    ReopenAppends(s, total);
    OnTopExact(s, total);
  }

  /** The table keeps no body lengths, so it describes the slabs without them as well. */
  lemma StrippedSynced(mem: seq<byte>, allocs: seq<Slab>)
    requires TableOf(mem, allocs)
    ensures TableOf(mem, Stripped(allocs))
  {
  }

  // ---------------------------------------------------------------- compaction and the table

  /** The two writes of a moved slab's place, field by field. */
  lemma RetableFields(mem: seq<byte>, index: nat, offset: nat, size: nat)
    requires index < MAX_SLABS && DATA_REGION_OFFSET <= |mem|
    ensures var e, m := EntryAt(index), Retable(mem, index, offset, size);
            && |m| == |mem| && m[e..e + 32] == mem[e..e + 32] && m[e + 32..e + 40] == ToLE(offset, 8)
            && m[e + 40..e + 48] == ToLE(size, 8) && m[e + 48..e + 57] == mem[e + 48..e + 57]
  {
    var e := EntryAt(index);
    var m1 := Splice(mem, e + 32, ToLE(offset, 8));
    SpliceSlice(mem, e + 32, ToLE(offset, 8), e, e + 32);
    SpliceSlice(mem, e + 32, ToLE(offset, 8), e + 48, e + 57);
    SpliceSlice(m1, e + 40, ToLE(size, 8), e, e + 32);
    SpliceSlice(m1, e + 40, ToLE(size, 8), e + 32, e + 40);
    SpliceSlice(m1, e + 40, ToLE(size, 8), e + 48, e + 57);
  }

  lemma Joined(m: seq<byte>, e: nat)
    requires e + 57 <= |m|
    ensures m[e..e + 57] == m[e..e + 32] + m[e + 32..e + 40] + m[e + 40..e + 48] + m[e + 48..e + 57]
    ensures m[e + 48..e + 57] == [m[e + 48]] + m[e + 49..e + 57]
  {
  }

  /** Rewriting offset and size of entry `i` records the moved slab. */
  lemma RetableEntry(mem: seq<byte>, s: Slab, offset: nat, size: nat)
    requires EntryIs(mem, s) && s.index < MAX_SLABS && DATA_REGION_OFFSET <= |mem|
    ensures EntryIs(Retable(mem, s.index, offset, size), s.(offset := offset, size := size))
  {
    var e := EntryAt(s.index);
    EncodedFields(mem, s);
    RetableFields(mem, s.index, offset, size);
    Joined(Retable(mem, s.index, offset, size), e);
    Joined(mem, e);
  }

  lemma RetableOther(mem: seq<byte>, index: nat, offset: nat, size: nat, i: nat)
    requires index < MAX_SLABS && i < MAX_SLABS && i != index && DATA_REGION_OFFSET <= |mem|
    ensures var m := Retable(mem, index, offset, size);
            && m[EntryAt(i)..EntryAt(i) + ENTRY_USED] == mem[EntryAt(i)..EntryAt(i) + ENTRY_USED]
            && (Blank(m, i) <==> Blank(mem, i))
  {
    var e := EntryAt(index);
    EntryUntouched(mem, e + 32, ToLE(offset, 8), i);
    EntryUntouched(Splice(mem, e + 32, ToLE(offset, 8)), e + 40, ToLE(size, 8), i);
  }

  lemma RetableSyncs(mem: seq<byte>, table: seq<Slab>, i: nat, offset: nat, size: nat)
    requires HeaderOk(mem) && TableOf(mem, table) && i < |table|
    ensures HeaderOk(Retable(mem, i, offset, size))
    ensures TableOf(Retable(mem, i, offset, size), table[i := table[i].(offset := offset, size := size)])
  {
    var e, m := EntryAt(i), Retable(mem, i, offset, size);
    var table' := table[i := table[i].(offset := offset, size := size)];
    HeaderUntouched(mem, e + 32, ToLE(offset, 8));
    HeaderUntouched(Splice(mem, e + 32, ToLE(offset, 8)), e + 40, ToLE(size, 8));
    forall k | 0 <= k < |table|
      ensures EntryIs(m, table'[k])
    {
      if k == i {
        RetableEntry(mem, table[i], offset, size);
      } else {
        RetableOther(mem, i, offset, size, k);
      }
    }
    forall k | |table| <= k < MAX_SLABS
      ensures Blank(m, k)
    {
      RetableOther(mem, i, offset, size, k);
    }
  }

  /** Moving a slab changes the place in the table entry of its number, whatever that entry describes. */
  lemma MoveOneTable(im: Image, table: seq<Slab>, i: nat, next: nat, total: nat)
    requires i < |im.allocs| <= |table| && ReadySlab(im.allocs[i], next, total) && im.allocs[i].index == i
    requires total == |im.mem| && DATA_REGION_OFFSET <= next && HeaderOk(im.mem) && TableOf(im.mem, table)
    ensures var r := MoveOne(im, i, next, total);
            && r.allocs[i] == im.allocs[i].(offset := next) && HeaderOk(r.mem)
            && TableOf(r.mem, table[i := table[i].(offset := next, size := im.allocs[i].size)])
  {
    var s := im.allocs[i];
    var mem1 := CopyDown(im.mem, s, next);
    MovedSizeIsSize(s, total);
    if next != s.offset && s.bodyLen > 0 {
      DataWriteSyncs(im.mem, table, table, next, im.mem[s.offset..s.offset + s.bodyLen]);
    }
    RetableSyncs(mem1, table, i, next, s.size);
  }

  /** The listed entries take the place their slabs were moved to; the others stay. */
  ghost predicate Replaced(table: seq<Slab>, table': seq<Slab>, allocs: seq<Slab>, order: seq<nat>) {
    && |table'| == |table| >= |allocs| && (forall i | i in order :: i < |allocs|)
    && forall i | 0 <= i < |table| ::
         table'[i] == if i in order then table[i].(offset := allocs[i].offset, size := allocs[i].size) else table[i]
  }

  lemma ReplacedFirst(table: seq<Slab>, table': seq<Slab>, allocs: seq<Slab>, order: seq<nat>)
    requires order != [] && order[0] !in order[1..] && Replaced(table, table', allocs, order)
    ensures var i := order[0];
            i < |allocs| && Replaced(table[i := table[i].(offset := allocs[i].offset, size := allocs[i].size)],
                                     table', allocs, order[1..])
  {
    assert order[0] in order && forall i :: i in order <==> i == order[0] || i in order[1..];
  }

  lemma FirstNotAgain(im: Image, order: seq<nat>, next: nat, total: nat)
    requires order != [] && Ready(im.allocs, order, next, total)
    ensures order[0] < |im.allocs| && order[0] !in order[1..]
  {
    forall k | 0 <= k < |order[1..]|
      ensures order[1..][k] != order[0]
    {
      assert order[1..][k] == order[k + 1];
    }
  }

  /** The table after the first move. */
  lemma FirstTable(im: Image, table: seq<Slab>, table': seq<Slab>, order: seq<nat>, next: nat, total: nat, im1: Image,
                   next1: nat)
      returns (table1: seq<Slab>)
    requires order != [] && Ready(im.allocs, order, next, total) && next <= total == |im.mem| == |im1.mem|
    requires im.allocs[order[0]].index == order[0] && HeaderOk(im.mem) && TableOf(im.mem, table)
    requires im1 == MoveOne(im, order[0], next, total) && Ready(im1.allocs, order[1..], next1, total) && next1 <= total
    requires Replaced(table, table', MoveAll(im1, order[1..], next1, total).allocs, order)
    ensures HeaderOk(im1.mem) && TableOf(im1.mem, table1)
    ensures Replaced(table1, table', MoveAll(im1, order[1..], next1, total).allocs, order[1..])
  {
    var i, r := order[0], MoveAll(im1, order[1..], next1, total);
    FirstNotAgain(im, order, next, total);
    assert r.allocs[i] == im1.allocs[i] by { MoveAllKeeps(im1, order[1..], next1, total); }
    MoveOneTable(im, table, i, next, total);
    table1 := table[i := table[i].(offset := next, size := im.allocs[i].size)];
    ReplacedFirst(table, table', r.allocs, order);
  }

  /** Until the slabs are renumbered, the table follows every move. */
  lemma {:induction false} MoveAllTable(im: Image, table: seq<Slab>, table': seq<Slab>, order: seq<nat>, next: nat,
                                        total: nat)
    requires Ready(im.allocs, order, next, total) && next <= total == |im.mem|
    requires forall i | 0 <= i < |im.allocs| :: im.allocs[i].index == i
    requires HeaderOk(im.mem) && TableOf(im.mem, table)
    requires Replaced(table, table', MoveAll(im, order, next, total).allocs, order)
    ensures var r := MoveAll(im, order, next, total); HeaderOk(r.mem) && TableOf(r.mem, table')
    decreases |order|
  {
    if order == [] {
      assert table' == table;
    } else {
      var im1, next1 := FirstStep(im, order, next, total);
      var table1 := FirstTable(im, table, table', order, next, total, im1, next1);
      MoveAllTable(im1, table1, table', order[1..], next1, total);
    }
  }

  /** The table after a compaction: the entries of live slabs take their new place. */
  ghost function CompactedTable(s: Store, table: seq<Slab>, total: nat): (r: seq<Slab>)
    requires Inv(s, total) && s.mem != [] && |s.allocs| <= |table|
    ensures |r| == |table|
    ensures forall i | 0 <= i < |table| ::
              r[i] == if i < |s.allocs| && s.allocs[i].inUse
                      then table[i].(offset := Packed(s, total).allocs[i].offset, size := s.allocs[i].size)
                      else table[i]
  {
    var allocs := Packed(s, total).allocs;
    seq(|table|, i requires 0 <= i < |table| =>
          if i < |s.allocs| && s.allocs[i].inUse then table[i].(offset := allocs[i].offset, size := s.allocs[i].size)
          else table[i])
  }

  /** Compaction makes of a table that describes `table` one that describes `CompactedTable`. */
  lemma CompactTable(s: Store, table: seq<Slab>, total: nat)
    requires Inv(s, total) && s.mem != [] && |s.allocs| <= |table| && HeaderOk(s.mem) && TableOf(s.mem, table)
    ensures HeaderOk(Compact(s, total).mem) && TableOf(Compact(s, total).mem, CompactedTable(s, table, total))
  {
    var r, order, table' := Packed(s, total), Order(s.allocs), CompactedTable(s, table, total);
    OrderReady(s.allocs, total);
    OrderLive(s.allocs);
    forall i | 0 <= i < |s.allocs|
      ensures r.allocs[i].size == s.allocs[i].size
    {
      PackedSlab(s, total, i);
    }
    assert Replaced(table, table', r.allocs, order);
    MoveAllTable(Image(s.mem, s.allocs), table, table', order, DATA_REGION_OFFSET, total);
  }

  /** A table in step with the slabs then describes the moved slabs, dropped ones included. */
  lemma PackedSynced(s: Store, total: nat)
    requires Inv(s, total) && s.mem != [] && Synced(s)
    ensures CompactedTable(s, s.allocs, total) == Packed(s, total).allocs
    ensures HeaderOk(Packed(s, total).mem) && TableOf(Packed(s, total).mem, Packed(s, total).allocs)
  {
    CompactTable(s, s.allocs, total);
    PackedMoved(s, total);
    OrderLive(s.allocs);
    forall i | 0 <= i < |s.allocs|
      ensures CompactedTable(s, s.allocs, total)[i] == Packed(s, total).allocs[i]
    {
      PackedSlab(s, total, i);
    }
  }

  lemma {:induction false} ActiveAll(allocs: seq<Slab>)
    requires forall i | 0 <= i < |allocs| :: allocs[i].index == i
    ensures |Active(allocs)| <= |allocs|
    ensures Active(allocs) == allocs <==> forall i | 0 <= i < |allocs| :: allocs[i].inUse
    ensures |Active(allocs)| == |allocs| <==> forall i | 0 <= i < |allocs| :: allocs[i].inUse
  {
    if allocs != [] {
      var n := |allocs| - 1;
      ActiveAll(allocs[..n]);
      assert allocs == allocs[..n] + [allocs[n]];
      if forall i | 0 <= i < |allocs| :: allocs[i].inUse {
        assert Active(allocs) == Active(allocs[..n]) + [allocs[n]];
      }
    }
  }

  lemma BlankLooks(mem: seq<byte>, s: Slab)
    requires EntryIs(mem, s)
    ensures Blank(mem, s.index) <==> LooksBlank(s)
  {
    EncodedFields(mem, s);
  }

  /** Slabs without a live one at the end do not matter to what stays. */
  lemma {:induction false} ActiveFront(allocs: seq<Slab>, n: nat)
    requires n <= |allocs| && forall i | n <= i < |allocs| :: !allocs[i].inUse
    ensures Active(allocs) == Active(allocs[..n])
  {
    if n == |allocs| {
      assert allocs[..n] == allocs;
    } else {
      var init := allocs[..|allocs| - 1];
      ActiveFront(init, n);
      assert init[..n] == allocs[..n];
    }
  }

  /** Live slabs up to `n`, and from there on only freed ones with an all-zero digest. */
  ghost predicate BlankAfter(allocs: seq<Slab>, n: nat) {
    && n <= |allocs| && (forall i | 0 <= i < n :: allocs[i].inUse)
    && forall i | n <= i < |allocs| :: LooksBlank(allocs[i])
  }

  lemma BlankAfterSyncs(mem: seq<byte>, allocs: seq<Slab>, n: nat)
    requires TableOf(mem, allocs) && BlankAfter(allocs, n)
    ensures TableOf(mem, Active(allocs))
  {
    ActiveFront(allocs, n);
    ActiveAll(allocs[..n]);
    forall i | n <= i < MAX_SLABS
      ensures Blank(mem, i)
    {
      if i < |allocs| {
        BlankLooks(mem, allocs[i]);
      }
    }
  }

  lemma SyncedBlankAfter(mem: seq<byte>, allocs: seq<Slab>)
    requires TableOf(mem, allocs) && TableOf(mem, Active(allocs))
    ensures BlankAfter(allocs, |Active(allocs)|)
  {
    ActiveAll(allocs);
    var n := |Active(allocs)|;
    forall i | n <= i < |allocs|
      ensures LooksBlank(allocs[i])
    {
      BlankLooks(mem, allocs[i]);
    }
    AllLiveBefore(allocs, n);
  }

  /** As many live slabs as there are positions before `n`, and none after: all of those are live. */
  lemma AllLiveBefore(allocs: seq<Slab>, n: nat)
    requires n == |Active(allocs)| <= |allocs| && forall i | 0 <= i < |allocs| :: allocs[i].index == i
    requires forall i | n <= i < |allocs| :: !allocs[i].inUse
    ensures forall i | 0 <= i < n :: allocs[i].inUse
  {
    ActiveFront(allocs, n);
    ActiveAll(allocs[..n]);
    assert forall i | 0 <= i < n :: allocs[i] == allocs[..n][i];
  }

  lemma RenumberSyncs(mem: seq<byte>, allocs: seq<Slab>)
    requires TableOf(mem, allocs)
    ensures TableOf(mem, Active(allocs)) <==> exists n: nat :: BlankAfter(allocs, n)
  {
    if n: nat :| BlankAfter(allocs, n) {
      BlankAfterSyncs(mem, allocs, n);
    }
    if TableOf(mem, Active(allocs)) {
      SyncedBlankAfter(mem, allocs);
    }
  }

  lemma SameTail(a: seq<Slab>, b: seq<Slab>)
    requires |a| == |b| && forall i | 0 <= i < |a| :: a[i].inUse == b[i].inUse && a[i].digest == b[i].digest
    ensures (exists n: nat :: BlankAfter(a, n)) <==> exists n: nat :: BlankAfter(b, n)
  {
    if n: nat :| BlankAfter(a, n) {
      assert BlankAfter(b, n);
    }
    if n: nat :| BlankAfter(b, n) {
      assert BlankAfter(a, n);
    }
  }

  /**
   * Compaction writes each moved slab at its old table position and renumbers afterwards.
   * The table still describes the store exactly when the slabs it drops are all at the end
   * and look blank there.
   */
  lemma CompactSyncs(s: Store, total: nat)
    requires Inv(s, total) && s.mem != [] && Synced(s)
    ensures Synced(Compact(s, total)) <==> exists n: nat :: BlankAfter(s.allocs, n)
  {
    var r := Packed(s, total);
    assert HeaderOk(r.mem) && TableOf(r.mem, r.allocs) by { PackedSynced(s, total); }
    forall i | 0 <= i < |s.allocs|
      ensures r.allocs[i].inUse == s.allocs[i].inUse && r.allocs[i].digest == s.allocs[i].digest
    {
      PackedSlab(s, total, i);
    }
    RenumberSyncs(r.mem, r.allocs);
    SameTail(s.allocs, r.allocs);
  }

  /** In particular, with no freed zero digest, exactly when no slab was free. */
  lemma CompactSyncsNonZero(s: Store, total: nat)
    requires Inv(s, total) && s.mem != [] && Synced(s)
    requires forall i | 0 <= i < |s.allocs| :: !LooksBlank(s.allocs[i])
    ensures Synced(Compact(s, total)) <==> forall i | 0 <= i < |s.allocs| :: s.allocs[i].inUse
  {
    CompactSyncs(s, total);
    if forall i | 0 <= i < |s.allocs| :: s.allocs[i].inUse {
      assert BlankAfter(s.allocs, |s.allocs|);
    }
    if n: nat :| BlankAfter(s.allocs, n) {
      forall i | 0 <= i < |s.allocs|
        ensures s.allocs[i].inUse
      {
        assert !LooksBlank(s.allocs[i]);
      }
    }
  }
}
