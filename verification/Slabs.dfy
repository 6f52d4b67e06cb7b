/**
 * The slab allocator of the persistent stevedore (crates/rv-storage/src/persistent.rs)
 * as a function on values: the mapped bytes, the slab vector, the digest index and the
 * used-size counter. `PersistentStevedore` in Stevedore.dfy runs it in place on an array.
 */
module Slabs {
  import opened Types
  import opened Endian

  // ---------------------------------------------------------------- on-disk constants

  const FILE_HEADER_SIZE: nat := 128
  const SLAB_ENTRY_SIZE: nat := 64
  const MAX_SLABS: nat := 65536
  const DATA_REGION_OFFSET: nat := FILE_HEADER_SIZE + MAX_SLABS * SLAB_ENTRY_SIZE
  const DATA_ALIGN: nat := 8
  const MIN_SLAB: nat := 64

  datatype Slab = Slab(index: nat, offset: nat, size: nat, inUse: bool, digest: Digest, bodyLen: nat)
  {
    function End(): nat { offset + size }
  }

  /** `mem` is empty while no file is mapped. */
  datatype Store = Store(mem: seq<byte>, allocs: seq<Slab>, index: map<Digest, nat>, used: nat)

  datatype Result = Ok | Full | NotFound | NotOpen

  function AlignUp(n: nat): (r: nat)
    ensures n <= r < n + DATA_ALIGN && r % DATA_ALIGN == 0
  {
    (n + DATA_ALIGN - 1) / DATA_ALIGN * DATA_ALIGN
  }

  // ---------------------------------------------------------------- writing bytes

  /** `mem` with `data` written at `at`. */
  function Splice(mem: seq<byte>, at: nat, data: seq<byte>): (r: seq<byte>)
    requires at + |data| <= |mem|
    ensures |r| == |mem|
  {
    mem[..at] + data + mem[at + |data|..]
  }

  lemma SpliceSlice(mem: seq<byte>, at: nat, data: seq<byte>, lo: nat, hi: nat)
    requires at + |data| <= |mem| && lo <= hi <= |mem|
    ensures hi <= at || at + |data| <= lo ==> Splice(mem, at, data)[lo..hi] == mem[lo..hi]
    ensures Splice(mem, at, data)[at..at + |data|] == data
  {
  }

  // ---------------------------------------------------------------- layout

  /** Where the entry of slab `i` starts in the table. */
  function EntryAt(i: nat): (e: nat)
    ensures i < MAX_SLABS ==> FILE_HEADER_SIZE <= e && e + SLAB_ENTRY_SIZE <= DATA_REGION_OFFSET
  {
    FILE_HEADER_SIZE + i * SLAB_ENTRY_SIZE
  }

  /** Aligned, inside the data region, and holding no more than its size. */
  predicate Placed(s: Slab, total: nat) {
    && DATA_REGION_OFFSET <= s.offset && s.End() <= total
    && s.offset % DATA_ALIGN == 0 && s.size % DATA_ALIGN == 0
    && MIN_SLAB <= s.size && s.bodyLen <= s.size && (!s.inUse ==> s.bodyLen == 0)
  }

  predicate Apart(s: Slab, t: Slab) {
    s.End() <= t.offset || t.End() <= s.offset
  }

  /** Every slab is placed and numbered by its position, and no two overlap. */
  ghost predicate Layout(allocs: seq<Slab>, total: nat) {
    && |allocs| <= MAX_SLABS
    && (forall i | 0 <= i < |allocs| :: Placed(allocs[i], total) && allocs[i].index == i)
    && (forall i, j | 0 <= i < j < |allocs| :: Apart(allocs[i], allocs[j]))
  }

  function LiveSize(allocs: seq<Slab>): nat {
    if allocs == [] then 0
    else
      var s := allocs[|allocs| - 1];
      LiveSize(allocs[..|allocs| - 1]) + if s.inUse then s.size else 0
  }

  /** Every indexed digest names a live slab that carries it. */
  ghost predicate Indexed(index: map<Digest, nat>, allocs: seq<Slab>) {
    forall d | d in index :: index[d] < |allocs| && allocs[index[d]].inUse && allocs[index[d]].digest == d
  }

  /** Every live slab is the one its digest is indexed at. */
  ghost predicate OneToOne(index: map<Digest, nat>, allocs: seq<Slab>) {
    forall i | 0 <= i < |allocs| && allocs[i].inUse :: allocs[i].digest in index && index[allocs[i].digest] == i
  }

  /** The bytes of a slab's body; nothing while no file is mapped. */
  function Content(mem: seq<byte>, s: Slab): seq<byte> {
    if s.offset + s.bodyLen <= |mem| then mem[s.offset..s.offset + s.bodyLen] else []
  }

  /** The allocator's invariant over every run. */
  ghost predicate Inv(s: Store, total: nat) {
    && DATA_REGION_OFFSET < total
    && (|s.mem| == total || (s.mem == [] && forall i | 0 <= i < |s.allocs| :: s.allocs[i].bodyLen == 0))
    && Layout(s.allocs, total)
    && Indexed(s.index, s.allocs)
    && s.used == LiveSize(s.allocs)
  }

  /** The source's `get_body`. */
  function GetBody(s: Store, d: Digest): (r: Option<seq<byte>>) {
    if d in s.index && s.mem != [] && s.index[d] < |s.allocs| && s.allocs[s.index[d]].bodyLen != 0
    then Some(Content(s.mem, s.allocs[s.index[d]])) else None
  }

  /** The body stored under `d`, empty when `get_body` answers none. */
  function Body(s: Store, d: Digest): seq<byte> {
    match GetBody(s, d) case Some(b) => b case None => []
  }

  // ---------------------------------------------------------------- table entries

  const ENTRY_USED: nat := 57

  /** The 57 bytes `write_slab_entry` writes; the rest of an entry is padding. */
  function EncodeEntry(s: Slab): (e: seq<byte>)
    ensures |e| == ENTRY_USED
  {
    s.digest.bytes + ToLE(s.offset, 8) + ToLE(s.size, 8) + [if s.inUse then 1 else 0] + ToLE(s.bodyLen, 8)
  }

  /** `write_slab_entry`, which does nothing while no file is mapped. */
  function WriteEntry(mem: seq<byte>, s: Slab): (r: seq<byte>)
    ensures |r| == |mem|
  {
    if EntryAt(s.index) + ENTRY_USED <= |mem| then Splice(mem, EntryAt(s.index), EncodeEntry(s)) else mem
  }

  // ---------------------------------------------------------------- operations

  /** `find_free_slab`: the first free slab at or after `i` that is large enough. */
  function FirstFit(allocs: seq<Slab>, size: nat, i: nat): (r: Option<nat>)
    requires i <= |allocs|
    ensures r.Some? ==>
              && i <= r.value < |allocs| && !allocs[r.value].inUse && size <= allocs[r.value].size
              && forall j | i <= j < r.value :: allocs[j].inUse || allocs[j].size < size
    ensures r.None? ==> forall j | i <= j < |allocs| :: allocs[j].inUse || allocs[j].size < size
    decreases |allocs| - i
  {
    if i == |allocs| then None
    else if !allocs[i].inUse && size <= allocs[i].size then Some(i)
    else FirstFit(allocs, size, i + 1)
  }

  /** One past the last byte any slab covers. */
  function MaxEnd(allocs: seq<Slab>): (e: nat)
    ensures DATA_REGION_OFFSET <= e
    ensures forall i | 0 <= i < |allocs| :: allocs[i].End() <= e
  {
    if allocs == [] then DATA_REGION_OFFSET
    else
      var e, s := MaxEnd(allocs[..|allocs| - 1]), allocs[|allocs| - 1];
      if s.End() > e then s.End() else e
  }

  function NextOffset(allocs: seq<Slab>): nat {
    AlignUp(MaxEnd(allocs))
  }

  /** `alloc_new_slab`: a slab after every other one, if there is room. */
  function NewSlab(allocs: seq<Slab>, size: nat, total: nat): (r: Option<Slab>) {
    if NextOffset(allocs) + AlignUp(size) > total || |allocs| >= MAX_SLABS then None
    else Some(Slab(|allocs|, NextOffset(allocs), AlignUp(size), false, ZERO_DIGEST, 0))
  }

  /** The slab `alloc_obj` will use and the vector that holds it. */
  function Choose(allocs: seq<Slab>, hint: nat, total: nat): (r: Option<(seq<Slab>, nat)>)
    ensures r.Some? ==> r.value.1 < |r.value.0|
  {
    var required := if hint > MIN_SLAB then hint else MIN_SLAB;
    match FirstFit(allocs, required, 0)
    case Some(i) => Some((allocs, i))
    case None =>
      match NewSlab(allocs, required, total)
      case Some(s) => Some((allocs + [s], |allocs|))
      case None => None
  }

  /** The source's `alloc_obj`. */
  function Alloc(s: Store, d: Digest, hint: nat, total: nat): (r: (Store, Result)) {
    match Choose(s.allocs, hint, total)
    case None => (s, Full)
    case Some((allocs, i)) =>
      var slab := allocs[i].(inUse := true, digest := d, bodyLen := 0);
      (Store(WriteEntry(s.mem, slab), allocs[i := slab], s.index[d := i], s.used + slab.size), Ok)
  }

  /** The source's `free_obj`. */
  function Free(s: Store, d: Digest): (r: Store) {
    if d !in s.index then s
    else if s.index[d] >= |s.allocs| || s.allocs[s.index[d]].size > s.used then s.(index := s.index - {d})
    else
      var i := s.index[d];
      var slab := s.allocs[i].(inUse := false, bodyLen := 0);
      Store(WriteEntry(s.mem, slab), s.allocs[i := slab], s.index - {d}, s.used - slab.size)
  }

  /** The data written behind a slab's body. */
  function Appended(s: Store, i: nat, data: seq<byte>): (r: Store)
    requires i < |s.allocs| && s.allocs[i].offset + s.allocs[i].bodyLen + |data| <= |s.mem|
  {
    var slab := s.allocs[i];
    s.(mem := Splice(s.mem, slab.offset + slab.bodyLen, data),
       allocs := s.allocs[i := slab.(bodyLen := slab.bodyLen + |data|)])
  }

  /** The source's `extend`. */
  function Extend(s: Store, d: Digest, data: seq<byte>): (r: (Store, Result)) {
    if d !in s.index then (s, NotFound)
    else if s.mem == [] then (s, NotOpen)
    else if s.index[d] >= |s.allocs| then (s, NotFound)
    else
      var i := s.index[d];
      var slab := s.allocs[i];
      var at := slab.offset + slab.bodyLen;
      if at + |data| > slab.End() || at + |data| > |s.mem| then (s, Full)
      else (Appended(s, i, data), Ok)
  }

  // ---------------------------------------------------------------- allocation keeps the invariant

  /** What `Choose` promises: a free slab of a valid layout that extends the old vector by at most one. */
  ghost predicate GoodChoice(allocs: seq<Slab>, allocs': seq<Slab>, i: nat, hint: nat, total: nat) {
    && i < |allocs'| && Layout(allocs', total) && !allocs'[i].inUse && hint <= allocs'[i].size
    && (allocs' == allocs || (|allocs'| == |allocs| + 1 && allocs'[..|allocs|] == allocs && i == |allocs|))
    && LiveSize(allocs') == LiveSize(allocs)
  }

  lemma ChooseGood(allocs: seq<Slab>, hint: nat, total: nat)
    requires Layout(allocs, total) && Choose(allocs, hint, total).Some?
    ensures var (allocs', i) := Choose(allocs, hint, total).value; GoodChoice(allocs, allocs', i, hint, total)
  {
    var (allocs', i) := Choose(allocs, hint, total).value;
    if allocs' != allocs {
      assert allocs'[..|allocs'| - 1] == allocs;
    }
  }

  lemma {:induction false} LiveSizeUpdate(allocs: seq<Slab>, i: nat, s: Slab)
    requires i < |allocs|
    ensures LiveSize(allocs[i := s]) == LiveSize(allocs)
              - (if allocs[i].inUse then allocs[i].size else 0) + (if s.inUse then s.size else 0)
  {
    var n := |allocs| - 1;
    if i == n {
      assert allocs[i := s][..n] == allocs[..n];
    } else {
      assert allocs[i := s][..n] == allocs[..n][i := s];
      LiveSizeUpdate(allocs[..n], i, s);
    }
  }

  /** A slab may change what it holds as long as it stays where it is. */
  lemma LayoutUpdate(allocs: seq<Slab>, i: nat, s: Slab, total: nat)
    requires i < |allocs| && Layout(allocs, total) && Placed(s, total)
    requires s.index == i && s.offset == allocs[i].offset && s.size == allocs[i].size
    ensures Layout(allocs[i := s], total)
  {
    var a := allocs[i := s];
    forall j, k | 0 <= j < k < |a|
      ensures Apart(a[j], a[k])
    {
      assert Apart(allocs[j], allocs[k]);
    }
  }

  /** A table write never reaches the data region. */
  lemma EntryKeepsData(mem: seq<byte>, s: Slab, t: Slab, total: nat)
    requires s.index < MAX_SLABS && Placed(t, total)
    ensures Content(WriteEntry(mem, s), t) == Content(mem, t)
  {
  }

  /** What every operation promises about the bodies of the digests it does not name. */
  ghost predicate OthersKept(s: Store, s': Store, d: Digest) {
    forall x | x != d :: (x in s'.index <==> x in s.index) && GetBody(s', x) == GetBody(s, x)
  }

  /** Allocation succeeds exactly when a free slab fits or there is room for a new one. */
  lemma AllocSucceeds(s: Store, d: Digest, hint: nat, total: nat)
    ensures var required := if hint > MIN_SLAB then hint else MIN_SLAB;
            Alloc(s, d, hint, total).1 == Ok <==>
              || (exists i | 0 <= i < |s.allocs| :: !s.allocs[i].inUse && required <= s.allocs[i].size)
              || (NextOffset(s.allocs) + AlignUp(required) <= total && |s.allocs| < MAX_SLABS)
    ensures Alloc(s, d, hint, total).1 != Ok ==> Alloc(s, d, hint, total) == (s, Full)
  {
  }

  /** Where the last slab ends, or the data region begins. */
  ghost predicate LastEnd(allocs: seq<Slab>, e: nat) {
    && (forall i | 0 <= i < |allocs| :: allocs[i].End() <= e)
    && (if allocs == [] then e == DATA_REGION_OFFSET else exists i | 0 <= i < |allocs| :: allocs[i].End() == e)
  }

  lemma {:induction false} MaxEndReached(allocs: seq<Slab>)
    requires forall i | 0 <= i < |allocs| :: DATA_REGION_OFFSET < allocs[i].End()
    ensures LastEnd(allocs, MaxEnd(allocs))
  {
    if allocs != [] {
      var n := |allocs| - 1;
      assert forall i | 0 <= i < n :: allocs[..n][i] == allocs[i];
      MaxEndReached(allocs[..n]);
    }
  }

  /** The smallest aligned size that holds `n` bytes. */
  ghost predicate LeastAligned(n: nat, size: nat) {
    n <= size < n + DATA_ALIGN && size % DATA_ALIGN == 0
  }

  ghost predicate FirstFree(allocs: seq<Slab>, required: nat, i: nat) {
    && i < |allocs| && !allocs[i].inUse && required <= allocs[i].size
    && forall j | 0 <= j < i :: allocs[j].inUse || allocs[j].size < required
  }

  lemma LastEndUnique(allocs: seq<Slab>, e: nat, f: nat)
    requires LastEnd(allocs, e) && LastEnd(allocs, f)
    ensures e == f
  {
  }

  lemma AlignedSum(a: nat, b: nat)
    requires a % DATA_ALIGN == 0 && b % DATA_ALIGN == 0
    ensures (a + b) % DATA_ALIGN == 0
  {
  }

  lemma LeastAlignedUnique(n: nat, size: nat)
    requires LeastAligned(n, size)
    ensures AlignUp(n) == size
  {
  }

  lemma NextOffsetExact(allocs: seq<Slab>, total: nat, e: nat)
    requires Layout(allocs, total) && LastEnd(allocs, e)
    ensures NextOffset(allocs) == e
  {
    forall i | 0 <= i < |allocs|
      ensures DATA_REGION_OFFSET < allocs[i].End() && allocs[i].End() % DATA_ALIGN == 0
    {
      assert Placed(allocs[i], total);
      AlignedSum(allocs[i].offset, allocs[i].size);
    }
    MaxEndReached(allocs);
    LastEndUnique(allocs, e, MaxEnd(allocs));
    LeastAlignedUnique(e, e);
  }

  function Required(hint: nat): nat {
    if hint > MIN_SLAB then hint else MIN_SLAB
  }

  lemma AllocReuses(s: Store, d: Digest, hint: nat, total: nat, i: nat)
    requires FirstFree(s.allocs, Required(hint), i)
    ensures var (s', r) := Alloc(s, d, hint, total);
            && r == Ok && s'.index == s.index[d := i]
            && s'.allocs == s.allocs[i := s.allocs[i].(inUse := true, digest := d, bodyLen := 0)]
  {
    FirstFitExact(s.allocs, Required(hint));
    assert Choose(s.allocs, hint, total) == Some((s.allocs, i));
  }

  lemma AllocAppends(s: Store, d: Digest, hint: nat, total: nat, e: nat, size: nat)
    requires Inv(s, total) && LastEnd(s.allocs, e) && LeastAligned(Required(hint), size)
    requires forall i: nat :: !FirstFree(s.allocs, Required(hint), i)
    ensures var (s', r) := Alloc(s, d, hint, total);
            if |s.allocs| < MAX_SLABS && e + size <= total then
              && r == Ok && s'.index == s.index[d := |s.allocs|]
              && s'.allocs == s.allocs + [Slab(|s.allocs|, e, size, true, d, 0)]
            else r == Full && s' == s
  {
    FirstFitExact(s.allocs, Required(hint));
    NextOffsetExact(s.allocs, total, e);
    LeastAlignedUnique(Required(hint), size);
    assert FirstFit(s.allocs, Required(hint), 0).None?;
  }

  /**
   * Allocation reuses the first free slab that is large enough; without one it adds the
   * smallest aligned slab behind all others, if the vector and the file have room; else it
   * fails and changes nothing.
   */
  lemma AllocExactly(s: Store, d: Digest, hint: nat, total: nat, e: nat, size: nat)
    requires Inv(s, total) && LastEnd(s.allocs, e) && LeastAligned(Required(hint), size)
    ensures var (s', r) := Alloc(s, d, hint, total);
            && (forall i: nat | FirstFree(s.allocs, Required(hint), i) ::
                  && r == Ok && s'.index == s.index[d := i]
                  && s'.allocs == s.allocs[i := s.allocs[i].(inUse := true, digest := d, bodyLen := 0)])
            && ((forall i: nat :: !FirstFree(s.allocs, Required(hint), i)) ==>
                  if |s.allocs| < MAX_SLABS && e + size <= total then
                    && r == Ok && s'.index == s.index[d := |s.allocs|]
                    && s'.allocs == s.allocs + [Slab(|s.allocs|, e, size, true, d, 0)]
                  else r == Full && s' == s)
  {
    forall i: nat | FirstFree(s.allocs, Required(hint), i)
      ensures var (s', r) := Alloc(s, d, hint, total);
              && r == Ok && s'.index == s.index[d := i]
              && s'.allocs == s.allocs[i := s.allocs[i].(inUse := true, digest := d, bodyLen := 0)]
    {
      AllocReuses(s, d, hint, total, i);
    }
    if forall i: nat :: !FirstFree(s.allocs, Required(hint), i) {
      AllocAppends(s, d, hint, total, e, size);
    }
  }

  lemma FirstFitExact(allocs: seq<Slab>, required: nat)
    ensures forall i: nat :: FirstFit(allocs, required, 0) == Some(i) <==> FirstFree(allocs, required, i)
    ensures FirstFit(allocs, required, 0).Some? ==> FirstFree(allocs, required, FirstFit(allocs, required, 0).value)
  {
    var fit := FirstFit(allocs, required, 0);
    forall i: nat | FirstFree(allocs, required, i)
      ensures fit == Some(i)
    {
    }
  }

  lemma AllocInv(s: Store, d: Digest, hint: nat, total: nat)
    requires Inv(s, total)
    ensures Inv(Alloc(s, d, hint, total).0, total)
  {
    if Choose(s.allocs, hint, total).Some? {
      ChooseGood(s.allocs, hint, total);
      var (allocs, i) := Choose(s.allocs, hint, total).value;
      var slab := allocs[i].(inUse := true, digest := d, bodyLen := 0);
      LiveSizeUpdate(allocs, i, slab);
      LayoutUpdate(allocs, i, slab, total);
      AllocIndexed(s.index, s.allocs, allocs, i, slab);
    }
  }

  lemma AllocIndexed(index: map<Digest, nat>, allocs: seq<Slab>, allocs': seq<Slab>, i: nat, slab: Slab)
    requires Indexed(index, allocs) && |allocs| <= |allocs'| && allocs'[..|allocs|] == allocs
    requires i < |allocs'| && !allocs'[i].inUse && slab.inUse
    ensures Indexed(index[slab.digest := i], allocs'[i := slab])
  {
    forall d | d in index && d != slab.digest
      ensures allocs'[i := slab][index[d]] == allocs[index[d]]
    {
      assert allocs'[index[d]] == allocs'[..|allocs|][index[d]];
    }
  }

  /** A successful allocation gives `d` an empty body in a slab of at least the hinted size. */
  lemma AllocBodies(s: Store, d: Digest, hint: nat, total: nat)
    requires Inv(s, total)
    ensures var (s', r) := Alloc(s, d, hint, total);
            && OthersKept(s, s', d)
            && (r == Ok ==>
                  && d in s'.index && GetBody(s', d) == None
                  && s'.index[d] < |s'.allocs| && s'.allocs[s'.index[d]].size >= hint)
  {
    if Choose(s.allocs, hint, total).Some? {
      ChooseGood(s.allocs, hint, total);
      var (allocs, i) := Choose(s.allocs, hint, total).value;
      var slab := allocs[i].(inUse := true, digest := d, bodyLen := 0);
      var s' := Alloc(s, d, hint, total).0;
      forall x | x != d
        ensures (x in s'.index <==> x in s.index) && GetBody(s', x) == GetBody(s, x)
      {
        if x in s.index {
          var k := s.index[x];
          assert s'.allocs[k] == s.allocs[k];
          EntryKeepsData(s.mem, slab, s.allocs[k], total);
        }
      }
    }
  }

  lemma ClaimOneToOne(index: map<Digest, nat>, allocs: seq<Slab>, i: nat, slab: Slab)
    requires i < |allocs| && !allocs[i].inUse && slab.inUse && Indexed(index, allocs)
    ensures OneToOne(index[slab.digest := i], allocs[i := slab]) <==> OneToOne(index, allocs) && slab.digest !in index
  {
    var allocs' := allocs[i := slab];
    assert slab.digest in index ==> allocs'[index[slab.digest]] == allocs[index[slab.digest]];
    if OneToOne(index[slab.digest := i], allocs') {
      forall k | 0 <= k < |allocs| && allocs[k].inUse
        ensures allocs[k].digest in index && index[allocs[k].digest] == k
      {
        assert allocs'[k] == allocs[k];
      }
    }
  }

  /** The index stays one-to-one with the live slabs exactly when the digest was not live. */
  lemma AllocOneToOne(s: Store, d: Digest, hint: nat, total: nat)
    requires Inv(s, total) && Alloc(s, d, hint, total).1 == Ok
    ensures var s' := Alloc(s, d, hint, total).0;
            OneToOne(s'.index, s'.allocs) <==> OneToOne(s.index, s.allocs) && d !in s.index
  {
    ChooseGood(s.allocs, hint, total);
    var (allocs, i) := Choose(s.allocs, hint, total).value;
    assert forall k | 0 <= k < |s.allocs| :: allocs[k] == allocs[..|s.allocs|][k];
    assert OneToOne(s.index, allocs) <==> OneToOne(s.index, s.allocs) by {
      if OneToOne(s.index, allocs) {
        forall k | 0 <= k < |s.allocs| && s.allocs[k].inUse
          ensures s.allocs[k].digest in s.index && s.index[s.allocs[k].digest] == k
        {
          assert allocs[k] == s.allocs[k];
        }
      }
    }
    ClaimOneToOne(s.index, allocs, i, allocs[i].(inUse := true, digest := d, bodyLen := 0));
  }

  lemma FreeInv(s: Store, d: Digest, total: nat)
    requires Inv(s, total)
    ensures Inv(Free(s, d), total)
  {
    if d in s.index {
      var i := s.index[d];
      var slab := s.allocs[i].(inUse := false, bodyLen := 0);
      LiveSizeUpdate(s.allocs, i, slab);
      LayoutUpdate(s.allocs, i, slab, total);
    }
  }

  lemma FreeBodies(s: Store, d: Digest, total: nat)
    requires Inv(s, total)
    ensures OthersKept(s, Free(s, d), d) && d !in Free(s, d).index
  {
    forall x | x != d
      ensures (x in Free(s, d).index <==> x in s.index) && GetBody(Free(s, d), x) == GetBody(s, x)
    {
      FreeOther(s, d, total, x);
    }
  }

  lemma FreeOther(s: Store, d: Digest, total: nat, x: Digest)
    requires Inv(s, total) && x != d
    ensures (x in Free(s, d).index <==> x in s.index) && GetBody(Free(s, d), x) == GetBody(s, x)
  {
    if d in s.index {
      var i := s.index[d];
      var slab := s.allocs[i].(inUse := false, bodyLen := 0);
      LiveSizeUpdate(s.allocs, i, slab);
      if x in s.index {
        var k := s.index[x];
        assert k != i;
        EntryKeepsData(s.mem, slab, s.allocs[k], total);
        SameBody(s, Free(s, d), x);
      }
    }
  }

  lemma SameBody(s: Store, s': Store, x: Digest)
    requires x in s.index && x in s'.index && s'.index[x] == s.index[x] < |s.allocs| == |s'.allocs| &&
            |s.mem| == |s'.mem|
    requires s'.allocs[s.index[x]] == s.allocs[s.index[x]]
    requires Content(s'.mem, s.allocs[s.index[x]]) == Content(s.mem, s.allocs[s.index[x]])
    ensures GetBody(s', x) == GetBody(s, x)
  {
  }

  lemma FreeOneToOne(s: Store, d: Digest, total: nat)
    requires Inv(s, total) && OneToOne(s.index, s.allocs)
    ensures OneToOne(Free(s, d).index, Free(s, d).allocs)
  {
    if d in s.index {
      LiveSizeUpdate(s.allocs, s.index[d], s.allocs[s.index[d]].(inUse := false, bodyLen := 0));
    }
  }

  lemma ExtendInv(s: Store, d: Digest, data: seq<byte>, total: nat)
    requires Inv(s, total)
    ensures Inv(Extend(s, d, data).0, total)
  {
    var (s', r) := Extend(s, d, data);
    if r == Ok {
      AppendedInv(s, s.index[d], data, total);
    }
  }

  lemma AppendedInv(s: Store, i: nat, data: seq<byte>, total: nat)
    requires Inv(s, total) && s.mem != [] && i < |s.allocs| && s.allocs[i].inUse
    requires s.allocs[i].bodyLen + |data| <= s.allocs[i].size &&
            s.allocs[i].offset + s.allocs[i].bodyLen + |data| <= |s.mem|
    ensures Inv(Appended(s, i, data), total)
  {
    var slab := s.allocs[i].(bodyLen := s.allocs[i].bodyLen + |data|);
    assert Placed(slab, total);
    LiveSizeUpdate(s.allocs, i, slab);
    LayoutUpdate(s.allocs, i, slab, total);
    IndexedUpdate(s.index, s.allocs, i, slab);
  }

  lemma IndexedUpdate(index: map<Digest, nat>, allocs: seq<Slab>, i: nat, s: Slab)
    requires Indexed(index, allocs) && i < |allocs| && s.inUse == allocs[i].inUse && s.digest == allocs[i].digest
    ensures Indexed(index, allocs[i := s])
  {
  }

  lemma ExtendOneToOne(s: Store, d: Digest, data: seq<byte>, total: nat)
    requires Inv(s, total) && OneToOne(s.index, s.allocs)
    ensures OneToOne(Extend(s, d, data).0.index, Extend(s, d, data).0.allocs)
  {
  }

  /** The four ways `extend` can answer, and when. */
  lemma ExtendAnswers(s: Store, d: Digest, data: seq<byte>, total: nat)
    requires Inv(s, total)
    ensures var r := Extend(s, d, data).1;
            && (r == NotFound <==> d !in s.index)
            && (r == NotOpen <==> d in s.index && s.mem == [])
            && (r == Full <==> d in s.index && s.mem != [] && |Body(s, d)| + |data| > s.allocs[s.index[d]].size)
    ensures Extend(s, d, data).1 != Ok ==> Extend(s, d, data).0 == s
  {
  }

  /** A successful extend appends to `d`'s body and leaves every other body alone. */
  lemma ExtendBodies(s: Store, d: Digest, data: seq<byte>, total: nat)
    requires Inv(s, total) && Extend(s, d, data).1 == Ok
    ensures var s' := Extend(s, d, data).0;
            OthersKept(s, s', d) && d in s'.index && Body(s', d) == Body(s, d) + data
  {
    var s', i := Extend(s, d, data).0, s.index[d];
    AppendedOwn(s, i, data, total);
    forall x | x != d
      ensures (x in s'.index <==> x in s.index) && GetBody(s', x) == GetBody(s, x)
    {
      if x in s.index {
        AppendedOther(s, i, data, total, s.index[x]);
      }
    }
  }

  lemma AppendedOwn(s: Store, i: nat, data: seq<byte>, total: nat)
    requires Inv(s, total) && i < |s.allocs| && s.allocs[i].offset + s.allocs[i].bodyLen + |data| <= |s.mem|
    ensures var s' := Appended(s, i, data); Content(s'.mem, s'.allocs[i]) == Content(s.mem, s.allocs[i]) + data
  {
    var s', slab := Appended(s, i, data), s.allocs[i];
    var at := slab.offset + slab.bodyLen;
    SpliceSlice(s.mem, at, data, slab.offset, at);
    JoinSlices(s'.mem, slab.offset, at, at + |data|);
  }

  lemma JoinSlices(m: seq<byte>, a: nat, b: nat, c: nat)
    requires a <= b <= c <= |m|
    ensures m[a..c] == m[a..b] + m[b..c]
  {
  }

  lemma AppendedOther(s: Store, i: nat, data: seq<byte>, total: nat, k: nat)
    requires Inv(s, total) && i < |s.allocs| && s.allocs[i].offset + s.allocs[i].bodyLen + |data| <= |s.mem|
    requires s.allocs[i].bodyLen + |data| <= s.allocs[i].size && k < |s.allocs| && k != i
    ensures var s' := Appended(s, i, data);
            s'.allocs[k] == s.allocs[k] && Content(s'.mem, s.allocs[k]) == Content(s.mem, s.allocs[k])
  {
    var slab, t := s.allocs[i], s.allocs[k];
    assert Apart(slab, t) by {
      if k < i { assert Apart(s.allocs[k], s.allocs[i]); } else { assert Apart(s.allocs[i], s.allocs[k]); }
    }
    SpliceSlice(s.mem, slab.offset + slab.bodyLen, data, t.offset, t.offset + t.bodyLen);
  }
}
