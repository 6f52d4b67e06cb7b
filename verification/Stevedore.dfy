/**
 * `PersistentStevedore` (crates/rv-storage/src/persistent.rs), run in place on one byte
 * array and proved against the value-level store of Slabs, Compaction and SlabTable.
 * Each call holds the source's locks throughout, so it is one atomic step.
 */
module Stevedore {
  import opened Types
  import opened Endian
  import opened Slabs
  import opened Compaction
  import opened SlabTable

  // ---------------------------------------------------------------- writing into the mapping

  /** `copy_nonoverlapping` from a buffer into the mapping. */
  method WriteAt(a: array<byte>, at: nat, data: seq<byte>)
    requires at + |data| <= a.Length
    modifies a
    ensures a[..] == Splice(old(a[..]), at, data)
  {
    forall k | 0 <= k < |data| {
      a[at + k] := data[k];
    }
  }

  /** `ptr::copy` within the mapping: the ranges may overlap. */
  method MoveWithin(a: array<byte>, src: nat, dst: nat, n: nat)
    requires src + n <= a.Length && dst + n <= a.Length
    modifies a
    ensures a[..] == Splice(old(a[..]), dst, old(a[..])[src..src + n])
  {
    forall k | 0 <= k < n {
      a[dst + k] := a[src + k];
    }
  }

  class PersistentStevedore {
    const totalSize: nat
    var mmap: array?<byte>
    var allocations: seq<Slab>
    var digestIndex: map<Digest, nat>
    var usedSize: nat

    ghost function State(): (s: Store)
      reads this, mmap
    {
      Store(if mmap == null then [] else mmap[..], allocations, digestIndex, usedSize)
    }

    ghost predicate Valid()
      reads this, mmap
    {
      Inv(State(), totalSize) && (mmap != null ==> mmap.Length == totalSize)
    }

    constructor (size: nat)
      requires size > DATA_REGION_OFFSET
      ensures Valid() && State() == Store([], [], map[], 0) && totalSize == size
    {
      totalSize := size;
      mmap := null;
      allocations := [];
      digestIndex := map[];
      usedSize := 0;
    }

    method WriteSlabEntry(slab: Slab)
      requires slab.index < MAX_SLABS && (mmap == null || DATA_REGION_OFFSET <= mmap.Length)
      modifies mmap
      ensures State() == old(State()).(mem := WriteEntry(old(State()).mem, slab))
    {
      if mmap != null {
        WriteAt(mmap, EntryAt(slab.index), EncodeEntry(slab));
      }
    }

    method FindFreeSlab(size: nat) returns (r: Option<nat>)
      ensures r == FirstFit(allocations, size, 0)
    {
      for i := 0 to |allocations|
        invariant FirstFit(allocations, size, 0) == FirstFit(allocations, size, i)
      {
        if !allocations[i].inUse && allocations[i].size >= size {
          return Some(i);
        }
      }
      return None;
    }

    method AllocNewSlab(size: nat) returns (r: Option<nat>)
      modifies this`allocations
      ensures NewSlab(old(allocations), size, totalSize).None? ==> r == None && allocations == old(allocations)
      ensures NewSlab(old(allocations), size, totalSize).Some? ==>
                && r == Some(|old(allocations)|)
                && allocations == old(allocations) + [NewSlab(old(allocations), size, totalSize).value]
    {
      var alignedSize := AlignUp(size);
      var next := DATA_REGION_OFFSET;
      for i := 0 to |allocations|
        invariant next == MaxEnd(allocations[..i])
      {
        assert allocations[..i + 1][..i] == allocations[..i];
        if allocations[i].End() > next {
          next := allocations[i].End();
        }
      }
      assert allocations[..|allocations|] == allocations;
      var alignedOffset := AlignUp(next);
      if alignedOffset + alignedSize > totalSize || |allocations| >= MAX_SLABS {
        return None;
      }
      r := Some(|allocations|);
      allocations := allocations + [Slab(|allocations|, alignedOffset, alignedSize, false, ZERO_DIGEST, 0)];
    }

    /** The chosen slab is marked live for `d`, recorded in the table and indexed. */
    method Claim(d: Digest, idx: nat)
      requires idx < |allocations| && allocations[idx].index < MAX_SLABS
      requires mmap == null || DATA_REGION_OFFSET <= mmap.Length
      modifies this, mmap
      ensures mmap == old(mmap)
      ensures var s, slab := old(State()), old(allocations)[idx].(inUse := true, digest := d, bodyLen := 0);
              State() == Store(WriteEntry(s.mem, slab), s.allocs[idx := slab], s.index[d := idx], s.used + slab.size)
    {
      var slab := allocations[idx].(inUse := true, digest := d, bodyLen := 0);
      allocations := allocations[idx := slab];
      usedSize := usedSize + slab.size;
      WriteSlabEntry(slab);
      digestIndex := digestIndex[d := idx];
    }

    /** First fit among the free slabs, else a new slab at the end. */
    method ChooseSlab(sizeHint: nat) returns (idx: Option<nat>)
      modifies this`allocations
      ensures Choose(old(allocations), sizeHint, totalSize).None? ==> idx == None && allocations == old(allocations)
      ensures Choose(old(allocations), sizeHint, totalSize).Some? ==>
                idx.Some? && Choose(old(allocations), sizeHint, totalSize) == Some((allocations, idx.value))
    {
      var required := if sizeHint > MIN_SLAB then sizeHint else MIN_SLAB;
      idx := FindFreeSlab(required);
      if idx.None? {
        idx := AllocNewSlab(required);
      }
    }

    method AllocObj(d: Digest, sizeHint: nat) returns (r: Result)
      requires Valid()
      modifies this, mmap
      ensures Valid() && mmap == old(mmap)
      ensures (State(), r) == Alloc(old(State()), d, sizeHint, totalSize)
    {
      ghost var s := State();
      var idx := ChooseSlab(sizeHint);
      if idx.None? {
        return Full;
      }
      assert allocations[idx.value].index < MAX_SLABS by { ChooseGood(s.allocs, sizeHint, totalSize); }
      Claim(d, idx.value);
      assert State() == Alloc(s, d, sizeHint, totalSize).0;
      AllocInv(s, d, sizeHint, totalSize);
      return Ok;
    }

    method FreeObj(d: Digest)
      requires Valid()
      modifies this, mmap
      ensures Valid() && mmap == old(mmap)
      ensures State() == Free(old(State()), d)
    {
      ghost var s := State();
      FreeInv(s, d, totalSize);
      if d in digestIndex {
        var idx := digestIndex[d];
        LiveSizeUpdate(allocations, idx, allocations[idx].(inUse := false, bodyLen := 0));
        digestIndex := digestIndex - {d};
        Release(idx);
        assert State() == Free(s, d);
      }
    }

    /** Mark slab `idx` as free, on disk too. */
    method Release(idx: nat)
      requires idx < |allocations| && allocations[idx].index < MAX_SLABS && allocations[idx].size <= usedSize
      requires mmap != null ==> DATA_REGION_OFFSET <= mmap.Length
      modifies this`allocations, this`usedSize, mmap
      ensures var s := old(State());
              var slab := s.allocs[idx].(inUse := false, bodyLen := 0);
              State() == Store(WriteEntry(s.mem, slab), s.allocs[idx := slab], s.index, s.used - slab.size)
    {
      var slab := allocations[idx].(inUse := false, bodyLen := 0);
      allocations := allocations[idx := slab];
      usedSize := usedSize - slab.size;
      WriteSlabEntry(slab);
    }

    /** `data` is written after what slab `idx` already holds. */
    method Append(idx: nat, data: seq<byte>)
      requires idx < |allocations| && mmap != null
      requires allocations[idx].offset + allocations[idx].bodyLen + |data| <= mmap.Length
      modifies this`allocations, mmap
      ensures State() == Appended(old(State()), idx, data)
    {
      var slab := allocations[idx];
      WriteAt(mmap, slab.offset + slab.bodyLen, data);
      allocations := allocations[idx := slab.(bodyLen := slab.bodyLen + |data|)];
    }

    method ExtendObj(d: Digest, data: seq<byte>) returns (r: Result)
      requires Valid()
      modifies this`allocations, mmap
      ensures Valid()
      ensures (State(), r) == Extend(old(State()), d, data)
    {
      if d !in digestIndex {
        return NotFound;
      }
      if mmap == null {
        return NotOpen;
      }
      ghost var s := State();
      var idx := digestIndex[d];
      var slab := allocations[idx];
      var writeOffset := slab.offset + slab.bodyLen;
      var writeEnd := writeOffset + |data|;
      assert Placed(slab, totalSize);
      if writeEnd > slab.offset + slab.size {
        return Full;
      }
      Append(idx, data);
      assert State() == Extend(s, d, data).0;
      ExtendInv(s, d, data, totalSize);
      return Ok;
    }

    method BodyOf(d: Digest) returns (r: Option<seq<byte>>)
      requires Valid()
      ensures r == GetBody(State(), d)
    {
      if d !in digestIndex || mmap == null {
        return None;
      }
      var slab := allocations[digestIndex[d]];
      if slab.bodyLen == 0 {
        return None;
      }
      return Some(mmap[slab.offset..slab.offset + slab.bodyLen]);
    }

    /** Copy a slab's bytes to where it is to be. */
    method CopySlab(slab: Slab, next: nat)
      requires mmap != null && slab.offset + slab.bodyLen <= mmap.Length && next <= slab.offset
      modifies mmap
      ensures mmap[..] == CopyDown(old(mmap[..]), slab, next)
    {
      if next != slab.offset && slab.bodyLen > 0 {
        MoveWithin(mmap, slab.offset, next, slab.bodyLen);
      }
    }

    /** One pass of the loop in `compact`: copy the used bytes left, then record the new place. */
    method MoveSlab(idx: nat, next: nat)
      requires mmap != null && mmap.Length == totalSize
      requires idx < |allocations| && ReadySlab(allocations[idx], next, totalSize)
      modifies this`allocations, mmap
      ensures Image(mmap[..], allocations) == MoveOne(Image(old(mmap[..]), old(allocations)), idx, next, totalSize)
    {
      var slab := allocations[idx];
      var alignedSize := AlignUp(slab.bodyLen);
      CopySlab(slab, next);
      var moved := slab.(offset := next, size := if alignedSize > slab.size then alignedSize else slab.size);
      RewriteEntry(slab.index, moved.offset, moved.size);
      allocations := allocations[idx := moved];
    }

    /** The direct write of offset and size into table entry `index`. */
    method RewriteEntry(index: nat, offset: nat, size: nat)
      requires mmap != null && DATA_REGION_OFFSET <= mmap.Length && index < MAX_SLABS
      modifies mmap
      ensures mmap[..] == Retable(old(mmap[..]), index, offset, size)
    {
      var entry := EntryAt(index);
      WriteAt(mmap, entry + 32, ToLE(offset, 8));
      WriteAt(mmap, entry + 40, ToLE(size, 8));
    }

    /** The loop body, for the `k`-th slab in offset order. */
    method MovePass(order: seq<nat>, k: nat, next: nat, ghost goal: Image) returns (next': nat)
      requires mmap != null && mmap.Length == totalSize && k < |order|
      requires Pending(Image(mmap[..], allocations), order, k, next, totalSize, goal)
      modifies this`allocations, mmap
      ensures Pending(Image(mmap[..], allocations), order, k + 1, next', totalSize, goal)
    {
      var idx := order[k];
      ghost var im := StepAt(Image(mmap[..], allocations), order, k, next, totalSize, goal);
      MoveSlab(idx, next);
      assert Image(mmap[..], allocations) == im;
      next' := next + allocations[idx].size;
    }

    method MoveSlabs(order: seq<nat>)
      requires mmap != null && mmap.Length == totalSize > DATA_REGION_OFFSET
      requires Ready(allocations, order, DATA_REGION_OFFSET, totalSize)
      modifies this`allocations, mmap
      ensures Image(mmap[..], allocations)
              == MoveAll(Image(old(mmap[..]), old(allocations)), order, DATA_REGION_OFFSET, totalSize)
    {
      ghost var goal := MoveAll(Image(mmap[..], allocations), order, DATA_REGION_OFFSET, totalSize);
      var next: nat := DATA_REGION_OFFSET;
      PendingFirst(Image(mmap[..], allocations), order, totalSize);
      for k := 0 to |order|
        invariant Pending(Image(mmap[..], allocations), order, k, next, totalSize, goal)
      {
        next := MovePass(order, k, next, goal);
      }
      PendingLast(Image(mmap[..], allocations), order, next, totalSize, goal);
    }

    static method IndexOf(active: seq<Slab>) returns (index: map<Digest, nat>)
      requires forall i | 0 <= i < |active| :: active[i].inUse
      ensures index == BuildIndex(active)
    {
      index := map[];
      for i := 0 to |active|
        invariant index == BuildIndex(active[..i])
      {
        assert active[..i + 1][..i] == active[..i];
        index := index[active[i].digest := i];
      }
      assert active[..|active|] == active;
    }

    static method Numbered(active: seq<Slab>) returns (r: seq<Slab>)
      ensures |r| == |active| && forall k | 0 <= k < |r| :: r[k] == active[k].(index := k)
    {
      r := active;
      for i := 0 to |active|
        invariant |r| == |active|
        invariant forall k | 0 <= k < i :: r[k] == active[k].(index := k)
        invariant forall k | i <= k < |active| :: r[k] == active[k]
      {
        r := r[i := r[i].(index := i)];
      }
    }

    /** Drop the free slabs, rebuild the index from the live ones, renumber them, recompute the used size. */
    method Renumber()
      modifies this`allocations, this`digestIndex, this`usedSize
      ensures allocations == Active(old(allocations))
      ensures digestIndex == BuildIndex(Active(old(allocations)))
      ensures usedSize == LiveSize(Active(old(allocations)))
    {
      var active := Live(allocations);
      LiveActive(allocations);
      LiveAllInUse(allocations);
      digestIndex := IndexOf(active);
      ghost var goal := Active(allocations);
      allocations := Numbered(active);
      assert allocations == goal;
      usedSize := LiveSize(allocations);
    }

    method CompactAll()
      requires Valid()
      modifies this, mmap
      ensures Valid() && mmap == old(mmap)
      ensures State() == Compact(old(State()), totalSize)
    {
      if mmap == null {
        return;
      }
      ghost var s := State();
      var order := Order(allocations);
      OrderReady(allocations, totalSize);
      MoveSlabs(order);
      Renumber();
      assert State() == Compact(s, totalSize);
      CompactInv(s, totalSize);
    }

    /** Decode table entry `i`; `None` where the scan stops. */
    method ReadEntry(i: nat) returns (r: Option<Slab>)
      requires mmap != null && EntryAt(i) + SLAB_ENTRY_SIZE <= mmap.Length
      ensures r == if Blank(mmap[..], i) then None else Some(ReadSlab(mmap[..], i))
    {
      var e := EntryAt(i);
      ghost var mem := mmap[..];
      var inUse := mmap[e + 48] != 0;
      assert mmap[e..e + 32] == mem[e..e + 32];
      if !inUse && mmap[e..e + 32] == ZERO_BYTES {
        return None;
      }
      assert mmap[e + 32..e + 40] == mem[e + 32..e + 40] && mmap[e + 40..e + 48] == mem[e + 40..e + 48];
      assert mmap[e + 49..e + 57] == mem[e + 49..e + 57];
      return Some(Slab(i, FromLE(mmap[e + 32..e + 40]), FromLE(mmap[e + 40..e + 48]), inUse, Digest(mmap[e..e + 32]),
                       if inUse then FromLE(mmap[e + 49..e + 57]) else 0));
    }

    /** The loop body of `load_existing`: table entry `i`, or the end of the table. */
    method LoadEntry(i: nat, used: nat, ghost s: Store) returns (more: bool, used': nat)
      requires mmap != null && i < MAX_SLABS && Loading(s, mmap[..], i, allocations, digestIndex, used)
      modifies this`allocations, this`digestIndex
      ensures more ==> Loading(s, mmap[..], i + 1, allocations, digestIndex, used')
      ensures !more ==> ScanEnds(mmap[..], i) && Loading(s, mmap[..], i, allocations, digestIndex, used')
    {
      if EntryAt(i) + SLAB_ENTRY_SIZE > mmap.Length {
        return false, used;
      }
      var entry := ReadEntry(i);
      if entry.None? {
        return false, used;
      }
      var slab := entry.value;
      LoadStep(s, mmap[..], i, allocations, digestIndex, used, slab);
      used' := used;
      if slab.inUse {
        used' := used + slab.size;
        digestIndex := digestIndex[slab.digest := i];
      }
      allocations := allocations + [slab];
      return true, used';
    }

    /** The loop of `load_existing`. */
    method LoadEntries(ghost s: Store) returns (totalUsed: nat, ghost i: nat)
      requires mmap != null && s == State()
      modifies this`allocations, this`digestIndex
      ensures ScanEnds(mmap[..], i) && Loading(s, mmap[..], i, allocations, digestIndex, totalUsed)
    {
      totalUsed := 0;
      LoadStart(s, mmap[..]);
      var k := 0;
      while k < MAX_SLABS
        invariant k <= MAX_SLABS && Loading(s, mmap[..], k, allocations, digestIndex, totalUsed)
      {
        var more;
        more, totalUsed := LoadEntry(k, totalUsed, s);
        if !more {
          return totalUsed, k;
        }
        k := k + 1;
      }
      return totalUsed, k;
    }

    /** `load_existing`: what the table describes is appended to the slabs there are. */
    method LoadExisting()
      modifies this`allocations, this`digestIndex, this`usedSize
      ensures mmap == null ==> State() == old(State())
      ensures mmap != null ==> State() == LoadedOnto(old(State()), mmap[..])
    {
      if mmap != null {
        ghost var s, i := State(), 0;
        usedSize, i := LoadEntries(s);
        LoadEnd(s, mmap[..], i, allocations, digestIndex, usedSize);
      }
    }

    /** Map the file; `None` when it did not exist. A store that is already open keeps its slabs. */
    method OpenFile(file: Option<seq<byte>>)
      requires totalSize > DATA_REGION_OFFSET
      modifies this
      ensures mmap != null && fresh(mmap) && mmap.Length == totalSize
      ensures State() == Reopen(old(State()), file, totalSize)
      ensures old(State()) == Store([], [], map[], 0) ==> State() == Open(file, totalSize)
    {
      ReopenClosed(file, totalSize);
      var bytes := Resize(if file.Some? then file.value else [], totalSize);
      var m := new byte[totalSize](i requires 0 <= i < totalSize => bytes[i]);
      assert m[..] == bytes;
      mmap := m;
      if file.Some? && m[..8] == MAGIC && FromLE(m[8..12]) == VERSION {
        LoadExisting();
      } else {
        WriteAt(m, 0, Header(totalSize));
      }
    }

    method Close()
      modifies this
      ensures State() == Store([], [], map[], 0)
    {
      mmap := null;
      allocations := [];
      digestIndex := map[];
      usedSize := 0;
    }
  }

  lemma {:induction false} LiveAllInUse(allocs: seq<Slab>)
    ensures forall p | 0 <= p < |Live(allocs)| :: Live(allocs)[p].inUse
  {
    if allocs != [] {
      LiveAllInUse(allocs[..|allocs| - 1]);
    }
  }

  /** The first `i` entries have been read into `part`, and the scan would go on from there. */
  ghost predicate Scanned(mem: seq<byte>, i: nat, part: seq<Slab>) {
    |part| == i && part + Scan(mem, i) == Scan(mem, 0)
  }

  /** They have been indexed, on top of `index0`, and counted. */
  ghost predicate Counted(index0: map<Digest, nat>, mem: seq<byte>, i: nat, part: seq<Slab>, index: map<Digest, nat>,
                          used: nat) {
    Scanned(mem, i, part) && index == index0 + BuildIndex(part) && used == LiveSize(part)
  }

  lemma MergeSet<K, V>(m: map<K, V>, n: map<K, V>, k: K, v: V)
    ensures (m + n)[k := v] == m + n[k := v]
  {
  }

  lemma CountStep(index0: map<Digest, nat>, mem: seq<byte>, i: nat, part: seq<Slab>, index: map<Digest, nat>,
                  used: nat, slab: Slab)
    requires Counted(index0, mem, i, part, index, used) && !ScanEnds(mem, i) && slab == ReadSlab(mem, i)
    ensures Counted(index0, mem, i + 1, part + [slab], if slab.inUse then index[slab.digest := i] else index,
                    if slab.inUse then used + slab.size else used)
  {
    LiveSizeAppend(part, slab);
    BuildIndexAppend(part, slab);
    ScanPush(mem, i, part, slab);
    MergeSet(index0, BuildIndex(part), slab.digest, i);
  }

  /** They have been added to what the store `s` held. */
  ghost predicate Loading(s: Store, mem: seq<byte>, i: nat, allocs: seq<Slab>, index: map<Digest, nat>, used: nat) {
    && |s.allocs| <= |allocs| && allocs[..|s.allocs|] == s.allocs
    && Counted(s.index, mem, i, allocs[|s.allocs|..], index, used)
  }

  lemma LoadStart(s: Store, mem: seq<byte>)
    ensures Loading(s, mem, 0, s.allocs, s.index, 0)
  {
    assert s.allocs[|s.allocs|..] == [] && [] + Scan(mem, 0) == Scan(mem, 0);
    assert s.index + map[] == s.index;
  }

  lemma ScanPush(mem: seq<byte>, i: nat, part: seq<Slab>, slab: Slab)
    requires !ScanEnds(mem, i) && slab == ReadSlab(mem, i)
    ensures part + Scan(mem, i) == (part + [slab]) + Scan(mem, i + 1)
  {
  }

  lemma LoadStep(s: Store, mem: seq<byte>, i: nat, allocs: seq<Slab>, index: map<Digest, nat>, used: nat, slab: Slab)
    requires Loading(s, mem, i, allocs, index, used) && !ScanEnds(mem, i) && slab == ReadSlab(mem, i)
    ensures Loading(s, mem, i + 1, allocs + [slab], if slab.inUse then index[slab.digest := i] else index,
                    if slab.inUse then used + slab.size else used)
  {
    var part := allocs[|s.allocs|..];
    assert (allocs + [slab])[|s.allocs|..] == part + [slab];
    assert (allocs + [slab])[..|s.allocs|] == s.allocs;
    CountStep(s.index, mem, i, part, index, used, slab);
  }

  lemma LoadEnd(s: Store, mem: seq<byte>, i: nat, allocs: seq<Slab>, index: map<Digest, nat>, used: nat)
    requires Loading(s, mem, i, allocs, index, used) && ScanEnds(mem, i)
    ensures Store(mem, allocs, index, used) == LoadedOnto(s, mem)
  {
    var part := allocs[|s.allocs|..];
    assert part + [] == part && allocs == s.allocs + part;
  }

  /** Moving the slabs from the `k`-th on leads to `goal`. */
  ghost predicate Pending(im: Image, order: seq<nat>, k: nat, next: nat, total: nat, goal: Image) {
    && k <= |order| && next <= total == |im.mem| && Ready(im.allocs, order[k..], next, total)
    && MoveAll(im, order[k..], next, total) == goal
  }

  lemma PendingFirst(im: Image, order: seq<nat>, total: nat)
    requires DATA_REGION_OFFSET <= total == |im.mem| && Ready(im.allocs, order, DATA_REGION_OFFSET, total)
    ensures Pending(im, order, 0, DATA_REGION_OFFSET, total, MoveAll(im, order, DATA_REGION_OFFSET, total))
  {
    assert order[0..] == order;
  }

  lemma PendingLast(im: Image, order: seq<nat>, next: nat, total: nat, goal: Image)
    requires Pending(im, order, |order|, next, total, goal)
    ensures im == goal
  {
    assert order[|order|..] == [];
  }

  /** The `k`-th pass of the loop in `compact`. */
  lemma StepAt(im: Image, order: seq<nat>, k: nat, next: nat, total: nat, goal: Image) returns (im1: Image)
    requires k < |order| && Pending(im, order, k, next, total, goal)
    ensures order[k] < |im.allocs| && ReadySlab(im.allocs[order[k]], next, total)
    ensures im1 == MoveOne(im, order[k], next, total)
    ensures Pending(im1, order, k + 1, next + im1.allocs[order[k]].size, total, goal)
  {
    assert order[k..][0] == order[k] && order[k..][1..] == order[k + 1..];
    var next1;
    im1, next1 := FirstStep(im, order[k..], next, total);
  }
}
