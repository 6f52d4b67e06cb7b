/**
 * Compaction of the slab store (`compact` in crates/rv-storage/src/persistent.rs): live
 * slabs are moved left, in offset order, within the one mapped buffer, free slabs are
 * dropped, and the digest index is rebuilt from what is left.
 */
module Compaction {
  import opened Types
  import opened Endian
  import opened Slabs

  // ---------------------------------------------------------------- the live slabs

  /** Positions of the live slabs, in vector order. */
  function LiveIdx(allocs: seq<Slab>): (r: seq<nat>) {
    if allocs == [] then []
    else
      var n := |allocs| - 1;
      if allocs[n].inUse then LiveIdx(allocs[..n]) + [n] else LiveIdx(allocs[..n])
  }

  /** `r` lists exactly the live positions of `allocs`, in increasing order. */
  ghost predicate ListsLive(r: seq<nat>, allocs: seq<Slab>) {
    && (forall k | 0 <= k < |r| :: r[k] < |allocs| && allocs[r[k]].inUse)
    && (forall j, k | 0 <= j < k < |r| :: r[j] < r[k])
    && (forall i | 0 <= i < |allocs| && allocs[i].inUse :: i in r)
  }

  lemma {:induction false} LiveIdxExact(allocs: seq<Slab>)
    ensures ListsLive(LiveIdx(allocs), allocs)
  {
    if allocs != [] {
      LiveIdxExact(allocs[..|allocs| - 1]);
      ListsLiveNext(LiveIdx(allocs[..|allocs| - 1]), allocs);
    }
  }

  lemma ListsLiveNext(r: seq<nat>, allocs: seq<Slab>)
    requires allocs != [] && ListsLive(r, allocs[..|allocs| - 1])
    ensures ListsLive(if allocs[|allocs| - 1].inUse then r + [|allocs| - 1] else r, allocs)
  {
    var n := |allocs| - 1;
    var r' := if allocs[n].inUse then r + [n] else r;
    assert forall k | 0 <= k < |r| :: r[k] < n && allocs[r[k]] == allocs[..n][r[k]];
    forall i | 0 <= i < |allocs| && allocs[i].inUse
      ensures i in r'
    {
      if i < n {
        assert allocs[..n][i].inUse;
      } else {
        assert r'[|r|] == n;
      }
    }
  }

  /** The live slabs, renumbered: the vector `compact` leaves behind. */
  function Active(allocs: seq<Slab>): (r: seq<Slab>) {
    if allocs == [] then []
    else
      var n := |allocs| - 1;
      var r := Active(allocs[..n]);
      if allocs[n].inUse then r + [allocs[n].(index := |r|)] else r
  }

  /** The live slabs as they stand: `filter(|s| s.in_use)`. */
  function Live(allocs: seq<Slab>): (r: seq<Slab>) {
    if allocs == [] then []
    else
      var n := |allocs| - 1;
      if allocs[n].inUse then Live(allocs[..n]) + [allocs[n]] else Live(allocs[..n])
  }

  /** Renumbering the live slabs gives `Active`; numbering does not matter to the index. */
  lemma {:induction false} LiveActive(allocs: seq<Slab>)
    ensures |Live(allocs)| == |Active(allocs)|
    ensures forall p | 0 <= p < |Live(allocs)| :: Active(allocs)[p] == Live(allocs)[p].(index := p)
    ensures BuildIndex(Live(allocs)) == BuildIndex(Active(allocs))
  {
    if allocs != [] {
      var n := |allocs| - 1;
      LiveActive(allocs[..n]);
      BuildIndexAppend(Live(allocs[..n]), allocs[n]);
      BuildIndexAppend(Active(allocs[..n]), allocs[n].(index := |Active(allocs[..n])|));
    }
  }

  lemma {:induction false} ActiveAt(allocs: seq<Slab>)
    ensures |Active(allocs)| == |LiveIdx(allocs)| <= |allocs|
    ensures forall p | 0 <= p < |LiveIdx(allocs)| ::
              LiveIdx(allocs)[p] < |allocs| && Active(allocs)[p] == allocs[LiveIdx(allocs)[p]].(index := p)
  {
    if allocs != [] {
      var n := |allocs| - 1;
      ActiveAt(allocs[..n]);
      forall p | 0 <= p < |LiveIdx(allocs)|
        ensures LiveIdx(allocs)[p] < |allocs| && Active(allocs)[p] == allocs[LiveIdx(allocs)[p]].(index := p)
      {
        if p < |LiveIdx(allocs[..n])| {
          assert LiveIdx(allocs)[p] == LiveIdx(allocs[..n])[p] && Active(allocs)[p] == Active(allocs[..n])[p];
        }
      }
    }
  }

  lemma LiveSizeAppend(allocs: seq<Slab>, s: Slab)
    ensures LiveSize(allocs + [s]) == LiveSize(allocs) + if s.inUse then s.size else 0
  {
    assert (allocs + [s])[..|allocs|] == allocs;
  }

  lemma {:induction false} ActiveSize(allocs: seq<Slab>)
    ensures LiveSize(Active(allocs)) == LiveSize(allocs)
  {
    if allocs != [] {
      var n := |allocs| - 1;
      ActiveSize(allocs[..n]);
      var r := Active(allocs[..n]);
      LiveSizeAppend(r, allocs[n].(index := |r|));
    }
  }

  /** Each live digest at its last slab: what inserting slab by slab leaves in the index. */
  function BuildIndex(allocs: seq<Slab>): (m: map<Digest, nat>) {
    if allocs == [] then map[]
    else
      var n := |allocs| - 1;
      var m := BuildIndex(allocs[..n]);
      if allocs[n].inUse then m[allocs[n].digest := n] else m
  }

  lemma BuildIndexAppend(allocs: seq<Slab>, s: Slab)
    ensures BuildIndex(allocs + [s]) == if s.inUse then BuildIndex(allocs)[s.digest := |allocs|] else BuildIndex(allocs)
  {
    assert (allocs + [s])[..|allocs|] == allocs;
  }

  /** The rebuilt index holds every live digest, at the last live slab that carries it. */
  lemma {:induction false} BuildIndexExact(allocs: seq<Slab>)
    ensures Indexed(BuildIndex(allocs), allocs)
    ensures forall i | 0 <= i < |allocs| && allocs[i].inUse ::
              allocs[i].digest in BuildIndex(allocs) && i <= BuildIndex(allocs)[allocs[i].digest]
  {
    if allocs != [] {
      BuildIndexExact(allocs[..|allocs| - 1]);
    }
  }

  /** After renumbering, the index names the copies of the same slabs. */
  lemma {:induction false} ActiveIndex(allocs: seq<Slab>)
    ensures var m, m', idx := BuildIndex(allocs), BuildIndex(Active(allocs)), LiveIdx(allocs);
            m'.Keys == m.Keys && forall d | d in m :: m'[d] < |idx| && idx[m'[d]] == m[d]
  {
    if allocs != [] {
      var n := |allocs| - 1;
      var init := allocs[..n];
      ActiveIndex(init);
      ActiveAt(init);
      BuildIndexAppend(Active(init), allocs[n].(index := |Active(init)|));
    }
  }

  /** When no digest is held twice, rebuilding changes nothing. */
  lemma OneToOneIndex(index: map<Digest, nat>, allocs: seq<Slab>)
    requires Indexed(index, allocs) && OneToOne(index, allocs)
    ensures BuildIndex(allocs) == index
  {
    BuildIndexExact(allocs);
  }

  // ---------------------------------------------------------------- sorting by offset

  function Insert(i: nat, order: seq<nat>, allocs: seq<Slab>): (r: seq<nat>)
    requires i < |allocs| && forall k | 0 <= k < |order| :: order[k] < |allocs|
    ensures multiset(r) == multiset(order) + multiset{i}
    ensures forall k | 0 <= k < |r| :: r[k] < |allocs|
  {
    if order == [] || allocs[i].offset < allocs[order[0]].offset then [i] + order
    else
      assert order == [order[0]] + order[1..];
      [order[0]] + Insert(i, order[1..], allocs)
  }

  ghost predicate SortedByOffset(order: seq<nat>, allocs: seq<Slab>) {
    && (forall k | 0 <= k < |order| :: order[k] < |allocs|)
    && forall j, k | 0 <= j < k < |order| :: allocs[order[j]].offset <= allocs[order[k]].offset
  }

  lemma {:induction false} InsertSorted(i: nat, order: seq<nat>, allocs: seq<Slab>)
    requires i < |allocs| && SortedByOffset(order, allocs)
    ensures SortedByOffset(Insert(i, order, allocs), allocs)
    ensures forall k | 0 <= k < |Insert(i, order, allocs)| ::
            Insert(i, order, allocs)[k] == i || Insert(i, order, allocs)[k] in order
  {
    if order != [] && allocs[i].offset >= allocs[order[0]].offset {
      InsertSorted(i, order[1..], allocs);
    }
  }

  /** `sort_by_key` on the offset. */
  function SortByOffset(idx: seq<nat>, allocs: seq<Slab>): (r: seq<nat>)
    requires forall k | 0 <= k < |idx| :: idx[k] < |allocs|
    ensures multiset(r) == multiset(idx)
    ensures forall k | 0 <= k < |r| :: r[k] < |allocs|
  {
    if idx == [] then []
    else
      var n := |idx| - 1;
      assert idx == idx[..n] + [idx[n]];
      Insert(idx[n], SortByOffset(idx[..n], allocs), allocs)
  }

  lemma {:induction false} SortSorted(idx: seq<nat>, allocs: seq<Slab>)
    requires forall k | 0 <= k < |idx| :: idx[k] < |allocs|
    ensures SortedByOffset(SortByOffset(idx, allocs), allocs)
  {
    if idx != [] {
      var n := |idx| - 1;
      SortSorted(idx[..n], allocs);
      InsertSorted(idx[n], SortByOffset(idx[..n], allocs), allocs);
    }
  }

  // ---------------------------------------------------------------- moving slabs left

  /** A memory image and the slab vector that describes it. */
  datatype Image = Image(mem: seq<byte>, allocs: seq<Slab>)

  /** The size a slab has once moved; never less than what it holds, rounded up. */
  function MovedSize(s: Slab): nat {
    if AlignUp(s.bodyLen) > s.size then AlignUp(s.bodyLen) else s.size
  }

  /** `ptr::copy`, which allows the two ranges to overlap; skipped when there is nothing to do. */
  function CopyDown(mem: seq<byte>, s: Slab, to: nat): (r: seq<byte>)
    requires to + s.bodyLen <= |mem| && s.offset + s.bodyLen <= |mem|
    ensures |r| == |mem|
  {
    if to != s.offset && s.bodyLen > 0 then Splice(mem, to, mem[s.offset..s.offset + s.bodyLen]) else mem
  }

  /** The direct table write: offset and size of an entry. */
  function Retable(mem: seq<byte>, index: nat, offset: nat, size: nat): (r: seq<byte>)
    requires index < MAX_SLABS && DATA_REGION_OFFSET <= |mem|
    ensures |r| == |mem|
  {
    Splice(Splice(mem, EntryAt(index) + 32, ToLE(offset, 8)), EntryAt(index) + 40, ToLE(size, 8))
  }

  ghost predicate ReadySlab(s: Slab, next: nat, total: nat) {
    Placed(s, total) && s.index < MAX_SLABS && next <= s.offset
  }

  /** The live slabs still to move: placed, sorted, apart, and none starting before `next`. */
  ghost predicate Ready(allocs: seq<Slab>, order: seq<nat>, next: nat, total: nat) {
    && DATA_REGION_OFFSET <= next && next % DATA_ALIGN == 0
    && (forall k | 0 <= k < |order| :: order[k] < |allocs| && ReadySlab(allocs[order[k]], next, total))
    && (forall j, k | 0 <= j < k < |order| ::
          order[j] != order[k] && allocs[order[j]].End() <= allocs[order[k]].offset)
  }

  /** One pass of the loop in `compact`. */
  function MoveOne(im: Image, i: nat, next: nat, total: nat): (r: Image)
    requires i < |im.allocs| && ReadySlab(im.allocs[i], next, total) && total == |im.mem|
    ensures |r.mem| == |im.mem| && |r.allocs| == |im.allocs|
  {
    var s := im.allocs[i];
    Image(Retable(CopyDown(im.mem, s, next), s.index, next, MovedSize(s)),
          im.allocs[i := s.(offset := next, size := MovedSize(s))])
  }

  lemma MovedSizeIsSize(s: Slab, total: nat)
    requires Placed(s, total)
    ensures MovedSize(s) == s.size
  {
  }

  lemma RetableKeepsData(mem: seq<byte>, index: nat, offset: nat, size: nat, lo: nat, hi: nat)
    requires index < MAX_SLABS && DATA_REGION_OFFSET <= lo <= hi <= |mem|
    ensures Retable(mem, index, offset, size)[lo..hi] == mem[lo..hi]
  {
    var e := EntryAt(index);
    SpliceSlice(mem, e + 32, ToLE(offset, 8), lo, hi);
    SpliceSlice(Splice(mem, e + 32, ToLE(offset, 8)), e + 40, ToLE(size, 8), lo, hi);
  }

  /** Copying left within the buffer: the body arrives intact and nothing outside its new slab changes. */
  lemma CopyDownKeeps(mem: seq<byte>, s: Slab, next: nat, total: nat)
    requires Placed(s, total) && total == |mem| && DATA_REGION_OFFSET <= next <= s.offset
    ensures var r := CopyDown(mem, s, next);
            && r[next..next + s.bodyLen] == mem[s.offset..s.offset + s.bodyLen]
            && r[next + s.size..total] == mem[next + s.size..total]
            && r[DATA_REGION_OFFSET..next] == mem[DATA_REGION_OFFSET..next]
  {
    if next != s.offset && s.bodyLen > 0 {
      var data := mem[s.offset..s.offset + s.bodyLen];
      SpliceSlice(mem, next, data, next + s.size, total);
      SpliceSlice(mem, next, data, DATA_REGION_OFFSET, next);
    }
  }

  /** One move: the slab's body arrives intact, and everything at or past its new end is untouched. */
  ghost predicate MovedOne(im: Image, r: Image, i: nat, next: nat, total: nat)
    requires i < |im.allocs| && ReadySlab(im.allocs[i], next, total)
  {
    && |r.mem| == |im.mem| == total && DATA_REGION_OFFSET <= next
    && r.allocs == im.allocs[i := im.allocs[i].(offset := next)]
    && Content(r.mem, r.allocs[i]) == Content(im.mem, im.allocs[i])
    && r.mem[next + im.allocs[i].size..total] == im.mem[next + im.allocs[i].size..total]
    && r.mem[DATA_REGION_OFFSET..next] == im.mem[DATA_REGION_OFFSET..next]
  }

  lemma MoveOneKeeps(im: Image, i: nat, next: nat, total: nat)
    requires i < |im.allocs| && ReadySlab(im.allocs[i], next, total) && total == |im.mem|
    requires DATA_REGION_OFFSET <= next
    ensures MovedOne(im, MoveOne(im, i, next, total), i, next, total)
  {
    var s := im.allocs[i];
    MovedSizeIsSize(s, total);
    CopyDownKeeps(im.mem, s, next, total);
    var mem1 := CopyDown(im.mem, s, next);
    RetableKeepsData(mem1, s.index, next, s.size, next, next + s.bodyLen);
    RetableKeepsData(mem1, s.index, next, s.size, next + s.size, total);
    RetableKeepsData(mem1, s.index, next, s.size, DATA_REGION_OFFSET, next);
  }

  lemma ReadyTail(allocs: seq<Slab>, order: seq<nat>, next: nat, total: nat)
    requires order != [] && Ready(allocs, order, next, total)
    ensures var s := allocs[order[0]];
            Ready(allocs[order[0] := s.(offset := next)], order[1..], next + s.size, total)
  {
    var s, rest := allocs[order[0]], order[1..];
    var allocs' := allocs[order[0] := s.(offset := next)];
    forall k | 0 <= k < |rest|
      ensures rest[k] == order[k + 1] && allocs'[rest[k]] == allocs[order[k + 1]]
      ensures next + s.size <= allocs[order[k + 1]].offset
    {
      assert order[0] != order[k + 1];
    }
  }

  /** The whole loop of `compact`: move the slabs of `order` one after another from `next` on. */
  ghost function MoveAll(im: Image, order: seq<nat>, next: nat, total: nat): (r: Image)
    requires Ready(im.allocs, order, next, total) && total == |im.mem|
    ensures |r.mem| == |im.mem| && |r.allocs| == |im.allocs|
    decreases |order|
  {
    if order == [] then im
    else
      MoveOneKeeps(im, order[0], next, total);
      ReadyTail(im.allocs, order, next, total);
      MoveAll(MoveOne(im, order[0], next, total), order[1..], next + im.allocs[order[0]].size, total)
  }

  /** `t` is `s` moved left, not before `next`, with the same body. */
  ghost predicate MovedSlab(mem: seq<byte>, s: Slab, mem': seq<byte>, t: Slab, next: nat) {
    && t == s.(offset := t.offset) && next <= t.offset <= s.offset && t.offset % DATA_ALIGN == 0
    && Content(mem', t) == Content(mem, s)
  }

  /** The slabs of `order` lie one after another from `next` on, without gaps. */
  ghost predicate Chained(allocs: seq<Slab>, order: seq<nat>, next: nat) {
    && (forall k | 0 <= k < |order| :: order[k] < |allocs| && next <= allocs[order[k]].offset)
    && (forall j, k | 0 <= j < k < |order| :: allocs[order[j]].End() <= allocs[order[k]].offset)
    && (order != [] ==> allocs[order[0]].offset == next)
    && (forall k | 0 < k < |order| :: allocs[order[k]].offset == allocs[order[k - 1]].End())
  }

  /** What moving the slabs of `order` left from `next` promises. */
  ghost predicate Moved(im: Image, r: Image, order: seq<nat>, next: nat, total: nat) {
    && |r.mem| == |im.mem| == total && |r.allocs| == |im.allocs|
    && DATA_REGION_OFFSET <= next <= total
    && (forall i | 0 <= i < |im.allocs| && i !in order :: r.allocs[i] == im.allocs[i])
    && (forall k | 0 <= k < |order| ::
          order[k] < |im.allocs| && MovedSlab(im.mem, im.allocs[order[k]], r.mem, r.allocs[order[k]], next))
    && r.mem[DATA_REGION_OFFSET..next] == im.mem[DATA_REGION_OFFSET..next]
  }

  lemma MoveAllFirst(im: Image, order: seq<nat>, next: nat, total: nat)
    requires order != [] && Ready(im.allocs, order, next, total) && total == |im.mem|
    requires var im1 := MoveOne(im, order[0], next, total);
             Ready(im1.allocs, order[1..], next + im.allocs[order[0]].size, total)
    ensures MoveAll(im, order, next, total)
            == MoveAll(MoveOne(im, order[0], next, total), order[1..], next + im.allocs[order[0]].size, total)
  {
  }

  /** The state after the first move, from which the remaining slabs are moved. */
  lemma FirstStep(im: Image, order: seq<nat>, next: nat, total: nat) returns (im1: Image, next1: nat)
    requires order != [] && Ready(im.allocs, order, next, total) && next <= total == |im.mem|
    ensures next1 == next + im.allocs[order[0]].size <= total == |im1.mem|
    ensures im1 == MoveOne(im, order[0], next, total)
    ensures MovedOne(im, im1, order[0], next, total)
    ensures Ready(im1.allocs, order[1..], next1, total)
    ensures MoveAll(im, order, next, total) == MoveAll(im1, order[1..], next1, total)
  {
    im1, next1 := MoveOne(im, order[0], next, total), next + im.allocs[order[0]].size;
    MoveOneKeeps(im, order[0], next, total);
    ReadyTail(im.allocs, order, next, total);
    MoveAllFirst(im, order, next, total);
  }

  /** The overlapping moves never clobber a slab that has not been moved yet. */
  lemma {:induction false} MoveAllKeeps(im: Image, order: seq<nat>, next: nat, total: nat)
    requires Ready(im.allocs, order, next, total) && next <= total == |im.mem|
    ensures Moved(im, MoveAll(im, order, next, total), order, next, total)
    decreases |order|
  {
    if order != [] {
      var im1, next1 := FirstStep(im, order, next, total);
      MoveAllKeeps(im1, order[1..], next1, total);
      var r := MoveAll(im1, order[1..], next1, total);
      MovedExtend(im, im1, r, order, next, next1, total);
    }
  }

  lemma FirstMoved(im: Image, im1: Image, r: Image, order: seq<nat>, next: nat, next1: nat, total: nat)
    requires order != [] && Ready(im.allocs, order, next, total) && MovedOne(im, im1, order[0], next, total)
    requires next1 == next + im.allocs[order[0]].size && Moved(im1, r, order[1..], next1, total)
    ensures r.allocs[order[0]] == im.allocs[order[0]].(offset := next)
    ensures MovedSlab(im.mem, im.allocs[order[0]], r.mem, r.allocs[order[0]], next)
    ensures r.mem[DATA_REGION_OFFSET..next] == im.mem[DATA_REGION_OFFSET..next]
  {
    var i, s := order[0], im.allocs[order[0]];
    assert i !in order[1..];
    SubSlice(r.mem, im1.mem, DATA_REGION_OFFSET, next + s.size, next, next + s.bodyLen);
    SubSlice(r.mem, im1.mem, DATA_REGION_OFFSET, next + s.size, DATA_REGION_OFFSET, next);
  }

  lemma LaterMoved(im: Image, im1: Image, r: Image, order: seq<nat>, next: nat, next1: nat, total: nat, k: nat)
    requires order != [] && Ready(im.allocs, order, next, total) && MovedOne(im, im1, order[0], next, total)
    requires next1 == next + im.allocs[order[0]].size && Moved(im1, r, order[1..], next1, total)
    requires 0 < k < |order|
    ensures MovedSlab(im.mem, im.allocs[order[k]], r.mem, r.allocs[order[k]], next1)
  {
    var t := im.allocs[order[k]];
    assert order[1..][k - 1] == order[k] != order[0];
    SubSlice(im1.mem, im.mem, next + im.allocs[order[0]].size, total, t.offset, t.offset + t.bodyLen);
  }

  lemma ChainExtend(allocs: seq<Slab>, order: seq<nat>, next: nat)
    requires order != [] && order[0] < |allocs| && allocs[order[0]].offset == next
    requires Chained(allocs, order[1..], allocs[order[0]].End())
    ensures Chained(allocs, order, next)
  {
    var rest := order[1..];
    forall k | 0 < k < |order|
      ensures order[k] == rest[k - 1]
    {
    }
  }

  lemma MovedExtend(im: Image, im1: Image, r: Image, order: seq<nat>, next: nat, next1: nat, total: nat)
    requires order != [] && Ready(im.allocs, order, next, total) && MovedOne(im, im1, order[0], next, total)
    requires next1 == next + im.allocs[order[0]].size && Moved(im1, r, order[1..], next1, total)
    ensures Moved(im, r, order, next, total)
  {
    FirstMoved(im, im1, r, order, next, next1, total);
    forall k | 0 < k < |order|
      ensures MovedSlab(im.mem, im.allocs[order[k]], r.mem, r.allocs[order[k]], next1)
    {
      LaterMoved(im, im1, r, order, next, next1, total, k);
    }
    forall i | 0 <= i < |im.allocs| && i !in order
      ensures r.allocs[i] == im.allocs[i]
    {
      assert i !in order[1..];
    }
  }

  lemma {:induction false} MoveAllChained(im: Image, order: seq<nat>, next: nat, total: nat)
    requires Ready(im.allocs, order, next, total) && next <= total == |im.mem|
    ensures Chained(MoveAll(im, order, next, total).allocs, order, next)
    decreases |order|
  {
    if order != [] {
      var im1, next1 := FirstStep(im, order, next, total);
      var r := MoveAll(im1, order[1..], next1, total);
      assert r.allocs[order[0]] == im.allocs[order[0]].(offset := next) by {
        MoveAllKeeps(im1, order[1..], next1, total);
        FirstMoved(im, im1, r, order, next, next1, total);
      }
      MoveAllChained(im1, order[1..], next1, total);
      ChainExtend(r.allocs, order, next);
    }
  }

  /** Equal slices have equal parts. */
  lemma SubSlice(a: seq<byte>, b: seq<byte>, lo: nat, hi: nat, lo': nat, hi': nat)
    requires lo <= lo' <= hi' <= hi <= |a| == |b| && a[lo..hi] == b[lo..hi]
    ensures a[lo'..hi'] == b[lo'..hi']
  {
    forall k | lo' <= k < hi'
      ensures a[k] == b[k]
    {
      assert a[k] == a[lo..hi][k - lo] == b[lo..hi][k - lo];
    }
  }

  // ---------------------------------------------------------------- the order of the moves

  lemma {:induction false} NoDupCount(a: seq<nat>, x: nat)
    requires NoDup(a)
    ensures multiset(a)[x] <= 1
  {
    if a != [] {
      var n := |a| - 1;
      assert a == a[..n] + [a[n]];
      NoDupCount(a[..n], x);
      assert x in multiset(a[..n]) ==> x in a[..n];
    }
  }

  lemma NoDupPermutation(a: seq<nat>, b: seq<nat>)
    requires NoDup(a) && multiset(a) == multiset(b)
    ensures NoDup(b)
  {
    forall i, j | 0 <= i < j < |b|
      ensures b[i] != b[j]
    {
      NoDupCount(a, b[j]);
      assert b == b[..j] + b[j..];
      assert b[i] in b[..j] && b[j] in b[j..];
      assert multiset(b)[b[j]] == multiset(b[..j])[b[j]] + multiset(b[j..])[b[j]];
    }
  }

  /** The live slabs in the order `compact` moves them. */
  function Order(allocs: seq<Slab>): (r: seq<nat>) {
    LiveIdxExact(allocs);
    SortByOffset(LiveIdx(allocs), allocs)
  }

  lemma OrderLive(allocs: seq<Slab>)
    ensures NoDup(Order(allocs))
    ensures forall i :: i in Order(allocs) <==> 0 <= i < |allocs| && allocs[i].inUse
  {
    LiveIdxExact(allocs);
    NoDupPermutation(LiveIdx(allocs), Order(allocs));
    forall i
      ensures i in Order(allocs) <==> i in LiveIdx(allocs)
    {
      assert i in Order(allocs) <==> i in multiset(Order(allocs));
      assert i in LiveIdx(allocs) <==> i in multiset(LiveIdx(allocs));
    }
  }

  /** Of two slabs that do not overlap, the one with the lower offset ends first. */
  lemma ApartInOrder(allocs: seq<Slab>, total: nat, i: nat, j: nat)
    requires Layout(allocs, total) && i < |allocs| && j < |allocs| && i != j
    requires allocs[i].offset <= allocs[j].offset
    ensures allocs[i].End() <= allocs[j].offset
  {
    if i < j {
      assert Apart(allocs[i], allocs[j]);
    } else {
      assert Apart(allocs[j], allocs[i]);
    }
  }

  lemma OrderReady(allocs: seq<Slab>, total: nat)
    requires Layout(allocs, total)
    ensures Ready(allocs, Order(allocs), DATA_REGION_OFFSET, total)
  {
    var order := Order(allocs);
    OrderLive(allocs);
    assert SortedByOffset(order, allocs) by {
      LiveIdxExact(allocs);
      SortSorted(LiveIdx(allocs), allocs);
    }
    forall k | 0 <= k < |order|
      ensures order[k] < |allocs| && ReadySlab(allocs[order[k]], DATA_REGION_OFFSET, total)
    {
      assert order[k] in order;
    }
    forall j, k | 0 <= j < k < |order|
      ensures order[j] != order[k] && allocs[order[j]].End() <= allocs[order[k]].offset
    {
      ApartInOrder(allocs, total, order[j], order[k]);
    }
  }

  // ---------------------------------------------------------------- compaction

  /** The image after all live slabs have been moved. */
  ghost function Packed(s: Store, total: nat): (r: Image)
    requires Inv(s, total) && s.mem != []
    ensures |r.mem| == total && |r.allocs| == |s.allocs|
  {
    OrderReady(s.allocs, total);
    MoveAll(Image(s.mem, s.allocs), Order(s.allocs), DATA_REGION_OFFSET, total)
  }

  lemma PackedMoved(s: Store, total: nat)
    requires Inv(s, total) && s.mem != []
    ensures Moved(Image(s.mem, s.allocs), Packed(s, total), Order(s.allocs), DATA_REGION_OFFSET, total)
    ensures Chained(Packed(s, total).allocs, Order(s.allocs), DATA_REGION_OFFSET)
  {
    OrderReady(s.allocs, total);
    MoveAllKeeps(Image(s.mem, s.allocs), Order(s.allocs), DATA_REGION_OFFSET, total);
    MoveAllChained(Image(s.mem, s.allocs), Order(s.allocs), DATA_REGION_OFFSET, total);
  }

  /** The source's `compact`, which does nothing while no file is mapped. */
  ghost function Compact(s: Store, total: nat): (r: Store)
    requires Inv(s, total)
  {
    if s.mem == [] then s
    else
      var im := Packed(s, total);
      var active := Active(im.allocs);
      Store(im.mem, active, BuildIndex(active), LiveSize(active))
  }

  /** Moving changes offsets only, so it changes neither what is live nor where it is indexed. */
  lemma {:induction false} SameButOffset(a: seq<Slab>, b: seq<Slab>)
    requires |a| == |b| && forall i | 0 <= i < |a| :: b[i] == a[i].(offset := b[i].offset)
    ensures LiveIdx(a) == LiveIdx(b) && BuildIndex(a) == BuildIndex(b) && LiveSize(a) == LiveSize(b)
  {
    if a != [] {
      var n := |a| - 1;
      assert b[n] == a[n].(offset := b[n].offset);
      SameButOffset(a[..n], b[..n]);
    }
  }

  /** A moved slab is still placed. */
  lemma MovedPlaced(mem: seq<byte>, s: Slab, mem': seq<byte>, t: Slab, total: nat)
    requires Placed(s, total) && MovedSlab(mem, s, mem', t, DATA_REGION_OFFSET)
    ensures Placed(t, total)
  {
  }

  lemma MovedAt(im: Image, r: Image, order: seq<nat>, total: nat, i: nat)
    requires Moved(im, r, order, DATA_REGION_OFFSET, total) && i < |im.allocs|
    ensures r.allocs[i] == im.allocs[i].(offset := r.allocs[i].offset)
    ensures i in order ==> MovedSlab(im.mem, im.allocs[i], r.mem, r.allocs[i], DATA_REGION_OFFSET)
  {
    if i in order {
      var k :| 0 <= k < |order| && order[k] == i;
      assert MovedSlab(im.mem, im.allocs[order[k]], r.mem, r.allocs[order[k]], DATA_REGION_OFFSET);
    }
  }

  lemma PackedSlab(s: Store, total: nat, i: nat)
    requires Inv(s, total) && s.mem != [] && i < |s.allocs|
    ensures var r := Packed(s, total);
            && |r.allocs| == |s.allocs| && |r.mem| == total
            && r.allocs[i] == s.allocs[i].(offset := r.allocs[i].offset)
            && (s.allocs[i].inUse ==>
                  Placed(r.allocs[i], total) && Content(r.mem, r.allocs[i]) == Content(s.mem, s.allocs[i]))
  {
    OrderLive(s.allocs);
    var r := Packed(s, total);
    PackedMoved(s, total);
    MovedAt(Image(s.mem, s.allocs), r, Order(s.allocs), total, i);
    if s.allocs[i].inUse {
      MovedPlaced(s.mem, s.allocs[i], r.mem, r.allocs[i], total);
    }
  }

  lemma PackedSame(s: Store, total: nat)
    requires Inv(s, total) && s.mem != []
    ensures var r := Packed(s, total);
            LiveIdx(r.allocs) == LiveIdx(s.allocs) && BuildIndex(r.allocs) == BuildIndex(s.allocs)
            && LiveSize(r.allocs) == LiveSize(s.allocs)
  {
    forall i | 0 <= i < |s.allocs|
      ensures var r := Packed(s, total); r.allocs[i] == s.allocs[i].(offset := r.allocs[i].offset)
    {
      PackedSlab(s, total, i);
    }
    SameButOffset(s.allocs, Packed(s, total).allocs);
  }

  lemma PackedApart(s: Store, total: nat, i: nat, j: nat)
    requires Inv(s, total) && s.mem != [] && i < j < |s.allocs| && s.allocs[i].inUse && s.allocs[j].inUse
    ensures Apart(Packed(s, total).allocs[i], Packed(s, total).allocs[j])
  {
    OrderLive(s.allocs);
    PackedMoved(s, total);
    var order := Order(s.allocs);
    var k :| 0 <= k < |order| && order[k] == i;
    var l :| 0 <= l < |order| && order[l] == j;
  }

  /** Compaction keeps the allocator's invariant and the used size. */
  lemma CompactInv(s: Store, total: nat)
    requires Inv(s, total)
    ensures Inv(Compact(s, total), total) && Compact(s, total).used == s.used
  {
    if s.mem != [] {
      var r := Packed(s, total);
      var idx, active := LiveIdx(r.allocs), Active(r.allocs);
      PackedSame(s, total);
      ActiveAt(r.allocs);
      ActiveSize(r.allocs);
      LiveIdxExact(s.allocs);
      BuildIndexExact(active);
      forall p | 0 <= p < |active|
        ensures Placed(active[p], total) && active[p].index == p
      {
        PackedSlab(s, total, idx[p]);
      }
      forall p, q | 0 <= p < q < |active|
        ensures Apart(active[p], active[q])
      {
        PackedApart(s, total, idx[p], idx[q]);
      }
    }
  }

  /** What `get_body` would answer for slab `i`. */
  ghost function BodyAt(s: Store, i: nat): Option<seq<byte>>
    requires i < |s.allocs|
  {
    if s.mem != [] && s.allocs[i].bodyLen != 0 then Some(Content(s.mem, s.allocs[i])) else None
  }

  lemma BodyOfIndexed(s: Store, d: Digest)
    requires Indexed(s.index, s.allocs)
    ensures GetBody(s, d) == if d in s.index then BodyAt(s, s.index[d]) else None
  {
  }

  /** Slab `p` of the compacted vector holds what its original held. */
  lemma CompactSlab(s: Store, total: nat, p: nat)
    requires Inv(s, total) && s.mem != [] && p < |LiveIdx(s.allocs)|
    ensures |Compact(s, total).allocs| == |LiveIdx(s.allocs)| && LiveIdx(s.allocs)[p] < |s.allocs|
    ensures BodyAt(Compact(s, total), p) == BodyAt(s, LiveIdx(s.allocs)[p])
  {
    var r, i := Packed(s, total), LiveIdx(s.allocs)[p];
    assert LiveIdx(r.allocs) == LiveIdx(s.allocs) by { PackedSame(s, total); }
    assert |Active(r.allocs)| == |LiveIdx(s.allocs)| && i < |r.allocs| &&
        Active(r.allocs)[p] == r.allocs[i].(index := p) by {
      ActiveAt(r.allocs);
    }
    assert s.allocs[i].inUse by { LiveIdxExact(s.allocs); }
    PackedSlab(s, total, i);
    assert Content(r.mem, Active(r.allocs)[p]) == Content(s.mem, s.allocs[i]);
  }

  lemma CompactIndex(s: Store, total: nat)
    requires Inv(s, total) && s.mem != []
    ensures Indexed(Compact(s, total).index, Compact(s, total).allocs)
    ensures var m, m', idx := BuildIndex(s.allocs), Compact(s, total).index, LiveIdx(s.allocs);
            m'.Keys == m.Keys && forall d | d in m :: m'[d] < |idx| && idx[m'[d]] == m[d]
  {
    PackedSame(s, total);
    ActiveIndex(Packed(s, total).allocs);
    BuildIndexExact(Active(Packed(s, total).allocs));
  }

  /** After compaction a digest's body is that of the last live slab carrying it, byte for byte. */
  lemma CompactBody(s: Store, total: nat, d: Digest)
    requires Inv(s, total) && s.mem != []
    ensures Indexed(BuildIndex(s.allocs), s.allocs)
    ensures d in Compact(s, total).index <==> d in BuildIndex(s.allocs)
    ensures GetBody(Compact(s, total), d) ==
              if d in BuildIndex(s.allocs) then BodyAt(s, BuildIndex(s.allocs)[d]) else None
  {
    BuildIndexExact(s.allocs);
    CompactIndex(s, total);
    BodyOfIndexed(Compact(s, total), d);
    if d in BuildIndex(s.allocs) {
      CompactSlab(s, total, Compact(s, total).index[d]);
    }
  }

  /** With one slab per live digest, compaction preserves every body and the one-to-one index. */
  lemma CompactPreserves(s: Store, total: nat)
    requires Inv(s, total) && OneToOne(s.index, s.allocs)
    ensures Compact(s, total).index.Keys == s.index.Keys
    ensures forall d :: GetBody(Compact(s, total), d) == GetBody(s, d)
    ensures OneToOne(Compact(s, total).index, Compact(s, total).allocs)
  {
    if s.mem != [] {
      OneToOneIndex(s.index, s.allocs);
      forall d
        ensures d in Compact(s, total).index <==> d in s.index
        ensures GetBody(Compact(s, total), d) == GetBody(s, d)
      {
        CompactBody(s, total, d);
      }
      CompactOneToOne(s, total);
    }
  }

  lemma CompactOneToOne(s: Store, total: nat)
    requires Inv(s, total) && s.mem != [] && OneToOne(s.index, s.allocs)
    ensures OneToOne(Compact(s, total).index, Compact(s, total).allocs)
  {
    var r := Packed(s, total);
    var idx, active := LiveIdx(r.allocs), Active(r.allocs);
    OneToOneIndex(s.index, s.allocs);
    PackedSame(s, total);
    ActiveAt(r.allocs);
    ActiveIndex(r.allocs);
    LiveIdxExact(s.allocs);
    forall p | 0 <= p < |active|
      ensures active[p].digest in BuildIndex(active) && BuildIndex(active)[active[p].digest] == p
    {
      PackedSlab(s, total, idx[p]);
      var q := BuildIndex(active)[active[p].digest];
      assert idx[q] == s.index[active[p].digest] == idx[p];
    }
  }

  lemma ChainedPacks(allocs: seq<Slab>, order: seq<nat>, next: nat, i: nat)
    requires Chained(allocs, order, next) && i in order
    ensures allocs[i].offset == next || exists j | j in order :: allocs[j].End() == allocs[i].offset
  {
    var k :| 0 <= k < |order| && order[k] == i;
    if k > 0 {
      assert order[k - 1] in order;
    }
  }

  lemma CompactAt(s: Store, total: nat, p: nat)
    requires Inv(s, total) && s.mem != [] && p < |LiveIdx(s.allocs)|
    ensures |Compact(s, total).allocs| == |LiveIdx(s.allocs)| && LiveIdx(s.allocs)[p] < |s.allocs|
    ensures Compact(s, total).allocs[p] == Packed(s, total).allocs[LiveIdx(s.allocs)[p]].(index := p)
  {
    PackedSame(s, total);
    ActiveAt(Packed(s, total).allocs);
  }

  /** No gap is left: every slab starts where the data region or another slab leaves off. */
  lemma CompactPacks(s: Store, total: nat, p: nat)
    requires Inv(s, total) && s.mem != [] && p < |Compact(s, total).allocs|
    ensures var a := Compact(s, total).allocs;
            a[p].offset == DATA_REGION_OFFSET || exists q | 0 <= q < |a| :: a[q].End() == a[p].offset
  {
    var r, idx := Packed(s, total), LiveIdx(s.allocs);
    assert |Compact(s, total).allocs| == |idx| by { PackedSame(s, total); ActiveAt(r.allocs); }
    CompactAt(s, total, p);
    LiveIdxExact(s.allocs);
    if r.allocs[idx[p]].offset != DATA_REGION_OFFSET {
      var q := PackedBehind(s, total, idx[p]);
      var k :| 0 <= k < |idx| && idx[k] == q;
      CompactAt(s, total, k);
    }
  }

  /** The live slab that the moved slab `i` was packed behind. */
  lemma PackedBehind(s: Store, total: nat, i: nat) returns (j: nat)
    requires Inv(s, total) && s.mem != [] && i < |s.allocs| && s.allocs[i].inUse
    requires Packed(s, total).allocs[i].offset != DATA_REGION_OFFSET
    ensures j < |s.allocs| && s.allocs[j].inUse && Packed(s, total).allocs[j].End() == Packed(s, total).allocs[i].offset
  {
    var allocs, order := Packed(s, total).allocs, Order(s.allocs);
    OrderLive(s.allocs);
    assert Chained(allocs, order, DATA_REGION_OFFSET) by { PackedMoved(s, total); }
    ChainedPacks(allocs, order, DATA_REGION_OFFSET, i);
    j :| j in order && allocs[j].End() == allocs[i].offset;
  }

  // ---------------------------------------------------------------- a digest allocated twice

  lemma AllocSlabKept(s: Store, d: Digest, hint: nat, total: nat, i: nat)
    requires Inv(s, total) && Alloc(s, d, hint, total).1 == Ok && i < |s.allocs| && s.allocs[i].inUse
    ensures var s' := Alloc(s, d, hint, total).0;
            && d in s'.index && s'.index[d] != i && i < |s'.allocs|
            && s'.allocs[i] == s.allocs[i] && BodyAt(s', i) == BodyAt(s, i)
  {
    ChooseGood(s.allocs, hint, total);
    var (allocs, j) := Choose(s.allocs, hint, total).value;
    var slab := allocs[j].(inUse := true, digest := d, bodyLen := 0);
    assert allocs[i] == allocs[..|s.allocs|][i];
    EntryKeepsData(s.mem, slab, s.allocs[i], total);
  }

  lemma ExtendSlabKept(s: Store, d: Digest, data: seq<byte>, total: nat, i: nat)
    requires Inv(s, total) && Extend(s, d, data).1 == Ok && i < |s.allocs| && i != s.index[d]
    ensures var s' := Extend(s, d, data).0;
            |s'.allocs| == |s.allocs| && s'.allocs[i] == s.allocs[i] && BodyAt(s', i) == BodyAt(s, i)
  {
    var j := s.index[d];
    var slab, t := s.allocs[j], s.allocs[i];
    assert Apart(slab, t) by {
      assert Apart(s.allocs[if i < j then i else j], s.allocs[if i < j then j else i]);
    }
    SpliceSlice(s.mem, slab.offset + slab.bodyLen, data, t.offset, t.offset + t.bodyLen);
  }

  /**
   * Allocating a live digest again leaves its old slab live but unindexed. Compaction then
   * answers with the later of the two slabs, so the body survives it exactly when the slab
   * chosen for the second allocation lies after the first one.
   */
  lemma ReallocThenCompact(s: Store, d: Digest, hint: nat, data: seq<byte>, total: nat)
    requires Inv(s, total) && OneToOne(s.index, s.allocs) && s.mem != [] && d in s.index
    requires Alloc(s, d, hint, total).1 == Ok
    requires Extend(Alloc(s, d, hint, total).0, d, data).1 == Ok
    ensures var s1 := Alloc(s, d, hint, total).0;
            var s2 := Extend(s1, d, data).0;
            && Inv(s2, total) && d in s1.index
            && GetBody(Compact(s2, total), d) == if s.index[d] < s1.index[d] then GetBody(s2, d) else GetBody(s, d)
  {
    var s1 := Alloc(s, d, hint, total).0;
    var s2 := Extend(s1, d, data).0;
    var i := s.index[d];
    AllocInv(s, d, hint, total);
    ExtendInv(s1, d, data, total);
    AllocSlabKept(s, d, hint, total, i);
    ExtendSlabKept(s1, d, data, total, i);
    BuildIndexExact(s2.allocs);
    OnlyTwo(s, d, hint, data, total);
    CompactBody(s2, total, d);
    BodyOfIndexed(s, d);
    BodyOfIndexed(s2, d);
  }

  /** After reallocating a live digest, its slabs are the old one and the one just taken. */
  lemma OldOrTaken(s: Store, d: Digest, hint: nat, total: nat, k: nat)
    requires Inv(s, total) && OneToOne(s.index, s.allocs) && d in s.index && Alloc(s, d, hint, total).1 == Ok
    requires var s1 := Alloc(s, d, hint, total).0; k < |s1.allocs| && s1.allocs[k].inUse && s1.allocs[k].digest == d
    ensures k == s.index[d] || k == Alloc(s, d, hint, total).0.index[d]
  {
    ChooseGood(s.allocs, hint, total);
    var (allocs, j) := Choose(s.allocs, hint, total).value;
    if k != j {
      assert Alloc(s, d, hint, total).0.allocs[k] == allocs[k] == allocs[..|s.allocs|][k];
    }
  }

  lemma OnlyTwo(s: Store, d: Digest, hint: nat, data: seq<byte>, total: nat)
    requires Inv(s, total) && OneToOne(s.index, s.allocs) && s.mem != [] && d in s.index
    requires Alloc(s, d, hint, total).1 == Ok
    requires Extend(Alloc(s, d, hint, total).0, d, data).1 == Ok
    ensures var s1 := Alloc(s, d, hint, total).0;
            var s2 := Extend(s1, d, data).0;
            && s1.index[d] < |s2.allocs| && s2.allocs[s1.index[d]].inUse && s2.allocs[s1.index[d]].digest == d
            && forall k | 0 <= k < |s2.allocs| && s2.allocs[k].inUse && s2.allocs[k].digest == d ::
                k == s.index[d] || k == s1.index[d]
  {
    var s1, s2 := Alloc(s, d, hint, total).0, Extend(Alloc(s, d, hint, total).0, d, data).0;
    forall k | 0 <= k < |s2.allocs| && s2.allocs[k].inUse && s2.allocs[k].digest == d && k != s1.index[d]
      ensures k == s.index[d]
    {
      assert s2.allocs[k] == s1.allocs[k];
      OldOrTaken(s, d, hint, total, k);
    }
  }

  /**
   * Allocating a live digest again and freeing it frees the new slab only. Compaction indexes
   * the old one again, so the freed object is back with its old body.
   */
  lemma FreedReturns(s: Store, d: Digest, hint: nat, total: nat)
    requires Inv(s, total) && OneToOne(s.index, s.allocs) && s.mem != [] && d in s.index
    requires Alloc(s, d, hint, total).1 == Ok
    ensures var s2 := Free(Alloc(s, d, hint, total).0, d);
            && Inv(s2, total) && d !in s2.index
            && d in Compact(s2, total).index && GetBody(Compact(s2, total), d) == GetBody(s, d)
  {
    var s1, i := Alloc(s, d, hint, total).0, s.index[d];
    var s2 := Free(s1, d);
    AllocInv(s, d, hint, total);
    FreeInv(s1, d, total);
    FreeBodies(s1, d, total);
    AllocSlabKept(s, d, hint, total, i);
    FreeSlabKept(s1, d, total, i);
    OnlyOne(s, d, hint, total);
    BuildIndexExact(s2.allocs);
    CompactBody(s2, total, d);
    BodyOfIndexed(s, d);
  }

  lemma FreeSlabKept(s: Store, d: Digest, total: nat, i: nat)
    requires Inv(s, total) && d in s.index && i < |s.allocs| && i != s.index[d]
    ensures var s' := Free(s, d);
            |s'.allocs| == |s.allocs| && s'.allocs[i] == s.allocs[i] && BodyAt(s', i) == BodyAt(s, i)
  {
    var j := s.index[d];
    var slab := s.allocs[j].(inUse := false, bodyLen := 0);
    LiveSizeUpdate(s.allocs, j, slab);
    EntryKeepsData(s.mem, slab, s.allocs[i], total);
  }

  lemma OnlyOne(s: Store, d: Digest, hint: nat, total: nat)
    requires Inv(s, total) && OneToOne(s.index, s.allocs) && d in s.index && Alloc(s, d, hint, total).1 == Ok
    ensures var s1 := Alloc(s, d, hint, total).0;
            var s2 := Free(s1, d);
            forall k | 0 <= k < |s2.allocs| && s2.allocs[k].inUse && s2.allocs[k].digest == d :: k == s.index[d]
  {
    var s1 := Alloc(s, d, hint, total).0;
    AllocInv(s, d, hint, total);
    forall k | 0 <= k < |Free(s1, d).allocs| && Free(s1, d).allocs[k].inUse && Free(s1, d).allocs[k].digest == d
      ensures k == s.index[d]
    {
      FreedNotLive(s1, d, total, k);
      OldOrTaken(s, d, hint, total, k);
    }
  }

  lemma FreedNotLive(s: Store, d: Digest, total: nat, k: nat)
    requires Inv(s, total) && d in s.index && k < |Free(s, d).allocs| && Free(s, d).allocs[k].inUse
    ensures k < |s.allocs| && k != s.index[d] && Free(s, d).allocs[k] == s.allocs[k]
  {
    var j := s.index[d];
    LiveSizeUpdate(s.allocs, j, s.allocs[j].(inUse := false, bodyLen := 0));
  }
}
