/** mm.c: the heap as an object whose words, list heads and break are updated in
    place. The ghost fields record the two views that the words encode. */
module Allocator {
  import opened HeapWords
  import opened HeapTiling
  import opened FreeLists
  import opened HeapInvariant
  import opened HeapChecks

  const WSIZE := 4
  const DSIZE := 8
  const CHUNKSIZE := 128
  const NULL := 0
  /** Block sizes fit the 32-bit headers and mem_sbrk's int argument. */
  const MAX_REQUEST := 0x7FFF_FF00

  /** The system's answers to the calls of mem_sbrk, in program order: the two of
      mm_init, when it runs, and the one of malloc when nothing fits. */
  datatype SbrkAnswers = SbrkAnswers(prologue: bool, chunk: bool, more: bool)

  /** Block size for a request: header, footer and alignment added. */
  function AdjustedSize(size: int): (asize: int)
    requires 0 < size
    ensures asize % 8 == 0 && asize >= MIN_BLK_SIZE && size + 8 <= asize
    ensures asize <= if size + 15 >= MIN_BLK_SIZE then size + 15 else MIN_BLK_SIZE
  {
    if size <= 2 * DSIZE then MIN_BLK_SIZE
    else DSIZE * ((size + DSIZE + (DSIZE - 1)) / DSIZE)
  }

  ghost predicate HasFit(blocks: Blocks, asize: int) {
    exists p :: IsFree(blocks, p) && asize <= blocks[p].size
  }

  /** Number k is the first of the blocks l that is big enough. */
  ghost predicate FirstFit(blocks: Blocks, l: seq<int>, asize: int, k: int) {
    && 0 <= k < |l| && IsFree(blocks, l[k]) && asize <= blocks[l[k]].size
    && (forall j | 0 <= j < k :: l[j] in blocks && blocks[l[j]].size < asize)
  }

  /** The size bytes at p were a free block, or are the last of the heap. */
  ghost predicate TakenWhole(blocks: Blocks, brk: int, p: int, size: int) {
    (IsFree(blocks, p) && blocks[p].size == size) || p + size == brk
  }

  /** p is a fit of the lowest class in which anything fits. */
  ghost predicate BestClassFit(blocks: Blocks, asize: int, p: int) {
    && IsFree(blocks, p) && asize <= blocks[p].size
    && (forall q | IsFree(blocks, q) && asize <= blocks[q].size ::
          ListIndexBySize(blocks[p].size) <= ListIndexBySize(blocks[q].size))
  }

  /** Below the last class the block taken is under twice the smallest that fits. */
  lemma NearBestFit(blocks: Blocks, asize: int, p: int, q: int)
    requires MIN_BLK_SIZE <= asize && BestClassFit(blocks, asize, p)
    requires IsFree(blocks, q) && asize <= blocks[q].size
    requires forall r | IsFree(blocks, r) && asize <= blocks[r].size :: blocks[q].size <= blocks[r].size
    ensures ListIndexBySize(blocks[p].size) == ListIndexBySize(blocks[q].size)
    ensures ListIndexBySize(blocks[p].size) < NO_OF_SIZE_TYPE - 1 ==> blocks[p].size < 2 * blocks[q].size
  {
    ClassWidth(blocks[q].size, blocks[p].size);
    ClassWidth(blocks[p].size, blocks[q].size);
  }

  class Heap {
    /** mem_heap_lo(), 8-aligned. */
    const base: int
    var mem: Memory
    /** One past mem_heap_hi(). */
    var brk: int
    /** 0 until mm_init. */
    var heapListp: int
    /** free_list_size_1_head .. free_list_size_2048_head */
    var heads: seq<int>

    ghost var blocks: Blocks
    ghost var lists: seq<seq<int>>

    ghost predicate Inv(pending: set<int>)
      reads this
    {
      heapListp == base + DSIZE && HeapOk(mem, base, brk, heads, blocks, lists, pending)
    }

    /** What every public operation keeps. */
    ghost predicate Valid()
      reads this
    {
      Inv({}) && Coalesced(blocks)
    }

    // ---- address arithmetic ----

    function HeaderPtr(bp: int): int {
      bp - WSIZE
    }

    function FooterPtr(bp: int): int
      reads this
      requires bp - 4 in mem
    {
      bp + SizeField(mem[HeaderPtr(bp)]) - DSIZE
    }

    function NextBlkPtr(bp: int): int
      reads this
      requires bp - 4 in mem
    {
      bp + SizeField(mem[bp - WSIZE])
    }

    function PrevBlkPtr(bp: int): int
      reads this
      requires bp - 8 in mem
    {
      bp - SizeField(mem[bp - DSIZE])
    }

    method SetPtrAt(a: int, v: int)
      requires 0 <= v < POINTER_LIMIT
      requires a in mem && a + 4 in mem
      modifies this`mem
      ensures PtrStored(old(mem), mem, a, v)
      ensures mem.Keys == old(mem.Keys)
    {
      mem := SetPtr(mem, a, v);
    }

    // ---- free lists ----

    /** list_push_front */
    method ListPushFront(bp: int, ghost pending: set<int>)
      requires Inv(pending)
      requires IsFree(blocks, bp) && bp in pending
      modifies this`mem, this`heads, this`lists
      ensures Inv(pending - {bp})
      ensures var i := ListIndexBySize(blocks[bp].size);
              lists == old(lists)[i := [bp] + old(lists)[i]]
      ensures Untouched(old(mem), mem, Live(blocks))
    {
      hide SizeField, ListIndexBySize, PtrStored, HeapOk, Untouched, GetPtr, Live;
      ghost var m0 := mem;
      BlockReads(pending, bp);
      var size := SizeField(mem[HeaderPtr(bp)]);
      var i := ListIndexBySize(size);
      ListReads(pending, i);
      var head := heads[i];
      SetPtrAt(bp, NULL);
      ghost var m1 := mem;
      if head != NULL {
        SetPtrAt(head, bp);
      }
      ghost var m2 := mem;
      SetPtrAt(bp + 8, head);
      heads := heads[i := bp];
      ghost var l := lists[i];
      lists := lists[i := [bp] + l];
      PushOk(m0, m1, m2, mem, base, brk, old(heads), blocks, old(lists), pending, bp, i);
    }

    /** What the list code reads through bp. */
    lemma BlockReads(pending: set<int>, bp: int)
      requires Inv(pending) && bp in blocks
      ensures bp - 4 in mem && SizeField(mem[bp - 4]) == blocks[bp].size && LinkCells(mem, bp)
      ensures 0 < bp < POINTER_LIMIT
      ensures |lists| == |heads| == NO_OF_SIZE_TYPE
    {
      assert TagsOk(mem, bp, blocks[bp]);
      PayloadCells(mem, base, brk, blocks, bp);
    }

    lemma ListReads(pending: set<int>, i: int)
      requires Inv(pending) && 0 <= i < NO_OF_SIZE_TYPE
      ensures |lists| == |heads| == NO_OF_SIZE_TYPE
      ensures heads[i] == if lists[i] == [] then NULL else lists[i][0]
      ensures forall k | 0 <= k < |lists[i]| ::
                LinkCells(mem, lists[i][k]) && 0 < lists[i][k] < POINTER_LIMIT
    {
      forall k | 0 <= k < |lists[i]|
        ensures LinkCells(mem, lists[i][k]) && 0 < lists[i][k] < POINTER_LIMIT
      {
        MembersInBlocks(blocks, lists, pending, i);
        PayloadCells(mem, base, brk, blocks, lists[i][k]);
      }
    }

    /** remove_from_list: called while the header still has the old size. */
    method RemoveFromList(bp: int, ghost pending: set<int>) returns (ghost k: int)
      requires Inv(pending)
      requires IsFree(blocks, bp) && bp !in pending
      modifies this`mem, this`heads, this`lists
      ensures Inv(pending + {bp})
      ensures |old(lists)| == NO_OF_SIZE_TYPE
      ensures var i := ListIndexBySize(blocks[bp].size);
              && 0 <= k < |old(lists)[i]| && old(lists)[i][k] == bp
              && lists == old(lists)[i := WithoutAt(old(lists)[i], k)]
      ensures Untouched(old(mem), mem, Live(blocks))
    {
      hide SizeField, ListIndexBySize, PtrStored, Inv, HeapOk, Untouched, GetPtr, Live, WithoutAt, RemoveStores,
           LinkCells;
      ghost var m0 := mem;
      k := RemoveReads(pending, bp);
      var size := SizeField(mem[HeaderPtr(bp)]);
      var i := ListIndexBySize(size);
      var pred := GetPtr(mem, bp);
      var succ := GetPtr(mem, bp + 8);
      ghost var l := lists[i];
      ghost var m1 := Unlink(i, pred, succ);
      UnlinkStores(m0, m1, mem, l, k, pred, succ);
      lists := lists[i := WithoutAt(l, k)];
      FinishRemove(m0, m1, old(heads), old(lists), pending, bp, i, k);
    }

    /** The stores of the four cases, in terms of the list. */
    lemma UnlinkStores(m0: Memory, m1: Memory, after: Memory, l: seq<int>, k: int, pred: int, succ: int)
      requires 0 <= k < |l| && pred == Before(l, k) && succ == After(l, k)
      requires k > 0 ==> l[k - 1] != NULL
      requires k + 1 < |l| ==> l[k + 1] != NULL
      requires if succ == NULL then m1 == m0 else PtrStored(m0, m1, succ, pred)
      requires if pred == NULL then after == m1 else PtrStored(m1, after, pred + 8, succ)
      ensures RemoveStores(m0, m1, after, l, k) && (pred == NULL <==> k == 0)
    {
      hide PtrStored;
    }

    lemma FinishRemove(m0: Memory, m1: Memory, oldHeads: seq<int>, oldLists: seq<seq<int>>, pending: set<int>,
                       bp: int, i: int, k: int)
      requires heapListp == base + DSIZE && HeapOk(m0, base, brk, oldHeads, blocks, oldLists, pending)
      requires IsFree(blocks, bp) && i == ListIndexBySize(blocks[bp].size)
      requires |oldLists| == |oldHeads| == NO_OF_SIZE_TYPE
      requires 0 <= k < |oldLists[i]| && oldLists[i][k] == bp
      requires RemoveStores(m0, m1, mem, oldLists[i], k)
      requires heads == if k == 0 then oldHeads[i := After(oldLists[i], k)] else oldHeads
      requires lists == oldLists[i := WithoutAt(oldLists[i], k)]
      ensures Inv(pending + {bp}) && Untouched(m0, mem, Live(blocks))
    {
      hide ListIndexBySize, HeapOk, Untouched, Live, RemoveStores, WithoutAt;
      RemoveOk(m0, m1, mem, base, brk, oldHeads, heads, blocks, oldLists, pending, bp, i, k);
    }

    lemma RemoveReads(pending: set<int>, bp: int) returns (k: int)
      requires Inv(pending)
      requires IsFree(blocks, bp) && bp !in pending
      ensures heapListp == base + DSIZE && HeapOk(mem, base, brk, heads, blocks, lists, pending)
      ensures bp - 4 in mem && SizeField(mem[bp - 4]) == blocks[bp].size && LinkCells(mem, bp)
      ensures |lists| == |heads| == NO_OF_SIZE_TYPE
      ensures var l := lists[ListIndexBySize(blocks[bp].size)];
              && 0 <= k < |l| && l[k] == bp
              && GetPtr(mem, bp) == Before(l, k) && GetPtr(mem, bp + 8) == After(l, k)
              && (if k == 0 then Before(l, k) == NULL
                  else Before(l, k) == l[k - 1] && LinkCells(mem, l[k - 1]) && 0 < l[k - 1] < POINTER_LIMIT)
              && (if k + 1 == |l| then After(l, k) == NULL
                  else After(l, k) == l[k + 1] && LinkCells(mem, l[k + 1]) && 0 < l[k + 1] < POINTER_LIMIT)
    {
      BlockReads(pending, bp);
      k := FindListed(blocks, lists, pending, bp);
      OwnChain(pending, ListIndexBySize(blocks[bp].size), k);
    }

    /** The four cases of remove_from_list: only node, head, tail, middle. */
    method Unlink(i: int, pred: int, succ: int) returns (ghost m1: Memory)
      requires 0 <= i < |heads|
      requires 0 <= pred < POINTER_LIMIT && 0 <= succ < POINTER_LIMIT
      requires pred != NULL ==> LinkCells(mem, pred)
      requires succ != NULL ==> LinkCells(mem, succ)
      modifies this`mem, this`heads
      ensures if succ == NULL then m1 == old(mem) else PtrStored(old(mem), m1, succ, pred)
      ensures if pred == NULL then mem == m1 else PtrStored(m1, mem, pred + 8, succ)
      ensures heads == if pred == NULL then old(heads)[i := succ] else old(heads)
    {
      m1 := mem;
      if pred == NULL && succ == NULL {
        heads := heads[i := NULL];
        return;
      }
      hide PtrStored, GetPtr, SetPtr;
      if pred == NULL && succ != NULL {
        heads := heads[i := succ];
        SetPtrAt(succ, NULL);
        m1 := mem;
        return;
      }
      if pred != NULL && succ == NULL {
        SetPtrAt(pred + 8, NULL);
        return;
      }
      if pred != NULL && succ != NULL {
        SetPtrAt(succ, pred);
        m1 := mem;
        SetPtrAt(pred + 8, succ);
      }
    }

    lemma OwnChain(pending: set<int>, i: int, k: int)
      requires Inv(pending)
      requires 0 <= i < NO_OF_SIZE_TYPE && 0 <= k < |lists[i]|
      ensures LinkCells(mem, lists[i][k])
      ensures GetPtr(mem, lists[i][k]) == Before(lists[i], k)
      ensures GetPtr(mem, lists[i][k] + 8) == After(lists[i], k)
      ensures k > 0 ==> LinkCells(mem, Before(lists[i], k)) && 0 < Before(lists[i], k) < POINTER_LIMIT
      ensures k + 1 < |lists[i]| ==> LinkCells(mem, After(lists[i], k)) && 0 < After(lists[i], k) < POINTER_LIMIT
    {
      ListReads(pending, i);
      assert Chain(mem, lists[i]);
    }

    // ---- coalesce ----

    ghost predicate JustFreed(bp: int)
      reads this
    {
      Inv({bp}) && IsFree(blocks, bp) && CoalescedExcept(blocks, bp)
    }

    /** bp has been absorbed into the unlisted free block r; nothing live changed. */
    twostate predicate AbsorbedInto(bp: int, r: int)
      requires bp in old(blocks)
      reads this
    {
      && Inv({r}) && IsFree(blocks, r) && Coalesced(blocks)
      && r <= bp && bp + old(blocks)[bp].size <= r + blocks[r].size
      && Live(blocks) == Live(old(blocks))
      && Untouched(old(mem), mem, Live(blocks))
    }

    /** What coalesce learns from the tags on both sides of bp. */
    lemma NeighbourReads(pending: set<int>, bp: int) returns (l: int, n: int)
      requires Inv(pending) && bp in blocks
      ensures bp - 8 in mem && bp - 4 in mem && SizeField(mem[bp - 4]) == blocks[bp].size
      ensures n == bp + blocks[bp].size && n - 4 in mem
      ensures AllocField(mem[n - 4]) <==> !IsFree(blocks, n)
      ensures l == PrevBlkPtr(bp) && l - 4 in mem && FooterPtr(l) == bp - 8
      ensures AllocField(mem[bp - 8]) <==> !IsFree(blocks, l)
      ensures forall p | p in blocks && p + blocks[p].size == bp :: p == l
      ensures IsFree(blocks, l) ==> l + blocks[l].size == bp && SizeField(mem[l - 4]) == blocks[l].size
      ensures IsFree(blocks, n) ==> SizeField(mem[n - 4]) == blocks[n].size
      ensures blocks[bp].size % 8 == 0 && 0 < blocks[bp].size
      ensures bp + blocks[bp].size - 8 in mem
    {
      hide AllocField, SizeField, Mapped, Listed, Chained, HeadsOk;
      HeapParts(mem, base, brk, heads, blocks, lists, pending);
      assert TagsOk(mem, bp, blocks[bp]);
      n := bp + blocks[bp].size;
      RightNeighbourTag(mem, base, brk, blocks, bp);
      l := LeftNeighbourTag(mem, base, brk, blocks, bp);
      assert base + 8 !in blocks;
      assert n == brk ==> n !in blocks;
    }

    /** The words of r have been written and everything pending absorbed. */
    lemma FinishAbsorb(m0: Memory, m1: Memory, was: Blocks, pending: set<int>, bp: int, r: int)
      requires heapListp == base + DSIZE && HeapOk(m1, base, brk, heads, was, lists, pending)
      requires Untouched(m0, m1, Live(was))
      requires Absorbs(was, blocks, pending, r)
      requires Tiled(blocks, base + 16, brk) && Aligned(blocks) && Coalesced(blocks)
      requires TagStore(m1, mem, r, blocks[r].size, false)
      ensures Inv({r}) && IsFree(blocks, r) && Coalesced(blocks)
      ensures Live(blocks) == Live(was) && Untouched(m0, mem, Live(blocks))
    {
      AbsorbOk(m1, mem, base, brk, heads, was, blocks, lists, pending, r);
      hide HeapOk, Absorbs, Tiled, Aligned, Coalesced, TagStore, Untouched, Live;
      UntouchedTrans(m0, m1, mem, Live(was));
    }

    /** coalesce, case 2: the right neighbour is free. */
    method MergeNext(bp: int, blockSize: int)
      requires JustFreed(bp) && blockSize == blocks[bp].size
      requires LeftAllocated(blocks, bp) && IsFree(blocks, bp + blocks[bp].size)
      modifies this`mem, this`heads, this`lists, this`blocks
      ensures AbsorbedInto(bp, bp)
    {
      hide SizeField, HeapOk, Absorbs, Tiled, Aligned, Coalesced, TagStore, Untouched, Live, Pack, CoalescedExcept,
           LeftAllocated;
      ghost var m0 := mem;
      ghost var was := blocks;
      ghost var l, n := NeighbourReads({bp}, bp);
      ghost var changed := MergeNextSpec(mem, base, brk, heads, blocks, lists, bp);
      var size := blockSize + SizeField(mem[HeaderPtr(NextBlkPtr(bp))]);
      ghost var k := RemoveFromList(NextBlkPtr(bp), {bp});
      ghost var m1 := mem;
      assert {bp} + {n} == {bp, n};
      TagReads({bp, n}, bp);
      TagReads({bp, n}, n);
      WriteTags(mem, bp, size, false);
      PackFields(size, false);
      mem := mem[HeaderPtr(bp) := Pack(size, false)];
      mem := mem[FooterPtr(bp) := Pack(size, false)];
      blocks := changed;
      FinishAbsorb(m0, m1, was, {bp, n}, bp, bp);
    }

    lemma TagReads(pending: set<int>, p: int)
      requires Inv(pending) && p in blocks
      ensures p - 4 in mem && p + blocks[p].size - 8 in mem && SizeField(mem[p - 4]) == blocks[p].size
    {
      assert TagsOk(mem, p, blocks[p]);
    }

    /** coalesce, case 3: the left neighbour is free. The footer is written through
        the old header before bp moves. */
    method MergePrev(bp: int, blockSize: int) returns (r: int)
      requires JustFreed(bp) && blockSize == blocks[bp].size
      requires !IsFree(blocks, bp + blocks[bp].size)
      requires bp - 8 in mem && IsFree(blocks, PrevBlkPtr(bp))
      modifies this`mem, this`heads, this`lists, this`blocks
      ensures AbsorbedInto(bp, r)
    {
      hide SizeField, HeapOk, Absorbs, Tiled, Aligned, Coalesced, TagStore, Untouched, Live, Pack, CoalescedExcept,
           LeftAllocated;
      ghost var m0 := mem;
      ghost var was := blocks;
      ghost var l, n := NeighbourReads({bp}, bp);
      ghost var changed := MergePrevSpec(mem, base, brk, heads, blocks, lists, bp, l);
      ghost var k := RemoveFromList(PrevBlkPtr(bp), {bp});
      ghost var m1 := mem;
      assert {bp} + {l} == {l, bp};
      ghost var l1, n1 := NeighbourReads({l, bp}, bp);
      var size := blockSize + SizeField(mem[HeaderPtr(PrevBlkPtr(bp))]);
      WriteTags(mem, l, size, false);
      mem := mem[FooterPtr(bp) := Pack(size, false)];
      r := PrevBlkPtr(bp);
      mem := mem[HeaderPtr(r) := Pack(size, false)];
      blocks := changed;
      FinishAbsorb(m0, m1, was, {l, bp}, bp, l);
    }

    /** coalesce, case 4: both neighbours are free. */
    method MergeBoth(bp: int, blockSize: int) returns (r: int)
      requires JustFreed(bp) && blockSize == blocks[bp].size
      requires IsFree(blocks, bp + blocks[bp].size)
      requires bp - 8 in mem && IsFree(blocks, PrevBlkPtr(bp))
      modifies this`mem, this`heads, this`lists, this`blocks
      ensures AbsorbedInto(bp, r)
    {
      hide SizeField, HeapOk, Absorbs, Tiled, Aligned, Coalesced, TagStore, Untouched, Live, Pack, CoalescedExcept,
           LeftAllocated;
      ghost var m0 := mem;
      ghost var was := blocks;
      ghost var l, n := NeighbourReads({bp}, bp);
      ghost var changed := MergeBothSpec(mem, base, brk, heads, blocks, lists, bp, l);
      ghost var k := RemoveFromList(NextBlkPtr(bp), {bp});
      ghost var m1 := mem;
      assert {bp} + {n} == {bp, n};
      ghost var l1, n1 := NeighbourReads({bp, n}, bp);
      ghost var j := RemoveFromList(PrevBlkPtr(bp), {bp, n});
      UntouchedTrans(m0, m1, mem, Live(was));
      ghost var m2 := mem;
      assert {bp, n} + {l} == {bp, n, l};
      l1, n1 := NeighbourReads({bp, n, l}, bp);
      TagReads({bp, n, l}, n);
      var size := blockSize + SizeField(mem[HeaderPtr(NextBlkPtr(bp))]);
      size := size + SizeField(mem[HeaderPtr(PrevBlkPtr(bp))]);
      WriteTags(mem, l, size, false);
      mem := mem[FooterPtr(NextBlkPtr(bp)) := Pack(size, false)];
      r := PrevBlkPtr(bp);
      mem := mem[HeaderPtr(r) := Pack(size, false)];
      blocks := changed;
      FinishAbsorb(m0, m2, was, {bp, n, l}, bp, l);
    }

    /** coalesce: joins bp with whichever neighbours are free and lists the result. */
    method Coalesce(bp: int) returns (r: int)
      requires JustFreed(bp)
      modifies this`mem, this`heads, this`lists, this`blocks
      ensures Valid()
      ensures IsFree(blocks, r) && r <= bp && bp + old(blocks)[bp].size <= r + blocks[r].size
      ensures Live(blocks) == Live(old(blocks))
      ensures Untouched(old(mem), mem, Live(blocks))
    {
      hide SizeField, AllocField, HeapOk, Coalesced, Untouched, Live, CoalescedExcept, ListIndexBySize;
      ghost var m0 := mem;
      ghost var l, n := NeighbourReads({bp}, bp);
      var prevAlloc := AllocField(mem[FooterPtr(PrevBlkPtr(bp))]);
      var nextAlloc := AllocField(mem[HeaderPtr(NextBlkPtr(bp))]);
      var size := SizeField(mem[HeaderPtr(bp)]);
      r := bp;
      if prevAlloc && nextAlloc {
        NoFreeNeighbours(blocks, bp);
        UntouchedRefl(mem, Live(blocks));
      } else if prevAlloc && !nextAlloc {
        MergeNext(bp, size);
      } else if !prevAlloc && nextAlloc {
        r := MergePrev(bp, size);
      } else {
        r := MergeBoth(bp, size);
      }
      ghost var m1 := mem;
      assert {r} - {r} == {};
      ListPushFront(r, {r});
      UntouchedTrans(m0, m1, mem, Live(blocks));
    }

    // ---- place ----

    /** The pending block bp becomes allocated whole. */
    lemma FinishWhole(m1: Memory, was: Blocks, bp: int)
      requires heapListp == base + DSIZE && HeapOk(m1, base, brk, heads, was, lists, {bp})
      requires IsFree(was, bp) && Coalesced(was)
      requires blocks == Retagged(was, bp, true)
      requires TagStore(m1, mem, bp, was[bp].size, true)
      ensures Valid()
      ensures Live(blocks) == Live(was)[bp := was[bp].size]
      ensures Untouched(m1, mem, Live(was))
    {
      assert Tiled(was, base + 16, brk) && Aligned(was);
      hide HeapOk, Tiled, Aligned, TagStore;
      RetagTiled(was, base + 16, brk, bp, true);
      WholeBlocks(was, bp);
      hide Live, Coalesced, Retagged;
      RetagOk(m1, mem, base, brk, heads, was, blocks, lists, {bp}, {}, bp);
      RetagLeavesLive(m1, mem, base, brk, blocks, was, bp);
    }

    lemma RetagLeavesLive(m1: Memory, after: Memory, base: int, brk: int, changed: Blocks, was: Blocks, p: int)
      requires Tiled(changed, base + 16, brk)
      requires OnlyAt(was, changed, p) && p !in Live(was)
      requires forall q | q in was :: q in changed
      requires TagStore(m1, after, p, changed[p].size, changed[p].alloc)
      ensures Untouched(m1, after, Live(was))
    {
      LiveSizes(was);
      hide Live, TagStore;
      TagStoreLeavesLive(m1, after, changed, p, Live(was));
    }

    lemma WholeBlocks(was: Blocks, p: int)
      requires IsFree(was, p) && Coalesced(was)
      ensures var changed := Retagged(was, p, true);
              && Live(changed) == Live(was)[p := was[p].size] && p !in Live(was)
              && Coalesced(changed)
              && OnlyAt(was, changed, p) && SameListedBlocks(was, changed, {p}, {})
              && changed[p] == Block(was[p].size, true)
              && (forall q | q in was :: q in changed)
    {
    }

    lemma SplitBlocks(was: Blocks, first: int, brk: int, p: int, a: int)
      requires IsFree(was, p) && Coalesced(was) && p + a !in was
      requires Tiled(was, first, brk)
      requires 0 < a < was[p].size
      ensures var changed := SplitAt(was, p, a);
              Live(changed) == Live(was)[p := a] && Coalesced(changed) && IsFree(changed, p + a)
    {
      var changed := SplitAt(was, p, a);
      SplitCoalesced(was, first, brk, p, a);
      hide Coalesced, Tiled;
      assert Live(changed) == Live(was)[p := a];
    }

    lemma SplitCoalesced(was: Blocks, first: int, brk: int, p: int, a: int)
      requires IsFree(was, p) && Coalesced(was) && p + a !in was
      requires Tiled(was, first, brk)
      requires 0 < a < was[p].size
      ensures Coalesced(SplitAt(was, p, a))
    {
      assert Linked(was, brk) && Disjoint(was);
      hide Tiled, Bounded;
    }

    /** place: asize bytes at the start of the free block bp, splitting when the
        rest can be a block. */
    method Place(bp: int, asize: int)
      requires Valid() && IsFree(blocks, bp)
      requires MIN_BLK_SIZE <= asize <= blocks[bp].size && asize % 8 == 0
      modifies this`mem, this`heads, this`lists, this`blocks
      ensures Valid()
      ensures Live(blocks) == Live(old(blocks))[bp := PlacedSize(old(blocks)[bp].size, asize)]
      ensures Untouched(old(mem), mem, Live(old(blocks)))
    {
      hide SizeField, HeapOk, Coalesced, Untouched, Live, ListIndexBySize, TagStore, Pack, SplitAt, Retagged, Tiled;
      ghost var m0 := mem;
      ghost var was := blocks;
      TagReads({}, bp);
      var freeSize := SizeField(mem[HeaderPtr(bp)]);
      ghost var k := RemoveFromList(bp, {});
      assert {} + {bp} == {bp};
      ghost var m1 := mem;
      TagReads({bp}, bp);
      PlaceSizes({bp}, bp, asize);
      if freeSize - asize >= MIN_BLK_SIZE {
        WriteTags(mem, bp, asize, true);
        PackFields(asize, true);
        mem := mem[HeaderPtr(bp) := Pack(asize, true)];
        mem := mem[FooterPtr(bp) := Pack(asize, true)];
        ghost var m2 := mem;
        var rest := NextBlkPtr(bp);
        WriteTags(mem, rest, freeSize - asize, false);
        PackFields(freeSize - asize, false);
        mem := mem[HeaderPtr(rest) := Pack(freeSize - asize, false)];
        mem := mem[FooterPtr(rest) := Pack(freeSize - asize, false)];
        SplitOk(m1, m2, mem, base, brk, heads, was, lists, {bp}, bp, asize);
        SplitBlocks(was, base + 16, brk, bp, asize);
        blocks := SplitAt(was, bp, asize);
        assert {bp} - {bp} + {rest} == {rest};
        assert {rest} - {rest} == {};
        ghost var m3 := mem;
        ListPushFront(rest, {rest});
        UntouchedGrown(m3, mem, Live(was), bp, asize);
        UntouchedTrans(m1, m3, mem, Live(was));
      } else {
        WriteTags(mem, bp, freeSize, true);
        PackFields(freeSize, true);
        mem := mem[HeaderPtr(bp) := Pack(freeSize, true)];
        mem := mem[FooterPtr(bp) := Pack(freeSize, true)];
        blocks := Retagged(was, bp, true);
        FinishWhole(m1, was, bp);
      }
      UntouchedTrans(m0, m1, mem, Live(was));
    }

    /** The size place gives the block: no remainder below the minimum is left. */
    function PlacedSize(freeSize: int, asize: int): (s: int)
      requires asize <= freeSize
      ensures asize <= s < asize + MIN_BLK_SIZE
      ensures s == asize || s == freeSize
    {
      if freeSize - asize >= MIN_BLK_SIZE then asize else freeSize
    }

    lemma UntouchedGrown(m: Memory, after: Memory, live: map<int, int>, p: int, a: int)
      requires p !in live
      requires Untouched(m, after, live[p := a])
      ensures Untouched(m, after, live)
    {
      assert forall q | q in live :: q in live[p := a] && live[p := a][q] == live[q];
    }

    lemma PlaceSizes(pending: set<int>, bp: int, asize: int)
      requires Inv(pending) && IsFree(blocks, bp)
      requires MIN_BLK_SIZE <= asize <= blocks[bp].size && asize % 8 == 0
      ensures 0 <= blocks[bp].size < 0x8000_0000 && blocks[bp].size % 8 == 0
      ensures (blocks[bp].size - asize) % 8 == 0
      ensures bp !in Live(blocks) && Tiled(blocks, base + 16, brk)
      ensures bp + asize - 8 in mem && bp + asize - 4 in mem && bp + blocks[bp].size - 8 in mem
    {
      assert bp % 8 == 0;
      hide Tiled, Aligned, Tagged, Listed, HeadsOk, Chained, Geometry, PrologueOk, EpilogueOk;
      SizeFits(mem, base, brk, heads, blocks, lists, pending, blocks, bp);
      TagCells(mem, base, brk, blocks, bp);
      WordAligned(bp, asize);
      DifferenceAligned(blocks[bp].size, asize);
      assert base <= bp + asize - 8 && bp + asize - 4 < brk;
    }

    lemma DifferenceAligned(a: int, b: int)
      requires a % 8 == 0 && b % 8 == 0
      ensures (a - b) % 8 == 0
    {
    }

    // ---- growing the heap ----

    /** mem_sbrk: moves the break and maps whatever words the system supplies, or
        fails. granted is the system's answer; it never exceeds MAX_HEAP. */
    method MemSbrk(incr: int, granted: bool) returns (p: int)
      requires 0 < incr && incr % 4 == 0
      requires Mapped(mem, base, brk) && base <= brk && base % 4 == 0 && brk % 4 == 0
      modifies this`mem, this`brk
      ensures p == if SbrkSucceeds(old(brk), incr, granted) then old(brk) else -1
      ensures p == -1 ==> mem == old(mem) && brk == old(brk)
      ensures p != -1 ==> brk == old(brk) + incr && Grown(old(mem), mem) && Mapped(mem, base, brk)
    {
      if !granted || brk + incr - base > MAX_HEAP {
        return -1;
      }
      var contents: int -> Word := *;
      p := brk;
      var added := map a | brk <= a < brk + incr && a % 4 == 0 :: contents(a);
      mem := mem + added;
      brk := brk + incr;
    }

    predicate SbrkSucceeds(top: int, incr: int, granted: bool) {
      granted && top + incr - base <= MAX_HEAP
    }

    lemma FinishExtend(m0: Memory, grown: Memory, tagged: Memory, was: Blocks, top: int, size: int)
      requires heapListp == base + DSIZE && HeapOk(m0, base, top, heads, was, lists, {}) && Coalesced(was)
      requires size % 8 == 0 && size >= MIN_BLK_SIZE && brk == top + size && brk - base <= MAX_HEAP
      requires Mapped(grown, base, brk) && Grown(m0, grown)
      requires TagStore(grown, tagged, top, size, false)
      requires brk - 4 in tagged && mem == tagged[brk - 4 := Pack(0, true)]
      requires blocks == was[top := Block(size, false)]
      ensures JustFreed(top) && Live(blocks) == Live(was) && Untouched(m0, mem, Live(was))
      ensures top !in was
    {
      hide TagStore, Mapped, Grown, Pack, Tiled, Aligned, Tagged, Listed, HeadsOk, Chained, PrologueOk,
           Untouched, Coalesced, CoalescedExcept, Live, SizeField, AllocField;
      ExtendGeometry(base, top, brk, size);
      NewEpilogue(tagged, mem, brk);
      ExtendBlocks(was, base + 16, top, size);
      hide Geometry, EpilogueOk, HeapOk;
      ExtendOk(m0, grown, tagged, mem, base, top, size, heads, was, lists);
    }

    lemma ExtendGeometry(base: int, top: int, brk: int, size: int)
      requires Geometry(base, top) && size % 8 == 0 && size >= 0 && brk == top + size && brk - base <= MAX_HEAP
      ensures Geometry(base, brk)
    {
    }

    lemma NewEpilogue(tagged: Memory, after: Memory, brk: int)
      requires brk - 4 in tagged && after == tagged[brk - 4 := Pack(0, true)]
      ensures EpilogueOk(after, brk) && after.Keys == tagged.Keys
      ensures forall x | x in tagged && x != brk - 4 :: after[x] == tagged[x]
    {
      PackFields(0, true);
    }

    lemma ExtendBlocks(was: Blocks, first: int, top: int, size: int)
      requires Tiled(was, first, top) && Coalesced(was) && size > 0
      ensures var changed := was[top := Block(size, false)];
              && top !in was && IsFree(changed, top)
              && CoalescedExcept(changed, top) && Live(changed) == Live(was)
    {
      if top in was { assert false; }
    }

    /** extend_heap: at least one more free block at the old epilogue, then coalesced. */
    method ExtendHeap(words: int, granted: bool) returns (r: int)
      requires Valid() && 6 <= words
      modifies this`mem, this`brk, this`heads, this`lists, this`blocks
      ensures Valid() && Live(blocks) == Live(old(blocks))
      ensures Untouched(old(mem), mem, Live(blocks))
      ensures r != NULL <==> SbrkSucceeds(old(brk), ExtendBytes(words), granted)
      ensures r == NULL ==> mem == old(mem) && brk == old(brk) && heads == old(heads)
                            && blocks == old(blocks) && lists == old(lists)
      ensures r != NULL ==> brk == old(brk) + ExtendBytes(words)
                            && IsFree(blocks, r) && blocks[r].size >= ExtendBytes(words)
                            && r + blocks[r].size == brk
    {
      hide SizeField, HeapOk, Coalesced, Untouched, Live, TagStore, Pack, Mapped, Grown, Aligned;
      ghost var m0 := mem;
      ghost var was := blocks;
      var size := ExtendBytes(words);
      EndsReads();
      var bp := MemSbrk(size, granted);
      if bp == -1 {
        UntouchedRefl(mem, Live(blocks));
        return NULL;
      }
      ghost var grown := mem;
      NewCells(mem, bp, size);
      WriteTags(mem, bp, size, false);
      PackFields(size, false);
      mem := mem[HeaderPtr(bp) := Pack(size, false)];
      mem := mem[FooterPtr(bp) := Pack(size, false)];
      ghost var tagged := mem;
      mem := mem[HeaderPtr(NextBlkPtr(bp)) := Pack(0, true)];
      blocks := was[bp := Block(size, false)];
      FinishExtend(m0, grown, tagged, was, bp, size);
      ghost var m1 := mem;
      r := Coalesce(bp);
      EndOfLast(bp, size, r);
      UntouchedTrans(m0, m1, mem, Live(blocks));
      assert r != NULL by { BlockReads({}, r); }
    }

    lemma EndOfLast(bp: int, size: int, r: int)
      requires Valid() && IsFree(blocks, r) && bp + size == brk && bp + size <= r + blocks[r].size
      ensures r + blocks[r].size == brk
    {
      assert Bounded(blocks, base + 16, brk);
    }

    function ExtendBytes(words: int): (bytes: int)
      requires 6 <= words
      ensures bytes % 8 == 0 && words * WSIZE <= bytes <= words * WSIZE + 4
    {
      if words % 2 == 1 then (words + 1) * WSIZE else words * WSIZE
    }

    lemma EndsReads()
      requires Valid()
      ensures Mapped(mem, base, brk) && Geometry(base, brk)
      ensures 0 < base && base + 16 <= brk && base % 4 == 0 && brk % 4 == 0 && brk % 8 == 0 && base % 8 == 0
      ensures brk - base <= MAX_HEAP && heapListp == base + DSIZE
    {
      assert Geometry(base, brk) && Mapped(mem, base, brk);
      hide HeapOk, Mapped, Coalesced;
      WordAligned(base, brk);
      WordAligned(brk, base);
    }

    lemma NewCells(m: Memory, top: int, size: int)
      requires Mapped(m, base, top + size) && base + 16 <= top && top % 8 == 0 && size % 8 == 0 && size >= MIN_BLK_SIZE
      requires base % 8 == 0
      ensures top - 4 in m && top + size - 8 in m && top + size - 4 in m
    {
      WordAligned(top, size);
    }

    // ---- mm_init ----

    /** Nothing asked of the system yet, or everything given back. */
    ghost predicate Emptied()
      reads this
    {
      && mem == map[] && brk == base && blocks == map[]
      && 0 < base && base % 8 == 0 && base + MAX_HEAP < POINTER_LIMIT
    }

    /** Before the first call. */
    ghost predicate Fresh()
      reads this
    {
      heapListp == NULL && Emptied()
    }

    /** What mm_init leaves once it has its prologue: the first chunk, if it was granted. */
    function FirstBlocks(chunk: bool): Blocks {
      if chunk then map[base + 16 := Block(CHUNKSIZE, false)] else map[]
    }

    function FirstBrk(chunk: bool): int {
      base + 16 + if chunk then CHUNKSIZE else 0
    }

    /** The blocks and the break that a request finds, after mm_init if it is the first. */
    ghost function StartBlocks(chunk: bool): Blocks
      reads this
    {
      if heapListp == NULL then FirstBlocks(chunk) else blocks
    }

    function StartBrk(chunk: bool): int
      reads this
    {
      if heapListp == NULL then FirstBrk(chunk) else brk
    }

    /** A request for size bytes is refused: nothing fits and the heap cannot grow. */
    ghost predicate Refused(found: Blocks, top: int, size: int, more: bool)
      requires size > 0
    {
      && !HasFit(found, AdjustedSize(size))
      && !SbrkSucceeds(top, ExtendSize(AdjustedSize(size)), more)
    }

    constructor (lo: int)
      requires 0 < lo && lo % 8 == 0 && lo + MAX_HEAP < POINTER_LIMIT
      ensures Fresh() && base == lo
    {
      base := lo;
      mem := map[];
      brk := lo;
      heapListp := NULL;
      heads := seq(NO_OF_SIZE_TYPE, _ => NULL);
      blocks := map[];
      lists := [];
    }

    /** mm_init: -1 when either mem_sbrk fails. After a failure of the first one
        heap_listp is (void *)-1 and no block operation may follow. */
    method MmInit(prologueGranted: bool, chunkGranted: bool) returns (r: int)
      requires Emptied()
      modifies this`mem, this`brk, this`heapListp, this`heads, this`lists, this`blocks
      ensures prologueGranted ==> Valid() && Live(blocks) == map[]
      ensures r == if prologueGranted && chunkGranted then 0 else -1
      ensures prologueGranted ==> blocks == FirstBlocks(chunkGranted) && brk == FirstBrk(chunkGranted)
      ensures prologueGranted ==> brk == base + if chunkGranted then 144 else 16
    {
      hide HeapOk, Coalesced, Grown, Untouched, Mapped, Live;
      EmptyMapped();
      heads := seq(NO_OF_SIZE_TYPE, _ => NULL);
      lists := seq(NO_OF_SIZE_TYPE, _ => []);
      heapListp := MemSbrk(4 * WSIZE, prologueGranted);
      if heapListp == -1 {
        return -1;
      }
      WriteEnds();
      var bp := ExtendHeap(CHUNKSIZE / WSIZE, chunkGranted);
      if bp == NULL {
        return -1;
      }
      OneFreeBlock();
      return 0;
    }

    lemma EmptyMapped()
      ensures Mapped(map[], base, base)
    {
    }

    /** The alignment padding, the prologue and the first epilogue. */
    method WriteEnds()
      requires heapListp == base && brk == base + 16 && blocks == map[] && Mapped(mem, base, base + 16)
      requires 0 < base && base % 8 == 0 && base + MAX_HEAP < POINTER_LIMIT
      requires heads == seq(NO_OF_SIZE_TYPE, _ => NULL) && lists == seq(NO_OF_SIZE_TYPE, _ => [])
      modifies this`mem, this`heapListp
      ensures Valid() && Live(blocks) == map[]
    {
      hide SizeField, AllocField, Pack, HeapOk, Coalesced, Live, Mapped;
      InitialCells(mem);
      ghost var grown := mem;
      mem := mem[heapListp := 0];
      heapListp := heapListp + WSIZE;
      mem := mem[heapListp := Pack(DSIZE, true)];
      heapListp := heapListp + WSIZE;
      mem := mem[heapListp := Pack(DSIZE, true)];
      heapListp := heapListp + WSIZE;
      mem := mem[heapListp := Pack(0, true)];
      heapListp := heapListp - WSIZE;
      InitialHeap(grown);
    }

    lemma InitialCells(m: Memory)
      requires Mapped(m, base, base + 16) && base % 8 == 0
      ensures base in m && base + 4 in m && base + 8 in m && base + 12 in m
    {
      WordAligned(base, 0);
    }

    lemma InitialHeap(grown: Memory)
      requires Mapped(grown, base, base + 16)
      requires base in grown && base + 4 in grown && base + 8 in grown && base + 12 in grown
      requires mem == grown[base := 0][base + 4 := Pack(DSIZE, true)][base + 8 := Pack(DSIZE, true)]
                           [base + 12 := Pack(0, true)]
      requires heapListp == base + DSIZE && brk == base + 16 && blocks == map[]
      requires 0 < base && base % 8 == 0 && base + MAX_HEAP < POINTER_LIMIT
      requires heads == seq(NO_OF_SIZE_TYPE, _ => NULL) && lists == seq(NO_OF_SIZE_TYPE, _ => [])
      ensures Valid() && Live(blocks) == map[]
    {
      PackFields(DSIZE, true);
      PackFields(0, true);
      assert mem.Keys == grown.Keys;
      MappedKeys(grown, mem, base, brk);
      hide Mapped, Pack, SizeField, AllocField;
      assert PrologueOk(mem, base) && EpilogueOk(mem, brk);
      assert Listed(blocks, lists, {});
      assert HeadsOk(heads, lists) && Chained(mem, lists);
    }

    lemma OneFreeBlock()
      requires Valid() && Live(blocks) == map[] && brk > base + 16
      ensures blocks == map[base + 16 := Block(brk - base - 16, false)]
    {
      NothingLive(blocks, base + 16, brk);
    }

    // ---- find_fit ----

    /** find_fit_from_list: the first block of the list that is big enough, or NULL. */
    method FindFitFromList(asize: int, listIndex: int) returns (bp: int)
      requires Valid() && 0 <= listIndex < NO_OF_SIZE_TYPE
      ensures |lists| == NO_OF_SIZE_TYPE
      ensures forall j | 0 <= j < |lists[listIndex]| :: lists[listIndex][j] in blocks
      ensures bp == NULL <==> forall j | 0 <= j < |lists[listIndex]| :: blocks[lists[listIndex][j]].size < asize
      ensures bp != NULL ==> exists k :: FirstFit(blocks, lists[listIndex], asize, k) && bp == lists[listIndex][k]
    {
      hide SizeField, HeapOk, Coalesced, GetPtr, ListIndexBySize;
      ListReads({}, listIndex);
      ghost var l := lists[listIndex];
      ListBlocks(listIndex);
      bp := heads[listIndex];
      ghost var k := 0;
      while bp != NULL
        invariant 0 <= k <= |l|
        invariant bp == if k == |l| then NULL else l[k]
        invariant forall j | 0 <= j < k :: blocks[l[j]].size < asize
        decreases |l| - k
      {
        BlockReads({}, bp);
        OwnChain({}, listIndex, k);
        if asize <= SizeField(mem[HeaderPtr(bp)]) {
          assert FirstFit(blocks, l, asize, k);
          return;
        }
        bp := GetPtr(mem, bp + 8);
        k := k + 1;
      }
    }

    lemma ListBlocks(i: int)
      requires Valid() && 0 <= i < NO_OF_SIZE_TYPE
      ensures |lists| == NO_OF_SIZE_TYPE
      ensures forall j | 0 <= j < |lists[i]| :: IsFree(blocks, lists[i][j]) && lists[i][j] > 0
      ensures forall j | 0 <= j < |lists[i]| :: ListIndexBySize(blocks[lists[i][j]].size) == i
    {
      MembersInBlocks(blocks, lists, {}, i);
    }

    /** find_fit: NULL exactly when no free block is big enough; otherwise the first
        big enough block of the lowest class that has one, which is the class of the
        smallest block that fits. */
    method FindFit(asize: int) returns (bp: int)
      requires Valid() && MIN_BLK_SIZE <= asize
      ensures bp == NULL <==> !HasFit(blocks, asize)
      ensures bp != NULL ==> BestClassFit(blocks, asize, bp)
    {
      hide SizeField, HeapOk, Coalesced, ListIndexBySize;
      var i := ListIndexBySize(asize);
      forall p | IsFree(blocks, p) && asize <= blocks[p].size ensures i <= ListIndexBySize(blocks[p].size) {
        ClassWidth(asize, blocks[p].size);
      }
      while i < NO_OF_SIZE_TYPE
        invariant 0 <= i <= NO_OF_SIZE_TYPE
        invariant forall p | IsFree(blocks, p) && asize <= blocks[p].size :: i <= ListIndexBySize(blocks[p].size)
      {
        ListBlocks(i);
        bp := FindFitFromList(asize, i);
        if bp != NULL {
          return;
        }
        NotInList(asize, i);
        i := i + 1;
      }
      bp := NULL;
    }

    lemma NotInList(asize: int, i: int)
      requires Valid() && 0 <= i < NO_OF_SIZE_TYPE && |lists| == NO_OF_SIZE_TYPE
      requires forall j | 0 <= j < |lists[i]| :: lists[i][j] in blocks && blocks[lists[i][j]].size < asize
      ensures forall p | IsFree(blocks, p) && asize <= blocks[p].size :: ListIndexBySize(blocks[p].size) != i
    {
      hide ListIndexBySize;
      forall p | IsFree(blocks, p) && asize <= blocks[p].size ensures ListIndexBySize(blocks[p].size) != i {
        var k := FindListed(blocks, lists, {}, p);
      }
    }

    // ---- malloc, free, realloc ----

    ghost predicate Ready()
      reads this
    {
      Fresh() || Valid()
    }

    /** How far malloc grows the heap when nothing fits. */
    function ExtendSize(asize: int): (size: int)
      ensures size >= asize && size >= 128 && (size == asize || size == 128)
    {
      if asize > CHUNKSIZE then asize else CHUNKSIZE
    }

    method Malloc(size: int, answers: SbrkAnswers) returns (p: int)
      requires Ready() && 0 <= size <= MAX_REQUEST
      requires heapListp == NULL ==> answers.prologue
      modifies this`mem, this`brk, this`heapListp, this`heads, this`lists, this`blocks
      ensures Valid()
      // NULL exactly for size 0 or when nothing fits and the system refuses more
      ensures p == NULL <==>
                size == 0 || Refused(old(StartBlocks(answers.chunk)), old(StartBrk(answers.chunk)), size, answers.more)
      ensures p == NULL ==> brk == old(StartBrk(answers.chunk)) && blocks == old(StartBlocks(answers.chunk))
      ensures p == NULL && old(heapListp) != NULL ==>
                mem == old(mem) && heads == old(heads) && lists == old(lists)
      ensures p == NULL ==> Live(blocks) == Live(old(blocks))
      // otherwise one new block, big enough and not much bigger
      ensures p != NULL ==>
                && size > 0 && p % 8 == 0 && p !in Live(old(blocks)) && p in Live(blocks)
                && Live(blocks) == Live(old(blocks))[p := Live(blocks)[p]]
                && AdjustedSize(size) <= Live(blocks)[p] < AdjustedSize(size) + MIN_BLK_SIZE
      // bigger only where a whole free block was taken
      ensures p != NULL && Live(blocks)[p] != AdjustedSize(size) ==>
                TakenWhole(old(StartBlocks(answers.chunk)), brk, p, Live(blocks)[p])
      // the heap grows only when nothing fits
      ensures size > 0 && HasFit(old(StartBlocks(answers.chunk)), AdjustedSize(size)) ==>
                && brk == old(StartBrk(answers.chunk))
                && BestClassFit(old(StartBlocks(answers.chunk)), AdjustedSize(size), p)
      ensures p != NULL && !HasFit(old(StartBlocks(answers.chunk)), AdjustedSize(size)) ==>
                brk == old(StartBrk(answers.chunk)) + ExtendSize(AdjustedSize(size))
      ensures Untouched(old(mem), mem, Live(old(blocks)))
    {
      hide HeapOk, Coalesced, Untouched, Live, SizeField, HasFit, BestClassFit;
      ghost var first := old(heapListp) == NULL;
      if heapListp == NULL {
        FreshFacts();
        var r := MmInit(answers.prologue, answers.chunk);
        NothingToTouch(old(mem), mem);
      } else {
        InitialisedFacts();
        UntouchedRefl(mem, Live(blocks));
      }
      assert Live(blocks) == Live(old(blocks));
      if size == 0 {
        return NULL;
      }
      var asize := AdjustedSize(size);
      ghost var m0 := mem;
      ghost var was := blocks;
      p := FindFit(asize);
      if p != NULL {
        FitFacts(asize, p);
        Place(p, asize);
        FinishMalloc(old(mem), m0, was, p, asize);
        return;
      }
      var extendSize := ExtendSize(asize);
      WordCount(extendSize);
      p := ExtendHeap(extendSize / WSIZE, answers.more);
      if p == NULL {
        return;
      }
      FreeNotLive(blocks, p);
      ghost var m1 := mem;
      ghost var grown := blocks;
      Place(p, asize);
      UntouchedTrans(m0, m1, mem, Live(was));
      FinishMalloc(old(mem), m0, grown, p, asize);
    }

    lemma FreshFacts()
      requires Ready() && heapListp == NULL
      ensures Fresh() && Live(blocks) == map[]
    {
      hide Tiled;
      assert Valid() ==> Geometry(base, brk);
    }

    lemma InitialisedFacts()
      requires Ready() && heapListp != NULL
      ensures Valid()
    {
    }

    lemma NothingToTouch(m0: Memory, m1: Memory)
      ensures Untouched(m0, m1, map[])
    {
    }

    lemma FitFacts(asize: int, p: int)
      requires BestClassFit(blocks, asize, p)
      ensures IsFree(blocks, p) && asize <= blocks[p].size && p !in Live(blocks)
    {
    }

    lemma FreeNotLive(blocks: Blocks, p: int)
      requires IsFree(blocks, p)
      ensures p !in Live(blocks)
    {
    }

    lemma WordCount(bytes: int)
      requires bytes % 8 == 0 && bytes >= MIN_BLK_SIZE
      ensures 6 <= bytes / WSIZE && ExtendBytes(bytes / WSIZE) == bytes
    {
    }

    lemma FinishMalloc(mFirst: Memory, m0: Memory, was: Blocks, p: int, asize: int)
      requires Valid() && IsFree(was, p) && asize <= was[p].size
      requires Live(blocks) == Live(was)[p := PlacedSize(was[p].size, asize)]
      requires Untouched(mFirst, m0, Live(was)) && Untouched(m0, mem, Live(was))
      ensures p % 8 == 0 && p !in Live(was) && p in Live(blocks)
      ensures Live(blocks) == Live(was)[p := Live(blocks)[p]]
      ensures asize <= Live(blocks)[p] < asize + MIN_BLK_SIZE
      ensures Live(blocks)[p] == asize || Live(blocks)[p] == was[p].size
      ensures Untouched(mFirst, mem, Live(was))
    {
      UntouchedTrans(mFirst, m0, mem, Live(was));
      hide Untouched;
      FreeNotLive(was, p);
      assert p in Live(blocks);
      assert p in blocks && Aligned(blocks);
    }

    lemma NullNotLive()
      requires Ready()
      ensures NULL !in Live(blocks)
    {
      if Valid() {
        LiveSizes(blocks);
        assert Bounded(blocks, base + 16, brk) && Geometry(base, brk);
      }
    }

    lemma OutsideNotLive(p: int)
      requires Valid() && !InHeap(p)
      ensures p !in Live(blocks)
    {
      LiveSizes(blocks);
      assert Bounded(blocks, base + 16, brk);
    }

    lemma LiveSizeFits(p: int)
      requires Valid() && p in blocks
      ensures 0 <= blocks[p].size < 0x8000_0000 && blocks[p].size % 8 == 0
    {
      assert Bounded(blocks, base + 16, brk) && Geometry(base, brk);
    }

    lemma FinishFree(m0: Memory, was: Blocks, p: int)
      requires heapListp == base + DSIZE && HeapOk(m0, base, brk, heads, was, lists, {}) && Coalesced(was)
      requires p in was && was[p].alloc
      requires blocks == Retagged(was, p, false)
      requires TagStore(m0, mem, p, was[p].size, false)
      ensures JustFreed(p)
      ensures Live(blocks) == Live(was) - {p}
      ensures Untouched(m0, mem, Live(blocks))
    {
      hide Aligned, TagStore, Listed, Linked, Tagged;
      RetagTiled(was, base + 16, brk, p, false);
      FreedBlocks(was, p);
      hide Coalesced, Retagged, Tiled, HeapOk;
      RetagOk(m0, mem, base, brk, heads, was, blocks, lists, {}, {p}, p);
      FreedLeavesLive(m0, mem, base, brk, blocks, p);
    }

    lemma FreedBlocks(was: Blocks, p: int)
      requires p in was && was[p].alloc && Coalesced(was)
      ensures var changed := Retagged(was, p, false);
              && Live(changed) == Live(was) - {p}
              && CoalescedExcept(changed, p) && IsFree(changed, p)
              && OnlyAt(was, changed, p) && SameListedBlocks(was, changed, {}, {p})
              && changed[p] == Block(was[p].size, false)
    {
    }

    lemma FreedLeavesLive(m0: Memory, after: Memory, base: int, brk: int, changed: Blocks, p: int)
      requires Tiled(changed, base + 16, brk) && IsFree(changed, p)
      requires TagStore(m0, after, p, changed[p].size, false)
      ensures Untouched(m0, after, Live(changed))
    {
      LiveSizes(changed);
      hide Live, TagStore;
      TagStoreLeavesLive(m0, after, changed, p, Live(changed));
    }

    /** in_heap */
    predicate InHeap(p: int)
      reads this
    {
      base <= p < brk
    }

    /** free: of NULL, of an address outside the heap, or before initialisation it
        frees nothing; of a live block it frees exactly that block. */
    method Free(p: int, answers: SbrkAnswers)
      requires Ready()
      requires p != NULL && heapListp != NULL && InHeap(p) ==> p in Live(blocks)
      requires p != NULL && heapListp == NULL ==> answers.prologue
      modifies this`mem, this`brk, this`heapListp, this`heads, this`lists, this`blocks
      ensures Ready() && (p != NULL ==> Valid())
      ensures Live(blocks) == if old(heapListp) == NULL then Live(old(blocks)) else Live(old(blocks)) - {p}
      ensures p != NULL ==> brk == old(StartBrk(answers.chunk))
      ensures p != NULL && old(heapListp) == NULL ==> blocks == FirstBlocks(answers.chunk)
      ensures p == NULL || (old(heapListp) != NULL && p !in Live(old(blocks))) ==>
                mem == old(mem) && brk == old(brk) && heads == old(heads) && lists == old(lists)
                && blocks == old(blocks) && heapListp == old(heapListp)
      ensures Untouched(old(mem), mem, Live(blocks))
    {
      hide HeapOk, Coalesced, Untouched, Live, SizeField;
      if p == NULL {
        NullNotLive();
        UntouchedRefl(mem, Live(blocks));
        return;
      }
      if heapListp == NULL {
        FreshFacts();
        var r := MmInit(answers.prologue, answers.chunk);
        NothingToTouch(old(mem), mem);
        return;
      }
      InitialisedFacts();
      if !InHeap(p) {
        OutsideNotLive(p);
        UntouchedRefl(mem, Live(blocks));
        return;
      }
      ghost var m0 := mem;
      ghost var was := blocks;
      LiveSizes(blocks);
      TagReads({}, p);
      LiveSizeFits(p);
      var size := SizeField(mem[HeaderPtr(p)]);
      WriteTags(mem, p, size, false);
      PackFields(size, false);
      mem := mem[HeaderPtr(p) := Pack(size, false)];
      mem := mem[FooterPtr(p) := Pack(size, false)];
      blocks := Retagged(was, p, false);
      FinishFree(m0, was, p);
      ghost var m1 := mem;
      var r := Coalesce(p);
      UntouchedTrans(m0, m1, mem, Live(blocks));
    }

    // ---- bytes ----

    lemma LiveBytes(p: int, x: int)
      requires Valid() && p in Live(blocks) && p <= x < p + Live(blocks)[p] - 4
      ensures HasByte(mem, x)
    {
      LiveSizes(blocks);
      hide Live, Tagged, Listed, Chained, HeadsOk, Coalesced, Disjoint, Linked;
      PayloadWord(mem, base, brk, blocks, p, x);
    }

    /** The block, and the word after it: the next header or the epilogue. */
    lemma PayloadWord(m: Memory, base: int, brk: int, blocks: Blocks, p: int, x: int)
      requires Geometry(base, brk) && Mapped(m, base, brk)
      requires Bounded(blocks, base + 16, brk) && Aligned(blocks)
      requires p in blocks && p <= x < p + blocks[p].size
      ensures HasByte(m, x)
    {
      assert p % 8 == 0 && blocks[p].size % 8 == 0;
      assert base <= p && p + blocks[p].size <= brk;
      hide Bounded, Aligned;
      WordStart(p, blocks[p].size, x);
    }

    lemma WordStart(p: int, s: int, x: int)
      requires p % 8 == 0 && s % 8 == 0 && p <= x < p + s
      ensures p <= WordAddress(x) <= x && WordAddress(x) % 4 == 0
    {
    }

    /** A write inside the payload of the live block p. */
    lemma OwnerWrote(m0: Memory, p: int, dst: int, n: int)
      requires heapListp == base + DSIZE && HeapOk(m0, base, brk, heads, blocks, lists, {}) && Coalesced(blocks)
      requires p in Live(blocks) && p <= dst && dst + n <= p + Live(blocks)[p] - 8
      requires BytesWritten(m0, mem, dst, n)
      ensures Valid()
      ensures Untouched(m0, mem, Live(blocks) - {p})
    {
      LiveSizes(blocks);
      hide Live, Tagged, Listed, Chained, HeadsOk, Coalesced, Disjoint, Linked, Untouched;
      assert Mapped(m0, base, brk) && Aligned(blocks) && Geometry(base, brk);
      forall x | x in m0 && !(p <= x < p + blocks[p].size - 8) ensures mem[x] == m0[x] {
        hide HeapOk;
        assert x % 4 == 0 && p % 8 == 0;
        if x < p { WordBelow(x, p); }
      }
      hide HeapOk, BytesWritten;
      OwnerStoreOk(m0, mem, base, brk, heads, blocks, lists, p);
    }

    lemma WordBelow(x: int, p: int)
      requires x % 4 == 0 && p % 8 == 0 && x < p
      ensures x + 4 <= p
    {
    }

    /** The client stores one byte in the payload of its live block p. */
    method StoreByte(p: int, offset: int, b: Byte)
      requires Valid() && p in Live(blocks) && 0 <= offset < Live(blocks)[p] - 8
      modifies this`mem
      ensures Valid()
      ensures mem.Keys == old(mem).Keys
      ensures forall x | HasByte(old(mem), x) ::
                HasByte(mem, x) && GetByte(mem, x) == if x == p + offset then b else GetByte(old(mem), x)
      ensures Untouched(old(mem), mem, Live(blocks) - {p})
    {
      hide HeapOk, GetByte, SetByte, HasByte, Live, Coalesced, Untouched;
      ghost var m0 := mem;
      LiveBytes(p, p + offset);
      SetByteFrame(mem, p + offset, b);
      mem := SetByte(mem, p + offset, b);
      forall x | HasByte(m0, x)
        ensures HasByte(mem, x) && GetByte(mem, x) == if x == p + offset then b else GetByte(m0, x)
      {
        HasByteKeys(m0, mem, x);
        SetByteReads(m0, p + offset, b, x);
      }
      OwnerWrote(m0, p, p + offset, 1);
    }

    /** memcpy on disjoint ranges. */
    method Memcpy(dst: int, src: int, n: int)
      requires 0 <= n && (dst + n <= src || src + n <= dst)
      requires Readable(mem, dst, n) && Readable(mem, src, n)
      modifies this`mem
      ensures BytesWritten(old(mem), mem, dst, n)
      ensures Copied(old(mem), mem, dst, src, n)
    {
      hide GetByte, SetByte, HasByte, Copied, BytesWritten;
      ghost var m0 := mem;
      NothingCopied(m0, dst, src, n);
      var i := 0;
      while i < n
        invariant 0 <= i <= n && mem.Keys == m0.Keys
        invariant BytesWritten(m0, mem, dst, n)
        invariant Copied(m0, mem, dst, src, i)
      {
        HasByteKeys(m0, mem, dst + i);
        HasByteKeys(m0, mem, src + i);
        CopyStep(m0, mem, dst, src, n, i);
        SetByteFrame(mem, dst + i, GetByte(mem, src + i));
        mem := SetByte(mem, dst + i, GetByte(mem, src + i));
        i := i + 1;
      }
    }

    lemma NothingCopied(m0: Memory, dst: int, src: int, n: int)
      ensures BytesWritten(m0, m0, dst, n) && Copied(m0, m0, dst, src, 0)
    {
    }

    function Min(a: int, b: int): int {
      if a < b then a else b
    }

    /** realloc: free when size is 0, malloc when there is no old block, otherwise a
        new block holding the old data. On failure nothing changes. */
    method Realloc(oldptr: int, size: int, answers: SbrkAnswers) returns (p: int)
      requires Ready() && 0 <= size <= MAX_REQUEST
      requires oldptr == NULL || oldptr in Live(blocks)
      requires heapListp == NULL ==> answers.prologue
      modifies this`mem, this`brk, this`heapListp, this`heads, this`lists, this`blocks
      ensures Ready() && (size > 0 ==> Valid())
      ensures size == 0 ==> p == NULL && Live(blocks) == Live(old(blocks)) - {oldptr}
      ensures size > 0 && p == NULL ==> Live(blocks) == Live(old(blocks))
      ensures size > 0 ==>
                (p == NULL <==>
                   Refused(old(StartBlocks(answers.chunk)), old(StartBrk(answers.chunk)), size, answers.more))
      ensures size > 0 && p == NULL ==>
                brk == old(StartBrk(answers.chunk)) && blocks == old(StartBlocks(answers.chunk))
      ensures size > 0 && p == NULL && old(heapListp) != NULL ==>
                mem == old(mem) && heads == old(heads) && lists == old(lists)
      ensures p != NULL ==>
                && p % 8 == 0 && p !in Live(old(blocks)) && p in Live(blocks)
                && Live(blocks) == (Live(old(blocks)) - {oldptr})[p := Live(blocks)[p]]
                && AdjustedSize(size) <= Live(blocks)[p] < AdjustedSize(size) + MIN_BLK_SIZE
      ensures size > 0 ==> brk <= old(StartBrk(answers.chunk)) + ExtendSize(AdjustedSize(size))
      ensures size == 0 && oldptr != NULL ==> brk == old(brk)
      // the data moves with the block
      ensures p != NULL && oldptr != NULL ==>
                SameBytes(old(mem), oldptr, mem, p, Min(size, Live(old(blocks))[oldptr] - 8))
      ensures Untouched(old(mem), mem, Live(old(blocks)) - {oldptr})
    {
      hide HeapOk, Coalesced, Untouched, Live, SizeField, HasFit, BestClassFit, GetByte, HasByte;
      ghost var m0 := mem;
      ghost var live0 := Live(blocks);
      NullNotLive();
      if oldptr != NULL {
        LiveMeansInitialised(oldptr);
      }
      if size == 0 {
        RemoveAbsent(live0, oldptr);
        Free(oldptr, answers);
        return NULL;
      }
      if oldptr == NULL {
        RemoveAbsent(live0, oldptr);
        p := Malloc(size, answers);
        return;
      }
      LiveRange(oldptr);
      p := Malloc(size, answers);
      if p == NULL {
        UntouchedLess(m0, mem, live0, oldptr);
        return;
      }
      ghost var m1 := mem;
      ghost var live1 := Live(blocks);
      LiveTags(oldptr);
      var oldsize := SizeField(mem[HeaderPtr(oldptr)]);
      if size < oldsize {
        oldsize := size;
      }
      MemcpyReady(p, oldptr, oldsize);
      Memcpy(p, oldptr, oldsize);
      ghost var m2 := mem;
      OwnerWrote(m1, p, p, oldsize);
      LiveTags(oldptr);
      Free(oldptr, answers);
      ReallocData(m0, m1, m2, live0, live1, oldptr, p, oldsize, size);
    }

    lemma RemoveAbsent(live: map<int, int>, x: int)
      ensures x !in live ==> live - {x} == live
    {
    }

    lemma InitialisedHeap()
      requires Valid()
      ensures heapListp != NULL
    {
      assert Geometry(base, brk);
    }

    lemma LiveMeansInitialised(p: int)
      requires Ready() && p in Live(blocks)
      ensures heapListp != NULL && Valid()
    {
      if Fresh() { assert false; }
      assert Geometry(base, brk);
    }

    lemma LiveRange(p: int)
      requires Valid() && p in Live(blocks)
      ensures p % 8 == 0 && Readable(mem, p, Live(blocks)[p] - 8)
    {
      LiveSizes(blocks);
      assert Aligned(blocks);
      hide Live, HeapOk, HasByte, Coalesced;
      forall x | p <= x < p + Live(blocks)[p] - 8 ensures HasByte(mem, x) {
        LiveBytes(p, x);
      }
    }

    lemma UntouchedLess(m0: Memory, m1: Memory, live: map<int, int>, x: int)
      requires Untouched(m0, m1, live)
      ensures Untouched(m0, m1, live - {x})
    {
    }

    lemma LiveTags(p: int)
      requires Valid() && p in Live(blocks)
      ensures p - 4 in mem && SizeField(mem[p - 4]) == Live(blocks)[p] && InHeap(p) && p != NULL
    {
      LiveSizes(blocks);
      hide Live;
      assert TagsOk(mem, p, blocks[p]);
      assert Bounded(blocks, base + 16, brk) && Geometry(base, brk);
    }

    /** memcpy may run past the old payload up to the old block size: it still reads
        mapped words, and writes only the new payload. */
    lemma MemcpyReady(p: int, oldptr: int, n: int)
      requires Valid() && p in Live(blocks) && oldptr in Live(blocks) && p != oldptr
      requires 0 <= n <= Live(blocks)[p] - 8 && n <= Live(blocks)[oldptr]
      ensures p + n <= oldptr || oldptr + n <= p
      ensures Readable(mem, p, n) && Readable(mem, oldptr, n)
    {
      LiveSizes(blocks);
      assert Mapped(mem, base, brk) && Aligned(blocks) && Bounded(blocks, base + 16, brk) && Disjoint(blocks)
             && Geometry(base, brk);
      hide Live, HeapOk, HasByte, Coalesced, Mapped, Aligned, Geometry, Bounded;
      forall x | p <= x < p + n ensures HasByte(mem, x) {
        PayloadWord(mem, base, brk, blocks, p, x);
      }
      forall x | oldptr <= x < oldptr + n ensures HasByte(mem, x) {
        PayloadWord(mem, base, brk, blocks, oldptr, x);
      }
    }

    lemma ReallocData(m0: Memory, m1: Memory, m2: Memory, live0: map<int, int>, live1: map<int, int>,
                      oldptr: int, p: int, n: int, size: int)
      requires Valid() && oldptr in live0 && p !in live0 && oldptr % 8 == 0
      requires p in live1 && live1 == live0[p := live1[p]] && Live(blocks) == live1 - {oldptr}
      requires Readable(m0, oldptr, live0[oldptr] - 8) && Readable(m1, p, n)
      requires n == Min(size, live0[oldptr]) && size <= live1[p] - 8
      requires Untouched(m0, m1, live0)
      requires Copied(m1, m2, p, oldptr, n) && Untouched(m1, m2, live1 - {p})
      requires m2.Keys == m1.Keys
      requires Untouched(m2, mem, Live(blocks))
      ensures p in Live(blocks) && Live(blocks)[p] == live1[p]
      ensures Live(blocks) == (live0 - {oldptr})[p := Live(blocks)[p]]
      ensures Untouched(m0, mem, live0 - {oldptr})
      ensures SameBytes(m0, oldptr, mem, p, Min(size, live0[oldptr] - 8))
    {
      hide HeapOk, Coalesced, Live, GetByte, HasByte, Untouched, Copied, SameBytes;
      var rest := live0 - {oldptr};
      assert p in Live(blocks);
      MovedBytes(m0, m1, m2, live0, oldptr, p, n, Min(size, live0[oldptr] - 8));
      UntouchedSub(m0, m1, live0, rest);
      UntouchedSub(m1, m2, live1 - {p}, rest);
      UntouchedSub(m2, mem, Live(blocks), rest);
      UntouchedTrans(m0, m1, m2, rest);
      UntouchedTrans(m0, m2, mem, rest);
    }

    lemma UntouchedSub(m0: Memory, m1: Memory, live: map<int, int>, part: map<int, int>)
      requires Untouched(m0, m1, live)
      requires forall q | q in part :: q in live && live[q] == part[q]
      ensures Untouched(m0, m1, part)
    {
    }

    lemma MovedBytes(m0: Memory, m1: Memory, m2: Memory, live0: map<int, int>, oldptr: int, p: int, n: int, kept: int)
      requires oldptr in live0 && oldptr % 8 == 0 && kept <= live0[oldptr] - 8 && kept <= n
      requires Readable(m0, oldptr, live0[oldptr] - 8) && Readable(m1, p, n)
      requires Untouched(m0, m1, live0)
      requires Copied(m1, m2, p, oldptr, n) && m2.Keys == m1.Keys
      requires Valid() && p in Live(blocks) && kept <= Live(blocks)[p] - 8
      requires Untouched(m2, mem, Live(blocks))
      ensures SameBytes(m0, oldptr, mem, p, kept)
    {
      LiveRange(p);
      hide HeapOk, Coalesced, Live, GetByte, Untouched, Copied, SameBytes, HasByte;
      UntouchedPayload(m0, m1, live0, oldptr, kept);
      CopiedSameBytes(m1, m2, p, oldptr, n, kept);
      SameBytesTrans(m0, oldptr, m1, oldptr, m2, p, kept);
      forall x | p <= x < p + kept ensures HasByte(m2, x) {
        HasByteKeys(m1, m2, x);
      }
      UntouchedPayload(m2, mem, Live(blocks), p, kept);
      SameBytesTrans(m0, oldptr, m2, p, mem, p, kept);
    }

    // ---- mm_checkheap ----

    /** checkblock: the number of complaints it prints about bp, on any memory; faulted
        if it reads outside the heap. */
    method CheckBlock(bp: int) returns (complaints: int, faulted: bool)
      requires bp - 4 in mem
      ensures complaints >= 0
      ensures !faulted && complaints == 0 <==> BlockPasses(mem, base, brk, bp, bp == heapListp)
    {
      hide SizeField, AllocField;
      complaints, faulted := 0, false;
      if bp % DSIZE != 0 {
        complaints := complaints + 1;
      }
      if !InHeap(bp) {
        complaints := complaints + 1;
      }
      if FooterPtr(bp) !in mem {
        return complaints, true;
      }
      if mem[HeaderPtr(bp)] != mem[FooterPtr(bp)] {
        complaints := complaints + 1;
      }
      if SizeField(mem[HeaderPtr(bp)]) < MIN_BLK_SIZE {
        if bp != heapListp {
          complaints := complaints + 1;
        }
      }
      if !AllocField(mem[HeaderPtr(bp)]) {
        if HeaderPtr(NextBlkPtr(bp)) !in mem {
          return complaints, true;
        }
        if !AllocField(mem[HeaderPtr(NextBlkPtr(bp))]) {
          complaints := complaints + 1;
        }
      }
    }

    /** The heap walk of mm_checkheap, on any memory with a prologue header: if it ends
        without a complaint, the words it has read are the tags of a fully coalesced
        tiling up to the first word of size zero, and count is its number of free
        blocks. On any such tiling the walk ends, without a complaint. */
    method CheckBlocks(ghost tiling: Blocks, ghost end: int)
        returns (complaints: int, faulted: bool, count: nat, bp: int, ghost seen: Blocks)
      requires Geometry(base, brk) && heapListp == base + DSIZE
      requires base + 4 in mem && SizeField(mem[base + 4]) == DSIZE && AllocField(mem[base + 4])
      ensures complaints >= 0
      ensures !faulted ==> bp - 4 in mem && SizeField(mem[bp - 4]) == 0
      ensures !faulted && complaints == 0 ==>
                WalkedTo(mem, seen, base + 16, bp) && StartsBelow(seen, brk) && count == |FreeSet(seen)|
      ensures GoodWalk(mem, base, brk, tiling, end) ==> !faulted && complaints == 0 && bp == end && seen == tiling
    {
      hide SizeField, AllocField, WalkedTo, GoodWalk, Geometry, BlockPasses, FreeSet, From;
      complaints, faulted, count, seen := 0, false, 0, map[];
      bp := heapListp;
      while SizeField(mem[HeaderPtr(bp)]) > 0
        invariant bp - 4 in mem && heapListp <= bp && complaints >= 0
        invariant bp == heapListp ==> count == 0 && seen == map[]
        invariant complaints == 0 ==> StartsBelow(seen, brk)
        invariant bp != heapListp && complaints == 0 ==>
                    WalkedTo(mem, seen, base + 16, bp) && count == |FreeSet(seen)|
        invariant GoodWalk(mem, base, brk, tiling, end) ==>
                    complaints == 0 && (bp == heapListp || bp == end || bp in tiling)
        decreases |From(mem, bp - 4)|
      {
        if GoodWalk(mem, base, brk, tiling, end) {
          NotAtEnd(tiling, end, bp);
          GoodWalkStep(mem, base, brk, tiling, end, bp);
        }
        var c, f := CheckBlock(bp);
        if f {
          return complaints + c, true, count, bp, seen;
        }
        complaints := complaints + c;
        if complaints == 0 {
          CountOn(mem, base, brk, seen, bp);
        }
        if !AllocField(mem[HeaderPtr(bp)]) {
          count := count + 1;
        }
        if bp != heapListp {
          seen := seen[bp := Block(SizeField(mem[bp - 4]), AllocField(mem[bp - 4]))];
        }
        var next := NextBlkPtr(bp);
        if HeaderPtr(next) !in mem {
          return complaints, true, count, bp, seen;
        }
        FromShrinks(mem, bp - 4, next - 4);
        bp := next;
      }
      if GoodWalk(mem, base, brk, tiling, end) {
        OneWalk(mem, base, brk, seen, bp, tiling, end);
      }
    }

    lemma NotAtEnd(tiling: Blocks, end: int, bp: int)
      requires GoodWalk(mem, base, brk, tiling, end) && bp - 4 in mem && SizeField(mem[bp - 4]) > 0
      ensures bp != end
    {
    }

    /** check_one_list, on any memory where the walk from the head does not go round in
        circles: faulted if it comes to where there is nothing to read; otherwise the
        length of the list, and a complaint exactly if some node does not pass. */
    method CheckOneList(listIndex: int, ghost l: seq<int>, ghost stop: int)
        returns (listSize: nat, complaints: int, faulted: bool)
      requires 0 <= listIndex < NO_OF_SIZE_TYPE == |heads|
      requires SuccPath(mem, heads[listIndex], l, stop)
      ensures faulted <==> stop != NULL
      ensures complaints >= 0
      ensures !faulted ==> listSize == |l| && (complaints == 0 <==> ListPasses(mem, base, brk, listIndex, l))
    {
      hide SizeField, AllocField, GetPtr, ListIndexBySize;
      var bp := heads[listIndex];
      listSize, complaints, faulted := 0, 0, false;
      assert l != [] ==> SuccNode(mem, l[0], Follow(l, 0, stop));
      while bp != NULL
        invariant 0 <= listSize <= |l| && complaints >= 0
        invariant listSize < |l| ==> bp != NULL
        invariant bp == if listSize == |l| then stop else l[listSize]
        invariant complaints == 0 <==>
                    forall k {:trigger Follow(l, k, stop)} | 0 <= k < listSize ::
                      NodePasses(mem, base, brk, listIndex, l[k], Follow(l, k, stop))
        decreases |l| - listSize
      {
        ghost var k := listSize;
        assert k < |l| ==> SuccNode(mem, l[k], Follow(l, k, stop));
        if !NodeMapped(mem, bp) {
          return listSize, complaints, true;
        }
        assert k + 1 < |l| ==> SuccNode(mem, l[k + 1], Follow(l, k + 1, stop));
        listSize := listSize + 1;
        var next := GetPtr(mem, bp + 8);
        ghost var before := complaints;
        if next != NULL {
          if !LinkCells(mem, next) {
            return listSize, complaints, true;
          }
          if bp != GetPtr(mem, next) {
            complaints := complaints + 1;
          }
        }
        if !InHeap(bp) {
          complaints := complaints + 1;
        }
        if AllocField(mem[HeaderPtr(bp)]) {
          complaints := complaints + 1;
        }
        if ListIndexBySize(SizeField(mem[HeaderPtr(bp)])) != listIndex {
          complaints := complaints + 1;
        }
        assert complaints == before <==> NodePasses(mem, base, brk, listIndex, l[k], Follow(l, k, stop));
        bp := next;
      }
      SameLinks(l);
    }

    lemma SameLinks(l: seq<int>)
      ensures forall k {:trigger After(l, k)} {:trigger Follow(l, k, 0)} | 0 <= k < |l| ::
                After(l, k) == Follow(l, k, 0)
    {
    }

    /** mm_checkheap, on any memory where no list walk goes round in circles: it returns
        0 without a complaint exactly when all it looks at is as it should be, that is,
        when the words are the tags of some coalesced tiling with exact counts. */
    method CheckHeap(ghost nodes: seq<seq<int>>, ghost stops: seq<int>)
        returns (r: int, complaints: int, faulted: bool)
      requires Geometry(base, brk) && heapListp == base + DSIZE
      requires |heads| == |nodes| == |stops| == NO_OF_SIZE_TYPE
      requires forall i | 0 <= i < NO_OF_SIZE_TYPE :: SuccPath(mem, heads[i], nodes[i], stops[i])
      ensures r == 0 && complaints == 0 && !faulted <==>
                exists tiling, top :: Passed(mem, base, brk, heads, tiling, top, nodes)
      ensures r == 0 || r == 1
      ensures base + 4 in mem && (SizeField(mem[base + 4]) != 8 || !AllocField(mem[base + 4])) ==>
                r == 1 && complaints == 0 && !faulted
      ensures r == 1 && base + 4 in mem && SizeField(mem[base + 4]) == 8 && AllocField(mem[base + 4]) ==>
                exists a :: a in mem && SizeField(mem[a]) == 0 && !AllocField(mem[a])
    {
      hide SizeField, AllocField, Passed, WalkedTo, GoodWalk, Geometry, BlockPasses, FreeSet, SuccWalk, SuccPath,
           ListPasses, StartsBelow;
      complaints, faulted := 0, false;
      ghost var tiling: Blocks, end := map[], 0;
      ghost var good := exists b, t :: Passed(mem, base, brk, heads, b, t, nodes);
      if good {
        tiling, end :| Passed(mem, base, brk, heads, tiling, end, nodes);
        PassedParts(tiling, end, nodes);
        PrologueParts(tiling, end);
        GoodWalkStep(mem, base, brk, tiling, end, heapListp);
      }
      if HeaderPtr(heapListp) !in mem {
        return 0, complaints, true;
      }
      if SizeField(mem[HeaderPtr(heapListp)]) != DSIZE || !AllocField(mem[HeaderPtr(heapListp)]) {
        return 1, complaints, faulted;
      }
      var c;
      c, faulted := CheckBlock(heapListp);
      if faulted {
        return 0, c, true;
      }
      complaints := complaints + c;
      var bp, byHeap;
      ghost var seen;
      c, faulted, byHeap, bp, seen := CheckBlocks(tiling, end);
      complaints := complaints + c;
      if faulted {
        return 0, complaints, true;
      }
      if SizeField(mem[HeaderPtr(bp)]) != 0 || !AllocField(mem[HeaderPtr(bp)]) {
        return 1, complaints, faulted;
      }
      if complaints == 0 {
        WalkIsGood(seen, bp);
      }
      var byLists, i := 0, 0;
      while i < NO_OF_SIZE_TYPE
        invariant 0 <= i <= NO_OF_SIZE_TYPE && complaints >= 0
        invariant byLists == SumLengths(nodes[..i])
        invariant complaints == 0 ==> GoodWalk(mem, base, brk, seen, bp) && byHeap == |FreeSet(seen)|
        invariant complaints == 0 ==>
                    forall k | 0 <= k < i ::
                      SuccWalk(mem, heads[k], nodes[k]) && ListPasses(mem, base, brk, k, nodes[k])
        invariant good ==> complaints == 0
      {
        var n;
        PathToNull(mem, heads[i], nodes[i], stops[i]);
        n, c, faulted := CheckOneList(i, nodes[i], stops[i]);
        if faulted {
          return 0, complaints + c, true;
        }
        assert nodes[..i + 1][..i] == nodes[..i];
        byLists := byLists + n;
        complaints := complaints + c;
        i := i + 1;
      }
      assert nodes[..NO_OF_SIZE_TYPE] == nodes;
      if byHeap != byLists {
        complaints := complaints + 1;
      }
      if complaints == 0 {
        AllPassed(seen, bp, nodes);
      }
      faulted := false;
      r := 0;
    }

    lemma PassedParts(tiling: Blocks, end: int, nodes: seq<seq<int>>)
      requires Passed(mem, base, brk, heads, tiling, end, nodes)
      ensures GoodWalk(mem, base, brk, tiling, end) && |FreeSet(tiling)| == SumLengths(nodes)
      ensures |heads| == |nodes| == NO_OF_SIZE_TYPE
      ensures forall i | 0 <= i < NO_OF_SIZE_TYPE ::
                SuccWalk(mem, heads[i], nodes[i]) && ListPasses(mem, base, brk, i, nodes[i])
    {
    }

    lemma AllPassed(tiling: Blocks, end: int, nodes: seq<seq<int>>)
      requires GoodWalk(mem, base, brk, tiling, end) && |FreeSet(tiling)| == SumLengths(nodes)
      requires |heads| == |nodes| == NO_OF_SIZE_TYPE
      requires forall i | 0 <= i < NO_OF_SIZE_TYPE ::
                 SuccWalk(mem, heads[i], nodes[i]) && ListPasses(mem, base, brk, i, nodes[i])
      ensures Passed(mem, base, brk, heads, tiling, end, nodes)
    {
    }

    lemma PrologueParts(tiling: Blocks, end: int)
      requires GoodWalk(mem, base, brk, tiling, end)
      ensures base + 4 in mem && SizeField(mem[base + 4]) == DSIZE && AllocField(mem[base + 4])
      ensures end - 4 in mem && AllocField(mem[end - 4])
    {
    }

    lemma WalkIsGood(seen: Blocks, top: int)
      requires WalkedTo(mem, seen, base + 16, top) && StartsBelow(seen, brk)
      requires top - 4 in mem && SizeField(mem[top - 4]) == 0 && AllocField(mem[top - 4])
      requires base + 4 in mem && SizeField(mem[base + 4]) == DSIZE && AllocField(mem[base + 4])
      requires BlockPasses(mem, base, brk, base + DSIZE, true)
      ensures GoodWalk(mem, base, brk, seen, top)
    {
      hide AllocField, WalkedTo;
    }

    /** On a heap that keeps the invariant all that mm_checkheap looks at is as it should
        be. */
    lemma ValidPasses()
      requires Valid()
      ensures Geometry(base, brk) && Mapped(mem, base, brk) && heapListp == base + DSIZE
      ensures Passed(mem, base, brk, heads, blocks, brk, lists)
    {
      assert Geometry(base, brk) && Mapped(mem, base, brk);
      hide HeapOk, Passed, Unseen, Coalesced;
      PassedIsInvariant(mem, base, brk, heads, blocks, brk, lists);
    }

    /** mm_checkheap on a heap that keeps the invariant: every walk ends, and it returns 0
        without a complaint. */
    method CheckValidHeap() returns (r: int, complaints: int, faulted: bool)
      requires Valid()
      ensures r == 0 && complaints == 0 && !faulted
    {
      ValidPasses();
      ListsEnd();
      hide Valid, Passed, Geometry, SuccPath;
      r, complaints, faulted := CheckHeap(lists, seq(NO_OF_SIZE_TYPE, _ => NULL));
    }

    lemma ListsEnd()
      requires Passed(mem, base, brk, heads, blocks, brk, lists)
      ensures |heads| == |lists| == NO_OF_SIZE_TYPE
      ensures forall i | 0 <= i < NO_OF_SIZE_TYPE :: SuccPath(mem, heads[i], lists[i], NULL)
    {
      PassedParts(blocks, brk, lists);
      hide Passed, SuccPath, SuccWalk;
      forall i | 0 <= i < NO_OF_SIZE_TYPE ensures SuccPath(mem, heads[i], lists[i], NULL) {
        WalkIsPath(mem, heads[i], lists[i]);
      }
    }

    /** And a heap it has nothing to complain about keeps the invariant, as far as the
        three things go that it does not look at. */
    lemma PassedIsValid(seen: Blocks, top: int, nodes: seq<seq<int>>)
      requires Geometry(base, brk) && Mapped(mem, base, brk) && heapListp == base + DSIZE
      requires Passed(mem, base, brk, heads, seen, top, nodes)
      requires blocks == seen && lists == nodes
      ensures Valid() <==> Unseen(mem, brk, seen, top, nodes)
    {
      PassedIsInvariant(mem, base, brk, heads, seen, top, nodes);
      if Valid() {
        ValidPasses();
        assert GoodWalk(mem, base, brk, seen, top) && GoodWalk(mem, base, brk, seen, brk);
        hide HeapOk, Passed, Unseen, Coalesced, WalkedTo, SizeField, AllocField;
        OneWalk(mem, base, brk, seen, top, seen, brk);
      }
    }
  }
}
