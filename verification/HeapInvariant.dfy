/** Agreement of the two views of one memory: the tags of every block of the
    tiling and the links of every free list, and what each kind of store keeps. */
module HeapInvariant {
  import opened HeapWords
  import opened HeapTiling
  import opened FreeLists

  /** mem_sbrk never hands out more: sizes are kept in 32-bit words and int. */
  const MAX_HEAP := 0x7FFF_FFF8

  /** Header at p-4 and footer at p+size-8 agree with each other and with b. */
  predicate TagsOk(mem: Memory, p: int, b: Block) {
    && p - 4 in mem && p + b.size - 8 in mem
    && SizeField(mem[p - 4]) == b.size
    && AllocField(mem[p - 4]) == b.alloc
    && mem[p + b.size - 8] == mem[p - 4]
  }

  ghost predicate Tagged(mem: Memory, blocks: Blocks) {
    forall p | p in blocks :: TagsOk(mem, p, blocks[p])
  }

  predicate PrologueOk(mem: Memory, base: int) {
    && base + 4 in mem && base + 8 in mem
    && SizeField(mem[base + 4]) == 8 && AllocField(mem[base + 4])
    && mem[base + 8] == mem[base + 4]
  }

  predicate EpilogueOk(mem: Memory, brk: int) {
    && brk - 4 in mem
    && SizeField(mem[brk - 4]) == 0 && AllocField(mem[brk - 4])
  }

  ghost predicate Mapped(mem: Memory, base: int, brk: int) {
    forall a :: a in mem <==> base <= a < brk && a % 4 == 0
  }

  predicate Geometry(base: int, brk: int) {
    && 0 < base && base % 8 == 0 && brk % 8 == 0
    && base + 16 <= brk && brk - base <= MAX_HEAP
    && base + MAX_HEAP < POINTER_LIMIT
  }

  ghost predicate HeadsOk(heads: seq<int>, lists: seq<seq<int>>) {
    && |heads| == |lists| == NO_OF_SIZE_TYPE
    && (forall i | 0 <= i < NO_OF_SIZE_TYPE :: heads[i] == if lists[i] == [] then 0 else lists[i][0])
  }

  ghost predicate Chained(mem: Memory, lists: seq<seq<int>>) {
    && |lists| == NO_OF_SIZE_TYPE
    && (forall i | 0 <= i < NO_OF_SIZE_TYPE :: Chain(mem, lists[i]))
  }

  /** The invariant. Blocks in pending are free but on no list. */
  ghost predicate HeapOk(mem: Memory, base: int, brk: int, heads: seq<int>,
                         blocks: Blocks, lists: seq<seq<int>>, pending: set<int>) {
    && Geometry(base, brk)
    && Mapped(mem, base, brk) && PrologueOk(mem, base) && EpilogueOk(mem, brk)
    && Tiled(blocks, base + 16, brk) && Aligned(blocks)
    && Tagged(mem, blocks)
    && Listed(blocks, lists, pending)
    && HeadsOk(heads, lists) && Chained(mem, lists)
  }

  /** No word of a live block, header and footer included, has changed. */
  ghost predicate Untouched(mem: Memory, after: Memory, live: map<int, int>) {
    forall q, x | q in live && x in mem && q - 4 <= x < q + live[q] - 4 :: x in after && after[x] == mem[x]
  }

  // ---- which cells a block owns ----

  lemma TagCells(mem: Memory, base: int, brk: int, blocks: Blocks, p: int)
    requires Geometry(base, brk) && Mapped(mem, base, brk)
    requires Tiled(blocks, base + 16, brk) && Aligned(blocks)
    requires p in blocks
    ensures p - 4 in mem && p + blocks[p].size - 8 in mem && p + blocks[p].size - 4 in mem
    ensures base + 16 <= p && p + blocks[p].size <= brk && blocks[p].size >= MIN_BLK_SIZE
  {
    WordAligned(p, blocks[p].size);
  }

  lemma WordAligned(p: int, s: int)
    requires p % 8 == 0 && s % 8 == 0
    ensures (p - 4) % 4 == 0 && p % 4 == 0 && (p + 4) % 4 == 0 && (p + 8) % 4 == 0 && (p + 12) % 4 == 0
    ensures (p + s - 8) % 4 == 0 && (p + s - 4) % 4 == 0
    ensures (p + s) % 8 == 0
  {
    var a, b := p / 8, s / 8;
    assert p - 4 == 4 * (2 * a - 1) && p == 4 * (2 * a) && p + 4 == 4 * (2 * a + 1);
    assert p + 8 == 4 * (2 * a + 2) && p + 12 == 4 * (2 * a + 3);
    assert p + s - 8 == 4 * (2 * a + 2 * b - 2) && p + s - 4 == 4 * (2 * a + 2 * b - 1);
    assert p + s == 8 * (a + b);
  }

  lemma PayloadCells(mem: Memory, base: int, brk: int, blocks: Blocks, p: int)
    requires Geometry(base, brk) && Mapped(mem, base, brk)
    requires Tiled(blocks, base + 16, brk) && Aligned(blocks)
    requires p in blocks
    ensures LinkCells(mem, p)
    ensures 0 < p < POINTER_LIMIT
  {
    WordAligned(p, blocks[p].size);
  }

  // ---- storing in the payload of block p: links in a free block, data in a live one ----

  ghost predicate PayloadStore(mem: Memory, after: Memory, blocks: Blocks, p: int) {
    && p in blocks && after.Keys == mem.Keys
    && (forall x | x in mem && !(p <= x < p + blocks[p].size - 8) :: after[x] == mem[x])
  }

  lemma PtrStoreInPayload(mem: Memory, after: Memory, blocks: Blocks, p: int, a: int, v: int)
    requires p in blocks && (a == p || a == p + 8) && blocks[p].size >= MIN_BLK_SIZE
    requires PtrStored(mem, after, a, v)
    ensures PayloadStore(mem, after, blocks, p)
  {
    hide GetPtr;
  }

  lemma PayloadStoreKeepsTags(mem: Memory, after: Memory, base: int, brk: int, blocks: Blocks, p: int)
    requires Bounded(blocks, base + 16, brk) && Disjoint(blocks) && Tagged(mem, blocks)
    requires PayloadStore(mem, after, blocks, p)
    ensures Tagged(after, blocks)
  {
    hide SizeField, AllocField;
    forall q | q in blocks ensures TagsOk(after, q, blocks[q]) {
      assert TagsOk(mem, q, blocks[q]);
      assert q < p ==> q + blocks[q].size <= p;
      assert p < q ==> p + blocks[p].size <= q;
    }
  }

  lemma PayloadStoreKeepsEnds(mem: Memory, after: Memory, base: int, brk: int, blocks: Blocks, p: int)
    requires Bounded(blocks, base + 16, brk)
    requires PrologueOk(mem, base) && EpilogueOk(mem, brk)
    requires PayloadStore(mem, after, blocks, p)
    ensures PrologueOk(after, base) && EpilogueOk(after, brk)
  {
    hide SizeField, AllocField;
  }

  lemma PayloadStoreKeepsChain(mem: Memory, after: Memory, blocks: Blocks, p: int, l: seq<int>)
    requires Disjoint(blocks)
    requires forall q | q in blocks :: blocks[q].size >= MIN_BLK_SIZE
    requires PayloadStore(mem, after, blocks, p)
    requires Chain(mem, l) && p !in l
    requires forall k | 0 <= k < |l| :: l[k] in blocks
    ensures Chain(after, l)
  {
    hide Chain;
    forall k, x | 0 <= k < |l| && x in mem && l[k] <= x < l[k] + 16
      ensures x in after && after[x] == mem[x]
    {
      assert l[k] in blocks && l[k] != p;
    }
    ChainFrame(mem, after, l);
  }

  lemma PayloadStoreLeavesLive(mem: Memory, after: Memory, blocks: Blocks, p: int)
    requires Disjoint(blocks)
    requires forall q | q in blocks :: blocks[q].size >= MIN_BLK_SIZE
    requires PayloadStore(mem, after, blocks, p)
    ensures Untouched(mem, after, Live(blocks) - {p})
  {
  }

  lemma UntouchedTrans(m1: Memory, m2: Memory, m3: Memory, live: map<int, int>)
    requires Untouched(m1, m2, live) && Untouched(m2, m3, live)
    ensures Untouched(m1, m3, live)
  {
  }

  // ---- list_push_front ----

  lemma ListApart(blocks: Blocks, l: seq<int>)
    requires Disjoint(blocks)
    requires forall q | q in blocks :: blocks[q].size >= MIN_BLK_SIZE
    requires forall k | 0 <= k < |l| :: l[k] in blocks
    requires NoRepeats(l)
    ensures Apart(l)
  {
    forall j, k | 0 <= j < |l| && 0 <= k < |l| && j != k ensures NodesApart(l[j], l[k]) {
      assert l[j] in blocks && l[k] in blocks;
      if j < k { assert l[j] != l[k]; } else { assert l[k] != l[j]; }
    }
  }

  lemma MembersInBlocks(blocks: Blocks, lists: seq<seq<int>>, pending: set<int>, i: int)
    requires Listed(blocks, lists, pending)
    requires 0 <= i < NO_OF_SIZE_TYPE
    ensures forall k | 0 <= k < |lists[i]| ::
              lists[i][k] in blocks && !blocks[lists[i][k]].alloc && lists[i][k] !in pending
    ensures forall k | 0 <= k < |lists[i]| :: ListIndexBySize(blocks[lists[i][k]].size) == i
  {
    hide ListIndexBySize;
    forall k | 0 <= k < |lists[i]|
      ensures IsFree(blocks, lists[i][k]) && lists[i][k] !in pending && ListIndexBySize(blocks[lists[i][k]].size) == i
    {
    }
  }

  /** A block is on no list but the one of its class. */
  lemma OtherListsMiss(blocks: Blocks, lists: seq<seq<int>>, pending: set<int>, p: int, j: int)
    requires Listed(blocks, lists, pending)
    requires p in blocks && 0 <= j < NO_OF_SIZE_TYPE
    requires p in pending || blocks[p].alloc || j != ListIndexBySize(blocks[p].size)
    ensures p !in lists[j]
  {
    hide ListIndexBySize;
    MembersInBlocks(blocks, lists, pending, j);
  }

  /** The part of the invariant that does not mention the lists. */
  ghost predicate BodyOk(mem: Memory, base: int, brk: int, blocks: Blocks) {
    && Geometry(base, brk)
    && Mapped(mem, base, brk) && PrologueOk(mem, base) && EpilogueOk(mem, brk)
    && Tiled(blocks, base + 16, brk) && Aligned(blocks)
    && Tagged(mem, blocks)
  }

  lemma PayloadStoreBody(mem: Memory, after: Memory, base: int, brk: int, blocks: Blocks, p: int, a: int, v: int)
    requires BodyOk(mem, base, brk, blocks)
    requires IsFree(blocks, p) && (a == p || a == p + 8)
    requires PtrStored(mem, after, a, v)
    ensures BodyOk(after, base, brk, blocks)
    ensures PayloadStore(mem, after, blocks, p)
    ensures Untouched(mem, after, Live(blocks))
  {
    hide Linked, Aligned, Mapped, Geometry, PrologueOk, EpilogueOk, Tagged, PayloadStore, Untouched, Bounded, Disjoint;
    assert blocks[p].size >= MIN_BLK_SIZE by { BoundedSizes(blocks, base + 16, brk); }
    PtrStoreInPayload(mem, after, blocks, p, a, v);
    assert after.Keys == mem.Keys;
    MappedKeys(mem, after, base, brk);
    hide PtrStored;
    PayloadStoreKeepsTags(mem, after, base, brk, blocks, p);
    PayloadStoreKeepsEnds(mem, after, base, brk, blocks, p);
    BoundedSizes(blocks, base + 16, brk);
    PayloadStoreLeavesLive(mem, after, blocks, p);
    assert Live(blocks) - {p} == Live(blocks);
  }

  lemma BoundedSizes(blocks: Blocks, first: int, brk: int)
    requires Bounded(blocks, first, brk)
    ensures forall q | q in blocks :: blocks[q].size >= MIN_BLK_SIZE
  {
  }

  lemma MappedKeys(mem: Memory, after: Memory, base: int, brk: int)
    requires Mapped(mem, base, brk) && after.Keys == mem.Keys
    ensures Mapped(after, base, brk)
  {
    forall a ensures a in after <==> base <= a < brk && a % 4 == 0 {
      assert a in after <==> a in mem.Keys;
    }
  }

  lemma OtherChainsSurvive(mem: Memory, after: Memory, blocks: Blocks, first: int, brk: int,
                           lists: seq<seq<int>>, pending: set<int>, p: int, i: int)
    requires Bounded(blocks, first, brk) && Disjoint(blocks)
    requires Listed(blocks, lists, pending)
    requires PayloadStore(mem, after, blocks, p)
    requires i == ListIndexBySize(blocks[p].size)
    requires forall j | 0 <= j < NO_OF_SIZE_TYPE && j != i :: Chain(mem, lists[j])
    ensures forall j | 0 <= j < NO_OF_SIZE_TYPE && j != i :: Chain(after, lists[j])
  {
    assert p in blocks;
    hide ListIndexBySize, Chain, PayloadStore, Members, Complete, Disjoint;
    BoundedSizes(blocks, first, brk);
    forall j | 0 <= j < NO_OF_SIZE_TYPE && j != i ensures Chain(after, lists[j]) {
      MembersInBlocks(blocks, lists, pending, j);
      OtherListsMiss(blocks, lists, pending, p, j);
      PayloadStoreKeepsChain(mem, after, blocks, p, lists[j]);
    }
  }

  lemma HeapParts(mem: Memory, base: int, brk: int, heads: seq<int>,
                  blocks: Blocks, lists: seq<seq<int>>, pending: set<int>)
    ensures HeapOk(mem, base, brk, heads, blocks, lists, pending)
       <==> BodyOk(mem, base, brk, blocks) && Listed(blocks, lists, pending)
            && HeadsOk(heads, lists) && Chained(mem, lists)
  {
  }

  /** The list's own chain, and the nodes it may be joined with. */
  lemma OwnList(base: int, brk: int, blocks: Blocks, lists: seq<seq<int>>, pending: set<int>, i: int)
    requires Tiled(blocks, base + 16, brk)
    requires Listed(blocks, lists, pending)
    requires 0 <= i < NO_OF_SIZE_TYPE
    ensures Apart(lists[i])
    ensures forall k | 0 <= k < |lists[i]| :: IsFree(blocks, lists[i][k]) && lists[i][k] !in pending
    ensures forall k | 0 <= k < |lists[i]| :: ListIndexBySize(blocks[lists[i][k]].size) == i
  {
    hide ListIndexBySize, Members, Complete, NoRepeats, Apart, Disjoint, Linked;
    MembersInBlocks(blocks, lists, pending, i);
    BoundedSizes(blocks, base + 16, brk);
    ListApart(blocks, lists[i]);
  }

  lemma PushApart(base: int, brk: int, blocks: Blocks, lists: seq<seq<int>>, pending: set<int>, i: int, p: int)
    requires Tiled(blocks, base + 16, brk)
    requires Listed(blocks, lists, pending)
    requires 0 <= i < NO_OF_SIZE_TYPE
    requires p in blocks && p in pending
    ensures Apart([p] + lists[i])
  {
    hide ListIndexBySize, Complete, Apart, Disjoint, Linked;
    MembersInBlocks(blocks, lists, pending, i);
    BoundedSizes(blocks, base + 16, brk);
    var l := [p] + lists[i];
    assert NoRepeats(lists[i]);
    assert NoRepeats(l);
    ListApart(blocks, l);
  }

  lemma PushOk(mem: Memory, m1: Memory, m2: Memory, after: Memory, base: int, brk: int, heads: seq<int>,
               blocks: Blocks, lists: seq<seq<int>>, pending: set<int>, p: int, i: int)
    requires HeapOk(mem, base, brk, heads, blocks, lists, pending)
    requires IsFree(blocks, p) && p in pending && p != 0
    requires i == ListIndexBySize(blocks[p].size)
    requires PushStores(mem, m1, m2, after, lists[i], p)
    ensures HeapOk(after, base, brk, heads[i := p], blocks, lists[i := [p] + lists[i]], pending - {p})
    ensures Untouched(mem, after, Live(blocks))
  {
    hide ListIndexBySize, Chain, BodyOk, Apart, PtrStored, PayloadStore, Untouched, Live, Listed;
    var l := lists[i];
    HeapParts(mem, base, brk, heads, blocks, lists, pending);
    assert Tiled(blocks, base + 16, brk) && Bounded(blocks, base + 16, brk) && Disjoint(blocks) && Chained(mem, lists);
    hide HeapOk, Tiled, Bounded, Disjoint;
    OwnList(base, brk, blocks, lists, pending, i);
    PushApart(base, brk, blocks, lists, pending, i, p);
    PayloadStoreBody(mem, m1, base, brk, blocks, p, p, 0);
    OtherChainsSurvive(mem, m1, blocks, base + 16, brk, lists, pending, p, i);
    if l != [] {
      PayloadStoreBody(m1, m2, base, brk, blocks, l[0], l[0], p);
      OtherChainsSurvive(m1, m2, blocks, base + 16, brk, lists, pending, l[0], i);
      UntouchedTrans(mem, m1, m2, Live(blocks));
    }
    PayloadStoreBody(m2, after, base, brk, blocks, p, p + 8, if l == [] then 0 else l[0]);
    OtherChainsSurvive(m2, after, blocks, base + 16, brk, lists, pending, p, i);
    UntouchedTrans(mem, m2, after, Live(blocks));
    ChainPush(mem, m1, m2, after, l, p);
    PushListed(blocks, lists, pending, p);
    HeapParts(after, base, brk, heads[i := p], blocks, lists[i := [p] + l], pending - {p});
  }

  lemma RemoveOk(mem: Memory, m1: Memory, after: Memory, base: int, brk: int, heads: seq<int>, newHeads: seq<int>,
                 blocks: Blocks, lists: seq<seq<int>>, pending: set<int>, p: int, i: int, k: int)
    requires HeapOk(mem, base, brk, heads, blocks, lists, pending)
    requires IsFree(blocks, p)
    requires i == ListIndexBySize(blocks[p].size)
    requires 0 <= k < |lists[i]| && lists[i][k] == p
    requires RemoveStores(mem, m1, after, lists[i], k)
    requires newHeads == if k == 0 then heads[i := After(lists[i], 0)] else heads
    ensures HeapOk(after, base, brk, newHeads, blocks, lists[i := WithoutAt(lists[i], k)], pending + {p})
    ensures Untouched(mem, after, Live(blocks))
  {
    hide ListIndexBySize, Chain, BodyOk, Apart, PtrStored, PayloadStore, Untouched, Live, Listed;
    var l := lists[i];
    HeapParts(mem, base, brk, heads, blocks, lists, pending);
    assert Tiled(blocks, base + 16, brk) && Bounded(blocks, base + 16, brk) && Disjoint(blocks) && Chained(mem, lists);
    hide HeapOk, Tiled, Bounded, Disjoint;
    OwnList(base, brk, blocks, lists, pending, i);
    if k + 1 < |l| {
      PayloadStoreBody(mem, m1, base, brk, blocks, l[k + 1], l[k + 1], Before(l, k));
      OtherChainsSurvive(mem, m1, blocks, base + 16, brk, lists, pending, l[k + 1], i);
    } else {
      UntouchedRefl(mem, Live(blocks));
    }
    if k > 0 {
      PayloadStoreBody(m1, after, base, brk, blocks, l[k - 1], l[k - 1] + 8, After(l, k));
      OtherChainsSurvive(m1, after, blocks, base + 16, brk, lists, pending, l[k - 1], i);
      UntouchedTrans(mem, m1, after, Live(blocks));
    }
    ChainRemove(mem, m1, after, l, k);
    RemoveListed(blocks, lists, pending, i, k);
    assert WithoutAt(l, k) != [] ==> WithoutAt(l, k)[0] == if k == 0 then l[1] else l[0];
    assert HeadsOk(newHeads, lists[i := WithoutAt(l, k)]);
    HeapParts(after, base, brk, newHeads, blocks, lists[i := WithoutAt(l, k)], pending + {p});
  }

  lemma UntouchedRefl(mem: Memory, live: map<int, int>)
    ensures Untouched(mem, mem, live)
  {
  }

  // ---- storing the two tags of one block ----

  /** after is mem with header and footer of p set to size and alloc. */
  ghost predicate TagStore(mem: Memory, after: Memory, p: int, size: int, alloc: bool) {
    && after.Keys == mem.Keys
    && TagsOk(after, p, Block(size, alloc))
    && (forall x | x in mem && x != p - 4 && x != p + size - 8 :: after[x] == mem[x])
  }

  /** changed differs from blocks at p, and otherwise may only have lost blocks. */
  ghost predicate OnlyAt(blocks: Blocks, changed: Blocks, p: int) {
    && p in changed
    && (forall q | q in changed && q != p :: q in blocks && changed[q] == blocks[q])
  }

  lemma TagStoreTags(mem: Memory, after: Memory, blocks: Blocks, changed: Blocks, p: int)
    requires Tagged(mem, blocks)
    requires OnlyAt(blocks, changed, p) && Disjoint(changed)
    requires forall q | q in changed :: changed[q].size >= MIN_BLK_SIZE
    requires TagStore(mem, after, p, changed[p].size, changed[p].alloc)
    ensures Tagged(after, changed)
  {
    hide SizeField, AllocField;
    forall q | q in changed ensures TagsOk(after, q, changed[q]) {
      if q != p {
        assert TagsOk(mem, q, blocks[q]);
        assert q < p ==> q + changed[q].size <= p;
        assert p < q ==> p + changed[p].size <= q;
      }
    }
  }

  lemma TagStoreChain(mem: Memory, after: Memory, changed: Blocks, p: int, l: seq<int>)
    requires Disjoint(changed)
    requires forall q | q in changed :: changed[q].size >= MIN_BLK_SIZE
    requires p in changed && TagStore(mem, after, p, changed[p].size, changed[p].alloc)
    requires Chain(mem, l)
    requires forall k | 0 <= k < |l| :: l[k] in changed
    ensures Chain(after, l)
  {
    hide Chain, TagsOk;
    forall k, x | 0 <= k < |l| && x in mem && l[k] <= x < l[k] + 16
      ensures x in after && after[x] == mem[x]
    {
      var q := l[k];
      assert q in changed;
      assert x in after.Keys;
      assert x != p - 4 && x != p + changed[p].size - 8;
    }
    ChainFrame(mem, after, l);
  }

  lemma TagStoreChains(mem: Memory, after: Memory, changed: Blocks, p: int,
                       lists: seq<seq<int>>, pending: set<int>)
    requires Disjoint(changed)
    requires forall q | q in changed :: changed[q].size >= MIN_BLK_SIZE
    requires p in changed && TagStore(mem, after, p, changed[p].size, changed[p].alloc)
    requires Listed(changed, lists, pending) && Chained(mem, lists)
    ensures Chained(after, lists)
  {
    hide Chain, TagsOk, TagStore, Disjoint, Members, Complete, NoRepeats;
    forall i | 0 <= i < NO_OF_SIZE_TYPE ensures Chain(after, lists[i]) {
      MembersInBlocks(changed, lists, pending, i);
      TagStoreChain(mem, after, changed, p, lists[i]);
    }
  }

  lemma TagStoreEnds(mem: Memory, after: Memory, base: int, brk: int, p: int, size: int, alloc: bool)
    requires PrologueOk(mem, base) && EpilogueOk(mem, brk)
    requires TagStore(mem, after, p, size, alloc)
    requires base + 16 <= p && size >= MIN_BLK_SIZE && p + size <= brk
    ensures PrologueOk(after, base) && EpilogueOk(after, brk)
  {
    hide SizeField, AllocField, TagsOk;
    assert base + 4 in after.Keys && base + 8 in after.Keys && brk - 4 in after.Keys;
  }

  /** Live blocks other than p, all disjoint from p's new extent, keep every word. */
  lemma TagStoreLeavesLive(mem: Memory, after: Memory, changed: Blocks, p: int, live: map<int, int>)
    requires Disjoint(changed)
    requires p in changed && changed[p].size >= MIN_BLK_SIZE
    requires TagStore(mem, after, p, changed[p].size, changed[p].alloc)
    requires forall q | q in live :: q != p && q in changed && live[q] == changed[q].size
    ensures Untouched(mem, after, live)
  {
    hide TagsOk;
    forall q, x | q in live && x in mem && q - 4 <= x < q + live[q] - 4
      ensures x in after && after[x] == mem[x]
    {
      assert q != p && q in changed;
      assert x in after.Keys;
    }
  }

  /** Same free, listed blocks before and after: the same lists are right. */
  ghost predicate SameListedBlocks(blocks: Blocks, changed: Blocks, pending: set<int>, newPending: set<int>) {
    && (forall p | IsFree(blocks, p) && p !in pending :: p in changed && changed[p] == blocks[p] && p !in newPending)
    && (forall p | IsFree(changed, p) && p !in newPending :: p in blocks && changed[p] == blocks[p] && p !in pending)
  }

  lemma ListedSame(blocks: Blocks, changed: Blocks, lists: seq<seq<int>>, pending: set<int>, newPending: set<int>)
    requires Listed(blocks, lists, pending)
    requires SameListedBlocks(blocks, changed, pending, newPending)
    ensures Listed(changed, lists, newPending)
  {
    hide ListIndexBySize, NoRepeats;
    assert Members(changed, lists, newPending);
    forall p | IsFree(changed, p) && p !in newPending ensures p in lists[ListIndexBySize(changed[p].size)] {
      assert IsFree(blocks, p) && p !in pending;
    }
  }

  /** One block changes its tags, perhaps swallowing others: the step behind
      free, coalesce and the unsplit place. */
  lemma RetagOk(mem: Memory, after: Memory, base: int, brk: int, heads: seq<int>, blocks: Blocks, changed: Blocks,
                lists: seq<seq<int>>, pending: set<int>, newPending: set<int>, p: int)
    requires HeapOk(mem, base, brk, heads, blocks, lists, pending)
    requires OnlyAt(blocks, changed, p)
    requires Tiled(changed, base + 16, brk) && Aligned(changed)
    requires TagStore(mem, after, p, changed[p].size, changed[p].alloc)
    requires SameListedBlocks(blocks, changed, pending, newPending)
    ensures HeapOk(after, base, brk, heads, changed, lists, newPending)
  {
    hide ListIndexBySize, Chain, Geometry, Linked, Aligned, Listed, TagsOk, PrologueOk, EpilogueOk;
    BoundedSizes(changed, base + 16, brk);
    MappedKeys(mem, after, base, brk);
    hide Mapped;
    TagStoreTags(mem, after, blocks, changed, p);
    TagStoreEnds(mem, after, base, brk, p, changed[p].size, changed[p].alloc);
    ListedSame(blocks, changed, lists, pending, newPending);
    TagStoreChains(mem, after, changed, p, lists, newPending);
  }

  // ---- place, splitting ----

  lemma SplitOk(mem: Memory, m1: Memory, after: Memory, base: int, brk: int, heads: seq<int>, blocks: Blocks,
                lists: seq<seq<int>>, pending: set<int>, p: int, a: int)
    requires HeapOk(mem, base, brk, heads, blocks, lists, pending)
    requires p in pending && IsFree(blocks, p)
    requires a % 8 == 0 && a >= MIN_BLK_SIZE && blocks[p].size - a >= MIN_BLK_SIZE
    requires TagStore(mem, m1, p, a, true)
    requires TagStore(m1, after, p + a, blocks[p].size - a, false)
    ensures p + a !in blocks
    ensures HeapOk(after, base, brk, heads, SplitAt(blocks, p, a), lists, pending - {p} + {p + a})
    ensures Untouched(mem, after, Live(blocks))
  {
    SplitShape(blocks, base + 16, brk, p, a);
    SplitTags(mem, m1, after, base, brk, blocks, p, a);
    MappedKeys(mem, m1, base, brk);
    MappedKeys(m1, after, base, brk);
    var changed := SplitAt(blocks, p, a);
    var newPending := pending - {p} + {p + a};
    SplitListed(blocks, p, a, pending);
    hide Geometry, Tiled, Aligned, Tagged, PrologueOk, EpilogueOk, Listed, Chained, Mapped, HeadsOk, SplitAt, TagStore,
         SameListedBlocks, Untouched, Live;
    ListedSame(blocks, changed, lists, pending, newPending);
    SplitLinks(mem, m1, after, base, brk, blocks, lists, newPending, p, a);
    SplitLeaves(mem, m1, after, base, brk, blocks, p, a);
  }

  lemma SplitShape(blocks: Blocks, first: int, brk: int, p: int, a: int)
    requires Tiled(blocks, first, brk) && Aligned(blocks) && p in blocks
    requires a % 8 == 0 && a >= MIN_BLK_SIZE && blocks[p].size - a >= MIN_BLK_SIZE
    ensures p + a !in blocks
    ensures Tiled(SplitAt(blocks, p, a), first, brk) && Aligned(SplitAt(blocks, p, a))
  {
    SplitTiled(blocks, first, brk, p, a);
    SplitLinked(blocks, first, brk, p, a);
    SplitAligned(blocks, p, a);
    hide Tiled, Aligned, SplitAt;
  }

  /** What the lemmas about single tag stores ask of a tiling. */
  lemma SplitSizes(blocks: Blocks, first: int, brk: int, p: int, a: int)
    requires Tiled(blocks, first, brk) && Aligned(blocks) && p in blocks
    requires a % 8 == 0 && a >= MIN_BLK_SIZE && blocks[p].size - a >= MIN_BLK_SIZE
    ensures var half, changed := blocks[p := Block(a, true)], SplitAt(blocks, p, a);
            && Disjoint(changed) && Disjoint(half) && Disjoint(blocks)
            && (forall q | q in blocks :: blocks[q].size >= MIN_BLK_SIZE)
            && (forall q | q in changed :: changed[q].size >= MIN_BLK_SIZE)
            && OnlyAt(blocks, half, p) && OnlyAt(half, changed, p + a) && p + a !in blocks
            && changed[p + a] == Block(blocks[p].size - a, false) && changed[p] == Block(a, true)
            && first <= p && p + blocks[p].size <= brk
  {
    SplitShape(blocks, first, brk, p, a);
    var changed := SplitAt(blocks, p, a);
    assert Bounded(changed, first, brk) && Bounded(blocks, first, brk);
    BoundedSizes(blocks, first, brk);
    BoundedSizes(changed, first, brk);
    SplitHalf(blocks, p, a);
    hide Disjoint, Linked, Aligned, SplitAt, OnlyAt;
  }

  lemma SplitTags(mem: Memory, m1: Memory, after: Memory, base: int, brk: int, blocks: Blocks, p: int, a: int)
    requires Tiled(blocks, base + 16, brk) && Aligned(blocks) && Tagged(mem, blocks)
    requires PrologueOk(mem, base) && EpilogueOk(mem, brk) && p in blocks
    requires a % 8 == 0 && a >= MIN_BLK_SIZE && blocks[p].size - a >= MIN_BLK_SIZE
    requires TagStore(mem, m1, p, a, true)
    requires TagStore(m1, after, p + a, blocks[p].size - a, false)
    ensures Tagged(after, SplitAt(blocks, p, a)) && PrologueOk(after, base) && EpilogueOk(after, brk)
  {
    SplitSizes(blocks, base + 16, brk, p, a);
    hide Tiled, Aligned, Tagged, PrologueOk, EpilogueOk, SplitAt, Disjoint, TagStore;
    var half, changed := blocks[p := Block(a, true)], SplitAt(blocks, p, a);
    TagStoreTags(mem, m1, blocks, half, p);
    TagStoreEnds(mem, m1, base, brk, p, a, true);
    TagStoreTags(m1, after, half, changed, p + a);
    TagStoreEnds(m1, after, base, brk, p + a, blocks[p].size - a, false);
  }

  lemma SplitLinks(mem: Memory, m1: Memory, after: Memory, base: int, brk: int, blocks: Blocks,
                   lists: seq<seq<int>>, newPending: set<int>, p: int, a: int)
    requires Tiled(blocks, base + 16, brk) && Aligned(blocks) && p in blocks
    requires a % 8 == 0 && a >= MIN_BLK_SIZE && blocks[p].size - a >= MIN_BLK_SIZE
    requires TagStore(mem, m1, p, a, true)
    requires TagStore(m1, after, p + a, blocks[p].size - a, false)
    requires Listed(SplitAt(blocks, p, a), lists, newPending) && p + a in newPending && Chained(mem, lists)
    ensures Chained(after, lists)
  {
    SplitSizes(blocks, base + 16, brk, p, a);
    hide Tiled, Aligned, SplitAt, Disjoint, TagStore, Listed, Chained;
    var half, changed := blocks[p := Block(a, true)], SplitAt(blocks, p, a);
    SplitChains(mem, m1, after, half, changed, lists, newPending, p, a);
  }

  lemma SplitLeaves(mem: Memory, m1: Memory, after: Memory, base: int, brk: int, blocks: Blocks, p: int, a: int)
    requires Tiled(blocks, base + 16, brk) && Aligned(blocks) && IsFree(blocks, p)
    requires a % 8 == 0 && a >= MIN_BLK_SIZE && blocks[p].size - a >= MIN_BLK_SIZE
    requires TagStore(mem, m1, p, a, true)
    requires TagStore(m1, after, p + a, blocks[p].size - a, false)
    ensures Untouched(mem, after, Live(blocks))
  {
    SplitSizes(blocks, base + 16, brk, p, a);
    var half, changed := blocks[p := Block(a, true)], SplitAt(blocks, p, a);
    hide Tiled, Aligned, SplitAt, Disjoint, TagStore, Untouched;
    TagStoreLeavesLive(mem, m1, half, p, Live(blocks));
    TagStoreLeavesLive(m1, after, changed, p + a, Live(blocks));
    UntouchedTrans(mem, m1, after, Live(blocks));
  }

  lemma SplitHalf(blocks: Blocks, p: int, a: int)
    requires Disjoint(blocks) && p in blocks
    requires MIN_BLK_SIZE <= a < blocks[p].size && p + a !in blocks
    ensures var half := blocks[p := Block(a, true)];
            && Disjoint(half) && OnlyAt(blocks, half, p)
            && OnlyAt(half, SplitAt(blocks, p, a), p + a)
            && SplitAt(blocks, p, a)[p + a] == Block(blocks[p].size - a, false)
            && SplitAt(blocks, p, a)[p] == Block(a, true)
  {
  }

  lemma SplitListed(blocks: Blocks, p: int, a: int, pending: set<int>)
    requires p in pending && IsFree(blocks, p) && p + a !in blocks && a != 0
    ensures SameListedBlocks(blocks, SplitAt(blocks, p, a), pending, pending - {p} + {p + a})
  {
  }

  lemma SplitChains(mem: Memory, m1: Memory, after: Memory, half: Blocks, changed: Blocks,
                    lists: seq<seq<int>>, newPending: set<int>, p: int, a: int)
    requires Disjoint(changed) && Disjoint(half)
    requires OnlyAt(half, changed, p + a)
    requires forall q | q in changed :: changed[q].size >= MIN_BLK_SIZE
    requires forall q | q in half :: half[q].size >= MIN_BLK_SIZE
    requires p in half && TagStore(mem, m1, p, half[p].size, half[p].alloc)
    requires TagStore(m1, after, p + a, changed[p + a].size, changed[p + a].alloc)
    requires Listed(changed, lists, newPending) && p + a in newPending && Chained(mem, lists)
    ensures Chained(after, lists)
  {
    hide Chain, TagsOk, TagStore, Disjoint, Members, Complete, NoRepeats;
    forall i | 0 <= i < NO_OF_SIZE_TYPE ensures Chain(after, lists[i]) {
      MembersInBlocks(changed, lists, newPending, i);
      forall k | 0 <= k < |lists[i]| ensures lists[i][k] in half {
        var q := lists[i][k];
        assert q in changed && q !in newPending;
        assert q != p + a;
        assert q in half;
      }
      TagStoreChain(mem, m1, half, p, lists[i]);
      TagStoreChain(m1, after, changed, p + a, lists[i]);
    }
  }

  // ---- extend_heap ----

  /** mem_sbrk keeps the old words and maps the new ones, whatever they hold. */
  ghost predicate Grown(mem: Memory, grown: Memory) {
    forall a | a in mem :: a in grown && grown[a] == mem[a]
  }

  lemma ExtendOk(mem: Memory, grown: Memory, tagged: Memory, after: Memory, base: int, brk: int, size: int,
                 heads: seq<int>, blocks: Blocks, lists: seq<seq<int>>)
    requires HeapOk(mem, base, brk, heads, blocks, lists, {})
    requires size % 8 == 0 && size >= MIN_BLK_SIZE && Geometry(base, brk + size)
    requires Mapped(grown, base, brk + size) && Grown(mem, grown)
    requires TagStore(grown, tagged, brk, size, false)
    requires after.Keys == tagged.Keys && EpilogueOk(after, brk + size)
    requires forall x | x in tagged && x != brk + size - 4 :: after[x] == tagged[x]
    ensures brk !in blocks
    ensures HeapOk(after, base, brk + size, heads, blocks[brk := Block(size, false)], lists, {brk})
    ensures Untouched(mem, after, Live(blocks))
  {
    var changed := blocks[brk := Block(size, false)];
    assert tagged.Keys == grown.Keys;
    hide ListIndexBySize, Chain, Geometry, Linked, Aligned, Listed, TagsOk, PrologueOk, EpilogueOk, Disjoint, Live,
         TagStore;
    ExtendTiled(blocks, base + 16, brk, size);
    MappedKeys(grown, tagged, base, brk + size);
    MappedKeys(tagged, after, base, brk + size);
    hide Mapped;
    ExtendAgrees(mem, grown, tagged, after, brk, size);
    ExtendListed(blocks, lists, brk);
    ExtendAligned(blocks, base, brk, size);
    hide Grown;
    ExtendPrologue(mem, after, base, brk);
    ExtendTags(mem, after, blocks, brk, size, base);
    ExtendChains(mem, after, blocks, base, brk, lists);
    ExtendLeavesLive(mem, after, blocks, base, brk);
  }

  lemma ExtendListed(blocks: Blocks, lists: seq<seq<int>>, brk: int)
    requires Listed(blocks, lists, {}) && brk !in blocks
    ensures forall size :: Listed(blocks[brk := Block(size, false)], lists, {brk})
  {
    hide Listed;
    forall size ensures Listed(blocks[brk := Block(size, false)], lists, {brk}) {
      assert SameListedBlocks(blocks, blocks[brk := Block(size, false)], {}, {brk});
      ListedSame(blocks, blocks[brk := Block(size, false)], lists, {}, {brk});
    }
  }

  lemma ExtendAligned(blocks: Blocks, base: int, brk: int, size: int)
    requires Aligned(blocks) && Geometry(base, brk) && size % 8 == 0
    ensures Aligned(blocks[brk := Block(size, false)])
  {
  }

  lemma ExtendPrologue(mem: Memory, after: Memory, base: int, brk: int)
    requires PrologueOk(mem, base) && EpilogueOk(mem, brk) && Geometry(base, brk)
    requires forall x | x in mem && x < brk - 4 :: x in after && after[x] == mem[x]
    ensures PrologueOk(after, base)
  {
    hide SizeField, AllocField;
    assert base + 4 < brk - 4 && base + 8 < brk - 4;
  }

  lemma ExtendAgrees(mem: Memory, grown: Memory, tagged: Memory, after: Memory, brk: int, size: int)
    requires Grown(mem, grown)
    requires TagStore(grown, tagged, brk, size, false)
    requires size >= MIN_BLK_SIZE
    requires after.Keys == tagged.Keys
    requires forall x | x in tagged && x != brk + size - 4 :: after[x] == tagged[x]
    ensures forall x | x in mem && x < brk - 4 :: x in after && after[x] == mem[x]
    ensures TagsOk(after, brk, Block(size, false))
  {
    hide SizeField, AllocField;
    forall x | x in mem && x < brk - 4 ensures x in after && after[x] == mem[x] {
      assert x in grown.Keys;
      assert x in tagged.Keys;
      assert x in after.Keys;
    }
    assert brk - 4 in after.Keys && brk + size - 8 in after.Keys;
  }

  lemma ExtendTags(mem: Memory, after: Memory, blocks: Blocks, brk: int, size: int, base: int)
    requires Tagged(mem, blocks) && Bounded(blocks, base + 16, brk)
    requires forall x | x in mem && x < brk - 4 :: x in after && after[x] == mem[x]
    requires TagsOk(after, brk, Block(size, false))
    ensures Tagged(after, blocks[brk := Block(size, false)])
  {
    hide SizeField, AllocField;
    var changed := blocks[brk := Block(size, false)];
    forall q | q in changed ensures TagsOk(after, q, changed[q]) {
      if q != brk { assert TagsOk(mem, q, blocks[q]); }
    }
  }

  lemma ExtendChains(mem: Memory, after: Memory, blocks: Blocks, base: int, brk: int, lists: seq<seq<int>>)
    requires Bounded(blocks, base + 16, brk)
    requires forall x | x in mem && x < brk - 4 :: x in after && after[x] == mem[x]
    requires Listed(blocks, lists, {}) && Chained(mem, lists)
    ensures Chained(after, lists)
  {
    hide Chain, Members, Complete, NoRepeats;
    forall i | 0 <= i < NO_OF_SIZE_TYPE ensures Chain(after, lists[i]) {
      MembersInBlocks(blocks, lists, {}, i);
      ChainFrame(mem, after, lists[i]);
    }
  }

  lemma ExtendLeavesLive(mem: Memory, after: Memory, blocks: Blocks, base: int, brk: int)
    requires Bounded(blocks, base + 16, brk)
    requires forall x | x in mem && x < brk - 4 :: x in after && after[x] == mem[x]
    ensures Untouched(mem, after, Live(blocks))
  {
  }

  // ---- coalesce ----

  /** What coalesce reads at bp+size-4 and, through the footer at bp-8, about the
      block before bp: prologue and epilogue stand in as allocated neighbours. */
  lemma RightNeighbourTag(mem: Memory, base: int, brk: int, blocks: Blocks, p: int)
    requires BodyOk(mem, base, brk, blocks) && p in blocks
    ensures var n := p + blocks[p].size;
            && n - 4 in mem
            && (n == brk ==> AllocField(mem[n - 4]))
            && (n != brk ==> n in blocks && TagsOk(mem, n, blocks[n]))
  {
    hide SizeField, AllocField, Disjoint;
  }

  lemma LeftNeighbourTag(mem: Memory, base: int, brk: int, blocks: Blocks, p: int) returns (l: int)
    requires BodyOk(mem, base, brk, blocks) && p in blocks
    ensures p - 8 in mem && l == p - SizeField(mem[p - 8])
    ensures l - 4 in mem && l + SizeField(mem[l - 4]) - 8 == p - 8
    ensures if p == base + 16 then AllocField(mem[p - 8]) && l == base + 8
            else l in blocks && l + blocks[l].size == p && TagsOk(mem, l, blocks[l])
  {
    hide SizeField, AllocField, Mapped, Geometry, Aligned;
    if p == base + 16 {
      l := base + 8;
    } else {
      l := LeftNeighbour(blocks, base + 16, brk, base + 16, p);
      assert TagsOk(mem, l, blocks[l]);
    }
  }

  /** changed is blocks with the pending free blocks, and no others, joined into
      the free block r. */
  ghost predicate Absorbs(blocks: Blocks, changed: Blocks, pending: set<int>, r: int) {
    && OnlyAt(blocks, changed, r) && IsFree(changed, r)
    && (forall q | q in blocks && (q !in changed || q == r) :: IsFree(blocks, q) && q in pending)
    && (forall q | q in pending && q in changed :: q == r)
  }

  lemma AbsorbOk(mem: Memory, after: Memory, base: int, brk: int, heads: seq<int>, blocks: Blocks, changed: Blocks,
                 lists: seq<seq<int>>, pending: set<int>, r: int)
    requires HeapOk(mem, base, brk, heads, blocks, lists, pending)
    requires Absorbs(blocks, changed, pending, r)
    requires Tiled(changed, base + 16, brk) && Aligned(changed)
    requires TagStore(mem, after, r, changed[r].size, false)
    ensures HeapOk(after, base, brk, heads, changed, lists, {r})
    ensures Live(changed) == Live(blocks)
    ensures Untouched(mem, after, Live(blocks))
  {
    AbsorbLive(blocks, changed, pending, r);
    hide HeapOk, Tagged, Listed, Aligned, Linked, TagStore, Live;
    RetagOk(mem, after, base, brk, heads, blocks, changed, lists, pending, {r}, r);
    assert Disjoint(changed) && Bounded(changed, base + 16, brk);
    LiveSizes(changed);
    TagStoreLeavesLive(mem, after, changed, r, Live(blocks));
  }

  lemma AbsorbLive(blocks: Blocks, changed: Blocks, pending: set<int>, r: int)
    requires Absorbs(blocks, changed, pending, r)
    ensures Live(changed) == Live(blocks)
    ensures r !in Live(blocks)
    ensures SameListedBlocks(blocks, changed, pending, {r})
  {
    LiveSizes(blocks);
    LiveSizes(changed);
    hide Live;
    forall q ensures q in Live(changed) <==> q in Live(blocks) {
      if q in Live(blocks) { assert q in changed && q != r; }
    }
    assert forall q | q in Live(blocks) :: Live(changed)[q] == Live(blocks)[q];
  }

  lemma LiveSizes(blocks: Blocks)
    ensures forall q | q in Live(blocks) :: q in blocks && blocks[q].alloc && Live(blocks)[q] == blocks[q].size
    ensures forall q | q in blocks && blocks[q].alloc :: q in Live(blocks)
  {
  }

  /** Joining a free block to its right neighbour. */
  lemma MergeRight(blocks: Blocks, first: int, brk: int, p: int)
    requires Tiled(blocks, first, brk) && Aligned(blocks)
    requires IsFree(blocks, p) && IsFree(blocks, p + blocks[p].size)
    ensures var changed := Merged(blocks, p);
            && Tiled(changed, first, brk) && Aligned(changed)
            && Absorbs(blocks, changed, {p, p + blocks[p].size}, p)
            && changed[p].size == blocks[p].size + blocks[p + blocks[p].size].size
            && p + blocks[p].size !in changed
  {
    MergeTiled(blocks, first, brk, p);
    assert blocks[p].size != 0;
    hide Tiled, Aligned;
  }

  /** Joining three blocks is two joins, the right pair first. */
  lemma MergeBothSides(blocks: Blocks, first: int, brk: int, l: int, p: int)
    requires Tiled(blocks, first, brk) && Aligned(blocks)
    requires IsFree(blocks, l) && l + blocks[l].size == p
    requires IsFree(blocks, p) && IsFree(blocks, p + blocks[p].size)
    ensures Next(Merged(blocks, p), l) in Merged(blocks, p)
    ensures var changed := Merged(Merged(blocks, p), l);
            && Tiled(changed, first, brk) && Aligned(changed)
            && Absorbs(blocks, changed, {p, p + blocks[p].size, l}, l)
            && changed[l].size == blocks[l].size + blocks[p].size + blocks[p + blocks[p].size].size
            && p !in changed
  {
    var n := p + blocks[p].size;
    MergeRight(blocks, first, brk, p);
    MergeApart(blocks, first, brk, l, p);
    var once := Merged(blocks, p);
    MergeRight(once, first, brk, l);
    var changed := Merged(once, l);
    MergeTwice(blocks, once, changed, l, p, n);
    hide Tiled, Aligned, Merged, Absorbs;
  }

  lemma MergeApart(blocks: Blocks, first: int, brk: int, l: int, p: int)
    requires Tiled(blocks, first, brk)
    requires l in blocks && l + blocks[l].size == p && p in blocks && p + blocks[p].size in blocks
    ensures var once := Merged(blocks, p);
            && l in once && once[l] == blocks[l]
            && p in once && once[p].size == blocks[p].size + blocks[p + blocks[p].size].size
    ensures l != p && l != p + blocks[p].size && p != p + blocks[p].size
  {
    assert Bounded(blocks, first, brk);
    hide Linked, Disjoint;
  }

  lemma MergeTwice(blocks: Blocks, once: Blocks, changed: Blocks, l: int, p: int, n: int)
    requires Absorbs(blocks, once, {p, n}, p) && Absorbs(once, changed, {l, p}, l)
    requires IsFree(blocks, l) && l in once && once[l] == blocks[l] && l != p && l != n
    requires n !in once && p !in changed
    ensures Absorbs(blocks, changed, {p, n, l}, l)
  {
    assert OnlyAt(blocks, changed, l);
    forall q | q in blocks && (q !in changed || q == l) ensures IsFree(blocks, q) && q in {p, n, l} {
      if q in once && q != p { assert once[q] == blocks[q]; }
    }
    assert n !in changed;
  }

  /** Once bp and its free neighbours are one block r with allocated neighbours,
      no two free blocks touch. */
  lemma AbsorbCoalesced(blocks: Blocks, changed: Blocks, bp: int, r: int)
    requires CoalescedExcept(blocks, bp)
    requires OnlyAt(blocks, changed, r)
    requires bp == r || bp !in changed
    requires r + changed[r].size in changed ==> changed[r + changed[r].size].alloc
    requires forall p | p in changed && p + changed[p].size == r :: changed[p].alloc
    ensures Coalesced(changed)
  {
  }

  /** The two words written for one block, in either order. */
  lemma WriteTags(mem: Memory, p: int, size: int, alloc: bool)
    requires 0 <= size < 0x8000_0000 && size % 8 == 0
    requires p - 4 in mem && p + size - 8 in mem
    ensures TagStore(mem, mem[p - 4 := Pack(size, alloc)][p + size - 8 := Pack(size, alloc)], p, size, alloc)
    ensures TagStore(mem, mem[p + size - 8 := Pack(size, alloc)][p - 4 := Pack(size, alloc)], p, size, alloc)
  {
    PackFields(size, alloc);
    hide Pack, SizeField, AllocField;
  }

  ghost predicate LeftAllocated(blocks: Blocks, p: int) {
    forall q | q in blocks && q + blocks[q].size == p :: blocks[q].alloc
  }

  lemma MergeRightCoalesced(blocks: Blocks, first: int, brk: int, p: int)
    requires Tiled(blocks, first, brk) && Aligned(blocks)
    requires IsFree(blocks, p) && IsFree(blocks, p + blocks[p].size)
    requires CoalescedExcept(blocks, p) && LeftAllocated(blocks, p)
    ensures Coalesced(Merged(blocks, p))
  {
    var n := p + blocks[p].size;
    var changed := Merged(blocks, p);
    MergeRight(blocks, first, brk, p);
    assert n in blocks && blocks[n].size > 0 && blocks[p].size > 0;
    hide Tiled, Aligned, Merged;
    var r := n + blocks[n].size;
    if r in changed { assert r in blocks && blocks[r].alloc; }
    forall q | q in changed && q + changed[q].size == p ensures changed[q].alloc {
      assert q != p;
    }
    AbsorbCoalesced(blocks, changed, p, p);
  }

  lemma MergeLeftCoalesced(blocks: Blocks, first: int, brk: int, l: int, p: int)
    requires Tiled(blocks, first, brk) && Aligned(blocks)
    requires IsFree(blocks, l) && l + blocks[l].size == p && IsFree(blocks, p)
    requires CoalescedExcept(blocks, p)
    requires !IsFree(blocks, p + blocks[p].size)
    ensures Coalesced(Merged(blocks, l))
  {
    var changed := Merged(blocks, l);
    MergeRight(blocks, first, brk, l);
    assert blocks[p].size > 0 && blocks[l].size > 0;
    hide Tiled, Aligned, Merged;
    forall q | q in changed && q + changed[q].size == l ensures changed[q].alloc {
      assert q in blocks && q != p && q != l;
    }
    AbsorbCoalesced(blocks, changed, p, l);
  }

  lemma MergeLeftSpec(blocks: Blocks, first: int, brk: int, l: int, p: int) returns (changed: Blocks)
    requires Tiled(blocks, first, brk) && Aligned(blocks)
    requires IsFree(blocks, l) && l + blocks[l].size == p && IsFree(blocks, p)
    requires CoalescedExcept(blocks, p)
    requires !IsFree(blocks, p + blocks[p].size)
    ensures Absorbs(blocks, changed, {l, p}, l) && IsFree(changed, l)
    ensures Tiled(changed, first, brk) && Aligned(changed) && Coalesced(changed)
    ensures changed[l].size == blocks[l].size + blocks[p].size
  {
    hide Tiled, Aligned, Coalesced, CoalescedExcept;
    MergeRight(blocks, first, brk, l);
    MergeLeftCoalesced(blocks, first, brk, l, p);
    hide Merged;
    changed := Merged(blocks, l);
  }

  lemma MergeBothCoalesced(blocks: Blocks, first: int, brk: int, l: int, p: int)
    requires Tiled(blocks, first, brk) && Aligned(blocks)
    requires IsFree(blocks, l) && l + blocks[l].size == p
    requires IsFree(blocks, p) && IsFree(blocks, p + blocks[p].size)
    requires CoalescedExcept(blocks, p)
    ensures Next(Merged(blocks, p), l) in Merged(blocks, p)
    ensures Coalesced(Merged(Merged(blocks, p), l))
  {
    var n := p + blocks[p].size;
    MergeBothSides(blocks, first, brk, l, p);
    var changed := Merged(Merged(blocks, p), l);
    assert n in blocks && blocks[n].size > 0 && blocks[p].size > 0 && blocks[l].size > 0;
    hide Tiled, Aligned, Merged;
    var r := n + blocks[n].size;
    if r in changed { assert r in blocks && blocks[r].alloc; }
    forall q | q in changed && q + changed[q].size == l ensures changed[q].alloc {
      assert q in blocks && q != p && q != l;
    }
    AbsorbCoalesced(blocks, changed, p, l);
  }

  lemma NoFreeNeighbours(blocks: Blocks, p: int)
    requires p in blocks && CoalescedExcept(blocks, p)
    requires LeftAllocated(blocks, p) && !IsFree(blocks, p + blocks[p].size)
    ensures Coalesced(blocks)
  {
  }

  lemma SizeFits(mem: Memory, base: int, brk: int, heads: seq<int>, was: Blocks, lists: seq<seq<int>>,
                 pending: set<int>, blocks: Blocks, p: int)
    requires HeapOk(mem, base, brk, heads, was, lists, pending)
    requires Tiled(blocks, base + 16, brk) && Aligned(blocks)
    requires IsFree(blocks, p)
    ensures 0 < blocks[p].size < 0x8000_0000 && blocks[p].size % 8 == 0
  {
  }

  // ---- coalesce, case by case ----

  lemma MergeNextSpec(mem: Memory, base: int, brk: int, heads: seq<int>, blocks: Blocks,
                      lists: seq<seq<int>>, bp: int) returns (changed: Blocks)
    requires HeapOk(mem, base, brk, heads, blocks, lists, {bp}) && IsFree(blocks, bp) && CoalescedExcept(blocks, bp)
    requires LeftAllocated(blocks, bp) && IsFree(blocks, bp + blocks[bp].size)
    ensures Absorbs(blocks, changed, {bp, bp + blocks[bp].size}, bp) && IsFree(changed, bp)
    ensures Tiled(changed, base + 16, brk) && Aligned(changed) && Coalesced(changed)
    ensures changed[bp].size == blocks[bp].size + blocks[bp + blocks[bp].size].size
    ensures 0 < changed[bp].size < 0x8000_0000 && changed[bp].size % 8 == 0
  {
    assert Tiled(blocks, base + 16, brk) && Aligned(blocks);
    hide HeapOk, Tiled, Aligned, Coalesced, CoalescedExcept, LeftAllocated;
    MergeRight(blocks, base + 16, brk, bp);
    MergeRightCoalesced(blocks, base + 16, brk, bp);
    hide Merged;
    changed := Merged(blocks, bp);
    SizeFits(mem, base, brk, heads, blocks, lists, {bp}, changed, bp);
  }

  lemma MergePrevSpec(mem: Memory, base: int, brk: int, heads: seq<int>, blocks: Blocks,
                      lists: seq<seq<int>>, bp: int, l: int) returns (changed: Blocks)
    requires HeapOk(mem, base, brk, heads, blocks, lists, {bp}) && IsFree(blocks, bp) && CoalescedExcept(blocks, bp)
    requires IsFree(blocks, l) && l + blocks[l].size == bp && !IsFree(blocks, bp + blocks[bp].size)
    ensures Absorbs(blocks, changed, {l, bp}, l) && IsFree(changed, l)
    ensures Tiled(changed, base + 16, brk) && Aligned(changed) && Coalesced(changed)
    ensures changed[l].size == blocks[l].size + blocks[bp].size
    ensures 0 < changed[l].size < 0x8000_0000 && changed[l].size % 8 == 0
  {
    assert Tiled(blocks, base + 16, brk) && Aligned(blocks);
    hide HeapOk, Tiled, Aligned, Coalesced, CoalescedExcept, Absorbs;
    changed := MergeLeftSpec(blocks, base + 16, brk, l, bp);
    SizeFits(mem, base, brk, heads, blocks, lists, {bp}, changed, l);
  }

  lemma MergeBothSpec(mem: Memory, base: int, brk: int, heads: seq<int>, blocks: Blocks,
                      lists: seq<seq<int>>, bp: int, l: int) returns (changed: Blocks)
    requires HeapOk(mem, base, brk, heads, blocks, lists, {bp}) && IsFree(blocks, bp) && CoalescedExcept(blocks, bp)
    requires IsFree(blocks, l) && l + blocks[l].size == bp && IsFree(blocks, bp + blocks[bp].size)
    ensures Absorbs(blocks, changed, {bp, bp + blocks[bp].size, l}, l) && IsFree(changed, l)
    ensures Tiled(changed, base + 16, brk) && Aligned(changed) && Coalesced(changed)
    ensures changed[l].size == blocks[l].size + blocks[bp].size + blocks[bp + blocks[bp].size].size
    ensures 0 < changed[l].size < 0x8000_0000 && changed[l].size % 8 == 0
  {
    assert Tiled(blocks, base + 16, brk) && Aligned(blocks);
    hide HeapOk, Tiled, Aligned, Coalesced, CoalescedExcept;
    MergeBothSides(blocks, base + 16, brk, l, bp);
    MergeBothCoalesced(blocks, base + 16, brk, l, bp);
    MergeApart(blocks, base + 16, brk, l, bp);
    hide Merged;
    changed := Merged(Merged(blocks, bp), l);
    assert IsFree(changed, l);
    hide Absorbs;
    SizeFits(mem, base, brk, heads, blocks, lists, {bp}, changed, l);
  }

  // ---- writes by the owner of a live block ----

  lemma OwnerStoreOk(mem: Memory, after: Memory, base: int, brk: int, heads: seq<int>, blocks: Blocks,
                     lists: seq<seq<int>>, p: int)
    requires HeapOk(mem, base, brk, heads, blocks, lists, {})
    requires PayloadStore(mem, after, blocks, p) && blocks[p].alloc
    ensures HeapOk(after, base, brk, heads, blocks, lists, {})
    ensures Untouched(mem, after, Live(blocks) - {p})
  {
    MappedKeys(mem, after, base, brk);
    BoundedSizes(blocks, base + 16, brk);
    hide Linked, Aligned, Mapped, Geometry, PrologueOk, EpilogueOk, Tagged, PayloadStore, Untouched, Bounded, Disjoint,
         ListIndexBySize, Chain, Listed;
    PayloadStoreKeepsTags(mem, after, base, brk, blocks, p);
    PayloadStoreKeepsEnds(mem, after, base, brk, blocks, p);
    PayloadStoreLeavesLive(mem, after, blocks, p);
    forall i | 0 <= i < NO_OF_SIZE_TYPE ensures Chain(after, lists[i]) {
      MembersInBlocks(blocks, lists, {}, i);
      OtherListsMiss(blocks, lists, {}, p, i);
      PayloadStoreKeepsChain(mem, after, blocks, p, lists[i]);
    }
  }

  /** Bytes of an untouched live payload read the same. */
  lemma UntouchedByte(mem: Memory, after: Memory, live: map<int, int>, q: int, x: int)
    requires Untouched(mem, after, live)
    requires q in live && q % 8 == 0 && q <= x < q + live[q] - 8
    requires HasByte(mem, x)
    ensures HasByte(after, x) && GetByte(after, x) == GetByte(mem, x)
  {
    hide ByteOfWord;
    assert q - 4 <= WordAddress(x) < q + live[q] - 4;
  }

  lemma UntouchedPayload(mem: Memory, after: Memory, live: map<int, int>, q: int, n: int)
    requires Untouched(mem, after, live)
    requires q in live && q % 8 == 0 && n <= live[q] - 8
    requires Readable(mem, q, n)
    ensures SameBytes(mem, q, after, q, n)
  {
    hide GetByte, HasByte, Untouched;
    forall x | q <= x < q + n
      ensures HasByte(mem, x) && HasByte(after, q + (x - q)) && GetByte(mem, x) == GetByte(after, q + (x - q))
    {
      UntouchedByte(mem, after, live, q, x);
      assert q + (x - q) == x;
    }
  }

  lemma SameBytesTrans(m0: Memory, a: int, m1: Memory, b: int, m2: Memory, c: int, n: int)
    requires SameBytes(m0, a, m1, b, n) && SameBytes(m1, b, m2, c, n)
    ensures SameBytes(m0, a, m2, c, n)
  {
    hide GetByte, HasByte;
    forall x | a <= x < a + n
      ensures HasByte(m0, x) && HasByte(m2, c + (x - a)) && GetByte(m0, x) == GetByte(m2, c + (x - a))
    {
      var y := b + (x - a);
      assert b <= y < b + n && c + (y - b) == c + (x - a);
      assert HasByte(m0, x) && HasByte(m1, y) && GetByte(m0, x) == GetByte(m1, y);
      assert HasByte(m2, c + (y - b)) && GetByte(m1, y) == GetByte(m2, c + (y - b));
    }
  }

  lemma CopiedSameBytes(m0: Memory, m: Memory, dst: int, src: int, i: int, n: int)
    requires Copied(m0, m, dst, src, i) && n <= i
    requires Readable(m0, dst, n)
    ensures SameBytes(m0, src, m, dst, n)
  {
    hide GetByte, HasByte;
    forall x | src <= x < src + n
      ensures HasByte(m0, x) && HasByte(m, dst + (x - src)) && GetByte(m0, x) == GetByte(m, dst + (x - src))
    {
      var y := dst + (x - src);
      assert HasByte(m0, y);
      assert CopiedAt(m0, m, dst, src, i, y);
      assert src + (y - dst) == x;
    }
  }
}
