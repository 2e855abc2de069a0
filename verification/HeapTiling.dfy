/** The address-ordered view of the heap: a finite map from block pointers to
    sizes and allocated bits that tiles [first, brk) without gap or overlap. */
module HeapTiling {

  const MIN_BLK_SIZE := 24

  datatype Block = Block(size: int, alloc: bool)

  type Blocks = map<int, Block>

  /** Block p's right neighbour in address order, or brk. */
  function Next(blocks: Blocks, p: int): int
    requires p in blocks
  {
    p + blocks[p].size
  }

  ghost predicate Bounded(blocks: Blocks, first: int, brk: int) {
    forall p | p in blocks :: first <= p && blocks[p].size >= MIN_BLK_SIZE && p + blocks[p].size <= brk
  }

  /** No gap: every block ends at another block or at brk. */
  ghost predicate Linked(blocks: Blocks, brk: int) {
    forall p | p in blocks :: p + blocks[p].size == brk || p + blocks[p].size in blocks
  }

  ghost predicate Disjoint(blocks: Blocks) {
    forall p, q | p in blocks && q in blocks && p < q :: p + blocks[p].size <= q
  }

  ghost predicate Aligned(blocks: Blocks) {
    forall p | p in blocks :: p % 8 == 0 && blocks[p].size % 8 == 0
  }

  ghost predicate Tiled(blocks: Blocks, first: int, brk: int) {
    && first <= brk
    && (first == brk || first in blocks)
    && Bounded(blocks, first, brk)
    && Linked(blocks, brk)
    && Disjoint(blocks)
  }

  /** Immediate coalescing leaves no two neighbours free. */
  ghost predicate Coalesced(blocks: Blocks) {
    forall p | p in blocks && p + blocks[p].size in blocks ::
      blocks[p].alloc || blocks[p + blocks[p].size].alloc
  }

  /** The same, except around block x. */
  ghost predicate CoalescedExcept(blocks: Blocks, x: int) {
    forall p | p in blocks && p + blocks[p].size in blocks && p != x && p + blocks[p].size != x ::
      blocks[p].alloc || blocks[p + blocks[p].size].alloc
  }

  predicate IsFree(blocks: Blocks, p: int) {
    p in blocks && !blocks[p].alloc
  }

  /** The allocated blocks with their sizes. */
  function Live(blocks: Blocks): map<int, int> {
    map p | p in blocks && blocks[p].alloc :: blocks[p].size
  }

  // ---- walking ----

  /** Every block but the first has a left neighbour. */
  lemma {:induction false} LeftNeighbour(blocks: Blocks, first: int, brk: int, from: int, p: int) returns (r: int)
    requires Tiled(blocks, first, brk)
    requires from in blocks && from < p
    requires p in blocks || p == brk
    ensures r in blocks && r + blocks[r].size == p
    decreases p - from
  {
    if Next(blocks, from) == p {
      r := from;
    } else {
      r := LeftNeighbour(blocks, first, brk, Next(blocks, from), p);
    }
  }

  /** The walk that every heap scan does: from block to block up to the epilogue. */
  ghost function Walk(blocks: Blocks, first: int, brk: int, p: int): (walk: seq<int>)
    requires Tiled(blocks, first, brk)
    requires p in blocks || p == brk
    decreases brk - p
  {
    if p == brk then [] else [p] + Walk(blocks, first, brk, Next(blocks, p))
  }

  ghost function SumSizes(blocks: Blocks, walk: seq<int>): int
    requires forall i | 0 <= i < |walk| :: walk[i] in blocks
  {
    if walk == [] then 0 else blocks[walk[0]].size + SumSizes(blocks, walk[1..])
  }

  lemma {:induction false} WalkInBlocks(blocks: Blocks, first: int, brk: int, p: int)
    requires Tiled(blocks, first, brk)
    requires p in blocks || p == brk
    ensures forall i | 0 <= i < |Walk(blocks, first, brk, p)| :: Walk(blocks, first, brk, p)[i] in blocks
    decreases brk - p
  {
    if p != brk {
      WalkInBlocks(blocks, first, brk, Next(blocks, p));
    }
  }

  /** The walk meets every block at or after its start exactly once and in
      address order, each block ending where the next begins. */
  lemma {:induction false} WalkCovers(blocks: Blocks, first: int, brk: int, p: int)
    requires Tiled(blocks, first, brk)
    requires p in blocks || p == brk
    ensures forall q | q in blocks && p <= q :: q in Walk(blocks, first, brk, p)
    ensures forall q | q in Walk(blocks, first, brk, p) :: p <= q && q in blocks
    decreases brk - p
  {
    if p != brk {
      WalkCovers(blocks, first, brk, Next(blocks, p));
      forall q | q in blocks && p <= q ensures q in Walk(blocks, first, brk, p) {
        if q != p { assert Next(blocks, p) <= q; }
      }
    }
  }

  lemma {:induction false} WalkSteps(blocks: Blocks, first: int, brk: int, p: int, i: int)
    requires Tiled(blocks, first, brk)
    requires p in blocks
    requires 0 <= i < |Walk(blocks, first, brk, p)|
    ensures Walk(blocks, first, brk, p)[i] in blocks
    ensures Next(blocks, Walk(blocks, first, brk, p)[i])
         == if i + 1 < |Walk(blocks, first, brk, p)| then Walk(blocks, first, brk, p)[i + 1] else brk
    decreases brk - p
  {
    var n := Next(blocks, p);
    assert Walk(blocks, first, brk, p) == [p] + Walk(blocks, first, brk, n);
    if i > 0 {
      WalkSteps(blocks, first, brk, n, i - 1);
    } else if n != brk {
      assert Walk(blocks, first, brk, n)[0] == n;
    }
  }

  /** The sizes add up to the whole heap body. */
  lemma {:induction false} SizesFillHeap(blocks: Blocks, first: int, brk: int, p: int)
    requires Tiled(blocks, first, brk)
    requires p in blocks || p == brk
    ensures forall i | 0 <= i < |Walk(blocks, first, brk, p)| :: Walk(blocks, first, brk, p)[i] in blocks
    ensures SumSizes(blocks, Walk(blocks, first, brk, p)) == brk - p
    decreases brk - p
  {
    WalkInBlocks(blocks, first, brk, p);
    if p != brk {
      SizesFillHeap(blocks, first, brk, Next(blocks, p));
      assert Walk(blocks, first, brk, p)[1..] == Walk(blocks, first, brk, Next(blocks, p));
    }
  }

  /** Each word of the heap body lies in exactly one block: the header of p is at
      p-4 and its footer is the last word before p+size-4. */
  lemma EveryWordInOneBlock(blocks: Blocks, first: int, brk: int, a: int) returns (p: int)
    requires Tiled(blocks, first, brk)
    requires first - 4 <= a < brk - 4
    ensures p in blocks && p - 4 <= a < Next(blocks, p) - 4
    ensures forall q | q in blocks && q - 4 <= a < Next(blocks, q) - 4 :: q == p
  {
    p := FindCover(blocks, first, brk, first, a);
  }

  lemma {:induction false} FindCover(blocks: Blocks, first: int, brk: int, from: int, a: int) returns (p: int)
    requires Tiled(blocks, first, brk)
    requires from in blocks || from == brk
    requires from - 4 <= a < brk - 4
    ensures p in blocks && p - 4 <= a < Next(blocks, p) - 4
    decreases brk - from
  {
    if a < Next(blocks, from) - 4 {
      p := from;
    } else {
      p := FindCover(blocks, first, brk, Next(blocks, from), a);
    }
  }

  // ---- the tiling is a function of the live blocks and brk ----

  lemma {:induction false} SameFrom(b1: Blocks, b2: Blocks, first: int, brk: int, s: int, p: int)
    requires Tiled(b1, first, brk) && Coalesced(b1)
    requires Tiled(b2, first, brk) && Coalesced(b2)
    requires Live(b1) == Live(b2)
    requires s in b1 && s in b2
    requires p in b1 && s <= p
    ensures p in b2 && b1[p] == b2[p]
    decreases brk - s
  {
    SameBlock(b1, b2, first, brk, s);
    if p != s {
      SameFrom(b1, b2, first, brk, Next(b1, s), p);
    }
  }

  lemma SameBlock(b1: Blocks, b2: Blocks, first: int, brk: int, s: int)
    requires Tiled(b1, first, brk) && Coalesced(b1)
    requires Tiled(b2, first, brk) && Coalesced(b2)
    requires Live(b1) == Live(b2)
    requires s in b1 && s in b2
    ensures b1[s] == b2[s]
  {
    assert b1[s].alloc <==> s in Live(b1);
    assert b2[s].alloc <==> s in Live(b2);
    if b1[s].alloc {
      assert Live(b1)[s] == Live(b2)[s];
    } else {
      NotShorter(b1, b2, first, brk, s);
      NotShorter(b2, b1, first, brk, s);
    }
  }

  lemma NotShorter(b1: Blocks, b2: Blocks, first: int, brk: int, s: int)
    requires Tiled(b1, first, brk) && Coalesced(b1)
    requires Tiled(b2, first, brk)
    requires Live(b1) == Live(b2)
    requires IsFree(b1, s) && IsFree(b2, s)
    ensures b1[s].size >= b2[s].size
  {
    var n := Next(b1, s);
    if n in b1 {
      assert n in Live(b1);
      assert n in b2;
    }
  }

  /** Two fully coalesced tilings with the same live blocks and the same brk are
      the same tiling: the free space is determined. */
  lemma TilingDetermined(b1: Blocks, b2: Blocks, first: int, brk: int)
    requires Tiled(b1, first, brk) && Coalesced(b1)
    requires Tiled(b2, first, brk) && Coalesced(b2)
    requires Live(b1) == Live(b2)
    ensures b1 == b2
  {
    forall p | p in b1 ensures p in b2 && b1[p] == b2[p] {
      SameFrom(b1, b2, first, brk, first, p);
    }
    forall p | p in b2 ensures p in b1 {
      SameFrom(b2, b1, first, brk, first, p);
    }
  }

  /** With nothing live the heap is one free block from the prologue to the epilogue. */
  lemma NothingLive(blocks: Blocks, first: int, brk: int)
    requires Tiled(blocks, first, brk) && Coalesced(blocks)
    requires Live(blocks) == map[]
    requires first < brk
    ensures blocks == map[first := Block(brk - first, false)]
  {
    var whole := map[first := Block(brk - first, false)];
    assert first in blocks;
    assert Live(whole) == map[];
    TilingDetermined(blocks, whole, first, brk);
  }

  // ---- the four ways a tiling changes ----

  function Retagged(blocks: Blocks, p: int, alloc: bool): Blocks
    requires p in blocks
  {
    blocks[p := Block(blocks[p].size, alloc)]
  }

  lemma RetagTiled(blocks: Blocks, first: int, brk: int, p: int, alloc: bool)
    requires Tiled(blocks, first, brk) && Aligned(blocks)
    requires p in blocks
    ensures Tiled(Retagged(blocks, p, alloc), first, brk) && Aligned(Retagged(blocks, p, alloc))
  {
    var after := Retagged(blocks, p, alloc);
    assert Linked(after, brk);
    assert Disjoint(after);
  }

  /** p swallows its right neighbour. */
  function Merged(blocks: Blocks, p: int): Blocks
    requires p in blocks && Next(blocks, p) in blocks
  {
    (blocks - {Next(blocks, p)})[p := Block(blocks[p].size + blocks[Next(blocks, p)].size, blocks[p].alloc)]
  }

  lemma MergeDisjoint(blocks: Blocks, p: int)
    requires Disjoint(blocks) && p in blocks && Next(blocks, p) in blocks
    ensures Disjoint(Merged(blocks, p))
  {
  }

  lemma MergeLinked(blocks: Blocks, first: int, brk: int, p: int)
    requires Tiled(blocks, first, brk) && p in blocks && Next(blocks, p) in blocks
    ensures Linked(Merged(blocks, p), brk)
  {
  }

  lemma MergeBounded(blocks: Blocks, first: int, brk: int, p: int)
    requires Bounded(blocks, first, brk) && Aligned(blocks)
    requires p in blocks && Next(blocks, p) in blocks
    ensures Bounded(Merged(blocks, p), first, brk) && Aligned(Merged(blocks, p))
  {
  }

  lemma MergeTiled(blocks: Blocks, first: int, brk: int, p: int)
    requires Tiled(blocks, first, brk) && Aligned(blocks)
    requires p in blocks && Next(blocks, p) in blocks
    ensures Tiled(Merged(blocks, p), first, brk) && Aligned(Merged(blocks, p))
  {
    MergeDisjoint(blocks, p);
    MergeLinked(blocks, first, brk, p);
    MergeBounded(blocks, first, brk, p);
  }

  /** p keeps its first a bytes; the rest becomes a free block. */
  function SplitAt(blocks: Blocks, p: int, a: int): Blocks
    requires p in blocks
  {
    blocks[p := Block(a, true)][p + a := Block(blocks[p].size - a, false)]
  }

  lemma SplitLinked(blocks: Blocks, first: int, brk: int, p: int, a: int)
    requires Tiled(blocks, first, brk) && p in blocks
    requires 0 < a < blocks[p].size
    ensures p + a !in blocks
    ensures Linked(SplitAt(blocks, p, a), brk)
  {
  }

  lemma SplitDisjoint(blocks: Blocks, p: int, a: int)
    requires Disjoint(blocks) && p in blocks
    requires 0 < a < blocks[p].size
    ensures Disjoint(SplitAt(blocks, p, a))
  {
  }

  lemma SplitAligned(blocks: Blocks, p: int, a: int)
    requires Aligned(blocks) && p in blocks && a % 8 == 0
    ensures Aligned(SplitAt(blocks, p, a))
  {
    assert (p + a) % 8 == 0 && (blocks[p].size - a) % 8 == 0;
  }

  lemma SplitTiled(blocks: Blocks, first: int, brk: int, p: int, a: int)
    requires Tiled(blocks, first, brk) && p in blocks
    requires a >= MIN_BLK_SIZE && blocks[p].size - a >= MIN_BLK_SIZE
    ensures Tiled(SplitAt(blocks, p, a), first, brk)
  {
    SplitLinked(blocks, first, brk, p, a);
    SplitDisjoint(blocks, p, a);
    assert Bounded(SplitAt(blocks, p, a), first, brk);
  }

  /** The heap grows by one free block at the old epilogue. */
  lemma ExtendTiled(blocks: Blocks, first: int, brk: int, size: int)
    requires Tiled(blocks, first, brk)
    requires size >= MIN_BLK_SIZE
    ensures brk !in blocks
    ensures Tiled(blocks[brk := Block(size, false)], first, brk + size)
  {
    var after := blocks[brk := Block(size, false)];
    assert Disjoint(after);
    assert Linked(after, brk + size);
  }
}
