/** Memories that mm_checkheap accepts although they break the invariant: one for each
    of the three things it does not look at. */
module HeapCheckGaps {
  import opened HeapWords
  import opened HeapTiling
  import opened FreeLists
  import opened HeapInvariant
  import opened HeapChecks

  /** What is in memory for this heap: its header words, and zero everywhere else. */
  function Words(brk: int, tags: map<int, Word>): Memory {
    map a | 8 <= a < brk && a % 4 == 0 :: if a in tags then tags[a] else 0
  }

  lemma WordsMapped(brk: int, tags: map<int, Word>)
    ensures Mapped(Words(brk, tags), 8, brk)
  {
  }

  lemma WordAt(brk: int, tags: map<int, Word>, a: int)
    requires 8 <= a < brk && a % 4 == 0
    ensures a in Words(brk, tags) && Words(brk, tags)[a] == if a in tags then tags[a] else 0
  {
  }

  lemma LinksAt(brk: int, tags: map<int, Word>, p: int)
    requires 12 <= p < brk - 12 && p % 4 == 0
    requires p + 4 !in tags && p + 8 !in tags && p + 12 !in tags
    ensures var mem := Words(brk, tags);
            && NodeMapped(mem, p) && GetPtr(mem, p + 8) == 0
            && GetPtr(mem, p) == if p in tags then tags[p] else 0
  {
    WordAt(brk, tags, p - 4);
    WordAt(brk, tags, p);
    WordAt(brk, tags, p + 4);
    WordAt(brk, tags, p + 8);
    WordAt(brk, tags, p + 12);
    hide Words;
  }

  /** The first list, and eleven empty ones. */
  function OnFirst(l: seq<int>): seq<seq<int>> {
    [l, [], [], [], [], [], [], [], [], [], [], []]
  }

  function HeadsOf(head: int): seq<int> {
    [head, 0, 0, 0, 0, 0, 0, 0, 0, 0, 0, 0]
  }

  lemma OneList(l: seq<int>)
    ensures SumLengths(OnFirst(l)) == |l|
    ensures forall i, k, p :: At(OnFirst(l), i, k, p) <==> i == 0 && 0 <= k < |l| && l[k] == p
  {
    EmptyLists(l, 11);
    assert OnFirst(l) == [l] + seq(11, _ => []);
  }

  lemma {:induction false} EmptyLists(l: seq<int>, n: nat)
    ensures SumLengths([l] + seq(n, _ => [])) == |l|
  {
    var lists: seq<seq<int>> := [l] + seq(n, _ => []);
    if n > 0 {
      var fewer: seq<seq<int>> := [l] + seq(n - 1, _ => []);
      assert lists[..n] == fewer;
      EmptyLists(l, n - 1);
    } else {
      assert lists[..0] == [] && lists == [l];
    }
  }

  lemma PassedWith(mem: Memory, brk: int, head: int, l: seq<int>, blocks: Blocks, top: int)
    requires GoodWalk(mem, 8, brk, blocks, top)
    requires SuccWalk(mem, head, l) && ListPasses(mem, 8, brk, 0, l) && |FreeSet(blocks)| == |l|
    ensures Passed(mem, 8, brk, HeadsOf(head), blocks, top, OnFirst(l))
  {
    OneList(l);
    hide GoodWalk, FreeSet, GetPtr, NodePasses, SuccNode, SumLengths;
    var heads, lists := HeadsOf(head), OnFirst(l);
    forall i | 0 <= i < NO_OF_SIZE_TYPE
      ensures SuccWalk(mem, heads[i], lists[i]) && ListPasses(mem, 8, brk, i, lists[i])
    {
      if i > 0 {
        assert heads[i] == 0 && lists[i] == [];
      }
    }
  }

  /** A list of one node of the first class. */
  lemma OneNode(mem: Memory, brk: int, p: int)
    requires NodeMapped(mem, p) && 8 <= p < brk && mem[p - 4] == 24 && GetPtr(mem, p + 8) == 0
    ensures SuccWalk(mem, p, [p]) && ListPasses(mem, 8, brk, 0, [p])
  {
    hide GetPtr;
    assert SuccNode(mem, [p][0], After([p], 0));
    assert NodePasses(mem, 8, brk, 0, [p][0], After([p], 0));
  }

  const NO_BLOCK: map<int, Word> := map[12 := 9, 16 := 9, 20 := 1]

  /** A word of size zero before the break: the words behind it are never looked at. */
  lemma StopsEarly()
    ensures var mem := Words(32, NO_BLOCK);
            && Geometry(8, 32) && Mapped(mem, 8, 32)
            && Passed(mem, 8, 32, HeadsOf(0), map[], 24, OnFirst([]))
            && FirstNodesOk(mem, OnFirst([])) && NodesAreBlocks(map[], OnFirst([]))
            && 24 != 32
  {
    var mem := Words(32, NO_BLOCK);
    assert GoodWalk(mem, 8, 32, map[], 24);
    PassedWith(mem, 32, 0, [], map[], 24);
    OneList([]);
    hide Passed;
  }

  const ONE_BLOCK: map<int, Word> := map[12 := 9, 16 := 9, 20 := 24, 24 := 7, 40 := 24, 44 := 1]

  /** One free block on its list, with a pred link that is not NULL. */
  lemma FirstPredUnread()
    ensures var mem := Words(48, ONE_BLOCK);
            var blocks := map[24 := Block(24, false)];
            && Geometry(8, 48) && Mapped(mem, 8, 48)
            && Passed(mem, 8, 48, HeadsOf(24), blocks, 48, OnFirst([24]))
            && NodesAreBlocks(blocks, OnFirst([24]))
            && !FirstNodesOk(mem, OnFirst([24]))
  {
    hide Words, Passed, GoodWalk, SuccWalk, ListPasses, GetPtr, SumLengths, Mapped, NodeMapped;
    var mem := Words(48, ONE_BLOCK);
    var blocks := map[24 := Block(24, false)];
    WordsMapped(48, ONE_BLOCK);
    OneTiling();
    WordAt(48, ONE_BLOCK, 20);
    LinksAt(48, ONE_BLOCK, 24);
    OneNode(mem, 48, 24);
    assert FreeSet(blocks) == {24};
    PassedWith(mem, 48, 24, [24], blocks, 48);
    OneList([24]);
    assert OnFirst([24])[0][0] == 24;
  }

  lemma OneTiling()
    ensures GoodWalk(Words(48, ONE_BLOCK), 8, 48, map[24 := Block(24, false)], 48)
  {
    hide Words;
    WordAt(48, ONE_BLOCK, 12);
    WordAt(48, ONE_BLOCK, 16);
    WordAt(48, ONE_BLOCK, 20);
    WordAt(48, ONE_BLOCK, 40);
    WordAt(48, ONE_BLOCK, 44);
    var blocks := map[24 := Block(24, false)];
    assert Tiled(blocks, 24, 48) && Aligned(blocks) && Coalesced(blocks);
    hide Tiled, Aligned, Coalesced;
  }

  const TWO_BLOCKS: map<int, Word> :=
    map[12 := 9, 16 := 9, 20 := 41, 28 := 24, 56 := 41, 60 := 24, 80 := 24, 84 := 1]

  /** A free block on no list, and on its list a node inside the payload of a live
      block: the two counts are both one. */
  lemma NodeNotABlock()
    ensures var mem := Words(88, TWO_BLOCKS);
            var blocks := map[24 := Block(40, true), 64 := Block(24, false)];
            && Geometry(8, 88) && Mapped(mem, 8, 88)
            && Passed(mem, 8, 88, HeadsOf(32), blocks, 88, OnFirst([32]))
            && FirstNodesOk(mem, OnFirst([32]))
            && !NodesAreBlocks(blocks, OnFirst([32]))
  {
    hide Words, Passed, GoodWalk, SuccWalk, ListPasses, GetPtr, SumLengths, Mapped, NodeMapped;
    var mem := Words(88, TWO_BLOCKS);
    var blocks := map[24 := Block(40, true), 64 := Block(24, false)];
    WordsMapped(88, TWO_BLOCKS);
    TwoTiling();
    WordAt(88, TWO_BLOCKS, 28);
    LinksAt(88, TWO_BLOCKS, 32);
    MappedLinks(mem, 32);
    OneNode(mem, 88, 32);
    assert FreeSet(blocks) == {64};
    PassedWith(mem, 88, 32, [32], blocks, 88);
    OneList([32]);
    assert At(OnFirst([32]), 0, 0, 32);
  }

  lemma MappedLinks(mem: Memory, p: int)
    requires NodeMapped(mem, p)
    ensures LinkCells(mem, p)
  {
  }

  lemma TwoTiling()
    ensures GoodWalk(Words(88, TWO_BLOCKS), 8, 88, map[24 := Block(40, true), 64 := Block(24, false)], 88)
  {
    hide Words;
    WordAt(88, TWO_BLOCKS, 12);
    WordAt(88, TWO_BLOCKS, 16);
    WordAt(88, TWO_BLOCKS, 20);
    WordAt(88, TWO_BLOCKS, 56);
    WordAt(88, TWO_BLOCKS, 60);
    WordAt(88, TWO_BLOCKS, 80);
    WordAt(88, TWO_BLOCKS, 84);
    var blocks := map[24 := Block(40, true), 64 := Block(24, false)];
    TwoShape();
    hide Tiled, Aligned, Coalesced;
  }

  lemma TwoShape()
    ensures var blocks := map[24 := Block(40, true), 64 := Block(24, false)];
            Tiled(blocks, 24, 88) && Aligned(blocks) && Coalesced(blocks)
  {
  }
}
