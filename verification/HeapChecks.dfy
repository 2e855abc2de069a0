/** What the tests of mm_checkheap say about an arbitrary memory: passing them, with
    the three things they do not look at, is the same as the invariant. */
module HeapChecks {
  import opened HeapWords
  import opened HeapTiling
  import opened FreeLists
  import opened HeapInvariant
  import RecencyList

  // ---- the heap walk ----

  function FreeSet(blocks: Blocks): set<int> {
    set p | p in blocks && !blocks[p].alloc
  }

  /** What checkblock demands at bp, where the prologue may be small. */
  predicate BlockPasses(mem: Memory, base: int, brk: int, bp: int, prologue: bool)
    requires bp - 4 in mem
  {
    var size := SizeField(mem[bp - 4]);
    && bp % 8 == 0 && base <= bp < brk
    && bp + size - 8 in mem && mem[bp + size - 8] == mem[bp - 4]
    && (size >= MIN_BLK_SIZE || prologue)
    && (AllocField(mem[bp - 4]) || (bp + size - 4 in mem && AllocField(mem[bp + size - 4])))
  }

  /** The blocks before top tile it, their tags agree, none is mergeable with the next,
      and the last of them is not mergeable with whatever follows at top. */
  ghost predicate WalkedTo(mem: Memory, blocks: Blocks, first: int, top: int) {
    && Tiled(blocks, first, top) && Aligned(blocks) && Tagged(mem, blocks) && Coalesced(blocks)
    && EndTaken(mem, blocks, top)
  }

  /** If the last block is free, the word at top is not the header of another free one. */
  ghost predicate EndTaken(mem: Memory, blocks: Blocks, top: int) {
    forall p | IsFree(blocks, p) && p + blocks[p].size == top :: top - 4 in mem && AllocField(mem[top - 4])
  }

  lemma WalkOn(mem: Memory, base: int, brk: int, blocks: Blocks, first: int, top: int, b: Block)
    requires WalkedTo(mem, blocks, first, top)
    requires top - 4 in mem && BlockPasses(mem, base, brk, top, false)
    requires b == Block(SizeField(mem[top - 4]), AllocField(mem[top - 4]))
    ensures top !in blocks && WalkedTo(mem, blocks[top := b], first, top + b.size)
    ensures FreeSet(blocks[top := b]) == FreeSet(blocks) + (if b.alloc then {} else {top})
  {
    SizeAligned(mem[top - 4]);
    hide SizeField, AllocField, Tiled, Coalesced, Aligned, Tagged, FreeSet, EndTaken;
    assert TagsOk(mem, top, b) && top % 8 == 0 && b.size >= MIN_BLK_SIZE;
    assert b.alloc || (top + b.size - 4 in mem && AllocField(mem[top + b.size - 4]));
    hide BlockPasses, TagsOk;
    WalkOnTiled(blocks, first, top, b);
    WalkOnFree(mem, blocks, first, top, b);
    WalkOnTags(mem, blocks, top, b);
    WalkOnEnd(mem, blocks, first, top, b);
  }

  lemma WalkOnTags(mem: Memory, blocks: Blocks, top: int, b: Block)
    requires Tagged(mem, blocks) && Aligned(blocks) && TagsOk(mem, top, b) && top % 8 == 0 && b.size % 8 == 0
    ensures Tagged(mem, blocks[top := b]) && Aligned(blocks[top := b])
  {
    hide TagsOk;
  }

  lemma WalkOnEnd(mem: Memory, blocks: Blocks, first: int, top: int, b: Block)
    requires Tiled(blocks, first, top) && b.size >= MIN_BLK_SIZE
    requires b.alloc || (top + b.size - 4 in mem && AllocField(mem[top + b.size - 4]))
    ensures EndTaken(mem, blocks[top := b], top + b.size)
  {
    hide AllocField;
    assert Bounded(blocks, first, top);
    hide Linked, Disjoint;
  }

  /** The new block is not mergeable with the last one, since that was tested. */
  lemma WalkOnFree(mem: Memory, blocks: Blocks, first: int, top: int, b: Block)
    requires WalkedTo(mem, blocks, first, top) && b.size >= MIN_BLK_SIZE
    requires top - 4 in mem && b.alloc == AllocField(mem[top - 4])
    ensures top !in blocks && Coalesced(blocks[top := b])
    ensures FreeSet(blocks[top := b]) == FreeSet(blocks) + (if b.alloc then {} else {top})
  {
    hide AllocField;
    WalkOnTiled(blocks, first, top, b);
    hide Tiled;
    var after := blocks[top := b];
    forall p | p in after && p + after[p].size in after ensures after[p].alloc || after[p + after[p].size].alloc {
      if p != top && p + after[p].size != top {
        assert p + blocks[p].size in blocks;
      }
    }
  }

  lemma SizeAligned(w: Word)
    ensures SizeField(w) % 8 == 0
  {
  }

  lemma WalkOnTiled(blocks: Blocks, first: int, top: int, b: Block)
    requires Tiled(blocks, first, top) && b.size >= MIN_BLK_SIZE
    ensures top !in blocks && Tiled(blocks[top := b], first, top + b.size)
    ensures forall p | p in blocks :: p + blocks[p].size <= top && p + blocks[p].size >= first
    ensures top + b.size !in blocks
  {
    var after := blocks[top := b];
    assert Disjoint(after);
    assert Linked(after, top + b.size);
  }

  /** The tags leave no choice: two tilings that agree with the same words, each
      ended by a word of size zero, are the same tiling. */
  lemma TagsDetermineTiling(mem: Memory, b1: Blocks, b2: Blocks, first: int, end1: int, end2: int)
    requires Tiled(b1, first, end1) && Tagged(mem, b1) && Tiled(b2, first, end2) && Tagged(mem, b2)
    requires end1 - 4 in mem && SizeField(mem[end1 - 4]) == 0
    requires end2 - 4 in mem && SizeField(mem[end2 - 4]) == 0
    ensures b1 == b2 && end1 == end2
  {
    SameTags(mem, b1, b2, first, end1, end2, first);
    SameTags(mem, b2, b1, first, end2, end1, first);
    assert forall p | p in b1 :: p in b2 && b1[p] == b2[p];
    assert forall p | p in b2 :: p in b1;
  }

  lemma {:induction false} SameTags(mem: Memory, b1: Blocks, b2: Blocks, first: int, end1: int, end2: int, from: int)
    requires Tiled(b1, first, end1) && Tagged(mem, b1) && Tiled(b2, first, end2) && Tagged(mem, b2)
    requires end1 - 4 in mem && SizeField(mem[end1 - 4]) == 0
    requires end2 - 4 in mem && SizeField(mem[end2 - 4]) == 0
    requires from in b1 || from == end1
    requires from in b2 || from == end2
    ensures end1 == end2
    ensures forall p | p in b1 && from <= p :: p in b2 && b1[p] == b2[p]
    decreases end1 - from
  {
    hide SizeField, AllocField, Tagged;
    if from in b1 {
      TagsAt(mem, b1, from);
    }
    if from in b2 {
      TagsAt(mem, b2, from);
    }
    if from in b1 {
      SameTags(mem, b1, b2, first, end1, end2, Next(b1, from));
    }
  }

  lemma TagsAt(mem: Memory, blocks: Blocks, p: int)
    requires Tagged(mem, blocks) && p in blocks
    ensures TagsOk(mem, p, blocks[p])
  {
  }

  /** A tiling with agreeing tags whose blocks start in the heap, ended by a word of
      size zero. */
  ghost predicate GoodWalk(mem: Memory, base: int, brk: int, blocks: Blocks, top: int) {
    && PrologueOk(mem, base) && WalkedTo(mem, blocks, base + 16, top) && EpilogueOk(mem, top)
    && StartsBelow(blocks, brk)
  }

  ghost predicate StartsBelow(blocks: Blocks, brk: int) {
    forall p | p in blocks :: p < brk
  }

  /** Then every step of the walk passes, from the prologue to the end. */
  lemma GoodWalkStep(mem: Memory, base: int, brk: int, blocks: Blocks, top: int, bp: int)
    requires Geometry(base, brk) && GoodWalk(mem, base, brk, blocks, top)
    requires bp == base + 8 || bp in blocks
    ensures bp - 4 in mem && BlockPasses(mem, base, brk, bp, bp == base + 8)
    ensures var n := bp + SizeField(mem[bp - 4]); n - 4 in mem && (n == top || n in blocks)
  {
    assert base + 4 in mem;
    hide SizeField, AllocField, Disjoint, PrologueOk;
    if bp in blocks {
      BlockStep(mem, base, brk, blocks, top, bp);
    } else {
      PrologueStep(mem, base, brk);
      assert Tiled(blocks, base + 16, top);
      assert base + 16 in blocks ==> TagsOk(mem, base + 16, blocks[base + 16]);
    }
  }

  lemma PrologueStep(mem: Memory, base: int, brk: int)
    requires Geometry(base, brk) && PrologueOk(mem, base)
    ensures BlockPasses(mem, base, brk, base + 8, true) && SizeField(mem[base + 4]) == 8
  {
    hide SizeField, AllocField;
    assert (base + 8) % 8 == 0;
  }

  lemma BlockStep(mem: Memory, base: int, brk: int, blocks: Blocks, top: int, bp: int)
    requires GoodWalk(mem, base, brk, blocks, top) && bp in blocks
    ensures bp - 4 in mem && BlockPasses(mem, base, brk, bp, false)
    ensures var n := bp + SizeField(mem[bp - 4]); n - 4 in mem && (n == top || n in blocks)
    ensures bp != base + 8
  {
    hide SizeField, AllocField, Disjoint, PrologueOk;
    assert TagsOk(mem, bp, blocks[bp]) && blocks[bp].size >= MIN_BLK_SIZE && base + 16 <= bp;
    var n := bp + blocks[bp].size;
    if n != top {
      assert n in blocks && TagsOk(mem, n, blocks[n]);
    }
    hide Linked, Tagged;
  }

  /** One block further: the prologue is not a block of the tiling. */
  lemma CountOn(mem: Memory, base: int, brk: int, seen: Blocks, bp: int)
    requires Geometry(base, brk) && bp - 4 in mem
    requires bp == base + 8 ==> SizeField(mem[bp - 4]) == 8 && AllocField(mem[bp - 4])
    requires BlockPasses(mem, base, brk, bp, bp == base + 8)
    requires if bp == base + 8 then seen == map[] else WalkedTo(mem, seen, base + 16, bp)
    requires StartsBelow(seen, brk)
    ensures var b := Block(SizeField(mem[bp - 4]), AllocField(mem[bp - 4]));
            var after := if bp == base + 8 then seen else seen[bp := b];
            && WalkedTo(mem, after, base + 16, bp + b.size) && StartsBelow(after, brk)
            && |FreeSet(after)| == |FreeSet(seen)| + if b.alloc then 0 else 1
    ensures seen == map[] ==> |FreeSet(seen)| == 0
  {
    assert bp < brk;
    hide SizeField, AllocField, BlockPasses, HeapOk;
    if bp == base + 8 {
      assert Tiled(seen, base + 16, base + 16);
    } else {
      hide WalkedTo;
      WalkOn(mem, base, brk, seen, base + 16, bp, Block(SizeField(mem[bp - 4]), AllocField(mem[bp - 4])));
      assert bp !in FreeSet(seen);
    }
  }

  /** The words from a on; a walk upwards leaves ever fewer. */
  function From(mem: Memory, a: int): set<int> {
    set x | x in mem && a <= x
  }

  lemma FromShrinks(mem: Memory, a: int, b: int)
    requires a in mem && a < b
    ensures |From(mem, b)| < |From(mem, a)|
  {
    assert a in From(mem, a);
    SmallerSet(From(mem, b), From(mem, a) - {a});
  }

  lemma {:induction false} SmallerSet(x: set<int>, y: set<int>)
    requires x <= y
    ensures |x| <= |y|
  {
    assert y == x + (y - x);
  }

  /** Two walks over one memory have read the same tiling. */
  lemma OneWalk(mem: Memory, base: int, brk: int, b1: Blocks, top1: int, b2: Blocks, top2: int)
    requires WalkedTo(mem, b1, base + 16, top1) && top1 - 4 in mem && SizeField(mem[top1 - 4]) == 0
    requires GoodWalk(mem, base, brk, b2, top2)
    ensures b1 == b2 && top1 == top2
  {
    hide SizeField, AllocField, Coalesced, Tiled, Tagged, PrologueOk;
    TagsDetermineTiling(mem, b1, b2, base + 16, top1, top2);
  }

  // ---- the list walks ----

  /** The words that check_one_list reads at a node. */
  predicate NodeMapped(mem: Memory, p: int) {
    LinkCells(mem, p) && p - 4 in mem
  }

  /** The node after number k of l, where the walk goes on to stop. */
  function Follow(l: seq<int>, k: int, stop: int): int
    requires 0 <= k < |l|
  {
    if k + 1 == |l| then stop else l[k + 1]
  }

  /** Following succ from head visits l and then comes to stop, which is NULL or where
      there is nothing to read. */
  ghost predicate SuccPath(mem: Memory, head: int, l: seq<int>, stop: int) {
    && head == (if l == [] then stop else l[0])
    && (forall k {:trigger Follow(l, k, stop)} | 0 <= k < |l| :: SuccNode(mem, l[k], Follow(l, k, stop)))
    && (stop == 0 || !NodeMapped(mem, stop))
  }

  /** The walk ends at NULL. */
  ghost predicate SuccWalk(mem: Memory, head: int, l: seq<int>) {
    && head == (if l == [] then 0 else l[0])
    && (forall k {:trigger After(l, k)} | 0 <= k < |l| :: SuccNode(mem, l[k], After(l, k)))
  }

  predicate SuccNode(mem: Memory, p: int, succ: int) {
    p != 0 && NodeMapped(mem, p) && GetPtr(mem, p + 8) == succ
  }

  /** A walk ends at NULL if that is where the path stops, and nowhere else. */
  lemma PathToNull(mem: Memory, head: int, l: seq<int>, stop: int)
    requires SuccPath(mem, head, l, stop)
    ensures stop == 0 <==> SuccWalk(mem, head, l)
  {
    hide GetPtr, NodeMapped;
    forall k | 0 <= k < |l| ensures SuccNode(mem, l[k], Follow(l, k, stop)) && After(l, k) == Follow(l, k, 0) {
    }
    if l != [] && SuccWalk(mem, head, l) {
      assert SuccNode(mem, l[|l| - 1], After(l, |l| - 1));
    }
  }

  lemma WalkIsPath(mem: Memory, head: int, l: seq<int>)
    requires SuccWalk(mem, head, l)
    ensures SuccPath(mem, head, l, 0)
  {
    hide SuccNode;
    assert forall k {:trigger After(l, k)} {:trigger Follow(l, k, 0)} | 0 <= k < |l| :: After(l, k) == Follow(l, k, 0);
  }

  /** What check_one_list demands of the node p of list i with successor succ. */
  predicate NodePasses(mem: Memory, base: int, brk: int, i: int, p: int, succ: int) {
    && NodeMapped(mem, p)
    && (succ != 0 ==> LinkCells(mem, succ) && GetPtr(mem, succ) == p)
    && base <= p < brk
    && !AllocField(mem[p - 4])
    && ListIndexBySize(SizeField(mem[p - 4])) == i
  }

  ghost predicate ListPasses(mem: Memory, base: int, brk: int, i: int, l: seq<int>) {
    forall k {:trigger After(l, k)} | 0 <= k < |l| :: NodePasses(mem, base, brk, i, l[k], After(l, k))
  }

  /** A walk that ends never visits a node twice. */
  lemma SuccWalkNoRepeats(mem: Memory, head: int, l: seq<int>)
    requires SuccWalk(mem, head, l)
    ensures NoRepeats(l)
  {
    forall j, k | 0 <= j < k < |l| ensures l[j] != l[k] {
      SuccWalkDistinct(mem, head, l, j, k);
    }
  }

  lemma {:induction false} SuccWalkDistinct(mem: Memory, head: int, l: seq<int>, j: int, k: int)
    requires SuccWalk(mem, head, l) && 0 <= j < k < |l|
    ensures l[j] != l[k]
    decreases |l| - k
  {
    hide GetPtr;
    assert SuccNode(mem, l[j], After(l, j)) && SuccNode(mem, l[k], After(l, k));
    if k + 1 < |l| {
      SuccWalkDistinct(mem, head, l, j + 1, k + 1);
    } else {
      assert SuccNode(mem, l[j + 1], After(l, j + 1));
    }
  }

  /** The list test leaves out the pred link of the first node. */
  lemma PassedListIsChain(mem: Memory, base: int, brk: int, i: int, head: int, l: seq<int>)
    requires SuccWalk(mem, head, l) && ListPasses(mem, base, brk, i, l)
    ensures Chain(mem, l) <==> (l != [] ==> LinkCells(mem, l[0]) && GetPtr(mem, l[0]) == 0)
  {
    hide GetPtr, ListIndexBySize, SizeField, AllocField;
    if l != [] {
      assert SuccNode(mem, l[0], After(l, 0));
      if GetPtr(mem, l[0]) == 0 {
        forall k | 0 <= k < |l| ensures l[k] != 0 && Node(mem, l[k], Before(l, k), After(l, k)) {
          assert SuccNode(mem, l[k], After(l, k));
          if k > 0 {
            assert NodePasses(mem, base, brk, i, l[k - 1], After(l, k - 1));
          }
        }
      }
    }
  }

  // ---- counting the listed blocks ----

  function SumLengths(lists: seq<seq<int>>): (n: nat) {
    if lists == [] then 0 else SumLengths(lists[..|lists| - 1]) + |lists[|lists| - 1]|
  }

  function Nodes(lists: seq<seq<int>>): set<int> {
    if lists == [] then {} else Nodes(lists[..|lists| - 1]) + RecencyList.Elements(lists[|lists| - 1])
  }

  lemma {:induction false} NodesMembers(lists: seq<seq<int>>, p: int)
    ensures p in Nodes(lists) <==> exists i, k :: At(lists, i, k, p)
  {
    if lists != [] {
      var n := |lists| - 1;
      NodesMembers(lists[..n], p);
      if i, k :| At(lists[..n], i, k, p) {
        assert At(lists, i, k, p);
      }
      if k :| 0 <= k < |lists[n]| && lists[n][k] == p {
        assert At(lists, n, k, p);
      }
      if i, k :| At(lists, i, k, p) {
        assert if i < n then At(lists[..n], i, k, p) else p in RecencyList.Elements(lists[n]);
      }
    }
  }

  /** No node is on two lists. */
  ghost predicate Separate(lists: seq<seq<int>>) {
    forall i, j, k, m, p | At(lists, i, k, p) && At(lists, j, m, p) :: i == j
  }

  lemma {:induction false} NodesCount(lists: seq<seq<int>>)
    requires Separate(lists) && forall i | 0 <= i < |lists| :: NoRepeats(lists[i])
    ensures |Nodes(lists)| == SumLengths(lists)
  {
    if lists != [] {
      var n := |lists| - 1;
      var front := lists[..n];
      assert forall i, k, p | At(front, i, k, p) :: At(lists, i, k, p);
      NodesCount(front);
      RecencyList.ElementsCount(lists[n]);
      forall p | p in Nodes(front) && p in RecencyList.Elements(lists[n]) ensures false {
        NodesMembers(front, p);
        var i, k :| At(front, i, k, p);
        var m :| 0 <= m < |lists[n]| && lists[n][m] == p;
        assert At(lists, i, k, p) && At(lists, n, m, p);
      }
    }
  }

  // ---- both directions ----

  /** All that mm_checkheap has looked at when it ends without a complaint: blocks is
      the tiling its heap walk has read, lists are the nodes its list walks have met. */
  ghost predicate Passed(mem: Memory, base: int, brk: int, heads: seq<int>, blocks: Blocks, top: int,
                         lists: seq<seq<int>>) {
    && GoodWalk(mem, base, brk, blocks, top)
    && |heads| == |lists| == NO_OF_SIZE_TYPE
    && (forall i | 0 <= i < NO_OF_SIZE_TYPE ::
          SuccWalk(mem, heads[i], lists[i]) && ListPasses(mem, base, brk, i, lists[i]))
    && |FreeSet(blocks)| == SumLengths(lists)
  }

  /** What it has not looked at: that the nodes of the lists are blocks, and that the
      first node of a list has no predecessor. */
  ghost predicate NodesAreBlocks(blocks: Blocks, lists: seq<seq<int>>) {
    forall i, k, p | At(lists, i, k, p) :: p in blocks
  }

  ghost predicate FirstNodesOk(mem: Memory, lists: seq<seq<int>>) {
    forall i | 0 <= i < |lists| && lists[i] != [] :: LinkCells(mem, lists[i][0]) && GetPtr(mem, lists[i][0]) == 0
  }

  /** And that the first word of size zero is the last word of the heap. */
  ghost predicate Unseen(mem: Memory, brk: int, blocks: Blocks, top: int, lists: seq<seq<int>>) {
    top == brk && FirstNodesOk(mem, lists) && NodesAreBlocks(blocks, lists)
  }

  /** Every node on a list that passes is inside the heap, has a clear allocated bit and a
      size of the list's class, and is the predecessor that its successor names. */
  lemma PassedNodes(mem: Memory, base: int, brk: int, heads: seq<int>, blocks: Blocks, top: int,
                    lists: seq<seq<int>>, i: int, k: int, p: int)
    requires Passed(mem, base, brk, heads, blocks, top, lists) && At(lists, i, k, p)
    ensures base <= p < brk && p - 4 in mem
    ensures !AllocField(mem[p - 4]) && ListIndexBySize(SizeField(mem[p - 4])) == i
    ensures k + 1 < |lists[i]| ==> LinkCells(mem, lists[i][k + 1]) && GetPtr(mem, lists[i][k + 1]) == p
  {
    hide GoodWalk, SizeField, AllocField, ListIndexBySize, GetPtr, FreeSet;
    assert ListPasses(mem, base, brk, i, lists[i]) && SuccWalk(mem, heads[i], lists[i]);
    assert NodePasses(mem, base, brk, i, p, After(lists[i], k));
    assert k + 1 < |lists[i]| ==> SuccNode(mem, lists[i][k + 1], After(lists[i], k + 1));
  }

  /** mm_checkheap and the invariant: what it looks at and what it leaves out are
      together exactly the invariant, for any memory and any two candidate views. */
  lemma PassedIsInvariant(mem: Memory, base: int, brk: int, heads: seq<int>, blocks: Blocks, top: int,
                          lists: seq<seq<int>>)
    requires Geometry(base, brk) && Mapped(mem, base, brk)
    ensures Passed(mem, base, brk, heads, blocks, top, lists) && Unseen(mem, brk, blocks, top, lists)
       <==> top == brk && HeapOk(mem, base, brk, heads, blocks, lists, {}) && Coalesced(blocks)
  {
    assert Unseen(mem, brk, blocks, top, lists) ==> top == brk;
    hide Passed, Unseen, HeapOk, Coalesced, Mapped, Geometry;
    if Passed(mem, base, brk, heads, blocks, top, lists) && Unseen(mem, brk, blocks, top, lists) {
      PassedGivesInvariant(mem, base, brk, heads, blocks, lists);
    }
    if top == brk && HeapOk(mem, base, brk, heads, blocks, lists, {}) && Coalesced(blocks) {
      InvariantPasses(mem, base, brk, heads, blocks, lists);
    }
  }

  lemma PassedGivesInvariant(mem: Memory, base: int, brk: int, heads: seq<int>, blocks: Blocks, lists: seq<seq<int>>)
    requires Geometry(base, brk) && Mapped(mem, base, brk)
    requires Passed(mem, base, brk, heads, blocks, brk, lists) && Unseen(mem, brk, blocks, brk, lists)
    ensures HeapOk(mem, base, brk, heads, blocks, lists, {}) && Coalesced(blocks)
  {
    hide SuccWalk, ListPasses, GetPtr, FreeSet, Mapped, Tagged, Aligned, Tiled, SumLengths;
    PassedListed(mem, base, brk, heads, blocks, lists);
    forall i | 0 <= i < NO_OF_SIZE_TYPE
      ensures Chain(mem, lists[i]) && heads[i] == if lists[i] == [] then 0 else lists[i][0]
    {
      PassedListIsChain(mem, base, brk, i, heads[i], lists[i]);
      HeadIsFirst(mem, heads[i], lists[i]);
    }
    hide Listed, Chain;
  }

  lemma HeadIsFirst(mem: Memory, head: int, l: seq<int>)
    requires SuccWalk(mem, head, l)
    ensures head == if l == [] then 0 else l[0]
  {
  }

  lemma PassedListed(mem: Memory, base: int, brk: int, heads: seq<int>, blocks: Blocks, lists: seq<seq<int>>)
    requires Passed(mem, base, brk, heads, blocks, brk, lists) && Unseen(mem, brk, blocks, brk, lists)
    ensures Listed(blocks, lists, {})
  {
    hide GetPtr, Tiled, Aligned, Coalesced, ListIndexBySize, SumLengths, FreeSet;
    forall i, k | 0 <= i < NO_OF_SIZE_TYPE && 0 <= k < |lists[i]|
      ensures IsFree(blocks, lists[i][k]) && ListIndexBySize(blocks[lists[i][k]].size) == i
    {
      assert At(lists, i, k, lists[i][k]);
      PassedNode(mem, base, brk, blocks, i, lists[i], k);
    }
    assert Members(blocks, lists, {});
    forall i | 0 <= i < NO_OF_SIZE_TYPE ensures NoRepeats(lists[i]) {
      SuccWalkNoRepeats(mem, heads[i], lists[i]);
    }
    hide SuccWalk, ListPasses, Passed, Unseen, WalkedTo;
    assert |FreeSet(blocks)| == SumLengths(lists) by { CountsAgree(mem, base, brk, heads, blocks, lists); }
    AllListed(blocks, lists);
  }

  lemma CountsAgree(mem: Memory, base: int, brk: int, heads: seq<int>, blocks: Blocks, lists: seq<seq<int>>)
    requires Passed(mem, base, brk, heads, blocks, brk, lists)
    ensures |FreeSet(blocks)| == SumLengths(lists)
  {
  }

  lemma PassedNode(mem: Memory, base: int, brk: int, blocks: Blocks, i: int, l: seq<int>, k: int)
    requires Tagged(mem, blocks) && ListPasses(mem, base, brk, i, l)
    requires 0 <= k < |l| && l[k] in blocks
    ensures IsFree(blocks, l[k]) && ListIndexBySize(blocks[l[k]].size) == i
  {
    hide GetPtr, ListIndexBySize, SizeField, AllocField;
    assert TagsOk(mem, l[k], blocks[l[k]]);
    assert NodePasses(mem, base, brk, i, l[k], After(l, k));
  }

  lemma MembersApart(blocks: Blocks, lists: seq<seq<int>>)
    requires |lists| == NO_OF_SIZE_TYPE && Members(blocks, lists, {})
    ensures Separate(lists) && Nodes(lists) <= FreeSet(blocks)
  {
    hide ListIndexBySize, Nodes;
    forall i, k, p | At(lists, i, k, p) ensures IsFree(blocks, p) && ListIndexBySize(blocks[p].size) == i {
      assert IsFree(blocks, lists[i][k]);
    }
    forall p | p in Nodes(lists) ensures p in FreeSet(blocks) {
      NodesMembers(lists, p);
      var i, k :| At(lists, i, k, p);
    }
  }

  /** As many nodes as free blocks: then every free block is a node. */
  lemma AllListed(blocks: Blocks, lists: seq<seq<int>>)
    requires |lists| == NO_OF_SIZE_TYPE && Members(blocks, lists, {})
    requires forall i | 0 <= i < NO_OF_SIZE_TYPE :: NoRepeats(lists[i])
    requires |FreeSet(blocks)| == SumLengths(lists)
    ensures Complete(blocks, lists, {})
  {
    MembersApart(blocks, lists);
    NodesCount(lists);
    SameCount(Nodes(lists), FreeSet(blocks));
    hide ListIndexBySize, Nodes;
    forall p | IsFree(blocks, p) ensures p in lists[ListIndexBySize(blocks[p].size)] {
      assert p in FreeSet(blocks);
      NodesMembers(lists, p);
      var i, k :| At(lists, i, k, p);
      assert lists[i][k] == p;
    }
  }

  lemma SameCount(a: set<int>, b: set<int>)
    requires a <= b && |a| == |b|
    ensures a == b
  {
    assert b == a + (b - a);
  }

  /** On the lists of the invariant there are as many nodes as free blocks. */
  lemma ListedCount(blocks: Blocks, lists: seq<seq<int>>)
    requires Listed(blocks, lists, {})
    ensures |FreeSet(blocks)| == SumLengths(lists)
  {
    hide ListIndexBySize, Nodes, SumLengths;
    MembersApart(blocks, lists);
    NodesCount(lists);
    forall p | p in FreeSet(blocks) ensures p in Nodes(lists) {
      var k := FindListed(blocks, lists, {}, p);
      assert At(lists, ListIndexBySize(blocks[p].size), k, p);
      NodesMembers(lists, p);
    }
    assert Nodes(lists) == FreeSet(blocks);
  }

  lemma InvariantPasses(mem: Memory, base: int, brk: int, heads: seq<int>, blocks: Blocks, lists: seq<seq<int>>)
    requires HeapOk(mem, base, brk, heads, blocks, lists, {}) && Coalesced(blocks)
    ensures Passed(mem, base, brk, heads, blocks, brk, lists) && Unseen(mem, brk, blocks, brk, lists)
  {
    assert Bounded(blocks, base + 16, brk);
    hide GetPtr, Coalesced, ListIndexBySize, SumLengths, FreeSet, SizeField, AllocField, Tiled, Aligned, Mapped, Chain,
         SuccWalk, ListPasses;
    ListedCount(blocks, lists);
    forall i | 0 <= i < NO_OF_SIZE_TYPE
      ensures SuccWalk(mem, heads[i], lists[i]) && ListPasses(mem, base, brk, i, lists[i])
      ensures lists[i] != [] ==> LinkCells(mem, lists[i][0]) && GetPtr(mem, lists[i][0]) == 0
    {
      InvariantList(mem, base, brk, heads, blocks, lists, i);
    }
    forall i, k, p | At(lists, i, k, p) ensures p in blocks {
      assert IsFree(blocks, lists[i][k]);
    }
  }

  lemma InvariantList(mem: Memory, base: int, brk: int, heads: seq<int>, blocks: Blocks, lists: seq<seq<int>>, i: int)
    requires HeapOk(mem, base, brk, heads, blocks, lists, {}) && 0 <= i < NO_OF_SIZE_TYPE
    ensures SuccWalk(mem, heads[i], lists[i]) && ListPasses(mem, base, brk, i, lists[i])
    ensures lists[i] != [] ==> LinkCells(mem, lists[i][0]) && GetPtr(mem, lists[i][0]) == 0
  {
    hide GetPtr, ListIndexBySize, SizeField, AllocField, Mapped, Aligned, Linked, Disjoint;
    var l := lists[i];
    assert Chain(mem, l);
    forall k | 0 <= k < |l|
      ensures SuccNode(mem, l[k], After(l, k)) && NodePasses(mem, base, brk, i, l[k], After(l, k))
      ensures k == 0 ==> LinkCells(mem, l[0]) && GetPtr(mem, l[0]) == 0
    {
      var p := l[k];
      assert IsFree(blocks, p) && TagsOk(mem, p, blocks[p]);
      assert Node(mem, p, Before(l, k), After(l, k));
      if k + 1 < |l| {
        assert Node(mem, l[k + 1], Before(l, k + 1), After(l, k + 1));
      }
    }
  }
}
