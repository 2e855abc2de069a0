/** The size-class view of the heap: twelve NULL-ended doubly linked lists whose
    links are threaded through the payloads of the free blocks. */
module FreeLists {
  import opened HeapWords
  import opened HeapTiling

  const NO_OF_SIZE_TYPE := 12

  /** The class of a block size; also the choice of list head. */
  function ListIndexBySize(size: int): (i: int)
    ensures 0 <= i < NO_OF_SIZE_TYPE
  {
    if size <= 24 * 1 then 0
    else if size <= 24 * 2 then 1
    else if size <= 24 * 4 then 2
    else if size <= 24 * 8 then 3
    else if size <= 24 * 16 then 4
    else if size <= 24 * 32 then 5
    else if size <= 24 * 64 then 6
    else if size <= 24 * 128 then 7
    else if size <= 24 * 256 then 8
    else if size <= 24 * 512 then 9
    else if size <= 24 * 1024 then 10
    else NO_OF_SIZE_TYPE - 1
  }

  /** Classes follow sizes, and a class below the last spans less than a factor of two. */
  lemma ClassWidth(a: int, b: int)
    requires MIN_BLK_SIZE <= a && MIN_BLK_SIZE <= b
    ensures a <= b ==> ListIndexBySize(a) <= ListIndexBySize(b)
    ensures ListIndexBySize(a) == ListIndexBySize(b) < NO_OF_SIZE_TYPE - 1 ==> a < 2 * b
  {
  }

  /** Up to 24 bytes is class 0, and twice the size is the next class, if there is one. */
  lemma ClassDoubles(size: int)
    ensures ListIndexBySize(size) == 0 <==> size <= 24
    ensures size > 12 ==>
              ListIndexBySize(2 * size) == if ListIndexBySize(size) < 11 then ListIndexBySize(size) + 1 else 11
  {
  }

  // ---- which blocks are on which list ----

  /** Everything listed is a free block of the list's class; blocks in pending are
      free but momentarily on no list. */
  ghost predicate Members(blocks: Blocks, lists: seq<seq<int>>, pending: set<int>)
    requires |lists| == NO_OF_SIZE_TYPE
  {
    forall i, k | 0 <= i < NO_OF_SIZE_TYPE && 0 <= k < |lists[i]| ::
      && IsFree(blocks, lists[i][k]) && lists[i][k] !in pending
      && ListIndexBySize(blocks[lists[i][k]].size) == i
  }

  ghost predicate Complete(blocks: Blocks, lists: seq<seq<int>>, pending: set<int>)
    requires |lists| == NO_OF_SIZE_TYPE
  {
    forall p | IsFree(blocks, p) && p !in pending :: p in lists[ListIndexBySize(blocks[p].size)]
  }

  ghost predicate NoRepeats(l: seq<int>) {
    forall j, k | 0 <= j < k < |l| :: l[j] != l[k]
  }

  ghost predicate Listed(blocks: Blocks, lists: seq<seq<int>>, pending: set<int>) {
    && |lists| == NO_OF_SIZE_TYPE
    && Members(blocks, lists, pending)
    && Complete(blocks, lists, pending)
    && (forall i | 0 <= i < NO_OF_SIZE_TYPE :: NoRepeats(lists[i]))
  }

  function WithoutAt(l: seq<int>, k: int): seq<int>
    requires 0 <= k < |l|
  {
    l[..k] + l[k + 1..]
  }

  lemma PushListed(blocks: Blocks, lists: seq<seq<int>>, pending: set<int>, p: int)
    requires Listed(blocks, lists, pending)
    requires IsFree(blocks, p) && p in pending
    ensures var i := ListIndexBySize(blocks[p].size);
            Listed(blocks, lists[i := [p] + lists[i]], pending - {p})
  {
    hide ListIndexBySize;
    var i := ListIndexBySize(blocks[p].size);
    var after := lists[i := [p] + lists[i]];
    assert forall q | q in lists[i] :: q in after[i] && q != p by {
      forall q | q in lists[i] ensures q in after[i] && q != p {
        var k :| 0 <= k < |lists[i]| && lists[i][k] == q;
        assert after[i][k + 1] == q;
      }
    }
    assert after[i][0] == p;
  }

  lemma RemoveListed(blocks: Blocks, lists: seq<seq<int>>, pending: set<int>, i: int, k: int)
    requires Listed(blocks, lists, pending)
    requires 0 <= i < NO_OF_SIZE_TYPE && 0 <= k < |lists[i]|
    ensures Listed(blocks, lists[i := WithoutAt(lists[i], k)], pending + {lists[i][k]})
  {
    hide ListIndexBySize;
    var p := lists[i][k];
    var l := WithoutAt(lists[i], k);
    assert forall j | 0 <= j < |l| :: l[j] == lists[i][if j < k then j else j + 1];
    assert forall q | q in lists[i] && q != p :: q in l by {
      forall q | q in lists[i] && q != p ensures q in l {
        var j :| 0 <= j < |lists[i]| && lists[i][j] == q;
        assert l[if j < k then j else j - 1] == q;
      }
    }
    var after := lists[i := l];
    assert NoRepeats(l);
    assert Members(blocks, after, pending + {p});
    assert Complete(blocks, after, pending + {p});
  }

  /** A listed block is found at some index of its class's list. */
  lemma FindListed(blocks: Blocks, lists: seq<seq<int>>, pending: set<int>, p: int) returns (k: int)
    requires Listed(blocks, lists, pending)
    requires IsFree(blocks, p) && p !in pending
    ensures var l := lists[ListIndexBySize(blocks[p].size)];
            0 <= k < |l| && l[k] == p
  {
    hide ListIndexBySize;
    var l := lists[ListIndexBySize(blocks[p].size)];
    assert p in l;
    k :| 0 <= k < |l| && l[k] == p;
  }

  predicate At(lists: seq<seq<int>>, i: int, k: int, p: int) {
    0 <= i < |lists| && 0 <= k < |lists[i]| && lists[i][k] == p
  }

  /** The lists are exact: a block is free if and only if it is on a list, it is then
      on one list only, once, and that list is the one of its size class. */
  lemma ListsExact(blocks: Blocks, lists: seq<seq<int>>, p: int)
    requires Listed(blocks, lists, {})
    ensures IsFree(blocks, p) <==> exists i, k :: At(lists, i, k, p)
    ensures forall i, k | At(lists, i, k, p) :: i == ListIndexBySize(blocks[p].size)
    ensures forall i, k, j, m | At(lists, i, k, p) && At(lists, j, m, p) :: i == j && k == m
  {
    hide ListIndexBySize;
    if IsFree(blocks, p) {
      var k := FindListed(blocks, lists, {}, p);
      assert At(lists, ListIndexBySize(blocks[p].size), k, p);
    }
  }

  // ---- the links in memory ----

  predicate LinkCells(mem: Memory, p: int) {
    p in mem && p + 4 in mem && p + 8 in mem && p + 12 in mem
  }

  function Before(l: seq<int>, k: int): int
    requires 0 <= k < |l|
  {
    if k == 0 then 0 else l[k - 1]
  }

  function After(l: seq<int>, k: int): int
    requires 0 <= k < |l|
  {
    if k + 1 == |l| then 0 else l[k + 1]
  }

  ghost predicate Node(mem: Memory, p: int, pred: int, succ: int) {
    LinkCells(mem, p) && GetPtr(mem, p) == pred && GetPtr(mem, p + 8) == succ
  }

  /** l is laid out in memory as a doubly linked list ended by NULL both ways. */
  ghost predicate Chain(mem: Memory, l: seq<int>) {
    forall k {:trigger Before(l, k)} {:trigger After(l, k)} | 0 <= k < |l| ::
      l[k] != 0 && Node(mem, l[k], Before(l, k), After(l, k))
  }

  predicate NodesApart(p: int, q: int) {
    p + 16 <= q || q + 16 <= p
  }

  ghost predicate Apart(l: seq<int>) {
    forall j, k | 0 <= j < |l| && 0 <= k < |l| && j != k :: NodesApart(l[j], l[k])
  }

  /** after is mem with the pointer v stored at a. */
  ghost predicate PtrStored(mem: Memory, after: Memory, a: int, v: int) {
    && a in mem && a + 4 in mem && after.Keys == mem.Keys
    && GetPtr(after, a) == v
    && (forall x | x in mem && x != a && x != a + 4 :: after[x] == mem[x])
  }

  lemma NodeFrame(mem: Memory, after: Memory, p: int, pred: int, succ: int)
    requires Node(mem, p, pred, succ)
    requires forall x | x in mem && p <= x < p + 16 :: x in after && after[x] == mem[x]
    ensures Node(after, p, pred, succ)
  {
    assert p in after && p + 4 in after && p + 8 in after && p + 12 in after;
  }

  lemma ChainFrame(mem: Memory, after: Memory, l: seq<int>)
    requires Chain(mem, l)
    requires forall k, x | 0 <= k < |l| && x in mem && l[k] <= x < l[k] + 16 :: x in after && after[x] == mem[x]
    ensures Chain(after, l)
  {
    forall k | 0 <= k < |l| ensures Node(after, l[k], Before(l, k), After(l, k)) {
      NodeFrame(mem, after, l[k], Before(l, k), After(l, k));
    }
  }

  lemma NodeOtherStore(mem: Memory, after: Memory, a: int, v: int, p: int, pred: int, succ: int)
    requires PtrStored(mem, after, a, v) && Node(mem, p, pred, succ)
    requires a + 8 <= p || p + 16 <= a
    ensures Node(after, p, pred, succ)
  {
  }

  lemma NodePredStore(mem: Memory, after: Memory, p: int, v: int, pred: int, succ: int)
    requires PtrStored(mem, after, p, v) && Node(mem, p, pred, succ)
    ensures Node(after, p, v, succ)
  {
  }

  lemma NodeSuccStore(mem: Memory, after: Memory, p: int, v: int, pred: int, succ: int)
    requires PtrStored(mem, after, p + 8, v) && Node(mem, p, pred, succ)
    ensures Node(after, p, pred, v)
  {
  }

  /** The three stores of list_push_front. */
  ghost predicate PushStores(mem: Memory, m1: Memory, m2: Memory, after: Memory, l: seq<int>, p: int) {
    && PtrStored(mem, m1, p, 0)
    && (if l == [] then m2 == m1 else PtrStored(m1, m2, l[0], p))
    && PtrStored(m2, after, p + 8, if l == [] then 0 else l[0])
  }

  lemma ChainPush(mem: Memory, m1: Memory, m2: Memory, after: Memory, l: seq<int>, p: int)
    requires Chain(mem, l) && Apart([p] + l)
    requires p != 0
    requires PushStores(mem, m1, m2, after, l, p)
    ensures Chain(after, [p] + l)
  {
    var r := [p] + l;
    forall k | 0 <= k < |r| ensures r[k] != 0 && Node(after, r[k], Before(r, k), After(r, k)) {
      hide PushStores, Chain, Apart, Node;
      assert Before(r, k) == if k == 0 then 0 else if k == 1 then p else Before(l, k - 1);
      assert After(r, k) == if k == 0 then (if l == [] then 0 else l[0]) else After(l, k - 1);
      if k == 0 {
        PushFirstNode(mem, m1, m2, after, l, p);
      } else {
        PushOldNode(mem, m1, m2, after, l, p, k - 1);
      }
    }
  }

  lemma PushFirstNode(mem: Memory, m1: Memory, m2: Memory, after: Memory, l: seq<int>, p: int)
    requires Apart([p] + l)
    requires PushStores(mem, m1, m2, after, l, p)
    ensures Node(after, p, 0, if l == [] then 0 else l[0])
  {
    assert GetPtr(m1, p) == 0;
    if l != [] {
      assert ([p] + l)[0] == p && ([p] + l)[1] == l[0];
    }
    assert GetPtr(m2, p) == 0;
  }

  lemma PushOldNode(mem: Memory, m1: Memory, m2: Memory, after: Memory, l: seq<int>, p: int, k: int)
    requires Chain(mem, l) && Apart([p] + l)
    requires PushStores(mem, m1, m2, after, l, p)
    requires 0 <= k < |l|
    ensures l[k] != 0 && Node(after, l[k], if k == 0 then p else Before(l, k), After(l, k))
  {
    hide PtrStored, Node;
    assert Node(mem, l[k], Before(l, k), After(l, k));
    assert ([p] + l)[0] == p && ([p] + l)[1] == l[0] && ([p] + l)[k + 1] == l[k];
    NodeOtherStore(mem, m1, p, 0, l[k], Before(l, k), After(l, k));
    if k == 0 {
      NodePredStore(m1, m2, l[0], p, Before(l, k), After(l, k));
      NodeOtherStore(m2, after, p + 8, l[0], l[k], p, After(l, k));
    } else {
      NodeOtherStore(m1, m2, l[0], p, l[k], Before(l, k), After(l, k));
      NodeOtherStore(m2, after, p + 8, l[0], l[k], Before(l, k), After(l, k));
    }
  }

  /** The stores of remove_from_list: the neighbours of l[k] are joined. */
  ghost predicate RemoveStores(mem: Memory, m1: Memory, after: Memory, l: seq<int>, k: int)
    requires 0 <= k < |l|
  {
    && (if k + 1 == |l| then m1 == mem else PtrStored(mem, m1, l[k + 1], Before(l, k)))
    && (if k == 0 then after == m1 else PtrStored(m1, after, l[k - 1] + 8, After(l, k)))
  }

  lemma ChainRemove(mem: Memory, m1: Memory, after: Memory, l: seq<int>, k: int)
    requires Chain(mem, l) && Apart(l)
    requires 0 <= k < |l|
    requires RemoveStores(mem, m1, after, l, k)
    ensures Chain(after, WithoutAt(l, k))
  {
    var r := WithoutAt(l, k);
    forall j | 0 <= j < |r| ensures r[j] != 0 && Node(after, r[j], Before(r, j), After(r, j)) {
      hide RemoveStores, Chain, Apart, Node;
      ChainRemoveNode(mem, m1, after, l, k, if j < k then j else j + 1);
      assert Before(r, j) == if j == k then Before(l, k) else Before(l, if j < k then j else j + 1);
      assert After(r, j) == if j + 1 == k then After(l, k) else After(l, if j < k then j else j + 1);
    }
  }

  lemma ChainRemoveNode(mem: Memory, m1: Memory, after: Memory, l: seq<int>, k: int, j: int)
    requires Chain(mem, l) && Apart(l)
    requires 0 <= k < |l| && 0 <= j < |l| && j != k
    requires RemoveStores(mem, m1, after, l, k)
    ensures l[j] != 0
    ensures Node(after, l[j], if j == k + 1 then Before(l, k) else Before(l, j),
                              if j + 1 == k then After(l, k) else After(l, j))
  {
    assert l[j] != 0 && Node(mem, l[j], Before(l, j), After(l, j));
    assert k > 0 && j + 1 != k ==> NodesApart(l[k - 1], l[j]);
    assert k + 1 < |l| && j != k + 1 ==> NodesApart(l[k + 1], l[j]);
    assert k + 1 < |l| && j != k + 1 ==> l[k + 1] != l[j];
    assert k > 0 && j + 1 != k ==> l[k - 1] != l[j];
    hide PtrStored, Node, Chain, Apart, NodesApart, Before, After;
    var pred := if j == k + 1 then Before(l, k) else Before(l, j);
    if k + 1 == |l| {
      assert m1 == mem;
    } else {
      PredAfterStore(mem, m1, l[k + 1], Before(l, k), l[j], Before(l, j), After(l, j));
    }
    if k == 0 {
      assert after == m1;
    } else {
      SuccAfterStore(m1, after, l[k - 1], After(l, k), l[j], pred, After(l, j));
    }
  }

  lemma PredAfterStore(mem: Memory, after: Memory, q: int, v: int, p: int, pred: int, succ: int)
    requires PtrStored(mem, after, q, v) && Node(mem, p, pred, succ)
    requires p == q || NodesApart(q, p)
    ensures Node(after, p, if p == q then v else pred, succ)
  {
    if p == q {
      NodePredStore(mem, after, p, v, pred, succ);
    } else {
      NodeOtherStore(mem, after, q, v, p, pred, succ);
    }
  }

  lemma SuccAfterStore(mem: Memory, after: Memory, q: int, v: int, p: int, pred: int, succ: int)
    requires PtrStored(mem, after, q + 8, v) && Node(mem, p, pred, succ)
    requires p == q || NodesApart(q, p)
    ensures Node(after, p, pred, if p == q then v else succ)
  {
    if p == q {
      NodeSuccStore(mem, after, p, v, pred, succ);
    } else {
      NodeOtherStore(mem, after, q + 8, v, p, pred, succ);
    }
  }
}
