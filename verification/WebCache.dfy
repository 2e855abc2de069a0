/** The store of proxy_lab/cache.c: a linked list of items with ages, run one
    operation at a time, and its agreement with a least-recently-used list. */
module WebCache {
  import opened RecencyList

  const MAX_CACHE_SIZE := 1049000
  const MAX_OBJECT_SIZE := 102400

  type Bytes = seq<int>

  // ---- the simple store: most recently used first ----

  datatype Item = Item(tag: string, data: Bytes)

  function Sum(r: seq<Item>): (n: int)
    ensures n >= 0
  {
    if r == [] then 0 else Sum(r[..|r| - 1]) + |r[|r| - 1].data|
  }

  ghost predicate TagsDistinct(r: seq<Item>) {
    forall i, j | 0 <= i < j < |r| :: r[i].tag != r[j].tag
  }

  predicate HasTag(r: seq<Item>, tag: string) {
    exists i :: 0 <= i < |r| && r[i].tag == tag
  }

  /** Drops least recently used items until the rest fit. */
  function Trim(r: seq<Item>, room: int): (kept: seq<Item>)
    ensures |kept| <= |r| && kept == r[..|kept|]
  {
    if r == [] || Sum(r) <= room then r else Trim(r[..|r| - 1], room)
  }

  lemma {:induction false} SumMonotone(r: seq<Item>, k: nat)
    requires k <= |r|
    ensures Sum(r[..k]) <= Sum(r)
  {
    if k == |r| {
      assert r[..k] == r;
    } else {
      assert r[..|r| - 1][..k] == r[..k];
      SumMonotone(r[..|r| - 1], k);
    }
  }

  /** What Trim keeps fits, and keeping one item more would not. */
  lemma {:induction false} TrimIsLongest(r: seq<Item>, room: int, k: nat)
    requires room >= 0 && k <= |r|
    ensures Sum(Trim(r, room)) <= room
    ensures Sum(r[..k]) <= room <==> k <= |Trim(r, room)|
  {
    if r == [] || Sum(r) <= room {
      SumMonotone(r, k);
    } else {
      var front := r[..|r| - 1];
      if k == |r| {
        assert r[..k] == r;
        TrimIsLongest(front, room, |front|);
      } else {
        assert front[..k] == r[..k];
        TrimIsLongest(front, room, k);
      }
    }
  }

  /** The store after write_cache. */
  function Written(r: seq<Item>, tag: string, data: Bytes): seq<Item> {
    if |data| > MAX_OBJECT_SIZE then r
    else [Item(tag, data)] + Trim(r, MAX_CACHE_SIZE - |data|)
  }

  /** An object of more than 102400 bytes leaves the store alone; any other comes first,
      and of the rest the most recent k items stay if they take no more than 1049000
      bytes together with it. */
  lemma WrittenMeans(r: seq<Item>, tag: string, data: Bytes, k: nat)
    requires k <= |r|
    ensures |data| > 102400 ==> Written(r, tag, data) == r
    ensures |data| <= 102400 ==>
              var after := Written(r, tag, data);
              && 1 <= |after| <= |r| + 1 && after == [Item(tag, data)] + r[..|after| - 1]
              && (k < |after| <==> |data| + Sum(r[..k]) <= 1049000)
              && Sum(after) <= 1049000
  {
    if |data| <= MAX_OBJECT_SIZE {
      TrimIsLongest(r, MAX_CACHE_SIZE - |data|, k);
      SumOne(Item(tag, data));
      SumJoin([Item(tag, data)], Trim(r, MAX_CACHE_SIZE - |data|));
    }
    hide Trim, Sum;
  }

  /** Tags stay distinct exactly when no item that is kept has the new tag. */
  lemma WrittenDistinct(r: seq<Item>, tag: string, data: Bytes)
    requires TagsDistinct(r)
    ensures TagsDistinct(Written(r, tag, data))
       <==> |data| > MAX_OBJECT_SIZE || !HasTag(Trim(r, MAX_CACHE_SIZE - |data|), tag)
  {
    var kept := Trim(r, MAX_CACHE_SIZE - |data|);
    var after := [Item(tag, data)] + kept;
    hide Trim;
    assert forall i | 1 <= i < |after| :: after[i] == kept[i - 1] == r[i - 1];
    if i :| 0 <= i < |kept| && kept[i].tag == tag {
      assert after[0].tag == after[i + 1].tag;
    }
    if !HasTag(kept, tag) {
      assert forall i | 1 <= i < |after| :: after[i].tag != tag;
    }
  }

  /** The items of r with the tag, or those without it, in order. */
  function Those(r: seq<Item>, tag: string, with: bool): seq<Item> {
    if r == [] then []
    else if (r[0].tag == tag) == with then [r[0]] + Those(r[1..], tag, with)
    else Those(r[1..], tag, with)
  }

  function Reversed<T>(l: seq<T>): (r: seq<T>)
    ensures |r| == |l| && forall i | 0 <= i < |l| :: r[i] == l[|l| - 1 - i]
  {
    if l == [] then [] else Reversed(l[1..]) + [l[0]]
  }

  /** The store after get_hit: the items with the tag come first. Of several, the one
      that is last in the list, which was written first, is the one returned. */
  function Touched(listing: seq<Item>, r: seq<Item>, tag: string): seq<Item> {
    Reversed(Those(listing, tag, true)) + Those(r, tag, false)
  }

  lemma {:induction false} ThoseMembers(r: seq<Item>, tag: string, with: bool)
    ensures forall x :: x in Those(r, tag, with) <==> x in r && (x.tag == tag) == with
  {
    if r != [] {
      ThoseMembers(r[1..], tag, with);
      assert r == [r[0]] + r[1..];
    }
  }

  lemma {:induction false} ThoseAll(r: seq<Item>, tag: string)
    requires !HasTag(r, tag)
    ensures Those(r, tag, true) == [] && Those(r, tag, false) == r
  {
    if r != [] {
      assert forall i | 0 <= i < |r[1..]| :: r[1..][i] == r[i + 1];
      assert r[0].tag != tag;
      ThoseAll(r[1..], tag);
    }
  }

  /** With distinct tags one item moves to the front. */
  lemma {:induction false} OneHit(r: seq<Item>, tag: string, p: nat)
    requires TagsDistinct(r) && p < |r| && r[p].tag == tag
    ensures Those(r, tag, true) == [r[p]] && Those(r, tag, false) == r[..p] + r[p + 1..]
  {
    var rest := r[1..];
    assert forall i | 0 <= i < |rest| :: rest[i] == r[i + 1];
    SliceRest(r, p);
    if p == 0 {
      assert !HasTag(rest, tag);
      ThoseAll(rest, tag);
    } else {
      OneHit(rest, tag, p - 1);
    }
  }

  lemma SliceRest<T>(r: seq<T>, p: nat)
    requires p < |r|
    ensures p == 0 ==> r[..p] + r[p + 1..] == r[1..]
    ensures p > 0 ==> r[..p] + r[p + 1..] == [r[0]] + (r[1..][..p - 1] + r[1..][p..])
  {
  }

  lemma TouchedDistinct(listing: seq<Item>, r: seq<Item>, x: Item)
    requires TagsDistinct(r) && TagsDistinct(listing) && x in r && x in listing
    ensures Touched(listing, r, x.tag) == MoveToFront(r, x) && TagsDistinct(MoveToFront(r, x))
  {
    var p :| 0 <= p < |r| && r[p] == x;
    var q :| 0 <= q < |listing| && listing[q] == x;
    OneHit(r, x.tag, p);
    OneHit(listing, x.tag, q);
    assert Reversed([x]) == [x];
    hide Those, TagsDistinct, MoveToFront, Reversed;
    MovedTags(r, x, p);
  }

  lemma MovedTags(r: seq<Item>, x: Item, p: nat)
    requires p < |r| && r[p] == x && TagsDistinct(r)
    ensures MoveToFront(r, x) == [x] + (r[..p] + r[p + 1..]) && TagsDistinct(MoveToFront(r, x))
  {
    assert forall i | 0 <= i < p :: r[i].tag != r[p].tag;
    WithoutAt(r, x, p);
    hide Without;
    MovedDistinct(r, p);
  }

  lemma MovedDistinct(r: seq<Item>, p: nat)
    requires p < |r| && TagsDistinct(r)
    ensures TagsDistinct([r[p]] + (r[..p] + r[p + 1..]))
  {
    var moved := [r[p]] + (r[..p] + r[p + 1..]);
    assert forall k | 1 <= k < |moved| :: moved[k] == r[if k <= p then k - 1 else k];
  }

  /** Items i and j are the first and the last of the listing with the tag: the newest
      and the oldest reply under it. */
  ghost predicate Ends(listing: seq<Item>, tag: string, i: int, j: int) {
    && 0 <= i <= j < |listing| && listing[i].tag == tag && listing[j].tag == tag
    && (forall k | 0 <= k < i :: listing[k].tag != tag)
    && (forall k | j < k < |listing| :: listing[k].tag != tag)
  }

  lemma {:induction false} ThoseEnds(listing: seq<Item>, tag: string, i: int, j: int) returns (hits: seq<Item>)
    requires Ends(listing, tag, i, j)
    ensures hits == Those(listing, tag, true) && hits != []
    ensures hits[0] == listing[i] && hits[|hits| - 1] == listing[j]
  {
    var rest := listing[1..];
    assert forall k | 0 <= k < |rest| :: rest[k] == listing[k + 1];
    if i > 0 {
      hits := ThoseEnds(rest, tag, i - 1, j - 1);
    } else if j == 0 {
      assert !HasTag(rest, tag);
      ThoseAll(rest, tag);
      hits := [listing[0]];
    } else {
      var next := NextWith(rest, tag, j - 1);
      var tail := ThoseEnds(rest, tag, next, j - 1);
      hits := [listing[0]] + tail;
    }
  }

  lemma {:induction false} NextWith(l: seq<Item>, tag: string, j: int) returns (i: int)
    requires 0 <= j < |l| && l[j].tag == tag
    ensures 0 <= i <= j && l[i].tag == tag && forall k | 0 <= k < i :: l[k].tag != tag
  {
    if l[0].tag == tag {
      i := 0;
    } else {
      assert forall k | 0 <= k < |l| - 1 :: l[1..][k] == l[k + 1];
      i := NextWith(l[1..], tag, j - 1);
      i := i + 1;
    }
  }

  /** A hit returns the oldest reply under the tag, which is the newest exactly if the
      two have the same data; and of the replies under the tag the newest is then the
      least recent. */
  lemma OlderDuplicateIsRead(listing: seq<Item>, r: seq<Item>, tag: string, i: int, j: int)
    requires Ends(listing, tag, i, j)
    ensures var after, n := Touched(listing, r, tag), |Those(listing, tag, true)|;
            && 0 < n <= |after| && after[0] == listing[j] && after[n - 1] == listing[i]
            && (after[0] == listing[i] <==> listing[i].data == listing[j].data)
            && (forall k | n <= k < |after| :: after[k].tag != tag)
  {
    var hits := ThoseEnds(listing, tag, i, j);
    ThoseMembers(r, tag, false);
    var others := Those(r, tag, false);
    hide Those;
    assert Reversed(hits)[0] == hits[|hits| - 1] && Reversed(hits)[|hits| - 1] == hits[0];
    forall k | 0 <= k < |others| ensures others[k].tag != tag {
      assert others[k] in others;
    }
  }

  lemma {:induction false} SumJoin(a: seq<Item>, b: seq<Item>)
    ensures Sum(a + b) == Sum(a) + Sum(b)
  {
    if b == [] {
      assert a + b == a;
    } else {
      var last := |b| - 1;
      assert (a + b)[..|a + b| - 1] == a + b[..last];
      SumJoin(a, b[..last]);
    }
  }

  lemma SumOne(x: Item)
    ensures Sum([x]) == |x.data|
  {
    assert [x][..0] == [];
  }

  lemma MovedSum(r: seq<Item>, p: nat)
    requires p < |r|
    ensures Sum([r[p]] + (r[..p] + r[p + 1..])) == Sum(r)
  {
    hide Sum;
    SumJoin([r[p]], r[..p] + r[p + 1..]);
    SumJoin(r[..p], r[p + 1..]);
    SumJoin(r[..p], [r[p]] + r[p + 1..]);
    SumJoin([r[p]], r[p + 1..]);
    assert r == r[..p] + ([r[p]] + r[p + 1..]);
  }

  // ---- the linked list ----

  class CacheItem {
    const tag: string
    const data: Bytes
    const size: nat
    /** Which write it came from. */
    ghost const stamp: nat
    var age: int
    var next: CacheItem?

    constructor (t: string, d: Bytes, ghost written: nat)
      ensures tag == t && data == d && size == |d| && stamp == written
    {
      tag, data, size, stamp := t, d, |d|, written;
      age := *;
      next := null;
    }

    function Value(): Item {
      Item(tag, data)
    }
  }

  function Values(l: seq<CacheItem>): (r: seq<Item>)
    ensures |r| == |l|
    ensures forall i | 0 <= i < |l| :: r[i] == l[i].Value()
  {
    seq(|l|, i requires 0 <= i < |l| => l[i].Value())
  }

  ghost predicate Linked(head: CacheItem?, l: seq<CacheItem>)
    reads l`next
  {
    && head == (if l == [] then null else l[0])
    && (forall i {:trigger l[i].next} | 0 <= i < |l| :: l[i].next == if i + 1 < |l| then l[i + 1] else null)
  }

  /** The list order: newest first. */
  ghost predicate NewestFirst(l: seq<CacheItem>) {
    forall i, j | 0 <= i < j < |l| :: l[i].stamp > l[j].stamp
  }

  /** The recency order: by age, and among equals the older item first. */
  predicate Sooner(age: int, stamp: nat, age': int, stamp': nat) {
    age < age' || (age == age' && stamp < stamp')
  }

  ghost predicate InOrder(l: seq<CacheItem>)
    reads l`age
  {
    && (forall i | 0 <= i < |l| :: l[i].age >= 1)
    && (forall i, j | 0 <= i < j < |l| :: Sooner(l[i].age, l[i].stamp, l[j].age, l[j].stamp))
  }

  /** No two ages are the same: they grow along the recency order. */
  ghost predicate StrictAges(l: seq<CacheItem>)
    reads l`age
  {
    forall i, j | 0 <= i < j < |l| :: l[i].age < l[j].age
  }

  ghost predicate SizesOk(l: seq<CacheItem>) {
    forall x | x in l :: x.size == |x.data|
  }

  ghost predicate SameItems(l: seq<CacheItem>, m: seq<CacheItem>) {
    (forall x | x in l :: x in m) && (forall x | x in m :: x in l)
  }

  // ---- ages ----

  /** The ages at one moment. */
  ghost function AgesOf(l: seq<CacheItem>): map<CacheItem, int>
    reads l`age
  {
    map x | x in l :: x.age
  }

  ghost predicate WasInOrder(l: seq<CacheItem>, ages: map<CacheItem, int>) {
    && (forall x | x in l :: x in ages && ages[x] >= 1)
    && (forall i, j | 0 <= i < j < |l| :: Sooner(ages[l[i]], l[i].stamp, ages[l[j]], l[j].stamp))
  }

  ghost predicate WasStrict(l: seq<CacheItem>, ages: map<CacheItem, int>) {
    && (forall x | x in l :: x in ages)
    && (forall i, j | 0 <= i < j < |l| :: ages[l[i]] < ages[l[j]])
  }

  lemma RecordAges(l: seq<CacheItem>)
    requires InOrder(l)
    ensures WasInOrder(l, AgesOf(l))
    ensures StrictAges(l) ==> WasStrict(l, AgesOf(l))
  {
  }

  /** All items one older, but for those with the tag if there is one to look for. */
  ghost predicate Aged(l: seq<CacheItem>, ages: map<CacheItem, int>)
    reads l`age
  {
    forall x | x in l :: x in ages && x.age == ages[x] + 1
  }

  ghost predicate AgedBut(l: seq<CacheItem>, ages: map<CacheItem, int>, tag: string)
    reads l`age
  {
    forall x | x in l :: x in ages && x.age == if x.tag == tag then 1 else ages[x] + 1
  }

  lemma AgedInOrder(l: seq<CacheItem>, ages: map<CacheItem, int>)
    requires WasInOrder(l, ages) && Aged(l, ages)
    ensures InOrder(l)
  {
    assert forall i | 0 <= i < |l| :: l[i] in l;
  }

  // ---- the items with a tag ----

  function Hits(l: seq<CacheItem>, tag: string, with: bool): seq<CacheItem> {
    if l == [] then []
    else if (l[0].tag == tag) == with then [l[0]] + Hits(l[1..], tag, with)
    else Hits(l[1..], tag, with)
  }

  lemma {:induction false} HitsMembers(l: seq<CacheItem>, tag: string, with: bool) returns (h: seq<CacheItem>)
    ensures h == Hits(l, tag, with)
    ensures forall j | 0 <= j < |h| :: h[j] in l && (h[j].tag == tag) == with
    ensures forall x | x in l && (x.tag == tag) == with :: x in h
  {
    h := [];
    if l != [] {
      var rest := HitsMembers(l[1..], tag, with);
      assert l == [l[0]] + l[1..];
      h := if (l[0].tag == tag) == with then [l[0]] + rest else rest;
      forall j | 0 <= j < |h| ensures h[j] in l && (h[j].tag == tag) == with {
        if (l[0].tag == tag) != with {
          assert h[j] == rest[j];
        } else if j > 0 {
          assert h[j] == rest[j - 1];
        }
      }
    }
  }

  lemma {:induction false} HitsValues(l: seq<CacheItem>, tag: string, with: bool)
    ensures Values(Hits(l, tag, with)) == Those(Values(l), tag, with)
  {
    if l != [] {
      HitsValues(l[1..], tag, with);
      assert Values(l)[1..] == Values(l[1..]);
      var rest := Hits(l[1..], tag, with);
      assert Values([l[0]] + rest) == [l[0].Value()] + Values(rest);
    }
  }

  lemma {:induction false} HitsNewestFirst(l: seq<CacheItem>, tag: string, with: bool) returns (h: seq<CacheItem>)
    requires NewestFirst(l)
    ensures h == Hits(l, tag, with) && NewestFirst(h)
  {
    h := [];
    if l != [] {
      var rest := HitsNewestFirst(l[1..], tag, with);
      var same := HitsMembers(l[1..], tag, with);
      forall j | 0 <= j < |rest| ensures l[0].stamp > rest[j].stamp {
        assert rest[j] in l[1..];
        var k :| 0 <= k < |l| - 1 && l[1..][k] == rest[j];
      }
      h := if (l[0].tag == tag) == with then [l[0]] + rest else rest;
    }
  }

  /** The items without the tag keep their order among themselves. */
  lemma {:induction false} OthersInOrder(l: seq<CacheItem>, ages: map<CacheItem, int>, tag: string)
      returns (h: seq<CacheItem>)
    requires WasInOrder(l, ages) && AgedBut(l, ages, tag)
    ensures h == Hits(l, tag, false) && InOrder(h)
    ensures forall i | 0 <= i < |h| :: h[i].age >= 2
  {
    h := [];
    if l != [] {
      RestInOrder(l, ages, tag);
      var rest := OthersInOrder(l[1..], ages, tag);
      var same := HitsMembers(l[1..], tag, false);
      assert l[0] in l;
      if l[0].tag != tag {
        forall j | 0 <= j < |rest| ensures Sooner(l[0].age, l[0].stamp, rest[j].age, rest[j].stamp) {
          assert rest[j] in l[1..];
          var k :| 0 <= k < |l| - 1 && l[1..][k] == rest[j];
          assert l[k + 1] == rest[j] && rest[j] in l;
        }
        h := [l[0]] + rest;
      } else {
        h := rest;
      }
    }
  }

  lemma RestInOrder(l: seq<CacheItem>, ages: map<CacheItem, int>, tag: string)
    requires WasInOrder(l, ages) && AgedBut(l, ages, tag) && l != []
    ensures WasInOrder(l[1..], ages) && AgedBut(l[1..], ages, tag)
  {
    assert forall x | x in l[1..] :: x in l;
    assert forall i | 0 <= i < |l| - 1 :: l[1..][i] == l[i + 1];
  }

  /** The items with the tag, oldest first, and behind them the others. */
  ghost function Moved(items: seq<CacheItem>, recent: seq<CacheItem>, tag: string): seq<CacheItem> {
    Reversed(Hits(items, tag, true)) + Hits(recent, tag, false)
  }

  lemma MovedInOrder(items: seq<CacheItem>, recent: seq<CacheItem>, ages: map<CacheItem, int>, tag: string)
    requires NewestFirst(items) && SameItems(items, recent)
    requires WasInOrder(recent, ages) && AgedBut(recent, ages, tag)
    ensures InOrder(Moved(items, recent, tag))
  {
    var same := HitsNewestFirst(items, tag, true);
    var a := HitsMembers(items, tag, true);
    var b := OthersInOrder(recent, ages, tag);
    hide Hits, WasInOrder;
    forall i | 0 <= i < |a| ensures a[i].age == 1 {
      assert a[i] in recent;
    }
    OneAfterOther(a, b);
  }

  lemma OneAfterOther(a: seq<CacheItem>, b: seq<CacheItem>)
    requires NewestFirst(a) && InOrder(b)
    requires forall i | 0 <= i < |a| :: a[i].age == 1
    requires forall i | 0 <= i < |b| :: b[i].age >= 2
    ensures InOrder(Reversed(a) + b)
  {
    hide Reversed;
    var l := Reversed(a) + b;
    assert forall i | 0 <= i < |a| :: l[i] == a[|a| - 1 - i];
    assert forall i | |a| <= i < |l| :: l[i] == b[i - |a|];
  }

  /** Where the ages were distinct they stay so, except that items with the same tag
      have become the same age. */
  lemma MovedStrict(items: seq<CacheItem>, recent: seq<CacheItem>, ages: map<CacheItem, int>, tag: string)
    requires NewestFirst(items) && SameItems(items, recent)
    requires WasInOrder(recent, ages) && WasStrict(recent, ages) && AgedBut(recent, ages, tag)
    ensures StrictAges(Moved(items, recent, tag)) <==> |Hits(items, tag, true)| <= 1
  {
    var a := HitsMembers(items, tag, true);
    var b := HitsMembers(recent, tag, false);
    var same := OthersInOrder(recent, ages, tag);
    OthersStrict(b, recent, ages, tag);
    assert forall i | 0 <= i < |a| :: a[i] in recent;
    hide Hits, WasInOrder, WasStrict, AgedBut, InOrder, NewestFirst, SameItems, StrictAges;
    AgesOne(a, recent, ages, tag);
    StrictAfter(Reversed(a), b);
  }

  lemma AgesOne(a: seq<CacheItem>, recent: seq<CacheItem>, ages: map<CacheItem, int>, tag: string)
    requires AgedBut(recent, ages, tag) && forall i | 0 <= i < |a| :: a[i] in recent && a[i].tag == tag
    ensures |Reversed(a)| == |a| && forall i | 0 <= i < |a| :: Reversed(a)[i].age == 1
  {
    assert forall i | 0 <= i < |a| :: Reversed(a)[i] == a[|a| - 1 - i];
  }

  lemma StrictAfter(r: seq<CacheItem>, b: seq<CacheItem>)
    requires StrictAges(b)
    requires forall i | 0 <= i < |r| :: r[i].age == 1
    requires forall i | 0 <= i < |b| :: b[i].age >= 2
    ensures StrictAges(r + b) <==> |r| <= 1
  {
    var m := r + b;
    if |r| >= 2 {
      assert m[0].age == 1 && m[1].age == 1;
      assert !StrictAges(m);
    } else {
      assert forall i | |r| <= i < |m| :: m[i] == b[i - |r|];
      assert |r| == 1 ==> m[0].age == 1;
    }
  }

  lemma OthersStrict(b: seq<CacheItem>, recent: seq<CacheItem>, ages: map<CacheItem, int>, tag: string)
    requires InOrder(b) && WasStrict(recent, ages) && AgedBut(recent, ages, tag)
    requires forall i | 0 <= i < |b| :: b[i] in recent && b[i].tag != tag
    ensures StrictAges(b)
  {
    forall i, j | 0 <= i < j < |b| ensures b[i].age < b[j].age {
      var p :| 0 <= p < |recent| && recent[p] == b[i];
      var q :| 0 <= q < |recent| && recent[q] == b[j];
      assert b[i] in recent && b[j] in recent;
      assert Sooner(b[i].age, b[i].stamp, b[j].age, b[j].stamp);
    }
  }

  lemma MovedItems(items: seq<CacheItem>, recent: seq<CacheItem>, tag: string)
    requires SameItems(items, recent)
    ensures SameItems(items, Moved(items, recent, tag))
  {
    var a := HitsMembers(items, tag, true);
    var b := HitsMembers(recent, tag, false);
    hide Hits;
    ReversedMembers(a);
    var m := Moved(items, recent, tag);
    forall x | x in m ensures x in items {
      if x in a {
        var i :| 0 <= i < |a| && a[i] == x;
      } else {
        var i :| 0 <= i < |b| && b[i] == x;
      }
    }
    forall x | x in items ensures x in m {
      assert x in a || x in b;
    }
  }

  lemma ReversedMembers(l: seq<CacheItem>)
    ensures forall x | x in l :: x in Reversed(l)
    ensures forall i | 0 <= i < |l| :: Reversed(l)[i] in l
  {
    var r := Reversed(l);
    hide Reversed;
    forall x | x in l ensures x in r {
      var i :| 0 <= i < |l| && l[i] == x;
      assert r[|l| - 1 - i] == x;
    }
  }

  lemma MovedValues(items: seq<CacheItem>, recent: seq<CacheItem>, tag: string)
    ensures Values(Moved(items, recent, tag)) == Touched(Values(items), Values(recent), tag)
  {
    HitsValues(items, tag, true);
    HitsValues(recent, tag, false);
    hide Hits, Those;
    var a, b := Hits(items, tag, true), Hits(recent, tag, false);
    assert Values(Reversed(a)) == Reversed(Values(a));
    assert Values(Reversed(a) + b) == Values(Reversed(a)) + Values(b);
  }

  // ---- sizes ----

  /** The same items in another order have the same size together. */
  lemma {:induction false} SumSame(l: seq<CacheItem>, m: seq<CacheItem>)
    requires SameItems(l, m) && Distinct(l) && Distinct(m)
    ensures Sum(Values(l)) == Sum(Values(m))
    decreases |l|
  {
    if l == [] {
      assert forall i | 0 <= i < |m| :: m[i] in l;
    } else {
      var n := |l| - 1;
      assert l[n] in m;
      var p :| 0 <= p < |m| && m[p] == l[n];
      LoseOne(l, m, p);
      SumSame(l[..n], m[..p] + m[p + 1..]);
      SumLast(l);
      SumAt(m, p);
    }
  }

  lemma LoseOne(l: seq<CacheItem>, m: seq<CacheItem>, p: nat)
    requires SameItems(l, m) && Distinct(l) && Distinct(m) && l != []
    requires p < |m| && m[p] == l[|l| - 1]
    ensures var l', m' := l[..|l| - 1], m[..p] + m[p + 1..];
            SameItems(l', m') && Distinct(l') && Distinct(m')
  {
    WithoutAt(m, m[p], p);
    WithoutMembers(m, m[p]);
    hide Without;
    var l', x := l[..|l| - 1], m[p];
    forall y ensures y in l' <==> y in l && y != x {
      if y in l && y != x {
        var i :| 0 <= i < |l| && l[i] == y;
        assert l'[i] == y;
      }
    }
  }

  lemma SumLast(l: seq<CacheItem>)
    requires l != []
    ensures Sum(Values(l)) == Sum(Values(l[..|l| - 1])) + |l[|l| - 1].data|
  {
    assert Values(l)[..|l| - 1] == Values(l[..|l| - 1]);
  }

  lemma SumAt(m: seq<CacheItem>, p: nat)
    requires p < |m|
    ensures Sum(Values(m)) == Sum(Values(m[..p] + m[p + 1..])) + |m[p].data|
  {
    var r := Values(m);
    assert Values(m[..p] + m[p + 1..]) == r[..p] + r[p + 1..];
    MovedSum(r, p);
    SumJoin([r[p]], r[..p] + r[p + 1..]);
    SumOne(r[p]);
  }

  // ---- the store ----

  /** The items l in list order and m by recency, with the three counters. */
  ghost predicate Together(l: seq<CacheItem>, m: seq<CacheItem>, written: nat, cnt: int, total: int) {
    && NewestFirst(l) && (forall i | 0 <= i < |l| :: l[i].stamp < written)
    && SameItems(l, m) && Distinct(m) && SizesOk(l)
    && cnt == |l| && total == Sum(Values(m)) <= MAX_CACHE_SIZE
  }

  lemma TogetherMoved(l: seq<CacheItem>, m: seq<CacheItem>, written: nat, cnt: int, total: int, tag: string)
    requires Together(l, m, written, cnt, total) && InOrder(Moved(l, m, tag))
    ensures Together(l, Moved(l, m, tag), written, cnt, total)
  {
    var moved := Moved(l, m, tag);
    MovedItems(l, m, tag);
    OrderDistinct(moved);
    hide Sum, Values, SizesOk, InOrder, NewestFirst, Moved, Distinct;
    SumSame(m, moved);
  }

  lemma TogetherMore(l: seq<CacheItem>, m: seq<CacheItem>, written: nat, cnt: int, total: int, item: CacheItem)
    requires Together(l, m, written, cnt, total)
    requires item.stamp == written && item.size == |item.data| && total + item.size <= MAX_CACHE_SIZE
    ensures Together([item] + l, [item] + m, written + 1, cnt + 1, total + item.size) && item !in m
  {
    AddedSum(m, item);
    hide Sum, Values;
    var l', m' := [item] + l, [item] + m;
    assert forall i | 1 <= i < |l'| :: l'[i] == l[i - 1];
    assert forall i | 1 <= i < |m'| :: m'[i] == m[i - 1];
    assert item !in l;
  }

  lemma TogetherLess(l: seq<CacheItem>, l': seq<CacheItem>, m: seq<CacheItem>, written: nat, cnt: int, total: int,
                     o: nat)
    requires Together(l, m, written, cnt, total) && o < |l| && m != [] && l[o] == m[|m| - 1]
    requires l' == l[..o] + l[o + 1..]
    ensures Together(l', m[..|m| - 1], written, cnt - 1, total - l[o].size)
    ensures forall i | 0 <= i < |l'| :: l'[i] in l
  {
    assert forall i | 0 <= i < |l'| :: l'[i] == l[if i < o then i else i + 1];
    NewestDistinct(l);
    LoseOne(m, l, o);
    SumLast(m);
    assert l[o] in l;
    hide Sum, Values, Distinct;
  }

  lemma NewestDistinct(l: seq<CacheItem>)
    requires NewestFirst(l)
    ensures Distinct(l)
  {
  }

  class Cache {
    var totalSize: int
    var cacheCnt: int
    var head: CacheItem?
    /** The items in list order, and by recency; how many there have been. */
    ghost var items: seq<CacheItem>
    ghost var recent: seq<CacheItem>
    ghost var written: nat

    ghost predicate Valid()
      reads this, items, recent
    {
      ListPart(recent) && InOrder(recent)
    }

    /** What does not depend on the ages, for the recency order m. */
    ghost predicate ListPart(m: seq<CacheItem>)
      reads this`head, this`items, this`written, this`cacheCnt, this`totalSize, items`next
    {
      Linked(head, items) && Together(items, m, written, cacheCnt, totalSize)
    }

    /** The store as a list of items, most recently used first. */
    ghost function Store(): seq<Item>
      reads this
    {
      Values(recent)
    }

    /** The same items in list order, newest first. */
    ghost function Listing(): seq<Item>
      reads this
    {
      Values(items)
    }

    /** cache_init */
    constructor ()
      ensures Valid() && Store() == [] && Listing() == []
    {
      totalSize, cacheCnt, head := 0, 0, null;
      items, recent, written := [], [], 0;
    }

    /** ages: every item one older. */
    method Ages(ghost m: seq<CacheItem>)
      requires ListPart(m)
      modifies items`age
      ensures forall x | x in items :: x.age == old(x.age) + 1
    {
      NewestDistinct(items);
      hide Together;
      var ptr := head;
      ghost var k := 0;
      while ptr != null
        invariant 0 <= k <= |items|
        invariant ptr == if k < |items| then items[k] else null
        invariant forall i | 0 <= i < |items| :: items[i].age == old(items[i].age) + if i < k then 1 else 0
        decreases |items| - k
      {
        ptr.age := ptr.age + 1;
        ptr := ptr.next;
        k := k + 1;
      }
    }

    /** find_hit, the scan. */
    method FindHit(tag: string) returns (find: bool)
      requires Valid()
      ensures find <==> HasTag(Store(), tag)
    {
      TagEither(items, recent, tag);
      hide Together, InOrder, HasTag;
      var ptr := head;
      find := false;
      ghost var k := 0;
      while ptr != null
        invariant 0 <= k <= |items|
        invariant ptr == if k < |items| then items[k] else null
        invariant forall i | 0 <= i < k :: items[i].tag != tag
        decreases |items| - k
      {
        if ptr.tag == tag {
          find := true;
          return;
        }
        ptr := ptr.next;
        k := k + 1;
      }
    }

    /** The loop of get_hit: every item with the tag gets age 1, every other one is one
        older, and what is returned is the last item with the tag. */
    method AgeAndFind(tag: string) returns (get: bool, outData: Bytes, outSize: int)
      requires Linked(head, items) && Distinct(items)
      modifies items`age
      ensures forall i | 0 <= i < |items| :: items[i].age == if items[i].tag == tag then 1 else old(items[i].age) + 1
      ensures Found(tag, get, outData, outSize)
    {
      var ptr := head;
      get, outData, outSize := false, [], 0;
      ghost var k := 0;
      ghost var found := -1;
      while ptr != null
        invariant 0 <= k <= |items|
        invariant ptr == if k < |items| then items[k] else null
        invariant -1 <= found < k && (get <==> found != -1)
        invariant get ==> items[found].tag == tag && outData == items[found].data && outSize == items[found].size
        invariant forall i | found < i < k :: items[i].tag != tag
        invariant forall i | 0 <= i < |items| ::
                    items[i].age == if i >= k then old(items[i].age)
                                    else if items[i].tag == tag then 1 else old(items[i].age) + 1
        decreases |items| - k
      {
        if ptr.tag == tag {
          get := true;
          outData := ptr.data;
          outSize := ptr.size;
          ptr.age := 1;
          found := k;
        } else {
          ptr.age := ptr.age + 1;
        }
        ptr := ptr.next;
        k := k + 1;
      }
      assert get ==> LastWith(items, tag, found);
    }

    ghost predicate Found(tag: string, get: bool, data: Bytes, size: int)
      reads this`items
    {
      if get then exists i :: LastWith(items, tag, i) && data == items[i].data && size == items[i].size
      else forall i | 0 <= i < |items| :: items[i].tag != tag
    }

    /** get_hit: the items with the tag become the youngest, every other one is one
        older, also when there is none with the tag. */
    method GetHit(tag: string) returns (get: bool, outData: Bytes, outSize: int)
      requires Valid()
      modifies this`recent, items`age
      ensures Valid() && SameItems(old(recent), recent)
      ensures get <==> HasTag(old(Store()), tag)
      ensures Store() == Touched(old(Listing()), old(Store()), tag)
      ensures get ==> |Store()| > 0 && Store()[0] == Item(tag, outData) && outSize == |outData|
      ensures !get ==> recent == old(recent)
      ensures forall i | 0 <= i < |items| :: items[i].age == if items[i].tag == tag then 1 else old(items[i].age) + 1
      ensures old(StrictAges(recent)) ==>
                (StrictAges(recent) <==> |Those(old(Listing()), tag, true)| <= 1)
    {
      hide ListPart, Values, InOrder, HasTag, WasInOrder, AgedBut, Moved, Touched, SameItems, Found, StrictAges,
           WasStrict, Those;
      ghost var was, ages := recent, AgesOf(recent);
      RecordAges(recent);
      AgesListed();
      get, outData, outSize := AgeAll(tag, ages);
      recent := Moved(items, recent, tag);
      FinishHit(was, ages, tag, get, outData, outSize);
      StrictHit(was, ages, tag);
    }

    lemma StrictHit(was: seq<CacheItem>, ages: map<CacheItem, int>, tag: string)
      requires ListPart(was) && WasInOrder(was, ages) && AgedBut(was, ages, tag)
      requires recent == Moved(items, was, tag)
      ensures WasStrict(was, ages) ==> (StrictAges(recent) <==> |Those(Values(items), tag, true)| <= 1)
    {
      HitsValues(items, tag, true);
      if WasStrict(was, ages) {
        MovedStrict(items, was, ages, tag);
      }
    }

    /** The loop, in terms of the recorded ages. */
    method AgeAll(tag: string, ghost ages: map<CacheItem, int>) returns (get: bool, outData: Bytes, outSize: int)
      requires ListPart(recent) && forall i | 0 <= i < |items| :: items[i] in ages && ages[items[i]] == items[i].age
      modifies items`age
      ensures AgedBut(recent, ages, tag) && Found(tag, get, outData, outSize)
      ensures forall i | 0 <= i < |items| :: items[i].age == if items[i].tag == tag then 1 else old(items[i].age) + 1
    {
      NewestDistinct(items);
      hide Together, Linked, Distinct, Found, AgedBut;
      get, outData, outSize := AgeAndFind(tag);
      AgedRecent(ages, tag);
    }

    lemma AgesListed()
      requires ListPart(recent)
      ensures forall i | 0 <= i < |items| :: items[i] in AgesOf(recent) && AgesOf(recent)[items[i]] == items[i].age
    {
      InAges(items, recent);
    }

    lemma AgedRecent(ages: map<CacheItem, int>, tag: string)
      requires Together(items, recent, written, cacheCnt, totalSize)
      requires forall i | 0 <= i < |items| ::
                 items[i] in ages && items[i].age == if items[i].tag == tag then 1 else ages[items[i]] + 1
      ensures AgedBut(recent, ages, tag)
    {
      AgedAll(items, recent, ages, tag);
    }

    lemma FinishHit(was: seq<CacheItem>, ages: map<CacheItem, int>, tag: string, get: bool, data: Bytes, size: int)
      requires ListPart(was) && WasInOrder(was, ages) && AgedBut(was, ages, tag)
      requires recent == Moved(items, was, tag) && Found(tag, get, data, size)
      ensures Valid() && Store() == Touched(Values(items), Values(was), tag) && SameItems(was, recent)
      ensures get <==> HasTag(Values(was), tag)
      ensures get ==> |Store()| > 0 && Store()[0] == Item(tag, data) && size == |data|
      ensures !get ==> recent == was
    {
      MovedInOrder(items, was, ages, tag);
      MovedItems(items, was, tag);
      MovedValues(items, was, tag);
      TogetherMoved(items, was, written, cacheCnt, totalSize, tag);
      TagEither(items, was, tag);
      if get {
        FirstIsLast(items, was, tag, data, size);
        assert exists i :: 0 <= i < |items| && items[i].tag == tag;
      } else {
        NoHits(items, was, tag);
      }
      hide Sum, Values, InOrder, Moved, Distinct, Touched, WasInOrder, AgedBut, Together, Linked;
    }

    /** The scan of remove_oldest: the first item of greatest age and the one before it. */
    method FindOldest() returns (oldest: CacheItem, preOldest: CacheItem?, ghost o: nat)
      requires Linked(head, items) && items != []
      requires forall i | 0 <= i < |items| :: items[i].age >= 1
      ensures o < |items| && oldest == items[o]
      ensures preOldest == if o == 0 then null else items[o - 1]
      ensures forall i | 0 <= i < |items| :: items[i].age <= oldest.age
      ensures forall i | 0 <= i < o :: items[i].age < oldest.age
    {
      var ptr := head;
      var prePtr: CacheItem? := null;
      var oldestPtr: CacheItem? := null;
      preOldest := null;
      var oldestAge := 0;
      o := 0;
      ghost var k := 0;
      while ptr != null
        invariant 0 <= k <= |items|
        invariant ptr == if k < |items| then items[k] else null
        invariant prePtr == if k == 0 then null else items[k - 1]
        invariant k == 0 ==> oldestAge == 0
        invariant k > 0 ==> o < k && oldestPtr == items[o] && oldestAge == items[o].age
        invariant k > 0 ==> preOldest == if o == 0 then null else items[o - 1]
        invariant forall i | 0 <= i < k :: items[i].age <= oldestAge
        invariant forall i | 0 <= i < k && i < o :: items[i].age < oldestAge
        decreases |items| - k
      {
        if ptr.age > oldestAge {
          preOldest := prePtr;
          oldestPtr := ptr;
          oldestAge := ptr.age;
          o := k;
        }
        prePtr := ptr;
        ptr := ptr.next;
        k := k + 1;
      }
      oldest := oldestPtr;
    }

    /** The item found is the least recently used. */
    method FindLeastRecent() returns (oldest: CacheItem, preOldest: CacheItem?, ghost o: nat)
      requires Valid() && head != null
      ensures o < |items| && oldest == items[o] && |recent| > 0 && oldest == recent[|recent| - 1]
      ensures preOldest == if o == 0 then null else items[o - 1]
    {
      OldestFacts();
      hide ListPart, InOrder;
      oldest, preOldest, o := FindOldest();
      OldestIsLast(o);
    }

    lemma OldestFacts()
      requires Valid() && head != null
      ensures items != [] && Linked(head, items) && SameItems(items, recent) && InOrder(recent) && NewestFirst(items)
      ensures forall i | 0 <= i < |items| :: items[i].age >= 1
    {
      assert forall i | 0 <= i < |items| :: items[i] in recent;
    }

    lemma OldestIsLast(o: nat)
      requires SameItems(items, recent) && InOrder(recent) && NewestFirst(items) && o < |items|
      requires forall i | 0 <= i < |items| :: items[i].age <= items[o].age
      requires forall i | 0 <= i < o :: items[i].age < items[o].age
      ensures |recent| > 0 && items[o] == recent[|recent| - 1]
    {
      assert items[o] in recent;
      var p :| 0 <= p < |recent| && recent[p] == items[o];
      var last := recent[|recent| - 1];
      assert last in items;
      var a :| 0 <= a < |items| && items[a] == last;
      assert p < |recent| - 1 ==> Sooner(recent[p].age, recent[p].stamp, last.age, last.stamp);
    }

    /** The relinking of remove_oldest. */
    method Unlink(oldest: CacheItem, preOldest: CacheItem?, ghost o: nat)
      requires Linked(head, items) && Distinct(items) && o < |items| && oldest == items[o]
      requires preOldest == if o == 0 then null else items[o - 1]
      modifies this`head, this`items, items`next
      ensures items == old(items)[..o] + old(items)[o + 1..]
      ensures Linked(head, items)
    {
      ghost var was := items;
      if head == oldest {
        assert o == 0;
        head := oldest.next;
      } else {
        preOldest.next := oldest.next;
      }
      items := items[..o] + items[o + 1..];
      assert forall i | 0 <= i < |items| :: items[i] == was[if i < o then i else i + 1];
      assert forall i | 0 <= i < |was| && i != o - 1 :: was[i].next == if i + 1 < |was| then was[i + 1] else null;
    }

    /** remove_oldest: exactly the least recently used item goes. */
    method RemoveOldest()
      requires Valid()
      modifies this`head, this`totalSize, this`cacheCnt, this`items, this`recent, items`next
      ensures Valid()
      ensures recent == if old(recent) == [] then [] else old(recent)[..|old(recent)| - 1]
      ensures Store() == if old(Store()) == [] then [] else old(Store())[..|old(Store())| - 1]
      ensures forall i | 0 <= i < |items| :: items[i] in old(items)
      ensures old(StrictAges(recent)) ==> StrictAges(recent)
    {
      hide ListPart, InOrder, Values;
      if head == null {
        EmptyStore();
        return;
      }
      var oldest, preOldest;
      ghost var o;
      oldest, preOldest, o := FindLeastRecent();
      LastInOrder(recent);
      ValuesFront(recent);
      Drop(oldest, preOldest, o);
      recent := recent[..|recent| - 1];
    }

    /** Relinking and accounting. */
    method Drop(oldest: CacheItem, preOldest: CacheItem?, ghost o: nat)
      requires ListPart(recent) && o < |items| && oldest == items[o] && |recent| > 0 && oldest == recent[|recent| - 1]
      requires preOldest == if o == 0 then null else items[o - 1]
      modifies this`head, this`totalSize, this`cacheCnt, this`items, items`next
      ensures ListPart(recent[..|recent| - 1])
      ensures forall i | 0 <= i < |items| :: items[i] in old(items)
    {
      ghost var was := items;
      NewestDistinct(items);
      hide Together, Linked, Distinct;
      Unlink(oldest, preOldest, o);
      TogetherLess(was, items, recent, written, cacheCnt, totalSize, o);
      totalSize := totalSize - oldest.size;
      cacheCnt := cacheCnt - 1;
    }

    lemma EmptyStore()
      requires ListPart(recent) && head == null
      ensures recent == [] && items == []
    {
      if recent != [] {
        InOther(items, recent);
      }
    }

    /** add_to_cache_head: the new item is first in the list and the youngest. The
        age malloc left in it does not matter. */
    method AddToCacheHead(tag: string, data: Bytes)
      requires Valid() && totalSize + |data| <= MAX_CACHE_SIZE
      modifies this, items`age
      ensures Valid()
      ensures Store() == [Item(tag, data)] + old(Store()) && Listing() == [Item(tag, data)] + old(Listing())
      ensures |items| > 0 && fresh(items[0]) && items == [items[0]] + old(items) && recent == [items[0]] + old(recent)
      ensures items[0].age == 1 && forall i | 0 <= i < |old(recent)| :: old(recent)[i].age == old(recent[i].age) + 1
      ensures old(StrictAges(recent)) ==> StrictAges(recent)
    {
      hide ListPart, InOrder, WasInOrder, Values, Aged, StrictAges, WasStrict;
      ghost var was, wasRecent, ages := items, recent, AgesOf(recent);
      RecordAges(recent);
      var item := LinkFirst(tag, data);
      AgeOthers(item, wasRecent, ages);
      recent := [item] + recent;
      AgedInOrder(wasRecent, ages);
      AddedInOrder(wasRecent, ages, item);
      AgedByIndex(wasRecent, ages);
      ValuesMore(wasRecent, item);
      ValuesMore(was, item);
    }

    /** The new item, linked in front; its age is whatever malloc left. */
    method LinkFirst(tag: string, data: Bytes) returns (item: CacheItem)
      requires ListPart(recent) && totalSize + |data| <= MAX_CACHE_SIZE
      modifies this`head, this`totalSize, this`cacheCnt, this`items, this`written
      ensures fresh(item) && item.Value() == Item(tag, data)
      ensures items == [item] + old(items) && ListPart([item] + recent) && item !in recent
    {
      ghost var was := items;
      item := new CacheItem(tag, data, written);
      TogetherMore(was, recent, written, cacheCnt, totalSize, item);
      hide Together;
      item.next := head;
      head := item;
      totalSize := totalSize + item.size;
      cacheCnt := cacheCnt + 1;
      items := [item] + items;
      written := written + 1;
      GrownList(was, item);
    }

    /** The call of ages, after which the new item has age 1. */
    method AgeOthers(item: CacheItem, ghost m: seq<CacheItem>, ghost ages: map<CacheItem, int>)
      requires ListPart([item] + m) && item !in m && ages == AgesOf(m)
      modifies items`age
      ensures ListPart([item] + m) && item.age == 1 && Aged(m, ages)
    {
      OthersListed(item, m);
      hide ListPart;
      Ages([item] + m);
      item.age := 1;
    }

    lemma OthersListed(item: CacheItem, m: seq<CacheItem>)
      requires ListPart([item] + m)
      ensures item in items && forall x | x in m :: x in items
    {
      assert ([item] + m)[0] == item;
      assert forall x | x in m :: x in [item] + m;
    }

    static lemma GrownList(was: seq<CacheItem>, item: CacheItem)
      requires Linked(item.next, was)
      ensures Linked(item, [item] + was)
    {
      var l := [item] + was;
      assert forall i | 1 <= i < |l| :: l[i] == was[i - 1];
    }

    /** read_cache: a scan, then on a hit the aging walk. A miss changes nothing. */
    method ReadCache(tag: string) returns (hit: bool, outData: Bytes, outSize: int)
      requires Valid()
      modifies this`recent, items`age
      ensures Valid()
      ensures hit <==> HasTag(old(Store()), tag)
      ensures hit ==> |Store()| > 0 && Store()[0] == Item(tag, outData) && outSize == |outData|
                      && Store() == Touched(old(Listing()), old(Store()), tag)
      ensures !hit ==> recent == old(recent) && forall i | 0 <= i < |items| :: items[i].age == old(items[i].age)
      ensures TagsDistinct(old(Store())) ==> TagsDistinct(Store())
      ensures TagsDistinct(old(Store())) && old(StrictAges(recent)) ==> StrictAges(recent)
      ensures TagsDistinct(old(Store())) && hit ==>
                Item(tag, outData) in old(Store()) && Store() == MoveToFront(old(Store()), Item(tag, outData))
    {
      ghost var distinct := TagsDistinct(Store());
      hide Valid, HasTag, TagsDistinct, Touched, MoveToFront, Values, Those;
      var find := FindHit(tag);
      if find {
        if distinct {
          DistinctHit(tag);
        }
        hit, outData, outSize := GetHit(tag);
        return;
      }
      return false, [], 0;
    }

    /** With distinct tags get_hit moves one item to the front. */
    lemma DistinctHit(tag: string)
      requires Valid() && TagsDistinct(Store()) && HasTag(Store(), tag)
      ensures exists x ::
                && x in Store() && x.tag == tag
                && Touched(Listing(), Store(), tag) == MoveToFront(Store(), x) && TagsDistinct(MoveToFront(Store(), x))
      ensures forall x :: MoveToFront(Store(), x)[0] == x
      ensures |Those(Listing(), tag, true)| == 1
    {
      var p :| 0 <= p < |Store()| && Store()[p].tag == tag;
      var x := Store()[p];
      assert recent[p] in items;
      var i :| 0 <= i < |items| && items[i] == recent[p];
      assert Listing()[i] == x;
      ListingDistinct();
      OneHit(Listing(), tag, i);
      TouchedDistinct(Listing(), Store(), x);
    }

    lemma ListingDistinct()
      requires Valid() && TagsDistinct(Store())
      ensures TagsDistinct(Listing())
    {
      forall i, j | 0 <= i < j < |items| ensures items[i].tag != items[j].tag {
        assert items[i] in recent && items[j] in recent;
        var p :| 0 <= p < |recent| && recent[p] == items[i];
        var q :| 0 <= q < |recent| && recent[q] == items[j];
        assert items[i].stamp > items[j].stamp;
        assert Store()[p].tag == items[i].tag && Store()[q].tag == items[j].tag;
      }
    }

    /** write_cache: objects that are too large are not kept; otherwise least recently
        used items go until the new one fits. */
    method WriteCache(tag: string, data: Bytes)
      requires Valid()
      modifies this, items
      ensures Valid()
      ensures Store() == Written(old(Store()), tag, data)
      ensures |data| > MAX_OBJECT_SIZE ==> recent == old(recent) && items == old(items)
      ensures |data| <= MAX_OBJECT_SIZE ==>
                |items| > 0 && fresh(items[0]) && |recent| > 0 && recent[0] == items[0]
                && |recent| - 1 <= |old(recent)| && recent[1..] == old(recent)[..|recent| - 1]
      ensures fresh(set x | x in items && x !in old(items))
      ensures |data| > MAX_OBJECT_SIZE ==> forall i | 0 <= i < |recent| :: recent[i].age == old(recent[i].age)
      ensures |data| <= MAX_OBJECT_SIZE ==>
                recent[0].age == 1 && forall i | 1 <= i < |recent| :: recent[i].age == old(recent[i - 1].age) + 1
      ensures old(StrictAges(recent)) ==> StrictAges(recent)
    {
      hide Valid, StrictAges, Values, Trim;
      if |data| > MAX_OBJECT_SIZE {
        return;
      }
      MakeRoom(|data|);
      AddToCacheHead(tag, data);
    }

    /** The loop of write_cache: the ages stay, the oldest items go. */
    method MakeRoom(size: nat)
      requires Valid() && size <= MAX_OBJECT_SIZE
      modifies this`head, this`totalSize, this`cacheCnt, this`items, this`recent, items`next
      ensures Valid() && size + totalSize <= MAX_CACHE_SIZE
      ensures Store() == Trim(old(Store()), MAX_CACHE_SIZE - size)
      ensures forall i | 0 <= i < |items| :: items[i] in old(items)
      ensures |recent| <= |old(recent)| && recent == old(recent)[..|recent|]
      ensures old(StrictAges(recent)) ==> StrictAges(recent)
    {
      hide Valid, Trim, StrictAges;
      ghost var room := MAX_CACHE_SIZE - size;
      while size + totalSize > MAX_CACHE_SIZE
        invariant Valid()
        invariant forall i | 0 <= i < |items| :: items[i] in old(items)
        invariant |recent| <= |old(recent)| && recent == old(recent)[..|recent|]
        invariant Trim(Store(), room) == Trim(old(Store()), room)
        invariant old(StrictAges(recent)) ==> StrictAges(recent)
        decreases |recent|
      {
        TooBig(room);
        RemoveOldest();
      }
      FitsNow(room);
    }

    lemma TooBig(room: int)
      requires Valid() && totalSize > room >= 0
      ensures |Store()| > 0 && |recent| > 0 && Trim(Store(), room) == Trim(Store()[..|Store()| - 1], room)
    {
    }

    lemma FitsNow(room: int)
      requires Valid() && totalSize <= room
      ensures Trim(Store(), room) == Store()
    {
    }
  }

  // ---- what each operation needs of the two orders ----

  lemma TagEither(l: seq<CacheItem>, m: seq<CacheItem>, tag: string)
    requires SameItems(l, m)
    ensures HasTag(Values(m), tag) <==> exists i :: 0 <= i < |l| && l[i].tag == tag
  {
    if i :| 0 <= i < |l| && l[i].tag == tag {
      assert l[i] in m;
      var j :| 0 <= j < |m| && m[j] == l[i];
      assert Values(m)[j].tag == tag;
    }
    if j :| 0 <= j < |m| && m[j].tag == tag {
      assert m[j] in l;
    }
  }

  /** Number i is the last of l with the tag. */
  ghost predicate LastWith(l: seq<CacheItem>, tag: string, i: int) {
    0 <= i < |l| && l[i].tag == tag && forall j | i < j < |l| :: l[j].tag != tag
  }

  lemma {:induction false} HitsNone(l: seq<CacheItem>, tag: string)
    requires forall i | 0 <= i < |l| :: l[i].tag != tag
    ensures Hits(l, tag, true) == [] && Hits(l, tag, false) == l
  {
    if l != [] {
      assert forall i | 0 <= i < |l| - 1 :: l[1..][i] == l[i + 1];
      HitsNone(l[1..], tag);
    }
  }

  lemma {:induction false} HitsLast(l: seq<CacheItem>, tag: string, i: int) returns (h: seq<CacheItem>)
    requires LastWith(l, tag, i)
    ensures h == Hits(l, tag, true) && h != [] && h[|h| - 1] == l[i]
  {
    assert forall j | 0 <= j < |l| - 1 :: l[1..][j] == l[j + 1];
    if i == 0 {
      HitsNone(l[1..], tag);
      h := [l[0]];
    } else {
      var rest := HitsLast(l[1..], tag, i - 1);
      h := if l[0].tag == tag then [l[0]] + rest else rest;
    }
  }

  lemma NoHits(items: seq<CacheItem>, recent: seq<CacheItem>, tag: string)
    requires SameItems(items, recent) && forall i | 0 <= i < |items| :: items[i].tag != tag
    ensures Moved(items, recent, tag) == recent
  {
    HitsNone(items, tag);
    forall i | 0 <= i < |recent| ensures recent[i].tag != tag {
      assert recent[i] in items;
      var j :| 0 <= j < |items| && items[j] == recent[i];
    }
    HitsNone(recent, tag);
  }

  lemma FirstIsLast(items: seq<CacheItem>, recent: seq<CacheItem>, tag: string, data: Bytes, size: int)
    requires SizesOk(items)
    requires exists i :: LastWith(items, tag, i) && data == items[i].data && size == items[i].size
    ensures var m := Moved(items, recent, tag);
            |Values(m)| > 0 && Values(m)[0] == Item(tag, data) && size == |data|
  {
    var i :| LastWith(items, tag, i) && data == items[i].data && size == items[i].size;
    var h := HitsLast(items, tag, i);
    assert items[i] in items;
    hide Hits;
    assert Moved(items, recent, tag)[0] == Reversed(h)[0] == h[|h| - 1];
  }

  lemma AgedAll(l: seq<CacheItem>, m: seq<CacheItem>, ages: map<CacheItem, int>, tag: string)
    requires SameItems(l, m)
    requires forall i | 0 <= i < |l| :: l[i] in ages && l[i].age == if l[i].tag == tag then 1 else ages[l[i]] + 1
    ensures AgedBut(m, ages, tag)
  {
  }

  lemma InAges(l: seq<CacheItem>, m: seq<CacheItem>)
    requires SameItems(l, m)
    ensures forall i | 0 <= i < |l| :: l[i] in AgesOf(m) && AgesOf(m)[l[i]] == l[i].age
  {
    assert forall i | 0 <= i < |l| :: l[i] in l;
  }

  lemma InOther(l: seq<CacheItem>, m: seq<CacheItem>)
    requires SameItems(l, m) && m != []
    ensures l != []
  {
    assert m[0] in l;
  }

  lemma AgedByIndex(m: seq<CacheItem>, ages: map<CacheItem, int>)
    requires Aged(m, ages)
    ensures forall i | 0 <= i < |m| :: m[i] in ages && m[i].age == ages[m[i]] + 1
  {
    assert forall i | 0 <= i < |m| :: m[i] in m;
  }

  lemma ValuesFront(m: seq<CacheItem>)
    requires m != []
    ensures Values(m[..|m| - 1]) == Values(m)[..|m| - 1]
  {
  }

  lemma ValuesMore(m: seq<CacheItem>, item: CacheItem)
    ensures Values([item] + m) == [item.Value()] + Values(m)
  {
  }

  lemma OrderDistinct(l: seq<CacheItem>)
    requires InOrder(l)
    ensures Distinct(l)
  {
  }

  lemma LastInOrder(l: seq<CacheItem>)
    requires InOrder(l) && l != []
    ensures InOrder(l[..|l| - 1])
  {
  }

  lemma AddedInOrder(m: seq<CacheItem>, ages: map<CacheItem, int>, item: CacheItem)
    requires InOrder(m) && Aged(m, ages) && WasInOrder(m, ages) && item.age == 1
    ensures InOrder([item] + m)
    ensures WasStrict(m, ages) ==> StrictAges([item] + m)
  {
    var l := [item] + m;
    assert forall i | 0 <= i < |m| :: m[i] in m && m[i].age >= 2 && m[i].age == ages[m[i]] + 1;
    hide WasInOrder, Aged;
    assert forall i | 1 <= i < |l| :: l[i] == m[i - 1];
  }

  lemma AddedSum(m: seq<CacheItem>, item: CacheItem)
    ensures Sum(Values([item] + m)) == Sum(Values(m)) + |item.data|
  {
    SumOne(item.Value());
    SumJoin([item.Value()], Values(m));
    assert Values([item] + m) == [item.Value()] + Values(m);
  }
}
