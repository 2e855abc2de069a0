/** One set of csim.c: an array of lines and an array of line numbers that starts
    as zeros and is only partly meaningful until the set is full. */
module CacheSets {
  import opened RecencyList

  datatype CacheLine = CacheLine(v: bool, tag: int)

  // ---- what the two arrays mean ----

  /** k lines are valid, the last k; the first k entries of lru name each of them
      once; the other entries are still zero. */
  ghost predicate LinesOk(lines: seq<CacheLine>, k: nat) {
    && k <= |lines|
    && (forall i | 0 <= i < |lines| :: lines[i].v <==> i >= |lines| - k)
  }

  ghost predicate OrderOk(lru: seq<int>, n: nat, k: nat) {
    && |lru| == n && k <= n
    && (forall j | 0 <= j < k :: n - k <= lru[j] < n)
    && (forall j | k <= j < n :: lru[j] == 0)
    && Distinct(lru[..k])
    && (forall i | n - k <= i < n :: i in lru[..k])
  }

  ghost predicate TagsDistinct(lines: seq<CacheLine>) {
    forall i, j | 0 <= i < j < |lines| && lines[i].v && lines[j].v :: lines[i].tag != lines[j].tag
  }

  ghost predicate SetOk(lines: seq<CacheLine>, lru: seq<int>, k: nat) {
    |lines| >= 1 && LinesOk(lines, k) && OrderOk(lru, |lines|, k) && TagsDistinct(lines)
  }

  /** The valid tags, most recently used first. */
  ghost function Tags(lines: seq<CacheLine>, lru: seq<int>, k: nat): (tags: seq<int>)
    requires k <= |lru| && forall j | 0 <= j < k :: 0 <= lru[j] < |lines|
  {
    seq(k, j requires 0 <= j < k => lines[lru[j]].tag)
  }

  lemma TagsAreDistinct(lines: seq<CacheLine>, lru: seq<int>, k: nat)
    requires SetOk(lines, lru, k)
    ensures Distinct(Tags(lines, lru, k))
  {
    var tags := Tags(lines, lru, k);
    forall i, j | 0 <= i < j < |tags| ensures tags[i] != tags[j] {
      assert lru[..k][i] != lru[..k][j];
      assert lines[lru[i]].v && lines[lru[j]].v;
    }
  }

  /** A tag is in the set exactly when a valid line holds it. */
  lemma TagIsHeld(lines: seq<CacheLine>, lru: seq<int>, k: nat, tag: int)
    requires SetOk(lines, lru, k)
    ensures tag in Tags(lines, lru, k) <==> exists i :: 0 <= i < |lines| && lines[i].v && lines[i].tag == tag
  {
    var tags := Tags(lines, lru, k);
    if tag in tags {
      var j :| 0 <= j < k && tags[j] == tag;
      assert lines[lru[j]].v;
    }
    if i :| 0 <= i < |lines| && lines[i].v && lines[i].tag == tag {
      assert i in lru[..k];
      var j :| 0 <= j < k && lru[..k][j] == i;
      assert tags[j] == tag;
    }
  }

  lemma MovedHead(lru: seq<int>, k: nat, p: nat)
    requires p < k <= |lru|
    ensures var after, head := [lru[p]] + (lru[..p] + lru[p + 1..]), lru[..k];
            && |after| == |lru| && after[..k] == [head[p]] + (head[..p] + head[p + 1..])
            && (forall j | k <= j < |lru| :: after[j] == lru[j])
            && (forall j | 0 <= j < k :: after[j] == lru[if j == 0 then p else if j <= p then j - 1 else j])
  {
  }

  lemma MoveOrderOk(lru: seq<int>, n: nat, k: nat, p: nat)
    requires OrderOk(lru, n, k) && p < k
    ensures OrderOk([lru[p]] + (lru[..p] + lru[p + 1..]), n, k)
  {
    var after := [lru[p]] + (lru[..p] + lru[p + 1..]);
    var head := lru[..k];
    MovedHead(lru, k, p);
    WithoutAt(head, lru[p], p);
    WithoutMembers(head, lru[p]);
    var rest := Without(head, lru[p]);
    hide Without;
    var newHead := after[..k];
    assert newHead == [lru[p]] + rest;
    forall i | n - k <= i < n ensures i in newHead {
      assert i in head;
      assert i == lru[p] || i in rest;
    }
    MovedDistinct(lru[p], rest);
  }

  lemma MovedDistinct(x: int, rest: seq<int>)
    requires Distinct(rest) && x !in rest
    ensures Distinct([x] + rest)
  {
    var l := [x] + rest;
    assert forall j | 1 <= j < |l| :: l[j] == rest[j - 1];
  }

  /** A hit: the line's number moves to the front. */
  lemma HitKeeps(lines: seq<CacheLine>, lru: seq<int>, k: nat, p: nat)
    requires SetOk(lines, lru, k) && p < k
    ensures var after := [lru[p]] + (lru[..p] + lru[p + 1..]);
            && SetOk(lines, after, k)
            && Tags(lines, after, k) == MoveToFront(Tags(lines, lru, k), lines[lru[p]].tag)
  {
    MoveOrderOk(lru, |lines|, k, p);
    TagsAreDistinct(lines, lru, k);
    var tags := Tags(lines, lru, k);
    WithoutAt(tags, tags[p], p);
    hide OrderOk, LinesOk, TagsDistinct;
    MovedTags(lines, lru, k, p);
  }

  lemma MovedTags(lines: seq<CacheLine>, lru: seq<int>, k: nat, p: nat)
    requires p < k <= |lru| && forall j | 0 <= j < k :: 0 <= lru[j] < |lines|
    ensures var after := [lru[p]] + (lru[..p] + lru[p + 1..]);
            var tags := Tags(lines, lru, k);
            && (forall j | 0 <= j < k :: 0 <= after[j] < |lines|)
            && Tags(lines, after, k) == [tags[p]] + (tags[..p] + tags[p + 1..])
  {
    MovedHead(lru, k, p);
  }

  lemma FillOrderOk(lru: seq<int>, n: nat, k: nat)
    requires OrderOk(lru, n, k) && k < n
    ensures OrderOk([n - k - 1] + lru[..n - 1], n, k + 1)
  {
    var after := [n - k - 1] + lru[..n - 1];
    assert after[..k + 1] == [n - k - 1] + lru[..k];
    forall j | 0 <= j < k ensures lru[..k][j] != n - k - 1 {
      assert lru[..k][j] == lru[j];
    }
    var head := after[..k + 1];
    forall i | n - (k + 1) <= i < n ensures i in head {
      if i == n - k - 1 { assert head[0] == i; }
    }
  }

  lemma FilledLines(lines: seq<CacheLine>, k: nat, at: int, tag: int)
    requires LinesOk(lines, k) && TagsDistinct(lines) && k < |lines| && at == |lines| - k - 1
    requires forall i | 0 <= i < |lines| && lines[i].v :: lines[i].tag != tag
    ensures LinesOk(lines[at := CacheLine(true, tag)], k + 1)
    ensures TagsDistinct(lines[at := CacheLine(true, tag)])
  {
  }

  /** A miss with room: the last invalid line takes the tag. */
  lemma FillKeeps(lines: seq<CacheLine>, lru: seq<int>, k: nat, tag: int)
    requires SetOk(lines, lru, k) && k < |lines|
    requires tag !in Tags(lines, lru, k)
    ensures var at := |lines| - k - 1;
            var filled := lines[at := CacheLine(true, tag)];
            var after := [at] + lru[..|lines| - 1];
            && SetOk(filled, after, k + 1)
            && Tags(filled, after, k + 1) == [tag] + Tags(lines, lru, k)
  {
    var at := |lines| - k - 1;
    var filled := lines[at := CacheLine(true, tag)];
    var after := [at] + lru[..|lines| - 1];
    FillOrderOk(lru, |lines|, k);
    TagIsHeld(lines, lru, k, tag);
    FilledLines(lines, k, at, tag);
    FrontTags(lines, lru, k, at, tag);
    hide LinesOk, TagsDistinct, Distinct, OrderOk;
  }

  /** The line at number at is overwritten and comes first. */
  lemma FrontTags(lines: seq<CacheLine>, lru: seq<int>, k: nat, at: int, tag: int)
    requires k < |lru| && 0 <= at < |lines| && forall j | 0 <= j < k :: 0 <= lru[j] < |lines| && lru[j] != at
    ensures var filled, after := lines[at := CacheLine(true, tag)], [at] + lru[..|lru| - 1];
            && (forall j | 0 <= j < k + 1 :: 0 <= after[j] < |filled|)
            && Tags(filled, after, k + 1) == [tag] + Tags(lines, lru, k)
  {
    var after := [at] + lru[..|lru| - 1];
    assert forall j | 1 <= j < k + 1 :: after[j] == lru[j - 1];
  }

  /** A miss in a full set: the least recently used line is overwritten. */
  lemma EvictKeeps(lines: seq<CacheLine>, lru: seq<int>, tag: int)
    requires SetOk(lines, lru, |lines|)
    requires tag !in Tags(lines, lru, |lines|)
    ensures var n := |lines|; var at := lru[n - 1];
            var filled := lines[at := CacheLine(true, tag)];
            var after := [at] + lru[..n - 1];
            && SetOk(filled, after, n)
            && Tags(filled, after, n) == [tag] + Tags(lines, lru, n)[..n - 1]
  {
    var n := |lines|;
    var at := lru[n - 1];
    var filled := lines[at := CacheLine(true, tag)];
    var after := [at] + lru[..n - 1];
    MoveOrderOk(lru, n, n, n - 1);
    assert after == [lru[n - 1]] + (lru[..n - 1] + lru[n..]);
    TagIsHeld(lines, lru, n, tag);
    assert TagsDistinct(filled);
    assert forall j | 0 <= j < n - 1 :: lru[..n][j] != lru[..n][n - 1];
    FrontTags(lines, lru, n - 1, at, tag);
    hide LinesOk, TagsDistinct, Distinct, OrderOk;
    assert Tags(lines, lru, n)[..n - 1] == Tags(lines, lru, n - 1);
  }

  // ---- the array updates of csim.c ----

  /** UpdateLRUWhenHit: the entry naming inIndex moves to the front. */
  method UpdateLRUWhenHit(inLRU: array<int>, inIndex: int)
    requires inIndex in inLRU[..]
    modifies inLRU
    ensures inLRU[..] == MoveToFront(old(inLRU[..]), inIndex)
  {
    ghost var was := inLRU[..];
    var targetLocation := 0;
    while inLRU[targetLocation] != inIndex
      invariant 0 <= targetLocation < inLRU.Length
      invariant inIndex in was[targetLocation..]
      invariant forall j | 0 <= j < targetLocation :: was[j] != inIndex
      decreases inLRU.Length - targetLocation
    {
      targetLocation := targetLocation + 1;
    }
    WithoutAt(was, inIndex, targetLocation);
    ShiftRight(inLRU, targetLocation);
    inLRU[0] := inIndex;
    assert inLRU[..] == [inIndex] + (was[..targetLocation] + was[targetLocation + 1..]);
  }

  /** The shifting loop of all three updates: entries 0..last-1 move one place right. */
  method ShiftRight(inLRU: array<int>, last: int)
    requires 0 <= last < inLRU.Length
    modifies inLRU
    ensures forall j | 1 <= j <= last :: inLRU[j] == old(inLRU[j - 1])
    ensures forall j | last < j < inLRU.Length :: inLRU[j] == old(inLRU[j])
  {
    var i := last;
    while i > 0
      invariant 0 <= i <= last
      invariant forall j | i < j <= last :: inLRU[j] == old(inLRU[j - 1])
      invariant forall j | 0 <= j <= i :: inLRU[j] == old(inLRU[j])
      invariant forall j | last < j < inLRU.Length :: inLRU[j] == old(inLRU[j])
    {
      inLRU[i] := inLRU[i - 1];
      i := i - 1;
    }
  }

  /** UpdateLRUWhenMiss: everything shifts, the last entry is lost. */
  method UpdateLRUWhenMiss(inLRU: array<int>, inIndex: int)
    requires inLRU.Length >= 1
    modifies inLRU
    ensures inLRU[..] == [inIndex] + old(inLRU[..])[..inLRU.Length - 1]
  {
    ShiftRight(inLRU, inLRU.Length - 1);
    inLRU[0] := inIndex;
  }

  /** UpdateLRUWhenEvic: the least recently used entry comes to the front. */
  method UpdateLRUWhenEvic(inLRU: array<int>) returns (retIndex: int)
    requires inLRU.Length >= 1
    modifies inLRU
    ensures retIndex == old(inLRU[inLRU.Length - 1])
    ensures inLRU[..] == [retIndex] + old(inLRU[..])[..inLRU.Length - 1]
  {
    retIndex := inLRU[inLRU.Length - 1];
    ShiftRight(inLRU, inLRU.Length - 1);
    inLRU[0] := retIndex;
  }

  /** struct cache_set; the ghost field counts the valid lines. */
  class CacheSet {
    const noLine: nat
    const cLine: array<CacheLine>
    const arrLRU: array<int>
    ghost var valid: nat

    ghost predicate Valid()
      reads this, cLine, arrLRU
    {
      cLine.Length == arrLRU.Length == noLine && SetOk(cLine[..], arrLRU[..], valid)
    }

    /** The tags held, most recently used first. */
    ghost function Recency(): (tags: seq<int>)
      requires Valid()
      reads this, cLine, arrLRU
      ensures |tags| == valid <= noLine
    {
      Tags(cLine[..], arrLRU[..], valid)
    }

    /** calloc leaves no line valid and every entry zero. */
    constructor (lines: nat)
      requires lines >= 1
      ensures Valid() && noLine == lines && Recency() == []
      ensures fresh(cLine) && fresh(arrLRU)
    {
      noLine := lines;
      cLine := new CacheLine[lines](_ => CacheLine(false, 0));
      arrLRU := new int[lines](_ => 0);
      valid := 0;
    }

    /** The scan of SimOneLoadOrSave: the matching valid line, whether every line is
        valid, and the last invalid line. */
    method Lookup(inTag: int) returns (hitIndex: int, isFull: bool, invalidIndex: int)
      requires Valid()
      ensures hitIndex == -1 <==> inTag !in Recency()
      ensures hitIndex != -1 ==> 0 <= hitIndex < noLine && cLine[hitIndex] == CacheLine(true, inTag)
      ensures isFull <==> valid == noLine
      ensures !isFull ==> invalidIndex == noLine - valid - 1
    {
      hitIndex, isFull := -1, true;
      invalidIndex := *;
      var i := 0;
      while i < noLine
        invariant 0 <= i <= noLine
        invariant -1 <= hitIndex < i
        invariant hitIndex == -1 ==> forall j | 0 <= j < i :: !(cLine[j].v && cLine[j].tag == inTag)
        invariant hitIndex != -1 ==> cLine[hitIndex] == CacheLine(true, inTag)
        invariant isFull ==> forall j | 0 <= j < i :: cLine[j].v
        invariant !isFull ==> 0 <= invalidIndex < i && !cLine[invalidIndex].v
        invariant !isFull ==> forall j | invalidIndex < j < i :: cLine[j].v
      {
        if cLine[i].v && inTag == cLine[i].tag {
          hitIndex := i;
        }
        if !cLine[i].v {
          isFull := false;
          invalidIndex := i;
        }
        i := i + 1;
      }
      ScanMeaning(inTag);
      assert hitIndex != -1 ==> cLine[hitIndex].v;
      assert cLine[0].v <==> 0 >= noLine - valid;
      assert !isFull && invalidIndex + 1 < noLine ==> cLine[invalidIndex + 1].v;
    }

    lemma ScanMeaning(inTag: int)
      requires Valid()
      ensures inTag in Recency() <==> exists i :: 0 <= i < noLine && cLine[i].v && cLine[i].tag == inTag
      ensures forall i | 0 <= i < noLine :: cLine[i].v <==> i >= noLine - valid
      ensures valid <= noLine
    {
      TagIsHeld(cLine[..], arrLRU[..], valid, inTag);
      assert forall i | 0 <= i < noLine :: cLine[..][i] == cLine[i];
      if inTag in Recency() {
        var i :| 0 <= i < noLine && cLine[..][i].v && cLine[..][i].tag == inTag;
        assert cLine[i].v && cLine[i].tag == inTag;
      }
      if i :| 0 <= i < noLine && cLine[i].v && cLine[i].tag == inTag {
        assert cLine[..][i].v && cLine[..][i].tag == inTag;
      }
    }

    /** The line's number stands among the meaningful entries. */
    lemma HitEntry(hitIndex: int) returns (p: nat)
      requires Valid() && 0 <= hitIndex < noLine && cLine[hitIndex].v
      ensures p < valid && arrLRU[p] == hitIndex && hitIndex in arrLRU[..]
      ensures MoveToFront(arrLRU[..], hitIndex) == [arrLRU[p]] + (arrLRU[..p] + arrLRU[p + 1..])
    {
      assert cLine[..][hitIndex].v;
      assert hitIndex in arrLRU[..][..valid];
      p :| 0 <= p < valid && arrLRU[..][..valid][p] == hitIndex;
      forall i | 0 <= i < p ensures arrLRU[..][i] != hitIndex {
        assert arrLRU[..][..valid][i] != arrLRU[..][..valid][p];
      }
      WithoutAt(arrLRU[..], hitIndex, p);
    }

    /** The update half of SimOneLoadOrSave on a hit. */
    method Hit(hitIndex: int)
      requires Valid() && 0 <= hitIndex < noLine && cLine[hitIndex].v
      modifies arrLRU
      ensures Valid() && valid == old(valid)
      ensures Recency() == MoveToFront(old(Recency()), old(cLine[hitIndex].tag))
    {
      ghost var p := HitEntry(hitIndex);
      HitKeeps(cLine[..], arrLRU[..], valid, p);
      UpdateLRUWhenHit(arrLRU, hitIndex);
    }

    /** A miss in a full set. */
    method Evict(inTag: int)
      requires Valid() && valid == noLine && inTag !in Recency()
      modifies cLine, arrLRU
      ensures Valid() && valid == old(valid)
      ensures Recency() == [inTag] + old(Recency())[..noLine - 1]
    {
      ghost var lines, lru := cLine[..], arrLRU[..];
      EvictKeeps(lines, lru, inTag);
      var candidateIndex := UpdateLRUWhenEvic(arrLRU);
      assert cLine[candidateIndex] == lines[candidateIndex];
      cLine[candidateIndex] := CacheLine(cLine[candidateIndex].v, inTag);
      assert cLine[..] == lines[candidateIndex := CacheLine(true, inTag)];
    }

    /** A miss with room. */
    method Fill(invalidIndex: int, inTag: int)
      requires Valid() && valid < noLine && invalidIndex == noLine - valid - 1 && inTag !in Recency()
      modifies this`valid, cLine, arrLRU
      ensures Valid() && valid == old(valid) + 1
      ensures Recency() == [inTag] + old(Recency())
    {
      hide SetOk, Tags;
      ghost var lines, lru := cLine[..], arrLRU[..];
      FillKeeps(lines, lru, valid, inTag);
      UpdateLRUWhenMiss(arrLRU, invalidIndex);
      cLine[invalidIndex] := CacheLine(true, inTag);
      assert cLine[..] == lines[invalidIndex := CacheLine(true, inTag)];
      valid := valid + 1;
    }

    /** SimOneLoadOrSave, reporting which counters move. */
    method LoadOrSave(inTag: int) returns (hit: bool, evicted: bool)
      requires Valid()
      modifies this`valid, cLine, arrLRU
      ensures Valid() && Recency() == Touch(old(Recency()), noLine, inTag)
      ensures hit <==> inTag in old(Recency())
      ensures evicted <==> !hit && |old(Recency())| == noLine
    {
      hide SetOk, Tags;
      hit, evicted := false, false;
      var hitIndex, isFull, invalidIndex := Lookup(inTag);
      if hitIndex >= 0 {
        hit := true;
        Hit(hitIndex);
      } else {
        if isFull {
          evicted := true;
          Evict(inTag);
        } else {
          Fill(invalidIndex, inTag);
        }
      }
    }
  }
}
