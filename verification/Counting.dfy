/** How many elements of a sequence satisfy a predicate, what they weigh together, and
    how one update moves both: the arithmetic behind the semaphore invariants and the
    progress arguments. */
module Counting {

  function Bit(b: bool): int {
    if b then 1 else 0
  }

  function Count<T>(xs: seq<T>, f: T -> bool): (c: int)
    ensures 0 <= c <= |xs|
  {
    if xs == [] then 0
    else Count(xs[..|xs| - 1], f) + Bit(f(xs[|xs| - 1]))
  }

  lemma {:induction false} CountUpdate<T>(xs: seq<T>, i: int, x: T, f: T -> bool)
    requires 0 <= i < |xs|
    ensures Count(xs[i := x], f)
         == Count(xs, f) + Bit(f(x)) - Bit(f(xs[i]))
  {
    var last := |xs| - 1;
    var after := xs[i := x];
    if i == last {
      assert after[..last] == xs[..last];
    } else {
      assert after[..last] == xs[..last][i := x];
      CountUpdate(xs[..last], i, x, f);
    }
  }

  lemma {:induction false} CountOne<T>(xs: seq<T>, i: int, f: T -> bool)
    requires 0 <= i < |xs| && f(xs[i])
    ensures Count(xs, f) >= 1
  {
    var last := |xs| - 1;
    if i != last {
      assert xs[..last][i] == xs[i];
      CountOne(xs[..last], i, f);
    }
  }

  lemma {:induction false} CountTwo<T>(xs: seq<T>, i: int, j: int, f: T -> bool)
    requires 0 <= i < j < |xs| && f(xs[i]) && f(xs[j])
    ensures Count(xs, f) >= 2
  {
    var last := |xs| - 1;
    if j == last {
      assert xs[..last][i] == xs[i];
      CountOne(xs[..last], i, f);
    } else {
      assert xs[..last][i] == xs[i] && xs[..last][j] == xs[j];
      CountTwo(xs[..last], i, j, f);
    }
  }

  lemma {:induction false} CountFind<T>(xs: seq<T>, f: T -> bool) returns (i: int)
    requires Count(xs, f) >= 1
    ensures 0 <= i < |xs| && f(xs[i])
  {
    var last := |xs| - 1;
    if f(xs[last]) {
      i := last;
    } else {
      i := CountFind(xs[..last], f);
    }
  }

  lemma {:induction false} CountNone<T>(xs: seq<T>, f: T -> bool)
    requires forall i | 0 <= i < |xs| :: !f(xs[i])
    ensures Count(xs, f) == 0
  {
    if xs != [] {
      var last := |xs| - 1;
      assert forall i | 0 <= i < last :: xs[..last][i] == xs[i];
      CountNone(xs[..last], f);
    }
  }

  lemma CountAtMostAt<T>(xs: seq<T>, i: int, f: T -> bool)
    requires 0 <= i < |xs|
    requires forall j | 0 <= j < |xs| && j != i :: !f(xs[j])
    ensures Count(xs, f) == Bit(f(xs[i]))
  {
    if f(xs[i]) {
      CountOne(xs, i, f);
      if Count(xs, f) >= 2 {
        CountDrop(xs, i, f);
      }
    } else {
      CountNone(xs, f);
    }
  }

  lemma {:induction false} CountDrop<T>(xs: seq<T>, i: int, f: T -> bool)
    requires 0 <= i < |xs|
    requires forall j | 0 <= j < |xs| && j != i :: !f(xs[j])
    ensures Count(xs, f) <= 1
  {
    var last := |xs| - 1;
    assert forall j | 0 <= j < last :: xs[..last][j] == xs[j];
    if i == last {
      CountNone(xs[..last], f);
    } else {
      CountDrop(xs[..last], i, f);
    }
  }

  // ---- weights ----

  function Total<T>(xs: seq<T>, w: T -> nat): (sum: nat) {
    if xs == [] then 0 else Total(xs[..|xs| - 1], w) + w(xs[|xs| - 1])
  }

  lemma {:induction false} TotalUpdate<T>(xs: seq<T>, i: int, x: T, w: T -> nat)
    requires 0 <= i < |xs|
    ensures Total(xs[i := x], w) == Total(xs, w) + w(x) - w(xs[i])
  {
    var last := |xs| - 1;
    var after := xs[i := x];
    if i == last {
      assert after[..last] == xs[..last];
    } else {
      assert after[..last] == xs[..last][i := x];
      TotalUpdate(xs[..last], i, x, w);
    }
  }

  lemma {:induction false} TotalNone<T>(xs: seq<T>, w: T -> nat)
    requires forall i | 0 <= i < |xs| :: w(xs[i]) == 0
    ensures Total(xs, w) == 0
  {
    if xs != [] {
      var last := |xs| - 1;
      assert forall i | 0 <= i < last :: xs[..last][i] == xs[i];
      TotalNone(xs[..last], w);
    }
  }

  // ---- values held ----

  /** What the elements hold together. */
  function Gather<T>(xs: seq<T>, f: T -> multiset<int>): multiset<int> {
    if xs == [] then multiset{} else Gather(xs[..|xs| - 1], f) + f(xs[|xs| - 1])
  }

  /** How one update moves the number of holders of v. */
  lemma {:induction false} GatherUpdate<T>(xs: seq<T>, i: int, x: T, f: T -> multiset<int>, v: int)
    requires 0 <= i < |xs|
    ensures Gather(xs[i := x], f)[v] + f(xs[i])[v] == Gather(xs, f)[v] + f(x)[v]
  {
    var last := |xs| - 1;
    var after := xs[i := x];
    if i == last {
      assert after[..last] == xs[..last];
    } else {
      assert after[..last] == xs[..last][i := x];
      GatherUpdate(xs[..last], i, x, f, v);
    }
  }

  lemma {:induction false} GatherNone<T>(xs: seq<T>, f: T -> multiset<int>)
    requires forall i | 0 <= i < |xs| :: f(xs[i]) == multiset{}
    ensures Gather(xs, f) == multiset{}
  {
    if xs != [] {
      var last := |xs| - 1;
      assert forall i | 0 <= i < last :: xs[..last][i] == xs[i];
      GatherNone(xs[..last], f);
    }
  }
}
