/** Least-recently-used replacement on a plain list, most recent first, and the
    stack theory behind it: what a cache of one size holds is a prefix of what any
    larger one holds. */
module RecencyList {

  /** l without its first x. */
  function Without<T(==)>(l: seq<T>, x: T): (r: seq<T>)
    ensures |r| == if x in l then |l| - 1 else |l|
  {
    if l == [] then []
    else if l[0] == x then l[1..]
    else [l[0]] + Without(l[1..], x)
  }

  function MoveToFront<T(==)>(l: seq<T>, x: T): (r: seq<T>) {
    [x] + Without(l, x)
  }

  /** One access to an LRU set of capacity e. */
  function Touch<T(==)>(l: seq<T>, e: nat, x: T): (r: seq<T>) {
    if x in l then MoveToFront(l, x)
    else if |l| < e then [x] + l
    else if l == [] then []
    else [x] + l[..|l| - 1]
  }

  ghost predicate Distinct<T>(l: seq<T>) {
    forall i, j | 0 <= i < j < |l| :: l[i] != l[j]
  }

  function First(n: nat, k: nat): nat {
    if k < n then k else n
  }

  /** The e most recent. */
  function Recent<T>(l: seq<T>, e: nat): seq<T> {
    l[..First(|l|, e)]
  }

  // ---- removal at an index ----

  lemma {:induction false} WithoutAbsent<T>(l: seq<T>, x: T)
    requires x !in l
    ensures Without(l, x) == l
  {
    if l != [] {
      WithoutAbsent(l[1..], x);
      assert l == [l[0]] + l[1..];
    }
  }

  lemma {:induction false} WithoutAt<T>(l: seq<T>, x: T, p: nat)
    requires p < |l| && l[p] == x && forall i | 0 <= i < p :: l[i] != x
    ensures Without(l, x) == l[..p] + l[p + 1..]
  {
    if p > 0 {
      WithoutAt(l[1..], x, p - 1);
      assert l[..p] + l[p + 1..] == [l[0]] + (l[1..][..p - 1] + l[1..][p..]);
    }
  }

  lemma {:induction false} WithoutMembers<T>(l: seq<T>, x: T)
    requires Distinct(l)
    ensures Distinct(Without(l, x))
    ensures forall y :: y in Without(l, x) <==> y in l && y != x
  {
    if l != [] {
      WithoutMembers(l[1..], x);
      if l[0] == x {
        assert forall y :: y in l <==> y == l[0] || y in l[1..];
        assert x !in l[1..];
      } else {
        var w := Without(l[1..], x);
        assert Without(l, x) == [l[0]] + w;
        assert l[0] !in l[1..];
        assert forall y :: y in l <==> y == l[0] || y in l[1..];
      }
    }
  }

  lemma MoveDistinct<T>(l: seq<T>, x: T)
    requires Distinct(l)
    ensures Distinct(MoveToFront(l, x))
  {
    WithoutMembers(l, x);
  }

  // ---- the stack ----

  /** Every tag of the trace, most recently used first: a cache without limit. */
  function Stack<T(==)>(trace: seq<T>): (s: seq<T>) {
    if trace == [] then [] else MoveToFront(Stack(trace[..|trace| - 1]), trace[|trace| - 1])
  }

  /** A set of capacity e after the trace. */
  function Lru<T(==)>(trace: seq<T>, e: nat): (l: seq<T>) {
    if trace == [] then [] else Touch(Lru(trace[..|trace| - 1], e), e, trace[|trace| - 1])
  }

  lemma {:induction false} StackDistinct<T>(trace: seq<T>)
    ensures Distinct(Stack(trace))
    ensures forall x :: x in Stack(trace) <==> x in trace
  {
    if trace != [] {
      var front := trace[..|trace| - 1];
      var last := trace[|trace| - 1];
      StackDistinct(front);
      MoveDistinct(Stack(front), last);
      WithoutMembers(Stack(front), last);
      assert trace == front + [last];
    }
  }

  /** Touching the e most recent gives the e most recent of the moved stack. */
  lemma TouchRecent<T>(l: seq<T>, e: nat, x: T)
    requires Distinct(l) && e >= 1
    ensures Touch(Recent(l, e), e, x) == Recent(MoveToFront(l, x), e)
  {
    var r := Recent(l, e);
    if x in l {
      var p :| 0 <= p < |l| && l[p] == x;
      WithoutAt(l, x, p);
      if p < |r| {
        assert r[p] == x;
        WithoutAt(r, x, p);
        TouchWithin(l, e, x, p);
      } else {
        TouchBeyond(l, e, x, p);
      }
    } else {
      WithoutAbsent(l, x);
      assert x !in r;
      hide Without;
      assert |r| == e ==> [x] + r[..e - 1] == ([x] + l)[..e];
      assert |r| < e ==> r == l;
    }
  }

  lemma TouchWithin<T>(l: seq<T>, e: nat, x: T, p: nat)
    requires p < First(|l|, e)
    ensures [x] + (l[..First(|l|, e)][..p] + l[..First(|l|, e)][p + 1..]) == Recent([x] + (l[..p] + l[p + 1..]), e)
  {
    var n := First(|l|, e);
    assert l[..n][..p] == l[..p];
    assert l[..n][p + 1..] == l[p + 1..n];
    assert First(|[x] + (l[..p] + l[p + 1..])|, e) == n;
  }

  lemma TouchBeyond<T>(l: seq<T>, e: nat, x: T, p: nat)
    requires Distinct(l) && 1 <= e <= p < |l| && l[p] == x
    ensures x !in Recent(l, e) && Touch(Recent(l, e), e, x) == Recent([x] + (l[..p] + l[p + 1..]), e)
  {
    var r := Recent(l, e);
    assert r == l[..e];
    assert x !in r;
    hide Distinct, Without;
    var m := [x] + (l[..p] + l[p + 1..]);
    assert Touch(r, e, x) == [x] + r[..e - 1];
    assert r[..e - 1] == l[..e - 1];
    assert (l[..p] + l[p + 1..])[..e - 1] == l[..e - 1];
    assert m[..e] == [x] + (l[..p] + l[p + 1..])[..e - 1];
  }

  /** A set of capacity e holds exactly the e most recent tags. */
  lemma {:induction false} LruIsRecent<T>(trace: seq<T>, e: nat)
    requires e >= 1
    ensures Lru(trace, e) == Recent(Stack(trace), e)
  {
    if trace != [] {
      var front := trace[..|trace| - 1];
      LruIsRecent(front, e);
      StackDistinct(front);
      TouchRecent(Stack(front), e, trace[|trace| - 1]);
    }
  }

  /** Inclusion: a smaller set's contents are a prefix of a larger one's, so what
      hits in the smaller hits in the larger. */
  lemma Inclusion<T>(trace: seq<T>, e: nat, e': nat)
    requires 1 <= e <= e'
    ensures Lru(trace, e) <= Lru(trace, e')
  {
    LruIsRecent(trace, e);
    LruIsRecent(trace, e');
  }

  /** The distinct tags used since the last use of x. */
  function Since<T(==)>(trace: seq<T>, x: T): set<T> {
    if trace == [] || trace[|trace| - 1] == x then {}
    else Since(trace[..|trace| - 1], x) + {trace[|trace| - 1]}
  }

  function Elements<T>(l: seq<T>): set<T> {
    set i | 0 <= i < |l| :: l[i]
  }

  lemma {:induction false} ElementsCount<T>(l: seq<T>)
    requires Distinct(l)
    ensures |Elements(l)| == |l|
  {
    if l != [] {
      ElementsCount(l[..|l| - 1]);
      ElementsFront(l);
    }
  }

  lemma ElementsFront<T>(l: seq<T>)
    requires Distinct(l) && l != []
    ensures var n := |l| - 1; Elements(l) == Elements(l[..n]) + {l[n]} && l[n] !in Elements(l[..n])
  {
    var n := |l| - 1;
    var front := l[..n];
    assert forall i | 0 <= i < n :: front[i] == l[i];
    forall x | x in Elements(l) ensures x in Elements(front) + {l[n]} {
      var i :| 0 <= i < |l| && l[i] == x;
      assert i < n ==> front[i] == x;
    }
    forall x | x in Elements(front) ensures x in Elements(l) && x != l[n] {
      var i :| 0 <= i < |front| && front[i] == x;
      assert l[i] == x;
    }
  }

  /** What stands above x in the stack is what was used since x. */
  lemma {:induction false} AboveIsSince<T>(trace: seq<T>, x: T, p: nat)
    requires p < |Stack(trace)| && Stack(trace)[p] == x
    ensures Elements(Stack(trace)[..p]) == Since(trace, x)
  {
    var front := trace[..|trace| - 1];
    var last := trace[|trace| - 1];
    var s := Stack(front);
    StackDistinct(trace);
    StackDistinct(front);
    if last == x {
      assert Stack(trace)[0] == x;
    } else {
      WithoutMembers(s, last);
      assert x in Without(s, last) by { assert Without(s, last)[p - 1] == x; }
      var q :| 0 <= q < |s| && s[q] == x;
      AboveIsSince(front, x, q);
      MovedAbove(s, last, x, p, q);
    }
  }

  lemma MovedAbove<T>(s: seq<T>, y: T, x: T, p: nat, q: nat)
    requires Distinct(s) && Distinct(MoveToFront(s, y)) && x != y
    requires p < |MoveToFront(s, y)| && MoveToFront(s, y)[p] == x
    requires q < |s| && s[q] == x
    ensures Elements(MoveToFront(s, y)[..p]) == Elements(s[..q]) + {y}
  {
    var m := MoveToFront(s, y);
    assert m[0] == y;
    if y in s {
      var k :| 0 <= k < |s| && s[k] == y;
      WithoutAt(s, y, k);
      assert m == [y] + (s[..k] + s[k + 1..]);
      if k < q {
        assert m[q] == x;
        assert p == q;
        AboveShift(s, m, y, p, q, k);
      } else {
        assert m[q + 1] == x;
        assert p == q + 1;
        assert m[..p] == [y] + s[..q];
        ElementsCons(y, s[..q]);
      }
    } else {
      WithoutAbsent(s, y);
      assert m[q + 1] == x;
      assert p == q + 1;
      assert m[..p] == [y] + s[..q];
      ElementsCons(y, s[..q]);
    }
  }

  lemma ElementsCons<T>(y: T, l: seq<T>)
    ensures Elements([y] + l) == Elements(l) + {y}
  {
    var m := [y] + l;
    forall x | x in Elements(l) + {y} ensures x in Elements(m) {
      if x == y {
        assert m[0] == y;
      } else {
        var i :| 0 <= i < |l| && l[i] == x;
        assert m[i + 1] == x;
      }
    }
    forall x | x in Elements(m) ensures x in Elements(l) + {y} {
      var i :| 0 <= i < |m| && m[i] == x;
      if i > 0 { assert l[i - 1] == x; }
    }
  }

  lemma AboveShift<T>(s: seq<T>, m: seq<T>, y: T, p: nat, q: nat, k: nat)
    requires k < q < |s| && p == q && s[k] == y
    requires m == [y] + (s[..k] + s[k + 1..])
    ensures Elements(m[..p]) == Elements(s[..q]) + {y}
  {
    forall x | x in Elements(m[..p]) ensures x in Elements(s[..q]) {
      var i :| 0 <= i < p && m[i] == x;
      if i == 0 { assert s[..q][k] == x; }
      else if i <= k { assert s[..q][i - 1] == x; }
      else { assert s[..q][i] == x; }
    }
    forall x | x in Elements(s[..q]) ensures x in Elements(m[..p]) {
      var i :| 0 <= i < q && s[i] == x;
      if i < k { assert m[..p][i + 1] == x; }
      else if i == k { assert m[..p][0] == x; }
      else { assert m[..p][i] == x; }
    }
    assert s[..q][k] == y;
  }

  /** An access to x hits in a set of capacity e exactly when x was used before and
      fewer than e distinct other tags were used since. */
  lemma HitByDistance<T>(trace: seq<T>, e: nat, x: T)
    requires e >= 1
    ensures x in Lru(trace, e) <==> x in trace && |Since(trace, x)| < e
  {
    LruIsRecent(trace, e);
    StackDistinct(trace);
    var s := Stack(trace);
    if x in trace {
      var p :| 0 <= p < |s| && s[p] == x;
      AboveIsSince(trace, x, p);
      ElementsCount(s[..p]);
      if p < e { assert Recent(s, e)[p] == x; }
    }
  }
}
