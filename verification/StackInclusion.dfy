/** What the counters of a simulated cache say about its trace: each set is the LRU list
    of its own accesses, each counter is a number of accesses of one kind, and larger
    sets hit no less. */
module StackInclusion {
  import opened RecencyList
  import opened CacheModel

  // ---- the accesses of a trace ----

  /** One access: the tag used in a set. */
  datatype Use = Use(index: int, tag: int)

  /** A load or a store is one access, a modify two, an instruction fetch none. */
  function UsesOf(c: Shape, r: Record): seq<Use>
    requires ShapeOk(c) && r.addr >= 0
  {
    var u := Use(SetIndexOf(r.addr, c.s, c.b), TagOf(r.addr, c.s, c.b));
    match r.kind
    case 'L' => [u]
    case 'S' => [u]
    case 'M' => [u, u]
    case _ => []
  }

  function Uses(c: Shape, trace: seq<Record>): seq<Use>
    requires ShapeOk(c) && TraceOk(trace)
  {
    if trace == [] then []
    else Uses(c, trace[..|trace| - 1]) + UsesOf(c, trace[|trace| - 1])
  }

  function CountKind(trace: seq<Record>, kind: char): nat {
    if trace == [] then 0
    else CountKind(trace[..|trace| - 1], kind) + if trace[|trace| - 1].kind == kind then 1 else 0
  }

  /** L + S + 2M */
  lemma {:induction false} UsesCount(c: Shape, trace: seq<Record>)
    requires ShapeOk(c) && TraceOk(trace)
    ensures |Uses(c, trace)| == CountKind(trace, 'L') + CountKind(trace, 'S') + 2 * CountKind(trace, 'M')
  {
    hide SetIndexOf, TagOf;
    if trace != [] {
      UsesCount(c, trace[..|trace| - 1]);
    }
  }

  /** Every use is of one of the 2^s sets. */
  lemma {:induction false} UsesInSets(c: Shape, trace: seq<Record>)
    requires ShapeOk(c) && TraceOk(trace)
    ensures forall k | 0 <= k < |Uses(c, trace)| :: 0 <= Uses(c, trace)[k].index < Pow2(c.s)
  {
    hide SetIndexOf, TagOf, Pow2;
    if trace != [] {
      UsesInSets(c, trace[..|trace| - 1]);
      AddressFields(trace[|trace| - 1].addr, c.s, c.b);
    }
  }

  /** The tags used in set i, in order. */
  function TagsOf(uses: seq<Use>, i: int): seq<int> {
    if uses == [] then []
    else TagsOf(uses[..|uses| - 1], i) + if uses[|uses| - 1].index == i then [uses[|uses| - 1].tag] else []
  }

  /** Access number k hits: its tag was used in its set before, and fewer than e distinct
      other tags were used there since. */
  predicate Hit(uses: seq<Use>, k: nat, e: nat)
    requires k < |uses|
  {
    var l := TagsOf(uses[..k], uses[k].index);
    uses[k].tag in l && |Since(l, uses[k].tag)| < e
  }

  /** It evicts: it does not hit, and at least e distinct tags were used in its set. */
  predicate Evicts(uses: seq<Use>, k: nat, e: nat)
    requires k < |uses|
  {
    !Hit(uses, k, e) && |Elements(TagsOf(uses[..k], uses[k].index))| >= e
  }

  function HitTimes(uses: seq<Use>, e: nat): set<nat> {
    set k: nat | k < |uses| && Hit(uses, k, e)
  }

  function EvictTimes(uses: seq<Use>, e: nat): set<nat> {
    set k: nat | k < |uses| && Evicts(uses, k, e)
  }

  // ---- the simulator, access by access ----

  predicate InSets(c: Shape, uses: seq<Use>) {
    forall k | 0 <= k < |uses| :: 0 <= uses[k].index < Pow2(c.s)
  }

  function SimulateUses(c: Shape, uses: seq<Use>): (m: Sim)
    requires InSets(c, uses)
    ensures |m.sets| == Pow2(c.s)
  {
    if uses == [] then Start(c)
    else
      var u := uses[|uses| - 1];
      Access(SimulateUses(c, uses[..|uses| - 1]), c.e, u.index, u.tag)
  }

  lemma UsesMore(c: Shape, uses: seq<Use>, u: Use)
    requires InSets(c, uses) && 0 <= u.index < Pow2(c.s)
    ensures InSets(c, uses + [u])
    ensures SimulateUses(c, uses + [u]) == Access(SimulateUses(c, uses), c.e, u.index, u.tag)
  {
    hide Pow2, Access;
    assert (uses + [u])[..|uses|] == uses;
  }

  lemma {:induction false} SimulateByUses(c: Shape, trace: seq<Record>)
    requires ShapeOk(c) && TraceOk(trace)
    ensures InSets(c, Uses(c, trace)) && Simulate(c, trace) == SimulateUses(c, Uses(c, trace))
  {
    hide Pow2, SetIndexOf, TagOf, Access;
    UsesInSets(c, trace);
    if trace != [] {
      var front, r := trace[..|trace| - 1], trace[|trace| - 1];
      SimulateByUses(c, front);
      AddressFields(r.addr, c.s, c.b);
      InstructionByUses(c, Uses(c, front), r);
    }
  }

  lemma InstructionByUses(c: Shape, uses: seq<Use>, r: Record)
    requires ShapeOk(c) && r.addr >= 0 && ValidKind(r.kind) && InSets(c, uses)
    ensures InSets(c, uses + UsesOf(c, r))
    ensures Instruction(SimulateUses(c, uses), c, r) == SimulateUses(c, uses + UsesOf(c, r))
  {
    AddressFields(r.addr, c.s, c.b);
    hide Pow2, SetIndexOf, TagOf, Access, SimulateUses, InSets;
    var u := Use(SetIndexOf(r.addr, c.s, c.b), TagOf(r.addr, c.s, c.b));
    UsesMore(c, uses, u);
    UsesMore(c, uses + [u], u);
    TwoMore(uses, u);
  }

  lemma TwoMore(uses: seq<Use>, u: Use)
    ensures uses + [u, u] == (uses + [u]) + [u] && uses + [] == uses
  {
  }

  lemma LruOneMore(l: seq<int>, e: nat, x: int)
    ensures Lru(l + [x], e) == Touch(Lru(l, e), e, x)
  {
    assert (l + [x])[..|l|] == l;
  }

  /** What set i holds is the LRU list of the tags used in it, whatever happened in the
      other sets. */
  lemma {:induction false} SetsAreLru(c: Shape, uses: seq<Use>, i: nat)
    requires InSets(c, uses) && i < Pow2(c.s)
    ensures SimulateUses(c, uses).sets[i] == Lru(TagsOf(uses, i), c.e)
  {
    hide Pow2, Touch;
    if uses != [] {
      var front, u := uses[..|uses| - 1], uses[|uses| - 1];
      SetsAreLru(c, front, i);
      LruOneMore(TagsOf(front, i), c.e, u.tag);
      assert TagsOf(front, i) + [] == TagsOf(front, i);
    }
  }

  // ---- the counters ----

  /** An LRU list has min(e, the number of distinct tags) entries. */
  lemma LruLength(l: seq<int>, e: nat)
    requires e >= 1
    ensures |Lru(l, e)| == First(|Elements(l)|, e)
  {
    LruIsRecent(l, e);
    StackDistinct(l);
    ElementsCount(Stack(l));
    hide Stack, Lru;
    assert Elements(Stack(l)) == Elements(l) by {
      forall x | x in Elements(l) ensures x in Elements(Stack(l)) {
        assert x in l && x in Stack(l);
      }
      forall x | x in Elements(Stack(l)) ensures x in Elements(l) {
        assert x in Stack(l) && x in l;
      }
    }
  }

  lemma HitsMore(uses: seq<Use>, u: Use, e: nat)
    ensures var all := uses + [u];
            |HitTimes(all, e)| == |HitTimes(uses, e)| + (if Hit(all, |uses|, e) then 1 else 0)
  {
    var all, n := uses + [u], |uses|;
    SameBefore(uses, u, e);
    hide Hit, Evicts, EvictTimes;
    assert HitTimes(all, e) == HitTimes(uses, e) + (if Hit(all, n, e) then {n} else {});
  }

  lemma EvictsMore(uses: seq<Use>, u: Use, e: nat)
    ensures var all := uses + [u];
            |EvictTimes(all, e)| == |EvictTimes(uses, e)| + (if Evicts(all, |uses|, e) then 1 else 0)
  {
    var all, n := uses + [u], |uses|;
    SameBefore(uses, u, e);
    hide Hit, Evicts, HitTimes;
    assert EvictTimes(all, e) == EvictTimes(uses, e) + (if Evicts(all, n, e) then {n} else {});
  }

  lemma SameBefore(uses: seq<Use>, u: Use, e: nat)
    ensures var all := uses + [u];
            forall k: nat | k < |uses| :: Hit(all, k, e) == Hit(uses, k, e) && Evicts(all, k, e) == Evicts(uses, k, e)
  {
    var all := uses + [u];
    hide Since, Elements, TagsOf;
    forall k: nat | k < |uses| ensures Hit(all, k, e) == Hit(uses, k, e) && Evicts(all, k, e) == Evicts(uses, k, e) {
      assert all[..k] == uses[..k] && all[k] == uses[k];
    }
  }

  /** Each counter is the number of accesses of its kind. */
  lemma {:induction false} UsesExact(c: Shape, uses: seq<Use>)
    requires c.e >= 1 && InSets(c, uses)
    ensures var m := SimulateUses(c, uses);
            && m.hits == |HitTimes(uses, c.e)|
            && m.misses == |uses| - |HitTimes(uses, c.e)|
            && m.evictions == |EvictTimes(uses, c.e)|
  {
    hide Pow2, Touch, Hit, Evicts;
    if uses == [] {
      assert HitTimes([], c.e) == {} && EvictTimes([], c.e) == {};
    } else {
      var n := |uses| - 1;
      var front, u := uses[..n], uses[n];
      UsesExact(c, front);
      assert uses == front + [u];
      HitsMore(front, u, c.e);
      EvictsMore(front, u, c.e);
      NextUse(c, front, u);
      hide HitTimes, EvictTimes;
    }
  }

  /** The next access hits or evicts in the simulator exactly when the trace says so. */
  lemma NextUse(c: Shape, front: seq<Use>, u: Use)
    requires c.e >= 1 && InSets(c, front) && 0 <= u.index < Pow2(c.s)
    ensures var l, all := SimulateUses(c, front).sets[u.index], front + [u];
            && (Hit(all, |front|, c.e) <==> u.tag in l)
            && (Evicts(all, |front|, c.e) <==> u.tag !in l && |l| == c.e)
  {
    hide Pow2;
    var all := front + [u];
    assert all[..|front|] == front && all[|front|] == u;
    var l := TagsOf(front, u.index);
    SetsAreLru(c, front, u.index);
    HitByDistance(l, c.e, u.tag);
    LruLength(l, c.e);
  }

  /** Counted from the trace alone: hits are the accesses whose reuse distance in their
      set is below e, misses the others, and evictions the misses in a set that has seen
      at least e distinct tags. */
  lemma CountersExact(c: Shape, trace: seq<Record>)
    requires ShapeOk(c) && TraceOk(trace)
    ensures var m, uses := Simulate(c, trace), Uses(c, trace);
            && m.hits == |HitTimes(uses, c.e)|
            && m.misses == |uses| - |HitTimes(uses, c.e)|
            && m.evictions == |EvictTimes(uses, c.e)|
  {
    hide HitTimes, EvictTimes, Simulate, Uses, SimulateUses;
    SimulateByUses(c, trace);
    UsesExact(c, Uses(c, trace));
  }

  function LinesInUse(sets: seq<seq<int>>): int {
    if sets == [] then 0 else LinesInUse(sets[..|sets| - 1]) + |sets[|sets| - 1]|
  }

  lemma {:induction false} LinesUpdate(sets: seq<seq<int>>, i: nat, l: seq<int>)
    requires i < |sets|
    ensures LinesInUse(sets[i := l]) == LinesInUse(sets) + |l| - |sets[i]|
  {
    var last := |sets| - 1;
    var after := sets[i := l];
    if i == last {
      assert after[..last] == sets[..last];
    } else {
      assert after[..last] == sets[..last][i := l];
      LinesUpdate(sets[..last], i, l);
    }
  }

  lemma {:induction false} NoLines(n: nat)
    ensures LinesInUse(seq(n, _ => [])) == 0
  {
    var sets: seq<seq<int>> := seq(n, _ => []);
    if n > 0 {
      NoLines(n - 1);
      var front: seq<seq<int>> := seq(n - 1, _ => []);
      assert sets[..n - 1] == front;
    }
  }

  ghost predicate Bounded(m: Sim, e: nat) {
    forall i | 0 <= i < |m.sets| :: |m.sets[i]| <= e
  }

  lemma {:induction false} LinesConserved(c: Shape, uses: seq<Use>)
    requires c.e >= 1 && InSets(c, uses)
    ensures var m := SimulateUses(c, uses);
            m.misses - m.evictions == LinesInUse(m.sets) && Bounded(m, c.e)
  {
    hide Pow2, LinesInUse;
    if uses == [] {
      NoLines(Pow2(c.s));
    } else {
      var front, u := uses[..|uses| - 1], uses[|uses| - 1];
      LinesConserved(c, front);
      var l := SimulateUses(c, front).sets[u.index];
      assert |l| <= c.e;
      LinesUpdate(SimulateUses(c, front).sets, u.index, Touch(l, c.e, u.tag));
      assert |Touch(l, c.e, u.tag)| == if u.tag in l || |l| == c.e then |l| else |l| + 1;
      hide Touch;
    }
  }

  /** hits + misses is the number of accesses, one per L and S and two per M, and
      misses - evictions is the number of lines in use. */
  lemma CountersConserved(c: Shape, trace: seq<Record>)
    requires ShapeOk(c) && TraceOk(trace)
    ensures var m := Simulate(c, trace);
            && m.hits + m.misses == CountKind(trace, 'L') + CountKind(trace, 'S') + 2 * CountKind(trace, 'M')
            && m.misses - m.evictions == LinesInUse(m.sets)
            && Bounded(m, c.e)
            && m.hits == |HitTimes(Uses(c, trace), c.e)| && m.evictions == |EvictTimes(Uses(c, trace), c.e)|
  {
    hide HitTimes, EvictTimes, Simulate, Uses, SimulateUses, LinesInUse, Bounded, CountKind;
    CountersExact(c, trace);
    UsesCount(c, trace);
    SimulateByUses(c, trace);
    LinesConserved(c, Uses(c, trace));
  }

  // ---- associativity ----

  /** Each set of the smaller cache is a prefix of the larger cache's, and the
      larger has hit at least as often. */
  ghost predicate Within(m: Sim, m': Sim) {
    && |m.sets| == |m'.sets|
    && (forall i | 0 <= i < |m.sets| :: m.sets[i] <= m'.sets[i])
    && m.hits <= m'.hits && m'.misses <= m.misses
  }

  lemma AccessWithin(m: Sim, m': Sim, e: nat, e': nat, index: nat, tag: int)
    requires Within(m, m') && index < |m.sets|
    requires Touch(m.sets[index], e, tag) <= Touch(m'.sets[index], e', tag)
    ensures Within(Access(m, e, index, tag), Access(m', e', index, tag))
  {
    hide Touch;
    var l, l' := m.sets[index], m'.sets[index];
    assert l <= l';
    if tag in l {
      var p :| 0 <= p < |l| && l[p] == tag;
      assert l'[p] == tag;
    }
  }

  lemma {:induction false} UsesWithin(c: Shape, c': Shape, uses: seq<Use>)
    requires c.s == c'.s && 1 <= c.e <= c'.e && InSets(c, uses)
    ensures Within(SimulateUses(c, uses), SimulateUses(c', uses))
  {
    hide Pow2, Touch, Access;
    if uses != [] {
      var front, u := uses[..|uses| - 1], uses[|uses| - 1];
      UsesWithin(c, c', front);
      var l := TagsOf(front, u.index);
      SetsAreLru(c, front, u.index);
      SetsAreLru(c', front, u.index);
      LruOneMore(l, c.e, u.tag);
      LruOneMore(l, c'.e, u.tag);
      Inclusion(l + [u.tag], c.e, c'.e);
      AccessWithin(SimulateUses(c, front), SimulateUses(c', front), c.e, c'.e, u.index, u.tag);
    }
  }

  lemma {:induction false} SameUses(c: Shape, c': Shape, trace: seq<Record>)
    requires ShapeOk(c) && ShapeOk(c') && c.s == c'.s && c.b == c'.b && TraceOk(trace)
    ensures Uses(c, trace) == Uses(c', trace)
  {
    hide SetIndexOf, TagOf;
    if trace != [] {
      SameUses(c, c', trace[..|trace| - 1]);
    }
  }

  /** Of two caches that differ only in lines per set, the larger holds at every
      moment all that the smaller holds and never hits less often. */
  lemma MoreLinesHitMore(c: Shape, c': Shape, trace: seq<Record>)
    requires ShapeOk(c) && ShapeOk(c') && c.s == c'.s && c.b == c'.b && c.e <= c'.e
    requires TraceOk(trace)
    ensures Within(Simulate(c, trace), Simulate(c', trace))
  {
    hide Uses, Simulate, SimulateUses, Within;
    SimulateByUses(c, trace);
    SimulateByUses(c', trace);
    SameUses(c, c', trace);
    UsesWithin(c, c', Uses(c, trace));
  }

  lemma LoadOrSaveLast(c: Shape, trace: seq<Record>, r: Record)
    requires ShapeOk(c) && TraceOk(trace) && r.addr >= 0 && (r.kind == 'L' || r.kind == 'S')
    ensures TraceOk(trace + [r])
    ensures var index, tag := SetIndexOf(r.addr, c.s, c.b), TagOf(r.addr, c.s, c.b);
            var m := Simulate(c, trace);
            0 <= index < |m.sets| && Simulate(c, trace + [r]) == Access(m, c.e, index, tag)
  {
    hide Pow2, SetIndexOf, TagOf, Access;
    AddressFields(r.addr, c.s, c.b);
    assert (trace + [r])[..|trace|] == trace;
  }

  /** The next load or store is counted as a hit exactly when its tag was used in its
      set before and fewer than e distinct other tags were used there since; it is found
      in the set exactly then. */
  lemma HitByReuseDistance(c: Shape, trace: seq<Record>, r: Record)
    requires ShapeOk(c) && TraceOk(trace) && r.addr >= 0 && (r.kind == 'L' || r.kind == 'S')
    ensures TraceOk(trace + [r])
    ensures var index, tag := SetIndexOf(r.addr, c.s, c.b), TagOf(r.addr, c.s, c.b);
            var l := TagsOf(Uses(c, trace), index);
            var hit := tag in l && |Since(l, tag)| < c.e;
            var m, after := Simulate(c, trace), Simulate(c, trace + [r]);
            && 0 <= index < |m.sets|
            && (tag in m.sets[index] <==> hit)
            && after.hits == m.hits + (if hit then 1 else 0)
            && after.misses == m.misses + (if hit then 0 else 1)
            && after.evictions == m.evictions + (if !hit && |Elements(l)| >= c.e then 1 else 0)
  {
    LoadOrSaveLast(c, trace, r);
    hide Pow2, SetIndexOf, TagOf, Touch, Simulate, TagsOf, Uses, Since, Elements;
    var index, tag := SetIndexOf(r.addr, c.s, c.b), TagOf(r.addr, c.s, c.b);
    var uses := Uses(c, trace);
    var l := TagsOf(uses, index);
    SimulateByUses(c, trace);
    SetsAreLru(c, uses, index);
    HitByDistance(l, c.e, tag);
    LruLength(l, c.e);
  }

  /** The next modify is a load and a store of the same tag: the second always hits. */
  lemma ModifyIsTwo(c: Shape, trace: seq<Record>, r: Record)
    requires ShapeOk(c) && TraceOk(trace) && r.addr >= 0 && r.kind == 'M'
    ensures TraceOk(trace + [r]) && TraceOk(trace + [Record('L', r.addr)])
    ensures var after, one := Simulate(c, trace + [r]), Simulate(c, trace + [Record('L', r.addr)]);
            after == one.(hits := one.hits + 1)
  {
    hide Pow2, SetIndexOf, TagOf;
    AddressFields(r.addr, c.s, c.b);
    var load := Record('L', r.addr);
    assert (trace + [r])[..|trace|] == trace && (trace + [load])[..|trace|] == trace;
    var index, tag := SetIndexOf(r.addr, c.s, c.b), TagOf(r.addr, c.s, c.b);
    var one := Simulate(c, trace + [load]);
    SecondTouch(Simulate(c, trace).sets[index], c.e, tag);
    assert one.sets[index := one.sets[index]] == one.sets;
  }

  lemma SecondTouch(l: seq<int>, e: nat, x: int)
    requires e >= 1
    ensures x in Touch(l, e, x) && Touch(Touch(l, e, x), e, x) == Touch(l, e, x)
  {
    var t := Touch(l, e, x);
    assert t != [] && t[0] == x;
    assert Without(t, x) == t[1..] && t == [x] + t[1..];
  }
}
