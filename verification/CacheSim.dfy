/** csim.c: the cache simulator over a trace, and its agreement with the model. */
module CacheSim {
  import opened RecencyList
  import opened CacheSets
  import opened CacheModel
  import opened StackInclusion

  // ---- csim.c ----

  method MakeSets(noSet: nat, noLine: nat) returns (sets: seq<CacheSet>)
    requires noLine >= 1
    ensures |sets| == noSet
    ensures forall i | 0 <= i < noSet ::
              && sets[i].noLine == noLine && fresh(sets[i]) && fresh(sets[i].cLine) && fresh(sets[i].arrLRU)
              && sets[i].Valid() && sets[i].Recency() == []
    ensures forall i, j | 0 <= i < noSet && 0 <= j < noSet && i != j ::
              sets[i] != sets[j] && sets[i].cLine != sets[j].cLine && sets[i].arrLRU != sets[j].arrLRU
  {
    hide SetOk, Tags;
    sets := [];
    while |sets| < noSet
      invariant |sets| <= noSet
      invariant forall i | 0 <= i < |sets| ::
                  && sets[i].noLine == noLine && fresh(sets[i]) && fresh(sets[i].cLine) && fresh(sets[i].arrLRU)
                  && sets[i].Valid() && sets[i].Recency() == []
      invariant forall i, j | 0 <= i < |sets| && 0 <= j < |sets| && i != j ::
                  sets[i] != sets[j] && sets[i].cLine != sets[j].cLine && sets[i].arrLRU != sets[j].arrLRU
    {
      var added := new CacheSet(noLine);
      sets := sets + [added];
    }
  }

  class Cache {
    const shape: Shape
    const cSet: seq<CacheSet>
    var hitCount: int
    var missCount: int
    var eviCount: int

    ghost function Parts(): set<object>
    {
      (set i | 0 <= i < |cSet| :: cSet[i] as object)
      + (set i | 0 <= i < |cSet| :: cSet[i].cLine as object)
      + (set i | 0 <= i < |cSet| :: cSet[i].arrLRU as object)
    }

    /** No two sets share an object or an array. */
    ghost predicate Apart() {
      forall i, j | 0 <= i < |cSet| && 0 <= j < |cSet| && i != j ::
        cSet[i] != cSet[j] && cSet[i].cLine != cSet[j].cLine && cSet[i].arrLRU != cSet[j].arrLRU
    }

    ghost predicate Valid()
      reads this, Parts()
    {
      && ShapeOk(shape) && |cSet| == Pow2(shape.s) && Apart()
      && (forall i | 0 <= i < |cSet| :: cSet[i].noLine == shape.e && cSet[i].Valid())
    }

    ghost function State(): Sim
      requires Valid()
      reads this, Parts()
    {
      Sim(seq(|cSet|, i requires 0 <= i < |cSet| && cSet[i].Valid() reads Parts() => cSet[i].Recency()),
          hitCount, missCount, eviCount)
    }

    /** ConstructCacheIns: 2^s empty sets of e lines. */
    constructor (c: Shape)
      requires ShapeOk(c)
      ensures Valid() && shape == c && State() == Start(c) && fresh(Parts())
    {
      shape := c;
      hitCount, missCount, eviCount := 0, 0, 0;
      var sets := MakeSets(Pow2(c.s), c.e);
      cSet := sets;
      new;
      hide Pow2, CacheSet.Recency, CacheSet.Valid;
      assert State().sets == Start(c).sets;
    }

    /** SimOneLoadOrSave on one set: the other sets keep their state. */
    method SimOneLoadOrSave(index: nat, inTag: int)
      requires Valid() && index < |cSet|
      modifies this`hitCount, this`missCount, this`eviCount, Parts()
      ensures Valid() && State() == Access(old(State()), shape.e, index, inTag)
      ensures var l := old(cSet[index].Recency());
              && cSet[index].Recency() == Touch(l, shape.e, inTag)
              && hitCount == old(hitCount) + (if inTag in l then 1 else 0)
              && missCount == old(missCount) + (if inTag in l then 0 else 1)
              && eviCount == old(eviCount) + (if inTag !in l && |l| == shape.e then 1 else 0)
      ensures forall i | 0 <= i < |cSet| && i != index :: cSet[i].Recency() == old(cSet[i].Recency())
    {
      hide SetOk, Tags, Touch, Pow2;
      var hit, evicted := cSet[index].LoadOrSave(inTag);
      if hit {
        hitCount := hitCount + 1;
      } else {
        missCount := missCount + 1;
        if evicted {
          eviCount := eviCount + 1;
        }
      }
      forall i | 0 <= i < |cSet| && i != index
        ensures cSet[i].Valid() && cSet[i].Recency() == old(cSet[i].Recency())
      {
        assert cSet[i] != cSet[index] && cSet[i].cLine != cSet[index].cLine && cSet[i].arrLRU != cSet[index].arrLRU;
      }
      assert State().sets == old(State()).sets[index := cSet[index].Recency()];
    }

    /** SimOneInstruction: false stands for the exit on an invalid kind. */
    method SimOneInstruction(r: Record) returns (valid: bool)
      requires Valid() && r.addr >= 0
      modifies this`hitCount, this`missCount, this`eviCount, Parts()
      ensures Valid() && valid == ValidKind(r.kind)
      ensures State() == Instruction(old(State()), shape, r)
    {
      hide SetOk, Tags, Touch, Pow2, SetIndexOf, TagOf, CacheSet.Valid, CacheSet.Recency;
      AddressFields(r.addr, shape.s, shape.b);
      var tag := TagOf(r.addr, shape.s, shape.b);
      var setIndex := SetIndexOf(r.addr, shape.s, shape.b);
      valid := true;
      if r.kind == 'L' {
        SimOneLoadOrSave(setIndex, tag);
      } else if r.kind == 'S' {
        SimOneLoadOrSave(setIndex, tag);
      } else if r.kind == 'M' {
        SimOneLoadOrSave(setIndex, tag);
        SimOneLoadOrSave(setIndex, tag);
      } else if r.kind == 'I' {
      } else {
        valid := false;
      }
    }

    /** DoSim: reads records up to the first invalid one, where the program exits. The
        counters are those of the accesses read so far, counted from the trace alone. */
    method DoSim(trace: seq<Record>) returns (done: nat)
      requires Valid() && State() == Start(shape)
      requires forall i | 0 <= i < |trace| :: trace[i].addr >= 0
      modifies this`hitCount, this`missCount, this`eviCount, Parts()
      ensures Valid() && done <= |trace| && TraceOk(trace[..done])
      ensures done < |trace| ==> !ValidKind(trace[done].kind)
      ensures State() == Simulate(shape, trace[..done])
      ensures var uses := Uses(shape, trace[..done]);
              && hitCount == |HitTimes(uses, shape.e)|
              && missCount == |uses| - |HitTimes(uses, shape.e)|
              && eviCount == |EvictTimes(uses, shape.e)|
    {
      hide SetOk, Tags, Touch, Pow2, SetIndexOf, TagOf, CacheSet.Valid, CacheSet.Recency, Instruction, HitTimes,
           EvictTimes, Uses;
      done := 0;
      while done < |trace|
        invariant 0 <= done <= |trace| && Valid() && TraceOk(trace[..done])
        invariant State() == Simulate(shape, trace[..done])
      {
        ghost var before := State();
        var valid := SimOneInstruction(trace[done]);
        if !valid {
          InvalidChangesNothing(before, shape, trace[done]);
          break;
        }
        assert trace[..done + 1][..done] == trace[..done];
        assert forall i | 0 <= i < done :: trace[..done + 1][i] == trace[..done][i];
        done := done + 1;
      }
      CountersExact(shape, trace[..done]);
    }
  }

  lemma InvalidChangesNothing(m: Sim, c: Shape, r: Record)
    requires ShapeOk(c) && r.addr >= 0 && |m.sets| == Pow2(c.s) && !ValidKind(r.kind)
    ensures Instruction(m, c, r) == m
  {
  }
}
