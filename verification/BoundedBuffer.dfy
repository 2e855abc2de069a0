/** sbuf.c as a transition system: any number of threads, any interleaving of the
    atomic steps of sbuf_insert and sbuf_remove over one circular buffer. */
module BoundedBuffer {
  import opened Counting

  /** Where a thread stands. The increments ++rear and ++front are not atomic: the
      index is read, then stored, then used. */
  datatype Pc =
    | Idle
    | InsSlots(item: int)           // at P(&slots)
    | InsMutex(item: int)           // at P(&mutex)
    | InsRead(item: int)            // in the critical section, about to read rear
    | InsBump(item: int, r: int)    // about to store rear = r + 1
    | InsStore(item: int, r: int)   // about to store buf[(r + 1) % n]
    | InsUnlock                     // at V(&mutex)
    | InsAnnounce                   // at V(&items)
    | RemItems                      // at P(&items)
    | RemMutex                      // at P(&mutex)
    | RemRead                       // about to read front
    | RemBump(f: int)               // about to store front = f + 1
    | RemLoad(f: int)               // about to load buf[(f + 1) % n]
    | RemUnlock(got: int)           // at V(&mutex)
    | RemAnnounce(got: int)         // at V(&slots), then returns got

  /** What an idle thread calls next. */
  datatype Call = Insert(item: int) | Remove

  /** put and got record the values stored and loaded, in order. */
  datatype State = State(
    n: int, buf: seq<int>, front: int, rear: int,
    mutex: int, slots: int, items: int,
    threads: seq<Pc>,
    put: seq<int>, got: seq<int>)

  /** sbuf_init, with every thread idle. */
  ghost predicate Init(s: State) {
    && s.n >= 1 && |s.buf| == s.n
    && s.front == s.rear == 0
    && s.mutex == 1 && s.slots == s.n && s.items == 0
    && (forall t | 0 <= t < |s.threads| :: s.threads[t] == Idle)
    && s.put == s.got == []
  }

  /** P blocks on zero; every other step can always be taken. */
  predicate Enabled(s: State, t: int)
    requires 0 <= t < |s.threads|
  {
    match s.threads[t]
    case InsSlots(_) => s.slots > 0
    case RemItems => s.items > 0
    case InsMutex(_) => s.mutex > 0
    case RemMutex => s.mutex > 0
    case _ => true
  }

  predicate IndexOk(s: State) {
    s.n >= 1 && |s.buf| == s.n
  }

  /** One atomic step of thread t. */
  function Step(s: State, t: int, call: Call): State
    requires 0 <= t < |s.threads| && Enabled(s, t) && IndexOk(s)
  {
    match s.threads[t]
    case Idle => s.(threads := s.threads[t := if call.Insert? then InsSlots(call.item) else RemItems])
    case InsSlots(item) => s.(slots := s.slots - 1, threads := s.threads[t := InsMutex(item)])
    case InsMutex(item) => s.(mutex := s.mutex - 1, threads := s.threads[t := InsRead(item)])
    case InsRead(item) => s.(threads := s.threads[t := InsBump(item, s.rear)])
    case InsBump(item, r) => s.(rear := r + 1, threads := s.threads[t := InsStore(item, r)])
    case InsStore(item, r) =>
      s.(buf := s.buf[(r + 1) % s.n := item], put := s.put + [item], threads := s.threads[t := InsUnlock])
    case InsUnlock => s.(mutex := s.mutex + 1, threads := s.threads[t := InsAnnounce])
    case InsAnnounce => s.(items := s.items + 1, threads := s.threads[t := Idle])
    case RemItems => s.(items := s.items - 1, threads := s.threads[t := RemMutex])
    case RemMutex => s.(mutex := s.mutex - 1, threads := s.threads[t := RemRead])
    case RemRead => s.(threads := s.threads[t := RemBump(s.front)])
    case RemBump(f) => s.(front := f + 1, threads := s.threads[t := RemLoad(f)])
    case RemLoad(f) =>
      s.(got := s.got + [s.buf[(f + 1) % s.n]], threads := s.threads[t := RemUnlock(s.buf[(f + 1) % s.n])])
    case RemUnlock(got) => s.(mutex := s.mutex + 1, threads := s.threads[t := RemAnnounce(got)])
    case RemAnnounce(got) => s.(slots := s.slots + 1, threads := s.threads[t := Idle])
  }

  // ---- the invariant ----

  /** Between P(&mutex) and V(&mutex). */
  predicate Critical(pc: Pc) {
    || pc.InsRead? || pc.InsBump? || pc.InsStore? || pc.InsUnlock?
    || pc.RemRead? || pc.RemBump? || pc.RemLoad? || pc.RemUnlock?
  }

  /** Past its first P and before its last V. */
  predicate InFlight(pc: Pc) {
    Critical(pc) || pc.InsMutex? || pc.InsAnnounce? || pc.RemMutex? || pc.RemAnnounce?
  }

  /** Has moved rear, has not announced the item. */
  predicate Inserted(pc: Pc) {
    pc.InsStore? || pc.InsUnlock? || pc.InsAnnounce?
  }

  /** Has taken an item's permit, has not moved front. */
  predicate Claimed(pc: Pc) {
    pc.RemMutex? || pc.RemRead? || pc.RemBump?
  }

  predicate Storing(pc: Pc) { pc.InsStore? }

  predicate Loading(pc: Pc) { pc.RemLoad? }

  /** Semaphore accounting. */
  ghost predicate Permits(s: State) {
    && s.mutex >= 0 && s.slots >= 0 && s.items >= 0
    && s.mutex + Count(s.threads, Critical) == 1
    && s.slots + s.items + Count(s.threads, InFlight) == s.n
  }

  /** Index accounting. */
  ghost predicate Indices(s: State) {
    && s.rear - s.front == s.items + Count(s.threads, Inserted) + Count(s.threads, Claimed)
    && |s.put| == s.rear - Count(s.threads, Storing)
    && |s.got| == s.front - Count(s.threads, Loading)
  }

  /** What a thread inside the critical section has read is still true. */
  predicate ReadOk(s: State, pc: Pc) {
    && (pc.InsBump? ==> pc.r == s.rear)
    && (pc.InsStore? ==> pc.r + 1 == s.rear)
    && (pc.RemBump? ==> pc.f == s.front)
    && (pc.RemLoad? ==> pc.f + 1 == s.front)
  }

  ghost predicate Reads(s: State) {
    forall t | 0 <= t < |s.threads| :: ReadOk(s, s.threads[t])
  }

  /** Where value number k of the run is kept. */
  function Slot(n: int, k: int): int
    requires n >= 1
  {
    (k + 1) % n
  }

  /** Values leave in the order they came, and every value still in the buffer is intact. */
  ghost predicate Fifo(s: State)
    requires IndexOk(s)
  {
    && |s.got| <= |s.put|
    && (forall k | 0 <= k < |s.got| :: s.got[k] == s.put[k])
    && (forall k | |s.got| <= k < |s.put| :: s.buf[Slot(s.n, k)] == s.put[k])
  }

  ghost predicate Inv(s: State) {
    IndexOk(s) && Permits(s) && Indices(s) && Reads(s) && Fifo(s)
  }

  lemma InitInv(s: State)
    requires Init(s)
    ensures Inv(s)
  {
    CountNone(s.threads, Critical);
    CountNone(s.threads, InFlight);
    CountNone(s.threads, Inserted);
    CountNone(s.threads, Claimed);
    CountNone(s.threads, Storing);
    CountNone(s.threads, Loading);
  }

  /** All six counts move with the one thread that steps. */
  lemma CountsMove(threads: seq<Pc>, t: int, pc: Pc)
    requires 0 <= t < |threads|
    ensures var after := threads[t := pc]; var was := threads[t];
      && Count(after, Critical) == Count(threads, Critical) + Bit(Critical(pc)) - Bit(Critical(was))
      && Count(after, InFlight) == Count(threads, InFlight) + Bit(InFlight(pc)) - Bit(InFlight(was))
      && Count(after, Inserted) == Count(threads, Inserted) + Bit(Inserted(pc)) - Bit(Inserted(was))
      && Count(after, Claimed) == Count(threads, Claimed) + Bit(Claimed(pc)) - Bit(Claimed(was))
      && Count(after, Storing) == Count(threads, Storing) + Bit(Storing(pc)) - Bit(Storing(was))
      && Count(after, Loading) == Count(threads, Loading) + Bit(Loading(pc)) - Bit(Loading(was))
  {
    hide Critical, InFlight, Inserted, Claimed, Storing, Loading;
    CountUpdate(threads, t, pc, Critical);
    CountUpdate(threads, t, pc, InFlight);
    CountUpdate(threads, t, pc, Inserted);
    CountUpdate(threads, t, pc, Claimed);
    CountUpdate(threads, t, pc, Storing);
    CountUpdate(threads, t, pc, Loading);
  }

  /** The mutex excludes: at most one thread is in the critical section. */
  lemma MutualExclusion(s: State, t: int, u: int)
    requires Permits(s)
    requires 0 <= t < |s.threads| && 0 <= u < |s.threads| && t != u
    ensures !(Critical(s.threads[t]) && Critical(s.threads[u]))
  {
    if Critical(s.threads[t]) && Critical(s.threads[u]) {
      CountTwo(s.threads, if t < u then t else u, if t < u then u else t, Critical);
    }
  }

  lemma PermitsStep(s: State, t: int, call: Call)
    requires Permits(s) && IndexOk(s)
    requires 0 <= t < |s.threads| && Enabled(s, t)
    ensures Permits(Step(s, t, call))
  {
    hide Count;
    CountsMove(s.threads, t, Step(s, t, call).threads[t]);
  }

  lemma IndicesStep(s: State, t: int, call: Call)
    requires Permits(s) && Indices(s) && Reads(s) && IndexOk(s)
    requires 0 <= t < |s.threads| && Enabled(s, t)
    ensures Indices(Step(s, t, call))
  {
    assert ReadOk(s, s.threads[t]);
    hide Count, Permits, Reads;
    CountsMove(s.threads, t, Step(s, t, call).threads[t]);
  }

  lemma ReadsStep(s: State, t: int, call: Call)
    requires Permits(s) && Reads(s) && IndexOk(s)
    requires 0 <= t < |s.threads| && Enabled(s, t)
    ensures Reads(Step(s, t, call))
  {
    var after := Step(s, t, call);
    assert ReadOk(s, s.threads[t]);
    forall u | 0 <= u < |after.threads| ensures ReadOk(after, after.threads[u]) {
      if u != t {
        assert ReadOk(s, s.threads[u]);
        MutualExclusion(s, t, u);
        hide Permits, Reads;
      }
    }
  }

  /** No thread in the critical section other than t: nothing is half stored or loaded. */
  lemma AloneInside(s: State, t: int)
    requires Permits(s) && Indices(s)
    requires 0 <= t < |s.threads| && Critical(s.threads[t])
    ensures Count(s.threads, Storing) == if Storing(s.threads[t]) then 1 else 0
    ensures Count(s.threads, Loading) == if Loading(s.threads[t]) then 1 else 0
  {
    forall u | 0 <= u < |s.threads| && u != t ensures !Critical(s.threads[u]) {
      MutualExclusion(s, t, u);
    }
    hide Permits, Indices;
    CountAtMostAt(s.threads, t, Storing);
    CountAtMostAt(s.threads, t, Loading);
  }

  /** The store goes to a slot that holds no live value. */
  lemma StoreMissesLive(s: State, t: int, k: int)
    requires IndexOk(s) && Permits(s) && Indices(s) && Reads(s)
    requires 0 <= t < |s.threads| && s.threads[t].InsStore?
    requires |s.got| <= k < |s.put|
    ensures s.threads[t].r + 1 == |s.put| + 1
    ensures Slot(s.n, k) != (s.threads[t].r + 1) % s.n
  {
    AloneInside(s, t);
    assert ReadOk(s, s.threads[t]);
    RoomAndItems(s);
    DifferentSlots(k + 1, s.rear, s.n);
  }

  lemma {:induction false} DifferentSlots(a: int, b: int, n: int)
    requires n >= 1 && a < b < a + n
    ensures a % n != b % n
  {
    if a % n == b % n {
      var qa, qb := a / n, b / n;
      assert a == n * qa + a % n && b == n * qb + b % n;
      assert b - a == n * (qb - qa) by { Distribute(n, qb, qa); }
      if qb - qa >= 1 { AtLeast(n, qb - qa); } else { AtMost(n, qb - qa); }
    }
  }

  lemma Distribute(n: int, x: int, y: int)
    ensures n * (x - y) == n * x - n * y
  {
  }

  lemma AtLeast(n: int, x: int)
    requires n >= 1 && x >= 1
    ensures n * x >= n
  {
  }

  lemma AtMost(n: int, x: int)
    requires n >= 1 && x <= 0
    ensures n * x <= 0
  {
  }

  /** The indices never differ by more than the buffer holds. */
  lemma RoomAndItems(s: State)
    requires Permits(s) && Indices(s)
    ensures 0 <= s.rear - s.front <= s.n
  {
    PhaseCounts(s.threads);
  }

  lemma {:induction false} PhaseCounts(threads: seq<Pc>)
    ensures Count(threads, Inserted) + Count(threads, Claimed) <= Count(threads, InFlight)
  {
    if threads != [] {
      PhaseCounts(threads[..|threads| - 1]);
    }
  }

  lemma FifoStep(s: State, t: int, call: Call)
    requires Inv(s)
    requires 0 <= t < |s.threads| && Enabled(s, t)
    ensures IndexOk(Step(s, t, call)) && Fifo(Step(s, t, call))
  {
    match s.threads[t]
    case InsStore(item, r) =>
      FifoStore(s, t, call);
    case RemLoad(f) =>
      AloneInside(s, t);
      assert ReadOk(s, s.threads[t]);
      RoomAndItems(s);
      FifoLoad(s, t, call);
    case _ =>
  }

  lemma FifoStore(s: State, t: int, call: Call)
    requires Inv(s)
    requires 0 <= t < |s.threads| && s.threads[t].InsStore?
    ensures IndexOk(Step(s, t, call)) && Fifo(Step(s, t, call))
  {
    var after := Step(s, t, call);
    var r := s.threads[t].r;
    AloneInside(s, t);
    assert ReadOk(s, s.threads[t]) && |s.put| == r;
    forall k | |s.got| <= k < |s.put| ensures Slot(s.n, k) != (r + 1) % s.n {
      StoreMissesLive(s, t, k);
    }
    assert 0 <= (r + 1) % s.n < s.n;
    hide Permits, Indices, Reads;
  }

  lemma FifoLoad(s: State, t: int, call: Call)
    requires IndexOk(s) && Fifo(s)
    requires 0 <= t < |s.threads| && s.threads[t].RemLoad?
    requires s.threads[t].f == |s.got| < |s.put|
    ensures Fifo(Step(s, t, call))
  {
  }

  lemma StepInv(s: State, t: int, call: Call)
    requires Inv(s)
    requires 0 <= t < |s.threads| && Enabled(s, t)
    ensures Inv(Step(s, t, call))
  {
    hide Permits, Indices, Reads, Fifo, Step;
    PermitsStep(s, t, call);
    IndicesStep(s, t, call);
    ReadsStep(s, t, call);
    FifoStep(s, t, call);
  }

  // ---- all runs ----

  /** Thread t takes a step, having chosen call if it was idle. */
  datatype Choice = Choice(t: int, call: Call)

  predicate CanStep(s: State, c: Choice) {
    IndexOk(s) && 0 <= c.t < |s.threads| && Enabled(s, c.t)
  }

  /** A run from s under the scheduler's choices. */
  ghost predicate Schedule(s: State, choices: seq<Choice>)
    decreases |choices|
  {
    choices == [] || (CanStep(s, choices[0]) && Schedule(Step(s, choices[0].t, choices[0].call), choices[1..]))
  }

  ghost function Run(s: State, choices: seq<Choice>): State
    requires Schedule(s, choices)
    decreases |choices|
  {
    if choices == [] then s else Run(Step(s, choices[0].t, choices[0].call), choices[1..])
  }

  lemma {:induction false} RunInv(s: State, choices: seq<Choice>)
    requires Inv(s) && Schedule(s, choices)
    ensures Inv(Run(s, choices))
    decreases |choices|
  {
    hide Inv, Step;
    if choices != [] {
      StepInv(s, choices[0].t, choices[0].call);
      RunInv(Step(s, choices[0].t, choices[0].call), choices[1..]);
    }
  }

  // ---- what is asked for and what is returned ----

  /** The item of an insert that has not stored it yet. */
  function ToInsert(pc: Pc): multiset<int> {
    match pc
    case InsSlots(item) => multiset{item}
    case InsMutex(item) => multiset{item}
    case InsRead(item) => multiset{item}
    case InsBump(item, _) => multiset{item}
    case InsStore(item, _) => multiset{item}
    case _ => multiset{}
  }

  /** The value of a remove that has loaded it and will return it. */
  function InHand(pc: Pc): multiset<int> {
    match pc
    case RemUnlock(v) => multiset{v}
    case RemAnnounce(v) => multiset{v}
    case _ => multiset{}
  }

  predicate Removing(pc: Pc) {
    pc.RemItems? || pc.RemMutex? || pc.RemRead? || pc.RemBump? || pc.RemLoad? || pc.RemUnlock? || pc.RemAnnounce?
  }

  /** The items handed to the calls of sbuf_insert that one step, or a run, begins. */
  function AskedBy(s: State, c: Choice): multiset<int>
    requires CanStep(s, c)
  {
    if s.threads[c.t] == Idle && c.call.Insert? then multiset{c.call.item} else multiset{}
  }

  ghost function Asked(s: State, choices: seq<Choice>): multiset<int>
    requires Schedule(s, choices)
    decreases |choices|
  {
    if choices == [] then multiset{}
    else AskedBy(s, choices[0]) + Asked(Step(s, choices[0].t, choices[0].call), choices[1..])
  }

  /** The calls of sbuf_remove that a run begins. */
  ghost function Removals(s: State, choices: seq<Choice>): int
    requires Schedule(s, choices)
    decreases |choices|
  {
    if choices == [] then 0
    else
      Bit(s.threads[choices[0].t] == Idle && choices[0].call == Remove)
      + Removals(Step(s, choices[0].t, choices[0].call), choices[1..])
  }

  /** The values that calls of sbuf_remove return: the last step hands over what the
      thread then holds. */
  function ReturnedBy(s: State, c: Choice): multiset<int>
    requires CanStep(s, c)
  {
    if s.threads[c.t].RemAnnounce? then multiset{s.threads[c.t].got} else multiset{}
  }

  ghost function Returned(s: State, choices: seq<Choice>): multiset<int>
    requires Schedule(s, choices)
    decreases |choices|
  {
    if choices == [] then multiset{}
    else ReturnedBy(s, choices[0]) + Returned(Step(s, choices[0].t, choices[0].call), choices[1..])
  }

  /** The accounts of the value v over one step: asked for and stored, loaded and
      returned. */
  lemma StepAccounts(s: State, c: Choice, v: int)
    requires CanStep(s, c)
    ensures var after := Step(s, c.t, c.call);
      && multiset(after.put)[v] + Gather(after.threads, ToInsert)[v]
         == multiset(s.put)[v] + Gather(s.threads, ToInsert)[v] + AskedBy(s, c)[v]
      && multiset(after.got)[v] + Gather(s.threads, InHand)[v]
         == multiset(s.got)[v] + Gather(after.threads, InHand)[v] + ReturnedBy(s, c)[v]
  {
    var after := Step(s, c.t, c.call);
    var pc := after.threads[c.t];
    assert after.threads == s.threads[c.t := pc];
    hide Gather, Step, ToInsert, InHand, AskedBy, ReturnedBy, Enabled;
    StepPuts(s, c, v);
    StepGets(s, c, v);
    GatherUpdate(s.threads, c.t, pc, ToInsert, v);
    GatherUpdate(s.threads, c.t, pc, InHand, v);
  }

  lemma StepPuts(s: State, c: Choice, v: int)
    requires CanStep(s, c)
    ensures var after := Step(s, c.t, c.call);
      multiset(after.put)[v] + ToInsert(after.threads[c.t])[v]
      == multiset(s.put)[v] + ToInsert(s.threads[c.t])[v] + AskedBy(s, c)[v]
  {
    PutsAndHolds(s, c);
    if s.threads[c.t].InsStore? {
      OneMore(s.put, s.threads[c.t].item, v);
    }
    hide Step, Enabled;
  }

  lemma PutsAndHolds(s: State, c: Choice)
    requires CanStep(s, c)
    ensures var pc, after := s.threads[c.t], Step(s, c.t, c.call);
      if pc.InsStore? then after.put == s.put + [pc.item] && ToInsert(after.threads[c.t]) == multiset{}
      else if pc.Idle? then after.put == s.put && ToInsert(after.threads[c.t]) == AskedBy(s, c)
      else after.put == s.put && ToInsert(after.threads[c.t]) == ToInsert(pc)
  {
  }

  lemma OneMore(l: seq<int>, x: int, v: int)
    ensures multiset(l + [x])[v] == multiset(l)[v] + multiset{x}[v]
  {
    assert multiset(l + [x]) == multiset(l) + multiset{x};
  }

  lemma StepGets(s: State, c: Choice, v: int)
    requires CanStep(s, c)
    ensures var after := Step(s, c.t, c.call);
      multiset(after.got)[v] + InHand(s.threads[c.t])[v]
      == multiset(s.got)[v] + InHand(after.threads[c.t])[v] + ReturnedBy(s, c)[v]
  {
    GetsAndHolds(s, c);
    if s.threads[c.t].RemLoad? {
      OneMore(s.got, Step(s, c.t, c.call).threads[c.t].got, v);
    }
    hide Step, Enabled;
  }

  lemma GetsAndHolds(s: State, c: Choice)
    requires CanStep(s, c)
    ensures var pc, after := s.threads[c.t], Step(s, c.t, c.call);
      if pc.RemLoad? then after.threads[c.t].RemUnlock? && after.got == s.got + [after.threads[c.t].got]
      else after.got == s.got && InHand(pc) == InHand(after.threads[c.t]) + ReturnedBy(s, c)
  {
  }

  lemma StepRemoves(s: State, c: Choice)
    requires CanStep(s, c)
    ensures Count(Step(s, c.t, c.call).threads, Removing) + |ReturnedBy(s, c)|
         == Count(s.threads, Removing) + Bit(s.threads[c.t] == Idle && c.call == Remove)
  {
    var pc := Step(s, c.t, c.call).threads[c.t];
    assert Step(s, c.t, c.call).threads == s.threads[c.t := pc];
    CountUpdate(s.threads, c.t, pc, Removing);
    hide Count;
  }

  lemma {:induction false} RunAccounts(s: State, choices: seq<Choice>, v: int)
    requires Schedule(s, choices)
    ensures var end := Run(s, choices);
      && multiset(end.put)[v] + Gather(end.threads, ToInsert)[v]
         == multiset(s.put)[v] + Gather(s.threads, ToInsert)[v] + Asked(s, choices)[v]
      && multiset(end.got)[v] + Gather(s.threads, InHand)[v]
         == multiset(s.got)[v] + Gather(end.threads, InHand)[v] + Returned(s, choices)[v]
    decreases |choices|
  {
    hide Step, Gather, AskedBy, ReturnedBy;
    if choices != [] {
      StepAccounts(s, choices[0], v);
      RunAccounts(Step(s, choices[0].t, choices[0].call), choices[1..], v);
    }
  }

  lemma {:induction false} RunRemoves(s: State, choices: seq<Choice>)
    requires Schedule(s, choices)
    ensures Count(Run(s, choices).threads, Removing) + |Returned(s, choices)|
         == Count(s.threads, Removing) + Removals(s, choices)
    decreases |choices|
  {
    hide Step, Count, ReturnedBy;
    if choices != [] {
      StepRemoves(s, choices[0]);
      RunRemoves(Step(s, choices[0].t, choices[0].call), choices[1..]);
    }
  }

  /** Nothing is lost, made up or changed on the way: the items handed to inserts are
      those stored and those on their way; the values loaded are those returned to
      callers and those in hand; and every remove begun is still under way or has
      returned one of them. */
  lemma AccountedFor(s0: State, choices: seq<Choice>)
    requires Init(s0) && Schedule(s0, choices)
    ensures var s := Run(s0, choices);
      && Asked(s0, choices) == multiset(s.put) + Gather(s.threads, ToInsert)
      && multiset(s.got) == Returned(s0, choices) + Gather(s.threads, InHand)
      && Removals(s0, choices) == |Returned(s0, choices)| + Count(s.threads, Removing)
  {
    hide Step, Run, Asked, Returned, Removals;
    NothingHeld(s0);
    RunRemoves(s0, choices);
    var s := Run(s0, choices);
    forall v: int
      ensures Asked(s0, choices)[v] == multiset(s.put)[v] + Gather(s.threads, ToInsert)[v]
      ensures multiset(s.got)[v] == Returned(s0, choices)[v] + Gather(s.threads, InHand)[v]
    {
      RunAccounts(s0, choices, v);
    }
    hide Gather;
  }

  lemma NothingHeld(s0: State)
    requires Init(s0)
    ensures Gather(s0.threads, ToInsert) == Gather(s0.threads, InHand) == multiset{}
    ensures Count(s0.threads, Removing) == 0
  {
    GatherNone(s0.threads, ToInsert);
    GatherNone(s0.threads, InHand);
    CountNone(s0.threads, Removing);
  }

  /** Until it leaves the critical section, a remove holds the last value loaded. */
  ghost predicate LastLoaded(s: State) {
    forall t | 0 <= t < |s.threads| && s.threads[t].RemUnlock? ::
      |s.got| > 0 && s.threads[t].got == s.got[|s.got| - 1]
  }

  lemma LastLoadedStep(s: State, t: int, call: Call)
    requires Permits(s) && LastLoaded(s) && IndexOk(s)
    requires 0 <= t < |s.threads| && Enabled(s, t)
    ensures LastLoaded(Step(s, t, call))
  {
    var after := Step(s, t, call);
    forall u | 0 <= u < |after.threads| && after.threads[u].RemUnlock?
      ensures |after.got| > 0 && after.threads[u].got == after.got[|after.got| - 1]
    {
      if u != t {
        MutualExclusion(s, t, u);
      }
    }
  }

  lemma {:induction false} LastLoadedInRuns(s: State, choices: seq<Choice>)
    requires Inv(s) && LastLoaded(s) && Schedule(s, choices)
    ensures LastLoaded(Run(s, choices))
    decreases |choices|
  {
    hide LastLoaded, Step;
    if choices != [] {
      StepInv(s, choices[0].t, choices[0].call);
      LastLoadedStep(s, choices[0].t, choices[0].call);
      LastLoadedInRuns(Step(s, choices[0].t, choices[0].call), choices[1..]);
    }
  }

  /** Safety in every state of every run of any number of threads: one thread at a
      time inside, occupancy within the buffer, permits conserved; the values loaded so
      far are the first values stored, in order; and the values stored are those asked
      for, the values returned those loaded, but for what threads still hold. */
  lemma SafeInEveryRun(s0: State, choices: seq<Choice>)
    requires Init(s0) && Schedule(s0, choices)
    ensures var s := Run(s0, choices);
      && Asked(s0, choices) == multiset(s.put) + Gather(s.threads, ToInsert)
      && multiset(s.got) == Returned(s0, choices) + Gather(s.threads, InHand)
      && Removals(s0, choices) == |Returned(s0, choices)| + Count(s.threads, Removing)
      && LastLoaded(s)
      && (forall t, u | 0 <= t < u < |s.threads| :: !(Critical(s.threads[t]) && Critical(s.threads[u])))
      && 0 <= s.rear - s.front <= s.n
      && s.slots + s.items + Count(s.threads, InFlight) == s.n
      && s.mutex + Count(s.threads, Critical) == 1
      && s.got <= s.put && s.n >= 1
      && (forall k | |s.got| <= k < |s.put| :: 0 <= Slot(s.n, k) < |s.buf| && s.buf[Slot(s.n, k)] == s.put[k])
  {
    hide Step;
    InitInv(s0);
    RunInv(s0, choices);
    var s := Run(s0, choices);
    RoomAndItems(s);
    AccountedFor(s0, choices);
    LastLoadedInRuns(s0, choices);
    hide Gather, Asked, Returned, Removals, LastLoaded;
    forall t, u | 0 <= t < u < |s.threads| ensures !(Critical(s.threads[t]) && Critical(s.threads[u])) {
      MutualExclusion(s, t, u);
    }
  }

  // ---- progress ----

  /** Waiting at the first P of its operation. */
  predicate Blocked(s: State, t: int)
    requires 0 <= t < |s.threads|
  {
    (s.threads[t].InsSlots? && s.slots == 0) || (s.threads[t].RemItems? && s.items == 0)
  }

  /** As long as some operation is past its first P, some such operation can step. */
  lemma InFlightProgress(s: State, t: int) returns (u: int)
    requires Permits(s)
    requires 0 <= t < |s.threads| && InFlight(s.threads[t])
    ensures 0 <= u < |s.threads| && InFlight(s.threads[u]) && Enabled(s, u)
  {
    if s.mutex == 0 {
      u := CountFind(s.threads, Critical);
    } else {
      u := t;
    }
  }

  /** When no thread that is in an operation can step, all of them wait at their
      first P, and all for the same reason: either every one is an inserter and
      the buffer is full, or every one is a remover and the buffer is empty. */
  lemma StuckOnlyWhenFullOrEmpty(s: State)
    requires Inv(s)
    requires forall t | 0 <= t < |s.threads| && s.threads[t] != Idle :: !Enabled(s, t)
    ensures forall t | 0 <= t < |s.threads| && s.threads[t] != Idle :: Blocked(s, t)
    ensures || (forall t | 0 <= t < |s.threads| && s.threads[t] != Idle ::
                  s.threads[t].InsSlots? && s.rear - s.front == s.n)
            || (forall t | 0 <= t < |s.threads| && s.threads[t] != Idle ::
                  s.threads[t].RemItems? && s.rear == s.front)
  {
    forall t | 0 <= t < |s.threads| ensures !InFlight(s.threads[t]) {
      if InFlight(s.threads[t]) {
        var u := InFlightProgress(s, t);
      }
    }
    CountNone(s.threads, InFlight);
    PhaseCounts(s.threads);
    assert s.slots + s.items == s.n && s.rear - s.front == s.items;
    hide Permits, Indices, Reads, Fifo;
  }

  /** Steps an operation past its first P still has to take. */
  function Remaining(pc: Pc): (k: nat)
    ensures (k > 0 <==> InFlight(pc))
  {
    match pc
    case InsMutex(_) => 6
    case InsRead(_) => 5
    case InsBump(_, _) => 4
    case InsStore(_, _) => 3
    case InsUnlock => 2
    case InsAnnounce => 1
    case RemMutex => 6
    case RemRead => 5
    case RemBump(_) => 4
    case RemLoad(_) => 3
    case RemUnlock(_) => 2
    case RemAnnounce(_) => 1
    case _ => 0
  }

  function Work(threads: seq<Pc>): nat {
    Total(threads, Remaining)
  }

  /** Every step of an operation in flight leaves less to do, so however these
      operations interleave, after at most Work steps none is left. */
  lemma InFlightStepWorks(s: State, t: int, call: Call)
    requires IndexOk(s) && 0 <= t < |s.threads| && Enabled(s, t) && InFlight(s.threads[t])
    ensures Work(Step(s, t, call).threads) == Work(s.threads) - 1
  {
    TotalUpdate(s.threads, t, Step(s, t, call).threads[t], Remaining);
  }

  predicate NoneInFlight(s: State) {
    forall t | 0 <= t < |s.threads| :: !InFlight(s.threads[t])
  }

  lemma RunFirst(s: State, c: Choice, rest: seq<Choice>)
    requires CanStep(s, c) && Schedule(Step(s, c.t, c.call), rest)
    ensures Schedule(s, [c] + rest) && Run(s, [c] + rest) == Run(Step(s, c.t, c.call), rest)
  {
    hide Step;
    var choices := [c] + rest;
    assert choices[0] == c && choices[1..] == rest;
  }

  /** From any reachable state the operations past their first P can all be run to
      completion without any other thread taking a step. */
  lemma {:induction false} Drain(s: State) returns (choices: seq<Choice>)
    requires Inv(s)
    ensures Schedule(s, choices) && |choices| == Work(s.threads)
    ensures NoneInFlight(Run(s, choices)) && |Run(s, choices).threads| == |s.threads|
    decreases Work(s.threads)
  {
    if NoneInFlight(s) {
      choices := [];
      TotalNone(s.threads, Remaining);
      assert Run(s, choices) == s;
    } else {
      var t :| 0 <= t < |s.threads| && InFlight(s.threads[t]);
      var u := InFlightProgress(s, t);
      StepInv(s, u, Remove);
      InFlightStepWorks(s, u, Remove);
      var next := Step(s, u, Remove);
      assert |next.threads| == |s.threads|;
      hide Inv, Step, InFlight, Enabled, Run, Schedule, NoneInFlight;
      var rest := Drain(next);
      RunFirst(s, Choice(u, Remove), rest);
      choices := [Choice(u, Remove)] + rest;
    }
  }
}
