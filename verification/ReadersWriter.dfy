/** The lock of cache.c as a transition system: find_hit takes a shared scan with
    r_mutex and read_cnt, get_hit and write_cache an exclusive section with w_mutex.
    Any number of threads, any interleaving of the atomic steps. */
module ReadersWriter {
  import opened Counting

  datatype Pc =
    | Idle
    // find_hit
    | EnterLock             // at P(&r_mutex)
    | EnterRead             // about to read read_cnt
    | EnterBump(c: int)     // about to store read_cnt = c + 1
    | EnterTest             // at if (read_cnt == 1)
    | EnterGate             // at P(&w_mutex)
    | EnterUnlock           // at V(&r_mutex)
    | Scan                  // walking the list
    | LeaveLock             // at P(&r_mutex)
    | LeaveRead             // about to read read_cnt
    | LeaveBump(c: int)     // about to store read_cnt = c - 1
    | LeaveTest             // at if (read_cnt == 0)
    | LeaveGate             // at V(&w_mutex)
    | LeaveUnlock           // at V(&r_mutex)
    // get_hit, write_cache
    | WriteLock             // at P(&w_mutex)
    | Write                 // in the section, V(&w_mutex) next

  datatype Call = FindHit | Update

  datatype State = State(readCnt: int, rMutex: int, wMutex: int, threads: seq<Pc>)

  /** cache_init, with every thread idle. */
  ghost predicate Init(s: State) {
    && s.readCnt == 0 && s.rMutex == 1 && s.wMutex == 1
    && (forall t | 0 <= t < |s.threads| :: s.threads[t] == Idle)
  }

  predicate Enabled(s: State, t: int)
    requires 0 <= t < |s.threads|
  {
    match s.threads[t]
    case EnterLock => s.rMutex > 0
    case LeaveLock => s.rMutex > 0
    case EnterGate => s.wMutex > 0
    case WriteLock => s.wMutex > 0
    case _ => true
  }

  function Step(s: State, t: int, call: Call): State
    requires 0 <= t < |s.threads| && Enabled(s, t)
  {
    match s.threads[t]
    case Idle => s.(threads := s.threads[t := if call.FindHit? then EnterLock else WriteLock])
    case EnterLock => s.(rMutex := s.rMutex - 1, threads := s.threads[t := EnterRead])
    case EnterRead => s.(threads := s.threads[t := EnterBump(s.readCnt)])
    case EnterBump(c) => s.(readCnt := c + 1, threads := s.threads[t := EnterTest])
    case EnterTest => s.(threads := s.threads[t := if s.readCnt == 1 then EnterGate else EnterUnlock])
    case EnterGate => s.(wMutex := s.wMutex - 1, threads := s.threads[t := EnterUnlock])
    case EnterUnlock => s.(rMutex := s.rMutex + 1, threads := s.threads[t := Scan])
    case Scan => s.(threads := s.threads[t := LeaveLock])
    case LeaveLock => s.(rMutex := s.rMutex - 1, threads := s.threads[t := LeaveRead])
    case LeaveRead => s.(threads := s.threads[t := LeaveBump(s.readCnt)])
    case LeaveBump(c) => s.(readCnt := c - 1, threads := s.threads[t := LeaveTest])
    case LeaveTest => s.(threads := s.threads[t := if s.readCnt == 0 then LeaveGate else LeaveUnlock])
    case LeaveGate => s.(wMutex := s.wMutex + 1, threads := s.threads[t := LeaveUnlock])
    case LeaveUnlock => s.(rMutex := s.rMutex + 1, threads := s.threads[t := Idle])
    case WriteLock => s.(wMutex := s.wMutex - 1, threads := s.threads[t := Write])
    case Write => s.(wMutex := s.wMutex + 1, threads := s.threads[t := Idle])
  }

  // ---- the invariant ----

  /** Between P(&r_mutex) and V(&r_mutex). */
  predicate HoldsCounter(pc: Pc) {
    match pc
    case Idle => false
    case EnterLock => false
    case Scan => false
    case LeaveLock => false
    case WriteLock => false
    case Write => false
    case _ => true
  }

  /** Between the increment and the decrement of read_cnt. */
  predicate Counted(pc: Pc) {
    match pc
    case EnterTest => true
    case EnterGate => true
    case EnterUnlock => true
    case Scan => true
    case LeaveLock => true
    case LeaveRead => true
    case LeaveBump(_) => true
    case _ => false
  }

  /** Reading under the writer's lock, which the readers hold together. */
  predicate PastGate(pc: Pc) {
    match pc
    case EnterUnlock => true
    case Scan => true
    case LeaveLock => true
    case LeaveRead => true
    case LeaveBump(_) => true
    case LeaveTest => true
    case LeaveGate => true
    case _ => false
  }

  predicate Writing(pc: Pc) { pc.Write? }

  predicate ReadOk(s: State, pc: Pc) {
    && (pc.EnterBump? ==> pc.c == s.readCnt)
    && (pc.LeaveBump? ==> pc.c == s.readCnt)
    && (pc.EnterGate? ==> s.readCnt == 1)
    && (pc.LeaveGate? ==> s.readCnt == 0)
  }

  ghost predicate Counter(s: State) {
    s.rMutex >= 0 && s.rMutex + Count(s.threads, HoldsCounter) == 1
  }

  ghost predicate Readers(s: State) {
    s.readCnt == Count(s.threads, Counted)
  }

  ghost predicate Gate(s: State) {
    && s.wMutex >= 0
    && s.wMutex + Count(s.threads, Writing) + (if Count(s.threads, PastGate) > 0 then 1 else 0) == 1
  }

  ghost predicate Reads(s: State) {
    forall t | 0 <= t < |s.threads| :: ReadOk(s, s.threads[t])
  }

  ghost predicate Inv(s: State) {
    Counter(s) && Readers(s) && Gate(s) && Reads(s)
  }

  lemma InitInv(s: State)
    requires Init(s)
    ensures Inv(s)
  {
    CountNone(s.threads, HoldsCounter);
    CountNone(s.threads, Counted);
    CountNone(s.threads, PastGate);
    CountNone(s.threads, Writing);
  }

  lemma CountsMove(threads: seq<Pc>, t: int, pc: Pc)
    requires 0 <= t < |threads|
    ensures var after := threads[t := pc]; var was := threads[t];
      && Count(after, HoldsCounter) == Count(threads, HoldsCounter) + Bit(HoldsCounter(pc)) - Bit(HoldsCounter(was))
      && Count(after, Counted) == Count(threads, Counted) + Bit(Counted(pc)) - Bit(Counted(was))
      && Count(after, PastGate) == Count(threads, PastGate) + Bit(PastGate(pc)) - Bit(PastGate(was))
      && Count(after, Writing) == Count(threads, Writing) + Bit(Writing(pc)) - Bit(Writing(was))
  {
    hide HoldsCounter, Counted, PastGate, Writing;
    CountUpdate(threads, t, pc, HoldsCounter);
    CountUpdate(threads, t, pc, Counted);
    CountUpdate(threads, t, pc, PastGate);
    CountUpdate(threads, t, pc, Writing);
  }

  lemma OneCounterHolder(s: State, t: int, u: int)
    requires Counter(s)
    requires 0 <= t < |s.threads| && 0 <= u < |s.threads| && t != u
    ensures !(HoldsCounter(s.threads[t]) && HoldsCounter(s.threads[u]))
  {
    if HoldsCounter(s.threads[t]) && HoldsCounter(s.threads[u]) {
      CountTwo(s.threads, if t < u then t else u, if t < u then u else t, HoldsCounter);
    }
  }

  lemma CounterStep(s: State, t: int, call: Call)
    requires Counter(s)
    requires 0 <= t < |s.threads| && Enabled(s, t)
    ensures Counter(Step(s, t, call))
  {
    CountUpdate(s.threads, t, Step(s, t, call).threads[t], HoldsCounter);
  }

  lemma ReadersStep(s: State, t: int, call: Call)
    requires Readers(s) && Reads(s)
    requires 0 <= t < |s.threads| && Enabled(s, t)
    ensures Readers(Step(s, t, call))
  {
    assert ReadOk(s, s.threads[t]);
    CountUpdate(s.threads, t, Step(s, t, call).threads[t], Counted);
  }

  lemma ReadsStep(s: State, t: int, call: Call)
    requires Counter(s) && Reads(s)
    requires 0 <= t < |s.threads| && Enabled(s, t)
    ensures Reads(Step(s, t, call))
  {
    var after := Step(s, t, call);
    forall u | 0 <= u < |after.threads| ensures ReadOk(after, after.threads[u]) {
      if u != t {
        assert ReadOk(s, s.threads[u]);
        OneCounterHolder(s, t, u);
        hide Counter, Reads;
      }
    }
  }

  /** While t holds the counter, any other counted thread is already past the gate. */
  lemma OtherReaderInside(s: State, t: int) returns (u: int)
    requires Counter(s)
    requires 0 <= t < |s.threads| && HoldsCounter(s.threads[t])
    requires Count(s.threads, Counted) > if Counted(s.threads[t]) then 1 else 0
    ensures 0 <= u < |s.threads| && u != t && (s.threads[u] == Scan || s.threads[u] == LeaveLock)
  {
    if forall u | 0 <= u < |s.threads| && u != t :: !Counted(s.threads[u]) {
      CountAtMostAt(s.threads, t, Counted);
    }
    u :| 0 <= u < |s.threads| && u != t && Counted(s.threads[u]);
    OneCounterHolder(s, t, u);
  }

  /** With no counted reader, t alone can still be past the gate. */
  lemma LastReader(s: State, t: int)
    requires Counter(s) && Count(s.threads, Counted) == 0
    requires 0 <= t < |s.threads| && HoldsCounter(s.threads[t])
    ensures Count(s.threads, PastGate) == if PastGate(s.threads[t]) then 1 else 0
  {
    forall u | 0 <= u < |s.threads| && u != t ensures !PastGate(s.threads[u]) {
      OneCounterHolder(s, t, u);
      if Counted(s.threads[u]) { CountOne(s.threads, u, Counted); }
    }
    CountAtMostAt(s.threads, t, PastGate);
  }

  lemma GateStep(s: State, t: int, call: Call)
    requires Inv(s)
    requires 0 <= t < |s.threads| && Enabled(s, t)
    ensures Gate(Step(s, t, call))
  {
    assert ReadOk(s, s.threads[t]);
    if s.threads[t].EnterTest? {
      hide Gate, Step, Reads;
      CountOne(s.threads, t, Counted);
      if s.readCnt != 1 {
        var u := OtherReaderInside(s, t);
        CountOne(s.threads, u, PastGate);
      }
      GateKept(s, t, call);
    } else if s.threads[t].LeaveTest? {
      hide Gate, Step, Reads;
      if s.readCnt != 0 {
        var u := OtherReaderInside(s, t);
        CountTwo(s.threads, if t < u then t else u, if t < u then u else t, PastGate);
      }
      GateKept(s, t, call);
    } else if s.threads[t].LeaveGate? {
      hide Gate, Step, Reads;
      LastReader(s, t);
      GateKept(s, t, call);
    } else {
      GateKept(s, t, call);
    }
  }

  /** The gate's accounting survives a step, given that the readers' hold on it
      begins and ends with the right step. */
  lemma GateKept(s: State, t: int, call: Call)
    requires Gate(s) && 0 <= t < |s.threads| && Enabled(s, t)
    requires s.threads[t].EnterTest? && s.readCnt != 1 ==> Count(s.threads, PastGate) > 0
    requires s.threads[t].LeaveTest? && s.readCnt != 0 ==> Count(s.threads, PastGate) > 1
    requires s.threads[t].LeaveGate? ==> Count(s.threads, PastGate) == 1
    ensures Gate(Step(s, t, call))
  {
    hide Count;
    var pc := Step(s, t, call).threads[t];
    assert Step(s, t, call).threads == s.threads[t := pc];
    if PastGate(s.threads[t]) { CountOne(s.threads, t, PastGate); }
    CountUpdate(s.threads, t, pc, PastGate);
    CountUpdate(s.threads, t, pc, Writing);
  }

  lemma StepInv(s: State, t: int, call: Call)
    requires Inv(s)
    requires 0 <= t < |s.threads| && Enabled(s, t)
    ensures Inv(Step(s, t, call))
  {
    hide Counter, Readers, Gate, Reads, Step;
    CounterStep(s, t, call);
    ReadersStep(s, t, call);
    ReadsStep(s, t, call);
    GateStep(s, t, call);
  }

  // ---- all runs ----

  /** Thread t takes a step, having chosen call if it was idle. */
  datatype Choice = Choice(t: int, call: Call)

  predicate CanStep(s: State, c: Choice) {
    0 <= c.t < |s.threads| && Enabled(s, c.t)
  }

  ghost predicate Schedule(s: State, choices: seq<Choice>)
    decreases |choices|
  {
    choices == [] || (CanStep(s, choices[0]) && Schedule(Step(s, choices[0].t, choices[0].call), choices[1..]))
  }

  ghost function Run(s: State, choices: seq<Choice>): State
    requires Schedule(s, choices)
    decreases |choices|
  {
    if choices == [] then s else Run(Step(s, choices[0].t, choices[0].call), choices[1..])
  }

  lemma {:induction false} RunInv(s: State, choices: seq<Choice>)
    requires Inv(s) && Schedule(s, choices)
    ensures Inv(Run(s, choices))
    decreases |choices|
  {
    hide Inv, Step;
    if choices != [] {
      StepInv(s, choices[0].t, choices[0].call);
      RunInv(Step(s, choices[0].t, choices[0].call), choices[1..]);
    }
  }

  lemma Exclusion(s: State, t: int, u: int)
    requires Gate(s)
    requires 0 <= t < |s.threads| && 0 <= u < |s.threads| && t != u && s.threads[t] == Write
    ensures s.threads[u] != Write && s.threads[u] != Scan
  {
    CountOne(s.threads, t, Writing);
    if s.threads[u] == Write {
      CountTwo(s.threads, if t < u then t else u, if t < u then u else t, Writing);
    }
    if s.threads[u] == Scan {
      CountOne(s.threads, u, PastGate);
    }
  }

  // ---- which call a thread is executing ----

  /** The call that thread t has begun last, was before the run. */
  ghost function CallOf(s: State, choices: seq<Choice>, t: int, was: Call): Call
    requires Schedule(s, choices) && 0 <= t < |s.threads|
    decreases |choices|
  {
    if choices == [] then was
    else
      var c := choices[0];
      CallOf(Step(s, c.t, c.call), choices[1..], t, if c.t == t && s.threads[t] == Idle then c.call else was)
  }

  /** Where a call of each kind can be. */
  predicate Fits(pc: Pc, call: Call) {
    match pc
    case Idle => true
    case WriteLock => call == Update
    case Write => call == Update
    case _ => call == FindHit
  }

  lemma {:induction false} CallsFit(s: State, choices: seq<Choice>, t: int, was: Call)
    requires Schedule(s, choices) && 0 <= t < |s.threads| && Fits(s.threads[t], was)
    ensures |Run(s, choices).threads| == |s.threads|
    ensures Fits(Run(s, choices).threads[t], CallOf(s, choices, t, was))
    decreases |choices|
  {
    if choices != [] {
      var c := choices[0];
      var next := if c.t == t && s.threads[t] == Idle then c.call else was;
      FitsStep(s, c, t, was);
      hide Step, Fits;
      CallsFit(Step(s, c.t, c.call), choices[1..], t, next);
    }
  }

  lemma FitsStep(s: State, c: Choice, t: int, was: Call)
    requires CanStep(s, c) && 0 <= t < |s.threads| && Fits(s.threads[t], was)
    ensures |Step(s, c.t, c.call).threads| == |s.threads|
    ensures Fits(Step(s, c.t, c.call).threads[t], if c.t == t && s.threads[t] == Idle then c.call else was)
  {
  }

  /** Between the first P of a call and its end. */
  predicate PastFirstP(pc: Pc) {
    pc != Idle && pc != EnterLock && pc != WriteLock
  }

  /** In every state of every run, whatever thread t is executing: get_hit and write_cache
      overlap neither one another nor a scan of find_hit; both semaphores are 0 or 1, and
      read_cnt is the number of readers between their increment and their decrement. */
  lemma SafeInEveryRun(s0: State, choices: seq<Choice>)
    requires Init(s0) && Schedule(s0, choices)
    ensures var s := Run(s0, choices);
      && |s.threads| == |s0.threads|
      && (forall t, u | 0 <= t < |s.threads| && 0 <= u < |s.threads| && t != u
                        && CallOf(s0, choices, t, FindHit) == Update && PastFirstP(s.threads[t]) ::
            && !(CallOf(s0, choices, u, FindHit) == Update && PastFirstP(s.threads[u]))
            && !(CallOf(s0, choices, u, FindHit) == FindHit && s.threads[u] == Scan))
      && 0 <= s.rMutex <= 1 && 0 <= s.wMutex <= 1
      && s.readCnt == Count(s.threads, Counted)
  {
    InitInv(s0);
    RunInv(s0, choices);
    var s := Run(s0, choices);
    hide Step;
    SameThreads(s0, choices);
    forall t, u | 0 <= t < |s.threads| && 0 <= u < |s.threads| && t != u
                  && CallOf(s0, choices, t, FindHit) == Update && PastFirstP(s.threads[t])
      ensures !(CallOf(s0, choices, u, FindHit) == Update && PastFirstP(s.threads[u]))
      ensures !(CallOf(s0, choices, u, FindHit) == FindHit && s.threads[u] == Scan)
    {
      CallsFit(s0, choices, t, FindHit);
      CallsFit(s0, choices, u, FindHit);
      Exclusion(s, t, u);
    }
  }

  lemma {:induction false} SameThreads(s: State, choices: seq<Choice>)
    requires Schedule(s, choices)
    ensures |Run(s, choices).threads| == |s.threads|
    decreases |choices|
  {
    if choices != [] {
      SameThreads(Step(s, choices[0].t, choices[0].call), choices[1..]);
    }
  }

  /** Readers do not exclude each other: with two threads or more, two calls of find_hit
      can be scanning at the same time. */
  lemma TwoReaders(s0: State) returns (choices: seq<Choice>)
    requires Init(s0) && |s0.threads| >= 2
    ensures Schedule(s0, choices) && |Run(s0, choices).threads| == |s0.threads|
    ensures CallOf(s0, choices, 0, Update) == CallOf(s0, choices, 1, Update) == FindHit
    ensures Run(s0, choices).threads[0] == Run(s0, choices).threads[1] == Scan
  {
    var s1, first := FirstReader(s0);
    var s2, second := SecondReader(s1);
    RunJoins(s0, first, second);
    CallJoins(s0, first, second, 0, Update);
    CallJoins(s0, first, second, 1, Update);
    choices := first + second;
  }

  /** Thread 0 from idle to its scan, with nobody else about. */
  lemma FirstReader(s: State) returns (after: State, choices: seq<Choice>)
    requires s.readCnt == 0 && s.rMutex == 1 && s.wMutex == 1
    requires |s.threads| >= 2 && s.threads[0] == s.threads[1] == Idle
    ensures Schedule(s, choices) && after == Run(s, choices)
    ensures after == s.(readCnt := 1, wMutex := 0, threads := s.threads[0 := Scan])
    ensures CallOf(s, choices, 0, Update) == FindHit && CallOf(s, choices, 1, Update) == Update
  {
    var c := Choice(0, FindHit);
    var q1 := s.(threads := s.threads[0 := EnterLock]);
    var q2 := s.(rMutex := 0, threads := s.threads[0 := EnterRead]);
    var q3 := s.(rMutex := 0, threads := s.threads[0 := EnterBump(0)]);
    var q4 := s.(rMutex := 0, readCnt := 1, threads := s.threads[0 := EnterTest]);
    var q5 := s.(rMutex := 0, readCnt := 1, threads := s.threads[0 := EnterGate]);
    var q6 := s.(rMutex := 0, readCnt := 1, wMutex := 0, threads := s.threads[0 := EnterUnlock]);
    after := s.(readCnt := 1, wMutex := 0, threads := s.threads[0 := Scan]);
    Follows(q6, c, [], after);
    var r1 := [c] + [];
    Follows(q5, c, r1, q6);
    var r2 := [c] + r1;
    Follows(q4, c, r2, q5);
    var r3 := [c] + r2;
    Follows(q3, c, r3, q4);
    var r4 := [c] + r3;
    Follows(q2, c, r4, q3);
    var r5 := [c] + r4;
    Follows(q1, c, r5, q2);
    var r6 := [c] + r5;
    Follows(s, c, r6, q1);
    choices := [c] + r6;
  }

  /** Thread 1 from idle to its scan, while thread 0 is scanning. */
  lemma SecondReader(s: State) returns (after: State, choices: seq<Choice>)
    requires s.readCnt == 1 && s.rMutex == 1
    requires |s.threads| >= 2 && s.threads[0] == Scan && s.threads[1] == Idle
    ensures Schedule(s, choices) && after == Run(s, choices)
    ensures after == s.(readCnt := 2, threads := s.threads[1 := Scan])
    ensures CallOf(s, choices, 0, FindHit) == FindHit && CallOf(s, choices, 1, Update) == FindHit
  {
    var c := Choice(1, FindHit);
    var q1 := s.(threads := s.threads[1 := EnterLock]);
    var q2 := s.(rMutex := 0, threads := s.threads[1 := EnterRead]);
    var q3 := s.(rMutex := 0, threads := s.threads[1 := EnterBump(1)]);
    var q4 := s.(rMutex := 0, readCnt := 2, threads := s.threads[1 := EnterTest]);
    var q5 := s.(rMutex := 0, readCnt := 2, threads := s.threads[1 := EnterUnlock]);
    after := s.(readCnt := 2, threads := s.threads[1 := Scan]);
    Follows(q5, c, [], after);
    var r1 := [c] + [];
    Follows(q4, c, r1, q5);
    var r2 := [c] + r1;
    Follows(q3, c, r2, q4);
    var r3 := [c] + r2;
    Follows(q2, c, r3, q3);
    var r4 := [c] + r3;
    Follows(q1, c, r4, q2);
    var r5 := [c] + r4;
    Follows(s, c, r5, q1);
    choices := [c] + r5;
  }

  /** One more step in front, and whose call it belongs to. */
  lemma Follows(s: State, c: Choice, rest: seq<Choice>, next: State)
    requires CanStep(s, c) && Step(s, c.t, c.call) == next && Schedule(next, rest)
    ensures Schedule(s, [c] + rest) && Run(s, [c] + rest) == Run(next, rest)
    ensures forall t, was | 0 <= t < |s.threads| && t < |next.threads| ::
              CallOf(s, [c] + rest, t, was)
              == CallOf(next, rest, t, if c.t == t && s.threads[t] == Idle then c.call else was)
  {
    hide Step;
    var choices := [c] + rest;
    assert choices[0] == c && choices[1..] == rest;
  }

  lemma {:induction false} RunJoins(s: State, a: seq<Choice>, b: seq<Choice>)
    requires Schedule(s, a) && Schedule(Run(s, a), b)
    ensures Schedule(s, a + b) && Run(s, a + b) == Run(Run(s, a), b)
    decreases |a|
  {
    hide Step;
    if a == [] {
      assert a + b == b;
    } else {
      assert (a + b)[0] == a[0] && (a + b)[1..] == a[1..] + b;
      RunJoins(Step(s, a[0].t, a[0].call), a[1..], b);
    }
  }

  lemma {:induction false} CallJoins(s: State, a: seq<Choice>, b: seq<Choice>, t: int, was: Call)
    requires Schedule(s, a) && Schedule(Run(s, a), b) && Schedule(s, a + b)
    requires 0 <= t < |s.threads| && t < |Run(s, a).threads|
    ensures CallOf(s, a + b, t, was) == CallOf(Run(s, a), b, t, CallOf(s, a, t, was))
    decreases |a|
  {
    if a == [] {
      assert a + b == b;
    } else {
      assert (a + b)[0] == a[0] && (a + b)[1..] == a[1..] + b;
      var next := Step(s, a[0].t, a[0].call);
      assert |next.threads| == |s.threads|;
      hide Step;
      RunJoins(next, a[1..], b);
      CallJoins(next, a[1..], b, t, if a[0].t == t && s.threads[t] == Idle then a[0].call else was);
    }
  }

  // ---- progress ----

  /** A thread waiting for w_mutex waits for one that can move, provided no reader is
      queued behind a held counter. */
  lemma GateHolderMoves(s: State) returns (u: int)
    requires Gate(s) && s.wMutex == 0
    requires s.rMutex > 0 || Count(s.threads, PastGate) == 0
    ensures 0 <= u < |s.threads| && s.threads[u] != Idle && Enabled(s, u)
  {
    if Count(s.threads, Writing) > 0 {
      u := CountFind(s.threads, Writing);
    } else {
      u := CountFind(s.threads, PastGate);
    }
  }

  /** A first reader at the gate is alone: nobody is past it. */
  lemma AloneAtGate(s: State, h: int)
    requires Counter(s) && Readers(s) && Reads(s)
    requires 0 <= h < |s.threads| && s.threads[h] == EnterGate
    ensures Count(s.threads, PastGate) == 0
  {
    assert ReadOk(s, s.threads[h]);
    forall u | 0 <= u < |s.threads| ensures !PastGate(s.threads[u]) {
      if u != h && PastGate(s.threads[u]) {
        OneCounterHolder(s, h, u);
        CountTwo(s.threads, if h < u then h else u, if h < u then u else h, Counted);
      }
    }
    CountNone(s.threads, PastGate);
  }

  /** No deadlock: while any operation is under way, some operation under way can step. */
  lemma Progress(s: State, t: int) returns (u: int)
    requires Inv(s)
    requires 0 <= t < |s.threads| && s.threads[t] != Idle
    ensures 0 <= u < |s.threads| && s.threads[u] != Idle && Enabled(s, u)
  {
    if s.rMutex == 0 {
      u := CountFind(s.threads, HoldsCounter);
      if s.threads[u] == EnterGate && s.wMutex == 0 {
        AloneAtGate(s, u);
        u := GateHolderMoves(s);
      }
    } else if Enabled(s, t) {
      u := t;
    } else {
      u := GateHolderMoves(s);
    }
  }

  /** An upper bound on the steps left in the operation. */
  function Remaining(pc: Pc): (k: nat)
    ensures (k > 0 <==> pc != Idle)
  {
    match pc
    case Idle => 0
    case EnterLock => 14
    case EnterRead => 13
    case EnterBump(_) => 12
    case EnterTest => 11
    case EnterGate => 10
    case EnterUnlock => 9
    case Scan => 8
    case LeaveLock => 7
    case LeaveRead => 6
    case LeaveBump(_) => 5
    case LeaveTest => 4
    case LeaveGate => 3
    case LeaveUnlock => 2
    case WriteLock => 2
    case Write => 1
  }

  function Work(threads: seq<Pc>): nat {
    Total(threads, Remaining)
  }

  /** A step of an operation under way always leaves less work: no operation loops,
      so with no new calls every schedule comes to an end. */
  lemma StepWorks(s: State, t: int, call: Call)
    requires 0 <= t < |s.threads| && Enabled(s, t) && s.threads[t] != Idle
    ensures Work(Step(s, t, call).threads) < Work(s.threads)
  {
    var pc := Step(s, t, call).threads[t];
    assert Step(s, t, call).threads == s.threads[t := pc];
    assert Remaining(pc) < Remaining(s.threads[t]);
    hide Step, Remaining;
    TotalUpdate(s.threads, t, pc, Remaining);
  }

  predicate AllIdle(s: State) {
    forall t | 0 <= t < |s.threads| :: s.threads[t] == Idle
  }

  lemma RunFirst(s: State, c: Choice, rest: seq<Choice>)
    requires CanStep(s, c) && Schedule(Step(s, c.t, c.call), rest)
    ensures Schedule(s, [c] + rest) && Run(s, [c] + rest) == Run(Step(s, c.t, c.call), rest)
  {
    hide Step;
    var choices := [c] + rest;
    assert choices[0] == c && choices[1..] == rest;
  }

  /** From any reachable state every operation under way can be run to its end. */
  lemma {:induction false} Drain(s: State) returns (choices: seq<Choice>)
    requires Inv(s)
    ensures Schedule(s, choices) && |choices| <= Work(s.threads)
    ensures AllIdle(Run(s, choices)) && |Run(s, choices).threads| == |s.threads|
    decreases Work(s.threads)
  {
    if AllIdle(s) {
      choices := [];
      assert Run(s, choices) == s;
    } else {
      var t :| 0 <= t < |s.threads| && s.threads[t] != Idle;
      var u := Progress(s, t);
      StepInv(s, u, Update);
      StepWorks(s, u, Update);
      var next := Step(s, u, Update);
      assert |next.threads| == |s.threads|;
      hide Inv, Step, Enabled, Run, Schedule, AllIdle;
      var rest := Drain(next);
      RunFirst(s, Choice(u, Update), rest);
      choices := [Choice(u, Update)] + rest;
    }
  }
}
