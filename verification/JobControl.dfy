/** The fork, addjob and sigsuspend protocol of tsh.c with its SIGCHLD handler and
    the children it manages, as a transition system. A child may exit, stop or
    continue at any moment; the handler may run whenever SIGCHLD is unblocked. */
module JobControl {
  import opened JobList

  /** A child not yet reaped. A stop is reported by waitpid once. */
  datatype Status = Running | Stopped(reported: bool) | Dead

  datatype Pc =
    | Prompt                        // reading a command; SIGCHLD unblocked
    | Blocked(fg: bool)             // signals blocked, about to fork
    | Forked(fg: bool, pid: int)    // about to call addjob
    | Test(slot: nat, pid: int)     // do_fg_job, at the loop condition
    | Sleep(slot: nat, pid: int)    // in sigsuspend with the empty mask
    | Unblock                       // about to restore the old mask
    | Exited(pid: int)              // app_error: the table was full for this child

  datatype Handler =
    | Off
    | Wait                          // about to call waitpid
    | Got(pid: int, dead: bool)     // waitpid has returned this child

  /** missed records that the handler looked up a process that had no job. */
  datatype State = State(jobs: seq<Job>, nextjid: int, children: map<int, Status>,
                         pending: bool, pc: Pc, handler: Handler, missed: bool)

  datatype Event =
    | Command(fg: bool)
    | Fork(child: int)
    | Main                          // the next step of do_fg_job or do_bg_job
    | Deliver                       // the handler starts
    | Reap(child: int)              // waitpid returns a child
    | Return                        // waitpid returns none; the handler returns
    | Handle                        // the handler updates the job list
    | OtherSignal                   // sigint_handler or sigtstp_handler ends sigsuspend
    | ChildExits(child: int)
    | ChildStops(child: int)
    | ChildContinues(child: int)

  predicate Reportable(c: Status) {
    c == Dead || c == Stopped(false)
  }

  predicate SomeReportable(children: map<int, Status>) {
    exists p :: p in children && Reportable(children[p])
  }

  ghost predicate Init(s: State) {
    && s.jobs == seq(MAXJOBS, _ => NO_JOB) && s.nextjid == 1 && s.children == map[]
    && !s.pending && s.pc == Prompt && s.handler == Off && !s.missed
  }

  /** SIGCHLD can be delivered to the main program. */
  predicate Unmasked(pc: Pc) {
    pc.Prompt? || pc.Sleep?
  }

  predicate Can(s: State, e: Event) {
    match e
    case Command(_) => s.pc.Prompt? && s.handler.Off?
    case Fork(p) => s.pc.Blocked? && p > 0 && p !in s.children
    case Main => s.pc.Forked? || (s.pc.Test? && s.pc.slot < |s.jobs|) || s.pc.Unblock?
    case Deliver => s.pending && s.handler.Off? && Unmasked(s.pc)
    case Reap(p) => s.handler.Wait? && p in s.children && Reportable(s.children[p])
    case Return => s.handler.Wait? && !SomeReportable(s.children)
    case Handle => s.handler.Got?
    case OtherSignal => s.pc.Sleep? && s.handler.Off?
    case ChildExits(p) => p in s.children && s.children[p] != Dead
    case ChildStops(p) => p in s.children && s.children[p] == Running
    case ChildContinues(p) => p in s.children && s.children[p].Stopped?
  }

  function Step(s: State, e: Event): State
    requires Can(s, e)
  {
    match e
    case Command(fg) => s.(pc := Blocked(fg))
    case Fork(p) => s.(pc := Forked(s.pc.fg, p), children := s.children[p := Running])
    case Main =>
      if s.pc.Forked? then
        if SlotOf(s.jobs, 0) == |s.jobs| then s.(pc := Exited(s.pc.pid))
        else
          s.(jobs := Added(s.jobs, s.nextjid, s.pc.pid, if s.pc.fg then FG else BG),
             nextjid := NextJid(s.nextjid),
             pc := if s.pc.fg then Test(SlotOf(s.jobs, 0), s.pc.pid) else Unblock)
      else if s.pc.Test? then
        s.(pc := if FgPid(s.jobs) != 0 && s.jobs[s.pc.slot].state == FG then Sleep(s.pc.slot, s.pc.pid) else Unblock)
      else s.(pc := Prompt)
    case Deliver => s.(handler := Wait, pending := false)
    case Reap(p) =>
      if s.children[p] == Dead then s.(handler := Got(p, true), children := s.children - {p})
      else s.(handler := Got(p, false), children := s.children[p := Stopped(true)])
    case Return => s.(handler := Off, pc := if s.pc.Sleep? then Test(s.pc.slot, s.pc.pid) else s.pc)
    case Handle =>
      var k := SlotOf(s.jobs, s.handler.pid);
      if k == |s.jobs| then s.(handler := Wait, missed := true)
      else if s.handler.dead then
        s.(handler := Wait, jobs := Deleted(s.jobs, s.handler.pid),
           nextjid := MaxJid(Deleted(s.jobs, s.handler.pid)) + 1)
      else s.(handler := Wait, jobs := s.jobs[k := Job(s.jobs[k].pid, s.jobs[k].jid, ST)])
    case OtherSignal => s.(pc := Test(s.pc.slot, s.pc.pid))
    case ChildExits(p) => s.(children := s.children[p := Dead], pending := true)
    case ChildStops(p) => s.(children := s.children[p := Stopped(false)], pending := true)
    case ChildContinues(p) => s.(children := s.children[p := Running], pending := true)
  }

  // ---- the invariant ----

  /** A child that is forked but not yet added, and one reaped but not yet deleted. */
  function NotYetAdded(s: State): set<int> {
    if s.pc.Forked? || s.pc.Exited? then {s.pc.pid} else {}
  }

  function NotYetDeleted(s: State): set<int> {
    if s.handler.Got? && s.handler.dead then {s.handler.pid} else {}
  }

  /** Jobs and children are the same processes, but for those two. */
  ghost predicate Matched(s: State) {
    && TableOk(s.jobs) && s.nextjid >= 1
    && (forall p | p in s.children :: p > 0)
    && NotYetAdded(s) <= s.children.Keys
    && NotYetDeleted(s) !! s.children.Keys
    && NotYetAdded(s) !! Pids(s.jobs)
    && NotYetDeleted(s) <= Pids(s.jobs)
    && Pids(s.jobs) + NotYetAdded(s) == s.children.Keys + NotYetDeleted(s)
    && (s.handler.Got? && !s.handler.dead ==> s.handler.pid in s.children)
    && !s.missed
  }

  /** The handler runs only while SIGCHLD is unblocked, and no report is forgotten. */
  ghost predicate Signalled(s: State) {
    && (!s.handler.Off? ==> Unmasked(s.pc))
    && (SomeReportable(s.children) ==> s.pending || !s.handler.Off?)
  }

  ghost predicate Waiting(s: State, i: int) {
    (s.pc.Test? || s.pc.Sleep?) && s.pc.slot == i && 0 <= i < |s.jobs| && s.jobs[i].pid == s.pc.pid
  }

  /** Only the job being waited for is in the foreground, and its stop, if any, has
      not been handled. */
  ghost predicate Foreground(s: State) {
    && (forall i | 0 <= i < |s.jobs| && s.jobs[i].state == FG ::
          Waiting(s, i)
          && (s.jobs[i].pid in s.children && s.children[s.jobs[i].pid] == Stopped(true) ==>
                s.handler == Got(s.jobs[i].pid, false)))
    && (s.pc.Test? || s.pc.Sleep? ==> s.pc.slot < |s.jobs| && s.pc.pid > 0)
    && (s.pc.Forked? && s.pc.pid in s.children ==> s.children[s.pc.pid] != Stopped(true))
    && (s.pc.Sleep? && s.handler.Off? ==> s.jobs[s.pc.slot].state == FG)
  }

  ghost predicate Inv(s: State) {
    Matched(s) && Signalled(s) && Foreground(s)
  }

  lemma InitInv(s: State)
    requires Init(s)
    ensures Inv(s)
  {
  }

  lemma MatchedStep(s: State, e: Event)
    requires Inv(s) && Can(s, e)
    ensures Matched(Step(s, e))
  {
    hide TableOk, Foreground, SlotOf, MaxJid, FgPid, Pids, Signalled, Added, Deleted;
    match e
    case Main => MatchedMain(s);
    case Reap(p) => MatchedReap(s, p);
    case Handle => MatchedHandle(s);
    case Fork(p) => MatchedFork(s, p);
    case ChildExits(p) => MatchedChild(s, e, p, Dead);
    case ChildStops(p) => MatchedChild(s, e, p, Stopped(false));
    case ChildContinues(p) => MatchedChild(s, e, p, Running);
    case _ =>
  }

  lemma MatchedFork(s: State, p: int)
    requires Inv(s) && Can(s, Fork(p))
    ensures Matched(Step(s, Fork(p)))
  {
    hide TableOk, Foreground, SlotOf, MaxJid, FgPid, Pids, SomeReportable;
    assert s.children[p := Running].Keys == s.children.Keys + {p};
  }

  lemma MatchedChild(s: State, e: Event, p: int, c: Status)
    requires Matched(s) && Can(s, e) && p in s.children
    requires Step(s, e) == s.(children := s.children[p := c], pending := true)
    ensures Matched(Step(s, e))
  {
    hide TableOk, SlotOf, MaxJid, FgPid, Pids, Step;
    assert s.children[p := c].Keys == s.children.Keys;
  }

  lemma MatchedMain(s: State)
    requires Inv(s) && Can(s, Main)
    ensures Matched(Step(s, Main))
  {
    hide TableOk, SlotOf, MaxJid, FgPid, Pids, Foreground, Added;
    if s.pc.Forked? && SlotOf(s.jobs, 0) != |s.jobs| {
      AddedOk(s.jobs, s.nextjid, s.pc.pid, if s.pc.fg then FG else BG);
      assert Step(s, Main).children == s.children && Step(s, Main).handler == s.handler;
    }
  }

  lemma MatchedReap(s: State, p: int)
    requires Inv(s) && Can(s, Reap(p))
    ensures Matched(Step(s, Reap(p)))
  {
    hide TableOk, SlotOf, MaxJid, FgPid, Pids, Foreground, Added;
    assert s.handler == Wait && Unmasked(s.pc);
    assert (s.children - {p}).Keys == s.children.Keys - {p};
    assert s.children[p := Stopped(true)].Keys == s.children.Keys;
  }

  lemma MatchedHandle(s: State)
    requires Inv(s) && Can(s, Handle)
    ensures Matched(Step(s, Handle))
  {
    hide TableOk, SlotOf, MaxJid, FgPid, Pids, Foreground, Signalled, Deleted;
    var p := s.handler.pid;
    HandledListed(s);
    ListedSlot(s.jobs, p);
    if s.handler.dead {
      DeletedOk(s.jobs, p);
      MaxJidIsNat(Deleted(s.jobs, p));
      MatchedUpdate(s, Step(s, Handle), Pids(s.jobs) - {p});
    } else {
      StoppedOk(s.jobs, p);
      MatchedUpdate(s, Step(s, Handle), Pids(s.jobs));
    }
  }

  /** The handler has brought the table up to date. */
  lemma MatchedUpdate(s: State, after: State, pids: set<int>)
    requires Matched(s) && s.handler.Got? && !s.pc.Forked? && !s.pc.Exited?
    requires after == s.(handler := Wait, jobs := after.jobs, nextjid := after.nextjid)
    requires TableOk(after.jobs) && after.nextjid >= 1 && Pids(after.jobs) == pids
    requires pids == if s.handler.dead then Pids(s.jobs) - {s.handler.pid} else Pids(s.jobs)
    ensures Matched(after)
  {
    hide TableOk, Pids;
  }

  lemma MaxJidIsNat(jobs: seq<Job>)
    ensures MaxJid(jobs) >= 0
  {
  }

  lemma HandledListed(s: State)
    requires Inv(s) && Can(s, Handle)
    ensures s.handler.pid != 0 && s.handler.pid in Pids(s.jobs) && !s.pc.Forked? && !s.pc.Exited?
  {
    hide SlotOf, MaxJid, FgPid, Foreground;
    assert !s.pc.Forked? && !s.pc.Exited?;
    assert s.handler.pid in s.children.Keys + NotYetDeleted(s);
    assert s.handler.pid in Pids(s.jobs);
  }

  lemma StoppedOk(jobs: seq<Job>, p: int)
    requires TableOk(jobs) && p != 0 && SlotOf(jobs, p) < |jobs|
    ensures var k := SlotOf(jobs, p); var after := jobs[k := Job(jobs[k].pid, jobs[k].jid, ST)];
            TableOk(after) && Pids(after) == Pids(jobs)
  {
    var k := SlotOf(jobs, p);
    var after := jobs[k := Job(jobs[k].pid, jobs[k].jid, ST)];
    hide SlotOf;
    assert forall i | 0 <= i < |jobs| :: after[i].pid == jobs[i].pid;
  }

  lemma SignalledStep(s: State, e: Event)
    requires Inv(s) && Can(s, e)
    ensures Signalled(Step(s, e))
  {
    hide TableOk, SlotOf, MaxJid, FgPid, Pids, Foreground, Matched, Deleted, Added;
    var after := Step(s, e);
    if SomeReportable(after.children) {
      var p :| p in after.children && Reportable(after.children[p]);
      if p in s.children && after.children[p] == s.children[p] {
        assert SomeReportable(s.children);
      }
    }
  }

  lemma ForegroundMain(s: State)
    requires Inv(s) && Can(s, Main)
    ensures Foreground(Step(s, Main))
  {
    hide SlotOf, FgPid, MaxJid, Pids, Signalled;
    var after := Step(s, Main);
    if s.pc.Test? {
      ForegroundTest(s);
    } else if s.pc.Forked? && SlotOf(s.jobs, 0) < |s.jobs| {
      AddedOk(s.jobs, s.nextjid, s.pc.pid, if s.pc.fg then FG else BG);
      var k := SlotOf(s.jobs, 0);
      assert forall i | 0 <= i < |s.jobs| && i != k :: after.jobs[i] == s.jobs[i];
      assert forall i | 0 <= i < |s.jobs| :: s.jobs[i].state != FG;
    }
  }

  /** The loop condition reads the job's own state: a foreground job makes fgpid
      nonzero, and there is no other. */
  lemma ForegroundTest(s: State)
    requires Inv(s) && Can(s, Main) && s.pc.Test?
    ensures Step(s, Main).pc.Sleep? <==> s.jobs[s.pc.slot].state == FG
    ensures Foreground(Step(s, Main))
  {
    if s.jobs[s.pc.slot].state == FG {
      FgIsPositive(s.jobs);
    }
    hide FgPid, SlotOf, MaxJid, Pids;
  }

  lemma FgIsPositive(jobs: seq<Job>)
    requires TableOk(jobs) && exists i :: 0 <= i < |jobs| && jobs[i].state == FG
    ensures FgPid(jobs) != 0
  {
    var p := FgPid(jobs);
    hide FgPid;
  }

  lemma ForegroundHandle(s: State)
    requires Inv(s) && Can(s, Handle)
    ensures Foreground(Step(s, Handle))
  {
    var p := s.handler.pid;
    ListedSlot(s.jobs, p);
    var k := SlotOf(s.jobs, p);
    var after := Step(s, Handle);
    hide SlotOf, FgPid, MaxJid, Pids, Signalled;
    forall i | 0 <= i < |after.jobs| && after.jobs[i].state == FG
      ensures i != k && after.jobs[i] == s.jobs[i]
    {
    }
    assert forall i | 0 <= i < |s.jobs| && i != k :: s.jobs[i].pid != p;
  }

  lemma ForegroundStep(s: State, e: Event)
    requires Inv(s) && Can(s, e)
    ensures Foreground(Step(s, e))
  {
    if e.Main? {
      ForegroundMain(s);
    } else if e.Handle? {
      ForegroundHandle(s);
    } else {
      ForegroundSameJobs(s, e);
    }
  }

  lemma ForegroundSameJobs(s: State, e: Event)
    requires Inv(s) && Can(s, e) && !e.Main? && !e.Handle?
    ensures Foreground(Step(s, e))
  {
    hide TableOk, SlotOf, MaxJid, FgPid, Pids, Added, Deleted, SomeReportable;
    assert Step(s, e).jobs == s.jobs;
  }

  lemma StepInv(s: State, e: Event)
    requires Inv(s) && Can(s, e)
    ensures Inv(Step(s, e))
  {
    hide Matched, Signalled, Foreground, Step;
    MatchedStep(s, e);
    SignalledStep(s, e);
    ForegroundStep(s, e);
  }

  // ---- all runs ----

  ghost predicate Possible(s: State, events: seq<Event>)
    decreases |events|
  {
    events == [] || (Can(s, events[0]) && Possible(Step(s, events[0]), events[1..]))
  }

  ghost function Run(s: State, events: seq<Event>): State
    requires Possible(s, events)
    decreases |events|
  {
    if events == [] then s else Run(Step(s, events[0]), events[1..])
  }

  lemma {:induction false} RunInv(s: State, events: seq<Event>)
    requires Inv(s) && Possible(s, events)
    ensures Inv(Run(s, events))
    decreases |events|
  {
    hide Inv, Step, Can;
    if events != [] {
      StepInv(s, events[0]);
      RunInv(Step(s, events[0]), events[1..]);
    }
  }

  // ---- what each job was started for ----

  /** An observer of the events: whether the last command is a foreground one, for which
      kind of command each process was forked, and whose stop has been handled. */
  datatype Trace = Trace(fg: bool, origins: map<int, bool>, stops: set<int>)

  function Observe(s: State, e: Event, tr: Trace): Trace {
    match e
    case Command(fg) => tr.(fg := fg)
    case Fork(p) => tr.(origins := tr.origins[p := tr.fg], stops := tr.stops - {p})
    case Handle => if s.handler.Got? && !s.handler.dead then tr.(stops := tr.stops + {s.handler.pid}) else tr
    case _ => tr
  }

  ghost function Observed(s: State, events: seq<Event>, tr: Trace): Trace
    requires Possible(s, events)
    decreases |events|
  {
    if events == [] then tr else Observed(Step(s, events[0]), events[1..], Observe(s, events[0], tr))
  }

  /** The state that the job of process p must have. */
  function StateFor(tr: Trace, p: int): JobState
    requires p in tr.origins
  {
    if p in tr.stops then ST else if tr.origins[p] then FG else BG
  }

  ghost predicate JobsAsObserved(s: State, tr: Trace) {
    forall i | 0 <= i < |s.jobs| && s.jobs[i].pid != 0 ::
      s.jobs[i].pid in tr.origins && s.jobs[i].state == StateFor(tr, s.jobs[i].pid)
  }

  /** Where the shell is, it is for the last command; it waits for foreground jobs only. */
  ghost predicate MainAsObserved(s: State, tr: Trace) {
    && (s.pc.Blocked? ==> s.pc.fg == tr.fg)
    && (s.pc.Forked? ==> s.pc.pid in tr.origins && tr.origins[s.pc.pid] == s.pc.fg && s.pc.pid !in tr.stops)
    && (s.pc.Test? || s.pc.Sleep? ==> s.pc.pid in tr.origins && tr.origins[s.pc.pid])
  }

  lemma MainObserved(s: State, e: Event, tr: Trace)
    requires Can(s, e) && MainAsObserved(s, tr) && Signalled(s)
    ensures MainAsObserved(Step(s, e), Observe(s, e, tr))
  {
    hide SlotOf, MaxJid, FgPid, Deleted, Added, SomeReportable;
  }

  lemma JobsObserved(s: State, e: Event, tr: Trace)
    requires Inv(s) && Can(s, e) && JobsAsObserved(s, tr) && MainAsObserved(s, tr)
    ensures JobsAsObserved(Step(s, e), Observe(s, e, tr))
  {
    hide MaxJid, FgPid, Foreground, SomeReportable, JobsAsObserved;
    match e
    case Main => AddObserved(s, tr);
    case Handle => HandleObserved(s, tr);
    case Fork(p) => ForkObserved(s, p, tr);
    case _ =>
      var tr' := Observe(s, e, tr);
      assert Step(s, e).jobs == s.jobs && tr'.origins == tr.origins && tr'.stops == tr.stops;
      SameObserved(s, Step(s, e), tr, tr');
  }

  lemma SameObserved(s: State, after: State, tr: Trace, tr': Trace)
    requires JobsAsObserved(s, tr) && after.jobs == s.jobs && tr'.origins == tr.origins && tr'.stops == tr.stops
    ensures JobsAsObserved(after, tr')
  {
  }

  lemma AddObserved(s: State, tr: Trace)
    requires Can(s, Main) && JobsAsObserved(s, tr) && MainAsObserved(s, tr)
    ensures JobsAsObserved(Step(s, Main), tr)
  {
    hide MaxJid, FgPid;
    var after := Step(s, Main);
    if s.pc.Forked? && SlotOf(s.jobs, 0) != |s.jobs| {
      var k := SlotOf(s.jobs, 0);
      assert after.jobs[k] == Job(s.pc.pid, s.nextjid, if s.pc.fg then FG else BG);
      assert forall i | 0 <= i < |s.jobs| && i != k :: after.jobs[i] == s.jobs[i];
    } else {
      assert after.jobs == s.jobs;
    }
  }

  lemma HandleObserved(s: State, tr: Trace)
    requires Inv(s) && Can(s, Handle) && JobsAsObserved(s, tr)
    ensures JobsAsObserved(Step(s, Handle), Observe(s, Handle, tr))
  {
    HandledListed(s);
    var p := s.handler.pid;
    ListedSlot(s.jobs, p);
    var k := SlotOf(s.jobs, p);
    TableDistinct(s.jobs, k);
    hide MaxJid, SlotOf, TableOk, Inv, Pids, JobsAsObserved;
    var after, tr' := Step(s, Handle), Observe(s, Handle, tr);
    assert after.jobs[k].pid != 0 ==> after.jobs[k] == Job(p, s.jobs[k].jid, ST) && tr'.stops == tr.stops + {p};
    SlotObserved(s, after, k, tr, tr');
  }

  /** Only the slot of the child that the handler has looked up changes. */
  lemma SlotObserved(s: State, after: State, k: nat, tr: Trace, tr': Trace)
    requires JobsAsObserved(s, tr) && k < |s.jobs| && s.jobs[k].pid != 0
    requires |after.jobs| == |s.jobs| && after.jobs == s.jobs[k := after.jobs[k]]
    requires forall i | 0 <= i < |s.jobs| && i != k :: s.jobs[i].pid != s.jobs[k].pid
    requires tr'.origins == tr.origins && tr.stops <= tr'.stops <= tr.stops + {s.jobs[k].pid}
    requires after.jobs[k].pid != 0 ==>
               after.jobs[k] == Job(s.jobs[k].pid, s.jobs[k].jid, ST) && s.jobs[k].pid in tr'.stops
    ensures JobsAsObserved(after, tr')
  {
    forall i | 0 <= i < |after.jobs| && after.jobs[i].pid != 0
      ensures after.jobs[i].pid in tr'.origins && after.jobs[i].state == StateFor(tr', after.jobs[i].pid)
    {
      assert s.jobs[i].pid in tr.origins && (i != k ==> s.jobs[i].state == StateFor(tr, s.jobs[i].pid));
    }
  }

  lemma TableDistinct(jobs: seq<Job>, k: nat)
    requires TableOk(jobs) && k < |jobs| && jobs[k].pid != 0
    ensures forall i | 0 <= i < |jobs| && i != k :: jobs[i].pid != jobs[k].pid
  {
  }

  lemma ForkObserved(s: State, p: int, tr: Trace)
    requires Inv(s) && Can(s, Fork(p)) && JobsAsObserved(s, tr)
    ensures JobsAsObserved(Step(s, Fork(p)), Observe(s, Fork(p), tr))
  {
    hide SlotOf, MaxJid, FgPid, Foreground, TableOk;
    assert s.handler.Off?;
    assert p !in Pids(s.jobs);
    assert forall i | 0 <= i < |s.jobs| && s.jobs[i].pid != 0 :: s.jobs[i].pid in Pids(s.jobs);
  }

  lemma {:induction false} RunObserved(s: State, events: seq<Event>, tr: Trace)
    requires Inv(s) && Possible(s, events) && JobsAsObserved(s, tr) && MainAsObserved(s, tr)
    ensures JobsAsObserved(Run(s, events), Observed(s, events, tr))
    ensures MainAsObserved(Run(s, events), Observed(s, events, tr))
    decreases |events|
  {
    hide Step, Can, Matched, Foreground, Observe, JobsAsObserved, MainAsObserved;
    if events != [] {
      StepInv(s, events[0]);
      MainObserved(s, events[0], tr);
      JobsObserved(s, events[0], tr);
      RunObserved(Step(s, events[0]), events[1..], Observe(s, events[0], tr));
    }
  }

  /** app_error is reached only when the table has no free slot. */
  ghost predicate FullWhenExited(s: State) {
    s.pc.Exited? ==> forall i | 0 <= i < |s.jobs| :: s.jobs[i].pid != 0
  }

  lemma FullStep(s: State, e: Event)
    requires Inv(s) && Can(s, e) && FullWhenExited(s)
    ensures FullWhenExited(Step(s, e))
  {
    hide MaxJid, FgPid, Foreground, Matched, SomeReportable;
  }

  lemma {:induction false} RunFull(s: State, events: seq<Event>)
    requires Inv(s) && Possible(s, events) && FullWhenExited(s)
    ensures FullWhenExited(Run(s, events))
    decreases |events|
  {
    hide Step, Can, Inv, FullWhenExited;
    if events != [] {
      StepInv(s, events[0]);
      FullStep(s, events[0]);
      RunFull(Step(s, events[0]), events[1..]);
    }
  }

  /** Ids of listed jobs are positive, and when no job is listed the next id is 1. */
  ghost predicate IdsRestart(s: State) {
    && (forall i | 0 <= i < |s.jobs| && s.jobs[i].pid != 0 :: s.jobs[i].jid >= 1)
    && ((forall i | 0 <= i < |s.jobs| :: s.jobs[i].pid == 0) ==> s.nextjid == 1)
  }

  lemma IdsStep(s: State, e: Event)
    requires Inv(s) && Can(s, e) && IdsRestart(s)
    ensures IdsRestart(Step(s, e))
  {
    hide FgPid, Foreground, SomeReportable, Signalled, Pids;
    if e.Handle? {
      IdsHandle(s);
    } else if e.Main? {
      IdsMain(s);
    } else {
      assert Step(s, e).jobs == s.jobs && Step(s, e).nextjid == s.nextjid;
    }
  }

  lemma IdsMain(s: State)
    requires Inv(s) && Can(s, Main) && IdsRestart(s)
    ensures IdsRestart(Step(s, Main))
  {
    hide FgPid, Foreground, SomeReportable, Signalled, Pids, MaxJid, SlotOf;
    var after := Step(s, Main);
    if s.pc.Forked? && SlotOf(s.jobs, 0) != |s.jobs| {
      var k := SlotOf(s.jobs, 0);
      assert s.pc.pid in s.children && after.jobs == s.jobs[k := after.jobs[k]];
      assert after.jobs[k].pid == s.pc.pid > 0 && after.jobs[k].jid == s.nextjid;
    } else {
      assert after.jobs == s.jobs && after.nextjid == s.nextjid;
    }
  }

  lemma IdsHandle(s: State)
    requires Inv(s) && Can(s, Handle) && IdsRestart(s)
    ensures IdsRestart(Step(s, Handle))
  {
    HandledListed(s);
    ListedSlot(s.jobs, s.handler.pid);
    MatchedHandle(s);
    hide FgPid, Foreground, SomeReportable, Signalled, Pids, SlotOf;
    var after := Step(s, Handle);
    var k := SlotOf(s.jobs, s.handler.pid);
    assert after.jobs == s.jobs[k := after.jobs[k]];
    if s.handler.dead {
      NextAfter(after.jobs);
    } else {
      assert after.jobs[k].pid == s.handler.pid;
    }
  }

  lemma NextAfter(jobs: seq<Job>)
    requires TableOk(jobs)
    ensures (forall i | 0 <= i < |jobs| :: jobs[i].pid == 0) ==> MaxJid(jobs) + 1 == 1
  {
    var m := MaxJid(jobs);
    hide MaxJid;
  }

  lemma {:induction false} RunIds(s: State, events: seq<Event>)
    requires Inv(s) && Possible(s, events) && IdsRestart(s)
    ensures IdsRestart(Run(s, events))
    decreases |events|
  {
    hide Step, Can, Inv, IdsRestart;
    if events != [] {
      StepInv(s, events[0]);
      IdsStep(s, events[0]);
      RunIds(Step(s, events[0]), events[1..]);
    }
  }

  /** In every state of every run: whenever SIGCHLD is unblocked and no handler is
      running, the job list names exactly the unreaped children; each job is stopped if
      its stop has been handled, and otherwise in the foreground or the background as
      its command was; at most one job is in the foreground, and at the prompt every
      child of a foreground command has exited or its stop has been handled; the shell
      waits for foreground commands only; the handler never looks up a process without a
      job; the shell gives up only when the table is full; and ids start again at 1 when no
      job is left. */
  lemma SafeInEveryRun(s0: State, events: seq<Event>)
    requires Init(s0) && Possible(s0, events)
    ensures var s, tr := Run(s0, events), Observed(s0, events, Trace(false, map[], {}));
      && (Unmasked(s.pc) && s.handler == Off ==> Pids(s.jobs) == s.children.Keys)
      && (forall i | 0 <= i < |s.jobs| && s.jobs[i].pid != 0 ::
            s.jobs[i].pid in tr.origins && s.jobs[i].state == StateFor(tr, s.jobs[i].pid))
      && (forall i, j | 0 <= i < j < |s.jobs| :: !(s.jobs[i].state == FG && s.jobs[j].state == FG))
      && (s.pc == Prompt ==> forall p | p in Pids(s.jobs) && p in tr.origins && tr.origins[p] :: p in tr.stops)
      && (s.pc.Test? || s.pc.Sleep? ==> s.pc.pid in tr.origins && tr.origins[s.pc.pid])
      && !s.missed
      && (s.handler.Got? ==> s.handler.pid in Pids(s.jobs))
      && (s.pc.Exited? ==> forall i | 0 <= i < |s.jobs| :: s.jobs[i].pid != 0)
      && IdsRestart(s)
  {
    hide Step, Can;
    InitInv(s0);
    RunInv(s0, events);
    RunObserved(s0, events, Trace(false, map[], {}));
    RunFull(s0, events);
    RunIds(s0, events);
    GotIsListed(Run(s0, events));
    PromptIsFree(Run(s0, events), Observed(s0, events, Trace(false, map[], {})));
    hide Pids, Observed;
  }

  lemma PromptIsFree(s: State, tr: Trace)
    requires Foreground(s) && JobsAsObserved(s, tr)
    ensures s.pc == Prompt ==> forall p | p in Pids(s.jobs) && p in tr.origins && tr.origins[p] :: p in tr.stops
  {
  }

  lemma GotIsListed(s: State)
    requires Inv(s)
    ensures s.handler.Got? ==> s.handler.pid in Pids(s.jobs)
  {
    hide Pids;
    if s.handler.Got? && !s.handler.dead {
      assert !s.pc.Forked? && !s.pc.Exited?;
      assert s.handler.pid in s.children.Keys;
    }
  }

  /** No lost wakeup: do_fg_job sleeps only while its job is in the foreground, its
      child is unreaped and no stop of it has been handled; if the child has exited
      or stopped meanwhile, the handler is due and will end the sleep. */
  lemma SleepsOnlyWhileNeeded(s0: State, events: seq<Event>)
    requires Init(s0) && Possible(s0, events)
    ensures var s := Run(s0, events);
      s.pc.Sleep? && s.handler == Off ==>
        && s.pc.slot < |s.jobs| && s.jobs[s.pc.slot] == Job(s.pc.pid, s.jobs[s.pc.slot].jid, FG)
        && s.pc.pid in s.children && s.children[s.pc.pid] != Stopped(true)
        && (s.children[s.pc.pid] != Running ==> Can(s, Deliver))
  {
    InitInv(s0);
    RunInv(s0, events);
    var s := Run(s0, events);
    hide Step, Can, Run, Possible;
    if s.pc.Sleep? && s.handler == Off {
      assert Waiting(s, s.pc.slot);
      ListedChild(s);
      if s.children[s.pc.pid] != Running {
        assert Reportable(s.children[s.pc.pid]);
        assert SomeReportable(s.children);
        CanDeliver(s);
      }
    }
  }

  lemma ListedChild(s: State)
    requires Matched(s) && s.pc.Sleep? && s.handler == Off
    requires s.pc.slot < |s.jobs| && s.jobs[s.pc.slot].pid == s.pc.pid && s.pc.pid > 0
    ensures s.pc.pid in s.children
  {
    assert s.pc.pid in Pids(s.jobs);
    hide Pids;
    assert s.pc.pid in s.children.Keys;
  }

  lemma CanDeliver(s: State)
    requires s.pending && s.handler == Off && s.pc.Sleep?
    ensures Can(s, Deliver)
  {
  }

  // ---- progress: every schedule comes back to the prompt ----

  /** A step of the shell or its handler; the other events come from outside. */
  predicate Internal(e: Event) {
    e.Main? || e.Deliver? || e.Reap? || e.Handle? || e.Return?
  }

  predicate OfHandler(e: Event) {
    e.Reap? || e.Handle? || e.Return?
  }

  ghost function Unreported(children: map<int, Status>): set<int> {
    set p | p in children && Reportable(children[p])
  }

  lemma ReapReports(s: State, p: int)
    requires Can(s, Reap(p))
    ensures Unreported(Step(s, Reap(p)).children) == Unreported(s.children) - {p}
    ensures |Unreported(Step(s, Reap(p)).children)| == |Unreported(s.children)| - 1
  {
    assert p in Unreported(s.children);
    assert Unreported(Step(s, Reap(p)).children) == Unreported(s.children) - {p};
  }

  /** Steps the handler still has to take: a Reap and a Handle for each child to report,
      and a Return. */
  ghost function HandlerWork(h: Handler, toReport: nat): (k: nat)
    ensures k > 0 <==> h != Off
  {
    match h
    case Off => 0
    case Wait => 2 * toReport + 1
    case Got(_, _) => 2 * toReport + 2
  }

  function MainWork(pc: Pc): nat {
    match pc
    case Forked(_, _) => 3
    case Test(_, _) => 2
    case Unblock => 1
    case _ => 0
  }

  /** A bound on the internal steps to come. */
  ghost function Rank(s: State): nat {
    var n := |Unreported(s.children)|;
    3 * (HandlerWork(s.handler, n) + if s.pending then HandlerWork(Wait, n) + 1 else 0) + MainWork(s.pc)
  }

  /** Every internal step lowers the rank: no schedule of them goes on forever. */
  lemma InternalStepWorks(s: State, e: Event)
    requires Can(s, e) && Internal(e)
    ensures Rank(Step(s, e)) < Rank(s)
    ensures OfHandler(e) ==>
              HandlerWork(Step(s, e).handler, |Unreported(Step(s, e).children)|)
              == HandlerWork(s.handler, |Unreported(s.children)|) - 1
  {
    if e.Reap? {
      ReapReports(s, e.child);
    }
    if e.Return? {
      NoneToReport(s.children);
    }
    hide Unreported, SlotOf, MaxJid, FgPid, Deleted, Added;
  }

  lemma NoneToReport(children: map<int, Status>)
    requires !SomeReportable(children)
    ensures Unreported(children) == {}
  {
    assert forall p | p in children :: !Reportable(children[p]);
  }

  // ---- the handler ----

  /** No child that had exited or stopped is running. */
  ghost predicate NoneResumed(was: map<int, Status>, now: map<int, Status>) {
    forall p | p in now && now[p] == Running :: p in was && was[p] == Running
  }

  lemma InternalResumesNone(s: State, e: Event)
    requires Can(s, e) && Internal(e)
    ensures NoneResumed(s.children, Step(s, e).children)
  {
    hide SlotOf, MaxJid, FgPid, Deleted, Added, SomeReportable;
  }

  /** Whatever the order in which children are reaped, the handler runs for no more than
      its work and can always take its next step until it has returned; when it has, no
      child is left to report. */
  lemma {:induction false} HandlerReturns(s: State, events: seq<Event>)
    requires Inv(s) && s.handler != Off && Possible(s, events)
    requires forall i | 0 <= i < |events| :: OfHandler(events[i])
    ensures |events| <= HandlerWork(s.handler, |Unreported(s.children)|)
    ensures var end := Run(s, events);
            && Inv(end) && NoneResumed(s.children, end.children)
            && if end.handler == Off then !SomeReportable(end.children)
               else exists e :: OfHandler(e) && Can(end, e)
    decreases |events|
  {
    hide Inv, Step, Can, Unreported, NoneResumed, SomeReportable;
    if events == [] {
      var e := HandlerMoves(s);
      ResumedRefl(s.children);
    } else {
      var e := events[0];
      assert OfHandler(e);
      StepInv(s, e);
      InternalStepWorks(s, e);
      InternalResumesNone(s, e);
      var next := Step(s, e);
      if next.handler == Off {
        Returned(s, e);
        NothingAfter(next, events[1..]);
      } else {
        assert forall i | 0 <= i < |events| - 1 :: events[1..][i] == events[i + 1];
        HandlerReturns(next, events[1..]);
        ResumedTrans(s.children, next.children, Run(next, events[1..]).children);
      }
    }
  }

  lemma HandlerMoves(s: State) returns (e: Event)
    requires s.handler != Off
    ensures OfHandler(e) && Can(s, e)
  {
    if s.handler.Got? {
      e := Handle;
    } else if SomeReportable(s.children) {
      var p :| p in s.children && Reportable(s.children[p]);
      e := Reap(p);
    } else {
      e := Return;
    }
  }

  lemma Returned(s: State, e: Event)
    requires Can(s, e) && OfHandler(e) && Step(s, e).handler == Off
    ensures !SomeReportable(Step(s, e).children)
  {
    hide SlotOf, MaxJid, FgPid, Deleted, Added;
  }

  lemma NothingAfter(s: State, events: seq<Event>)
    requires s.handler == Off && Possible(s, events)
    requires forall i | 0 <= i < |events| :: OfHandler(events[i])
    ensures events == [] && Run(s, events) == s
  {
    assert forall e | OfHandler(e) :: !Can(s, e);
  }

  lemma ResumedRefl(a: map<int, Status>)
    ensures NoneResumed(a, a)
  {
  }

  lemma ResumedTrans(a: map<int, Status>, b: map<int, Status>, c: map<int, Status>)
    requires NoneResumed(a, b) && NoneResumed(b, c)
    ensures NoneResumed(a, c)
  {
  }

  // ---- waking up ----

  /** do_fg_job is past its wait, or what it waits for has happened. */
  ghost predicate Due(s: State) {
    || s.pc == Prompt || s.pc == Unblock
    || ((s.pc.Test? || s.pc.Sleep?) && (s.pc.pid in s.children ==> s.children[s.pc.pid] != Running))
  }

  lemma DueStep(s: State, e: Event)
    requires Due(s) && Can(s, e) && Internal(e)
    ensures Due(Step(s, e))
  {
    InternalResumesNone(s, e);
    hide SlotOf, MaxJid, FgPid, Deleted, Added, SomeReportable;
  }

  /** Once the child it waits for has exited or stopped, do_fg_job is brought back to the
      prompt by every schedule of the handler's and its own steps: there are at most Rank
      of them, and until the prompt is reached there always is a next one. */
  lemma {:induction false} EveryScheduleWakes(s: State, events: seq<Event>)
    requires Inv(s) && Due(s) && Possible(s, events)
    requires forall i | 0 <= i < |events| :: Internal(events[i])
    ensures |events| <= Rank(s)
    ensures var end := Run(s, events);
            Inv(end) && Due(end) && (end.pc == Prompt || exists e :: Internal(e) && Can(end, e))
    decreases |events|
  {
    hide Inv, Step, Can, Due, Rank;
    if events == [] {
      if s.pc != Prompt {
        var e := Moves(s);
      }
    } else {
      var e := events[0];
      assert Internal(e);
      StepInv(s, e);
      DueStep(s, e);
      InternalStepWorks(s, e);
      assert forall i | 0 <= i < |events| - 1 :: events[1..][i] == events[i + 1];
      EveryScheduleWakes(Step(s, e), events[1..]);
    }
  }

  /** The next step before the prompt. */
  lemma Moves(s: State) returns (e: Event)
    requires Inv(s) && Due(s) && s.pc != Prompt
    ensures Internal(e) && Can(s, e)
  {
    hide TableOk, Pids, FgPid, SlotOf, MaxJid;
    if s.pc.Unblock? || s.pc.Test? {
      e := Main;
    } else if s.handler != Off {
      e := HandlerMoves(s);
    } else {
      e := Deliver;
      SleepIsDue(s);
    }
  }

  lemma SleepIsDue(s: State)
    requires Inv(s) && Due(s) && s.pc.Sleep? && s.handler == Off
    ensures s.pending
  {
    hide FgPid, SlotOf, MaxJid;
    assert Waiting(s, s.pc.slot);
    ListedChild(s);
    hide Pids, TableOk;
    assert Reportable(s.children[s.pc.pid]);
  }

  /** In particular some schedule gets there. */
  lemma {:induction false} WakesUp(s: State) returns (events: seq<Event>)
    requires Inv(s) && Due(s)
    ensures Possible(s, events) && Run(s, events).pc == Prompt && Inv(Run(s, events))
    decreases Rank(s)
  {
    hide Inv, Step, Can, Due, Rank;
    if s.pc == Prompt {
      events := [];
    } else {
      var e := Moves(s);
      StepInv(s, e);
      DueStep(s, e);
      InternalStepWorks(s, e);
      var rest := WakesUp(Step(s, e));
      events := [e] + rest;
      assert events[0] == e && events[1..] == rest;
    }
  }
}
