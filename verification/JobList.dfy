/** The job table of tsh.c: sixteen slots searched and updated in place. */
module JobList {

  const MAXJOBS: nat := 16

  datatype JobState = UNDEF | FG | BG | ST

  datatype Job = Job(pid: int, jid: int, state: JobState)

  const NO_JOB := Job(0, 0, UNDEF)

  // ---- what the table means ----

  /** Live slots name distinct processes; the other slots are clear. */
  ghost predicate TableOk(jobs: seq<Job>) {
    && |jobs| == MAXJOBS
    && (forall i | 0 <= i < |jobs| :: jobs[i].pid >= 0 && jobs[i].jid >= 0)
    && (forall i | 0 <= i < |jobs| && jobs[i].pid == 0 :: jobs[i] == NO_JOB)
    && (forall i | 0 <= i < |jobs| && jobs[i].pid != 0 :: jobs[i].state != UNDEF)
    && (forall i, j | 0 <= i < j < |jobs| && jobs[i].pid != 0 :: jobs[i].pid != jobs[j].pid)
  }

  ghost function Pids(jobs: seq<Job>): set<int> {
    set i | 0 <= i < |jobs| && jobs[i].pid != 0 :: jobs[i].pid
  }

  /** The slot of pid, or |jobs|; with pid 0, the first free slot. */
  function SlotOf(jobs: seq<Job>, pid: int): (i: nat)
    ensures i <= |jobs|
    ensures i < |jobs| ==> jobs[i].pid == pid
    ensures forall j | 0 <= j < i :: jobs[j].pid != pid
  {
    if jobs == [] || jobs[0].pid == pid then 0 else 1 + SlotOf(jobs[1..], pid)
  }

  function MaxJid(jobs: seq<Job>): (m: int)
    ensures m >= 0 && forall i | 0 <= i < |jobs| :: jobs[i].jid <= m
    ensures m == 0 || exists i :: 0 <= i < |jobs| && jobs[i].jid == m
  {
    if jobs == [] then 0
    else
      var last := |jobs| - 1;
      var m := MaxJid(jobs[..last]);
      assert forall i | 0 <= i < last :: jobs[..last][i] == jobs[i];
      if jobs[last].jid > m then jobs[last].jid else m
  }

  /** fgpid: the process of the first foreground slot, 0 when there is none. */
  function FgPid(jobs: seq<Job>): (pid: int)
    ensures (forall i | 0 <= i < |jobs| :: jobs[i].state != FG) ==> pid == 0
    ensures (exists i :: 0 <= i < |jobs| && jobs[i].state == FG) ==>
              exists i :: 0 <= i < |jobs| && jobs[i].state == FG && jobs[i].pid == pid
  {
    if jobs == [] then 0
    else if jobs[0].state == FG then jobs[0].pid
    else
      assert forall i | 1 <= i < |jobs| :: jobs[i] == jobs[1..][i - 1];
      FgPid(jobs[1..])
  }

  function NextJid(nextjid: int): int {
    if nextjid + 1 > MAXJOBS then 1 else nextjid + 1
  }

  /** addjob on a table with room. */
  function Added(jobs: seq<Job>, nextjid: int, pid: int, state: JobState): seq<Job>
    requires SlotOf(jobs, 0) < |jobs|
  {
    jobs[SlotOf(jobs, 0) := Job(pid, nextjid, state)]
  }

  /** deletejob of a listed process. */
  function Deleted(jobs: seq<Job>, pid: int): seq<Job>
    requires SlotOf(jobs, pid) < |jobs|
  {
    jobs[SlotOf(jobs, pid) := NO_JOB]
  }

  /** Adding gives the new process a slot and leaves the rest of the table alone. */
  lemma AddedOk(jobs: seq<Job>, nextjid: int, pid: int, state: JobState)
    requires TableOk(jobs) && SlotOf(jobs, 0) < |jobs|
    requires pid > 0 && pid !in Pids(jobs) && state != UNDEF && nextjid >= 0
    ensures TableOk(Added(jobs, nextjid, pid, state))
    ensures Pids(Added(jobs, nextjid, pid, state)) == Pids(jobs) + {pid}
    ensures SlotOf(Added(jobs, nextjid, pid, state), pid) == SlotOf(jobs, 0)
  {
    var k := SlotOf(jobs, 0);
    var after := Added(jobs, nextjid, pid, state);
    hide SlotOf;
    forall p | p in Pids(jobs) ensures p in Pids(after) {
      var i :| 0 <= i < |jobs| && jobs[i].pid != 0 && jobs[i].pid == p;
      assert after[i].pid == p;
    }
    assert after[k].pid == pid;
    SlotUnique(after, pid, k);
  }

  /** A process listed twice, or a live slot without a state, breaks the table. */
  lemma AddedOkIff(jobs: seq<Job>, nextjid: int, pid: int, state: JobState)
    requires TableOk(jobs) && SlotOf(jobs, 0) < |jobs| && pid > 0 && nextjid >= 0
    ensures TableOk(Added(jobs, nextjid, pid, state)) <==> state != UNDEF && pid !in Pids(jobs)
  {
    if state != UNDEF && pid !in Pids(jobs) {
      AddedOk(jobs, nextjid, pid, state);
    }
    var k := SlotOf(jobs, 0);
    var after := Added(jobs, nextjid, pid, state);
    hide SlotOf;
    assert after[k] == Job(pid, nextjid, state);
    if pid in Pids(jobs) {
      var i :| 0 <= i < |jobs| && jobs[i].pid != 0 && jobs[i].pid == pid;
      assert after[i] == jobs[i] && i != k;
      assert !TableOk(after) by {
        assert after[if i < k then i else k].pid == after[if i < k then k else i].pid;
      }
    }
  }

  lemma SlotUnique(jobs: seq<Job>, pid: int, k: nat)
    requires TableOk(jobs) && k < |jobs| && jobs[k].pid == pid && pid != 0
    ensures SlotOf(jobs, pid) == k
  {
    var i := SlotOf(jobs, pid);
    hide SlotOf;
  }

  lemma ListedSlot(jobs: seq<Job>, pid: int)
    requires TableOk(jobs) && pid != 0
    ensures pid in Pids(jobs) <==> SlotOf(jobs, pid) < |jobs|
  {
    hide SlotOf;
    if pid in Pids(jobs) {
      var i :| 0 <= i < |jobs| && jobs[i].pid != 0 && jobs[i].pid == pid;
    }
  }

  /** Deleting clears exactly the slot of the process. */
  lemma DeletedOk(jobs: seq<Job>, pid: int)
    requires TableOk(jobs) && pid in Pids(jobs)
    ensures SlotOf(jobs, pid) < |jobs| && TableOk(Deleted(jobs, pid))
    ensures Pids(Deleted(jobs, pid)) == Pids(jobs) - {pid}
  {
    ListedSlot(jobs, pid);
    var k := SlotOf(jobs, pid);
    var after := Deleted(jobs, pid);
    hide SlotOf;
    forall p | p in Pids(jobs) && p != pid ensures p in Pids(after) {
      var i :| 0 <= i < |jobs| && jobs[i].pid != 0 && jobs[i].pid == p;
      assert after[i].pid == p;
    }
  }

  ghost predicate JidsDistinct(jobs: seq<Job>) {
    forall i, j | 0 <= i < j < |jobs| && jobs[i].pid != 0 && jobs[j].pid != 0 :: jobs[i].jid != jobs[j].jid
  }

  /** The ids count up by one to MAXJOBS and then start again. */
  lemma IdsCountUp(nextjid: int)
    ensures nextjid < MAXJOBS ==> NextJid(nextjid) == nextjid + 1
    ensures nextjid >= MAXJOBS ==> NextJid(nextjid) == 1
  {
  }

  /** Live job ids stay distinct exactly when nextjid is not in use. */
  lemma JidsStayDistinct(jobs: seq<Job>, nextjid: int, pid: int, state: JobState)
    requires TableOk(jobs) && SlotOf(jobs, 0) < |jobs| && pid > 0 && JidsDistinct(jobs)
    ensures JidsDistinct(Added(jobs, nextjid, pid, state))
       <==> forall i | 0 <= i < |jobs| && jobs[i].pid != 0 :: jobs[i].jid != nextjid
    ensures NextJid(MAXJOBS) == 1
  {
    var k := SlotOf(jobs, 0);
    var after := Added(jobs, nextjid, pid, state);
    hide SlotOf, TableOk;
    assert after[k] == Job(pid, nextjid, state) && forall i | 0 <= i < |jobs| && i != k :: after[i] == jobs[i];
    if i :| 0 <= i < |jobs| && jobs[i].pid != 0 && jobs[i].jid == nextjid {
      assert i != k && after[i] == jobs[i];
      assert !JidsDistinct(after) by {
        assert after[if i < k then i else k].jid == after[if i < k then k else i].jid;
      }
    }
  }

  /** Nothing guarantees that: with jobs 1 and 16 left after a deletion, the next job is
      17, the id after it wraps to 1, and the job after that is a second job 1. */
  lemma JobIdRepeats(t: seq<Job>, first: seq<Job>)
    requires t == [Job(101, 1, BG)] + seq(14, _ => NO_JOB) + [Job(116, 16, BG)]
    requires first == [Job(101, 1, BG), Job(117, 17, BG)] + seq(13, _ => NO_JOB) + [Job(116, 16, BG)]
    ensures TableOk(t) && JidsDistinct(t) && MaxJid(t) + 1 == 17
    ensures SlotOf(t, 0) == 1 && Added(t, 17, 117, BG) == first && NextJid(17) == 1
    ensures SlotOf(first, 0) == 2 && !JidsDistinct(Added(first, 1, 118, BG))
  {
    var m, k, n := MaxJid(t), SlotOf(t, 0), SlotOf(first, 0);
    hide MaxJid, SlotOf;
    assert t[0].pid == 101 && t[1].pid == 0 && first[0].pid == 101;
    assert t[15].jid == 16 && first[1].pid == 117 && first[2].pid == 0;
    assert k == 1 && n == 2;
    assert Added(t, 17, 117, BG) == first;
    var second := Added(first, 1, 118, BG);
    assert second[0].jid == 1 && second[2].jid == 1;
  }

  // ---- the table in place ----

  class JobTable {
    const jobList: array<Job>
    var nextjid: int

    ghost predicate Valid()
      reads this, jobList
    {
      TableOk(jobList[..]) && nextjid >= 1
    }

    /** initjobs */
    constructor ()
      ensures Valid() && Pids(jobList[..]) == {} && nextjid == 1 && fresh(jobList)
    {
      jobList := new Job[MAXJOBS](_ => NO_JOB);
      nextjid := 1;
    }

    /** addjob: the first free slot, or 0 when pid is invalid or the table is full. */
    method AddJob(pid: int, state: JobState) returns (r: int)
      requires Valid()
      modifies this`nextjid, jobList
      ensures nextjid >= 1
      ensures Valid() <==> r != 1 || (state != UNDEF && pid !in Pids(old(jobList[..])))
      ensures r == 1 <==> pid >= 1 && SlotOf(old(jobList[..]), 0) < MAXJOBS
      ensures r == 1 ==> jobList[..] == Added(old(jobList[..]), old(nextjid), pid, state)
                         && nextjid == NextJid(old(nextjid))
      ensures r != 1 ==> r == 0 && jobList[..] == old(jobList[..]) && nextjid == old(nextjid)
    {
      if pid < 1 {
        return 0;
      }
      ghost var was := jobList[..];
      var i := 0;
      while i < MAXJOBS
        invariant 0 <= i <= MAXJOBS
        invariant forall j | 0 <= j < i :: jobList[j].pid != 0
        invariant jobList[..] == was && nextjid == old(nextjid)
      {
        if jobList[i].pid == 0 {
          FirstSlot(was, 0, i);
          AddedOkIff(was, nextjid, pid, state);
          jobList[i] := Job(pid, nextjid, state);
          nextjid := nextjid + 1;
          if nextjid > MAXJOBS {
            nextjid := 1;
          }
          assert jobList[..] == was[i := Job(pid, old(nextjid), state)];
          return 1;
        }
        i := i + 1;
      }
      r := 0;
      NoSlot(was, 0);
    }

    /** Into an empty table the first jobs go in order, with ids from 1. */
    method AddFirst(pids: seq<int>, state: JobState)
      requires Valid() && Pids(jobList[..]) == {} && nextjid == 1 && state != UNDEF && |pids| <= MAXJOBS
      requires forall i | 0 <= i < |pids| :: pids[i] > 0
      requires forall i, j | 0 <= i < j < |pids| :: pids[i] != pids[j]
      modifies this`nextjid, jobList
      ensures Valid()
      ensures forall i | 0 <= i < |pids| :: jobList[i] == Job(pids[i], i + 1, state)
      ensures forall i | |pids| <= i < MAXJOBS :: jobList[i] == NO_JOB
      ensures nextjid == if |pids| < MAXJOBS then |pids| + 1 else 1
    {
      EmptyTable(jobList[..]);
      for k := 0 to |pids|
        invariant Valid() && nextjid == if k < MAXJOBS then k + 1 else 1
        invariant forall i | 0 <= i < k :: jobList[i] == Job(pids[i], i + 1, state)
        invariant forall i | k <= i < MAXJOBS :: jobList[i] == NO_JOB
      {
        ghost var was := jobList[..];
        FirstSlot(was, 0, k);
        assert pids[k] !in Pids(was);
        var r := AddJob(pids[k], state);
        assert jobList[..] == was[k := Job(pids[k], k + 1, state)];
        assert forall i | 0 <= i < MAXJOBS :: jobList[i] == jobList[..][i];
      }
    }

    /** When each job ends only after the next has been added, the ids never start again,
        however many jobs there are. */
    method AddOverlapping(pids: seq<int>, state: JobState)
      requires Valid() && Pids(jobList[..]) == {} && nextjid == 1 && state != UNDEF && pids != []
      requires forall i | 0 <= i < |pids| :: pids[i] > 0
      requires forall i | 0 <= i < |pids| - 1 :: pids[i] != pids[i + 1]
      modifies this`nextjid, jobList
      ensures Valid()
      ensures OnlyJob(jobList[..], (|pids| - 1) % 2, Job(pids[|pids| - 1], |pids|, state))
      ensures nextjid == |pids| + 1
    {
      hide SlotOf, Pids, MaxJid, OnlyJob, TableOk, Added, Deleted;
      FirstOnly(jobList[..], Job(pids[0], 1, state));
      var r := AddJob(pids[0], state);
      for k := 1 to |pids|
        invariant Valid() && nextjid == k + 1
        invariant OnlyJob(jobList[..], (k - 1) % 2, Job(pids[k - 1], k, state))
      {
        Overlapped(jobList[..], (k - 1) % 2, Job(pids[k - 1], k, state), Job(pids[k], k + 1, state));
        r := AddJob(pids[k], state);
        r := DeleteJob(pids[k - 1]);
      }
    }

    /** deletejob: clears the slot of pid and restarts the job ids above those left. */
    method DeleteJob(pid: int) returns (r: int)
      requires Valid()
      modifies this`nextjid, jobList
      ensures Valid()
      ensures r == 1 <==> pid >= 1 && pid in Pids(old(jobList[..]))
      ensures r == 1 ==> SlotOf(old(jobList[..]), pid) < MAXJOBS && jobList[..] == Deleted(old(jobList[..]), pid)
                         && nextjid == MaxJid(jobList[..]) + 1
      ensures r != 1 ==> r == 0 && jobList[..] == old(jobList[..]) && nextjid == old(nextjid)
    {
      if pid < 1 {
        return 0;
      }
      ghost var was := jobList[..];
      ListedSlot(was, pid);
      var i := 0;
      while i < MAXJOBS
        invariant 0 <= i <= MAXJOBS
        invariant forall j | 0 <= j < i :: jobList[j].pid != pid
        invariant jobList[..] == was && nextjid == old(nextjid)
      {
        if jobList[i].pid == pid {
          FirstSlot(was, pid, i);
          DeletedOk(was, pid);
          jobList[i] := NO_JOB;
          assert jobList[..] == was[i := NO_JOB];
          var m := FindMaxJid();
          nextjid := m + 1;
          return 1;
        }
        i := i + 1;
      }
      NoSlot(was, pid);
      r := 0;
    }

    /** maxjid */
    method FindMaxJid() returns (max: int)
      requires jobList.Length == MAXJOBS
      ensures max == MaxJid(jobList[..])
    {
      max := 0;
      var i := 0;
      while i < MAXJOBS
        invariant 0 <= i <= MAXJOBS
        invariant max == MaxJid(jobList[..i])
      {
        assert jobList[..i + 1][..i] == jobList[..i];
        if jobList[i].jid > max {
          max := jobList[i].jid;
        }
        i := i + 1;
      }
      assert jobList[..MAXJOBS] == jobList[..];
    }

    /** fgpid */
    method FindFgPid() returns (pid: int)
      requires jobList.Length == MAXJOBS
      ensures pid == FgPid(jobList[..])
    {
      var i := 0;
      while i < MAXJOBS
        invariant 0 <= i <= MAXJOBS
        invariant FgPid(jobList[i..]) == FgPid(jobList[..])
      {
        assert jobList[i..][1..] == jobList[i + 1..];
        if jobList[i].state == FG {
          return jobList[i].pid;
        }
        i := i + 1;
      }
      pid := 0;
    }

    /** getjobpid, as the slot number; -1 for NULL. */
    method GetJobPid(pid: int) returns (slot: int)
      requires Valid()
      ensures slot == if pid >= 1 && pid in Pids(jobList[..]) then SlotOf(jobList[..], pid) else -1
    {
      if pid < 1 {
        return -1;
      }
      ListedSlot(jobList[..], pid);
      var i := 0;
      while i < MAXJOBS
        invariant 0 <= i <= MAXJOBS
        invariant forall j | 0 <= j < i :: jobList[j].pid != pid
      {
        if jobList[i].pid == pid {
          FirstSlot(jobList[..], pid, i);
          return i;
        }
        i := i + 1;
      }
      NoSlot(jobList[..], pid);
      slot := -1;
    }
  }

  lemma EmptyTable(jobs: seq<Job>)
    requires TableOk(jobs) && Pids(jobs) == {}
    ensures forall i | 0 <= i < |jobs| :: jobs[i] == NO_JOB
  {
    assert forall i | 0 <= i < |jobs| && jobs[i].pid != 0 :: jobs[i].pid in Pids(jobs);
  }

  /** The table has one job, in slot k. */
  ghost predicate OnlyJob(jobs: seq<Job>, k: nat, job: Job) {
    |jobs| == MAXJOBS && k < MAXJOBS && job.pid > 0 && jobs == seq(MAXJOBS, i => if i == k then job else NO_JOB)
  }

  lemma FirstOnly(jobs: seq<Job>, job: Job)
    requires TableOk(jobs) && Pids(jobs) == {} && job.pid > 0
    ensures SlotOf(jobs, 0) == 0 && OnlyJob(Added(jobs, job.jid, job.pid, job.state), 0, job)
  {
    EmptyTable(jobs);
    FirstSlot(jobs, 0, 0);
  }

  /** One job behind the other. */
  lemma Overlapped(jobs: seq<Job>, k: nat, was: Job, next: Job)
    requires OnlyJob(jobs, k, was) && k < 2 && next.pid > 0 && next.pid != was.pid && next.jid >= 0
    ensures SlotOf(jobs, 0) == 1 - k && Pids(jobs) == {was.pid}
    ensures var both := Added(jobs, next.jid, next.pid, next.state);
      && Pids(both) == {was.pid, next.pid} && SlotOf(both, was.pid) == k
      && OnlyJob(Deleted(both, was.pid), 1 - k, next) && MaxJid(Deleted(both, was.pid)) == next.jid
  {
    FirstSlot(jobs, 0, 1 - k);
    assert jobs[k].pid == was.pid;
    var both := Added(jobs, next.jid, next.pid, next.state);
    assert both == jobs[1 - k := next];
    FirstSlot(both, was.pid, k);
    assert both[k].pid == was.pid && both[1 - k].pid == next.pid;
    var after := Deleted(both, was.pid);
    assert after[1 - k].jid == next.jid;
    hide SlotOf, MaxJid;
  }

  lemma FirstSlot(jobs: seq<Job>, pid: int, i: nat)
    requires i < |jobs| && jobs[i].pid == pid && forall j | 0 <= j < i :: jobs[j].pid != pid
    ensures SlotOf(jobs, pid) == i
  {
    var k := SlotOf(jobs, pid);
    hide SlotOf;
  }

  lemma NoSlot(jobs: seq<Job>, pid: int)
    requires forall j | 0 <= j < |jobs| :: jobs[j].pid != pid
    ensures SlotOf(jobs, pid) == |jobs|
  {
    var k := SlotOf(jobs, pid);
    hide SlotOf;
  }
}
