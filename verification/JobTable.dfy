/**
  The job table of tsh.c: 16 slots, a pid of 0 marking a free one. Searches go up from slot 0; MAXJOBS stands for
  the NULL that the C lookups return.
 */
module JobTable {
  const MAXJOBS: nat := 16

  datatype JobState = Undef | Fg | Bg | St

  datatype Job = Job(pid: int, jid: int, state: JobState, cmdline: string)

  const EMPTY := Job(0, 0, Undef, "")

  // ----- the table as a sequence -----

  function FindPid(jobs: seq<Job>, pid: int, i: nat): (r: nat)
    requires i <= |jobs|
    ensures i <= r <= |jobs| && (r < |jobs| ==> jobs[r].pid == pid)
    ensures forall j :: i <= j < r ==> jobs[j].pid != pid
    decreases |jobs| - i
  {
    if i == |jobs| || jobs[i].pid == pid then i else FindPid(jobs, pid, i + 1)
  }

  function FindJid(jobs: seq<Job>, jid: int, i: nat): (r: nat)
    requires i <= |jobs|
    ensures i <= r <= |jobs| && (r < |jobs| ==> jobs[r].jid == jid)
    ensures forall j :: i <= j < r ==> jobs[j].jid != jid
    decreases |jobs| - i
  {
    if i == |jobs| || jobs[i].jid == jid then i else FindJid(jobs, jid, i + 1)
  }

  function FindState(jobs: seq<Job>, state: JobState, i: nat): (r: nat)
    requires i <= |jobs|
    ensures i <= r <= |jobs| && (r < |jobs| ==> jobs[r].state == state)
    ensures forall j :: i <= j < r ==> jobs[j].state != state
    decreases |jobs| - i
  {
    if i == |jobs| || jobs[i].state == state then i else FindState(jobs, state, i + 1)
  }

  // The largest jid of the first n slots, at least 0.
  function MaxJid(jobs: seq<Job>, n: nat): (r: nat)
    requires n <= |jobs|
    ensures forall j :: 0 <= j < n ==> jobs[j].jid <= r
    ensures r == 0 || exists j :: 0 <= j < n && jobs[j].jid == r
  {
    if n == 0 then 0
    else
      var max := MaxJid(jobs, n - 1);
      if jobs[n - 1].jid > max then jobs[n - 1].jid else max
  }

  // The job id after the largest in use, 1 if there is no job.
  ghost predicate NextAfter(jobs: seq<Job>, nextjid: int) {
    && 1 <= nextjid
    && (forall j :: 0 <= j < |jobs| ==> jobs[j].jid < nextjid)
    && (nextjid == 1 || exists j :: 0 <= j < |jobs| && jobs[j].jid == nextjid - 1)
  }

  // The first slot that holds the pid.
  ghost predicate FirstAt(jobs: seq<Job>, pid: int, i: int) {
    0 <= i < |jobs| && jobs[i].pid == pid && forall j :: 0 <= j < i ==> jobs[j].pid != pid
  }

  datatype Table = Table(jobs: seq<Job>, nextjid: int)

  function Add(t: Table, pid: int, state: JobState, cmdline: string): Table {
    var i := FindPid(t.jobs, 0, 0);
    if pid < 1 || i == |t.jobs| then t
    else Table(t.jobs[i := Job(pid, t.nextjid, state, cmdline)], if t.nextjid + 1 > MAXJOBS then 1 else t.nextjid + 1)
  }

  function Delete(t: Table, pid: int): Table {
    var i := FindPid(t.jobs, pid, 0);
    if pid < 1 || i == |t.jobs| then t
    else
      var jobs := t.jobs[i := EMPTY];
      Table(jobs, MaxJid(jobs, |jobs|) + 1)
  }

  // ----- what the sequence functions mean -----

  ghost predicate SlotOk(jobs: seq<Job>, i: nat) {
    i < |jobs| ==>
      && jobs[i].pid >= 0 && jobs[i].jid >= 0 && (jobs[i].pid == 0 <==> jobs[i].jid == 0)
      && (jobs[i].pid == 0 ==> jobs[i].state != St)
  }

  ghost predicate PidsDiffer(jobs: seq<Job>, i: nat, j: nat) {
    i < |jobs| && j < |jobs| && i != j && jobs[i].pid != 0 ==> jobs[i].pid != jobs[j].pid
  }

  // A slot has a jid exactly when it is taken, and no pid is in two slots.
  ghost predicate TableOk(t: Table) {
    && |t.jobs| == MAXJOBS && t.nextjid >= 1
    && (forall i {:trigger SlotOk(t.jobs, i)} :: SlotOk(t.jobs, i))
    && (forall i, j {:trigger PidsDiffer(t.jobs, i, j)} :: PidsDiffer(t.jobs, i, j))
  }

  ghost function Pids(jobs: seq<Job>): set<int> {
    set i | 0 <= i < |jobs| && jobs[i].pid != 0 :: jobs[i].pid
  }

  lemma AddAddsPid(t: Table, pid: int, state: JobState, cmdline: string)
    requires TableOk(t) && pid >= 1 && pid !in Pids(t.jobs) && |Pids(t.jobs)| < MAXJOBS
    ensures TableOk(Add(t, pid, state, cmdline)) && Pids(Add(t, pid, state, cmdline).jobs) == Pids(t.jobs) + {pid}
    ensures var i := FindPid(t.jobs, 0, 0);
      i < MAXJOBS && Add(t, pid, state, cmdline).jobs == t.jobs[i := Job(pid, t.nextjid, state, cmdline)]
    ensures Add(t, pid, state, cmdline).nextjid == if t.nextjid < 16 then t.nextjid + 1 else 1
  {
    HasFreeSlot(t);
    var n := Add(t, pid, state, cmdline);
    var i := FindPid(t.jobs, 0, 0);
    forall j: nat ensures SlotOk(n.jobs, j) { assert SlotOk(t.jobs, j); }
    forall j: nat, k: nat ensures PidsDiffer(n.jobs, j, k) { assert PidsDiffer(t.jobs, j, k); }
    forall q | q in Pids(t.jobs) + {pid} ensures q in Pids(n.jobs) {
      var j :| 0 <= j < |t.jobs| && (if q == pid then j == i else t.jobs[j].pid == q);
      assert n.jobs[j].pid == q && q != 0;
    }
  }

  lemma HasFreeSlot(t: Table)
    requires TableOk(t) && |Pids(t.jobs)| < MAXJOBS
    ensures FindPid(t.jobs, 0, 0) < MAXJOBS
  {
    if FindPid(t.jobs, 0, 0) == MAXJOBS {
      FullTable(t, MAXJOBS);
    }
  }

  ghost function PidsBelow(jobs: seq<Job>, n: nat): set<int>
    requires n <= |jobs|
  {
    set i | 0 <= i < n && jobs[i].pid != 0 :: jobs[i].pid
  }

  lemma {:induction false} FullTable(t: Table, n: nat)
    requires TableOk(t) && n <= MAXJOBS && (forall j :: 0 <= j < n ==> t.jobs[j].pid != 0)
    ensures |PidsBelow(t.jobs, n)| == n
    ensures n == MAXJOBS ==> PidsBelow(t.jobs, n) == Pids(t.jobs)
  {
    if n > 0 {
      FullTable(t, n - 1);
      var p := t.jobs[n - 1].pid;
      forall i: nat | i < n - 1 ensures t.jobs[i].pid != p { assert PidsDiffer(t.jobs, i, n - 1); }
      assert PidsBelow(t.jobs, n) == PidsBelow(t.jobs, n - 1) + {p};
    }
  }

  lemma DeleteRemovesPid(t: Table, pid: int)
    requires TableOk(t) && pid >= 1
    ensures TableOk(Delete(t, pid)) && Pids(Delete(t, pid).jobs) == Pids(t.jobs) - {pid}
    ensures forall i :: 0 <= i < MAXJOBS ==> Delete(t, pid).jobs[i] == if t.jobs[i].pid == pid then EMPTY else t.jobs[i]
    ensures var n := Delete(t, pid);
      if pid in Pids(t.jobs) then NextAfter(n.jobs, n.nextjid) else n.nextjid == t.nextjid
  {
    var n := Delete(t, pid);
    var i := FindPid(t.jobs, pid, 0);
    forall j: nat ensures SlotOk(n.jobs, j) { assert SlotOk(t.jobs, j); }
    forall j: nat, k: nat ensures PidsDiffer(n.jobs, j, k) { assert PidsDiffer(t.jobs, j, k); }
    forall j: nat | j < MAXJOBS ensures n.jobs[j] == if t.jobs[j].pid == pid then EMPTY else t.jobs[j] {
      assert i < MAXJOBS ==> PidsDiffer(t.jobs, i, j);
    }
    forall q | q in Pids(t.jobs) - {pid} ensures q in Pids(n.jobs) {
      var j :| 0 <= j < |t.jobs| && t.jobs[j].pid == q;
      assert n.jobs[j].pid == q;
    }
  }

  // maxjid is the test "is there any job".
  lemma MaxJidTestsEmpty(t: Table)
    requires TableOk(t)
    ensures MaxJid(t.jobs, MAXJOBS) == 0 <==> Pids(t.jobs) == {}
  {
    forall i: nat | i < MAXJOBS ensures t.jobs[i].pid != 0 ==> t.jobs[i].pid in Pids(t.jobs) && t.jobs[i].jid >= 1 {
      assert SlotOk(t.jobs, i);
    }
    forall i: nat | i < MAXJOBS ensures t.jobs[i].pid == 0 ==> t.jobs[i].jid == 0 { assert SlotOk(t.jobs, i); }
  }

  lemma FindPidTestsMember(jobs: seq<Job>, pid: int)
    requires pid >= 1
    ensures FindPid(jobs, pid, 0) < |jobs| <==> pid in Pids(jobs)
  {
    var i := FindPid(jobs, pid, 0);
    assert i < |jobs| ==> jobs[i].pid in Pids(jobs);
  }

  lemma StateKeepsTable(t: Table, i: nat, state: JobState)
    requires TableOk(t) && i < MAXJOBS && (t.jobs[i].pid == 0 ==> state != St)
    ensures var n := t.(jobs := t.jobs[i := t.jobs[i].(state := state)]); TableOk(n) && Pids(n.jobs) == Pids(t.jobs)
  {
    var n := t.(jobs := t.jobs[i := t.jobs[i].(state := state)]);
    forall j: nat ensures SlotOk(n.jobs, j) { assert SlotOk(t.jobs, j); }
    forall j: nat, k: nat ensures PidsDiffer(n.jobs, j, k) { assert PidsDiffer(t.jobs, j, k); }
    forall q | q in Pids(t.jobs) ensures q in Pids(n.jobs) {
      var j :| 0 <= j < |t.jobs| && t.jobs[j].pid == q;
      assert n.jobs[j].pid == q;
    }
    forall q | q in Pids(n.jobs) ensures q in Pids(t.jobs) {
      var j :| 0 <= j < |n.jobs| && n.jobs[j].pid == q && q != 0;
      assert t.jobs[j].pid == q;
    }
  }

  ghost predicate JidsDiffer(jobs: seq<Job>, i: nat, j: nat) {
    i < |jobs| && j < |jobs| && i != j && jobs[i].pid != 0 ==> jobs[i].jid != jobs[j].jid
  }

  // No two jobs have the same job id.
  ghost predicate JidsUnique(jobs: seq<Job>) {
    forall i, j {:trigger JidsDiffer(jobs, i, j)} :: JidsDiffer(jobs, i, j)
  }

  // A new job gets an id of its own exactly if nextjid is not in use, and after deletejob it is not.
  lemma AddUnique(t: Table, pid: int, state: JobState, cmdline: string)
    requires TableOk(t) && pid >= 1 && pid !in Pids(t.jobs) && |Pids(t.jobs)| < MAXJOBS && JidsUnique(t.jobs)
    ensures JidsUnique(Add(t, pid, state, cmdline).jobs) <==> forall i :: 0 <= i < MAXJOBS ==> t.jobs[i].jid != t.nextjid
    ensures NextAfter(t.jobs, t.nextjid) ==> JidsUnique(Add(t, pid, state, cmdline).jobs)
  {
    AddAddsPid(t, pid, state, cmdline);
    var n, f := Add(t, pid, state, cmdline).jobs, FindPid(t.jobs, 0, 0);
    forall i: nat | i < MAXJOBS ensures t.jobs[i].jid == t.nextjid ==> i != f && n[i] == t.jobs[i] && !JidsDiffer(n, f, i) {
      assert SlotOk(t.jobs, i);
    }
    if forall i :: 0 <= i < MAXJOBS ==> t.jobs[i].jid != t.nextjid {
      forall i: nat, j: nat ensures JidsDiffer(n, i, j) { assert JidsDiffer(t.jobs, i, j) && SlotOk(t.jobs, i) && SlotOk(t.jobs, j); }
    }
  }

  // ----- the table in place -----

  class Jobs {
    const jobs: array<Job>
    var nextjid: int

    ghost predicate Valid() {
      jobs.Length == MAXJOBS
    }

    ghost function Contents(): Table
      reads this, jobs
    {
      Table(jobs[..], nextjid)
    }

    constructor ()
      ensures Valid() && fresh(jobs) && TableOk(Contents()) && Pids(jobs[..]) == {}
      ensures (forall i :: 0 <= i < MAXJOBS ==> jobs[i] == EMPTY) && nextjid == 1
    {
      jobs := new Job[MAXJOBS](_ => EMPTY);
      nextjid := 1;
      new;
      InitJobs();
      forall i: nat ensures SlotOk(jobs[..], i) {}
      forall i: nat, j: nat ensures PidsDiffer(jobs[..], i, j) {}
    }

    method InitJobs()
      requires Valid()
      modifies jobs
      ensures forall i :: 0 <= i < MAXJOBS ==> jobs[i] == EMPTY
    {
      for i := 0 to MAXJOBS
        invariant forall j :: 0 <= j < i ==> jobs[j] == EMPTY
      {
        jobs[i] := EMPTY;
      }
    }

    // maxjid
    method GetMaxJid() returns (max: int)
      requires Valid()
      ensures max == MaxJid(jobs[..], MAXJOBS)
    {
      max := 0;
      for i := 0 to MAXJOBS
        invariant max == MaxJid(jobs[..], i)
      {
        if jobs[i].jid > max {
          max := jobs[i].jid;
        }
      }
    }

    method AddJob(pid: int, state: JobState, cmdline: string) returns (ok: bool)
      requires Valid()
      modifies jobs, this`nextjid
      ensures Contents() == Add(old(Contents()), pid, state, cmdline)
      ensures ok == (pid >= 1 && exists i :: 0 <= i < MAXJOBS && old(jobs[i].pid) == 0)
      ensures ok ==>
        && (exists i :: FirstAt(old(jobs[..]), 0, i) && jobs[..] == old(jobs[..])[i := Job(pid, old(nextjid), state, cmdline)])
        && nextjid == if old(nextjid) < 16 then old(nextjid) + 1 else 1
      ensures !ok ==> jobs[..] == old(jobs[..]) && nextjid == old(nextjid)
    {
      if pid < 1 {
        return false;
      }
      for i := 0 to MAXJOBS
        invariant jobs[..] == old(jobs[..]) && nextjid == old(nextjid)
        invariant FindPid(jobs[..], 0, 0) == FindPid(jobs[..], 0, i)
      {
        if jobs[i].pid == 0 {
          assert FirstAt(old(jobs[..]), 0, i) by { assert FindPid(jobs[..], 0, 0) == i; }
          jobs[i] := Job(pid, nextjid, state, cmdline);
          nextjid := nextjid + 1;
          if nextjid > MAXJOBS {
            nextjid := 1;
          }
          return true;
        }
      }
      assert forall i :: 0 <= i < MAXJOBS ==> old(jobs[..])[i].pid == old(jobs[i].pid);
      return false;
    }

    method DeleteJob(pid: int) returns (ok: bool)
      requires Valid()
      modifies jobs, this`nextjid
      ensures Contents() == Delete(old(Contents()), pid)
      ensures ok == (pid >= 1 && exists i :: 0 <= i < MAXJOBS && old(jobs[i].pid) == pid)
      ensures ok ==>
        && (exists i :: FirstAt(old(jobs[..]), pid, i) && jobs[..] == old(jobs[..])[i := Job(0, 0, Undef, "")])
        && NextAfter(jobs[..], nextjid)
      ensures !ok ==> jobs[..] == old(jobs[..]) && nextjid == old(nextjid)
    {
      if pid < 1 {
        return false;
      }
      for i := 0 to MAXJOBS
        invariant jobs[..] == old(jobs[..]) && nextjid == old(nextjid)
        invariant FindPid(jobs[..], pid, 0) == FindPid(jobs[..], pid, i)
      {
        if jobs[i].pid == pid {
          assert FirstAt(old(jobs[..]), pid, i) by { assert FindPid(jobs[..], pid, 0) == i; }
          jobs[i] := EMPTY;
          var max := GetMaxJid();
          nextjid := max + 1;
          return true;
        }
      }
      assert forall i :: 0 <= i < MAXJOBS ==> old(jobs[..])[i].pid == old(jobs[i].pid);
      return false;
    }

    // getjobpid
    method GetJobPid(pid: int) returns (slot: nat)
      requires Valid()
      ensures slot == if pid < 1 then MAXJOBS else FindPid(jobs[..], pid, 0)
    {
      if pid < 1 {
        return MAXJOBS;
      }
      for i := 0 to MAXJOBS
        invariant FindPid(jobs[..], pid, 0) == FindPid(jobs[..], pid, i)
      {
        if jobs[i].pid == pid {
          return i;
        }
      }
      return MAXJOBS;
    }

    // getjobjid
    method GetJobJid(jid: int) returns (slot: nat)
      requires Valid()
      ensures slot == if jid < 1 then MAXJOBS else FindJid(jobs[..], jid, 0)
    {
      if jid < 1 {
        return MAXJOBS;
      }
      for i := 0 to MAXJOBS
        invariant FindJid(jobs[..], jid, 0) == FindJid(jobs[..], jid, i)
      {
        if jobs[i].jid == jid {
          return i;
        }
      }
      return MAXJOBS;
    }

    // fgpid
    method FgPid() returns (pid: int)
      requires Valid()
      ensures var i := FindState(jobs[..], Fg, 0); pid == if i == MAXJOBS then 0 else jobs[i].pid
    {
      for i := 0 to MAXJOBS
        invariant FindState(jobs[..], Fg, 0) == FindState(jobs[..], Fg, i)
      {
        if jobs[i].state == Fg {
          return jobs[i].pid;
        }
      }
      return 0;
    }
  }

  // ----- two jobs with the same id -----

  // One job, with its pid for its id, in one of the first two slots.
  ghost predicate Alone(jobs: seq<Job>, a: nat, id: int) {
    |jobs| == MAXJOBS && a < 2 && jobs[a] == Job(id, id, Bg, "") && forall i :: 0 <= i < MAXJOBS && i != a ==> jobs[i] == EMPTY
  }

  ghost predicate FirstFour(jobs: seq<Job>, a: Job, b: Job, c: Job, d: Job) {
    |jobs| == MAXJOBS && jobs[0] == a && jobs[1] == b && jobs[2] == c && jobs[3] == d && forall i :: 4 <= i < MAXJOBS ==> jobs[i] == EMPTY
  }

  // A second job starts and the first one ends.
  method TakeNext(table: Jobs, i: int, ghost a: nat)
    requires table.Valid() && 1 <= i < 16 && Alone(table.jobs[..], a, i) && table.nextjid == i + 1
    modifies table.jobs, table`nextjid
    ensures a < 2 && Alone(table.jobs[..], 1 - a, i + 1) && table.nextjid == i + 2
  {
    hide Add, Delete;
    var ok := table.AddJob(i + 1, Bg, "");
    ghost var jobs := table.jobs[..];
    assert jobs[a] == Job(i, i, Bg, "") && jobs[1 - a] == Job(i + 1, i + 1, Bg, "");
    assert forall j :: 2 <= j < MAXJOBS ==> jobs[j] == EMPTY;
    ok := table.DeleteJob(i);
    assert table.jobs[..] == jobs[a := EMPTY];
  }

  // Jobs that overlap two at a time take the ids up to 16.
  method TakeSixteen() returns (table: Jobs)
    ensures fresh(table) && fresh(table.jobs) && table.Valid() && Alone(table.jobs[..], 1, 16) && table.nextjid == 17
  {
    hide Add, Delete;
    table := new Jobs();
    var ok := table.AddJob(1, Bg, "");
    ghost var a := 0;
    var i := 1;
    while i < 16
      invariant 1 <= i <= 16 && a == (i + 1) % 2 && Alone(table.jobs[..], a, i) && table.nextjid == i + 1
      invariant fresh(table) && fresh(table.jobs) && table.Valid()
    {
      TakeNext(table, i, a);
      i, a := i + 1, 1 - a;
    }
  }

  // Then nextjid wraps, is set behind the largest id when the job with id 16 ends, and wraps once more.
  method RepeatedJid() returns (table: Jobs)
    ensures table.Valid() && table.jobs[2].pid == 18 && table.jobs[3].pid == 20 && table.jobs[2].jid == table.jobs[3].jid == 1
    ensures !JidsUnique(table.jobs[..])
  {
    hide Add, Delete;
    table := TakeSixteen();
    var b := Job(16, 16, Bg, "");
    var ok := table.AddJob(17, Bg, "");
    assert FirstFour(table.jobs[..], Job(17, 17, Bg, ""), b, EMPTY, EMPTY);
    ok := table.AddJob(18, Bg, "");
    assert FirstFour(table.jobs[..], Job(17, 17, Bg, ""), b, Job(18, 1, Bg, ""), EMPTY);
    ok := table.DeleteJob(16);
    assert FirstFour(table.jobs[..], Job(17, 17, Bg, ""), EMPTY, Job(18, 1, Bg, ""), EMPTY);
    ok := table.AddJob(19, Bg, "");
    assert FirstFour(table.jobs[..], Job(17, 17, Bg, ""), Job(19, 18, Bg, ""), Job(18, 1, Bg, ""), EMPTY);
    ok := table.AddJob(20, Bg, "");
    assert !JidsDiffer(table.jobs[..], 2, 3);
  }
}
