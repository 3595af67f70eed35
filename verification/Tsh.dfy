/**
  The tiny shell of tsh.c as interleaved steps. The main thread runs eval, do_bgfg and waitfg; the SIGCHLD handler may
  break in between any two of its steps while the signal is not blocked, and then runs to its end before the main
  thread goes on; children stop, continue and die at any time. A lookup of the main thread is one step a slot.
 */
module Tsh {
  import opened JobTable

  // A child that has not been reaped; `told` is whether waitpid has reported the stop.
  datatype Child = Running | Stopped(told: bool) | Dead(signaled: bool)

  datatype Main =
    | Prompt                                    // reading a command
    | Blocking(bg: bool, cmdline: string)       // eval: SIGCHLD blocked, about to fork
    | Forked(pid: int, bg: bool, cmdline: string) // eval: about to addjob
    | Added(pid: int, bg: bool)                 // eval: about to unblock
    | FindByPid(fg: bool, pid: int, i: nat)     // do_bgfg: getjobpid at slot i
    | FindByJid(fg: bool, jid: int, i: nat)     // do_bgfg: getjobjid at slot i
    | ReadPid(fg: bool, slot: nat)              // do_bgfg: pid = job->pid
    | TestStopped(fg: bool, pid: int, slot: nat) // do_bgfg: job->state == ST
    | Continue(fg: bool, pid: int, slot: nat)   // do_bgfg: kill(-pid, SIGCONT)
    | SetState(fg: bool, pid: int, slot: nat)   // do_bgfg: job->state = FG or BG
    | Lookup(pid: int, i: nat)                  // waitfg: getjobpid at slot i
    | CheckPid(pid: int, slot: nat)             // waitfg: job->pid == pid
    | CheckState(pid: int, slot: nat)           // waitfg: job->state == FG
    | Pause(pid: int, slot: nat)                // waitfg: pause()
    | MainFault                                 // a NULL job was dereferenced

  datatype Handler =
    | Idle
    | Head                                      // about to call maxjid
    | Wait                                      // about to call waitpid
    | Got(pid: int, child: Child)               // waitpid returned this child
    | HandlerFault                              // a NULL job was dereferenced

  datatype State = State(table: Table, children: map<int, Child>, main: Main, handler: Handler)

  ghost predicate Init(s: State) {
    s.table == Table(seq(MAXJOBS, _ => EMPTY), 1) && s.children == map[] && s.main == Prompt && s.handler == Idle
  }

  // ----- steps of the main thread -----

  predicate Blocked(m: Main) {
    m.Blocking? || m.Forked? || m.Added?
  }

  function WithState(t: Table, slot: nat, state: JobState): Table
    requires slot < |t.jobs|
  {
    t.(jobs := t.jobs[slot := t.jobs[slot].(state := state)])
  }

  // SIGCONT to the group of pid.
  function Continued(children: map<int, Child>, pid: int): map<int, Child> {
    if pid in children && children[pid].Stopped? then children[pid := Running] else children
  }

  // A command other than fg and bg with a NULL or malformed argument, which go back to the prompt.
  ghost predicate ReadCommand(s: State, s': State) {
    && s' == s.(main := s'.main)
    && match s'.main
       case Blocking(_, _) => true
       case FindByPid(_, _, i) => i == 0
       case FindByJid(_, _, i) => i == 0
       case _ => false
  }

  // fork succeeds, and no more than MAXJOBS children are ever unreaped.
  ghost predicate Fork(s: State, s': State, bg: bool, cmdline: string) {
    && s'.main.Forked? && s'.main.bg == bg && s'.main.cmdline == cmdline
    && var pid := s'.main.pid;
       pid >= 1 && pid !in s.children && |s.children| < MAXJOBS
       && s' == s.(children := s.children[pid := Running], main := s'.main)
  }

  function AfterAdd(s: State, pid: int, bg: bool, cmdline: string): State {
    var t := Add(s.table, pid, if bg then Bg else Fg, cmdline);
    s.(table := t, main := if bg && FindPid(t.jobs, pid, 0) == |t.jobs| then MainFault else Added(pid, bg))
  }

  ghost predicate MainStep(s: State, s': State)
    requires |s.table.jobs| == MAXJOBS
  {
    var jobs := s.table.jobs;
    match s.main
    case Prompt => ReadCommand(s, s')
    case Blocking(bg, cmdline) => Fork(s, s', bg, cmdline)
    case Forked(pid, bg, cmdline) => s' == AfterAdd(s, pid, bg, cmdline)
    case Added(pid, bg) => s' == s.(main := if bg then Prompt else Lookup(pid, 0))
    case FindByPid(fg, pid, i) =>
      s' == s.(main := if pid < 1 || i >= MAXJOBS then Prompt
                       else if jobs[i].pid == pid then TestStopped(fg, pid, i) else FindByPid(fg, pid, i + 1))
    case FindByJid(fg, jid, i) =>
      s' == s.(main := if jid < 1 || i >= MAXJOBS then Prompt
                       else if jobs[i].jid == jid then ReadPid(fg, i) else FindByJid(fg, jid, i + 1))
    case ReadPid(fg, slot) => slot < MAXJOBS && s' == s.(main := TestStopped(fg, jobs[slot].pid, slot))
    case TestStopped(fg, pid, slot) =>
      slot < MAXJOBS && s' == s.(main := if jobs[slot].state == St then Continue(fg, pid, slot) else SetState(fg, pid, slot))
    case Continue(fg, pid, slot) =>
      || s' == s.(main := Prompt) // kill failed
      || s' == s.(children := Continued(s.children, pid), main := SetState(fg, pid, slot))
    case SetState(fg, pid, slot) =>
      && slot < MAXJOBS
      && s' == s.(table := WithState(s.table, slot, if fg then Fg else Bg), main := if fg then Lookup(pid, 0) else Prompt)
    case Lookup(pid, i) =>
      s' == s.(main := if pid < 1 || i >= MAXJOBS then Prompt
                       else if jobs[i].pid == pid then CheckPid(pid, i) else Lookup(pid, i + 1))
    case CheckPid(pid, slot) => slot < MAXJOBS && s' == s.(main := if jobs[slot].pid == pid then CheckState(pid, slot) else Prompt)
    case CheckState(pid, slot) => slot < MAXJOBS && s' == s.(main := if jobs[slot].state == Fg then Pause(pid, slot) else Prompt)
    case Pause(pid, slot) => s' == s.(main := CheckPid(pid, slot))
    case MainFault => false
  }

  // ----- steps of the SIGCHLD handler -----

  // What waitpid with WNOHANG and WUNTRACED would report.
  predicate Reportable(c: Child) {
    c.Dead? || c == Stopped(false)
  }

  ghost predicate Quiet(children: map<int, Child>) {
    forall pid :: pid in children ==> !Reportable(children[pid])
  }

  // waitpid: an error without children, 0 if there is nothing to report, else any reportable child.
  ghost predicate WaitPid(s: State, s': State) {
    || (Quiet(s.children) && s' == s.(handler := Idle))
    || (s'.handler.Got? && s'.handler.pid in s.children && s'.handler.child == s.children[s'.handler.pid]
        && Reportable(s'.handler.child)
        && var pid := s'.handler.pid;
           s' == s.(handler := s'.handler,
                    children := if s.children[pid].Dead? then s.children - {pid} else s.children[pid := Stopped(true)]))
  }

  // The body of the loop for the child that waitpid returned.
  function AfterGot(s: State, pid: int, child: Child): State {
    var slot := FindPid(s.table.jobs, pid, 0);
    if child == Dead(false) then s.(table := Delete(s.table, pid), handler := Head)
    else if pid < 1 || slot == |s.table.jobs| then s.(handler := HandlerFault)
    else if child.Dead? then s.(table := Delete(s.table, pid), handler := Head)
    else s.(table := WithState(s.table, slot, St), handler := Head)
  }

  ghost predicate HandlerStep(s: State, s': State) {
    match s.handler
    case Idle => !Blocked(s.main) && s' == s.(handler := Head)
    case Head => s' == s.(handler := if MaxJid(s.table.jobs, |s.table.jobs|) == 0 then Idle else Wait)
    case Wait => WaitPid(s, s')
    case Got(pid, child) => s' == AfterGot(s, pid, child)
    case HandlerFault => false
  }

  // ----- steps of the children -----

  predicate ChildMoves(c: Child, c': Child) {
    || (!c.Dead? && c'.Dead?)
    || (c.Running? && c' == Stopped(false))
    || (c.Stopped? && c'.Running?)
  }

  ghost predicate ChildStep(s: State, s': State) {
    exists pid, c :: pid in s.children && ChildMoves(s.children[pid], c) && s' == s.(children := s.children[pid := c])
  }

  ghost predicate Next(s: State, s': State) {
    || ChildStep(s, s')
    || HandlerStep(s, s')
    || (s.handler.Idle? && |s.table.jobs| == MAXJOBS && MainStep(s, s'))
  }

  ghost predicate StepAt(run: seq<State>, k: nat) {
    k + 1 < |run| ==> Next(run[k], run[k + 1])
  }

  ghost predicate Run(run: seq<State>) {
    && |run| > 0 && Init(run[0])
    && forall k {:trigger StepAt(run, k)} :: StepAt(run, k)
  }

  // ----- the invariant -----

  // The child that main has forked and not yet added, and the one that the handler has reaped and not yet deleted.
  function Untabled(m: Main): set<int> {
    if m.Forked? then {m.pid} else {}
  }

  function Reaped(h: Handler): set<int> {
    if h.Got? && h.child.Dead? then {h.pid} else {}
  }

  ghost predicate PidsAgree(s: State) {
    && (forall pid :: pid in s.children ==> pid >= 1)
    && Pids(s.table.jobs) !! Untabled(s.main) && s.children.Keys !! Reaped(s.handler)
    && Pids(s.table.jobs) + Untabled(s.main) == s.children.Keys + Reaped(s.handler)
  }

  ghost predicate HandlerOk(s: State) {
    && (!s.handler.Idle? ==> !Blocked(s.main))
    && (s.handler.Wait? ==> Pids(s.table.jobs) != {})
    && (s.handler.Got? ==> Reportable(s.handler.child) && s.handler.pid in Pids(s.table.jobs) && s.handler.pid >= 1)
    && !s.handler.HandlerFault?
  }

  // The job that the main thread has put in the foreground; 0 if none.
  function Foreground(m: Main): int {
    match m
    case Added(pid, bg) => if bg then 0 else pid
    case Lookup(pid, _) => pid
    case CheckPid(pid, _) => pid
    case CheckState(pid, _) => pid
    case Pause(pid, _) => pid
    case _ => 0
  }

  // Only that job is marked FG, and it is until it stops.
  ghost predicate FgOk(s: State, i: nat) {
    i < |s.table.jobs| && s.table.jobs[i].pid != 0 ==>
      && (s.table.jobs[i].state == Fg ==> s.table.jobs[i].pid == Foreground(s.main))
      && (s.table.jobs[i].pid == Foreground(s.main) ==> s.table.jobs[i].state == Fg || s.table.jobs[i].state == St)
  }

  // Slot holds pid, or held it and is free by now.
  ghost predicate Held(jobs: seq<Job>, pid: int, slot: nat) {
    slot < |jobs| && pid >= 0 && (jobs[slot].pid == pid || jobs[slot].pid == 0)
  }

  ghost predicate NotIn(jobs: seq<Job>, pid: int, i: nat) {
    i < |jobs| ==> jobs[i].pid != pid
  }

  ghost predicate NotBelow(jobs: seq<Job>, pid: int, i: nat) {
    forall j: nat {:trigger NotIn(jobs, pid, j)} :: j < i ==> NotIn(jobs, pid, j)
  }

  ghost predicate OnlyAt(jobs: seq<Job>, pid: int, slot: nat) {
    pid >= 1 && Held(jobs, pid, slot) && forall i {:trigger NotIn(jobs, pid, i)} :: i != slot ==> NotIn(jobs, pid, i)
  }

  ghost predicate JidNotIn(jobs: seq<Job>, jid: int, i: nat) {
    i < |jobs| ==> jobs[i].jid != jid
  }

  // What do_bgfg found: no other slot has the pid.
  ghost predicate Found(jobs: seq<Job>, pid: int, slot: nat) {
    Held(jobs, pid, slot) && (pid >= 1 ==> OnlyAt(jobs, pid, slot))
  }

  ghost predicate MarkedAt(jobs: seq<Job>, pid: int, state: JobState, i: nat) {
    i < |jobs| && jobs[i].pid == pid ==> jobs[i].state == state
  }

  ghost predicate Marked(jobs: seq<Job>, pid: int, state: JobState) {
    forall i {:trigger MarkedAt(jobs, pid, state, i)} :: MarkedAt(jobs, pid, state, i)
  }

  ghost predicate JidNotBelow(jobs: seq<Job>, jid: int, i: nat) {
    forall j: nat {:trigger JidNotIn(jobs, jid, j)} :: j < i ==> JidNotIn(jobs, jid, j)
  }

  ghost predicate MainOk(s: State) {
    var jobs := s.table.jobs;
    match s.main
    case Forked(pid, _, _) => pid >= 1 && |Pids(jobs)| < MAXJOBS
    case Added(pid, bg) => pid >= 1 && pid in Pids(jobs) && Marked(jobs, pid, if bg then Bg else Fg)
    case FindByPid(_, pid, i) => i <= MAXJOBS && (pid >= 1 ==> NotBelow(jobs, pid, i))
    case FindByJid(_, jid, i) => i <= MAXJOBS && (jid >= 1 ==> JidNotBelow(jobs, jid, i))
    case ReadPid(_, slot) => slot < MAXJOBS
    case TestStopped(_, pid, slot) => Found(jobs, pid, slot)
    case Continue(_, pid, slot) => Found(jobs, pid, slot) && pid >= 1
    case SetState(_, pid, slot) => Found(jobs, pid, slot)
    case Lookup(pid, i) => i <= MAXJOBS && (pid >= 1 ==> NotBelow(jobs, pid, i))
    case CheckPid(pid, slot) => OnlyAt(jobs, pid, slot)
    case CheckState(pid, slot) => OnlyAt(jobs, pid, slot)
    case Pause(pid, slot) => OnlyAt(jobs, pid, slot)
    case MainFault => false
    case _ => true
  }

  ghost predicate Inv(s: State) {
    && TableOk(s.table) && |s.children| <= MAXJOBS
    && PidsAgree(s) && HandlerOk(s) && MainOk(s)
    && forall i {:trigger FgOk(s, i)} :: FgOk(s, i)
  }

  lemma InitInv(s: State)
    requires Init(s)
    ensures Inv(s)
  {
    forall i: nat ensures SlotOk(s.table.jobs, i) && FgOk(s, i) {}
    forall i: nat, j: nat ensures PidsDiffer(s.table.jobs, i, j) {}
  }

  lemma ChildKeeps(s: State, s': State)
    requires Inv(s) && ChildStep(s, s')
    ensures Inv(s')
  {
    assert s'.children.Keys == s.children.Keys;
    SameSize(s.children, s'.children);
    forall i: nat ensures FgOk(s', i) { assert FgOk(s, i); }
  }

  lemma SameSize(a: map<int, Child>, b: map<int, Child>)
    ensures |a| == |a.Keys|
    ensures a.Keys == b.Keys ==> |a| == |b|
  {
    assert |b| == |b.Keys|;
  }

  // The table changes so that no pid and no jid appears, none moves, and states change to ST only.
  ghost predicate Fewer(t: Table, t': Table) {
    && TableOk(t') && |t.jobs| == MAXJOBS
    && forall i :: 0 <= i < MAXJOBS ==>
         && (t'.jobs[i].pid == t.jobs[i].pid || t'.jobs[i].pid == 0)
         && (t'.jobs[i].jid == t.jobs[i].jid || t'.jobs[i].jid == 0)
         && (t'.jobs[i].pid != 0 ==> t'.jobs[i].state == t.jobs[i].state || t'.jobs[i].state == St)
  }

  // So the main thread's own view survives what the handler does.
  lemma FewerKeepsMain(s: State, s': State)
    requires TableOk(s.table) && MainOk(s) && Fewer(s.table, s'.table) && s'.main == s.main && !Blocked(s.main)
    requires forall i {:trigger FgOk(s, i)} :: FgOk(s, i)
    ensures MainOk(s') && forall i {:trigger FgOk(s', i)} :: FgOk(s', i)
  {
    forall i: nat ensures FgOk(s', i) { assert FgOk(s, i); }
    match s.main {
      case Lookup(pid, i) => NotBelowStays(s.table, s'.table, pid, i);
      case FindByPid(_, pid, i) => NotBelowStays(s.table, s'.table, pid, i);
      case FindByJid(_, jid, i) =>
        forall j: nat | j < i && jid >= 1 ensures JidNotIn(s'.table.jobs, jid, j) { assert JidNotIn(s.table.jobs, jid, j); }
      case TestStopped(_, pid, slot) => FoundStays(s.table, s'.table, pid, slot);
      case Continue(_, pid, slot) => FoundStays(s.table, s'.table, pid, slot);
      case SetState(_, pid, slot) => FoundStays(s.table, s'.table, pid, slot);
      case CheckPid(pid, slot) => OnlyAtStays(s.table, s'.table, pid, slot);
      case CheckState(pid, slot) => OnlyAtStays(s.table, s'.table, pid, slot);
      case Pause(pid, slot) => OnlyAtStays(s.table, s'.table, pid, slot);
      case _ =>
    }
  }

  lemma NotBelowStays(t: Table, t': Table, pid: int, i: nat)
    requires TableOk(t) && Fewer(t, t') && (pid >= 1 ==> NotBelow(t.jobs, pid, i)) && i <= MAXJOBS
    ensures pid >= 1 ==> NotBelow(t'.jobs, pid, i)
  {
    forall j: nat | j < i && pid >= 1 ensures NotIn(t'.jobs, pid, j) { assert NotIn(t.jobs, pid, j); }
  }

  lemma FoundStays(t: Table, t': Table, pid: int, slot: nat)
    requires TableOk(t) && Fewer(t, t') && Found(t.jobs, pid, slot)
    ensures Found(t'.jobs, pid, slot)
  {
    if pid >= 1 { OnlyAtStays(t, t', pid, slot); }
  }

  lemma OnlyAtStays(t: Table, t': Table, pid: int, slot: nat)
    requires TableOk(t) && Fewer(t, t') && OnlyAt(t.jobs, pid, slot)
    ensures OnlyAt(t'.jobs, pid, slot)
  {
    forall i: nat | i != slot ensures NotIn(t'.jobs, pid, i) { assert NotIn(t.jobs, pid, i); }
  }

  lemma EnterKeeps(s: State, s': State)
    requires Inv(s) && HandlerStep(s, s') && (s.handler.Idle? || s.handler.Head?)
    ensures Inv(s')
  {
    hide TableOk, Pids, MainOk, FgOk;
    assert TableOk(s.table);
    MaxJidTestsEmpty(s.table);
    FewerItself(s.table);
    FewerKeepsMain(s, s');
  }

  lemma WaitKeeps(s: State, s': State)
    requires Inv(s) && s.handler.Wait? && WaitPid(s, s')
    ensures Inv(s')
  {
    hide TableOk, Pids, MainOk, FgOk, PidsAgree;
    assert TableOk(s.table);
    FewerItself(s.table);
    FewerKeepsMain(s, s');
    ReportKeepsPids(s, s');
  }

  lemma ReportKeepsPids(s: State, s': State)
    requires PidsAgree(s) && !Blocked(s.main) && s.handler.Wait? && WaitPid(s, s') && |s.children| <= MAXJOBS
    ensures PidsAgree(s') && |s'.children| <= MAXJOBS
    ensures s'.handler.Got? ==> s'.handler.pid in Pids(s.table.jobs) && s'.handler.pid >= 1
  {
    hide Pids;
    if s'.handler.Got? {
      var pid := s'.handler.pid;
      SameSize(s.children, s'.children);
      SameSize(s'.children, s.children);
      if s.children[pid].Dead? {
        assert s'.children.Keys == s.children.Keys - {pid};
      } else {
        assert s'.children.Keys == s.children.Keys;
      }
      assert pid in s.children.Keys;
    }
  }

  lemma FewerItself(t: Table)
    requires TableOk(t)
    ensures Fewer(t, t)
  {
    hide SlotOk, PidsDiffer;
  }

  // What the handler does with a reported child restores the agreement of table and children.
  lemma DeadKeeps(s: State, s': State, pid: int, child: Child)
    requires Inv(s) && s.handler == Got(pid, child) && s' == AfterGot(s, pid, child) && child.Dead?
    ensures Inv(s')
  {
    hide Pids, FgOk, MainOk, Delete, TableOk, Fewer, FindPid;
    FindPidTestsMember(s.table.jobs, pid);
    DeleteIsFewer(s.table, pid);
    FewerKeepsMain(s, s');
    assert s.children.Keys == Pids(s.table.jobs) - {pid};
  }

  lemma DeleteIsFewer(t: Table, pid: int)
    requires TableOk(t) && pid >= 1
    ensures Fewer(t, Delete(t, pid)) && Pids(Delete(t, pid).jobs) == Pids(t.jobs) - {pid} && TableOk(Delete(t, pid))
  {
    hide Pids, Delete, SlotOk, PidsDiffer;
    DeleteRemovesPid(t, pid);
  }

  lemma StopKeeps(s: State, s': State, pid: int, child: Child)
    requires Inv(s) && s.handler == Got(pid, child) && s' == AfterGot(s, pid, child) && !child.Dead?
    ensures Inv(s')
    ensures var slot := FindPid(s.table.jobs, pid, 0);
      && slot < |s.table.jobs| && s'.handler == Head
      && s'.table == Table(s.table.jobs[slot := s.table.jobs[slot].(state := St)], s.table.nextjid)
  {
    hide Pids, FgOk, MainOk, Delete, SlotOk, PidsDiffer;
    FindPidTestsMember(s.table.jobs, pid);
    StateKeepsTable(s.table, FindPid(s.table.jobs, pid, 0), St);
    FewerKeepsMain(s, s');
  }

  // The lookups of do_bgfg.
  lemma FindKeeps(s: State, s': State)
    requires Inv(s) && s.handler.Idle? && MainStep(s, s') && (s.main.FindByPid? || s.main.FindByJid? || s.main.ReadPid?)
    ensures Inv(s')
  {
    hide Pids, PidsAgree, HandlerOk;
    var jobs := s.table.jobs;
    forall j: nat ensures FgOk(s', j) { assert FgOk(s, j); }
    match s.main {
      case FindByPid(_, pid, i) =>
        if s'.main.TestStopped? { FoundAt(s.table, i); }
        forall j: nat | j < i && pid >= 1 ensures NotIn(jobs, pid, j) { }
      case FindByJid(_, jid, i) =>
        forall j: nat | j < i && jid >= 1 ensures JidNotIn(jobs, jid, j) { }
      case ReadPid(_, slot) => FoundAt(s.table, slot);
    }
    MovedMain(s, s');
  }

  lemma FoundAt(t: Table, slot: nat)
    requires TableOk(t) && slot < MAXJOBS
    ensures Found(t.jobs, t.jobs[slot].pid, slot)
  {
    assert SlotOk(t.jobs, slot);
    forall i: nat | i != slot && t.jobs[slot].pid >= 1 ensures NotIn(t.jobs, t.jobs[slot].pid, i) { assert PidsDiffer(t.jobs, slot, i); }
  }

  // The remaining steps move only the main thread.
  lemma OthersKeep(s: State, s': State)
    requires Inv(s) && s.handler.Idle? && MainStep(s, s')
    requires !s.main.Blocking? && !s.main.Forked? && !s.main.Continue? && !s.main.SetState?
    requires !s.main.Lookup? && !s.main.CheckPid? && !s.main.CheckState?
    requires !s.main.FindByPid? && !s.main.FindByJid? && !s.main.ReadPid?
    ensures Inv(s')
  {
    hide PidsDiffer, OnlyAt, Pids, PidsAgree, HandlerOk;
    forall i: nat ensures FgOk(s', i) { assert FgOk(s, i); }
    if s.main.TestStopped? {
      assert SlotOk(s.table.jobs, s.main.slot);
    }
    MovedMain(s, s');
  }

  lemma MovedMain(s: State, s': State)
    requires Inv(s) && s.handler.Idle? && s' == s.(main := s'.main) && MainOk(s') && !s.main.Forked? && !s'.main.Forked?
    requires forall i {:trigger FgOk(s', i)} :: FgOk(s', i)
    ensures Inv(s')
  {
    hide TableOk, Pids, MainOk, FgOk;
  }

  lemma ForkKeeps(s: State, s': State)
    requires Inv(s) && s.handler.Idle? && s.main.Blocking? && MainStep(s, s')
    ensures Inv(s')
  {
    hide SlotOk, PidsDiffer, Pids, NotBelow, OnlyAt;
    forall i: nat ensures FgOk(s', i) { assert FgOk(s, i); }
    SameSize(s.children, s.children);
    SameSize(s'.children, s'.children);
    assert s'.children.Keys == s.children.Keys + {s'.main.pid};
    assert Pids(s.table.jobs) == s.children.Keys;
  }

  lemma AddKeeps(s: State, s': State)
    requires Inv(s) && s.handler.Idle? && s.main.Forked? && MainStep(s, s')
    ensures Inv(s')
  {
    hide SlotOk, PidsDiffer, Pids, NotBelow, OnlyAt, Add;
    var state := if s.main.bg then Bg else Fg;
    AddAddsPid(s.table, s.main.pid, state, s.main.cmdline);
    AddMarks(s.table, s.main.pid, state, s.main.cmdline);
    FindPidTestsMember(s'.table.jobs, s.main.pid);
    forall i: nat ensures FgOk(s', i) { assert FgOk(s, i) && MarkedAt(s'.table.jobs, s.main.pid, state, i); }
  }

  lemma AddMarks(t: Table, pid: int, state: JobState, cmdline: string)
    requires TableOk(t) && pid >= 1 && pid !in Pids(t.jobs) && |Pids(t.jobs)| < MAXJOBS
    ensures Marked(Add(t, pid, state, cmdline).jobs, pid, state)
  {
    AddAddsPid(t, pid, state, cmdline);
    forall i: nat ensures MarkedAt(Add(t, pid, state, cmdline).jobs, pid, state, i) {
      assert i < |t.jobs| && t.jobs[i].pid == pid ==> pid in Pids(t.jobs);
    }
  }

  lemma ContinueKeeps(s: State, s': State)
    requires Inv(s) && s.handler.Idle? && s.main.Continue? && MainStep(s, s')
    ensures Inv(s')
  {
    hide SlotOk, PidsDiffer, Pids, NotBelow, OnlyAt;
    assert s'.children.Keys == s.children.Keys;
    SameSize(s.children, s'.children);
    forall i: nat ensures FgOk(s', i) { assert FgOk(s, i); }
  }

  lemma SetKeeps(s: State, s': State)
    requires Inv(s) && s.handler.Idle? && s.main.SetState? && MainStep(s, s')
    ensures Inv(s')
  {
    hide SlotOk, PidsDiffer, Pids;
    StateKeepsTable(s.table, s.main.slot, if s.main.fg then Fg else Bg);
    forall i: nat ensures FgOk(s', i) { assert FgOk(s, i) && (s.main.pid >= 1 && i != s.main.slot ==> NotIn(s.table.jobs, s.main.pid, i)); }
  }

  lemma LookupKeeps(s: State, s': State)
    requires Inv(s) && s.handler.Idle? && s.main.Lookup? && MainStep(s, s')
    ensures Inv(s')
  {
    hide Pids, PidsAgree, HandlerOk;
    var jobs, pid, i := s.table.jobs, s.main.pid, s.main.i;
    forall j: nat ensures FgOk(s', j) {
      assert FgOk(s, j) && SlotOk(jobs, j);
      assert j < i && pid >= 1 ==> NotIn(jobs, pid, j);
    }
    if s'.main.CheckPid? {
      forall j: nat | j != i ensures NotIn(jobs, pid, j) { assert PidsDiffer(jobs, i, j); }
    }
    MovedMain(s, s');
  }

  lemma CheckKeeps(s: State, s': State)
    requires Inv(s) && s.handler.Idle? && (s.main.CheckPid? || s.main.CheckState?) && MainStep(s, s')
    ensures Inv(s')
  {
    hide SlotOk, PidsDiffer, Pids, PidsAgree, HandlerOk;
    forall j: nat ensures FgOk(s', j) {
      assert FgOk(s, j) && (j != s.main.slot ==> NotIn(s.table.jobs, s.main.pid, j));
    }
    MovedMain(s, s');
  }

  lemma NextKeeps(s: State, s': State)
    requires Inv(s) && Next(s, s')
    ensures Inv(s')
  {
    hide Inv, ChildStep, MainStep, WaitPid, AfterGot;
    if ChildStep(s, s') {
      ChildKeeps(s, s');
    } else if HandlerStep(s, s') {
      match s.handler {
        case Wait => WaitKeeps(s, s');
        case Got(pid, child) =>
          if child.Dead? { DeadKeeps(s, s', pid, child); } else { StopKeeps(s, s', pid, child); }
        case _ => EnterKeeps(s, s');
      }
    } else {
      match s.main {
        case Blocking(_, _) => ForkKeeps(s, s');
        case Forked(_, _, _) => AddKeeps(s, s');
        case Continue(_, _, _) => ContinueKeeps(s, s');
        case SetState(_, _, _) => SetKeeps(s, s');
        case FindByPid(_, _, _) => FindKeeps(s, s');
        case FindByJid(_, _, _) => FindKeeps(s, s');
        case ReadPid(_, _) => FindKeeps(s, s');
        case Lookup(_, _) => LookupKeeps(s, s');
        case CheckPid(_, _) => CheckKeeps(s, s');
        case CheckState(_, _) => CheckKeeps(s, s');
        case _ => OthersKeep(s, s');
      }
    }
  }

  lemma {:induction false} RunKeeps(run: seq<State>, k: nat)
    requires Run(run) && k < |run|
    ensures Inv(run[k])
  {
    if k == 0 {
      InitInv(run[0]);
    } else {
      RunKeeps(run, k - 1);
      assert StepAt(run, k - 1);
      NextKeeps(run[k - 1], run[k]);
    }
  }

  // ----- what every run promises -----

  // The table lists exactly the unreaped children, except between fork and addjob, while SIGCHLD is blocked, and
  // while the handler is about to delete the one it reaped.
  lemma TableIsChildren(run: seq<State>, k: nat)
    requires Run(run) && k < |run|
    ensures var s := run[k]; var pids := Pids(s.table.jobs);
      && (s.main.Forked? ==> s.handler.Idle? && s.main.pid !in pids && s.children.Keys == pids + {s.main.pid})
      && (s.handler.Got? && s.handler.child.Dead? ==> s.handler.pid in pids && s.children.Keys == pids - {s.handler.pid})
      && (!s.main.Forked? && !(s.handler.Got? && s.handler.child.Dead?) ==> s.children.Keys == pids)
  {
    RunKeeps(run, k);
  }

  // No lookup whose result is used unchecked fails, waitpid never reports that there is no child, and addjob always
  // has a free slot.
  lemma LookupsNeverFail(run: seq<State>, k: nat)
    requires Run(run) && k < |run|
    ensures var s := run[k]; var jobs := s.table.jobs;
      && !s.main.MainFault? && !s.handler.HandlerFault?
      && (s.handler.Got? ==> FindPid(jobs, s.handler.pid, 0) < |jobs|)
      && (s.handler.Wait? ==> s.children != map[])
      && (s.main.Forked? ==> s.main.pid >= 1 && FindPid(jobs, 0, 0) < |jobs|)
  {
    RunKeeps(run, k);
    var s := run[k];
    if s.handler.Got? {
      FindPidTestsMember(s.table.jobs, s.handler.pid);
    }
    if s.handler.Wait? {
      assert s.children.Keys == Pids(s.table.jobs);
      var p :| p in Pids(s.table.jobs);
      assert p in s.children;
    }
    if s.main.Forked? {
      HasFreeSlot(s.table);
    }
  }

  // do_bgfg sends SIGCONT only to the group of a job that it found: kill(0, SIGCONT), which would reach the shell's
  // own group, cannot happen even if the job is reaped between the lookup and the kill.
  lemma ContinuesAJob(run: seq<State>, k: nat)
    requires Run(run) && k < |run| && run[k].main.Continue?
    ensures run[k].main.pid >= 1 && Held(run[k].table.jobs, run[k].main.pid, run[k].main.slot)
  {
    RunKeeps(run, k);
  }

  ghost predicate IsForeground(s: State, i: nat) {
    i < |s.table.jobs| && s.table.jobs[i].pid != 0 && s.table.jobs[i].state == Fg
  }

  // At most one job is in the foreground; none is when the shell is at its prompt, forks or looks up a job. The job that
  // the main thread waits for is in the foreground unless it has stopped.
  lemma OneForeground(run: seq<State>, k: nat, i: nat, j: nat)
    requires Run(run) && k < |run|
    ensures IsForeground(run[k], i) && IsForeground(run[k], j) ==> i == j
    ensures IsForeground(run[k], i) ==> run[k].table.jobs[i].pid == Foreground(run[k].main)
    ensures run[k].main.Prompt? ==> !IsForeground(run[k], i)
    ensures var main, jobs := run[k].main, run[k].table.jobs;
      i < |jobs| && jobs[i].pid >= 1 && WaitsFor(main, jobs[i].pid) && !main.Forked? && !main.SetState? ==>
        jobs[i].state == Fg || jobs[i].state == St
  {
    RunKeeps(run, k);
    assert FgOk(run[k], i) && FgOk(run[k], j) && PidsDiffer(run[k].table.jobs, i, j);
  }

  // The main thread is not to read a command before it has waited for pid: eval from fork on, and do_bgfg once it is
  // about to mark the job FG.
  predicate WaitsFor(m: Main, pid: int) {
    match m
    case Forked(p, bg, _) => p == pid && !bg
    case Added(p, bg) => p == pid && !bg
    case SetState(fg, p, _) => p == pid && fg
    case Lookup(p, _) => p == pid
    case CheckPid(p, _) => p == pid
    case CheckState(p, _) => p == pid
    case Pause(p, _) => p == pid
    case _ => false
  }

  // Step m goes back to the prompt, and the job it waited for has left the table or is marked ST.
  ghost predicate GivesUp(run: seq<State>, m: nat, pid: int) {
    && m + 1 < |run| && WaitsFor(run[m].main, pid) && run[m + 1].main.Prompt?
    && var jobs := run[m + 1].table.jobs; forall i :: 0 <= i < |jobs| && jobs[i].pid == pid ==> jobs[i].state == St
  }

  // Only the main thread moves on.
  lemma MainMoves(s: State, s': State)
    requires TableOk(s.table) && Next(s, s') && s'.main != s.main
    ensures |s.table.jobs| == MAXJOBS && s.handler.Idle? && MainStep(s, s')
  {
    hide MainStep, SlotOk, PidsDiffer;
  }

  lemma WaitStep(s: State, s': State, pid: int)
    requires Inv(s) && Next(s, s') && WaitsFor(s.main, pid) && pid >= 1
    ensures WaitsFor(s'.main, pid) ||
      (s'.main.Prompt? && forall i :: 0 <= i < |s'.table.jobs| && s'.table.jobs[i].pid == pid ==> s'.table.jobs[i].state == St)
  {
    hide Pids, PidsAgree, HandlerOk, SlotOk, PidsDiffer, Next;
    var jobs := s.table.jobs;
    if !WaitsFor(s'.main, pid) {
      MainMoves(s, s');
      forall i: nat | i < |jobs| ensures jobs[i].pid == pid ==> jobs[i].state == St {
        assert FgOk(s, i);
        if s.main.Lookup? { assert i < s.main.i ==> NotIn(jobs, pid, i); }
        else { assert i != s.main.slot ==> NotIn(jobs, pid, i); }
      }
    }
  }

  lemma {:induction false} WaitsToTheEnd(run: seq<State>, k: nat, n: nat, pid: int)
    requires Run(run) && k <= n < |run| && pid >= 1 && WaitsFor(run[k].main, pid)
    ensures WaitsFor(run[n].main, pid) || exists m :: k <= m < n && GivesUp(run, m, pid)
    decreases n
  {
    hide Inv, Next, WaitsFor, Init;
    if k < n {
      WaitsToTheEnd(run, k, n - 1, pid);
      if WaitsFor(run[n - 1].main, pid) {
        RunKeeps(run, n - 1);
        assert StepAt(run, n - 1);
        WaitStep(run[n - 1], run[n], pid);
        assert WaitsFor(run[n].main, pid) || GivesUp(run, n - 1, pid);
      }
    }
  }

  lemma {:induction false} ForkComes(run: seq<State>, k: nat, n: nat, cmdline: string) returns (j: nat)
    requires Run(run) && k < n < |run| && run[k].main == Blocking(false, cmdline) && run[n].main != run[k].main
    ensures k < j <= n && run[j].main.Forked? && run[j].main.pid >= 1 && run[j].main == Forked(run[j].main.pid, false, cmdline)
    decreases n - k
  {
    assert StepAt(run, k);
    if run[k + 1].main == run[k].main { j := ForkComes(run, k + 1, n, cmdline); } else { j := k + 1; }
  }

  // The shell waits for a foreground command: between eval and any later prompt its child was forked, and the step
  // that gave up waiting for it found its job deleted or stopped.
  lemma ForegroundIsWaitedFor(run: seq<State>, k: nat, n: nat, cmdline: string)
    requires Run(run) && k < n < |run| && run[k].main == Blocking(false, cmdline) && run[n].main.Prompt?
    ensures exists j, m, pid :: k < j <= m < n && run[j].main == Forked(pid, false, cmdline) && GivesUp(run, m, pid)
  {
    var j := ForkComes(run, k, n, cmdline);
    var pid := run[j].main.pid;
    WaitsToTheEnd(run, j, n, pid);
    var m :| j <= m < n && GivesUp(run, m, pid);
    assert run[j].main == Forked(pid, false, cmdline);
  }

  // fg waits as well.
  lemma FgWaits(run: seq<State>, k: nat, n: nat, pid: int, slot: nat)
    requires Run(run) && k < n < |run| && pid >= 1 && run[k].main == SetState(true, pid, slot) && run[n].main.Prompt?
    ensures exists m :: k < m < n && GivesUp(run, m, pid)
  {
    WaitsToTheEnd(run, k, n, pid);
    var m :| k <= m < n && GivesUp(run, m, pid);
    assert StepAt(run, k);
  }

  lemma AddedIsIn(s: State)
    requires Inv(s) && s.main.Added?
    ensures exists j :: 0 <= j < MAXJOBS && s.table.jobs[j].pid == s.main.pid
  {
  }

  // Jobs are marked as asked: a new one FG or BG before its death can be noticed, and one that bg or fg has found BG or
  // FG in its slot, unless it is gone by then.
  lemma MarkedAsAsked(run: seq<State>, k: nat, i: nat)
    requires Run(run) && k + 1 < |run| && i < MAXJOBS
    ensures var s, s' := run[k], run[k + 1]; var jobs, jobs' := s.table.jobs, s'.table.jobs;
      && |jobs| == |jobs'| == MAXJOBS
      && (s.main.Added? && jobs[i].pid == s.main.pid ==> jobs[i].state == if s.main.bg then Bg else Fg)
      && (s.main.Added? ==> exists j :: 0 <= j < MAXJOBS && jobs[j].pid == s.main.pid)
      && (s.main.SetState? && s'.main != s.main && s.main.pid >= 1 && jobs[i].pid == s.main.pid ==>
            jobs'[i] == jobs[i].(state := if s.main.fg then Fg else Bg))
      && (s.main.SetState? && s'.main != s.main ==> s'.main == if s.main.fg then Lookup(s.main.pid, 0) else Prompt)
  {
    hide Next, Pids, PidsAgree, HandlerOk, SlotOk, PidsDiffer;
    RunKeeps(run, k);
    RunKeeps(run, k + 1);
    assert StepAt(run, k);
    var s := run[k];
    if run[k + 1].main != s.main { MainMoves(s, run[k + 1]); }
    if s.main.Added? { AddedIsIn(s); }
    if s.main.Added? { assert MarkedAt(s.table.jobs, s.main.pid, if s.main.bg then Bg else Fg, i); }
    if s.main.SetState? && s.main.pid >= 1 { assert i != s.main.slot ==> NotIn(s.table.jobs, s.main.pid, i); }
  }

  predicate InBgFg(m: Main) {
    m.FindByPid? || m.FindByJid? || m.ReadPid? || m.TestStopped? || m.Continue? || m.SetState?
  }

  // bg and fg go on with the slot that has the pid or jid asked for, and report a missing job only if none has. They
  // send SIGCONT to a job that is marked ST: when they go on to mark it, its child is not stopped.
  lemma BgFgFinds(run: seq<State>, k: nat, i: nat)
    requires Run(run) && k + 1 < |run| && i < MAXJOBS
    ensures var s, s' := run[k], run[k + 1]; var jobs := s.table.jobs;
      && |jobs| == MAXJOBS
      && (InBgFg(s.main) && InBgFg(s'.main) ==> s'.main.fg == s.main.fg)
      && (s.main.FindByPid? && s'.main.TestStopped? ==>
            s'.main.slot < MAXJOBS && jobs[s'.main.slot].pid == s.main.pid == s'.main.pid)
      && (s.main.FindByJid? && s'.main.ReadPid? ==> s'.main.slot < MAXJOBS && jobs[s'.main.slot].jid == s.main.jid)
      && (s.main.ReadPid? && s'.main.TestStopped? ==>
            s'.main.slot == s.main.slot < MAXJOBS && s'.main.pid == jobs[s.main.slot].pid)
      && (s.main.FindByPid? && s'.main.Prompt? && s.main.pid >= 1 ==> jobs[i].pid != s.main.pid)
      && (s.main.FindByJid? && s'.main.Prompt? && s.main.jid >= 1 ==> jobs[i].jid != s.main.jid)
      && (s.main.TestStopped? && s'.main.SetState? ==> s.main.slot < MAXJOBS && jobs[s.main.slot].state != St)
      && (s.main.Continue? && s'.main.SetState? ==> s.main.pid in s'.children ==> !s'.children[s.main.pid].Stopped?)
  {
    hide Next, Pids, PidsAgree, HandlerOk, SlotOk, PidsDiffer;
    RunKeeps(run, k);
    assert StepAt(run, k);
    var s := run[k];
    if run[k + 1].main != s.main { MainMoves(s, run[k + 1]); }
    if s.main.FindByPid? && s.main.pid >= 1 { assert i < s.main.i ==> NotIn(s.table.jobs, s.main.pid, i); }
    if s.main.FindByJid? && s.main.jid >= 1 { assert i < s.main.i ==> JidNotIn(s.table.jobs, s.main.jid, i); }
  }

  // The keyboard handlers signal the job that fgpid names. It is the foreground job unless do_bgfg has left FG in a
  // lower slot whose job was reaped meanwhile; then fgpid answers 0.
  lemma FgPidIsForeground(run: seq<State>, k: nat, i: nat)
    requires Run(run) && k < |run| && IsForeground(run[k], i)
    ensures var jobs := run[k].table.jobs; var f := FindState(jobs, Fg, 0);
      && f <= i
      && (jobs[f].pid == jobs[i].pid <==> forall j :: 0 <= j < i ==> !(jobs[j].pid == 0 && jobs[j].state == Fg))
      && (jobs[f].pid == jobs[i].pid || jobs[f].pid == 0)
  {
    RunKeeps(run, k);
    var f := FindState(run[k].table.jobs, Fg, 0);
    assert FgOk(run[k], f) && FgOk(run[k], i) && PidsDiffer(run[k].table.jobs, f, i);
    forall j: nat | j < i ensures run[k].table.jobs[j].state == Fg ==> run[k].table.jobs[j].pid == 0 {
      assert FgOk(run[k], j) && PidsDiffer(run[k].table.jobs, j, i) && SlotOk(run[k].table.jobs, j);
    }
  }

  // When the handler returns, no zombie and no unreported stop is left.
  lemma HandlerReapsAll(run: seq<State>, k: nat)
    requires Run(run) && k + 1 < |run| && !run[k].handler.Idle? && run[k + 1].handler.Idle?
    ensures Quiet(run[k + 1].children) && Pids(run[k + 1].table.jobs) == run[k + 1].children.Keys
  {
    hide SlotOk, PidsDiffer, Pids, NotBelow, OnlyAt, MainOk, FgOk;
    RunKeeps(run, k);
    RunKeeps(run, k + 1);
    assert StepAt(run, k);
    if run[k].handler.Head? {
      MaxJidTestsEmpty(run[k].table);
      assert run[k].children.Keys == {};
    }
  }

  // ----- a run in which fgpid misses the foreground job -----

  function Last(run: seq<State>): State
    requires |run| > 0
  {
    run[|run| - 1]
  }

  lemma Extend(run: seq<State>, s': State) returns (r: seq<State>)
    requires Run(run) && Next(Last(run), s')
    ensures Run(r) && Last(r) == s'
  {
    r := run + [s'];
    forall k: nat ensures StepAt(r, k) { assert StepAt(run, k); }
  }

  // eval of a background command.
  lemma StartJob(run: seq<State>, pid: int) returns (r: seq<State>)
    requires Run(run) && pid >= 1
    requires var s := Last(run);
      && s.main == Prompt && s.handler == Idle && |s.table.jobs| == MAXJOBS && FindPid(s.table.jobs, 0, 0) < MAXJOBS
      && pid !in s.children && |s.children| < MAXJOBS
    ensures var s := Last(run);
      Run(r) && Last(r) == s.(table := Add(s.table, pid, Bg, ""), children := s.children[pid := Running])
  {
    var s := Last(run);
    var s1 := s.(main := Blocking(true, ""));
    var s2 := s1.(children := s.children[pid := Running], main := Forked(pid, true, ""));
    assert ReadCommand(s, s1) && Fork(s1, s2, true, "");
    assert Add(s.table, pid, Bg, "").jobs[FindPid(s.table.jobs, 0, 0)].pid == pid;
    r := Extend(run, s1);
    r := Extend(r, s2);
    r := Extend(r, AfterAdd(s2, pid, true, ""));
    r := Extend(r, Last(r).(main := Prompt));
  }

  // waitfg of a pid that is in no slot from i on gives up.
  lemma LookupFails(run: seq<State>, pid: int, i: nat) returns (r: seq<State>)
    requires Run(run) && i <= MAXJOBS
    requires var s := Last(run);
      s.main == Lookup(pid, i) && s.handler == Idle && |s.table.jobs| == MAXJOBS && forall j :: i <= j < MAXJOBS ==> s.table.jobs[j].pid != pid
    ensures Run(r) && Last(r) == Last(run).(main := Prompt)
    decreases MAXJOBS - i
  {
    var s := Last(run);
    if i == MAXJOBS || pid < 1 {
      r := Extend(run, s.(main := Prompt));
    } else {
      r := Extend(run, s.(main := Lookup(pid, i + 1)));
      r := LookupFails(r, pid, i + 1);
    }
  }

  // do_bgfg up to the assignment of the state, for a job in slot 0 or 1 that is not stopped.
  lemma FindJob(run: seq<State>, pid: int, slot: nat) returns (r: seq<State>)
    requires Run(run) && pid >= 1 && slot <= 1
    requires var s := Last(run);
      && s.main == Prompt && s.handler == Idle && |s.table.jobs| == MAXJOBS && s.table.jobs[slot].pid == pid
      && s.table.jobs[slot].state != St && (slot == 1 ==> s.table.jobs[0].pid != pid)
    ensures Run(r) && Last(r) == Last(run).(main := SetState(true, pid, slot))
  {
    var s := Last(run);
    var s1 := s.(main := FindByPid(true, pid, 0));
    assert ReadCommand(s, s1);
    r := Extend(run, s1);
    if slot == 1 { r := Extend(r, s.(main := FindByPid(true, pid, 1))); }
    r := Extend(r, s.(main := TestStopped(true, pid, slot)));
    r := Extend(r, s.(main := SetState(true, pid, slot)));
  }

  // The child exits and the handler deletes its job; the other child has nothing to report.
  lemma Reap(run: seq<State>, pid: int, other: int) returns (r: seq<State>)
    requires Run(run) && pid >= 1
    requires var s := Last(run);
      && s.handler == Idle && !Blocked(s.main) && |s.table.jobs| == MAXJOBS && pid != other
      && s.children == map[pid := Running, other := Running] && s.table.jobs[1].pid == other && s.table.jobs[1].jid == 2
    ensures var s := Last(run);
      Run(r) && Last(r) == s.(table := Delete(s.table, pid), children := map[other := Running])
  {
    var s := Last(run);
    var dead := s.children[pid := Dead(false)];
    var s1 := s.(children := dead);
    assert ChildMoves(s.children[pid], Dead(false));
    r := Extend(run, s1);
    r := Extend(r, s1.(handler := Head));
    assert s.table.jobs[1].jid <= MaxJid(s.table.jobs, MAXJOBS);
    r := Extend(r, s1.(handler := Wait));
    assert dead - {pid} == map[other := Running];
    var s4 := s1.(children := map[other := Running], handler := Got(pid, Dead(false)));
    assert WaitPid(Last(r), s4);
    r := Extend(r, s4);
    var s5 := AfterGot(s4, pid, Dead(false));
    r := Extend(r, s5);
    assert s5.table.jobs[1] == s.table.jobs[1];
    assert s5.table.jobs[1].jid <= MaxJid(s5.table.jobs, MAXJOBS);
    r := Extend(r, s5.(handler := Wait));
    assert Quiet(s5.children);
    r := Extend(r, s5.(handler := Idle));
  }

  // Two background jobs; the first exits just before `fg` marks its slot, and the second is then brought to the
  // foreground in slot 1. The answer of fgpid is the 0 of slot 0.
  lemma ForegroundUnseen() returns (run: seq<State>)
    ensures Run(run)
    ensures var jobs := Last(run).table.jobs;
      |jobs| == MAXJOBS && IsForeground(Last(run), 1) && FindState(jobs, Fg, 0) == 0 && jobs[0].pid == 0
  {
    var s0 := State(Table(seq(MAXJOBS, _ => EMPTY), 1), map[], Prompt, Idle);
    run := [s0];
    forall k: nat ensures StepAt(run, k) { }
    run := StartJob(run, 1);
    var t1 := Last(run).table;
    assert t1 == Table(s0.table.jobs[0 := Job(1, 1, Bg, "")], 2);
    assert FindPid(t1.jobs, 0, 0) == FindPid(t1.jobs, 0, 1) == 1;
    run := StartJob(run, 2);
    var t2 := Last(run).table;
    assert t2.jobs == t1.jobs[1 := Job(2, 2, Bg, "")];
    run := FindJob(run, 1, 0);
    run := Reap(run, 1, 2);
    var t3 := Last(run).table;
    assert t3.jobs == t2.jobs[0 := EMPTY];
    run := Extend(run, Last(run).(table := WithState(t3, 0, Fg), main := Lookup(1, 0)));
    run := LookupFails(run, 1, 0);
    run := FindJob(run, 2, 1);
    run := Extend(run, Last(run).(table := WithState(Last(run).table, 1, Fg), main := Lookup(2, 0)));
  }
}
