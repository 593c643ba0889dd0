/** The protocol of ASSN5/tsh.c between `eval`, its child processes and `sigchld_handler`, as a
    state machine: every interleaving of the steps of the three is a run. */
module JobControl {
  import opened JobTable

  /** A child that has not been reaped. A stop is pending until waitpid has reported it. */
  datatype Child = Running | StopPending | Stopped | Zombie

  /** Where `eval` stands: outside, or with SIGCHLD blocked before fork, between fork and
      addjob, or after addjob */
  datatype Phase = Idle | Blocked | Forked(pid: int) | Added

  datatype Event = Terminated | Halted

  /** Where the handler stands: not active, at its waitpid, or holding what waitpid returned */
  datatype Handler = Inactive | Waiting | Reported(pid: int, event: Event)

  datatype State = State(table: Table, children: map<int, Child>, phase: Phase, handler: Handler)

  datatype Step =
    // the shell
    | Block | Fork(pid: int) | AddJob(state: JobState, cmdline: string) | Unblock
    | BgFg(slot: nat, state: JobState)
    // a child
    | Exit(pid: int) | Stop(pid: int) | Continue(pid: int)
    // the handler
    | Enter | Wait(pid: int) | Record | Leave

  predicate Reportable(c: Child) {
    c == Zombie || c == StopPending
  }

  /** The shell itself runs only while the handler does not, and the handler is entered only
      while SIGCHLD is not blocked. Children go on at any time. */
  predicate Enabled(s: State, step: Step) {
    match step
    case Block => s.handler == Inactive && s.phase == Idle
    case Fork(pid) => s.handler == Inactive && s.phase == Blocked && pid >= 1 && pid !in s.children
    case AddJob(_, _) => s.handler == Inactive && s.phase.Forked?
    case Unblock => s.handler == Inactive && s.phase == Added
    case BgFg(slot, _) => s.handler == Inactive && s.phase == Idle && slot < |s.table.jobs|
    case Exit(pid) => pid in s.children && s.children[pid] != Zombie
    case Stop(pid) => pid in s.children && s.children[pid] == Running
    case Continue(pid) => pid in s.children && (s.children[pid] == Stopped || s.children[pid] == StopPending)
    case Enter => s.handler == Inactive && s.phase == Idle
    case Wait(pid) => s.handler == Waiting && pid in s.children && Reportable(s.children[pid])
    case Record => s.handler.Reported?
    case Leave => s.handler == Waiting && forall p :: p in s.children ==> !Reportable(s.children[p])
  }

  function Next(s: State, step: Step): State
    requires Enabled(s, step)
  {
    match step
    case Block => s.(phase := Blocked)
    case Fork(pid) => s.(phase := Forked(pid), children := s.children[pid := Running])
    case AddJob(state, cmdline) =>
      s.(phase := Added, table := Add(s.table, s.phase.pid, state, cmdline).0)
    case Unblock => s.(phase := Idle)
    // `do_bgfg` writes the state of the job it looked up, with no signal blocked
    case BgFg(slot, state) => s.(table := SetState(s.table, slot, state))
    case Exit(pid) => s.(children := s.children[pid := Zombie])
    case Stop(pid) => s.(children := s.children[pid := StopPending])
    case Continue(pid) => s.(children := s.children[pid := Running])
    case Enter => s.(handler := Waiting)
    case Wait(pid) =>
      if s.children[pid] == Zombie
      then s.(handler := Reported(pid, Terminated), children := s.children - {pid})
      else s.(handler := Reported(pid, Halted), children := s.children[pid := Stopped])
    case Record => Recorded(s)
    case Leave => s.(handler := Inactive)
  }

  /** The body of the handler's loop. A stopped child that is not in the table makes the handler
      print "Lost track" and return at once. */
  function Recorded(s: State): State
    requires s.handler.Reported?
  {
    var pid := s.handler.pid;
    if s.handler.event == Terminated then
      s.(handler := Waiting, table := Delete(s.table, pid).0)
    else
      var slot := Slot(s.table.jobs, pid);
      if pid < 1 || slot == |s.table.jobs| then s.(handler := Inactive)
      else s.(handler := Waiting, table := SetState(s.table, slot, ST))
  }

  predicate LosesTrack(s: State) {
    s.handler.Reported? && s.handler.pid !in Pids(s.table.jobs)
  }

  // ---------------------------------------------------------------- the invariant

  /** The processes that ought to be in the table: the unreaped children, except the one between
      fork and addjob, and the one that waitpid has reaped but the handler not yet deleted */
  function Tracked(s: State): set<int> {
    s.children.Keys
    - (if s.phase.Forked? then {s.phase.pid} else {})
    + (if s.handler.Reported? && s.handler.event == Terminated then {s.handler.pid} else {})
  }

  predicate Accurate(s: State) {
    && |s.table.jobs| == MAXJOBS
    && Distinct(s.table.jobs)
    && Pids(s.table.jobs) == Tracked(s)
    && (forall pid :: pid in s.children ==> pid >= 1)
    && (s.handler != Inactive ==> s.phase == Idle)
    && (s.phase.Forked? ==> s.phase.pid in s.children)
    && (s.handler.Reported? ==> s.handler.pid >= 1)
    && (s.handler.Reported? ==> (s.handler.pid in s.children <==> s.handler.event == Halted))
  }

  /** There is a slot for the child between fork and addjob. */
  predicate Fits(s: State) {
    s.phase.Forked? ==> |s.children| <= MAXJOBS
  }

  predicate Inv(s: State) {
    Accurate(s) && Fits(s)
  }

  const INITIAL := State(InitialTable(), map[], Idle, Inactive)

  /** What the shell would have to check before it forks */
  predicate RoomFor(s: State, step: Step) {
    step.Fork? ==> |s.children| < MAXJOBS
  }

  lemma InitialInv()
    ensures Inv(INITIAL)
  {
  }

  lemma AddKeepsInv(s: State, state: JobState, cmdline: string)
    requires Inv(s) && s.phase.Forked?
    ensures Inv(s.(phase := Added, table := Add(s.table, s.phase.pid, state, cmdline).0))
  {
    hide Pids, Distinct, Add;
    var pid := s.phase.pid;
    assert s.children.Keys == (s.children.Keys - {pid}) + {pid};
    assert Pids(s.table.jobs) == s.children.Keys - {pid};
    assert |s.children.Keys| == |s.children|;
    AddTracks(s.table, pid, state, cmdline);
  }

  lemma RecordKeepsAccurate(s: State)
    requires Accurate(s) && s.handler.Reported?
    ensures Accurate(Recorded(s)) && Recorded(s).phase == s.phase && Recorded(s).handler == Waiting
  {
    hide Pids, Distinct, Delete, SetState;
    var pid := s.handler.pid;
    if s.handler.event == Terminated {
      DeleteForgets(s.table, pid);
      DeleteKeepsLength(s.table, pid);
    } else {
      SlotFinds(s.table.jobs, pid);
      SetStateKeepsPids(s.table, Slot(s.table.jobs, pid), ST);
      SetStateKeepsLength(s.table, Slot(s.table.jobs, pid), ST);
    }
  }

  lemma DeleteKeepsLength(t: Table, pid: int)
    ensures |Delete(t, pid).0.jobs| == |t.jobs|
  {
  }

  lemma SetStateKeepsLength(t: Table, i: nat, state: JobState)
    requires i < |t.jobs|
    ensures |SetState(t, i, state).jobs| == |t.jobs|
  {
  }

  /** Accuracy does not depend on what the children are doing. */
  lemma ChildKeepsAccurate(s: State, pid: int, c: Child)
    requires Accurate(s) && pid in s.children
    ensures Accurate(s.(children := s.children[pid := c])) && |s.children[pid := c]| == |s.children|
  {
    hide Pids, Distinct;
    assert s.children[pid := c].Keys == s.children.Keys;
    assert |s.children[pid := c]| == |s.children[pid := c].Keys| == |s.children.Keys|;
  }

  lemma ForkKeepsAccurate(s: State, pid: int)
    requires Accurate(s) && Enabled(s, Fork(pid))
    ensures Accurate(Next(s, Fork(pid))) && |Next(s, Fork(pid)).children| == |s.children| + 1
  {
    hide Pids, Distinct;
    var s' := Next(s, Fork(pid));
    assert s'.children.Keys == s.children.Keys + {pid};
    assert |s'.children| == |s'.children.Keys|;
    assert Tracked(s') == Tracked(s);
  }

  lemma WaitKeepsAccurate(s: State, pid: int)
    requires Accurate(s) && Enabled(s, Wait(pid))
    ensures Accurate(Next(s, Wait(pid)))
  {
    hide Pids, Distinct;
    var s' := Next(s, Wait(pid));
    assert s'.children.Keys == if s.children[pid] == Zombie then s.children.Keys - {pid} else s.children.Keys;
    assert Tracked(s') == Tracked(s);
  }

  lemma BgFgKeepsAccurate(s: State, slot: nat, state: JobState)
    requires Accurate(s) && Enabled(s, BgFg(slot, state))
    ensures Accurate(Next(s, BgFg(slot, state)))
  {
    hide Pids, Distinct, SetState;
    SetStateKeepsPids(s.table, slot, state);
    SetStateKeepsLength(s.table, slot, state);
  }

  /** Every step but addjob keeps the table accurate, room or not; and only a fork decides
      whether there is room. */
  lemma StepKeepsAccurate(s: State, step: Step)
    requires Accurate(s) && Enabled(s, step) && !step.AddJob?
    ensures Accurate(Next(s, step))
    ensures Fits(Next(s, step)) <==> if step.Fork? then RoomFor(s, step) else Fits(s)
  {
    hide Accurate, Recorded;
    match step
    case Fork(pid) => ForkKeepsAccurate(s, pid);
    case BgFg(slot, state) => BgFgKeepsAccurate(s, slot, state);
    case Exit(pid) => ChildKeepsAccurate(s, pid, Zombie);
    case Stop(pid) => ChildKeepsAccurate(s, pid, StopPending);
    case Continue(pid) => ChildKeepsAccurate(s, pid, Running);
    case Wait(pid) =>
      WaitKeepsAccurate(s, pid);
      HandlerIsIdle(s);
    case Record =>
      RecordKeepsAccurate(s);
      HandlerIsIdle(s);
    case _ => PhaseKeepsAccurate(s, step);
  }

  lemma HandlerIsIdle(s: State)
    requires Accurate(s) && s.handler != Inactive
    ensures s.phase == Idle
  {
  }

  lemma PhaseKeepsAccurate(s: State, step: Step)
    requires Accurate(s) && Enabled(s, step)
    requires step == Block || step == Unblock || step == Enter || step == Leave
    ensures Accurate(Next(s, step))
  {
    hide Pids, Distinct;
    assert Tracked(Next(s, step)) == Tracked(s);
  }

  /** Every step of the shell, of a child or of the handler keeps the invariant. */
  lemma StepKeepsInv(s: State, step: Step)
    requires Inv(s) && Enabled(s, step) && RoomFor(s, step)
    ensures Inv(Next(s, step))
  {
    hide Accurate;
    match step
    case AddJob(state, cmdline) => AddKeepsInv(s, state, cmdline);
    case _ => StepKeepsAccurate(s, step);
  }

  // ---------------------------------------------------------------- runs

  /** The steps can be taken one after the other. */
  predicate IsRun(s: State, steps: seq<Step>)
    decreases |steps|
  {
    steps == [] || (Enabled(s, steps[0]) && IsRun(Next(s, steps[0]), steps[1..]))
  }

  /** Every fork of the run happens with fewer than MAXJOBS children. */
  predicate Roomy(s: State, steps: seq<Step>)
    requires IsRun(s, steps)
    decreases |steps|
  {
    steps == [] || (RoomFor(s, steps[0]) && Roomy(Next(s, steps[0]), steps[1..]))
  }

  /** The table is right after every completed addjob. */
  predicate AddsTracked(s: State, steps: seq<Step>)
    requires IsRun(s, steps)
    decreases |steps|
  {
    steps == [] ||
    var s' := Next(s, steps[0]);
    (steps[0].AddJob? ==> Pids(s'.table.jobs) == Tracked(s')) && AddsTracked(s', steps[1..])
  }

  function After(s: State, steps: seq<Step>): State
    requires IsRun(s, steps)
    decreases |steps|
  {
    if steps == [] then s else After(Next(s, steps[0]), steps[1..])
  }

  lemma {:induction false} RunKeepsInv(s: State, steps: seq<Step>)
    requires Inv(s) && IsRun(s, steps) && Roomy(s, steps)
    ensures Inv(After(s, steps))
    decreases |steps|
  {
    if steps != [] {
      StepKeepsInv(s, steps[0]);
      RunKeepsInv(Next(s, steps[0]), steps[1..]);
    }
  }

  /** In every interleaving the pids in the table are distinct and are exactly the unreaped
      children, but for the one between fork and addjob and the one being deleted, provided that the
      shell forks only with room left; so the handler finds every
      process that waitpid reports, and never loses track. */
  lemma TableTracksChildren(steps: seq<Step>)
    requires IsRun(INITIAL, steps) && Roomy(INITIAL, steps)
    ensures var s := After(INITIAL, steps);
            && Distinct(s.table.jobs)
            && Pids(s.table.jobs) == Tracked(s)
            && (s.phase == Idle && !s.handler.Reported? ==> Pids(s.table.jobs) == s.children.Keys)
            && !LosesTrack(s)
  {
    InitialInv();
    RunKeepsInv(INITIAL, steps);
  }

  /** A reaped child is taken out of the table, and nothing else is. */
  lemma ReapedIsRemoved(s: State, pid: int)
    requires Inv(s) && s.handler == Reported(pid, Terminated)
    ensures pid in Pids(s.table.jobs)
    ensures Pids(Recorded(s).table.jobs) == Pids(s.table.jobs) - {pid} == s.children.Keys
    ensures Recorded(s).handler == Waiting
    ensures var jobs, jobs' := s.table.jobs, Recorded(s).table.jobs;
            && |jobs'| == |jobs|
            && exists i :: 0 <= i < |jobs|
                 && jobs[i].pid == pid && jobs'[i] == Job(0, 0, UNDEF, "")
                 && forall j :: 0 <= j < |jobs| && j != i ==> jobs'[j] == jobs[j] && jobs[j].pid != pid
  {
    DeleteClearsOneSlot(s.table, pid);
    hide Distinct, Pids, Delete;
    DeleteForgets(s.table, pid);
    assert s.children.Keys == Tracked(s) - {pid};
    OnlySlot(s.table.jobs, pid);
  }

  lemma OnlySlot(jobs: seq<Job>, pid: int)
    requires Distinct(jobs) && pid != 0
    ensures pid in Pids(jobs) ==>
              exists i :: 0 <= i < |jobs| && jobs[i].pid == pid
                          && forall j :: 0 <= j < |jobs| && j != i ==> jobs[j].pid != pid
    ensures forall i, j :: 0 <= i < |jobs| && 0 <= j < |jobs| && jobs[i].pid == jobs[j].pid == pid ==> i == j
  {
    if pid in Pids(jobs) {
      var i :| 0 <= i < |jobs| && jobs[i].pid == pid;
    }
  }

  /** For a stopped child the handler writes ST into the slot of its job, whose other fields it
      keeps, and leaves every other slot alone. */
  lemma StopIsRecorded(s: State, pid: int)
    requires Inv(s) && s.handler == Reported(pid, Halted)
    ensures var t, t' := s.table, Recorded(s).table;
            && |t'.jobs| == |t.jobs| && t'.nextjid == t.nextjid
            && exists i :: 0 <= i < |t.jobs|
                 && t.jobs[i].pid == pid && t'.jobs[i] == Job(pid, t.jobs[i].jid, ST, t.jobs[i].cmdline)
                 && forall j :: 0 <= j < |t.jobs| && j != i ==> t'.jobs[j] == t.jobs[j] && t.jobs[j].pid != pid
  {
    var jobs := s.table.jobs;
    SlotFinds(jobs, pid);
    OnlySlot(jobs, pid);
    var i := Slot(jobs, pid);
    assert jobs[i].pid == pid;
  }

  /** No bg or fg command is for this process, and nothing is reported of it, except that a job in
      state ST may be reported as stopped again. */
  predicate Untouched(s: State, steps: seq<Step>, pid: int, state: JobState)
    requires IsRun(s, steps)
    decreases |steps|
  {
    steps == []
    || ((steps[0].BgFg? ==> s.table.jobs[steps[0].slot].pid != pid)
        && (steps[0].Record? && s.handler.pid == pid ==> s.handler.event == Halted && state == ST)
        && Untouched(Next(s, steps[0]), steps[1..], pid, state))
  }

  lemma StepKeepsJob(s: State, step: Step, i: nat)
    requires Enabled(s, step) && i < |s.table.jobs| && s.table.jobs[i].pid != 0
    requires step.BgFg? ==> s.table.jobs[step.slot].pid != s.table.jobs[i].pid
    requires step.Record? && s.handler.pid == s.table.jobs[i].pid ==>
               s.handler.event == Halted && s.table.jobs[i].state == ST
    ensures |Next(s, step).table.jobs| == |s.table.jobs| && Next(s, step).table.jobs[i] == s.table.jobs[i]
  {
  }

  /** A job stays as it is through every run that does not touch it, room or not. */
  lemma {:induction false} JobStays(s: State, steps: seq<Step>, i: nat)
    requires IsRun(s, steps) && i < |s.table.jobs| && s.table.jobs[i].pid != 0
    requires Untouched(s, steps, s.table.jobs[i].pid, s.table.jobs[i].state)
    ensures |After(s, steps).table.jobs| == |s.table.jobs| && After(s, steps).table.jobs[i] == s.table.jobs[i]
    decreases |steps|
  {
    if steps != [] {
      hide Next, Enabled;
      StepKeepsJob(s, steps[0], i);
      JobStays(Next(s, steps[0]), steps[1..], i);
    }
  }

  /** From the report of a stop on, the job has state ST, whatever the shell, the children and the
      handler do, until a bg or fg command is for it or the child's end is reported. */
  lemma StoppedStays(s: State, pid: int, after: seq<Step>)
    requires Inv(s) && s.handler == Reported(pid, Halted)
    requires IsRun(Next(s, Record), after) && Untouched(Next(s, Record), after, pid, ST)
    ensures var jobs, jobs' := s.table.jobs, After(Next(s, Record), after).table.jobs;
            && |jobs'| == |jobs|
            && exists i :: 0 <= i < |jobs| && jobs[i].pid == pid
                           && jobs'[i] == Job(pid, jobs[i].jid, ST, jobs[i].cmdline)
  {
    StopIsRecorded(s, pid);
    hide Inv, Untouched, IsRun, After, Recorded;
    var i :| 0 <= i < |s.table.jobs| && s.table.jobs[i].pid == pid
             && Recorded(s).table.jobs[i] == Job(pid, s.table.jobs[i].jid, ST, s.table.jobs[i].cmdline);
    JobStays(Next(s, Record), after, i);
  }

  /** From addjob on, the job has the state and command line that `eval` gave it and the job id
      that was next, as long as it is not touched. */
  lemma AddedStays(s: State, pid: int, state: JobState, cmdline: string, after: seq<Step>)
    requires Inv(s) && s.phase == Forked(pid) && s.handler == Inactive
    requires IsRun(Next(s, AddJob(state, cmdline)), after)
    requires Untouched(Next(s, AddJob(state, cmdline)), after, pid, state)
    ensures var jobs, jobs' := s.table.jobs, After(Next(s, AddJob(state, cmdline)), after).table.jobs;
            && |jobs'| == |jobs|
            && exists i :: 0 <= i < |jobs| && jobs[i].pid == 0
                           && jobs'[i] == Job(pid, s.table.nextjid, state, cmdline)
  {
    AddSucceeds(s, state, cmdline);
    AddFillsOneSlot(s.table, pid, state, cmdline);
    hide Inv, Untouched, IsRun, After, Add;
    var s1 := Next(s, AddJob(state, cmdline));
    var i :| 0 <= i < |s.table.jobs| && s.table.jobs[i].pid == 0
             && s1.table.jobs[i] == Job(pid, s.table.nextjid, state, cmdline);
    JobStays(s1, after, i);
  }

  lemma AddSucceeds(s: State, state: JobState, cmdline: string)
    requires Inv(s) && s.phase.Forked? && s.handler == Inactive
    ensures s.phase.pid >= 1 && Add(s.table, s.phase.pid, state, cmdline).1
  {
    hide Pids, Distinct, Add;
    var pid := s.phase.pid;
    AddTracks(s.table, pid, state, cmdline);
    assert s.children.Keys == (s.children.Keys - {pid}) + {pid};
    assert |s.children.Keys| == |s.children|;
  }

  /** From a bg or fg command on, so has the job it was for the state that the command wrote. */
  lemma MovedStays(s: State, slot: nat, state: JobState, after: seq<Step>)
    requires Enabled(s, BgFg(slot, state)) && s.table.jobs[slot].pid != 0
    requires IsRun(Next(s, BgFg(slot, state)), after)
    requires Untouched(Next(s, BgFg(slot, state)), after, s.table.jobs[slot].pid, state)
    ensures var s', job := After(Next(s, BgFg(slot, state)), after), s.table.jobs[slot];
            && |s'.table.jobs| == |s.table.jobs|
            && s'.table.jobs[slot] == Job(job.pid, job.jid, state, job.cmdline)
  {
    JobStays(Next(s, BgFg(slot, state)), after, slot);
  }

  /** Steps of the children and the handler, while the shell is in `waitfg` */
  predicate ShellWaits(steps: seq<Step>) {
    forall step :: step in steps ==>
      step.Exit? || step.Stop? || step.Continue? || step.Enter? || step.Wait? || step.Record? || step.Leave?
  }

  /** The handler takes in a report of this process. */
  predicate Reports(s: State, steps: seq<Step>, pid: int)
    requires IsRun(s, steps)
    decreases |steps|
  {
    steps != []
    && ((steps[0].Record? && s.handler.pid == pid) || Reports(Next(s, steps[0]), steps[1..], pid))
  }

  /** `waitfg` looks at one slot: while only the children and the handler run, its state stops
      being FG if and only if a stop or the end of the job's process has been reported. */
  lemma {:induction false} WaitfgReturnsIff(s: State, steps: seq<Step>, i: nat)
    requires Inv(s) && IsRun(s, steps) && ShellWaits(steps)
    requires i < |s.table.jobs| && s.table.jobs[i].pid != 0 && s.table.jobs[i].state == FG
    ensures |After(s, steps).table.jobs| == |s.table.jobs|
    ensures After(s, steps).table.jobs[i].state != FG <==> Reports(s, steps, s.table.jobs[i].pid)
    decreases |steps|
  {
    if steps != [] {
      hide Inv, Next, Enabled;
      var step := steps[0];
      assert step in steps;
      StepKeepsInv(s, step);
      if step.Record? && s.handler.pid == s.table.jobs[i].pid {
        ReportEndsWait(s, i);
        StaysSettled(Next(s, step), steps[1..], i);
      } else {
        StepKeepsJob(s, step, i);
        WaitfgReturnsIff(Next(s, step), steps[1..], i);
      }
    }
  }

  lemma ReportEndsWait(s: State, i: nat)
    requires Inv(s) && Enabled(s, Record) && i < |s.table.jobs| && s.table.jobs[i].pid == s.handler.pid
    ensures |Next(s, Record).table.jobs| == |s.table.jobs|
    ensures Next(s, Record).table.jobs[i].state == if s.handler.event == Halted then ST else UNDEF
  {
    OnlySlot(s.table.jobs, s.handler.pid);
  }

  lemma {:induction false} StaysSettled(s: State, steps: seq<Step>, i: nat)
    requires IsRun(s, steps) && ShellWaits(steps) && i < |s.table.jobs| && s.table.jobs[i].state != FG
    ensures |After(s, steps).table.jobs| == |s.table.jobs| && After(s, steps).table.jobs[i].state != FG
    decreases |steps|
  {
    if steps != [] {
      assert steps[0] in steps;
      StaysSettled(Next(s, steps[0]), steps[1..], i);
    }
  }

  /** When the handler returns, the table lists just the children. That none of them is a zombie
      is what waitpid's answer of no more children means. */
  lemma HandlerLeavesNoZombie(s: State)
    requires Inv(s) && Enabled(s, Leave)
    ensures Pids(Next(s, Leave).table.jobs) == s.children.Keys
    ensures forall pid :: pid in Pids(s.table.jobs) ==> s.children[pid] == Running || s.children[pid] == Stopped
  {
    hide Pids, Distinct;
  }

  /** The children that waitpid has something to say about */
  function Pending(s: State): set<int> {
    set pid | pid in s.children && Reportable(s.children[pid])
  }

  lemma LeaveIffNothingPending(s: State)
    requires s.handler == Waiting
    ensures Enabled(s, Leave) <==> Pending(s) == {}
  {
    if Enabled(s, Leave) {
      forall p | p in s.children
        ensures p !in Pending(s)
      {
        assert !Reportable(s.children[p]);
      }
      assert Pending(s) == {};
    } else {
      var p :| p in s.children && Reportable(s.children[p]);
      assert p in Pending(s);
    }
  }

  /** The handler's loop ends: it can return if and only if nothing is pending, and each turn,
      whichever child waitpid picks, settles that child and comes back to waitpid. */
  lemma HandlerFinishes(s: State, pid: int)
    requires Inv(s) && s.handler == Waiting
    ensures Enabled(s, Leave) <==> Pending(s) == {}
    ensures Enabled(s, Wait(pid)) <==> pid in Pending(s)
    ensures pid in Pending(s) ==>
              var s' := Next(s, Wait(pid));
              && Enabled(s', Record) && Next(s', Record).handler == Waiting
              && Pending(Next(s', Record)) == Pending(s) - {pid}
  {
    hide Pids, Distinct, Delete, SetState, Accurate, Slot;
    LeaveIffNothingPending(s);
    if pid in Pending(s) {
      WaitKeepsAccurate(s, pid);
      RecordKeepsAccurate(Next(s, Wait(pid)));
    }
  }

  /** addjob succeeds exactly when fewer than MAXJOBS children were alive at the fork; if not,
      the new child is in no slot. */
  lemma NewJobIsTrackedIff(s: State, pid: int, state: JobState, cmdline: string)
    requires Distinct(s.table.jobs) && |s.table.jobs| == MAXJOBS && Pids(s.table.jobs) == Tracked(s)
    requires s.handler == Inactive && s.phase == Forked(pid) && pid >= 1 && pid in s.children
    ensures var s' := Next(s, AddJob(state, cmdline));
            pid in Pids(s'.table.jobs) <==> |s.children| <= MAXJOBS
  {
    hide Distinct, Pids, Add;
    AddTracks(s.table, pid, state, cmdline);
    assert s.children.Keys == Tracked(s) + {pid};
    assert |s.children| == |Tracked(s)| + 1;
  }

  /** Without room, addjob leaves a child out: there are more children than slots. */
  lemma AddLeavesOut(s: State, state: JobState, cmdline: string)
    requires Accurate(s) && s.phase.Forked? && s.handler == Inactive && !Fits(s)
    ensures var s' := Next(s, AddJob(state, cmdline)); Pids(s'.table.jobs) != Tracked(s')
  {
    hide Distinct, Pids, Add;
    var s' := Next(s, AddJob(state, cmdline));
    AddTracks(s.table, s.phase.pid, state, cmdline);
    PidsCount(s'.table.jobs);
    assert Tracked(s') == s.children.Keys && |s.children.Keys| == |s.children|;
  }

  lemma {:induction false} TrackedIffRoomy(s: State, steps: seq<Step>)
    requires Accurate(s) && IsRun(s, steps) && !After(s, steps).phase.Forked?
    ensures AddsTracked(s, steps) <==> Fits(s) && Roomy(s, steps)
    decreases |steps|
  {
    hide Accurate, Pids, Tracked;
    if steps != [] {
      var s' := Next(s, steps[0]);
      if !steps[0].AddJob? {
        StepKeepsAccurate(s, steps[0]);
        TrackedIffRoomy(s', steps[1..]);
      } else if Fits(s) {
        AddKeepsInv(s, steps[0].state, steps[0].cmdline);
        InvTracks(s');
        TrackedIffRoomy(s', steps[1..]);
      } else {
        AddLeavesOut(s, steps[0].state, steps[0].cmdline);
      }
    }
  }

  lemma InvTracks(s: State)
    requires Inv(s)
    ensures Pids(s.table.jobs) == Tracked(s)
  {
  }

  /** Over every interleaving in which each fork reaches its addjob: the table is right after
      every addjob if and only if every fork happened with fewer than MAXJOBS children. */
  lemma TrackedIffRoomAtForks(steps: seq<Step>)
    requires IsRun(INITIAL, steps) && !After(INITIAL, steps).phase.Forked?
    ensures AddsTracked(INITIAL, steps) <==> Roomy(INITIAL, steps)
  {
    InitialInv();
    TrackedIffRoomy(INITIAL, steps);
  }

  // ---------------------------------------------------------------- one child too many

  lemma {:induction false} RunJoin(s: State, a: seq<Step>, b: seq<Step>)
    requires IsRun(s, a) && IsRun(After(s, a), b)
    ensures IsRun(s, a + b) && After(s, a + b) == After(After(s, a), b)
    ensures Roomy(s, a + b) <==> Roomy(s, a) && Roomy(After(s, a), b)
    decreases |a|
  {
    if a == [] {
      assert a + b == b;
    } else {
      assert (a + b)[1..] == a[1..] + b;
      RunJoin(Next(s, a[0]), a[1..], b);
    }
  }

  /** The steps of `eval` for one command */
  function Launch(pid: int): seq<Step> {
    [Block] + ([Fork(pid)] + ([AddJob(BG, "")] + [Unblock]))
  }

  lemma One(s: State, step: Step)
    requires Enabled(s, step)
    ensures IsRun(s, [step]) && After(s, [step]) == Next(s, step) && (Roomy(s, [step]) <==> RoomFor(s, step))
  {
  }

  lemma LaunchRuns(s: State, pid: int)
    requires s.phase == Idle && s.handler == Inactive && pid >= 1 && pid !in s.children
    requires |s.children| < MAXJOBS
    ensures IsRun(s, Launch(pid)) && Roomy(s, Launch(pid))
    ensures var s' := After(s, Launch(pid));
            s'.phase == Idle && s'.handler == Inactive && s'.children == s.children[pid := Running]
  {
    hide Add;
    var s1 := Next(s, Block);
    var s2 := Next(s1, Fork(pid));
    var s3 := Next(s2, AddJob(BG, ""));
    One(s, Block);
    One(s1, Fork(pid));
    One(s2, AddJob(BG, ""));
    One(s3, Unblock);
    RunJoin(s2, [AddJob(BG, "")], [Unblock]);
    RunJoin(s1, [Fork(pid)], [AddJob(BG, "")] + [Unblock]);
    RunJoin(s, [Block], [Fork(pid)] + ([AddJob(BG, "")] + [Unblock]));
  }

  /** The shell can have n running children, for every n up to MAXJOBS. */
  lemma {:induction false} CanHaveChildren(n: nat) returns (steps: seq<Step>)
    requires n <= MAXJOBS
    ensures IsRun(INITIAL, steps) && Roomy(INITIAL, steps)
    ensures var s := After(INITIAL, steps);
            && s.phase == Idle && s.handler == Inactive && |s.children| == n
            && forall pid :: pid in s.children ==> 1 <= pid <= n
  {
    if n == 0 {
      steps := [];
    } else {
      var before := CanHaveChildren(n - 1);
      var s := After(INITIAL, before);
      LaunchRuns(s, n);
      RunJoin(INITIAL, before, Launch(n));
      steps := before + Launch(n);
      assert s.children[n := Running].Keys == s.children.Keys + {n};
      assert |s.children[n := Running]| == |s.children[n := Running].Keys|;
    }
  }

  function StopAndReport(pid: int, state: JobState, cmdline: string): seq<Step> {
    [AddJob(state, cmdline)] + ([Unblock] + ([Stop(pid)] + ([Enter] + [Wait(pid)])))
  }

  /** The smallest overflow: with MAXJOBS children running, one more is forked, is not added,
      stops, and is reported to the handler, which loses track of it. */
  lemma OneTooManyLosesTrack(pid: int, state: JobState, cmdline: string) returns (before: seq<Step>)
    requires pid > MAXJOBS
    ensures IsRun(INITIAL, before) && Roomy(INITIAL, before) && |After(INITIAL, before).children| == MAXJOBS
    ensures var run := before + ([Block] + ([Fork(pid)] + StopAndReport(pid, state, cmdline)));
            IsRun(INITIAL, run) && LosesTrack(After(INITIAL, run))
  {
    hide Distinct, Pids, Add;
    before := CanHaveChildren(MAXJOBS);
    var s := After(INITIAL, before);
    InitialInv();
    RunKeepsInv(INITIAL, before);
    var s1 := Next(s, Block);
    var s2 := Next(s1, Fork(pid));
    One(s, Block);
    One(s1, Fork(pid));
    assert s2.children.Keys == s.children.Keys + {pid};
    assert |s2.children| == |s2.children.Keys|;
    assert Tracked(s2) == Tracked(s);
    NewJobIsTrackedIff(s2, pid, state, cmdline);
    StopAndReportRuns(s2, pid, state, cmdline);
    RunJoin(s1, [Fork(pid)], StopAndReport(pid, state, cmdline));
    RunJoin(s, [Block], [Fork(pid)] + StopAndReport(pid, state, cmdline));
    RunJoin(INITIAL, before, [Block] + ([Fork(pid)] + StopAndReport(pid, state, cmdline)));
  }

  lemma StopAndReportRuns(s: State, pid: int, state: JobState, cmdline: string)
    requires s.phase == Forked(pid) && s.handler == Inactive
    requires pid in s.children && s.children[pid] == Running
    ensures IsRun(s, StopAndReport(pid, state, cmdline))
    ensures var s' := After(s, StopAndReport(pid, state, cmdline));
            && s'.handler == Reported(pid, Halted)
            && s'.table == Next(s, AddJob(state, cmdline)).table
  {
    hide Add;
    var s1 := Next(s, AddJob(state, cmdline));
    var s2 := Next(s1, Unblock);
    var s3 := Next(s2, Stop(pid));
    var s4 := Next(s3, Enter);
    One(s, AddJob(state, cmdline));
    One(s1, Unblock);
    One(s2, Stop(pid));
    One(s3, Enter);
    One(s4, Wait(pid));
    RunJoin(s3, [Enter], [Wait(pid)]);
    RunJoin(s2, [Stop(pid)], [Enter] + [Wait(pid)]);
    RunJoin(s1, [Unblock], [Stop(pid)] + ([Enter] + [Wait(pid)]));
    RunJoin(s, [AddJob(state, cmdline)], [Unblock] + ([Stop(pid)] + ([Enter] + [Wait(pid)])));
  }
}
