/** The job table of ASSN5/tsh.c: a fixed number of slots, pid 0 marking a free one. */
module JobTable {
  import Parseline

  const MAXJOBS := 16

  datatype JobState = UNDEF | FG | BG | ST
  datatype Job = Job(pid: int, jid: int, state: JobState, cmdline: string)

  /** What `clearjob` leaves in a slot */
  const CLEAR := Job(0, 0, UNDEF, "")

  datatype Table = Table(jobs: seq<Job>, nextjid: int)

  /** The table at the start of the shell */
  function InitialTable(): Table { Table(seq(MAXJOBS, _ => CLEAR), 1) }

  // ---------------------------------------------------------------- operations as functions

  /** The first slot that holds pid, or |jobs| where none does */
  function Slot(jobs: seq<Job>, pid: int): (i: nat)
    ensures i <= |jobs|
    ensures i < |jobs| ==> jobs[i].pid == pid
    ensures forall j :: 0 <= j < i ==> jobs[j].pid != pid
  {
    if jobs == [] || jobs[0].pid == pid then 0 else 1 + Slot(jobs[1..], pid)
  }

  function MaxJid(jobs: seq<Job>): (m: int)
    ensures m >= 0
    ensures forall job :: job in jobs ==> job.jid <= m
    ensures m == 0 || exists job :: job in jobs && job.jid == m
  {
    if jobs == [] then 0
    else
      var m := MaxJid(jobs[..|jobs| - 1]);
      var last := jobs[|jobs| - 1];
      if last.jid > m then last.jid else m
  }

  function Add(t: Table, pid: int, state: JobState, cmdline: string): (Table, bool) {
    var i := Slot(t.jobs, 0);
    if pid < 1 || i == |t.jobs| then (t, false)
    else
      (Table(t.jobs[i := Job(pid, t.nextjid, state, cmdline)],
             if t.nextjid + 1 > MAXJOBS then 1 else t.nextjid + 1), true)
  }

  function Delete(t: Table, pid: int): (Table, bool) {
    var i := Slot(t.jobs, pid);
    if pid < 1 || i == |t.jobs| then (t, false)
    else
      var jobs := t.jobs[i := CLEAR];
      (Table(jobs, MaxJid(jobs) + 1), true)
  }

  function SetState(t: Table, i: nat, state: JobState): Table
    requires i < |t.jobs|
  {
    t.(jobs := t.jobs[i := t.jobs[i].(state := state)])
  }

  // ---------------------------------------------------------------- the table as a set of pids

  /** The processes the table knows */
  function Pids(jobs: seq<Job>): set<int> {
    set i | 0 <= i < |jobs| && jobs[i].pid != 0 :: jobs[i].pid
  }

  predicate Distinct(jobs: seq<Job>) {
    forall i, j :: 0 <= i < j < |jobs| && jobs[i].pid == jobs[j].pid ==> jobs[i].pid == 0
  }

  predicate Full(jobs: seq<Job>) {
    Slot(jobs, 0) == |jobs|
  }

  /** A pid that occurs at all is found. */
  lemma SlotFinds(jobs: seq<Job>, pid: int)
    requires pid != 0
    ensures Slot(jobs, pid) < |jobs| <==> pid in Pids(jobs)
  {
  }

  lemma {:induction false} PidsCount(jobs: seq<Job>)
    requires Distinct(jobs)
    ensures |Pids(jobs)| <= |jobs|
    ensures |Pids(jobs)| == |jobs| <==> Full(jobs)
  {
    if jobs != [] {
      hide Pids, Distinct, Full;
      var n := |jobs| - 1;
      PidsOfFront(jobs);
      SlotOfFront(jobs);
      PidsCount(jobs[..n]);
    }
  }

  lemma PidsOfFront(jobs: seq<Job>)
    requires jobs != [] && Distinct(jobs)
    ensures var front, pid := jobs[..|jobs| - 1], jobs[|jobs| - 1].pid;
            && Distinct(front)
            && Pids(jobs) == (if pid == 0 then Pids(front) else Pids(front) + {pid})
            && (pid == 0 || pid !in Pids(front))
  {
  }

  lemma SlotOfFront(jobs: seq<Job>)
    requires jobs != []
    ensures Full(jobs) <==> Full(jobs[..|jobs| - 1]) && jobs[|jobs| - 1].pid != 0
  {
  }

  /** Writing one slot exchanges the pid there for another. */
  lemma PidsOfUpdate(jobs: seq<Job>, i: nat, job: Job)
    requires Distinct(jobs) && i < |jobs| && (job.pid == 0 || job.pid !in Pids(jobs))
    ensures Distinct(jobs[i := job])
    ensures Pids(jobs[i := job]) == Pids(jobs) - {jobs[i].pid} + (if job.pid == 0 then {} else {job.pid})
  {
    var jobs' := jobs[i := job];
    assert forall j :: 0 <= j < |jobs| && j != i ==> jobs'[j] == jobs[j];
    assert forall j :: 0 <= j < |jobs| && jobs[j].pid != 0 ==> jobs[j].pid in Pids(jobs);
    assert job.pid != 0 ==> jobs'[i].pid in Pids(jobs');
    forall p | p in Pids(jobs) - {jobs[i].pid}
      ensures p in Pids(jobs')
    {
      var j :| 0 <= j < |jobs| && jobs[j].pid == p;
      assert jobs'[j].pid == p;
    }
  }

  /** `addjob` fills the first free slot with the pid, the next job id, the state and the command
      line it is given, and leaves every other slot alone; it fails, changing nothing, exactly if
      the pid is below 1 or no slot is free. */
  lemma AddFillsOneSlot(t: Table, pid: int, state: JobState, cmdline: string)
    ensures var (t', ok) := Add(t, pid, state, cmdline); var jobs, jobs' := t.jobs, t'.jobs;
            && |jobs'| == |jobs|
            && (ok <==> pid >= 1 && exists i :: 0 <= i < |jobs| && jobs[i].pid == 0)
            && (!ok ==> t' == t)
            && (ok ==>
                  && (exists i :: 0 <= i < |jobs|
                        && jobs[i].pid == 0 && (forall j :: 0 <= j < i ==> jobs[j].pid != 0)
                        && jobs'[i].pid == pid && jobs'[i].jid == t.nextjid
                        && jobs'[i].state == state && jobs'[i].cmdline == cmdline
                        && forall j :: 0 <= j < |jobs| && j != i ==> jobs'[j] == jobs[j])
                  && t'.nextjid == if t.nextjid >= 16 then 1 else t.nextjid + 1)
  {
    var i := Slot(t.jobs, 0);
    if i < |t.jobs| {
      assert t.jobs[i].pid == 0;
    }
  }

  /** `deletejob` clears the first slot with the pid and leaves every other slot alone; the next
      job id is one above the largest left. It fails, changing nothing, exactly if the pid is
      below 1 or in no slot. */
  lemma DeleteClearsOneSlot(t: Table, pid: int)
    ensures var (t', ok) := Delete(t, pid); var jobs, jobs' := t.jobs, t'.jobs;
            && |jobs'| == |jobs|
            && (ok <==> pid >= 1 && exists i :: 0 <= i < |jobs| && jobs[i].pid == pid)
            && (!ok ==> t' == t)
            && (ok ==>
                  && (exists i :: 0 <= i < |jobs|
                        && jobs[i].pid == pid && (forall j :: 0 <= j < i ==> jobs[j].pid != pid)
                        && jobs'[i].pid == 0 && jobs'[i].jid == 0
                        && jobs'[i].state == UNDEF && jobs'[i].cmdline == ""
                        && forall j :: 0 <= j < |jobs| && j != i ==> jobs'[j] == jobs[j])
                  && (forall job :: job in jobs' ==> job.jid < t'.nextjid)
                  && (t'.nextjid == 1 || exists job :: job in jobs' && job.jid == t'.nextjid - 1))
  {
    var i := Slot(t.jobs, pid);
    if i < |t.jobs| {
      assert t.jobs[i].pid == pid;
    }
  }

  /** Adding a new pid makes the table know exactly one process more, unless it is full; then
      nothing changes. */
  lemma AddTracks(t: Table, pid: int, state: JobState, cmdline: string)
    requires Distinct(t.jobs) && pid >= 1 && pid !in Pids(t.jobs)
    ensures var (t', ok) := Add(t, pid, state, cmdline);
            && Distinct(t'.jobs) && |t'.jobs| == |t.jobs|
            && (ok <==> |Pids(t.jobs)| < |t.jobs|)
            && Pids(t'.jobs) == if ok then Pids(t.jobs) + {pid} else Pids(t.jobs)
  {
    hide Pids, Distinct;
    PidsCount(t.jobs);
    var i := Slot(t.jobs, 0);
    if i < |t.jobs| {
      PidsOfUpdate(t.jobs, i, Job(pid, t.nextjid, state, cmdline));
      NoPidZero(t.jobs);
    }
  }

  lemma NoPidZero(jobs: seq<Job>)
    ensures 0 !in Pids(jobs)
  {
  }

  /** Deleting a pid that the table knows makes it forget that one process. */
  lemma DeleteForgets(t: Table, pid: int)
    requires Distinct(t.jobs) && pid >= 1
    ensures var (t', ok) := Delete(t, pid);
            && Distinct(t'.jobs) && |t'.jobs| == |t.jobs|
            && (ok <==> pid in Pids(t.jobs))
            && Pids(t'.jobs) == Pids(t.jobs) - {pid}
  {
    hide Pids, Distinct;
    SlotFinds(t.jobs, pid);
    var i := Slot(t.jobs, pid);
    if i < |t.jobs| {
      PidsOfUpdate(t.jobs, i, CLEAR);
    }
  }

  /** Deleting the job just added gives back the slots, where free slots are clear; the next
      job id restarts after the largest in use. */
  lemma DeleteUndoesAdd(t: Table, pid: int, state: JobState, cmdline: string)
    requires pid >= 1 && pid !in Pids(t.jobs) && !Full(t.jobs)
    requires forall job :: job in t.jobs && job.pid == 0 ==> job == CLEAR
    ensures Delete(Add(t, pid, state, cmdline).0, pid) == (Table(t.jobs, MaxJid(t.jobs) + 1), true)
  {
    hide Pids, MaxJid, Slot;
    var i, jobs := Slot(t.jobs, 0), t.jobs;
    var jobs' := jobs[i := Job(pid, t.nextjid, state, cmdline)];
    NotInPids(jobs, pid);
    SlotIs(jobs', pid, i);
    assert jobs[i] in jobs;
    assert jobs'[i := CLEAR] == jobs;
  }

  lemma NotInPids(jobs: seq<Job>, pid: int)
    requires pid != 0 && pid !in Pids(jobs)
    ensures forall j :: 0 <= j < |jobs| ==> jobs[j].pid != pid
  {
  }

  /** The scans of the table stop where Slot says. */
  lemma SlotIs(jobs: seq<Job>, pid: int, i: nat)
    requires i <= |jobs| && forall j :: 0 <= j < i ==> jobs[j].pid != pid
    requires i < |jobs| ==> jobs[i].pid == pid
    ensures Slot(jobs, pid) == i
  {
  }

  lemma SetStateKeepsPids(t: Table, i: nat, state: JobState)
    requires i < |t.jobs|
    ensures Pids(SetState(t, i, state).jobs) == Pids(t.jobs)
    ensures Distinct(t.jobs) ==> Distinct(SetState(t, i, state).jobs)
  {
    var jobs' := SetState(t, i, state).jobs;
    assert forall j :: 0 <= j < |t.jobs| ==> jobs'[j].pid == t.jobs[j].pid;
    assert forall p :: p in Pids(t.jobs) ==> p in Pids(jobs');
  }

  // ---------------------------------------------------------------- job ids

  predicate JidsDistinct(jobs: seq<Job>) {
    forall i, j :: 0 <= i < j < |jobs| && jobs[i].jid == jobs[j].jid ==> jobs[i].pid == 0 || jobs[j].pid == 0
  }

  /** The next job id lies above all that are in use. */
  predicate Ahead(t: Table) {
    forall job :: job in t.jobs ==> job.jid < t.nextjid
  }

  /** The job ids of the live jobs */
  function UsedJids(jobs: seq<Job>): set<int> {
    set i | 0 <= i < |jobs| && jobs[i].pid != 0 :: jobs[i].jid
  }

  /** Filling a free slot adds an id; the ids are distinct if they were and the new one is not
      in use. */
  lemma FillSlot(jobs: seq<Job>, i: nat, job: Job)
    requires i < |jobs| && jobs[i].pid == 0 && job.pid != 0
    ensures UsedJids(jobs[i := job]) == UsedJids(jobs) + {job.jid}
    ensures JidsDistinct(jobs[i := job]) <==> JidsDistinct(jobs) && job.jid !in UsedJids(jobs)
  {
    var jobs' := jobs[i := job];
    assert jobs'[i] == job;
    assert forall j :: 0 <= j < |jobs| && j != i ==> jobs'[j] == jobs[j];
    forall x | x in UsedJids(jobs)
      ensures x in UsedJids(jobs') && (x == job.jid ==> !JidsDistinct(jobs'))
    {
      var j :| 0 <= j < |jobs| && jobs[j].pid != 0 && jobs[j].jid == x;
      assert jobs'[j].jid == x;
    }
    if !JidsDistinct(jobs) {
      var x, y :| 0 <= x < y < |jobs| && jobs[x].jid == jobs[y].jid && jobs[x].pid != 0 && jobs[y].pid != 0;
      assert jobs'[x].jid == jobs'[y].jid;
    }
  }

  /** After a new job the ids are distinct exactly if they were and the next id was not in use. */
  lemma NewJidIsFreshIff(t: Table, pid: int, state: JobState, cmdline: string)
    requires pid >= 1 && !Full(t.jobs)
    ensures JidsDistinct(Add(t, pid, state, cmdline).0.jobs) <==>
              JidsDistinct(t.jobs) && t.nextjid !in UsedJids(t.jobs)
  {
    FillSlot(t.jobs, Slot(t.jobs, 0), Job(pid, t.nextjid, state, cmdline));
  }

  /** Deleting puts the next id ahead of all others; adding leaves it ahead until it wraps to 1. */
  lemma NextJidIsAhead(t: Table, pid: int, state: JobState, cmdline: string)
    ensures Delete(t, pid).1 ==> Ahead(Delete(t, pid).0)
    ensures Ahead(t) && Add(t, pid, state, cmdline).1 ==>
              var t' := Add(t, pid, state, cmdline).0;
              if t.nextjid < MAXJOBS then Ahead(t') else t'.nextjid == 1
  {
  }

  // ---------------------------------------------------------------- many adds in a row

  datatype Launch = Launch(pid: int, state: JobState, cmdline: string)

  function AddAll(t: Table, launches: seq<Launch>): Table {
    if launches == [] then t
    else
      var n := |launches| - 1;
      var l := launches[n];
      Add(AddAll(t, launches[..n]), l.pid, l.state, l.cmdline).0
  }

  predicate RealPids(launches: seq<Launch>) {
    forall l :: l in launches ==> l.pid >= 1
  }

  function FreeSlots(jobs: seq<Job>): (n: nat)
    ensures n <= |jobs|
  {
    if jobs == [] then 0 else FreeSlots(jobs[1..]) + if jobs[0].pid == 0 then 1 else 0
  }

  /** The id that the job after j more adds will get when the next one gets v */
  function Given(v: int, j: nat): int {
    var base := if v < MAXJOBS then v else MAXJOBS;
    if j == 0 then v else if base + j <= MAXJOBS then base + j else base + j - MAXJOBS
  }

  function GivenIds(v: int, n: nat): set<int> {
    set j: nat | j < n :: Given(v, j)
  }

  /** How many adds come before the ids start again at 1 */
  function BeforeWrap(v: int): int {
    if v < MAXJOBS then MAXJOBS + 1 - v else 1
  }

  lemma {:induction false} FillFreeSlot(jobs: seq<Job>, i: nat, job: Job)
    requires i < |jobs| && jobs[i].pid == 0 && job.pid != 0
    ensures FreeSlots(jobs[i := job]) == FreeSlots(jobs) - 1
  {
    if i == 0 {
      assert jobs[0 := job][1..] == jobs[1..];
    } else {
      assert jobs[i := job][1..] == jobs[1..][i - 1 := job];
      FillFreeSlot(jobs[1..], i - 1, job);
    }
  }

  lemma {:induction false} FreeSlotFound(jobs: seq<Job>)
    requires FreeSlots(jobs) > 0
    ensures !Full(jobs)
  {
    if jobs[0].pid != 0 {
      FreeSlotFound(jobs[1..]);
    }
  }

  /** The ids handed out come in order, and start again at 1 after MAXJOBS. */
  lemma {:induction false} IdsInOrder(t: Table, launches: seq<Launch>)
    requires |launches| <= FreeSlots(t.jobs) <= MAXJOBS && RealPids(launches) && t.nextjid >= 1
    ensures var t' := AddAll(t, launches); var n := |launches|;
            && FreeSlots(t'.jobs) == FreeSlots(t.jobs) - n
            && t'.nextjid == Given(t.nextjid, n)
            && UsedJids(t'.jobs) == UsedJids(t.jobs) + GivenIds(t.nextjid, n)
  {
    hide UsedJids, Slot, JidsDistinct, FreeSlots;
    var n, v := |launches|, t.nextjid;
    if n > 0 {
      var l, t1 := launches[n - 1], AddAll(t, launches[..n - 1]);
      IdsInOrder(t, launches[..n - 1]);
      FreeSlotFound(t1.jobs);
      var i := Slot(t1.jobs, 0);
      var job := Job(l.pid, t1.nextjid, l.state, l.cmdline);
      FillSlot(t1.jobs, i, job);
      FillFreeSlot(t1.jobs, i, job);
      assert GivenIds(v, n) == GivenIds(v, n - 1) + {Given(v, n - 1)};
    } else {
      assert GivenIds(v, n) == {};
    }
  }

  /** From a table whose next id lies ahead, any number of adds that find a slot keeps the job
      ids distinct exactly when the ids up to the number of adds after the wrap are not in use. */
  lemma {:induction false} AddsStayDistinctIff(t: Table, launches: seq<Launch>)
    requires |launches| <= FreeSlots(t.jobs) <= MAXJOBS && RealPids(launches)
    requires JidsDistinct(t.jobs) && Ahead(t) && t.nextjid >= 1
    ensures JidsDistinct(AddAll(t, launches).jobs) <==>
              forall c :: 1 <= c <= |launches| - BeforeWrap(t.nextjid) ==> c !in UsedJids(t.jobs)
  {
    hide UsedJids, Slot, JidsDistinct, FreeSlots, Ahead;
    var n, v := |launches|, t.nextjid;
    if n > 0 {
      var l, front := launches[n - 1], launches[..n - 1];
      var t1 := AddAll(t, front);
      AddsStayDistinctIff(t, front);
      IdsInOrder(t, front);
      FreeSlotFound(t1.jobs);
      FillSlot(t1.jobs, Slot(t1.jobs, 0), Job(l.pid, t1.nextjid, l.state, l.cmdline));
      AheadOfUsed(t);
      LastIdIsNew(v, n - 1);
      var c := Given(v, n - 1);
      assert c in UsedJids(t1.jobs) <==> c in UsedJids(t.jobs);
      if n - BeforeWrap(v) >= 1 {
        assert c == n - BeforeWrap(v);
      }
    }
  }

  lemma AheadOfUsed(t: Table)
    requires Ahead(t)
    ensures forall c :: c in UsedJids(t.jobs) ==> c < t.nextjid
  {
    assert forall i :: 0 <= i < |t.jobs| ==> t.jobs[i] in t.jobs;
  }

  /** Fewer than MAXJOBS adds in a row get different ids. */
  lemma LastIdIsNew(v: int, n: nat)
    requires v >= 1 && n < MAXJOBS
    ensures Given(v, n) !in GivenIds(v, n)
  {
  }

  /** The table after launching processes 1 to n */
  function Filled(n: nat): Table {
    if n == 0 then InitialTable() else Add(Filled(n - 1), n, BG, "").0
  }

  lemma {:induction false} FilledInOrder(n: nat)
    requires n < MAXJOBS
    ensures var t := Filled(n);
            && |t.jobs| == MAXJOBS && t.nextjid == n + 1
            && forall i :: 0 <= i < MAXJOBS ==> t.jobs[i] == if i < n then Job(i + 1, i + 1, BG, "") else CLEAR
  {
    if n > 0 {
      FilledInOrder(n - 1);
      SlotIs(Filled(n - 1).jobs, 0, n - 1);
    }
  }

  /** Fifteen jobs, the second deleted: the next id is 16. */
  lemma AfterDelete()
    ensures |Filled(15).jobs| == MAXJOBS
    ensures Delete(Filled(15), 2).0 == Table(Filled(15).jobs[1 := CLEAR], 16)
  {
    hide Slot, Filled, MaxJid;
    FilledInOrder(15);
    var jobs := Filled(15).jobs;
    SlotIs(jobs, 2, 1);
    assert jobs[1 := CLEAR][14] in jobs[1 := CLEAR];
  }

  /** Adding at slot i takes the next id. */
  lemma AddAt(t: Table, i: nat, pid: int)
    requires i < |t.jobs| && t.jobs[i].pid == 0 && pid >= 1
    requires forall j :: 0 <= j < i ==> t.jobs[j].pid != 0
    ensures Add(t, pid, BG, "").0 == Table(t.jobs[i := Job(pid, t.nextjid, BG, "")],
                                           if t.nextjid >= MAXJOBS then 1 else t.nextjid + 1)
  {
    hide Slot;
    SlotIs(t.jobs, 0, i);
  }

  /** The ids do wrap into ids in use, long before the table overflows: with fifteen jobs, the
      second deleted, and two more added, two jobs have id 1. */
  lemma JidsCollide()
    ensures var t1 := Delete(Filled(15), 2).0;
            var t2 := Add(t1, 16, BG, "").0;
            var t3 := Add(t2, 17, BG, "").0;
            JidsDistinct(t2.jobs) && !JidsDistinct(t3.jobs)
  {
    hide Delete, Add, Filled;
    FilledInOrder(15);
    AfterDelete();
    var t1 := Delete(Filled(15), 2).0;
    AddAt(t1, 1, 16);
    var t2 := Add(t1, 16, BG, "").0;
    AddAt(t2, 15, 17);
    var jobs3 := Add(t2, 17, BG, "").0.jobs;
    assert jobs3[0].jid == jobs3[15].jid;
  }

  // ---------------------------------------------------------------- operations in place

  class Jobs {
    const slots: array<Job>
    var nextjid: int

    ghost predicate Valid()
      reads this, slots
    {
      slots.Length == MAXJOBS
    }

    ghost function State(): Table
      reads this, slots
    {
      Table(slots[..], nextjid)
    }

    /** `initjobs` on the static table */
    constructor ()
      ensures Valid() && fresh(slots)
      ensures State() == InitialTable()
    {
      slots := new Job[MAXJOBS](_ => CLEAR);
      nextjid := 1;
      new;
      InitJobs();
    }

    method ClearJob(i: nat)
      requires Valid() && i < MAXJOBS
      modifies slots
      ensures slots[..] == old(slots[..])[i := CLEAR]
    {
      slots[i] := slots[i].(pid := 0);
      slots[i] := slots[i].(jid := 0);
      slots[i] := slots[i].(state := UNDEF);
      slots[i] := slots[i].(cmdline := "");
    }

    method InitJobs()
      requires Valid()
      modifies slots
      ensures slots[..] == seq(MAXJOBS, _ => CLEAR)
    {
      var i := 0;
      while i < MAXJOBS
        invariant 0 <= i <= MAXJOBS
        invariant forall j :: 0 <= j < i ==> slots[j] == CLEAR
      {
        ClearJob(i);
        i := i + 1;
      }
    }

    method MaximumJid() returns (max: int)
      requires Valid()
      ensures max == MaxJid(slots[..])
    {
      var i := 0;
      max := 0;
      while i < MAXJOBS
        invariant 0 <= i <= MAXJOBS && max == MaxJid(slots[..i])
      {
        assert slots[..i + 1][..i] == slots[..i];
        if slots[i].jid > max {
          max := slots[i].jid;
        }
        i := i + 1;
      }
      assert slots[..MAXJOBS] == slots[..];
    }

    /** `addjob` */
    method AddJob(pid: int, state: JobState, cmdline: string) returns (ok: bool)
      requires Valid() && |cmdline| < Parseline.MAXLINE
      modifies this, slots
      ensures (State(), ok) == old(Add(State(), pid, state, cmdline))
    {
      hide Slot;
      if pid < 1 {
        return false;
      }
      var i := 0;
      while i < MAXJOBS
        invariant 0 <= i <= MAXJOBS && forall j :: 0 <= j < i ==> slots[j].pid != 0
        invariant State() == old(State())
      {
        if slots[i].pid == 0 {
          SlotIs(slots[..], 0, i);
          slots[i] := Job(pid, nextjid, state, cmdline);
          nextjid := nextjid + 1;
          if nextjid > MAXJOBS {
            nextjid := 1;
          }
          return true;
        }
        i := i + 1;
      }
      SlotIs(slots[..], 0, i);
      return false;
    }

    /** `deletejob` */
    method DeleteJob(pid: int) returns (ok: bool)
      requires Valid()
      modifies this, slots
      ensures (State(), ok) == old(Delete(State(), pid))
    {
      hide Slot, MaxJid;
      if pid < 1 {
        return false;
      }
      var i := 0;
      while i < MAXJOBS
        invariant 0 <= i <= MAXJOBS && forall j :: 0 <= j < i ==> slots[j].pid != pid
        invariant State() == old(State())
      {
        if slots[i].pid == pid {
          SlotIs(slots[..], pid, i);
          ClearJob(i);
          var max := MaximumJid();
          nextjid := max + 1;
          return true;
        }
        i := i + 1;
      }
      SlotIs(slots[..], pid, i);
      return false;
    }

    /** `getjobpid`; MAXJOBS stands for NULL. */
    method GetJobPid(pid: int) returns (i: nat)
      requires Valid()
      ensures i < MAXJOBS <==> pid in Pids(slots[..]) && pid >= 1
      ensures i < MAXJOBS ==> slots[i].pid == pid
    {
      if pid < 1 {
        return MAXJOBS;
      }
      i := 0;
      while i < MAXJOBS
        invariant 0 <= i <= MAXJOBS && forall j :: 0 <= j < i ==> slots[j].pid != pid
      {
        if slots[i].pid == pid {
          assert slots[..][i].pid == pid;
          return i;
        }
        i := i + 1;
      }
    }
  }
}
