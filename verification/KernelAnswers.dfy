/** What each call of the scheduler and of the IPC code answers and does to the tables, read off the tables
    before the call; and what the answers of a whole run have to do with each other. */
module KernelAnswers {
  import opened KernelSpec
  import opened KernelInvariant
  import opened KernelRuns

  // ---------------------------------------------------------------- fork

  /** `t` is the first free slot of the process table. */
  predicate IsFirstFree(ps: seq<Proc>, t: nat) {
    t < |ps| && ps[t].pid < 0 && forall u | 0 <= u < t :: ps[u].pid >= 0
  }

  /** fork answers with a pid that nobody has or had: that of a new child of the caller, which is last on the
      ready queue, in the first free slot. Without a free slot it answers -1 and does nothing. */
  lemma ForkAnswers(s: Sys)
    requires Inv(s) && Enabled(s, Fork)
    ensures var r := Step(s, Fork);
      if exists t :: 0 <= t < 64 && s.procs[t].pid < 0 then
        && r.out.Return? && r.out.code >= s.nextPid && !HasPid(s, r.out.code)
        && exists t: TaskSlot :: IsFirstFree(s.procs, t) &&
             var child := Proc(r.out.code, s.procs[s.cur].pid, Ready, 0, User);
             r.s == s.(procs := s.procs[t := child], ready := s.ready + [t], taskCount := s.taskCount + 1, nextPid := r.out.code + 1)
      else r == Result(s, Return(-1))
  {
    hide Placed, SemsOk, MqsOk, AllJustified;
    var t := FreeSlot(s.procs);
    if t < MAX_TASKS { assert IsFirstFree(s.procs, t); }
  }

  /** The pids that fork returns along a run. */
  function ForkPids(s: Sys, es: seq<Event>): seq<int>
    requires Legal(s, es)
    decreases |es|
  {
    if es == [] then []
    else
      var r := Step(s, es[0]);
      (if es[0] == Fork && r.out.Return? && r.out.code >= 0 then [r.out.code] else []) + ForkPids(r.s, es[1..])
  }

  lemma PidsNeverFall(s: Sys, e: Event)
    requires Enabled(s, e)
    ensures Step(s, e).s.nextPid >= s.nextPid
  {
    hide Step, Enabled;
    OnlyForkAddsPids(s, e);
  }

  lemma PidsBelow(s: Sys)
    requires Inv(s)
    ensures forall p :: HasPid(s, p) ==> p < s.nextPid
  {
    hide Placed, SemsOk, MqsOk, AllJustified;
  }

  lemma ForkIsNew(s: Sys)
    requires Inv(s) && Enabled(s, Fork)
    ensures var r := Step(s, Fork);
      r.out.Return? && (r.out.code == -1 || (s.nextPid <= r.out.code && 0 <= r.out.code && r.s.nextPid == r.out.code + 1))
  {
    hide Placed, SemsOk, MqsOk, AllJustified, Step;
    ForkAnswers(s);
  }

  /** No pid is returned by fork twice, nor one that a task has already. */
  lemma {:induction false} ForkedOnce(s: Sys, es: seq<Event>)
    requires Inv(s) && Legal(s, es)
    ensures NoDup(ForkPids(s, es)) && forall p <- ForkPids(s, es) :: p >= s.nextPid && !HasPid(s, p)
    decreases |es|
  {
    hide Inv, HasPid, Step, Enabled, Safe;
    if es != [] {
      var r := Step(s, es[0]);
      StepKeepsInvIffSafe(s, es[0]);
      PidsNeverFall(s, es[0]);
      PidsBelow(s);
      ForkedOnce(r.s, es[1..]);
      if es[0] == Fork && r.out != Return(-1) {
        ForkIsNew(s);
        var rest := ForkPids(r.s, es[1..]);
        assert forall j | 1 <= j < |[r.out.code] + rest| :: ([r.out.code] + rest)[j] in rest;
      }
    }
  }

  // ---------------------------------------------------------------- wait

  /** Task `t` is a child of the process `parent` that task_wait(pid) asks for: the one with that pid, or any if
      the pid is negative. */
  predicate IsChild(s: Sys, t: TaskSlot, parent: int, pid: int) {
    s.procs[t].pid >= 0 && s.procs[t].parent == parent && (pid < 0 || s.procs[t].pid == pid)
  }

  /** The pid that a section of task_wait asks for. */
  function Asked(s: Sys, e: Event): int
    requires Enabled(s, e) && Collects(s, e)
  {
    if e.WaitFor? then e.pid else s.procs[s.cur].pending.pid
  }

  /** A round of task_wait collects the first exited child if there is one; it sleeps if there are only others;
      and it answers -1 if there is none. */
  lemma WaitAnswers(s: Sys, e: Event)
    requires Inv(s) && Enabled(s, e) && Collects(s, e)
    ensures var r, me, pid := Step(s, e), s.procs[s.cur].pid, Asked(s, e);
      && ((r.out.Return? && r.out.code >= 0) <==> exists z: TaskSlot :: IsChild(s, z, me, pid) && s.procs[z].state == Zombie)
      && (r.out == Slept <==> (exists c: TaskSlot :: IsChild(s, c, me, pid)) &&
                               forall c: TaskSlot | IsChild(s, c, me, pid) :: s.procs[c].state != Zombie)
      && (r.out == Return(-1) <==> forall c: TaskSlot :: !IsChild(s, c, me, pid))
  {
    hide Inv;
    assert Step(s, e) == WaitStep(s, Asked(s, e));
    WaitRoundAnswers(s, Asked(s, e));
  }

  lemma WaitRoundAnswers(s: Sys, pid: int)
    ensures var r, me := WaitStep(s, pid), s.procs[s.cur].pid;
      && ((r.out.Return? && r.out.code >= 0) <==> exists z: TaskSlot :: IsChild(s, z, me, pid) && s.procs[z].state == Zombie)
      && (r.out == Slept <==> (exists c: TaskSlot :: IsChild(s, c, me, pid)) &&
                               forall c: TaskSlot | IsChild(s, c, me, pid) :: s.procs[c].state != Zombie)
      && (r.out == Return(-1) <==> forall c: TaskSlot :: !IsChild(s, c, me, pid))
  {
    var me := s.procs[s.cur].pid;
    forall c: TaskSlot ensures Matches(s.procs[c], me, pid) <==> IsChild(s, c, me, pid) { }
    var z := ZombieChild(s.procs, me, pid);
    if z < MAX_TASKS {
      assert IsChild(s, z, me, pid);
    } else if HasLiveChild(s.procs, me, pid) {
      var c: TaskSlot :| Matches(s.procs[c], me, pid) && s.procs[c].state != Zombie;
      assert IsChild(s, c, me, pid);
    }
  }

  /** Slot `z` holds the first exited child that the section asks for. */
  ghost predicate IsCollected(s: Sys, e: Event, z: TaskSlot)
    requires Enabled(s, e) && Collects(s, e)
  {
    var me, pid := s.procs[s.cur].pid, Asked(s, e);
    && IsChild(s, z, me, pid) && s.procs[z].state == Zombie
    && forall c: TaskSlot | c < z && IsChild(s, c, me, pid) :: s.procs[c].state != Zombie
  }

  /** What a round changes: the collected child's slot is free and its pid is the answer; or the caller is
      asleep; or nothing. */
  lemma WaitChanges(s: Sys, e: Event)
    requires Inv(s) && Enabled(s, e) && Collects(s, e)
    ensures var r, p := Step(s, e), s.procs[s.cur];
      match r.out
      case Slept => r.s == s.(procs := s.procs[s.cur := p.(state := Blocked, pending := Wait(Asked(s, e)))])
      case Return(code) =>
        var back := s.procs[s.cur := p.(pending := User)];
        if code == -1 then r.s == s.(procs := back)
        else
          exists z: TaskSlot ::
            && IsCollected(s, e, z) && code == s.procs[z].pid && z != s.cur && !Occupied(r.s.procs[z])
            && r.s == s.(procs := back[z := r.s.procs[z]], taskCount := s.taskCount - 1)
      case _ => false
  {
    hide Placed, SemsOk, MqsOk, AllJustified;
    var me, pid := s.procs[s.cur].pid, Asked(s, e);
    assert Step(s, e) == WaitStep(s, pid);
    var z := ZombieChild(s.procs, me, pid);
    if z < MAX_TASKS { assert IsCollected(s, e, z); }
  }

  /** Who a task is, and whose child, does not change while it lives; a task that was not there is the child
      that a fork of the running task has just returned. */
  lemma FamiliesStay(s: Sys, e: Event, t: TaskSlot)
    requires Inv(s) && Enabled(s, e) && Occupied(Step(s, e).s.procs[t])
    ensures var p, p' := s.procs[t], Step(s, e).s.procs[t];
      || (p.pid == p'.pid && p.parent == p'.parent)
      || (e == Fork && Step(s, e).out == Return(p'.pid) && p'.parent == s.procs[s.cur].pid)
  {
    hide Inv, Step, Enabled, HasPid;
    match e
    case Fork => ForkAnswers(s);
    case SemDestroy(_) => DestroyKeepsFamilies(s, e, t);
    case MqDestroy(_) => DestroyKeepsFamilies(s, e, t);
    case Tick => TickKeepsFamilies(s, t);
    case Exit(_) => ExitKeepsFamilies(s, e, t);
    case _ => RoundKeepsFamilies(s, e, t);
  }

  lemma TickKeepsFamilies(s: Sys, t: TaskSlot)
    ensures Step(s, Tick).s.procs[t].pid == s.procs[t].pid && Step(s, Tick).s.procs[t].parent == s.procs[t].parent
  {
  }

  lemma ExitKeepsFamilies(s: Sys, e: Event, t: TaskSlot)
    requires Enabled(s, e) && e.Exit?
    ensures Step(s, e).s.procs[t].pid == s.procs[t].pid && Step(s, e).s.procs[t].parent == s.procs[t].parent
  {
  }

  lemma DestroyKeepsFamilies(s: Sys, e: Event, t: TaskSlot)
    requires Enabled(s, e) && (e.SemDestroy? || e.MqDestroy?)
    ensures Step(s, e).s.procs[t].pid == s.procs[t].pid && Step(s, e).s.procs[t].parent == s.procs[t].parent
  {
    match e
    case SemDestroy(id) =>
      if FindSem(s.sems, id) < MAX_SEMS { DrainSemKeepsFamilies(s, FindSem(s.sems, id)); }
    case MqDestroy(id) =>
      var m := FindMq(s.mqs, id);
      if m < MAX_MSGQUEUES {
        DrainReceiversKeepsFamilies(s, m);
        DrainSendersKeepsFamilies(DrainReceivers(s, m), m);
      }
  }

  lemma RoundKeepsFamilies(s: Sys, e: Event, t: TaskSlot)
    requires Enabled(s, e) && !e.Tick? && !e.Fork? && !e.Exit? && !e.SemDestroy? && !e.MqDestroy? && Occupied(Step(s, e).s.procs[t])
    ensures Step(s, e).s.procs[t].pid == s.procs[t].pid && Step(s, e).s.procs[t].parent == s.procs[t].parent
  {
  }

  lemma {:induction false} DrainSemKeepsFamilies(s: Sys, i: SemSlot)
    ensures forall t: TaskSlot :: DrainSem(s, i).procs[t].pid == s.procs[t].pid && DrainSem(s, i).procs[t].parent == s.procs[t].parent
    decreases |s.sems[i].waiters|
  {
    if s.sems[i].waiters != [] { DrainSemKeepsFamilies(PopWaiter(s, i), i); }
  }

  lemma {:induction false} DrainReceiversKeepsFamilies(s: Sys, m: MqSlot)
    ensures forall t: TaskSlot ::
      DrainReceivers(s, m).procs[t].pid == s.procs[t].pid && DrainReceivers(s, m).procs[t].parent == s.procs[t].parent
    decreases |s.mqs[m].receivers|
  {
    if s.mqs[m].receivers != [] { DrainReceiversKeepsFamilies(PopReceiver(s, m), m); }
  }

  lemma {:induction false} DrainSendersKeepsFamilies(s: Sys, m: MqSlot)
    ensures forall t: TaskSlot ::
      DrainSenders(s, m).procs[t].pid == s.procs[t].pid && DrainSenders(s, m).procs[t].parent == s.procs[t].parent
    decreases |s.mqs[m].senders|
  {
    if s.mqs[m].senders != [] { DrainSendersKeepsFamilies(PopSender(s, m), m); }
  }

  /** Along the run the process `parent` forked, and got the answer `child`. */
  ghost predicate Bore(s: Sys, es: seq<Event>, parent: int, child: int)
    requires Legal(s, es)
    decreases |es|
  {
    es != [] &&
    var r := Step(s, es[0]);
    (es[0] == Fork && s.procs[s.cur].pid == parent && r.out == Return(child)) || Bore(r.s, es[1..], parent, child)
  }

  ghost predicate IsChildOf(s: Sys, parent: int, child: int) {
    exists t: TaskSlot :: Occupied(s.procs[t]) && s.procs[t].pid == child && s.procs[t].parent == parent
  }

  lemma {:induction false} ChildrenWereBorn(s: Sys, es: seq<Event>, parent: int, child: int)
    requires Inv(s) && Legal(s, es) && IsChildOf(After(s, es), parent, child)
    ensures IsChildOf(s, parent, child) || Bore(s, es, parent, child)
    decreases |es|
  {
    hide Inv, Step, Enabled, Safe;
    if es != [] {
      var r := Step(s, es[0]);
      StepKeepsInvIffSafe(s, es[0]);
      ChildrenWereBorn(r.s, es[1..], parent, child);
      if IsChildOf(r.s, parent, child) {
        var t: TaskSlot :| Occupied(r.s.procs[t]) && r.s.procs[t].pid == child && r.s.procs[t].parent == parent;
        FamiliesStay(s, es[0], t);
      }
    }
  }

  /** What task_wait returns to a task is what an earlier fork returned to it, or a child it had at the start. */
  lemma CollectedWasForked(s: Sys, es: seq<Event>, e: Event)
    requires Inv(s) && Legal(s, es) && Enabled(After(s, es), e) && Collects(After(s, es), e)
    requires var out := Step(After(s, es), e).out; out.Return? && out.code >= 0
    ensures var me, child := After(s, es).procs[After(s, es).cur].pid, Step(After(s, es), e).out.code;
      IsChildOf(s, me, child) || Bore(s, es, me, child)
  {
    hide Inv, Step, Enabled;
    RunKeepsInv(s, es);
    var s1 := After(s, es);
    WaitAnswers(s1, e);
    WaitChanges(s1, e);
    var z: TaskSlot :| IsCollected(s1, e, z) && Step(s1, e).out.code == s1.procs[z].pid;
    ChildrenWereBorn(s, es, s1.procs[s1.cur].pid, s1.procs[z].pid);
  }

  // ---------------------------------------------------------------- exit and ticks

  /** Slot `p` holds the running task's parent, which is blocked. */
  predicate IsBlockedParent(s: Sys, p: TaskSlot) {
    s.procs[p].pid >= 0 && s.procs[p].pid == s.procs[s.cur].parent && p != s.cur && s.procs[p].state == Blocked
  }

  /** exit leaves the code to be collected, and wakes the parent if it is blocked. */
  lemma ExitAnswers(s: Sys, code: int)
    requires Inv(s) && Enabled(s, Exit(code))
    ensures var s', me := Step(s, Exit(code)).s, s.procs[s.cur];
      var dead := s.procs[s.cur := me.(state := Zombie, exitCode := code)];
      if exists p: TaskSlot :: IsBlockedParent(s, p) then
        exists p: TaskSlot :: IsBlockedParent(s, p) && s' == s.(procs := dead[p := s.procs[p].(state := Ready)], ready := s.ready + [p])
      else s' == s.(procs := dead)
  {
    hide Placed, SemsOk, MqsOk, AllJustified;
    var me := s.procs[s.cur];
    var dead := s.procs[s.cur := me.(state := Zombie, exitCode := code)];
    var p := FromPid(dead, me.parent);
    forall q: TaskSlot | IsBlockedParent(s, q) ensures q == p { assert dead[q] == s.procs[q]; }
    if me.parent >= 0 && p < MAX_TASKS {
      assert s.procs[p].pid == me.parent && p != s.cur && dead[p] == s.procs[p];
      assert s.procs[p].state == Blocked ==> IsBlockedParent(s, p);
    }
  }

  /** A tick moves a running task to the end of the ready queue and goes on with the head of it; a task that
      sleeps or has exited does not queue up. If nobody is ready, a task that has not exited runs on. */
  lemma TickAnswers(s: Sys)
    requires Inv(s) && Enabled(s, Tick)
    ensures var s', me := Step(s, Tick).s, s.procs[s.cur];
      var runs := me.state != Zombie && me.state != Blocked;
      if s.ready == [] then
        s' == s.(procs := s.procs[s.cur := me.(state := if me.state == Zombie then Zombie else Running)])
      else
        var next := s.ready[0];
        && next != s.cur
        && s' == s.(procs := (if runs then s.procs[s.cur := me.(state := Ready)] else s.procs)[next := s.procs[next].(state := Running)],
                    ready := s.ready[1..] + (if runs then [s.cur] else []), cur := next)
  {
    hide SemsOk, MqsOk, AllJustified;
    assert Holds(s, ReadyQ) && s.cur !in On(s, ReadyQ);
    if s.ready == [] {
      NobodyReady(s);
    } else {
      LoneTaskHasNoQueue(s);
      assert s.ready[0] in On(s, ReadyQ);
      assert (s.ready + [s.cur])[1..] == s.ready[1..] + [s.cur];
    }
  }

  lemma NobodyReady(s: Sys)
    requires s.ready == []
    ensures var me := s.procs[s.cur];
      TickStep(s) == s.(procs := s.procs[s.cur := me.(state := if me.state == Zombie then Zombie else Running)])
  {
    assert s.procs == s.procs[s.cur := s.procs[s.cur]];
    assert ([] + [s.cur])[1..] == [];
  }

  // ---------------------------------------------------------------- semaphores

  /** `i` is the first slot without a semaphore. */
  predicate IsFreeSem(s: Sys, i: nat) { i < MAX_SEMS && s.sems[i].id < 0 && forall j: SemSlot | j < i :: s.sems[j].id >= 0 }

  /** sem_create answers with a number that no semaphore has or had, or with -1 if the table is full. */
  lemma SemCreateAnswers(s: Sys, init: int)
    requires Inv(s) && Enabled(s, SemCreate(init))
    ensures var r := Step(s, SemCreate(init));
      if exists i :: 0 <= i < 64 && s.sems[i].id < 0 then
        && r.out.Return? && r.out.code == s.semCount && (forall i: SemSlot :: s.sems[i].id < r.out.code)
        && exists i: SemSlot :: IsFreeSem(s, i) &&
             var value := if init >= 0 then init else 0;
             r.s == s.(sems := s.sems[i := Sem(r.out.code, value, [])], semCount := s.semCount + 1)
      else r == Result(s, Return(-1))
  {
    hide Placed, PidsOk, MqsOk, AllJustified;
    var i := FreeSemSlot(s.sems);
    if i < MAX_SEMS { assert IsFreeSem(s, i); }
  }

  ghost predicate IsSem(s: Sys, id: int, i: SemSlot) { id >= 0 && s.sems[i].id == id }

  /** A number that is no semaphore's gets -1 from all three calls. */
  lemma NoSuchSem(s: Sys, id: int)
    requires Inv(s) && Enabled(s, SemWait(id)) && forall i: SemSlot :: !IsSem(s, id, i)
    ensures Step(s, SemWait(id)) == Result(s, Return(-1)) && Step(s, SemPost(id)) == Result(s, Return(-1))
    ensures Step(s, SemDestroy(id)) == Result(s, Return(-1))
  {
    hide Placed, PidsOk, MqsOk, AllJustified;
    var i := FindSem(s.sems, id);
    assert i < MAX_SEMS ==> !IsSem(s, id, i);
  }

  /** sem_wait takes one, or queues up and sleeps if there is none. */
  lemma SemWaitAnswers(s: Sys, id: int, i: SemSlot)
    requires Inv(s) && Enabled(s, SemWait(id)) && IsSem(s, id, i)
    ensures var r, sem := Step(s, SemWait(id)), s.sems[i];
      if sem.value > 0 then r == Result(s.(sems := s.sems[i := sem.(value := sem.value - 1)]), Return(0))
      else
        && r.out == Slept
        && r.s == s.(procs := s.procs[s.cur := s.procs[s.cur].(state := Blocked, pending := SemSleep(i))],
                     sems := s.sems[i := sem.(waiters := sem.waiters + [s.cur])])
  {
    hide Placed, PidsOk, MqsOk, AllJustified;
    FindLiveSem(s, i);
  }

  /** sem_post hands one to the first that waits, or counts it. */
  lemma SemPostAnswers(s: Sys, id: int, i: SemSlot)
    requires Inv(s) && Enabled(s, SemPost(id)) && IsSem(s, id, i)
    ensures var r, sem := Step(s, SemPost(id)), s.sems[i];
      && r.out == Return(0)
      && if sem.waiters == [] then r.s == s.(sems := s.sems[i := sem.(value := sem.value + 1)])
         else
           var t := sem.waiters[0];
           r.s == s.(procs := s.procs[t := s.procs[t].(state := Ready, pending := User)], ready := s.ready + [t],
                     sems := s.sems[i := sem.(waiters := sem.waiters[1..])])
  {
    hide Placed, PidsOk, MqsOk, AllJustified;
    FindLiveSem(s, i);
  }

  /** From `ps` to `ps'` the tasks on `q` become ready, and no other task changes. */
  ghost predicate Woken(ps: seq<Proc>, ps': seq<Proc>, q: seq<TaskSlot>, granted: bool)
    requires |ps| == |ps'| == MAX_TASKS
  {
    forall t: TaskSlot ::
      ps'[t] == if t !in q then ps[t] else if granted then ps[t].(state := Ready, pending := User) else ps[t].(state := Ready)
  }

  /** sem_destroy wakes all that wait, in order, and frees the slot. */
  lemma SemDestroyAnswers(s: Sys, id: int, i: SemSlot)
    requires Inv(s) && Enabled(s, SemDestroy(id)) && IsSem(s, id, i)
    ensures var r, q := Step(s, SemDestroy(id)), s.sems[i].waiters;
      && r.out == Return(0) && r.s.sems[i].id < 0 && r.s.sems[i].waiters == [] && r.s.sems[i].value == 0
      && Woken(s.procs, r.s.procs, q, true)
      && r.s == s.(procs := r.s.procs, ready := s.ready + q, sems := s.sems[i := r.s.sems[i]])
  {
    hide Placed, PidsOk, MqsOk, AllJustified;
    FindLiveSem(s, i);
    DrainSemIs(s, i);
  }

  lemma {:induction false} DrainSemIs(s: Sys, i: SemSlot)
    ensures var s', q := DrainSem(s, i), s.sems[i].waiters;
      && Woken(s.procs, s'.procs, q, true)
      && s' == s.(procs := s'.procs, ready := s.ready + q, sems := s.sems[i := s.sems[i].(waiters := [])])
    decreases |s.sems[i].waiters|
  {
    var q := s.sems[i].waiters;
    if q == [] {
      assert s.ready + q == s.ready && s.sems[i := s.sems[i].(waiters := [])] == s.sems;
    } else {
      var s1 := PopWaiter(s, i);
      DrainSemIs(s1, i);
      assert q == [q[0]] + q[1..];
      assert s.ready + q == s1.ready + q[1..];
      assert s1.sems[i := s1.sems[i].(waiters := [])] == s.sems[i := s.sems[i].(waiters := [])];
    }
  }

  // ---------------------------------------------------------------- message queues

  predicate IsFreeMq(s: Sys, m: nat) { m < MAX_MSGQUEUES && s.mqs[m].id < 0 && forall k: MqSlot | k < m :: s.mqs[k].id >= 0 }

  /** msg_queue_create answers with a number that no queue has or had, or with -1 if the table is full. */
  lemma MqCreateAnswers(s: Sys)
    requires Inv(s) && Enabled(s, MqCreate)
    ensures var r := Step(s, MqCreate);
      if exists m :: 0 <= m < 16 && s.mqs[m].id < 0 then
        && r.out.Return? && r.out.code == s.mqCount && (forall m: MqSlot :: s.mqs[m].id < r.out.code)
        && exists m: MqSlot :: IsFreeMq(s, m) &&
             r.s == s.(mqs := s.mqs[m := Mq(r.out.code, [], [], [])], mqCount := s.mqCount + 1)
      else r == Result(s, Return(-1))
  {
    hide Placed, PidsOk, SemsOk, AllJustified, NoLostWakeup;
    var m := FreeMqSlot(s.mqs);
    if m < MAX_MSGQUEUES { assert IsFreeMq(s, m); }
  }

  ghost predicate IsMq(s: Sys, id: int, m: MqSlot) { id >= 0 && s.mqs[m].id == id }

  lemma NoSuchMq(s: Sys, id: int, data: Msg)
    requires Inv(s) && Enabled(s, MqRecv(id)) && forall m: MqSlot :: !IsMq(s, id, m)
    ensures Step(s, MqSend(id, data)) == Result(s, Return(-1)) && Step(s, MqRecv(id)) == Result(s, Return(-1))
    ensures Step(s, MqDestroy(id)) == Result(s, Return(-1))
  {
    hide Placed, PidsOk, SemsOk, AllJustified, NoLostWakeup;
    var m := FindMq(s.mqs, id);
    assert m < MAX_MSGQUEUES ==> !IsMq(s, id, m);
  }

  /** The section sends `data` on queue slot `m`: a call for a live queue, whose bytes behind the 64th are lost,
      or the next round of a sender that was woken. */
  ghost predicate Sends(s: Sys, e: Event, m: MqSlot, data: Msg)
    requires Enabled(s, e)
  {
    || (e.MqSend? && IsMq(s, e.mq, m) && data == if |e.data| <= 64 then e.data else e.data[..64])
    || (e == Resume && s.procs[s.cur].pending == Send(m, data))
  }

  /** The first task on `q`, if there is one, is woken. */
  function FirstOf(q: seq<TaskSlot>): seq<TaskSlot> { if q == [] then [] else [q[0]] }

  function Rest(q: seq<TaskSlot>): seq<TaskSlot> { if q == [] then [] else q[1..] }

  /** A send never fails: while fewer than 64 messages are buffered, the message is appended, the first receiver
      is woken and the answer is 0; otherwise the caller sleeps, last of the senders, with its message. */
  lemma SendAnswers(s: Sys, e: Event, m: MqSlot, data: Msg)
    requires Inv(s) && Enabled(s, e) && Sends(s, e, m, data)
    ensures var r, mq, me := Step(s, e), s.mqs[m], s.procs[s.cur];
      if |mq.msgs| < 64 then
        && r.out == Return(0)
        && Woken(s.procs[s.cur := me.(pending := User)], r.s.procs, FirstOf(mq.receivers), false)
        && r.s == s.(procs := r.s.procs, ready := s.ready + FirstOf(mq.receivers),
                     mqs := s.mqs[m := mq.(msgs := mq.msgs + [data], receivers := Rest(mq.receivers))])
      else
        && r.out == Slept
        && r.s == s.(procs := s.procs[s.cur := me.(state := Blocked, pending := Send(m, data))],
                     mqs := s.mqs[m := mq.(senders := mq.senders + [s.cur])])
  {
    hide PidsOk, SemsOk, AllJustified, NoLostWakeup, TrySend, Holds;
    if e.MqSend? { FindLiveMq(s, m); }
    assert Step(s, e) == TrySend(s, m, data);
    assert Holds(s, RecvQ(m));
    NotOnQueue(s, RecvQ(m));
    SendRoundIs(s, m, data);
  }

  lemma NotOnQueue(s: Sys, q: Place)
    requires Holds(s, q) && q.IsIpc() && s.procs[s.cur].state == Running
    ensures s.cur !in On(s, q)
  {
  }

  lemma SendRoundIs(s: Sys, m: MqSlot, data: Msg)
    requires s.cur !in s.mqs[m].receivers
    ensures var r, mq, me := TrySend(s, m, data), s.mqs[m], s.procs[s.cur];
      if |mq.msgs| < 64 then
        && r.out == Return(0)
        && Woken(s.procs[s.cur := me.(pending := User)], r.s.procs, FirstOf(mq.receivers), false)
        && r.s == s.(procs := r.s.procs, ready := s.ready + FirstOf(mq.receivers),
                     mqs := s.mqs[m := mq.(msgs := mq.msgs + [data], receivers := Rest(mq.receivers))])
      else
        && r.out == Slept
        && r.s == s.(procs := s.procs[s.cur := me.(state := Blocked, pending := Send(m, data))],
                     mqs := s.mqs[m := mq.(senders := mq.senders + [s.cur])])
  {
    assert s.ready + [] == s.ready;
  }

  /** The section receives on queue slot `m`. */
  ghost predicate Receives(s: Sys, e: Event, m: MqSlot)
    requires Enabled(s, e)
  {
    (e.MqRecv? && IsMq(s, e.mq, m)) || (e == Resume && s.procs[s.cur].pending == Recv(m))
  }

  /** A receive never fails: it takes the oldest message and wakes the first sender, or sleeps, last of the
      receivers, if there is no message. */
  lemma RecvAnswers(s: Sys, e: Event, m: MqSlot)
    requires Inv(s) && Enabled(s, e) && Receives(s, e, m)
    ensures var r, mq, me := Step(s, e), s.mqs[m], s.procs[s.cur];
      if mq.msgs != [] then
        && r.out == Received(mq.msgs[0])
        && Woken(s.procs[s.cur := me.(pending := User)], r.s.procs, FirstOf(mq.senders), false)
        && r.s == s.(procs := r.s.procs, ready := s.ready + FirstOf(mq.senders),
                     mqs := s.mqs[m := mq.(msgs := mq.msgs[1..], senders := Rest(mq.senders))])
      else
        && r.out == Slept
        && r.s == s.(procs := s.procs[s.cur := me.(state := Blocked, pending := Recv(m))],
                     mqs := s.mqs[m := mq.(receivers := mq.receivers + [s.cur])])
  {
    hide PidsOk, SemsOk, AllJustified, NoLostWakeup, TryRecv, Holds;
    if e.MqRecv? { FindLiveMq(s, m); }
    assert Step(s, e) == TryRecv(s, m);
    assert Holds(s, SendQ(m));
    NotOnQueue(s, SendQ(m));
    RecvRoundIs(s, m);
  }

  lemma RecvRoundIs(s: Sys, m: MqSlot)
    requires s.cur !in s.mqs[m].senders
    ensures var r, mq, me := TryRecv(s, m), s.mqs[m], s.procs[s.cur];
      if mq.msgs != [] then
        && r.out == Received(mq.msgs[0])
        && Woken(s.procs[s.cur := me.(pending := User)], r.s.procs, FirstOf(mq.senders), false)
        && r.s == s.(procs := r.s.procs, ready := s.ready + FirstOf(mq.senders),
                     mqs := s.mqs[m := mq.(msgs := mq.msgs[1..], senders := Rest(mq.senders))])
      else
        && r.out == Slept
        && r.s == s.(procs := s.procs[s.cur := me.(state := Blocked, pending := Recv(m))],
                     mqs := s.mqs[m := mq.(receivers := mq.receivers + [s.cur])])
  {
    assert s.ready + [] == s.ready;
  }

  /** msg_queue_destroy wakes all receivers and then all senders, in order, and frees the slot with its
      messages. The senders keep theirs. */
  lemma MqDestroyAnswers(s: Sys, id: int, m: MqSlot)
    requires Inv(s) && Enabled(s, MqDestroy(id)) && IsMq(s, id, m)
    ensures var r, mq := Step(s, MqDestroy(id)), s.mqs[m];
      && r.out == Return(0) && r.s.mqs[m].id < 0 && r.s.mqs[m] == Mq(r.s.mqs[m].id, [], [], [])
      && Woken(s.procs, r.s.procs, mq.receivers + mq.senders, false)
      && r.s == s.(procs := r.s.procs, ready := s.ready + (mq.receivers + mq.senders), mqs := s.mqs[m := r.s.mqs[m]])
  {
    hide Placed, PidsOk, SemsOk, AllJustified, NoLostWakeup;
    FindLiveMq(s, m);
    DrainedIs(s, m);
  }

  lemma DrainedIs(s: Sys, m: MqSlot)
    ensures var s', mq := DrainSenders(DrainReceivers(s, m), m), s.mqs[m];
      && Woken(s.procs, s'.procs, mq.receivers + mq.senders, false)
      && s' == s.(procs := s'.procs, ready := s.ready + (mq.receivers + mq.senders), mqs := s.mqs[m := mq.(receivers := [], senders := [])])
  {
    hide DrainReceivers, DrainSenders;
    DrainReceiversIs(s, m);
    DrainSendersIs(DrainReceivers(s, m), m);
    assert s.ready + s.mqs[m].receivers + s.mqs[m].senders == s.ready + (s.mqs[m].receivers + s.mqs[m].senders);
  }

  lemma {:induction false} DrainReceiversIs(s: Sys, m: MqSlot)
    ensures var s', q := DrainReceivers(s, m), s.mqs[m].receivers;
      && Woken(s.procs, s'.procs, q, false)
      && s' == s.(procs := s'.procs, ready := s.ready + q, mqs := s.mqs[m := s.mqs[m].(receivers := [])])
    decreases |s.mqs[m].receivers|
  {
    var q := s.mqs[m].receivers;
    if q == [] {
      assert s.ready + q == s.ready && s.mqs[m := s.mqs[m].(receivers := [])] == s.mqs;
    } else {
      var s1 := PopReceiver(s, m);
      DrainReceiversIs(s1, m);
      assert q == [q[0]] + q[1..];
      assert s.ready + q == s1.ready + q[1..];
      assert s1.mqs[m := s1.mqs[m].(receivers := [])] == s.mqs[m := s.mqs[m].(receivers := [])];
    }
  }

  lemma {:induction false} DrainSendersIs(s: Sys, m: MqSlot)
    ensures var s', q := DrainSenders(s, m), s.mqs[m].senders;
      && Woken(s.procs, s'.procs, q, false)
      && s' == s.(procs := s'.procs, ready := s.ready + q, mqs := s.mqs[m := s.mqs[m].(senders := [])])
    decreases |s.mqs[m].senders|
  {
    var q := s.mqs[m].senders;
    if q == [] {
      assert s.ready + q == s.ready && s.mqs[m := s.mqs[m].(senders := [])] == s.mqs;
    } else {
      var s1 := PopSender(s, m);
      DrainSendersIs(s1, m);
      assert q == [q[0]] + q[1..];
      assert s.ready + q == s1.ready + q[1..];
      assert s1.mqs[m := s1.mqs[m].(senders := [])] == s.mqs[m := s.mqs[m].(senders := [])];
    }
  }

  // ---------------------------------------------------------------- no request is lost

  /** The messages of the tasks that are in a send on queue slot `m`, asleep or woken. */
  function Sending(ps: seq<Proc>, m: MqSlot): multiset<Msg> {
    if ps == [] then multiset{} else Carried(ps[0], m) + Sending(ps[1..], m)
  }

  function Carried(p: Proc, m: MqSlot): multiset<Msg> {
    if Alive(p) && p.pending.Send? && p.pending.mq == m then multiset{p.pending.data} else multiset{}
  }

  /** How many tasks are in a receive on queue slot `m`, asleep or woken. */
  function Receiving(ps: seq<Proc>, m: MqSlot): nat {
    if ps == [] then 0 else (if Awaits(ps[0], m) then 1 else 0) + Receiving(ps[1..], m)
  }

  predicate Awaits(p: Proc, m: MqSlot) { Alive(p) && p.pending == Recv(m) }

  predicate Alive(p: Proc) { Occupied(p) && p.state != Zombie }

  lemma {:induction false} SendingUpdate(ps: seq<Proc>, i: nat, p: Proc, m: MqSlot)
    requires i < |ps|
    ensures Sending(ps[i := p], m) + Carried(ps[i], m) == Sending(ps, m) + Carried(p, m)
  {
    hide Carried;
    if i == 0 {
      assert ps[i := p][1..] == ps[1..];
    } else {
      assert ps[i := p][1..] == ps[1..][i - 1 := p] && ps[1..][i - 1] == ps[i] && ps[i := p][0] == ps[0];
      SendingUpdate(ps[1..], i - 1, p, m);
      var a, b, c := Carried(ps[0], m), Sending(ps[1..][i - 1 := p], m), Sending(ps[1..], m);
      assert Sending(ps[i := p], m) == a + b && Sending(ps, m) == a + c;
      assert a + b + Carried(ps[i], m) == a + (b + Carried(ps[i], m));
      assert a + c + Carried(p, m) == a + (c + Carried(p, m));
    }
  }

  lemma {:induction false} ReceivingUpdate(ps: seq<Proc>, i: nat, p: Proc, m: MqSlot)
    requires i < |ps|
    ensures Receiving(ps[i := p], m) + (if Awaits(ps[i], m) then 1 else 0) == Receiving(ps, m) + (if Awaits(p, m) then 1 else 0)
  {
    hide Awaits;
    if i == 0 {
      assert ps[i := p][1..] == ps[1..];
    } else {
      assert ps[i := p][1..] == ps[1..][i - 1 := p] && ps[1..][i - 1] == ps[i];
      ReceivingUpdate(ps[1..], i - 1, p, m);
    }
  }

  /** No task is in another send or receive than before. */
  ghost predicate SameMqCalls(ps: seq<Proc>, ps': seq<Proc>, m: MqSlot) {
    |ps'| == |ps| && forall t | 0 <= t < |ps| :: Carried(ps'[t], m) == Carried(ps[t], m) && (Awaits(ps'[t], m) <==> Awaits(ps[t], m))
  }

  lemma {:induction false} SameSending(ps: seq<Proc>, ps': seq<Proc>, m: MqSlot)
    requires SameMqCalls(ps, ps', m)
    ensures Sending(ps', m) == Sending(ps, m) && Receiving(ps', m) == Receiving(ps, m)
  {
    if ps != [] { SameSending(ps[1..], ps'[1..], m); }
  }

  /** The messages that a section asks to send on queue slot `m`, and how many receives it begins. */
  function AskedToSend(s: Sys, e: Event, m: MqSlot): multiset<Msg>
    requires Enabled(s, e)
  {
    if e.MqSend? && e.mq >= 0 && s.mqs[m].id == e.mq then multiset{if |e.data| <= 64 then e.data else e.data[..64]} else multiset{}
  }

  function AskedToReceive(s: Sys, e: Event, m: MqSlot): nat
    requires Enabled(s, e)
  {
    if e.MqRecv? && e.mq >= 0 && s.mqs[m].id == e.mq then 1 else 0
  }

  /** What one section adds to the sends and receives under way, it was asked for and has not done yet. */
  ghost predicate KeepsRequests(s: Sys, e: Event, m: MqSlot)
    requires Enabled(s, e)
  {
    var s' := Step(s, e).s;
    && Sending(s.procs, m) + AskedToSend(s, e, m) == Sending(s'.procs, m) + multiset(AcceptedBy(s, e, m))
    && Receiving(s.procs, m) + AskedToReceive(s, e, m) == Receiving(s'.procs, m) + |DeliveredBy(s, e, m)|
  }

  lemma Balance(a: multiset<Msg>, a': multiset<Msg>, before: multiset<Msg>, after: multiset<Msg>, asked: multiset<Msg>, done: multiset<Msg>)
    requires a' + before == a + after && asked + before == after + done
    ensures a + asked == a' + done
  {
    forall x ensures (a + asked)[x] == (a' + done)[x] {
      assert (a' + before)[x] == (a + after)[x] && (asked + before)[x] == (after + done)[x];
    }
  }

  /** Every task is in the same call. */
  ghost predicate SameCalls(ps: seq<Proc>, ps': seq<Proc>) {
    |ps'| == |ps| && forall t | 0 <= t < |ps| :: (Alive(ps'[t]) <==> Alive(ps[t])) && ps'[t].pending == ps[t].pending
  }

  lemma WokenIsSameCalls(ps: seq<Proc>, ps': seq<Proc>, q: seq<TaskSlot>)
    requires |ps| == |ps'| == MAX_TASKS && Woken(ps, ps', q, false) && forall t <- q :: ps[t].state != Zombie
    ensures SameCalls(ps, ps')
  {
  }

  lemma SameCallsCarry(ps: seq<Proc>, ps': seq<Proc>, m: MqSlot)
    requires SameCalls(ps, ps')
    ensures SameMqCalls(ps, ps', m)
  {
  }

  /** Only the running task's call changes, and a message is accepted or carried on. */
  lemma CallerKeepsRequests(s: Sys, e: Event, p: Proc, m: MqSlot)
    requires Enabled(s, e)
    requires SameCalls(s.procs[s.cur := p], Step(s, e).s.procs)
    requires AskedToSend(s, e, m) + Carried(s.procs[s.cur], m) == Carried(p, m) + multiset(AcceptedBy(s, e, m))
    requires AskedToReceive(s, e, m) + (if Awaits(s.procs[s.cur], m) then 1 else 0)
          == (if Awaits(p, m) then 1 else 0) + |DeliveredBy(s, e, m)|
    ensures KeepsRequests(s, e, m)
  {
    hide Step, Enabled, Carried, Awaits, AcceptedBy, DeliveredBy, AskedToSend, AskedToReceive, Sending, Receiving, SameCalls, SameMqCalls;
    var s' := Step(s, e).s;
    SameCallsCarry(s.procs[s.cur := p], s'.procs, m);
    var back := s.procs[s.cur := p];
    SendingUpdate(s.procs, s.cur, p, m);
    ReceivingUpdate(s.procs, s.cur, p, m);
    SameSending(back, s'.procs, m);
    Balance(Sending(s.procs, m), Sending(s'.procs, m), Carried(s.procs[s.cur], m), Carried(p, m), AskedToSend(s, e, m),
      multiset(AcceptedBy(s, e, m)));
  }

  lemma SameProcsSameCalls(ps: seq<Proc>)
    ensures SameCalls(ps, ps)
  {
  }

  lemma HeadSleeps(s: Sys, q: Place)
    requires Inv(s) && q.IsIpc()
    ensures forall t <- On(s, q) :: s.procs[t].state == Blocked && Occupied(s.procs[t])
  {
    hide Core;
    assert Holds(s, q);
  }

  /** The running task after it has sent on slot `k`. */
  function AfterSend(s: Sys, k: MqSlot, data: Msg): Proc {
    if |s.mqs[k].msgs| < 64 then s.procs[s.cur].(pending := User)
    else s.procs[s.cur].(state := Blocked, pending := Send(k, data))
  }

  lemma SendCalls(s: Sys, e: Event, k: MqSlot, data: Msg)
    requires Inv(s) && Enabled(s, e) && Sends(s, e, k, data)
    ensures SameCalls(s.procs[s.cur := AfterSend(s, k, data)], Step(s, e).s.procs)
    ensures Step(s, e).out == if |s.mqs[k].msgs| < 64 then Return(0) else Slept
  {
    hide Inv, Step, Sends, SameCalls, Woken, Rest;
    SendAnswers(s, e, k, data);
    SameProcsSameCalls(Step(s, e).s.procs);
    if |s.mqs[k].msgs| < 64 {
      HeadSleeps(s, RecvQ(k));
      WokenIsSameCalls(s.procs[s.cur := s.procs[s.cur].(pending := User)], Step(s, e).s.procs, FirstOf(s.mqs[k].receivers));
    }
  }

  lemma SendKeepsRequests(s: Sys, e: Event, k: MqSlot, data: Msg, m: MqSlot)
    requires Inv(s) && Enabled(s, e) && Sends(s, e, k, data) && s.mqs[m].id >= 0
    ensures KeepsRequests(s, e, m)
  {
    hide Inv, Step, Enabled, Sends, AskedToSend, AskedToReceive, KeepsRequests, SameCalls, Address;
    SendCalls(s, e, k, data);
    SendIsAddressed(s, e, k, data, m);
    CallerKeepsRequests(s, e, AfterSend(s, k, data), m);
  }

  lemma SendIsAddressed(s: Sys, e: Event, k: MqSlot, data: Msg, m: MqSlot)
    requires Inv(s) && Enabled(s, e) && Sends(s, e, k, data) && s.mqs[m].id >= 0
    ensures Address(s, e) == Sender(k, data) && Occupied(s.procs[s.cur]) && s.procs[s.cur].state == Running
    ensures AskedToReceive(s, e, m) == 0
    ensures AskedToSend(s, e, m) + Carried(s.procs[s.cur], m) == if k == m then multiset{data} else multiset{}
    ensures !Awaits(s.procs[s.cur], m)
  {
    hide PidsOk, SemsOk, AllJustified, NoLostWakeup, Step, Holds;
    if e.MqSend? { FindLiveMq(s, k); }
  }

  lemma RecvIsAddressed(s: Sys, e: Event, k: MqSlot, m: MqSlot)
    requires Inv(s) && Enabled(s, e) && Receives(s, e, k) && s.mqs[m].id >= 0
    ensures Address(s, e) == Receiver(k) && Occupied(s.procs[s.cur]) && s.procs[s.cur].state == Running
    ensures AskedToSend(s, e, m) == multiset{} && Carried(s.procs[s.cur], m) == multiset{}
    ensures AskedToReceive(s, e, m) + (if Awaits(s.procs[s.cur], m) then 1 else 0) == if k == m then 1 else 0
  {
    hide PidsOk, SemsOk, AllJustified, NoLostWakeup, Step, Holds;
    if e.MqRecv? { FindLiveMq(s, k); }
  }

  /** The running task after it has received from slot `k`. */
  function AfterRecv(s: Sys, k: MqSlot): Proc {
    if s.mqs[k].msgs != [] then s.procs[s.cur].(pending := User)
    else s.procs[s.cur].(state := Blocked, pending := Recv(k))
  }

  lemma RecvCalls(s: Sys, e: Event, k: MqSlot)
    requires Inv(s) && Enabled(s, e) && Receives(s, e, k)
    ensures SameCalls(s.procs[s.cur := AfterRecv(s, k)], Step(s, e).s.procs)
    ensures Step(s, e).out == if s.mqs[k].msgs != [] then Received(s.mqs[k].msgs[0]) else Slept
  {
    hide Inv, Step, Receives, SameCalls, Woken, Rest;
    RecvAnswers(s, e, k);
    SameProcsSameCalls(Step(s, e).s.procs);
    if s.mqs[k].msgs != [] {
      HeadSleeps(s, SendQ(k));
      WokenIsSameCalls(s.procs[s.cur := s.procs[s.cur].(pending := User)], Step(s, e).s.procs, FirstOf(s.mqs[k].senders));
    }
  }

  lemma RecvKeepsRequests(s: Sys, e: Event, k: MqSlot, m: MqSlot)
    requires Inv(s) && Enabled(s, e) && Receives(s, e, k) && s.mqs[m].id >= 0
    ensures KeepsRequests(s, e, m)
  {
    hide Inv, Step, Enabled, Receives, AskedToSend, AskedToReceive, KeepsRequests, SameCalls, Address;
    RecvCalls(s, e, k);
    RecvIsAddressed(s, e, k, m);
    CallerKeepsRequests(s, e, AfterRecv(s, k), m);
  }

  lemma SemWaiterSleeps(s: Sys, i: SemSlot, t: TaskSlot)
    requires Holds(s, SemQ(i)) && t in s.sems[i].waiters
    ensures s.procs[t].pending == SemSleep(i)
  {
    assert t in On(s, SemQ(i));
  }

  lemma GrantedIsNoMqCall(s: Sys, ps': seq<Proc>, i: SemSlot, q: seq<TaskSlot>, m: MqSlot)
    requires Holds(s, SemQ(i)) && |ps'| == MAX_TASKS && Woken(s.procs, ps', q, true)
    requires forall t | t in q :: t in s.sems[i].waiters
    ensures SameMqCalls(s.procs, ps', m)
  {
    hide Holds;
    forall t: TaskSlot ensures Carried(ps'[t], m) == Carried(s.procs[t], m) && (Awaits(ps'[t], m) <==> Awaits(s.procs[t], m)) {
      if t in q { SemWaiterSleeps(s, i, t); }
    }
  }

  lemma SemsKeepCalls(s: Sys, e: Event, m: MqSlot)
    requires Inv(s) && Enabled(s, e) && (e.SemCreate? || e.SemWait? || e.SemPost? || e.SemDestroy?)
    ensures SameMqCalls(s.procs, Step(s, e).s.procs, m)
  {
    hide PidsOk, MqsOk, AllJustified, SemsOk, Step, Holds, Carried, Awaits, SameMqCalls, Woken;
    match e
    case SemCreate(init) => SemCreateAnswers(s, init); NoMqCall(s, Step(s, e).s.procs, m);
    case SemWait(id) => SemWaitKeepsCalls(s, id, m);
    case SemPost(id) => SemPostKeepsCalls(s, id, m);
    case SemDestroy(id) => SemDestroyKeepsCalls(s, id, m);
  }

  lemma NoMqCall(s: Sys, ps': seq<Proc>, m: MqSlot)
    requires ps' == s.procs
    ensures SameMqCalls(s.procs, ps', m)
  {
  }

  lemma SemWaitKeepsCalls(s: Sys, id: int, m: MqSlot)
    requires Inv(s) && Enabled(s, SemWait(id))
    ensures SameMqCalls(s.procs, Step(s, SemWait(id)).s.procs, m)
  {
    hide Inv, Step;
    if i: SemSlot :| IsSem(s, id, i) { SemWaitAnswers(s, id, i); } else { NoSuchSem(s, id); }
  }

  lemma SemPostKeepsCalls(s: Sys, id: int, m: MqSlot)
    requires Inv(s) && Enabled(s, SemPost(id))
    ensures SameMqCalls(s.procs, Step(s, SemPost(id)).s.procs, m)
  {
    hide Core, Step, Holds, SameMqCalls;
    if i: SemSlot :| IsSem(s, id, i) {
      SemPostAnswers(s, id, i);
      var q, ps' := s.sems[i].waiters, Step(s, SemPost(id)).s.procs;
      assert Holds(s, SemQ(i));
      if q == [] { NoMqCall(s, ps', m); } else { GrantedIsNoMqCall(s, ps', i, [q[0]], m); }
    } else {
      NoSuchSem(s, id);
      NoMqCall(s, Step(s, SemPost(id)).s.procs, m);
    }
  }

  lemma SemDestroyKeepsCalls(s: Sys, id: int, m: MqSlot)
    requires Inv(s) && Enabled(s, SemDestroy(id))
    ensures SameMqCalls(s.procs, Step(s, SemDestroy(id)).s.procs, m)
  {
    hide Core, Step, Holds, SameMqCalls;
    if i: SemSlot :| IsSem(s, id, i) {
      SemDestroyAnswers(s, id, i);
      assert Holds(s, SemQ(i));
      GrantedIsNoMqCall(s, Step(s, SemDestroy(id)).s.procs, i, s.sems[i].waiters, m);
    } else {
      NoSuchSem(s, id);
      NoMqCall(s, Step(s, SemDestroy(id)).s.procs, m);
    }
  }

  lemma UpdateKeepsCalls(ps: seq<Proc>, t: nat, p: Proc, m: MqSlot)
    requires t < |ps| && (Alive(p) ==> Alive(ps[t]) && p.pending == ps[t].pending)
    requires Alive(ps[t]) && !Alive(p) ==> ps[t].pending == User
    ensures SameMqCalls(ps, ps[t := p], m)
  {
  }

  lemma CallsTrans(ps: seq<Proc>, ps1: seq<Proc>, ps2: seq<Proc>, m: MqSlot)
    requires SameMqCalls(ps, ps1, m) && SameMqCalls(ps1, ps2, m)
    ensures SameMqCalls(ps, ps2, m)
  {
  }

  lemma TickKeepsCalls(s: Sys, m: MqSlot)
    requires Inv(s)
    ensures SameMqCalls(s.procs, Step(s, Tick).s.procs, m)
  {
    hide Inv, Step, SameMqCalls;
    TickAnswers(s);
    RunningIsThere(s);
    var me := s.procs[s.cur];
    UpdateKeepsCalls(s.procs, s.cur, me.(state := if me.state == Zombie then Zombie else Running), m);
    if s.ready != [] {
      var queued := if me.state == Zombie || me.state == Blocked then me else me.(state := Ready);
      var next := s.ready[0];
      assert s.procs[s.cur := me] == s.procs;
      UpdateKeepsCalls(s.procs, s.cur, queued, m);
      UpdateKeepsCalls(s.procs[s.cur := queued], next, s.procs[next].(state := Running), m);
      CallsTrans(s.procs, s.procs[s.cur := queued], Step(s, Tick).s.procs, m);
    }
  }

  lemma RunningIsThere(s: Sys)
    requires Inv(s)
    ensures Occupied(s.procs[s.cur]) && (s.ready != [] ==> s.procs[s.ready[0]].state == Ready)
  {
    hide Core;
    assert Holds(s, ReadyQ) && (s.ready != [] ==> s.ready[0] in On(s, ReadyQ));
  }

  lemma ForkKeepsCalls(s: Sys, m: MqSlot)
    requires Inv(s) && Enabled(s, Fork)
    ensures SameMqCalls(s.procs, Step(s, Fork).s.procs, m)
  {
    hide Inv, Step;
    ForkAnswers(s);
  }

  lemma ExitKeepsCalls(s: Sys, code: int, m: MqSlot)
    requires Inv(s) && Enabled(s, Exit(code))
    ensures SameMqCalls(s.procs, Step(s, Exit(code)).s.procs, m)
  {
    hide Inv, Step, SameMqCalls;
    ExitAnswers(s, code);
    var dead := s.procs[s.cur := s.procs[s.cur].(state := Zombie, exitCode := code)];
    UpdateKeepsCalls(s.procs, s.cur, dead[s.cur], m);
    if p: TaskSlot :| IsBlockedParent(s, p) && Step(s, Exit(code)).s.procs == dead[p := s.procs[p].(state := Ready)] {
      UpdateKeepsCalls(dead, p, s.procs[p].(state := Ready), m);
      CallsTrans(s.procs, dead, Step(s, Exit(code)).s.procs, m);
    }
  }

  /** A task that is in no send or receive, before or after. */
  lemma NoCallKeepsCalls(ps: seq<Proc>, t: nat, p: Proc, m: MqSlot)
    requires t < |ps| && (Alive(ps[t]) ==> !ps[t].pending.Send? && !ps[t].pending.Recv?)
    requires Alive(p) ==> !p.pending.Send? && !p.pending.Recv?
    ensures SameMqCalls(ps, ps[t := p], m)
  {
  }

  lemma WaitKeepsCalls(s: Sys, e: Event, m: MqSlot)
    requires Inv(s) && Enabled(s, e) && Collects(s, e)
    ensures SameMqCalls(s.procs, Step(s, e).s.procs, m)
  {
    hide Inv, Step, SameMqCalls;
    WaitChanges(s, e);
    var p, r := s.procs[s.cur], Step(s, e);
    NoCallKeepsCalls(s.procs, s.cur, p.(state := Blocked, pending := Wait(Asked(s, e))), m);
    NoCallKeepsCalls(s.procs, s.cur, p.(pending := User), m);
    if r.out.Return? && r.out.code != -1 {
      var back := s.procs[s.cur := p.(pending := User)];
      var z: TaskSlot :| IsCollected(s, e, z) && z != s.cur && !Occupied(r.s.procs[z]) && r.s.procs == back[z := r.s.procs[z]];
      NoCallKeepsCalls(back, z, r.s.procs[z], m);
      CallsTrans(s.procs, back, r.s.procs, m);
    }
  }

  lemma MqDestroyKeepsCalls(s: Sys, id: int, m: MqSlot)
    requires Inv(s) && Enabled(s, MqDestroy(id))
    ensures SameMqCalls(s.procs, Step(s, MqDestroy(id)).s.procs, m)
  {
    hide Inv, Step, SameMqCalls, Woken, Enabled;
    if k: MqSlot :| IsMq(s, id, k) {
      MqDestroyAnswers(s, id, k);
      HeadSleeps(s, RecvQ(k));
      HeadSleeps(s, SendQ(k));
      WokenIsSameCalls(s.procs, Step(s, MqDestroy(id)).s.procs, s.mqs[k].receivers + s.mqs[k].senders);
      SameCallsCarry(s.procs, Step(s, MqDestroy(id)).s.procs, m);
    } else {
      NotThere(s, id, m);
    }
  }

  lemma NotThere(s: Sys, id: int, m: MqSlot)
    requires Inv(s) && Enabled(s, MqDestroy(id)) && forall k: MqSlot :: !IsMq(s, id, k)
    ensures SameMqCalls(s.procs, Step(s, MqDestroy(id)).s.procs, m)
  {
    hide Inv, Step;
    NoSuchMq(s, id, []);
  }

  /** A section that works on no queue. */
  lemma OthersKeepRequests(s: Sys, e: Event, m: MqSlot)
    requires Inv(s) && Enabled(s, e) && Address(s, e) == Neither && s.mqs[m].id >= 0
    requires SameMqCalls(s.procs, Step(s, e).s.procs, m)
    ensures KeepsRequests(s, e, m)
  {
    hide Placed, PidsOk, SemsOk, AllJustified, NoLostWakeup, Step, Carried, Awaits;
    FindLiveMq(s, m);
    SameSending(s.procs, Step(s, e).s.procs, m);
  }

  lemma SectionKeepsRequests(s: Sys, e: Event, m: MqSlot)
    requires Inv(s) && Enabled(s, e) && s.mqs[m].id >= 0
    ensures KeepsRequests(s, e, m)
  {
    hide Inv, Step, KeepsRequests, SameMqCalls, Sends, Receives;
    match Address(s, e)
    case Sender(k, data) =>
      AddressIsSend(s, e, k, data);
      SendKeepsRequests(s, e, k, data, m);
    case Receiver(k) =>
      AddressIsRecv(s, e, k);
      RecvKeepsRequests(s, e, k, m);
    case Neither =>
      match e {
        case Tick => TickKeepsCalls(s, m);
        case Fork => ForkKeepsCalls(s, m);
        case Exit(code) => ExitKeepsCalls(s, code, m);
        case MqDestroy(id) => MqDestroyKeepsCalls(s, id, m);
        case MqCreate => MqCreateAnswers(s); NoMqCall(s, Step(s, e).s.procs, m);
        case MqSend(id, data) => NoQueueKeepsCalls(s, e, m);
        case MqRecv(id) => NoQueueKeepsCalls(s, e, m);
        case Resume => WaitKeepsCalls(s, e, m);
        case WaitFor(_) => WaitKeepsCalls(s, e, m);
        case _ => SemsKeepCalls(s, e, m);
      }
      OthersKeepRequests(s, e, m);
  }

  lemma AddressIsSend(s: Sys, e: Event, k: MqSlot, data: Msg)
    requires Enabled(s, e) && Address(s, e) == Sender(k, data)
    ensures Sends(s, e, k, data)
  {
  }

  lemma AddressIsRecv(s: Sys, e: Event, k: MqSlot)
    requires Enabled(s, e) && Address(s, e) == Receiver(k)
    ensures Receives(s, e, k)
  {
  }

  lemma NoQueueKeepsCalls(s: Sys, e: Event, m: MqSlot)
    requires Inv(s) && Enabled(s, e) && (e.MqSend? || e.MqRecv?) && Address(s, e) == Neither
    ensures SameMqCalls(s.procs, Step(s, e).s.procs, m)
  {
    hide Inv;
    NoMqCall(s, Step(s, e).s.procs, m);
  }

  /** The messages that the calls of a run ask to send on slot `m`. */
  function ToSend(s: Sys, es: seq<Event>, m: MqSlot): multiset<Msg>
    requires Legal(s, es)
    decreases |es|
  {
    if es == [] then multiset{} else AskedToSend(s, es[0], m) + ToSend(Step(s, es[0]).s, es[1..], m)
  }

  function ToReceive(s: Sys, es: seq<Event>, m: MqSlot): nat
    requires Legal(s, es)
    decreases |es|
  {
    if es == [] then 0 else AskedToReceive(s, es[0], m) + ToReceive(Step(s, es[0]).s, es[1..], m)
  }

  /** Until a queue is destroyed, no request is lost: every message that a task asked to send has been accepted, or
      its sender is still at it; every receive has got a message, or its caller is still at it. */
  lemma {:induction false} NoRequestIsLost(s: Sys, es: seq<Event>, m: MqSlot)
    requires Inv(s) && Legal(s, es) && s.mqs[m].id >= 0 && MqDestroy(s.mqs[m].id) !in es
    ensures var s' := After(s, es);
      && Sending(s.procs, m) + ToSend(s, es, m) == multiset(Accepted(s, es, m)) + Sending(s'.procs, m)
      && Receiving(s.procs, m) + ToReceive(s, es, m) == |Delivered(s, es, m)| + Receiving(s'.procs, m)
    decreases |es|
  {
    hide Inv, Step, Enabled, Safe, Sending, Receiving, AskedToSend, AskedToReceive, AcceptedBy, DeliveredBy;
    if es != [] {
      var s1, s' := Step(s, es[0]).s, After(s, es);
      StepKeepsInvIffSafe(s, es[0]);
      MqStep(s, es[0], m);
      SectionKeepsRequests(s, es[0], m);
      NoRequestIsLost(s1, es[1..], m);
      Chain(Sending(s.procs, m), Sending(s1.procs, m), Sending(s'.procs, m), AskedToSend(s, es[0], m), ToSend(s1, es[1..], m),
        AcceptedBy(s, es[0], m), Accepted(s1, es[1..], m));
    }
  }

  lemma Chain(a: multiset<Msg>, b: multiset<Msg>, c: multiset<Msg>, ask1: multiset<Msg>, ask2: multiset<Msg>,
              done1: seq<Msg>, done2: seq<Msg>)
    requires a + ask1 == b + multiset(done1) && b + ask2 == multiset(done2) + c
    ensures a + (ask1 + ask2) == multiset(done1 + done2) + c
  {
    forall x ensures (a + (ask1 + ask2))[x] == (multiset(done1 + done2) + c)[x] {
      assert (a + ask1)[x] == (b + multiset(done1))[x] && (b + ask2)[x] == (multiset(done2) + c)[x];
    }
  }
}
