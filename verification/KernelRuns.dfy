/** Theorems about whole runs of the scheduler and of the IPC primitives: any sequence of sections,
    in any interleaving of the tasks, in which no section is one of the unsafe cases. */
module KernelRuns {
  import opened KernelSpec
  import opened KernelInvariant

  predicate Legal(s: Sys, es: seq<Event>)
    decreases |es|
  {
    es == [] || (Enabled(s, es[0]) && Safe(s, es[0]) && Legal(Step(s, es[0]).s, es[1..]))
  }

  function After(s: Sys, es: seq<Event>): Sys
    requires Legal(s, es)
    decreases |es|
  {
    if es == [] then s else After(Step(s, es[0]).s, es[1..])
  }

  lemma {:induction false} RunKeepsInv(s: Sys, es: seq<Event>)
    requires Inv(s) && Legal(s, es)
    ensures Inv(After(s, es))
    decreases |es|
  {
    if es != [] {
      StepKeepsInvIffSafe(s, es[0]);
      RunKeepsInv(Step(s, es[0]).s, es[1..]);
    }
  }

  // ---------------------------------------------------------------- one place for each task

  /** Where the tables and the queues show the task, read off without asking for its home. */
  ghost predicate FoundAt(s: Sys, t: TaskSlot, q: Place) {
    match q
    case Cpu => t == s.cur && s.procs[t].state == Running
    case AsleepInWait => s.procs[t].state == Blocked && s.procs[t].pending.Wait?
    case Dead => s.procs[t].state == Zombie
    case Vacant => false
    case Lost => false
    case _ => t in On(s, q)
  }

  lemma FoundAtHome(s: Sys, t: TaskSlot, q: Place)
    requires Placed(s) && Occupied(s.procs[t])
    ensures FoundAt(s, t, q) <==> q == Home(s.procs[t])
    ensures NoDup(On(s, q))
  {
    if q.IsQueue() { assert Holds(s, q); }
  }

  /** In every reachable state each task is in exactly one place, and no queue holds it twice. */
  lemma ExactlyOnePlace(es: seq<Event>, t: TaskSlot)
    requires Legal(Boot, es) && Occupied(After(Boot, es).procs[t])
    ensures exists q: Place :: FoundAt(After(Boot, es), t, q)
    ensures forall q: Place, r: Place | FoundAt(After(Boot, es), t, q) && FoundAt(After(Boot, es), t, r) :: q == r
    ensures forall q: Place :: NoDup(On(After(Boot, es), q))
  {
    hide Core, FoundAt, Home, On, NoDup;
    BootInv();
    RunKeepsInv(Boot, es);
    var s := After(Boot, es);
    forall q: Place ensures (FoundAt(s, t, q) <==> q == Home(s.procs[t])) && NoDup(On(s, q)) {
      FoundAtHome(s, t, q);
    }
    assert FoundAt(s, t, Home(s.procs[t]));
  }

  // ---------------------------------------------------------------- no lost wake-up

  /** While everybody who was woken has tested the queue again, a receiver waits only for an
      empty queue, a sender only for a full one. */
  lemma NobodyWaitsInVain(es: seq<Event>, m: MqSlot)
    requires Legal(Boot, es)
    ensures var s := After(Boot, es);
      var mq := s.mqs[m];
      && (mq.receivers != [] && Count(s.procs, WokenReceiver(m)) == 0 ==> mq.msgs == [])
      && (mq.senders != [] && Count(s.procs, WokenSender(m)) == 0 ==> |mq.msgs| == MSGQUEUE_SIZE)
      && (mq.receivers != [] && mq.senders != [] ==>
            Count(s.procs, WokenReceiver(m)) + Count(s.procs, WokenSender(m)) >= MSGQUEUE_SIZE)
  {
    BootInv();
    RunKeepsInv(Boot, es);
    assert NoLostWakeup(After(Boot, es), m);
  }

  // ---------------------------------------------------------------- round robin

  function Ticks(es: seq<Event>): nat {
    if es == [] then 0 else (if es[0] == Tick then 1 else 0) + Ticks(es[1..])
  }

  lemma {:induction false} DrainSemAppends(s: Sys, i: SemSlot)
    ensures s.ready <= DrainSem(s, i).ready
    decreases |s.sems[i].waiters|
  {
    if s.sems[i].waiters != [] { DrainSemAppends(PopWaiter(s, i), i); }
  }

  lemma {:induction false} DrainReceiversAppends(s: Sys, m: MqSlot)
    ensures s.ready <= DrainReceivers(s, m).ready
    decreases |s.mqs[m].receivers|
  {
    if s.mqs[m].receivers != [] { DrainReceiversAppends(PopReceiver(s, m), m); }
  }

  lemma {:induction false} DrainSendersAppends(s: Sys, m: MqSlot)
    ensures s.ready <= DrainSenders(s, m).ready
    decreases |s.mqs[m].senders|
  {
    if s.mqs[m].senders != [] { DrainSendersAppends(PopSender(s, m), m); }
  }

  /** Only a tick takes a task off the ready queue; everything else joins at the end. */
  lemma OnlyTicksDequeue(s: Sys, e: Event)
    requires Enabled(s, e) && e != Tick
    ensures s.ready <= Step(s, e).s.ready
  {
    match e
    case SemDestroy(id) =>
      if FindSem(s.sems, id) < MAX_SEMS { DrainSemAppends(s, FindSem(s.sems, id)); }
    case MqDestroy(id) =>
      var m := FindMq(s.mqs, id);
      if m < MAX_MSGQUEUES {
        DrainReceiversAppends(s, m);
        DrainSendersAppends(DrainReceivers(s, m), m);
      }
    case _ =>
  }

  lemma {:induction false} LastTickCounts(es: seq<Event>)
    requires es != [] && es[|es| - 1] == Tick
    ensures Ticks(es) >= 1
  {
    if |es| > 1 { LastTickCounts(es[1..]); }
  }

  /** A ready task with `k` tasks ahead of it moves up by one at each tick, whatever else happens,
      and runs at exactly the (k+1)-th. */
  lemma TickMovesUp(s: Sys)
    requires Inv(s) && s.ready != []
    ensures var s' := Step(s, Tick).s;
      s'.cur == s.ready[0] && s'.procs[s'.cur].state == Running && s.ready[1..] <= s'.ready
  {
    LoneTaskHasNoQueue(s);
  }

  lemma {:induction false} RoundRobin(s: Sys, es: seq<Event>, k: nat)
    requires Inv(s) && Legal(s, es) && k < |s.ready|
    ensures Ticks(es) <= k ==> var s' := After(s, es);
      k - Ticks(es) < |s'.ready| && s'.ready[k - Ticks(es)] == s.ready[k]
    ensures Ticks(es) == k + 1 && es[|es| - 1] == Tick ==>
      After(s, es).cur == s.ready[k] && After(s, es).procs[s.ready[k]].state == Running
    decreases |es|
  {
    hide Inv, Step, Enabled, Safe;
    if es != [] {
      var s1 := Step(s, es[0]).s;
      StepKeepsInvIffSafe(s, es[0]);
      if es[0] == Tick {
        TickMovesUp(s);
      } else {
        OnlyTicksDequeue(s, es[0]);
      }
      if es[0] != Tick {
        RoundRobin(s1, es[1..], k);
      } else if k > 0 {
        RoundRobin(s1, es[1..], k - 1);
      } else if es[|es| - 1] == Tick && |es| > 1 {
        LastTickCounts(es[1..]);
      }
    }
  }

  lemma {:induction false} TwoLive(ps: seq<Proc>, i: nat, j: nat)
    requires i < j < |ps| && Occupied(ps[i]) && Occupied(ps[j])
    ensures Count(ps, Live) >= 2
  {
    if i > 0 { TwoLive(ps[1..], i - 1, j - 1); } else { OneLive(ps[1..], j - 1); }
  }

  lemma {:induction false} OneLive(ps: seq<Proc>, j: nat)
    requires j < |ps| && Occupied(ps[j])
    ensures Count(ps, Live) >= 1
  {
    if j > 0 { OneLive(ps[1..], j - 1); }
  }

  /** With task_count == 1 the early exit of scheduler_tick skips nobody. */
  lemma LoneTaskHasNoQueue(s: Sys)
    requires Inv(s) && s.ready != []
    ensures s.taskCount > 1
  {
    var t := s.ready[0];
    assert Holds(s, ReadyQ) && t in On(s, ReadyQ);
    TwoLive(s.procs, if t < s.cur then t else s.cur, if t < s.cur then s.cur else t);
  }

  lemma {:induction false} NoDupCard(q: seq<TaskSlot>, a: set<int>)
    requires NoDup(q) && forall x: int :: x in a <==> x in q
    ensures |a| == |q|
  {
    if q == [] {
      assert forall x: int :: x !in a;
      assert a <= {};
    } else {
      assert q == q[..|q| - 1] + [q[|q| - 1]];
      NoDupCard(q[..|q| - 1], a - {q[|q| - 1]});
    }
  }

  lemma {:induction false} BoundedCard(a: set<int>, n: nat)
    requires forall x :: x in a ==> 0 <= x < n
    ensures |a| <= n
  {
    if n == 0 {
      assert forall x :: x !in a;
      assert a <= {};
    } else {
      BoundedCard(a - {n - 1}, n - 1);
      assert a <= (a - {n - 1}) + {n - 1};
    }
  }

  /** So nobody waits longer than MAX_TASKS - 1 ticks. */
  lemma ReadyQueueBound(s: Sys)
    requires Inv(s)
    ensures |s.ready| <= MAX_TASKS - 1
  {
    assert Holds(s, ReadyQ) && s.cur !in On(s, ReadyQ);
    var here: set<int> := set t <- s.ready;
    NoDupCard(s.ready, here);
    assert |here + {s.cur}| == |s.ready| + 1;
    BoundedCard(here + {s.cur}, MAX_TASKS);
  }

  // ---------------------------------------------------------------- exit and wait

  /** The pids that task_wait hands out along the run, in order. */
  function Collected(s: Sys, es: seq<Event>): seq<int>
    requires Legal(s, es)
    decreases |es|
  {
    if es == [] then []
    else
      var r := Step(s, es[0]);
      (if Collects(s, es[0]) && r.out.Return? && r.out.code >= 0 then [r.out.code] else []) + Collected(r.s, es[1..])
  }

  predicate Collects(s: Sys, e: Event) { e.WaitFor? || (e == Resume && s.procs[s.cur].pending.Wait?) }

  ghost predicate HasPid(s: Sys, pid: int) {
    exists t: TaskSlot :: Occupied(s.procs[t]) && s.procs[t].pid == pid
  }

  lemma {:induction false} DrainSemKeepsPids(s: Sys, i: SemSlot)
    ensures DrainSem(s, i).nextPid == s.nextPid
    ensures forall t: TaskSlot :: DrainSem(s, i).procs[t].pid == s.procs[t].pid
    decreases |s.sems[i].waiters|
  {
    if s.sems[i].waiters != [] { DrainSemKeepsPids(PopWaiter(s, i), i); }
  }

  lemma {:induction false} DrainReceiversKeepsPids(s: Sys, m: MqSlot)
    ensures DrainReceivers(s, m).nextPid == s.nextPid
    ensures forall t: TaskSlot :: DrainReceivers(s, m).procs[t].pid == s.procs[t].pid
    decreases |s.mqs[m].receivers|
  {
    if s.mqs[m].receivers != [] { DrainReceiversKeepsPids(PopReceiver(s, m), m); }
  }

  lemma {:induction false} DrainSendersKeepsPids(s: Sys, m: MqSlot)
    ensures DrainSenders(s, m).nextPid == s.nextPid
    ensures forall t: TaskSlot :: DrainSenders(s, m).procs[t].pid == s.procs[t].pid
    decreases |s.mqs[m].senders|
  {
    if s.mqs[m].senders != [] { DrainSendersKeepsPids(PopSender(s, m), m); }
  }

  ghost predicate PidsGrow(s: Sys, s': Sys) {
    && s'.nextPid >= s.nextPid
    && forall t: TaskSlot :: Occupied(s'.procs[t]) ==>
         s'.procs[t].pid == s.procs[t].pid || s.nextPid <= s'.procs[t].pid < s'.nextPid
  }

  lemma ScheduleKeepsPids(s: Sys, e: Event)
    requires Enabled(s, e) && (e.Tick? || e.Fork? || e.Exit?)
    ensures PidsGrow(s, Step(s, e).s)
  {
  }

  lemma RoundKeepsPids(s: Sys, e: Event)
    requires Enabled(s, e) && (e.WaitFor? || e.SemWait? || e.SemPost? || e.MqSend? || e.MqRecv? || e.Resume?)
    ensures PidsGrow(s, Step(s, e).s)
  {
  }

  /** Pids come from next_pid and nowhere else. */
  lemma OnlyForkAddsPids(s: Sys, e: Event)
    requires Enabled(s, e)
    ensures PidsGrow(s, Step(s, e).s)
  {
    match e
    case Tick => ScheduleKeepsPids(s, e);
    case Fork => ScheduleKeepsPids(s, e);
    case Exit(_) => ScheduleKeepsPids(s, e);
    case SemCreate(_) =>
    case MqCreate =>
    case SemDestroy(id) =>
      if FindSem(s.sems, id) < MAX_SEMS { DrainSemKeepsPids(s, FindSem(s.sems, id)); }
    case MqDestroy(id) =>
      var m := FindMq(s.mqs, id);
      if m < MAX_MSGQUEUES {
        DrainReceiversKeepsPids(s, m);
        DrainSendersKeepsPids(DrainReceivers(s, m), m);
      }
    case _ => RoundKeepsPids(s, e);
  }

  /** What task_wait returns is the pid of an exited child of the caller, and its slot is free. */
  lemma WaitCollectsExitedChild(s: Sys, e: Event)
    requires Inv(s) && Enabled(s, e) && Collects(s, e)
    requires Step(s, e).out.Return? && Step(s, e).out.code >= 0
    ensures var pid := Step(s, e).out.code;
      && !HasPid(Step(s, e).s, pid)
      && exists z: TaskSlot :: s.procs[z].pid == pid && s.procs[z].state == Zombie && s.procs[z].parent == s.procs[s.cur].pid
  {
    var pid := if e.WaitFor? then e.pid else s.procs[s.cur].pending.pid;
    var z := ZombieChild(s.procs, s.procs[s.cur].pid, pid);
    assert s.procs[z].pid == Step(s, e).out.code;
  }

  lemma {:induction false} CollectedOnce(s: Sys, es: seq<Event>)
    requires Inv(s) && Legal(s, es)
    ensures NoDup(Collected(s, es))
    ensures forall p <- Collected(s, es) :: HasPid(s, p) || p >= s.nextPid
    decreases |es|
  {
    hide Inv, Step, Enabled, Safe, Collects;
    if es != [] {
      var r := Step(s, es[0]);
      var rest := Collected(r.s, es[1..]);
      StepKeepsInvIffSafe(s, es[0]);
      OnlyForkAddsPids(s, es[0]);
      CollectedOnce(r.s, es[1..]);
      if Collects(s, es[0]) && r.out.Return? && r.out.code >= 0 {
        WaitCollectsExitedChild(s, es[0]);
        CollectedPidIsOld(s, es[0]);
      }
      forall p <- rest ensures HasPid(s, p) || p >= s.nextPid {
        if p < r.s.nextPid { assert HasPid(r.s, p); }
      }
    }
  }

  lemma CollectedPidIsOld(s: Sys, e: Event)
    requires Inv(s) && Enabled(s, e) && Collects(s, e)
    requires Step(s, e).out.Return? && Step(s, e).out.code >= 0
    ensures HasPid(s, Step(s, e).out.code) && Step(s, e).out.code < Step(s, e).s.nextPid
  {
    hide Placed, SemsOk, MqsOk, AllJustified;
    var pid := if e.WaitFor? then e.pid else s.procs[s.cur].pending.pid;
    var z := ZombieChild(s.procs, s.procs[s.cur].pid, pid);
    assert s.procs[z].pid == Step(s, e).out.code;
  }

  /** A parent asleep in task_wait has a matching live child and no matching zombie; pids are
      unique and task_count is the number of occupied slots. */
  lemma WaitHandshake(es: seq<Event>, t: TaskSlot)
    requires Legal(Boot, es)
    ensures var s := After(Boot, es);
      && (FoundAt(s, t, AsleepInWait) && Occupied(s.procs[t]) ==>
            && (exists c: TaskSlot :: Matches(s.procs[c], s.procs[t].pid, s.procs[t].pending.pid) && s.procs[c].state != Zombie)
            && forall c: TaskSlot :: Matches(s.procs[c], s.procs[t].pid, s.procs[t].pending.pid) ==> s.procs[c].state != Zombie)
      && (forall u: TaskSlot | u != t && Occupied(s.procs[t]) :: s.procs[u].pid != s.procs[t].pid)
      && s.taskCount == Count(s.procs, Live)
    ensures NoDup(Collected(Boot, es))
  {
    hide Placed, SemsOk, MqsOk;
    BootInv();
    RunKeepsInv(Boot, es);
    CollectedOnce(Boot, es);
    var s := After(Boot, es);
    assert Justified(s, t);
  }

  // ---------------------------------------------------------------- semaphores

  function Posts(es: seq<Event>, id: int): nat {
    if es == [] then 0 else (if es[0] == SemPost(id) then 1 else 0) + Posts(es[1..], id)
  }

  /** The tasks that call sem_wait(id), in order. */
  function Requests(s: Sys, es: seq<Event>, id: int): seq<TaskSlot>
    requires Legal(s, es)
    decreases |es|
  {
    if es == [] then []
    else (if es[0] == SemWait(id) then [s.cur] else []) + Requests(Step(s, es[0]).s, es[1..], id)
  }

  /** The tasks that get the semaphore in slot `i`, in order: at once in sem_wait, or handed over
      by sem_post. */
  function Grants(s: Sys, es: seq<Event>, i: SemSlot): seq<TaskSlot>
    requires Legal(s, es)
    decreases |es|
  {
    if es == [] then [] else GrantedBy(s, es[0], i) + Grants(Step(s, es[0]).s, es[1..], i)
  }

  function GrantedBy(s: Sys, e: Event, i: SemSlot): seq<TaskSlot>
    requires Enabled(s, e)
  {
    var sem := s.sems[i];
    if e == SemWait(sem.id) && Step(s, e).out == Return(0) then [s.cur]
    else if e == SemPost(sem.id) && sem.waiters != [] then [sem.waiters[0]]
    else []
  }

  lemma FindLiveSem(s: Sys, i: SemSlot)
    requires SemsOk(s.sems, s.semCount) && s.sems[i].id >= 0
    ensures FindSem(s.sems, s.sems[i].id) == i
  {
  }

  lemma {:induction false} DrainSemTouchesOne(s: Sys, i: SemSlot)
    ensures forall j: SemSlot | j != i :: DrainSem(s, i).sems[j] == s.sems[j]
    decreases |s.sems[i].waiters|
  {
    if s.sems[i].waiters != [] { DrainSemTouchesOne(PopWaiter(s, i), i); }
  }

  lemma {:induction false} DrainReceiversKeepsSems(s: Sys, m: MqSlot)
    ensures DrainReceivers(s, m).sems == s.sems
    decreases |s.mqs[m].receivers|
  {
    if s.mqs[m].receivers != [] { DrainReceiversKeepsSems(PopReceiver(s, m), m); }
  }

  lemma {:induction false} DrainSendersKeepsSems(s: Sys, m: MqSlot)
    ensures DrainSenders(s, m).sems == s.sems
    decreases |s.mqs[m].senders|
  {
    if s.mqs[m].senders != [] { DrainSendersKeepsSems(PopSender(s, m), m); }
  }

  /** One section and one live semaphore, which the section does not destroy. */
  lemma SemStep(s: Sys, e: Event, i: SemSlot)
    requires Inv(s) && Enabled(s, e) && s.sems[i].id >= 0 && e != SemDestroy(s.sems[i].id)
    ensures var sem, sem' := s.sems[i], Step(s, e).s.sems[i];
      && sem'.id == sem.id
      && sem'.value + |GrantedBy(s, e, i)| == sem.value + (if e == SemPost(sem.id) then 1 else 0)
      && GrantedBy(s, e, i) + sem'.waiters == sem.waiters + (if e == SemWait(sem.id) then [s.cur] else [])
  {
    hide Placed, PidsOk, MqsOk, AllJustified, Step, GrantedBy;
    if e.SemWait? {
      SemWaitGrants(s, e.sem, i);
    } else if e.SemPost? {
      SemPostGrants(s, e.sem, i);
    } else {
      OthersKeepSem(s, e, i);
    }
  }

  lemma SemWaitGrants(s: Sys, id: int, i: SemSlot)
    requires Inv(s) && Enabled(s, SemWait(id)) && s.sems[i].id >= 0
    ensures var e, sem, sem' := SemWait(id), s.sems[i], Step(s, SemWait(id)).s.sems[i];
      && sem'.id == sem.id && sem'.value + |GrantedBy(s, e, i)| == sem.value
      && GrantedBy(s, e, i) + sem'.waiters == sem.waiters + (if e == SemWait(sem.id) then [s.cur] else [])
  {
    hide Placed, PidsOk, MqsOk, AllJustified;
    FindLiveSem(s, i);
  }

  lemma SemPostGrants(s: Sys, id: int, i: SemSlot)
    requires Inv(s) && Enabled(s, SemPost(id)) && s.sems[i].id >= 0
    ensures var e, sem, sem' := SemPost(id), s.sems[i], Step(s, SemPost(id)).s.sems[i];
      && sem'.id == sem.id && sem'.value + |GrantedBy(s, e, i)| == sem.value + (if e == SemPost(sem.id) then 1 else 0)
      && GrantedBy(s, e, i) + sem'.waiters == sem.waiters
  {
    hide Placed, PidsOk, MqsOk, AllJustified;
    FindLiveSem(s, i);
  }

  lemma OthersKeepSem(s: Sys, e: Event, i: SemSlot)
    requires Inv(s) && Enabled(s, e) && s.sems[i].id >= 0 && e != SemDestroy(s.sems[i].id) && !e.SemWait? && !e.SemPost?
    ensures Step(s, e).s.sems[i] == s.sems[i] && GrantedBy(s, e, i) == []
  {
    hide Placed, PidsOk, MqsOk, AllJustified;
    FindLiveSem(s, i);
    match e
    case SemDestroy(id) =>
      if FindSem(s.sems, id) < MAX_SEMS { DrainSemTouchesOne(s, FindSem(s.sems, id)); }
    case MqDestroy(id) =>
      var m := FindMq(s.mqs, id);
      if m < MAX_MSGQUEUES {
        DrainReceiversKeepsSems(s, m);
        DrainSendersKeepsSems(DrainReceivers(s, m), m);
      }
    case _ =>
  }

  /** Value and grants balance value and posts, and the semaphore is granted in the order in
      which it was asked for. */
  lemma {:induction false} SemaphoreConservation(s: Sys, es: seq<Event>, i: SemSlot)
    requires Inv(s) && Legal(s, es) && s.sems[i].id >= 0 && SemDestroy(s.sems[i].id) !in es
    ensures var sem, sem' := s.sems[i], After(s, es).sems[i];
      && sem'.id == sem.id
      && sem.value + Posts(es, sem.id) == sem'.value + |Grants(s, es, i)|
      && sem.waiters + Requests(s, es, sem.id) == Grants(s, es, i) + sem'.waiters
    decreases |es|
  {
    hide Inv, Step, Enabled, Safe, GrantedBy;
    if es != [] {
      var s1 := Step(s, es[0]).s;
      StepKeepsInvIffSafe(s, es[0]);
      SemStep(s, es[0], i);
      SemaphoreConservation(s1, es[1..], i);
      var id := s.sems[i].id;
      calc {
        s.sems[i].waiters + Requests(s, es, id);
        (s.sems[i].waiters + (if es[0] == SemWait(id) then [s.cur] else [])) + Requests(s1, es[1..], id);
        GrantedBy(s, es[0], i) + (s1.sems[i].waiters + Requests(s1, es[1..], id));
        GrantedBy(s, es[0], i) + (Grants(s1, es[1..], i) + After(s, es).sems[i].waiters);
        Grants(s, es, i) + After(s, es).sems[i].waiters;
      }
    }
  }

  /** The balance from creation on: it starts from the clamped initial value and nobody waiting. */
  lemma SemaphoreFromCreation(s: Sys, init: int, es: seq<Event>)
    requires Inv(s) && Legal(s, [SemCreate(init)] + es) && FreeSemSlot(s.sems) < MAX_SEMS
    requires SemDestroy(s.semCount) !in es
    ensures var i := FreeSemSlot(s.sems);
      var s1 := SemCreateStep(s, init).s;
      var sem := After(s, [SemCreate(init)] + es).sems[i];
      && Legal(s1, es) && sem.id == s.semCount
      && (if init < 0 then 0 else init) + Posts(es, sem.id) == sem.value + |Grants(s1, es, i)|
      && Requests(s1, es, sem.id) == Grants(s1, es, i) + sem.waiters
  {
    assert ([SemCreate(init)] + es)[1..] == es;
    SemCreateKeepsInv(s, init);
    SemaphoreConservation(SemCreateStep(s, init).s, es, FreeSemSlot(s.sems));
  }

  // ---------------------------------------------------------------- message queues

  datatype Addressed = Sender(m: MqSlot, msg: Msg) | Receiver(m: MqSlot) | Neither

  /** The queue slot that a section of the running task works on. */
  function Address(s: Sys, e: Event): Addressed
    requires Enabled(s, e)
  {
    match e
    case MqSend(id, data) =>
      var m := FindMq(s.mqs, id);
      if id < 0 || m == MAX_MSGQUEUES then Neither else Sender(m, Cut(data))
    case MqRecv(id) =>
      var m := FindMq(s.mqs, id);
      if id < 0 || m == MAX_MSGQUEUES then Neither else Receiver(m)
    case Resume =>
      (match s.procs[s.cur].pending
       case Send(m, data) => Sender(m, data)
       case Recv(m) => Receiver(m)
       case _ => Neither)
    case _ => Neither
  }

  function AcceptedBy(s: Sys, e: Event, m: MqSlot): seq<Msg>
    requires Enabled(s, e)
  {
    var a := Address(s, e);
    if a.Sender? && a.m == m && Step(s, e).out == Return(0) then [a.msg] else []
  }

  function DeliveredBy(s: Sys, e: Event, m: MqSlot): seq<Msg>
    requires Enabled(s, e)
  {
    var out := Step(s, e).out;
    if Address(s, e) == Receiver(m) && out.Received? then [out.msg] else []
  }

  function Accepted(s: Sys, es: seq<Event>, m: MqSlot): seq<Msg>
    requires Legal(s, es)
    decreases |es|
  {
    if es == [] then [] else AcceptedBy(s, es[0], m) + Accepted(Step(s, es[0]).s, es[1..], m)
  }

  function Delivered(s: Sys, es: seq<Event>, m: MqSlot): seq<Msg>
    requires Legal(s, es)
    decreases |es|
  {
    if es == [] then [] else DeliveredBy(s, es[0], m) + Delivered(Step(s, es[0]).s, es[1..], m)
  }

  lemma FindLiveMq(s: Sys, m: MqSlot)
    requires MqsOk(s) && s.mqs[m].id >= 0
    ensures FindMq(s.mqs, s.mqs[m].id) == m
  {
  }

  lemma {:induction false} DrainReceiversTouchesOne(s: Sys, m: MqSlot)
    ensures forall k: MqSlot | k != m :: DrainReceivers(s, m).mqs[k] == s.mqs[k]
    decreases |s.mqs[m].receivers|
  {
    if s.mqs[m].receivers != [] { DrainReceiversTouchesOne(PopReceiver(s, m), m); }
  }

  lemma {:induction false} DrainSendersTouchesOne(s: Sys, m: MqSlot)
    ensures forall k: MqSlot | k != m :: DrainSenders(s, m).mqs[k] == s.mqs[k]
    decreases |s.mqs[m].senders|
  {
    if s.mqs[m].senders != [] { DrainSendersTouchesOne(PopSender(s, m), m); }
  }

  lemma {:induction false} DrainSemKeepsMqs(s: Sys, i: SemSlot)
    ensures DrainSem(s, i).mqs == s.mqs
    decreases |s.sems[i].waiters|
  {
    if s.sems[i].waiters != [] { DrainSemKeepsMqs(PopWaiter(s, i), i); }
  }

  lemma SendRound(s: Sys, m: MqSlot, data: Msg, k: MqSlot)
    ensures var r, mq := TrySend(s, m, data), s.mqs[k];
      && !r.out.Received? && r.s.mqs[k].id == mq.id
      && r.s.mqs[k].msgs == mq.msgs + (if k == m && r.out == Return(0) then [data] else [])
  {
  }

  lemma RecvRound(s: Sys, m: MqSlot, k: MqSlot)
    ensures var r, mq := TryRecv(s, m), s.mqs[k];
      && !r.out.Return? && r.s.mqs[k].id == mq.id
      && mq.msgs == (if k == m && r.out.Received? then [r.out.msg] else []) + r.s.mqs[k].msgs
  {
  }

  lemma WaitRound(s: Sys, pid: int)
    ensures WaitStep(s, pid).s.mqs == s.mqs && !WaitStep(s, pid).out.Received?
  {
  }

  lemma MqRound(s: Sys, e: Event, m: MqSlot)
    requires Enabled(s, e) && (e.MqSend? || e.MqRecv? || e.Resume?)
    ensures var mq, mq' := s.mqs[m], Step(s, e).s.mqs[m];
      mq'.id == mq.id && mq.msgs + AcceptedBy(s, e, m) == DeliveredBy(s, e, m) + mq'.msgs
  {
    hide TrySend, TryRecv, WaitStep;
    match Address(s, e)
    case Sender(k, data) => SendRound(s, k, data, m);
    case Receiver(k) => RecvRound(s, k, m);
    case Neither =>
      if e == Resume { WaitRound(s, s.procs[s.cur].pending.pid); }
  }

  lemma OthersTouchNoMq(s: Sys, e: Event)
    requires Enabled(s, e) && !(e.MqCreate? || e.MqSend? || e.MqRecv? || e.MqDestroy? || e.SemDestroy? || e.Resume?)
    ensures Step(s, e).s.mqs == s.mqs && Address(s, e) == Neither
  {
  }

  lemma MqStep(s: Sys, e: Event, m: MqSlot)
    requires Inv(s) && Enabled(s, e) && s.mqs[m].id >= 0 && e != MqDestroy(s.mqs[m].id)
    ensures var mq, mq' := s.mqs[m], Step(s, e).s.mqs[m];
      mq'.id == mq.id && mq.msgs + AcceptedBy(s, e, m) == DeliveredBy(s, e, m) + mq'.msgs
  {
    hide Placed, PidsOk, SemsOk, AllJustified, NoLostWakeup;
    FindLiveMq(s, m);
    match e
    case MqCreate =>
    case SemDestroy(id) =>
      if FindSem(s.sems, id) < MAX_SEMS { DrainSemKeepsMqs(s, FindSem(s.sems, id)); }
    case MqDestroy(id) =>
      var k := FindMq(s.mqs, id);
      if k < MAX_MSGQUEUES {
        DrainReceiversTouchesOne(s, k);
        DrainSendersTouchesOne(DrainReceivers(s, k), k);
      }
    case MqSend(_, _) => MqRound(s, e, m);
    case MqRecv(_) => MqRound(s, e, m);
    case Resume => MqRound(s, e, m);
    case _ => OthersTouchNoMq(s, e);
  }

  /** Until a queue is destroyed, what it accepts comes out in order, and nothing is lost. */
  lemma {:induction false} QueueIsFifo(s: Sys, es: seq<Event>, m: MqSlot)
    requires Inv(s) && Legal(s, es) && s.mqs[m].id >= 0 && MqDestroy(s.mqs[m].id) !in es
    ensures var mq, mq' := s.mqs[m], After(s, es).mqs[m];
      && mq'.id == mq.id
      && mq.msgs + Accepted(s, es, m) == Delivered(s, es, m) + mq'.msgs
    decreases |es|
  {
    hide Inv, Step, Enabled, Safe, AcceptedBy, DeliveredBy, MqsOk;
    if es != [] {
      var s1 := Step(s, es[0]).s;
      StepKeepsInvIffSafe(s, es[0]);
      MqStep(s, es[0], m);
      QueueIsFifo(s1, es[1..], m);
      calc {
        s.mqs[m].msgs + Accepted(s, es, m);
        (s.mqs[m].msgs + AcceptedBy(s, es[0], m)) + Accepted(s1, es[1..], m);
        DeliveredBy(s, es[0], m) + (s1.mqs[m].msgs + Accepted(s1, es[1..], m));
        DeliveredBy(s, es[0], m) + (Delivered(s1, es[1..], m) + After(s, es).mqs[m].msgs);
        Delivered(s, es, m) + After(s, es).mqs[m].msgs;
      }
    }
  }

  // ---------------------------------------------------------------- the unsafe cases do occur

  lemma OneMore(s: Sys, e: Event, es: seq<Event>)
    requires Enabled(s, e) && Safe(s, e) && Legal(Step(s, e).s, es)
    ensures Legal(s, [e] + es) && After(s, [e] + es) == After(Step(s, e).s, es)
  {
    assert ([e] + es)[1..] == es;
  }

  /** A lone task waits for a semaphore: nobody else is ready when it blocks. */
  lemma UnsafeTickOccurs()
    ensures var es := [SemCreate(0)] + [SemWait(0)];
      Legal(Boot, es) && Enabled(After(Boot, es), Tick) && !Safe(After(Boot, es), Tick)
  {
    var s1 := Step(Boot, SemCreate(0)).s;
    var s2 := Step(s1, SemWait(0)).s;
    OneMore(s1, SemWait(0), []);
    OneMore(Boot, SemCreate(0), [SemWait(0)]);
  }

  lemma ForkFromBoot()
    ensures var s := Step(Boot, Fork).s;
      && s.ready == [1] && s.cur == 0 && s.taskCount == 2 && s.sems == Boot.sems && s.mqs == Boot.mqs
      && s.semCount == 0 && s.mqCount == 0
      && s.procs[0] == Proc(0, -1, Running, 0, User) && s.procs[1] == Proc(1, 0, Ready, 0, User)
  {
    assert Boot.procs[0].pid == 0 && Boot.procs[1].pid == -1;
    assert FreeSlot(Boot.procs) == 1;
  }

  /** A parent waits for a semaphore that its child was to post, and the child exits. */
  lemma UnsafeExitOccurs()
    ensures var es := [Fork] + ([SemCreate(0)] + ([SemWait(0)] + [Tick]));
      Legal(Boot, es) && Enabled(After(Boot, es), Exit(0)) && !Safe(After(Boot, es), Exit(0))
  {
    ForkFromBoot();
    var s1 := Step(Boot, Fork).s;
    var s2 := Step(s1, SemCreate(0)).s;
    assert s2.sems[0] == Sem(0, 0, []) && s2.procs == s1.procs && s2.ready == [1] && s2.cur == 0;
    var s3 := Step(s2, SemWait(0)).s;
    assert s3.ready == [1] && s3.cur == 0 && s3.procs[0] == Proc(0, -1, Blocked, 0, SemSleep(0)) && s3.procs[1] == s1.procs[1];
    var s4 := Step(s3, Tick).s;
    assert s4.cur == 1 && s4.procs[0] == s3.procs[0] && s4.procs[1] == Proc(1, 0, Running, 0, User);
    OneMore(s3, Tick, []);
    OneMore(s2, SemWait(0), [Tick]);
    OneMore(s1, SemCreate(0), [SemWait(0)] + [Tick]);
    OneMore(Boot, Fork, [SemCreate(0)] + ([SemWait(0)] + [Tick]));
  }

  /** The parent blocks in a receive and its child runs. */
  lemma BlockedReceiver() returns (s: Sys)
    ensures Legal(Boot, [Fork] + ([MqCreate] + ([MqRecv(0)] + [Tick])))
    ensures s == After(Boot, [Fork] + ([MqCreate] + ([MqRecv(0)] + [Tick])))
    ensures s.procs[0] == Proc(0, -1, Blocked, 0, Recv(0)) && s.procs[1] == Proc(1, 0, Running, 0, User)
    ensures s.cur == 1 && s.ready == [] && s.mqs[0] == Mq(0, [], [0], []) && s.taskCount == 2
  {
    ForkFromBoot();
    var s1 := Step(Boot, Fork).s;
    var s2 := Step(s1, MqCreate).s;
    assert s2.mqs[0] == Mq(0, [], [], []) && s2.procs == s1.procs && s2.ready == [1] && s2.cur == 0;
    var s3 := Step(s2, MqRecv(0)).s;
    assert s3.ready == [1] && s3.cur == 0 && s3.procs[0] == Proc(0, -1, Blocked, 0, Recv(0)) && s3.procs[1] == s1.procs[1];
    s := Step(s3, Tick).s;
    OneMore(s3, Tick, []);
    OneMore(s2, MqRecv(0), [Tick]);
    OneMore(s1, MqCreate, [MqRecv(0)] + [Tick]);
    OneMore(Boot, Fork, [MqCreate] + ([MqRecv(0)] + [Tick]));
  }

  lemma {:induction false} LegalConcat(s: Sys, es: seq<Event>, fs: seq<Event>)
    requires Legal(s, es) && Legal(After(s, es), fs)
    ensures Legal(s, es + fs) && After(s, es + fs) == After(After(s, es), fs)
    decreases |es|
  {
    hide Step, Enabled, Safe;
    if es == [] {
      assert es + fs == fs;
    } else {
      assert (es + fs)[1..] == es[1..] + fs;
      LegalConcat(Step(s, es[0]).s, es[1..], fs);
    }
  }

  /** The child destroys the queue, and the woken parent queues up again on the dead slot. */
  lemma DestroyedUnderReceiver(s: Sys)
    requires s.procs[0] == Proc(0, -1, Blocked, 0, Recv(0)) && s.procs[1] == Proc(1, 0, Running, 0, User)
    requires s.cur == 1 && s.ready == [] && s.mqs[0] == Mq(0, [], [0], []) && s.taskCount == 2
    ensures var es := [MqDestroy(0)] + ([Tick] + [Resume]);
      Legal(s, es) && var s' := After(s, es);
      && s'.mqs[0] == Mq(-1, [], [0], []) && s'.ready == [1] && s'.cur == 0
      && s'.procs[0] == Proc(0, -1, Blocked, 0, Recv(0)) && s'.procs[1] == Proc(1, 0, Ready, 0, User)
  {
    var s5 := Step(s, MqDestroy(0)).s;
    assert DrainReceivers(s, 0) == PopReceiver(s, 0);
    assert s5.cur == 1 && s5.ready == [0] && s5.procs[0] == Proc(0, -1, Ready, 0, Recv(0)) && s5.procs[1] == s.procs[1];
    assert s5.mqs[0] == FreeMq && s5.taskCount == 2;
    var s6 := Step(s5, Tick).s;
    assert s6.cur == 0 && s6.ready == [1] && s6.procs[0] == Proc(0, -1, Running, 0, Recv(0));
    assert s6.procs[1] == Proc(1, 0, Ready, 0, User) && s6.mqs[0] == FreeMq;
    OneMore(s6, Resume, []);
    OneMore(s5, Tick, [Resume]);
    OneMore(s, MqDestroy(0), [Tick] + [Resume]);
  }

  /** The child runs again and creates a queue in the slot where its parent waits. */
  lemma UnsafeMqCreateOccurs()
    ensures var es := [Fork] + ([MqCreate] + ([MqRecv(0)] + [Tick])) + ([MqDestroy(0)] + ([Tick] + [Resume])) + [Tick];
      Legal(Boot, es) && Enabled(After(Boot, es), MqCreate) && !Safe(After(Boot, es), MqCreate)
  {
    var es, fs := [Fork] + ([MqCreate] + ([MqRecv(0)] + [Tick])), [MqDestroy(0)] + ([Tick] + [Resume]);
    var s4 := BlockedReceiver();
    DestroyedUnderReceiver(s4);
    LegalConcat(Boot, es, fs);
    OneMore(After(s4, fs), Tick, []);
    LegalConcat(Boot, es + fs, [Tick]);
  }
}
