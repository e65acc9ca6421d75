/** What every section of the scheduler and of the IPC code keeps, and exactly when it does. */
module KernelInvariant {
  import opened KernelSpec

  /** Where a task is. A queue holds READY tasks or tasks blocked in one particular call. */
  datatype Place =
    | ReadyQ | SemQ(i: SemSlot) | RecvQ(m: MqSlot) | SendQ(m: MqSlot)
    | Cpu | AsleepInWait | Dead | Vacant | Lost
  {
    predicate IsIpc() { SemQ? || RecvQ? || SendQ? }
    predicate IsQueue() { ReadyQ? || IsIpc() }
  }

  function Home(p: Proc): Place {
    if p.pid < 0 then Vacant
    else match p.state
      case Ready => ReadyQ
      case Running => Cpu
      case Zombie => Dead
      case Blocked =>
        match p.pending
        case SemSleep(i) => SemQ(i)
        case Recv(m) => RecvQ(m)
        case Send(m, _) => SendQ(m)
        case Wait(_) => AsleepInWait
        case User => Lost
  }

  function On(s: Sys, q: Place): seq<TaskSlot> {
    match q
    case ReadyQ => s.ready
    case SemQ(i) => s.sems[i].waiters
    case RecvQ(m) => s.mqs[m].receivers
    case SendQ(m) => s.mqs[m].senders
    case _ => []
  }

  ghost predicate NoDup<T>(q: seq<T>) {
    forall i, j | 0 <= i < j < |q| :: q[i] != q[j]
  }

  /** A queue holds exactly the tasks whose state and pending call say so, each once. */
  ghost predicate Holds(s: Sys, q: Place) {
    NoDup(On(s, q)) && forall t: TaskSlot :: t in On(s, q) <==> Home(s.procs[t]) == q
  }

  ghost predicate Queued(s: Sys) {
    forall q: Place | q.IsQueue() :: Holds(s, q)
  }

  ghost predicate Placed(s: Sys) {
    && Queued(s)
    && (forall t: TaskSlot :: Home(s.procs[t]) != Lost)
    && (forall t: TaskSlot :: Home(s.procs[t]) == Cpu ==> t == s.cur)
    && !Home(s.procs[s.cur]).Vacant? && !Home(s.procs[s.cur]).ReadyQ?
  }

  predicate Occupied(p: Proc) { p.pid >= 0 }

  ghost predicate PidsOk(s: Sys) {
    && s.nextPid >= 0
    && (forall t: TaskSlot | Occupied(s.procs[t]) :: s.procs[t].parent < s.procs[t].pid < s.nextPid)
    && (forall t: TaskSlot, u: TaskSlot | t != u && Occupied(s.procs[t]) :: s.procs[t].pid != s.procs[u].pid)
    && s.taskCount == Count(s.procs, Live)
    && forall t: TaskSlot | Awake(s.procs[t]) :: !s.procs[t].pending.SemSleep?
  }

  predicate Awake(p: Proc) { Occupied(p) && (p.state == Ready || p.state == Running) }

  // ---------------------------------------------------------------- counting tasks

  datatype Role = Live | WokenReceiver(m: MqSlot) | WokenSender(m: MqSlot)

  /** A woken receiver has left the wait queue and has not tested `count` again yet. */
  predicate Plays(p: Proc, r: Role) {
    match r
    case Live => Occupied(p)
    case WokenReceiver(m) => Awake(p) && p.pending == Recv(m)
    case WokenSender(m) => Awake(p) && p.pending.Send? && p.pending.mq == m
  }

  function Count(ps: seq<Proc>, r: Role): (n: nat)
    ensures n <= |ps|
  {
    if ps == [] then 0 else (if Plays(ps[0], r) then 1 else 0) + Count(ps[1..], r)
  }

  lemma {:induction false} CountUpdate(ps: seq<Proc>, i: nat, p: Proc, r: Role)
    requires i < |ps|
    ensures Count(ps[i := p], r) - (if Plays(p, r) then 1 else 0) == Count(ps, r) - (if Plays(ps[i], r) then 1 else 0)
  {
    if i == 0 {
      assert ps[i := p][1..] == ps[1..];
    } else {
      assert ps[i := p][1..] == ps[1..][i - 1 := p];
      CountUpdate(ps[1..], i - 1, p, r);
    }
  }

  // ---------------------------------------------------------------- the invariant

  /** No lost wake-up: whoever waits on a message queue waits for somebody who is on the way. */
  ghost predicate NoLostWakeup(s: Sys, m: MqSlot) {
    var mq := s.mqs[m];
    && (mq.receivers != [] ==> |mq.msgs| <= Count(s.procs, WokenReceiver(m)))
    && (mq.senders != [] ==> MSGQUEUE_SIZE - |mq.msgs| <= Count(s.procs, WokenSender(m)))
  }

  ghost predicate SemsOk(sems: seq<Sem>, semCount: int)
    requires |sems| == MAX_SEMS
  {
    && semCount >= 0
    && (forall i: SemSlot :: sems[i].value >= 0 && sems[i].id < semCount)
    && (forall i: SemSlot | sems[i].waiters != [] :: sems[i].value == 0 && sems[i].id >= 0)
    && (forall i: SemSlot, j: SemSlot | i != j && sems[i].id >= 0 :: sems[i].id != sems[j].id)
  }

  ghost predicate MqsOk(s: Sys) {
    && s.mqCount >= 0
    && (forall m: MqSlot :: |s.mqs[m].msgs| <= MSGQUEUE_SIZE && s.mqs[m].id < s.mqCount)
    && (forall m: MqSlot, k: MqSlot | m != k && s.mqs[m].id >= 0 :: s.mqs[m].id != s.mqs[k].id)
    && (forall m: MqSlot :: NoLostWakeup(s, m))
  }

  /** A parent asleep in task_wait has something to wait for and nothing to collect. */
  ghost predicate Justified(s: Sys, t: TaskSlot) {
    Home(s.procs[t]) == AsleepInWait ==>
      && HasLiveChild(s.procs, s.procs[t].pid, s.procs[t].pending.pid)
      && ZombieChild(s.procs, s.procs[t].pid, s.procs[t].pending.pid) == MAX_TASKS
  }

  ghost predicate AllJustified(s: Sys) {
    forall t: TaskSlot :: Justified(s, t)
  }

  ghost predicate Core(s: Sys) {
    && PidsOk(s)
    && SemsOk(s.sems, s.semCount)
    && MqsOk(s)
    && AllJustified(s)
  }

  ghost predicate Inv(s: Sys) { Placed(s) && Core(s) }

  /** The cases in which the code goes wrong, excluded:
      - a task blocks on a semaphore or message queue although nobody else is ready
        (kernel/scheduler.c:117-121 lets it run on while it is still queued);
      - a child exits while its parent is blocked on a semaphore or message queue
        (kernel/scheduler.c:321-323 makes any blocked parent ready);
      - a message queue slot is reused while tasks of its former life wait there
        (kernel/ipc.c:216-219 forgets them). */
  predicate Safe(s: Sys, e: Event) {
    match e
    case Tick => !(Home(s.procs[s.cur]).IsIpc() && s.ready == [])
    case Exit(_) =>
      var parent := s.procs[s.cur].parent;
      var p := FromPid(s.procs, parent);
      !(parent >= 0 && p < MAX_TASKS && Home(s.procs[p]).IsIpc())
    case MqCreate =>
      var m := FreeMqSlot(s.mqs);
      m < MAX_MSGQUEUES ==> s.mqs[m].receivers == [] && s.mqs[m].senders == []
    case _ => true
  }

  lemma BootInv()
    ensures Inv(Boot)
  {
    assert Boot.procs == [Boot.procs[0]] + Boot.procs[1..];
    NobodyIn(Boot.procs[1..], Live);
    assert forall q: Place | q.IsQueue() :: On(Boot, q) == [];
  }

  lemma {:induction false} NobodyIn(ps: seq<Proc>, r: Role)
    requires forall p <- ps :: !Plays(p, r)
    ensures Count(ps, r) == 0
  {
    if ps != [] { NobodyIn(ps[1..], r); }
  }

  // ---------------------------------------------------------------- one task changes place

  /** From `s` to `s'` only task `t` changes, and it leaves its queue at the head and joins the
      queue of its new place at the tail. */
  ghost predicate Moved(s: Sys, s': Sys, t: TaskSlot) {
    var a, b := Home(s.procs[t]), Home(s'.procs[t]);
    && s'.procs == s.procs[t := s'.procs[t]]
    && (a != b && a.IsQueue() ==> On(s, a) != [] && On(s, a)[0] == t && On(s', a) == On(s, a)[1..])
    && (a != b && b.IsQueue() ==> On(s', b) == On(s, b) + [t])
    && forall q: Place | q.IsQueue() && (a == b || (q != a && q != b)) :: On(s', q) == On(s, q)
  }

  lemma MoveKeepsQueued(s: Sys, s': Sys, t: TaskSlot)
    requires Queued(s) && Moved(s, s', t)
    ensures Queued(s')
  {
    var a, b := Home(s.procs[t]), Home(s'.procs[t]);
    forall q: Place | q.IsQueue() ensures Holds(s', q) {
      assert Holds(s, q);
      if a != b && q == a {
        assert forall u :: u in On(s, q) <==> u == t || u in On(s', q);
      }
    }
  }

  /** Only task `t` changes, and it keeps its identity. */
  ghost predicate Quiet(s: Sys, s': Sys, t: TaskSlot) {
    var p, p' := s.procs[t], s'.procs[t];
    && s'.procs == s.procs[t := p'] && s'.nextPid == s.nextPid && s'.taskCount == s.taskCount
    && p'.pid == p.pid && p'.parent == p.parent
    && (Awake(p') ==> !p'.pending.SemSleep?)
  }

  lemma QuietKeepsCounts(s: Sys, s': Sys, t: TaskSlot)
    requires Quiet(s, s', t)
    ensures forall r: Role :: Count(s'.procs, r) - (if Plays(s'.procs[t], r) then 1 else 0)
                           == Count(s.procs, r) - (if Plays(s.procs[t], r) then 1 else 0)
  {
    forall r: Role ensures Count(s'.procs, r) - (if Plays(s'.procs[t], r) then 1 else 0)
                        == Count(s.procs, r) - (if Plays(s.procs[t], r) then 1 else 0) {
      CountUpdate(s.procs, t, s'.procs[t], r);
    }
  }

  lemma QuietKeepsPids(s: Sys, s': Sys, t: TaskSlot)
    requires PidsOk(s) && Quiet(s, s', t)
    ensures PidsOk(s')
  {
    CountUpdate(s.procs, t, s'.procs[t], Live);
  }

  lemma QuietKeepsJustified(s: Sys, s': Sys, t: TaskSlot, u: TaskSlot)
    requires Quiet(s, s', t) && Justified(s, u) && (s'.procs[t].state == Zombie <==> s.procs[t].state == Zombie)
    requires s'.procs[u].pending == s.procs[u].pending && (Home(s'.procs[u]) == AsleepInWait ==> Home(s.procs[u]) == AsleepInWait)
    ensures Justified(s', u)
  {
    if Home(s'.procs[u]) == AsleepInWait {
      var me, pid := s.procs[u].pid, s.procs[u].pending.pid;
      var c: TaskSlot :| Matches(s.procs[c], me, pid) && s.procs[c].state != Zombie;
      assert Matches(s'.procs[c], me, pid);
    }
  }

  lemma QuietKeepsAllJustified(s: Sys, s': Sys, t: TaskSlot)
    requires AllJustified(s) && Quiet(s, s', t) && (s'.procs[t].state == Zombie <==> s.procs[t].state == Zombie)
    requires Home(s'.procs[t]) != AsleepInWait
    ensures AllJustified(s')
  {
    forall u: TaskSlot ensures Justified(s', u) {
      if u != t { QuietKeepsJustified(s, s', t, u); }
    }
  }

  /** A move that plays no part in any message queue. */
  lemma QuietKeepsCore(s: Sys, s': Sys, t: TaskSlot)
    requires Core(s) && Quiet(s, s', t) && (s'.procs[t].state == Zombie <==> s.procs[t].state == Zombie)
    requires SemsOk(s'.sems, s'.semCount) && s'.mqs == s.mqs && s'.mqCount == s.mqCount
    requires forall r: Role :: Plays(s'.procs[t], r) == Plays(s.procs[t], r)
    requires Home(s'.procs[t]) != AsleepInWait
    ensures Core(s')
  {
    QuietKeepsPids(s, s', t);
    QuietKeepsCounts(s, s', t);
    QuietKeepsAllJustified(s, s', t);
    forall m: MqSlot ensures NoLostWakeup(s', m) { assert NoLostWakeup(s, m); }
  }

  /** One move, all of the invariant; what happens to the tables is up to the caller. */
  lemma MoveKeepsInv(s: Sys, s': Sys, t: TaskSlot)
    requires Inv(s) && Moved(s, s', t) && Quiet(s, s', t) && s'.cur == s.cur
    requires s'.procs[t].state == Zombie <==> s.procs[t].state == Zombie
    requires var h := Home(s'.procs[t]); h.IsQueue() || (h == Cpu && t == s.cur)
    requires t == s.cur ==> Home(s'.procs[t]) != ReadyQ
    requires SemsOk(s'.sems, s'.semCount) && MqsOk(s')
    ensures Inv(s')
  {
    hide Holds, Justified, Count, SemsOk, MqsOk;
    MoveKeepsQueued(s, s', t);
    QuietKeepsPids(s, s', t);
    QuietKeepsAllJustified(s, s', t);
  }

  lemma HeadHome(s: Sys, q: Place)
    requires Queued(s) && q.IsQueue() && On(s, q) != []
    ensures Home(s.procs[On(s, q)[0]]) == q
  {
    assert Holds(s, q) && On(s, q)[0] in On(s, q);
  }

  // ---------------------------------------------------------------- ticks

  lemma PickKeepsPlaced(s: Sys)
    requires Queued(s) && (forall t: TaskSlot :: Home(s.procs[t]) != Lost)
    requires forall t: TaskSlot :: Home(s.procs[t]) == Cpu ==> t == s.cur && s.ready == []
    requires Occupied(s.procs[s.cur])
    requires s.ready == [] ==> !Home(s.procs[s.cur]).IsQueue()
    ensures Placed(PickNext(s))
  {
    assert Holds(s, ReadyQ);
    MoveKeepsQueued(s, PickNext(s), if s.ready == [] then s.cur else s.ready[0]);
  }

  lemma TickKeepsPlaced(s: Sys)
    requires Placed(s) && Safe(s, Tick)
    ensures Placed(TickStep(s))
  {
    var me := s.procs[s.cur];
    assert Holds(s, ReadyQ);
    if me.state == Zombie || me.state == Blocked {
      PickKeepsPlaced(s);
    } else if s.taskCount > 1 {
      MoveKeepsQueued(s, Wake(s, s.cur), s.cur);
      PickKeepsPlaced(Wake(s, s.cur));
    } else {
      MoveKeepsQueued(s, SetState(s, s.cur, Running), s.cur);
    }
  }

  lemma PickKeepsCore(s: Sys)
    requires Core(s) && Queued(s)
    requires s.ready == [] ==> !Home(s.procs[s.cur]).IsQueue()
    ensures Core(PickNext(s))
  {
    assert Holds(s, ReadyQ);
    QuietKeepsCore(s, PickNext(s), if s.ready == [] then s.cur else s.ready[0]);
  }

  lemma TickKeepsInv(s: Sys)
    requires Inv(s) && Safe(s, Tick)
    ensures Inv(TickStep(s))
  {
    TickKeepsPlaced(s);
    var me := s.procs[s.cur];
    if me.state == Zombie || me.state == Blocked {
      PickKeepsCore(s);
    } else if s.taskCount > 1 {
      MoveKeepsQueued(s, Wake(s, s.cur), s.cur);
      QuietKeepsCore(s, Wake(s, s.cur), s.cur);
      PickKeepsCore(Wake(s, s.cur));
    } else {
      QuietKeepsCore(s, SetState(s, s.cur, Running), s.cur);
    }
  }

  /** The blocked task runs on although it is still on its wait queue. */
  lemma UnsafeTickBreaks(s: Sys)
    requires Inv(s) && !Safe(s, Tick)
    ensures !Inv(TickStep(s))
  {
    var q := Home(s.procs[s.cur]);
    assert Holds(s, q);
    assert s.cur in On(TickStep(s), q);
    assert !Holds(TickStep(s), q);
  }

  // ---------------------------------------------------------------- fork, exit, wait

  lemma SameCountsKeepMqs(s: Sys, s': Sys)
    requires MqsOk(s) && s'.mqs == s.mqs && s'.mqCount == s.mqCount
    requires forall r: Role | r != Live :: Count(s'.procs, r) >= Count(s.procs, r)
    ensures MqsOk(s')
  {
    forall m: MqSlot ensures NoLostWakeup(s', m) { assert NoLostWakeup(s, m); }
  }

  /** `u` sleeps on as long as no child it may be waiting for changes. */
  lemma OthersKeepJustified(s: Sys, s': Sys, u: TaskSlot)
    requires Justified(s, u)
    requires Home(s'.procs[u]) == AsleepInWait ==>
      s'.procs[u] == s.procs[u] && forall c: TaskSlot | s'.procs[c] != s.procs[c] ::
        var me, pid := s.procs[u].pid, s.procs[u].pending.pid;
        !Matches(s.procs[c], me, pid) && (Matches(s'.procs[c], me, pid) ==> s'.procs[c].state != Zombie)
    ensures Justified(s', u)
  {
    if Home(s'.procs[u]) == AsleepInWait {
      var me, pid := s.procs[u].pid, s.procs[u].pending.pid;
      var k: TaskSlot :| Matches(s.procs[k], me, pid) && s.procs[k].state != Zombie;
      assert Matches(s'.procs[k], me, pid) && s'.procs[k].state != Zombie;
    }
  }

  lemma ForkKeepsInv(s: Sys)
    requires Inv(s) && Enabled(s, Fork)
    ensures Inv(ForkStep(s).s)
  {
    hide Holds, Justified, SemsOk, MqsOk;
    var c := FreeSlot(s.procs);
    if c < MAX_TASKS {
      var s' := ForkStep(s).s;
      MoveKeepsQueued(s, s', c);
      forall r: Role ensures Count(s'.procs, r) == Count(s.procs, r) + (if r == Live then 1 else 0) {
        CountUpdate(s.procs, c, s'.procs[c], r);
      }
      SameCountsKeepMqs(s, s');
      forall u: TaskSlot ensures Justified(s', u) { OthersKeepJustified(s, s', u); }
    }
  }

  function Died(s: Sys, code: int): Sys {
    s.(procs := s.procs[s.cur := s.procs[s.cur].(state := Zombie, exitCode := code)])
  }

  lemma ExitKeepsPlaced(s: Sys, code: int)
    requires Inv(s) && Enabled(s, Exit(code)) && Safe(s, Exit(code))
    ensures Placed(ExitStep(s, code))
  {
    hide AllJustified, SemsOk, MqsOk, Count, Holds;
    var s1 := Died(s, code);
    var p := FromPid(s1.procs, s.procs[s.cur].parent);
    MoveKeepsQueued(s, s1, s.cur);
    if p < MAX_TASKS && ExitStep(s, code) == Wake(s1, p) {
      MoveKeepsQueued(s1, Wake(s1, p), p);
    }
  }

  lemma ExitKeepsJustified(s: Sys, code: int, u: TaskSlot)
    requires Inv(s) && Enabled(s, Exit(code)) && Safe(s, Exit(code))
    ensures Justified(ExitStep(s, code), u)
  {
    var s1, s' := Died(s, code), ExitStep(s, code);
    var p := FromPid(s1.procs, s.procs[s.cur].parent);
    if Home(s'.procs[u]) == AsleepInWait {
      OthersKeepJustified(s, s1, u);
      if s' != s1 { QuietKeepsJustified(s1, s', p, u); }
    }
  }

  lemma ExitKeepsInv(s: Sys, code: int)
    requires Inv(s) && Enabled(s, Exit(code)) && Safe(s, Exit(code))
    ensures Inv(ExitStep(s, code))
  {
    hide Holds, Justified, MqsOk, SemsOk;
    var s1, s' := Died(s, code), ExitStep(s, code);
    var p := FromPid(s1.procs, s.procs[s.cur].parent);
    ExitKeepsPlaced(s, code);
    QuietKeepsPids(s, s1, s.cur);
    QuietKeepsCounts(s, s1, s.cur);
    if s' != s1 {
      QuietKeepsPids(s1, s', p);
      QuietKeepsCounts(s1, s', p);
    }
    SameCountsKeepMqs(s, s');
    forall u: TaskSlot ensures Justified(s', u) { ExitKeepsJustified(s, code, u); }
  }

  /** The parent is ready and still on its wait queue. */
  lemma UnsafeExitBreaks(s: Sys, code: int)
    requires Inv(s) && Enabled(s, Exit(code)) && !Safe(s, Exit(code))
    ensures !Inv(ExitStep(s, code))
  {
    var s' := ExitStep(s, code);
    var p := FromPid(s.procs, s.procs[s.cur].parent);
    var q := Home(s.procs[p]);
    assert Holds(s, q);
    assert p in On(s', q);
    assert !Holds(s', q);
  }

  lemma CollectKeepsJustified(s: Sys, pid: int, u: TaskSlot)
    requires Inv(s) && s.procs[s.cur].state == Running
    requires ZombieChild(s.procs, s.procs[s.cur].pid, pid) < MAX_TASKS
    ensures Justified(WaitStep(s, pid).s, u)
  {
    var z := ZombieChild(s.procs, s.procs[s.cur].pid, pid);
    var s1, s' := SetPending(s, s.cur, User), WaitStep(s, pid).s;
    if Home(s'.procs[u]) == AsleepInWait {
      QuietKeepsJustified(s, s1, s.cur, u);
      OthersKeepJustified(s1, s', u);
    }
  }

  lemma CollectKeepsPidsAndMqs(s: Sys, pid: int)
    requires PidsOk(s) && MqsOk(s) && s.procs[s.cur].state == Running
    requires s.procs[s.cur].pending == User || s.procs[s.cur].pending.Wait?
    requires ZombieChild(s.procs, s.procs[s.cur].pid, pid) < MAX_TASKS
    ensures PidsOk(WaitStep(s, pid).s) && MqsOk(WaitStep(s, pid).s)
  {
    hide NoLostWakeup;
    var z := ZombieChild(s.procs, s.procs[s.cur].pid, pid);
    var s1, s' := SetPending(s, s.cur, User), WaitStep(s, pid).s;
    QuietKeepsPids(s, s1, s.cur);
    QuietKeepsCounts(s, s1, s.cur);
    forall r: Role ensures Count(s'.procs, r) == Count(s1.procs, r) - (if r == Live then 1 else 0) {
      CountUpdate(s1.procs, z, FreeProc, r);
    }
    SameCountsKeepMqs(s, s');
  }

  lemma CollectKeepsInv(s: Sys, pid: int)
    requires Inv(s) && s.procs[s.cur].state == Running
    requires s.procs[s.cur].pending == User || s.procs[s.cur].pending.Wait?
    requires ZombieChild(s.procs, s.procs[s.cur].pid, pid) < MAX_TASKS
    ensures Inv(WaitStep(s, pid).s)
  {
    hide Holds, Justified, MqsOk, SemsOk, Count;
    var z := ZombieChild(s.procs, s.procs[s.cur].pid, pid);
    var s1, s' := SetPending(s, s.cur, User), WaitStep(s, pid).s;
    MoveKeepsQueued(s, s1, s.cur);
    MoveKeepsQueued(s1, s', z);
    CollectKeepsPidsAndMqs(s, pid);
    forall u: TaskSlot ensures Justified(s', u) { CollectKeepsJustified(s, pid, u); }
  }

  lemma SleepKeepsJustified(s: Sys, pid: int, u: TaskSlot)
    requires Inv(s) && s.procs[s.cur].state == Running
    requires ZombieChild(s.procs, s.procs[s.cur].pid, pid) == MAX_TASKS
    ensures Justified(WaitStep(s, pid).s, u)
  {
    var s' := WaitStep(s, pid).s;
    if u != s.cur {
      QuietKeepsJustified(s, s', s.cur, u);
    } else if Home(s'.procs[u]) == AsleepInWait {
      var me := s.procs[u].pid;
      var c: TaskSlot :| Matches(s.procs[c], me, pid) && s.procs[c].state != Zombie;
      assert Matches(s'.procs[c], me, pid);
    }
  }

  lemma SleepKeepsInv(s: Sys, pid: int)
    requires Inv(s) && s.procs[s.cur].state == Running
    requires s.procs[s.cur].pending == User || s.procs[s.cur].pending.Wait?
    requires ZombieChild(s.procs, s.procs[s.cur].pid, pid) == MAX_TASKS
    ensures Inv(WaitStep(s, pid).s)
  {
    hide Holds, Count, SemsOk, NoLostWakeup, Justified;
    var s' := WaitStep(s, pid).s;
    MoveKeepsQueued(s, s', s.cur);
    QuietKeepsPids(s, s', s.cur);
    QuietKeepsCounts(s, s', s.cur);
    SameCountsKeepMqs(s, s');
    forall u: TaskSlot ensures Justified(s', u) { SleepKeepsJustified(s, pid, u); }
  }

  lemma TablesKeepInv(s: Sys, s': Sys)
    requires Inv(s)
    requires s'.procs == s.procs && s'.cur == s.cur && s'.nextPid == s.nextPid && s'.taskCount == s.taskCount
    requires forall q: Place | q.IsQueue() :: On(s', q) == On(s, q)
    requires SemsOk(s'.sems, s'.semCount) && MqsOk(s')
    ensures Inv(s')
  {
    forall q: Place | q.IsQueue() ensures Holds(s', q) { assert Holds(s, q); }
    forall u: TaskSlot ensures Justified(s', u) { assert Justified(s, u); }
  }

  // ---------------------------------------------------------------- semaphores

  lemma SemCreateKeepsInv(s: Sys, init: int)
    requires Inv(s)
    ensures Inv(SemCreateStep(s, init).s)
  {
    var s' := SemCreateStep(s, init).s;
    SameCountsKeepMqs(s, s');
    TablesKeepInv(s, s');
  }

  lemma SemWaitKeepsInv(s: Sys, id: int)
    requires Inv(s) && Enabled(s, SemWait(id))
    ensures Inv(SemWaitStep(s, id).s)
  {
    hide Holds, AllJustified, MqsOk;
    var s' := SemWaitStep(s, id).s;
    MoveKeepsQueued(s, s', s.cur);
    QuietKeepsCore(s, s', s.cur);
  }

  function PopWaiter(s: Sys, i: SemSlot): Sys
    requires s.sems[i].waiters != []
  {
    var sem := s.sems[i];
    WakeGranted(s.(sems := s.sems[i := sem.(waiters := sem.waiters[1..])]), sem.waiters[0])
  }

  lemma PopWaiterKeepsInv(s: Sys, i: SemSlot)
    requires Inv(s) && s.sems[i].waiters != [] && s.procs[s.cur].state == Running
    ensures Inv(PopWaiter(s, i)) && PopWaiter(s, i).procs[s.cur] == s.procs[s.cur]
  {
    var t, s' := s.sems[i].waiters[0], PopWaiter(s, i);
    assert Holds(s, SemQ(i)) && t in On(s, SemQ(i));
    assert s'.procs == s.procs[t := s'.procs[t]];
    MoveKeepsQueued(s, s', t);
    QuietKeepsCore(s, s', t);
  }

  lemma SemPostKeepsInv(s: Sys, id: int)
    requires Inv(s) && s.procs[s.cur].state == Running
    ensures Inv(SemPostStep(s, id).s)
  {
    var s' := SemPostStep(s, id).s;
    if s' != s {
      var i := FindSem(s.sems, id);
      if s.sems[i].waiters == [] {
        SameCountsKeepMqs(s, s');
        TablesKeepInv(s, s');
      } else {
        PopWaiterKeepsInv(s, i);
      }
    }
  }

  lemma {:induction false} DrainSemKeepsInv(s: Sys, i: SemSlot)
    requires Inv(s) && s.procs[s.cur].state == Running
    ensures Inv(DrainSem(s, i)) && DrainSem(s, i).procs[s.cur] == s.procs[s.cur]
    ensures DrainSem(s, i).sems == s.sems[i := s.sems[i].(waiters := [])]
    decreases |s.sems[i].waiters|
  {
    if s.sems[i].waiters != [] {
      PopWaiterKeepsInv(s, i);
      DrainSemKeepsInv(PopWaiter(s, i), i);
    }
  }

  lemma SemDestroyKeepsInv(s: Sys, id: int)
    requires Inv(s) && s.procs[s.cur].state == Running
    ensures Inv(SemDestroyStep(s, id).s)
  {
    hide AllJustified, PidsOk;
    var s' := SemDestroyStep(s, id).s;
    if s' != s {
      var i := FindSem(s.sems, id);
      DrainSemKeepsInv(s, i);
      var s1 := DrainSem(s, i);
      SameCountsKeepMqs(s1, s');
      TablesKeepInv(s1, s');
    }
  }

  // ---------------------------------------------------------------- message queues

  lemma MqCreateKeepsInv(s: Sys)
    requires Inv(s) && Safe(s, MqCreate)
    ensures Inv(MqCreateStep(s).s)
  {
    var s' := MqCreateStep(s).s;
    forall m: MqSlot ensures NoLostWakeup(s', m) { assert NoLostWakeup(s, m); }
    TablesKeepInv(s, s');
  }

  /** A task blocked in a receive or a send is on no queue any more. */
  lemma UnsafeMqCreateBreaks(s: Sys)
    requires Inv(s) && !Safe(s, MqCreate)
    ensures !Inv(MqCreateStep(s).s)
  {
    var m := FreeMqSlot(s.mqs);
    var q := if s.mqs[m].receivers != [] then RecvQ(m) else SendQ(m);
    assert Holds(s, q);
    var t := On(s, q)[0];
    assert t in On(s, q);
    assert !Holds(MqCreateStep(s).s, q);
  }

  predicate Sending(s: Sys, m: MqSlot, data: Msg) {
    var me := s.procs[s.cur];
    me.state == Running && (me.pending == User || me.pending == Send(m, data))
  }

  predicate Receiving(s: Sys, m: MqSlot) {
    var me := s.procs[s.cur];
    me.state == Running && (me.pending == User || me.pending == Recv(m))
  }

  /** A round that also wakes task `t`. */
  lemma WakingRoundKeepsInv(s: Sys, s': Sys, t: TaskSlot)
    requires Inv(s) && Home(s.procs[s.cur]) == Cpu && !s.procs[s.cur].pending.SemSleep?
    requires Home(s.procs[t]).IsIpc() && !s.procs[t].pending.SemSleep?
    requires var s1 := SetPending(s, s.cur, User);
      Moved(s1, s', t) && s'.procs == s1.procs[t := s.procs[t].(state := Ready)]
    requires s'.cur == s.cur && s'.nextPid == s.nextPid && s'.taskCount == s.taskCount
    requires s'.sems == s.sems && s'.semCount == s.semCount && s'.mqCount == s.mqCount && MqsOk(s')
    ensures Inv(s')
  {
    var s1 := SetPending(s, s.cur, User);
    hide Holds, Justified, Count, MqsOk;
    MoveKeepsQueued(s, s1, s.cur);
    MoveKeepsQueued(s1, s', t);
    QuietKeepsPids(s, s1, s.cur);
    QuietKeepsPids(s1, s', t);
    QuietKeepsAllJustified(s, s1, s.cur);
    QuietKeepsAllJustified(s1, s', t);
  }

  /** Only queue `m` changes, and no other queue loses a woken task. */
  lemma RoundKeepsMqs(s: Sys, s': Sys, m: MqSlot)
    requires MqsOk(s) && s'.mqs == s.mqs[m := s'.mqs[m]] && s'.mqCount == s.mqCount
    requires s'.mqs[m].id == s.mqs[m].id && |s'.mqs[m].msgs| <= MSGQUEUE_SIZE && NoLostWakeup(s', m)
    requires forall k: MqSlot | k != m :: Count(s'.procs, WokenReceiver(k)) >= Count(s.procs, WokenReceiver(k))
                                       && Count(s'.procs, WokenSender(k)) >= Count(s.procs, WokenSender(k))
    ensures MqsOk(s')
  {
    forall k: MqSlot ensures NoLostWakeup(s', k) { assert NoLostWakeup(s, k); }
  }

  lemma TrySendAloneKeepsMqs(s: Sys, m: MqSlot, data: Msg)
    requires MqsOk(s) && Sending(s, m, data) && (|s.mqs[m].msgs| >= MSGQUEUE_SIZE || s.mqs[m].receivers == [])
    ensures MqsOk(TrySend(s, m, data).s)
  {
    var s' := TrySend(s, m, data).s;
    assert NoLostWakeup(s, m);
    CountUpdate(s.procs, s.cur, s'.procs[s.cur], WokenReceiver(m));
    CountUpdate(s.procs, s.cur, s'.procs[s.cur], WokenSender(m));
    assert NoLostWakeup(s', m);
    QuietKeepsCounts(s, s', s.cur);
    RoundKeepsMqs(s, s', m);
  }

  lemma TrySendWakingKeepsMqs(s: Sys, m: MqSlot, data: Msg)
    requires MqsOk(s) && Sending(s, m, data) && !(|s.mqs[m].msgs| >= MSGQUEUE_SIZE || s.mqs[m].receivers == [])
    requires Home(s.procs[s.mqs[m].receivers[0]]) == RecvQ(m)
    ensures MqsOk(TrySend(s, m, data).s)
  {
    var t, s1, s' := s.mqs[m].receivers[0], SetPending(s, s.cur, User), TrySend(s, m, data).s;
    assert NoLostWakeup(s, m);
    QuietKeepsCounts(s, s1, s.cur);
    QuietKeepsCounts(s1, s', t);
    assert NoLostWakeup(s', m);
    RoundKeepsMqs(s, s', m);
  }

  lemma TrySendWakingKeepsInv(s: Sys, m: MqSlot, data: Msg)
    requires Inv(s) && Sending(s, m, data) && !(|s.mqs[m].msgs| >= MSGQUEUE_SIZE || s.mqs[m].receivers == [])
    ensures Inv(TrySend(s, m, data).s)
  {
    hide Holds, AllJustified, PidsOk, SemsOk;
    HeadHome(s, RecvQ(m));
    TrySendWakingKeepsMqs(s, m, data);
    hide MqsOk;
    WakingRoundKeepsInv(s, TrySend(s, m, data).s, s.mqs[m].receivers[0]);
  }

  lemma TrySendKeepsInv(s: Sys, m: MqSlot, data: Msg)
    requires Inv(s) && Sending(s, m, data)
    ensures Inv(TrySend(s, m, data).s)
  {
    if |s.mqs[m].msgs| >= MSGQUEUE_SIZE || s.mqs[m].receivers == [] {
      TrySendAloneKeepsMqs(s, m, data);
      hide Holds, AllJustified, MqsOk, PidsOk;
      MoveKeepsInv(s, TrySend(s, m, data).s, s.cur);
    } else {
      TrySendWakingKeepsInv(s, m, data);
    }
  }

  lemma TryRecvAloneKeepsMqs(s: Sys, m: MqSlot)
    requires MqsOk(s) && Receiving(s, m) && (|s.mqs[m].msgs| == 0 || s.mqs[m].senders == [])
    ensures MqsOk(TryRecv(s, m).s)
  {
    var s' := TryRecv(s, m).s;
    assert NoLostWakeup(s, m);
    CountUpdate(s.procs, s.cur, s'.procs[s.cur], WokenReceiver(m));
    CountUpdate(s.procs, s.cur, s'.procs[s.cur], WokenSender(m));
    assert NoLostWakeup(s', m);
    QuietKeepsCounts(s, s', s.cur);
    RoundKeepsMqs(s, s', m);
  }

  lemma TryRecvWakingKeepsMqs(s: Sys, m: MqSlot)
    requires MqsOk(s) && Receiving(s, m) && !(|s.mqs[m].msgs| == 0 || s.mqs[m].senders == [])
    requires Home(s.procs[s.mqs[m].senders[0]]) == SendQ(m)
    ensures MqsOk(TryRecv(s, m).s)
  {
    var t, s1, s' := s.mqs[m].senders[0], SetPending(s, s.cur, User), TryRecv(s, m).s;
    assert NoLostWakeup(s, m);
    QuietKeepsCounts(s, s1, s.cur);
    QuietKeepsCounts(s1, s', t);
    assert NoLostWakeup(s', m);
    RoundKeepsMqs(s, s', m);
  }

  lemma TryRecvWakingKeepsInv(s: Sys, m: MqSlot)
    requires Inv(s) && Receiving(s, m) && !(|s.mqs[m].msgs| == 0 || s.mqs[m].senders == [])
    ensures Inv(TryRecv(s, m).s)
  {
    hide Holds, AllJustified, PidsOk, SemsOk;
    HeadHome(s, SendQ(m));
    TryRecvWakingKeepsMqs(s, m);
    hide MqsOk;
    WakingRoundKeepsInv(s, TryRecv(s, m).s, s.mqs[m].senders[0]);
  }

  lemma TryRecvAloneKeepsInv(s: Sys, m: MqSlot)
    requires Inv(s) && Receiving(s, m) && (|s.mqs[m].msgs| == 0 || s.mqs[m].senders == [])
    ensures Inv(TryRecv(s, m).s)
  {
    hide Holds, AllJustified, MqsOk, PidsOk;
    TryRecvAloneKeepsMqs(s, m);
    MoveKeepsInv(s, TryRecv(s, m).s, s.cur);
  }

  lemma TryRecvKeepsInv(s: Sys, m: MqSlot)
    requires Inv(s) && Receiving(s, m)
    ensures Inv(TryRecv(s, m).s)
  {
    hide Inv, TryRecv, Receiving;
    if |s.mqs[m].msgs| == 0 || s.mqs[m].senders == [] {
      TryRecvAloneKeepsInv(s, m);
    } else {
      TryRecvWakingKeepsInv(s, m);
    }
  }

  function PopReceiver(s: Sys, m: MqSlot): Sys
    requires s.mqs[m].receivers != []
  {
    var mq := s.mqs[m];
    Wake(s.(mqs := s.mqs[m := mq.(receivers := mq.receivers[1..])]), mq.receivers[0])
  }

  function PopSender(s: Sys, m: MqSlot): Sys
    requires s.mqs[m].senders != []
  {
    var mq := s.mqs[m];
    Wake(s.(mqs := s.mqs[m := mq.(senders := mq.senders[1..])]), mq.senders[0])
  }

  lemma PopReceiverKeepsInv(s: Sys, m: MqSlot)
    requires Inv(s) && s.procs[s.cur].state == Running && s.mqs[m].receivers != []
    ensures Inv(PopReceiver(s, m)) && PopReceiver(s, m).procs[s.cur] == s.procs[s.cur]
  {
    var t, s' := s.mqs[m].receivers[0], PopReceiver(s, m);
    hide Holds, AllJustified;
    HeadHome(s, RecvQ(m));
    assert MqsOk(s') by {
      QuietKeepsCounts(s, s', t);
      forall k: MqSlot ensures NoLostWakeup(s', k) { assert NoLostWakeup(s, k); }
    }
    hide MqsOk;
    MoveKeepsInv(s, s', t);
  }

  lemma PopSenderKeepsMqs(s: Sys, m: MqSlot)
    requires Inv(s) && s.procs[s.cur].state == Running && s.mqs[m].senders != []
    ensures MqsOk(PopSender(s, m))
  {
    hide Holds, AllJustified, PidsOk;
    var t, s' := s.mqs[m].senders[0], PopSender(s, m);
    HeadHome(s, SendQ(m));
    QuietKeepsCounts(s, s', t);
    forall k: MqSlot ensures NoLostWakeup(s', k) { assert NoLostWakeup(s, k); }
  }

  lemma PopSenderKeepsInv(s: Sys, m: MqSlot)
    requires Inv(s) && s.procs[s.cur].state == Running && s.mqs[m].senders != []
    ensures Inv(PopSender(s, m)) && PopSender(s, m).procs[s.cur] == s.procs[s.cur]
  {
    hide Holds, AllJustified, MqsOk, PidsOk;
    var t, s' := s.mqs[m].senders[0], PopSender(s, m);
    HeadHome(s, SendQ(m));
    PopSenderKeepsMqs(s, m);
    MoveKeepsInv(s, s', t);
  }

  lemma {:induction false} DrainReceiversKeepsInv(s: Sys, m: MqSlot)
    requires Inv(s) && s.procs[s.cur].state == Running
    ensures Inv(DrainReceivers(s, m)) && DrainReceivers(s, m).procs[s.cur] == s.procs[s.cur]
    ensures DrainReceivers(s, m).cur == s.cur
    ensures DrainReceivers(s, m).mqs == s.mqs[m := s.mqs[m].(receivers := [])]
    decreases |s.mqs[m].receivers|
  {
    if s.mqs[m].receivers != [] {
      PopReceiverKeepsInv(s, m);
      DrainReceiversKeepsInv(PopReceiver(s, m), m);
    }
  }

  lemma {:induction false} DrainSendersKeepsInv(s: Sys, m: MqSlot)
    requires Inv(s) && s.procs[s.cur].state == Running
    ensures Inv(DrainSenders(s, m)) && DrainSenders(s, m).procs[s.cur] == s.procs[s.cur]
    ensures DrainSenders(s, m).mqs == s.mqs[m := s.mqs[m].(senders := [])]
    decreases |s.mqs[m].senders|
  {
    if s.mqs[m].senders != [] {
      PopSenderKeepsInv(s, m);
      DrainSendersKeepsInv(PopSender(s, m), m);
    }
  }

  lemma FreedMqKeepsMqs(s: Sys, s': Sys, m: MqSlot)
    requires MqsOk(s) && s'.procs == s.procs && s'.mqs == s.mqs[m := FreeMq] && s'.mqCount == s.mqCount >= 0
    ensures MqsOk(s')
  {
    forall k: MqSlot ensures NoLostWakeup(s', k) { assert NoLostWakeup(s, k); }
  }

  lemma MqDestroyKeepsInv(s: Sys, id: int)
    requires Inv(s) && s.procs[s.cur].state == Running
    ensures Inv(MqDestroyStep(s, id).s)
  {
    var m := FindMq(s.mqs, id);
    if id >= 0 && m < MAX_MSGQUEUES {
      DrainReceiversKeepsInv(s, m);
      var s1 := DrainReceivers(s, m);
      DrainSendersKeepsInv(s1, m);
      ClearedMqKeepsInv(DrainSenders(s1, m), m);
    }
  }

  lemma ClearedMqKeepsInv(s: Sys, m: MqSlot)
    requires Inv(s) && s.mqs[m].receivers == [] && s.mqs[m].senders == []
    ensures Inv(s.(mqs := s.mqs[m := FreeMq]))
  {
    var s' := s.(mqs := s.mqs[m := FreeMq]);
    FreedMqKeepsMqs(s, s', m);
    TablesKeepInv(s, s');
  }

  // ---------------------------------------------------------------- every step

  lemma ResumeKeepsInv(s: Sys)
    requires Inv(s) && Enabled(s, Resume)
    ensures Inv(ResumeStep(s).s)
  {
    match s.procs[s.cur].pending
    case Recv(m) => TryRecvKeepsInv(s, m);
    case Send(m, data) => TrySendKeepsInv(s, m, data);
    case Wait(pid) => WaitKeepsInv(s, pid);
  }

  lemma WaitKeepsInv(s: Sys, pid: int)
    requires Inv(s) && s.procs[s.cur].state == Running
    requires s.procs[s.cur].pending == User || s.procs[s.cur].pending.Wait?
    ensures Inv(WaitStep(s, pid).s)
  {
    if ZombieChild(s.procs, s.procs[s.cur].pid, pid) < MAX_TASKS {
      CollectKeepsInv(s, pid);
    } else {
      SleepKeepsInv(s, pid);
    }
  }

  /** Each section keeps the invariant exactly when it is not one of the three unsafe cases. */
  lemma StepKeepsInvIffSafe(s: Sys, e: Event)
    requires Inv(s) && Enabled(s, e)
    ensures Inv(Step(s, e).s) <==> Safe(s, e)
  {
    match e
    case Tick => if Safe(s, e) { TickKeepsInv(s); } else { UnsafeTickBreaks(s); }
    case Fork => ForkKeepsInv(s);
    case Exit(code) => if Safe(s, e) { ExitKeepsInv(s, code); } else { UnsafeExitBreaks(s, code); }
    case WaitFor(pid) => WaitKeepsInv(s, pid);
    case SemCreate(init) => SemCreateKeepsInv(s, init);
    case SemWait(id) => SemWaitKeepsInv(s, id);
    case SemPost(id) => SemPostKeepsInv(s, id);
    case SemDestroy(id) => SemDestroyKeepsInv(s, id);
    case MqCreate => if Safe(s, e) { MqCreateKeepsInv(s); } else { UnsafeMqCreateBreaks(s); }
    case MqSend(id, data) =>
      if id >= 0 && FindMq(s.mqs, id) < MAX_MSGQUEUES { TrySendKeepsInv(s, FindMq(s.mqs, id), Cut(data)); }
    case MqRecv(id) =>
      if id >= 0 && FindMq(s.mqs, id) < MAX_MSGQUEUES { TryRecvKeepsInv(s, FindMq(s.mqs, id)); }
    case MqDestroy(id) => MqDestroyKeepsInv(s, id);
    case Resume => ResumeKeepsInv(s);
  }
}
