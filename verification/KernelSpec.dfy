/** The scheduler and the IPC primitives as one state machine.

    A step is one interrupt-free section of kernel/scheduler.c or kernel/ipc.c: a timer tick,
    or what one system call does up to its return or up to its `int $32`. Tasks are named by
    their slot in the process table; a queue is the sequence of the slots on it, head first. */
module KernelSpec {
  const MAX_TASKS: nat := 64
  const MAX_SEMS: nat := 64
  const MAX_MSGQUEUES: nat := 16
  const MSGQUEUE_SIZE: nat := 64
  const MSG_MAX_DATA: nat := 64

  type Byte = b: int | 0 <= b < 256
  type Msg = seq<Byte>
  type TaskSlot = t: int | 0 <= t < MAX_TASKS
  type SemSlot = i: int | 0 <= i < MAX_SEMS
  type MqSlot = m: int | 0 <= m < MAX_MSGQUEUES

  datatype TaskState = Ready | Running | Blocked | Zombie

  /** What a task goes back to when it is scheduled again: the part of its saved kernel stack
      that matters here. `Send` and `Recv` re-test the queue, `Wait` scans the table again. */
  datatype Pending = User | SemSleep(sem: SemSlot) | Recv(mq: MqSlot) | Send(mq: MqSlot, data: Msg) | Wait(pid: int)

  datatype Proc = Proc(pid: int, parent: int, state: TaskState, exitCode: int, pending: Pending)
  datatype Sem = Sem(id: int, value: int, waiters: seq<TaskSlot>)
  datatype Mq = Mq(id: int, msgs: seq<Msg>, receivers: seq<TaskSlot>, senders: seq<TaskSlot>)

  const FreeProc := Proc(-1, 0, Ready, 0, User)
  const FreeSem := Sem(-1, 0, [])
  const FreeMq := Mq(-1, [], [], [])

  datatype State = State(procs: seq<Proc>, ready: seq<TaskSlot>, cur: TaskSlot, taskCount: int, nextPid: int,
                         sems: seq<Sem>, semCount: int, mqs: seq<Mq>, mqCount: int)
  {
    predicate Shaped() { |procs| == MAX_TASKS && |sems| == MAX_SEMS && |mqs| == MAX_MSGQUEUES }
  }

  /** A state over the kernel's fixed-size tables. */
  type Sys = s: State | s.Shaped() witness Boot

  /** After scheduler_init and ipc_init: task 0 runs, everything else is free. */
  const Boot := State(seq(MAX_TASKS, i => if i == 0 then Proc(0, -1, Running, 0, User) else FreeProc), [], 0, 1, 1,
                      seq(MAX_SEMS, _ => FreeSem), 0, seq(MAX_MSGQUEUES, _ => FreeMq), 0)

  // ---------------------------------------------------------------- table searches

  /** Index of the first entry at or after `i` that satisfies `p`, or the length of the table. */
  function First<T>(xs: seq<T>, p: T -> bool, i: nat := 0): (r: nat)
    requires i <= |xs|
    ensures i <= r <= |xs|
    ensures r < |xs| ==> p(xs[r])
    ensures forall j | i <= j < r :: !p(xs[j])
    decreases |xs| - i
  {
    if i == |xs| || p(xs[i]) then i else First(xs, p, i + 1)
  }

  function FreeSlot(ps: seq<Proc>): nat { First(ps, (p: Proc) => p.pid < 0) }

  function FromPid(ps: seq<Proc>, pid: int): nat { First(ps, (p: Proc) => p.pid == pid) }

  function FreeSemSlot(ss: seq<Sem>): nat { First(ss, (s: Sem) => s.id < 0) }

  function FindSem(ss: seq<Sem>, id: int): nat { First(ss, (s: Sem) => s.id == id) }

  function FreeMqSlot(ms: seq<Mq>): nat { First(ms, (m: Mq) => m.id < 0) }

  function FindMq(ms: seq<Mq>, id: int): nat { First(ms, (m: Mq) => m.id == id) }

  /** `c` is a child of the process `parent` that task_wait(pid) looks for; -1 is any child. */
  predicate Matches(c: Proc, parent: int, pid: int) {
    c.pid >= 0 && c.parent == parent && (pid >= 0 ==> c.pid == pid)
  }

  function ZombieChild(ps: seq<Proc>, parent: int, pid: int): nat {
    First(ps, (c: Proc) => Matches(c, parent, pid) && c.state == Zombie)
  }

  predicate HasLiveChild(ps: seq<Proc>, parent: int, pid: int) {
    exists c | 0 <= c < |ps| :: Matches(ps[c], parent, pid) && ps[c].state != Zombie
  }

  // ---------------------------------------------------------------- steps

  datatype Event =
    | Tick
    | Fork | Exit(code: int) | WaitFor(pid: int)
    | SemCreate(init: int) | SemWait(sem: int) | SemPost(sem: int) | SemDestroy(sem: int)
    | MqCreate | MqSend(mq: int, data: Msg) | MqRecv(mq: int) | MqDestroy(mq: int)
    | Resume  // the running task goes on with the loop it was blocked in

  /** What a section hands back: a return value, a received message, or nothing yet. */
  datatype Outcome = Return(code: int) | Received(msg: Msg) | Slept | Switched

  datatype Result = Result(s: Sys, out: Outcome)

  predicate Enabled(s: Sys, e: Event)
  {
    var me := s.procs[s.cur];
    match e
    case Tick => true
    case Resume => me.state == Running && (me.pending.Recv? || me.pending.Send? || me.pending.Wait?)
    case _ => me.state == Running && me.pending == User
  }

  function SetState(s: Sys, t: TaskSlot, st: TaskState): Sys
  {
    s.(procs := s.procs[t := s.procs[t].(state := st)])
  }

  function SetPending(s: Sys, t: TaskSlot, p: Pending): Sys
  {
    s.(procs := s.procs[t := s.procs[t].(pending := p)])
  }

  /** task_wake: READY and at the end of the ready queue. */
  function Wake(s: Sys, t: TaskSlot): Sys
  {
    SetState(s, t, Ready).(ready := s.ready + [t])
  }

  /** task_wake of a semaphore waiter, which has nothing left to do but return 0. */
  function WakeGranted(s: Sys, t: TaskSlot): Sys
  {
    s.(procs := s.procs[t := s.procs[t].(state := Ready, pending := User)], ready := s.ready + [t])
  }

  /** The running task blocks; what it will do when resumed is `p`. */
  function BlockCur(s: Sys, p: Pending): Sys
  {
    s.(procs := s.procs[s.cur := s.procs[s.cur].(state := Blocked, pending := p)])
  }

  function PickNext(s: Sys): Sys
  {
    if s.ready == [] then
      if s.procs[s.cur].state != Zombie then SetState(s, s.cur, Running) else s
    else
      SetState(s.(ready := s.ready[1..], cur := s.ready[0]), s.ready[0], Running)
  }

  function TickStep(s: Sys): Sys
  {
    var me := s.procs[s.cur];
    if me.state == Zombie || me.state == Blocked then PickNext(s)
    else if s.taskCount > 1 then PickNext(Wake(s, s.cur))
    else SetState(s, s.cur, Running)
  }

  function ForkStep(s: Sys): Result
  {
    var slot := FreeSlot(s.procs);
    if slot == MAX_TASKS then Result(s, Return(-1))
    else
      Result(s.(procs := s.procs[slot := Proc(s.nextPid, s.procs[s.cur].pid, Ready, 0, User)],
                ready := s.ready + [slot], taskCount := s.taskCount + 1, nextPid := s.nextPid + 1),
             Return(s.nextPid))
  }

  function ExitStep(s: Sys, code: int): Sys
  {
    var me := s.procs[s.cur];
    var s1 := s.(procs := s.procs[s.cur := me.(state := Zombie, exitCode := code)]);
    var p := FromPid(s1.procs, me.parent);
    if me.parent >= 0 && p < MAX_TASKS && s1.procs[p].state == Blocked then Wake(s1, p) else s1
  }

  function WaitStep(s: Sys, pid: int): Result
  {
    var me := s.procs[s.cur].pid;
    var z := ZombieChild(s.procs, me, pid);
    if z < MAX_TASKS then
      var s1 := SetPending(s, s.cur, User);
      Result(s1.(procs := s1.procs[z := FreeProc], taskCount := s.taskCount - 1), Return(s.procs[z].pid))
    else if HasLiveChild(s.procs, me, pid) then Result(BlockCur(s, Wait(pid)), Slept)
    else Result(SetPending(s, s.cur, User), Return(-1))
  }

  function SemCreateStep(s: Sys, init: int): Result
  {
    var i := FreeSemSlot(s.sems);
    if i == MAX_SEMS then Result(s, Return(-1))
    else
      Result(s.(sems := s.sems[i := Sem(s.semCount, if init < 0 then 0 else init, [])], semCount := s.semCount + 1),
             Return(s.semCount))
  }

  function SemWaitStep(s: Sys, id: int): Result
  {
    if id < 0 || id >= s.semCount then Result(s, Return(-1))
    else
      var i := FindSem(s.sems, id);
      if i == MAX_SEMS then Result(s, Return(-1))
      else
        var sem := s.sems[i];
        if sem.value > 0 then Result(s.(sems := s.sems[i := sem.(value := sem.value - 1)]), Return(0))
        else
          var s1 := BlockCur(s, SemSleep(i));
          Result(s1.(sems := s.sems[i := sem.(waiters := sem.waiters + [s.cur])]), Slept)
  }

  function SemPostStep(s: Sys, id: int): Result
  {
    if id < 0 || id >= s.semCount then Result(s, Return(-1))
    else
      var i := FindSem(s.sems, id);
      if i == MAX_SEMS then Result(s, Return(-1))
      else
        var sem := s.sems[i];
        if sem.waiters == [] then Result(s.(sems := s.sems[i := sem.(value := sem.value + 1)]), Return(0))
        else
          var s1 := s.(sems := s.sems[i := sem.(waiters := sem.waiters[1..])]);
          Result(WakeGranted(s1, sem.waiters[0]), Return(0))
  }

  /** Pops and wakes every waiter of semaphore slot `i`, head first. */
  function DrainSem(s: Sys, i: SemSlot): (r: Sys)
    decreases |s.sems[i].waiters|
  {
    var sem := s.sems[i];
    if sem.waiters == [] then s
    else DrainSem(WakeGranted(s.(sems := s.sems[i := sem.(waiters := sem.waiters[1..])]), sem.waiters[0]), i)
  }

  function SemDestroyStep(s: Sys, id: int): Result
  {
    if id < 0 then Result(s, Return(-1))
    else
      var i := FindSem(s.sems, id);
      if i == MAX_SEMS then Result(s, Return(-1))
      else
        var s1 := DrainSem(s, i);
        Result(s1.(sems := s1.sems[i := FreeSem]), Return(0))
  }

  function MqCreateStep(s: Sys): Result
  {
    var m := FreeMqSlot(s.mqs);
    if m == MAX_MSGQUEUES then Result(s, Return(-1))
    else Result(s.(mqs := s.mqs[m := Mq(s.mqCount, [], [], [])], mqCount := s.mqCount + 1), Return(s.mqCount))
  }

  /** One round of the send loop: append and wake a receiver, or queue up and block. */
  function TrySend(s: Sys, m: MqSlot, data: Msg): Result
  {
    var mq := s.mqs[m];
    if |mq.msgs| >= MSGQUEUE_SIZE then
      var s1 := BlockCur(s, Send(m, data));
      Result(s1.(mqs := s.mqs[m := mq.(senders := mq.senders + [s.cur])]), Slept)
    else
      var s1 := SetPending(s, s.cur, User);
      if mq.receivers == [] then Result(s1.(mqs := s.mqs[m := mq.(msgs := mq.msgs + [data])]), Return(0))
      else
        var s2 := s1.(mqs := s.mqs[m := mq.(msgs := mq.msgs + [data], receivers := mq.receivers[1..])]);
        Result(Wake(s2, mq.receivers[0]), Return(0))
  }

  /** One round of the receive loop. */
  function TryRecv(s: Sys, m: MqSlot): Result
  {
    var mq := s.mqs[m];
    if |mq.msgs| == 0 then
      var s1 := BlockCur(s, Recv(m));
      Result(s1.(mqs := s.mqs[m := mq.(receivers := mq.receivers + [s.cur])]), Slept)
    else
      var s1 := SetPending(s, s.cur, User);
      if mq.senders == [] then Result(s1.(mqs := s.mqs[m := mq.(msgs := mq.msgs[1..])]), Received(mq.msgs[0]))
      else
        var s2 := s1.(mqs := s.mqs[m := mq.(msgs := mq.msgs[1..], senders := mq.senders[1..])]);
        Result(Wake(s2, mq.senders[0]), Received(mq.msgs[0]))
  }

  /** A message is cut to MSG_MAX_DATA bytes. */
  function Cut(data: Msg): (r: Msg)
    ensures |r| <= MSG_MAX_DATA && r <= data
    ensures if |data| <= MSG_MAX_DATA then r == data else |r| == MSG_MAX_DATA
  {
    if |data| > MSG_MAX_DATA then data[..MSG_MAX_DATA] else data
  }

  function MqSendStep(s: Sys, id: int, data: Msg): Result {
    if id < 0 then Result(s, Return(-1))
    else
      var m := FindMq(s.mqs, id);
      if m == MAX_MSGQUEUES then Result(s, Return(-1)) else TrySend(s, m, Cut(data))
  }

  function MqRecvStep(s: Sys, id: int): Result {
    if id < 0 then Result(s, Return(-1))
    else
      var m := FindMq(s.mqs, id);
      if m == MAX_MSGQUEUES then Result(s, Return(-1)) else TryRecv(s, m)
  }

  function DrainReceivers(s: Sys, m: MqSlot): (r: Sys)
    decreases |s.mqs[m].receivers|
  {
    var mq := s.mqs[m];
    if mq.receivers == [] then s
    else DrainReceivers(Wake(s.(mqs := s.mqs[m := mq.(receivers := mq.receivers[1..])]), mq.receivers[0]), m)
  }

  function DrainSenders(s: Sys, m: MqSlot): (r: Sys)
    decreases |s.mqs[m].senders|
  {
    var mq := s.mqs[m];
    if mq.senders == [] then s
    else DrainSenders(Wake(s.(mqs := s.mqs[m := mq.(senders := mq.senders[1..])]), mq.senders[0]), m)
  }

  function MqDestroyStep(s: Sys, id: int): Result {
    if id < 0 then Result(s, Return(-1))
    else
      var m := FindMq(s.mqs, id);
      if m == MAX_MSGQUEUES then Result(s, Return(-1))
      else
        var s1 := DrainSenders(DrainReceivers(s, m), m);
        Result(s1.(mqs := s1.mqs[m := FreeMq]), Return(0))
  }

  function ResumeStep(s: Sys): Result
    requires Enabled(s, Resume)
  {
    match s.procs[s.cur].pending
    case Recv(m) => TryRecv(s, m)
    case Send(m, data) => TrySend(s, m, data)
    case Wait(pid) => WaitStep(s, pid)
  }

  function Step(s: Sys, e: Event): Result
    requires Enabled(s, e)
  {
    match e
    case Tick => Result(TickStep(s), Switched)
    case Fork => ForkStep(s)
    case Exit(code) => Result(ExitStep(s, code), Slept)
    case WaitFor(pid) => WaitStep(s, pid)
    case SemCreate(init) => SemCreateStep(s, init)
    case SemWait(id) => SemWaitStep(s, id)
    case SemPost(id) => SemPostStep(s, id)
    case SemDestroy(id) => SemDestroyStep(s, id)
    case MqCreate => MqCreateStep(s)
    case MqSend(id, data) => MqSendStep(s, id, data)
    case MqRecv(id) => MqRecvStep(s, id)
    case MqDestroy(id) => MqDestroyStep(s, id)
    case Resume => ResumeStep(s)
  }
}
