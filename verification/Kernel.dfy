/** kernel/scheduler.c and kernel/ipc.c over mutable tables whose queues share the one `next`
    link of the task structure. Every section refines its step of KernelSpec. */
module Kernel {
  import opened KernelSpec
  import opened KernelInvariant

  class Task {
    ghost const slot: TaskSlot
    var pid: int
    var parentPid: int
    var state: TaskState
    var exitCode: int
    var pending: Pending  // what the saved kernel stack goes on with
    var next: Task?

    constructor (slot: TaskSlot, p: Proc)
      ensures this.slot == slot && Shows(p) && next == null
    {
      this.slot := slot;
      pid, parentPid, state, exitCode, pending := p.pid, p.parent, p.state, p.exitCode, p.pending;
      next := null;
    }

    method Write(p: Proc)
      modifies this`pid, this`parentPid, this`state, this`exitCode, this`pending
      ensures Shows(p)
    {
      pid, parentPid, state, exitCode, pending := p.pid, p.parent, p.state, p.exitCode, p.pending;
    }

    ghost predicate Shows(p: Proc)
      reads this`pid, this`parentPid, this`state, this`exitCode, this`pending
    {
      Proc(pid, parentPid, state, exitCode, pending) == p
    }
  }

  /** The two ends of one list through `next`: ready_head/tail, wait_head/tail, and so on. */
  class TaskList {
    ghost const place: Place
    var head: Task?
    var tail: Task?

    constructor (ghost place: Place)
      ensures this.place == place && head == null && tail == null
    {
      this.place := place;
      head, tail := null, null;
    }
  }

  class Semaphore {
    const wait: TaskList
    ghost const slot: SemSlot
    var id: int
    var value: int

    constructor (slot: SemSlot)
      ensures fresh(wait) && EmptySem(this, slot)
    {
      this.slot := slot;
      wait := new TaskList(SemQ(slot));
      id, value := -1, 0;
    }
  }

  class MsgQueue {
    const receivers: TaskList
    const senders: TaskList
    const msgs: array<Msg>
    ghost const slot: MqSlot
    var id: int
    var head: int
    var tail: int
    var count: int

    constructor (slot: MqSlot)
      ensures fresh(msgs) && fresh(receivers) && fresh(senders) && EmptyQueue(this, slot)
    {
      this.slot := slot;
      receivers := new TaskList(RecvQ(slot));
      senders := new TaskList(SendQ(slot));
      msgs := new Msg[MSGQUEUE_SIZE](_ => []);
      id, head, tail, count := -1, 0, 0, 0;
    }

    /** The ring buffer holds `contents`, oldest first, from `head` on. */
    ghost predicate Ring(contents: seq<Msg>)
      reads this`head, this`tail, this`count, msgs
    {
      && msgs.Length == MSGQUEUE_SIZE
      && count == |contents| <= MSGQUEUE_SIZE
      && 0 <= head < MSGQUEUE_SIZE && 0 <= tail < MSGQUEUE_SIZE
      && tail == (head + count) % MSGQUEUE_SIZE
      && forall k | 0 <= k < count :: msgs[(head + k) % MSGQUEUE_SIZE] == contents[k]
    }

    method Put(msg: Msg, ghost contents: seq<Msg>)
      requires Ring(contents) && |contents| < MSGQUEUE_SIZE
      modifies this`tail, this`count, msgs
      ensures Ring(contents + [msg])
    {
      msgs[tail] := msg;
      tail := (tail + 1) % MSGQUEUE_SIZE;
      count := count + 1;
    }

    method Take(ghost contents: seq<Msg>) returns (msg: Msg)
      requires Ring(contents) && contents != []
      modifies this`head, this`count
      ensures msg == contents[0] && Ring(contents[1..])
    {
      msg := msgs[head];
      head := (head + 1) % MSGQUEUE_SIZE;
      count := count - 1;
    }
  }

  ghost predicate EmptyList(list: TaskList, place: Place)
    reads list
  {
    list.place == place && list.head == null && list.tail == null
  }

  ghost predicate EmptySem(sem: Semaphore, slot: SemSlot)
    reads sem, sem.wait
  {
    sem.slot == slot && sem.id == -1 && sem.value == 0 && EmptyList(sem.wait, SemQ(slot))
  }

  ghost predicate EmptyQueue(mq: MsgQueue, slot: MqSlot)
    reads mq, mq.msgs, mq.receivers, mq.senders
  {
    && mq.slot == slot && mq.Ring([]) && mq.id == -1
    && EmptyList(mq.receivers, RecvQ(slot)) && EmptyList(mq.senders, SendQ(slot))
  }

  ghost predicate TasksBooted(ts: seq<Task>)
    reads ts
  {
    && |ts| == MAX_TASKS
    && forall t: TaskSlot :: ts[t].slot == t && ts[t].Shows(Boot.procs[t]) && ts[t].next == null
  }

  ghost predicate SemsBooted(ss: seq<Semaphore>, lists: set<TaskList>, objects: set<object>)
    reads lists, objects
  {
    && |ss| == MAX_SEMS
    && forall i: SemSlot :: ss[i].wait in lists && ss[i] in objects && EmptySem(ss[i], i)
  }

  ghost predicate MqsBooted(ms: seq<MsgQueue>, lists: set<TaskList>, objects: set<object>)
    reads lists, objects
  {
    && |ms| == MAX_MSGQUEUES
    && (forall m: MqSlot :: ms[m].receivers in lists && ms[m].senders in lists
                            && ms[m] in objects && ms[m].msgs in objects && EmptyQueue(ms[m], m))
    && (forall m: MqSlot, k: MqSlot | m != k :: ms[m].msgs != ms[k].msgs)
  }

  method BootTasks() returns (ts: seq<Task>)
    ensures fresh(ts) && TasksBooted(ts)
  {
    ts := [];
    for i := 0 to MAX_TASKS
      invariant |ts| == i && fresh(ts)
      invariant forall t: TaskSlot | t < i :: ts[t].slot == t && ts[t].Shows(Boot.procs[t]) && ts[t].next == null
    {
      var task := new Task(i, if i == 0 then Proc(0, -1, Running, 0, User) else FreeProc);
      ts := ts + [task];
    }
  }

  method BootSems() returns (ss: seq<Semaphore>, ghost lists: set<TaskList>, ghost objects: set<object>)
    ensures fresh(lists) && fresh(objects) && SemsBooted(ss, lists, objects)
  {
    ss, lists, objects := [], {}, {};
    for i := 0 to MAX_SEMS
      invariant |ss| == i && fresh(lists) && fresh(objects)
      invariant forall k: SemSlot | k < i :: EmptySem(ss[k], k) && ss[k].wait in lists && ss[k] in objects
    {
      var sem := new Semaphore(i);
      ss, lists, objects := ss + [sem], lists + {sem.wait}, objects + {sem};
    }
  }

  method BootQueues() returns (ms: seq<MsgQueue>, ghost lists: set<TaskList>, ghost objects: set<object>)
    ensures fresh(lists) && fresh(objects) && MqsBooted(ms, lists, objects)
  {
    ms, lists, objects := [], {}, {};
    for i := 0 to MAX_MSGQUEUES
      invariant |ms| == i && fresh(lists) && fresh(objects)
      invariant forall m: MqSlot | m < i :: EmptyQueue(ms[m], m) && ms[m].receivers in lists && ms[m].senders in lists
                                            && ms[m] in objects && ms[m].msgs in objects
      invariant forall m: MqSlot, k: MqSlot | m < i && k < i && m != k :: ms[m].msgs != ms[k].msgs
    {
      var mq := new MsgQueue(i);
      ms, lists, objects := ms + [mq], lists + {mq.receivers, mq.senders}, objects + {mq, mq.msgs};
    }
  }

  /** The fixed shape of the tables: nothing is shared except through the `next` links. */
  ghost predicate Laid(tasks: seq<Task>, sems: seq<Semaphore>, mqs: seq<MsgQueue>, ready: TaskList,
                       lists: set<TaskList>, ipc: set<object>)
  {
    && |tasks| == MAX_TASKS && |sems| == MAX_SEMS && |mqs| == MAX_MSGQUEUES
    && (forall t: TaskSlot :: tasks[t].slot == t)
    && (forall m: MqSlot, k: MqSlot | m != k :: mqs[m].msgs != mqs[k].msgs)
    && ready.place == ReadyQ && ready in lists && lists <= ipc
    && (forall i: SemSlot :: sems[i].slot == i && sems[i] in ipc && sems[i].wait in lists && sems[i].wait.place == SemQ(i))
    && (forall m: MqSlot :: mqs[m].slot == m && mqs[m] in ipc && mqs[m].msgs in ipc
                            && mqs[m].receivers in lists && mqs[m].receivers.place == RecvQ(m)
                            && mqs[m].senders in lists && mqs[m].senders.place == SendQ(m))
  }

  class Kernel {
    const tasks: seq<Task>
    const sems: seq<Semaphore>
    const mqs: seq<MsgQueue>
    const ready: TaskList
    var currentTask: Task
    var taskCount: int
    var nextPid: int
    var semCount: int
    var mqCount: int
    ghost const lists: set<TaskList>
    ghost const ipc: set<object>  // all that the IPC code may write besides the tasks and `this`
    ghost var st: Sys  // the state these tables represent

    constructor (ts: seq<Task>, ss: seq<Semaphore>, ms: seq<MsgQueue>, r: TaskList,
                 ghost semLists: set<TaskList>, ghost semObjects: set<object>,
                 ghost mqLists: set<TaskList>, ghost mqObjects: set<object>)
      requires TasksBooted(ts) && SemsBooted(ss, semLists, semObjects) && MqsBooted(ms, mqLists, mqObjects)
      requires EmptyList(r, ReadyQ)
      ensures Rep() && st == Boot && tasks == ts && lists == {r} + semLists + mqLists && ipc == semObjects + mqObjects + lists
    {
      hide LinksNow, Linked, Queues, Laid, ProcsShown, SemsShown, MqsShown, SemsBooted, MqsBooted;
      tasks, sems, mqs, ready := ts, ss, ms, r;
      ghost var ls := {r} + semLists + mqLists;
      lists, ipc := ls, semObjects + mqObjects + ls;
      currentTask := ts[0];
      taskCount, nextPid, semCount, mqCount := 1, 1, 0, 0;
      st := Boot;
      new;
      AllBooted(semLists, semObjects, mqLists, mqObjects);
    }

    lemma AllBooted(semLists: set<TaskList>, semObjects: set<object>, mqLists: set<TaskList>, mqObjects: set<object>)
      requires TasksBooted(tasks) && SemsBooted(sems, semLists, semObjects) && MqsBooted(mqs, mqLists, mqObjects)
      requires EmptyList(ready, ReadyQ) && lists == {ready} + semLists + mqLists && ipc == semObjects + mqObjects + lists
      ensures Tables() && ProcsShown(Boot.procs) && SemsShown(Boot.sems) && MqsShown(Boot.mqs)
      ensures Linked(tasks, LinksNow(), Boot)
    {
      hide LinksNow, Queues, Linked;
      var theLists: set<object> := lists;
      assert theLists <= semObjects + mqObjects + lists;
      AllEmpty(tasks, LinksNow(), Boot);
    }

    ghost predicate Tables() { Laid(tasks, sems, mqs, ready, lists, ipc) }

    ghost function ListOf(q: Place): (list: TaskList)
      requires Tables() && q.IsQueue()
      ensures list.place == q && list in lists
    {
      match q
      case ReadyQ => ready
      case SemQ(i) => sems[i].wait
      case RecvQ(m) => mqs[m].receivers
      case SendQ(m) => mqs[m].senders
    }

    ghost function NextsUpTo(n: nat): (nexts: seq<Task?>)
      requires n <= |tasks|
      reads tasks`next
      ensures |nexts| == n && forall t | 0 <= t < n :: nexts[t] == tasks[t].next
    {
      if n == 0 then [] else NextsUpTo(n - 1) + [tasks[n - 1].next]
    }

    ghost function LinksNow(): (l: Links)
      requires Tables()
      reads tasks`next, lists`head, lists`tail
      ensures l.Complete() && (forall t: TaskSlot :: l.nexts[t] == tasks[t].next)
      ensures forall q: Place | q.IsQueue() :: l.heads[q] == ListOf(q).head && l.tails[q] == ListOf(q).tail
    {
      Links(NextsUpTo(MAX_TASKS), map q | q in Queues() :: ListOf(q).head, map q | q in Queues() :: ListOf(q).tail)
    }

    ghost predicate ProcsShown(procs: seq<Proc>)
      requires Tables() && |procs| == MAX_TASKS
      reads tasks`pid, tasks`parentPid, tasks`state, tasks`exitCode, tasks`pending
    {
      forall t: TaskSlot :: tasks[t].Shows(procs[t])
    }

    ghost predicate SemsShown(ss: seq<Sem>)
      requires Tables() && |ss| == MAX_SEMS
      reads sems`id, sems`value
    {
      forall i: SemSlot :: sems[i].id == ss[i].id && sems[i].value == ss[i].value
    }

    ghost predicate MqsShown(ms: seq<Mq>)
      requires Tables() && |ms| == MAX_MSGQUEUES
      reads mqs`id, mqs`head, mqs`tail, mqs`count, set m <- mqs :: m.msgs
    {
      forall m: MqSlot :: mqs[m].id == ms[m].id && mqs[m].Ring(ms[m].msgs)
    }

    ghost predicate Scalars()
      requires Tables()
      reads this`currentTask, this`taskCount, this`nextPid, this`semCount, this`mqCount, this`st
      reads tasks`pid, tasks`parentPid, tasks`state, tasks`exitCode, tasks`pending
      reads sems`id, sems`value, mqs`id, mqs`head, mqs`tail, mqs`count, set m <- mqs :: m.msgs
    {
      && currentTask == tasks[st.cur]
      && taskCount == st.taskCount && nextPid == st.nextPid && semCount == st.semCount && mqCount == st.mqCount
      && ProcsShown(st.procs) && SemsShown(st.sems) && MqsShown(st.mqs)
    }

    /** The tables and the links represent the state `st`. */
    ghost predicate Rep()
      reads this, tasks, ipc
    {
      Tables() && Scalars() && Linked(tasks, LinksNow(), st)
    }

    // -------------------------------------------------------------- the shared links

    /** Puts a task at the end of a list: enqueue_ready, and the inline code of sem_wait,
        msg_queue_send and msg_queue_recv. */
    method Link(list: TaskList, task: Task, ghost q: Place, ghost t: TaskSlot)
      requires Tables() && Linked(tasks, LinksNow(), st)
      requires q.IsQueue() && list == ListOf(q) && task == tasks[t] && Unqueued(st, t)
      modifies list, this`st, tasks`next
      ensures Linked(tasks, LinksNow(), st) && st == WithQueue(old(st), q, On(old(st), q) + [t])
    {
      hide Linked, Separate, Chain, LinksNow, Queues, On, ListOf, WithQueue;
      ghost var links := LinksNow();
      Ends(tasks, links, st, q);
      task.next := null;
      if list.tail != null {
        list.tail.next := task;
      } else {
        list.head := task;
      }
      list.tail := task;
      st := WithQueue(st, q, On(st, q) + [t]);
      LinkedIn(tasks, old(st), st, links, LinksNow(), q, t);
    }

    /** Takes the first task off a list: dequeue_ready, and the inline code of sem_post,
        msg_queue_send and msg_queue_recv. */
    method Unlink(list: TaskList, ghost q: Place) returns (task: Task)
      requires Tables() && Linked(tasks, LinksNow(), st)
      requires q.IsQueue() && list == ListOf(q) && list.head != null
      modifies list, this`st, tasks`next
      ensures Linked(tasks, LinksNow(), st)
      ensures On(old(st), q) != [] && task == tasks[On(old(st), q)[0]]
      ensures st == WithQueue(old(st), q, On(old(st), q)[1..])
    {
      hide Linked, Separate, Chain, LinksNow, Queues, On, ListOf, WithQueue;
      ghost var links := LinksNow();
      Ends(tasks, links, st, q);
      task := list.head;
      list.head := task.next;
      if list.head == null {
        list.tail := null;
      }
      task.next := null;
      st := WithQueue(st, q, On(st, q)[1..]);
      Unlinked(tasks, old(st), st, links, LinksNow(), q);
    }

    lemma QueuesAreNotShown(s: Sys, q: Place, ts: seq<TaskSlot>)
      requires Tables() && q.IsQueue() && SemsShown(s.sems) && MqsShown(s.mqs)
      ensures var s' := WithQueue(s, q, ts);
        && SemsShown(s'.sems) && MqsShown(s'.mqs) && s'.procs == s.procs && s'.cur == s.cur
        && s'.taskCount == s.taskCount && s'.nextPid == s.nextPid && s'.semCount == s.semCount && s'.mqCount == s.mqCount
    {
    }

    method Append(list: TaskList, task: Task, ghost q: Place, ghost t: TaskSlot)
      requires Rep() && q.IsQueue() && list == ListOf(q) && task == tasks[t] && Unqueued(st, t)
      modifies list, this`st, tasks`next
      ensures Rep() && st == WithQueue(old(st), q, On(old(st), q) + [t])
    {
      hide Linked, LinksNow, ProcsShown, SemsShown, MqsShown, Unqueued, WithQueue, On, ListOf;
      QueuesAreNotShown(st, q, On(st, q) + [t]);
      Link(list, task, q, t);
    }

    method PopFirst(list: TaskList, ghost q: Place) returns (task: Task)
      requires Rep() && q.IsQueue() && list == ListOf(q) && list.head != null
      modifies list, this`st, tasks`next
      ensures Rep() && On(old(st), q) != [] && task == tasks[On(old(st), q)[0]]
      ensures st == WithQueue(old(st), q, On(old(st), q)[1..])
    {
      hide Linked, LinksNow, ProcsShown, SemsShown, MqsShown, WithQueue, On, ListOf;
      Ends(tasks, LinksNow(), st, q);
      QueuesAreNotShown(st, q, On(st, q)[1..]);
      task := Unlink(list, q);
    }

    // -------------------------------------------------------------- kernel/scheduler.c

    method EnqueueReady(task: Task, ghost t: TaskSlot)
      requires Rep() && task == tasks[t] && Unqueued(st, t)
      modifies ready, this`st, tasks`next
      ensures Rep() && st == old(st).(ready := old(st).ready + [t])
    {
      hide Rep, Unqueued;
      Append(ready, task, ReadyQ, t);
    }

    method DequeueReady() returns (task: Task?)
      requires Rep()
      modifies ready, this`st, tasks`next
      ensures Rep()
      ensures if old(st).ready == [] then task == null && st == old(st)
              else task == tasks[old(st).ready[0]] && st == old(st).(ready := old(st).ready[1..])
    {
      hide Linked, LinksNow, Scalars;
      Ends(tasks, LinksNow(), st, ReadyQ);
      if ready.head == null { return null; }
      task := PopFirst(ready, ReadyQ);
    }

    /** Writes the fields of one task; the queues do not notice. */
    method WriteTask(task: Task, p: Proc, ghost t: TaskSlot)
      requires Rep() && task == tasks[t]
      modifies task`pid, task`parentPid, task`state, task`exitCode, task`pending, this`st
      ensures Rep() && st == old(st).(procs := old(st).procs[t := p])
    {
      hide Linked, LinksNow, Queues, SemsShown, MqsShown, Task.Shows;
      task.Write(p);
      st := st.(procs := st.procs[t := p]);
      SameQueues(tasks, LinksNow(), old(st), st);
    }

    method SetTask(task: Task, state: TaskState, pending: Pending, ghost t: TaskSlot)
      requires Rep() && task == tasks[t]
      modifies task`pid, task`parentPid, task`state, task`exitCode, task`pending, this`st
      ensures Rep() && st == old(st).(procs := old(st).procs[t := old(st).procs[t].(state := state, pending := pending)])
    {
      hide Linked, LinksNow, Queues, SemsShown, MqsShown;
      WriteTask(task, Proc(task.pid, task.parentPid, state, task.exitCode, pending), t);
    }

    method Recount(pid: int, count: int)
      requires Rep()
      modifies this`nextPid, this`taskCount, this`st
      ensures Rep() && st == old(st).(nextPid := pid, taskCount := count)
    {
      hide Linked, LinksNow, ProcsShown, SemsShown, MqsShown;
      nextPid, taskCount := pid, count;
      st := st.(nextPid := pid, taskCount := count);
      SameQueues(tasks, LinksNow(), old(st), st);
    }

    method PickNextTask()
      requires Rep()
      modifies this, tasks, ready
      ensures Rep() && st == PickNext(old(st))
    {
      hide Linked, LinksNow, Queues, SemsShown, MqsShown;
      var next := DequeueReady();
      if next == null {
        if currentTask.state != Zombie {
          SetTask(currentTask, Running, currentTask.pending, st.cur);
        }
      } else {
        currentTask := next;
        ghost var before := st;
        st := st.(cur := old(st).ready[0]);
        SameQueues(tasks, LinksNow(), before, st);
        SetTask(currentTask, Running, currentTask.pending, st.cur);
      }
    }

    method SchedulerTick()
      requires Rep() && Inv(st)
      modifies this, tasks, ready
      ensures Rep() && st == TickStep(old(st))
    {
      hide Linked, LinksNow, Queues, PickNext, Core, Placed, SemsShown, MqsShown;
      if currentTask.state == Zombie || currentTask.state == Blocked {
        PickNextTask();
      } else if taskCount > 1 {
        RunningUnqueued(st);
        ghost var t := st.cur;
        SetTask(currentTask, Ready, currentTask.pending, t);
        SameQueues(tasks, LinksNow(), old(st), st);
        EnqueueReady(currentTask, t);
        PickNextTask();
      } else {
        SetTask(currentTask, Running, currentTask.pending, st.cur);
      }
    }

    method TaskFindSlot() returns (slot: int)
      requires Rep()
      ensures slot == if FreeSlot(st.procs) == MAX_TASKS then -1 else FreeSlot(st.procs)
    {
      hide Linked, SemsShown, MqsShown;
      for i := 0 to MAX_TASKS
        invariant forall t: TaskSlot | t < i :: st.procs[t].pid >= 0
      {
        if tasks[i].pid < 0 { return i; }
      }
      return -1;
    }

    method TaskFromPid(pid: int) returns (task: Task?, ghost t: nat)
      requires Rep()
      ensures t == FromPid(st.procs, pid) && task == if t == MAX_TASKS then null else tasks[t]
    {
      hide Linked, SemsShown, MqsShown;
      for i := 0 to MAX_TASKS
        invariant forall u: TaskSlot | u < i :: st.procs[u].pid != pid
      {
        if tasks[i].pid == pid { return tasks[i], i; }
      }
      return null, MAX_TASKS;
    }

    method TaskFork() returns (out: Outcome)
      requires Rep() && Inv(st) && Enabled(st, Fork)
      modifies this, tasks, ready
      ensures Rep() && Result(st, out) == ForkStep(old(st))
    {
      hide Linked, LinksNow, Queues, Inv, SemsShown, MqsShown, Unqueued, On, Enabled, First;
      var slot := TaskFindSlot();
      if slot < 0 { return Return(-1); }
      FreeSlotUnqueued(st);
      WriteTask(tasks[slot], Proc(nextPid, currentTask.pid, Ready, 0, User), slot);
      UnqueuedStays(old(st), st, slot);
      EnqueueReady(tasks[slot], slot);
      out := Return(nextPid);
      Recount(nextPid + 1, taskCount + 1);
    }

    method TaskExit(code: int)
      requires Rep() && Inv(st) && Enabled(st, Exit(code)) && Safe(st, Exit(code))
      modifies this, tasks, ready
      ensures Rep() && st == ExitStep(old(st), code)
    {
      hide Linked, LinksNow, Queues, Inv, SemsShown, MqsShown, Unqueued, Safe;
      ghost var me := st.cur;
      WriteTask(currentTask, Proc(currentTask.pid, currentTask.parentPid, Zombie, code, currentTask.pending), me);
      if currentTask.parentPid >= 0 {
        var parent, p := TaskFromPid(currentTask.parentPid);
        if parent != null && parent.state == Blocked {
          SleepingParentUnqueued(old(st), st, code, p);
          SetTask(parent, Ready, parent.pending, p);
          UnqueuedStays(old(st), st, p);
          EnqueueReady(parent, p);
        }
      }
    }

    /** One round of the loop of task_wait: collect a zombie child, give up, or block. */
    method TaskWait(pid: int) returns (out: Outcome)
      requires Rep() && Inv(st) && st.procs[st.cur].state == Running
      modifies this, tasks, ready
      ensures Rep() && Result(st, out) == WaitStep(old(st), pid)
    {
      hide Linked, LinksNow, Inv, SemsShown, MqsShown;
      for i := 0 to MAX_TASKS
        invariant Rep() && st == old(st)
        invariant forall t: TaskSlot | t < i :: !(Matches(st.procs[t], currentTask.pid, pid) && st.procs[t].state == Zombie)
      {
        var child := tasks[i];
        if child.pid < 0 { continue; }
        if child.parentPid != currentTask.pid { continue; }
        if pid >= 0 && child.pid != pid { continue; }
        if child.state == Zombie {
          out := Return(child.pid);
          SetTask(currentTask, Running, User, st.cur);
          WriteTask(child, FreeProc, i);
          Recount(nextPid, taskCount - 1);
          return;
        }
      }
      var hasAlive := false;
      for i := 0 to MAX_TASKS
        invariant Rep() && st == old(st) && !hasAlive
        invariant forall t: TaskSlot | t < i :: !(Matches(st.procs[t], currentTask.pid, pid) && st.procs[t].state != Zombie)
      {
        var child := tasks[i];
        if child.pid < 0 { continue; }
        if child.parentPid != currentTask.pid { continue; }
        if pid >= 0 && child.pid != pid { continue; }
        if child.state != Zombie {
          hasAlive := true;
          assert HasLiveChild(st.procs, currentTask.pid, pid);
          break;
        }
      }
      if !hasAlive {
        SetTask(currentTask, Running, User, st.cur);
        return Return(-1);
      }
      SetTask(currentTask, Blocked, Wait(pid), st.cur);
      return Slept;
    }

    /** Sets both ends to NULL, whatever the list holds. */
    method Clear(list: TaskList, ghost q: Place)
      requires Rep() && q.IsQueue() && list == ListOf(q)
      modifies list, this`st
      ensures Rep() && st == WithQueue(old(st), q, [])
    {
      hide Linked, LinksNow, ProcsShown, SemsShown, MqsShown, WithQueue, On, ListOf;
      ghost var links := LinksNow();
      list.head, list.tail := null, null;
      QueuesAreNotShown(st, q, []);
      st := WithQueue(st, q, []);
      Cleared(tasks, old(st), st, links, LinksNow(), q);
    }

    // -------------------------------------------------------------- semaphores, kernel/ipc.c

    method WriteSem(sem: Semaphore, id: int, value: int, ghost i: SemSlot)
      requires Rep() && sem == sems[i]
      modifies sem`id, sem`value, this`st
      ensures Rep() && st == old(st).(sems := old(st).sems[i := Sem(id, value, old(st).sems[i].waiters)])
    {
      hide Linked, LinksNow, ProcsShown, MqsShown;
      sem.id, sem.value := id, value;
      st := st.(sems := st.sems[i := Sem(id, value, st.sems[i].waiters)]);
      SameQueues(tasks, LinksNow(), old(st), st);
    }

    method FindSemaphore(id: int) returns (sem: Semaphore?, i: nat)
      requires Rep()
      ensures i == FindSem(st.sems, id) && (sem == null <==> i == MAX_SEMS) && (sem != null ==> sem == sems[i])
    {
      hide Linked, ProcsShown, MqsShown;
      for k := 0 to MAX_SEMS
        invariant forall j: SemSlot | j < k :: st.sems[j].id != id
      {
        if sems[k].id == id { return sems[k], k; }
      }
      return null, MAX_SEMS;
    }

    method SemCreate(init: int) returns (out: Outcome)
      requires Rep()
      modifies this, ipc
      ensures Rep() && Result(st, out) == SemCreateStep(old(st), init)
    {
      hide Linked, LinksNow, ProcsShown, MqsShown;
      for k := 0 to MAX_SEMS
        invariant Rep() && st == old(st)
        invariant forall j: SemSlot | j < k :: st.sems[j].id >= 0
      {
        if sems[k].id < 0 {
          WriteSem(sems[k], semCount, if init < 0 then 0 else init, k);
          Clear(sems[k].wait, SemQ(k));
          out := Return(semCount);
          CountSem();
          return;
        }
      }
      return Return(-1);
    }

    method CountSem()
      requires Rep()
      modifies this`semCount, this`st
      ensures Rep() && st == old(st).(semCount := old(st).semCount + 1)
    {
      hide Linked, LinksNow, ProcsShown, SemsShown, MqsShown;
      semCount := semCount + 1;
      st := st.(semCount := st.semCount + 1);
      SameQueues(tasks, LinksNow(), old(st), st);
    }

    method SemWait(id: int) returns (out: Outcome)
      requires Rep() && Inv(st) && Enabled(st, Event.SemWait(id))
      modifies this, tasks, ipc
      ensures Rep() && Result(st, out) == SemWaitStep(old(st), id)
    {
      hide Linked, LinksNow, MqsShown, Inv, Unqueued;
      if id < 0 || id >= semCount { return Return(-1); }
      var sem, i := FindSemaphore(id);
      if sem == null { return Return(-1); }
      if sem.value > 0 {
        WriteSem(sem, sem.id, sem.value - 1, i);
        return Return(0);
      }
      RunningUnqueued(st);
      ghost var me := st.cur;
      SetTask(currentTask, Blocked, SemSleep(i), me);
      UnqueuedStays(old(st), st, me);
      Append(sem.wait, currentTask, SemQ(i), me);
      return Slept;
    }

    /** Pops the first waiter and wakes it. */
    method WakeWaiter(sem: Semaphore, ghost i: SemSlot)
      requires Rep() && sem == sems[i] && st.sems[i].waiters != [] && sem.wait.head != null
      modifies this, tasks, ipc
      ensures Rep() && st == PopWaiter(old(st), i)
    {
      hide Linked, LinksNow, SemsShown, MqsShown, Inv, Unqueued;
      ghost var t := st.sems[i].waiters[0];
      PoppedUnqueued(tasks, LinksNow(), st, SemQ(i));
      var task := PopFirst(sem.wait, SemQ(i));
      ghost var popped := st;
      SetTask(task, Ready, User, t);
      UnqueuedStays(popped, st, t);
      EnqueueReady(task, t);
    }

    method SemPost(id: int) returns (out: Outcome)
      requires Rep()
      modifies this, tasks, ipc
      ensures Rep() && Result(st, out) == SemPostStep(old(st), id)
    {
      hide Linked, LinksNow, ProcsShown, MqsShown, Unqueued;
      if id < 0 || id >= semCount { return Return(-1); }
      var sem, i := FindSemaphore(id);
      if sem == null { return Return(-1); }
      Ends(tasks, LinksNow(), st, SemQ(i));
      if sem.wait.head != null {
        WakeWaiter(sem, i);
      } else {
        WriteSem(sem, sem.id, sem.value + 1, i);
      }
      return Return(0);
    }

    method WakeAllWaiters(sem: Semaphore, ghost i: SemSlot)
      requires Rep() && sem == sems[i]
      modifies this, tasks, ipc
      ensures Rep() && st == DrainSem(old(st), i)
    {
      hide Linked, LinksNow, Scalars, PopWaiter;
      Ends(tasks, LinksNow(), st, SemQ(i));
      while sem.wait.head != null
        invariant Rep() && DrainSem(st, i) == DrainSem(old(st), i)
        invariant sem.wait.head == null <==> st.sems[i].waiters == []
        decreases |st.sems[i].waiters|
      {
        DrainOne(st, i);
        WakeWaiter(sem, i);
        Ends(tasks, LinksNow(), st, SemQ(i));
      }
    }

    method SemDestroy(id: int) returns (out: Outcome)
      requires Rep()
      modifies this, tasks, ipc
      ensures Rep() && Result(st, out) == SemDestroyStep(old(st), id)
    {
      hide Linked, LinksNow, ProcsShown, SemsShown, MqsShown, DrainSem;
      if id < 0 { return Return(-1); }
      var sem, i := FindSemaphore(id);
      if sem == null { return Return(-1); }
      WakeAllWaiters(sem, i);
      Clear(sem.wait, SemQ(i));
      WriteSem(sem, -1, 0, i);
      return Return(0);
    }

    // -------------------------------------------------------------- message queues, kernel/ipc.c

    method FindQueue(id: int) returns (mq: MsgQueue?, m: nat)
      requires Rep()
      ensures m == FindMq(st.mqs, id) && (mq == null <==> m == MAX_MSGQUEUES) && (mq != null ==> mq == mqs[m])
    {
      hide Linked, ProcsShown, SemsShown;
      for k := 0 to MAX_MSGQUEUES
        invariant forall j: MqSlot | j < k :: st.mqs[j].id != id
      {
        if mqs[k].id == id { return mqs[k], k; }
      }
      return null, MAX_MSGQUEUES;
    }

    /** A fresh start for a slot: identifier `id`, and an empty ring buffer. */
    method ResetQueue(mq: MsgQueue, id: int, ghost m: MqSlot)
      requires Rep() && mq == mqs[m]
      modifies mq`id, mq`head, mq`tail, mq`count, this`st
      ensures Rep() && st == old(st).(mqs := old(st).mqs[m := old(st).mqs[m].(id := id, msgs := [])])
    {
      hide Linked, LinksNow, ProcsShown, SemsShown;
      mq.id, mq.head, mq.tail, mq.count := id, 0, 0, 0;
      st := st.(mqs := st.mqs[m := st.mqs[m].(id := id, msgs := [])]);
      SameQueues(tasks, LinksNow(), old(st), st);
    }

    method StartQueue(mq: MsgQueue, id: int, ghost m: MqSlot)
      requires Rep() && mq == mqs[m]
      modifies this`st, ipc
      ensures Rep() && st == old(st).(mqs := old(st).mqs[m := Mq(id, [], [], [])])
    {
      hide Linked, LinksNow, Scalars;
      ResetQueue(mq, id, m);
      Clear(mq.receivers, RecvQ(m));
      Clear(mq.senders, SendQ(m));
    }

    method CountMq()
      requires Rep()
      modifies this`mqCount, this`st
      ensures Rep() && st == old(st).(mqCount := old(st).mqCount + 1)
    {
      hide Linked, LinksNow, ProcsShown, SemsShown, MqsShown;
      mqCount := mqCount + 1;
      st := st.(mqCount := st.mqCount + 1);
      SameQueues(tasks, LinksNow(), old(st), st);
    }

    method MsgQueueCreate() returns (out: Outcome)
      requires Rep()
      modifies this, ipc
      ensures Rep() && Result(st, out) == MqCreateStep(old(st))
    {
      hide Linked, LinksNow, ProcsShown, SemsShown;
      for k := 0 to MAX_MSGQUEUES
        invariant Rep() && st == old(st)
        invariant forall j: MqSlot | j < k :: st.mqs[j].id >= 0
      {
        if mqs[k].id < 0 {
          StartQueue(mqs[k], mqCount, k);
          out := Return(mqCount);
          CountMq();
          return;
        }
      }
      return Return(-1);
    }

    method PutMessage(mq: MsgQueue, msg: Msg, ghost m: MqSlot)
      requires Rep() && mq == mqs[m] && |st.mqs[m].msgs| < MSGQUEUE_SIZE
      modifies mq`tail, mq`count, mq.msgs, this`st
      ensures Rep() && st == old(st).(mqs := old(st).mqs[m := old(st).mqs[m].(msgs := old(st).mqs[m].msgs + [msg])])
    {
      hide Linked, LinksNow, ProcsShown, SemsShown, MsgQueue.Ring;
      mq.Put(msg, st.mqs[m].msgs);
      st := st.(mqs := st.mqs[m := st.mqs[m].(msgs := st.mqs[m].msgs + [msg])]);
      SameQueues(tasks, LinksNow(), old(st), st);
    }

    method TakeMessage(mq: MsgQueue, ghost m: MqSlot) returns (msg: Msg)
      requires Rep() && mq == mqs[m] && st.mqs[m].msgs != []
      modifies mq`head, mq`count, this`st
      ensures Rep() && msg == old(st).mqs[m].msgs[0]
      ensures st == old(st).(mqs := old(st).mqs[m := old(st).mqs[m].(msgs := old(st).mqs[m].msgs[1..])])
    {
      hide Linked, LinksNow, ProcsShown, SemsShown, MsgQueue.Ring;
      msg := mq.Take(st.mqs[m].msgs);
      st := st.(mqs := st.mqs[m := st.mqs[m].(msgs := st.mqs[m].msgs[1..])]);
      SameQueues(tasks, LinksNow(), old(st), st);
    }

    /** Pops the first receiver and wakes it; it will test the queue again. */
    method WakeReceiver(mq: MsgQueue, ghost m: MqSlot)
      requires Rep() && mq == mqs[m] && st.mqs[m].receivers != [] && mq.receivers.head != null
      modifies this, tasks, ipc
      ensures Rep() && st == PopReceiver(old(st), m)
    {
      hide Linked, LinksNow, SemsShown, MqsShown, Unqueued;
      ghost var t := st.mqs[m].receivers[0];
      PoppedUnqueued(tasks, LinksNow(), st, RecvQ(m));
      var task := PopFirst(mq.receivers, RecvQ(m));
      ghost var popped := st;
      SetTask(task, Ready, task.pending, t);
      UnqueuedStays(popped, st, t);
      EnqueueReady(task, t);
    }

    method WakeSender(mq: MsgQueue, ghost m: MqSlot)
      requires Rep() && mq == mqs[m] && st.mqs[m].senders != [] && mq.senders.head != null
      modifies this, tasks, ipc
      ensures Rep() && st == PopSender(old(st), m)
    {
      hide Linked, LinksNow, SemsShown, MqsShown, Unqueued;
      ghost var t := st.mqs[m].senders[0];
      PoppedUnqueued(tasks, LinksNow(), st, SendQ(m));
      var task := PopFirst(mq.senders, SendQ(m));
      ghost var popped := st;
      SetTask(task, Ready, task.pending, t);
      UnqueuedStays(popped, st, t);
      EnqueueReady(task, t);
    }

    /** One round of the loop of msg_queue_send and, if it does not block, what follows it. */
    method SendRound(mq: MsgQueue, m: MqSlot, data: Msg) returns (out: Outcome)
      requires Rep() && Inv(st) && mq == mqs[m] && st.procs[st.cur].state == Running
      modifies this, tasks, ipc
      ensures Rep() && Result(st, out) == TrySend(old(st), m, data)
    {
      hide Linked, LinksNow, ProcsShown, SemsShown, Inv, Unqueued;
      ghost var me := st.cur;
      if mq.count >= MSGQUEUE_SIZE {
        RunningUnqueued(st);
        SetTask(currentTask, Blocked, Send(m, data), me);
        UnqueuedStays(old(st), st, me);
        Append(mq.senders, currentTask, SendQ(m), me);
        return Slept;
      }
      SetTask(currentTask, Running, User, me);
      PutMessage(mq, data, m);
      Ends(tasks, LinksNow(), st, RecvQ(m));
      if mq.receivers.head != null {
        WakeReceiver(mq, m);
      }
      return Return(0);
    }

    /** One round of the loop of msg_queue_recv and, if it does not block, what follows it. */
    method RecvRound(mq: MsgQueue, m: MqSlot) returns (out: Outcome)
      requires Rep() && Inv(st) && mq == mqs[m] && st.procs[st.cur].state == Running
      modifies this, tasks, ipc
      ensures Rep() && Result(st, out) == TryRecv(old(st), m)
    {
      hide Linked, LinksNow, ProcsShown, SemsShown, Inv, Unqueued;
      ghost var me := st.cur;
      if mq.count <= 0 {
        RunningUnqueued(st);
        SetTask(currentTask, Blocked, Recv(m), me);
        UnqueuedStays(old(st), st, me);
        Append(mq.receivers, currentTask, RecvQ(m), me);
        return Slept;
      }
      SetTask(currentTask, Running, User, me);
      var msg := TakeMessage(mq, m);
      Ends(tasks, LinksNow(), st, SendQ(m));
      if mq.senders.head != null {
        WakeSender(mq, m);
      }
      return Received(msg);
    }

    method MsgQueueSend(id: int, data: Msg) returns (out: Outcome)
      requires Rep() && Inv(st) && st.procs[st.cur].state == Running
      modifies this, tasks, ipc
      ensures Rep() && Result(st, out) == MqSendStep(old(st), id, data)
    {
      hide Rep, Inv, TrySend;
      if id < 0 { return Return(-1); }
      var mq, m := FindQueue(id);
      if mq == null { return Return(-1); }
      out := SendRound(mq, m, Cut(data));
    }

    method MsgQueueRecv(id: int) returns (out: Outcome)
      requires Rep() && Inv(st) && st.procs[st.cur].state == Running
      modifies this, tasks, ipc
      ensures Rep() && Result(st, out) == MqRecvStep(old(st), id)
    {
      hide Rep, Inv, TryRecv;
      if id < 0 { return Return(-1); }
      var mq, m := FindQueue(id);
      if mq == null { return Return(-1); }
      out := RecvRound(mq, m);
    }

    method WakeAllReceivers(mq: MsgQueue, ghost m: MqSlot)
      requires Rep() && mq == mqs[m]
      modifies this, tasks, ipc
      ensures Rep() && st == DrainReceivers(old(st), m)
    {
      hide Linked, LinksNow, Scalars, PopReceiver;
      Ends(tasks, LinksNow(), st, RecvQ(m));
      while mq.receivers.head != null
        invariant Rep() && DrainReceivers(st, m) == DrainReceivers(old(st), m)
        invariant mq.receivers.head == null <==> st.mqs[m].receivers == []
        decreases |st.mqs[m].receivers|
      {
        DrainOneReceiver(st, m);
        WakeReceiver(mq, m);
        Ends(tasks, LinksNow(), st, RecvQ(m));
      }
    }

    method WakeAllSenders(mq: MsgQueue, ghost m: MqSlot)
      requires Rep() && mq == mqs[m]
      modifies this, tasks, ipc
      ensures Rep() && st == DrainSenders(old(st), m)
    {
      hide Linked, LinksNow, Scalars, PopSender;
      Ends(tasks, LinksNow(), st, SendQ(m));
      while mq.senders.head != null
        invariant Rep() && DrainSenders(st, m) == DrainSenders(old(st), m)
        invariant mq.senders.head == null <==> st.mqs[m].senders == []
        decreases |st.mqs[m].senders|
      {
        DrainOneSender(st, m);
        WakeSender(mq, m);
        Ends(tasks, LinksNow(), st, SendQ(m));
      }
    }

    method MsgQueueDestroy(id: int) returns (out: Outcome)
      requires Rep()
      modifies this, tasks, ipc
      ensures Rep() && Result(st, out) == MqDestroyStep(old(st), id)
    {
      hide Rep, DrainReceivers, DrainSenders;
      if id < 0 { return Return(-1); }
      var mq, m := FindQueue(id);
      if mq == null { return Return(-1); }
      WakeAllReceivers(mq, m);
      WakeAllSenders(mq, m);
      StartQueue(mq, -1, m);
      return Return(0);
    }

    /** The running task goes on where it blocked. */
    method Continue() returns (out: Outcome)
      requires Rep() && Inv(st) && Enabled(st, Resume)
      modifies this, tasks, ipc
      ensures Rep() && Result(st, out) == ResumeStep(old(st))
    {
      hide Linked, LinksNow, SemsShown, MqsShown, Inv, TrySend, TryRecv, WaitStep;
      match currentTask.pending
      case Recv(m) => out := RecvRound(mqs[m], m);
      case Send(m, data) => out := SendRound(mqs[m], m, data);
      case Wait(pid) => out := TaskWait(pid);
    }

    /** Any section, by name: the tables go through exactly the run that KernelRuns reasons about. */
    method Perform(e: Event) returns (out: Outcome)
      requires Rep() && Inv(st) && Enabled(st, e) && Safe(st, e)
      modifies this, tasks, ipc
      ensures Rep() && Inv(st) && Result(st, out) == Step(old(st), e)
    {
      hide Rep, Inv, Safe, ForkStep, ExitStep, WaitStep, SemCreateStep, SemWaitStep, SemPostStep, SemDestroyStep;
      hide MqCreateStep, MqSendStep, MqRecvStep, MqDestroyStep, ResumeStep, TickStep;
      StepKeepsInvIffSafe(st, e);
      ReadyIsIpc();
      match e
      case Tick => SchedulerTick(); out := Switched;
      case Fork => out := TaskFork();
      case Exit(code) => TaskExit(code); out := Slept;
      case WaitFor(pid) => out := TaskWait(pid);
      case SemCreate(init) => out := this.SemCreate(init);
      case SemWait(id) => out := this.SemWait(id);
      case SemPost(id) => out := this.SemPost(id);
      case SemDestroy(id) => out := this.SemDestroy(id);
      case MqCreate => out := MsgQueueCreate();
      case MqSend(id, data) => out := MsgQueueSend(id, data);
      case MqRecv(id) => out := MsgQueueRecv(id);
      case MqDestroy(id) => out := MsgQueueDestroy(id);
      case Resume => out := Continue();
    }

    lemma ReadyIsIpc()
      requires Rep()
      ensures ready in ipc
    {
    }
  }

  /** scheduler_init and ipc_init over the zeroed tables. */
  method BootKernel() returns (k: Kernel)
    ensures fresh(k) && fresh(k.tasks) && fresh(k.ipc) && k.Rep() && k.st == Boot
  {
    hide TasksBooted, SemsBooted, MqsBooted, Kernel.Rep;
    var r := new TaskList(ReadyQ);
    var ts := BootTasks();
    var ss, semLists, semObjects := BootSems();
    var ms, mqLists, mqObjects := BootQueues();
    k := new Kernel(ts, ss, ms, r, semLists, semObjects, mqLists, mqObjects);
  }

  // ---------------------------------------------------------------- the shared links, as values

  ghost function Queues(): (qs: set<Place>)
    ensures forall q: Place :: q in qs <==> q.IsQueue()
  {
    {ReadyQ} + (set i: SemSlot | 0 <= i < MAX_SEMS :: SemQ(i))
    + (set m: MqSlot | 0 <= m < MAX_MSGQUEUES :: RecvQ(m)) + (set m: MqSlot | 0 <= m < MAX_MSGQUEUES :: SendQ(m))
  }

  /** The `next` links by slot, and the two ends of every queue. */
  datatype Links = Links(nexts: seq<Task?>, heads: map<Place, Task?>, tails: map<Place, Task?>) {
    ghost predicate Complete() {
      |nexts| == MAX_TASKS && forall q: Place | q.IsQueue() :: q in heads && q in tails
    }
  }

  /** The links run through the tasks of `q` in order and stop. */
  ghost predicate Chain(tasks: seq<Task>, nexts: seq<Task?>, q: seq<TaskSlot>, head: Task?, tail: Task?)
    requires |tasks| == |nexts| == MAX_TASKS
  {
    && (q == [] ==> head == null && tail == null)
    && (q != [] ==> head == tasks[q[0]] && tail == tasks[q[|q| - 1]])
    && forall k | 0 <= k < |q| :: nexts[q[k]] == if k + 1 < |q| then tasks[q[k + 1]] else null
  }

  ghost predicate Separate(s: Sys) {
    && (forall q: Place | q.IsQueue() :: NoDup(On(s, q)))
    && (forall q: Place, r: Place, t: TaskSlot | q.IsQueue() && r.IsQueue() && q != r && t in On(s, q) :: t !in On(s, r))
  }

  ghost predicate Unqueued(s: Sys, t: TaskSlot) {
    forall q: Place | q.IsQueue() :: t !in On(s, q)
  }

  /** Every queue of `s` is one chain of the links, and no two of them meet. */
  ghost predicate Linked(tasks: seq<Task>, l: Links, s: Sys)
    requires |tasks| == MAX_TASKS && l.Complete()
  {
    && Separate(s)
    && forall q: Place | q.IsQueue() :: Chain(tasks, l.nexts, On(s, q), l.heads[q], l.tails[q])
  }

  /** Only the queues matter to the links. */
  lemma SameQueues(tasks: seq<Task>, l: Links, s: Sys, s': Sys)
    requires |tasks| == MAX_TASKS && l.Complete() && Linked(tasks, l, s)
    requires s'.ready == s.ready
    requires forall i: SemSlot :: s'.sems[i].waiters == s.sems[i].waiters
    requires forall m: MqSlot :: s'.mqs[m].receivers == s.mqs[m].receivers && s'.mqs[m].senders == s.mqs[m].senders
    ensures Linked(tasks, l, s')
    ensures forall t: TaskSlot :: Unqueued(s, t) ==> Unqueued(s', t)
  {
    hide Chain, NoDup;
    assert forall q: Place | q.IsQueue() :: On(s', q) == On(s, q);
  }

  lemma HomelessUnqueued(s: Sys, t: TaskSlot)
    requires Inv(s) && !Home(s.procs[t]).IsQueue()
    ensures Unqueued(s, t)
  {
    forall q: Place | q.IsQueue() ensures t !in On(s, q) { assert Holds(s, q); }
  }

  lemma FreeSlotUnqueued(s: Sys)
    requires Inv(s) && FreeSlot(s.procs) < MAX_TASKS
    ensures Unqueued(s, FreeSlot(s.procs))
  {
    HomelessUnqueued(s, FreeSlot(s.procs));
  }

  lemma PoppedUnqueued(tasks: seq<Task>, l: Links, s: Sys, q: Place)
    requires |tasks| == MAX_TASKS && l.Complete() && Linked(tasks, l, s)
    requires q.IsQueue() && On(s, q) != []
    ensures Unqueued(WithQueue(s, q, On(s, q)[1..]), On(s, q)[0])
  {
    hide WithQueue, On, Chain;
    var s', t := WithQueue(s, q, On(s, q)[1..]), On(s, q)[0];
    assert t in On(s, q) && NoDup(On(s, q));
    forall r: Place | r.IsQueue() ensures t !in On(s', r) { }
  }

  lemma DrainOne(s: Sys, i: SemSlot)
    requires s.sems[i].waiters != []
    ensures DrainSem(PopWaiter(s, i), i) == DrainSem(s, i)
    ensures |PopWaiter(s, i).sems[i].waiters| == |s.sems[i].waiters| - 1 && PopWaiter(s, i).cur == s.cur
  {
  }

  lemma DrainOneReceiver(s: Sys, m: MqSlot)
    requires s.mqs[m].receivers != []
    ensures DrainReceivers(PopReceiver(s, m), m) == DrainReceivers(s, m)
    ensures |PopReceiver(s, m).mqs[m].receivers| == |s.mqs[m].receivers| - 1
  {
  }

  lemma DrainOneSender(s: Sys, m: MqSlot)
    requires s.mqs[m].senders != []
    ensures DrainSenders(PopSender(s, m), m) == DrainSenders(s, m)
    ensures |PopSender(s, m).mqs[m].senders| == |s.mqs[m].senders| - 1
  {
  }

  lemma UnqueuedStays(s: Sys, s': Sys, t: TaskSlot)
    requires Unqueued(s, t) && s'.ready == s.ready && s'.sems == s.sems && s'.mqs == s.mqs
    ensures Unqueued(s', t)
  {
    assert forall q: Place | q.IsQueue() :: On(s', q) == On(s, q);
  }

  lemma SleepingParentUnqueued(s: Sys, s1: Sys, code: int, p: TaskSlot)
    requires Inv(s) && Enabled(s, Exit(code)) && Safe(s, Exit(code)) && s1 == Died(s, code)
    requires s.procs[s.cur].parent >= 0 && p == FromPid(s1.procs, s.procs[s.cur].parent) && s1.procs[p].state == Blocked
    ensures Unqueued(s, p)
  {
    HomelessUnqueued(s, p);
  }

  lemma RunningUnqueued(s: Sys)
    requires Inv(s) && s.procs[s.cur].state != Zombie && s.procs[s.cur].state != Blocked
    ensures Unqueued(s, s.cur)
  {
    HomelessUnqueued(s, s.cur);
  }

  lemma AllEmpty(tasks: seq<Task>, l: Links, s: Sys)
    requires |tasks| == MAX_TASKS && l.Complete()
    requires forall q: Place | q.IsQueue() :: On(s, q) == [] && l.heads[q] == null && l.tails[q] == null
    ensures Linked(tasks, l, s)
  {
  }

  lemma FrameChain(tasks: seq<Task>, nexts: seq<Task?>, nexts': seq<Task?>, q: seq<TaskSlot>, head: Task?, tail: Task?)
    requires |tasks| == |nexts| == |nexts'| == MAX_TASKS && Chain(tasks, nexts, q, head, tail)
    requires forall t <- q :: nexts'[t] == nexts[t]
    ensures Chain(tasks, nexts', q, head, tail)
  {
  }

  lemma ExtendChain(tasks: seq<Task>, nexts: seq<Task?>, nexts': seq<Task?>, q: seq<TaskSlot>, head: Task?, tail: Task?,
                    t: TaskSlot)
    requires |tasks| == |nexts| == |nexts'| == MAX_TASKS && (forall u: TaskSlot :: tasks[u].slot == u)
    requires Chain(tasks, nexts, q, head, tail) && NoDup(q) && t !in q
    requires forall u: TaskSlot ::
      nexts'[u] == (if u == t then null else if tasks[u] == tail then tasks[t] else nexts[u])
    ensures Chain(tasks, nexts', q + [t], if tail == null then tasks[t] else head, tasks[t])
    ensures NoDup(q + [t])
  {
    assert forall k | 0 <= k < |q| :: tasks[q[k]] == tail <==> k == |q| - 1;
  }

  lemma BeheadChain(tasks: seq<Task>, nexts: seq<Task?>, nexts': seq<Task?>, q: seq<TaskSlot>, head: Task?, tail: Task?,
                    rest: seq<TaskSlot>)
    requires |tasks| == |nexts| == |nexts'| == MAX_TASKS
    requires Chain(tasks, nexts, q, head, tail) && NoDup(q) && q != [] && rest == q[1..]
    requires forall t: TaskSlot | t != q[0] :: nexts'[t] == nexts[t]
    ensures Chain(tasks, nexts', rest, nexts[q[0]], if nexts[q[0]] == null then null else tail)
    ensures NoDup(rest)
  {
    assert nexts[q[0]] == if 1 < |q| then tasks[q[1]] else null;
    assert forall k | 0 <= k < |rest| :: 
      rest[k] == q[k + 1] && q[k + 1] != q[0] && nexts[rest[k]] == (if k + 2 < |q| then tasks[q[k + 2]] else null);
  }

  lemma ChainHead(tasks: seq<Task>, nexts: seq<Task?>, q: seq<TaskSlot>, head: Task?, tail: Task?)
    requires |tasks| == |nexts| == MAX_TASKS && Chain(tasks, nexts, q, head, tail) && q != []
    ensures nexts[q[0]] == (if |q| > 1 then tasks[q[1]] else null)
  {
    assert nexts[q[0]] == if 0 + 1 < |q| then tasks[q[0 + 1]] else null;
  }

  lemma Ends(tasks: seq<Task>, l: Links, s: Sys, q: Place)
    requires |tasks| == MAX_TASKS && l.Complete() && Linked(tasks, l, s) && q.IsQueue()
    ensures var ts := On(s, q);
      if ts == [] then l.heads[q] == null && l.tails[q] == null
      else l.heads[q] == tasks[ts[0]] && l.tails[q] == tasks[ts[|ts| - 1]]
           && l.nexts[ts[0]] == (if |ts| > 1 then tasks[ts[1]] else null)
  {
    var ts := On(s, q);
    if ts != [] { ChainHead(tasks, l.nexts, ts, l.heads[q], l.tails[q]); }
  }

  ghost function WithQueue(s: Sys, q: Place, ts: seq<TaskSlot>): (s': Sys)
    requires q.IsQueue()
    ensures On(s', q) == ts && forall r: Place | r.IsQueue() && r != q :: On(s', r) == On(s, r)
  {
    match q
    case ReadyQ => s.(ready := ts)
    case SemQ(i) => s.(sems := s.sems[i := s.sems[i].(waiters := ts)])
    case RecvQ(m) => s.(mqs := s.mqs[m := s.mqs[m].(receivers := ts)])
    case SendQ(m) => s.(mqs := s.mqs[m := s.mqs[m].(senders := ts)])
  }

  /** Only the ends of queue `q` change. */
  ghost predicate OnlyQueue(l: Links, l': Links, q: Place)
    requires l.Complete() && l'.Complete()
  {
    q.IsQueue() && forall r: Place | r.IsQueue() && r != q :: l'.heads[r] == l.heads[r] && l'.tails[r] == l.tails[r]
  }

  /** Task `t` has been linked in at the tail of queue `q`, and nothing else was relinked. */
  lemma LinkedIn(tasks: seq<Task>, s: Sys, s': Sys, l: Links, l': Links, q: Place, t: TaskSlot)
    requires |tasks| == MAX_TASKS && (forall u: TaskSlot :: tasks[u].slot == u)
    requires l.Complete() && l'.Complete() && Linked(tasks, l, s) && OnlyQueue(l, l', q)
    requires Unqueued(s, t) && s' == WithQueue(s, q, On(s, q) + [t])
    requires l'.tails[q] == tasks[t] && l'.heads[q] == (if l.tails[q] == null then tasks[t] else l.heads[q])
    requires forall u: TaskSlot ::
      l'.nexts[u] == (if u == t then null else if tasks[u] == l.tails[q] then tasks[t] else l.nexts[u])
    ensures Linked(tasks, l', s')
  {
    hide On, NoDup, WithQueue;
    ExtendChain(tasks, l.nexts, l'.nexts, On(s, q), l.heads[q], l.tails[q], t);
    forall r: Place | r.IsQueue() && r != q ensures Chain(tasks, l'.nexts, On(s', r), l'.heads[r], l'.tails[r]) {
      FrameChain(tasks, l.nexts, l'.nexts, On(s, r), l.heads[r], l.tails[r]);
    }
  }

  /** The head of queue `q` has been unlinked, and nothing else was relinked. */
  lemma Unlinked(tasks: seq<Task>, s: Sys, s': Sys, l: Links, l': Links, q: Place)
    requires |tasks| == MAX_TASKS
    requires l.Complete() && l'.Complete() && Linked(tasks, l, s) && OnlyQueue(l, l', q)
    requires On(s, q) != [] && s' == WithQueue(s, q, On(s, q)[1..])
    requires l'.heads[q] == l.nexts[On(s, q)[0]] && l'.tails[q] == (if l'.heads[q] == null then null else l.tails[q])
    requires forall u: TaskSlot | u != On(s, q)[0] :: l'.nexts[u] == l.nexts[u]
    ensures Linked(tasks, l', s')
  {
    hide On, NoDup, WithQueue;
    BeheadChain(tasks, l.nexts, l'.nexts, On(s, q), l.heads[q], l.tails[q], On(s', q));
    forall r: Place | r.IsQueue() && r != q ensures Chain(tasks, l'.nexts, On(s', r), l'.heads[r], l'.tails[r]) {
      FrameChain(tasks, l.nexts, l'.nexts, On(s, r), l.heads[r], l.tails[r]);
    }
  }

  lemma Cleared(tasks: seq<Task>, s: Sys, s': Sys, l: Links, l': Links, q: Place)
    requires |tasks| == MAX_TASKS
    requires l.Complete() && l'.Complete() && Linked(tasks, l, s) && OnlyQueue(l, l', q)
    requires s' == WithQueue(s, q, []) && l'.heads[q] == null && l'.tails[q] == null && l'.nexts == l.nexts
    ensures Linked(tasks, l', s')
  {
    hide On, NoDup, WithQueue;
    EmptyNoDup(On(s', q));
    assert Chain(tasks, l'.nexts, On(s', q), l'.heads[q], l'.tails[q]);
  }

  lemma EmptyNoDup(q: seq<TaskSlot>)
    requires q == []
    ensures NoDup(q)
  {
  }
}
