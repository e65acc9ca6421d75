/** The scheduler together with the address spaces: what task_fork, task_wait, new pages and stores of user
    code do over whole runs, in any interleaving of the tasks. */
module Processes {
  import opened Wrappers
  import opened KernelSpec
  import opened KernelInvariant
  import KernelRuns
  import Paging = PagingSpec
  import PagingVia
  import PagingBoot
  import PagingDevices
  import opened PagingSpaces

  /** The process table and memory; the running task's directory is the active one. */
  datatype World = World(sys: Sys, spaces: Spaces)

  /** A section of the kernel, entered with the registers `regs`; paging_alloc_page for page
      `x` of the running task; or a store by the running task's user code, or by the kernel into its buffer
      during a system call, after which page `x` holds `w`. */
  datatype Act = Section(e: Event, regs: Registers) | Grow(x: nat) | Store(x: nat, w: Paging.Words)

  predicate Forks(s: Sys, e: Event) { e == Fork && FreeSlot(s.procs) < MAX_TASKS }

  function Sought(s: Sys, e: Event): int {
    match e
    case WaitFor(pid) => pid
    case _ => if s.procs[s.cur].pending.Wait? then s.procs[s.cur].pending.pid else -1
  }

  /** The slot that task_wait frees, or the length of the table. */
  function Reaped(s: Sys, e: Event): nat {
    if KernelRuns.Collects(s, e) then ZombieChild(s.procs, s.procs[s.cur].pid, Sought(s, e)) else MAX_TASKS
  }

  ghost predicate Permitted(w: World, kernelEnd: nat, a: Act) {
    && w.sys.cur in w.spaces.dirs && Paging.TablesInMemory(w.spaces.pool.mem, w.spaces.dirs[w.sys.cur])
    && match a
       case Section(e, _) => Enabled(w.sys, e) && Safe(w.sys, e)
       case Grow(x) =>
         && w.sys.procs[w.sys.cur].state == Running && x < Paging.LIMIT
         && MayGrow(w.spaces.pool.mem, w.spaces.dirs[w.sys.cur], kernelEnd, x)
       case Store(_, _) => w.sys.procs[w.sys.cur].state == Running
  }

  /** One step; None where the kernel panics or user code faults. */
  ghost function Acted(w: World, kernelEnd: nat, a: Act): Option<World>
    requires Permitted(w, kernelEnd, a)
  {
    match a
    case Section(e, regs) =>
      var sys := Step(w.sys, e).s;
      if Forks(w.sys, e) then
        match Forked(w.spaces, w.sys.cur, FreeSlot(w.sys.procs), kernelEnd, regs)
        case None => None
        case Some(s) => Some(World(sys, s))
      else if Reaped(w.sys, e) < MAX_TASKS then Some(World(sys, Collected(w.spaces, Reaped(w.sys, e))))
      else Some(World(sys, w.spaces))
    case Grow(x) =>
      (match Grown(w.spaces, w.sys.cur, x)
       case None => None
       case Some(s) => Some(w.(spaces := s)))
    case Store(x, v) =>
      match Stored(w.spaces, w.sys.cur, x, v)
      case None => None
      case Some(s) => Some(w.(spaces := s))
  }

  /** Every task has an address space, and nobody else has; a kernel stack belongs to a task. */
  ghost predicate Good(w: World, kernelEnd: nat) {
    && Inv(w.sys) && Ok(w.spaces, kernelEnd)
    && (forall t: TaskSlot :: t in w.spaces.dirs <==> Occupied(w.sys.procs[t]))
    && (forall t | t in w.spaces.dirs :: t < MAX_TASKS) && (forall t | t in w.spaces.stacks :: t in w.spaces.dirs)
  }

  // ---------------------------------------------------------------- tasks with memories of their own

  /** The same without page tables: each task has a memory of its own. */
  datatype Flat = Flat(sys: Sys, mems: map<nat, Private>)

  ghost function FlatOf(w: World, kernelEnd: nat): Flat
    requires Good(w, kernelEnd)
  {
    Flat(w.sys, Views(w.spaces, kernelEnd))
  }

  /** A fork copies the parent's memory, task_wait drops that of the child it collects, a new page holds
      `junk`, a store changes one page of the running task. */
  function FlatAct(f: Flat, kernelEnd: nat, a: Act, junk: Paging.Words): Flat
    requires f.sys.cur in f.mems && (a.Section? ==> Enabled(f.sys, a.e))
  {
    var me := f.sys.cur;
    match a
    case Section(e, _) =>
      Flat(Step(f.sys, e).s,
           if Forks(f.sys, e) then f.mems[FreeSlot(f.sys.procs) := f.mems[me]]
           else if Reaped(f.sys, e) < MAX_TASKS then f.mems - {Reaped(f.sys, e)}
           else f.mems)
    case Grow(x) => f.(mems := f.mems[me := if Ownable(kernelEnd, x) then With(f.mems[me], x, junk) else f.mems[me]])
    case Store(x, v) => f.(mems := f.mems[me := if x in f.mems[me] then With(f.mems[me], x, v) else f.mems[me]])
  }

  /** What the frame held that a new page would get. */
  function Junk(w: World): Paging.Words {
    if w.spaces.pool.free == [] then Paging.Zeroed() else w.spaces.pool.mem[Top(w.spaces.pool)]
  }

  // ---------------------------------------------------------------- one step

  lemma ForkSlots(s: Sys, t: TaskSlot)
    requires s.nextPid >= 0
    ensures FreeSlot(s.procs) < MAX_TASKS ==> !Occupied(s.procs[FreeSlot(s.procs)])
    ensures Occupied(ForkStep(s).s.procs[t]) <==> Occupied(s.procs[t]) || t == FreeSlot(s.procs)
  {
  }

  lemma WaitSlots(s: Sys, pid: int, t: TaskSlot)
    ensures var z := ZombieChild(s.procs, s.procs[s.cur].pid, pid);
      && (z < MAX_TASKS ==> Occupied(s.procs[z]) && s.procs[z].state == Zombie)
      && (Occupied(WaitStep(s, pid).s.procs[t]) <==> Occupied(s.procs[t]) && t != z)
  {
  }

  lemma TickSlots(s: Sys, t: TaskSlot)
    ensures TickStep(s).procs[t].pid == s.procs[t].pid
  {
  }

  lemma RoundSlots(s: Sys, e: Event, t: TaskSlot)
    requires Enabled(s, e) && !KernelRuns.Collects(s, e)
    requires e.Exit? || e.SemWait? || e.SemPost? || e.MqSend? || e.MqRecv? || e == Resume
    ensures Step(s, e).s.procs[t].pid == s.procs[t].pid
  {
  }

  /** Slots are taken by forks and freed by task_wait, and not otherwise. */
  lemma SlotsAfter(s: Sys, e: Event, t: TaskSlot)
    requires Enabled(s, e) && s.nextPid >= 0
    ensures Forks(s, e) ==> Reaped(s, e) == MAX_TASKS && !Occupied(s.procs[FreeSlot(s.procs)])
    ensures Reaped(s, e) < MAX_TASKS ==> Occupied(s.procs[Reaped(s, e)])
    ensures Occupied(Step(s, e).s.procs[t]) <==>
      (Occupied(s.procs[t]) && t != Reaped(s, e)) || (Forks(s, e) && t == FreeSlot(s.procs))
  {
    match e
    case Tick => TickSlots(s, t);
    case Fork => ForkSlots(s, t);
    case WaitFor(pid) => WaitSlots(s, pid, t);
    case SemCreate(_) =>
    case MqCreate =>
    case SemDestroy(id) =>
      if FindSem(s.sems, id) < MAX_SEMS { KernelRuns.DrainSemKeepsPids(s, FindSem(s.sems, id)); }
    case MqDestroy(id) =>
      var m := FindMq(s.mqs, id);
      if m < MAX_MSGQUEUES {
        KernelRuns.DrainReceiversKeepsPids(s, m);
        KernelRuns.DrainSendersKeepsPids(DrainReceivers(s, m), m);
      }
    case _ =>
      if KernelRuns.Collects(s, e) { WaitSlots(s, Sought(s, e), t); } else { RoundSlots(s, e, t); }
  }

  lemma PidsAreNext(s: Sys)
    requires Inv(s)
    ensures s.nextPid >= 0
  {
  }

  lemma CurIsLive(w: World, kernelEnd: nat)
    requires Good(w, kernelEnd)
    ensures w.sys.cur in w.spaces.dirs && Paging.TablesInMemory(w.spaces.pool.mem, w.spaces.dirs[w.sys.cur])
  {
    hide Core, Pair, StacksOk, Queued;
    assert Occupied(w.sys.procs[w.sys.cur]);
    SaneTablesOf(w.spaces.pool, w.spaces.dirs[w.sys.cur], kernelEnd);
  }

  /** A step of the kernel or of user code is the step of separate memories. */
  lemma ActIsFlat(w: World, kernelEnd: nat, a: Act)
    requires Good(w, kernelEnd) && Permitted(w, kernelEnd, a) && Acted(w, kernelEnd, a).Some?
    ensures var w' := Acted(w, kernelEnd, a).value;
      Good(w', kernelEnd) && FlatOf(w', kernelEnd) == FlatAct(FlatOf(w, kernelEnd), kernelEnd, a, Junk(w))
  {
    hide Step, Inv, Enabled, Safe, Ok, Views, Forked, Collected, Reaped, Forks, MayGrow, Ownable, Uses, FrameAt,
      PagingVia.AllocPageVia, Paging.TablesInMemory;
    var w' := Acted(w, kernelEnd, a).value;
    match a
    case Section(e, regs) =>
      StepKeepsInvIffSafe(w.sys, e);
      PidsAreNext(w.sys);
      forall t: TaskSlot
        ensures Occupied(w'.sys.procs[t]) <==>
          (Occupied(w.sys.procs[t]) && t != Reaped(w.sys, e)) || (Forks(w.sys, e) && t == FreeSlot(w.sys.procs))
      {
        SlotsAfter(w.sys, e, t);
      }
      SlotsAfter(w.sys, e, 0);
      if Forks(w.sys, e) { ForksMeans(w.sys, e); }
      SectionIsFlat(w, kernelEnd, e, regs);
      assert forall t :: t in w'.spaces.dirs <==> t in w'.spaces.dirs.Keys;
    case Grow(x) => GrowIsFlat(w.spaces, w.sys.cur, x, kernelEnd);
    case Store(x, v) => StoreIsFlat(w.spaces, w.sys.cur, x, v, kernelEnd);
  }

  lemma SectionIsFlat(w: World, kernelEnd: nat, e: Event, regs: Registers)
    requires Good(w, kernelEnd) && Permitted(w, kernelEnd, Section(e, regs)) && Acted(w, kernelEnd, Section(e, regs)).Some?
    ensures var s, s' := w.spaces, Acted(w, kernelEnd, Section(e, regs)).value.spaces; var v := Views(s, kernelEnd);
      && Ok(s', kernelEnd)
      && (forall t | t in s'.stacks :: t in s'.dirs)
      && s'.dirs.Keys == s.dirs.Keys - {Reaped(w.sys, e)} + (if Forks(w.sys, e) then {FreeSlot(w.sys.procs)} else {})
      && Views(s', kernelEnd) ==
           if Forks(w.sys, e) then v[FreeSlot(w.sys.procs) := v[w.sys.cur]]
           else if Reaped(w.sys, e) < MAX_TASKS then v - {Reaped(w.sys, e)} else v
  {
    hide Step, Inv, Enabled, Safe, Ok, Views, Forked, Grown, Stored, Paging.TablesInMemory, Reaped, Forks;
    PidsAreNext(w.sys);
    SlotsAfter(w.sys, e, 0);
    if Forks(w.sys, e) {
      ForksMeans(w.sys, e);
      ForkIsFlat(w.spaces, w.sys.cur, FreeSlot(w.sys.procs), kernelEnd, regs);
    } else if Reaped(w.sys, e) < MAX_TASKS {
      CollectIsFlat(w.spaces, Reaped(w.sys, e), kernelEnd);
    }
  }

  lemma ForksMeans(s: Sys, e: Event)
    requires Forks(s, e)
    ensures FreeSlot(s.procs) < MAX_TASKS
  {
  }

  // ---------------------------------------------------------------- runs

  ghost predicate Runs(w: World, kernelEnd: nat, acts: seq<Act>)
    decreases |acts|
  {
    acts == [] ||
    (Permitted(w, kernelEnd, acts[0]) && Acted(w, kernelEnd, acts[0]).Some? &&
     Runs(Acted(w, kernelEnd, acts[0]).value, kernelEnd, acts[1..]))
  }

  ghost function Ran(w: World, kernelEnd: nat, acts: seq<Act>): World
    requires Runs(w, kernelEnd, acts)
    decreases |acts|
  {
    if acts == [] then w else Ran(Acted(w, kernelEnd, acts[0]).value, kernelEnd, acts[1..])
  }

  ghost function Junks(w: World, kernelEnd: nat, acts: seq<Act>): seq<Paging.Words>
    requires Runs(w, kernelEnd, acts)
    decreases |acts|
  {
    if acts == [] then [] else [Junk(w)] + Junks(Acted(w, kernelEnd, acts[0]).value, kernelEnd, acts[1..])
  }

  /** The separate memories go from `f` to `g`. */
  ghost predicate FlatRuns(f: Flat, kernelEnd: nat, acts: seq<Act>, junks: seq<Paging.Words>, g: Flat)
    decreases |acts|
  {
    if acts == [] then g == f
    else
      && junks != [] && f.sys.cur in f.mems && (acts[0].Section? ==> Enabled(f.sys, acts[0].e))
      && FlatRuns(FlatAct(f, kernelEnd, acts[0], junks[0]), kernelEnd, acts[1..], junks[1..], g)
  }

  /** Every run keeps the address spaces in order and is a run of separate memories. */
  lemma {:induction false} RunIsFlat(w: World, kernelEnd: nat, acts: seq<Act>)
    requires Good(w, kernelEnd) && Runs(w, kernelEnd, acts)
    ensures var w' := Ran(w, kernelEnd, acts);
      Good(w', kernelEnd) && FlatRuns(FlatOf(w, kernelEnd), kernelEnd, acts, Junks(w, kernelEnd, acts), FlatOf(w', kernelEnd))
    decreases |acts|
  {
    hide Good, Acted, Step, Enabled, Safe, MayGrow, FlatAct, Views, Junk;
    if acts != [] {
      var w1 := Acted(w, kernelEnd, acts[0]).value;
      ActIsFlat(w, kernelEnd, acts[0]);
      RunIsFlat(w1, kernelEnd, acts[1..]);
      FlatCur(w, kernelEnd);
      assert Junks(w, kernelEnd, acts)[1..] == Junks(w1, kernelEnd, acts[1..]);
    }
  }

  lemma FlatCur(w: World, kernelEnd: nat)
    requires Good(w, kernelEnd)
    ensures FlatOf(w, kernelEnd).sys == w.sys && FlatOf(w, kernelEnd).mems == Views(w.spaces, kernelEnd)
    ensures w.sys.cur in FlatOf(w, kernelEnd).mems
    ensures forall t :: t in w.spaces.dirs <==> t in FlatOf(w, kernelEnd).mems
  {
    hide Inv, Ok;
    CurIsLive(w, kernelEnd);
  }

  /** Task `t` stores, gets a page, or is collected. */
  predicate Touches(w: World, a: Act, t: TaskSlot) {
    match a
    case Section(e, _) => Reaped(w.sys, e) == t
    case _ => w.sys.cur == t
  }

  ghost predicate Untouched(w: World, kernelEnd: nat, acts: seq<Act>, t: TaskSlot)
    requires Runs(w, kernelEnd, acts)
    decreases |acts|
  {
    acts == [] || (!Touches(w, acts[0], t) && Untouched(Acted(w, kernelEnd, acts[0]).value, kernelEnd, acts[1..], t))
  }

  lemma FlatUntouched(f: Flat, kernelEnd: nat, a: Act, junk: Paging.Words, t: TaskSlot)
    requires f.sys.cur in f.mems && (a.Section? ==> Enabled(f.sys, a.e)) && t in f.mems
    requires if a.Section? then Reaped(f.sys, a.e) != t && !(Forks(f.sys, a.e) && FreeSlot(f.sys.procs) == t) else f.sys.cur != t
    ensures var g := FlatAct(f, kernelEnd, a, junk); t in g.mems && g.mems[t] == f.mems[t]
  {
    hide Step, Enabled, Reaped, Forks, First, Ownable;
  }

  lemma UntouchedStays(w: World, kernelEnd: nat, a: Act, t: TaskSlot)
    requires Good(w, kernelEnd) && Permitted(w, kernelEnd, a) && Acted(w, kernelEnd, a).Some?
    requires t in w.spaces.dirs && !Touches(w, a, t)
    ensures var w' := Acted(w, kernelEnd, a).value;
      Good(w', kernelEnd) && t in w'.spaces.dirs && Views(w'.spaces, kernelEnd)[t] == Views(w.spaces, kernelEnd)[t]
  {
    hide Good, Step, Enabled, Safe, MayGrow, Acted, Reaped, First, FlatAct, Views;
    ActIsFlat(w, kernelEnd, a);
    FlatCur(w, kernelEnd);
    FlatCur(Acted(w, kernelEnd, a).value, kernelEnd);
    if a.Section? { LiveIsNotForked(w, kernelEnd, a.e, t); }
    FlatUntouched(FlatOf(w, kernelEnd), kernelEnd, a, Junk(w), t);
  }

  lemma LiveIsNotForked(w: World, kernelEnd: nat, e: Event, t: TaskSlot)
    requires Good(w, kernelEnd) && Enabled(w.sys, e) && t in w.spaces.dirs
    ensures !(Forks(w.sys, e) && FreeSlot(w.sys.procs) == t)
  {
    hide Inv, Ok, Step, Enabled;
  }

  /** Whatever the other tasks do, in whatever order, a task's own pages keep their contents until it
      stores itself. */
  lemma {:induction false} Isolated(w: World, kernelEnd: nat, acts: seq<Act>, t: TaskSlot)
    requires Good(w, kernelEnd) && Runs(w, kernelEnd, acts) && t in w.spaces.dirs && Untouched(w, kernelEnd, acts, t)
    ensures var w' := Ran(w, kernelEnd, acts);
      Good(w', kernelEnd) && t in w'.spaces.dirs && Views(w'.spaces, kernelEnd)[t] == Views(w.spaces, kernelEnd)[t]
    decreases |acts|
  {
    hide Good, Acted, Permitted, Touches, Views;
    if acts != [] {
      UntouchedStays(w, kernelEnd, acts[0], t);
      Isolated(Acted(w, kernelEnd, acts[0]).value, kernelEnd, acts[1..], t);
    }
  }

  /** A child finds the memory that its parent had at the fork, whatever the parent and others have done
      before the child runs. */
  lemma ChildRemembers(w: World, kernelEnd: nat, regs: Registers, acts: seq<Act>)
    requires Good(w, kernelEnd) && Forks(w.sys, Fork) && Runs(w, kernelEnd, [Section(Fork, regs)] + acts)
    requires Untouched(w, kernelEnd, [Section(Fork, regs)] + acts, FreeSlot(w.sys.procs))
    ensures var u, w' := FreeSlot(w.sys.procs), Ran(w, kernelEnd, [Section(Fork, regs)] + acts);
      && Good(w', kernelEnd) && u in w'.spaces.dirs && w.sys.cur in w.spaces.dirs
      && Views(w'.spaces, kernelEnd)[u] == Views(w.spaces, kernelEnd)[w.sys.cur]
  {
    hide Inv, Ok, Step, Enabled, Safe, Acted, First, Views;
    var a := Section(Fork, regs);
    assert ([a] + acts)[0] == a && ([a] + acts)[1..] == acts;
    ActIsFlat(w, kernelEnd, a);
    var w1 := Acted(w, kernelEnd, a).value;
    FlatCur(w, kernelEnd);
    FlatCur(w1, kernelEnd);
    ForkedSlot(w, kernelEnd, regs);
    Isolated(w1, kernelEnd, acts, FreeSlot(w.sys.procs));
  }

  lemma ForkedSlot(w: World, kernelEnd: nat, regs: Registers)
    requires Permitted(w, kernelEnd, Section(Fork, regs)) && Forks(w.sys, Fork) && Acted(w, kernelEnd, Section(Fork, regs)).Some?
    ensures FreeSlot(w.sys.procs) in Acted(w, kernelEnd, Section(Fork, regs)).value.spaces.dirs
  {
    hide Step, PagingVia.CloneVia;
  }

  /** Task `t` does not run, and is not collected. */
  ghost predicate Dormant(w: World, kernelEnd: nat, acts: seq<Act>, t: TaskSlot)
    requires Runs(w, kernelEnd, acts)
    decreases |acts|
  {
    acts == [] ||
    (w.sys.cur != t && !Touches(w, acts[0], t) && Dormant(Acted(w, kernelEnd, acts[0]).value, kernelEnd, acts[1..], t))
  }

  lemma StackStays(w: World, kernelEnd: nat, a: Act, t: TaskSlot)
    requires Good(w, kernelEnd) && Permitted(w, kernelEnd, a) && Acted(w, kernelEnd, a).Some?
    requires t in w.spaces.stacks && !Touches(w, a, t)
    ensures var s, s' := w.spaces, Acted(w, kernelEnd, a).value.spaces;
      t in s'.stacks && StackOf(s', t) == StackOf(s, t)
  {
    hide Inv, Ok, Step, Enabled, Safe, MayGrow, Forked, Collected, Grown, Stored, First, Reaped, Forks;
    match a
    case Section(e, regs) =>
      PidsAreNext(w.sys);
      SlotsAfter(w.sys, e, 0);
      if Forks(w.sys, e) {
        ForksMeans(w.sys, e);
        LiveIsNotForked(w, kernelEnd, e, t);
        ForkKeepsStacks(w.spaces, w.sys.cur, FreeSlot(w.sys.procs), kernelEnd, regs);
      } else if Reaped(w.sys, e) < MAX_TASKS {
        CollectFrees(w.spaces, Reaped(w.sys, e), kernelEnd);
      }
    case Grow(x) => GrowKeepsStacks(w.spaces, w.sys.cur, x, kernelEnd, MAX_TASKS);
    case Store(x, v) => StoreKeepsStacks(w.spaces, w.sys.cur, x, v, kernelEnd, MAX_TASKS);
  }

  lemma {:induction false} DormantStack(w: World, kernelEnd: nat, acts: seq<Act>, t: TaskSlot)
    requires Good(w, kernelEnd) && Runs(w, kernelEnd, acts) && t in w.spaces.stacks && Dormant(w, kernelEnd, acts, t)
    ensures var w' := Ran(w, kernelEnd, acts); t in w'.spaces.stacks && StackOf(w'.spaces, t) == StackOf(w.spaces, t)
    decreases |acts|
  {
    hide Good, Acted, Permitted, Touches;
    if acts != [] {
      StackStays(w, kernelEnd, acts[0], t);
      ActIsFlat(w, kernelEnd, acts[0]);
      DormantStack(Acted(w, kernelEnd, acts[0]).value, kernelEnd, acts[1..], t);
    }
  }

  /** A child that has not run yet will return from fork with the registers its parent had there, and 0 in eax,
      whatever has happened since. */
  lemma ChildReturnsZero(w: World, kernelEnd: nat, regs: Registers, acts: seq<Act>)
    requires Good(w, kernelEnd) && Forks(w.sys, Fork) && Runs(w, kernelEnd, [Section(Fork, regs)] + acts)
    requires Dormant(w, kernelEnd, [Section(Fork, regs)] + acts, FreeSlot(w.sys.procs))
    ensures var u, w' := FreeSlot(w.sys.procs), Ran(w, kernelEnd, [Section(Fork, regs)] + acts);
      && u in w'.spaces.stacks
      && forall k | 0 <= k < 19 :: StackOf(w'.spaces, u)[1024 - 19 + k] == if k == 11 then 0 else regs[k]
  {
    hide Inv, Ok, Step, Enabled, Safe, Acted, First, StackOf;
    var a := Section(Fork, regs);
    assert ([a] + acts)[0] == a && ([a] + acts)[1..] == acts;
    ActIsFlat(w, kernelEnd, a);
    var w1 := Acted(w, kernelEnd, a).value;
    ForkedStack(w, kernelEnd, regs);
    DormantStack(w1, kernelEnd, acts, FreeSlot(w.sys.procs));
  }

  lemma ForkedStack(w: World, kernelEnd: nat, regs: Registers)
    requires Good(w, kernelEnd) && Permitted(w, kernelEnd, Section(Fork, regs)) && Forks(w.sys, Fork)
    requires Acted(w, kernelEnd, Section(Fork, regs)).Some?
    ensures var u, s' := FreeSlot(w.sys.procs), Acted(w, kernelEnd, Section(Fork, regs)).value.spaces;
      u in s'.stacks && forall k | 0 <= k < 19 :: StackOf(s', u)[1024 - 19 + k] == if k == 11 then 0 else regs[k]
  {
    hide Inv, Ok, Step, Enabled, Safe, PagingVia.CloneVia, First;
    PidsAreNext(w.sys);
    ForkSlots(w.sys, 0);
    ForkCosts(w.spaces, w.sys.cur, FreeSlot(w.sys.procs), kernelEnd, regs);
  }

  // ---------------------------------------------------------------- the start

  /** In an address space of the kernel the first task has nothing of its own yet. */
  lemma KernelSpaceIsGood(q: Paging.Pool, pd: Paging.FrameNo, kernelEnd: nat)
    requires PagingBoot.KernelSpace(q, pd)
    ensures var w := World(KernelSpec.Boot, Spaces(q, map[0 := pd], map[]));
      Good(w, kernelEnd) && FlatOf(w, kernelEnd) == Flat(KernelSpec.Boot, map[0 := map[]])
  {
    hide Inv, PagingVia.Sane;
    BootInv();
    forall x: nat | x < Paging.LIMIT ensures !Own(q.mem, pd, kernelEnd, x) { NothingOwn(q, pd, kernelEnd, x); }
    var w := World(KernelSpec.Boot, Spaces(q, map[0 := pd], map[]));
    assert View(q.mem, pd, kernelEnd) == map[];
    assert Views(w.spaces, kernelEnd) == map[0 := map[]];
  }

  lemma NothingOwn(q: Paging.Pool, pd: Paging.FrameNo, kernelEnd: nat, x: nat)
    requires PagingBoot.KernelSpace(q, pd) && x < Paging.LIMIT
    ensures Paging.TablesInMemory(q.mem, pd) && !Own(q.mem, pd, kernelEnd, x)
  {
    hide PagingVia.Sane;
    if x < Paging.ENTRIES {
      assert PagingDevices.PageAt(q.mem, pd, x) == Paging.Mapped(x, 3, 3);
      PagingBoot.KernelPage(q.mem, pd, x / Paging.ENTRIES, x % Paging.ENTRIES);
    }
  }

  lemma BootIsGood(p: Paging.Pool, more: seq<Paging.FrameNo>, kernelEnd: nat)
    requires Paging.Distinct(p.free + more) && PagingBoot.Boot(p, more).Some?
    ensures var (pd, q) := PagingBoot.Boot(p, more).value; var w := World(KernelSpec.Boot, Spaces(q, map[0 := pd], map[]));
      Good(w, kernelEnd) && FlatOf(w, kernelEnd) == Flat(KernelSpec.Boot, map[0 := map[]])
  {
    hide PagingBoot.Boot, PagingBoot.KernelSpace;
    PagingBoot.BootIsBooted(p, more);
    var (pd, q) := PagingBoot.Boot(p, more).value;
    KernelSpaceIsGood(q, pd, kernelEnd);
  }

  /** The same with a network card and a screen of at most 4 MB, as the kernel is started. */
  lemma LaunchIsGood(p: Paging.Pool, more: seq<Paging.FrameNo>, f: nat, n: nat, kernelEnd: nat)
    requires Paging.Distinct(p.free + more) && |p.free| + |more| > 10 && PagingBoot.Boot(p, more).Some?
    requires Paging.FRAMES <= f && f + n <= Paging.LIMIT && n <= Paging.ENTRIES
    ensures var (pd, q) := PagingBoot.Boot(p, more).value; var c := PagingBoot.CardInit(q, pd);
      && c.Some? && PagingDevices.MapRange(c.value, pd, PagingBoot.SCREEN, f, n).Some?
      && var r := PagingDevices.MapRange(c.value, pd, PagingBoot.SCREEN, f, n).value;
      var w := World(KernelSpec.Boot, Spaces(r, map[0 := pd], map[]));
      Good(w, kernelEnd) && FlatOf(w, kernelEnd) == Flat(KernelSpec.Boot, map[0 := map[]])
  {
    hide PagingBoot.Boot, PagingBoot.CardInit, PagingDevices.MapRange, PagingBoot.ScreenReady, PagingBoot.KernelSpace, Good, FlatOf;
    PagingBoot.BootIsBooted(p, more);
    var (pd, q) := PagingBoot.Boot(p, more).value;
    PagingBoot.BootIsScreenReady(p, more, f, n);
    PagingBoot.CardIsScreenReady(q, pd, f, n);
    PagingBoot.ScreenKeepsKernelSpace(PagingBoot.CardInit(q, pd).value, pd, f, n);
    KernelSpaceIsGood(PagingDevices.MapRange(PagingBoot.CardInit(q, pd).value, pd, PagingBoot.SCREEN, f, n).value, pd, kernelEnd);
  }
}
