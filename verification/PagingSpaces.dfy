/** All address spaces at once: what forks, new pages, stores and the collection of exited tasks keep, and
    that they act on separate memories. */
module PagingSpaces {
  import opened Wrappers
  import opened PagingSpec
  import opened PagingClone
  import opened PagingFork
  import opened PagingMap
  import opened PagingVia
  import opened PagingNeeds
  import opened PagingDevices

  /** Physical memory, and for each task its page directory and the frame of its kernel stack; the first
      task's stack comes from the boot code. */
  datatype Spaces = Spaces(pool: Pool, dirs: map<nat, FrameNo>, stacks: map<nat, FrameNo>)

  // ---------------------------------------------------------------- operations

  /** registers_t, by words. */
  type Registers = r: seq<u32> | |r| == 19 witness seq(19, _ => 0)
  const EAX: nat := 11

  /** A kernel stack on which the parent's registers have been left for the child, who finds 0 in eax. */
  function ChildStack(w: Words, regs: Registers): Words { w[..ENTRIES - 19] + regs[EAX := 0] }

  function PushFrame(p: Pool, pd: FrameNo, h: FrameNo, regs: Registers): Option<Pool> {
    match At(p.mem, pd, h)
    case None => None
    case Some(g) => Some(WithWords(p, g, ChildStack(p.mem[g], regs)))
  }

  /** What task_fork does with memory: the address space of `t` is cloned for `u`, and a frame becomes its
      kernel stack, with the registers of `t`. None where it panics. */
  function Forked(s: Spaces, t: nat, u: nat, kernelEnd: nat, regs: Registers): Option<Spaces>
    requires t in s.dirs
  {
    match CloneVia(s.pool, s.dirs[t], kernelEnd)
    case None => None
    case Some((npd, p1)) =>
      match Pop(p1)
      case None => None
      case Some((h, p2)) =>
        match PushFrame(p2, s.dirs[t], h, regs)
        case None => None
        case Some(p3) => Some(Spaces(p3, s.dirs[u := npd], s.stacks[u := h]))
  }

  function Held(xs: map<nat, FrameNo>, z: nat): seq<FrameNo> { if z in xs then [xs[z]] else [] }

  /** What task_wait does: pfa_free for the kernel stack and for the directory. */
  function Collected(s: Spaces, z: nat): Spaces {
    Spaces(s.pool.(free := s.pool.free + Held(s.stacks, z) + Held(s.dirs, z)), s.dirs - {z}, s.stacks - {z})
  }

  /** paging_alloc_page for page `x` of the running task `t`. */
  function Grown(s: Spaces, t: nat, x: nat): Option<Spaces>
    requires t in s.dirs && x < LIMIT
  {
    match AllocPageVia(s.pool, s.dirs[t], x / ENTRIES, x % ENTRIES)
    case None => None
    case Some(p) => Some(s.(pool := p))
  }

  /** User code of task `t` leaves `w` in page `x`, or shows it on a device. None if the page is not the
      user's. */
  function Stored(s: Spaces, t: nat, x: nat, w: Words): Option<Spaces>
    requires t in s.dirs && TablesInMemory(s.pool.mem, s.dirs[t])
  {
    if !Uses(s.pool.mem, s.dirs[t], x) then None
    else if FrameAt(s.pool.mem, s.dirs[t], x) >= FRAMES then Some(s)
    else Some(s.(pool := WithWords(s.pool, FrameAt(s.pool.mem, s.dirs[t], x), w)))
  }

  // ---------------------------------------------------------------- pages by number

  predicate Uses(m: Memory, pd: FrameNo, x: nat)
    requires TablesInMemory(m, pd)
  {
    x < LIMIT && UserPage(m, pd, x / ENTRIES, x % ENTRIES)
  }

  function FrameAt(m: Memory, pd: FrameNo, x: nat): nat
    requires TablesInMemory(m, pd) && Uses(m, pd, x)
  {
    PageFrame(m, pd, x / ENTRIES, x % ENTRIES)
  }

  /** The task's own pages: those that a fork copies. */
  predicate Own(m: Memory, pd: FrameNo, kernelEnd: nat, x: nat)
    requires TablesInMemory(m, pd)
  {
    x < LIMIT && Copied(m, pd, kernelEnd, x / ENTRIES, x % ENTRIES)
  }

  /** The task's own pages are memory; pages that it shares may be a device. */
  ghost predicate Housed(m: Memory, pd: FrameNo, kernelEnd: nat)
    requires TablesInMemory(m, pd)
  {
    forall x | 0 <= x < LIMIT && Own(m, pd, kernelEnd, x) && Uses(m, pd, x) :: FrameAt(m, pd, x) < FRAMES
  }

  // ---------------------------------------------------------------- the invariant

  ghost predicate Intact(p: Pool, pd: FrameNo, kernelEnd: nat) { Sane(p, pd) && Housed(p.mem, pd, kernelEnd) }

  /** Frame `h` is out of reach in the address space, and mapped to itself. */
  ghost predicate Outside(p: Pool, pd: FrameNo, h: FrameNo)
    requires TablesInMemory(p.mem, pd)
  {
    && h !in p.free && h != pd && Seen(p.mem, pd, h)
    && (forall k | 0 <= k < SELF_MAP && Present(p.mem[pd][k]) :: FrameOf(p.mem[pd][k]) != h)
    && forall x | 0 <= x < LIMIT && Uses(p.mem, pd, x) :: FrameAt(p.mem, pd, x) != h
  }

  /** User code of `a` reaches no table of `b`, the tables of `a` that a fork would copy are not shared with
      `b`, and no page of `a` that a fork would copy is a user page of `b`. */
  ghost predicate Apart(m: Memory, a: FrameNo, b: FrameNo, kernelEnd: nat)
    requires TablesInMemory(m, a) && TablesInMemory(m, b)
  {
    && (forall x, k | 0 <= x < LIMIT && Uses(m, a, x) && 0 <= k < SELF_MAP && Present(m[b][k]) ::
          FrameAt(m, a, x) != FrameOf(m[b][k]))
    && (forall i, k | 0 <= i < SELF_MAP && TableIsCopied(m, a, kernelEnd, i) && 0 <= k < SELF_MAP && Present(m[b][k]) ::
          FrameOf(m[a][i]) != FrameOf(m[b][k]))
    && (forall x, y | 0 <= x < LIMIT && Own(m, a, kernelEnd, x) && 0 <= y < LIMIT && Uses(m, b, y) ::
          Uses(m, a, x) && FrameAt(m, a, x) != FrameAt(m, b, y))
  }

  ghost predicate Pair(p: Pool, a: FrameNo, b: FrameNo, kernelEnd: nat) {
    && TablesInMemory(p.mem, a) && TablesInMemory(p.mem, b)
    && Outside(p, a, b) && Outside(p, b, a) && Apart(p.mem, a, b, kernelEnd) && Apart(p.mem, b, a, kernelEnd)
  }

  ghost predicate StacksOk(s: Spaces) {
    && (forall z, t | z in s.stacks && t in s.dirs ::
          TablesInMemory(s.pool.mem, s.dirs[t]) && Outside(s.pool, s.dirs[t], s.stacks[z]))
    && forall z, y | z in s.stacks && y in s.stacks && z != y :: s.stacks[z] != s.stacks[y]
  }

  /** Each address space can be cloned, no two get into each other's way, and no kernel stack is in use for
      anything else. */
  ghost predicate Ok(s: Spaces, kernelEnd: nat) {
    && (forall t | t in s.dirs :: Intact(s.pool, s.dirs[t], kernelEnd))
    && (forall t, u | t in s.dirs && u in s.dirs && t != u :: Pair(s.pool, s.dirs[t], s.dirs[u], kernelEnd))
    && StacksOk(s)
  }

  // ---------------------------------------------------------------- what leaves tables alone

  /** The same directory and tables, and no more free frames. */
  ghost predicate Still(p: Pool, p': Pool, pd: FrameNo) {
    SameTables(p.mem, p'.mem, pd) && Distinct(p'.free) && forall f :: f in p'.free ==> f in p.free
  }

  lemma SamePages(m: Memory, m': Memory, pd: FrameNo, kernelEnd: nat)
    requires SameTables(m, m', pd)
    ensures TablesInMemory(m', pd)
    ensures forall x | 0 <= x < LIMIT ::
      && (Uses(m', pd, x) <==> Uses(m, pd, x)) && (Own(m', pd, kernelEnd, x) <==> Own(m, pd, kernelEnd, x))
      && (Uses(m, pd, x) ==> FrameAt(m', pd, x) == FrameAt(m, pd, x))
    ensures forall k | 0 <= k < SELF_MAP :: TableIsCopied(m', pd, kernelEnd, k) <==> TableIsCopied(m, pd, kernelEnd, k)
    ensures m'[pd] == m[pd] && forall f: FrameNo :: At(m', pd, f) == At(m, pd, f)
  {
    hide InKernel, HasUserPage;
    SameUserPages(m, m', pd);
    SameView(m, m', pd);
  }

  lemma StillOne(p: Pool, p': Pool, pd: FrameNo, kernelEnd: nat)
    requires Intact(p, pd, kernelEnd) && Still(p, p', pd)
    ensures Intact(p', pd, kernelEnd)
  {
    hide Own, Uses, FrameAt, At, Separate, IdentityMapped, TableIsCopied;
    SaneTables(p, pd);
    SamePages(p.mem, p'.mem, pd, kernelEnd);
    StillSane(p, p', pd);
  }

  lemma StillSane(p: Pool, p': Pool, pd: FrameNo)
    requires Sane(p, pd) && Still(p, p', pd)
    ensures Sane(p', pd)
  {
    hide Reached;
    SameUserPages(p.mem, p'.mem, pd);
    IdentityStays(p, p', pd);
  }

  lemma StillOutside(p: Pool, p': Pool, pd: FrameNo, h: FrameNo)
    requires TablesInMemory(p.mem, pd) && Outside(p, pd, h) && Still(p, p', pd)
    ensures TablesInMemory(p'.mem, pd) && Outside(p', pd, h)
  {
    hide Own, Uses, FrameAt, At, TableIsCopied;
    SamePages(p.mem, p'.mem, pd, 0);
  }

  lemma StillPair(p: Pool, p': Pool, a: FrameNo, b: FrameNo, kernelEnd: nat)
    requires Pair(p, a, b, kernelEnd) && Still(p, p', a) && Still(p, p', b)
    ensures Pair(p', a, b, kernelEnd)
  {
    hide Own, Uses, FrameAt, At, TableIsCopied, Outside;
    StillOutside(p, p', a, b);
    StillOutside(p, p', b, a);
    SamePages(p.mem, p'.mem, a, kernelEnd);
    SamePages(p.mem, p'.mem, b, kernelEnd);
  }

  lemma StillOk(s: Spaces, p': Pool, kernelEnd: nat)
    requires Ok(s, kernelEnd) && forall t | t in s.dirs :: Still(s.pool, p', s.dirs[t])
    ensures Ok(s.(pool := p'), kernelEnd)
  {
    hide Intact, Pair, Outside, Still;
    forall t | t in s.dirs ensures Intact(p', s.dirs[t], kernelEnd) { StillOne(s.pool, p', s.dirs[t], kernelEnd); }
    forall t, u | t in s.dirs && u in s.dirs && t != u ensures Pair(p', s.dirs[t], s.dirs[u], kernelEnd) {
      StillPair(s.pool, p', s.dirs[t], s.dirs[u], kernelEnd);
    }
    forall z, t | z in s.stacks && t in s.dirs
      ensures TablesInMemory(p'.mem, s.dirs[t]) && Outside(p', s.dirs[t], s.stacks[z])
    {
      StillOutside(s.pool, p', s.dirs[t], s.stacks[z]);
    }
  }

  // ---------------------------------------------------------------- memories

  /** A memory of its own: what stands in each page. */
  type Private = map<nat, Words>

  function With(v: Private, x: nat, w: Words): Private { v[x := w] }

  /** The contents of a task's own pages. */
  ghost function View(m: Memory, pd: FrameNo, kernelEnd: nat): Private
    requires TablesInMemory(m, pd) && Housed(m, pd, kernelEnd)
  {
    map x: nat | x < LIMIT && Own(m, pd, kernelEnd, x) :: OwnWords(m, pd, kernelEnd, x)
  }

  ghost function OwnWords(m: Memory, pd: FrameNo, kernelEnd: nat, x: nat): Words
    requires TablesInMemory(m, pd) && Housed(m, pd, kernelEnd) && Own(m, pd, kernelEnd, x)
  {
    OwnIsUsed(m, pd, kernelEnd, x);
    m[FrameAt(m, pd, x)]
  }

  lemma OwnIsUsed(m: Memory, pd: FrameNo, kernelEnd: nat, x: nat)
    requires TablesInMemory(m, pd) && Own(m, pd, kernelEnd, x)
    ensures Uses(m, pd, x)
  {
  }

  ghost function ViewIn(p: Pool, pd: FrameNo, kernelEnd: nat): Private
    requires Intact(p, pd, kernelEnd)
  {
    SaneTables(p, pd);
    View(p.mem, pd, kernelEnd)
  }

  ghost function Views(s: Spaces, kernelEnd: nat): map<nat, Private>
    requires forall t | t in s.dirs :: Intact(s.pool, s.dirs[t], kernelEnd)
  {
    map t | t in s.dirs :: ViewIn(s.pool, s.dirs[t], kernelEnd)
  }

  /** The pages of an address space stay, and so do the frames behind them. */
  lemma ViewStays(m: Memory, m': Memory, pd: FrameNo, kernelEnd: nat)
    requires SameTables(m, m', pd) && Housed(m, pd, kernelEnd)
    requires forall x | 0 <= x < LIMIT && Own(m, pd, kernelEnd, x) && Uses(m, pd, x) ::
      FrameAt(m, pd, x) < FRAMES && m'[FrameAt(m, pd, x)] == m[FrameAt(m, pd, x)]
    ensures TablesInMemory(m', pd) && Housed(m', pd, kernelEnd) && View(m', pd, kernelEnd) == View(m, pd, kernelEnd)
  {
    hide Own, Uses, FrameAt, At, TableIsCopied;
    SamePages(m, m', pd, kernelEnd);
    forall x: nat | x < LIMIT && Own(m, pd, kernelEnd, x)
      ensures OwnWords(m', pd, kernelEnd, x) == OwnWords(m, pd, kernelEnd, x)
    {
      OwnIsUsed(m, pd, kernelEnd, x);
    }
  }

  // ---------------------------------------------------------------- user code stores

  lemma FrameFacts(p: Pool, pd: FrameNo, x: nat)
    requires Sane(p, pd) && TablesInMemory(p.mem, pd) && Uses(p.mem, pd, x)
    ensures x < LIMIT && FrameAt(p.mem, pd, x) !in p.free && FrameAt(p.mem, pd, x) != pd
    ensures forall k | 0 <= k < SELF_MAP && Present(p.mem[pd][k]) :: FrameOf(p.mem[pd][k]) != FrameAt(p.mem, pd, x)
    ensures forall y | 0 <= y < LIMIT && Uses(p.mem, pd, y) && y != x ::
      FrameAt(p.mem, pd, y) != FrameAt(p.mem, pd, x) || FrameAt(p.mem, pd, x) >= FRAMES
  {
    hide PageFrame, UserPage, Separate, IdentityMapped;
    SaneTables(p, pd);
    UserFrameFacts(p, pd, x / ENTRIES, x % ENTRIES);
    forall y | 0 <= y < LIMIT && Uses(p.mem, pd, y) && y != x
      ensures FrameAt(p.mem, pd, y) != FrameAt(p.mem, pd, x) || FrameAt(p.mem, pd, x) >= FRAMES
    {
      UserFramesDiffer(p, pd, y / ENTRIES, y % ENTRIES, x / ENTRIES, x % ENTRIES);
    }
  }

  /** A page that others see keeps its frame: the frame is no table and no directory of theirs. */
  lemma StoreLeavesTables(p: Pool, a: FrameNo, b: FrameNo, kernelEnd: nat, x: nat, w: Words)
    requires Intact(p, a, kernelEnd) && Intact(p, b, kernelEnd) && (a == b || Pair(p, a, b, kernelEnd))
    requires TablesInMemory(p.mem, a) && Uses(p.mem, a, x) && FrameAt(p.mem, a, x) < FRAMES
    ensures Still(p, WithWords(p, FrameAt(p.mem, a, x), w), b)
  {
    hide Uses, FrameAt, Own, TableIsCopied, Separate, IdentityMapped, Seen;
    SaneTables(p, b);
    FrameFacts(p, a, x);
  }

  /** A store changes this one page of the task's own memory, if it is one of its own pages, and nothing
      in anybody else's. */
  lemma StoreIsFlat(s: Spaces, t: nat, x: nat, w: Words, kernelEnd: nat)
    requires Ok(s, kernelEnd) && t in s.dirs && TablesInMemory(s.pool.mem, s.dirs[t]) && Stored(s, t, x, w).Some?
    ensures var s' := Stored(s, t, x, w).value; var v := Views(s, kernelEnd);
      Ok(s', kernelEnd) && Views(s', kernelEnd) == v[t := if x in v[t] then With(v[t], x, w) else v[t]]
  {
    hide Uses, FrameAt, Own, Intact, Pair, Still, StacksOk, View;
    var p, a := s.pool, s.dirs[t];
    if FrameAt(p.mem, a, x) >= FRAMES {
      DeviceIsNotOwn(p, a, x, kernelEnd);
      return;
    }
    var p' := Stored(s, t, x, w).value.pool;
    forall u | u in s.dirs ensures Still(p, p', s.dirs[u]) { StoreLeavesTables(p, a, s.dirs[u], kernelEnd, x, w); }
    StillOk(s, p', kernelEnd);
    var v, v' := Views(s, kernelEnd), Views(s.(pool := p'), kernelEnd);
    forall u | u in s.dirs ensures v'[u] == if u == t && x in v[t] then With(v[t], x, w) else v[u] {
      if u == t { StoreInView(p, a, x, w, kernelEnd); } else { StoreElsewhere(p, a, s.dirs[u], x, w, kernelEnd); }
    }
  }

  lemma DeviceIsNotOwn(p: Pool, a: FrameNo, x: nat, kernelEnd: nat)
    requires Intact(p, a, kernelEnd) && TablesInMemory(p.mem, a) && Uses(p.mem, a, x) && FrameAt(p.mem, a, x) >= FRAMES
    ensures x !in ViewIn(p, a, kernelEnd)
  {
    hide Uses, FrameAt, Own, Sane;
  }

  lemma StoreInView(p: Pool, a: FrameNo, x: nat, w: Words, kernelEnd: nat)
    requires Intact(p, a, kernelEnd) && TablesInMemory(p.mem, a) && Uses(p.mem, a, x) && FrameAt(p.mem, a, x) < FRAMES
    requires var p' := WithWords(p, FrameAt(p.mem, a, x), w); Still(p, p', a) && Intact(p', a, kernelEnd)
    ensures var p' := WithWords(p, FrameAt(p.mem, a, x), w); var v := View(p.mem, a, kernelEnd);
      View(p'.mem, a, kernelEnd) == if x in v then With(v, x, w) else v
  {
    hide Uses, FrameAt, Own, Separate, IdentityMapped, TableIsCopied, At;
    FrameFacts(p, a, x);
    var m, m' := p.mem, WithWords(p, FrameAt(p.mem, a, x), w).mem;
    SamePages(m, m', a, kernelEnd);
    forall y: nat | y < LIMIT && Own(m, a, kernelEnd, y)
      ensures OwnWords(m', a, kernelEnd, y) == if y == x then w else OwnWords(m, a, kernelEnd, y)
    {
      OwnIsUsed(m, a, kernelEnd, y);
    }
  }

  lemma StoreElsewhere(p: Pool, a: FrameNo, b: FrameNo, x: nat, w: Words, kernelEnd: nat)
    requires Intact(p, a, kernelEnd) && Intact(p, b, kernelEnd) && Pair(p, a, b, kernelEnd)
    requires Uses(p.mem, a, x) && FrameAt(p.mem, a, x) < FRAMES
    requires var p' := WithWords(p, FrameAt(p.mem, a, x), w); Still(p, p', b) && Intact(p', b, kernelEnd)
    ensures View(WithWords(p, FrameAt(p.mem, a, x), w).mem, b, kernelEnd) == View(p.mem, b, kernelEnd)
  {
    hide Uses, FrameAt, Own, Separate, IdentityMapped, TableIsCopied;
    FrameFacts(p, a, x);
    ViewStays(p.mem, WithWords(p, FrameAt(p.mem, a, x), w).mem, b, kernelEnd);
  }

  // ---------------------------------------------------------------- collecting an exited task

  /** Frames that are out of reach can be freed. */
  lemma FreeIsSane(p: Pool, pd: FrameNo, free: seq<FrameNo>, kernelEnd: nat)
    requires Intact(p, pd, kernelEnd) && TablesInMemory(p.mem, pd) && Distinct(free)
    requires forall f | f in free && f !in p.free :: Outside(p, pd, f)
    ensures Intact(p.(free := free), pd, kernelEnd)
  {
    hide Uses, FrameAt;
    var p' := p.(free := free);
    assert Separate(p', pd) by { FreeIsSeparate(p, pd, free); }
    assert IdentityMapped(p', pd);
  }

  lemma FreeIsSeparate(p: Pool, pd: FrameNo, free: seq<FrameNo>)
    requires Sane(p, pd) && TablesInMemory(p.mem, pd) && Distinct(free)
    requires forall f | f in free && f !in p.free :: Outside(p, pd, f)
    ensures Separate(p.(free := free), pd)
  {
    hide IdentityMapped, Reached, UserPage, PageFrame;
    forall i, j | 0 <= i < SELF_MAP && 0 <= j < ENTRIES && UserPage(p.mem, pd, i, j)
      ensures Present(p.mem[pd][i]) && PageFrame(p.mem, pd, i, j) !in free
    {
      var x := i * ENTRIES + j;
      assert x / ENTRIES == i && x % ENTRIES == j;
      UserPageIsPresent(p.mem, pd, i, j);
      assert Uses(p.mem, pd, x) && FrameAt(p.mem, pd, x) == PageFrame(p.mem, pd, i, j);
    }
  }

  lemma FreeStaysOutside(p: Pool, pd: FrameNo, h: FrameNo, free: seq<FrameNo>)
    requires TablesInMemory(p.mem, pd) && Outside(p, pd, h) && h !in free
    ensures Outside(p.(free := free), pd, h)
  {
  }

  /** The frames that come back. */
  lemma CollectedFree(s: Spaces, z: nat, kernelEnd: nat, t: nat)
    requires Ok(s, kernelEnd) && z in s.dirs && t in s.dirs && t != z
    ensures var free := Collected(s, z).pool.free;
      && TablesInMemory(s.pool.mem, s.dirs[t]) && Distinct(free)
      && (forall f | f in free && f !in s.pool.free :: Outside(s.pool, s.dirs[t], f))
      && (forall u | u in s.dirs && u != z :: s.dirs[u] !in free) && (forall y | y in s.stacks && y != z :: s.stacks[y] !in free)
  {
    hide Uses, FrameAt, Own, TableIsCopied, Seen, Separate, IdentityMapped, Apart;
    SaneTables(s.pool, s.dirs[t]);
    var free := Collected(s, z).pool.free;
    var d := s.dirs[z];
    assert Pair(s.pool, s.dirs[t], d, kernelEnd);
    assert forall f :: f in free <==> f in s.pool.free || f in Held(s.stacks, z) || f == d;
    if z in s.stacks { assert Outside(s.pool, s.dirs[t], s.stacks[z]) && Outside(s.pool, d, s.stacks[z]); }
    forall u | u in s.dirs && u != z ensures s.dirs[u] !in free {
      assert Pair(s.pool, s.dirs[u], d, kernelEnd);
      assert z in s.stacks ==> Outside(s.pool, s.dirs[u], s.stacks[z]);
    }
    forall y | y in s.stacks && y != z ensures s.stacks[y] !in free { assert Outside(s.pool, d, s.stacks[y]); }
    DistinctWith(s.pool.free, Held(s.stacks, z));
    DistinctWith(s.pool.free + Held(s.stacks, z), Held(s.dirs, z));
  }

  lemma DistinctWith(a: seq<FrameNo>, b: seq<FrameNo>)
    requires Distinct(a) && |b| <= 1 && (|b| == 1 ==> b[0] !in a)
    ensures Distinct(a + b)
  {
  }

  /** Collecting a task takes its memory away and leaves all others. */
  lemma CollectIsFlat(s: Spaces, z: nat, kernelEnd: nat)
    requires Ok(s, kernelEnd) && z in s.dirs
    ensures Ok(Collected(s, z), kernelEnd) && Views(Collected(s, z), kernelEnd) == Views(s, kernelEnd) - {z}
  {
    hide Uses, FrameAt, Own, Intact, Outside, Apart, View, StacksOk;
    var s' := Collected(s, z);
    forall t | t in s'.dirs
      ensures TablesInMemory(s.pool.mem, s.dirs[t]) && Intact(s'.pool, s'.dirs[t], kernelEnd)
      ensures forall h | Outside(s.pool, s.dirs[t], h) && h !in s'.pool.free :: Outside(s'.pool, s.dirs[t], h)
    {
      CollectedFree(s, z, kernelEnd, t);
      FreeIsSane(s.pool, s.dirs[t], s'.pool.free, kernelEnd);
      forall h | Outside(s.pool, s.dirs[t], h) && h !in s'.pool.free ensures Outside(s'.pool, s.dirs[t], h) {
        FreeStaysOutside(s.pool, s.dirs[t], h, s'.pool.free);
      }
    }
    forall t, u | t in s'.dirs && u in s'.dirs && t != u ensures Pair(s'.pool, s'.dirs[t], s'.dirs[u], kernelEnd) {
      CollectedFree(s, z, kernelEnd, t);
      assert Pair(s.pool, s.dirs[t], s.dirs[u], kernelEnd);
    }
    CollectedStacks(s, z, kernelEnd);
  }

  lemma CollectedStacks(s: Spaces, z: nat, kernelEnd: nat)
    requires Ok(s, kernelEnd) && z in s.dirs
    ensures StacksOk(Collected(s, z))
  {
    hide Uses, FrameAt, Own, Intact, Outside, Apart;
    var s' := Collected(s, z);
    forall y, t | y in s'.stacks && t in s'.dirs
      ensures TablesInMemory(s'.pool.mem, s'.dirs[t]) && Outside(s'.pool, s'.dirs[t], s'.stacks[y])
    {
      CollectedFree(s, z, kernelEnd, t);
      FreeStaysOutside(s.pool, s.dirs[t], s.stacks[y], s'.pool.free);
    }
  }

  // ---------------------------------------------------------------- forking

  /** A clone through addresses, seen from one address space. */
  ghost predicate Clones(p: Pool, a: FrameNo, kernelEnd: nat, c: FrameNo, p': Pool) {
    Intact(p, a, kernelEnd) && CloneVia(p, a, kernelEnd) == Some((c, p'))
  }

  lemma CloneFacts(p: Pool, a: FrameNo, kernelEnd: nat, c: FrameNo, p': Pool)
    requires Clones(p, a, kernelEnd, c, p')
    ensures Separate(p, a) && Clone(p, a, kernelEnd) == Some((c, p')) && TablesInMemory(p.mem, a)
    ensures Sane(p', a) && Sane(p', c) && TablesInMemory(p'.mem, c) && Distinct(p'.free) && p'.dev == p.dev
    ensures c in p.free && (forall f :: f in p'.free ==> f in p.free) && forall f: FrameNo | f !in p.free :: p'.mem[f] == p.mem[f]
  {
    hide CloneVia, Clone, Separate, IdentityMapped, EntryCloned, Housed, Seen;
    SaneTables(p, a);
    ForkStaysSane(p, a, kernelEnd);
    SaneTables(p', c);
    ParentUntouched(p, a, kernelEnd);
    Finished(p, a, kernelEnd, 0);
    FewerFree(p, p', c);
  }

  lemma ChildPage(p: Pool, a: FrameNo, kernelEnd: nat, c: FrameNo, p': Pool, x: nat)
    requires Clones(p, a, kernelEnd, c, p') && x < LIMIT && TablesInMemory(p.mem, a) && TablesInMemory(p'.mem, c)
    ensures (Uses(p'.mem, c, x) <==> Uses(p.mem, a, x)) && (Own(p'.mem, c, kernelEnd, x) <==> Own(p.mem, a, kernelEnd, x))
    ensures Uses(p.mem, a, x) ==>
      && if Own(p.mem, a, kernelEnd, x) then
           && FrameAt(p.mem, a, x) < FRAMES && FrameAt(p'.mem, c, x) in p.free && FrameAt(p'.mem, c, x) < FRAMES
           && p'.mem[FrameAt(p'.mem, c, x)] == p.mem[FrameAt(p.mem, a, x)]
         else FrameAt(p'.mem, c, x) == FrameAt(p.mem, a, x)
    ensures Own(p.mem, a, kernelEnd, x) ==> Uses(p.mem, a, x)
  {
    hide CloneVia, Clone, Separate, IdentityMapped, Copied, Walk, Source;
    CloneFacts(p, a, kernelEnd, c, p');
    var i, j := x / ENTRIES, x % ENTRIES;
    ChildUserPage(p, a, kernelEnd, i, j);
    ChildMapsSame(p, a, kernelEnd, i, j);
    CopiedIs(p.mem, a, kernelEnd, x);
    CopiedIs(p'.mem, c, kernelEnd, x);
    if Own(p.mem, a, kernelEnd, x) { OwnIsUsed(p.mem, a, kernelEnd, x); }
    if Uses(p.mem, a, x) {
      FlagsAreUser(p.mem, p'.mem, a, c, i, j);
      FrameFacts(p, a, x);
    }
  }

  lemma ChildEntry(p: Pool, a: FrameNo, kernelEnd: nat, c: FrameNo, p': Pool, i: nat)
    requires Clones(p, a, kernelEnd, c, p') && i < SELF_MAP && TablesInMemory(p.mem, a) && TablesInMemory(p'.mem, c)
    ensures Present(p'.mem[c][i]) ==>
      && Present(p.mem[a][i])
      && if TableIsCopied(p.mem, a, kernelEnd, i) then FrameOf(p'.mem[c][i]) in p.free
         else p'.mem[c][i] == p.mem[a][i] && FrameOf(p'.mem[c][i]) !in p.free
    ensures TableIsCopied(p'.mem, c, kernelEnd, i) ==> TableIsCopied(p.mem, a, kernelEnd, i)
  {
    hide CloneVia, Clone, Separate, IdentityMapped, HasUserPage;
    CloneFacts(p, a, kernelEnd, c, p');
    ChildTable(p, a, kernelEnd, i);
  }

  /** The old address spaces stay, and their pages keep their contents. */
  lemma OthersStay(p: Pool, a: FrameNo, kernelEnd: nat, c: FrameNo, p': Pool, b: FrameNo)
    requires Clones(p, a, kernelEnd, c, p') && Intact(p, b, kernelEnd)
    ensures Still(p, p', b)
    ensures forall f: FrameNo | f !in p.free :: p'.mem[f] == p.mem[f]
  {
    hide CloneVia, Clone, IdentityMapped, UserPage, PageFrame;
    CloneFacts(p, a, kernelEnd, c, p');
  }

  /** What is out of the parent's reach is out of the child's. */
  lemma OutsideChild(p: Pool, a: FrameNo, kernelEnd: nat, c: FrameNo, p': Pool, h: FrameNo)
    requires Clones(p, a, kernelEnd, c, p') && TablesInMemory(p.mem, a) && (h == a || Outside(p, a, h))
    ensures TablesInMemory(p'.mem, c) && Outside(p', c, h)
  {
    hide CloneVia, Clone, Separate, IdentityMapped, Uses, FrameAt, Own, TableIsCopied, Copied, Seen, NewDir, After;
    CloneFacts(p, a, kernelEnd, c, p');
    OwnDirectory(p, a);
    if Copied(p.mem, a, kernelEnd, 0, h) {
      NotCopied(p.mem, a, kernelEnd, h);
      LowPage(p.mem, a, h);
      assert false;
    }
    ChildSees(p, a, kernelEnd, h);
    IsClone(p, a, kernelEnd, c, p');
    forall k | 0 <= k < SELF_MAP && Present(p'.mem[c][k]) ensures FrameOf(p'.mem[c][k]) != h {
      ChildEntry(p, a, kernelEnd, c, p', k);
    }
    forall x | 0 <= x < LIMIT && Uses(p'.mem, c, x) ensures FrameAt(p'.mem, c, x) != h {
      ChildPage(p, a, kernelEnd, c, p', x);
    }
  }

  lemma IsClone(p: Pool, a: FrameNo, kernelEnd: nat, c: FrameNo, p': Pool)
    requires Clone(p, a, kernelEnd) == Some((c, p'))
    ensures NewDir(p, a, kernelEnd) == c && After(p, a, kernelEnd) == p'
  {
  }

  lemma OwnDirectory(p: Pool, a: FrameNo)
    requires Sane(p, a)
    ensures TablesInMemory(p.mem, a) && a !in p.free && Seen(p.mem, a, a)
    ensures forall k | 0 <= k < SELF_MAP && Present(p.mem[a][k]) :: FrameOf(p.mem[a][k]) != a && FrameOf(p.mem[a][k]) !in p.free
    ensures forall x | 0 <= x < LIMIT && Uses(p.mem, a, x) :: FrameAt(p.mem, a, x) != a && FrameAt(p.mem, a, x) !in p.free
  {
    hide Uses, FrameAt;
    forall x | 0 <= x < LIMIT && Uses(p.mem, a, x) ensures FrameAt(p.mem, a, x) != a && FrameAt(p.mem, a, x) !in p.free {
      FrameFacts(p, a, x);
    }
  }

  lemma LowPage(m: Memory, a: FrameNo, h: FrameNo)
    requires TablesInMemory(m, a) && UserPage(m, a, 0, h) && Present(m[a][0]) && PageFrame(m, a, 0, h) == h
    ensures h < LIMIT && Uses(m, a, h) && FrameAt(m, a, h) == h
  {
  }

  /** The child's directory is out of everybody's reach. */
  lemma ChildOutside(p: Pool, a: FrameNo, kernelEnd: nat, c: FrameNo, p': Pool, b: FrameNo)
    requires Clones(p, a, kernelEnd, c, p') && Intact(p, b, kernelEnd)
    ensures TablesInMemory(p'.mem, b) && Outside(p', b, c)
  {
    hide CloneVia, Clone, Separate, Uses, FrameAt, Own, TableIsCopied, Reached;
    CloneFacts(p, a, kernelEnd, c, p');
    OthersStay(p, a, kernelEnd, c, p', b);
    OwnDirectory(p, b);
    FreeIsSeen(p, b, c);
    SamePages(p.mem, p'.mem, b, kernelEnd);
    NewDirIsDrawn(p', c);
  }

  lemma FreeIsSeen(p: Pool, b: FrameNo, f: FrameNo)
    requires Sane(p, b) && f in p.free
    ensures Seen(p.mem, b, f)
  {
  }

  lemma NewDirIsDrawn(p': Pool, c: FrameNo)
    requires Sane(p', c)
    ensures c !in p'.free
  {
  }

  /** What `b` and the child have to do with each other is what `b` and the parent have. */
  lemma ApartFromChild(p: Pool, a: FrameNo, kernelEnd: nat, c: FrameNo, p': Pool, b: FrameNo)
    requires Clones(p, a, kernelEnd, c, p') && Intact(p, b, kernelEnd) && (a == b || Pair(p, a, b, kernelEnd))
    ensures TablesInMemory(p'.mem, b) && TablesInMemory(p'.mem, c) && Apart(p'.mem, b, c, kernelEnd)
  {
    hide CloneVia, Clone, Separate, Sane, Uses, FrameAt, Own, TableIsCopied, At, Outside, Housed;
    CloneFacts(p, a, kernelEnd, c, p');
    OthersStay(p, a, kernelEnd, c, p', b);
    OwnDirectory(p, b);
    TablesDiffer(p, b);
    SamePages(p.mem, p'.mem, b, kernelEnd);
    var m, m' := p.mem, p'.mem;
    forall x, k | 0 <= x < LIMIT && Uses(m', b, x) && 0 <= k < SELF_MAP && Present(m'[c][k])
      ensures FrameAt(m', b, x) != FrameOf(m'[c][k])
    {
      ChildEntry(p, a, kernelEnd, c, p', k);
      if a == b { FrameFacts(p, b, x); }
    }
    forall i, k | 0 <= i < SELF_MAP && TableIsCopied(m', b, kernelEnd, i) && 0 <= k < SELF_MAP && Present(m'[c][k])
      ensures FrameOf(m'[b][i]) != FrameOf(m'[c][k])
    {
      ChildEntry(p, a, kernelEnd, c, p', k);
      TableCopiedIsPresent(m, b, kernelEnd, i);
    }
    forall x, y | 0 <= x < LIMIT && Own(m', b, kernelEnd, x) && 0 <= y < LIMIT && Uses(m', c, y)
      ensures Uses(m', b, x) && FrameAt(m', b, x) != FrameAt(m', c, y)
    {
      OwnIsUsed(m', b, kernelEnd, x);
      OwnIsMemory(p, b, kernelEnd, x);
      ChildPage(p, a, kernelEnd, c, p', y);
      if a == b { FrameFacts(p, b, x); }
    }
  }

  lemma OwnIsMemory(p: Pool, b: FrameNo, kernelEnd: nat, x: nat)
    requires Intact(p, b, kernelEnd) && TablesInMemory(p.mem, b) && Own(p.mem, b, kernelEnd, x)
    ensures Uses(p.mem, b, x) && FrameAt(p.mem, b, x) < FRAMES
  {
    OwnIsUsed(p.mem, b, kernelEnd, x);
  }

  lemma TablesDiffer(p: Pool, b: FrameNo)
    requires Sane(p, b)
    ensures forall i, k | 0 <= i < SELF_MAP && 0 <= k < SELF_MAP && Present(p.mem[b][i]) && Present(p.mem[b][k]) && i != k ::
      FrameOf(p.mem[b][i]) != FrameOf(p.mem[b][k])
  {
    hide IdentityMapped, Unshared;
    forall i, k | 0 <= i < SELF_MAP && 0 <= k < SELF_MAP && Present(p.mem[b][i]) && Present(p.mem[b][k]) && i != k
      ensures FrameOf(p.mem[b][i]) != FrameOf(p.mem[b][k])
    {
      assert i < k ==> FrameOf(p.mem[b][i]) != FrameOf(p.mem[b][k]);
      assert k < i ==> FrameOf(p.mem[b][k]) != FrameOf(p.mem[b][i]);
    }
  }

  lemma ChildApart(p: Pool, a: FrameNo, kernelEnd: nat, c: FrameNo, p': Pool, b: FrameNo)
    requires Clones(p, a, kernelEnd, c, p') && Intact(p, b, kernelEnd) && (a == b || Pair(p, a, b, kernelEnd))
    ensures TablesInMemory(p'.mem, b) && TablesInMemory(p'.mem, c) && Apart(p'.mem, c, b, kernelEnd)
  {
    hide CloneVia, Clone, Separate, Sane, Uses, FrameAt, Own, TableIsCopied, At, Outside, Housed;
    CloneFacts(p, a, kernelEnd, c, p');
    OthersStay(p, a, kernelEnd, c, p', b);
    OwnDirectory(p, b);
    SamePages(p.mem, p'.mem, b, kernelEnd);
    var m, m' := p.mem, p'.mem;
    forall x, k | 0 <= x < LIMIT && Uses(m', c, x) && 0 <= k < SELF_MAP && Present(m'[b][k])
      ensures FrameAt(m', c, x) != FrameOf(m'[b][k])
    {
      ChildPage(p, a, kernelEnd, c, p', x);
      if a == b { FrameFacts(p, b, x); }
    }
    forall i, k | 0 <= i < SELF_MAP && TableIsCopied(m', c, kernelEnd, i) && 0 <= k < SELF_MAP && Present(m'[b][k])
      ensures FrameOf(m'[c][i]) != FrameOf(m'[b][k])
    {
      ChildEntry(p, a, kernelEnd, c, p', i);
      TableCopiedIsPresent(m', c, kernelEnd, i);
    }
    forall x, y | 0 <= x < LIMIT && Own(m', c, kernelEnd, x) && 0 <= y < LIMIT && Uses(m', b, y)
      ensures Uses(m', c, x) && FrameAt(m', c, x) != FrameAt(m', b, y)
    {
      ChildPage(p, a, kernelEnd, c, p', x);
    }
  }

  lemma ChildPairs(p: Pool, a: FrameNo, kernelEnd: nat, c: FrameNo, p': Pool, b: FrameNo)
    requires Clones(p, a, kernelEnd, c, p') && Intact(p, b, kernelEnd) && (a == b || Pair(p, a, b, kernelEnd))
    ensures Pair(p', b, c, kernelEnd) && Pair(p', c, b, kernelEnd)
  {
    hide CloneVia, Clone, Intact, Uses, FrameAt, Own, TableIsCopied, At, Outside, Apart, Seen;
    SaneTablesOf(p, a, kernelEnd);
    ChildOutside(p, a, kernelEnd, c, p', b);
    OutsideChild(p, a, kernelEnd, c, p', b);
    ApartFromChild(p, a, kernelEnd, c, p', b);
    ChildApart(p, a, kernelEnd, c, p', b);
  }

  lemma SaneTablesOf(p: Pool, pd: FrameNo, kernelEnd: nat)
    requires Intact(p, pd, kernelEnd)
    ensures TablesInMemory(p.mem, pd) && Housed(p.mem, pd, kernelEnd)
  {
  }

  lemma ChildIsOne(p: Pool, a: FrameNo, kernelEnd: nat, c: FrameNo, p': Pool)
    requires Clones(p, a, kernelEnd, c, p')
    ensures Intact(p', c, kernelEnd)
    ensures TablesInMemory(p.mem, a) && Housed(p.mem, a, kernelEnd) && TablesInMemory(p'.mem, c) && Housed(p'.mem, c, kernelEnd)
    ensures View(p'.mem, c, kernelEnd) == View(p.mem, a, kernelEnd)
  {
    hide CloneVia, Clone, Separate, IdentityMapped, Uses, FrameAt, Own;
    CloneFacts(p, a, kernelEnd, c, p');
    forall x: nat | x < LIMIT
      ensures Own(p'.mem, c, kernelEnd, x) && Uses(p'.mem, c, x) ==> FrameAt(p'.mem, c, x) < FRAMES
      ensures Own(p'.mem, c, kernelEnd, x) <==> Own(p.mem, a, kernelEnd, x)
    {
      ChildPage(p, a, kernelEnd, c, p', x);
    }
    forall x: nat | x < LIMIT && Own(p.mem, a, kernelEnd, x)
      ensures Own(p'.mem, c, kernelEnd, x) && OwnWords(p'.mem, c, kernelEnd, x) == OwnWords(p.mem, a, kernelEnd, x)
    {
      ChildPage(p, a, kernelEnd, c, p', x);
    }
  }

  /** The state between the clone and the kernel stack. */
  ghost function HalfForked(s: Spaces, u: nat, c: FrameNo, p1: Pool): Spaces { Spaces(p1, s.dirs[u := c], s.stacks) }

  lemma CloneIsFlat(s: Spaces, t: nat, u: nat, kernelEnd: nat, c: FrameNo, p1: Pool)
    requires Ok(s, kernelEnd) && t in s.dirs && u !in s.dirs && u !in s.stacks && Clones(s.pool, s.dirs[t], kernelEnd, c, p1)
    ensures var s1 := HalfForked(s, u, c, p1); var v := Views(s, kernelEnd);
      Ok(s1, kernelEnd) && Views(s1, kernelEnd) == v[u := v[t]]
  {
    hide Intact, Pair, Outside, Clones, Still, View, StacksOk;
    var p, a := s.pool, s.dirs[t];
    var s1 := HalfForked(s, u, c, p1);
    forall v | v in s.dirs ensures Still(p, p1, s.dirs[v]) && Pair(p1, s.dirs[v], c, kernelEnd) && Pair(p1, c, s.dirs[v], kernelEnd) {
      OthersStay(p, a, kernelEnd, c, p1, s.dirs[v]);
      ChildPairs(p, a, kernelEnd, c, p1, s.dirs[v]);
    }
    StillOk(s, p1, kernelEnd);
    ChildIsOne(p, a, kernelEnd, c, p1);
    ChildStacks(s, t, u, kernelEnd, c, p1);
    assert Ok(s1, kernelEnd);
    forall v | v in s.dirs ensures ViewIn(p1, s.dirs[v], kernelEnd) == ViewIn(p, s.dirs[v], kernelEnd) {
      CloneKeepsView(p, a, kernelEnd, c, p1, s.dirs[v]);
    }
  }

  lemma CloneKeepsView(p: Pool, a: FrameNo, kernelEnd: nat, c: FrameNo, p1: Pool, b: FrameNo)
    requires Clones(p, a, kernelEnd, c, p1) && Intact(p, b, kernelEnd) && Intact(p1, b, kernelEnd)
    ensures ViewIn(p1, b, kernelEnd) == ViewIn(p, b, kernelEnd)
  {
    hide CloneVia, Sane, Uses, FrameAt, Own, TableIsCopied, View;
    OthersStay(p, a, kernelEnd, c, p1, b);
    SaneTablesOf(p, b, kernelEnd);
    OwnDirectory(p, b);
    ViewStays(p.mem, p1.mem, b, kernelEnd);
  }

  lemma ChildStacks(s: Spaces, t: nat, u: nat, kernelEnd: nat, c: FrameNo, p1: Pool)
    requires Ok(s, kernelEnd) && t in s.dirs && u !in s.dirs && Clones(s.pool, s.dirs[t], kernelEnd, c, p1)
    requires forall v | v in s.dirs :: Still(s.pool, p1, s.dirs[v])
    ensures StacksOk(HalfForked(s, u, c, p1))
  {
    hide Intact, Pair, Outside, Clones, Still;
    var s1 := HalfForked(s, u, c, p1);
    forall z, v | z in s1.stacks && v in s1.dirs
      ensures TablesInMemory(p1.mem, s1.dirs[v]) && Outside(p1, s1.dirs[v], s1.stacks[z])
    {
      if v == u {
        OutsideChild(s.pool, s.dirs[t], kernelEnd, c, p1, s.stacks[z]);
      } else {
        StillOutside(s.pool, p1, s.dirs[v], s.stacks[z]);
      }
    }
  }

  /** Drawing the kernel stack and writing to it. */
  lemma StackIsOutside(p: Pool, pd: FrameNo, w: Words, kernelEnd: nat)
    requires Intact(p, pd, kernelEnd) && p.free != []
    ensures var h := p.free[|p.free| - 1]; var p3 := WithWords(Pop(p).value.1, h, w);
      && At(Pop(p).value.1.mem, pd, h) == Some(h) && Still(p, p3, pd) && Intact(p3, pd, kernelEnd)
      && TablesInMemory(p3.mem, pd) && Outside(p3, pd, h)
      && ViewIn(p3, pd, kernelEnd) == ViewIn(p, pd, kernelEnd)
  {
    hide Separate, IdentityMapped, Uses, FrameAt, Own, TableIsCopied, Reached, View;
    var h := p.free[|p.free| - 1];
    var p3 := WithWords(Pop(p).value.1, h, w);
    SaneTables(p, pd);
    Popped(p, h);
    OwnDirectory(p, pd);
    FreeIsSeen(p, pd, h);
    assert forall f :: f in p3.free ==> f in p.free;
    assert SameTables(p.mem, p3.mem, pd);
    StillOne(p, p3, pd, kernelEnd);
    SamePages(p.mem, p3.mem, pd, kernelEnd);
    ViewStays(p.mem, p3.mem, pd, kernelEnd);
  }

  /** A fork gives the child the parent's memory and leaves all others. */
  lemma ForkIsFlat(s: Spaces, t: nat, u: nat, kernelEnd: nat, regs: Registers)
    requires Ok(s, kernelEnd) && t in s.dirs && u !in s.dirs && u !in s.stacks && Forked(s, t, u, kernelEnd, regs).Some?
    ensures var s' := Forked(s, t, u, kernelEnd, regs).value; var v := Views(s, kernelEnd);
      && Ok(s', kernelEnd) && Views(s', kernelEnd) == v[u := v[t]]
      && s'.dirs.Keys == s.dirs.Keys + {u} && s'.stacks.Keys == s.stacks.Keys + {u}
  {
    hide Intact, Pair, Outside, CloneVia, Still, View, StacksOk, At, ChildStack;
    var (c, p1) := CloneVia(s.pool, s.dirs[t], kernelEnd).value;
    var s1 := HalfForked(s, u, c, p1);
    CloneIsFlat(s, t, u, kernelEnd, c, p1);
    var h := p1.free[|p1.free| - 1];
    var top := ChildStack(p1.mem[h], regs);
    var p3 := WithWords(Pop(p1).value.1, h, top);
    forall v | v in s1.dirs
      ensures At(Pop(p1).value.1.mem, s1.dirs[v], h) == Some(h) && Still(p1, p3, s1.dirs[v]) && Intact(p3, s1.dirs[v], kernelEnd)
      ensures TablesInMemory(p3.mem, s1.dirs[v]) && Outside(p3, s1.dirs[v], h)
      ensures ViewIn(p3, s1.dirs[v], kernelEnd) == ViewIn(p1, s1.dirs[v], kernelEnd)
    {
      StackIsOutside(p1, s1.dirs[v], top, kernelEnd);
    }
    assert s1.dirs[t] == s.dirs[t];
    StillOk(s1, p3, kernelEnd);
    NewStack(s1, p3, u, h, kernelEnd);
  }

  /** When a fork succeeds, what it costs, and what it leaves on the child's kernel stack: the parent's registers
      with 0 in eax, so that fork returns 0 to the child. */
  lemma ForkCosts(s: Spaces, t: nat, u: nat, kernelEnd: nat, regs: Registers)
    requires Ok(s, kernelEnd) && t in s.dirs && u !in s.dirs && u !in s.stacks
    ensures TablesInMemory(s.pool.mem, s.dirs[t])
    ensures var r, n := Forked(s, t, u, kernelEnd, regs), FramesNeeded(s.pool.mem, s.dirs[t], kernelEnd) + 2;
      && (r.Some? <==> n <= |s.pool.free|)
      && (r.Some? ==>
           && |r.value.pool.free| == |s.pool.free| - n
           && r.value.stacks[u] in s.pool.free
           && var stack := r.value.pool.mem[r.value.stacks[u]];
           forall k | 0 <= k < 19 :: stack[1024 - 19 + k] == if k == 11 then 0 else regs[k])
  {
    hide Pair, Outside, CloneVia, Clone, Separate, IdentityMapped, StacksOk, At, FramesNeeded, AllReachable;
    var p, a := s.pool, s.dirs[t];
    SaneTables(p, a);
    CloneIsVia(p, a, kernelEnd);
    CloneSucceedsIff(p, a, kernelEnd);
    OwnAreReachable(p, a, kernelEnd);
    if CloneVia(p, a, kernelEnd).Some? {
      var (c, p1) := CloneVia(p, a, kernelEnd).value;
      CloneFacts(p, a, kernelEnd, c, p1);
      if p1.free != [] {
        var h := p1.free[|p1.free| - 1];
        Popped(p1, h);
        CloneLeavesIntact(p, a, kernelEnd, c, p1);
        StackIsOutside(p1, a, ChildStack(p1.mem[h], regs), kernelEnd);
      }
    }
  }

  /** What a fork copies of an intact address space can be read. */
  lemma OwnAreReachable(p: Pool, a: FrameNo, kernelEnd: nat)
    requires Intact(p, a, kernelEnd)
    ensures TablesInMemory(p.mem, a) && AllReachable(p, a, kernelEnd)
  {
    hide Sane, Source, HasUserPage, Keeps, InKernel;
    SaneTables(p, a);
    forall i, j | 0 <= i < SELF_MAP && TableIsCopied(p.mem, a, kernelEnd, i) && 0 <= j < ENTRIES &&
                  Moves(p.mem[FrameOf(p.mem[a][i])], i, kernelEnd, j)
      ensures FrameOf(p.mem[FrameOf(p.mem[a][i])][j]) < FRAMES
    {
      CopiedMeans(p.mem, a, kernelEnd, i, j);
      var x := ENTRIES * i + j;
      assert x / ENTRIES == i && x % ENTRIES == j;
      OwnIsMemory(p, a, kernelEnd, x);
    }
    MemoryIsSource(p, a);
  }

  lemma MemoryIsSource(p: Pool, a: FrameNo)
    ensures forall f: nat | f < FRAMES :: Source(p, a, f).Some?
  {
  }

  lemma CloneLeavesIntact(p: Pool, a: FrameNo, kernelEnd: nat, c: FrameNo, p1: Pool)
    requires Clones(p, a, kernelEnd, c, p1)
    ensures Intact(p1, a, kernelEnd)
  {
    hide CloneVia, Separate, IdentityMapped;
    OthersStay(p, a, kernelEnd, c, p1, a);
    StillOne(p, p1, a, kernelEnd);
  }

  lemma NewStack(s: Spaces, p3: Pool, u: nat, h: FrameNo, kernelEnd: nat)
    requires StacksOk(s) && StacksOk(s.(pool := p3)) && h in s.pool.free && u !in s.stacks && s.dirs != map[]
    requires forall v | v in s.dirs :: TablesInMemory(p3.mem, s.dirs[v]) && Outside(p3, s.dirs[v], h)
    ensures StacksOk(Spaces(p3, s.dirs, s.stacks[u := h]))
  {
    hide Uses, FrameAt, Seen;
    var v :| v in s.dirs;
    forall z | z in s.stacks ensures s.stacks[z] != h { assert Outside(s.pool, s.dirs[v], s.stacks[z]); }
  }

  // ---------------------------------------------------------------- new pages

  /** A page may be added above 4 MB where the task's own pages are: in an entry that has no table yet, or
      one that a fork would copy. Elsewhere the table is shared. */
  predicate MayGrow(m: Memory, pd: FrameNo, kernelEnd: nat, x: nat)
    requires TablesInMemory(m, pd)
  {
    ENTRIES <= x < LIMIT && (Present(m[pd][x / ENTRIES]) ==> TableIsCopied(m, pd, kernelEnd, x / ENTRIES))
  }

  /** Page numbers outside the kernel image, as the clone sees it. */
  predicate Ownable(kernelEnd: nat, x: nat) { x < 2 * ENTRIES ==> !InKernel(Vaddr(x / ENTRIES, x % ENTRIES), kernelEnd) }

  ghost predicate AddsPage(p: Pool, a: FrameNo, kernelEnd: nat, x: nat, p': Pool) {
    && Intact(p, a, kernelEnd) && TablesInMemory(p.mem, a) && MayGrow(p.mem, a, kernelEnd, x)
    && AllocPageVia(p, a, x / ENTRIES, x % ENTRIES) == Some(p')
  }

  function Top(p: Pool): FrameNo
    requires p.free != []
  {
    p.free[|p.free| - 1]
  }

  lemma GrowShape(p: Pool, a: FrameNo, i: nat, j: nat)
    requires Separate(p, a) && i < SELF_MAP && j < ENTRIES && AllocPage(p, a, i, j).Some?
    ensures p.free != [] && Top(p) in p.free && Top(p) !in AllocPage(p, a, i, j).value.free
    ensures var p' := AllocPage(p, a, i, j).value;
      && Distinct(p'.free) && (forall g :: g in p'.free ==> g in p.free) && p'.mem[Top(p)] == p.mem[Top(p)]
      && (forall g: FrameNo | g != a && g !in p.free && !(Present(p.mem[a][i]) && g == FrameOf(p.mem[a][i])) :: p'.mem[g] == p.mem[g])
      && (forall k | 0 <= k < ENTRIES && k != i :: p'.mem[a][k] == p.mem[a][k])
      && Present(p'.mem[a][i]) && FrameOf(p'.mem[a][i]) != Top(p)
      && if Present(p.mem[a][i]) then p'.mem[a][i] == p.mem[a][i] else User(p'.mem[a][i]) && FrameOf(p'.mem[a][i]) in p.free
  {
    hide Unshared, MapFlags;
    Popped(p, a);
    var p1 := Pop(p).value.1;
    if p1.free != [] { Popped(p1, a); }
  }

  lemma GrowFacts(p: Pool, a: FrameNo, kernelEnd: nat, x: nat, p': Pool)
    requires AddsPage(p, a, kernelEnd, x, p')
    ensures Separate(p, a) && AllocPage(p, a, x / ENTRIES, x % ENTRIES) == Some(p') && Sane(p', a) && TablesInMemory(p'.mem, a)
    ensures p.free != [] && Top(p) in p.free
  {
    hide AllocPage, AllocPageVia, Separate, IdentityMapped, Housed, Needed;
    SaneTables(p, a);
    AllocPageIsVia(p, a, x / ENTRIES, x % ENTRIES);
    AllocPageKeepsSaneIff(p, a, x / ENTRIES, x % ENTRIES);
    SaneTables(p', a);
    GrowShape(p, a, x / ENTRIES, x % ENTRIES);
  }

  lemma GrownPage(p: Pool, a: FrameNo, kernelEnd: nat, x: nat, p': Pool, y: nat)
    requires AddsPage(p, a, kernelEnd, x, p') && y < LIMIT && TablesInMemory(p'.mem, a) && p.free != []
    ensures y != x ==>
      && (Uses(p'.mem, a, y) <==> Uses(p.mem, a, y)) && (Own(p'.mem, a, kernelEnd, y) <==> Own(p.mem, a, kernelEnd, y))
      && (Uses(p.mem, a, y) ==> FrameAt(p'.mem, a, y) == FrameAt(p.mem, a, y))
    ensures y == x ==>
      Uses(p'.mem, a, x) && FrameAt(p'.mem, a, x) == Top(p) && (Own(p'.mem, a, kernelEnd, x) <==> Ownable(kernelEnd, x))
    ensures Own(p.mem, a, kernelEnd, x) ==> Ownable(kernelEnd, x)
  {
    hide AllocPage, AllocPageVia, Intact, Separate, Copied, Walk, InKernel, TableIsCopied;
    GrowFacts(p, a, kernelEnd, x, p');
    AllocPageMaps(p, a, x / ENTRIES, x % ENTRIES, y / ENTRIES, y % ENTRIES);
    CopiedIs(p'.mem, a, kernelEnd, y);
    CopiedIs(p.mem, a, kernelEnd, y);
    CopiedIs(p.mem, a, kernelEnd, x);
    if y == x {
      NewPage(p, a, kernelEnd, x, p');
    } else {
      assert (y / ENTRIES, y % ENTRIES) != (x / ENTRIES, x % ENTRIES);
      FlagsAreUser(p.mem, p'.mem, a, a, y / ENTRIES, y % ENTRIES);
    }
  }

  lemma NewPage(p: Pool, a: FrameNo, kernelEnd: nat, x: nat, p': Pool)
    requires AddsPage(p, a, kernelEnd, x, p') && TablesInMemory(p'.mem, a) && p.free != []
    ensures Uses(p'.mem, a, x) && FrameAt(p'.mem, a, x) == Top(p)
    ensures Own(p'.mem, a, kernelEnd, x) <==> Ownable(kernelEnd, x)
  {
    hide AllocPageVia, IdentityMapped, InKernel, HasUserPage, MapFlags, Unshared;
    GrowFacts(p, a, kernelEnd, x, p');
    Popped(p, a);
    var p1 := Pop(p).value.1;
    if p1.free != [] { Popped(p1, a); }
  }

  lemma GrownEntry(p: Pool, a: FrameNo, kernelEnd: nat, x: nat, p': Pool, k: nat)
    requires AddsPage(p, a, kernelEnd, x, p') && k < SELF_MAP && TablesInMemory(p'.mem, a)
    ensures Present(p'.mem[a][k]) ==> (Present(p.mem[a][k]) && p'.mem[a][k] == p.mem[a][k]) || FrameOf(p'.mem[a][k]) in p.free
    ensures TableIsCopied(p'.mem, a, kernelEnd, k) ==> TableIsCopied(p.mem, a, kernelEnd, k) || FrameOf(p'.mem[a][k]) in p.free
  {
    hide AllocPage, AllocPageVia, Separate, IdentityMapped, Housed, HasUserPage;
    GrowFacts(p, a, kernelEnd, x, p');
    GrowShape(p, a, x / ENTRIES, x % ENTRIES);
    TablesDiffer(p, a);
    OwnDirectory(p, a);
  }

  /** Which frames an allocation leaves alone. */
  lemma GrownElsewhere(p: Pool, a: FrameNo, kernelEnd: nat, x: nat, p': Pool, g: FrameNo)
    requires AddsPage(p, a, kernelEnd, x, p') && g != a && g !in p.free
    requires forall k | 0 <= k < SELF_MAP && Present(p.mem[a][k]) && TableIsCopied(p.mem, a, kernelEnd, k) :: FrameOf(p.mem[a][k]) != g
    ensures p'.mem[g] == p.mem[g]
  {
    hide AllocPage, AllocPageVia, Separate, IdentityMapped, Housed, TableIsCopied;
    GrowFacts(p, a, kernelEnd, x, p');
    GrowShape(p, a, x / ENTRIES, x % ENTRIES);
  }

  lemma GrowLeaves(p: Pool, a: FrameNo, kernelEnd: nat, x: nat, p': Pool, b: FrameNo)
    requires AddsPage(p, a, kernelEnd, x, p') && Intact(p, b, kernelEnd) && Pair(p, a, b, kernelEnd)
    ensures Still(p, p', b) && Intact(p', b, kernelEnd) && ViewIn(p', b, kernelEnd) == ViewIn(p, b, kernelEnd)
  {
    hide AllocPage, AllocPageVia, Sane, Uses, FrameAt, Own, TableIsCopied, Seen, View, MayGrow;
    MayGrowBelow(p.mem, a, kernelEnd, x);
    GrowFacts(p, a, kernelEnd, x, p');
    GrowShape(p, a, x / ENTRIES, x % ENTRIES);
    OwnDirectory(p, b);
    GrownElsewhere(p, a, kernelEnd, x, p', b);
    forall k | 0 <= k < SELF_MAP && Present(p.mem[b][k]) ensures p'.mem[FrameOf(p.mem[b][k])] == p.mem[FrameOf(p.mem[b][k])] {
      GrownElsewhere(p, a, kernelEnd, x, p', FrameOf(p.mem[b][k]));
    }
    assert Still(p, p', b);
    StillOne(p, p', b, kernelEnd);
    forall y | 0 <= y < LIMIT && Own(p.mem, b, kernelEnd, y) && Uses(p.mem, b, y)
      ensures p'.mem[FrameAt(p.mem, b, y)] == p.mem[FrameAt(p.mem, b, y)]
    {
      GrownElsewhere(p, a, kernelEnd, x, p', FrameAt(p.mem, b, y));
    }
    ViewStays(p.mem, p'.mem, b, kernelEnd);
  }

  /** The task that gets the page. */
  lemma GrowAdds(p: Pool, a: FrameNo, kernelEnd: nat, x: nat, p': Pool)
    requires AddsPage(p, a, kernelEnd, x, p')
    ensures Intact(p', a, kernelEnd) && p.free != []
    ensures var v := ViewIn(p, a, kernelEnd);
      ViewIn(p', a, kernelEnd) == if Ownable(kernelEnd, x) then With(v, x, p.mem[Top(p)]) else v
  {
    hide AllocPage, AllocPageVia, Sane, Uses, FrameAt, Own, TableIsCopied, Seen, MayGrow, Ownable;
    MayGrowBelow(p.mem, a, kernelEnd, x);
    GrowFacts(p, a, kernelEnd, x, p');
    GrowShape(p, a, x / ENTRIES, x % ENTRIES);
    OwnDirectory(p, a);
    forall y: nat | y < LIMIT
      ensures Own(p'.mem, a, kernelEnd, y) && Uses(p'.mem, a, y) ==> FrameAt(p'.mem, a, y) < FRAMES
      ensures Own(p'.mem, a, kernelEnd, y) <==> (if y == x then Ownable(kernelEnd, x) else Own(p.mem, a, kernelEnd, y))
      ensures Own(p.mem, a, kernelEnd, x) ==> Ownable(kernelEnd, x)
    {
      GrownPage(p, a, kernelEnd, x, p', y);
    }
    forall y: nat | y < LIMIT && Own(p'.mem, a, kernelEnd, y)
      ensures OwnWords(p'.mem, a, kernelEnd, y) == if y == x then p.mem[Top(p)] else OwnWords(p.mem, a, kernelEnd, y)
    {
      OwnIsUsed(p'.mem, a, kernelEnd, y);
      GrownPage(p, a, kernelEnd, x, p', y);
      if y != x {
        FrameFacts(p, a, y);
        GrownElsewhere(p, a, kernelEnd, x, p', FrameAt(p.mem, a, y));
      }
    }
  }

  lemma MayGrowBelow(m: Memory, a: FrameNo, kernelEnd: nat, x: nat)
    requires TablesInMemory(m, a) && MayGrow(m, a, kernelEnd, x)
    ensures ENTRIES <= x < LIMIT
  {
  }

  lemma GrownOutside(p: Pool, a: FrameNo, kernelEnd: nat, x: nat, p': Pool, h: FrameNo)
    requires AddsPage(p, a, kernelEnd, x, p') && TablesInMemory(p.mem, a) && Outside(p, a, h)
    ensures TablesInMemory(p'.mem, a) && Outside(p', a, h)
  {
    hide AllocPage, AllocPageVia, Separate, IdentityMapped, Uses, FrameAt, Own, TableIsCopied;
    GrowFacts(p, a, kernelEnd, x, p');
    GrowShape(p, a, x / ENTRIES, x % ENTRIES);
    TablesDiffer(p, a);
    OwnDirectory(p, a);
    SeenHasTable(p.mem, a);
    assert p'.mem[a][0] == p.mem[a][0];
    SeenStaysFor(p, a, kernelEnd, x, p');
    forall k | 0 <= k < SELF_MAP && Present(p'.mem[a][k]) ensures FrameOf(p'.mem[a][k]) != h {
      GrownEntry(p, a, kernelEnd, x, p', k);
    }
    forall y | 0 <= y < LIMIT && Uses(p'.mem, a, y) ensures FrameAt(p'.mem, a, y) != h { GrownPage(p, a, kernelEnd, x, p', y); }
  }

  lemma SeenStaysFor(p: Pool, a: FrameNo, kernelEnd: nat, x: nat, p': Pool)
    requires AddsPage(p, a, kernelEnd, x, p')
    ensures forall h: FrameNo :: At(p'.mem, a, h) == At(p.mem, a, h)
  {
    hide AllocPage, AllocPageVia, MapPage, Separate, IdentityMapped, Housed;
    GrowFacts(p, a, kernelEnd, x, p');
    var (f, p1) := Pop(p).value;
    PoppedIsSane(p, a);
    SaneTables(p1, a);
    AllocIsMap(p, a, x / ENTRIES, x % ENTRIES);
    forall h: FrameNo ensures At(p'.mem, a, h) == At(p.mem, a, h) { MappedView(p1, a, x / ENTRIES, x % ENTRIES, f, 7, h); }
  }

  lemma AllocIsMap(p: Pool, a: FrameNo, i: nat, j: nat)
    requires p.free != [] && i < SELF_MAP && j < ENTRIES
    ensures AllocPage(p, a, i, j) == MapPage(Pop(p).value.1, a, i, j, Top(p), 7)
  {
  }

  lemma GrownPair(p: Pool, a: FrameNo, kernelEnd: nat, x: nat, p': Pool, b: FrameNo)
    requires AddsPage(p, a, kernelEnd, x, p') && Intact(p, b, kernelEnd) && Pair(p, a, b, kernelEnd)
    ensures Pair(p', a, b, kernelEnd) && Pair(p', b, a, kernelEnd)
  {
    hide AllocPage, AllocPageVia, Sane, Uses, FrameAt, Own, TableIsCopied, Outside, Housed, MayGrow, Ownable, At;
    GrowFacts(p, a, kernelEnd, x, p');
    GrowLeaves(p, a, kernelEnd, x, p', b);
    GrownOutside(p, a, kernelEnd, x, p', b);
    StillOutside(p, p', b, a);
    SamePages(p.mem, p'.mem, b, kernelEnd);
    OwnDirectory(p, b);
    MayGrowBelow(p.mem, a, kernelEnd, x);
    var m, m' := p.mem, p'.mem;
    forall k | 0 <= k < SELF_MAP
      ensures Present(m'[a][k]) ==> (Present(m[a][k]) && m'[a][k] == m[a][k]) || FrameOf(m'[a][k]) in p.free
      ensures TableIsCopied(m', a, kernelEnd, k) ==> TableIsCopied(m, a, kernelEnd, k) || FrameOf(m'[a][k]) in p.free
      ensures TableIsCopied(m', a, kernelEnd, k) ==> Present(m'[a][k])
      ensures TableIsCopied(m', b, kernelEnd, k) ==> Present(m'[b][k])
    {
      GrownEntry(p, a, kernelEnd, x, p', k);
      if TableIsCopied(m', a, kernelEnd, k) { TableCopiedIsPresent(m', a, kernelEnd, k); }
      if TableIsCopied(m', b, kernelEnd, k) { TableCopiedIsPresent(m', b, kernelEnd, k); }
    }
    forall y | 0 <= y < LIMIT
      ensures Uses(m', a, y) ==> (Uses(m, a, y) && FrameAt(m', a, y) == FrameAt(m, a, y)) || FrameAt(m', a, y) in p.free
      ensures Own(m', b, kernelEnd, y) ==> Uses(m', b, y)
      ensures Own(m', a, kernelEnd, y) ==> Uses(m', a, y)
      ensures Own(m', a, kernelEnd, y) && Uses(m', a, y) && FrameAt(m', a, y) !in p.free ==>
        Own(m, a, kernelEnd, y) && Uses(m, a, y) && FrameAt(m', a, y) == FrameAt(m, a, y)
    {
      GrownPage(p, a, kernelEnd, x, p', y);
      if Own(m', a, kernelEnd, y) { OwnIsUsed(m', a, kernelEnd, y); }
      if Own(m', b, kernelEnd, y) { OwnIsUsed(m', b, kernelEnd, y); }
    }
    assert Apart(m', a, b, kernelEnd);
    assert Apart(m', b, a, kernelEnd);
  }

  /** A new page is the task's own, holds what its frame held, and changes no other memory. */
  lemma GrowIsFlat(s: Spaces, t: nat, x: nat, kernelEnd: nat)
    requires Ok(s, kernelEnd) && t in s.dirs && TablesInMemory(s.pool.mem, s.dirs[t])
    requires x < LIMIT && MayGrow(s.pool.mem, s.dirs[t], kernelEnd, x) && Grown(s, t, x).Some?
    ensures s.pool.free != []
    ensures var s' := Grown(s, t, x).value; var v := Views(s, kernelEnd);
      && Ok(s', kernelEnd)
      && Views(s', kernelEnd) == v[t := if Ownable(kernelEnd, x) then With(v[t], x, s.pool.mem[Top(s.pool)]) else v[t]]
  {
    hide AllocPageVia, Intact, Pair, Outside, Still, View, MayGrow, Ownable;
    var p, a := s.pool, s.dirs[t];
    var p' := Grown(s, t, x).value.pool;
    assert AddsPage(p, a, kernelEnd, x, p');
    GrowAdds(p, a, kernelEnd, x, p');
    forall u | u in s.dirs && u != t
      ensures Still(p, p', s.dirs[u]) && Intact(p', s.dirs[u], kernelEnd)
      ensures ViewIn(p', s.dirs[u], kernelEnd) == ViewIn(p, s.dirs[u], kernelEnd)
      ensures Pair(p', a, s.dirs[u], kernelEnd) && Pair(p', s.dirs[u], a, kernelEnd)
    {
      assert Pair(p, a, s.dirs[u], kernelEnd);
      GrowLeaves(p, a, kernelEnd, x, p', s.dirs[u]);
      GrownPair(p, a, kernelEnd, x, p', s.dirs[u]);
    }
    forall u, v | u in s.dirs && v in s.dirs && u != v ensures Pair(p', s.dirs[u], s.dirs[v], kernelEnd) {
      if u != t && v != t { StillPair(p, p', s.dirs[u], s.dirs[v], kernelEnd); }
    }
    forall z, u | z in s.stacks && u in s.dirs ensures TablesInMemory(p'.mem, s.dirs[u]) && Outside(p', s.dirs[u], s.stacks[z]) {
      if u == t { GrownOutside(p, a, kernelEnd, x, p', s.stacks[z]); } else { StillOutside(p, p', s.dirs[u], s.stacks[z]); }
    }
  }

  /** Why: a new page behind a table that two address spaces share is mapped in both. */
  lemma SharedTableLeaks(p: Pool, a: FrameNo, b: FrameNo, x: nat)
    requires Sane(p, a) && Sane(p, b) && a != b && ENTRIES <= x < LIMIT && AllocPageVia(p, a, x / ENTRIES, x % ENTRIES).Some?
    requires Present(p.mem[a][x / ENTRIES]) && p.mem[b][x / ENTRIES] == p.mem[a][x / ENTRIES] && FrameOf(p.mem[a][x / ENTRIES]) != b
    ensures var p' := AllocPageVia(p, a, x / ENTRIES, x % ENTRIES).value;
      && TablesInMemory(p'.mem, b) && p.free != []
      && PageAt(p'.mem, b, x).Mapped? && PageAt(p'.mem, b, x).frame == Top(p) && PageAt(p'.mem, b, x).pageFlags == 7
  {
    hide Separate, IdentityMapped, AllocPage, AllocPageVia;
    SaneTables(p, a);
    SaneTables(p, b);
    AllocPageIsVia(p, a, x / ENTRIES, x % ENTRIES);
    IntoTable(p, a, x / ENTRIES, x % ENTRIES);
  }

  lemma IntoTable(p: Pool, a: FrameNo, i: nat, j: nat)
    requires i < SELF_MAP && j < ENTRIES && Present(p.mem[a][i]) && FrameOf(p.mem[a][i]) < FRAMES && AllocPage(p, a, i, j).Some?
    ensures p.free != []
    ensures var t := FrameOf(p.mem[a][i]); AllocPage(p, a, i, j).value.mem == p.mem[t := p.mem[t][j := Entry(Top(p), 7)]]
  {
    hide Entry;
  }

  // ---------------------------------------------------------------- kernel stacks

  /** What is on the kernel stack of task `z`. */
  function StackOf(s: Spaces, z: nat): Words
    requires z in s.stacks
  {
    s.pool.mem[s.stacks[z]]
  }

  /** No other task's kernel stack changes. */
  ghost predicate StacksStay(s: Spaces, s': Spaces, but: nat) {
    forall z | z in s.stacks && z != but :: z in s'.stacks && s'.stacks[z] == s.stacks[z] && StackOf(s', z) == StackOf(s, z)
  }

  lemma ForkKeepsStacks(s: Spaces, t: nat, u: nat, kernelEnd: nat, regs: Registers)
    requires Ok(s, kernelEnd) && t in s.dirs && u !in s.dirs && u !in s.stacks && Forked(s, t, u, kernelEnd, regs).Some?
    ensures StacksStay(s, Forked(s, t, u, kernelEnd, regs).value, u)
  {
    hide Intact, Pair, Uses, FrameAt, CloneVia, Still, View, At, ChildStack;
    var p, a := s.pool, s.dirs[t];
    var (c, p1) := CloneVia(p, a, kernelEnd).value;
    CloneFacts(p, a, kernelEnd, c, p1);
    CloneLeavesIntact(p, a, kernelEnd, c, p1);
    var h := p1.free[|p1.free| - 1];
    StackIsOutside(p1, a, ChildStack(p1.mem[h], regs), kernelEnd);
    assert h in p.free;
    forall z | z in s.stacks ensures s.stacks[z] !in p.free { assert Outside(p, a, s.stacks[z]); }
  }

  /** Collecting a task gives back its kernel stack and its directory, and nothing else. */
  lemma CollectFrees(s: Spaces, z: nat, kernelEnd: nat)
    requires Ok(s, kernelEnd) && z in s.dirs
    ensures var s' := Collected(s, z);
      && z !in s'.dirs && z !in s'.stacks && s'.pool.mem == s.pool.mem && StacksStay(s, s', z)
      && |s'.pool.free| == |s.pool.free| + (if z in s.stacks then 2 else 1)
      && s.dirs[z] !in s.pool.free && (z in s.stacks ==> s.stacks[z] !in s.pool.free && s.stacks[z] != s.dirs[z])
      && forall f: FrameNo :: f in s'.pool.free <==> f in s.pool.free || f == s.dirs[z] || (z in s.stacks && f == s.stacks[z])
  {
    hide Ok;
    HeldFrames(s, z, kernelEnd);
    var free, a, b := s.pool.free, Held(s.stacks, z), Held(s.dirs, z);
    forall f: FrameNo ensures f in free + a + b <==> f in free || f in a || f in b { }
  }

  lemma HeldFrames(s: Spaces, z: nat, kernelEnd: nat)
    requires Ok(s, kernelEnd) && z in s.dirs
    ensures s.dirs[z] !in s.pool.free && (z in s.stacks ==> s.stacks[z] !in s.pool.free && s.stacks[z] != s.dirs[z])
  {
    hide Uses, FrameAt, Pair, Housed;
    OwnDirectory(s.pool, s.dirs[z]);
    if z in s.stacks { assert Outside(s.pool, s.dirs[z], s.stacks[z]); }
  }

  /** A fork and the collection of the child lose the frames of all pages and tables that the fork copied. */
  lemma ForkAndCollectLose(s: Spaces, t: nat, u: nat, kernelEnd: nat, regs: Registers)
    requires Ok(s, kernelEnd) && t in s.dirs && u !in s.dirs && u !in s.stacks && Forked(s, t, u, kernelEnd, regs).Some?
    ensures TablesInMemory(s.pool.mem, s.dirs[t])
    ensures |Collected(Forked(s, t, u, kernelEnd, regs).value, u).pool.free| ==
      |s.pool.free| - FramesNeeded(s.pool.mem, s.dirs[t], kernelEnd)
  {
    hide Ok, FramesNeeded, Forked, Collected;
    ForkIsFlat(s, t, u, kernelEnd, regs);
    ForkCosts(s, t, u, kernelEnd, regs);
    CollectFrees(Forked(s, t, u, kernelEnd, regs).value, u, kernelEnd);
  }

  lemma GrowKeepsStacks(s: Spaces, t: nat, x: nat, kernelEnd: nat, u: nat)
    requires Ok(s, kernelEnd) && t in s.dirs && TablesInMemory(s.pool.mem, s.dirs[t])
    requires x < LIMIT && MayGrow(s.pool.mem, s.dirs[t], kernelEnd, x) && Grown(s, t, x).Some?
    ensures StacksStay(s, Grown(s, t, x).value, u)
  {
    hide AllocPageVia, Intact, Pair, Uses, FrameAt, Seen, MayGrow, TableIsCopied;
    var p, a := s.pool, s.dirs[t];
    var p' := Grown(s, t, x).value.pool;
    assert AddsPage(p, a, kernelEnd, x, p');
    forall z | z in s.stacks ensures p'.mem[s.stacks[z]] == p.mem[s.stacks[z]] {
      assert Outside(p, a, s.stacks[z]);
      GrownElsewhere(p, a, kernelEnd, x, p', s.stacks[z]);
    }
  }

  lemma StoreKeepsStacks(s: Spaces, t: nat, x: nat, w: Words, kernelEnd: nat, u: nat)
    requires Ok(s, kernelEnd) && t in s.dirs && TablesInMemory(s.pool.mem, s.dirs[t]) && Stored(s, t, x, w).Some?
    ensures StacksStay(s, Stored(s, t, x, w).value, u)
  {
    hide Intact, Pair, Uses, FrameAt, Seen;
    forall z | z in s.stacks ensures s.stacks[z] != FrameAt(s.pool.mem, s.dirs[t], x) {
      assert Outside(s.pool, s.dirs[t], s.stacks[z]);
      UsesBelow(s.pool.mem, s.dirs[t], x);
    }
  }

  lemma UsesBelow(m: Memory, pd: FrameNo, x: nat)
    requires TablesInMemory(m, pd) && Uses(m, pd, x)
    ensures x < LIMIT
  {
  }

  // ---------------------------------------------------------------- the stack of free frames

  lemma {:induction false} FewBelow(n: nat, xs: set<nat>)
    requires forall x | x in xs :: x < n
    ensures |xs| <= n
  {
    if n == 0 {
      assert forall x :: x !in xs;
      assert xs <= {};
    } else {
      FewBelow(n - 1, xs - {n - 1});
    }
  }

  ghost function Elements(s: seq<FrameNo>): (xs: set<nat>)
    requires Distinct(s)
    ensures |xs| == |s| && (forall x :: x in xs <==> x in s)
  {
    if s == [] then {}
    else
      var n := |s| - 1;
      assert s == s[..n] + [s[n]] && forall k | 0 <= k < n :: s[..n][k] != s[n];
      Elements(s[..n]) + {s[n]}
  }

  /** pfa_free never overruns page_frames: the free frames are distinct. */
  lemma FreeFits(s: Spaces, kernelEnd: nat, t: nat)
    requires Ok(s, kernelEnd) && t in s.dirs
    ensures |s.pool.free| <= FRAMES
  {
    hide Outside, Apart;
    SaneTables(s.pool, s.dirs[t]);
    FewBelow(FRAMES, Elements(s.pool.free));
  }
}
