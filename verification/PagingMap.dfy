/** Mapping pages: what paging_map_page and paging_alloc_page change, and what paging_init sets up. */
module PagingMap {
  import opened PagingSpec

  lemma Popped(p: Pool, f: int)
    requires Distinct(p.free) && Pop(p).Some?
    ensures var (t, p1) := Pop(p).value;
      && t in p.free && t !in p1.free && Distinct(p1.free) && p1.mem == p.mem && (f in p.free <==> f in p1.free || f == t)
  {
    var n := |p.free| - 1;
    assert p.free == p.free[..n] + [p.free[n]];
  }

  /** The page leads to the frame with the flags asked for; every other page is where it was. */
  lemma MapPageMaps(p: Pool, pd: FrameNo, i: nat, j: nat, f: PhysFrame, flags: nat, k: nat, l: nat)
    requires Separate(p, pd) && i < SELF_MAP && j < ENTRIES && k < SELF_MAP && l < ENTRIES
    requires MapPage(p, pd, i, j, f, flags).Some?
    ensures var p' := MapPage(p, pd, i, j, f, flags).value;
      && TablesInMemory(p'.mem, pd)
      && Walk(p'.mem, pd, k, l) ==
           if (k, l) == (i, j) then
             Mapped(f, if Present(p.mem[pd][i]) then Flags(p.mem[pd][i]) else MapFlags(flags), MapFlags(flags))
           else Walk(p.mem, pd, k, l)
  {
    if p.free != [] { Popped(p, pd); }
  }

  /** A frame that user code may get as page `j` of entry `i`: neither free nor in use for paging, and, if
      it is memory, behind no other user page. */
  ghost predicate MayMap(p: Pool, pd: FrameNo, i: nat, j: nat, f: PhysFrame)
    requires TablesInMemory(p.mem, pd)
  {
    && f !in p.free && f != pd && (forall k | 0 <= k < SELF_MAP && Present(p.mem[pd][k]) :: f != FrameOf(p.mem[pd][k]))
    && forall k, l | 0 <= k < SELF_MAP && 0 <= l < ENTRIES && UserPage(p.mem, pd, k, l) && (k, l) != (i, j) ::
      PageFrame(p.mem, pd, k, l) != f || f >= FRAMES
  }

  /** A mapping for user code keeps the address space separate if its frame is not in use. */
  lemma MapPageKeepsSeparate(p: Pool, pd: FrameNo, i: nat, j: nat, f: PhysFrame, flags: nat)
    requires Separate(p, pd) && i < SELF_MAP && j < ENTRIES && MapPage(p, pd, i, j, f, flags).Some?
    requires TablesInMemory(p.mem, pd) && (flags / 4 % 2 == 1 ==> MayMap(p, pd, i, j, f))
    ensures Separate(MapPage(p, pd, i, j, f, flags).value, pd)
  {
    hide Entry, MapFlags, PageFrame, MapPage, Separate;
    var p' := MapPage(p, pd, i, j, f, flags).value;
    MappedTables(p, pd, i, j, f, flags);
    forall k, l | 0 <= k < SELF_MAP && 0 <= l < ENTRIES && UserPage(p'.mem, pd, k, l)
      ensures PageFrame(p'.mem, pd, k, l) !in p'.free && PageFrame(p'.mem, pd, k, l) != pd
      ensures forall n | 0 <= n < SELF_MAP && Present(p'.mem[pd][n]) :: PageFrame(p'.mem, pd, k, l) != FrameOf(p'.mem[pd][n])
    {
      MappedUserPage(p, pd, i, j, f, flags, k, l);
      if (k, l) != (i, j) { UserFrameFacts(p, pd, k, l); }
    }
    forall k, l, n, o | 0 <= k < SELF_MAP && 0 <= l < ENTRIES && 0 <= n < SELF_MAP && 0 <= o < ENTRIES &&
        UserPage(p'.mem, pd, k, l) && UserPage(p'.mem, pd, n, o) && (k, l) != (n, o)
      ensures PageFrame(p'.mem, pd, k, l) != PageFrame(p'.mem, pd, n, o) || PageFrame(p'.mem, pd, k, l) >= FRAMES
    {
      MappedUserPage(p, pd, i, j, f, flags, k, l);
      MappedUserPage(p, pd, i, j, f, flags, n, o);
      if (k, l) != (i, j) && (n, o) != (i, j) { UserFramesDiffer(p, pd, k, l, n, o); }
    }
    assert Separate(p', pd) by { SeparateParts(p', pd); }
  }

  lemma SeparateParts(p: Pool, pd: FrameNo)
    requires SelfMapped(p.mem, pd) && Distinct(p.free) && pd !in p.free && TablesInMemory(p.mem, pd) && Unshared(p.mem, pd)
    requires forall i, k | 0 <= i < k < SELF_MAP && Present(p.mem[pd][i]) && Present(p.mem[pd][k]) ::
      FrameOf(p.mem[pd][i]) != FrameOf(p.mem[pd][k])
    requires forall i | 0 <= i < SELF_MAP && Present(p.mem[pd][i]) :: FrameOf(p.mem[pd][i]) !in p.free && FrameOf(p.mem[pd][i]) != pd
    requires forall i, j | 0 <= i < SELF_MAP && 0 <= j < ENTRIES && UserPage(p.mem, pd, i, j) ::
      && PageFrame(p.mem, pd, i, j) !in p.free && PageFrame(p.mem, pd, i, j) != pd
      && forall k | 0 <= k < SELF_MAP && Present(p.mem[pd][k]) :: PageFrame(p.mem, pd, i, j) != FrameOf(p.mem[pd][k])
    ensures Separate(p, pd)
  {
  }

  lemma UserFrameFacts(p: Pool, pd: FrameNo, k: nat, l: nat)
    requires Separate(p, pd) && k < SELF_MAP && l < ENTRIES && TablesInMemory(p.mem, pd) && UserPage(p.mem, pd, k, l)
    ensures Present(p.mem[pd][k])
    ensures PageFrame(p.mem, pd, k, l) !in p.free && PageFrame(p.mem, pd, k, l) != pd
    ensures forall n | 0 <= n < SELF_MAP && Present(p.mem[pd][n]) :: PageFrame(p.mem, pd, k, l) != FrameOf(p.mem[pd][n])
  {
  }

  lemma UserFramesDiffer(p: Pool, pd: FrameNo, k: nat, l: nat, n: nat, o: nat)
    requires Separate(p, pd) && k < SELF_MAP && l < ENTRIES && n < SELF_MAP && o < ENTRIES && TablesInMemory(p.mem, pd)
    requires UserPage(p.mem, pd, k, l) && UserPage(p.mem, pd, n, o) && (k, l) != (n, o)
    ensures Present(p.mem[pd][k]) && Present(p.mem[pd][n])
    ensures PageFrame(p.mem, pd, k, l) != PageFrame(p.mem, pd, n, o) || PageFrame(p.mem, pd, k, l) >= FRAMES
  {
  }

  /** The directory after a mapping: at most one table is new, and it was a free frame. */
  lemma MappedTables(p: Pool, pd: FrameNo, i: nat, j: nat, f: PhysFrame, flags: nat)
    requires Separate(p, pd) && i < SELF_MAP && j < ENTRIES && TablesInMemory(p.mem, pd) && MapPage(p, pd, i, j, f, flags).Some?
    ensures var p' := MapPage(p, pd, i, j, f, flags).value;
      && SelfMapped(p'.mem, pd) && TablesInMemory(p'.mem, pd) && Distinct(p'.free) && pd !in p'.free
      && (forall g :: g in p'.free ==> g in p.free)
      && (forall k | 0 <= k < ENTRIES && k != i :: p'.mem[pd][k] == p.mem[pd][k])
      && Present(p'.mem[pd][i]) && (p'.mem[pd][i] == p.mem[pd][i] || (!Present(p.mem[pd][i]) && FrameOf(p'.mem[pd][i]) in p.free))
      && (forall k, n | 0 <= k < n < SELF_MAP && Present(p'.mem[pd][k]) && Present(p'.mem[pd][n]) ::
            FrameOf(p'.mem[pd][k]) != FrameOf(p'.mem[pd][n]))
      && (forall k | 0 <= k < SELF_MAP && Present(p'.mem[pd][k]) :: FrameOf(p'.mem[pd][k]) !in p'.free && FrameOf(p'.mem[pd][k]) != pd)
  {
    hide Entry, MapFlags, Unshared;
    if p.free != [] { Popped(p, pd); }
  }

  lemma MappedUserPage(p: Pool, pd: FrameNo, i: nat, j: nat, f: PhysFrame, flags: nat, k: nat, l: nat)
    requires Separate(p, pd) && i < SELF_MAP && j < ENTRIES && TablesInMemory(p.mem, pd) && MapPage(p, pd, i, j, f, flags).Some?
    requires k < SELF_MAP && l < ENTRIES && TablesInMemory(MapPage(p, pd, i, j, f, flags).value.mem, pd)
    ensures var p' := MapPage(p, pd, i, j, f, flags).value;
      && (UserPage(p'.mem, pd, k, l) ==> Present(p'.mem[pd][k]))
      && if (k, l) == (i, j) then
           (UserPage(p'.mem, pd, k, l) <==> flags / 4 % 2 == 1) && Present(p'.mem[pd][k]) && PageFrame(p'.mem, pd, k, l) == f
         else
           && (UserPage(p'.mem, pd, k, l) <==> UserPage(p.mem, pd, k, l))
           && (UserPage(p.mem, pd, k, l) ==>
                Present(p.mem[pd][k]) && Present(p'.mem[pd][k]) && PageFrame(p'.mem, pd, k, l) == PageFrame(p.mem, pd, k, l))
  {
    hide MapFlags, Unshared;
    if p.free != [] { Popped(p, pd); }
  }

  /** paging_alloc_page: the page gets a frame that was free, all other pages stay, and the address
      space stays separate. */
  lemma AllocPageMaps(p: Pool, pd: FrameNo, i: nat, j: nat, k: nat, l: nat)
    requires Separate(p, pd) && i < SELF_MAP && j < ENTRIES && k < SELF_MAP && l < ENTRIES && AllocPage(p, pd, i, j).Some?
    ensures var p' := AllocPage(p, pd, i, j).value;
      && Separate(p', pd)
      && var w := Walk(p'.mem, pd, k, l);
      if (k, l) == (i, j) then w.Mapped? && w.pageFlags == 7 && w.frame in p.free && w.frame !in p'.free
      else w == Walk(p.mem, pd, k, l)
  {
    hide MapPage;
    var (f, p1) := Pop(p).value;
    Popped(p, f);
    StillSeparate(p, p1, pd);
    MapPageMaps(p1, pd, i, j, f, 7, k, l);
    MapPageKeepsSeparate(p1, pd, i, j, f, 7);
    MapPageFree(p1, pd, i, j, f, 7);
  }

  lemma MapPageFree(p: Pool, pd: FrameNo, i: nat, j: nat, f: PhysFrame, flags: nat)
    requires Separate(p, pd) && i < SELF_MAP && j < ENTRIES && MapPage(p, pd, i, j, f, flags).Some?
    ensures forall g :: g in MapPage(p, pd, i, j, f, flags).value.free ==> g in p.free
  {
  }

  lemma StillSeparate(p: Pool, p1: Pool, pd: FrameNo)
    requires Separate(p, pd) && p1.mem == p.mem && Distinct(p1.free) && forall f :: f in p1.free ==> f in p.free
    ensures Separate(p1, pd)
  {
  }

  /** paging_init: the first 4 MB are mapped to themselves, for the kernel only, and nothing else is. */
  lemma InitMaps(p: Pool, i: nat, j: nat)
    requires Distinct(p.free) && Init(p).Some? && i < SELF_MAP && j < ENTRIES
    ensures var (pd, p') := Init(p).value;
      && Separate(p', pd) && Walk(p'.mem, pd, i, j) == if i == 0 then Mapped(j, 3, 3) else Unmapped
  {
    Popped(p, 0);
    Popped(Pop(p).value.1, 0);
    var (pd, p') := Init(p).value;
    InitEntries(p);
    assert forall k, l | 0 <= k < SELF_MAP && 0 <= l < ENTRIES :: !UserPage(p'.mem, pd, k, l);
  }

  lemma InitEntries(p: Pool)
    requires Distinct(p.free) && Init(p).Some?
    ensures var (pd, p') := Init(p).value;
      && (forall i | 0 <= i < SELF_MAP :: Present(p'.mem[pd][i]) <==> i == 0) && FrameOf(p'.mem[pd][0]) < FRAMES
      && FrameOf(p'.mem[pd][0]) != pd && Flags(p'.mem[pd][0]) == 3
      && FrameOf(p'.mem[pd][0]) in p.free && FrameOf(p'.mem[pd][0]) !in p'.free && pd !in p'.free
      && forall j | 0 <= j < ENTRIES ::
           var e := p'.mem[FrameOf(p'.mem[pd][0])][j]; Present(e) && !User(e) && FrameOf(e) == j && Flags(e) == 3
  {
    Popped(p, 0);
    var p1 := Pop(p).value.1;
    Popped(p1, 0);
    forall f: nat | f < FRAMES
      ensures var e := f * PAGE_SIZE + 3; e % 2 == 1 && e / 4 % 2 == 0 && e / PAGE_SIZE == f && e % PAGE_SIZE == 3
    {
      EntryBits(f, 3);
    }
  }
}
