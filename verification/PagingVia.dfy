/** How kernel/paging.c reaches memory: physical addresses are used as virtual ones, so entry 0 of the
    active directory has to map every frame in use to itself; old tables are reached through the self-map
    in entry 1023. Where that holds, cloning through these addresses is cloning frames. */
module PagingVia {
  import opened Wrappers
  import opened PagingSpec
  import opened PagingClone
  import opened PagingFork
  import opened PagingMap

  // ---------------------------------------------------------------- memory as the processor sees it

  /** The frame of memory that the processor reaches at page `j` of entry `i`; None where it faults or
      reaches a device. Behind entry 1023 the directory itself serves as the table. */
  function Reached(m: Memory, pd: FrameNo, i: nat, j: nat): Option<FrameNo>
    requires i < ENTRIES && j < ENTRIES
  {
    if !Present(m[pd][i]) || FrameOf(m[pd][i]) >= FRAMES then None
    else
      var e := m[FrameOf(m[pd][i])][j];
      if !Present(e) || FrameOf(e) >= FRAMES then None else Some(FrameOf(e))
  }

  /** What the address of frame `f` leads to. */
  function At(m: Memory, pd: FrameNo, f: FrameNo): Option<FrameNo> { Reached(m, pd, 0, f) }

  predicate Seen(m: Memory, pd: FrameNo, f: nat) { f < FRAMES && At(m, pd, f) == Some(f) }

  /** `table[j] = e` at the address of frame `f`. */
  function StoreAt(p: Pool, pd: FrameNo, f: FrameNo, j: nat, e: u32): Option<Pool>
    requires j < ENTRIES
  {
    match At(p.mem, pd, f)
    case None => None
    case Some(g) => Some(Poke(p, g, j, e))
  }

  /** memcpy or memset of a whole page at the address of frame `f`. */
  function FillAt(p: Pool, pd: FrameNo, f: FrameNo, w: Words): Option<Pool> {
    match At(p.mem, pd, f)
    case None => None
    case Some(g) => Some(WithWords(p, g, w))
  }

  // ---------------------------------------------------------------- paging_clone_directory

  function CopyOneVia(p: Pool, pd: FrameNo, new1: FrameNo, i: nat, kernelEnd: nat, j: nat): Option<Pool>
    requires i < SELF_MAP && j < ENTRIES
  {
    match Reached(p.mem, pd, SELF_MAP, i)
    case None => None
    case Some(old1) =>
      var e := p.mem[old1][j];
      if !Present(e) then Some(p)
      else if Keeps(i, j, e, kernelEnd) then StoreAt(p, pd, new1, j, e)
      else if p.free == [] then None
      else
        var (f, p1) := Pop(p).value;
        match Leads(p1, pd, FrameOf(e))
        case None => None
        case Some(from) =>
          match FillAt(p1, pd, f, Contents(p1, from))
          case None => None
          case Some(p2) => StoreAt(p2, pd, new1, j, WithFrame(f, e))
  }

  function CopyTableVia(p: Pool, pd: FrameNo, new1: FrameNo, i: nat, kernelEnd: nat, j: nat := 0): Option<Pool>
    requires i < SELF_MAP && j <= ENTRIES
    decreases ENTRIES - j
  {
    if j == ENTRIES then Some(p)
    else
      match CopyOneVia(p, pd, new1, i, kernelEnd, j)
      case None => None
      case Some(p1) => CopyTableVia(p1, pd, new1, i, kernelEnd, j + 1)
  }

  /** Whether the table is copied: the search for user pages goes through the self-map. */
  function CopiesVia(m: Memory, pd: FrameNo, i: nat, pde: u32, kernelEnd: nat): Option<bool>
    requires i < SELF_MAP
  {
    if i > 1 then Some(User(pde))
    else
      match Reached(m, pd, SELF_MAP, i)
      case None => None
      case Some(t) => Some(HasUserPage(m[t], i, kernelEnd))
  }

  function CopiedEntryVia(p: Pool, pd: FrameNo, npd: FrameNo, i: nat, pde: u32, kernelEnd: nat): Option<Pool>
    requires i < SELF_MAP
  {
    match Pop(p)
    case None => None
    case Some((t, p1)) =>
      match FillAt(p1, pd, t, Zeroed())
      case None => None
      case Some(p2) =>
        match CopyTableVia(p2, pd, t, i, kernelEnd)
        case None => None
        case Some(p3) => StoreAt(p3, pd, npd, i, WithFrame(t, pde))
  }

  function CloneEntryVia(p: Pool, pd: FrameNo, npd: FrameNo, i: nat, kernelEnd: nat): Option<Pool>
    requires i < SELF_MAP
  {
    match At(p.mem, pd, pd)
    case None => None
    case Some(d) =>
      var pde := p.mem[d][i];
      if !Present(pde) then StoreAt(p, pd, npd, i, 0)
      else
        match CopiesVia(p.mem, pd, i, pde, kernelEnd)
        case None => None
        case Some(copies) =>
          if copies then CopiedEntryVia(p, pd, npd, i, pde, kernelEnd) else StoreAt(p, pd, npd, i, pde)
  }

  function CloneFromVia(p: Pool, pd: FrameNo, npd: FrameNo, kernelEnd: nat, i: nat := 0): Option<Pool>
    requires i <= SELF_MAP
    decreases SELF_MAP - i
  {
    if i == SELF_MAP then Some(p)
    else
      match CloneEntryVia(p, pd, npd, i, kernelEnd)
      case None => None
      case Some(p1) => CloneFromVia(p1, pd, npd, kernelEnd, i + 1)
  }

  /** paging_clone_directory with every access at a virtual address; None where the kernel panics or
      faults, or where a table is read from a device or a page is written to one. */
  function CloneVia(p: Pool, pd: FrameNo, kernelEnd: nat): Option<(FrameNo, Pool)> {
    match Pop(p)
    case None => None
    case Some((npd, p1)) =>
      match CloneFromVia(p1, pd, npd, kernelEnd)
      case None => None
      case Some(p2) =>
        match StoreAt(p2, pd, npd, SELF_MAP, npd * PAGE_SIZE + 3)
        case None => None
        case Some(p3) => Some((npd, p3))
  }

  // ---------------------------------------------------------------- paging_map_page

  /** The directory is reached at its own address, the table through the self-map. */
  function MapPageVia(p: Pool, pd: FrameNo, i: nat, j: nat, f: PhysFrame, flags: nat): Option<Pool>
    requires i < SELF_MAP && j < ENTRIES
  {
    match At(p.mem, pd, pd)
    case None => None
    case Some(d) =>
      match (if Present(p.mem[d][i]) then Some(p) else WithTableVia(p, pd, d, i, flags))
      case None => None
      case Some(p1) =>
        match Reached(p1.mem, pd, SELF_MAP, i)
        case None => None
        case Some(t) => Some(Poke(p1, t, j, Entry(f, flags)))
  }

  function WithTableVia(p: Pool, pd: FrameNo, d: FrameNo, i: nat, flags: nat): Option<Pool>
    requires i < SELF_MAP
  {
    match Pop(p)
    case None => None
    case Some((t, p1)) =>
      var p2 := Poke(p1, d, i, Entry(t, 0));
      match Reached(p2.mem, pd, SELF_MAP, i)
      case None => None
      case Some(t') => Some(Poke(WithWords(p2, t', Zeroed()), d, i, Entry(t, flags)))
  }

  /** paging_alloc_page. */
  function AllocPageVia(p: Pool, pd: FrameNo, i: nat, j: nat): Option<Pool>
    requires i < SELF_MAP && j < ENTRIES
  {
    match Pop(p)
    case None => None
    case Some((f, p1)) => MapPageVia(p1, pd, i, j, f, 7)
  }

  // ---------------------------------------------------------------- the condition

  /** Entry 0 maps to itself everything that paging uses: the directory, its tables, the free frames, and
      the frames behind user pages. */
  ghost predicate IdentityMapped(p: Pool, pd: FrameNo)
    requires TablesInMemory(p.mem, pd)
  {
    && Seen(p.mem, pd, pd) && (forall f | f in p.free :: Seen(p.mem, pd, f))
    && (forall i | 0 <= i < SELF_MAP && Present(p.mem[pd][i]) :: Seen(p.mem, pd, FrameOf(p.mem[pd][i])))
    && (forall i, j | 0 <= i < SELF_MAP && 0 <= j < ENTRIES && UserPage(p.mem, pd, i, j) && PageFrame(p.mem, pd, i, j) < FRAMES ::
          Seen(p.mem, pd, PageFrame(p.mem, pd, i, j)))
  }

  ghost predicate Sane(p: Pool, pd: FrameNo) { Separate(p, pd) && IdentityMapped(p, pd) }

  /** The part of it that a clone relies on: the tables and the pages that it does not copy may be anywhere. */
  ghost predicate CloneSeen(p: Pool, pd: FrameNo, kernelEnd: nat)
    requires TablesInMemory(p.mem, pd)
  {
    && Seen(p.mem, pd, pd) && (forall f | f in p.free :: Seen(p.mem, pd, f))
    && (forall i, j | 0 <= i < SELF_MAP && 0 <= j < ENTRIES && Copied(p.mem, pd, kernelEnd, i, j) && PageFrame(p.mem, pd, i, j) < FRAMES ::
          Seen(p.mem, pd, PageFrame(p.mem, pd, i, j)))
  }

  lemma SaneIsSeen(p: Pool, pd: FrameNo, kernelEnd: nat)
    requires Sane(p, pd)
    ensures Separate(p, pd) && TablesInMemory(p.mem, pd) && CloneSeen(p, pd, kernelEnd)
  {
    hide Reached, InKernel;
    forall i, j | 0 <= i < SELF_MAP && 0 <= j < ENTRIES && Copied(p.mem, pd, kernelEnd, i, j) ensures UserPage(p.mem, pd, i, j) { }
  }

  /** The part of it that mapping pages relies on: the directory is reached at its own address and through
      itself. */
  ghost predicate Rooted(p: Pool, pd: FrameNo) {
    Separate(p, pd) && Seen(p.mem, pd, pd)
  }

  lemma SaneIsRooted(p: Pool, pd: FrameNo)
    requires Sane(p, pd)
    ensures Rooted(p, pd)
  {
  }

  /** While the directory and its tables stay, addresses lead where they led. */
  lemma SameView(m: Memory, m': Memory, pd: FrameNo)
    requires SameTables(m, m', pd)
    ensures forall f: FrameNo :: At(m', pd, f) == At(m, pd, f)
    ensures SelfMapped(m, pd) ==>
      forall i | 0 <= i < ENTRIES :: Reached(m', pd, SELF_MAP, i) == Reached(m, pd, SELF_MAP, i)
  {
  }

  lemma SelfMapReaches(m: Memory, pd: FrameNo, i: nat)
    requires SelfMapped(m, pd)
    requires i < SELF_MAP && Present(m[pd][i]) && FrameOf(m[pd][i]) < FRAMES
    ensures Reached(m, pd, SELF_MAP, i) == Some(FrameOf(m[pd][i]))
  {
  }

  // ---------------------------------------------------------------- one table

  /** Everything the copying of table `i` touches is where its address says. */
  ghost predicate TableReady(p: Pool, pd: FrameNo, new1: FrameNo, i: nat, kernelEnd: nat)
    requires i < SELF_MAP
  {
    && Anchored(p, pd, new1) && Present(p.mem[pd][i]) && Present(p.mem[pd][0]) && CopyReady(p, pd, FrameOf(p.mem[pd][i]), new1)
    && Seen(p.mem, pd, new1) && (forall f | f in p.free :: Seen(p.mem, pd, f))
    && forall l | 0 <= l < ENTRIES :: MovedIsSeen(p.mem, pd, i, kernelEnd, p.mem[FrameOf(p.mem[pd][i])][l], l)
  }

  predicate MovedIsSeen(m: Memory, pd: FrameNo, i: nat, kernelEnd: nat, e: u32, l: nat) {
    Present(e) && !Keeps(i, l, e, kernelEnd) && FrameOf(e) < FRAMES ==> Seen(m, pd, FrameOf(e))
  }

  /** Only entry 0's table and the directory decide what an address leads to. */
  lemma SeenStays(m: Memory, m': Memory, pd: FrameNo)
    requires Present(m[pd][0]) && FrameOf(m[pd][0]) < FRAMES && m'[pd] == m[pd] && m'[FrameOf(m[pd][0])] == m[FrameOf(m[pd][0])]
    ensures forall f: FrameNo :: At(m', pd, f) == At(m, pd, f)
  {
  }

  /** What memcpy reads: the page that the address leads to. */
  lemma LeadsAlike(p: Pool, p1: Pool, pd: FrameNo, f: nat)
    requires p1.mem == p.mem && p1.dev == p.dev && f < ENTRIES * ENTRIES && (f < FRAMES ==> Seen(p.mem, pd, f))
    ensures Leads(p1, pd, f) == Source(p, pd, f)
  {
  }

  lemma CopyOneIsVia(p: Pool, pd: FrameNo, new1: FrameNo, i: nat, kernelEnd: nat, j: nat)
    requires i < SELF_MAP && j < ENTRIES && TableReady(p, pd, new1, i, kernelEnd)
    ensures FrameOf(p.mem[pd][i]) < FRAMES
    ensures CopyOneVia(p, pd, new1, i, kernelEnd, j) == CopyOne(p, pd, FrameOf(p.mem[pd][i]), new1, i, kernelEnd, j)
  {
    hide Keeps, Reached, WithFrame, CopyReady, Leads;
    SelfMapReaches(p.mem, pd, i);
    var e := p.mem[FrameOf(p.mem[pd][i])][j];
    assert MovedIsSeen(p.mem, pd, i, kernelEnd, e, j);
    if Present(e) && !Keeps(i, j, e, kernelEnd) && p.free != [] {
      var (f, p1) := Pop(p).value;
      assert f in p.free;
      LeadsAlike(p, p1, pd, FrameOf(e));
      if Source(p, pd, FrameOf(e)).Some? {
        SeenStays(p.mem, WithWords(p1, f, Contents(p1, Source(p, pd, FrameOf(e)).value)).mem, pd);
      }
    }
  }

  lemma TableStaysReady(p: Pool, p1: Pool, pd: FrameNo, new1: FrameNo, i: nat, kernelEnd: nat)
    requires i < SELF_MAP && TableReady(p, pd, new1, i, kernelEnd) && Grows(p, p1, new1)
    requires p1.mem[FrameOf(p.mem[pd][i])] == p.mem[FrameOf(p.mem[pd][i])] && CopyReady(p1, pd, FrameOf(p.mem[pd][i]), new1)
    ensures TableReady(p1, pd, new1, i, kernelEnd) && p1.mem[pd] == p.mem[pd]
  {
    hide Reached, CopyReady;
    ReadyIsDistinct(p, pd, FrameOf(p.mem[pd][i]), new1);
    NotDrawn(p, p1, pd);
    NotDrawn(p, p1, FrameOf(p.mem[pd][0]));
    FewerFree(p, p1, new1);
    SeenStays(p.mem, p1.mem, pd);
  }

  lemma {:induction false} CopyTableIsVia(p: Pool, pd: FrameNo, new1: FrameNo, i: nat, kernelEnd: nat, j: nat)
    requires i < SELF_MAP && j <= ENTRIES && TableReady(p, pd, new1, i, kernelEnd)
    ensures FrameOf(p.mem[pd][i]) < FRAMES
    ensures CopyTableVia(p, pd, new1, i, kernelEnd, j) == CopyTable(p, pd, FrameOf(p.mem[pd][i]), new1, i, kernelEnd, j)
    decreases ENTRIES - j
  {
    hide CopyOneVia, CopyOne, CopyReady, Seen;
    var old1 := FrameOf(p.mem[pd][i]);
    if j < ENTRIES {
      CopyOneIsVia(p, pd, new1, i, kernelEnd, j);
      if CopyOne(p, pd, old1, new1, i, kernelEnd, j).Some? {
        var p1 := CopyOne(p, pd, old1, new1, i, kernelEnd, j).value;
        CopyOneFacts(p, pd, old1, new1, i, kernelEnd, j);
        TableStaysReady(p, p1, pd, new1, i, kernelEnd);
        CopyTableIsVia(p1, pd, new1, i, kernelEnd, j + 1);
      }
    }
  }

  // ---------------------------------------------------------------- the directory

  ghost predicate ViaReady(p: Pool, pd: FrameNo, npd: FrameNo, kernelEnd: nat) {
    CloneReady(p, pd, npd) && CloneSeen(p, pd, kernelEnd) && Seen(p.mem, pd, npd)
  }

  lemma TableStartsReady(p: Pool, pd: FrameNo, npd: FrameNo, i: nat, kernelEnd: nat)
    requires ViaReady(p, pd, npd, kernelEnd) && i < SELF_MAP && Present(p.mem[pd][i]) && p.free != []
    requires FrameOf(p.mem[pd][i]) < FRAMES && CopiesTable(p.mem, i, p.mem[pd][i], kernelEnd)
    ensures var (t, p1) := Pop(p).value;
      && Seen(p.mem, pd, t) && t != npd
      && TableReady(WithWords(p1, t, Zeroed()), pd, t, i, kernelEnd) && p1.mem == p.mem && WithWords(p1, t, Zeroed()).mem[pd] == p.mem[pd]
  {
    hide Reached, Keeps, CopiesTable;
    var (t, p1) := Pop(p).value;
    var old1 := FrameOf(p.mem[pd][i]);
    Popped(p, t);
    assert forall f :: f in p1.free ==> f in p.free;
    forall l | 0 <= l < ENTRIES && UserEntry(p.mem[old1][l]) ensures FrameOf(p.mem[old1][l]) !in p.free {
      assert UserPage(p.mem, pd, i, l);
    }
    forall l | 0 <= l < ENTRIES ensures MovedIsSeen(p.mem, pd, i, kernelEnd, p.mem[old1][l], l) {
      if Present(p.mem[old1][l]) { CopiedMeans(p.mem, pd, kernelEnd, i, l); }
    }
    assert Present(p.mem[pd][0]) && FrameOf(p.mem[pd][0]) < FRAMES by { SeenHasTable(p.mem, pd); }
    SeenStays(p.mem, WithWords(p1, t, Zeroed()).mem, pd);
  }

  lemma SeenHasTable(m: Memory, pd: FrameNo)
    requires Seen(m, pd, pd)
    ensures Present(m[pd][0]) && FrameOf(m[pd][0]) < FRAMES
  {
  }

  lemma CopiedEntryIsVia(p: Pool, pd: FrameNo, npd: FrameNo, i: nat, kernelEnd: nat)
    requires ViaReady(p, pd, npd, kernelEnd) && i < SELF_MAP && Present(p.mem[pd][i])
    requires FrameOf(p.mem[pd][i]) < FRAMES && CopiesTable(p.mem, i, p.mem[pd][i], kernelEnd)
    ensures CopiedEntryVia(p, pd, npd, i, p.mem[pd][i], kernelEnd) == CloneEntry(p, pd, npd, i, kernelEnd)
  {
    hide CopyTable, CopyTableVia, CloneReady, CloneSeen, Reached, TableReady, WithFrame, CopiesTable, HasUserPage;
    if p.free != [] {
      var old1 := FrameOf(p.mem[pd][i]);
      var (t, p1) := Pop(p).value;
      var q := WithWords(p1, t, Zeroed());
      TableStartsReady(p, pd, npd, i, kernelEnd);
      CopyTableIsVia(q, pd, t, i, kernelEnd, 0);
      if CopyTable(q, pd, old1, t, i, kernelEnd).Some? {
        var p2 := CopyTable(q, pd, old1, t, i, kernelEnd).value;
        CopyReadyOf(q, pd, t, i, kernelEnd);
        CopyTableGrows(q, pd, old1, t, i, kernelEnd, 0);
        ViewAfterTable(p, q, p2, pd, npd, t, kernelEnd);
      }
    }
  }

  lemma CopyReadyOf(p: Pool, pd: FrameNo, new1: FrameNo, i: nat, kernelEnd: nat)
    requires i < SELF_MAP && TableReady(p, pd, new1, i, kernelEnd)
    ensures FrameOf(p.mem[pd][i]) < FRAMES && CopyReady(p, pd, FrameOf(p.mem[pd][i]), new1)
  {
  }

  lemma ViewAfterTable(p: Pool, q: Pool, p2: Pool, pd: FrameNo, npd: FrameNo, t: FrameNo, kernelEnd: nat)
    requires ViaReady(p, pd, npd, kernelEnd) && p.free != [] && t == p.free[|p.free| - 1]
    requires q == WithWords(Pop(p).value.1, t, Zeroed()) && Grows(q, p2, t)
    ensures At(p2.mem, pd, npd) == Some(npd)
  {
    hide Reached;
    SeenHasTable(p.mem, pd);
    Popped(p, pd);
    Popped(p, FrameOf(p.mem[pd][0]));
    NotDrawn(q, p2, pd);
    NotDrawn(q, p2, FrameOf(p.mem[pd][0]));
    SeenStays(p.mem, p2.mem, pd);
  }

  lemma CloneEntryIsVia(p: Pool, pd: FrameNo, npd: FrameNo, i: nat, kernelEnd: nat)
    requires ViaReady(p, pd, npd, kernelEnd) && i < SELF_MAP
    ensures TablesInMemory(p.mem, pd)
    ensures CloneEntryVia(p, pd, npd, i, kernelEnd) == CloneEntry(p, pd, npd, i, kernelEnd)
  {
    hide CopyTable, CopiedEntryVia, CloneReady, Reached, WithFrame, HasUserPage;
    ReadyFacts(p, pd, npd);
    ReadyIsAnchored(p, pd, npd);
    if Present(p.mem[pd][i]) {
      SelfMapReaches(p.mem, pd, i);
      if CopiesTable(p.mem, i, p.mem[pd][i], kernelEnd) { CopiedEntryIsVia(p, pd, npd, i, kernelEnd); }
    }
  }

  /** Fewer free frames, the same tables: what was mapped to itself still is. */
  lemma IdentityStays(p: Pool, p': Pool, pd: FrameNo)
    requires TablesInMemory(p.mem, pd) && IdentityMapped(p, pd) && SameTables(p.mem, p'.mem, pd)
    requires forall f :: f in p'.free ==> f in p.free
    ensures TablesInMemory(p'.mem, pd) && IdentityMapped(p', pd)
  {
    hide Reached;
    SameView(p.mem, p'.mem, pd);
    SameUserPages(p.mem, p'.mem, pd);
  }

  lemma CloneSeenStays(p: Pool, p': Pool, pd: FrameNo, kernelEnd: nat)
    requires TablesInMemory(p.mem, pd) && CloneSeen(p, pd, kernelEnd) && SameTables(p.mem, p'.mem, pd)
    requires forall f :: f in p'.free ==> f in p.free
    ensures TablesInMemory(p'.mem, pd) && CloneSeen(p', pd, kernelEnd)
  {
    hide Reached, InKernel;
    SameView(p.mem, p'.mem, pd);
    SameUserPages(p.mem, p'.mem, pd);
    forall i, j | 0 <= i < SELF_MAP && 0 <= j < ENTRIES
      ensures Copied(p'.mem, pd, kernelEnd, i, j) <==> Copied(p.mem, pd, kernelEnd, i, j)
    {
    }
  }

  lemma {:induction false} CloneFromIsVia(p: Pool, pd: FrameNo, npd: FrameNo, kernelEnd: nat, i: nat)
    requires i <= SELF_MAP && ViaReady(p, pd, npd, kernelEnd)
    ensures CloneFromVia(p, pd, npd, kernelEnd, i) == CloneFrom(p, pd, npd, kernelEnd, i)
    decreases SELF_MAP - i
  {
    hide CloneEntry, CloneEntryVia, CloneReady, CloneSeen, Reached, Grows;
    ReadyFacts(p, pd, npd);
    if i < SELF_MAP {
      CloneEntryIsVia(p, pd, npd, i, kernelEnd);
      if CloneEntry(p, pd, npd, i, kernelEnd).Some? {
        var p1 := CloneEntry(p, pd, npd, i, kernelEnd).value;
        CloneEntryFacts(p, pd, npd, i, kernelEnd);
        ParentSame(p, p1, pd, npd);
        FewerFree(p, p1, npd);
        CloneSeenStays(p, p1, pd, kernelEnd);
        SameView(p.mem, p1.mem, pd);
        CloneFromIsVia(p1, pd, npd, kernelEnd, i + 1);
      }
    }
  }

  /** Cloning through addresses is cloning frames. */
  lemma CloneIsVia(p: Pool, pd: FrameNo, kernelEnd: nat)
    requires Sane(p, pd)
    ensures CloneVia(p, pd, kernelEnd) == Clone(p, pd, kernelEnd)
  {
    hide Clone, CloneVia, Sane, CloneSeen;
    SaneIsSeen(p, pd, kernelEnd);
    SeenCloneIsVia(p, pd, kernelEnd);
  }

  /** It is enough that what the clone touches is where its address says. */
  lemma SeenCloneIsVia(p: Pool, pd: FrameNo, kernelEnd: nat)
    requires Separate(p, pd) && TablesInMemory(p.mem, pd) && CloneSeen(p, pd, kernelEnd)
    ensures CloneVia(p, pd, kernelEnd) == Clone(p, pd, kernelEnd)
  {
    hide CloneFrom, CloneFromVia, CloneReady, Reached, Separate, Copied;
    SeparateIsDistinct(p, pd);
    if Pop(p).Some? {
      var (npd, p1) := Pop(p).value;
      Started(p, pd);
      Popped(p, npd);
      SelfMapIs(p, pd);
      assert forall f :: f in p1.free ==> f in p.free;
      CloneSeenStays(p, p1, pd, kernelEnd);
      CloneFromIsVia(p1, pd, npd, kernelEnd, 0);
      if CloneFrom(p1, pd, npd, kernelEnd).Some? {
        var p2 := CloneFrom(p1, pd, npd, kernelEnd).value;
        ReadyFacts(p1, pd, npd);
        CloneFromAt(p1, pd, npd, kernelEnd, 0, 0);
        ParentSame(p1, p2, pd, npd);
        SameView(p1.mem, p2.mem, pd);
      }
    }
  }

  lemma SelfMapIs(p: Pool, pd: FrameNo)
    requires Separate(p, pd)
    ensures SelfMapped(p.mem, pd) && SameTables(p.mem, p.mem, pd)
  {
  }

  // ---------------------------------------------------------------- the condition is kept

  /** Parent and child can both be cloned again. */
  lemma ForkStaysSane(p: Pool, pd: FrameNo, kernelEnd: nat)
    requires Sane(p, pd) && CloneVia(p, pd, kernelEnd).Some?
    ensures var (npd, p') := CloneVia(p, pd, kernelEnd).value;
      CloneVia(p, pd, kernelEnd) == Clone(p, pd, kernelEnd) && Sane(p', pd) && Sane(p', npd)
  {
    hide Clone, CloneVia, Separate, Reached;
    CloneIsVia(p, pd, kernelEnd);
    ParentUntouched(p, pd, kernelEnd);
    SeparateIsDistinct(p, pd);
    Finished(p, pd, kernelEnd, 0);
    FewerFree(p, After(p, pd, kernelEnd), NewDir(p, pd, kernelEnd));
    IdentityStays(p, After(p, pd, kernelEnd), pd);
    ChildIsSeparate(p, pd, kernelEnd);
    ChildIsIdentityMapped(p, pd, kernelEnd);
  }

  /** A frame that no copied page of entry 0 stands for is mapped to itself in the child if it is in the
      parent. */
  lemma ChildSees(p: Pool, pd: FrameNo, kernelEnd: nat, f: FrameNo)
    requires Separate(p, pd) && Clone(p, pd, kernelEnd).Some? && TablesInMemory(p.mem, pd) && Seen(p.mem, pd, f)
    requires !Copied(p.mem, pd, kernelEnd, 0, f)
    ensures Seen(After(p, pd, kernelEnd).mem, NewDir(p, pd, kernelEnd), f)
  {
    hide Clone, Separate, Copied, NewDir, After;
    ChildMapsSame(p, pd, kernelEnd, 0, f);
  }

  /** A frame that is not behind a user page stands for no copied page of entry 0. */
  lemma NotCopied(m: Memory, pd: FrameNo, kernelEnd: nat, f: FrameNo)
    requires TablesInMemory(m, pd) && Seen(m, pd, f)
    requires Copied(m, pd, kernelEnd, 0, f)
    ensures UserPage(m, pd, 0, f) && Present(m[pd][0]) && PageFrame(m, pd, 0, f) == f
  {
  }

  lemma ChildIsIdentityMapped(p: Pool, pd: FrameNo, kernelEnd: nat)
    requires Sane(p, pd) && Clone(p, pd, kernelEnd).Some?
    ensures var p', npd := After(p, pd, kernelEnd), NewDir(p, pd, kernelEnd);
      TablesInMemory(p'.mem, npd) && IdentityMapped(p', npd)
  {
    hide Clone, Copied, UserPage, PageFrame, TableIsCopied, Behind, NewDir, After, Seen;
    var p', npd := After(p, pd, kernelEnd), NewDir(p, pd, kernelEnd);
    Finished(p, pd, kernelEnd, 0);
    FewerFree(p, p', npd);
    ChildIsSeparate(p, pd, kernelEnd);
    ChildSelfMap(p, pd, kernelEnd);
    FreeIsSeen(p, pd, kernelEnd, npd);
    forall f | f in p'.free ensures Seen(p'.mem, npd, f) { FreeIsSeen(p, pd, kernelEnd, f); }
    forall i | 0 <= i < SELF_MAP && Present(p'.mem[npd][i]) ensures Seen(p'.mem, npd, FrameOf(p'.mem[npd][i])) {
      TableIsSeen(p, pd, kernelEnd, i);
    }
    forall i, j | 0 <= i < SELF_MAP && 0 <= j < ENTRIES && UserPage(p'.mem, npd, i, j)
      ensures Present(p'.mem[npd][i]) && (PageFrame(p'.mem, npd, i, j) < FRAMES ==> Seen(p'.mem, npd, PageFrame(p'.mem, npd, i, j)))
    {
      UserPageIsPresent(p'.mem, npd, i, j);
      PageIsSeen(p, pd, kernelEnd, i, j);
    }
  }

  lemma FreeIsSeen(p: Pool, pd: FrameNo, kernelEnd: nat, f: FrameNo)
    requires Sane(p, pd) && Clone(p, pd, kernelEnd).Some? && f in p.free
    ensures Seen(After(p, pd, kernelEnd).mem, NewDir(p, pd, kernelEnd), f)
  {
    hide Clone, Reached, Seen, Copied, NewDir, After;
    if Copied(p.mem, pd, kernelEnd, 0, f) {
      NotCopied(p.mem, pd, kernelEnd, f);
      UserFrameFacts(p, pd, 0, f);
      assert false;
    }
    ChildSees(p, pd, kernelEnd, f);
  }

  lemma TableIsSeen(p: Pool, pd: FrameNo, kernelEnd: nat, i: nat)
    requires Sane(p, pd) && Clone(p, pd, kernelEnd).Some? && i < SELF_MAP
    requires Present(After(p, pd, kernelEnd).mem[NewDir(p, pd, kernelEnd)][i])
    ensures var p', npd := After(p, pd, kernelEnd), NewDir(p, pd, kernelEnd); Seen(p'.mem, npd, FrameOf(p'.mem[npd][i]))
  {
    hide Clone, Reached, Seen, Copied, NewDir, After, TableIsCopied;
    ChildTable(p, pd, kernelEnd, i);
    var f := FrameOf(After(p, pd, kernelEnd).mem[NewDir(p, pd, kernelEnd)][i]);
    if f in p.free {
      FreeIsSeen(p, pd, kernelEnd, f);
    } else {
      if Copied(p.mem, pd, kernelEnd, 0, f) {
        NotCopied(p.mem, pd, kernelEnd, f);
        UserFrameFacts(p, pd, 0, f);
        assert false;
      }
      ChildSees(p, pd, kernelEnd, f);
    }
  }

  lemma PageIsSeen(p: Pool, pd: FrameNo, kernelEnd: nat, i: nat, j: nat)
    requires Sane(p, pd) && Clone(p, pd, kernelEnd).Some? && i < SELF_MAP && j < ENTRIES
    requires TablesInMemory(After(p, pd, kernelEnd).mem, NewDir(p, pd, kernelEnd))
    requires UserPage(After(p, pd, kernelEnd).mem, NewDir(p, pd, kernelEnd), i, j)
    requires Present(After(p, pd, kernelEnd).mem[NewDir(p, pd, kernelEnd)][i])
    ensures var p', npd := After(p, pd, kernelEnd), NewDir(p, pd, kernelEnd);
      PageFrame(p'.mem, npd, i, j) < FRAMES ==> Seen(p'.mem, npd, PageFrame(p'.mem, npd, i, j))
  {
    hide Clone, Reached, Seen, Copied, NewDir, After, PageFrame, Behind;
    var p', npd := After(p, pd, kernelEnd), NewDir(p, pd, kernelEnd);
    ChildUserPage(p, pd, kernelEnd, i, j);
    var f := PageFrame(p'.mem, npd, i, j);
    if Copied(p.mem, pd, kernelEnd, i, j) {
      FreeIsSeen(p, pd, kernelEnd, f);
    } else if f < FRAMES {
      UserPageIsPresent(p.mem, pd, i, j);
      if Copied(p.mem, pd, kernelEnd, 0, f) {
        NotCopied(p.mem, pd, kernelEnd, f);
        UserFramesDiffer(p, pd, i, j, 0, f);
        assert false;
      }
      ChildSees(p, pd, kernelEnd, f);
    }
  }

  /** paging_init sets it up. */
  lemma InitIsSane(p: Pool)
    requires Distinct(p.free) && Init(p).Some?
    ensures var (pd, p') := Init(p).value; Sane(p', pd)
  {
    hide Init, Separate;
    var (pd, p') := Init(p).value;
    InitMaps(p, 0, 0);
    InitEntries(p);
    InitSelfMap(p);
    SeparateIsDistinct(p', pd);
    forall i, j | 0 <= i < SELF_MAP && 0 <= j < ENTRIES ensures !UserPage(p'.mem, pd, i, j) { }
  }

  lemma InitSelfMap(p: Pool)
    requires Distinct(p.free) && Init(p).Some?
    ensures var (pd, p') := Init(p).value; SelfMapped(p'.mem, pd)
  {
    Popped(p, 0);
    Popped(Pop(p).value.1, 0);
    EntryBits(Init(p).value.0, 3);
  }

  // ---------------------------------------------------------------- mapping pages

  /** Setting an entry twice around the clearing of another frame. */
  lemma SetTwice(p: Pool, pd: FrameNo, t: FrameNo, i: nat, e0: u32, e1: u32)
    requires i < ENTRIES && t != pd
    ensures Poke(WithWords(Poke(p, pd, i, e0), t, Zeroed()), pd, i, e1) == Poke(WithWords(p, t, Zeroed()), pd, i, e1)
  {
    var q, r := Poke(WithWords(Poke(p, pd, i, e0), t, Zeroed()), pd, i, e1), Poke(WithWords(p, t, Zeroed()), pd, i, e1);
    assert q.mem[pd] == r.mem[pd];
    assert q.mem == r.mem;
  }

  lemma NewTableIsVia(p: Pool, pd: FrameNo, i: nat, flags: nat)
    requires Rooted(p, pd) && i < SELF_MAP && !Present(p.mem[pd][i])
    ensures WithTableVia(p, pd, pd, i, flags) == WithTable(p, pd, i, flags)
    ensures p.free != [] ==>
      var m := WithTable(p, pd, i, flags).value.mem; Reached(m, pd, SELF_MAP, i) == Some(FrameOf(m[pd][i]))
  {
    hide MapFlags, Zeroed, At, Separate, Entry;
    RootedFacts(p, pd);
    if p.free != [] {
      SeparateIsDistinct(p, pd);
      FreeIsNotDirectory(p, pd);
      var (t, p1) := Pop(p).value;
      var p2 := Poke(p1, pd, i, Entry(t, 0));
      SelfMapReaches(p2.mem, pd, i);
      SetTwice(p1, pd, t, i, Entry(t, 0), Entry(t, flags));
      SelfMapReaches(WithTable(p, pd, i, flags).value.mem, pd, i);
    }
  }

  lemma FreeIsNotDirectory(p: Pool, pd: FrameNo)
    requires Separate(p, pd) && p.free != []
    ensures p.free[|p.free| - 1] != pd
  {
  }

  /** Mapping through addresses is mapping frames. */
  lemma MapPageIsVia(p: Pool, pd: FrameNo, i: nat, j: nat, f: PhysFrame, flags: nat)
    requires Rooted(p, pd) && i < SELF_MAP && j < ENTRIES
    ensures MapPageVia(p, pd, i, j, f, flags) == MapPage(p, pd, i, j, f, flags)
  {
    hide Entry, Separate, Reached, WithTableVia, WithTable;
    RootedFacts(p, pd);
    if Present(p.mem[pd][i]) {
      SelfMapReaches(p.mem, pd, i);
      PresentTable(p, pd, i, flags);
    } else {
      NewTableIsVia(p, pd, i, flags);
      NewTable(p, pd, i, flags);
    }
  }

  lemma AllocPageIsVia(p: Pool, pd: FrameNo, i: nat, j: nat)
    requires Rooted(p, pd) && i < SELF_MAP && j < ENTRIES
    ensures AllocPageVia(p, pd, i, j) == AllocPage(p, pd, i, j)
  {
    hide MapPageVia, MapPage;
    if p.free != [] {
      PoppedIsRooted(p, pd);
      MapPageIsVia(Pop(p).value.1, pd, i, j, p.free[|p.free| - 1], 7);
    }
  }

  lemma PoppedIsRooted(p: Pool, pd: FrameNo)
    requires Rooted(p, pd) && p.free != []
    ensures Rooted(Pop(p).value.1, pd)
  {
    hide Reached;
    Popped(p, 0);
    var p1 := Pop(p).value.1;
    assert forall f :: f in p1.free ==> f in p.free;
    StillSeparate(p, p1, pd);
  }

  lemma RootedFacts(p: Pool, pd: FrameNo)
    requires Rooted(p, pd)
    ensures TablesInMemory(p.mem, pd) && Distinct(p.free)
    ensures SelfMapped(p.mem, pd) && At(p.mem, pd, pd) == Some(pd)
    ensures Present(p.mem[pd][0])
  {
  }

  lemma PresentTable(p: Pool, pd: FrameNo, i: nat, flags: nat)
    requires i < SELF_MAP && Present(p.mem[pd][i])
    ensures WithTable(p, pd, i, flags) == Some(p)
  {
  }

  lemma NewTable(p: Pool, pd: FrameNo, i: nat, flags: nat)
    requires i < SELF_MAP && !Present(p.mem[pd][i])
    ensures WithTable(p, pd, i, flags).Some? <==> p.free != []
    ensures p.free != [] ==> FrameOf(WithTable(p, pd, i, flags).value.mem[pd][i]) < FRAMES
  {
  }

  /** Something other than page `j` of entry `i` needs frame `g` to be mapped to itself. */
  ghost predicate Needed(p: Pool, pd: FrameNo, i: nat, j: nat, g: nat)
    requires TablesInMemory(p.mem, pd)
  {
    || g == pd || g in p.free
    || (exists k :: 0 <= k < SELF_MAP && Present(p.mem[pd][k]) && FrameOf(p.mem[pd][k]) == g)
    || (exists k, l :: 0 <= k < SELF_MAP && 0 <= l < ENTRIES && (k, l) != (i, j) &&
          UserPage(p.mem, pd, k, l) && PageFrame(p.mem, pd, k, l) == g)
  }

  /** A page below 4 MB may lead elsewhere only if its own frame is not in use, and a user page has to
      lead to a frame that is mapped to itself. */
  ghost predicate KeepsIdentity(p: Pool, pd: FrameNo, i: nat, j: nat, f: PhysFrame, flags: nat)
    requires TablesInMemory(p.mem, pd)
  {
    (i == 0 && f == j) ||
    ((i == 0 ==> !Needed(p, pd, i, j, j)) && (flags / 4 % 2 == 1 && f < FRAMES ==> Seen(p.mem, pd, f)))
  }

  /** What an address leads to after a mapping. */
  lemma MappedView(p: Pool, pd: FrameNo, i: nat, j: nat, f: PhysFrame, flags: nat, g: FrameNo)
    requires Rooted(p, pd) && i < SELF_MAP && j < ENTRIES && MapPage(p, pd, i, j, f, flags).Some?
    ensures var m' := MapPage(p, pd, i, j, f, flags).value.mem;
      At(m', pd, g) == if i == 0 && g == j then (if f < FRAMES then Some(f) else None) else At(p.mem, pd, g)
  {
    hide MapFlags, Unshared;
    RootedFacts(p, pd);
    if p.free != [] { Popped(p, FrameOf(p.mem[pd][0])); Popped(p, pd); }
  }

  lemma MappedSelfMap(p: Pool, pd: FrameNo, i: nat, j: nat, f: PhysFrame, flags: nat)
    requires Rooted(p, pd) && i < SELF_MAP && j < ENTRIES && MapPage(p, pd, i, j, f, flags).Some?
    ensures SelfMapped(MapPage(p, pd, i, j, f, flags).value.mem, pd)
  {
    hide MapFlags, Unshared, Entry;
    RootedFacts(p, pd);
    if p.free != [] { Popped(p, pd); }
  }

  /** Frame `g` needs to be mapped to itself. */
  ghost predicate Wanted(p: Pool, pd: FrameNo, g: nat)
    requires TablesInMemory(p.mem, pd)
  {
    Needed(p, pd, SELF_MAP, 0, g)
  }

  lemma IdentityIs(p: Pool, pd: FrameNo)
    requires TablesInMemory(p.mem, pd) && SelfMapped(p.mem, pd)
    ensures IdentityMapped(p, pd) <==> forall g: FrameNo | Wanted(p, pd, g) :: Seen(p.mem, pd, g)
  {
    hide Reached;
    if forall g: FrameNo | Wanted(p, pd, g) :: Seen(p.mem, pd, g) {
      forall f | f in p.free ensures Seen(p.mem, pd, f) { assert Wanted(p, pd, f); }
      forall i | 0 <= i < SELF_MAP && Present(p.mem[pd][i]) ensures Seen(p.mem, pd, FrameOf(p.mem[pd][i])) {
        assert Wanted(p, pd, FrameOf(p.mem[pd][i]));
      }
      forall i, j | 0 <= i < SELF_MAP && 0 <= j < ENTRIES && UserPage(p.mem, pd, i, j) && PageFrame(p.mem, pd, i, j) < FRAMES
        ensures Seen(p.mem, pd, PageFrame(p.mem, pd, i, j))
      {
        assert Wanted(p, pd, PageFrame(p.mem, pd, i, j));
      }
      assert Wanted(p, pd, pd);
    }
  }

  lemma MappedFree(p: Pool, pd: FrameNo, i: nat, j: nat, f: PhysFrame, flags: nat, g: FrameNo)
    requires Separate(p, pd) && i < SELF_MAP && j < ENTRIES && MapPage(p, pd, i, j, f, flags).Some?
    ensures var p' := MapPage(p, pd, i, j, f, flags).value;
      g in p.free <==> g in p'.free || (!Present(p.mem[pd][i]) && g == FrameOf(p'.mem[pd][i]))
  {
    hide Entry, MapFlags, Unshared;
    if p.free != [] { Popped(p, g); Popped(p, pd); }
  }

  /** What is wanted after a mapping: what others need, and the frame of the page if user code has it. */
  lemma MappedWants(p: Pool, pd: FrameNo, i: nat, j: nat, f: PhysFrame, flags: nat, g: FrameNo)
    requires Sane(p, pd) && i < SELF_MAP && j < ENTRIES && MapPage(p, pd, i, j, f, flags).Some?
    requires TablesInMemory(p.mem, pd) && TablesInMemory(MapPage(p, pd, i, j, f, flags).value.mem, pd)
    ensures Wanted(MapPage(p, pd, i, j, f, flags).value, pd, g) <==> Needed(p, pd, i, j, g) || (flags / 4 % 2 == 1 && g == f)
  {
    hide MapPage, Separate, IdentityMapped, PageFrame, Entry, MapFlags;
    var p' := MapPage(p, pd, i, j, f, flags).value;
    MappedTables(p, pd, i, j, f, flags);
    MappedFree(p, pd, i, j, f, flags, g);
    forall k, l | 0 <= k < SELF_MAP && 0 <= l < ENTRIES
      ensures (k, l) != (i, j) ==> (UserPage(p'.mem, pd, k, l) <==> UserPage(p.mem, pd, k, l))
      ensures UserPage(p'.mem, pd, k, l) ==> PageFrame(p'.mem, pd, k, l) == if (k, l) == (i, j) then f else PageFrame(p.mem, pd, k, l)
      ensures UserPage(p'.mem, pd, i, j) <==> flags / 4 % 2 == 1
    {
      MappedUserPage(p, pd, i, j, f, flags, k, l);
      MappedUserPage(p, pd, i, j, f, flags, i, j);
    }
  }

  /** A mapping keeps the identity map exactly under that condition, which its caller can check. */
  lemma MapPageKeepsIdentityIff(p: Pool, pd: FrameNo, i: nat, j: nat, f: PhysFrame, flags: nat)
    requires Sane(p, pd) && i < SELF_MAP && j < ENTRIES && MapPage(p, pd, i, j, f, flags).Some? && TablesInMemory(p.mem, pd)
    ensures var p' := MapPage(p, pd, i, j, f, flags).value;
      TablesInMemory(p'.mem, pd) && (IdentityMapped(p', pd) <==> KeepsIdentity(p, pd, i, j, f, flags))
  {
    hide MapPage, Separate, IdentityMapped, Needed, Wanted, At;
    var p' := MapPage(p, pd, i, j, f, flags).value;
    SaneIsRooted(p, pd);
    RootedFacts(p, pd);
    MappedTables(p, pd, i, j, f, flags);
    MappedSelfMap(p, pd, i, j, f, flags);
    IdentityIs(p, pd);
    IdentityIs(p', pd);
    forall g: FrameNo
      ensures At(p'.mem, pd, g) == if i == 0 && g == j then (if f < FRAMES then Some(f) else None) else At(p.mem, pd, g)
      ensures Wanted(p', pd, g) <==> Needed(p, pd, i, j, g) || (flags / 4 % 2 == 1 && g == f)
      ensures Needed(p, pd, i, j, g) ==> Wanted(p, pd, g)
    {
      MappedView(p, pd, i, j, f, flags, g);
      MappedWants(p, pd, i, j, f, flags, g);
      if Needed(p, pd, i, j, g) { NeededIsWanted(p, pd, i, j, g); }
    }
    if i == 0 { assert Wanted(p', pd, j) <==> Needed(p, pd, i, j, j) || (flags / 4 % 2 == 1 && j == f); }
    if f < FRAMES { assert Wanted(p', pd, f) <==> Needed(p, pd, i, j, f) || flags / 4 % 2 == 1; }
  }

  lemma NeededIsWanted(p: Pool, pd: FrameNo, i: nat, j: nat, g: nat)
    requires TablesInMemory(p.mem, pd) && Needed(p, pd, i, j, g)
    ensures Wanted(p, pd, g)
  {
  }

  /** paging_alloc_page keeps it exactly if the page is not below 4 MB, or gets its own frame, or its own
      frame is not in use; load_segment does not check this. */
  lemma AllocPageKeepsSaneIff(p: Pool, pd: FrameNo, i: nat, j: nat)
    requires Sane(p, pd) && i < SELF_MAP && j < ENTRIES && AllocPage(p, pd, i, j).Some?
    ensures var (f, p1) := Pop(p).value;
      TablesInMemory(p1.mem, pd) && (Sane(AllocPage(p, pd, i, j).value, pd) <==> i != 0 || f == j || !Needed(p1, pd, i, j, j))
  {
    hide MapPage, IdentityMapped, Needed, Seen, Separate;
    var (f, p1) := Pop(p).value;
    SeparateIsDistinct(p, pd);
    FreeIsFree(p, pd);
    AllocPageMaps(p, pd, i, j, 0, 0);
    PoppedIsSane(p, pd);
    MapPageKeepsIdentityIff(p1, pd, i, j, f, 7);
  }

  lemma FreeIsFree(p: Pool, pd: FrameNo)
    requires Sane(p, pd) && p.free != []
    ensures TablesInMemory(p.mem, pd) && Seen(p.mem, pd, p.free[|p.free| - 1])
  {
  }

  lemma PoppedIsSane(p: Pool, pd: FrameNo)
    requires Sane(p, pd) && p.free != []
    ensures Sane(Pop(p).value.1, pd)
  {
    hide Reached;
    Popped(p, 0);
    var p1 := Pop(p).value.1;
    assert forall f :: f in p1.free ==> f in p.free;
    StillSeparate(p, p1, pd);
  }
}
