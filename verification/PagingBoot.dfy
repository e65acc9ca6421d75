/** What the kernel has mapped when it starts its shell: the first 4 MB, the buffers of the network card, if
    there is one, and the framebuffer, if there is one; and what that means for forks. */
module PagingBoot {
  import opened Wrappers
  import opened PagingSpec
  import opened PagingClone
  import opened PagingFork
  import opened PagingMap
  import opened PagingNeeds
  import opened PagingVia
  import opened PagingDevices

  // ---------------------------------------------------------------- paging_init

  lemma KernelPage(m: Memory, pd: FrameNo, i: nat, j: nat)
    requires TablesInMemory(m, pd) && i < SELF_MAP && j < ENTRIES && Walk(m, pd, i, j).Mapped? && Walk(m, pd, i, j).pageFlags == 3
    ensures Present(m[pd][i]) && Present(m[FrameOf(m[pd][i])][j]) && !User(m[FrameOf(m[pd][i])][j])
  {
    var e := m[FrameOf(m[pd][i])][j];
    EntryBits(FrameOf(e), Flags(e));
  }

  /** paging_init, and the frames that are pushed when it is done. */
  function Boot(p: Pool, more: seq<FrameNo>): Option<(FrameNo, Pool)> {
    match Init(p)
    case None => None
    case Some((pd, q)) => Some((pd, q.(free := q.free + more)))
  }

  /** After booting, only the kernel's own pages are mapped. */
  lemma BootMaps(p: Pool, more: seq<FrameNo>)
    requires Distinct(p.free + more) && Boot(p, more).Some?
    ensures var (pd, q) := Boot(p, more).value;
      && Sane(q, pd) && TablesInMemory(q.mem, pd) && (forall k | 0 < k < SELF_MAP :: !Present(q.mem[pd][k]))
      && |q.free| == |p.free| + |more| - 2
      && forall x | 0 <= x < LIMIT :: PageAt(q.mem, pd, x) == if x < ENTRIES then Mapped(x, 3, 3) else Unmapped
  {
    hide Init, Sane, Walk;
    var (pd, q0) := Init(p).value;
    var q := Boot(p, more).value.1;
    BootFree(p, more);
    InitIsSane(p);
    InitEntries(p);
    InitFrees(p, more);
    forall x: nat | x < LIMIT ensures PageAt(q.mem, pd, x) == if x < ENTRIES then Mapped(x, 3, 3) else Unmapped {
      InitMaps(p, x / ENTRIES, x % ENTRIES);
    }
    BootIsSane(q0, q, pd);
  }

  lemma BootFree(p: Pool, more: seq<FrameNo>)
    requires Distinct(p.free + more)
    ensures Distinct(p.free) && Distinct(more) && forall f :: f in p.free ==> f !in more
  {
    var s := p.free + more;
    assert forall a | 0 <= a < |p.free| :: s[a] == p.free[a];
    assert forall b | 0 <= b < |more| :: s[|p.free| + b] == more[b];
  }

  lemma InitFrees(p: Pool, more: seq<FrameNo>)
    requires Distinct(p.free) && Distinct(more) && (forall f :: f in p.free ==> f !in more) && Init(p).Some?
    ensures var (pd, q) := Init(p).value;
      pd in p.free && |q.free| == |p.free| - 2 && Distinct(q.free + more) && forall f :: f in q.free ==> f in p.free
  {
    Popped(p, 0);
    Popped(Pop(p).value.1, 0);
    var q := Init(p).value.1;
    assert q.free == p.free[..|p.free| - 2];
    var s := q.free + more;
    forall a, b | 0 <= a < b < |s| ensures s[a] != s[b] {
      if a < |q.free| <= b { assert s[a] in p.free && s[b] in more; }
    }
  }

  lemma BootIsSane(q0: Pool, q: Pool, pd: FrameNo)
    requires Sane(q0, pd) && q.mem == q0.mem && q.dev == q0.dev && Distinct(q.free) && pd !in q.free && TablesInMemory(q.mem, pd)
    requires forall k | 0 < k < SELF_MAP :: !Present(q.mem[pd][k])
    requires Present(q.mem[pd][0]) && FrameOf(q.mem[pd][0]) !in q.free && forall x: FrameNo :: PageAt(q.mem, pd, x) == Mapped(x, 3, 3)
    ensures Sane(q, pd)
  {
    forall i, j | 0 <= i < SELF_MAP && 0 <= j < ENTRIES ensures !UserPage(q.mem, pd, i, j) {
      if i == 0 {
        assert PageAt(q.mem, pd, j) == Mapped(j, 3, 3);
        KernelPage(q.mem, pd, 0, j);
      }
    }
    forall f: FrameNo ensures Seen(q.mem, pd, f) { assert PageAt(q.mem, pd, f) == Mapped(f, 3, 3); }
  }

  /** The first 4 MB are themselves, and no table is the user's. */
  ghost predicate KernelSpace(p: Pool, pd: FrameNo) {
    && Sane(p, pd) && TablesInMemory(p.mem, pd)
    && (forall x: FrameNo :: PageAt(p.mem, pd, x) == Mapped(x, 3, 3))
    && (forall k | 0 <= k < SELF_MAP && Present(p.mem[pd][k]) :: k != 1 && !User(p.mem[pd][k]))
  }

  /** And no page is the user's either. */
  ghost predicate Booted(p: Pool, pd: FrameNo) {
    KernelSpace(p, pd) && forall x | 0 <= x < LIMIT && PageAt(p.mem, pd, x).Mapped? :: !IsUser(PageAt(p.mem, pd, x).pageFlags)
  }

  lemma BootIsBooted(p: Pool, more: seq<FrameNo>)
    requires Distinct(p.free + more) && Boot(p, more).Some?
    ensures var (pd, q) := Boot(p, more).value;
      Booted(q, pd) && |q.free| == |p.free| + |more| - 2 && forall k | 0 < k < SELF_MAP :: !Present(q.mem[pd][k])
  {
    hide Boot, Sane, Walk;
    BootMaps(p, more);
    var (pd, q) := Boot(p, more).value;
    assert PageAt(q.mem, pd, 0) == Mapped(0, 3, 3);
    LowTable(q.mem, pd);
  }

  lemma LowTable(m: Memory, pd: FrameNo)
    requires TablesInMemory(m, pd) && PageAt(m, pd, 0) == Mapped(0, 3, 3)
    ensures Present(m[pd][0]) && !User(m[pd][0])
  {
    EntryBits(FrameOf(m[pd][0]), 3);
  }

  /** Nothing is copied from it, so a fork needs no frame but the directory's. */
  lemma {:induction false} BootedNeeds(p: Pool, pd: FrameNo, kernelEnd: nat, i: nat)
    requires Booted(p, pd) && i <= SELF_MAP
    ensures TablesInMemory(p.mem, pd) && FramesNeeded(p.mem, pd, kernelEnd, i) == 0
    ensures AllReachable(p, pd, kernelEnd)
    decreases SELF_MAP - i
  {
    hide Sane, InKernel, PagesNeeded, Reachable;
    forall k | 0 <= k < SELF_MAP ensures !TableIsCopied(p.mem, pd, kernelEnd, k) { NotCopiedTable(p, pd, kernelEnd, k); }
    if i < SELF_MAP { BootedNeeds(p, pd, kernelEnd, i + 1); }
  }

  lemma NotCopiedTable(p: Pool, pd: FrameNo, kernelEnd: nat, k: nat)
    requires Booted(p, pd) && k < SELF_MAP
    ensures !TableIsCopied(p.mem, pd, kernelEnd, k)
  {
    hide Sane, InKernel, Walk;
    if k == 0 && Present(p.mem[pd][0]) {
      forall j | 0 <= j < ENTRIES ensures !User(p.mem[FrameOf(p.mem[pd][0])][j]) {
        assert PageAt(p.mem, pd, j) == Mapped(j, 3, 3);
        KernelPage(p.mem, pd, 0, j);
      }
    }
  }

  // ---------------------------------------------------------------- rtl8139_init

  const TX_PAGE: nat := 0xF0040
  const TX_BUFFERS: nat := 4
  const RX_PAGE: nat := 0xF0050
  /** The directory entry of these pages, and of 0xF0000000. */
  const CARD_ENTRY: nat := 960

  /** pfa_alloc and paging_map_page for the kernel. */
  function CardPage(p: Pool, pd: FrameNo, x: nat): Option<Pool>
    requires x < LIMIT
  {
    match Pop(p)
    case None => None
    case Some((h, p1)) => MapPageVia(p1, pd, x / ENTRIES, x % ENTRIES, h, 3)
  }

  /** memset of the first `k` words of page `x`. */
  function CleanAt(p: Pool, pd: FrameNo, x: nat, k: nat): Option<Pool>
    requires x < LIMIT && k <= ENTRIES
  {
    match Reached(p.mem, pd, x / ENTRIES, x % ENTRIES)
    case None => None
    case Some(g) => Some(WithWords(p, g, Zeroed()[..k] + p.mem[g][k..]))
  }

  /** The loop of init_tx_buffers from `i` on. */
  function TxBuffers(p: Pool, pd: FrameNo, i: nat): Option<Pool>
    requires i <= TX_BUFFERS
    decreases TX_BUFFERS - i
  {
    if i == TX_BUFFERS then Some(p)
    else
      match CardPage(p, pd, TX_PAGE + i)
      case None => None
      case Some(p1) =>
        match CleanAt(p1, pd, TX_PAGE + i, 512)
        case None => None
        case Some(p2) => TxBuffers(p2, pd, i + 1)
  }

  /** The three pages of init_rx_buffer from `i` on, and the clearing of them all. */
  function RxPages(p: Pool, pd: FrameNo, i: nat): Option<Pool>
    requires i <= 3
    decreases 3 - i
  {
    if i == 3 then Some(p)
    else
      match CardPage(p, pd, RX_PAGE + i)
      case None => None
      case Some(p1) => RxPages(p1, pd, i + 1)
  }

  function RxClean(p: Pool, pd: FrameNo, i: nat): Option<Pool>
    requires i <= 3
    decreases 3 - i
  {
    if i == 3 then Some(p)
    else
      match CleanAt(p, pd, RX_PAGE + i, ENTRIES)
      case None => None
      case Some(p1) => RxClean(p1, pd, i + 1)
  }

  /** What rtl8139_init does to memory when it finds the card. */
  function CardInit(p: Pool, pd: FrameNo): Option<Pool> {
    match TxBuffers(p, pd, 0)
    case None => None
    case Some(p1) =>
      match RxPages(p1, pd, 0)
      case None => None
      case Some(p2) => RxClean(p2, pd, 0)
  }

  /** Frame `h` is neither free nor the directory nor a table. */
  ghost predicate Loose(p: Pool, pd: FrameNo, h: FrameNo) {
    h !in p.free && h != pd && forall k | 0 <= k < SELF_MAP && Present(p.mem[pd][k]) :: FrameOf(p.mem[pd][k]) != h
  }

  /** One page for the kernel: what changes, and nothing else. */
  ghost predicate CardStep(p: Pool, q: Pool, pd: FrameNo, x: nat, h: FrameNo)
    requires x < LIMIT && TablesInMemory(p.mem, pd) && TablesInMemory(q.mem, pd)
  {
    && Loose(q, pd, h) && (forall g: FrameNo | Loose(p, pd, g) :: Loose(q, pd, g))
    && (forall k | 0 <= k < SELF_MAP && k != x / ENTRIES :: q.mem[pd][k] == p.mem[pd][k])
    && Present(q.mem[pd][x / ENTRIES]) && !User(q.mem[pd][x / ENTRIES])
    && (forall y | 0 <= y < LIMIT && y != x :: PageAt(q.mem, pd, y) == PageAt(p.mem, pd, y))
    && PageAt(q.mem, pd, x).Mapped? && PageAt(q.mem, pd, x).frame == h && PageAt(q.mem, pd, x).pageFlags == 3
    && |q.free| == |p.free| - (if Present(p.mem[pd][x / ENTRIES]) then 1 else 2) && q.free == p.free[..|q.free|]
  }

  function Last(p: Pool): FrameNo
    requires p.free != []
  {
    p.free[|p.free| - 1]
  }

  /** Frames for a page, and for its table if there is none. */
  predicate HasFrames(p: Pool, pd: FrameNo, i: nat)
    requires i < SELF_MAP
  {
    |p.free| >= if Present(p.mem[pd][i]) then 1 else 2
  }

  lemma CardPageIs(p: Pool, pd: FrameNo, x: nat)
    requires Booted(p, pd) && 2 * ENTRIES <= x < LIMIT && HasFrames(p, pd, x / ENTRIES)
    ensures CardPage(p, pd, x).Some?
    ensures var q := CardPage(p, pd, x).value; Booted(q, pd) && CardStep(p, q, pd, x, Last(p))
  {
    hide Sane, MapPage, MapPageVia, Walk, Separate, Loose;
    var i, j := x / ENTRIES, x % ENTRIES;
    SaneTables(p, pd);
    CardPageSane(p, pd, i, j);
    var q := CardPage(p, pd, x).value;
    CardFrames(p, pd, i, j);
    forall k | 0 <= k < SELF_MAP
      ensures k != i ==> q.mem[pd][k] == p.mem[pd][k]
      ensures k == i ==> Present(q.mem[pd][k]) && !User(q.mem[pd][k])
      ensures |q.free| == |p.free| - if Present(p.mem[pd][i]) then 1 else 2
    {
      CardEntry(p, pd, i, j, k);
    }
    forall y | 0 <= y < LIMIT
      ensures y != x ==> PageAt(q.mem, pd, y) == PageAt(p.mem, pd, y)
      ensures y == x ==> PageAt(q.mem, pd, x).Mapped? && PageAt(q.mem, pd, x).frame == Last(p) && PageAt(q.mem, pd, x).pageFlags == 3
    {
      CardPageAt(p, pd, i, j, y);
      assert y == x <==> (y / ENTRIES, y % ENTRIES) == (i, j);
    }
  }

  lemma CardPageSane(p: Pool, pd: FrameNo, i: nat, j: nat)
    requires Sane(p, pd) && 0 < i < SELF_MAP && j < ENTRIES && HasFrames(p, pd, i)
    ensures var (h, p1) := Pop(p).value; var r := MapPage(p1, pd, i, j, h, 3);
      MapPageVia(p1, pd, i, j, h, 3) == r && r.Some? && Sane(r.value, pd) && TablesInMemory(r.value.mem, pd) && Separate(p1, pd)
  {
    hide MapPage, MapPageVia, Separate, IdentityMapped, KeepsIdentity;
    var (h, p1) := Pop(p).value;
    SaneTables(p, pd);
    PoppedIsSane(p, pd);
    SaneTables(p1, pd);
    MapPageIsVia(p1, pd, i, j, h, 3);
    MappedFlags(p1, pd, i, j, h, 3);
    MapPageKeepsSeparate(p1, pd, i, j, h, 3);
    MapPageKeepsIdentityIff(p1, pd, i, j, h, 3);
    KernelKeepsIdentity(p1, pd, i, j, h);
    SaneTables(MapPage(p1, pd, i, j, h, 3).value, pd);
  }

  lemma CardEntry(p: Pool, pd: FrameNo, i: nat, j: nat, k: nat)
    requires Sane(p, pd) && 0 < i < SELF_MAP && j < ENTRIES && HasFrames(p, pd, i) && k < SELF_MAP
    requires (Present(p.mem[pd][i]) ==> !User(p.mem[pd][i])) && MapPage(Pop(p).value.1, pd, i, j, Last(p), 3).Some?
    ensures var q := MapPage(Pop(p).value.1, pd, i, j, Last(p), 3).value;
      && (k != i ==> q.mem[pd][k] == p.mem[pd][k]) && (k == i ==> Present(q.mem[pd][k]) && !User(q.mem[pd][k]))
      && |q.free| == |p.free| - if Present(p.mem[pd][i]) then 1 else 2
  {
    hide MapPage, Separate, IdentityMapped, Sane;
    CardPageSane(p, pd, i, j);
    var p1 := Pop(p).value.1;
    SaneTables(p, pd);
    PoppedIsSane(p, pd);
    SaneTables(p1, pd);
    MappedFlags(p1, pd, i, j, Last(p), 3);
    MappedTables(p1, pd, i, j, Last(p), 3);
    var e := MapPage(p1, pd, i, j, Last(p), 3).value.mem[pd][i];
    EntryBits(FrameOf(e), Flags(e));
  }

  lemma CardPageAt(p: Pool, pd: FrameNo, i: nat, j: nat, y: nat)
    requires Sane(p, pd) && 0 < i < SELF_MAP && j < ENTRIES && HasFrames(p, pd, i) && y < LIMIT && TablesInMemory(p.mem, pd)
    requires MapPage(Pop(p).value.1, pd, i, j, Last(p), 3).Some?
    ensures var q := MapPage(Pop(p).value.1, pd, i, j, Last(p), 3).value;
      && TablesInMemory(q.mem, pd)
      && if (y / ENTRIES, y % ENTRIES) == (i, j) then
           var w := PageAt(q.mem, pd, y); w.Mapped? && w.frame == Last(p) && w.pageFlags == 3
         else PageAt(q.mem, pd, y) == PageAt(p.mem, pd, y)
  {
    hide MapPage, Separate, IdentityMapped, Sane, Walk;
    CardPageSane(p, pd, i, j);
    MapPageMaps(Pop(p).value.1, pd, i, j, Last(p), 3, y / ENTRIES, y % ENTRIES);
  }

  lemma KernelKeepsIdentity(p: Pool, pd: FrameNo, i: nat, j: nat, h: FrameNo)
    requires TablesInMemory(p.mem, pd) && i != 0 && j < ENTRIES && i < SELF_MAP
    ensures KeepsIdentity(p, pd, i, j, h, 3)
  {
  }

  lemma CardFrames(p: Pool, pd: FrameNo, i: nat, j: nat)
    requires Separate(p, pd) && i < SELF_MAP && j < ENTRIES && HasFrames(p, pd, i)
    requires MapPage(Pop(p).value.1, pd, i, j, Last(p), 3).Some?
    ensures var q := MapPage(Pop(p).value.1, pd, i, j, Last(p), 3).value;
      Loose(q, pd, Last(p)) && (forall g: FrameNo | Loose(p, pd, g) :: Loose(q, pd, g))
      && |q.free| <= |p.free| && q.free == p.free[..|q.free|]
  {
    hide Unshared, MapFlags;
    Popped(p, pd);
    var p1 := Pop(p).value.1;
    if p1.free != [] { Popped(p1, pd); }
  }

  /** Clearing a page of the kernel's that is not in use for paging. */
  lemma CleanIs(p: Pool, pd: FrameNo, x: nat, k: nat)
    requires Booted(p, pd) && x < LIMIT && k <= ENTRIES && PageAt(p.mem, pd, x).Mapped? && PageAt(p.mem, pd, x).frame < FRAMES
    requires Loose(p, pd, PageAt(p.mem, pd, x).frame)
    ensures CleanAt(p, pd, x, k).Some?
    ensures var q := CleanAt(p, pd, x, k).value;
      && Booted(q, pd) && q.free == p.free && SameTables(p.mem, q.mem, pd)
      && (forall y | 0 <= y < LIMIT :: PageAt(q.mem, pd, y) == PageAt(p.mem, pd, y))
      && forall w | 0 <= w < k :: q.mem[PageAt(p.mem, pd, x).frame][w] == 0
  {
    hide Sane, Walk;
    SaneTables(p, pd);
    var g := PageAt(p.mem, pd, x).frame;
    var q := WithWords(p, g, Zeroed()[..k] + p.mem[g][k..]);
    PageIsReached(p.mem, pd, x);
    assert SameTables(p.mem, q.mem, pd);
    StaysBooted(p, q, pd);
  }

  lemma PageIsReached(m: Memory, pd: FrameNo, x: nat)
    requires TablesInMemory(m, pd) && x < LIMIT && PageAt(m, pd, x).Mapped? && PageAt(m, pd, x).frame < FRAMES
    ensures Reached(m, pd, x / ENTRIES, x % ENTRIES) == Some(PageAt(m, pd, x).frame)
  {
  }

  lemma StaysBooted(p: Pool, q: Pool, pd: FrameNo)
    requires Booted(p, pd) && SameTables(p.mem, q.mem, pd) && q.free == p.free
    ensures Booted(q, pd) && forall y | 0 <= y < LIMIT :: PageAt(q.mem, pd, y) == PageAt(p.mem, pd, y)
  {
    hide Sane, Walk;
    StaysSane(p, q, pd);
    SaneTables(q, pd);
    SamePageAt(p.mem, q.mem, pd);
  }

  lemma SamePageAt(m: Memory, m': Memory, pd: FrameNo)
    requires SameTables(m, m', pd)
    ensures TablesInMemory(m, pd) && TablesInMemory(m', pd) && forall y | 0 <= y < LIMIT :: PageAt(m', pd, y) == PageAt(m, pd, y)
  {
  }

  lemma StaysSane(p: Pool, q: Pool, pd: FrameNo)
    requires Sane(p, pd) && SameTables(p.mem, q.mem, pd) && q.free == p.free
    ensures Sane(q, pd)
  {
    hide Reached;
    SameUserPages(p.mem, q.mem, pd);
    IdentityStays(p, q, pd);
  }

  /** The pages of the first `n` buffers, in the order in which they are made. */
  predicate IsBuffer(x: nat, n: nat) {
    (TX_PAGE <= x < TX_PAGE + TX_BUFFERS && x - TX_PAGE < n) || (RX_PAGE <= x < RX_PAGE + 3 && x - RX_PAGE + TX_BUFFERS < n)
  }

  /** The first `n` buffers have frames that nobody else uses, behind one table of the kernel. */
  ghost predicate Buffers(p: Pool, q: Pool, pd: FrameNo, n: nat) {
    && Booted(p, pd) && Booted(q, pd)
    && (forall x | 0 <= x < LIMIT && IsBuffer(x, n) :: Buffered(q, pd, x))
    && (forall y | 0 <= y < LIMIT && !IsBuffer(y, n) :: PageAt(q.mem, pd, y) == PageAt(p.mem, pd, y))
    && (forall k | 0 <= k < SELF_MAP && k != CARD_ENTRY :: q.mem[pd][k] == p.mem[pd][k])
    && (Present(q.mem[pd][CARD_ENTRY]) <==> n > 0)
    && |p.free| == |q.free| + (if n == 0 then 0 else n + 1) && q.free == p.free[..|q.free|]
  }

  ghost predicate Buffered(q: Pool, pd: FrameNo, x: nat)
    requires x < LIMIT && Booted(q, pd)
  {
    PageAt(q.mem, pd, x).Mapped? && PageAt(q.mem, pd, x).frame < FRAMES && Loose(q, pd, PageAt(q.mem, pd, x).frame)
  }

  function BufferPage(n: nat): nat
    requires n < 7
  {
    if n < TX_BUFFERS then TX_PAGE + n else RX_PAGE + n - TX_BUFFERS
  }

  lemma BootedTables(p: Pool, pd: FrameNo)
    requires Booted(p, pd)
    ensures TablesInMemory(p.mem, pd) && Sane(p, pd)
  {
  }

  lemma OneMoreBuffer(p: Pool, q: Pool, pd: FrameNo, n: nat)
    requires Buffers(p, q, pd, n) && n < 7 && |p.free| >= 8
    ensures CardPage(q, pd, BufferPage(n)).Some? && Buffers(p, CardPage(q, pd, BufferPage(n)).value, pd, n + 1)
  {
    hide Booted, CardPage, Loose, PageAt;
    var x := BufferPage(n);
    BootedTables(p, pd);
    BootedTables(q, pd);
    CardPageIs(q, pd, x);
    var r := CardPage(q, pd, x).value;
    BootedTables(r, pd);
    assert x / ENTRIES == CARD_ENTRY;
    forall y | 0 <= y < LIMIT
      ensures IsBuffer(y, n + 1) ==> Buffered(r, pd, y)
      ensures !IsBuffer(y, n + 1) ==> PageAt(r.mem, pd, y) == PageAt(p.mem, pd, y)
    {
      assert IsBuffer(y, n + 1) <==> IsBuffer(y, n) || y == x;
      if y == x { assert PageAt(r.mem, pd, x).frame == Last(q); } else { assert PageAt(r.mem, pd, y) == PageAt(q.mem, pd, y); }
    }
  }

  lemma CleanBuffer(p: Pool, q: Pool, pd: FrameNo, n: nat, x: nat, k: nat)
    requires Buffers(p, q, pd, n) && IsBuffer(x, n) && k <= ENTRIES
    ensures CleanAt(q, pd, x, k).Some? && Buffers(p, CleanAt(q, pd, x, k).value, pd, n)
  {
    hide Booted, CleanAt, PageAt;
    BootedTables(p, pd);
    BootedTables(q, pd);
    assert Buffered(q, pd, x);
    CleanIs(q, pd, x, k);
    BootedTables(CleanAt(q, pd, x, k).value, pd);
  }

  lemma BufferFrames(p: Pool, q: Pool, pd: FrameNo, n: nat)
    requires Buffers(p, q, pd, n)
    ensures |p.free| == |q.free| + (if n == 0 then 0 else n + 1) && q.free == p.free[..|q.free|]
  {
  }

  lemma {:induction false} TxIs(p: Pool, q: Pool, pd: FrameNo, i: nat)
    requires i <= TX_BUFFERS && Buffers(p, q, pd, i) && |p.free| >= 8
    ensures TxBuffers(q, pd, i).Some? && Buffers(p, TxBuffers(q, pd, i).value, pd, TX_BUFFERS)
    decreases TX_BUFFERS - i
  {
    hide Buffers, CardPage, CleanAt;
    BufferFrames(p, q, pd, i);
    if i < TX_BUFFERS {
      OneMoreBuffer(p, q, pd, i);
      CleanBuffer(p, CardPage(q, pd, TX_PAGE + i).value, pd, i + 1, TX_PAGE + i, 512);
      TxIs(p, CleanAt(CardPage(q, pd, TX_PAGE + i).value, pd, TX_PAGE + i, 512).value, pd, i + 1);
    }
  }

  lemma {:induction false} RxIs(p: Pool, q: Pool, pd: FrameNo, i: nat)
    requires i <= 3 && Buffers(p, q, pd, TX_BUFFERS + i) && |p.free| >= 8
    ensures RxPages(q, pd, i).Some? && Buffers(p, RxPages(q, pd, i).value, pd, 7)
    decreases 3 - i
  {
    hide Buffers, CardPage;
    BufferFrames(p, q, pd, TX_BUFFERS + i);
    if i < 3 {
      OneMoreBuffer(p, q, pd, TX_BUFFERS + i);
      RxIs(p, CardPage(q, pd, RX_PAGE + i).value, pd, i + 1);
    }
  }

  lemma {:induction false} RxCleanIs(p: Pool, q: Pool, pd: FrameNo, i: nat)
    requires i <= 3 && Buffers(p, q, pd, 7)
    ensures RxClean(q, pd, i).Some? && Buffers(p, RxClean(q, pd, i).value, pd, 7)
    decreases 3 - i
  {
    hide Buffers, CleanAt;
    if i < 3 {
      CleanBuffer(p, q, pd, 7, RX_PAGE + i, ENTRIES);
      RxCleanIs(p, CleanAt(q, pd, RX_PAGE + i, ENTRIES).value, pd, i + 1);
    }
  }

  /** rtl8139_init takes eight frames: seven for its buffers and one for their table, which is the kernel's.
      Nothing else is mapped, and the address space is still the kernel's alone. */
  lemma CardInitIs(p: Pool, pd: FrameNo)
    requires Booted(p, pd) && !Present(p.mem[pd][CARD_ENTRY]) && |p.free| >= 8
    ensures CardInit(p, pd).Some? && Buffers(p, CardInit(p, pd).value, pd, 7)
    ensures forall x: nat :: IsBuffer(x, 7) <==> 0xF0040 <= x < 0xF0044 || 0xF0050 <= x < 0xF0053
  {
    hide Booted, TxBuffers, RxPages, RxClean, PageAt;
    assert forall x: nat :: !IsBuffer(x, 0);
    assert p.free == p.free[..|p.free|];
    assert Buffers(p, p, pd, 0);
    TxIs(p, p, pd, 0);
    RxIs(p, TxBuffers(p, pd, 0).value, pd, 0);
    RxCleanIs(p, RxPages(TxBuffers(p, pd, 0).value, pd, 0).value, pd, 0);
  }

  // ---------------------------------------------------------------- framebuffer_map and a fork

  /** Page number of 0xF0000000, where the framebuffer is mapped. */
  const SCREEN: nat := 0xF0000

  /** Nothing is mapped behind entry 960 but the kernel's own pages, and nothing above it. */
  ghost predicate ScreenReady(q: Pool, pd: FrameNo, f: nat, n: nat) {
    && Booted(q, pd) && (forall k | CARD_ENTRY < k < SELF_MAP :: !Present(q.mem[pd][k]))
    && FRAMES <= f && f + n <= LIMIT && SCREEN + n <= LIMIT
    && forall x | ENTRIES <= x < LIMIT && PageAt(q.mem, pd, x).Mapped? :: Present(q.mem[pd][CARD_ENTRY]) && x / ENTRIES == CARD_ENTRY
  }

  /** How many of the first `n` pages of the screen lie behind a table of the kernel. */
  function SharedPages(m: Memory, pd: FrameNo, n: nat): nat {
    if !Present(m[pd][CARD_ENTRY]) then 0 else if n < ENTRIES then n else ENTRIES
  }

  /** How many new tables the screen needs. */
  function NewTables(m: Memory, pd: FrameNo, n: nat): nat {
    var all := (n + ENTRIES - 1) / ENTRIES;
    if Present(m[pd][CARD_ENTRY]) && n > 0 then all - 1 else all
  }

  lemma {:induction false} ScreenCosts(q: Pool, pd: FrameNo, f: nat, n: nat, kernelEnd: nat)
    requires ScreenReady(q, pd, f, n)
    ensures TablesInMemory(q.mem, pd)
    ensures MissingTables(q.mem, pd, SCREEN, n) == NewTables(q.mem, pd, n)
    ensures NewCopies(q.mem, pd, kernelEnd, SCREEN, n) == n - SharedPages(q.mem, pd, n)
  {
    hide Sane, CopiedAs, PageAt;
    if n > 0 {
      ScreenCosts(q, pd, f, n - 1, kernelEnd);
      ScreenPage(q, pd, n - 1, kernelEnd);
    }
  }

  lemma ScreenPage(q: Pool, pd: FrameNo, t: nat, kernelEnd: nat)
    requires Booted(q, pd) && (forall k | CARD_ENTRY < k < SELF_MAP :: !Present(q.mem[pd][k])) && SCREEN + t < LIMIT
    ensures TablesInMemory(q.mem, pd) && (SCREEN + t) / ENTRIES == CARD_ENTRY + t / ENTRIES
    ensures !CopiedAs(PageAt(q.mem, pd, SCREEN + t), SCREEN + t, kernelEnd)
    ensures IsUser(TableFlags(q.mem, pd, SCREEN + t)) <==> !Present(q.mem[pd][CARD_ENTRY]) || t >= ENTRIES
  {
    hide Sane, Walk;
    var e := q.mem[pd][(SCREEN + t) / ENTRIES];
    EntryBits(FrameOf(e), Flags(e));
  }

  /** Exactly when a fork succeeds after framebuffer_map on the kernel's own address space: pages behind a
      table of the network card are shared; all others have to be shown at their physical addresses, and to
      be paid for, with their tables twice, beside the child's directory. */
  lemma ForkAfterScreenIff(q: Pool, pd: FrameNo, f: nat, n: nat, kernelEnd: nat)
    requires ScreenReady(q, pd, f, n) && MapRange(q, pd, SCREEN, f, n).Some?
    ensures var s := SharedPages(q.mem, pd, n); var r := MapRange(q, pd, SCREEN, f, n).value;
      CloneVia(r, pd, kernelEnd).Some? <==>
        1 + (n - s) + 2 * NewTables(q.mem, pd, n) <= |q.free| && (s == n || f <= SCREEN <= f + s)
  {
    hide Booted, MapRange, CloneVia, FramesNeeded, AllReachable, AllShown, MissingTables, NewCopies, NewTables;
    BootedTables(q, pd);
    ScreenCosts(q, pd, f, n, kernelEnd);
    BootedNeeds(q, pd, kernelEnd, 0);
    CloneAfterDeviceIff(q, pd, SCREEN, f, n, kernelEnd);
    ScreenShown(q, pd, f, n, kernelEnd);
  }

  lemma ScreenShown(q: Pool, pd: FrameNo, f: nat, n: nat, kernelEnd: nat)
    requires ScreenReady(q, pd, f, n)
    ensures TablesInMemory(q.mem, pd)
    ensures var s := SharedPages(q.mem, pd, n); AllShown(q, pd, SCREEN, f, n, kernelEnd) <==> s == n || f <= SCREEN <= f + s
  {
    hide Sane, Leads, Walk, InKernel;
    var s := SharedPages(q.mem, pd, n);
    SaneTables(q, pd);
    forall x | 0 <= x < LIMIT
      ensures var w := Remapped(q.mem, pd, SCREEN, f, n, x);
        && (CopiedAs(w, x, kernelEnd) <==> SCREEN + s <= x < SCREEN + n)
        && (SCREEN + s <= x < SCREEN + n ==>
              w.Mapped? && w.frame == f + (x - SCREEN) && (Shown(q, pd, SCREEN, n, w.frame) <==> SCREEN <= w.frame < SCREEN + n))
    {
      if SCREEN <= x < SCREEN + n {
        ScreenPage(q, pd, x - SCREEN, kernelEnd);
        LeadsIs(q, pd, f + (x - SCREEN));
      }
    }
    if AllShown(q, pd, SCREEN, f, n, kernelEnd) && s < n {
      var x, y := SCREEN + s, SCREEN + (n - 1);
      assert Shown(q, pd, SCREEN, n, Remapped(q.mem, pd, SCREEN, f, n, x).frame);
      assert Shown(q, pd, SCREEN, n, Remapped(q.mem, pd, SCREEN, f, n, y).frame);
    }
  }

  /** The frames that kernel_after_paging pushes, 0x300000 to 0x3FF000. */
  function KernelFrames(): seq<FrameNo> { seq(256, k requires 0 <= k < 256 => (0x300 + k) as FrameNo) }

  lemma KernelFramesDiffer(p: Pool)
    requires p.free == [0x111, 0x112, 0x113, 0x114]
    ensures Distinct(p.free + KernelFrames()) && Boot(p, KernelFrames()).Some?
  {
    var s := p.free + KernelFrames();
    forall a, b | 0 <= a < b < |s| ensures s[a] != s[b] { }
  }

  lemma BootIsScreenReady(p: Pool, more: seq<FrameNo>, f: nat, n: nat)
    requires Distinct(p.free + more) && Boot(p, more).Some? && FRAMES <= f && f + n <= LIMIT && SCREEN + n <= LIMIT
    ensures var (pd, q) := Boot(p, more).value; ScreenReady(q, pd, f, n) && !Present(q.mem[pd][CARD_ENTRY])
  {
    hide Boot, Sane, Walk;
    BootMaps(p, more);
    BootIsBooted(p, more);
  }

  /** Without a network card no fork succeeds on a screen of 1024 by 768 pixels, wherever the framebuffer is:
      256 frames are too few for a copy of it. */
  lemma NoForkWithoutCard(p: Pool, f: nat, kernelEnd: nat)
    requires p.free == [0x111, 0x112, 0x113, 0x114] && FRAMES <= f && f + 768 <= LIMIT
    ensures Boot(p, KernelFrames()).Some?
    ensures var (pd, q) := Boot(p, KernelFrames()).value;
      && MapRange(q, pd, SCREEN, f, 768).Some? && CloneVia(MapRange(q, pd, SCREEN, f, 768).value, pd, kernelEnd).None?
  {
    hide Boot, CloneVia, MapRange, MissingTables, Sane, ScreenReady;
    KernelFramesDiffer(p);
    BootIsBooted(p, KernelFrames());
    var (pd, q) := Boot(p, KernelFrames()).value;
    BootIsScreenReady(p, KernelFrames(), f, 768);
    ScreenCosts(q, pd, f, 768, kernelEnd);
    MapRangeIs(q, pd, SCREEN, f, 768);
    ForkAfterScreenIff(q, pd, f, 768, kernelEnd);
  }

  lemma CardIsScreenReady(p: Pool, pd: FrameNo, f: nat, n: nat)
    requires ScreenReady(p, pd, f, n) && !Present(p.mem[pd][CARD_ENTRY]) && |p.free| >= 8
    ensures CardInit(p, pd).Some?
    ensures var q := CardInit(p, pd).value; ScreenReady(q, pd, f, n) && Present(q.mem[pd][CARD_ENTRY]) && Buffers(p, q, pd, 7)
  {
    hide Booted, CardInit, PageAt, Loose;
    CardInitIs(p, pd);
    var q := CardInit(p, pd).value;
    BootedTables(p, pd);
    BootedTables(q, pd);
    forall x | ENTRIES <= x < LIMIT ensures PageAt(q.mem, pd, x).Mapped? ==> x / ENTRIES == CARD_ENTRY {
      assert !IsBuffer(x, 7) ==> PageAt(q.mem, pd, x) == PageAt(p.mem, pd, x);
    }
  }

  /** A fork succeeds, and parent and child both have frame `g` behind page `x`. */
  ghost predicate ForkShares(r: Pool, pd: FrameNo, kernelEnd: nat, x: nat, g: nat) {
    && x < LIMIT && TablesInMemory(r.mem, pd) && PageAt(r.mem, pd, x).Mapped? && PageAt(r.mem, pd, x).frame == g
    && CloneVia(r, pd, kernelEnd).Some?
    && var (npd, c) := CloneVia(r, pd, kernelEnd).value;
    TablesInMemory(c.mem, npd) && PageAt(c.mem, npd, x) == PageAt(r.mem, pd, x)
  }

  /** With the card, and a screen of at most 4 MB, a fork needs one frame and succeeds wherever the framebuffer
      is; the child draws on the same screen. But the screen has taken the pages of the card's buffers: what
      the driver leaves there for sending is drawn, and the card never sees it. */
  lemma ScreenOverCard(p: Pool, q: Pool, pd: FrameNo, f: nat, n: nat, kernelEnd: nat, x: nat)
    requires ScreenReady(p, pd, f, n) && !Present(p.mem[pd][CARD_ENTRY]) && |p.free| > 8 && CardInit(p, pd) == Some(q)
    requires n <= ENTRIES && SCREEN <= x < SCREEN + n
    ensures MapRange(q, pd, SCREEN, f, n).Some?
    ensures ForkShares(MapRange(q, pd, SCREEN, f, n).value, pd, kernelEnd, x, f + (x - SCREEN))
    ensures IsBuffer(x, 7) ==> Booted(q, pd) && Buffered(q, pd, x)
  {
    hide Booted, CardInit, MapRange, CloneVia, MissingTables, PageAt, ScreenReady, Buffers, Sane, Ranged, Leads, Buffered;
    CardIsScreenReady(p, pd, f, n);
    CardScreenFacts(p, q, pd, f, n, x);
    ScreenCosts(q, pd, f, n, kernelEnd);
    MapRangeIs(q, pd, SCREEN, f, n);
    ForkAfterScreenIff(q, pd, f, n, kernelEnd);
    RangedPage(q, MapRange(q, pd, SCREEN, f, n).value, pd, SCREEN, f, n, x);
    DeviceInChild(q, pd, SCREEN, f, n, kernelEnd, x);
  }

  lemma CardScreenFacts(p: Pool, q: Pool, pd: FrameNo, f: nat, n: nat, x: nat)
    requires ScreenReady(p, pd, f, n) && ScreenReady(q, pd, f, n) && Buffers(p, q, pd, 7) && Present(q.mem[pd][CARD_ENTRY])
    requires |p.free| > 8 && n <= ENTRIES && SCREEN <= x < SCREEN + n
    ensures |q.free| >= 1 && DeviceReady(q, pd, SCREEN, f, n) && TablesInMemory(q.mem, pd)
    ensures !IsUser(TableFlags(q.mem, pd, x)) && NewTables(q.mem, pd, n) == 0 && SharedPages(q.mem, pd, n) == n
    ensures IsBuffer(x, 7) ==> Booted(q, pd) && Buffered(q, pd, x)
  {
    hide Sane, Walk, Loose;
    assert x / ENTRIES == CARD_ENTRY;
    EntryBits(FrameOf(q.mem[pd][CARD_ENTRY]), Flags(q.mem[pd][CARD_ENTRY]));
  }

  /** So it is with the kernel's own frames and a screen of 1024 by 768 pixels. */
  lemma KernelForksWithCard(p: Pool, f: nat, kernelEnd: nat, x: nat)
    requires p.free == [0x111, 0x112, 0x113, 0x114] && FRAMES <= f && f + 768 <= LIMIT && SCREEN <= x < SCREEN + 768
    ensures Boot(p, KernelFrames()).Some?
    ensures var (pd, q) := Boot(p, KernelFrames()).value; var c := CardInit(q, pd);
      && c.Some? && MapRange(c.value, pd, SCREEN, f, 768).Some?
      && ForkShares(MapRange(c.value, pd, SCREEN, f, 768).value, pd, kernelEnd, x, f + (x - SCREEN))
  {
    hide Boot, CardInit, MapRange, Sane, ScreenReady, ForkShares, MissingTables;
    KernelFramesDiffer(p);
    BootIsBooted(p, KernelFrames());
    var (pd, q) := Boot(p, KernelFrames()).value;
    BootIsScreenReady(p, KernelFrames(), f, 768);
    CardIsScreenReady(q, pd, f, 768);
    ScreenOverCard(q, CardInit(q, pd).value, pd, f, 768, kernelEnd, x);
  }

  /** The tables stay the kernel's. */
  lemma ScreenKeepsKernelSpace(q: Pool, pd: FrameNo, f: nat, n: nat)
    requires ScreenReady(q, pd, f, n) && Present(q.mem[pd][CARD_ENTRY]) && n <= ENTRIES
    ensures MapRange(q, pd, SCREEN, f, n).Some?
    ensures var r := MapRange(q, pd, SCREEN, f, n).value; KernelSpace(r, pd) && r.free == q.free
  {
    hide Sane, MapRange, Walk, CopiedAs, Leads;
    ScreenCosts(q, pd, f, n, 0);
    MapRangeIs(q, pd, SCREEN, f, n);
    MapRangeTakes(q, pd, SCREEN, f, n);
    var r := MapRange(q, pd, SCREEN, f, n).value;
    assert r.free == q.free;
    assert forall k: nat | Spans(SCREEN, n, k) :: k == CARD_ENTRY;
  }

  lemma {:induction false} MapRangeTakes(p: Pool, pd: FrameNo, v: nat, f: nat, n: nat)
    requires DeviceReady(p, pd, v, f, n) && MapRange(p, pd, v, f, n).Some?
    ensures var q := MapRange(p, pd, v, f, n).value; |q.free| <= |p.free| && q.free == p.free[..|q.free|]
  {
    hide Sane, Ranged, TablesInMemory, MapPageVia, MapPage;
    if n > 0 {
      MapRangeIs(p, pd, v, f, n - 1);
      MapRangeTakes(p, pd, v, f, n - 1);
      var q := MapRange(p, pd, v, f, n - 1).value;
      var y := v + n - 1;
      SaneTables(q, pd);
      MapPageIsVia(q, pd, y / ENTRIES, y % ENTRIES, f + n - 1, 7);
      MapPageTakes(q, pd, y / ENTRIES, y % ENTRIES, f + n - 1);
    }
  }

  lemma MapPageTakes(p: Pool, pd: FrameNo, i: nat, j: nat, f: PhysFrame)
    requires i < SELF_MAP && j < ENTRIES && MapPage(p, pd, i, j, f, 7).Some?
    ensures var q := MapPage(p, pd, i, j, f, 7).value; |q.free| <= |p.free| && q.free == p.free[..|q.free|]
  {
    hide Entry;
    assert p.free == p.free[..|p.free|];
  }
}
