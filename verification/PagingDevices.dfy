/** The framebuffer mapped for user code, as framebuffer_map does it, and what then becomes of a fork. */
module PagingDevices {
  import opened Wrappers
  import opened PagingSpec
  import opened PagingClone
  import opened PagingFork
  import opened PagingMap
  import opened PagingNeeds
  import opened PagingVia

  const FRAME_COUNT: nat := 0x10_0000

  /** The loop of framebuffer_map: `n` pages from page number `v` on lead to the frames from `f` on. */
  function MapRange(p: Pool, pd: FrameNo, v: nat, f: nat, n: nat): Option<Pool>
    requires v + n <= LIMIT
  {
    if n == 0 then Some(p)
    else
      match MapRange(p, pd, v, f, n - 1)
      case None => None
      case Some(q) => MapPageVia(q, pd, (v + n - 1) / ENTRIES, (v + n - 1) % ENTRIES, (f + n - 1) % FRAME_COUNT, 7)
  }

  /** A mapping that fails ends the loop. */
  lemma {:induction false} MapRangeFails(p: Pool, pd: FrameNo, v: nat, f: nat, m: nat, n: nat)
    requires m <= n && v + n <= LIMIT && MapRange(p, pd, v, f, m).None?
    ensures MapRange(p, pd, v, f, n).None?
  {
    hide MapPageVia;
    if m < n { MapRangeFails(p, pd, v, f, m, n - 1); }
  }

  function PageAt(m: Memory, pd: FrameNo, x: nat): Mapping
    requires x < LIMIT && TablesInMemory(m, pd)
  {
    Walk(m, pd, x / ENTRIES, x % ENTRIES)
  }

  // ---------------------------------------------------------------- what the loop maps

  /** Directory entries that the pages from `v` on need. */
  predicate Spans(v: nat, n: nat, k: nat) { n > 0 && v / ENTRIES <= k <= (v + n - 1) / ENTRIES }

  /** How many of them have no table yet. */
  function MissingTables(m: Memory, pd: FrameNo, v: nat, n: nat): nat
    requires v + n <= LIMIT
  {
    if n == 0 then 0
    else
      var k := (v + n - 1) / ENTRIES;
      MissingTables(m, pd, v, n - 1) + if !Present(m[pd][k]) && !Spans(v, n - 1, k) then 1 else 0
  }

  /** The flags of the directory entry behind which page `x` is mapped: those it has, or those of a new one. */
  function TableFlags(m: Memory, pd: FrameNo, x: nat): nat
    requires x < LIMIT
  {
    if Present(m[pd][x / ENTRIES]) then Flags(m[pd][x / ENTRIES]) else 7
  }

  /** What the processor finds for page `x` afterwards. */
  function Remapped(m: Memory, pd: FrameNo, v: nat, f: nat, n: nat, x: nat): Mapping
    requires x < LIMIT && TablesInMemory(m, pd)
  {
    if v <= x < v + n then Mapped(f + (x - v), TableFlags(m, pd, x), 7) else PageAt(m, pd, x)
  }

  /** The pages lead to the device; everything else is as before. */
  ghost predicate Ranged(p: Pool, q: Pool, pd: FrameNo, v: nat, f: nat, n: nat)
    requires TablesInMemory(p.mem, pd) && TablesInMemory(q.mem, pd) && v + n <= LIMIT
  {
    && q.dev == p.dev && |q.free| == |p.free| - MissingTables(p.mem, pd, v, n)
    && (forall k | 0 <= k < SELF_MAP && !Present(p.mem[pd][k]) && Spans(v, n, k) ::
          Present(q.mem[pd][k]) && Flags(q.mem[pd][k]) == 7)
    && (forall k | 0 <= k < SELF_MAP && (Present(p.mem[pd][k]) || !Spans(v, n, k)) :: q.mem[pd][k] == p.mem[pd][k])
    && (forall x | 0 <= x < LIMIT :: PageAt(q.mem, pd, x) == Remapped(p.mem, pd, v, f, n, x))
  }

  ghost predicate DeviceReady(p: Pool, pd: FrameNo, v: nat, f: nat, n: nat) {
    Sane(p, pd) && 2 * ENTRIES <= v && v + n <= LIMIT && FRAMES <= f && f + n <= FRAME_COUNT
  }

  /** The loop succeeds exactly if there are frames for the missing tables, and leaves an address space that
      can be cloned. */
  lemma {:induction false} MapRangeIs(p: Pool, pd: FrameNo, v: nat, f: nat, n: nat)
    requires DeviceReady(p, pd, v, f, n)
    ensures MapRange(p, pd, v, f, n).Some? <==> MissingTables(p.mem, pd, v, n) <= |p.free|
    ensures TablesInMemory(p.mem, pd)
    ensures MapRange(p, pd, v, f, n).Some? ==>
      var q := MapRange(p, pd, v, f, n).value; Sane(q, pd) && TablesInMemory(q.mem, pd) && Ranged(p, q, pd, v, f, n)
  {
    hide Sane, Ranged, MapPageVia;
    SaneTables(p, pd);
    if n == 0 {
      NothingRanged(p, pd, v, f);
    } else {
      MapRangeIs(p, pd, v, f, n - 1);
      if MapRange(p, pd, v, f, n - 1).Some? { NextRanged(p, MapRange(p, pd, v, f, n - 1).value, pd, v, f, n); }
    }
  }

  lemma SaneTables(p: Pool, pd: FrameNo)
    requires Sane(p, pd)
    ensures TablesInMemory(p.mem, pd) && Separate(p, pd) && Rooted(p, pd) && Distinct(p.free) && SelfMapped(p.mem, pd)
  {
  }

  lemma NothingRanged(p: Pool, pd: FrameNo, v: nat, f: nat)
    requires TablesInMemory(p.mem, pd) && v <= LIMIT
    ensures Ranged(p, p, pd, v, f, 0)
  {
    hide Walk;
    assert forall k: nat :: !Spans(v, 0, k);
  }

  lemma NextRanged(p: Pool, q: Pool, pd: FrameNo, v: nat, f: nat, n: nat)
    requires DeviceReady(p, pd, v, f, n) && n > 0 && Sane(q, pd) && TablesInMemory(p.mem, pd) && TablesInMemory(q.mem, pd)
    requires Ranged(p, q, pd, v, f, n - 1)
    ensures var r := MapPageVia(q, pd, (v + n - 1) / ENTRIES, (v + n - 1) % ENTRIES, f + n - 1, 7);
      && (r.Some? <==> MissingTables(p.mem, pd, v, n) <= |p.free|)
      && (r.Some? ==> Sane(r.value, pd) && TablesInMemory(r.value.mem, pd) && Ranged(p, r.value, pd, v, f, n))
  {
    hide Sane, MapPage, MapPageVia, Walk, Remapped;
    var i, j, g := (v + n - 1) / ENTRIES, (v + n - 1) % ENTRIES, f + n - 1;
    SaneTables(q, pd);
    MapPageIsVia(q, pd, i, j, g, 7);
    MappedFlags(q, pd, i, j, g, 7);
    assert Present(q.mem[pd][i]) <==> Present(p.mem[pd][i]) || Spans(v, n - 1, i);
    if MapPage(q, pd, i, j, g, 7).Some? {
      var r := MapPage(q, pd, i, j, g, 7).value;
      DeviceKeepsSane(q, pd, i, j, g);
      SameDevices(q, pd, i, j, g, 7);
      SaneTables(r, pd);
      forall k | 0 <= k < SELF_MAP
        ensures !Present(p.mem[pd][k]) && Spans(v, n, k) ==> Present(r.mem[pd][k]) && Flags(r.mem[pd][k]) == 7
        ensures Present(p.mem[pd][k]) || !Spans(v, n, k) ==> r.mem[pd][k] == p.mem[pd][k]
      {
        NextEntry(p, q, pd, v, f, n, k);
      }
      forall x | 0 <= x < LIMIT ensures PageAt(r.mem, pd, x) == Remapped(p.mem, pd, v, f, n, x) {
        NextPage(p, q, pd, v, f, n, x);
      }
    }
  }

  lemma NextEntry(p: Pool, q: Pool, pd: FrameNo, v: nat, f: nat, n: nat, k: nat)
    requires v + n <= LIMIT && f + n <= FRAME_COUNT && n > 0 && Separate(q, pd) && k < SELF_MAP
    requires TablesInMemory(p.mem, pd) && TablesInMemory(q.mem, pd) && Ranged(p, q, pd, v, f, n - 1)
    requires MapPage(q, pd, (v + n - 1) / ENTRIES, (v + n - 1) % ENTRIES, f + n - 1, 7).Some?
    ensures var r := MapPage(q, pd, (v + n - 1) / ENTRIES, (v + n - 1) % ENTRIES, f + n - 1, 7).value;
      && (!Present(p.mem[pd][k]) && Spans(v, n, k) ==> Present(r.mem[pd][k]) && Flags(r.mem[pd][k]) == 7)
      && (Present(p.mem[pd][k]) || !Spans(v, n, k) ==> r.mem[pd][k] == p.mem[pd][k])
  {
    hide MapPage, Walk, Separate, Remapped, MissingTables;
    var i, j := (v + n - 1) / ENTRIES, (v + n - 1) % ENTRIES;
    MappedFlags(q, pd, i, j, f + n - 1, 7);
    MappedTables(q, pd, i, j, f + n - 1, 7);
    assert Spans(v, n, k) <==> Spans(v, n - 1, k) || k == i;
  }

  lemma NextPage(p: Pool, q: Pool, pd: FrameNo, v: nat, f: nat, n: nat, x: nat)
    requires 2 * ENTRIES <= v && v + n <= LIMIT && f + n <= FRAME_COUNT && n > 0 && Separate(q, pd) && x < LIMIT
    requires TablesInMemory(p.mem, pd) && TablesInMemory(q.mem, pd) && Ranged(p, q, pd, v, f, n - 1)
    requires MapPage(q, pd, (v + n - 1) / ENTRIES, (v + n - 1) % ENTRIES, f + n - 1, 7).Some?
    ensures var r := MapPage(q, pd, (v + n - 1) / ENTRIES, (v + n - 1) % ENTRIES, f + n - 1, 7).value;
      TablesInMemory(r.mem, pd) && PageAt(r.mem, pd, x) == Remapped(p.mem, pd, v, f, n, x)
  {
    hide MapPage, Walk, Separate, MissingTables;
    var y := v + n - 1;
    MapPageMaps(q, pd, y / ENTRIES, y % ENTRIES, f + n - 1, 7, x / ENTRIES, x % ENTRIES);
    if x != y {
      assert (x / ENTRIES, x % ENTRIES) != (y / ENTRIES, y % ENTRIES);
      assert PageAt(q.mem, pd, x) == Remapped(p.mem, pd, v, f, n - 1, x);
    } else {
      assert Present(q.mem[pd][y / ENTRIES]) ==> Flags(q.mem[pd][y / ENTRIES]) == TableFlags(p.mem, pd, y);
    }
  }

  lemma SameDevices(p: Pool, pd: FrameNo, i: nat, j: nat, f: PhysFrame, flags: nat)
    requires i < SELF_MAP && j < ENTRIES && MapPage(p, pd, i, j, f, flags).Some?
    ensures MapPage(p, pd, i, j, f, flags).value.dev == p.dev
  {
  }

  /** What a mapping does to its directory entry, and what it takes. */
  lemma MappedFlags(p: Pool, pd: FrameNo, i: nat, j: nat, f: PhysFrame, flags: nat)
    requires Separate(p, pd) && i < SELF_MAP && j < ENTRIES
    ensures var r := MapPage(p, pd, i, j, f, flags);
      && (r.Some? <==> Present(p.mem[pd][i]) || p.free != [])
      && (r.Some? ==>
           && |r.value.free| == |p.free| - (if Present(p.mem[pd][i]) then 0 else 1)
           && var e := r.value.mem[pd][i];
           if Present(p.mem[pd][i]) then e == p.mem[pd][i] else Present(e) && Flags(e) == MapFlags(flags))
  {
    hide MapFlags;
    if p.free != [] { Popped(p, pd); }
  }

  lemma DeviceIsSeparate(p: Pool, pd: FrameNo, f: PhysFrame)
    requires Separate(p, pd) && f >= FRAMES
    ensures f !in p.free && f != pd && forall k | 0 <= k < SELF_MAP && Present(p.mem[pd][k]) :: f != FrameOf(p.mem[pd][k])
  {
  }

  lemma DeviceKeepsSane(p: Pool, pd: FrameNo, i: nat, j: nat, f: PhysFrame)
    requires Sane(p, pd) && 2 <= i < SELF_MAP && j < ENTRIES && f >= FRAMES && MapPage(p, pd, i, j, f, 7).Some?
    ensures Sane(MapPage(p, pd, i, j, f, 7).value, pd)
  {
    hide Separate, IdentityMapped, MapPage, Needed, Seen;
    SaneTables(p, pd);
    DeviceIsSeparate(p, pd, f);
    MapPageKeepsSeparate(p, pd, i, j, f, 7);
    MapPageKeepsIdentityIff(p, pd, i, j, f, 7);
  }

  // ---------------------------------------------------------------- which pages a clone copies

  predicate IsUser(flags: nat) { flags / 4 % 2 == 1 }

  /** Whether a page gets a frame of its own, from what the processor finds there. */
  predicate CopiedAs(w: Mapping, x: nat, kernelEnd: nat) {
    && w.Mapped? && IsUser(w.pageFlags)
    && if x < 2 * ENTRIES then !InKernel(Vaddr(x / ENTRIES, x % ENTRIES), kernelEnd) else IsUser(w.tableFlags)
  }

  lemma CopiedIs(m: Memory, pd: FrameNo, kernelEnd: nat, x: nat)
    requires TablesInMemory(m, pd) && x < LIMIT
    ensures Copied(m, pd, kernelEnd, x / ENTRIES, x % ENTRIES) <==> CopiedAs(PageAt(m, pd, x), x, kernelEnd)
  {
    var e := m[pd][x / ENTRIES];
    EntryBits(FrameOf(e), Flags(e));
    if Present(e) {
      var t := m[FrameOf(e)][x % ENTRIES];
      EntryBits(FrameOf(t), Flags(t));
    }
  }

  /** No clone faults if the physical address of every page that is copied is mapped as a virtual one. */
  lemma AllReachableIs(p: Pool, pd: FrameNo, kernelEnd: nat)
    requires TablesInMemory(p.mem, pd)
    ensures forall x | 0 <= x < LIMIT && PageAt(p.mem, pd, x).Mapped? :: PageAt(p.mem, pd, x).frame < FRAME_COUNT
    ensures AllReachable(p, pd, kernelEnd) <==>
      forall x | 0 <= x < LIMIT && CopiedAs(PageAt(p.mem, pd, x), x, kernelEnd) :: Source(p, pd, PageAt(p.mem, pd, x).frame).Some?
  {
    hide Source, CopiesTable, Keeps;
    forall x | 0 <= x < LIMIT ensures PageAt(p.mem, pd, x).Mapped? ==> PageAt(p.mem, pd, x).frame < FRAME_COUNT { }
    forall x: nat | x < LIMIT
      ensures CopiedAs(PageAt(p.mem, pd, x), x, kernelEnd) <==>
        var i, j := x / ENTRIES, x % ENTRIES;
        TableIsCopied(p.mem, pd, kernelEnd, i) && Moves(p.mem[FrameOf(p.mem[pd][i])], i, kernelEnd, j)
      ensures CopiedAs(PageAt(p.mem, pd, x), x, kernelEnd) ==> PageAt(p.mem, pd, x).Mapped?
      ensures CopiedAs(PageAt(p.mem, pd, x), x, kernelEnd) ==>
        PageAt(p.mem, pd, x).frame == FrameOf(p.mem[FrameOf(p.mem[pd][x / ENTRIES])][x % ENTRIES])
    {
      var i, j := x / ENTRIES, x % ENTRIES;
      CopiedIs(p.mem, pd, kernelEnd, x);
      if Present(p.mem[pd][i]) && Present(p.mem[FrameOf(p.mem[pd][i])][j]) { CopiedMeans(p.mem, pd, kernelEnd, i, j); }
    }
    if AllReachable(p, pd, kernelEnd) {
      forall x | 0 <= x < LIMIT && CopiedAs(PageAt(p.mem, pd, x), x, kernelEnd)
        ensures Source(p, pd, PageAt(p.mem, pd, x).frame).Some?
      {
        var i, j := x / ENTRIES, x % ENTRIES;
        assert Reachable(p, pd, p.mem[FrameOf(p.mem[pd][i])], i, kernelEnd);
        assert Moves(p.mem[FrameOf(p.mem[pd][i])], i, kernelEnd, j);
      }
    }
    if forall x | 0 <= x < LIMIT && CopiedAs(PageAt(p.mem, pd, x), x, kernelEnd) :: Source(p, pd, PageAt(p.mem, pd, x).frame).Some? {
      forall i, j | 0 <= i < SELF_MAP && TableIsCopied(p.mem, pd, kernelEnd, i) &&
          0 <= j < ENTRIES && Moves(p.mem[FrameOf(p.mem[pd][i])], i, kernelEnd, j)
        ensures Source(p, pd, FrameOf(p.mem[FrameOf(p.mem[pd][i])][j])).Some?
      {
        var x := i * ENTRIES + j;
        assert x / ENTRIES == i && x % ENTRIES == j;
        assert CopiedAs(PageAt(p.mem, pd, x), x, kernelEnd);
      }
    }
  }

  // ---------------------------------------------------------------- what a mapping adds to a clone

  /** The frames that a clone spends on directory entry `k`. */
  function EntryCost(m: Memory, pd: FrameNo, kernelEnd: nat, k: nat): nat
    requires k < SELF_MAP && TablesInMemory(m, pd)
  {
    if TableIsCopied(m, pd, kernelEnd, k) then 1 + PagesNeeded(m[FrameOf(m[pd][k])], k, kernelEnd) else 0
  }

  lemma {:induction false} OneEntryCosts(m: Memory, m': Memory, pd: FrameNo, kernelEnd: nat, i: nat, a: nat)
    requires a <= SELF_MAP && i < SELF_MAP && TablesInMemory(m, pd) && TablesInMemory(m', pd)
    requires forall k | 0 <= k < SELF_MAP && k != i :: EntryCost(m', pd, kernelEnd, k) == EntryCost(m, pd, kernelEnd, k)
    ensures FramesNeeded(m', pd, kernelEnd, a) == FramesNeeded(m, pd, kernelEnd, a)
              + if a <= i then EntryCost(m', pd, kernelEnd, i) - EntryCost(m, pd, kernelEnd, i) else 0
    decreases SELF_MAP - a
  {
    hide PagesNeeded, TableIsCopied;
    if a < SELF_MAP {
      OneEntryCosts(m, m', pd, kernelEnd, i, a + 1);
      assert a != i ==> EntryCost(m', pd, kernelEnd, a) == EntryCost(m, pd, kernelEnd, a);
    }
  }

  lemma {:induction false} OnePageCosts(t: Words, t': Words, i: nat, kernelEnd: nat, j: nat, a: nat)
    requires a <= ENTRIES && j < ENTRIES && forall k | 0 <= k < ENTRIES && k != j :: t'[k] == t[k]
    ensures PagesNeeded(t', i, kernelEnd, a) == PagesNeeded(t, i, kernelEnd, a)
              + if a <= j then (if Moves(t', i, kernelEnd, j) then 1 else 0) - (if Moves(t, i, kernelEnd, j) then 1 else 0) else 0
    decreases ENTRIES - a
  {
    hide Keeps;
    if a < ENTRIES { OnePageCosts(t, t', i, kernelEnd, j, a + 1); }
  }

  lemma {:induction false} NoPageCosts(i: nat, kernelEnd: nat, a: nat)
    requires a <= ENTRIES
    ensures PagesNeeded(Zeroed(), i, kernelEnd, a) == 0
    decreases ENTRIES - a
  {
    if a < ENTRIES { NoPageCosts(i, kernelEnd, a + 1); }
  }

  /** What one mapping for user code adds: a frame for a new table, and one for a page that was not copied
      before, unless it lies behind a kernel table. */
  lemma MapPageCosts(p: Pool, pd: FrameNo, i: nat, j: nat, f: PhysFrame, kernelEnd: nat)
    requires Separate(p, pd) && 2 <= i < SELF_MAP && j < ENTRIES && MapPage(p, pd, i, j, f, 7).Some?
    ensures TablesInMemory(p.mem, pd)
    ensures var m, m' := p.mem, MapPage(p, pd, i, j, f, 7).value.mem;
      && TablesInMemory(m', pd)
      && FramesNeeded(m', pd, kernelEnd) == FramesNeeded(m, pd, kernelEnd) + (if Present(m[pd][i]) then 0 else 1)
           + (if Present(m[pd][i]) && (!User(m[pd][i]) || Moves(m[FrameOf(m[pd][i])], i, kernelEnd, j)) then 0 else 1)
  {
    hide FramesNeeded, PagesNeeded, MapPage, Separate, Keeps;
    SeparateIsDistinct(p, pd);
    var m, m' := p.mem, MapPage(p, pd, i, j, f, 7).value.mem;
    MappedTables(p, pd, i, j, f, 7);
    MappedWords(p, pd, i, j, f);
    forall k | 0 <= k < SELF_MAP && k != i ensures EntryCost(m', pd, kernelEnd, k) == EntryCost(m, pd, kernelEnd, k) {
      OtherTable(p, pd, i, j, f, k);
    }
    OneEntryCosts(m, m', pd, kernelEnd, i, 0);
    var t' := m'[FrameOf(m'[pd][i])];
    assert Vaddr(i, j) >= IDENTITY_END;
    assert Moves(t', i, kernelEnd, j) by { MovesUser(t', i, kernelEnd, j); }
    if Present(m[pd][i]) {
      OnePageCosts(m[FrameOf(m[pd][i])], t', i, kernelEnd, j, 0);
    } else {
      OnePageCosts(Zeroed(), t', i, kernelEnd, j, 0);
      NoPageCosts(i, kernelEnd, 0);
    }
  }

  lemma MovesUser(t: Words, i: nat, kernelEnd: nat, j: nat)
    requires i >= 2 && j < ENTRIES && UserEntry(t[j])
    ensures Moves(t, i, kernelEnd, j)
  {
  }

  lemma MappedWords(p: Pool, pd: FrameNo, i: nat, j: nat, f: PhysFrame)
    requires Separate(p, pd) && i < SELF_MAP && j < ENTRIES && MapPage(p, pd, i, j, f, 7).Some?
    ensures var m, m' := p.mem, MapPage(p, pd, i, j, f, 7).value.mem; var e := m'[pd][i];
      && Present(e) && FrameOf(e) < FRAMES && UserEntry(m'[FrameOf(e)][j])
      && (if Present(m[pd][i]) then e == m[pd][i] else User(e))
      && (forall k | 0 <= k < ENTRIES && k != j ::
            m'[FrameOf(e)][k] == if Present(m[pd][i]) then m[FrameOf(e)][k] else 0)
  {
    hide Unshared;
    if p.free != [] { Popped(p, pd); }
  }

  lemma OtherTable(p: Pool, pd: FrameNo, i: nat, j: nat, f: PhysFrame, k: nat)
    requires Separate(p, pd) && i < SELF_MAP && j < ENTRIES && MapPage(p, pd, i, j, f, 7).Some? && k < SELF_MAP && k != i
    ensures var m, m' := p.mem, MapPage(p, pd, i, j, f, 7).value.mem;
      m'[pd][k] == m[pd][k] && (Present(m[pd][k]) ==> FrameOf(m[pd][k]) < FRAMES && m'[FrameOf(m[pd][k])] == m[FrameOf(m[pd][k])])
  {
    hide Unshared, Entry;
    if p.free != [] { Popped(p, pd); }
  }

  /** How many pages of the range a clone copies that it did not copy before. */
  function NewCopies(m: Memory, pd: FrameNo, kernelEnd: nat, v: nat, n: nat): nat
    requires v + n <= LIMIT && TablesInMemory(m, pd)
  {
    if n == 0 then 0
    else
      var y := v + n - 1;
      NewCopies(m, pd, kernelEnd, v, n - 1)
      + if IsUser(TableFlags(m, pd, y)) && !CopiedAs(PageAt(m, pd, y), y, kernelEnd) then 1 else 0
  }

  /** The frames that a clone needs afterwards. */
  lemma {:induction false} MapRangeCosts(p: Pool, pd: FrameNo, v: nat, f: nat, n: nat, kernelEnd: nat)
    requires DeviceReady(p, pd, v, f, n) && MapRange(p, pd, v, f, n).Some?
    ensures TablesInMemory(p.mem, pd) && TablesInMemory(MapRange(p, pd, v, f, n).value.mem, pd)
    ensures FramesNeeded(MapRange(p, pd, v, f, n).value.mem, pd, kernelEnd) ==
      FramesNeeded(p.mem, pd, kernelEnd) + NewCopies(p.mem, pd, kernelEnd, v, n) + MissingTables(p.mem, pd, v, n)
  {
    hide Sane, Ranged, MapPageVia, MapPage, FramesNeeded, Walk, CopiedAs;
    MapRangeIs(p, pd, v, f, n);
    if n > 0 {
      MapRangeIs(p, pd, v, f, n - 1);
      MapRangeCosts(p, pd, v, f, n - 1, kernelEnd);
      var q := MapRange(p, pd, v, f, n - 1).value;
      var y := v + n - 1;
      SaneTables(q, pd);
      MapPageIsVia(q, pd, y / ENTRIES, y % ENTRIES, f + n - 1, 7);
      MapPageCosts(q, pd, y / ENTRIES, y % ENTRIES, f + n - 1, kernelEnd);
      NextCosts(p, q, pd, v, f, n, kernelEnd);
    }
  }

  lemma NextCosts(p: Pool, q: Pool, pd: FrameNo, v: nat, f: nat, n: nat, kernelEnd: nat)
    requires 2 * ENTRIES <= v && v + n <= LIMIT && n > 0 && TablesInMemory(p.mem, pd) && TablesInMemory(q.mem, pd)
    requires Ranged(p, q, pd, v, f, n - 1)
    ensures var y := v + n - 1; var i, j := y / ENTRIES, y % ENTRIES;
      && (Present(q.mem[pd][i]) <==> Present(p.mem[pd][i]) || Spans(v, n - 1, i))
      && (Present(q.mem[pd][i]) ==> FrameOf(q.mem[pd][i]) < FRAMES)
      && (Present(q.mem[pd][i]) && (!User(q.mem[pd][i]) || Moves(q.mem[FrameOf(q.mem[pd][i])], i, kernelEnd, j)) <==>
            !IsUser(TableFlags(p.mem, pd, y)) || CopiedAs(PageAt(p.mem, pd, y), y, kernelEnd))
  {
    hide Walk, MissingTables, InKernel;
    var y := v + n - 1;
    var i, j := y / ENTRIES, y % ENTRIES;
    var e := q.mem[pd][i];
    assert PageAt(q.mem, pd, y) == PageAt(p.mem, pd, y);
    EntryBits(FrameOf(e), Flags(e));
    EntryBits(FrameOf(p.mem[pd][i]), Flags(p.mem[pd][i]));
    AbsentPage(p.mem, pd, y);
    if Present(e) { PageMoves(q.mem, pd, kernelEnd, i, j); WalkFlags(q.mem, pd, i, j); }
  }

  lemma AbsentPage(m: Memory, pd: FrameNo, x: nat)
    requires TablesInMemory(m, pd) && x < LIMIT
    ensures !Present(m[pd][x / ENTRIES]) ==> PageAt(m, pd, x).Unmapped?
  {
  }

  lemma WalkFlags(m: Memory, pd: FrameNo, i: nat, j: nat)
    requires TablesInMemory(m, pd) && i < SELF_MAP && j < ENTRIES
    ensures Walk(m, pd, i, j).Mapped? ==> Walk(m, pd, i, j).tableFlags == Flags(m[pd][i])
  {
  }

  lemma PageMoves(m: Memory, pd: FrameNo, kernelEnd: nat, i: nat, j: nat)
    requires TablesInMemory(m, pd) && 2 <= i < SELF_MAP && j < ENTRIES && Present(m[pd][i])
    ensures Moves(m[FrameOf(m[pd][i])], i, kernelEnd, j) <==> Walk(m, pd, i, j).Mapped? && IsUser(Walk(m, pd, i, j).pageFlags)
  {
    var e := m[FrameOf(m[pd][i])][j];
    EntryBits(FrameOf(e), Flags(e));
    assert Vaddr(i, j) >= IDENTITY_END;
  }

  // ---------------------------------------------------------------- a fork after framebuffer_map

  /** Whether an address leads anywhere once the pages from `v` on are mapped: it is one of them, or it was
      mapped before, or it is that of one of their tables in the self-map. */
  predicate Shown(p: Pool, pd: FrameNo, v: nat, n: nat, x: nat) {
    x < FRAME_COUNT && (v <= x < v + n || Leads(p, pd, x).Some? || (x >= LIMIT && Spans(v, n, x % ENTRIES)))
  }

  lemma LeadsIs(p: Pool, pd: FrameNo, x: nat)
    requires x < FRAME_COUNT && TablesInMemory(p.mem, pd) && SelfMapped(p.mem, pd)
    ensures x < LIMIT ==>
      var w := PageAt(p.mem, pd, x); Leads(p, pd, x) == if w.Mapped? then Some(w.frame) else None
    ensures x >= LIMIT ==> (Leads(p, pd, x).Some? <==> Present(p.mem[pd][x % ENTRIES]))
  {
  }

  lemma ShownIs(p: Pool, q: Pool, pd: FrameNo, v: nat, f: nat, n: nat, x: nat)
    requires x < FRAME_COUNT && v + n <= LIMIT
    requires TablesInMemory(p.mem, pd) && SelfMapped(p.mem, pd) && TablesInMemory(q.mem, pd) && SelfMapped(q.mem, pd)
    requires Ranged(p, q, pd, v, f, n)
    ensures Leads(q, pd, x).Some? <==> Shown(p, pd, v, n, x)
  {
    hide Walk, Leads;
    LeadsIs(p, pd, x);
    LeadsIs(q, pd, x);
  }

  /** Every page that a clone copies afterwards is memory, or is shown at its physical address. */
  ghost predicate AllShown(p: Pool, pd: FrameNo, v: nat, f: nat, n: nat, kernelEnd: nat)
    requires TablesInMemory(p.mem, pd)
  {
    forall x | 0 <= x < LIMIT && CopiedAs(Remapped(p.mem, pd, v, f, n, x), x, kernelEnd) ::
      Remapped(p.mem, pd, v, f, n, x).frame < FRAMES || Shown(p, pd, v, n, Remapped(p.mem, pd, v, f, n, x).frame)
  }

  /** When a fork survives framebuffer_map, decided before: there are frames for the directory, for what was
      copied before, for the pages of the range that lie behind user tables, and twice for the tables it
      lacks; and every page that is copied can be read at its physical address. */
  lemma CloneAfterDeviceIff(p: Pool, pd: FrameNo, v: nat, f: nat, n: nat, kernelEnd: nat)
    requires DeviceReady(p, pd, v, f, n) && MapRange(p, pd, v, f, n).Some?
    ensures TablesInMemory(p.mem, pd)
    ensures var q := MapRange(p, pd, v, f, n).value;
      var needed := 1 + FramesNeeded(p.mem, pd, kernelEnd) + NewCopies(p.mem, pd, kernelEnd, v, n) + 2 * MissingTables(p.mem, pd, v, n);
      CloneVia(q, pd, kernelEnd).Some? <==> needed <= |p.free| && AllShown(p, pd, v, f, n, kernelEnd)
  {
    hide Sane, Ranged, MapRange, CloneVia, Clone, AllReachable, AllShown;
    var q := MapRange(p, pd, v, f, n).value;
    MapRangeIs(p, pd, v, f, n);
    MapRangeCosts(p, pd, v, f, n, kernelEnd);
    SaneTables(p, pd);
    SaneTables(q, pd);
    CloneIsVia(q, pd, kernelEnd);
    CloneSucceedsIff(q, pd, kernelEnd);
    DeviceReachableIff(p, q, pd, v, f, n, kernelEnd);
    assert |q.free| == |p.free| - MissingTables(p.mem, pd, v, n) by { RangedFree(p, q, pd, v, f, n); }
  }

  lemma RangedFree(p: Pool, q: Pool, pd: FrameNo, v: nat, f: nat, n: nat)
    requires v + n <= LIMIT && TablesInMemory(p.mem, pd) && TablesInMemory(q.mem, pd) && Ranged(p, q, pd, v, f, n)
    ensures |q.free| == |p.free| - MissingTables(p.mem, pd, v, n) && q.dev == p.dev
  {
  }

  lemma DeviceReachableIff(p: Pool, q: Pool, pd: FrameNo, v: nat, f: nat, n: nat, kernelEnd: nat)
    requires TablesInMemory(p.mem, pd) && TablesInMemory(q.mem, pd) && SelfMapped(p.mem, pd) && SelfMapped(q.mem, pd)
    requires v + n <= LIMIT && Ranged(p, q, pd, v, f, n)
    ensures AllReachable(q, pd, kernelEnd) <==> AllShown(p, pd, v, f, n, kernelEnd)
  {
    hide AllReachable, Leads, Walk, InKernel, Shown, CopiedAs;
    AllReachableIs(q, pd, kernelEnd);
    forall x | 0 <= x < FRAME_COUNT ensures Leads(q, pd, x).Some? <==> Shown(p, pd, v, n, x) { ShownIs(p, q, pd, v, f, n, x); }
    forall x | 0 <= x < LIMIT ensures PageAt(q.mem, pd, x) == Remapped(p.mem, pd, v, f, n, x) { }
    forall x | 0 <= x < LIMIT && CopiedAs(PageAt(q.mem, pd, x), x, kernelEnd) ensures PageAt(q.mem, pd, x).Mapped? {
      CopiedIsMapped(PageAt(q.mem, pd, x), x, kernelEnd);
    }
  }

  lemma CopiedIsMapped(w: Mapping, x: nat, kernelEnd: nat)
    requires CopiedAs(w, x, kernelEnd)
    ensures w.Mapped?
  {
  }

  // ---------------------------------------------------------------- behind kernel tables and user tables

  /** The tables of the range are there, and they are the kernel's. */
  ghost predicate KernelTables(m: Memory, pd: FrameNo, v: nat, n: nat) {
    forall k | 0 <= k < SELF_MAP && Spans(v, n, k) :: Present(m[pd][k]) && !User(m[pd][k])
  }

  lemma {:induction false} NothingNew(m: Memory, pd: FrameNo, v: nat, n: nat, kernelEnd: nat)
    requires v + n <= LIMIT && TablesInMemory(m, pd) && KernelTables(m, pd, v, n)
    ensures MissingTables(m, pd, v, n) == 0 && NewCopies(m, pd, kernelEnd, v, n) == 0
  {
    hide CopiedAs, Walk;
    if n > 0 {
      assert forall k: nat | Spans(v, n - 1, k) :: Spans(v, n, k);
      NothingNew(m, pd, v, n - 1, kernelEnd);
      var k := (v + n - 1) / ENTRIES;
      assert Spans(v, n, k);
      EntryBits(FrameOf(m[pd][k]), Flags(m[pd][k]));
    }
  }

  /** Behind kernel tables the loop always succeeds, and afterwards a fork is as possible as before. */
  lemma KernelTablesKeepForks(p: Pool, pd: FrameNo, v: nat, f: nat, n: nat, kernelEnd: nat)
    requires DeviceReady(p, pd, v, f, n) && KernelTables(p.mem, pd, v, n) && TablesInMemory(p.mem, pd)
    ensures MapRange(p, pd, v, f, n).Some?
    ensures AllReachable(p, pd, kernelEnd) ==>
      (CloneVia(MapRange(p, pd, v, f, n).value, pd, kernelEnd).Some? <==> CloneVia(p, pd, kernelEnd).Some?)
  {
    hide Sane, MapRange, CloneVia, Clone, AllReachable, AllShown;
    NothingNew(p.mem, pd, v, n, kernelEnd);
    MapRangeIs(p, pd, v, f, n);
    if AllReachable(p, pd, kernelEnd) {
      SaneTables(p, pd);
      CloneAfterDeviceIff(p, pd, v, f, n, kernelEnd);
      CloneIsVia(p, pd, kernelEnd);
      CloneSucceedsIff(p, pd, kernelEnd);
      StillShown(p, pd, v, f, n, kernelEnd);
    }
  }

  lemma StillShown(p: Pool, pd: FrameNo, v: nat, f: nat, n: nat, kernelEnd: nat)
    requires TablesInMemory(p.mem, pd) && v >= 2 * ENTRIES && v + n <= LIMIT
    requires KernelTables(p.mem, pd, v, n) && AllReachable(p, pd, kernelEnd)
    ensures AllShown(p, pd, v, f, n, kernelEnd)
  {
    hide AllReachable, Leads, Walk, InKernel;
    AllReachableIs(p, pd, kernelEnd);
    forall x | 0 <= x < LIMIT && CopiedAs(Remapped(p.mem, pd, v, f, n, x), x, kernelEnd)
      ensures var g := Remapped(p.mem, pd, v, f, n, x).frame; g < FRAMES || Shown(p, pd, v, n, g)
    {
      if v <= x < v + n {
        var k := x / ENTRIES;
        assert Spans(v, n, k);
        EntryBits(FrameOf(p.mem[pd][k]), Flags(p.mem[pd][k]));
        assert false;
      }
    }
  }

  /** What a forked child finds there: behind a user table a copy, in memory of its own, of what the physical
      address shows; behind a kernel table the device itself. */
  lemma DeviceInChild(p: Pool, pd: FrameNo, v: nat, f: nat, n: nat, kernelEnd: nat, x: nat)
    requires DeviceReady(p, pd, v, f, n) && MapRange(p, pd, v, f, n).Some? && v <= x < v + n
    requires CloneVia(MapRange(p, pd, v, f, n).value, pd, kernelEnd).Some?
    ensures TablesInMemory(p.mem, pd)
    ensures var q := MapRange(p, pd, v, f, n).value; var (npd, r) := CloneVia(q, pd, kernelEnd).value;
      && TablesInMemory(r.mem, npd)
      && var w := PageAt(r.mem, npd, x);
      && w.Mapped? && w.tableFlags == TableFlags(p.mem, pd, x) && w.pageFlags == 7
      && if IsUser(TableFlags(p.mem, pd, x)) then
           && w.frame < FRAMES && w.frame in q.free
           && var s := Leads(q, pd, f + (x - v));
           s.Some? && (s.value >= FRAMES ==> r.mem[w.frame] == p.dev(s.value)) && (f == v ==> s == Some(x))
         else w.frame == f + (x - v)
  {
    hide Sane, Ranged, MapRange, CloneVia, Clone, Walk, Leads, Copied;
    var q := MapRange(p, pd, v, f, n).value;
    MapRangeIs(p, pd, v, f, n);
    SaneTables(p, pd);
    SaneTables(q, pd);
    CloneIsVia(q, pd, kernelEnd);
    ForkStaysSane(q, pd, kernelEnd);
    var (npd, r) := CloneVia(q, pd, kernelEnd).value;
    SaneTables(r, npd);
    RangedPage(p, q, pd, v, f, n, x);
    RangedFree(p, q, pd, v, f, n);
    CopiedIs(q.mem, pd, kernelEnd, x);
    LeadsIs(q, pd, f + (x - v));
    if f == v { LeadsIs(q, pd, x); }
    ChildMapsSame(q, pd, kernelEnd, x / ENTRIES, x % ENTRIES);
  }

  lemma RangedPage(p: Pool, q: Pool, pd: FrameNo, v: nat, f: nat, n: nat, x: nat)
    requires v + n <= LIMIT && TablesInMemory(p.mem, pd) && TablesInMemory(q.mem, pd) && Ranged(p, q, pd, v, f, n)
    requires v <= x < v + n
    ensures PageAt(q.mem, pd, x) == Mapped(f + (x - v), TableFlags(p.mem, pd, x), 7)
  {
  }
}
