/** kernel/elf_loader.c among the processes: loading a program is a run of new pages and stores of the task
    that loads it, so whatever holds for such runs holds for it. */
module ProcessLoad {
  import opened Wrappers
  import opened SfsCodec
  import opened Processes
  import KernelSpec
  import Paging = PagingSpec
  import PagingFork
  import PagingVia
  import PagingBoot
  import Space = PagingSpaces
  import Pages = ElfPages
  import Elf = ElfSpec
  import File = ElfFile
  import SfsWrite
  import SfsRuns

  function WithPool(w: World, p: Paging.Pool): World { w.(spaces := w.spaces.(pool := p)) }

  /** The pages lie above 4 MB, outside the kernel image, and behind no table that a fork would share. */
  ghost predicate Room(m: Paging.Memory, pd: Paging.FrameNo, kernelEnd: nat, vps: set<nat>)
    requires Paging.TablesInMemory(m, pd)
  {
    forall x | x in vps :: Space.MayGrow(m, pd, kernelEnd, x) && Space.Ownable(kernelEnd, x)
  }

  /** A task is running that may have the pages `vps`. */
  ghost predicate Loader(w: World, kernelEnd: nat, vps: set<nat>) {
    && Good(w, kernelEnd) && w.sys.procs[w.sys.cur].state == KernelSpec.Running && w.sys.cur in w.spaces.dirs
    && Paging.TablesInMemory(w.spaces.pool.mem, w.spaces.dirs[w.sys.cur])
    && Room(w.spaces.pool.mem, w.spaces.dirs[w.sys.cur], kernelEnd, vps)
  }

  function Dir(w: World): Paging.FrameNo
    requires w.sys.cur in w.spaces.dirs
  {
    w.spaces.dirs[w.sys.cur]
  }

  // ---------------------------------------------------------------- one act

  lemma RoomAfterGrow(p: Paging.Pool, pd: Paging.FrameNo, kernelEnd: nat, x: nat, p': Paging.Pool, vps: set<nat>)
    requires Space.AddsPage(p, pd, kernelEnd, x, p') && Paging.TablesInMemory(p.mem, pd) && Room(p.mem, pd, kernelEnd, vps) && x in vps
    ensures Paging.TablesInMemory(p'.mem, pd) && Room(p'.mem, pd, kernelEnd, vps)
  {
    hide Paging.AllocPage, PagingVia.AllocPageVia, Paging.Separate, PagingVia.IdentityMapped, Space.Ownable, Paging.HasUserPage,
      Space.Housed;
    Space.GrowFacts(p, pd, kernelEnd, x, p');
    Space.GrowShape(p, pd, x / Paging.ENTRIES, x % Paging.ENTRIES);
    Space.GrownPage(p, pd, kernelEnd, x, p', x);
    Space.TablesDiffer(p, pd);
    Space.OwnDirectory(p, pd);
    OwnTable(p'.mem, pd, kernelEnd, x);
  }

  lemma OwnTable(m: Paging.Memory, pd: Paging.FrameNo, kernelEnd: nat, x: nat)
    requires Paging.TablesInMemory(m, pd) && Space.Own(m, pd, kernelEnd, x)
    ensures PagingFork.TableIsCopied(m, pd, kernelEnd, x / Paging.ENTRIES)
  {
  }

  lemma LoaderIs(w: World, kernelEnd: nat, vps: set<nat>)
    requires Loader(w, kernelEnd, vps)
    ensures Space.Intact(w.spaces.pool, Dir(w), kernelEnd) && PagingVia.Rooted(w.spaces.pool, Dir(w))
    ensures Paging.FRAMES <= Paging.ENTRIES && (forall x | x in vps :: Paging.ENTRIES <= x < Paging.LIMIT) && Elf.Clear(Dir(w), vps)
  {
    hide Space.Pair, Space.StacksOk, Paging.Separate, PagingVia.IdentityMapped;
    PagingVia.SaneIsRooted(w.spaces.pool, Dir(w));
  }

  /** paging_alloc_page as the loader calls it is a new page of the task. */
  lemma AllocIsGrow(w: World, kernelEnd: nat, vps: set<nat>, x: nat)
    requires Loader(w, kernelEnd, vps) && x in vps && x < Paging.LIMIT && Pages.AllocAt(w.spaces.pool, Dir(w), x).Some?
    ensures var w' := WithPool(w, Pages.AllocAt(w.spaces.pool, Dir(w), x).value);
      && Permitted(w, kernelEnd, Grow(x)) && Acted(w, kernelEnd, Grow(x)) == Some(w') && Loader(w', kernelEnd, vps)
      && Pages.UserAt(w'.spaces.pool.mem, Dir(w), x).Some?
  {
    hide Good, PagingVia.AllocPageVia, Space.Intact, Space.MayGrow, Space.Ownable, PagingVia.Rooted, Pages.UserAt, Paging.TablesInMemory;
    LoaderIs(w, kernelEnd, vps);
    Pages.AllocStep(w.spaces.pool, Dir(w), x);
    ActIsFlat(w, kernelEnd, Grow(x));
    RoomAfterGrow(w.spaces.pool, Dir(w), kernelEnd, x, Pages.AllocAt(w.spaces.pool, Dir(w), x).value, vps);
  }

  /** A byte loop of the loader is a store to the page. */
  lemma BytesAreStore(w: World, kernelEnd: nat, vps: set<nat>, va: nat, data: Bytes) returns (a: Act)
    requires Loader(w, kernelEnd, vps) && va % Paging.PAGE_SIZE + |data| <= Paging.PAGE_SIZE
    requires Pages.UserAt(w.spaces.pool.mem, Dir(w), va / Paging.PAGE_SIZE).Some?
    ensures va / Paging.PAGE_SIZE < Paging.LIMIT && Elf.Store(w.spaces.pool, Dir(w), va, data).Some?
    ensures var w' := WithPool(w, Elf.Store(w.spaces.pool, Dir(w), va, data).value);
      a.Store? && Permitted(w, kernelEnd, a) && Acted(w, kernelEnd, a) == Some(w') && Loader(w', kernelEnd, vps)
  {
    hide Good, Space.Intact, Space.MayGrow, Space.Ownable, PagingVia.Rooted, Pages.UserAt, Elf.Store, Pages.WithBytes,
      Paging.TablesInMemory;
    LoaderIs(w, kernelEnd, vps);
    var p, x := w.spaces.pool, va / Paging.PAGE_SIZE;
    Elf.StoreIs(p, Dir(w), va, data);
    Pages.UserFrame(p, Dir(w), x);
    var f := Pages.UserAt(p.mem, Dir(w), x).value;
    a := Store(x, Pages.WithBytes(p.mem[f], va % Paging.PAGE_SIZE, data));
    ActIsFlat(w, kernelEnd, a);
    RoomAfterStore(p, Dir(w), kernelEnd, x, f, Pages.WithBytes(p.mem[f], va % Paging.PAGE_SIZE, data), vps);
  }

  lemma RoomAfterStore(p: Paging.Pool, pd: Paging.FrameNo, kernelEnd: nat, x: nat, f: Paging.FrameNo, ws: Paging.Words, vps: set<nat>)
    requires Space.Intact(p, pd, kernelEnd) && Paging.TablesInMemory(p.mem, pd) && Room(p.mem, pd, kernelEnd, vps)
    requires Space.Uses(p.mem, pd, x) && Space.FrameAt(p.mem, pd, x) == f
    ensures var m' := Paging.WithWords(p, f, ws).mem; Paging.TablesInMemory(m', pd) && Room(m', pd, kernelEnd, vps)
  {
    hide Space.Uses, Space.FrameAt, PagingFork.TableIsCopied, Space.Ownable;
    Space.StoreLeavesTables(p, pd, pd, kernelEnd, x, ws);
    Space.SamePages(p.mem, Paging.WithWords(p, f, ws).mem, pd, kernelEnd);
  }

  // ---------------------------------------------------------------- runs of new pages and stores

  /** New pages and stores only. */
  predicate Quiet(acts: seq<Act>) { forall a | a in acts :: !a.Section? }

  /** `acts` take `w` to the state with memory `p`. */
  ghost predicate Leads(w: World, kernelEnd: nat, acts: seq<Act>, p: Paging.Pool) {
    Quiet(acts) && Runs(w, kernelEnd, acts) && Ran(w, kernelEnd, acts) == WithPool(w, p)
  }

  lemma {:induction false} RunsOn(w: World, kernelEnd: nat, acts: seq<Act>, more: seq<Act>)
    requires Runs(w, kernelEnd, acts) && Runs(Ran(w, kernelEnd, acts), kernelEnd, more)
    ensures Runs(w, kernelEnd, acts + more) && Ran(w, kernelEnd, acts + more) == Ran(Ran(w, kernelEnd, acts), kernelEnd, more)
    decreases |acts|
  {
    hide Permitted, Acted;
    if acts == [] {
      assert acts + more == more;
    } else {
      assert (acts + more)[0] == acts[0] && (acts + more)[1..] == acts[1..] + more;
      RunsOn(Acted(w, kernelEnd, acts[0]).value, kernelEnd, acts[1..], more);
    }
  }

  lemma LeadsOn(w: World, kernelEnd: nat, acts: seq<Act>, p: Paging.Pool, more: seq<Act>, q: Paging.Pool)
    requires Leads(w, kernelEnd, acts, p) && Leads(WithPool(w, p), kernelEnd, more, q)
    ensures Leads(w, kernelEnd, acts + more, q)
  {
    hide Runs, Ran;
    RunsOn(w, kernelEnd, acts, more);
  }

  lemma OneLeads(w: World, kernelEnd: nat, a: Act, p: Paging.Pool)
    requires !a.Section? && Permitted(w, kernelEnd, a) && Acted(w, kernelEnd, a) == Some(WithPool(w, p))
    ensures Leads(w, kernelEnd, [a], p)
  {
    hide Permitted, Acted;
    var w' := Acted(w, kernelEnd, a).value;
    assert Runs(w', kernelEnd, []) && Ran(w', kernelEnd, []) == w' && [a][1..] == [];
  }

  lemma NoneLeads(w: World, kernelEnd: nat)
    ensures Leads(w, kernelEnd, [], w.spaces.pool)
  {
  }

  // ---------------------------------------------------------------- the loader's loops

  /** The first loop of load_segment. */
  lemma {:induction false} FileLoopIsRun(w: World, kernelEnd: nat, vps: set<nat>, file: Bytes, va: nat, off: nat, remain: nat)
    returns (acts: seq<Act>)
    requires Loader(w, kernelEnd, vps) && Elf.Span(va, remain) <= vps
    requires Elf.FileLoop(w.spaces.pool, Dir(w), Some(file), va, off, remain).Done?
    ensures var p' := Elf.FileLoop(w.spaces.pool, Dir(w), Some(file), va, off, remain).pool;
      Leads(w, kernelEnd, acts, p') && Loader(WithPool(w, p'), kernelEnd, vps)
    decreases remain
  {
    hide Loader, Leads, Permitted, Acted, Elf.Span, Elf.ReadPadded, Elf.Store, PagingVia.AllocPageVia, Pages.UserAt;
    if remain == 0 {
      NoneLeads(w, kernelEnd);
      return [];
    }
    LoaderDir(w, kernelEnd, vps);
    Elf.NextChunk(va, remain);
    var x, n := va / Paging.PAGE_SIZE, SfsWrite.ChunkLen(va, remain);
    var data := Elf.ReadPadded(file, off, n);
    var p1 := Pages.AllocAt(w.spaces.pool, Dir(w), x).value;
    AllocIsGrow(w, kernelEnd, vps, x);
    OneLeads(w, kernelEnd, Grow(x), p1);
    var a := BytesAreStore(WithPool(w, p1), kernelEnd, vps, va, data);
    var p2 := Elf.Store(p1, Dir(w), va, data).value;
    OneLeads(WithPool(w, p1), kernelEnd, a, p2);
    var more := FileLoopIsRun(WithPool(w, p2), kernelEnd, vps, file, va + n, off + n, remain - n);
    var p' := Elf.FileLoop(p2, Dir(w), Some(file), va + n, off + n, remain - n).pool;
    LeadsOn(w, kernelEnd, [Grow(x)], p1, [a], p2);
    LeadsOn(w, kernelEnd, [Grow(x)] + [a], p2, more, p');
    acts := [Grow(x)] + [a] + more;
  }

  lemma LoaderDir(w: World, kernelEnd: nat, vps: set<nat>)
    requires Loader(w, kernelEnd, vps)
    ensures w.sys.cur in w.spaces.dirs
  {
  }

  /** The page of the second loop: nothing to do, or a new page. */
  lemma EnsuredIsRun(w: World, kernelEnd: nat, vps: set<nat>, x: nat) returns (acts: seq<Act>)
    requires Loader(w, kernelEnd, vps) && x in vps && x < Paging.LIMIT && Elf.Ours(w.spaces.pool.mem, Dir(w), {x})
    requires Elf.Ensured(w.spaces.pool, Dir(w), x).Some?
    ensures var p' := Elf.Ensured(w.spaces.pool, Dir(w), x).value;
      Leads(w, kernelEnd, acts, p') && Loader(WithPool(w, p'), kernelEnd, vps) && Pages.UserAt(p'.mem, Dir(w), x).Some?
  {
    hide Good, Leads, Permitted, Acted, PagingVia.AllocPageVia, Pages.UserAt, Pages.MappedAt, PagingVia.Rooted, Elf.Probe, Room,
      Paging.TablesInMemory;
    LoaderIs(w, kernelEnd, vps);
    Elf.ProbeIs(w.spaces.pool, Dir(w), x);
    assert x in {x};
    if Pages.MappedAt(w.spaces.pool.mem, Dir(w), x) {
      NoneLeads(w, kernelEnd);
      return [];
    }
    AllocIsGrow(w, kernelEnd, vps, x);
    OneLeads(w, kernelEnd, Grow(x), Pages.AllocAt(w.spaces.pool, Dir(w), x).value);
    acts := [Grow(x)];
  }

  /** The second loop of load_segment. */
  lemma {:induction false} BssLoopIsRun(w: World, kernelEnd: nat, vps: set<nat>, va: nat, remain: nat) returns (acts: seq<Act>)
    requires Loader(w, kernelEnd, vps) && Elf.Span(va, remain) <= vps && Elf.Ours(w.spaces.pool.mem, Dir(w), Elf.Span(va, remain))
    requires Elf.BssLoop(w.spaces.pool, Dir(w), va, remain).Done?
    ensures var p' := Elf.BssLoop(w.spaces.pool, Dir(w), va, remain).pool;
      Leads(w, kernelEnd, acts, p') && Loader(WithPool(w, p'), kernelEnd, vps)
    decreases remain
  {
    hide Loader, Leads, Permitted, Acted, Elf.Span, Elf.Store, Elf.Ensured, Pages.UserAt, Pages.MappedAt, PagingVia.Rooted;
    if remain == 0 {
      NoneLeads(w, kernelEnd);
      return [];
    }
    LoaderDir(w, kernelEnd, vps);
    LoaderIs(w, kernelEnd, vps);
    Elf.NextChunk(va, remain);
    var p, x, n := w.spaces.pool, va / Paging.PAGE_SIZE, SfsWrite.ChunkLen(va, remain);
    var p1 := Elf.Ensured(p, Dir(w), x).value;
    var first := EnsuredIsRun(w, kernelEnd, vps, x);
    var a := BytesAreStore(WithPool(w, p1), kernelEnd, vps, va, Elf.Zeros(n));
    var p2 := Elf.Store(p1, Dir(w), va, Elf.Zeros(n)).value;
    OneLeads(WithPool(w, p1), kernelEnd, a, p2);
    Elf.StillOurs(p, Dir(w), va, n, Elf.Span(va + n, remain - n));
    var more := BssLoopIsRun(WithPool(w, p2), kernelEnd, vps, va + n, remain - n);
    LeadsOn(w, kernelEnd, first, p1, [a], p2);
    LeadsOn(w, kernelEnd, first + [a], p2, more, Elf.BssLoop(p2, Dir(w), va + n, remain - n).pool);
    acts := first + [a] + more;
  }

  /** load_segment. */
  lemma SegmentIsRun(w: World, kernelEnd: nat, vps: set<nat>, file: Bytes, g: Elf.Segment) returns (acts: seq<Act>)
    requires Loader(w, kernelEnd, vps) && Elf.LoadReady(w.spaces.pool.mem, Dir(w), g) && Elf.Pages(g) <= vps
    requires Elf.LoadSegment(w.spaces.pool, Dir(w), Some(file), g).Done?
    ensures var p' := Elf.LoadSegment(w.spaces.pool, Dir(w), Some(file), g).pool;
      Leads(w, kernelEnd, acts, p') && Loader(WithPool(w, p'), kernelEnd, vps)
  {
    hide Loader, Leads, Elf.Span, Elf.FileLoop, Elf.BssLoop, Elf.Ours, PagingVia.Rooted, Elf.Clear;
    LoaderDir(w, kernelEnd, vps);
    assert (g.memsz + 0x1_0000_0000 - g.filesz) % 0x1_0000_0000 == g.memsz - g.filesz;
    LoaderIs(w, kernelEnd, vps);
    Elf.PagesSplit(g);
    Elf.BssStarts(w.spaces.pool, Dir(w), file, g);
    var first := FileLoopIsRun(w, kernelEnd, vps, file, g.vaddr, g.offset, g.filesz);
    var p1 := Elf.FileLoop(w.spaces.pool, Dir(w), Some(file), g.vaddr, g.offset, g.filesz).pool;
    var more := BssLoopIsRun(WithPool(w, p1), kernelEnd, vps, g.vaddr + g.filesz, g.memsz - g.filesz);
    LeadsOn(w, kernelEnd, first, p1, more, Elf.BssLoop(p1, Dir(w), g.vaddr + g.filesz, g.memsz - g.filesz).pool);
    acts := first + more;
  }

  /** The loop over the program headers. */
  lemma {:induction false} ProgramIsRun(w: World, kernelEnd: nat, vps: set<nat>, file: Bytes, phoff: u32, phnum: nat, i: nat)
    returns (acts: seq<Act>)
    requires i <= phnum && Loader(w, kernelEnd, vps) && Elf.Loadable(w.spaces.pool.mem, Dir(w), file, phoff, phnum, i)
    requires forall k: nat | i <= k < phnum && Elf.Loads(file, phoff, k) :: Elf.Pages(Elf.SegmentAt(file, phoff, k)) <= vps
    requires Elf.LoadAll(w.spaces.pool, Dir(w), file, phoff, phnum, i).Done?
    ensures var p' := Elf.LoadAll(w.spaces.pool, Dir(w), file, phoff, phnum, i).pool;
      Leads(w, kernelEnd, acts, p') && Loader(WithPool(w, p'), kernelEnd, vps)
    decreases phnum - i
  {
    hide Loader, Leads, Elf.LoadSegment, Elf.Pages, Elf.SegmentAt, Elf.Loads, Elf.Loadable, Elf.LoadReady, PagingVia.Rooted, Elf.Clear;
    LoaderDir(w, kernelEnd, vps);
    if i == phnum {
      NoneLeads(w, kernelEnd);
      return [];
    }
    var p := w.spaces.pool;
    Elf.FirstHeader(p.mem, Dir(w), file, phoff, phnum, i);
    if !Elf.Loads(file, phoff, i) {
      acts := ProgramIsRun(w, kernelEnd, vps, file, phoff, phnum, i + 1);
      return;
    }
    var g := Elf.SegmentAt(file, phoff, i);
    LoaderIs(w, kernelEnd, vps);
    var first := SegmentIsRun(w, kernelEnd, vps, file, g);
    var p1 := Elf.LoadSegment(p, Dir(w), Some(file), g).pool;
    Elf.StillLoadable(p, Dir(w), file, phoff, phnum, i);
    var more := ProgramIsRun(WithPool(w, p1), kernelEnd, vps, file, phoff, phnum, i + 1);
    LeadsOn(w, kernelEnd, first, p1, more, Elf.LoadAll(p1, Dir(w), file, phoff, phnum, i + 1).pool);
    acts := first + more;
  }

  /** setup_user_stack. */
  lemma {:induction false} StackIsRun(w: World, kernelEnd: nat, vps: set<nat>, i: nat) returns (acts: seq<Act>)
    requires i <= Elf.STACK_PAGES && Loader(w, kernelEnd, vps) && (forall x: nat | Elf.InStack(i, x) :: x in vps)
    requires Elf.StackLoop(w.spaces.pool, Dir(w), i).Some?
    ensures var p' := Elf.StackLoop(w.spaces.pool, Dir(w), i).value;
      Leads(w, kernelEnd, acts, p') && Loader(WithPool(w, p'), kernelEnd, vps)
    decreases Elf.STACK_PAGES - i
  {
    hide Loader, Leads, Permitted, Acted, PagingVia.AllocPageVia, Pages.UserAt;
    LoaderDir(w, kernelEnd, vps);
    if i == Elf.STACK_PAGES {
      NoneLeads(w, kernelEnd);
      return [];
    }
    var x := Elf.STACK_TOP / Paging.PAGE_SIZE - (i + 1);
    assert Elf.InStack(i, x);
    AllocIsGrow(w, kernelEnd, vps, x);
    var p1 := Pages.AllocAt(w.spaces.pool, Dir(w), x).value;
    OneLeads(w, kernelEnd, Grow(x), p1);
    var more := StackIsRun(WithPool(w, p1), kernelEnd, vps, i + 1);
    LeadsOn(w, kernelEnd, [Grow(x)], p1, more, Elf.StackLoop(p1, Dir(w), i + 1).value);
    acts := [Grow(x)] + more;
  }

  // ---------------------------------------------------------------- what a load means for the tasks

  lemma {:induction false} QuietIsUntouched(w: World, kernelEnd: nat, acts: seq<Act>, t: KernelSpec.TaskSlot)
    requires Runs(w, kernelEnd, acts) && Quiet(acts) && t != w.sys.cur
    ensures Untouched(w, kernelEnd, acts, t)
    decreases |acts|
  {
    hide Permitted;
    if acts != [] { QuietIsUntouched(Acted(w, kernelEnd, acts[0]).value, kernelEnd, acts[1..], t); }
  }

  /** The memory of the running task. */
  ghost function Mine(w: World, kernelEnd: nat): Space.Private
    requires Good(w, kernelEnd)
  {
    CurIsLive(w, kernelEnd);
    FlatCur(w, kernelEnd);
    FlatOf(w, kernelEnd).mems[w.sys.cur]
  }

  /** A run of new pages and stores touches the running task's memory only. */
  lemma QuietIsPrivate(w: World, kernelEnd: nat, acts: seq<Act>, p: Paging.Pool)
    requires Good(w, kernelEnd) && Leads(w, kernelEnd, acts, p)
    ensures Good(WithPool(w, p), kernelEnd)
    ensures FlatOf(WithPool(w, p), kernelEnd) ==
      Flat(w.sys, FlatOf(w, kernelEnd).mems[w.sys.cur := Mine(WithPool(w, p), kernelEnd)])
  {
    hide Good, Runs, Ran, Quiet, FlatOf, Space.Views;
    RunIsFlat(w, kernelEnd, acts);
    var w' := WithPool(w, p);
    FlatCur(w, kernelEnd);
    FlatCur(w', kernelEnd);
    var f, f' := FlatOf(w, kernelEnd), FlatOf(w', kernelEnd);
    forall t | t in f.mems && t != w.sys.cur ensures f'.mems[t] == f.mems[t] {
      TaskOf(w, kernelEnd, t);
      QuietIsUntouched(w, kernelEnd, acts, t);
      Isolated(w, kernelEnd, acts, t);
    }
    assert f'.mems == f.mems[w.sys.cur := Mine(w', kernelEnd)];
  }

  lemma TaskOf(w: World, kernelEnd: nat, t: nat)
    requires Good(w, kernelEnd) && t in w.spaces.dirs
    ensures t < KernelSpec.MAX_TASKS
  {
  }

  /** A page that may be had and is the user's is the task's own. */
  lemma RoomIsOwn(w: World, kernelEnd: nat, vps: set<nat>, a: nat, b: Byte)
    requires Loader(w, kernelEnd, vps) && a / Paging.PAGE_SIZE in vps && Pages.ByteAt(w.spaces.pool.mem, Dir(w), a) == Some(b)
    ensures Holds(Mine(w, kernelEnd), a, b)
  {
    hide Pages.FrameBytes, Space.Pair, Space.StacksOk, Paging.Separate, PagingVia.IdentityMapped, PagingVia.Rooted;
    LoaderIs(w, kernelEnd, vps);
    Pages.UserFrame(w.spaces.pool, Dir(w), a / Paging.PAGE_SIZE);
  }

  /** Byte `b` stands at address `a`. */
  predicate Holds(v: Space.Private, a: nat, b: Byte) {
    a / Paging.PAGE_SIZE in v && Pages.FrameBytes(v[a / Paging.PAGE_SIZE])[a % Paging.PAGE_SIZE] == b
  }

  /** The image of every segment is in memory `v`, and so are the pages of the stack, which come last. */
  ghost predicate HoldsProgram(v: Space.Private, file: Bytes) {
    && (forall x: nat | Elf.InStack(0, x) :: x in v)
    && forall k: nat, a: nat | File.AsksLoad(file, k) && File.Covers(file, k, a) && !File.OnStack(a) ::
      Holds(v, a, File.ByteFor(file, k, a))
  }

  /** A task is running that may load this program: its segments can be loaded, and it may have their pages
      and those of the stack. */
  ghost predicate MayExec(w: World, kernelEnd: nat, vps: set<nat>, file: Bytes) {
    && Loader(w, kernelEnd, vps) && File.IsExecutable(file) && File.CanLoad(w.spaces.pool.mem, Dir(w), file)
    && (forall x: nat | Elf.InStack(0, x) :: x in vps)
    && forall k: nat | File.AsksLoad(file, k) :: Elf.Pages(File.Wanted(file, k)) <= vps
  }

  /** Loading a program is a run of new pages and stores of the task that loads it. Afterwards the task's own
      memory holds the image of every segment, and nothing else has changed: not the tables of the kernel, nor
      the memory of any other task. */
  lemma ProgramIsInMemory(w: World, kernelEnd: nat, vps: set<nat>, file: Bytes) returns (acts: seq<Act>)
    requires MayExec(w, kernelEnd, vps, file) && Elf.Exec(w.spaces.pool, Dir(w), file).Done?
    ensures var p' := Elf.Exec(w.spaces.pool, Dir(w), file).pool; var w' := WithPool(w, p');
      && Leads(w, kernelEnd, acts, p') && Good(w', kernelEnd)
      && FlatOf(w', kernelEnd) == Flat(w.sys, FlatOf(w, kernelEnd).mems[w.sys.cur := Mine(w', kernelEnd)])
      && HoldsProgram(Mine(w', kernelEnd), file)
  {
    hide Good, Leads, FlatOf, Room, Elf.Exec, Elf.Loadable, Elf.LoadAll, Elf.StackLoop, Elf.Span, Holds, Elf.InStack, PagingVia.Rooted,
      File.CanLoad, File.AsksLoad, File.Covers, File.ByteFor, File.Wanted, File.IsExecutable, Elf.SegmentAt, Elf.Loads;
    var phoff, phnum := ExecIs(w.spaces.pool, Dir(w), file);
    SameSegments(file, phoff, phnum, vps);
    var p1 := Elf.LoadAll(w.spaces.pool, Dir(w), file, phoff, phnum).pool;
    var p' := Elf.StackLoop(p1, Dir(w)).value;
    var first := ProgramIsRun(w, kernelEnd, vps, file, phoff, phnum, 0);
    var more := StackIsRun(WithPool(w, p1), kernelEnd, vps, 0);
    LeadsOn(w, kernelEnd, first, p1, more, p');
    acts := first + more;
    QuietIsPrivate(w, kernelEnd, acts, p');
    forall k: nat, a: nat | File.AsksLoad(file, k) && File.Covers(file, k, a) && !File.OnStack(a)
      ensures Holds(Mine(WithPool(w, p'), kernelEnd), a, File.ByteFor(file, k, a))
    {
      ImageIsHeld(w, kernelEnd, vps, file, k, a);
    }
    forall x: nat | Elf.InStack(0, x) ensures x in Mine(WithPool(w, p'), kernelEnd) { StackIsHeld(WithPool(w, p1), kernelEnd, vps, x); }
  }

  /** What an executable's load consists of. */
  lemma ExecIs(p: Paging.Pool, pd: Paging.FrameNo, file: Bytes) returns (phoff: u32, phnum: nat)
    requires File.IsExecutable(file) && File.CanLoad(p.mem, pd, file) && Elf.Exec(p, pd, file).Done?
    ensures phoff == Word(file, 28) && phnum == File.Headers(file) && File.HasHeaders(file)
    ensures Elf.Loadable(p.mem, pd, file, phoff, phnum, 0)
    ensures var r := Elf.LoadAll(p, pd, file, phoff, phnum);
      r.Done? && Elf.StackLoop(r.pool, pd) == Some(Elf.Exec(p, pd, file).pool)
  {
    hide Elf.EhdrOf, Elf.Checked, Elf.LoadAll, Elf.StackLoop, Elf.Loadable;
    File.EhdrIs(file);
    assert SfsRuns.Slice(file, 0, 52) == file[..52];
    File.CanLoadIsLoadable(p.mem, pd, file);
    phoff, phnum := Word(file, 28), File.Headers(file);
  }

  lemma SameSegments(file: Bytes, phoff: u32, phnum: nat, vps: set<nat>)
    requires File.HasHeaders(file) && phoff == Word(file, 28) && phnum == File.Headers(file)
    requires forall k: nat | File.AsksLoad(file, k) :: Elf.Pages(File.Wanted(file, k)) <= vps
    ensures forall k: nat | k < phnum && Elf.Loads(file, phoff, k) :: Elf.Pages(Elf.SegmentAt(file, phoff, k)) <= vps
  {
    hide Elf.Loads, Elf.SegmentAt, Elf.Pages, File.AsksLoad, File.Wanted;
    forall k: nat | k < phnum && Elf.Loads(file, phoff, k) ensures Elf.Pages(Elf.SegmentAt(file, phoff, k)) <= vps {
      File.HeaderMeans(file, k);
    }
  }

  lemma ImageIsHeld(w: World, kernelEnd: nat, vps: set<nat>, file: Bytes, k: nat, a: nat)
    requires MayExec(w, kernelEnd, vps, file) && Elf.Exec(w.spaces.pool, Dir(w), file).Done?
    requires File.AsksLoad(file, k) && File.Covers(file, k, a) && !File.OnStack(a)
    requires Loader(WithPool(w, Elf.Exec(w.spaces.pool, Dir(w), file).pool), kernelEnd, vps)
    ensures var w' := WithPool(w, Elf.Exec(w.spaces.pool, Dir(w), file).pool);
      Good(w', kernelEnd) && Holds(Mine(w', kernelEnd), a, File.ByteFor(file, k, a))
  {
    hide Good, Room, Elf.Exec, Elf.Span, Holds, Pages.ByteAt, PagingVia.Rooted, Mine, File.CanLoad, File.IsExecutable, File.ByteFor;
    LoaderIs(w, kernelEnd, vps);
    CoveredPage(file, k, a);
    var added := File.Added(w.spaces.pool.mem, Dir(w), file);
    File.ExecutableIsLoaded(w.spaces.pool, Dir(w), file, added, k, a);
    RoomIsOwn(WithPool(w, Elf.Exec(w.spaces.pool, Dir(w), file).pool), kernelEnd, vps, a, File.ByteFor(file, k, a));
  }

  lemma CoveredPage(file: Bytes, k: nat, a: nat)
    requires File.AsksLoad(file, k) && File.Covers(file, k, a)
    ensures a / Paging.PAGE_SIZE in Elf.Pages(File.Wanted(file, k))
  {
    hide Elf.Span;
    Elf.SpanHolds(File.Wanted(file, k).vaddr, File.Wanted(file, k).memsz, a);
  }

  lemma StackIsHeld(w: World, kernelEnd: nat, vps: set<nat>, x: nat)
    requires Loader(w, kernelEnd, vps) && Elf.StackLoop(w.spaces.pool, Dir(w)).Some? && Elf.InStack(0, x) && x in vps
    requires Loader(WithPool(w, Elf.StackLoop(w.spaces.pool, Dir(w)).value), kernelEnd, vps)
    ensures var w' := WithPool(w, Elf.StackLoop(w.spaces.pool, Dir(w)).value); Good(w', kernelEnd) && x in Mine(w', kernelEnd)
  {
    hide Good, Room, Elf.StackLoop, Elf.InStack, Pages.ByteAt, Pages.UserAt, PagingVia.Rooted, Mine;
    LoaderIs(w, kernelEnd, vps);
    var p', a := Elf.StackLoop(w.spaces.pool, Dir(w)).value, Paging.PAGE_SIZE * x;
    Elf.StackIsMapped(w.spaces.pool, Dir(w), 0, x, 0);
    Elf.UserHasBytes(p'.mem, Dir(w), a);
    RoomIsOwn(WithPool(w, p'), kernelEnd, vps, a, Pages.ByteAt(p'.mem, Dir(w), a).value);
  }

  /** The first task may have every page above 4 MB that lies outside the kernel image and behind no table of
      the kernel. */
  lemma FirstTaskMayLoad(q: Paging.Pool, pd: Paging.FrameNo, kernelEnd: nat, vps: set<nat>)
    requires PagingBoot.KernelSpace(q, pd)
    requires forall x | x in vps ::
      Paging.ENTRIES <= x < Paging.LIMIT && !Paging.Present(q.mem[pd][x / Paging.ENTRIES]) && Space.Ownable(kernelEnd, x)
    ensures Loader(World(KernelSpec.Boot, Space.Spaces(q, map[0 := pd], map[])), kernelEnd, vps)
  {
    hide PagingVia.Sane, Good;
    KernelSpaceIsGood(q, pd, kernelEnd);
  }

  /** A run that begins with a fork and in which nobody touches the child. */
  ghost predicate ForkRun(w: World, kernelEnd: nat, run: seq<Act>) {
    && run != [] && run[0].Section? && run[0].e == KernelSpec.Fork && Forks(w.sys, KernelSpec.Fork)
    && Runs(w, kernelEnd, run) && Untouched(w, kernelEnd, run, KernelSpec.FreeSlot(w.sys.procs))
  }

  /** A child forked after the load has the program, whatever the other tasks do before it runs. */
  lemma ChildHasProgram(w: World, kernelEnd: nat, file: Bytes, run: seq<Act>)
    requires Good(w, kernelEnd) && HoldsProgram(Mine(w, kernelEnd), file) && ForkRun(w, kernelEnd, run)
    ensures var u, w' := KernelSpec.FreeSlot(w.sys.procs), Ran(w, kernelEnd, run);
      Good(w', kernelEnd) && u in FlatOf(w', kernelEnd).mems && HoldsProgram(FlatOf(w', kernelEnd).mems[u], file)
  {
    hide Good, Runs, Ran, Untouched, HoldsProgram, Space.Views, FlatOf;
    assert run == [Section(KernelSpec.Fork, run[0].regs)] + run[1..];
    ChildRemembers(w, kernelEnd, run[0].regs, run[1..]);
    FlatCur(w, kernelEnd);
    FlatCur(Ran(w, kernelEnd, run), kernelEnd);
  }
}
