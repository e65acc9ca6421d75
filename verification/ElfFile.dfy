/** elf_load_and_exec on the bytes of the file: which bytes make it load what, and where. */
module ElfFile {
  import opened Wrappers
  import opened SfsCodec
  import opened PagingSpec
  import opened PagingVia
  import opened ElfPages
  import opened ElfSpec
  import SfsRuns

  // ---------------------------------------------------------------- fields

  /** The little-endian half-word at `at`. */
  function Half(file: Bytes, at: nat): nat
    requires at + 2 <= |file|
  {
    var b0: int, b1: int := file[at], file[at + 1];
    b0 + 256 * b1
  }

  /** The file begins like a 32-bit little-endian executable for the i386 with program headers. */
  predicate IsExecutable(file: Bytes) {
    && |file| >= 52
    && file[0] == 0x7F && file[1] == 'E' as int && file[2] == 'L' as int && file[3] == 'F' as int
    && file[4] == 1 && file[5] == 1
    && Half(file, 16) == 2 && Half(file, 18) == 3 && Half(file, 44) != 0
  }

  /** Where program header `k` begins. */
  function HeaderAt(file: Bytes, k: nat): nat
    requires |file| >= 52
  {
    Word(file, 28) + 32 * k
  }

  function Headers(file: Bytes): nat
    requires |file| >= 52
  {
    Half(file, 44)
  }

  /** All program headers are in the file, whose size is below 4 GB. */
  predicate HasHeaders(file: Bytes) { |file| >= 52 && |file| < 0x1_0000_0000 && HeaderAt(file, Headers(file)) <= |file| }

  /** Program header `k` asks for a segment. */
  predicate AsksLoad(file: Bytes, k: nat) {
    HasHeaders(file) && k < Headers(file) && HeaderAt(file, k) + 32 <= |file| && Word(file, HeaderAt(file, k)) == 1
  }

  /** The segment it asks for: where in memory, where in the file, how much of the file, how much memory. */
  function Wanted(file: Bytes, k: nat): Segment
    requires AsksLoad(file, k)
  {
    var at := HeaderAt(file, k);
    Segment(vaddr := Word(file, at + 8), offset := Word(file, at + 4), filesz := Word(file, at + 16), memsz := Word(file, at + 20))
  }

  /** What elf_load_and_exec makes of the fields. */
  lemma HeaderMeans(file: Bytes, k: nat)
    requires HasHeaders(file) && k < Headers(file)
    ensures Word(file, 28) < 0x1_0000_0000 && Header(file, Word(file, 28), k).Some?
    ensures Loads(file, Word(file, 28), k) <==> AsksLoad(file, k)
    ensures AsksLoad(file, k) ==> SegmentAt(file, Word(file, 28), k) == Wanted(file, k)
  {
    hide UnWords;
    var at := HeaderAt(file, k);
    assert at + 32 <= HeaderAt(file, Headers(file));
    var h := file[at..at + 32];
    assert SfsRuns.Slice(file, at, 32) == h;
    UnWordsAt(h, 8, 0);
    UnWordsAt(h, 8, 1);
    UnWordsAt(h, 8, 2);
    UnWordsAt(h, 8, 4);
    UnWordsAt(h, 8, 5);
  }

  lemma EhdrIs(file: Bytes)
    requires |file| >= 52
    ensures var h := EhdrOf(file[..52]);
      && (Checked(h) <==> IsExecutable(file)) && h.entry == Word(file, 24) && h.phoff == Word(file, 28) && h.phnum == Half(file, 44)
  {
    var s := file[..52];
    WordIs(s[24..28]);
    WordIs(s[28..32]);
    var id := s[..16][..6];
    assert id == [file[0], file[1], file[2], file[3], file[4], file[5]];
    var h := EhdrOf(s);
    assert h.ident[..6] == id && h.kind == Half(file, 16) && h.machine == Half(file, 18);
  }

  /** A file that is no such executable is refused before anything happens. */
  lemma OthersAreRefused(p: Pool, pd: FrameNo, file: Bytes)
    requires !IsExecutable(file)
    ensures Exec(p, pd, file) == Failed(p)
  {
    hide EhdrOf, Checked;
    if |file| >= 52 {
      EhdrIs(file);
      assert SfsRuns.Slice(file, 0, 52) == file[..52];
    }
  }

  // ---------------------------------------------------------------- the program in memory

  /** The segments can be loaded one after the other: each is well formed and in nobody's way, and no later one's
      file part shares a page with an earlier one. */
  ghost predicate CanLoad(m: Memory, pd: FrameNo, file: Bytes) {
    && HasHeaders(file)
    && (forall k: nat | AsksLoad(file, k) :: LoadReady(m, pd, Wanted(file, k)))
    && forall k: nat, l: nat | k < l && AsksLoad(file, k) && AsksLoad(file, l) :: Apart(Wanted(file, k), Wanted(file, l))
  }

  lemma CanLoadIsLoadable(m: Memory, pd: FrameNo, file: Bytes)
    requires CanLoad(m, pd, file)
    ensures Word(file, 28) < 0x1_0000_0000 && Loadable(m, pd, file, Word(file, 28), Headers(file), 0)
  {
    hide Header, Loads, SegmentAt, Wanted, AsksLoad, LoadReady, Apart, HeaderAt;
    var phoff, n := Word(file, 28), Headers(file);
    forall k: nat | k < n
      ensures Header(file, phoff, k).Some? && (Loads(file, phoff, k) <==> AsksLoad(file, k))
      ensures AsksLoad(file, k) ==> SegmentAt(file, phoff, k) == Wanted(file, k)
    {
      HeaderMeans(file, k);
    }
  }

  /** The pages that get a new frame. */
  ghost predicate IsNew(m: Memory, pd: FrameNo, file: Bytes, vp: nat) {
    exists k: nat :: AsksLoad(file, k) && WellFormed(Wanted(file, k)) && vp in NewPages(m, pd, Wanted(file, k))
  }

  lemma {:induction false} AllPagesHold(m: Memory, pd: FrameNo, file: Bytes, phoff: u32, phnum: nat, i: nat, vp: nat)
    requires i <= phnum && forall k: nat | i <= k < phnum && Loads(file, phoff, k) :: WellFormed(SegmentAt(file, phoff, k))
    ensures vp in AllPages(m, pd, file, phoff, phnum, i) <==>
      exists k: nat :: i <= k < phnum && Loads(file, phoff, k) && vp in NewPages(m, pd, SegmentAt(file, phoff, k))
    decreases phnum - i
  {
    hide Loads, SegmentAt, NewPages, WellFormed;
    if i < phnum {
      AllPagesHold(m, pd, file, phoff, phnum, i + 1, vp);
      if Loads(file, phoff, i) && vp in NewPages(m, pd, SegmentAt(file, phoff, i)) { assert i <= i < phnum; }
    }
  }

  lemma NewOnesAre(m: Memory, pd: FrameNo, file: Bytes, vp: nat)
    requires CanLoad(m, pd, file)
    ensures Loadable(m, pd, file, Word(file, 28), Headers(file), 0)
    ensures forall k: nat | k < Headers(file) && Loads(file, Word(file, 28), k) :: WellFormed(SegmentAt(file, Word(file, 28), k))
    ensures IsNew(m, pd, file, vp) <==> vp in AllPages(m, pd, file, Word(file, 28), Headers(file), 0)
  {
    hide Header, Loads, SegmentAt, Wanted, NewPages, HeaderAt, Apart, WellFormed;
    var phoff, n := Word(file, 28), Headers(file);
    CanLoadIsLoadable(m, pd, file);
    LoadableIsWellFormed(m, pd, file, phoff, n, 0);
    forall k: nat | k < n
      ensures (Loads(file, phoff, k) <==> AsksLoad(file, k)) && (AsksLoad(file, k) ==> SegmentAt(file, phoff, k) == Wanted(file, k))
    {
      HeaderMeans(file, k);
    }
    AllPagesHold(m, pd, file, phoff, n, 0, vp);
  }

  /** The 16 KB below 0xE0000000. */
  predicate OnStack(a: nat) { 0xDFFF_C000 <= a < 0xE000_0000 }

  ghost function Added(m: Memory, pd: FrameNo, file: Bytes): (added: set<nat>)
    requires CanLoad(m, pd, file)
    ensures forall vp: nat :: vp in added <==> IsNew(m, pd, file, vp)
  {
    NewOnesAre(m, pd, file, 0);
    var added := AllPages(m, pd, file, Word(file, 28), Headers(file), 0);
    assert forall vp: nat :: vp in added <==> IsNew(m, pd, file, vp) by {
      forall vp: nat ensures vp in added <==> IsNew(m, pd, file, vp) { NewOnesAre(m, pd, file, vp); }
    }
    added
  }

  /** Address `a` is in the memory that program header `k` asks for. */
  predicate Covers(file: Bytes, k: nat, a: nat)
    requires AsksLoad(file, k)
  {
    var at := HeaderAt(file, k);
    var vaddr, memsz := Word(file, at + 8), Word(file, at + 20);
    vaddr <= a < vaddr + memsz
  }

  /** The byte that belongs there: the file's, or zero behind the header's part of the file or the file's end. */
  function ByteFor(file: Bytes, k: nat, a: nat): Byte
    requires AsksLoad(file, k) && Covers(file, k, a)
  {
    var at := HeaderAt(file, k);
    var vaddr, offset, filesz := Word(file, at + 8), Word(file, at + 4), Word(file, at + 16);
    if a - vaddr < filesz && offset + (a - vaddr) < |file| then file[offset + (a - vaddr)] else 0
  }

  /** Exactly when an executable is loaded, which page it gets where, and byte for byte what its program then finds:
      of each PT_LOAD header the bytes of the file, then zeros, at the place that the header names; its stack; and
      on all other pages what was there. `added` are the pages of the segments that need a frame. */
  lemma ExecutableIsLoaded(p: Pool, pd: FrameNo, file: Bytes, added: set<nat>, k: nat, a: nat)
    requires Rooted(p, pd) && IsExecutable(file) && CanLoad(p.mem, pd, file) && added == Added(p.mem, pd, file)
    ensures var r := Exec(p, pd, file);
      var table := if Present(p.mem[pd][895]) || (exists vp :: vp in added && vp / ENTRIES == 895) then 0 else 1;
      && (r.Done? <==> Cost(p.mem, pd, added) + STACK_PAGES + table <= |p.free|) && !r.Failed? && !r.Astray?
      && (r.Done? ==> Rooted(r.pool, pd) && |r.pool.free| == |p.free| - (Cost(p.mem, pd, added) + STACK_PAGES + table))
    ensures var r := Exec(p, pd, file);
      r.Done? && AsksLoad(file, k) && Covers(file, k, a) && !OnStack(a) ==>
        ByteAt(r.pool.mem, pd, a) == Some(ByteFor(file, k, a))
    ensures Exec(p, pd, file).Done? ==> var m' := Exec(p, pd, file).pool.mem;
      && (OnStack(a) ==> ByteAt(m', pd, a).Some?)
      && (!OnStack(a) && ByteAt(p.mem, pd, a).Some?
          && (forall l: nat | AsksLoad(file, l) :: !InImage(Wanted(file, l), a) && a / PAGE_SIZE !in FilePages(Wanted(file, l))) ==>
            ByteAt(m', pd, a) == ByteAt(p.mem, pd, a))
  {
    hide LoadAll, StackLoop, Loads, SegmentAt, Loadable, EhdrOf, Checked, Rooted, ByteAt, UserAt, MappedAt, Cost, CanLoad, IsNew, AllPages;
    var phoff, n := Word(file, 28), Headers(file);
    assert HasHeaders(file) by { CanLoadHas(p.mem, pd, file); }
    EhdrIs(file);
    assert SfsRuns.Slice(file, 0, 52) == file[..52];
    NewOnesAre(p.mem, pd, file, 0);
    forall vp: nat ensures vp in added <==> vp in AllPages(p.mem, pd, file, phoff, n, 0) { NewOnesAre(p.mem, pd, file, vp); }
    assert added == AllPages(p.mem, pd, file, phoff, n, 0);
    ProgramIsLoaded(p, pd, file, phoff, n, 0, k, a);
    var r1 := LoadAll(p, pd, file, phoff, n);
    if r1.Done? {
      StackIsMapped(r1.pool, pd, 0, a / PAGE_SIZE, a);
      StackPage(StackLoop(r1.pool, pd), pd, a);
      if forall l: nat | AsksLoad(file, l) :: !InImage(Wanted(file, l), a) && a / PAGE_SIZE !in FilePages(Wanted(file, l)) {
        StillThere(file, phoff, a);
      }
      if AsksLoad(file, k) { SegmentByteIs(file, k, a); }
    }
  }

  lemma CanLoadHas(m: Memory, pd: FrameNo, file: Bytes)
    requires CanLoad(m, pd, file)
    ensures HasHeaders(file)
  {
  }

  lemma StackPage(r: Option<Pool>, pd: FrameNo, a: nat)
    ensures r.Some? && UserAt(r.value.mem, pd, a / PAGE_SIZE).Some? ==> ByteAt(r.value.mem, pd, a).Some?
  {
  }

  lemma StillThere(file: Bytes, phoff: u32, a: nat)
    requires HasHeaders(file) && phoff == Word(file, 28)
    requires forall l: nat | AsksLoad(file, l) :: !InImage(Wanted(file, l), a) && a / PAGE_SIZE !in FilePages(Wanted(file, l))
    ensures OutOfTheWay(file, phoff, Headers(file), 0, a)
  {
    hide Loads, SegmentAt, Wanted, AsksLoad, FilePages;
    forall l: nat | l < Headers(file) && Loads(file, phoff, l)
      ensures !InImage(SegmentAt(file, phoff, l), a) && a / PAGE_SIZE !in FilePages(SegmentAt(file, phoff, l))
    {
      HeaderMeans(file, l);
    }
  }

  lemma SegmentByteIs(file: Bytes, k: nat, a: nat)
    requires AsksLoad(file, k)
    ensures Word(file, 28) < 0x1_0000_0000 && Loads(file, Word(file, 28), k)
    ensures var g := SegmentAt(file, Word(file, 28), k);
      Covers(file, k, a) ==> InImage(g, a) && g.vaddr <= a && ImageByte(file, g, a - g.vaddr) == ByteFor(file, k, a)
  {
    hide Loads, SegmentAt;
    HeaderMeans(file, k);
  }
}
