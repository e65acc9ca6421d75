/** kernel/elf_loader.c on the paging model: segments are loaded page by page into the active address
    space, and each page may cost a second frame for its table. */
module ElfSpec {
  import opened Wrappers
  import opened SfsCodec
  import opened PagingSpec
  import opened PagingClone
  import opened PagingVia
  import opened ElfPages
  import SfsWrite
  import SfsRuns

  const PT_LOAD: u32 := 1
  const PHDR_BYTES: nat := 32
  const STACK_PAGES: nat := 4
  const STACK_TOP: nat := 0xE000_0000

  /** The kernel panics without a free frame or at a page fault; a file that cannot be read stops the
      loader half-way; a program that reaches the self-map rewrites its own page tables. */
  datatype Outcome = Done(pool: Pool) | Failed(pool: Pool) | Panicked | Astray

  datatype Segment = Segment(vaddr: u32, offset: u32, filesz: u32, memsz: u32)

  /** The byte loops that write to the page at `va`; bytes for a frame outside memory go to a device. */
  function Store(p: Pool, pd: FrameNo, va: nat, data: Bytes): Option<Pool>
    requires va / PAGE_SIZE < LIMIT && va % PAGE_SIZE + |data| <= PAGE_SIZE
  {
    var vp := va / PAGE_SIZE;
    match Reached(p.mem, pd, vp / ENTRIES, vp % ENTRIES)
    case Some(f) => Some(WithWords(p, f, WithBytes(p.mem[f], va % PAGE_SIZE, data)))
    case None => if MappedAt(p.mem, pd, vp) then Some(p) else None
  }

  function Zeros(n: nat): (s: Bytes)
    ensures |s| == n
  {
    seq(n, _ => 0)
  }

  /** page_buf after `n` bytes were read from the file at `off`: zeros where the file is too short. */
  function ReadPadded(file: Bytes, off: nat, n: nat): (s: Bytes)
    ensures |s| == n
    ensures forall k | 0 <= k < n :: s[k] == if off + k < |file| then file[off + k] else 0
  {
    var data := SfsRuns.Slice(file, off, n);
    data + Zeros(n - |data|)
  }

  /** The first loop of load_segment; no file means that sfs_read_inode fails. */
  function FileLoop(p: Pool, pd: FrameNo, file: Option<Bytes>, va: nat, off: nat, remain: nat): Outcome
    decreases remain
  {
    if remain == 0 then Done(p)
    else if va / PAGE_SIZE >= LIMIT then Astray
    else
      match AllocAt(p, pd, va / PAGE_SIZE)
      case None => Panicked
      case Some(p1) =>
        if file.None? then Failed(p1)
        else
          var n := SfsWrite.ChunkLen(va, remain);
          match Store(p1, pd, va, ReadPadded(file.value, off, n))
          case None => Panicked
          case Some(p2) => FileLoop(p2, pd, file, va + n, off + n, remain - n)
  }

  /** Whether the second loop finds a page mapped: the directory is read at its own address, the table
      through the self-map. */
  function Probe(m: Memory, pd: FrameNo, vp: nat): Option<bool>
    requires vp < LIMIT
  {
    match At(m, pd, pd)
    case None => None
    case Some(d) =>
      if !Present(m[d][vp / ENTRIES]) then Some(false)
      else
        match Reached(m, pd, SELF_MAP, vp / ENTRIES)
        case None => None
        case Some(t) => Some(Present(m[t][vp % ENTRIES]))
  }

  /** The page of the second loop: the one that is there, or a new one. */
  function Ensured(p: Pool, pd: FrameNo, vp: nat): Option<Pool>
    requires vp < LIMIT
  {
    match Probe(p.mem, pd, vp)
    case None => None
    case Some(there) => if there then Some(p) else AllocAt(p, pd, vp)
  }

  /** The second loop of load_segment. */
  function BssLoop(p: Pool, pd: FrameNo, va: nat, remain: nat): Outcome
    decreases remain
  {
    if remain == 0 then Done(p)
    else if va / PAGE_SIZE >= LIMIT then Astray
    else
      match Ensured(p, pd, va / PAGE_SIZE)
      case None => Panicked
      case Some(p1) =>
        var n := SfsWrite.ChunkLen(va, remain);
        match Store(p1, pd, va, Zeros(n))
        case None => Panicked
        case Some(p2) => BssLoop(p2, pd, va + n, remain - n)
  }

  /** load_segment. */
  function LoadSegment(p: Pool, pd: FrameNo, file: Option<Bytes>, g: Segment): Outcome {
    match FileLoop(p, pd, file, g.vaddr, g.offset, g.filesz)
    case Done(p1) => BssLoop(p1, pd, g.vaddr + g.filesz, (g.memsz + 0x1_0000_0000 - g.filesz) % 0x1_0000_0000)
    case Failed(p1) => Failed(p1)
    case Panicked => Panicked
    case Astray => Astray
  }

  // ---------------------------------------------------------------- what a loop covers

  /** Page `vp` holds a byte of [va, va + n). */
  predicate InSpan(va: nat, n: nat, vp: nat) { n > 0 && va / PAGE_SIZE <= vp <= (va + n - 1) / PAGE_SIZE }

  function Span(va: nat, n: nat): set<nat> { set vp: nat | vp <= (va + n) / PAGE_SIZE && InSpan(va, n, vp) }

  lemma SpanHolds(va: nat, n: nat, a: nat)
    requires va <= a < va + n
    ensures a / PAGE_SIZE in Span(va, n)
  {
  }

  /** After a chunk either nothing remains or the next address starts a new page. */
  lemma NextChunk(va: nat, remain: nat)
    requires remain > 0
    ensures var n := SfsWrite.ChunkLen(va, remain);
      && va / PAGE_SIZE in Span(va, remain) && Span(va + n, remain - n) == Span(va, remain) - {va / PAGE_SIZE}
      && (forall a | va <= a < va + n :: a / PAGE_SIZE == va / PAGE_SIZE)
      && (forall a | va + n <= a < va + remain :: a / PAGE_SIZE in Span(va + n, remain - n))
  {
    var n := SfsWrite.ChunkLen(va, remain);
    if remain > n {
      assert va + n == PAGE_SIZE * (va / PAGE_SIZE + 1);
    } else {
      assert (va + n - 1) / PAGE_SIZE == va / PAGE_SIZE;
    }
    forall a | va + n <= a < va + remain ensures a / PAGE_SIZE in Span(va + n, remain - n) { SpanHolds(va + n, remain - n, a); }
  }

  /** The pages of `vps` lie below the self-map, and the directory's own address is not among them. */
  ghost predicate Clear(pd: FrameNo, vps: set<nat>) { InUserRange(vps) && pd !in vps }

  // ---------------------------------------------------------------- one chunk

  lemma StoreIs(p: Pool, pd: FrameNo, va: nat, data: Bytes)
    requires Rooted(p, pd) && va % PAGE_SIZE + |data| <= PAGE_SIZE && UserAt(p.mem, pd, va / PAGE_SIZE).Some?
    ensures va / PAGE_SIZE < LIMIT
    ensures var f := UserAt(p.mem, pd, va / PAGE_SIZE).value;
      Store(p, pd, va, data) == Some(WithWords(p, f, WithBytes(p.mem[f], va % PAGE_SIZE, data)))
  {
    hide WithBytes, Separate;
  }

  /** What user code sees after a chunk was stored. */
  lemma StoreSees(p: Pool, pd: FrameNo, va: nat, data: Bytes, a: nat)
    requires Rooted(p, pd) && va % PAGE_SIZE + |data| <= PAGE_SIZE && UserAt(p.mem, pd, va / PAGE_SIZE).Some?
    ensures va / PAGE_SIZE < LIMIT && Store(p, pd, va, data).Some?
    ensures var p' := Store(p, pd, va, data).value;
      && Rooted(p', pd) && p'.free == p.free
      && (forall k | 0 <= k < SELF_MAP :: Present(p'.mem[pd][k]) <==> Present(p.mem[pd][k]))
      && (forall vq: nat :: (MappedAt(p'.mem, pd, vq) <==> MappedAt(p.mem, pd, vq)) && UserAt(p'.mem, pd, vq) == UserAt(p.mem, pd, vq))
      && (forall f | f in p.free :: p'.mem[f] == p.mem[f])
      && ByteAt(p'.mem, pd, a) == if va <= a < va + |data| then Some(data[a - va]) else ByteAt(p.mem, pd, a)
  {
    hide WithBytes, Separate, Rooted, UserAt, MappedAt, FrameBytes, Store, Splice;
    StoreIs(p, pd, va, data);
    var vp := va / PAGE_SIZE;
    var f := UserAt(p.mem, pd, vp).value;
    WriteUserFrame(p, pd, vp, WithBytes(p.mem[f], va % PAGE_SIZE, data));
    UserFrameIsOwn(p, pd, vp, a / PAGE_SIZE);
    BytesAre(p.mem[f], va % PAGE_SIZE, data);
    SamePlace(va, |data|, a);
  }

  lemma SamePlace(va: nat, n: nat, a: nat)
    requires va % PAGE_SIZE + n <= PAGE_SIZE
    ensures va <= a < va + n <==> a / PAGE_SIZE == va / PAGE_SIZE && va % PAGE_SIZE <= a % PAGE_SIZE < va % PAGE_SIZE + n
    ensures a / PAGE_SIZE == va / PAGE_SIZE ==> a - va == a % PAGE_SIZE - va % PAGE_SIZE
  {
  }

  /** What user code sees after a page was allocated: in the page itself, what its frame held. */
  lemma AllocSees(p: Pool, pd: FrameNo, vp: nat, a: nat)
    requires Rooted(p, pd) && vp < LIMIT && vp != pd && AllocAt(p, pd, vp).Some?
    ensures p.free != []
    ensures var m' := AllocAt(p, pd, vp).value.mem;
      ByteAt(m', pd, a) == if a / PAGE_SIZE == vp then Some(FrameBytes(p.mem[Top(p)])[a % PAGE_SIZE]) else ByteAt(p.mem, pd, a)
  {
    hide AllocAt, Rooted, FrameBytes, UserAt, MappedAt;
    AllocStep(p, pd, vp);
    if a / PAGE_SIZE != vp { AllocOther(p, pd, vp, a / PAGE_SIZE); }
  }

  /** One round of the first loop. */
  lemma FileRound(p: Pool, pd: FrameNo, va: nat, data: Bytes, a: nat, vq: nat)
    requires Rooted(p, pd) && va / PAGE_SIZE < LIMIT && va / PAGE_SIZE != pd && va % PAGE_SIZE + |data| <= PAGE_SIZE
    requires AllocAt(p, pd, va / PAGE_SIZE).Some?
    ensures p.free != []
    ensures var vp, p1 := va / PAGE_SIZE, AllocAt(p, pd, va / PAGE_SIZE).value;
      && Store(p1, pd, va, data).Some?
      && var p2 := Store(p1, pd, va, data).value;
      && Rooted(p2, pd) && p2.free == p1.free && |p2.free| == |p.free| - PageCost(p.mem, pd, vp)
      && TablesFor(p.mem, p2.mem, pd, {vp}) && (forall vps :: Cost(p2.mem, pd, vps) == Cost(p1.mem, pd, vps))
      && (forall f | f in p2.free :: f in p.free && p2.mem[f] == p.mem[f])
      && (MappedAt(p2.mem, pd, vq) <==> vq == vp || MappedAt(p.mem, pd, vq)) && UserAt(p2.mem, pd, vp).Some?
      && (vq != vp ==> UserAt(p2.mem, pd, vq) == UserAt(p.mem, pd, vq))
      && ByteAt(p2.mem, pd, a) ==
           if va <= a < va + |data| then Some(data[a - va])
           else if a / PAGE_SIZE == vp then Some(FrameBytes(p.mem[Top(p)])[a % PAGE_SIZE])
           else ByteAt(p.mem, pd, a)
  {
    hide AllocPageVia, Rooted, FrameBytes, UserAt, MappedAt, Store, ByteAt, Cost;
    var vp, p1 := va / PAGE_SIZE, AllocAt(p, pd, va / PAGE_SIZE).value;
    AllocStep(p, pd, vp);
    StoreSees(p1, pd, va, data, a);
    var p2 := Store(p1, pd, va, data).value;
    AllocSees(p, pd, vp, a);
    SamePlace(va, |data|, a);
    if vq != vp { AllocOther(p, pd, vp, vq); }
    forall f | f in p2.free ensures f in p.free && p2.mem[f] == p.mem[f] { AllocKeepsFree(p, pd, vp, f); }
    assert vp in {vp};
    forall vps ensures Cost(p2.mem, pd, vps) == Cost(p1.mem, pd, vps) { SameTablesSameCost(p1.mem, p2.mem, pd, vps); }
  }

  lemma SameTablesSameCost(m: Memory, m': Memory, pd: FrameNo, vps: set<nat>)
    requires forall k | 0 <= k < SELF_MAP :: Present(m'[pd][k]) <==> Present(m[pd][k])
    ensures Cost(m', pd, vps) == Cost(m, pd, vps)
  {
    assert forall vp: nat :: TableAt(m', pd, vp) <==> TableAt(m, pd, vp);
    assert NewTables(m', pd, vps) == NewTables(m, pd, vps);
  }

  // ---------------------------------------------------------------- the first loop

  lemma NothingCosts(m: Memory, pd: FrameNo)
    ensures Cost(m, pd, {}) == 0 && TablesFor(m, m, pd, {})
  {
    assert NewTables(m, pd, {}) == {};
  }

  /** It succeeds exactly if there are frames for its pages and for the tables they lack, and takes just
      these. */
  lemma {:induction false} FileLoopFrames(p: Pool, pd: FrameNo, file: Bytes, va: nat, off: nat, remain: nat)
    requires Rooted(p, pd) && Clear(pd, Span(va, remain))
    ensures var r, n := FileLoop(p, pd, Some(file), va, off, remain), Cost(p.mem, pd, Span(va, remain));
      && (r.Done? <==> n <= |p.free|) && !r.Failed? && !r.Astray?
      && (r.Done? ==> Rooted(r.pool, pd) && |r.pool.free| == |p.free| - n && TablesFor(p.mem, r.pool.mem, pd, Span(va, remain)))
    decreases remain
  {
    hide Span, ReadPadded, Rooted, AllocPageVia, Store, Cost, MappedAt, UserAt, ByteAt, TablesFor, PageCost;
    if remain == 0 {
      EmptySpan(va);
      NothingCosts(p.mem, pd);
    } else {
      NextChunk(va, remain);
      var vp, n := va / PAGE_SIZE, SfsWrite.ChunkLen(va, remain);
      CostStep(p, pd, vp, Span(va, remain));
      AllocStep(p, pd, vp);
      if AllocAt(p, pd, vp).Some? {
        var data := ReadPadded(file, off, n);
        FileRound(p, pd, va, data, 0, 0);
        var p2 := Store(AllocAt(p, pd, vp).value, pd, va, data).value;
        FileLoopFrames(p2, pd, file, va + n, off + n, remain - n);
        if FileLoop(p2, pd, Some(file), va + n, off + n, remain - n).Done? {
          TablesGrow(p.mem, p2.mem, FileLoop(p2, pd, Some(file), va + n, off + n, remain - n).pool.mem, pd, {vp}, Span(va + n, remain - n));
          assert {vp} + Span(va + n, remain - n) == Span(va, remain);
        }
      }
    }
  }

  lemma EmptySpan(va: nat)
    ensures Span(va, 0) == {}
  {
  }

  /** It maps the pages of its range for user code and moves no other page. */
  lemma {:induction false} FileLoopPages(p: Pool, pd: FrameNo, file: Bytes, va: nat, off: nat, remain: nat, vq: nat)
    requires Rooted(p, pd) && Clear(pd, Span(va, remain)) && FileLoop(p, pd, Some(file), va, off, remain).Done?
    ensures var m' := FileLoop(p, pd, Some(file), va, off, remain).pool.mem;
      && (MappedAt(m', pd, vq) <==> MappedAt(p.mem, pd, vq) || vq in Span(va, remain))
      && (if vq in Span(va, remain) then UserAt(m', pd, vq).Some? else UserAt(m', pd, vq) == UserAt(p.mem, pd, vq))
    decreases remain
  {
    hide Span, ReadPadded, Rooted, AllocPageVia, Store, Cost, MappedAt, UserAt, ByteAt, TablesFor, PageCost;
    if remain == 0 {
      EmptySpan(va);
    } else {
      NextChunk(va, remain);
      var vp, n := va / PAGE_SIZE, SfsWrite.ChunkLen(va, remain);
      var data := ReadPadded(file, off, n);
      FileRound(p, pd, va, data, 0, vq);
      FileLoopPages(Store(AllocAt(p, pd, vp).value, pd, va, data).value, pd, file, va + n, off + n, remain - n, vq);
    }
  }

  /** The bytes of the range are the file's, zero where the file has ended; user bytes on other pages stay. */
  lemma {:induction false} FileLoopBytes(p: Pool, pd: FrameNo, file: Bytes, va: nat, off: nat, remain: nat, a: nat)
    requires Rooted(p, pd) && Clear(pd, Span(va, remain)) && FileLoop(p, pd, Some(file), va, off, remain).Done?
    requires va <= a < va + remain || a / PAGE_SIZE !in Span(va, remain)
    ensures var m' := FileLoop(p, pd, Some(file), va, off, remain).pool.mem;
      ByteAt(m', pd, a) ==
        if va <= a < va + remain then Some(if off + (a - va) < |file| then file[off + (a - va)] else 0) else ByteAt(p.mem, pd, a)
    decreases remain
  {
    hide Span, ReadPadded, Rooted, AllocPageVia, Store, Cost, MappedAt, UserAt, ByteAt, TablesFor, PageCost;
    if remain > 0 {
      NextChunk(va, remain);
      var vp, n := va / PAGE_SIZE, SfsWrite.ChunkLen(va, remain);
      var data := ReadPadded(file, off, n);
      FileRound(p, pd, va, data, a, 0);
      FileLoopBytes(Store(AllocAt(p, pd, vp).value, pd, va, data).value, pd, file, va + n, off + n, remain - n, a);
    }
  }

  /** All free frames hold `w`. */
  ghost predicate Filled(p: Pool, w: Words) { forall f | f in p.free :: p.mem[f] == w }

  /** On the pages of its range, around the range, stands what the free frames held. */
  lemma {:induction false} FileLoopStale(p: Pool, pd: FrameNo, file: Bytes, va: nat, off: nat, remain: nat, a: nat, w: Words)
    requires Rooted(p, pd) && Clear(pd, Span(va, remain)) && FileLoop(p, pd, Some(file), va, off, remain).Done? && Filled(p, w)
    requires !(va <= a < va + remain) && a / PAGE_SIZE in Span(va, remain)
    ensures ByteAt(FileLoop(p, pd, Some(file), va, off, remain).pool.mem, pd, a) == Some(FrameBytes(w)[a % PAGE_SIZE])
    decreases remain
  {
    hide Span, ReadPadded, Rooted, AllocPageVia, Store, Cost, MappedAt, UserAt, ByteAt, TablesFor, PageCost, FrameBytes;
    if remain == 0 {
      EmptySpan(va);
      assert false;
    } else {
      NextChunk(va, remain);
      var vp, n := va / PAGE_SIZE, SfsWrite.ChunkLen(va, remain);
      var data := ReadPadded(file, off, n);
      FileRound(p, pd, va, data, a, 0);
      var p2 := Store(AllocAt(p, pd, vp).value, pd, va, data).value;
      if a / PAGE_SIZE == vp {
        assert Top(p) in p.free;
        FileLoopBytes(p2, pd, file, va + n, off + n, remain - n, a);
      } else {
        FileLoopStale(p2, pd, file, va + n, off + n, remain - n, a, w);
      }
    }
  }

  // ---------------------------------------------------------------- the second loop

  lemma ProbeIs(p: Pool, pd: FrameNo, vp: nat)
    requires Rooted(p, pd) && vp < LIMIT
    ensures Probe(p.mem, pd, vp) == Some(MappedAt(p.mem, pd, vp))
  {
    hide Separate;
    RootedFacts(p, pd);
    if Present(p.mem[pd][vp / ENTRIES]) { SelfMapReaches(p.mem, pd, vp / ENTRIES); }
  }

  /** The pages of the range that are not there yet. */
  function Missing(m: Memory, pd: FrameNo, va: nat, n: nat): set<nat> {
    set vp | vp in Span(va, n) && !MappedAt(m, pd, vp)
  }

  /** The pages of `vps` that are there belong to user code and lie in memory. */
  ghost predicate Ours(m: Memory, pd: FrameNo, vps: set<nat>) {
    forall vp | vp in vps && MappedAt(m, pd, vp) :: UserAt(m, pd, vp).Some?
  }

  /** One round of the second loop. */
  lemma BssRound(p: Pool, pd: FrameNo, va: nat, n: nat, a: nat, vq: nat)
    requires Rooted(p, pd) && va / PAGE_SIZE < LIMIT && va / PAGE_SIZE != pd && va % PAGE_SIZE + n <= PAGE_SIZE
    requires Ours(p.mem, pd, {va / PAGE_SIZE})
    ensures var vp := va / PAGE_SIZE;
      && (Ensured(p, pd, vp).Some? <==> MappedAt(p.mem, pd, vp) || PageCost(p.mem, pd, vp) <= |p.free|)
      && (Ensured(p, pd, vp).Some? ==>
           && Store(Ensured(p, pd, vp).value, pd, va, Zeros(n)).Some?
           && var p2 := Store(Ensured(p, pd, vp).value, pd, va, Zeros(n)).value;
           && Rooted(p2, pd) && |p2.free| == |p.free| - (if MappedAt(p.mem, pd, vp) then 0 else PageCost(p.mem, pd, vp))
           && TablesFor(p.mem, p2.mem, pd, if MappedAt(p.mem, pd, vp) then {} else {vp})
           && (MappedAt(p2.mem, pd, vq) <==> vq == vp || MappedAt(p.mem, pd, vq))
           && (vq != vp ==> UserAt(p2.mem, pd, vq) == UserAt(p.mem, pd, vq)) && UserAt(p2.mem, pd, vp).Some?
           && (va <= a < va + n || a / PAGE_SIZE != vp || MappedAt(p.mem, pd, vp) ==>
                ByteAt(p2.mem, pd, a) == if va <= a < va + n then Some(0) else ByteAt(p.mem, pd, a)))
  {
    hide AllocPageVia, Rooted, FrameBytes, UserAt, MappedAt, Store, ByteAt, Cost, Probe, PageCost;
    var vp := va / PAGE_SIZE;
    ProbeIs(p, pd, vp);
    assert vp in {vp};
    if MappedAt(p.mem, pd, vp) {
      StoreSees(p, pd, va, Zeros(n), a);
    } else {
      AllocStep(p, pd, vp);
      if AllocAt(p, pd, vp).Some? { FileRound(p, pd, va, Zeros(n), a, vq); }
    }
  }

  /** The second loop takes frames for the pages that are missing and for the tables these lack. */
  lemma {:induction false} BssLoopFrames(p: Pool, pd: FrameNo, va: nat, remain: nat)
    requires Rooted(p, pd) && Clear(pd, Span(va, remain)) && Ours(p.mem, pd, Span(va, remain))
    ensures var r, vps := BssLoop(p, pd, va, remain), Missing(p.mem, pd, va, remain);
      && (r.Done? <==> Cost(p.mem, pd, vps) <= |p.free|) && !r.Failed? && !r.Astray?
      && (r.Done? ==> Rooted(r.pool, pd) && |r.pool.free| == |p.free| - Cost(p.mem, pd, vps) && TablesFor(p.mem, r.pool.mem, pd, vps))
    decreases remain
  {
    hide Span, Rooted, Ensured, Store, Cost, MappedAt, UserAt, ByteAt, TablesFor, PageCost;
    if remain == 0 {
      EmptySpan(va);
      NothingCosts(p.mem, pd);
      assert Missing(p.mem, pd, va, 0) == {};
    } else {
      NextChunk(va, remain);
      var vp, n := va / PAGE_SIZE, SfsWrite.ChunkLen(va, remain);
      var vps := Missing(p.mem, pd, va, remain);
      BssRound(p, pd, va, n, 0, 0);
      if vp in vps { CheapestPage(p.mem, pd, vp, vps); }
      if Ensured(p, pd, vp).Some? {
        var p2 := Store(Ensured(p, pd, vp).value, pd, va, Zeros(n)).value;
        forall vq: nat
          ensures MappedAt(p2.mem, pd, vq) <==> vq == vp || MappedAt(p.mem, pd, vq)
          ensures vq != vp ==> UserAt(p2.mem, pd, vq) == UserAt(p.mem, pd, vq)
        {
          BssRound(p, pd, va, n, 0, vq);
        }
        var rest := Missing(p2.mem, pd, va + n, remain - n);
        assert rest == vps - {vp};
        BssLoopFrames(p2, pd, va + n, remain - n);
        BssCost(p.mem, p2.mem, pd, vp, vps);
        if BssLoop(p2, pd, va + n, remain - n).Done? {
          TablesGrow(p.mem, p2.mem, BssLoop(p2, pd, va + n, remain - n).pool.mem, pd, if MappedAt(p.mem, pd, vp) then {} else {vp}, rest);
          assert vps == (if MappedAt(p.mem, pd, vp) then {} else {vp}) + rest;
        }
      }
    }
  }

  lemma BssCost(m: Memory, m2: Memory, pd: FrameNo, vp: nat, vps: set<nat>)
    requires InUserRange(vps) && (vp in vps <==> !MappedAt(m, pd, vp))
    requires TablesFor(m, m2, pd, if MappedAt(m, pd, vp) then {} else {vp})
    ensures Cost(m, pd, vps) == (if MappedAt(m, pd, vp) then 0 else PageCost(m, pd, vp)) + Cost(m2, pd, vps - {vp})
  {
    hide Cost, MappedAt, TablesFor, PageCost;
    if vp in vps {
      CostSplits(m, m2, pd, {vp}, vps - {vp});
      assert {vp} + (vps - {vp}) == vps;
      OnePageCost(m, pd, vp);
    } else {
      CostSplits(m, m2, pd, {}, vps);
      assert {} + vps == vps && vps - {vp} == vps;
      NothingCosts(m, pd);
    }
  }

  lemma {:induction false} BssLoopPages(p: Pool, pd: FrameNo, va: nat, remain: nat, vq: nat)
    requires Rooted(p, pd) && Clear(pd, Span(va, remain)) && Ours(p.mem, pd, Span(va, remain)) && BssLoop(p, pd, va, remain).Done?
    ensures var m' := BssLoop(p, pd, va, remain).pool.mem;
      && (MappedAt(m', pd, vq) <==> MappedAt(p.mem, pd, vq) || vq in Span(va, remain))
      && (if vq in Span(va, remain) then UserAt(m', pd, vq).Some? else UserAt(m', pd, vq) == UserAt(p.mem, pd, vq))
    decreases remain
  {
    hide Span, Rooted, Ensured, Store, Cost, MappedAt, UserAt, ByteAt, TablesFor, PageCost;
    if remain == 0 {
      EmptySpan(va);
    } else {
      NextChunk(va, remain);
      var vp, n := va / PAGE_SIZE, SfsWrite.ChunkLen(va, remain);
      BssRound(p, pd, va, n, 0, vq);
      var p2 := Store(Ensured(p, pd, vp).value, pd, va, Zeros(n)).value;
      StillOurs(p, pd, va, n, Span(va + n, remain - n));
      BssLoopPages(p2, pd, va + n, remain - n, vq);
    }
  }

  lemma StillOurs(p: Pool, pd: FrameNo, va: nat, n: nat, vps: set<nat>)
    requires Rooted(p, pd) && va / PAGE_SIZE < LIMIT && va / PAGE_SIZE != pd && va % PAGE_SIZE + n <= PAGE_SIZE
    requires Ours(p.mem, pd, {va / PAGE_SIZE}) && Ours(p.mem, pd, vps) && Ensured(p, pd, va / PAGE_SIZE).Some?
    requires Store(Ensured(p, pd, va / PAGE_SIZE).value, pd, va, Zeros(n)).Some?
    ensures Ours(Store(Ensured(p, pd, va / PAGE_SIZE).value, pd, va, Zeros(n)).value.mem, pd, vps)
  {
    hide Rooted, Ensured, Store, MappedAt, UserAt, ByteAt, TablesFor, PageCost;
    var p2 := Store(Ensured(p, pd, va / PAGE_SIZE).value, pd, va, Zeros(n)).value;
    forall vq | vq in vps && MappedAt(p2.mem, pd, vq) ensures UserAt(p2.mem, pd, vq).Some? { BssRound(p, pd, va, n, 0, vq); }
  }

  /** Its range becomes zero, and every user byte that was there before stays. */
  lemma {:induction false} BssLoopBytes(p: Pool, pd: FrameNo, va: nat, remain: nat, a: nat)
    requires Rooted(p, pd) && Clear(pd, Span(va, remain)) && Ours(p.mem, pd, Span(va, remain)) && BssLoop(p, pd, va, remain).Done?
    requires va <= a < va + remain || MappedAt(p.mem, pd, a / PAGE_SIZE) || a / PAGE_SIZE !in Span(va, remain)
    ensures ByteAt(BssLoop(p, pd, va, remain).pool.mem, pd, a) == if va <= a < va + remain then Some(0) else ByteAt(p.mem, pd, a)
    decreases remain
  {
    hide Span, Rooted, Ensured, Store, Cost, MappedAt, UserAt, ByteAt, TablesFor, PageCost;
    if remain > 0 {
      NextChunk(va, remain);
      var vp, n := va / PAGE_SIZE, SfsWrite.ChunkLen(va, remain);
      BssRound(p, pd, va, n, a, a / PAGE_SIZE);
      var p2 := Store(Ensured(p, pd, vp).value, pd, va, Zeros(n)).value;
      StillOurs(p, pd, va, n, Span(va + n, remain - n));
      BssLoopBytes(p2, pd, va + n, remain - n, a);
    }
  }

  // ---------------------------------------------------------------- load_segment

  /** What a loadable program header has to satisfy: no wrap-around, no part in the self-map, and a memory
      image at least as long as the file image. */
  predicate WellFormed(g: Segment) {
    g.filesz <= g.memsz && g.vaddr + g.memsz <= LIMIT * PAGE_SIZE && g.offset + g.filesz < 0x1_0000_0000
  }

  function ImageByte(file: Bytes, g: Segment, k: nat): Byte {
    if k < g.filesz && g.offset + k < |file| then file[g.offset + k] else 0
  }

  predicate InImage(g: Segment, a: nat) { g.vaddr <= a < g.vaddr + g.memsz }

  function Pages(g: Segment): set<nat> { Span(g.vaddr, g.memsz) }

  /** The pages that get a new frame whether they are mapped or not. */
  function FilePages(g: Segment): set<nat> { Span(g.vaddr, g.filesz) }

  /** All pages that get a new frame. */
  function NewPages(m: Memory, pd: FrameNo, g: Segment): set<nat>
    requires WellFormed(g)
  {
    FilePages(g) + Missing(m, pd, g.vaddr + g.filesz, g.memsz - g.filesz)
  }

  /** The header is well formed, the directory's own address is not in the way, and what is mapped behind
      the file part belongs to user code. */
  ghost predicate LoadReady(m: Memory, pd: FrameNo, g: Segment) {
    WellFormed(g) && Clear(pd, Pages(g)) && Ours(m, pd, Pages(g) - FilePages(g))
  }

  lemma PagesSplit(g: Segment)
    requires WellFormed(g)
    ensures Pages(g) == FilePages(g) + Span(g.vaddr + g.filesz, g.memsz - g.filesz)
  {
    var va, n := g.vaddr + g.filesz, g.memsz - g.filesz;
    forall vp: nat ensures InSpan(g.vaddr, g.memsz, vp) <==> InSpan(g.vaddr, g.filesz, vp) || InSpan(va, n, vp) {
      if g.filesz > 0 && n > 0 { assert va / PAGE_SIZE == (va - 1) / PAGE_SIZE || va / PAGE_SIZE == (va - 1) / PAGE_SIZE + 1; }
    }
    forall vp: nat ensures vp in Span(g.vaddr, g.memsz) <==> InSpan(g.vaddr, g.memsz, vp) { SpanIs(g.vaddr, g.memsz, vp); }
    forall vp: nat ensures vp in Span(g.vaddr, g.filesz) <==> InSpan(g.vaddr, g.filesz, vp) { SpanIs(g.vaddr, g.filesz, vp); }
    forall vp: nat ensures vp in Span(va, n) <==> InSpan(va, n, vp) { SpanIs(va, n, vp); }
  }

  lemma SpanIs(va: nat, n: nat, vp: nat)
    ensures vp in Span(va, n) <==> InSpan(va, n, vp)
  {
  }

  lemma SmallerCost(m: Memory, pd: FrameNo, a: set<nat>, b: set<nat>)
    requires a <= b
    ensures Cost(m, pd, a) <= Cost(m, pd, b)
  {
    var ta, tb := NewTables(m, pd, a), NewTables(m, pd, b);
    assert ta <= tb;
    assert b == a + (b - a) && tb == ta + (tb - ta);
  }

  /** The state between the two loops. */
  lemma BssStarts(p: Pool, pd: FrameNo, file: Bytes, g: Segment)
    requires Rooted(p, pd) && LoadReady(p.mem, pd, g)
    ensures Clear(pd, FilePages(g)) && Clear(pd, Span(g.vaddr + g.filesz, g.memsz - g.filesz))
    ensures var r := FileLoop(p, pd, Some(file), g.vaddr, g.offset, g.filesz);
      r.Done? ==>
        var va, n := g.vaddr + g.filesz, g.memsz - g.filesz;
        && Rooted(r.pool, pd) && Ours(r.pool.mem, pd, Span(va, n))
        && Missing(r.pool.mem, pd, va, n) == NewPages(p.mem, pd, g) - FilePages(g)
        && TablesFor(p.mem, r.pool.mem, pd, FilePages(g)) && |r.pool.free| == |p.free| - Cost(p.mem, pd, FilePages(g))
  {
    hide FileLoop, Rooted, Cost, MappedAt, UserAt, Span, TablesFor;
    PagesSplit(g);
    var r := FileLoop(p, pd, Some(file), g.vaddr, g.offset, g.filesz);
    FileLoopFrames(p, pd, file, g.vaddr, g.offset, g.filesz);
    if r.Done? {
      forall vq: nat
        ensures MappedAt(r.pool.mem, pd, vq) <==> MappedAt(p.mem, pd, vq) || vq in FilePages(g)
        ensures if vq in FilePages(g) then UserAt(r.pool.mem, pd, vq).Some? else UserAt(r.pool.mem, pd, vq) == UserAt(p.mem, pd, vq)
      {
        FileLoopPages(p, pd, file, g.vaddr, g.offset, g.filesz, vq);
      }
    }
  }

  /** load_segment realises its program header: it succeeds exactly if there are frames for the new pages
      and for the tables they lack, and takes just these; the segment's pages belong to user code and hold
      its image; no other page moves, and user bytes outside the image stay unless a page of the file
      part holds them. */
  lemma SegmentIsLoaded(p: Pool, pd: FrameNo, file: Bytes, g: Segment, vq: nat, a: nat)
    requires Rooted(p, pd) && LoadReady(p.mem, pd, g)
    ensures var r, n := LoadSegment(p, pd, Some(file), g), Cost(p.mem, pd, NewPages(p.mem, pd, g));
      && (r.Done? <==> n <= |p.free|) && !r.Failed? && !r.Astray?
      && (r.Done? ==>
           && Rooted(r.pool, pd) && |r.pool.free| == |p.free| - n && TablesFor(p.mem, r.pool.mem, pd, NewPages(p.mem, pd, g))
           && (MappedAt(r.pool.mem, pd, vq) <==> MappedAt(p.mem, pd, vq) || vq in Pages(g))
           && (if vq in Pages(g) then UserAt(r.pool.mem, pd, vq).Some? else UserAt(r.pool.mem, pd, vq) == UserAt(p.mem, pd, vq))
           && (InImage(g, a) ==> ByteAt(r.pool.mem, pd, a) == Some(ImageByte(file, g, a - g.vaddr)))
           && (!InImage(g, a) && a / PAGE_SIZE !in FilePages(g) && (ByteAt(p.mem, pd, a).Some? || a / PAGE_SIZE !in Pages(g)) ==>
                ByteAt(r.pool.mem, pd, a) == ByteAt(p.mem, pd, a)))
  {
    hide FileLoop, BssLoop, Rooted, Cost, MappedAt, UserAt, Span, TablesFor, ByteAt, Missing;
    var va, n := g.vaddr + g.filesz, g.memsz - g.filesz;
    assert (g.memsz + 0x1_0000_0000 - g.filesz) % 0x1_0000_0000 == n;
    PagesSplit(g);
    BssStarts(p, pd, file, g);
    FileLoopFrames(p, pd, file, g.vaddr, g.offset, g.filesz);
    var added, files := NewPages(p.mem, pd, g), FilePages(g);
    SmallerCost(p.mem, pd, files, added);
    var r1 := FileLoop(p, pd, Some(file), g.vaddr, g.offset, g.filesz);
    if r1.Done? {
      var p1 := r1.pool;
      BssLoopFrames(p1, pd, va, n);
      MissingInRange(p.mem, pd, g);
      CostSplits(p.mem, p1.mem, pd, files, added - files);
      assert files + (added - files) == added;
      var r := BssLoop(p1, pd, va, n);
      if r.Done? {
        TablesGrow(p.mem, p1.mem, r.pool.mem, pd, files, added - files);
        FileLoopPages(p, pd, file, g.vaddr, g.offset, g.filesz, vq);
        BssLoopPages(p1, pd, va, n, vq);
        SegmentByte(p, pd, file, g, a);
      }
    }
  }

  lemma MissingInRange(m: Memory, pd: FrameNo, g: Segment)
    requires WellFormed(g) && Clear(pd, Pages(g))
    ensures InUserRange(FilePages(g)) && InUserRange(NewPages(m, pd, g)) && NewPages(m, pd, g) <= Pages(g)
  {
    hide MappedAt, Span;
    PagesSplit(g);
  }

  lemma SegmentByte(p: Pool, pd: FrameNo, file: Bytes, g: Segment, a: nat)
    requires Rooted(p, pd) && LoadReady(p.mem, pd, g) && FileLoop(p, pd, Some(file), g.vaddr, g.offset, g.filesz).Done?
    requires var p1 := FileLoop(p, pd, Some(file), g.vaddr, g.offset, g.filesz).pool;
      BssLoop(p1, pd, g.vaddr + g.filesz, g.memsz - g.filesz).Done?
    ensures var p1 := FileLoop(p, pd, Some(file), g.vaddr, g.offset, g.filesz).pool;
      var m' := BssLoop(p1, pd, g.vaddr + g.filesz, g.memsz - g.filesz).pool.mem;
      && (InImage(g, a) ==> ByteAt(m', pd, a) == Some(ImageByte(file, g, a - g.vaddr)))
      && (!InImage(g, a) && a / PAGE_SIZE in FilePages(g) ==> ByteAt(m', pd, a) == ByteAt(p1.mem, pd, a))
      && (!InImage(g, a) && a / PAGE_SIZE !in FilePages(g) && (ByteAt(p.mem, pd, a).Some? || a / PAGE_SIZE !in Pages(g)) ==>
           ByteAt(m', pd, a) == ByteAt(p.mem, pd, a))
  {
    hide FileLoop, BssLoop, Rooted, Cost, MappedAt, UserAt, Span, TablesFor, ByteAt, Missing;
    var va, n := g.vaddr + g.filesz, g.memsz - g.filesz;
    PagesSplit(g);
    BssStarts(p, pd, file, g);
    var p1 := FileLoop(p, pd, Some(file), g.vaddr, g.offset, g.filesz).pool;
    FileLoopPages(p, pd, file, g.vaddr, g.offset, g.filesz, a / PAGE_SIZE);
    if g.vaddr <= a < va { SpanHolds(g.vaddr, g.filesz, a); }
    if g.vaddr <= a < va || a / PAGE_SIZE !in FilePages(g) { FileLoopBytes(p, pd, file, g.vaddr, g.offset, g.filesz, a); }
    ByteIsMapped(p.mem, pd, a);
    if va <= a < va + n || MappedAt(p1.mem, pd, a / PAGE_SIZE) || a / PAGE_SIZE !in Span(va, n) { BssLoopBytes(p1, pd, va, n, a); }
  }

  lemma ByteIsMapped(m: Memory, pd: FrameNo, a: nat)
    ensures ByteAt(m, pd, a).Some? ==> MappedAt(m, pd, a / PAGE_SIZE) && UserAt(m, pd, a / PAGE_SIZE).Some?
  {
  }

  // ---------------------------------------------------------------- which bytes a load loses

  /** The same address space with other contents in the free frames. */
  function Refilled(p: Pool, w: Words): (q: Pool)
    ensures q.free == p.free && forall f: FrameNo :: q.mem[f] == if f in p.free then w else p.mem[f]
  {
    Pool(seq(FRAMES, f requires 0 <= f < FRAMES => if f in p.free then w else p.mem[f]), p.free, p.dev)
  }

  lemma RefilledIsSame(p: Pool, pd: FrameNo, w: Words)
    requires Rooted(p, pd)
    ensures var q := Refilled(p, w);
      && Rooted(q, pd) && Filled(q, w) && (forall k | 0 <= k < SELF_MAP :: q.mem[pd][k] == p.mem[pd][k])
      && (forall vp: nat :: (MappedAt(q.mem, pd, vp) <==> MappedAt(p.mem, pd, vp)) && UserAt(q.mem, pd, vp) == UserAt(p.mem, pd, vp))
      && (forall a: nat :: ByteAt(q.mem, pd, a) == ByteAt(p.mem, pd, a))
  {
    hide Separate, Reached, FrameBytes;
    var q := Refilled(p, w);
    RootedFacts(p, pd);
    assert SameTables(p.mem, q.mem, pd) by { FreeIsNoTableAll(p, pd); }
    RootedStays(p, q, pd);
    forall vp: nat ensures (MappedAt(q.mem, pd, vp) <==> MappedAt(p.mem, pd, vp)) && UserAt(q.mem, pd, vp) == UserAt(p.mem, pd, vp) {
      SamePages(p.mem, q.mem, pd, vp);
    }
    forall a: nat ensures ByteAt(q.mem, pd, a) == ByteAt(p.mem, pd, a) {
      if UserAt(p.mem, pd, a / PAGE_SIZE).Some? { UserFrameIsOwn(p, pd, a / PAGE_SIZE, 0); }
    }
  }

  lemma FreeIsNoTableAll(p: Pool, pd: FrameNo)
    requires Rooted(p, pd)
    ensures pd !in p.free && forall k | 0 <= k < SELF_MAP && Present(p.mem[pd][k]) :: FrameOf(p.mem[pd][k]) !in p.free
  {
  }

  /** A load of `g` leaves every user byte outside the image alone, whatever the free frames hold. */
  ghost predicate KeepsOutside(p: Pool, pd: FrameNo, file: Bytes, g: Segment) {
    forall w: Words, a: nat | LoadSegment(Refilled(p, w), pd, Some(file), g).Done? && !InImage(g, a) && ByteAt(p.mem, pd, a).Some? ::
      ByteAt(LoadSegment(Refilled(p, w), pd, Some(file), g).pool.mem, pd, a) == ByteAt(p.mem, pd, a)
  }

  /** No user page under the file part reaches beyond the image. */
  ghost predicate NoOverhang(m: Memory, pd: FrameNo, g: Segment) {
    forall vp | vp in FilePages(g) && UserAt(m, pd, vp).Some? ::
      g.vaddr <= PAGE_SIZE * vp && PAGE_SIZE * (vp + 1) <= g.vaddr + g.memsz
  }

  lemma {:induction false} WordBytes(ws: seq<u32>, k: nat)
    requires k < 4 * |ws|
    ensures LeWords(ws)[k] == Le32(ws[k / 4])[k % 4]
  {
    hide Le32;
    if k >= 4 { WordBytes(ws[1..], k - 4); }
  }

  /** A frame that differs from byte `b` everywhere. */
  lemma OtherBytes(b: Byte) returns (w: Words)
    ensures forall k: nat | k < PAGE_SIZE :: FrameBytes(w)[k] != b
  {
    var c: u32 := if b == 0 then 0x0101_0101 else 0;
    w := seq(ENTRIES, _ => c);
    forall k: nat | k < PAGE_SIZE ensures FrameBytes(w)[k] != b {
      WordBytes(w, k);
      assert Le32(c) == if b == 0 then [1, 1, 1, 1] else [0, 0, 0, 0];
    }
  }

  /** A user byte outside the image on a page of the file part does not survive in general. */
  lemma OverhangIsLost(p: Pool, pd: FrameNo, file: Bytes, g: Segment, a: nat) returns (w: Words)
    requires Rooted(p, pd) && LoadReady(p.mem, pd, g) && Cost(p.mem, pd, NewPages(p.mem, pd, g)) <= |p.free|
    requires !InImage(g, a) && a / PAGE_SIZE in FilePages(g) && ByteAt(p.mem, pd, a).Some?
    ensures LoadSegment(Refilled(p, w), pd, Some(file), g).Done?
    ensures ByteAt(LoadSegment(Refilled(p, w), pd, Some(file), g).pool.mem, pd, a) != ByteAt(p.mem, pd, a)
  {
    hide FileLoop, BssLoop, Rooted, Cost, MappedAt, UserAt, Span, TablesFor, ByteAt, FrameBytes, Refilled, Filled;
    w := OtherBytes(ByteAt(p.mem, pd, a).value);
    var q := Refilled(p, w);
    RefilledIsSame(p, pd, w);
    StillReady(p, q, pd, g);
    SegmentIsLoaded(q, pd, file, g, 0, a);
    assert (g.memsz + 0x1_0000_0000 - g.filesz) % 0x1_0000_0000 == g.memsz - g.filesz;
    BssStarts(q, pd, file, g);
    FileLoopStale(q, pd, file, g.vaddr, g.offset, g.filesz, a, w);
    SegmentByte(q, pd, file, g, a);
  }

  lemma StillReady(p: Pool, q: Pool, pd: FrameNo, g: Segment)
    requires LoadReady(p.mem, pd, g) && forall k | 0 <= k < SELF_MAP :: q.mem[pd][k] == p.mem[pd][k]
    requires forall vp: nat :: (MappedAt(q.mem, pd, vp) <==> MappedAt(p.mem, pd, vp)) && UserAt(q.mem, pd, vp) == UserAt(p.mem, pd, vp)
    ensures LoadReady(q.mem, pd, g) && NewPages(q.mem, pd, g) == NewPages(p.mem, pd, g)
    ensures forall vps :: Cost(q.mem, pd, vps) == Cost(p.mem, pd, vps)
  {
    hide MappedAt, UserAt, Span, Cost;
    forall vps ensures Cost(q.mem, pd, vps) == Cost(p.mem, pd, vps) { SameTablesSameCost(p.mem, q.mem, pd, vps); }
  }

  /** A load keeps every user byte outside its image, whatever the free frames hold, if and only if no
      user page under its file part reaches beyond the image. */
  lemma KeepsOutsideIff(p: Pool, pd: FrameNo, file: Bytes, g: Segment)
    requires Rooted(p, pd) && LoadReady(p.mem, pd, g) && Cost(p.mem, pd, NewPages(p.mem, pd, g)) <= |p.free|
    ensures KeepsOutside(p, pd, file, g) <==> NoOverhang(p.mem, pd, g)
  {
    hide LoadSegment, Rooted, LoadReady, Cost, MappedAt, UserAt, Span, TablesFor, ByteAt, Refilled, NewPages;
    if NoOverhang(p.mem, pd, g) {
      forall w: Words, a: nat | LoadSegment(Refilled(p, w), pd, Some(file), g).Done? && !InImage(g, a) && ByteAt(p.mem, pd, a).Some?
        ensures ByteAt(LoadSegment(Refilled(p, w), pd, Some(file), g).pool.mem, pd, a) == ByteAt(p.mem, pd, a)
      {
        RefilledIsSame(p, pd, w);
        StillReady(p, Refilled(p, w), pd, g);
        ByteIsMapped(p.mem, pd, a);
        SegmentIsLoaded(Refilled(p, w), pd, file, g, 0, a);
      }
    } else {
      var vp :| vp in FilePages(g) && UserAt(p.mem, pd, vp).Some? &&
        !(g.vaddr <= PAGE_SIZE * vp && PAGE_SIZE * (vp + 1) <= g.vaddr + g.memsz);
      var a := if g.vaddr <= PAGE_SIZE * vp then PAGE_SIZE * vp + (PAGE_SIZE - 1) else PAGE_SIZE * vp;
      assert a / PAGE_SIZE == vp;
      UserHasBytes(p.mem, pd, a);
      var w := OverhangIsLost(p, pd, file, g, a);
    }
  }

  lemma UserHasBytes(m: Memory, pd: FrameNo, a: nat)
    requires UserAt(m, pd, a / PAGE_SIZE).Some?
    ensures ByteAt(m, pd, a).Some?
  {
  }

  /** Two segments on one page: if a page of the second one's file part holds a byte of the first, that
      byte does not survive in general. */
  lemma SharedPageIsLost(p: Pool, pd: FrameNo, file: Bytes, g: Segment, h: Segment, a: nat) returns (w: Words)
    requires Rooted(p, pd) && LoadReady(p.mem, pd, g) && LoadSegment(p, pd, Some(file), g).Done?
    requires InImage(g, a) && !InImage(h, a) && a / PAGE_SIZE in FilePages(h)
    requires var p1 := LoadSegment(p, pd, Some(file), g).pool;
      LoadReady(p1.mem, pd, h) && Cost(p1.mem, pd, NewPages(p1.mem, pd, h)) <= |p1.free|
    ensures var p1 := LoadSegment(p, pd, Some(file), g).pool;
      && ByteAt(p1.mem, pd, a) == Some(ImageByte(file, g, a - g.vaddr))
      && LoadSegment(Refilled(p1, w), pd, Some(file), h).Done?
      && ByteAt(LoadSegment(Refilled(p1, w), pd, Some(file), h).pool.mem, pd, a) != Some(ImageByte(file, g, a - g.vaddr))
  {
    hide LoadSegment, Rooted, LoadReady, Cost, MappedAt, UserAt, Span, TablesFor, ByteAt, Refilled, NewPages;
    SegmentIsLoaded(p, pd, file, g, 0, a);
    w := OverhangIsLost(LoadSegment(p, pd, Some(file), g).pool, pd, file, h, a);
  }

  // ---------------------------------------------------------------- the whole program

  /** Program header `i`, as words; None if the file ends before it does. */
  function Header(file: Bytes, phoff: u32, i: nat): Option<seq<u32>> {
    var h := SfsRuns.Slice(file, (phoff + PHDR_BYTES * i) % 0x1_0000_0000, PHDR_BYTES);
    if |h| < PHDR_BYTES then None else Some(UnWords(h, 8))
  }

  predicate IsLoad(ws: seq<u32>) { |ws| == 8 && ws[0] == PT_LOAD }

  function SegmentOf(ws: seq<u32>): Segment
    requires |ws| == 8
  {
    Segment(ws[2], ws[1], ws[4], ws[5])
  }

  /** The loop of elf_load_and_exec over the program headers from `i` on. */
  function LoadAll(p: Pool, pd: FrameNo, file: Bytes, phoff: u32, phnum: nat, i: nat := 0): Outcome
    requires i <= phnum
    decreases phnum - i
  {
    if i == phnum then Done(p)
    else
      match Header(file, phoff, i)
      case None => Failed(p)
      case Some(ws) =>
        if !IsLoad(ws) then LoadAll(p, pd, file, phoff, phnum, i + 1)
        else
          match LoadSegment(p, pd, Some(file), SegmentOf(ws))
          case Done(p1) => LoadAll(p1, pd, file, phoff, phnum, i + 1)
          case Failed(p1) => Failed(p1)
          case Panicked => Panicked
          case Astray => Astray
  }

  /** Header `k` exists and asks for a segment to be loaded. */
  predicate Loads(file: Bytes, phoff: u32, k: nat) { Header(file, phoff, k).Some? && IsLoad(Header(file, phoff, k).value) }

  function SegmentAt(file: Bytes, phoff: u32, k: nat): Segment
    requires Loads(file, phoff, k)
  {
    SegmentOf(Header(file, phoff, k).value)
  }

  /** The later segment's file part shares no page with the earlier segment, and the images are apart. */
  ghost predicate Apart(g: Segment, h: Segment) {
    FilePages(h) !! Pages(g) && forall a: nat :: !(InImage(g, a) && InImage(h, a))
  }

  /** All headers from `i` on can be read, and each of the segments they ask for can be loaded after the
      ones before it. */
  ghost predicate Loadable(m: Memory, pd: FrameNo, file: Bytes, phoff: u32, phnum: nat, i: nat) {
    && (forall k: nat | i <= k < phnum :: Header(file, phoff, k).Some?)
    && (forall k: nat | i <= k < phnum && Loads(file, phoff, k) :: LoadReady(m, pd, SegmentAt(file, phoff, k)))
    && (forall k: nat, l: nat | i <= k < l < phnum && Loads(file, phoff, k) && Loads(file, phoff, l) ::
          Apart(SegmentAt(file, phoff, k), SegmentAt(file, phoff, l)))
  }

  /** All pages that get a new frame. */
  function AllPages(m: Memory, pd: FrameNo, file: Bytes, phoff: u32, phnum: nat, i: nat := 0): set<nat>
    requires i <= phnum
    requires forall k: nat | i <= k < phnum && Loads(file, phoff, k) :: WellFormed(SegmentAt(file, phoff, k))
    decreases phnum - i
  {
    if i == phnum then {}
    else (if Loads(file, phoff, i) then NewPages(m, pd, SegmentAt(file, phoff, i)) else {}) + AllPages(m, pd, file, phoff, phnum, i + 1)
  }

  lemma LoadableIsWellFormed(m: Memory, pd: FrameNo, file: Bytes, phoff: u32, phnum: nat, i: nat)
    requires Loadable(m, pd, file, phoff, phnum, i)
    ensures forall k: nat | i <= k < phnum && Loads(file, phoff, k) :: WellFormed(SegmentAt(file, phoff, k))
  {
  }

  lemma {:induction false} AllPagesInRange(m: Memory, pd: FrameNo, file: Bytes, phoff: u32, phnum: nat, i: nat)
    requires i <= phnum && Loadable(m, pd, file, phoff, phnum, i)
    ensures forall k: nat | i <= k < phnum && Loads(file, phoff, k) :: WellFormed(SegmentAt(file, phoff, k))
    ensures InUserRange(AllPages(m, pd, file, phoff, phnum, i))
    decreases phnum - i
  {
    hide Loads, SegmentAt, NewPages, Apart;
    LoadableIsWellFormed(m, pd, file, phoff, phnum, i);
    if i < phnum {
      AllPagesInRange(m, pd, file, phoff, phnum, i + 1);
      if Loads(file, phoff, i) { MissingInRange(m, pd, SegmentAt(file, phoff, i)); }
    }
  }

  /** Loading a segment leaves the later ones loadable, and their pages are no longer missing if it
      brought them. */
  lemma StillLoadable(p: Pool, pd: FrameNo, file: Bytes, phoff: u32, phnum: nat, i: nat)
    requires i < phnum && Rooted(p, pd) && Loadable(p.mem, pd, file, phoff, phnum, i) && Loads(file, phoff, i)
    requires LoadSegment(p, pd, Some(file), SegmentAt(file, phoff, i)).Done?
    ensures LoadReady(p.mem, pd, SegmentAt(file, phoff, i))
    ensures var m1 := LoadSegment(p, pd, Some(file), SegmentAt(file, phoff, i)).pool.mem;
      && Loadable(m1, pd, file, phoff, phnum, i + 1)
      && forall k: nat | i < k < phnum && Loads(file, phoff, k) ::
        var h := SegmentAt(file, phoff, k);
        WellFormed(h) && NewPages(m1, pd, h) == NewPages(p.mem, pd, h) - NewPages(p.mem, pd, SegmentAt(file, phoff, i))
  {
    hide LoadSegment, Span, SegmentAt, Loads, Rooted, MappedAt, UserAt, ByteAt, TablesFor, Cost, WellFormed;
    var g := SegmentAt(file, phoff, i);
    var m1 := LoadSegment(p, pd, Some(file), g).pool.mem;
    forall vq: nat
      ensures MappedAt(m1, pd, vq) <==> MappedAt(p.mem, pd, vq) || vq in Pages(g)
      ensures if vq in Pages(g) then UserAt(m1, pd, vq).Some? else UserAt(m1, pd, vq) == UserAt(p.mem, pd, vq)
    {
      SegmentIsLoaded(p, pd, file, g, vq, 0);
    }
    PagesSplit(g);
    forall k: nat | i < k < phnum && Loads(file, phoff, k)
      ensures var h := SegmentAt(file, phoff, k);
        && LoadReady(m1, pd, h) && WellFormed(h)
        && NewPages(m1, pd, h) == NewPages(p.mem, pd, h) - NewPages(p.mem, pd, g)
    {
      var h := SegmentAt(file, phoff, k);
      assert Apart(g, h) && LoadReady(p.mem, pd, h);
    }
  }

  lemma {:induction false} AllPagesShrink(m: Memory, m1: Memory, pd: FrameNo, file: Bytes, phoff: u32, phnum: nat, i: nat, done: set<nat>)
    requires i <= phnum
    requires forall k: nat | i <= k < phnum && Loads(file, phoff, k) ::
      var h := SegmentAt(file, phoff, k); WellFormed(h) && NewPages(m1, pd, h) == NewPages(m, pd, h) - done
    ensures AllPages(m1, pd, file, phoff, phnum, i) == AllPages(m, pd, file, phoff, phnum, i) - done
    decreases phnum - i
  {
    hide Loads, SegmentAt, NewPages;
    if i < phnum { AllPagesShrink(m, m1, pd, file, phoff, phnum, i + 1, done); }
  }

  /** Address `a` is in no image from `i` on and on no page of a file part. */
  ghost predicate OutOfTheWay(file: Bytes, phoff: u32, phnum: nat, i: nat, a: nat) {
    forall k: nat | i <= k < phnum && Loads(file, phoff, k) ::
      !InImage(SegmentAt(file, phoff, k), a) && a / PAGE_SIZE !in FilePages(SegmentAt(file, phoff, k))
  }

  /** Every segment of the program ends up in memory as its header says. The load succeeds exactly if
      there are frames for all new pages and the tables they lack, and user bytes that are in no image and
      on no page of a file part stay. */
  lemma {:induction false} ProgramIsLoaded(p: Pool, pd: FrameNo, file: Bytes, phoff: u32, phnum: nat, i: nat, k: nat, a: nat)
    requires i <= phnum && Rooted(p, pd) && Loadable(p.mem, pd, file, phoff, phnum, i)
    ensures forall j: nat | i <= j < phnum && Loads(file, phoff, j) :: WellFormed(SegmentAt(file, phoff, j))
    ensures var r, n := LoadAll(p, pd, file, phoff, phnum, i), Cost(p.mem, pd, AllPages(p.mem, pd, file, phoff, phnum, i));
      && (r.Done? <==> n <= |p.free|) && !r.Failed? && !r.Astray?
      && (r.Done? ==>
           && Rooted(r.pool, pd) && |r.pool.free| == |p.free| - n
           && TablesFor(p.mem, r.pool.mem, pd, AllPages(p.mem, pd, file, phoff, phnum, i))
           && (i <= k < phnum && Loads(file, phoff, k) && InImage(SegmentAt(file, phoff, k), a) ==>
                ByteAt(r.pool.mem, pd, a) == Some(ImageByte(file, SegmentAt(file, phoff, k), a - SegmentAt(file, phoff, k).vaddr)))
           && (OutOfTheWay(file, phoff, phnum, i, a) && ByteAt(p.mem, pd, a).Some? ==> ByteAt(r.pool.mem, pd, a) == ByteAt(p.mem, pd, a)))
    decreases phnum - i
  {
    hide LoadSegment, WellFormed, Span, NewPages, ImageByte, SegmentAt, Loads, Loadable, ByteAt, Rooted, Cost, TablesFor,
      MappedAt, UserAt, InImage, OutOfTheWay, LoadReady;
    LoadableIsWellFormed(p.mem, pd, file, phoff, phnum, i);
    if i == phnum {
      NothingCosts(p.mem, pd);
    } else {
      FirstHeader(p.mem, pd, file, phoff, phnum, i);
      if Loads(file, phoff, i) {
        ProgramStep(p, pd, file, phoff, phnum, i, k, a);
        var g := SegmentAt(file, phoff, i);
        if LoadSegment(p, pd, Some(file), g).Done? {
          var p1 := LoadSegment(p, pd, Some(file), g).pool;
          ProgramIsLoaded(p1, pd, file, phoff, phnum, i + 1, k, a);
          var r, rest := LoadAll(p1, pd, file, phoff, phnum, i + 1), AllPages(p1.mem, pd, file, phoff, phnum, i + 1);
          if r.Done? { TablesGrow(p.mem, p1.mem, r.pool.mem, pd, NewPages(p.mem, pd, g), rest); }
          assert NewPages(p.mem, pd, g) + rest == AllPages(p.mem, pd, file, phoff, phnum, i);
        }
      } else {
        ProgramIsLoaded(p, pd, file, phoff, phnum, i + 1, k, a);
        SkippedHeader(file, phoff, phnum, i, a);
        assert AllPages(p.mem, pd, file, phoff, phnum, i) == AllPages(p.mem, pd, file, phoff, phnum, i + 1);
      }
    }
  }

  lemma FirstHeader(m: Memory, pd: FrameNo, file: Bytes, phoff: u32, phnum: nat, i: nat)
    requires i < phnum && Loadable(m, pd, file, phoff, phnum, i)
    ensures Header(file, phoff, i).Some? && (IsLoad(Header(file, phoff, i).value) <==> Loads(file, phoff, i))
    ensures !Loads(file, phoff, i) ==> Loadable(m, pd, file, phoff, phnum, i + 1)
    ensures Loads(file, phoff, i) ==>
      SegmentAt(file, phoff, i) == SegmentOf(Header(file, phoff, i).value) && LoadReady(m, pd, SegmentAt(file, phoff, i))
  {
  }

  lemma SkippedHeader(file: Bytes, phoff: u32, phnum: nat, i: nat, a: nat)
    ensures OutOfTheWay(file, phoff, phnum, i, a) ==> OutOfTheWay(file, phoff, phnum, i + 1, a)
  {
  }

  /** The first segment, and what its load means for the rest. */
  lemma ProgramStep(p: Pool, pd: FrameNo, file: Bytes, phoff: u32, phnum: nat, i: nat, k: nat, a: nat)
    requires i < phnum && Rooted(p, pd) && Loadable(p.mem, pd, file, phoff, phnum, i) && Loads(file, phoff, i)
    ensures forall j: nat | i <= j < phnum && Loads(file, phoff, j) :: WellFormed(SegmentAt(file, phoff, j))
    ensures var g := SegmentAt(file, phoff, i);
      var r, all := LoadSegment(p, pd, Some(file), g), AllPages(p.mem, pd, file, phoff, phnum, i);
      && LoadReady(p.mem, pd, g) && !r.Failed? && !r.Astray?
      && (!r.Done? ==> Cost(p.mem, pd, all) > |p.free|)
      && (r.Done? ==>
           && Rooted(r.pool, pd) && Loadable(r.pool.mem, pd, file, phoff, phnum, i + 1)
           && TablesFor(p.mem, r.pool.mem, pd, NewPages(p.mem, pd, g))
           && AllPages(r.pool.mem, pd, file, phoff, phnum, i + 1) == all - NewPages(p.mem, pd, g) && NewPages(p.mem, pd, g) <= all
           && |p.free| - Cost(p.mem, pd, all) == |r.pool.free| - Cost(r.pool.mem, pd, AllPages(r.pool.mem, pd, file, phoff, phnum, i + 1))
           && (InImage(g, a) ==>
                ByteAt(r.pool.mem, pd, a) == Some(ImageByte(file, g, a - g.vaddr)) && OutOfTheWay(file, phoff, phnum, i + 1, a))
           && (OutOfTheWay(file, phoff, phnum, i, a) && ByteAt(p.mem, pd, a).Some? ==>
                ByteAt(r.pool.mem, pd, a) == ByteAt(p.mem, pd, a) && OutOfTheWay(file, phoff, phnum, i + 1, a)))
  {
    hide LoadSegment, WellFormed, Span, NewPages, ImageByte, SegmentAt, Loads, ByteAt, Rooted, Cost, TablesFor, MappedAt,
      UserAt, Apart, LoadReady;
    LoadableIsWellFormed(p.mem, pd, file, phoff, phnum, i);
    FirstHeader(p.mem, pd, file, phoff, phnum, i);
    var g := SegmentAt(file, phoff, i);
    var added, all := NewPages(p.mem, pd, g), AllPages(p.mem, pd, file, phoff, phnum, i);
    SegmentIsLoaded(p, pd, file, g, 0, a);
    SmallerCost(p.mem, pd, added, all);
    if LoadSegment(p, pd, Some(file), g).Done? {
      var p1 := LoadSegment(p, pd, Some(file), g).pool;
      StillLoadable(p, pd, file, phoff, phnum, i);
      AllPagesShrink(p.mem, p1.mem, pd, file, phoff, phnum, i + 1, added);
      AllPagesInRange(p.mem, pd, file, phoff, phnum, i);
      CostSplits(p.mem, p1.mem, pd, added, all - added);
      assert added + (all - added) == all;
      assert AllPages(p1.mem, pd, file, phoff, phnum, i + 1) == all - added;
      if InImage(g, a) { ImageIsApart(p.mem, pd, file, phoff, phnum, i, a); }
      SkippedHeader(file, phoff, phnum, i, a);
    }
  }

  lemma ImageIsApart(m: Memory, pd: FrameNo, file: Bytes, phoff: u32, phnum: nat, i: nat, a: nat)
    requires i < phnum && Loadable(m, pd, file, phoff, phnum, i) && Loads(file, phoff, i) && InImage(SegmentAt(file, phoff, i), a)
    ensures OutOfTheWay(file, phoff, phnum, i + 1, a)
  {
    hide Span, Header, LoadReady;
    var g := SegmentAt(file, phoff, i);
    SpanHolds(g.vaddr, g.memsz, a);
    forall k: nat | i < k < phnum && Loads(file, phoff, k)
      ensures !InImage(SegmentAt(file, phoff, k), a) && a / PAGE_SIZE !in FilePages(SegmentAt(file, phoff, k))
    {
      assert Apart(g, SegmentAt(file, phoff, k));
    }
  }

  // ---------------------------------------------------------------- the stack

  /** setup_user_stack. */
  function StackLoop(p: Pool, pd: FrameNo, i: nat := 0): Option<Pool>
    requires i <= STACK_PAGES
    decreases STACK_PAGES - i
  {
    if i == STACK_PAGES then Some(p)
    else
      match AllocAt(p, pd, STACK_TOP / PAGE_SIZE - (i + 1))
      case None => None
      case Some(p1) => StackLoop(p1, pd, i + 1)
  }

  predicate InStack(i: nat, vp: nat) { STACK_TOP / PAGE_SIZE - STACK_PAGES <= vp < STACK_TOP / PAGE_SIZE - i }

  /** How many frames the stack takes from its page `i` on: they all lie behind one directory entry. */
  function StackCost(m: Memory, pd: FrameNo, i: nat := 0): nat
    requires i <= STACK_PAGES
  {
    if i == STACK_PAGES then 0 else STACK_PAGES - i + if Present(m[pd][895]) then 0 else 1
  }

  /** The stack's pages are the four below its top, mapped for user code, at the price of a frame each and
      of one for their table; no other page moves and no other user byte changes. */
  lemma {:induction false} StackIsMapped(p: Pool, pd: FrameNo, i: nat, vq: nat, a: nat)
    requires i <= STACK_PAGES && Rooted(p, pd)
    ensures var r := StackLoop(p, pd, i);
      && (r.Some? <==> StackCost(p.mem, pd, i) <= |p.free|)
      && (r.Some? ==>
           && Rooted(r.value, pd) && |r.value.free| == |p.free| - StackCost(p.mem, pd, i)
           && (MappedAt(r.value.mem, pd, vq) <==> MappedAt(p.mem, pd, vq) || InStack(i, vq))
           && (if InStack(i, vq) then UserAt(r.value.mem, pd, vq).Some? else UserAt(r.value.mem, pd, vq) == UserAt(p.mem, pd, vq))
           && (!InStack(i, a / PAGE_SIZE) ==> ByteAt(r.value.mem, pd, a) == ByteAt(p.mem, pd, a)))
    decreases STACK_PAGES - i
  {
    hide AllocPageVia, Rooted, MappedAt, UserAt, ByteAt;
    if i < STACK_PAGES {
      var vp := STACK_TOP / PAGE_SIZE - (i + 1);
      assert vp / ENTRIES == 895;
      AllocStep(p, pd, vp);
      if AllocAt(p, pd, vp).Some? {
        StackIsMapped(AllocAt(p, pd, vp).value, pd, i + 1, vq, a);
        if vq != vp { AllocOther(p, pd, vp, vq); }
        AllocSees(p, pd, vp, a);
      }
    }
  }

  // ---------------------------------------------------------------- elf_load_and_exec

  const EHDR_BYTES: nat := 52
  const ET_EXEC: nat := 2
  const EM_386: nat := 3

  /** The fields of the ELF header that the loader looks at. */
  datatype Ehdr = Ehdr(ident: Bytes, kind: nat, machine: nat, entry: u32, phoff: u32, phnum: nat)

  function Un16(s: Bytes): nat
    requires |s| == 2
  {
    var b0: int, b1: int := s[0], s[1];
    b0 + 256 * b1
  }

  function EhdrOf(s: Bytes): (h: Ehdr)
    requires |s| == EHDR_BYTES
    ensures |h.ident| == 16
  {
    Ehdr(s[..16], Un16(s[16..18]), Un16(s[18..20]), Un32(s[24..28]), Un32(s[28..32]), Un16(s[44..46]))
  }

  /** elf_check_file. */
  predicate Checked(h: Ehdr)
    requires |h.ident| == 16
  {
    && h.ident[..6] == [0x7F, 69, 76, 70, 1, 1]
    && h.kind == ET_EXEC && h.machine == EM_386 && h.phnum != 0
  }

  /** elf_load_and_exec for a file that sfs_lookup has found, up to the registers. */
  function Exec(p: Pool, pd: FrameNo, file: Bytes): Outcome {
    var s := SfsRuns.Slice(file, 0, EHDR_BYTES);
    if |s| < EHDR_BYTES || !Checked(EhdrOf(s)) then Failed(p)
    else
      match LoadAll(p, pd, file, EhdrOf(s).phoff, EhdrOf(s).phnum)
      case Done(p1) => (match StackLoop(p1, pd) case None => Panicked case Some(p2) => Done(p2))
      case Failed(p1) => Failed(p1)
      case Panicked => Panicked
      case Astray => Astray
  }
}
