/** Loading a program above the identity map leaves an address space that can be cloned. */
module ElfSane {
  import opened Wrappers
  import opened SfsCodec
  import opened PagingSpec
  import opened PagingVia
  import opened ElfPages
  import opened ElfSpec
  import SfsWrite

  /** All pages of `vps` lie above the identity map and below the self-map. */
  ghost predicate High(vps: set<nat>) { forall vp | vp in vps :: ENTRIES <= vp < LIMIT }

  lemma AllocKeepsSane(p: Pool, pd: FrameNo, vp: nat)
    requires Sane(p, pd) && ENTRIES <= vp < LIMIT && AllocAt(p, pd, vp).Some?
    ensures Sane(AllocAt(p, pd, vp).value, pd)
  {
    hide Sane, Rooted, AllocPageVia, AllocPage;
    SaneIsRooted(p, pd);
    AllocPageIsVia(p, pd, vp / ENTRIES, vp % ENTRIES);
    AllocPageKeepsSaneIff(p, pd, vp / ENTRIES, vp % ENTRIES);
  }

  lemma StoreKeepsSane(p: Pool, pd: FrameNo, va: nat, data: Bytes)
    requires Sane(p, pd) && va % PAGE_SIZE + |data| <= PAGE_SIZE && UserAt(p.mem, pd, va / PAGE_SIZE).Some?
    ensures va / PAGE_SIZE < LIMIT && Store(p, pd, va, data).Some? && Sane(Store(p, pd, va, data).value, pd)
  {
    hide Separate, IdentityMapped, UserAt, WithBytes, Store, Seen;
    SaneIsRooted(p, pd);
    StoreIs(p, pd, va, data);
    var f := UserAt(p.mem, pd, va / PAGE_SIZE).value;
    WriteUserFrame(p, pd, va / PAGE_SIZE, WithBytes(p.mem[f], va % PAGE_SIZE, data));
    RootedFacts(p, pd);
    IdentityStays(p, Store(p, pd, va, data).value, pd);
  }

  lemma {:induction false} FileLoopKeepsSane(p: Pool, pd: FrameNo, file: Bytes, va: nat, off: nat, remain: nat)
    requires Sane(p, pd) && High(Span(va, remain)) && FileLoop(p, pd, Some(file), va, off, remain).Done?
    ensures Sane(FileLoop(p, pd, Some(file), va, off, remain).pool, pd)
    decreases remain
  {
    hide Span, ReadPadded, Sane, AllocPageVia, Store, MappedAt, UserAt;
    if remain > 0 {
      NextChunk(va, remain);
      var vp, n := va / PAGE_SIZE, SfsWrite.ChunkLen(va, remain);
      var data := ReadPadded(file, off, n);
      SaneIsRooted(p, pd);
      AllocStep(p, pd, vp);
      AllocKeepsSane(p, pd, vp);
      StoreKeepsSane(AllocAt(p, pd, vp).value, pd, va, data);
      FileLoopKeepsSane(Store(AllocAt(p, pd, vp).value, pd, va, data).value, pd, file, va + n, off + n, remain - n);
    }
  }

  lemma EnsuredKeepsSane(p: Pool, pd: FrameNo, vp: nat)
    requires Sane(p, pd) && ENTRIES <= vp < LIMIT && Ours(p.mem, pd, {vp}) && Ensured(p, pd, vp).Some?
    ensures Sane(Ensured(p, pd, vp).value, pd) && UserAt(Ensured(p, pd, vp).value.mem, pd, vp).Some?
  {
    hide Sane, AllocPageVia, MappedAt, UserAt, Probe;
    SaneIsRooted(p, pd);
    ProbeIs(p, pd, vp);
    assert vp in {vp};
    if !MappedAt(p.mem, pd, vp) {
      AllocStep(p, pd, vp);
      AllocKeepsSane(p, pd, vp);
    }
  }

  lemma {:induction false} BssLoopKeepsSane(p: Pool, pd: FrameNo, va: nat, remain: nat)
    requires Sane(p, pd) && High(Span(va, remain)) && Ours(p.mem, pd, Span(va, remain)) && BssLoop(p, pd, va, remain).Done?
    ensures Sane(BssLoop(p, pd, va, remain).pool, pd)
    decreases remain
  {
    hide Span, Sane, Ensured, Store, MappedAt, UserAt;
    if remain > 0 {
      NextChunk(va, remain);
      var vp, n := va / PAGE_SIZE, SfsWrite.ChunkLen(va, remain);
      SaneIsRooted(p, pd);
      EnsuredKeepsSane(p, pd, vp);
      StoreKeepsSane(Ensured(p, pd, vp).value, pd, va, Zeros(n));
      StillOurs(p, pd, va, n, Span(va + n, remain - n));
      BssLoopKeepsSane(Store(Ensured(p, pd, vp).value, pd, va, Zeros(n)).value, pd, va + n, remain - n);
    }
  }

  lemma SegmentKeepsSane(p: Pool, pd: FrameNo, file: Bytes, g: Segment)
    requires Sane(p, pd) && LoadReady(p.mem, pd, g) && High(Pages(g)) && LoadSegment(p, pd, Some(file), g).Done?
    ensures Sane(LoadSegment(p, pd, Some(file), g).pool, pd)
  {
    hide Span, Sane, FileLoop, BssLoop, Ours;
    assert (g.memsz + 0x1_0000_0000 - g.filesz) % 0x1_0000_0000 == g.memsz - g.filesz;
    SaneIsRooted(p, pd);
    PagesSplit(g);
    BssStarts(p, pd, file, g);
    FileLoopKeepsSane(p, pd, file, g.vaddr, g.offset, g.filesz);
    BssLoopKeepsSane(FileLoop(p, pd, Some(file), g.vaddr, g.offset, g.filesz).pool, pd, g.vaddr + g.filesz, g.memsz - g.filesz);
  }

  /** A program whose segments all lie above 4 MB can be forked once it is loaded. */
  lemma {:induction false} ProgramKeepsSane(p: Pool, pd: FrameNo, file: Bytes, phoff: u32, phnum: nat, i: nat)
    requires i <= phnum && Sane(p, pd) && Loadable(p.mem, pd, file, phoff, phnum, i) && LoadAll(p, pd, file, phoff, phnum, i).Done?
    requires forall k: nat | i <= k < phnum && Loads(file, phoff, k) :: High(Pages(SegmentAt(file, phoff, k)))
    ensures Sane(LoadAll(p, pd, file, phoff, phnum, i).pool, pd)
    decreases phnum - i
  {
    hide LoadSegment, High, Pages, SegmentAt, Loads, Loadable, Sane, LoadReady;
    if i < phnum {
      FirstHeader(p.mem, pd, file, phoff, phnum, i);
      if Loads(file, phoff, i) {
        var g := SegmentAt(file, phoff, i);
        SaneIsRooted(p, pd);
        SegmentKeepsSane(p, pd, file, g);
        StillLoadable(p, pd, file, phoff, phnum, i);
        ProgramKeepsSane(LoadSegment(p, pd, Some(file), g).pool, pd, file, phoff, phnum, i + 1);
      } else {
        ProgramKeepsSane(p, pd, file, phoff, phnum, i + 1);
      }
    }
  }

  /** And so can one with its stack. */
  lemma {:induction false} StackKeepsSane(p: Pool, pd: FrameNo, i: nat)
    requires i <= STACK_PAGES && Sane(p, pd) && StackLoop(p, pd, i).Some?
    ensures Sane(StackLoop(p, pd, i).value, pd)
    decreases STACK_PAGES - i
  {
    hide AllocPageVia, Sane;
    if i < STACK_PAGES {
      AllocKeepsSane(p, pd, STACK_TOP / PAGE_SIZE - (i + 1));
      StackKeepsSane(AllocAt(p, pd, STACK_TOP / PAGE_SIZE - (i + 1)).value, pd, i + 1);
    }
  }
}
