/** Exactly when cloning succeeds, and how many frames it takes. */
module PagingNeeds {
  import opened PagingSpec
  import opened PagingClone
  import opened PagingFork

  predicate Moves(t: Words, i: nat, kernelEnd: nat, j: nat)
    requires j < ENTRIES
  {
    Present(t[j]) && !Keeps(i, j, t[j], kernelEnd)
  }

  /** How many pages of a table that is copied get a new frame, from entry `j` on. */
  function PagesNeeded(t: Words, i: nat, kernelEnd: nat, j: nat := 0): nat
    requires j <= ENTRIES
    decreases ENTRIES - j
  {
    if j == ENTRIES then 0 else (if Moves(t, i, kernelEnd, j) then 1 else 0) + PagesNeeded(t, i, kernelEnd, j + 1)
  }

  /** The physical address of every page to be copied is mapped as a virtual one. */
  predicate Reachable(p: Pool, pd: FrameNo, t: Words, i: nat, kernelEnd: nat, j: nat := 0)
    requires j <= ENTRIES
  {
    forall k | j <= k < ENTRIES && Moves(t, i, kernelEnd, k) :: Source(p, pd, FrameOf(t[k])).Some?
  }

  function FramesNeeded(m: Memory, pd: FrameNo, kernelEnd: nat, i: nat := 0): nat
    requires i <= SELF_MAP && TablesInMemory(m, pd)
    decreases SELF_MAP - i
  {
    if i == SELF_MAP then 0
    else
      (if TableIsCopied(m, pd, kernelEnd, i) then 1 + PagesNeeded(m[FrameOf(m[pd][i])], i, kernelEnd) else 0)
      + FramesNeeded(m, pd, kernelEnd, i + 1)
  }

  predicate AllReachable(p: Pool, pd: FrameNo, kernelEnd: nat, i: nat := 0)
    requires i <= SELF_MAP && TablesInMemory(p.mem, pd)
  {
    forall k | i <= k < SELF_MAP && TableIsCopied(p.mem, pd, kernelEnd, k) :: Reachable(p, pd, p.mem[FrameOf(p.mem[pd][k])], k, kernelEnd)
  }

  lemma {:induction false} TableSucceedsIff(p: Pool, pd: FrameNo, old1: FrameNo, new1: FrameNo, i: nat, kernelEnd: nat, j: nat)
    requires j <= ENTRIES && CopyReady(p, pd, old1, new1)
    ensures var t, r := p.mem[old1], CopyTable(p, pd, old1, new1, i, kernelEnd, j);
      && (r.Some? <==> PagesNeeded(t, i, kernelEnd, j) <= |p.free| && Reachable(p, pd, t, i, kernelEnd, j))
      && (r.Some? ==> |r.value.free| == |p.free| - PagesNeeded(t, i, kernelEnd, j))
    decreases ENTRIES - j
  {
    hide CopyReady, Keeps, Source, Reachable, Grows;
    var t := p.mem[old1];
    NextReachable(p, pd, t, i, kernelEnd, j);
    if j < ENTRIES {
      if CopyOne(p, pd, old1, new1, i, kernelEnd, j).Some? {
        var p1 := CopyOne(p, pd, old1, new1, i, kernelEnd, j).value;
        CopyOneFacts(p, pd, old1, new1, i, kernelEnd, j);
        TableSucceedsIff(p1, pd, old1, new1, i, kernelEnd, j + 1);
        ReachableStays(p, p1, pd, old1, new1, t, i, kernelEnd, j + 1);
      }
    }
  }

  lemma NextReachable(p: Pool, pd: FrameNo, t: Words, i: nat, kernelEnd: nat, j: nat)
    requires j <= ENTRIES
    ensures j == ENTRIES ==> Reachable(p, pd, t, i, kernelEnd, j)
    ensures j < ENTRIES ==> var r := Moves(t, i, kernelEnd, j) ==> Source(p, pd, FrameOf(t[j])).Some?;
      (Reachable(p, pd, t, i, kernelEnd, j) <==> r && Reachable(p, pd, t, i, kernelEnd, j + 1))
  {
  }

  lemma ReachableStays(p: Pool, p1: Pool, pd: FrameNo, old1: FrameNo, new1: FrameNo, t: Words, i: nat, kernelEnd: nat, j: nat)
    requires j <= ENTRIES && CopyReady(p, pd, old1, new1) && Grows(p, p1, new1)
    ensures Reachable(p1, pd, t, i, kernelEnd, j) <==> Reachable(p, pd, t, i, kernelEnd, j)
  {
    hide Source;
    ReadyIsDistinct(p, pd, old1, new1);
    NewIsNotFree(p, pd, old1, new1);
    AnchoredStays(p, p1, pd, new1);
    SameReachable(p, p1, pd, t, i, kernelEnd, j);
  }

  lemma SameReachable(p: Pool, p1: Pool, pd: FrameNo, t: Words, i: nat, kernelEnd: nat, j: nat)
    requires j <= ENTRIES && SameTables(p.mem, p1.mem, pd) && SelfMapped(p.mem, pd) && p1.dev == p.dev
    ensures Reachable(p1, pd, t, i, kernelEnd, j) <==> Reachable(p, pd, t, i, kernelEnd, j)
  {
    hide Source;
    forall k: nat | k < ENTRIES ensures Source(p1, pd, FrameOf(t[k])) == Source(p, pd, FrameOf(t[k])) {
      SourceSame(p, p1, pd, FrameOf(t[k]));
    }
  }

  lemma EntrySucceedsIff(p: Pool, pd: FrameNo, npd: FrameNo, i: nat, kernelEnd: nat)
    requires i < SELF_MAP && CloneReady(p, pd, npd)
    ensures TablesInMemory(p.mem, pd)
    ensures var t, r := p.mem[FrameOf(p.mem[pd][i]) % FRAMES], CloneEntry(p, pd, npd, i, kernelEnd);
      var n := if TableIsCopied(p.mem, pd, kernelEnd, i) then 1 + PagesNeeded(t, i, kernelEnd) else 0;
      && (r.Some? <==> n <= |p.free| && (TableIsCopied(p.mem, pd, kernelEnd, i) ==> Reachable(p, pd, t, i, kernelEnd)))
      && (r.Some? ==> |r.value.free| == |p.free| - n)
  {
    hide CopyTable, Reachable, PagesNeeded, CopiesTable, Anchored;
    if TableIsCopied(p.mem, pd, kernelEnd, i) && p.free != [] {
      var old1 := FrameOf(p.mem[pd][i]);
      var (t, q) := Pop(p).value;
      var q' := WithWords(q, t, Zeroed());
      TableStarts(p, pd, npd, i);
      TableSucceedsIff(q', pd, old1, t, i, kernelEnd, 0);
      SameReachable(p, q', pd, p.mem[old1], i, kernelEnd, 0);
    }
  }

  lemma TableStarts(p: Pool, pd: FrameNo, npd: FrameNo, i: nat)
    requires i < SELF_MAP && CloneReady(p, pd, npd) && Present(p.mem[pd][i]) && p.free != []
    ensures FrameOf(p.mem[pd][i]) < FRAMES && SelfMapped(p.mem, pd)
    ensures var (t, q) := Pop(p).value; var q' := WithWords(q, t, Zeroed());
      && CopyReady(q', pd, FrameOf(p.mem[pd][i]), t) && q'.mem[FrameOf(p.mem[pd][i])] == p.mem[FrameOf(p.mem[pd][i])]
      && SameTables(p.mem, q'.mem, pd)
  {
    var old1 := FrameOf(p.mem[pd][i]);
    var (t, q) := Pop(p).value;
    assert t in p.free;
    assert forall f :: f in q.free ==> f in p.free;
    forall l | 0 <= l < ENTRIES && UserEntry(p.mem[old1][l]) ensures FrameOf(p.mem[old1][l]) !in p.free {
      assert UserPage(p.mem, pd, i, l);
    }
  }

  lemma SameNeeds(p: Pool, p': Pool, pd: FrameNo, kernelEnd: nat, i: nat)
    requires i <= SELF_MAP && SameTables(p.mem, p'.mem, pd) && TablesInMemory(p'.mem, pd) && SelfMapped(p.mem, pd) && p'.dev == p.dev
    ensures FramesNeeded(p'.mem, pd, kernelEnd, i) == FramesNeeded(p.mem, pd, kernelEnd, i)
    ensures AllReachable(p', pd, kernelEnd, i) <==> AllReachable(p, pd, kernelEnd, i)
    decreases SELF_MAP - i
  {
    hide Reachable, PagesNeeded, HasUserPage;
    forall t: Words, k: nat ensures Reachable(p', pd, t, k, kernelEnd) <==> Reachable(p, pd, t, k, kernelEnd) {
      SameReachable(p, p', pd, t, k, kernelEnd, 0);
    }
    if i < SELF_MAP { SameNeeds(p, p', pd, kernelEnd, i + 1); }
  }

  lemma {:induction false} FromSucceedsIff(p: Pool, pd: FrameNo, npd: FrameNo, kernelEnd: nat, i: nat)
    requires i <= SELF_MAP && CloneReady(p, pd, npd)
    ensures TablesInMemory(p.mem, pd)
    ensures var r := CloneFrom(p, pd, npd, kernelEnd, i);
      && (r.Some? <==> FramesNeeded(p.mem, pd, kernelEnd, i) <= |p.free| && AllReachable(p, pd, kernelEnd, i))
      && (r.Some? ==> |r.value.free| == |p.free| - FramesNeeded(p.mem, pd, kernelEnd, i))
    decreases SELF_MAP - i
  {
    hide CloneEntry, CloneReady, Reachable, PagesNeeded, TableIsCopied, EntryCloned;
    ReadyFacts(p, pd, npd);
    if i < SELF_MAP {
      EntrySucceedsIff(p, pd, npd, i, kernelEnd);
      OneMoreReachable(p, pd, kernelEnd, i);
      if TableIsCopied(p.mem, pd, kernelEnd, i) { TableCopiedIsPresent(p.mem, pd, kernelEnd, i); }
      if CloneEntry(p, pd, npd, i, kernelEnd).Some? {
        var p1 := CloneEntry(p, pd, npd, i, kernelEnd).value;
        CloneEntryFacts(p, pd, npd, i, kernelEnd);
        ParentSame(p, p1, pd, npd);
        FromSucceedsIff(p1, pd, npd, kernelEnd, i + 1);
        ReadyIsAnchored(p, pd, npd);
        SameNeeds(p, p1, pd, kernelEnd, i + 1);
      }
    }
  }

  lemma OneMoreReachable(p: Pool, pd: FrameNo, kernelEnd: nat, i: nat)
    requires i < SELF_MAP && TablesInMemory(p.mem, pd)
    ensures AllReachable(p, pd, kernelEnd, i) <==>
      && AllReachable(p, pd, kernelEnd, i + 1)
      && (TableIsCopied(p.mem, pd, kernelEnd, i) ==> Reachable(p, pd, p.mem[FrameOf(p.mem[pd][i]) % FRAMES], i, kernelEnd))
  {
    hide Reachable, CopiesTable;
  }

  /** A clone succeeds exactly if there are frames for the directory, for each copied table and for each
      copied page, and the physical address of each copied page is mapped as a virtual one; it takes just
      these frames. Otherwise the kernel panics, for want of frames or at a page fault. */
  lemma CloneSucceedsIff(p: Pool, pd: FrameNo, kernelEnd: nat)
    requires Separate(p, pd)
    ensures TablesInMemory(p.mem, pd)
    ensures var r, n := Clone(p, pd, kernelEnd), 1 + FramesNeeded(p.mem, pd, kernelEnd);
      && (r.Some? <==> n <= |p.free| && AllReachable(p, pd, kernelEnd))
      && (r.Some? ==> |r.value.1.free| == |p.free| - n)
  {
    hide CloneFrom, FramesNeeded, AllReachable, Separate;
    SeparateIsDistinct(p, pd);
    if Pop(p).Some? {
      var (npd, p1) := Pop(p).value;
      Started(p, pd);
      FromSucceedsIff(p1, pd, npd, kernelEnd, 0);
      SelfMapStays(p, pd);
      SameNeeds(p, p1, pd, kernelEnd, 0);
    }
  }

  lemma SelfMapStays(p: Pool, pd: FrameNo)
    requires Separate(p, pd)
    ensures SelfMapped(p.mem, pd) && SameTables(p.mem, p.mem, pd)
  {
  }
}
