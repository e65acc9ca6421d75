/** A page below 4 MB mapped away from the frame of its number: what the kernel's stores then hit, and
    exactly which clones go wrong. */
module PagingStray {
  import opened Wrappers
  import opened PagingSpec
  import opened PagingMap
  import opened PagingVia
  import opened PagingDevices
  import opened PagingBoot

  /** The address of frame `j` leads to frame `f`; every other free frame is where its address says. */
  ghost predicate Strays(p: Pool, pd: FrameNo, j: FrameNo, f: FrameNo) {
    && Present(p.mem[pd][0]) && FrameOf(p.mem[pd][0]) < FRAMES
    && f != pd && f != FrameOf(p.mem[pd][0]) && f != j && pd !in p.free && FrameOf(p.mem[pd][0]) !in p.free
    && forall g | g in p.free :: At(p.mem, pd, g) == Some(Target(j, f, g))
  }

  function Target(j: FrameNo, f: FrameNo, g: FrameNo): FrameNo { if g == j then f else g }

  /** paging_alloc_page for page `j` below 4 MB, with another frame on top of the stack: the page is the
      user's, and what the kernel stores in the free frame `j` goes to it. */
  lemma AllocStrays(p: Pool, pd: FrameNo, j: FrameNo)
    requires Sane(p, pd) && p.free != [] && Last(p) != j
    ensures AllocPageVia(p, pd, 0, j) == AllocPage(p, pd, 0, j) && AllocPage(p, pd, 0, j).Some?
    ensures var p' := AllocPage(p, pd, 0, j).value;
      && Separate(p', pd) && TablesInMemory(p'.mem, pd) && UserPage(p'.mem, pd, 0, j) && Present(p'.mem[pd][0])
      && PageFrame(p'.mem, pd, 0, j) == Last(p) && p'.free == p.free[..|p.free| - 1] && Strays(p', pd, j, Last(p))
  {
    hide Entry, Reached;
    var f, p1 := Last(p), Pop(p).value.1;
    SaneIsRooted(p, pd);
    RootedFacts(p, pd);
    AllocPageIsVia(p, pd, 0, j);
    Popped(p, f);
    AllocPageMaps(p, pd, 0, j, 0, j);
    PoppedIsSane(p, pd);
    SaneIsRooted(p1, pd);
    forall g | g in p1.free ensures At(AllocPage(p, pd, 0, j).value.mem, pd, g) == Some(Target(j, f, g)) {
      MappedView(p1, pd, 0, j, f, 7, g);
    }
  }

  lemma StoreStrays(p: Pool, pd: FrameNo, j: FrameNo, f: FrameNo, g: FrameNo, k: nat, e: u32)
    requires Strays(p, pd, j, f) && g in p.free && k < ENTRIES
    ensures StoreAt(p, pd, g, k, e) == Some(Poke(p, Target(j, f, g), k, e))
  {
  }

  // ---------------------------------------------------------------- what no clone writes

  /** The directory, the table of entry 0 and frame `j` are as before, and no frame has come back. */
  ghost predicate Follows(p: Pool, s: Pool, pd: FrameNo, j: FrameNo) {
    && s.mem[pd] == p.mem[pd] && s.mem[FrameOf(p.mem[pd][0]) % FRAMES] == p.mem[FrameOf(p.mem[pd][0]) % FRAMES]
    && s.mem[j] == p.mem[j] && |s.free| <= |p.free| && s.free == p.free[..|s.free|]
  }

  lemma StrayStore(p: Pool, s: Pool, pd: FrameNo, j: FrameNo, f: FrameNo, g: FrameNo, k: nat, e: u32, w: Words)
    requires Strays(p, pd, j, f) && Follows(p, s, pd, j) && g in p.free && k < ENTRIES
    ensures StoreAt(s, pd, g, k, e) == Some(Poke(s, Target(j, f, g), k, e))
    ensures Follows(p, Poke(s, Target(j, f, g), k, e), pd, j)
    ensures FillAt(s, pd, g, w) == Some(WithWords(s, Target(j, f, g), w))
    ensures Follows(p, WithWords(s, Target(j, f, g), w), pd, j)
  {
    assert At(s.mem, pd, g) == At(p.mem, pd, g);
  }

  lemma StrayPop(p: Pool, s: Pool, pd: FrameNo, j: FrameNo)
    requires Follows(p, s, pd, j) && s.free != []
    ensures Last(s) in p.free && Follows(p, Pop(s).value.1, pd, j)
  {
    assert Last(s) == p.free[|s.free| - 1];
  }

  lemma StrayOne(p: Pool, s: Pool, pd: FrameNo, j: FrameNo, f: FrameNo, new1: FrameNo, i: nat, kernelEnd: nat, k: nat)
    requires Strays(p, pd, j, f) && Follows(p, s, pd, j) && new1 in p.free && i < SELF_MAP && k < ENTRIES
    requires CopyOneVia(s, pd, new1, i, kernelEnd, k).Some?
    ensures Follows(p, CopyOneVia(s, pd, new1, i, kernelEnd, k).value, pd, j)
  {
    hide Strays, Follows, Keeps, Leads, Reached, StoreAt, FillAt, WithFrame, Poke;
    var e := s.mem[Reached(s.mem, pd, SELF_MAP, i).value][k];
    if Present(e) {
      if Keeps(i, k, e, kernelEnd) {
        StrayStore(p, s, pd, j, f, new1, k, e, Zeroed());
      } else {
        var (g, s1) := Pop(s).value;
        StrayPop(p, s, pd, j);
        var w := Contents(s1, Leads(s1, pd, FrameOf(e)).value);
        StrayStore(p, s1, pd, j, f, g, k, e, w);
        StrayStore(p, WithWords(s1, Target(j, f, g), w), pd, j, f, new1, k, WithFrame(g, e), w);
      }
    }
  }

  lemma {:induction false} StrayTable(p: Pool, s: Pool, pd: FrameNo, j: FrameNo, f: FrameNo, new1: FrameNo, i: nat, kernelEnd: nat, k: nat)
    requires Strays(p, pd, j, f) && Follows(p, s, pd, j) && new1 in p.free && i < SELF_MAP && k <= ENTRIES
    requires CopyTableVia(s, pd, new1, i, kernelEnd, k).Some?
    ensures Follows(p, CopyTableVia(s, pd, new1, i, kernelEnd, k).value, pd, j)
    decreases ENTRIES - k
  {
    hide Strays, Follows, CopyOneVia;
    if k < ENTRIES {
      StrayOne(p, s, pd, j, f, new1, i, kernelEnd, k);
      StrayTable(p, CopyOneVia(s, pd, new1, i, kernelEnd, k).value, pd, j, f, new1, i, kernelEnd, k + 1);
    }
  }

  lemma StrayEntry(p: Pool, s: Pool, pd: FrameNo, j: FrameNo, f: FrameNo, npd: FrameNo, i: nat, kernelEnd: nat)
    requires Strays(p, pd, j, f) && Follows(p, s, pd, j) && npd in p.free && i < SELF_MAP
    requires CloneEntryVia(s, pd, npd, i, kernelEnd).Some?
    ensures Follows(p, CloneEntryVia(s, pd, npd, i, kernelEnd).value, pd, j)
  {
    hide Strays, Follows, CopyTableVia, CopiesVia, Reached, StoreAt, FillAt, WithFrame, Poke, Zeroed;
    var pde := s.mem[At(s.mem, pd, pd).value][i];
    StrayStore(p, s, pd, j, f, npd, i, if Present(pde) then pde else 0, Zeroed());
    if Present(pde) && CopiesVia(s.mem, pd, i, pde, kernelEnd) == Some(true) {
      var (t, s1) := Pop(s).value;
      StrayPop(p, s, pd, j);
      StrayStore(p, s1, pd, j, f, t, i, 0, Zeroed());
      var s2 := WithWords(s1, Target(j, f, t), Zeroed());
      StrayTable(p, s2, pd, j, f, t, i, kernelEnd, 0);
      StrayStore(p, CopyTableVia(s2, pd, t, i, kernelEnd).value, pd, j, f, npd, i, WithFrame(t, pde), Zeroed());
    }
  }

  lemma {:induction false} StrayFrom(p: Pool, s: Pool, pd: FrameNo, j: FrameNo, f: FrameNo, npd: FrameNo, kernelEnd: nat, i: nat)
    requires Strays(p, pd, j, f) && Follows(p, s, pd, j) && npd in p.free && i <= SELF_MAP
    requires CloneFromVia(s, pd, npd, kernelEnd, i).Some?
    ensures Follows(p, CloneFromVia(s, pd, npd, kernelEnd, i).value, pd, j)
    decreases SELF_MAP - i
  {
    hide Strays, Follows, CloneEntryVia;
    if i < SELF_MAP {
      StrayEntry(p, s, pd, j, f, npd, i, kernelEnd);
      StrayFrom(p, CloneEntryVia(s, pd, npd, i, kernelEnd).value, pd, j, f, npd, kernelEnd, i + 1);
    }
  }

  /** No clone writes frame `j`, not even one that hands it out: then a directory, a table or a page of the
      child holds what the frame held while it was free. If it is the directory, the user's page is
      overwritten with the child's directory. */
  lemma StrayClone(p: Pool, pd: FrameNo, j: FrameNo, f: FrameNo, kernelEnd: nat)
    requires Strays(p, pd, j, f) && CloneVia(p, pd, kernelEnd).Some?
    ensures var (npd, q) := CloneVia(p, pd, kernelEnd).value;
      && q.mem[j] == p.mem[j] && npd == Last(p) && |q.free| <= |p.free| && q.free == p.free[..|q.free|]
      && (npd == j ==> q.mem[f][SELF_MAP] == j * PAGE_SIZE + 3)
  {
    hide Strays, CloneFromVia, StoreAt;
    var (npd, p1) := Pop(p).value;
    assert Follows(p, p, pd, j);
    StrayPop(p, p, pd, j);
    StrayFrom(p, p1, pd, j, f, npd, kernelEnd, 0);
    StrayStore(p, CloneFromVia(p1, pd, npd, kernelEnd).value, pd, j, f, npd, SELF_MAP, npd * PAGE_SIZE + 3, Zeroed());
  }

  // ---------------------------------------------------------------- frames below the ones drawn

  /** More free frames, below those that are handed out first. */
  function Under(p: Pool, b: seq<FrameNo>): Pool { p.(free := b + p.free) }

  lemma UnderPop(p: Pool, b: seq<FrameNo>)
    requires b + p.free != []
    ensures p.free != [] ==> Pop(Under(p, b)) == Some((Last(p), Under(Pop(p).value.1, b)))
    ensures |Pop(Under(p, b)).value.1.free| == |b| + |p.free| - 1
  {
    if p.free != [] { assert (b + p.free)[..|b| + |p.free| - 1] == b + p.free[..|p.free| - 1]; }
  }

  /** What a step does with the frames drawn, it does without those below. */
  ghost predicate Alike(r: Option<Pool>, r': Option<Pool>, b: seq<FrameNo>, n: nat) {
    && (r'.Some? ==>
          |r'.value.free| <= |b| + n && (|r'.value.free| >= |b| ==> r.Some? && r'.value == Under(r.value, b)))
    && (r.Some? ==> r' == Some(Under(r.value, b)))
  }

  lemma OneAlike(p: Pool, b: seq<FrameNo>, pd: FrameNo, new1: FrameNo, i: nat, kernelEnd: nat, k: nat)
    requires i < SELF_MAP && k < ENTRIES
    ensures Alike(CopyOneVia(p, pd, new1, i, kernelEnd, k), CopyOneVia(Under(p, b), pd, new1, i, kernelEnd, k), b, |p.free|)
  {
    hide Keeps, Reached, WithFrame;
    if b + p.free != [] { UnderPop(p, b); }
  }

  lemma {:induction false} TableAlike(p: Pool, b: seq<FrameNo>, pd: FrameNo, new1: FrameNo, i: nat, kernelEnd: nat, k: nat)
    requires i < SELF_MAP && k <= ENTRIES
    ensures Alike(CopyTableVia(p, pd, new1, i, kernelEnd, k), CopyTableVia(Under(p, b), pd, new1, i, kernelEnd, k), b, |p.free|)
    decreases ENTRIES - k
  {
    hide CopyOneVia;
    if k < ENTRIES {
      OneAlike(p, b, pd, new1, i, kernelEnd, k);
      var r' := CopyOneVia(Under(p, b), pd, new1, i, kernelEnd, k);
      if r'.Some? {
        NothingUnder(r'.value);
        TableAlike(r'.value, [], pd, new1, i, kernelEnd, k + 1);
        if |r'.value.free| >= |b| { TableAlike(CopyOneVia(p, pd, new1, i, kernelEnd, k).value, b, pd, new1, i, kernelEnd, k + 1); }
      }
    }
  }

  lemma NothingUnder(p: Pool)
    ensures Under(p, []) == p
  {
    assert [] + p.free == p.free;
  }

  lemma EntryAlike(p: Pool, b: seq<FrameNo>, pd: FrameNo, npd: FrameNo, i: nat, kernelEnd: nat)
    requires i < SELF_MAP
    ensures Alike(CloneEntryVia(p, pd, npd, i, kernelEnd), CloneEntryVia(Under(p, b), pd, npd, i, kernelEnd), b, |p.free|)
  {
    hide CopyTableVia, CopiesVia, Reached, WithFrame, Zeroed;
    if b + p.free != [] {
      UnderPop(p, b);
      var (t, p1') := Pop(Under(p, b)).value;
      if At(p.mem, pd, t).Some? {
        var g := At(p.mem, pd, t).value;
        var q' := WithWords(p1', g, Zeroed());
        NothingUnder(q');
        TableAlike(q', [], pd, t, i, kernelEnd, 0);
        if p.free != [] { TableAlike(WithWords(Pop(p).value.1, g, Zeroed()), b, pd, t, i, kernelEnd, 0); }
      }
    }
  }

  lemma {:induction false} FromAlike(p: Pool, b: seq<FrameNo>, pd: FrameNo, npd: FrameNo, kernelEnd: nat, i: nat)
    requires i <= SELF_MAP
    ensures Alike(CloneFromVia(p, pd, npd, kernelEnd, i), CloneFromVia(Under(p, b), pd, npd, kernelEnd, i), b, |p.free|)
    decreases SELF_MAP - i
  {
    hide CloneEntryVia;
    if i < SELF_MAP {
      EntryAlike(p, b, pd, npd, i, kernelEnd);
      var r' := CloneEntryVia(Under(p, b), pd, npd, i, kernelEnd);
      if r'.Some? {
        NothingUnder(r'.value);
        FromAlike(r'.value, [], pd, npd, kernelEnd, i + 1);
        if |r'.value.free| >= |b| { FromAlike(CloneEntryVia(p, pd, npd, i, kernelEnd).value, b, pd, npd, kernelEnd, i + 1); }
      }
    }
  }

  /** A clone that leaves the frames of `b` free is the clone without them. */
  lemma CloneAlike(p: Pool, b: seq<FrameNo>, pd: FrameNo, kernelEnd: nat)
    requires CloneVia(Under(p, b), pd, kernelEnd).Some? && |CloneVia(Under(p, b), pd, kernelEnd).value.1.free| >= |b|
    ensures CloneVia(p, pd, kernelEnd).Some?
    ensures var (npd, q) := CloneVia(p, pd, kernelEnd).value; CloneVia(Under(p, b), pd, kernelEnd) == Some((npd, Under(q, b)))
  {
    hide CloneFromVia, Reached;
    UnderPop(p, b);
    var (npd, p1') := Pop(Under(p, b)).value;
    NothingUnder(p1');
    FromAlike(p1', [], pd, npd, kernelEnd, 0);
    FromAlike(Pop(p).value.1, b, pd, npd, kernelEnd, 0);
  }

  // ---------------------------------------------------------------- which clones go wrong

  /** The allocation without the frames up to `j` is sane. */
  lemma SaneWithout(p: Pool, pd: FrameNo, n: nat)
    requires Sane(p, pd) && n + 1 < |p.free|
    ensures AllocPage(p, pd, 0, p.free[n]).Some?
    ensures var p' := AllocPage(p, pd, 0, p.free[n]).value; |p'.free| == |p.free| - 1 && Sane(p'.(free := p'.free[n + 1..]), pd)
  {
    hide MapPage, Reached, Needed;
    var j, f := p.free[n], Last(p);
    SaneIsRooted(p, pd);
    RootedFacts(p, pd);
    DistinctEnds(p, n);
    AllocStrays(p, pd, j);
    var p1 := Pop(p).value.1;
    var p2 := p1.(free := p1.free[n + 1..]);
    PoppedIsSane(p, pd);
    SaneIsRooted(p1, pd);
    RootedFacts(p1, pd);
    RestIsSane(p, pd, n);
    NotNeeded(p, pd, n);
    TopIsSeen(p, pd);
    SameMapping(p1, p2, pd, j, f);
    MapPageKeepsIdentityIff(p2, pd, 0, j, f, 7);
    var p' := AllocPage(p, pd, 0, j).value;
    FewerStaySeparate(p', pd, n);
  }

  lemma DistinctEnds(p: Pool, n: nat)
    requires Distinct(p.free) && n + 1 < |p.free|
    ensures p.free[n] != Last(p)
  {
  }

  lemma FewerStaySeparate(p: Pool, pd: FrameNo, n: nat)
    requires Separate(p, pd) && n < |p.free|
    ensures Separate(p.(free := p.free[n + 1..]), pd)
  {
    var q := p.(free := p.free[n + 1..]);
    assert Distinct(q.free) && forall f :: f in q.free ==> f in p.free;
    StillSeparate(p, q, pd);
  }

  lemma RestIsSane(p: Pool, pd: FrameNo, n: nat)
    requires Sane(p, pd) && n + 1 < |p.free|
    ensures var p1 := Pop(p).value.1; Sane(p1.(free := p1.free[n + 1..]), pd)
  {
    hide Reached;
    PoppedIsSane(p, pd);
    var p1 := Pop(p).value.1;
    FewerStaySeparate(p1, pd, n);
    assert forall f :: f in p1.free[n + 1..] ==> f in p1.free;
  }

  /** Nobody but the free list needs frame `j`. */
  lemma NotNeeded(p: Pool, pd: FrameNo, n: nat)
    requires Separate(p, pd) && n + 1 < |p.free|
    ensures TablesInMemory(p.mem, pd)
    ensures var p1 := Pop(p).value.1; !Needed(p1.(free := p1.free[n + 1..]), pd, 0, p.free[n], p.free[n])
  {
    var p1 := Pop(p).value.1;
    var rest := p1.free[n + 1..];
    forall k | 0 <= k < |rest| ensures rest[k] != p.free[n] { assert rest[k] == p.free[n + 1 + k]; }
    assert p.free[n] in p.free;
  }

  lemma TopIsSeen(p: Pool, pd: FrameNo)
    requires Sane(p, pd) && p.free != []
    ensures TablesInMemory(p.mem, pd) && Seen(p.mem, pd, Last(p)) && Present(p.mem[pd][0])
  {
  }

  lemma SameMapping(p1: Pool, p2: Pool, pd: FrameNo, j: FrameNo, f: FrameNo)
    requires p2 == p1.(free := p2.free) && Present(p1.mem[pd][0]) && FrameOf(p1.mem[pd][0]) < FRAMES
    ensures MapPage(p1, pd, 0, j, f, 7).Some? && MapPage(p2, pd, 0, j, f, 7).Some?
    ensures MapPage(p2, pd, 0, j, f, 7).value == MapPage(p1, pd, 0, j, f, 7).value.(free := p2.free)
  {
  }

  /** After such an allocation, a clone that leaves frame `j` free is the clone of frames, and parent and
      child can be cloned again. A clone that hands frame `j` out leaves in it what it held while it was
      free. */
  lemma StrayCloneIsRightIfUnused(p: Pool, pd: FrameNo, n: nat, kernelEnd: nat)
    requires Sane(p, pd) && n + 1 < |p.free| && AllocPage(p, pd, 0, p.free[n]).Some?
    requires CloneVia(AllocPage(p, pd, 0, p.free[n]).value, pd, kernelEnd).Some?
    ensures var p' := AllocPage(p, pd, 0, p.free[n]).value; var (npd, q) := CloneVia(p', pd, kernelEnd).value;
      && n < |p'.free| && p'.free[n] == p.free[n]
      && if n < |q.free| then
           var r := p'.(free := p'.free[n + 1..]);
           && Sane(r, pd) && Clone(r, pd, kernelEnd).Some?
           && var (npd', q') := Clone(r, pd, kernelEnd).value;
           npd == npd' && q == Under(q', p'.free[..n + 1]) && Sane(q', pd) && Sane(q', npd)
         else q.mem[p.free[n]] == p'.mem[p.free[n]]
  {
    hide Sane, AllocPage, Clone, CloneVia, Strays;
    var j := p.free[n];
    SaneIsRooted(p, pd);
    RootedFacts(p, pd);
    DistinctEnds(p, n);
    AllocStrays(p, pd, j);
    var p' := AllocPage(p, pd, 0, j).value;
    StrayClone(p', pd, j, Last(p), kernelEnd);
    if n < |CloneVia(p', pd, kernelEnd).value.1.free| {
      SaneWithout(p, pd, n);
      var r := p'.(free := p'.free[n + 1..]);
      assert p' == Under(r, p'.free[..n + 1]);
      CloneAlike(r, p'.free[..n + 1], pd, kernelEnd);
      CloneIsVia(r, pd, kernelEnd);
      ForkStaysSane(r, pd, kernelEnd);
    }
  }

  // ---------------------------------------------------------------- a run that meets it

  /** Every table above 4 MB is the kernel's, and below 4 MB every page but `j`. */
  ghost predicate OneUserPage(p: Pool, pd: FrameNo, j: FrameNo, f: FrameNo, kernelEnd: nat) {
    && Strays(p, pd, j, f) && SelfMapped(p.mem, pd) && j != pd && !InKernel(Vaddr(0, j), kernelEnd)
    && (forall k | 0 < k < SELF_MAP && Present(p.mem[pd][k]) :: k != 1 && !User(p.mem[pd][k])) && FrameOf(p.mem[pd][0]) != pd
    && forall k: FrameNo ::
      var e := p.mem[FrameOf(p.mem[pd][0])][k];
      Present(e) && (User(e) <==> k == j) && FrameOf(e) == if k == j then f else k
  }

  lemma OneSucceeds(p: Pool, s: Pool, pd: FrameNo, j: FrameNo, f: FrameNo, t: FrameNo, kernelEnd: nat, k: FrameNo)
    requires OneUserPage(p, pd, j, f, kernelEnd) && Follows(p, s, pd, j) && t in p.free && (k == j ==> s.free != [])
    ensures CopyOneVia(s, pd, t, 0, kernelEnd, k).Some?
    ensures |CopyOneVia(s, pd, t, 0, kernelEnd, k).value.free| == |s.free| - if k == j then 1 else 0
  {
    hide StoreAt, FillAt, WithFrame;
    SelfMapReaches(s.mem, pd, 0);
    var e := s.mem[FrameOf(s.mem[pd][0])][k];
    if k == j {
      var (g, s1) := Pop(s).value;
      StrayPop(p, s, pd, j);
      assert Leads(s1, pd, f) == Some(f);
      var w := Contents(s1, f);
      StrayStore(p, s1, pd, j, f, g, k, e, w);
      StrayStore(p, WithWords(s1, Target(j, f, g), w), pd, j, f, t, k, WithFrame(g, e), w);
    } else {
      StrayStore(p, s, pd, j, f, t, k, e, Zeroed());
    }
  }

  lemma {:induction false} TableSucceeds(p: Pool, s: Pool, pd: FrameNo, j: FrameNo, f: FrameNo, t: FrameNo, kernelEnd: nat, k: nat)
    requires OneUserPage(p, pd, j, f, kernelEnd) && Follows(p, s, pd, j) && t in p.free && k <= ENTRIES && (k <= j ==> s.free != [])
    ensures CopyTableVia(s, pd, t, 0, kernelEnd, k).Some?
    decreases ENTRIES - k
  {
    hide CopyOneVia, Follows, Strays;
    if k < ENTRIES {
      OneSucceeds(p, s, pd, j, f, t, kernelEnd, k);
      StrayOne(p, s, pd, j, f, t, 0, kernelEnd, k);
      TableSucceeds(p, CopyOneVia(s, pd, t, 0, kernelEnd, k).value, pd, j, f, t, kernelEnd, k + 1);
    }
  }

  lemma FirstSucceeds(p: Pool, s: Pool, pd: FrameNo, j: FrameNo, f: FrameNo, npd: FrameNo, kernelEnd: nat)
    requires OneUserPage(p, pd, j, f, kernelEnd) && Follows(p, s, pd, j) && npd in p.free && |s.free| >= 2 && Seen(p.mem, pd, pd)
    ensures CloneEntryVia(s, pd, npd, 0, kernelEnd).Some?
  {
    hide CopyTableVia, StoreAt, FillAt, WithFrame, Poke, Zeroed;
    SelfMapReaches(s.mem, pd, 0);
    var pde := s.mem[pd][0];
    assert HasUserPage(s.mem[FrameOf(pde)], 0, kernelEnd) by { assert UserEntry(s.mem[FrameOf(pde)][j]); }
    var (t, s1) := Pop(s).value;
    StrayPop(p, s, pd, j);
    StrayStore(p, s1, pd, j, f, t, 0, 0, Zeroed());
    var s2 := WithWords(s1, Target(j, f, t), Zeroed());
    TableSucceeds(p, s2, pd, j, f, t, kernelEnd, 0);
    StrayTable(p, s2, pd, j, f, t, 0, kernelEnd, 0);
    StrayStore(p, CopyTableVia(s2, pd, t, 0, kernelEnd).value, pd, j, f, npd, 0, WithFrame(t, pde), Zeroed());
  }

  lemma {:induction false} RestSucceeds(p: Pool, s: Pool, pd: FrameNo, j: FrameNo, f: FrameNo, npd: FrameNo, kernelEnd: nat, i: nat)
    requires OneUserPage(p, pd, j, f, kernelEnd) && Follows(p, s, pd, j) && npd in p.free && 0 < i <= SELF_MAP && Seen(p.mem, pd, pd)
    ensures CloneFromVia(s, pd, npd, kernelEnd, i).Some?
    decreases SELF_MAP - i
  {
    hide Strays, StoreAt, Poke;
    if i < SELF_MAP {
      assert At(s.mem, pd, pd) == Some(pd);
      var e := if Present(s.mem[pd][i]) then s.mem[pd][i] else 0;
      StrayStore(p, s, pd, j, f, npd, i, e, Zeroed());
      RestSucceeds(p, Poke(s, Target(j, f, npd), i, e), pd, j, f, npd, kernelEnd, i + 1);
    }
  }

  lemma CloneSucceeds(p: Pool, pd: FrameNo, j: FrameNo, f: FrameNo, kernelEnd: nat)
    requires OneUserPage(p, pd, j, f, kernelEnd) && |p.free| >= 3 && Seen(p.mem, pd, pd)
    ensures CloneVia(p, pd, kernelEnd).Some?
  {
    hide Strays, StoreAt, CloneEntryVia, OneUserPage, Seen;
    OneUserPageStrays(p, pd, j, f, kernelEnd);
    var (npd, p1) := Pop(p).value;
    assert Follows(p, p, pd, j);
    StrayPop(p, p, pd, j);
    FirstSucceeds(p, p1, pd, j, f, npd, kernelEnd);
    StrayEntry(p, p1, pd, j, f, npd, 0, kernelEnd);
    RestSucceeds(p, CloneEntryVia(p1, pd, npd, 0, kernelEnd).value, pd, j, f, npd, kernelEnd, 1);
    StrayFrom(p, p1, pd, j, f, npd, kernelEnd, 0);
    StrayStore(p, CloneFromVia(p1, pd, npd, kernelEnd).value, pd, j, f, npd, SELF_MAP, npd * PAGE_SIZE + 3, Zeroed());
  }

  lemma OneUserPageStrays(p: Pool, pd: FrameNo, j: FrameNo, f: FrameNo, kernelEnd: nat)
    requires OneUserPage(p, pd, j, f, kernelEnd)
    ensures Strays(p, pd, j, f)
  {
  }

  /** A program gets the page whose number is that of the second frame on the stack, and forks. The fork
      succeeds, and the last word of the parent's page is now the child's self-map. */
  lemma StrayForkOccurs(q: Pool, pd: FrameNo, kernelEnd: nat)
    requires KernelSpace(q, pd) && |q.free| >= 4 && !InKernel(Vaddr(0, q.free[|q.free| - 2]), kernelEnd)
    ensures StrayFork(q, pd, q.free[|q.free| - 2], Last(q), kernelEnd)
  {
    hide CloneVia, AllocPage, AllocPageVia, Sane, Walk, Strays, InKernel;
    var j, f := q.free[|q.free| - 2], Last(q);
    SaneTables(q, pd);
    DistinctEnds(q, |q.free| - 2);
    AllocStrays(q, pd, j);
    var p' := AllocPage(q, pd, 0, j).value;
    OneUserPageNow(q, pd, j, kernelEnd);
    CloneSucceeds(p', pd, j, f, kernelEnd);
    StrayClone(p', pd, j, f, kernelEnd);
  }

  /** Page `j` gets frame `f`, a fork makes frame `j` the child's directory, and its words go to the page. */
  ghost predicate StrayFork(q: Pool, pd: FrameNo, j: FrameNo, f: FrameNo, kernelEnd: nat) {
    && AllocPageVia(q, pd, 0, j).Some?
    && var p' := AllocPageVia(q, pd, 0, j).value;
    && TablesInMemory(p'.mem, pd) && UserPage(p'.mem, pd, 0, j) && Present(p'.mem[pd][0]) && PageFrame(p'.mem, pd, 0, j) == f
    && CloneVia(p', pd, kernelEnd).Some?
    && var (npd, r) := CloneVia(p', pd, kernelEnd).value;
    npd == j && r.mem[f][SELF_MAP] == j * PAGE_SIZE + 3 && r.mem[j] == p'.mem[j]
  }

  lemma OneUserPageNow(q: Pool, pd: FrameNo, j: FrameNo, kernelEnd: nat)
    requires KernelSpace(q, pd) && q.free != [] && Last(q) != j && j in q.free && !InKernel(Vaddr(0, j), kernelEnd)
    requires AllocPage(q, pd, 0, j).Some? && Strays(AllocPage(q, pd, 0, j).value, pd, j, Last(q))
    ensures var p' := AllocPage(q, pd, 0, j).value; OneUserPage(p', pd, j, Last(q), kernelEnd) && Seen(p'.mem, pd, pd)
  {
    hide Strays, InKernel, Entry, Separate, IdentityMapped;
    var t0, f := FrameOf(q.mem[pd][0]), Last(q);
    SaneIsRooted(q, pd);
    TableIsNot(q, pd, j);
    assert AllocPage(q, pd, 0, j).value.mem == q.mem[t0 := q.mem[t0][j := Entry(f, 7)]];
    forall k: FrameNo ensures Present(q.mem[t0][k]) && !User(q.mem[t0][k]) && FrameOf(q.mem[t0][k]) == k {
      assert PageAt(q.mem, pd, k) == Mapped(k, 3, 3);
      KernelPage(q.mem, pd, 0, k);
    }
  }

  lemma TableIsNot(p: Pool, pd: FrameNo, j: FrameNo)
    requires Rooted(p, pd) && j in p.free
    ensures Present(p.mem[pd][0]) && FrameOf(p.mem[pd][0]) < FRAMES && FrameOf(p.mem[pd][0]) != pd && j != pd && SelfMapped(p.mem, pd)
    ensures FrameOf(p.mem[pd][0]) != j && At(p.mem, pd, pd) == Some(pd)
  {
  }

  /** As the kernel is started, with a network card and a screen of 1024 by 768 pixels, this is the page at
      0x3F6000. */
  lemma KernelStrayFork(p: Pool, f: nat, kernelEnd: nat)
    requires p.free == [0x111, 0x112, 0x113, 0x114] && FRAMES <= f && f + 768 <= LIMIT && kernelEnd <= 0x300000
    ensures Boot(p, KernelFrames()).Some?
    ensures var (pd, q) := Boot(p, KernelFrames()).value; var c := CardInit(q, pd);
      && c.Some? && MapRange(c.value, pd, SCREEN, f, 768).Some?
      && StrayFork(MapRange(c.value, pd, SCREEN, f, 768).value, pd, 0x3F6, 0x3F7, kernelEnd)
  {
    hide Boot, CardInit, MapRange, ScreenReady, StrayFork, KernelSpace, Buffers;
    KernelFramesDiffer(p);
    BootIsBooted(p, KernelFrames());
    var (pd, q) := Boot(p, KernelFrames()).value;
    BootIsScreenReady(p, KernelFrames(), f, 768);
    BootFrames(p);
    CardIsScreenReady(q, pd, f, 768);
    var c := CardInit(q, pd).value;
    BufferFrames(q, c, pd, 7);
    ScreenKeepsKernelSpace(c, pd, f, 768);
    assert !InKernel(Vaddr(0, 0x3F6), kernelEnd);
    StrayForkOccurs(MapRange(c, pd, SCREEN, f, 768).value, pd, kernelEnd);
  }

  /** Without the card it is the page at 0x3FE000. */
  lemma StrayForkWithoutCard(p: Pool, kernelEnd: nat)
    requires p.free == [0x111, 0x112, 0x113, 0x114] && kernelEnd <= 0x300000
    ensures Boot(p, KernelFrames()).Some?
    ensures var (pd, q) := Boot(p, KernelFrames()).value; StrayFork(q, pd, 0x3FE, 0x3FF, kernelEnd)
  {
    hide Boot, StrayFork;
    KernelFramesDiffer(p);
    BootIsBooted(p, KernelFrames());
    BootFrames(p);
    assert !InKernel(Vaddr(0, 0x3FE), kernelEnd);
    var (pd, q) := Boot(p, KernelFrames()).value;
    StrayForkOccurs(q, pd, kernelEnd);
  }

  lemma BootFrames(p: Pool)
    requires p.free == [0x111, 0x112, 0x113, 0x114]
    ensures Boot(p, KernelFrames()).Some?
    ensures var q := Boot(p, KernelFrames()).value.1;
      |q.free| == 258 && q.free[249] == 0x3F7 && q.free[248] == 0x3F6 && q.free[257] == 0x3FF && q.free[256] == 0x3FE
  {
  }
}
