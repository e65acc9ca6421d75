/** Exactly when a clone is right at the addresses of the code, after a page below 4 MB has been allocated
    away from the frame of its number. */
module PagingHarm {
  import opened Wrappers
  import opened PagingSpec
  import opened PagingClone
  import opened PagingFork
  import opened PagingMap
  import opened PagingNeeds
  import opened PagingVia
  import opened PagingBoot
  import opened PagingStray

  // ---------------------------------------------------------------- frames below the ones drawn

  lemma OneUnder(p: Pool, b: seq<FrameNo>, pd: FrameNo, old1: FrameNo, new1: FrameNo, i: nat, kernelEnd: nat, k: nat)
    requires k < ENTRIES
    ensures var r := CopyOne(p, pd, old1, new1, i, kernelEnd, k);
      r.Some? ==> CopyOne(Under(p, b), pd, old1, new1, i, kernelEnd, k) == Some(Under(r.value, b))
  {
    hide Keeps, WithFrame;
    if p.free != [] { UnderPop(p, b); }
  }

  lemma {:induction false} TableUnder(p: Pool, b: seq<FrameNo>, pd: FrameNo, old1: FrameNo, new1: FrameNo, i: nat, kernelEnd: nat, k: nat)
    requires k <= ENTRIES
    ensures var r := CopyTable(p, pd, old1, new1, i, kernelEnd, k);
      r.Some? ==> CopyTable(Under(p, b), pd, old1, new1, i, kernelEnd, k) == Some(Under(r.value, b))
    decreases ENTRIES - k
  {
    hide CopyOne;
    if k < ENTRIES && CopyOne(p, pd, old1, new1, i, kernelEnd, k).Some? {
      OneUnder(p, b, pd, old1, new1, i, kernelEnd, k);
      TableUnder(CopyOne(p, pd, old1, new1, i, kernelEnd, k).value, b, pd, old1, new1, i, kernelEnd, k + 1);
    }
  }

  lemma {:induction false} FromUnder(p: Pool, b: seq<FrameNo>, pd: FrameNo, npd: FrameNo, kernelEnd: nat, i: nat)
    requires i <= SELF_MAP
    ensures var r := CloneFrom(p, pd, npd, kernelEnd, i);
      r.Some? ==> CloneFrom(Under(p, b), pd, npd, kernelEnd, i) == Some(Under(r.value, b))
    decreases SELF_MAP - i
  {
    hide CloneEntry;
    if i < SELF_MAP && CloneFrom(p, pd, npd, kernelEnd, i).Some? {
      EntryUnder(p, b, pd, npd, kernelEnd, i);
      FromUnder(CloneEntry(p, pd, npd, i, kernelEnd).value, b, pd, npd, kernelEnd, i + 1);
    }
  }

  lemma EntryUnder(p: Pool, b: seq<FrameNo>, pd: FrameNo, npd: FrameNo, kernelEnd: nat, i: nat)
    requires i < SELF_MAP && (Present(p.mem[pd][i]) ==> FrameOf(p.mem[pd][i]) < FRAMES)
    ensures var r := CloneEntry(p, pd, npd, i, kernelEnd);
      r.Some? ==> CloneEntry(Under(p, b), pd, npd, i, kernelEnd) == Some(Under(r.value, b))
  {
    hide CopyTable, CopiesTable, WithFrame, Zeroed;
    if p.free != [] && Present(p.mem[pd][i]) {
      UnderPop(p, b);
      var (t, p1) := Pop(p).value;
      TableUnder(WithWords(p1, t, Zeroed()), b, pd, FrameOf(p.mem[pd][i]), t, i, kernelEnd, 0);
    }
  }

  lemma CloneUnder(p: Pool, b: seq<FrameNo>, pd: FrameNo, kernelEnd: nat)
    requires Clone(p, pd, kernelEnd).Some?
    ensures var (npd, q) := Clone(p, pd, kernelEnd).value; Clone(Under(p, b), pd, kernelEnd) == Some((npd, Under(q, b)))
  {
    hide CloneFrom;
    UnderPop(p, b);
    FromUnder(Pop(p).value.1, b, pd, p.free[|p.free| - 1], kernelEnd, 0);
  }

  lemma CloneViaUnder(p: Pool, b: seq<FrameNo>, pd: FrameNo, kernelEnd: nat)
    requires CloneVia(p, pd, kernelEnd).Some?
    ensures var (npd, q) := CloneVia(p, pd, kernelEnd).value; CloneVia(Under(p, b), pd, kernelEnd) == Some((npd, Under(q, b)))
  {
    hide CloneFromVia, Reached;
    UnderPop(p, b);
    FromAlike(Pop(p).value.1, b, pd, Last(p), kernelEnd, 0);
  }

  // ---------------------------------------------------------------- what a drawn frame held before

  function Refill(p: Pool, j: FrameNo, w: Words): Pool { p.(mem := p.mem[j := w]) }

  /** Other words in frame `j` at the start: either they are still there, or the frame has been drawn and
      filled. */
  ghost predicate Forgets(s: Pool, r: Option<Pool>, r': Option<Pool>, j: FrameNo, w: Words) {
    && (r.None? <==> r'.None?)
    && (r.Some? ==>
          if j in s.free && j !in r.value.free then r' == r else r'.value == Refill(r.value, j, w) && (j in r.value.free <==> j in s.free))
  }

  /** Nothing that is copied lies in frame `j`, or in a device. */
  ghost predicate Apart(t: Words, i: nat, kernelEnd: nat, j: FrameNo) {
    forall k | 0 <= k < ENTRIES && Moves(t, i, kernelEnd, k) :: FrameOf(t[k]) < FRAMES && FrameOf(t[k]) != j
  }

  lemma OneForgets(s: Pool, j: FrameNo, w: Words, pd: FrameNo, old1: FrameNo, new1: FrameNo, i: nat, kernelEnd: nat, k: nat)
    requires k < ENTRIES && Distinct(s.free) && j != old1 && j != new1 && Apart(s.mem[old1], i, kernelEnd, j)
    ensures Forgets(s, CopyOne(s, pd, old1, new1, i, kernelEnd, k), CopyOne(Refill(s, j, w), pd, old1, new1, i, kernelEnd, k), j, w)
  {
    hide Keeps, WithFrame, Leads;
    var e := s.mem[old1][k];
    if Present(e) && !Keeps(i, k, e, kernelEnd) && s.free != [] {
      assert Moves(s.mem[old1], i, kernelEnd, k);
      var (f, s1) := Pop(s).value;
      Popped(s, j);
      assert f == j ==> WithWords(Refill(s1, j, w), f, s.mem[FrameOf(e)]) == WithWords(s1, f, s.mem[FrameOf(e)]);
    }
  }

  lemma {:induction false} TableForgets(s: Pool, j: FrameNo, w: Words, pd: FrameNo, old1: FrameNo, new1: FrameNo, i: nat,
                                        kernelEnd: nat, k: nat)
    requires k <= ENTRIES && CopyReady(s, pd, old1, new1) && j != old1 && j != new1 && Apart(s.mem[old1], i, kernelEnd, j)
    ensures Forgets(s, CopyTable(s, pd, old1, new1, i, kernelEnd, k), CopyTable(Refill(s, j, w), pd, old1, new1, i, kernelEnd, k), j, w)
    decreases ENTRIES - k
  {
    hide CopyOne, CopyReady, Apart, Grows;
    if k < ENTRIES {
      ReadyIsDistinct(s, pd, old1, new1);
      OneForgets(s, j, w, pd, old1, new1, i, kernelEnd, k);
      if CopyOne(s, pd, old1, new1, i, kernelEnd, k).Some? {
        var s1 := CopyOne(s, pd, old1, new1, i, kernelEnd, k).value;
        CopyOneFacts(s, pd, old1, new1, i, kernelEnd, k);
        TableForgets(s1, j, w, pd, old1, new1, i, kernelEnd, k + 1);
        if CopyTable(s1, pd, old1, new1, i, kernelEnd, k + 1).Some? {
          ReadyIsDistinct(s1, pd, old1, new1);
          CopyTableGrows(s1, pd, old1, new1, i, kernelEnd, k + 1);
          FewerFree(s1, CopyTable(s1, pd, old1, new1, i, kernelEnd, k + 1).value, new1);
          FewerFree(s, s1, new1);
        }
      }
    }
  }

  /** Frame `j` is neither the directory nor a table, and nothing that a clone copies lies in it, or in a
      device. */
  ghost predicate Unread(m: Memory, pd: FrameNo, kernelEnd: nat, j: FrameNo) {
    && TablesInMemory(m, pd) && j != pd && (forall k | 0 <= k < SELF_MAP && Present(m[pd][k]) :: FrameOf(m[pd][k]) != j)
    && forall i | 0 <= i < SELF_MAP && TableIsCopied(m, pd, kernelEnd, i) :: Apart(m[FrameOf(m[pd][i])], i, kernelEnd, j)
  }

  lemma SameUnread(m: Memory, m': Memory, pd: FrameNo, kernelEnd: nat, j: FrameNo)
    requires Unread(m, pd, kernelEnd, j) && SameTables(m, m', pd)
    ensures Unread(m', pd, kernelEnd, j)
  {
    hide Apart, HasUserPage;
  }

  lemma EntryForgets(s: Pool, j: FrameNo, w: Words, pd: FrameNo, npd: FrameNo, i: nat, kernelEnd: nat)
    requires i < SELF_MAP && CloneReady(s, pd, npd) && Unread(s.mem, pd, kernelEnd, j) && j != npd
    ensures Forgets(s, CloneEntry(s, pd, npd, i, kernelEnd), CloneEntry(Refill(s, j, w), pd, npd, i, kernelEnd), j, w)
  {
    hide CopyTable, HasUserPage, Apart, CloneReady, WithFrame, Zeroed;
    ReadyFacts(s, pd, npd);
    var pde := s.mem[pd][i];
    if Present(pde) && CopiesTable(s.mem, i, pde, kernelEnd) && s.free != [] {
      var (t, s1) := Pop(s).value;
      Popped(s, j);
      TableStarts(s, pd, npd, i);
      var q := WithWords(s1, t, Zeroed());
      if t == j {
        assert WithWords(Refill(s1, j, w), t, Zeroed()) == q;
      } else {
        assert WithWords(Refill(s1, j, w), t, Zeroed()) == Refill(q, j, w);
        TableForgets(q, j, w, pd, FrameOf(pde), t, i, kernelEnd, 0);
      }
      if CopyTable(q, pd, FrameOf(pde), t, i, kernelEnd).Some? { CopiedFree(q, pd, FrameOf(pde), t, i, kernelEnd); }
    }
  }

  lemma CopiedFree(q: Pool, pd: FrameNo, old1: FrameNo, t: FrameNo, i: nat, kernelEnd: nat)
    requires CopyReady(q, pd, old1, t) && CopyTable(q, pd, old1, t, i, kernelEnd).Some?
    ensures forall f :: f in CopyTable(q, pd, old1, t, i, kernelEnd).value.free ==> f in q.free
  {
    hide CopyTable, CopyReady;
    ReadyIsDistinct(q, pd, old1, t);
    CopyTableGrows(q, pd, old1, t, i, kernelEnd, 0);
    FewerFree(q, CopyTable(q, pd, old1, t, i, kernelEnd).value, t);
  }

  lemma {:induction false} FromForgets(s: Pool, j: FrameNo, w: Words, pd: FrameNo, npd: FrameNo, kernelEnd: nat, i: nat)
    requires i <= SELF_MAP && CloneReady(s, pd, npd) && Unread(s.mem, pd, kernelEnd, j) && j != npd
    ensures Forgets(s, CloneFrom(s, pd, npd, kernelEnd, i), CloneFrom(Refill(s, j, w), pd, npd, kernelEnd, i), j, w)
    decreases SELF_MAP - i
  {
    hide CloneEntry, CloneReady, Unread, Grows, EntryCloned;
    ReadyFacts(s, pd, npd);
    if i < SELF_MAP {
      assert Refill(s, j, w).mem[pd] == s.mem[pd] by { UnreadIsOther(s.mem, pd, kernelEnd, j); }
      EntryForgets(s, j, w, pd, npd, i, kernelEnd);
      if CloneEntry(s, pd, npd, i, kernelEnd).Some? {
        var s1 := CloneEntry(s, pd, npd, i, kernelEnd).value;
        CloneEntryFacts(s, pd, npd, i, kernelEnd);
        ParentSame(s, s1, pd, npd);
        SameUnread(s.mem, s1.mem, pd, kernelEnd, j);
        FewerFree(s, s1, npd);
        FromForgets(s1, j, w, pd, npd, kernelEnd, i + 1);
        FromFree(s1, pd, npd, kernelEnd, i + 1);
      }
    }
  }

  lemma UnreadIsOther(m: Memory, pd: FrameNo, kernelEnd: nat, j: FrameNo)
    requires Unread(m, pd, kernelEnd, j)
    ensures j != pd
  {
  }

  lemma FromFree(s: Pool, pd: FrameNo, npd: FrameNo, kernelEnd: nat, i: nat)
    requires i <= SELF_MAP && CloneReady(s, pd, npd)
    ensures CloneFrom(s, pd, npd, kernelEnd, i).Some? ==> forall f :: f in CloneFrom(s, pd, npd, kernelEnd, i).value.free ==> f in s.free
  {
    hide CloneFrom, CloneReady, EntryCloned;
    if CloneFrom(s, pd, npd, kernelEnd, i).Some? {
      ReadyFacts(s, pd, npd);
      CloneFromAt(s, pd, npd, kernelEnd, i, 0);
      FewerFree(s, CloneFrom(s, pd, npd, kernelEnd, i).value, npd);
    }
  }

  /** The new directory's own words: those of the entries that are done no longer depend on what it held. */
  lemma {:induction false} DirectoryForgets(s: Pool, w: Words, pd: FrameNo, npd: FrameNo, kernelEnd: nat, i: nat)
    requires i <= SELF_MAP && CloneReady(s, pd, npd) && Unread(s.mem, pd, kernelEnd, npd) && CloneFrom(s, pd, npd, kernelEnd, i).Some?
    requires forall k | 0 <= k < i :: w[k] == s.mem[npd][k]
    ensures CloneFrom(Refill(s, npd, w), pd, npd, kernelEnd, i).Some?
    ensures var r, r' := CloneFrom(s, pd, npd, kernelEnd, i).value, CloneFrom(Refill(s, npd, w), pd, npd, kernelEnd, i).value;
      r' == Refill(r, npd, r'.mem[npd]) && forall k | 0 <= k < SELF_MAP :: r'.mem[npd][k] == r.mem[npd][k]
    decreases SELF_MAP - i
  {
    hide CloneEntry, CloneReady, Unread, Grows, EntryCloned;
    ReadyFacts(s, pd, npd);
    var s' := Refill(s, npd, w);
    if i < SELF_MAP {
      UnreadIsOther(s.mem, pd, kernelEnd, npd);
      DirectoryEntry(s, w, pd, npd, i, kernelEnd);
      var s1 := CloneEntry(s, pd, npd, i, kernelEnd).value;
      CloneEntryFacts(s, pd, npd, i, kernelEnd);
      ParentSame(s, s1, pd, npd);
      SameUnread(s.mem, s1.mem, pd, kernelEnd, npd);
      var w1 := w[i := s1.mem[npd][i]];
      DirectoryForgets(s1, w1, pd, npd, kernelEnd, i + 1);
    } else {
      assert s'.mem == s.mem[npd := s'.mem[npd]];
    }
  }

  lemma DirectoryEntry(s: Pool, w: Words, pd: FrameNo, npd: FrameNo, i: nat, kernelEnd: nat)
    requires i < SELF_MAP && CloneReady(s, pd, npd) && Unread(s.mem, pd, kernelEnd, npd) && CloneEntry(s, pd, npd, i, kernelEnd).Some?
    ensures var r := CloneEntry(s, pd, npd, i, kernelEnd).value;
      && CloneEntry(Refill(s, npd, w), pd, npd, i, kernelEnd) == Some(Refill(r, npd, w[i := r.mem[npd][i]]))
      && forall k | 0 <= k < i :: r.mem[npd][k] == s.mem[npd][k]
  {
    hide CopyTable, HasUserPage, Apart, CloneReady, WithFrame, Zeroed;
    ReadyFacts(s, pd, npd);
    var pde := s.mem[pd][i];
    if Present(pde) && CopiesTable(s.mem, i, pde, kernelEnd) {
      var (t, s1) := Pop(s).value;
      Popped(s, npd);
      TableStarts(s, pd, npd, i);
      var q := WithWords(s1, t, Zeroed());
      assert WithWords(Refill(s1, npd, w), t, Zeroed()) == Refill(q, npd, w);
      TableForgets(q, npd, w, pd, FrameOf(pde), t, i, kernelEnd, 0);
      CopiedFree(q, pd, FrameOf(pde), t, i, kernelEnd);
      ReadyOnTable(q, pd, FrameOf(pde), t, i, kernelEnd, npd);
      PokeRefill(CopyTable(q, pd, FrameOf(pde), t, i, kernelEnd).value, npd, w, i, WithFrame(t, pde));
    } else {
      PokeRefill(s, npd, w, i, if Present(pde) then pde else 0);
    }
  }

  lemma PokeRefill(s: Pool, npd: FrameNo, w: Words, i: nat, e: u32)
    requires i < ENTRIES
    ensures Poke(Refill(s, npd, w), npd, i, e) == Refill(Poke(s, npd, i, e), npd, w[i := e])
  {
    assert Poke(Refill(s, npd, w), npd, i, e).mem == Refill(Poke(s, npd, i, e), npd, w[i := e]).mem;
  }

  lemma ReadyOnTable(q: Pool, pd: FrameNo, old1: FrameNo, t: FrameNo, i: nat, kernelEnd: nat, x: FrameNo)
    requires CopyReady(q, pd, old1, t) && CopyTable(q, pd, old1, t, i, kernelEnd).Some? && x !in q.free && x != t
    ensures CopyTable(q, pd, old1, t, i, kernelEnd).value.mem[x] == q.mem[x]
  {
    hide CopyTable, CopyReady;
    ReadyIsDistinct(q, pd, old1, t);
    CopyTableGrows(q, pd, old1, t, i, kernelEnd, 0);
    NotDrawn(q, CopyTable(q, pd, old1, t, i, kernelEnd).value, x);
  }

  /** A frame that a clone hands out holds afterwards what it would hold, whatever it held before. */
  lemma CloneForgets(p: Pool, j: FrameNo, w: Words, pd: FrameNo, kernelEnd: nat)
    requires Separate(p, pd) && Unread(p.mem, pd, kernelEnd, j) && Clone(p, pd, kernelEnd).Some?
    requires j in p.free && j !in Clone(p, pd, kernelEnd).value.1.free
    ensures Clone(Refill(p, j, w), pd, kernelEnd) == Clone(p, pd, kernelEnd)
  {
    hide CloneFrom, CloneReady, Unread, Separate;
    SeparateIsDistinct(p, pd);
    var (npd, p1) := Pop(p).value;
    Started(p, pd);
    Popped(p, j);
    if j == npd {
      DirectoryForgets(p1, w, pd, npd, kernelEnd, 0);
      var r, r' := CloneFrom(p1, pd, npd, kernelEnd).value, CloneFrom(Refill(p1, npd, w), pd, npd, kernelEnd).value;
      assert r'.mem[npd][SELF_MAP := npd * PAGE_SIZE + 3] == r.mem[npd][SELF_MAP := npd * PAGE_SIZE + 3];
      assert Poke(r', npd, SELF_MAP, npd * PAGE_SIZE + 3) == Poke(r, npd, SELF_MAP, npd * PAGE_SIZE + 3);
    } else {
      FromForgets(p1, j, w, pd, npd, kernelEnd, 0);
    }
  }

  // ---------------------------------------------------------------- a frame in use behind a wrong address

  /** The address of frame `j` leads to frame `f`; everything else that a clone touches is at its address. */
  ghost predicate Misled(p: Pool, pd: FrameNo, kernelEnd: nat, j: FrameNo, f: FrameNo) {
    && Separate(p, pd) && TablesInMemory(p.mem, pd) && j != f && At(p.mem, pd, j) == Some(f) && Seen(p.mem, pd, pd)
    && Spare(p, pd, j) && Spare(p, pd, f) && (forall g | g in p.free :: Seen(p.mem, pd, g))
    && forall i, l | 0 <= i < SELF_MAP && 0 <= l < ENTRIES && Copied(p.mem, pd, kernelEnd, i, l) ::
      var g := PageFrame(p.mem, pd, i, l); g < FRAMES && (g != j ==> Seen(p.mem, pd, g))
  }

  ghost predicate Spare(p: Pool, pd: FrameNo, j: FrameNo) {
    j !in p.free && j != pd && forall k | 0 <= k < SELF_MAP && Present(p.mem[pd][k]) :: FrameOf(p.mem[pd][k]) != j
  }

  ghost predicate Kept(p: Pool, s: Pool, pd: FrameNo) {
    SameTables(p.mem, s.mem, pd) && s.dev == p.dev && |s.free| <= |p.free| && s.free == p.free[..|s.free|]
  }

  /** The clone of frames, had frame `j` held the words of frame `f`. */
  function Instead(s: Pool, j: FrameNo, f: FrameNo): Pool { Refill(s, j, s.mem[f]) }

  lemma FillKept(p: Pool, s: Pool, pd: FrameNo, kernelEnd: nat, j: FrameNo, f: FrameNo, g: FrameNo, k: nat, e: u32, w: Words)
    requires Misled(p, pd, kernelEnd, j, f) && Kept(p, s, pd) && g in p.free && k < ENTRIES
    ensures StoreAt(s, pd, g, k, e) == Some(Poke(s, g, k, e)) && Kept(p, Poke(s, g, k, e), pd)
    ensures Poke(Instead(s, j, f), g, k, e) == Instead(Poke(s, g, k, e), j, f)
    ensures FillAt(s, pd, g, w) == Some(WithWords(s, g, w)) && Kept(p, WithWords(s, g, w), pd)
    ensures WithWords(Instead(s, j, f), g, w) == Instead(WithWords(s, g, w), j, f)
  {
    hide Copied, PageFrame, Reached, Unshared;
    SameView(p.mem, s.mem, pd);
    FreeIsNoTable(p, pd, g);
    assert Poke(Instead(s, j, f), g, k, e).mem == Instead(Poke(s, g, k, e), j, f).mem;
    assert WithWords(Instead(s, j, f), g, w).mem == Instead(WithWords(s, g, w), j, f).mem;
  }

  lemma FreeIsNoTable(p: Pool, pd: FrameNo, g: FrameNo)
    requires Separate(p, pd) && g in p.free
    ensures g != pd && forall k | 0 <= k < SELF_MAP && Present(p.mem[pd][k]) :: FrameOf(p.mem[pd][k]) != g
  {
  }

  lemma PopKept(p: Pool, s: Pool, pd: FrameNo)
    requires Kept(p, s, pd) && s.free != []
    ensures Last(s) in p.free && Kept(p, Pop(s).value.1, pd)
  {
    assert Last(s) == p.free[|s.free| - 1];
  }

  /** The table that is copied, as the code reaches it. */
  lemma TableKept(p: Pool, s: Pool, pd: FrameNo, i: nat)
    requires Separate(p, pd) && Kept(p, s, pd) && i < SELF_MAP && Present(p.mem[pd][i])
    ensures FrameOf(p.mem[pd][i]) < FRAMES && s.mem[FrameOf(p.mem[pd][i])] == p.mem[FrameOf(p.mem[pd][i])]
    ensures Reached(s.mem, pd, SELF_MAP, i) == Some(FrameOf(p.mem[pd][i])) && s.mem[pd] == p.mem[pd]
  {
    SelfMapReaches(p.mem, pd, i);
    SameView(p.mem, s.mem, pd);
  }

  lemma MisledSource(p: Pool, s: Pool, pd: FrameNo, kernelEnd: nat, j: FrameNo, f: FrameNo, i: nat, k: nat)
    requires Misled(p, pd, kernelEnd, j, f) && Kept(p, s, pd) && i < SELF_MAP && k < ENTRIES
    requires TableIsCopied(p.mem, pd, kernelEnd, i) && Moves(p.mem[FrameOf(p.mem[pd][i])], i, kernelEnd, k)
    ensures var g := FrameOf(p.mem[FrameOf(p.mem[pd][i])][k]);
      g < FRAMES && Leads(s, pd, g) == Some(if g == j then f else g) && Contents(s, if g == j then f else g) == Instead(s, j, f).mem[g]
  {
    hide Keeps, CopiesTable, Unshared;
    CopiedMeans(p.mem, pd, kernelEnd, i, k);
    SameView(p.mem, s.mem, pd);
    var g := FrameOf(p.mem[FrameOf(p.mem[pd][i])][k]);
    assert g == PageFrame(p.mem, pd, i, k);
    AtLeads(s, pd, g);
  }

  lemma AtLeads(s: Pool, pd: FrameNo, g: nat)
    requires g < FRAMES && At(s.mem, pd, g).Some?
    ensures Leads(s, pd, g) == Some(At(s.mem, pd, g).value)
  {
  }

  lemma OneMisled(p: Pool, s: Pool, pd: FrameNo, kernelEnd: nat, j: FrameNo, f: FrameNo, new1: FrameNo, i: nat, k: nat)
    requires Misled(p, pd, kernelEnd, j, f) && Kept(p, s, pd) && new1 in p.free && i < SELF_MAP && k < ENTRIES
    requires TableIsCopied(p.mem, pd, kernelEnd, i)
    ensures FrameOf(p.mem[pd][i]) < FRAMES
    ensures var r, r2 := CopyOneVia(s, pd, new1, i, kernelEnd, k),
                         CopyOne(Instead(s, j, f), pd, FrameOf(p.mem[pd][i]), new1, i, kernelEnd, k);
      (r.None? <==> r2.None?) && (r.Some? ==> Kept(p, r.value, pd) && r2.value == Instead(r.value, j, f))
  {
    hide Misled, Kept, Keeps, CopiesTable, Reached, Leads, StoreAt, FillAt, Poke, WithWords, WithFrame, Instead;
    MisledFacts(p, pd, kernelEnd, j, f);
    TableKept(p, s, pd, i);
    var old1 := FrameOf(p.mem[pd][i]);
    InsteadOf(s, j, f, old1);
    var e := s.mem[old1][k];
    if Present(e) {
      if Keeps(i, k, e, kernelEnd) {
        FillKept(p, s, pd, kernelEnd, j, f, new1, k, e, Zeroed());
      } else if s.free != [] {
        var (g, s1) := Pop(s).value;
        PopKept(p, s, pd);
        InsteadOf(s1, j, f, old1);
        assert Moves(p.mem[old1], i, kernelEnd, k);
        MisledSource(p, s1, pd, kernelEnd, j, f, i, k);
        var w := Instead(s1, j, f).mem[FrameOf(e)];
        FillKept(p, s1, pd, kernelEnd, j, f, g, k, e, w);
        FillKept(p, WithWords(s1, g, w), pd, kernelEnd, j, f, new1, k, WithFrame(g, e), w);
      }
    }
  }

  lemma MisledFacts(p: Pool, pd: FrameNo, kernelEnd: nat, j: FrameNo, f: FrameNo)
    requires Misled(p, pd, kernelEnd, j, f)
    ensures Separate(p, pd) && TablesInMemory(p.mem, pd) && Spare(p, pd, j) && Distinct(p.free) && Seen(p.mem, pd, pd)
  {
  }

  lemma InsteadOf(s: Pool, j: FrameNo, f: FrameNo, x: FrameNo)
    ensures Instead(s, j, f).free == s.free && Instead(s, j, f).dev == s.dev && (x != j ==> Instead(s, j, f).mem[x] == s.mem[x])
    ensures s.free != [] ==> Pop(Instead(s, j, f)) == Some((Last(s), Instead(Pop(s).value.1, j, f)))
  {
  }

  lemma {:induction false} TableMisled(p: Pool, s: Pool, pd: FrameNo, kernelEnd: nat, j: FrameNo, f: FrameNo, new1: FrameNo, i: nat, k: nat)
    requires Misled(p, pd, kernelEnd, j, f) && Kept(p, s, pd) && new1 in p.free && i < SELF_MAP && k <= ENTRIES
    requires TableIsCopied(p.mem, pd, kernelEnd, i)
    ensures FrameOf(p.mem[pd][i]) < FRAMES
    ensures var r, r2 := CopyTableVia(s, pd, new1, i, kernelEnd, k),
                         CopyTable(Instead(s, j, f), pd, FrameOf(p.mem[pd][i]), new1, i, kernelEnd, k);
      (r.None? <==> r2.None?) && (r.Some? ==> Kept(p, r.value, pd) && r2.value == Instead(r.value, j, f))
    decreases ENTRIES - k
  {
    hide Misled, Kept, CopyOne, CopyOneVia, Instead, CopiesTable;
    MisledFacts(p, pd, kernelEnd, j, f);
    if k < ENTRIES {
      OneMisled(p, s, pd, kernelEnd, j, f, new1, i, k);
      if CopyOneVia(s, pd, new1, i, kernelEnd, k).Some? {
        TableMisled(p, CopyOneVia(s, pd, new1, i, kernelEnd, k).value, pd, kernelEnd, j, f, new1, i, k + 1);
      }
    }
  }

  lemma EntryMisled(p: Pool, s: Pool, pd: FrameNo, kernelEnd: nat, j: FrameNo, f: FrameNo, npd: FrameNo, i: nat)
    requires Misled(p, pd, kernelEnd, j, f) && Kept(p, s, pd) && npd in p.free && i < SELF_MAP
    ensures Instead(s, j, f).mem[pd] == s.mem[pd] && (Present(s.mem[pd][i]) ==> FrameOf(s.mem[pd][i]) < FRAMES)
    ensures var r, r2 := CloneEntryVia(s, pd, npd, i, kernelEnd), CloneEntry(Instead(s, j, f), pd, npd, i, kernelEnd);
      (r.None? <==> r2.None?) && (r.Some? ==> Kept(p, r.value, pd) && r2.value == Instead(r.value, j, f))
  {
    hide Misled, Kept, CopyTable, CopyTableVia, HasUserPage, Reached, StoreAt, FillAt, Poke, WithWords, WithFrame, Instead, Zeroed;
    MisledFacts(p, pd, kernelEnd, j, f);
    KeptSees(p, s, pd);
    InsteadOf(s, j, f, pd);
    var pde := s.mem[pd][i];
    FillKept(p, s, pd, kernelEnd, j, f, npd, i, if Present(pde) then pde else 0, Zeroed());
    if Present(pde) {
      TableKept(p, s, pd, i);
      InsteadOf(s, j, f, FrameOf(pde));
      if CopiesTable(s.mem, i, pde, kernelEnd) && s.free != [] {
        var (t, s1) := Pop(s).value;
        PopKept(p, s, pd);
        FillKept(p, s1, pd, kernelEnd, j, f, t, i, 0, Zeroed());
        var s2 := WithWords(s1, t, Zeroed());
        TableMisled(p, s2, pd, kernelEnd, j, f, t, i, 0);
        if CopyTableVia(s2, pd, t, i, kernelEnd).Some? {
          FillKept(p, CopyTableVia(s2, pd, t, i, kernelEnd).value, pd, kernelEnd, j, f, npd, i, WithFrame(t, pde), Zeroed());
        }
      }
    }
  }

  lemma KeptSees(p: Pool, s: Pool, pd: FrameNo)
    requires Separate(p, pd) && Kept(p, s, pd) && Seen(p.mem, pd, pd)
    ensures At(s.mem, pd, pd) == Some(pd) && s.mem[pd] == p.mem[pd] && TablesInMemory(s.mem, pd)
  {
    SameView(p.mem, s.mem, pd);
  }

  lemma {:induction false} FromMisled(p: Pool, s: Pool, pd: FrameNo, kernelEnd: nat, j: FrameNo, f: FrameNo, npd: FrameNo, i: nat)
    requires Misled(p, pd, kernelEnd, j, f) && Kept(p, s, pd) && npd in p.free && i <= SELF_MAP
    ensures var r, r2 := CloneFromVia(s, pd, npd, kernelEnd, i), CloneFrom(Instead(s, j, f), pd, npd, kernelEnd, i);
      (r.None? <==> r2.None?) && (r.Some? ==> Kept(p, r.value, pd) && r2.value == Instead(r.value, j, f))
    decreases SELF_MAP - i
  {
    hide Misled, Kept, CloneEntry, CloneEntryVia, Instead;
    if i < SELF_MAP {
      EntryMisled(p, s, pd, kernelEnd, j, f, npd, i);
      if CloneEntryVia(s, pd, npd, i, kernelEnd).Some? {
        FromMisled(p, CloneEntryVia(s, pd, npd, i, kernelEnd).value, pd, kernelEnd, j, f, npd, i + 1);
      }
    }
  }

  /** At the addresses of the code the clone takes the words of frame `f` for those of frame `j`; it is right
      otherwise. */
  lemma CloneMisled(p: Pool, pd: FrameNo, kernelEnd: nat, j: FrameNo, f: FrameNo)
    requires Misled(p, pd, kernelEnd, j, f)
    ensures CloneVia(p, pd, kernelEnd).None? <==> Clone(Instead(p, j, f), pd, kernelEnd).None?
    ensures CloneVia(p, pd, kernelEnd).Some? ==>
      var (npd, r) := CloneVia(p, pd, kernelEnd).value; Clone(Instead(p, j, f), pd, kernelEnd) == Some((npd, Instead(r, j, f)))
  {
    hide Misled, Kept, CloneFrom, CloneFromVia, Instead, StoreAt, Poke;
    InsteadOf(p, j, f, pd);
    if p.free != [] {
      var (npd, p1) := Pop(p).value;
      assert Kept(p, p, pd) by { KeptAtFirst(p, pd, kernelEnd, j, f); }
      PopKept(p, p, pd);
      FromMisled(p, p1, pd, kernelEnd, j, f, npd, 0);
      if CloneFromVia(p1, pd, npd, kernelEnd).Some? {
        FillKept(p, CloneFromVia(p1, pd, npd, kernelEnd).value, pd, kernelEnd, j, f, npd, SELF_MAP, npd * PAGE_SIZE + 3, Zeroed());
      }
    }
  }

  lemma KeptAtFirst(p: Pool, pd: FrameNo, kernelEnd: nat, j: FrameNo, f: FrameNo)
    requires Misled(p, pd, kernelEnd, j, f)
    ensures Kept(p, p, pd)
  {
    assert p.free == p.free[..|p.free|];
  }

  // ---------------------------------------------------------------- a directory behind a wrong address

  lemma {:induction false} EmptyDirectory(p: Pool, s: Pool, pd: FrameNo, f: FrameNo, npd: FrameNo, kernelEnd: nat, i: nat)
    requires Strays(p, pd, pd, f) && Follows(p, s, pd, pd) && npd in p.free && 0 < i <= SELF_MAP
    requires At(p.mem, pd, pd) == Some(f) && s.mem[f] == Zeroed() && npd != f
    ensures CloneFromVia(s, pd, npd, kernelEnd, i).Some?
    ensures CloneFromVia(s, pd, npd, kernelEnd, i).value.mem[npd][0] == s.mem[npd][0]
    decreases SELF_MAP - i
  {
    hide Strays, Follows, At, StoreAt, CloneEntryVia, FillAt, Zeroed, Poke;
    if i < SELF_MAP {
      DirectoryAstray(p, s, pd, f, npd);
      StrayStore(p, s, pd, pd, f, npd, i, 0, Zeroed());
      EmptyEntry(s, pd, f, npd, kernelEnd, i);
      EmptyDirectory(p, Poke(s, npd, i, 0), pd, f, npd, kernelEnd, i + 1);
    }
  }

  lemma EmptyEntry(s: Pool, pd: FrameNo, f: FrameNo, npd: FrameNo, kernelEnd: nat, i: nat)
    requires At(s.mem, pd, pd) == Some(f) && s.mem[f] == Zeroed() && 0 < i < SELF_MAP
    ensures CloneEntryVia(s, pd, npd, i, kernelEnd) == StoreAt(s, pd, npd, i, 0)
    ensures Poke(s, npd, i, 0).mem[npd][0] == s.mem[npd][0] && (npd != f ==> Poke(s, npd, i, 0).mem[f] == s.mem[f])
  {
    hide At, StoreAt;
  }

  lemma DirectoryAstray(p: Pool, s: Pool, pd: FrameNo, f: FrameNo, npd: FrameNo)
    requires Strays(p, pd, pd, f) && Follows(p, s, pd, pd) && npd in p.free && At(p.mem, pd, pd) == Some(f)
    ensures At(s.mem, pd, pd) == Some(f) && npd != pd
  {
  }

  /** If the directory's own address leads to a page of zeros, the child gets no table at all. */
  lemma EmptyClone(p: Pool, pd: FrameNo, f: FrameNo, kernelEnd: nat)
    requires Strays(p, pd, pd, f) && At(p.mem, pd, pd) == Some(f) && p.mem[f] == Zeroed() && p.free != [] && f !in p.free
    ensures CloneVia(p, pd, kernelEnd).Some?
    ensures var (npd, r) := CloneVia(p, pd, kernelEnd).value; r.mem[npd][0] == 0
  {
    hide Strays, StoreAt, CloneFromVia;
    var (npd, p1) := Pop(p).value;
    assert Follows(p, p, pd, pd);
    StrayPop(p, p, pd, pd);
    DirectoryAstray(p, p1, pd, f, npd);
    StrayStore(p, p1, pd, pd, f, npd, 0, 0, Zeroed());
    var s := Poke(p1, npd, 0, 0);
    EmptyDirectory(p, s, pd, f, npd, kernelEnd, 1);
    assert CloneEntryVia(p1, pd, npd, 0, kernelEnd) == Some(s);
    FirstOfFrom(p1, s, pd, npd, kernelEnd);
    StrayFrom(p, s, pd, pd, f, npd, kernelEnd, 1);
    StrayStore(p, CloneFromVia(s, pd, npd, kernelEnd, 1).value, pd, pd, f, npd, SELF_MAP, npd * PAGE_SIZE + 3, Zeroed());
  }

  lemma FirstOfFrom(p: Pool, s: Pool, pd: FrameNo, npd: FrameNo, kernelEnd: nat)
    requires CloneEntryVia(p, pd, npd, 0, kernelEnd) == Some(s)
    ensures CloneFromVia(p, pd, npd, kernelEnd) == CloneFromVia(s, pd, npd, kernelEnd, 1)
  {
    hide CloneEntryVia;
  }

  // ---------------------------------------------------------------- exactly when a clone is right

  /** The same directory, tables, devices and free frames, with any contents of all other frames. */
  ghost predicate Variant(p: Pool, q: Pool, pd: FrameNo) { SameTables(p.mem, q.mem, pd) && q.free == p.free && q.dev == p.dev }

  ghost predicate Right(p: Pool, pd: FrameNo, kernelEnd: nat) {
    forall q | Variant(p, q, pd) :: CloneVia(q, pd, kernelEnd) == Clone(q, pd, kernelEnd)
  }

  /** The clone hands frame `j` out. */
  ghost predicate HandsOut(p: Pool, pd: FrameNo, kernelEnd: nat, j: FrameNo)
    requires TablesInMemory(p.mem, pd)
  {
    exists n :: 0 <= n < |p.free| && p.free[n] == j && |p.free| - (1 + FramesNeeded(p.mem, pd, kernelEnd)) <= n
  }

  /** Frame `j` is not the directory, holds no page that is copied, and is not handed out. */
  ghost predicate Harmless(p: Pool, pd: FrameNo, kernelEnd: nat, j: FrameNo)
    requires TablesInMemory(p.mem, pd)
  {
    && j != pd && !HandsOut(p, pd, kernelEnd, j)
    && forall i, l | 0 <= i < SELF_MAP && 0 <= l < ENTRIES && Copied(p.mem, pd, kernelEnd, i, l) :: PageFrame(p.mem, pd, i, l) != j
  }

  /** The copied pages are memory. */
  ghost predicate CopiesMemory(m: Memory, pd: FrameNo, kernelEnd: nat)
    requires TablesInMemory(m, pd)
  {
    forall i, l | 0 <= i < SELF_MAP && 0 <= l < ENTRIES && Copied(m, pd, kernelEnd, i, l) :: PageFrame(m, pd, i, l) < FRAMES
  }

  /** After the allocation: only frame `j` has lost its address. */
  ghost predicate Astray(p: Pool, pd: FrameNo, j: FrameNo, f: FrameNo) {
    && Separate(p, pd) && TablesInMemory(p.mem, pd) && Strays(p, pd, j, f) && At(p.mem, pd, j) == Some(f) && Spare(p, pd, f)
    && (j != pd ==> Seen(p.mem, pd, pd))
    && forall i, l | 0 <= i < SELF_MAP && 0 <= l < ENTRIES && UserPage(p.mem, pd, i, l) ::
      var g := PageFrame(p.mem, pd, i, l); g < FRAMES && g != j ==> Seen(p.mem, pd, g)
  }

  lemma AllocIsAstray(p: Pool, pd: FrameNo, j: FrameNo)
    requires Sane(p, pd) && p.free != [] && Last(p) != j
    ensures AllocPage(p, pd, 0, j).Some? && Astray(AllocPage(p, pd, 0, j).value, pd, j, Last(p))
  {
    hide Entry, Reached, Strays, AllocPage, MapPage;
    AllocStrays(p, pd, j);
    var f, p1 := Last(p), Pop(p).value.1;
    var p' := AllocPage(p, pd, 0, j).value;
    PoppedIsSane(p, pd);
    SaneIsRooted(p, pd);
    SaneIsRooted(p1, pd);
    RootedFacts(p1, pd);
    SeparateIsDistinct(p', pd);
    AllocIsMapped(p, pd, j);
    forall g: FrameNo ensures At(p'.mem, pd, g) == if g == j then Some(f) else At(p.mem, pd, g) { MappedView(p1, pd, 0, j, f, 7, g); }
    FreeFrame(p, pd, f);
    forall i, l | 0 <= i < SELF_MAP && 0 <= l < ENTRIES && UserPage(p'.mem, pd, i, l)
      ensures var g := PageFrame(p'.mem, pd, i, l); g < FRAMES && g != j ==> Seen(p'.mem, pd, g)
    {
      MappedUserPage(p1, pd, 0, j, f, 7, i, l);
    }
    UserFrameFacts(p', pd, 0, j);
  }

  lemma AllocIsMapped(p: Pool, pd: FrameNo, j: FrameNo)
    requires p.free != []
    ensures AllocPage(p, pd, 0, j) == MapPage(Pop(p).value.1, pd, 0, j, Last(p), 7)
  {
  }

  lemma FreeFrame(p: Pool, pd: FrameNo, f: FrameNo)
    requires Sane(p, pd) && f in p.free
    ensures Seen(p.mem, pd, f)
  {
  }

  lemma SameCopies(m: Memory, m': Memory, pd: FrameNo, kernelEnd: nat)
    requires SameTables(m, m', pd)
    ensures TablesInMemory(m, pd) && TablesInMemory(m', pd)
    ensures forall i, l | 0 <= i < SELF_MAP && 0 <= l < ENTRIES ::
      && (Copied(m', pd, kernelEnd, i, l) <==> Copied(m, pd, kernelEnd, i, l)) && (UserPage(m', pd, i, l) <==> UserPage(m, pd, i, l))
      && (Present(m[pd][i]) ==> Present(m'[pd][i]) && PageFrame(m', pd, i, l) == PageFrame(m, pd, i, l))
      && (Copied(m, pd, kernelEnd, i, l) || UserPage(m, pd, i, l) ==> Present(m[pd][i]))
  {
    hide InKernel;
  }

  lemma VariantIsAstray(p: Pool, q: Pool, pd: FrameNo, kernelEnd: nat, j: FrameNo, f: FrameNo)
    requires Astray(p, pd, j, f) && Variant(p, q, pd) && CopiesMemory(p.mem, pd, kernelEnd)
    ensures Astray(q, pd, j, f) && CopiesMemory(q.mem, pd, kernelEnd)
    ensures Harmless(q, pd, kernelEnd, j) <==> Harmless(p, pd, kernelEnd, j)
    ensures FramesNeeded(q.mem, pd, kernelEnd) == FramesNeeded(p.mem, pd, kernelEnd)
    ensures Clone(q, pd, kernelEnd).Some? <==> Clone(p, pd, kernelEnd).Some?
  {
    hide Reached, FramesNeeded, Clone, AllReachable, Copied, UserPage, PageFrame, Separate;
    VariantIsSeparate(p, q, pd);
    SeparateIsDistinct(q, pd);
    SameCopies(p.mem, q.mem, pd, kernelEnd);
    SameView(p.mem, q.mem, pd);
    SelfMapIs(p, pd);
    SameNeeds(p, q, pd, kernelEnd, 0);
    CloneSucceedsIff(p, pd, kernelEnd);
    CloneSucceedsIff(q, pd, kernelEnd);
  }

  lemma VariantIsSeparate(p: Pool, q: Pool, pd: FrameNo)
    requires Separate(p, pd) && Variant(p, q, pd)
    ensures Separate(q, pd)
  {
    SameUserPages(p.mem, q.mem, pd);
  }

  /** If the frame is harmless, the code clones frames. */
  lemma HarmlessIsRight(p: Pool, pd: FrameNo, kernelEnd: nat, j: FrameNo, f: FrameNo)
    requires Astray(p, pd, j, f) && Clone(p, pd, kernelEnd).Some? && CopiesMemory(p.mem, pd, kernelEnd) && Harmless(p, pd, kernelEnd, j)
    ensures CloneVia(p, pd, kernelEnd) == Clone(p, pd, kernelEnd)
  {
    hide Clone, CloneVia, Copied, PageFrame, UserPage, FramesNeeded, AllReachable, Separate, Reached;
    SeparateIsDistinct(p, pd);
    CloneSucceedsIff(p, pd, kernelEnd);
    if j in p.free {
      var n :| 0 <= n < |p.free| && p.free[n] == j;
      var r := p.(free := p.free[n + 1..]);
      FewerStaySeparate(p, pd, n);
      RestIsSeen(p, pd, kernelEnd, j, f, n);
      SelfMapIs(p, pd);
      SameNeeds(p, r, pd, kernelEnd, 0);
      CloneSucceedsIff(r, pd, kernelEnd);
      SeenCloneIsVia(r, pd, kernelEnd);
      assert p == Under(r, p.free[..n + 1]) by { assert p.free == p.free[..n + 1] + p.free[n + 1..]; }
      CloneUnder(r, p.free[..n + 1], pd, kernelEnd);
      CloneViaUnder(r, p.free[..n + 1], pd, kernelEnd);
    } else {
      AllIsSeen(p, p, pd, kernelEnd, j, f);
      SeenCloneIsVia(p, pd, kernelEnd);
    }
  }

  lemma RestIsSeen(p: Pool, pd: FrameNo, kernelEnd: nat, j: FrameNo, f: FrameNo, n: nat)
    requires Astray(p, pd, j, f) && Harmless(p, pd, kernelEnd, j) && n < |p.free| && p.free[n] == j && Distinct(p.free)
    ensures CloneSeen(p.(free := p.free[n + 1..]), pd, kernelEnd)
  {
    hide Copied, PageFrame, UserPage, FramesNeeded, Separate, Reached, Strays;
    var rest := p.free[n + 1..];
    forall g | g in rest ensures g in p.free && g != j {
      var k :| 0 <= k < |rest| && rest[k] == g;
      assert rest[k] == p.free[n + 1 + k];
    }
    AllIsSeen(p, p.(free := rest), pd, kernelEnd, j, f);
  }

  lemma AllIsSeen(p: Pool, r: Pool, pd: FrameNo, kernelEnd: nat, j: FrameNo, f: FrameNo)
    requires Astray(p, pd, j, f) && Harmless(p, pd, kernelEnd, j) && r.mem == p.mem && forall g | g in r.free :: g in p.free && g != j
    ensures TablesInMemory(r.mem, pd) && CloneSeen(r, pd, kernelEnd)
  {
    hide FramesNeeded, Separate, InKernel, HandsOut;
    forall i, l | 0 <= i < SELF_MAP && 0 <= l < ENTRIES && Copied(p.mem, pd, kernelEnd, i, l) ensures UserPage(p.mem, pd, i, l) { }
  }

  /** The directory: some contents of the user's page give a child without tables. */
  lemma DirectoryIsWrong(p: Pool, pd: FrameNo, kernelEnd: nat, f: FrameNo)
    requires Astray(p, pd, pd, f) && Clone(p, pd, kernelEnd).Some? && CopiesMemory(p.mem, pd, kernelEnd)
    ensures !Right(p, pd, kernelEnd)
  {
    hide Clone, CloneVia, Copied, PageFrame, UserPage, FramesNeeded, Separate, Strays, Reached;
    var q := Refill(p, f, Zeroed());
    assert Variant(p, q, pd) by { SpareVariant(p, pd, f, Zeroed()); }
    VariantIsAstray(p, q, pd, kernelEnd, pd, f);
    CloneTakes(q, pd, kernelEnd);
    EmptyClone(q, pd, f, kernelEnd);
    ChildTable(q, pd, kernelEnd, 0);
    StraysHas(q, pd, pd, f);
    IsClone(q, pd, kernelEnd);
  }

  lemma IsClone(p: Pool, pd: FrameNo, kernelEnd: nat)
    requires Clone(p, pd, kernelEnd).Some?
    ensures Clone(p, pd, kernelEnd).value == (NewDir(p, pd, kernelEnd), After(p, pd, kernelEnd))
  {
  }

  lemma StraysHas(p: Pool, pd: FrameNo, j: FrameNo, f: FrameNo)
    requires Strays(p, pd, j, f)
    ensures Present(p.mem[pd][0])
  {
  }

  lemma CloneTakes(p: Pool, pd: FrameNo, kernelEnd: nat)
    requires Clone(p, pd, kernelEnd).Some?
    ensures p.free != []
  {
  }

  lemma SpareVariant(p: Pool, pd: FrameNo, f: FrameNo, w: Words)
    requires TablesInMemory(p.mem, pd) && f != pd && forall k | 0 <= k < SELF_MAP && Present(p.mem[pd][k]) :: FrameOf(p.mem[pd][k]) != f
    ensures Variant(p, Refill(p, f, w), pd)
  {
  }

  /** A frame that is handed out: for some contents it does not hold what it should. */
  lemma HandedOutIsWrong(p: Pool, pd: FrameNo, kernelEnd: nat, j: FrameNo, f: FrameNo)
    requires Astray(p, pd, j, f) && Clone(p, pd, kernelEnd).Some? && CopiesMemory(p.mem, pd, kernelEnd) && HandsOut(p, pd, kernelEnd, j)
    ensures !Right(p, pd, kernelEnd)
  {
    hide Clone, CloneVia, Copied, PageFrame, UserPage, FramesNeeded, AllReachable, Separate, Strays, Reached;
    var (npd, r) := Clone(p, pd, kernelEnd).value;
    var old1 := r.mem[j];
    var w: Words := old1[0 := if old1[0] == 0 then 1 else 0];
    assert w[0] != old1[0];
    var q := Refill(p, j, w);
    FreeIsFound(p, pd, kernelEnd, j);
    FreeIsNoTable(p, pd, j);
    assert Variant(p, q, pd) by { SpareVariant(p, pd, j, w); }
    VariantIsAstray(p, q, pd, kernelEnd, j, f);
    FreeIsUnread(p, pd, kernelEnd, j);
    CloneForgets(p, j, w, pd, kernelEnd);
    if CloneVia(q, pd, kernelEnd).Some? { StrayClone(q, pd, j, f, kernelEnd); }
  }

  lemma FreeIsFound(p: Pool, pd: FrameNo, kernelEnd: nat, j: FrameNo)
    requires Separate(p, pd) && TablesInMemory(p.mem, pd) && Clone(p, pd, kernelEnd).Some? && HandsOut(p, pd, kernelEnd, j)
    ensures j in p.free && j !in Clone(p, pd, kernelEnd).value.1.free
  {
    hide Clone, FramesNeeded, AllReachable, Separate, EntryCloned;
    SeparateIsDistinct(p, pd);
    CloneSucceedsIff(p, pd, kernelEnd);
    Finished(p, pd, kernelEnd, 0);
    IsClone(p, pd, kernelEnd);
    FewerFree(p, After(p, pd, kernelEnd), NewDir(p, pd, kernelEnd));
  }

  lemma FreeIsUnread(p: Pool, pd: FrameNo, kernelEnd: nat, j: FrameNo)
    requires Separate(p, pd) && TablesInMemory(p.mem, pd) && CopiesMemory(p.mem, pd, kernelEnd) && j in p.free
    ensures Unread(p.mem, pd, kernelEnd, j)
  {
    hide Keeps, CopiesTable;
    forall i, k | 0 <= i < SELF_MAP && TableIsCopied(p.mem, pd, kernelEnd, i) &&
                  0 <= k < ENTRIES && Moves(p.mem[FrameOf(p.mem[pd][i])], i, kernelEnd, k)
      ensures var g := FrameOf(p.mem[FrameOf(p.mem[pd][i])][k]); g < FRAMES && g != j
    {
      CopiedMeans(p.mem, pd, kernelEnd, i, k);
      CopiedIsNotFree(p, pd, kernelEnd, i, k);
      assert PageFrame(p.mem, pd, i, k) < FRAMES;
    }
  }

  /** A page of another number in frame `j`: for some contents the child gets a copy of the wrong page. */
  lemma PageIsWrong(p: Pool, pd: FrameNo, kernelEnd: nat, j: FrameNo, f: FrameNo, i: nat, l: nat)
    requires Astray(p, pd, j, f) && Clone(p, pd, kernelEnd).Some? && CopiesMemory(p.mem, pd, kernelEnd) && j != pd
    requires i < SELF_MAP && l < ENTRIES && Copied(p.mem, pd, kernelEnd, i, l) && Present(p.mem[pd][i]) && PageFrame(p.mem, pd, i, l) == j
    ensures !Right(p, pd, kernelEnd)
  {
    hide Clone, CloneVia, Copied, FramesNeeded, Separate, Strays, Reached, Walk, Instead;
    var ones: Words := Zeroed()[0 := 1];
    var q1 := Refill(p, j, Zeroed());
    var q := Refill(q1, f, ones);
    CopiedIsSpare(p, pd, kernelEnd, j, i, l);
    SpareVariant(p, pd, j, Zeroed());
    SpareVariant(q1, pd, f, ones);
    assert Variant(p, q, pd);
    VariantIsAstray(p, q, pd, kernelEnd, j, f);
    SameCopies(p.mem, q.mem, pd, kernelEnd);
    CopiedIsSpare(q, pd, kernelEnd, j, i, l);
    AstrayIsMisled(q, pd, kernelEnd, j, f);
    assert q.mem[j][0] == 0 && q.mem[f][0] == 1;
    if CloneVia(q, pd, kernelEnd) == Clone(q, pd, kernelEnd) { MisledCopy(q, pd, kernelEnd, j, f, i, l); }
  }

  lemma CopiedIsSpare(p: Pool, pd: FrameNo, kernelEnd: nat, j: FrameNo, i: nat, l: nat)
    requires Separate(p, pd) && TablesInMemory(p.mem, pd) && i < SELF_MAP && l < ENTRIES && Copied(p.mem, pd, kernelEnd, i, l)
    requires Present(p.mem[pd][i]) && PageFrame(p.mem, pd, i, l) == j
    ensures Spare(p, pd, j)
  {
    assert UserPage(p.mem, pd, i, l);
    UserFrameFacts(p, pd, i, l);
  }

  lemma AstrayIsMisled(p: Pool, pd: FrameNo, kernelEnd: nat, j: FrameNo, f: FrameNo)
    requires Astray(p, pd, j, f) && CopiesMemory(p.mem, pd, kernelEnd) && Spare(p, pd, j)
    ensures Misled(p, pd, kernelEnd, j, f)
  {
    hide Reached, InKernel, Separate;
    forall i, l | 0 <= i < SELF_MAP && 0 <= l < ENTRIES && Copied(p.mem, pd, kernelEnd, i, l) ensures UserPage(p.mem, pd, i, l) { }
  }

  lemma MisledCopy(q: Pool, pd: FrameNo, kernelEnd: nat, j: FrameNo, f: FrameNo, i: nat, l: nat)
    requires Misled(q, pd, kernelEnd, j, f) && i < SELF_MAP && l < ENTRIES && Copied(q.mem, pd, kernelEnd, i, l) && Present(q.mem[pd][i])
    requires PageFrame(q.mem, pd, i, l) == j && Clone(q, pd, kernelEnd).Some? && CloneVia(q, pd, kernelEnd) == Clone(q, pd, kernelEnd)
    ensures q.mem[f] == q.mem[j]
  {
    hide Misled, Clone, CloneVia, Copied, Separate, Source, Instead;
    MisledFacts(q, pd, kernelEnd, j, f);
    CloneMisled(q, pd, kernelEnd, j, f);
    var (npd, r) := Clone(q, pd, kernelEnd).value;
    var q2 := Instead(q, j, f);
    IsClone(q, pd, kernelEnd);
    IsClone(q2, pd, kernelEnd);
    InsteadVariant(q, pd, j, f);
    SameCopies(q.mem, q2.mem, pd, kernelEnd);
    VariantIsSeparate(q, q2, pd);
    ChildMapsSame(q, pd, kernelEnd, i, l);
    ChildMapsSame(q2, pd, kernelEnd, i, l);
    ChildTable(q, pd, kernelEnd, i);
    CopiedTable(q.mem, pd, kernelEnd, i, l);
    Finished(q, pd, kernelEnd, 0);
    InsteadMem(q, j, f);
    InsteadMem(r, j, f);
  }

  lemma CopiedTable(m: Memory, pd: FrameNo, kernelEnd: nat, i: nat, l: nat)
    requires TablesInMemory(m, pd) && i < SELF_MAP && l < ENTRIES && Copied(m, pd, kernelEnd, i, l)
    ensures TableIsCopied(m, pd, kernelEnd, i)
    ensures Walk(m, pd, i, l) == Mapped(PageFrame(m, pd, i, l), Flags(m[pd][i]), Flags(m[FrameOf(m[pd][i])][l]))
  {
    CopiedMeans(m, pd, kernelEnd, i, l);
  }

  lemma InsteadMem(s: Pool, j: FrameNo, f: FrameNo)
    ensures Instead(s, j, f).free == s.free && Instead(s, j, f).mem[j] == s.mem[f]
    ensures forall x: FrameNo | x != j :: Instead(s, j, f).mem[x] == s.mem[x]
  {
  }

  lemma InsteadVariant(q: Pool, pd: FrameNo, j: FrameNo, f: FrameNo)
    requires TablesInMemory(q.mem, pd) && Spare(q, pd, j)
    ensures Variant(q, Instead(q, j, f), pd)
  {
    SpareVariant(q, pd, j, q.mem[f]);
  }

  /** Exactly when a fork after the allocation is right at the addresses of the code, whatever the frames
      hold: page `j` stands for neither the directory nor a page that is copied nor a frame that is handed
      out. All this can be decided before the fork. */
  lemma StrayCloneIsRightIff(p: Pool, pd: FrameNo, j: FrameNo, kernelEnd: nat)
    requires Sane(p, pd) && p.free != [] && Last(p) != j && AllocPage(p, pd, 0, j).Some?
    requires Clone(AllocPage(p, pd, 0, j).value, pd, kernelEnd).Some?
    ensures var p' := AllocPage(p, pd, 0, j).value;
      TablesInMemory(p'.mem, pd) && (CopiesMemory(p'.mem, pd, kernelEnd) ==> (Right(p', pd, kernelEnd) <==> Harmless(p', pd, kernelEnd, j)))
  {
    hide Clone, CloneVia, AllocPage, Astray, Variant, HandsOut, Sane;
    var p', f := AllocPage(p, pd, 0, j).value, Last(p);
    AllocIsAstray(p, pd, j);
    AstrayTables(p', pd, j, f);
    if CopiesMemory(p'.mem, pd, kernelEnd) {
      if Harmless(p', pd, kernelEnd, j) {
        forall q | Variant(p', q, pd) ensures CloneVia(q, pd, kernelEnd) == Clone(q, pd, kernelEnd) {
          VariantIsAstray(p', q, pd, kernelEnd, j, f);
          HarmlessIsRight(q, pd, kernelEnd, j, f);
        }
      } else if j == pd {
        DirectoryIsWrong(p', pd, kernelEnd, f);
      } else if HandsOut(p', pd, kernelEnd, j) {
        HandedOutIsWrong(p', pd, kernelEnd, j, f);
      } else {
        var i, l :| 0 <= i < SELF_MAP && 0 <= l < ENTRIES && Copied(p'.mem, pd, kernelEnd, i, l) && PageFrame(p'.mem, pd, i, l) == j;
        PageIsWrong(p', pd, kernelEnd, j, f, i, l);
      }
    }
  }

  lemma AstrayTables(p: Pool, pd: FrameNo, j: FrameNo, f: FrameNo)
    requires Astray(p, pd, j, f)
    ensures TablesInMemory(p.mem, pd)
  {
  }
}
