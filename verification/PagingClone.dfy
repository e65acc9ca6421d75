/** A cloned directory is an equal address space, isolated where it should be. */
module PagingClone {
  import opened Wrappers
  import opened PagingSpec

  /** `f` was taken from the stack between the two states. */
  predicate Drawn(p: Pool, p': Pool, f: int) {
    |p'.free| <= |p.free| && f in p.free[|p'.free|..]
  }

  /** Frames come off the end of the stack, and only they and frame `w` change. */
  ghost predicate Grows(p: Pool, p': Pool, w: FrameNo) {
    && |p'.free| <= |p.free| && p'.free == p.free[..|p'.free|] && p'.dev == p.dev
    && forall f: FrameNo | f != w && !Drawn(p, p', f) :: p'.mem[f] == p.mem[f]
  }

  lemma DrawnFacts(p: Pool, p': Pool, f: FrameNo)
    requires Distinct(p.free) && |p'.free| <= |p.free| && p'.free == p.free[..|p'.free|]
    ensures Distinct(p'.free)
    ensures Drawn(p, p', f) ==> f in p.free && f !in p'.free
    ensures f in p.free <==> f in p'.free || Drawn(p, p', f)
  {
    if f in p.free {
      var a :| 0 <= a < |p.free| && p.free[a] == f;
      if a >= |p'.free| { assert p.free[|p'.free|..][a - |p'.free|] == f; }
    }
    if Drawn(p, p', f) {
      var a :| 0 <= a < |p.free| - |p'.free| && p.free[|p'.free|..][a] == f;
      assert p.free[|p'.free| + a] == f;
    }
  }

  lemma GrowsOn(p: Pool, p1: Pool, p2: Pool, w: FrameNo)
    requires Distinct(p.free) && Grows(p, p1, w) && Grows(p1, p2, w)
    ensures Grows(p, p2, w)
    ensures forall f: FrameNo :: Drawn(p, p2, f) <==> Drawn(p, p1, f) || Drawn(p1, p2, f)
  {
    forall f: FrameNo ensures Drawn(p, p2, f) <==> Drawn(p, p1, f) || Drawn(p1, p2, f) {
      DrawnFacts(p, p1, f);
      DrawnFacts(p1, p2, f);
      DrawnFacts(p, p2, f);
    }
  }

  // ---------------------------------------------------------------- one table

  /** Same directory and same tables: the same user pages. */
  ghost predicate SameTables(m: Memory, m': Memory, pd: FrameNo) {
    && TablesInMemory(m, pd) && m'[pd] == m[pd]
    && forall i | 0 <= i < SELF_MAP && Present(m[pd][i]) :: m'[FrameOf(m[pd][i])] == m[FrameOf(m[pd][i])]
  }

  /** What is written, the free frames and frame `x`, is no part of the directory and its tables. */
  ghost predicate Anchored(p: Pool, pd: FrameNo, x: FrameNo) {
    && TablesInMemory(p.mem, pd) && SelfMapped(p.mem, pd) && pd !in p.free && pd != x
    && forall k | 0 <= k < SELF_MAP && Present(p.mem[pd][k]) :: FrameOf(p.mem[pd][k]) !in p.free && FrameOf(p.mem[pd][k]) != x
  }

  /** While the directory and its tables stay, copies are taken from where they were taken before. */
  lemma SourceSame(p: Pool, p': Pool, pd: FrameNo, f: nat)
    requires SameTables(p.mem, p'.mem, pd) && SelfMapped(p.mem, pd) && f < ENTRIES * ENTRIES
    ensures Source(p', pd, f) == Source(p, pd, f)
  {
  }

  lemma AnchoredStays(p: Pool, p': Pool, pd: FrameNo, x: FrameNo)
    requires Distinct(p.free) && Anchored(p, pd, x) && Grows(p, p', x)
    ensures SameTables(p.mem, p'.mem, pd) && Anchored(p', pd, x)
  {
    forall f: FrameNo | f !in p.free ensures !Drawn(p, p', f) { DrawnFacts(p, p', f); }
  }

  ghost predicate CopyReady(p: Pool, pd: FrameNo, old1: FrameNo, new1: FrameNo) {
    && Anchored(p, pd, new1) && Distinct(p.free) && new1 !in p.free && old1 !in p.free && old1 != new1
    && forall l | 0 <= l < ENTRIES && UserEntry(p.mem[old1][l]) :: FrameOf(p.mem[old1][l]) !in p.free && FrameOf(p.mem[old1][l]) != new1
  }

  /** What becomes of entry `e` in the copy: `before` is what stood there, `r` is what stands there. A copied
      page holds what its source held, if the source was neither free nor frame `x`. */
  ghost predicate EntryCopied(p: Pool, p': Pool, pd: FrameNo, x: FrameNo, i: nat, j: nat, kernelEnd: nat, e: u32, before: u32, r: u32) {
    if !Present(e) then r == before
    else if Keeps(i, j, e, kernelEnd) then r == e
    else
      var src := Source(p, pd, FrameOf(e));
      && src.Some? && Drawn(p, p', FrameOf(r)) && FrameOf(r) < FRAMES && Flags(r) == Flags(e) && Present(r)
      && (src.value !in p.free && src.value != x ==> p'.mem[FrameOf(r)] == Contents(p, src.value))
  }

  /** An entry copied from a later state is copied from an earlier one. */
  lemma CopiedEarlier(p: Pool, p1: Pool, p': Pool, pd: FrameNo, x: FrameNo, i: nat, j: nat, kernelEnd: nat, e: u32, before: u32, r: u32)
    requires Distinct(p.free) && Anchored(p, pd, x) && Grows(p, p1, x) && EntryCopied(p1, p', pd, x, i, j, kernelEnd, e, before, r)
    requires forall f: FrameNo :: Drawn(p1, p', f) ==> Drawn(p, p', f)
    ensures EntryCopied(p, p', pd, x, i, j, kernelEnd, e, before, r)
  {
    hide Keeps, Source;
    if Present(e) && !Keeps(i, j, e, kernelEnd) {
      AnchoredStays(p, p1, pd, x);
      SourceSame(p, p1, pd, FrameOf(e));
      var src := Source(p, pd, FrameOf(e)).value;
      FewerFree(p, p1, x);
      if src < FRAMES && src !in p.free { NotDrawn(p, p1, src); }
    }
  }

  lemma CopyOneFacts(p: Pool, pd: FrameNo, old1: FrameNo, new1: FrameNo, i: nat, kernelEnd: nat, j: nat)
    requires j < ENTRIES && CopyReady(p, pd, old1, new1) && CopyOne(p, pd, old1, new1, i, kernelEnd, j).Some?
    ensures var p1 := CopyOne(p, pd, old1, new1, i, kernelEnd, j).value;
      && CopyReady(p1, pd, old1, new1) && Grows(p, p1, new1) && p1.mem[old1] == p.mem[old1]
      && (forall l | 0 <= l < ENTRIES && l != j :: p1.mem[new1][l] == p.mem[new1][l])
      && EntryCopied(p, p1, pd, new1, i, j, kernelEnd, p.mem[old1][j], p.mem[new1][j], p1.mem[new1][j])
      && (forall l | 0 <= l < ENTRIES && UserEntry(p.mem[old1][l]) && FrameOf(p.mem[old1][l]) < FRAMES ::
            p1.mem[FrameOf(p.mem[old1][l])] == p.mem[FrameOf(p.mem[old1][l])])
  {
    var p1 := CopyOne(p, pd, old1, new1, i, kernelEnd, j).value;
    var e := p.mem[old1][j];
    if Present(e) && !Keeps(i, j, e, kernelEnd) {
      var n := |p.free| - 1;
      var f := p.free[n];
      assert p.free[n..] == [f];
      assert p1.free == p.free[..n];
      assert forall g :: g in p1.free ==> g in p.free;
    }
    AnchoredStays(p, p1, pd, new1);
  }

  lemma {:induction false} CopyTableGrows(p: Pool, pd: FrameNo, old1: FrameNo, new1: FrameNo, i: nat, kernelEnd: nat, j: nat)
    requires j <= ENTRIES && CopyReady(p, pd, old1, new1) && CopyTable(p, pd, old1, new1, i, kernelEnd, j).Some?
    ensures var p' := CopyTable(p, pd, old1, new1, i, kernelEnd, j).value; Grows(p, p', new1) && CopyReady(p', pd, old1, new1)
    decreases ENTRIES - j
  {
    hide CopyOne, CopyReady, Grows;
    if j < ENTRIES {
      var p1 := CopyOne(p, pd, old1, new1, i, kernelEnd, j).value;
      CopyOneFacts(p, pd, old1, new1, i, kernelEnd, j);
      CopyTableGrows(p1, pd, old1, new1, i, kernelEnd, j + 1);
      ReadyIsDistinct(p, pd, old1, new1);
      GrowsOn(p, p1, CopyTable(p1, pd, old1, new1, i, kernelEnd, j + 1).value, new1);
    } else {
      assert Grows(p, p, new1) by { GrowsNot(p, new1); }
    }
  }

  lemma ReadyIsDistinct(p: Pool, pd: FrameNo, old1: FrameNo, new1: FrameNo)
    requires CopyReady(p, pd, old1, new1)
    ensures Distinct(p.free)
  {
  }

  lemma GrowsNot(p: Pool, w: FrameNo)
    ensures Grows(p, p, w)
  {
  }

  /** Every entry of the copy. */
  lemma {:induction false} CopyTableAt(p: Pool, pd: FrameNo, old1: FrameNo, new1: FrameNo, i: nat, kernelEnd: nat, j: nat, k: nat)
    requires j <= ENTRIES && k < ENTRIES && CopyReady(p, pd, old1, new1) && CopyTable(p, pd, old1, new1, i, kernelEnd, j).Some?
    ensures var p' := CopyTable(p, pd, old1, new1, i, kernelEnd, j).value;
      if k < j then p'.mem[new1][k] == p.mem[new1][k]
      else EntryCopied(p, p', pd, new1, i, k, kernelEnd, p.mem[old1][k], p.mem[new1][k], p'.mem[new1][k])
    decreases ENTRIES - j
  {
    hide CopyOne, CopyReady;
    if j < ENTRIES {
      var p1 := CopyOne(p, pd, old1, new1, i, kernelEnd, j).value;
      CopyOneFacts(p, pd, old1, new1, i, kernelEnd, j);
      CopyTableAt(p1, pd, old1, new1, i, kernelEnd, j + 1, k);
      CopyTableGrows(p1, pd, old1, new1, i, kernelEnd, j + 1);
      var p' := CopyTable(p1, pd, old1, new1, i, kernelEnd, j + 1).value;
      ReadyIsDistinct(p, pd, old1, new1);
      GrowsOn(p, p1, p', new1);
      NewIsNotFree(p, pd, old1, new1);
      if k == j { DrawnStays(p, p1, p', new1, FrameOf(p1.mem[new1][k])); }
      if k > j { CopiedEarlier(p, p1, p', pd, new1, i, k, kernelEnd, p.mem[old1][k], p.mem[new1][k], p'.mem[new1][k]); }
    }
  }

  lemma NewIsNotFree(p: Pool, pd: FrameNo, old1: FrameNo, new1: FrameNo)
    requires CopyReady(p, pd, old1, new1)
    ensures new1 !in p.free && Anchored(p, pd, new1)
  {
  }

  lemma DrawnStays(p: Pool, p1: Pool, p': Pool, w: FrameNo, f: nat)
    requires Distinct(p.free) && Grows(p, p1, w) && Grows(p1, p', w)
    ensures f < FRAMES && Drawn(p, p1, f) && w !in p.free ==> p'.mem[f] == p1.mem[f]
  {
    if f < FRAMES && Drawn(p, p1, f) {
      DrawnFacts(p, p1, f);
      DrawnFacts(p1, p', f);
    }
  }

  /** No two entries of a copy get the same new frame. */
  lemma {:induction false} CopyTableDistinct(p: Pool, pd: FrameNo, old1: FrameNo, new1: FrameNo, i: nat, kernelEnd: nat,
        j: nat, k: nat, l: nat)
    requires j <= k < l < ENTRIES && CopyReady(p, pd, old1, new1) && CopyTable(p, pd, old1, new1, i, kernelEnd, j).Some?
    requires Present(p.mem[old1][k]) && !Keeps(i, k, p.mem[old1][k], kernelEnd)
    requires Present(p.mem[old1][l]) && !Keeps(i, l, p.mem[old1][l], kernelEnd)
    ensures var p' := CopyTable(p, pd, old1, new1, i, kernelEnd, j).value; FrameOf(p'.mem[new1][k]) != FrameOf(p'.mem[new1][l])
    decreases ENTRIES - j
  {
    hide CopyOne, CopyReady;
    var p1 := CopyOne(p, pd, old1, new1, i, kernelEnd, j).value;
    CopyOneFacts(p, pd, old1, new1, i, kernelEnd, j);
    if j < k {
      CopyTableDistinct(p1, pd, old1, new1, i, kernelEnd, j + 1, k, l);
    } else {
      CopyTableAt(p1, pd, old1, new1, i, kernelEnd, j + 1, k);
      CopyTableAt(p1, pd, old1, new1, i, kernelEnd, j + 1, l);
      CopyTableGrows(p1, pd, old1, new1, i, kernelEnd, j + 1);
      var p' := CopyTable(p1, pd, old1, new1, i, kernelEnd, j + 1).value;
      ReadyIsDistinct(p, pd, old1, new1);
      DrawnFacts(p, p1, FrameOf(p'.mem[new1][k]));
      DrawnFacts(p1, p', FrameOf(p'.mem[new1][l]));
    }
  }

  // ---------------------------------------------------------------- one directory entry

  /** The new directory is no part of the parent's address space. */
  ghost predicate CloneReady(p: Pool, pd: FrameNo, npd: FrameNo) {
    && Separate(p, pd) && npd !in p.free && npd != pd
    && (forall i | 0 <= i < SELF_MAP && Present(p.mem[pd][i]) :: FrameOf(p.mem[pd][i]) != npd)
    && (forall i, j | 0 <= i < SELF_MAP && 0 <= j < ENTRIES && UserPage(p.mem, pd, i, j) :: PageFrame(p.mem, pd, i, j) != npd)
  }

  lemma ReadyFacts(p: Pool, pd: FrameNo, npd: FrameNo)
    requires CloneReady(p, pd, npd)
    ensures Distinct(p.free) && TablesInMemory(p.mem, pd) && npd !in p.free
  {
  }

  lemma SameUserPages(m: Memory, m': Memory, pd: FrameNo)
    requires SameTables(m, m', pd)
    ensures TablesInMemory(m', pd)
    ensures forall i, j | 0 <= i < SELF_MAP && 0 <= j < ENTRIES ::
              && UserPage(m', pd, i, j) == UserPage(m, pd, i, j)
              && (Present(m[pd][i]) ==> PageFrame(m', pd, i, j) == PageFrame(m, pd, i, j))
  {
  }

  /** Drawing frames and writing them and the new directory leaves the parent alone. */
  lemma ParentSame(p: Pool, p': Pool, pd: FrameNo, npd: FrameNo)
    requires CloneReady(p, pd, npd) && Grows(p, p', npd)
    ensures CloneReady(p', pd, npd) && SameTables(p.mem, p'.mem, pd)
  {
    hide PageFrame, UserPage;
    forall f: FrameNo | f !in p.free ensures !Drawn(p, p', f) { DrawnFacts(p, p', f); }
    assert SameTables(p.mem, p'.mem, pd);
    SameUserPages(p.mem, p'.mem, pd);
    FewerFree(p, p', npd);
    SeparateStays(p, p', pd, npd);
  }

  lemma FewerFree(p: Pool, p': Pool, w: FrameNo)
    requires Grows(p, p', w)
    ensures forall f :: f in p'.free ==> f in p.free
    ensures forall a | 0 <= a < |p'.free| :: p'.free[a] == p.free[a]
  {
  }

  lemma SeparateStays(p: Pool, p': Pool, pd: FrameNo, npd: FrameNo)
    requires CloneReady(p, pd, npd) && SameTables(p.mem, p'.mem, pd) && |p'.free| <= |p.free|
    requires forall f :: f in p'.free ==> f in p.free
    requires forall a | 0 <= a < |p'.free| :: p'.free[a] == p.free[a]
    ensures CloneReady(p', pd, npd)
  {
    SameUserPages(p.mem, p'.mem, pd);
    forall i, j | 0 <= i < SELF_MAP && 0 <= j < ENTRIES && UserPage(p'.mem, pd, i, j)
      ensures PageFrame(p'.mem, pd, i, j) !in p'.free && PageFrame(p'.mem, pd, i, j) !in {pd as int, npd as int}
      ensures forall k | 0 <= k < SELF_MAP && Present(p'.mem[pd][k]) :: PageFrame(p'.mem, pd, i, j) != FrameOf(p'.mem[pd][k])
    {
      assert UserPage(p.mem, pd, i, j);
    }
  }

  lemma UserPageIsPresent(m: Memory, pd: FrameNo, i: nat, j: nat)
    requires i < SELF_MAP && j < ENTRIES && TablesInMemory(m, pd) && UserPage(m, pd, i, j)
    ensures Present(m[pd][i])
  {
  }

  /** The copied entries of a table lead to different frames. */
  ghost predicate FramesDiffer(p: Pool, p': Pool, i: nat, kernelEnd: nat, old1: FrameNo, new1: FrameNo) {
    forall j, k | 0 <= j < k < ENTRIES && Present(p.mem[old1][j]) && Present(p.mem[old1][k]) &&
        !Keeps(i, j, p.mem[old1][j], kernelEnd) && !Keeps(i, k, p.mem[old1][k], kernelEnd) ::
      FrameOf(p'.mem[new1][j]) != FrameOf(p'.mem[new1][k])
  }

  ghost predicate TableCopied(p: Pool, p': Pool, pd: FrameNo, x: FrameNo, i: nat, kernelEnd: nat, old1: FrameNo, new1: FrameNo) {
    && Drawn(p, p', new1) && FramesDiffer(p, p', i, kernelEnd, old1, new1)
    && (forall j | 0 <= j < ENTRIES && Present(p.mem[old1][j]) && !Keeps(i, j, p.mem[old1][j], kernelEnd) ::
          FrameOf(p'.mem[new1][j]) != new1)
    && forall j | 0 <= j < ENTRIES :: EntryCopied(p, p', pd, x, i, j, kernelEnd, p.mem[old1][j], 0, p'.mem[new1][j])
  }

  ghost predicate EntryCloned(p: Pool, p': Pool, pd: FrameNo, npd: FrameNo, i: nat, kernelEnd: nat)
    requires i < SELF_MAP && TablesInMemory(p.mem, pd)
  {
    var o, n := p.mem[pd][i], p'.mem[npd][i];
    if !Present(o) then n == 0
    else if !CopiesTable(p.mem, i, o, kernelEnd) then n == o
    else
      && FrameOf(n) < FRAMES && Flags(n) == Flags(o) && Present(n)
      && TableCopied(p, p', pd, npd, i, kernelEnd, FrameOf(o), FrameOf(n))
  }

  /** A copied table, from the drawing of its frame to its last entry. */
  lemma TableFacts(p: Pool, pd: FrameNo, x: FrameNo, old1: FrameNo, i: nat, kernelEnd: nat)
    requires Anchored(p, pd, x) && Distinct(p.free) && p.free != [] && old1 !in p.free
    requires forall l | 0 <= l < ENTRIES && UserEntry(p.mem[old1][l]) :: FrameOf(p.mem[old1][l]) !in p.free
    ensures var (t, p1) := Pop(p).value;
      CopyTable(WithWords(p1, t, Zeroed()), pd, old1, t, i, kernelEnd).Some? ==>
        var p2 := CopyTable(WithWords(p1, t, Zeroed()), pd, old1, t, i, kernelEnd).value;
        && TableCopied(p, p2, pd, x, i, kernelEnd, old1, t) && t in p.free && p2.dev == p.dev
        && |p2.free| <= |p.free| && p2.free == p.free[..|p2.free|]
        && forall f: FrameNo | !Drawn(p, p2, f) :: p2.mem[f] == p.mem[f]
  {
    hide CopyTable, EntryCopied;
    var n := |p.free| - 1;
    var (t, p1) := Pop(p).value;
    var q := WithWords(p1, t, Zeroed());
    assert forall f :: f in q.free ==> f in p.free;
    assert CopyReady(q, pd, old1, t);
    if CopyTable(q, pd, old1, t, i, kernelEnd).Some? {
      var p2 := CopyTable(q, pd, old1, t, i, kernelEnd).value;
      CopyTableGrows(q, pd, old1, t, i, kernelEnd, 0);
      assert p.free[n..] == [t] && Drawn(p, p1, t);
      assert Grows(p, q, t);
      GrowsOn(p, q, p2, t);
      forall j | 0 <= j < ENTRIES
        ensures EntryCopied(p, p2, pd, x, i, j, kernelEnd, p.mem[old1][j], 0, p2.mem[t][j])
        ensures Present(p.mem[old1][j]) && !Keeps(i, j, p.mem[old1][j], kernelEnd) ==> FrameOf(p2.mem[t][j]) != t
      {
        CopyTableAt(q, pd, old1, t, i, kernelEnd, 0, j);
        CopiedFrom(p, q, p2, pd, x, i, j, kernelEnd, old1, t);
      }
      forall j, k | 0 <= j < k < ENTRIES && Present(p.mem[old1][j]) && Present(p.mem[old1][k]) &&
          !Keeps(i, j, p.mem[old1][j], kernelEnd) && !Keeps(i, k, p.mem[old1][k], kernelEnd)
        ensures FrameOf(p2.mem[t][j]) != FrameOf(p2.mem[t][k])
      {
        CopyTableDistinct(q, pd, old1, t, i, kernelEnd, 0, j, k);
      }
    }
  }

  lemma CopiedFrom(p: Pool, q: Pool, p2: Pool, pd: FrameNo, x: FrameNo, i: nat, j: nat, kernelEnd: nat, old1: FrameNo, t: FrameNo)
    requires j < ENTRIES && q.mem[old1] == p.mem[old1] && q.mem[t][j] == 0 && t in p.free && Anchored(p, pd, x) && q.dev == p.dev
    requires forall f: FrameNo :: Drawn(q, p2, f) ==> Drawn(p, p2, f)
    requires forall f: FrameNo | f != t :: q.mem[f] == p.mem[f]
    requires t !in q.free && (forall f :: f in q.free ==> f in p.free) && |p2.free| <= |q.free|
    requires EntryCopied(q, p2, pd, t, i, j, kernelEnd, q.mem[old1][j], q.mem[t][j], p2.mem[t][j])
    ensures EntryCopied(p, p2, pd, x, i, j, kernelEnd, p.mem[old1][j], 0, p2.mem[t][j])
    ensures Present(p.mem[old1][j]) && !Keeps(i, j, p.mem[old1][j], kernelEnd) ==> FrameOf(p2.mem[t][j]) != t
  {
    hide Keeps, Source;
    assert forall f :: Drawn(q, p2, f) ==> f in q.free;
    SourceSame(p, q, pd, FrameOf(p.mem[old1][j]));
  }

  lemma CloneEntryFacts(p: Pool, pd: FrameNo, npd: FrameNo, i: nat, kernelEnd: nat)
    requires CloneReady(p, pd, npd) && i < SELF_MAP && CloneEntry(p, pd, npd, i, kernelEnd).Some?
    ensures var p1 := CloneEntry(p, pd, npd, i, kernelEnd).value;
      && Grows(p, p1, npd) && EntryCloned(p, p1, pd, npd, i, kernelEnd)
      && forall k | 0 <= k < ENTRIES && k != i :: p1.mem[npd][k] == p.mem[npd][k]
  {
    hide CopyTable, EntryCopied, FramesDiffer;
    var p1, pde := CloneEntry(p, pd, npd, i, kernelEnd).value, p.mem[pd][i];
    ReadyFacts(p, pd, npd);
    if Present(pde) && CopiesTable(p.mem, i, pde, kernelEnd) {
      forall l | 0 <= l < ENTRIES && UserEntry(p.mem[FrameOf(pde)][l]) ensures FrameOf(p.mem[FrameOf(pde)][l]) !in p.free {
        assert UserPage(p.mem, pd, i, l);
      }
      ReadyIsAnchored(p, pd, npd);
      TableFacts(p, pd, npd, FrameOf(pde), i, kernelEnd);
      var (t, q) := Pop(p).value;
      var p2 := CopyTable(WithWords(q, t, Zeroed()), pd, FrameOf(pde), t, i, kernelEnd).value;
      NotDrawn(p, p2, npd);
      TableKept(p, p2, p1, pd, npd, i, kernelEnd, FrameOf(pde), t);
    } else {
      assert p1.free == p.free[..|p1.free|];
    }
  }

  lemma ReadyIsAnchored(p: Pool, pd: FrameNo, npd: FrameNo)
    requires CloneReady(p, pd, npd)
    ensures Anchored(p, pd, npd)
  {
  }

  lemma NotDrawn(p: Pool, p': Pool, f: FrameNo)
    requires Distinct(p.free) && |p'.free| <= |p.free| && p'.free == p.free[..|p'.free|] && f !in p.free
    ensures !Drawn(p, p', f)
  {
    DrawnFacts(p, p', f);
  }

  /** What was copied stays copied while later frames are drawn. */
  lemma TableKept(p: Pool, p1: Pool, p2: Pool, pd: FrameNo, npd: FrameNo, i: nat, kernelEnd: nat, old1: FrameNo, new1: FrameNo)
    requires Distinct(p.free) && npd !in p.free && TableCopied(p, p1, pd, npd, i, kernelEnd, old1, new1)
    requires |p1.free| <= |p.free| && p1.free == p.free[..|p1.free|] && Grows(p1, p2, npd)
    ensures TableCopied(p, p2, pd, npd, i, kernelEnd, old1, new1)
  {
    forall f: FrameNo | Drawn(p, p1, f) ensures Drawn(p, p2, f) && p2.mem[f] == p1.mem[f] {
      DrawnFacts(p, p1, f);
      DrawnFacts(p1, p2, f);
      DrawnFacts(p, p2, f);
    }
    forall j | 0 <= j < ENTRIES ensures EntryCopied(p, p2, pd, npd, i, j, kernelEnd, p.mem[old1][j], 0, p2.mem[new1][j]) {
      assert EntryCopied(p, p1, pd, npd, i, j, kernelEnd, p.mem[old1][j], 0, p1.mem[new1][j]);
    }
  }

  // ---------------------------------------------------------------- the whole directory

  lemma EntryKept(p: Pool, p1: Pool, p2: Pool, pd: FrameNo, npd: FrameNo, i: nat, kernelEnd: nat)
    requires CloneReady(p, pd, npd) && i < SELF_MAP && Grows(p, p1, npd) && Grows(p1, p2, npd)
    requires TablesInMemory(p.mem, pd) && EntryCloned(p, p1, pd, npd, i, kernelEnd) && p2.mem[npd][i] == p1.mem[npd][i]
    ensures EntryCloned(p, p2, pd, npd, i, kernelEnd)
  {
    hide TableCopied;
    if Present(p.mem[pd][i]) && CopiesTable(p.mem, i, p.mem[pd][i], kernelEnd) {
      TableKept(p, p1, p2, pd, npd, i, kernelEnd, FrameOf(p.mem[pd][i]), FrameOf(p1.mem[npd][i]));
    }
  }

  /** An entry cloned from a later state is cloned from an earlier one. */
  lemma EntryEarlier(p: Pool, p1: Pool, p2: Pool, pd: FrameNo, npd: FrameNo, i: nat, kernelEnd: nat)
    requires CloneReady(p, pd, npd) && i < SELF_MAP && Grows(p, p1, npd) && Grows(p1, p2, npd)
    requires TablesInMemory(p.mem, pd) && TablesInMemory(p1.mem, pd) && EntryCloned(p1, p2, pd, npd, i, kernelEnd)
    ensures EntryCloned(p, p2, pd, npd, i, kernelEnd)
  {
    ParentSame(p, p1, pd, npd);
    GrowsOn(p, p1, p2, npd);
    var o := p.mem[pd][i];
    if Present(o) && CopiesTable(p.mem, i, o, kernelEnd) {
      var old1, new1 := FrameOf(o), FrameOf(p2.mem[npd][i]);
      assert p1.mem[old1] == p.mem[old1];
      ReadyIsAnchored(p, pd, npd);
      forall j | 0 <= j < ENTRIES ensures EntryCopied(p, p2, pd, npd, i, j, kernelEnd, p.mem[old1][j], 0, p2.mem[new1][j]) {
        assert EntryCopied(p1, p2, pd, npd, i, j, kernelEnd, p1.mem[old1][j], 0, p2.mem[new1][j]);
        CopiedEarlier(p, p1, p2, pd, npd, i, j, kernelEnd, p.mem[old1][j], 0, p2.mem[new1][j]);
      }
    }
  }

  lemma {:induction false} CloneFromAt(p: Pool, pd: FrameNo, npd: FrameNo, kernelEnd: nat, i: nat, k: nat)
    requires i <= SELF_MAP && k < SELF_MAP && CloneReady(p, pd, npd) && CloneFrom(p, pd, npd, kernelEnd, i).Some?
    ensures TablesInMemory(p.mem, pd)
    ensures var p' := CloneFrom(p, pd, npd, kernelEnd, i).value;
      && Grows(p, p', npd) && p'.mem[npd][SELF_MAP] == p.mem[npd][SELF_MAP]
      && if k < i then p'.mem[npd][k] == p.mem[npd][k] else EntryCloned(p, p', pd, npd, k, kernelEnd)
    decreases SELF_MAP - i
  {
    hide CloneEntry, EntryCloned, CloneReady, Grows;
    ReadyFacts(p, pd, npd);
    if i == SELF_MAP {
      GrowsNot(p, npd);
    } else {
      var p1 := CloneEntry(p, pd, npd, i, kernelEnd).value;
      CloneEntryFacts(p, pd, npd, i, kernelEnd);
      ParentSame(p, p1, pd, npd);
      CloneFromAt(p1, pd, npd, kernelEnd, i + 1, k);
      var p' := CloneFrom(p1, pd, npd, kernelEnd, i + 1).value;
      GrowsOn(p, p1, p', npd);
      if k == i { EntryKept(p, p1, p', pd, npd, k, kernelEnd); }
      if k > i { EntryEarlier(p, p1, p', pd, npd, k, kernelEnd); }
    }
  }

  /** The state in which entry `i` has just been cloned: frames for earlier entries are drawn before
      it, frames for later entries after it. */
  lemma {:induction false} CloneFromSplit(p: Pool, pd: FrameNo, npd: FrameNo, kernelEnd: nat, s: nat, i: nat, k: nat) returns (q: Pool)
    requires s <= i < k < SELF_MAP && CloneReady(p, pd, npd) && CloneFrom(p, pd, npd, kernelEnd, s).Some?
    ensures var p' := CloneFrom(p, pd, npd, kernelEnd, s).value;
      && Grows(p, q, npd) && Grows(q, p', npd) && CloneReady(q, pd, npd) && TablesInMemory(p.mem, pd) && TablesInMemory(q.mem, pd)
      && EntryCloned(p, q, pd, npd, i, kernelEnd) && p'.mem[npd][i] == q.mem[npd][i]
      && EntryCloned(q, p', pd, npd, k, kernelEnd)
    decreases SELF_MAP - s
  {
    hide CloneEntry, EntryCloned, CloneReady, Grows;
    var p1 := CloneEntry(p, pd, npd, s, kernelEnd).value;
    CloneEntryFacts(p, pd, npd, s, kernelEnd);
    ParentSame(p, p1, pd, npd);
    ReadyFacts(p, pd, npd);
    ReadyFacts(p1, pd, npd);
    var p' := CloneFrom(p1, pd, npd, kernelEnd, s + 1).value;
    if s < i {
      q := CloneFromSplit(p1, pd, npd, kernelEnd, s + 1, i, k);
      GrowsOn(p, p1, q, npd);
      EntryEarlier(p, p1, q, pd, npd, i, kernelEnd);
    } else {
      q := p1;
      CloneFromAt(p1, pd, npd, kernelEnd, s + 1, i);
      CloneFromAt(p1, pd, npd, kernelEnd, s + 1, k);
    }
  }

  lemma GrowsShape(p: Pool, p': Pool, w: FrameNo)
    requires Grows(p, p', w)
    ensures |p'.free| <= |p.free| && p'.free == p.free[..|p'.free|]
  {
  }

  /** A page is copied only in a table that is copied, and there it does not keep its frame. */
  lemma CopiedMeans(m: Memory, pd: FrameNo, kernelEnd: nat, i: nat, j: nat)
    requires i < SELF_MAP && j < ENTRIES && TablesInMemory(m, pd) && Present(m[pd][i])
    requires var pte := m[FrameOf(m[pd][i])][j]; Present(pte)
    ensures Copied(m, pd, kernelEnd, i, j) <==>
      CopiesTable(m, i, m[pd][i], kernelEnd) && !Keeps(i, j, m[FrameOf(m[pd][i])][j], kernelEnd)
  {
    assert i >= 2 ==> Vaddr(i, j) >= IDENTITY_END;
  }

  lemma CopiedIsDrawn(p: Pool, p': Pool, pd: FrameNo, npd: FrameNo, kernelEnd: nat, i: nat, j: nat)
    requires i < SELF_MAP && j < ENTRIES && TablesInMemory(p.mem, pd) && EntryCloned(p, p', pd, npd, i, kernelEnd)
    requires Copied(p.mem, pd, kernelEnd, i, j)
    ensures FrameOf(p'.mem[npd][i]) < FRAMES && Drawn(p, p', FrameOf(p'.mem[npd][i]))
    ensures var f := FrameOf(p'.mem[FrameOf(p'.mem[npd][i])][j]); f < FRAMES && Drawn(p, p', f)
  {
    hide Keeps, HasUserPage;
    CopiedMeans(p.mem, pd, kernelEnd, i, j);
  }
}
