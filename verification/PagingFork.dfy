/** What a fork may rely on: the child's address space equals the parent's, the parent's is untouched,
    and what either side writes to a copied page stays invisible to the other. */
module PagingFork {
  import opened Wrappers
  import opened PagingSpec
  import opened PagingClone

  function NewDir(p: Pool, pd: FrameNo, kernelEnd: nat): FrameNo
    requires Clone(p, pd, kernelEnd).Some?
  {
    Clone(p, pd, kernelEnd).value.0
  }

  function After(p: Pool, pd: FrameNo, kernelEnd: nat): Pool
    requires Clone(p, pd, kernelEnd).Some?
  {
    Clone(p, pd, kernelEnd).value.1
  }

  // ---------------------------------------------------------------- the stages of a clone

  lemma Started(p: Pool, pd: FrameNo)
    requires Separate(p, pd) && Pop(p).Some?
    ensures var (npd, p1) := Pop(p).value;
      && CloneReady(p1, pd, npd) && p1.mem == p.mem && Drawn(p, p1, npd) && Grows(p, p1, npd) && npd in p.free
      && forall f: FrameNo :: Drawn(p, p1, f) <==> f == npd
  {
    var n := |p.free| - 1;
    var (npd, p1) := Pop(p).value;
    assert p.free[n..] == [npd];
    assert forall f :: f in p1.free ==> f in p.free;
    assert UserPagesAre(p.mem, pd, p.free);
  }

  ghost predicate UserPagesAre(m: Memory, pd: FrameNo, free: seq<FrameNo>)
    requires TablesInMemory(m, pd)
  {
    forall i, j | 0 <= i < SELF_MAP && 0 <= j < ENTRIES && UserPage(m, pd, i, j) :: PageFrame(m, pd, i, j) !in free
  }

  /** The state of a finished clone, seen from its start. */
  lemma Finished(p: Pool, pd: FrameNo, kernelEnd: nat, k: nat)
    requires Separate(p, pd) && Clone(p, pd, kernelEnd).Some? && k < SELF_MAP
    ensures var p', npd := After(p, pd, kernelEnd), NewDir(p, pd, kernelEnd);
      && TablesInMemory(p.mem, pd) && Grows(p, p', npd) && Drawn(p, p', npd) && npd in p.free
      && EntryCloned(p, p', pd, npd, k, kernelEnd)
  {
    hide CloneFrom, EntryCloned, CloneReady, Separate, Grows;
    var (npd, p1) := Pop(p).value;
    Started(p, pd);
    ReadyFacts(p1, pd, npd);
    var p2 := CloneFrom(p1, pd, npd, kernelEnd).value;
    CloneFromAt(p1, pd, npd, kernelEnd, 0, k);
    SeparateIsDistinct(p, pd);
    GrowsOn(p, p1, p2, npd);
    var p' := After(p, pd, kernelEnd);
    LastPoke(p, p2, p', npd);
    EntryFromStart(p, p1, p2, p', pd, npd, k, kernelEnd);
  }

  lemma SeparateIsDistinct(p: Pool, pd: FrameNo)
    requires Separate(p, pd)
    ensures Distinct(p.free) && TablesInMemory(p.mem, pd)
  {
  }

  lemma LastPoke(p: Pool, p2: Pool, p': Pool, npd: FrameNo)
    requires Grows(p, p2, npd) && p'.free == p2.free && p'.dev == p2.dev && forall f: FrameNo | f != npd :: p'.mem[f] == p2.mem[f]
    ensures Grows(p, p', npd) && Grows(p2, p', npd) && forall f: FrameNo :: Drawn(p, p2, f) ==> Drawn(p, p', f)
  {
  }

  lemma EntryFromStart(p: Pool, p1: Pool, p2: Pool, p': Pool, pd: FrameNo, npd: FrameNo, k: nat, kernelEnd: nat)
    requires k < SELF_MAP && CloneReady(p1, pd, npd) && p1.mem == p.mem && p1.dev == p.dev && TablesInMemory(p.mem, pd)
    requires Grows(p1, p2, npd) && Grows(p2, p', npd) && p'.mem[npd][k] == p2.mem[npd][k] && p'.free == p2.free
    requires forall f: FrameNo :: Drawn(p1, p2, f) ==> Drawn(p, p', f)
    requires (forall f :: f in p1.free ==> f in p.free) && npd in p.free
    requires EntryCloned(p1, p2, pd, npd, k, kernelEnd)
    ensures EntryCloned(p, p', pd, npd, k, kernelEnd)
  {
    hide CopiesTable;
    EntryKept(p1, p2, p', pd, npd, k, kernelEnd);
    var o := p.mem[pd][k];
    if Present(o) && CopiesTable(p.mem, k, o, kernelEnd) {
      var old1, new1 := FrameOf(o), FrameOf(p'.mem[npd][k]);
      forall j | 0 <= j < ENTRIES ensures EntryCopied(p, p', pd, npd, k, j, kernelEnd, p.mem[old1][j], 0, p'.mem[new1][j]) {
        assert EntryCopied(p1, p', pd, npd, k, j, kernelEnd, p1.mem[old1][j], 0, p'.mem[new1][j]);
        FromStart(p, p1, p', pd, npd, k, j, kernelEnd, p.mem[old1][j], p'.mem[new1][j]);
      }
    }
  }

  lemma FromStart(p: Pool, p1: Pool, p': Pool, pd: FrameNo, npd: FrameNo, i: nat, j: nat, kernelEnd: nat, e: u32, r: u32)
    requires p1.mem == p.mem && p1.dev == p.dev && (forall f :: f in p1.free ==> f in p.free) && npd in p.free
    requires forall f: FrameNo :: Drawn(p1, p', f) ==> Drawn(p, p', f)
    requires EntryCopied(p1, p', pd, npd, i, j, kernelEnd, e, 0, r)
    ensures EntryCopied(p, p', pd, npd, i, j, kernelEnd, e, 0, r)
  {
    hide Keeps;
  }

  // ---------------------------------------------------------------- the theorems

  /** The parent's directory, tables and user pages, and every frame that was not free, are as before. */
  lemma ParentUntouched(p: Pool, pd: FrameNo, kernelEnd: nat)
    requires Separate(p, pd) && Clone(p, pd, kernelEnd).Some?
    ensures var p' := After(p, pd, kernelEnd);
      && (forall f: FrameNo | f !in p.free :: p'.mem[f] == p.mem[f])
      && SameTables(p.mem, p'.mem, pd) && Separate(p', pd)
      && (forall i, j | 0 <= i < SELF_MAP && 0 <= j < ENTRIES && UserPage(p.mem, pd, i, j) && PageFrame(p.mem, pd, i, j) < FRAMES ::
            p'.mem[PageFrame(p.mem, pd, i, j)] == p.mem[PageFrame(p.mem, pd, i, j)])
  {
    hide CloneFrom, EntryCloned, UserPage, PageFrame;
    var p', npd := After(p, pd, kernelEnd), NewDir(p, pd, kernelEnd);
    Finished(p, pd, kernelEnd, 0);
    SeparateIsDistinct(p, pd);
    forall f: FrameNo | f !in p.free ensures p'.mem[f] == p.mem[f] { NotDrawn(p, p', f); }
    assert SameTables(p.mem, p'.mem, pd);
    var (_, p1) := Pop(p).value;
    Started(p, pd);
    FewerFree(p, p', npd);
    SeparateStays(p1, p', pd, npd);
  }

  /** Parent and child agree, page by page, on presence, flags and contents; the copied pages have
      frames that were free, all other pages have the parent's frame. */
  lemma ChildMapsSame(p: Pool, pd: FrameNo, kernelEnd: nat, i: nat, j: nat)
    requires Separate(p, pd) && Clone(p, pd, kernelEnd).Some? && i < SELF_MAP && j < ENTRIES
    ensures var p', npd := After(p, pd, kernelEnd), NewDir(p, pd, kernelEnd);
      && (Present(p'.mem[npd][i]) ==> FrameOf(p'.mem[npd][i]) < FRAMES)
      && var (w, w') := (Walk(p.mem, pd, i, j), Walk(p'.mem, npd, i, j));
      && (w.Unmapped? <==> w'.Unmapped?)
      && (w.Mapped? ==>
           && w'.tableFlags == w.tableFlags && w'.pageFlags == w.pageFlags
           && if Copied(p.mem, pd, kernelEnd, i, j) then
                && w.frame < ENTRIES * ENTRIES && Source(p, pd, w.frame).Some? && w'.frame < FRAMES && w'.frame in p.free
                && var src := Source(p, pd, w.frame).value;
                (src !in p.free ==> p'.mem[w'.frame] == Contents(p, src)) && (w.frame < FRAMES ==> p'.mem[w'.frame] == p.mem[w.frame])
              else w'.frame == w.frame)
  {
    hide CloneFrom, Keeps, CopiesTable, Separate, HasUserPage;
    var p', npd := After(p, pd, kernelEnd), NewDir(p, pd, kernelEnd);
    Finished(p, pd, kernelEnd, i);
    SeparateIsDistinct(p, pd);
    var o := p.mem[pd][i];
    if Present(o) {
      if CopiesTable(p.mem, i, o, kernelEnd) {
        var old1, new1 := FrameOf(o), FrameOf(p'.mem[npd][i]);
        assert EntryCopied(p, p', pd, npd, i, j, kernelEnd, p.mem[old1][j], 0, p'.mem[new1][j]);
        if Present(p.mem[old1][j]) {
          CopiedMeans(p.mem, pd, kernelEnd, i, j);
          if Copied(p.mem, pd, kernelEnd, i, j) {
            DrawnFacts(p, p', FrameOf(p'.mem[new1][j]));
            CopiedIsNotFree(p, pd, kernelEnd, i, j);
          }
        }
      } else {
        SharedTable(p, p', pd, npd, i);
        if Present(p.mem[FrameOf(o)][j]) { CopiedMeans(p.mem, pd, kernelEnd, i, j); }
      }
    }
  }

  lemma CopiedIsNotFree(p: Pool, pd: FrameNo, kernelEnd: nat, i: nat, j: nat)
    requires Separate(p, pd) && i < SELF_MAP && j < ENTRIES && TablesInMemory(p.mem, pd) && Copied(p.mem, pd, kernelEnd, i, j)
    ensures FrameOf(p.mem[FrameOf(p.mem[pd][i])][j]) !in p.free
  {
    assert UserPage(p.mem, pd, i, j);
  }

  lemma SharedTable(p: Pool, p': Pool, pd: FrameNo, npd: FrameNo, i: nat)
    requires Separate(p, pd) && Grows(p, p', npd) && npd in p.free && i < SELF_MAP && Present(p.mem[pd][i])
    ensures FrameOf(p.mem[pd][i]) < FRAMES && p'.mem[FrameOf(p.mem[pd][i])] == p.mem[FrameOf(p.mem[pd][i])]
  {
    NotDrawn(p, p', FrameOf(p.mem[pd][i]));
  }

  /** The frame behind entry `j` of table `i`. */
  function Behind(m: Memory, pd: FrameNo, i: nat, j: nat): nat
    requires i < SELF_MAP && j < ENTRIES
  {
    if FrameOf(m[pd][i]) < FRAMES then FrameOf(m[FrameOf(m[pd][i])][j]) else FRAMES
  }

  /** Copied pages, and the tables and the directory that lead to them, all have different frames. */
  lemma CopiesDiffer(p: Pool, pd: FrameNo, kernelEnd: nat, i: nat, j: nat, k: nat, l: nat)
    requires Separate(p, pd) && Clone(p, pd, kernelEnd).Some? && i < SELF_MAP && j < ENTRIES && k < SELF_MAP && l < ENTRIES
    requires Copied(p.mem, pd, kernelEnd, i, j) && Copied(p.mem, pd, kernelEnd, k, l)
    ensures var p', npd := After(p, pd, kernelEnd), NewDir(p, pd, kernelEnd);
      var (s, t) := (FrameOf(p'.mem[npd][i]), FrameOf(p'.mem[npd][k]));
      && s < FRAMES && t < FRAMES
      && ((i, j) != (k, l) ==> Behind(p'.mem, npd, i, j) != Behind(p'.mem, npd, k, l))
      && Behind(p'.mem, npd, i, j) != t && Behind(p'.mem, npd, i, j) != npd && (i != k ==> s != t)
  {
    hide CloneFrom, Keeps, CopiesTable, Separate, HasUserPage, EntryCloned, CloneReady, Grows;
    if i == k {
      SameTableDiffers(p, pd, kernelEnd, i, j, l);
    } else if i < k {
      LaterDiffers(p, pd, kernelEnd, i, j, k, l);
    } else {
      LaterDiffers(p, pd, kernelEnd, k, l, i, j);
    }
  }

  lemma NotTheDirectory(p: Pool, pd: FrameNo, kernelEnd: nat, i: nat, j: nat)
    requires Separate(p, pd) && Clone(p, pd, kernelEnd).Some? && i < SELF_MAP && j < ENTRIES
    requires Copied(p.mem, pd, kernelEnd, i, j)
    ensures var p', npd := After(p, pd, kernelEnd), NewDir(p, pd, kernelEnd);
      var s := FrameOf(p'.mem[npd][i]);
      && s < FRAMES && s != npd && FrameOf(p'.mem[s][j]) != npd && s in p.free && FrameOf(p'.mem[s][j]) in p.free
  {
    hide CloneFrom, Separate, EntryCloned, CloneReady, Grows;
    var (npd, p1) := Pop(p).value;
    Started(p, pd);
    ReadyFacts(p1, pd, npd);
    SeparateIsDistinct(p, pd);
    var p2 := CloneFrom(p1, pd, npd, kernelEnd).value;
    CloneFromAt(p1, pd, npd, kernelEnd, 0, i);
    CopiedIsDrawn(p1, p2, pd, npd, kernelEnd, i, j);
    GrowsShape(p1, p2, npd);
    var s := FrameOf(p2.mem[npd][i]);
    DrawnFacts(p1, p2, s);
    DrawnFacts(p1, p2, FrameOf(p2.mem[s][j]));
    GrowsShape(p, p1, npd);
    DrawnFacts(p, p1, s);
    DrawnFacts(p, p1, FrameOf(p2.mem[s][j]));
  }

  lemma SameTableDiffers(p: Pool, pd: FrameNo, kernelEnd: nat, i: nat, j: nat, l: nat)
    requires Separate(p, pd) && Clone(p, pd, kernelEnd).Some? && i < SELF_MAP && j < ENTRIES && l < ENTRIES
    requires Copied(p.mem, pd, kernelEnd, i, j) && Copied(p.mem, pd, kernelEnd, i, l)
    ensures var p', npd := After(p, pd, kernelEnd), NewDir(p, pd, kernelEnd);
      var s := FrameOf(p'.mem[npd][i]);
      && s < FRAMES && FrameOf(p'.mem[s][j]) != s && FrameOf(p'.mem[s][j]) != npd
      && (j != l ==> FrameOf(p'.mem[s][j]) != FrameOf(p'.mem[s][l]))
  {
    hide CloneFrom, Separate, CloneReady, Grows, Keeps, CopiesTable, Copied, EntryCopied;
    Finished(p, pd, kernelEnd, i);
    NotTheDirectory(p, pd, kernelEnd, i, j);
    CopiedIsPresent(p.mem, pd, kernelEnd, i, j);
    CopiedIsPresent(p.mem, pd, kernelEnd, i, l);
    CopiedMeans(p.mem, pd, kernelEnd, i, j);
    CopiedMeans(p.mem, pd, kernelEnd, i, l);
  }

  lemma CopiedIsPresent(m: Memory, pd: FrameNo, kernelEnd: nat, i: nat, j: nat)
    requires i < SELF_MAP && j < ENTRIES && TablesInMemory(m, pd) && Copied(m, pd, kernelEnd, i, j)
    ensures Present(m[pd][i]) && Present(m[FrameOf(m[pd][i])][j]) && UserPage(m, pd, i, j)
  {
  }

  lemma LaterDiffers(p: Pool, pd: FrameNo, kernelEnd: nat, i: nat, j: nat, k: nat, l: nat)
    requires Separate(p, pd) && Clone(p, pd, kernelEnd).Some? && i < k < SELF_MAP && j < ENTRIES && l < ENTRIES
    requires Copied(p.mem, pd, kernelEnd, i, j) && Copied(p.mem, pd, kernelEnd, k, l)
    ensures var p', npd := After(p, pd, kernelEnd), NewDir(p, pd, kernelEnd);
      var (s, t) := (FrameOf(p'.mem[npd][i]), FrameOf(p'.mem[npd][k]));
      && s < FRAMES && t < FRAMES && s != t && FrameOf(p'.mem[s][j]) != FrameOf(p'.mem[t][l])
      && FrameOf(p'.mem[s][j]) != t && FrameOf(p'.mem[t][l]) != s && FrameOf(p'.mem[s][j]) != npd && FrameOf(p'.mem[t][l]) != npd
  {
    hide CloneFrom, Separate, EntryCloned, CloneReady, Copied;
    NotTheDirectory(p, pd, kernelEnd, i, j);
    NotTheDirectory(p, pd, kernelEnd, k, l);
    var (npd, p1) := Pop(p).value;
    Started(p, pd);
    ReadyFacts(p1, pd, npd);
    var p2 := CloneFrom(p1, pd, npd, kernelEnd).value;
    var q := CloneFromSplit(p1, pd, npd, kernelEnd, 0, i, k);
    CopiedIsDrawn(p1, q, pd, npd, kernelEnd, i, j);
    var s := FrameOf(q.mem[npd][i]);
    DrawnFacts(p1, q, s);
    DrawnFacts(q, p2, s);
    DrawnFacts(p1, q, FrameOf(q.mem[s][j]));
    StillCopied(p1, q, pd, npd, kernelEnd, k, l);
    CopiedIsDrawn(q, p2, pd, npd, kernelEnd, k, l);
    var t := FrameOf(p2.mem[npd][k]);
    DrawnFacts(q, p2, t);
    DrawnFacts(q, p2, FrameOf(p2.mem[t][l]));
  }

  lemma StillCopied(p: Pool, q: Pool, pd: FrameNo, npd: FrameNo, kernelEnd: nat, k: nat, l: nat)
    requires CloneReady(p, pd, npd) && Grows(p, q, npd) && TablesInMemory(p.mem, pd) && TablesInMemory(q.mem, pd)
    requires k < SELF_MAP && l < ENTRIES && Copied(p.mem, pd, kernelEnd, k, l)
    ensures Copied(q.mem, pd, kernelEnd, k, l)
  {
    ParentSame(p, q, pd, npd);
  }

  // ---------------------------------------------------------------- the child can be cloned again

  predicate TableIsCopied(m: Memory, pd: FrameNo, kernelEnd: nat, i: nat)
    requires i < SELF_MAP && TablesInMemory(m, pd)
  {
    Present(m[pd][i]) && CopiesTable(m, i, m[pd][i], kernelEnd)
  }

  lemma TableIsDrawn(p: Pool, p': Pool, pd: FrameNo, npd: FrameNo, kernelEnd: nat, i: nat)
    requires i < SELF_MAP && TablesInMemory(p.mem, pd) && EntryCloned(p, p', pd, npd, i, kernelEnd)
    ensures Present(p'.mem[npd][i]) <==> Present(p.mem[pd][i])
    ensures Present(p.mem[pd][i]) ==> FrameOf(p'.mem[npd][i]) < FRAMES
    ensures TableIsCopied(p.mem, pd, kernelEnd, i) ==> Drawn(p, p', FrameOf(p'.mem[npd][i]))
    ensures !TableIsCopied(p.mem, pd, kernelEnd, i) && Present(p.mem[pd][i]) ==> p'.mem[npd][i] == p.mem[pd][i]
  {
    hide CopiesTable;
  }

  lemma ChildTable(p: Pool, pd: FrameNo, kernelEnd: nat, i: nat)
    requires Separate(p, pd) && Clone(p, pd, kernelEnd).Some? && i < SELF_MAP
    ensures var p', npd := After(p, pd, kernelEnd), NewDir(p, pd, kernelEnd);
      var n := p'.mem[npd][i];
      && (Present(n) <==> Present(p.mem[pd][i]))
      && (Present(n) ==>
           && FrameOf(n) < FRAMES && FrameOf(n) !in p'.free && FrameOf(n) != npd
           && if TableIsCopied(p.mem, pd, kernelEnd, i) then FrameOf(n) in p.free else n == p.mem[pd][i] && FrameOf(n) !in p.free)
  {
    hide CloneFrom, EntryCloned, CloneReady, Grows, CopiesTable;
    var (npd, p1) := Pop(p).value;
    Started(p, pd);
    ReadyFacts(p1, pd, npd);
    var p2 := CloneFrom(p1, pd, npd, kernelEnd).value;
    CloneFromAt(p1, pd, npd, kernelEnd, 0, i);
    TableIsDrawn(p1, p2, pd, npd, kernelEnd, i);
    GrowsShape(p1, p2, npd);
    GrowsShape(p, p1, npd);
    if Present(p.mem[pd][i]) {
      var s := FrameOf(p2.mem[npd][i]);
      DrawnFacts(p1, p2, s);
      DrawnFacts(p, p1, s);
    }
  }

  /** A copied page is no copied table. */
  lemma PageIsNoTable(p: Pool, pd: FrameNo, kernelEnd: nat, i: nat, j: nat, k: nat)
    requires Separate(p, pd) && Clone(p, pd, kernelEnd).Some? && i < SELF_MAP && j < ENTRIES && k < SELF_MAP
    requires Copied(p.mem, pd, kernelEnd, i, j) && TableIsCopied(p.mem, pd, kernelEnd, k)
    ensures var p', npd := After(p, pd, kernelEnd), NewDir(p, pd, kernelEnd);
      FrameOf(p'.mem[npd][i]) < FRAMES && Behind(p'.mem, npd, i, j) != FrameOf(p'.mem[npd][k])
  {
    hide CloneFrom, Separate, EntryCloned, CloneReady, Copied, TableIsCopied, Distinct, Drawn, TablesInMemory;
    NotTheDirectory(p, pd, kernelEnd, i, j);
    if i == k {
      SameTableDiffers(p, pd, kernelEnd, i, j, j);
    } else {
      var (npd, p1) := Pop(p).value;
      Started(p, pd);
      ReadyFacts(p1, pd, npd);
      var p2 := CloneFrom(p1, pd, npd, kernelEnd).value;
      if i < k {
        var q := CloneFromSplit(p1, pd, npd, kernelEnd, 0, i, k);
        CopiedIsDrawn(p1, q, pd, npd, kernelEnd, i, j);
        var s := FrameOf(q.mem[npd][i]);
        DrawnFacts(p1, q, s);
        DrawnFacts(q, p2, s);
        DrawnFacts(p1, q, FrameOf(q.mem[s][j]));
        SameTableCopied(p1, q, pd, npd, kernelEnd, k);
        TableIsDrawn(q, p2, pd, npd, kernelEnd, k);
        TableCopiedIsPresent(q.mem, pd, kernelEnd, k);
        DrawnFacts(q, p2, FrameOf(p2.mem[npd][k]));
      } else {
        var q := CloneFromSplit(p1, pd, npd, kernelEnd, 0, k, i);
        TableIsDrawn(p1, q, pd, npd, kernelEnd, k);
        TableCopiedIsPresent(p1.mem, pd, kernelEnd, k);
        DrawnFacts(p1, q, FrameOf(q.mem[npd][k]));
        StillCopied(p1, q, pd, npd, kernelEnd, i, j);
        CopiedIsDrawn(q, p2, pd, npd, kernelEnd, i, j);
        DrawnFacts(q, p2, FrameOf(p2.mem[FrameOf(p2.mem[npd][i])][j]));
      }
    }
  }

  lemma SameTableCopied(p: Pool, q: Pool, pd: FrameNo, npd: FrameNo, kernelEnd: nat, k: nat)
    requires CloneReady(p, pd, npd) && Grows(p, q, npd) && TablesInMemory(p.mem, pd) && TablesInMemory(q.mem, pd)
    requires k < SELF_MAP && TableIsCopied(p.mem, pd, kernelEnd, k)
    ensures TableIsCopied(q.mem, pd, kernelEnd, k)
  {
    ParentSame(p, q, pd, npd);
  }

  lemma TableCopiedIsPresent(m: Memory, pd: FrameNo, kernelEnd: nat, k: nat)
    requires k < SELF_MAP && TablesInMemory(m, pd) && TableIsCopied(m, pd, kernelEnd, k)
    ensures Present(m[pd][k])
  {
  }

  /** No two entries of the child share a table. */
  lemma ChildTablesDiffer(p: Pool, pd: FrameNo, kernelEnd: nat, i: nat, k: nat)
    requires Separate(p, pd) && Clone(p, pd, kernelEnd).Some? && i < k < SELF_MAP
    ensures var p', npd := After(p, pd, kernelEnd), NewDir(p, pd, kernelEnd);
      Present(p'.mem[npd][i]) && Present(p'.mem[npd][k]) ==> FrameOf(p'.mem[npd][i]) != FrameOf(p'.mem[npd][k])
  {
    hide CloneFrom, EntryCloned, CloneReady, TableIsCopied;
    ChildTable(p, pd, kernelEnd, i);
    ChildTable(p, pd, kernelEnd, k);
    if TableIsCopied(p.mem, pd, kernelEnd, i) && TableIsCopied(p.mem, pd, kernelEnd, k) {
      var (npd, p1) := Pop(p).value;
      Started(p, pd);
      ReadyFacts(p1, pd, npd);
      var p2 := CloneFrom(p1, pd, npd, kernelEnd).value;
      var q := CloneFromSplit(p1, pd, npd, kernelEnd, 0, i, k);
      TableIsDrawn(p1, q, pd, npd, kernelEnd, i);
      TableCopiedIsPresent(p.mem, pd, kernelEnd, i);
      DrawnFacts(p1, q, FrameOf(q.mem[npd][i]));
      SameTableCopied(p1, q, pd, npd, kernelEnd, k);
      TableIsDrawn(q, p2, pd, npd, kernelEnd, k);
      TableCopiedIsPresent(q.mem, pd, kernelEnd, k);
      DrawnFacts(q, p2, FrameOf(p2.mem[npd][k]));
    }
  }

  /** User pages of the child are user pages of the parent. */
  lemma ChildUserPage(p: Pool, pd: FrameNo, kernelEnd: nat, i: nat, j: nat)
    requires Separate(p, pd) && Clone(p, pd, kernelEnd).Some? && i < SELF_MAP && j < ENTRIES
    requires TablesInMemory(After(p, pd, kernelEnd).mem, NewDir(p, pd, kernelEnd))
    ensures var p', npd := After(p, pd, kernelEnd), NewDir(p, pd, kernelEnd);
      && (UserPage(p'.mem, npd, i, j) <==> UserPage(p.mem, pd, i, j))
      && (UserPage(p.mem, pd, i, j) ==>
           var f := PageFrame(p'.mem, npd, i, j);
           && f !in p'.free && f != npd
           && if Copied(p.mem, pd, kernelEnd, i, j) then f in p.free && f == Behind(p'.mem, npd, i, j)
              else f !in p.free && f == PageFrame(p.mem, pd, i, j))
  {
    hide Clone, Copied;
    var p', npd := After(p, pd, kernelEnd), NewDir(p, pd, kernelEnd);
    ChildMapsSame(p, pd, kernelEnd, i, j);
    ChildTable(p, pd, kernelEnd, i);
    FlagsAreUser(p.mem, p'.mem, pd, npd, i, j);
    Finished(p, pd, kernelEnd, i);
    FewerFree(p, p', npd);
    if UserPage(p.mem, pd, i, j) && Copied(p.mem, pd, kernelEnd, i, j) {
      NotTheDirectory(p, pd, kernelEnd, i, j);
      CopyNotFree(p, pd, kernelEnd, i, j);
    }
  }

  lemma FlagsAreUser(m: Memory, m': Memory, pd: FrameNo, npd: FrameNo, i: nat, j: nat)
    requires i < SELF_MAP && j < ENTRIES && TablesInMemory(m, pd) && TablesInMemory(m', npd)
    requires var (w, w') := (Walk(m, pd, i, j), Walk(m', npd, i, j));
      (w.Unmapped? <==> w'.Unmapped?) && (w.Mapped? ==> w'.pageFlags == w.pageFlags)
    ensures UserPage(m', npd, i, j) <==> UserPage(m, pd, i, j)
    ensures UserPage(m, pd, i, j) ==>
      && Present(m[pd][i]) && Present(m'[npd][i])
      && Walk(m, pd, i, j).frame == PageFrame(m, pd, i, j) && Walk(m', npd, i, j).frame == PageFrame(m', npd, i, j)
  {
    if Present(m[pd][i]) && Present(m'[npd][i]) {
      SameFlags(m[FrameOf(m[pd][i])][j], m'[FrameOf(m'[npd][i])][j]);
    }
  }

  lemma SameFlags(e: u32, f: u32)
    ensures Flags(e) == Flags(f) ==> (Present(e) <==> Present(f)) && (User(e) <==> User(f))
  {
    EntryBits(e / PAGE_SIZE, e % PAGE_SIZE);
    EntryBits(f / PAGE_SIZE, f % PAGE_SIZE);
  }

  lemma CopyNotFree(p: Pool, pd: FrameNo, kernelEnd: nat, i: nat, j: nat)
    requires Separate(p, pd) && Clone(p, pd, kernelEnd).Some? && i < SELF_MAP && j < ENTRIES
    requires Copied(p.mem, pd, kernelEnd, i, j) && FrameOf(After(p, pd, kernelEnd).mem[NewDir(p, pd, kernelEnd)][i]) < FRAMES
    ensures Behind(After(p, pd, kernelEnd).mem, NewDir(p, pd, kernelEnd), i, j) !in After(p, pd, kernelEnd).free
  {
    hide CloneFrom, Separate, EntryCloned, CloneReady, Grows;
    var p', npd := After(p, pd, kernelEnd), NewDir(p, pd, kernelEnd);
    Finished(p, pd, kernelEnd, i);
    SeparateIsDistinct(p, pd);
    CopiedIsDrawn(p, p', pd, npd, kernelEnd, i, j);
    GrowsShape(p, p', npd);
    DrawnFacts(p, p', Behind(p'.mem, npd, i, j));
  }

  lemma ChildSelfMap(p: Pool, pd: FrameNo, kernelEnd: nat)
    requires Clone(p, pd, kernelEnd).Some?
    ensures SelfMapped(After(p, pd, kernelEnd).mem, NewDir(p, pd, kernelEnd))
  {
    hide CloneFrom;
    EntryBits(NewDir(p, pd, kernelEnd), 3);
  }

  /** The child's directory is as well separated as its parent's: a fork can follow a fork. */
  lemma ChildIsSeparate(p: Pool, pd: FrameNo, kernelEnd: nat)
    requires Separate(p, pd) && Clone(p, pd, kernelEnd).Some?
    ensures Separate(After(p, pd, kernelEnd), NewDir(p, pd, kernelEnd))
  {
    hide Clone, Copied, UserPage, PageFrame, TableIsCopied, Behind, NewDir, After;
    var p', npd := After(p, pd, kernelEnd), NewDir(p, pd, kernelEnd);
    forall i | 0 <= i < SELF_MAP
      ensures Present(p'.mem[npd][i]) ==>
        FrameOf(p'.mem[npd][i]) < FRAMES && FrameOf(p'.mem[npd][i]) !in p'.free && FrameOf(p'.mem[npd][i]) != npd
    {
      ChildTable(p, pd, kernelEnd, i);
    }
    assert TablesInMemory(p'.mem, npd);
    FreeStaysDistinct(p, pd, kernelEnd);
    ChildSelfMap(p, pd, kernelEnd);
    forall i, k | 0 <= i < k < SELF_MAP && Present(p'.mem[npd][i]) && Present(p'.mem[npd][k])
      ensures FrameOf(p'.mem[npd][i]) != FrameOf(p'.mem[npd][k])
    {
      ChildTablesDiffer(p, pd, kernelEnd, i, k);
    }
    forall i, j | 0 <= i < SELF_MAP && 0 <= j < ENTRIES && UserPage(p'.mem, npd, i, j)
      ensures Present(p'.mem[npd][i]) && PageFrame(p'.mem, npd, i, j) !in p'.free && PageFrame(p'.mem, npd, i, j) != npd
    {
      UserPageIsPresent(p'.mem, npd, i, j);
      ChildUserPage(p, pd, kernelEnd, i, j);
    }
    forall i, j, k | 0 <= i < SELF_MAP && 0 <= j < ENTRIES && UserPage(p'.mem, npd, i, j) && 0 <= k < SELF_MAP && Present(p'.mem[npd][k])
      ensures Present(p'.mem[npd][i]) && PageFrame(p'.mem, npd, i, j) != FrameOf(p'.mem[npd][k])
    {
      UserPageIsPresent(p'.mem, npd, i, j);
      ChildPageIsNoTable(p, pd, kernelEnd, i, j, k);
    }
    forall i, j, k, l | 0 <= i < SELF_MAP && 0 <= j < ENTRIES && 0 <= k < SELF_MAP && 0 <= l < ENTRIES &&
        UserPage(p'.mem, npd, i, j) && UserPage(p'.mem, npd, k, l) && (i, j) != (k, l)
      ensures Present(p'.mem[npd][i]) && Present(p'.mem[npd][k])
      ensures PageFrame(p'.mem, npd, i, j) != PageFrame(p'.mem, npd, k, l) || PageFrame(p'.mem, npd, i, j) >= FRAMES
    {
      UserPageIsPresent(p'.mem, npd, i, j);
      UserPageIsPresent(p'.mem, npd, k, l);
      ChildPagesDiffer(p, pd, kernelEnd, i, j, k, l);
    }
  }

  /** No two user pages of the child share a frame of memory: copies have frames of their own, and the
      others have the parent's. */
  lemma ChildPagesDiffer(p: Pool, pd: FrameNo, kernelEnd: nat, i: nat, j: nat, k: nat, l: nat)
    requires Separate(p, pd) && Clone(p, pd, kernelEnd).Some? && i < SELF_MAP && j < ENTRIES && k < SELF_MAP && l < ENTRIES
    requires TablesInMemory(After(p, pd, kernelEnd).mem, NewDir(p, pd, kernelEnd))
    requires var p', npd := After(p, pd, kernelEnd), NewDir(p, pd, kernelEnd);
      UserPage(p'.mem, npd, i, j) && UserPage(p'.mem, npd, k, l) && Present(p'.mem[npd][i]) && Present(p'.mem[npd][k]) && (i, j) != (k, l)
    ensures var p', npd := After(p, pd, kernelEnd), NewDir(p, pd, kernelEnd);
      PageFrame(p'.mem, npd, i, j) != PageFrame(p'.mem, npd, k, l) || PageFrame(p'.mem, npd, i, j) >= FRAMES
  {
    hide Clone, Copied, PageFrame, TableIsCopied, Behind, NewDir, After;
    ChildUserPage(p, pd, kernelEnd, i, j);
    ChildUserPage(p, pd, kernelEnd, k, l);
    if Copied(p.mem, pd, kernelEnd, i, j) && Copied(p.mem, pd, kernelEnd, k, l) {
      CopiesDiffer(p, pd, kernelEnd, i, j, k, l);
    }
    assert UserPage(p.mem, pd, i, j) && UserPage(p.mem, pd, k, l);
  }

  lemma ChildPageIsNoTable(p: Pool, pd: FrameNo, kernelEnd: nat, i: nat, j: nat, k: nat)
    requires Separate(p, pd) && Clone(p, pd, kernelEnd).Some? && i < SELF_MAP && j < ENTRIES && k < SELF_MAP
    requires TablesInMemory(After(p, pd, kernelEnd).mem, NewDir(p, pd, kernelEnd))
    requires var p', npd := After(p, pd, kernelEnd), NewDir(p, pd, kernelEnd);
      UserPage(p'.mem, npd, i, j) && Present(p'.mem[npd][i]) && Present(p'.mem[npd][k])
    ensures var p', npd := After(p, pd, kernelEnd), NewDir(p, pd, kernelEnd); PageFrame(p'.mem, npd, i, j) != FrameOf(p'.mem[npd][k])
  {
    hide Clone, Copied, PageFrame, TableIsCopied, Behind, NewDir, After;
    ChildUserPage(p, pd, kernelEnd, i, j);
    ChildTable(p, pd, kernelEnd, k);
    if TableIsCopied(p.mem, pd, kernelEnd, k) && Copied(p.mem, pd, kernelEnd, i, j) {
      PageIsNoTable(p, pd, kernelEnd, i, j, k);
    }
    assert UserPage(p.mem, pd, i, j);
  }

  lemma FreeStaysDistinct(p: Pool, pd: FrameNo, kernelEnd: nat)
    requires Separate(p, pd) && Clone(p, pd, kernelEnd).Some?
    ensures var p', npd := After(p, pd, kernelEnd), NewDir(p, pd, kernelEnd); Distinct(p'.free) && npd !in p'.free
  {
    hide CloneFrom, Separate, EntryCloned, Grows;
    var p', npd := After(p, pd, kernelEnd), NewDir(p, pd, kernelEnd);
    Finished(p, pd, kernelEnd, 0);
    SeparateIsDistinct(p, pd);
    GrowsShape(p, p', npd);
    DrawnFacts(p, p', npd);
  }

  // ---------------------------------------------------------------- isolation

  /** Writing `w` to a frame; what goes to a device leaves memory alone. */
  function Written(m: Memory, f: nat, w: Words): Memory { if f < FRAMES then m[f := w] else m }

  predicate SameFrame(m: Memory, m': Memory, f: nat) { f < FRAMES ==> m'[f] == m[f] }

  /** What the child later writes to a copied page changes neither the parent's tables, nor any user
      page of the parent, nor another copied page of the child. */
  lemma ChildWritesAreInvisible(p: Pool, pd: FrameNo, kernelEnd: nat, i: nat, j: nat, k: nat, l: nat, w: Words)
    requires Separate(p, pd) && Clone(p, pd, kernelEnd).Some? && i < SELF_MAP && j < ENTRIES && k < SELF_MAP && l < ENTRIES
    requires Copied(p.mem, pd, kernelEnd, i, j)
    ensures var p', npd := After(p, pd, kernelEnd), NewDir(p, pd, kernelEnd);
      && Behind(p'.mem, npd, i, j) < FRAMES
      && var m := Written(p'.mem, Behind(p'.mem, npd, i, j), w);
      && SameTables(p'.mem, m, pd) && SameTables(p'.mem, m, npd)
      && (UserPage(p.mem, pd, k, l) ==> SameFrame(p'.mem, m, Behind(p.mem, pd, k, l)))
      && (Copied(p.mem, pd, kernelEnd, k, l) && (i, j) != (k, l) ==> SameFrame(p'.mem, m, Behind(p'.mem, npd, k, l)))
  {
    hide Clone, TableIsCopied, Copied, Source, Contents, TableCopied;
    var p', npd := After(p, pd, kernelEnd), NewDir(p, pd, kernelEnd);
    ParentUntouched(p, pd, kernelEnd);
    ChildIsSeparate(p, pd, kernelEnd);
    CopiedIsPresent(p.mem, pd, kernelEnd, i, j);
    ChildUserPage(p, pd, kernelEnd, i, j);
    ChildUserPage(p, pd, kernelEnd, k, l);
    ChildMapsSame(p, pd, kernelEnd, i, j);
    assert UserPage(p'.mem, npd, i, j);
    if Copied(p.mem, pd, kernelEnd, k, l) {
      CopiedIsPresent(p.mem, pd, kernelEnd, k, l);
      CopiesDiffer(p, pd, kernelEnd, i, j, k, l);
      ChildMapsSame(p, pd, kernelEnd, k, l);
    }
  }

  /** What the parent later writes to such a page changes neither the child's tables nor any copied
      page of the child. */
  lemma ParentWritesAreInvisible(p: Pool, pd: FrameNo, kernelEnd: nat, i: nat, j: nat, k: nat, l: nat, w: Words)
    requires Separate(p, pd) && Clone(p, pd, kernelEnd).Some? && i < SELF_MAP && j < ENTRIES && k < SELF_MAP && l < ENTRIES
    requires Copied(p.mem, pd, kernelEnd, i, j)
    ensures var p', npd := After(p, pd, kernelEnd), NewDir(p, pd, kernelEnd);
      var m := Written(p'.mem, Behind(p.mem, pd, i, j), w);
      && SameTables(p'.mem, m, npd)
      && (Copied(p.mem, pd, kernelEnd, k, l) ==> SameFrame(p'.mem, m, Behind(p'.mem, npd, k, l)))
  {
    hide Clone, Copied, TableIsCopied;
    var p', npd := After(p, pd, kernelEnd), NewDir(p, pd, kernelEnd);
    ChildIsSeparate(p, pd, kernelEnd);
    CopiedIsPresent(p.mem, pd, kernelEnd, i, j);
    ChildMapsSame(p, pd, kernelEnd, i, j);
    var f := PageFrame(p.mem, pd, i, j);
    assert f !in p.free && npd in p.free by { assert UserPage(p.mem, pd, i, j); Finished(p, pd, kernelEnd, i); }
    forall n | 0 <= n < SELF_MAP && Present(p'.mem[npd][n]) ensures FrameOf(p'.mem[npd][n]) != f {
      ChildTable(p, pd, kernelEnd, n);
      assert UserPage(p.mem, pd, i, j);
    }
    if Copied(p.mem, pd, kernelEnd, k, l) {
      CopiedIsPresent(p.mem, pd, kernelEnd, k, l);
      ChildUserPage(p, pd, kernelEnd, k, l);
      ChildMapsSame(p, pd, kernelEnd, k, l);
    }
  }

  /** The last entry of a directory shows its own tables, and to the kernel only: of the child's as of the first
      directory's, whatever the parent's flags are. */
  lemma SelfMapIsKernels(p: Pool, pd: FrameNo, kernelEnd: nat)
    ensures Clone(p, pd, kernelEnd).Some? ==>
      var (npd, p') := Clone(p, pd, kernelEnd).value; IsSelfMap(p'.mem[npd][1023], npd)
    ensures Init(p).Some? ==> var (d, p') := Init(p).value; IsSelfMap(p'.mem[d][1023], d)
  {
    hide CloneFrom;
    if Clone(p, pd, kernelEnd).Some? { EntryBits(NewDir(p, pd, kernelEnd), 3); }
    if Init(p).Some? { EntryBits(Init(p).value.0, 3); }
  }

  /** The entry is present, writable, not the user's, and leads to the directory. */
  predicate IsSelfMap(e: u32, pd: FrameNo) { Present(e) && !User(e) && FrameOf(e) == pd && Flags(e) == 3 }
}
