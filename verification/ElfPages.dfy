/** Pages of an address space by number: how one is allocated, what user code finds in it, and how many
    frames a set of new pages costs. */
module ElfPages {
  import opened Wrappers
  import opened SfsCodec
  import opened PagingSpec
  import opened PagingClone
  import PagingFork
  import opened PagingMap
  import opened PagingVia

  // ---------------------------------------------------------------- bytes of a frame

  function FrameBytes(w: Words): (s: Bytes)
    ensures |s| == PAGE_SIZE
  {
    LeWords(w)
  }

  function WithBytes(w: Words, at: nat, data: Bytes): Words
    requires at + |data| <= PAGE_SIZE
  {
    UnWords(Splice(FrameBytes(w), at, data), ENTRIES)
  }

  lemma {:induction false} LeWordsUnWords(s: Bytes, n: nat)
    requires |s| == 4 * n
    ensures LeWords(UnWords(s, n)) == s
  {
    hide Le32, Un32;
    if n > 0 {
      Le32Un32(s[..4]);
      LeWordsUnWords(s[4..], n - 1);
      assert s == s[..4] + s[4..];
    }
  }

  lemma BytesAre(w: Words, at: nat, data: Bytes)
    requires at + |data| <= PAGE_SIZE
    ensures FrameBytes(WithBytes(w, at, data)) == Splice(FrameBytes(w), at, data)
  {
    hide LeWords, UnWords;
    LeWordsUnWords(Splice(FrameBytes(w), at, data), ENTRIES);
  }

  // ---------------------------------------------------------------- pages

  predicate TableAt(m: Memory, pd: FrameNo, vp: nat) { vp < LIMIT && Present(m[pd][vp / ENTRIES]) }

  predicate MappedAt(m: Memory, pd: FrameNo, vp: nat) {
    TableAt(m, pd, vp) && FrameOf(m[pd][vp / ENTRIES]) < FRAMES && Present(m[FrameOf(m[pd][vp / ENTRIES])][vp % ENTRIES])
  }

  /** The frame of memory behind a user page. */
  function UserAt(m: Memory, pd: FrameNo, vp: nat): Option<FrameNo> {
    if !MappedAt(m, pd, vp) then None
    else
      var e := m[FrameOf(m[pd][vp / ENTRIES])][vp % ENTRIES];
      if User(e) && FrameOf(e) < FRAMES then Some(FrameOf(e)) else None
  }

  /** The byte that user code finds at address `a`. */
  function ByteAt(m: Memory, pd: FrameNo, a: nat): Option<Byte> {
    match UserAt(m, pd, a / PAGE_SIZE)
    case None => None
    case Some(f) => Some(FrameBytes(m[f])[a % PAGE_SIZE])
  }

  /** paging_alloc_page for page `vp`. */
  function AllocAt(p: Pool, pd: FrameNo, vp: nat): Option<Pool>
    requires vp < LIMIT
  {
    AllocPageVia(p, pd, vp / ENTRIES, vp % ENTRIES)
  }

  function Top(p: Pool): FrameNo
    requires p.free != []
  {
    p.free[|p.free| - 1]
  }

  /** Frames for one page: its own, and one for the table if there is none. */
  function PageCost(m: Memory, pd: FrameNo, vp: nat): nat
  {
    if TableAt(m, pd, vp) then 1 else 2
  }

  lemma AllocIs(p: Pool, pd: FrameNo, i: nat, j: nat)
    requires Rooted(p, pd) && i < SELF_MAP && j < ENTRIES
    ensures var n, r := if Present(p.mem[pd][i]) then 1 else 2, AllocPage(p, pd, i, j);
      && AllocPageVia(p, pd, i, j) == r
      && (r.Some? <==> n <= |p.free|) && (r.Some? ==> r.value.free == p.free[..|p.free| - n])
      && (r.Some? ==> forall k | 0 <= k < SELF_MAP :: Present(r.value.mem[pd][k]) <==> Present(p.mem[pd][k]) || k == i)
  {
    hide Entry, AllocPageVia;
    AllocPageIsVia(p, pd, i, j);
    RootedFacts(p, pd);
    if p.free != [] {
      Popped(p, pd);
      var p1 := Pop(p).value.1;
      if p1.free != [] { Popped(p1, pd); }
    }
  }

  /** Which frames an allocation writes: at most the directory, the table, and a new table. */
  lemma AllocWrites(p: Pool, pd: FrameNo, i: nat, j: nat, f: FrameNo)
    requires Rooted(p, pd) && i < SELF_MAP && j < ENTRIES && AllocPage(p, pd, i, j).Some?
    requires f != pd && (Present(p.mem[pd][i]) ==> f != FrameOf(p.mem[pd][i])) && (f !in p.free || f == p.free[|p.free| - 1])
    ensures AllocPage(p, pd, i, j).value.mem[f] == p.mem[f]
  {
    hide Entry;
    RootedFacts(p, pd);
    Popped(p, f);
    var p1 := Pop(p).value.1;
    if p1.free != [] { Popped(p1, f); }
  }

  lemma UserFrame(p: Pool, pd: FrameNo, vp: nat)
    requires Rooted(p, pd) && UserAt(p.mem, pd, vp).Some?
    ensures TablesInMemory(p.mem, pd) && vp < LIMIT && UserPage(p.mem, pd, vp / ENTRIES, vp % ENTRIES)
    ensures Present(p.mem[pd][vp / ENTRIES]) && PageFrame(p.mem, pd, vp / ENTRIES, vp % ENTRIES) == UserAt(p.mem, pd, vp).value
  {
  }

  /** The frame of a user page is neither free nor a table nor the directory nor that of another page. */
  lemma UserFrameIsOwn(p: Pool, pd: FrameNo, vp: nat, vq: nat)
    requires Rooted(p, pd) && UserAt(p.mem, pd, vp).Some?
    ensures var f := UserAt(p.mem, pd, vp).value;
      && f !in p.free && f != pd
      && (forall k | 0 <= k < SELF_MAP && Present(p.mem[pd][k]) :: f != FrameOf(p.mem[pd][k]))
      && (vq != vp ==> UserAt(p.mem, pd, vq) != Some(f))
  {
    hide Separate, UserPage, PageFrame;
    UserFrame(p, pd, vp);
    UserFrameFacts(p, pd, vp / ENTRIES, vp % ENTRIES);
    if vq != vp && UserAt(p.mem, pd, vq).Some? {
      UserFrame(p, pd, vq);
      UserFramesDiffer(p, pd, vp / ENTRIES, vp % ENTRIES, vq / ENTRIES, vq % ENTRIES);
    }
  }

  // ---------------------------------------------------------------- allocating a page

  /** paging_alloc_page succeeds exactly if there are frames for the page and for a missing table. The
      page belongs to user code and holds what its frame held. */
  lemma AllocStep(p: Pool, pd: FrameNo, vp: nat)
    requires Rooted(p, pd) && vp < LIMIT
    ensures AllocAt(p, pd, vp).Some? <==> PageCost(p.mem, pd, vp) <= |p.free|
    ensures AllocAt(p, pd, vp).Some? ==>
      var p' := AllocAt(p, pd, vp).value;
      && p'.free == p.free[..|p.free| - PageCost(p.mem, pd, vp)] && (vp != pd ==> Rooted(p', pd))
      && (forall k | 0 <= k < SELF_MAP :: Present(p'.mem[pd][k]) <==> Present(p.mem[pd][k]) || k == vp / ENTRIES)
      && MappedAt(p'.mem, pd, vp) && UserAt(p'.mem, pd, vp) == Some(Top(p)) && p'.mem[Top(p)] == p.mem[Top(p)]
  {
    hide AllocPage, AllocPageVia, Rooted;
    var i, j := vp / ENTRIES, vp % ENTRIES;
    AllocIs(p, pd, i, j);
    if AllocAt(p, pd, vp).Some? {
      var p' := AllocPage(p, pd, i, j).value;
      TopIsFree(p, pd);
      AllocWrites(p, pd, i, j, Top(p));
      AllocatedPage(p, pd, i, j);
      if vp != pd { AllocKeepsRooted(p, pd, i, j); }
    }
  }

  lemma TopIsFree(p: Pool, pd: FrameNo)
    requires Rooted(p, pd) && p.free != []
    ensures Top(p) in p.free && Top(p) != pd && forall k | 0 <= k < SELF_MAP && Present(p.mem[pd][k]) :: FrameOf(p.mem[pd][k]) != Top(p)
  {
  }

  lemma AllocatedPage(p: Pool, pd: FrameNo, i: nat, j: nat)
    requires Rooted(p, pd) && i < SELF_MAP && j < ENTRIES && AllocPage(p, pd, i, j).Some?
    ensures p.free != []
    ensures var m := AllocPage(p, pd, i, j).value.mem;
      && Present(m[pd][i]) && FrameOf(m[pd][i]) < FRAMES && UserEntry(m[FrameOf(m[pd][i])][j]) && FrameOf(m[FrameOf(m[pd][i])][j]) == Top(p)
  {
    RootedFacts(p, pd);
    Popped(p, pd);
    var p1 := Pop(p).value.1;
    if p1.free != [] { Popped(p1, pd); }
  }

  lemma AllocKeepsRooted(p: Pool, pd: FrameNo, i: nat, j: nat)
    requires Rooted(p, pd) && i < SELF_MAP && j < ENTRIES && AllocPage(p, pd, i, j).Some? && !(i == 0 && j == pd)
    ensures Rooted(AllocPage(p, pd, i, j).value, pd)
  {
    hide MapPage, Reached;
    RootedFacts(p, pd);
    AllocPageMaps(p, pd, i, j, 0, 0);
    PoppedIsRooted(p, pd);
    var (f, p1) := Pop(p).value;
    MappedView(p1, pd, i, j, f, 7, pd);
    MappedSelfMap(p1, pd, i, j, f, 7);
  }

  /** No other page moves, and no other user page changes. */
  lemma AllocOther(p: Pool, pd: FrameNo, vp: nat, vq: nat)
    requires Rooted(p, pd) && vp < LIMIT && vq != vp && AllocAt(p, pd, vp).Some?
    ensures var m' := AllocAt(p, pd, vp).value.mem;
      && (MappedAt(m', pd, vq) <==> MappedAt(p.mem, pd, vq)) && UserAt(m', pd, vq) == UserAt(p.mem, pd, vq)
      && (UserAt(p.mem, pd, vq).Some? ==> m'[UserAt(p.mem, pd, vq).value] == p.mem[UserAt(p.mem, pd, vq).value])
  {
    hide AllocPage, AllocPageVia, Rooted;
    var i, j := vp / ENTRIES, vp % ENTRIES;
    AllocIs(p, pd, i, j);
    var p' := AllocPage(p, pd, i, j).value;
    RootedFacts(p, pd);
    if vq < LIMIT {
      RootedIsSeparate(p, pd);
      AllocPageMaps(p, pd, i, j, vq / ENTRIES, vq % ENTRIES);
      SameWalkSamePage(p.mem, p'.mem, pd, vq);
    }
    if UserAt(p.mem, pd, vq).Some? {
      UserFrameIsOwn(p, pd, vq, vq);
      AllocWrites(p, pd, i, j, UserAt(p.mem, pd, vq).value);
    }
  }

  /** The frames that stay free are not written. */
  lemma AllocKeepsFree(p: Pool, pd: FrameNo, vp: nat, f: FrameNo)
    requires Rooted(p, pd) && vp < LIMIT && AllocAt(p, pd, vp).Some? && f in AllocAt(p, pd, vp).value.free
    ensures f in p.free && AllocAt(p, pd, vp).value.mem[f] == p.mem[f]
  {
    hide Entry, AllocPageVia, Separate, Reached;
    var i, j := vp / ENTRIES, vp % ENTRIES;
    AllocPageIsVia(p, pd, i, j);
    RootedFacts(p, pd);
    FreeIsNoTable(p, pd, f);
    Popped(p, f);
    var p1 := Pop(p).value.1;
    if p1.free != [] { Popped(p1, f); }
  }

  lemma FreeIsNoTable(p: Pool, pd: FrameNo, f: FrameNo)
    requires Rooted(p, pd) && f in p.free
    ensures f != pd && forall k | 0 <= k < SELF_MAP && Present(p.mem[pd][k]) :: FrameOf(p.mem[pd][k]) != f
  {
  }

  lemma RootedIsSeparate(p: Pool, pd: FrameNo)
    requires Rooted(p, pd)
    ensures Separate(p, pd)
  {
  }

  lemma SameWalkSamePage(m: Memory, m': Memory, pd: FrameNo, vp: nat)
    requires TablesInMemory(m, pd) && TablesInMemory(m', pd) && vp < LIMIT
    requires Walk(m', pd, vp / ENTRIES, vp % ENTRIES) == Walk(m, pd, vp / ENTRIES, vp % ENTRIES)
    ensures (MappedAt(m', pd, vp) <==> MappedAt(m, pd, vp)) && UserAt(m', pd, vp) == UserAt(m, pd, vp)
  {
    if MappedAt(m, pd, vp) && MappedAt(m', pd, vp) {
      PagingFork.SameFlags(m[FrameOf(m[pd][vp / ENTRIES])][vp % ENTRIES], m'[FrameOf(m'[pd][vp / ENTRIES])][vp % ENTRIES]);
    }
  }

  // ---------------------------------------------------------------- storing bytes

  /** Writing a frame behind a user page moves no page and changes no other user page. */
  lemma WriteUserFrame(p: Pool, pd: FrameNo, vp: nat, w: Words)
    requires Rooted(p, pd) && UserAt(p.mem, pd, vp).Some?
    ensures var f := UserAt(p.mem, pd, vp).value;
      var p' := WithWords(p, f, w);
      && Rooted(p', pd) && SameTables(p.mem, p'.mem, pd) && (forall k | 0 <= k < SELF_MAP :: p'.mem[pd][k] == p.mem[pd][k])
      && (forall vq: nat :: (MappedAt(p'.mem, pd, vq) <==> MappedAt(p.mem, pd, vq)) && UserAt(p'.mem, pd, vq) == UserAt(p.mem, pd, vq))
  {
    hide Separate, Reached;
    var f := UserAt(p.mem, pd, vp).value;
    var p' := WithWords(p, f, w);
    RootedFacts(p, pd);
    UserFrameIsOwn(p, pd, vp, vp);
    assert SameTables(p.mem, p'.mem, pd);
    RootedStays(p, p', pd);
  }

  /** The same directory and tables and the same free frames. */
  lemma RootedStays(p: Pool, p': Pool, pd: FrameNo)
    requires Rooted(p, pd) && SameTables(p.mem, p'.mem, pd) && p'.free == p.free
    ensures Rooted(p', pd)
  {
    hide Reached;
    SameView(p.mem, p'.mem, pd);
    SameUserPages(p.mem, p'.mem, pd);
  }

  lemma SamePages(m: Memory, m': Memory, pd: FrameNo, vp: nat)
    requires SameTables(m, m', pd)
    ensures (MappedAt(m', pd, vp) <==> MappedAt(m, pd, vp)) && UserAt(m', pd, vp) == UserAt(m, pd, vp)
  {
  }

  // ---------------------------------------------------------------- what a set of pages costs

  /** The directory entries behind which the pages of `vps` lie and which have no table yet. */
  function NewTables(m: Memory, pd: FrameNo, vps: set<nat>): set<nat> {
    set vp | vp in vps && !TableAt(m, pd, vp) :: vp / ENTRIES
  }

  /** One frame for each page, and one for each table that is missing. */
  function Cost(m: Memory, pd: FrameNo, vps: set<nat>): nat { |vps| + |NewTables(m, pd, vps)| }

  ghost predicate InUserRange(vps: set<nat>) { forall vp | vp in vps :: vp < LIMIT }

  /** Tables were added for exactly the pages of `done`. */
  ghost predicate TablesFor(m: Memory, m': Memory, pd: FrameNo, done: set<nat>) {
    forall k | 0 <= k < SELF_MAP :: Present(m'[pd][k]) <==> Present(m[pd][k]) || exists vp :: vp in done && vp / ENTRIES == k
  }

  /** Pages can be paid for in two instalments. */
  lemma CostSplits(m: Memory, m': Memory, pd: FrameNo, done: set<nat>, rest: set<nat>)
    requires InUserRange(done) && InUserRange(rest) && done !! rest && TablesFor(m, m', pd, done)
    ensures Cost(m, pd, done + rest) == Cost(m, pd, done) + Cost(m', pd, rest)
  {
    var a, b, c := NewTables(m, pd, done), NewTables(m', pd, rest), NewTables(m, pd, done + rest);
    forall k ensures k in c <==> k in a || k in b {
      if k in c {
        var vp :| vp in done + rest && !TableAt(m, pd, vp) && vp / ENTRIES == k;
        if k !in a { assert vp in rest && !TableAt(m', pd, vp); }
      }
      if k in a { var vp :| vp in done && !TableAt(m, pd, vp) && vp / ENTRIES == k; assert vp in done + rest; }
      if k in b { var vp :| vp in rest && !TableAt(m', pd, vp) && vp / ENTRIES == k; assert !TableAt(m, pd, vp) && vp in done + rest; }
    }
    forall k | k in a ensures k !in b {
      var vp :| vp in done && !TableAt(m, pd, vp) && vp / ENTRIES == k;
      assert Present(m'[pd][k]);
    }
    assert c == a + b && a !! b;
    assert |c| == |a| + |b|;
    assert |done + rest| == |done| + |rest|;
  }

  lemma OnePageCost(m: Memory, pd: FrameNo, vp: nat)
    ensures Cost(m, pd, {vp}) == PageCost(m, pd, vp)
  {
    if TableAt(m, pd, vp) {
      assert NewTables(m, pd, {vp}) == {};
    } else {
      assert vp in {vp};
      assert NewTables(m, pd, {vp}) == {vp / ENTRIES};
    }
  }

  /** One page of several is allocated. */
  lemma CostStep(p: Pool, pd: FrameNo, vp: nat, vps: set<nat>)
    requires Rooted(p, pd) && vp in vps && InUserRange(vps)
    ensures PageCost(p.mem, pd, vp) <= Cost(p.mem, pd, vps)
    ensures AllocAt(p, pd, vp).Some? ==>
      var p' := AllocAt(p, pd, vp).value;
      && Cost(p.mem, pd, vps) == PageCost(p.mem, pd, vp) + Cost(p'.mem, pd, vps - {vp})
      && TablesFor(p.mem, p'.mem, pd, {vp})
  {
    hide AllocPageVia, Rooted, Cost;
    AllocStep(p, pd, vp);
    OnePageCost(p.mem, pd, vp);
    CheapestPage(p.mem, pd, vp, vps);
    if AllocAt(p, pd, vp).Some? {
      var p' := AllocAt(p, pd, vp).value;
      forall k | 0 <= k < SELF_MAP
        ensures Present(p'.mem[pd][k]) <==> Present(p.mem[pd][k]) || exists vq :: vq in {vp} && vq / ENTRIES == k
      {
        assert vp in {vp};
      }
      CostSplits(p.mem, p'.mem, pd, {vp}, vps - {vp});
      assert {vp} + (vps - {vp}) == vps;
    }
  }

  lemma CheapestPage(m: Memory, pd: FrameNo, vp: nat, vps: set<nat>)
    requires vp in vps
    ensures PageCost(m, pd, vp) <= Cost(m, pd, vps)
  {
    assert |vps| >= 1;
    if !TableAt(m, pd, vp) {
      assert vp / ENTRIES in NewTables(m, pd, vps);
      assert |NewTables(m, pd, vps)| >= 1;
    }
  }

  /** One round of allocations after another. */
  lemma TablesGrow(m: Memory, m1: Memory, m2: Memory, pd: FrameNo, a: set<nat>, b: set<nat>)
    requires TablesFor(m, m1, pd, a) && TablesFor(m1, m2, pd, b)
    ensures TablesFor(m, m2, pd, a + b)
  {
    forall k | 0 <= k < SELF_MAP
      ensures Present(m2[pd][k]) <==> Present(m[pd][k]) || exists vp :: vp in a + b && vp / ENTRIES == k
    {
      if vp :| vp in a && vp / ENTRIES == k { assert vp in a + b; }
      if vp :| vp in b && vp / ENTRIES == k { assert vp in a + b; }
    }
  }
}
