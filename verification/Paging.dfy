/** kernel/paging.c in its own form: memory that is written word by word, and the page_frames stack.
    A frame is named by its number; with paging on, memory is reached through the active directory. */
module Paging {
  import opened Wrappers
  import opened PagingSpec
  import opened PagingVia
  import opened PagingDevices
  import opened PagingBoot

  const MAX_PAGES: nat := 1024

  class Paging {
    const mem: array<Words>
    const pageFrames: array<FrameNo>
    const device: Device
    var count: nat

    ghost predicate Valid()
      reads this`count
    {
      mem.Length == FRAMES && pageFrames.Length == MAX_PAGES && count <= MAX_PAGES
    }

    /** Memory, the free frames and the devices. */
    ghost function State(): Pool
      requires Valid()
      reads this`count, mem, pageFrames
    {
      Pool(mem[..], pageFrames[..count], device)
    }

    constructor (device: Device)
      ensures Valid() && fresh(mem) && fresh(pageFrames) && State().free == [] && this.device == device
    {
      this.device := device;
      mem := new Words[FRAMES];
      pageFrames := new FrameNo[MAX_PAGES];
      count := 0;
    }

    /** pfa_push, and pfa_free with it; the stack must have room. */
    method PfaPush(f: FrameNo)
      requires Valid() && count < MAX_PAGES
      modifies this`count, pageFrames
      ensures Valid() && State() == old(State()).(free := old(State()).free + [f])
    {
      pageFrames[count] := f;
      count := count + 1;
    }

    /** pfa_alloc; None where it panics. */
    method PfaAlloc() returns (f: Option<FrameNo>)
      requires Valid()
      modifies this`count
      ensures Valid()
      ensures match Pop(old(State()))
        case None => f == None && State() == old(State())
        case Some((g, p)) => f == Some(g) && State() == p
    {
      if count == 0 { return None; }
      count := count - 1;
      return Some(pageFrames[count]);
    }

    method PokeWord(f: FrameNo, j: nat, e: u32)
      requires Valid() && j < ENTRIES
      modifies mem
      ensures Valid() && State() == Poke(old(State()), f, j, e)
    {
      mem[f] := mem[f][j := e];
    }

    method Clear(f: FrameNo)
      requires Valid()
      modifies mem
      ensures Valid() && State() == WithWords(old(State()), f, Zeroed())
    {
      ghost var p := State();
      var j := 0;
      while j < ENTRIES
        invariant j <= ENTRIES && Valid()
        invariant State() == WithWords(p, f, mem[f]) && forall k | 0 <= k < j :: mem[f][k] == 0
      {
        mem[f] := mem[f][j := 0];
        j := j + 1;
      }
      assert mem[f] == Zeroed();
    }

    // -------------------------------------------------------------- with paging on

    /** The processor's walk through the directory `pd`. */
    method Translate(pd: FrameNo, i: nat, j: nat) returns (f: Option<FrameNo>)
      requires Valid() && i < ENTRIES && j < ENTRIES
      ensures f == Reached(State().mem, pd, i, j)
    {
      var pde := mem[pd][i];
      if !Present(pde) || FrameOf(pde) >= FRAMES { return None; }
      var pte := mem[FrameOf(pde)][j];
      if !Present(pte) || FrameOf(pte) >= FRAMES { return None; }
      return Some(FrameOf(pte));
    }

    /** `table[j] = e` at the physical address of frame `f`, taken as a virtual one. */
    method Store(pd: FrameNo, f: FrameNo, j: nat, e: u32) returns (ok: bool)
      requires Valid() && j < ENTRIES
      modifies mem
      ensures Valid()
      ensures ok <==> StoreAt(old(State()), pd, f, j, e).Some?
      ensures State() == if ok then StoreAt(old(State()), pd, f, j, e).value else old(State())
    {
      var g := Translate(pd, 0, f);
      if g.None? { return false; }
      PokeWord(g.value, j, e);
      return true;
    }

    /** The loop that clears a page at such an address. */
    method ClearAt(pd: FrameNo, f: FrameNo) returns (ok: bool)
      requires Valid()
      modifies mem
      ensures Valid()
      ensures ok <==> FillAt(old(State()), pd, f, Zeroed()).Some?
      ensures State() == if ok then FillAt(old(State()), pd, f, Zeroed()).value else old(State())
    {
      var g := Translate(pd, 0, f);
      if g.None? { return false; }
      Clear(g.value);
      return true;
    }

    method Show(f: nat) returns (w: Words)
      requires Valid()
      ensures w == Contents(State(), f)
    {
      if f < FRAMES { return mem[f]; }
      return device(f);
    }

    /** The page that the processor reads at page number `v`; None where it faults. */
    method Fetch(pd: FrameNo, v: nat) returns (w: Option<Words>)
      requires Valid() && v < ENTRIES * ENTRIES
      ensures w == match Leads(State(), pd, v) case None => None case Some(f) => Some(Contents(State(), f))
    {
      var pde := mem[pd][v / ENTRIES];
      if !Present(pde) { return None; }
      var table := Show(FrameOf(pde));
      var pte := table[v % ENTRIES];
      if !Present(pte) { return None; }
      var page := Show(FrameOf(pte));
      return Some(page);
    }

    /** memcpy of a page between two physical addresses, both taken as virtual ones. */
    method CopyAt(pd: FrameNo, to: FrameNo, from: nat) returns (ok: bool)
      requires Valid() && from < ENTRIES * ENTRIES
      modifies mem
      ensures Valid()
      ensures var p := old(State());
        && (ok <==> Leads(p, pd, from).Some? && At(p.mem, pd, to).Some?)
        && State() == if ok then FillAt(p, pd, to, Contents(p, Leads(p, pd, from).value)).value else p
    {
      var page := Fetch(pd, from);
      var dst := Translate(pd, 0, to);
      if page.None? || dst.None? { return false; }
      mem[dst.value] := page.value;
      return true;
    }

    // -------------------------------------------------------------- mapping

    /** paging_map_page. */
    method MapPage(pd: FrameNo, i: nat, j: nat, f: PhysFrame, flags: nat) returns (ok: bool)
      requires Valid() && i < SELF_MAP && j < ENTRIES
      modifies this`count, mem
      ensures Valid()
      ensures ok <==> MapPageVia(old(State()), pd, i, j, f, flags).Some?
      ensures ok ==> State() == MapPageVia(old(State()), pd, i, j, f, flags).value
    {
      hide Entry, Zeroed, Reached;
      var d := Translate(pd, 0, pd);
      if d.None? { return false; }
      if !Present(mem[d.value][i]) {
        var t := PfaAlloc();
        if t.None? { return false; }
        PokeWord(d.value, i, Entry(t.value, 0));
        var table := Translate(pd, SELF_MAP, i);
        if table.None? { return false; }
        Clear(table.value);
        PokeWord(d.value, i, Entry(t.value, flags));
      }
      var table := Translate(pd, SELF_MAP, i);
      if table.None? { return false; }
      PokeWord(table.value, j, Entry(f, flags));
      return true;
    }

    /** paging_alloc_page. */
    method AllocPage(pd: FrameNo, i: nat, j: nat) returns (ok: bool)
      requires Valid() && i < SELF_MAP && j < ENTRIES
      modifies this`count, mem
      ensures Valid()
      ensures ok <==> AllocPageVia(old(State()), pd, i, j).Some?
      ensures ok ==> State() == AllocPageVia(old(State()), pd, i, j).value
    {
      hide MapPageVia;
      var f := PfaAlloc();
      if f.None? { return false; }
      ok := MapPage(pd, i, j, f.value, 7);
    }

    /** framebuffer_map: `n` pages from page number `v` on, for the frames from `f` on. */
    method MapFramebuffer(pd: FrameNo, v: nat, f: PhysFrame, n: nat) returns (ok: bool)
      requires Valid() && v + n <= LIMIT
      modifies this`count, mem
      ensures Valid()
      ensures ok <==> MapRange(old(State()), pd, v, f, n).Some?
      ensures ok ==> State() == MapRange(old(State()), pd, v, f, n).value
    {
      hide MapPageVia;
      ghost var p := State();
      var k := 0;
      while k < n
        invariant k <= n && Valid() && MapRange(p, pd, v, f, k) == Some(State())
      {
        ok := MapPage(pd, (v + k) / ENTRIES, (v + k) % ENTRIES, (f + k) % FRAME_COUNT, 7);
        if !ok {
          MapRangeFails(p, pd, v, f, k + 1, n);
          return;
        }
        k := k + 1;
      }
      return true;
    }

    /** A page of rtl8139_init: pfa_alloc and paging_map_page. */
    method CardPage(pd: FrameNo, x: nat) returns (ok: bool)
      requires Valid() && x < LIMIT
      modifies this`count, mem
      ensures Valid()
      ensures ok <==> PagingBoot.CardPage(old(State()), pd, x).Some?
      ensures ok ==> State() == PagingBoot.CardPage(old(State()), pd, x).value
    {
      hide MapPageVia;
      var h := PfaAlloc();
      if h.None? { return false; }
      ok := MapPage(pd, x / ENTRIES, x % ENTRIES, h.value, 3);
    }

    /** memset of the first words of a page. */
    method CleanAt(pd: FrameNo, x: nat, n: nat) returns (ok: bool)
      requires Valid() && x < LIMIT && n <= ENTRIES
      modifies mem
      ensures Valid()
      ensures ok <==> PagingBoot.CleanAt(old(State()), pd, x, n).Some?
      ensures ok ==> State() == PagingBoot.CleanAt(old(State()), pd, x, n).value
    {
      var g := Translate(pd, x / ENTRIES, x % ENTRIES);
      if g.None? { return false; }
      ghost var p := State();
      var j := 0;
      while j < n
        invariant j <= n && Valid()
        invariant State() == WithWords(p, g.value, mem[g.value])
        invariant forall k | 0 <= k < ENTRIES :: mem[g.value][k] == if k < j then 0 else p.mem[g.value][k]
      {
        mem[g.value] := mem[g.value][j := 0];
        j := j + 1;
      }
      assert mem[g.value] == Zeroed()[..n] + p.mem[g.value][n..];
      return true;
    }

    /** The buffers that rtl8139_init makes when it finds the card. */
    method InitCard(pd: FrameNo) returns (ok: bool)
      requires Valid()
      modifies this`count, mem
      ensures Valid()
      ensures ok <==> CardInit(old(State()), pd).Some?
      ensures ok ==> State() == CardInit(old(State()), pd).value
    {
      hide PagingBoot.CardPage, PagingBoot.CleanAt;
      ghost var p := State();
      var i := 0;
      while i < TX_BUFFERS
        invariant i <= TX_BUFFERS && Valid() && TxBuffers(p, pd, 0) == TxBuffers(State(), pd, i)
      {
        ok := CardPage(pd, TX_PAGE + i);
        if !ok { return; }
        ok := CleanAt(pd, TX_PAGE + i, 512);
        if !ok { return; }
        i := i + 1;
      }
      ghost var p1 := State();
      i := 0;
      while i < 3
        invariant i <= 3 && Valid() && RxPages(p1, pd, 0) == RxPages(State(), pd, i)
      {
        ok := CardPage(pd, RX_PAGE + i);
        if !ok { return; }
        i := i + 1;
      }
      ghost var p2 := State();
      i := 0;
      while i < 3
        invariant i <= 3 && Valid() && RxClean(p2, pd, 0) == RxClean(State(), pd, i)
      {
        ok := CleanAt(pd, RX_PAGE + i, ENTRIES);
        if !ok { return; }
        i := i + 1;
      }
      return true;
    }

    /** The loop of paging_init that maps the first 4 MB to themselves. */
    method MapIdentity(t: FrameNo)
      requires Valid()
      modifies mem
      ensures Valid()
      ensures State() == WithWords(old(State()), t, seq(ENTRIES, j requires 0 <= j < ENTRIES => j * PAGE_SIZE + 3))
    {
      ghost var p := State();
      var j := 0;
      while j < ENTRIES
        invariant j <= ENTRIES && Valid()
        invariant State() == WithWords(p, t, mem[t]) && forall k | 0 <= k < j :: mem[t][k] == k * PAGE_SIZE + 3
      {
        PokeWord(t, j, j * PAGE_SIZE + 3);
        j := j + 1;
      }
      assert mem[t] == seq(ENTRIES, j requires 0 <= j < ENTRIES => j * PAGE_SIZE + 3);
    }

    /** paging_init, with paging still off. */
    method Init() returns (pd: Option<FrameNo>)
      requires Valid()
      modifies this`count, mem
      ensures Valid()
      ensures match PagingSpec.Init(old(State()))
        case None => pd == None
        case Some((f, p)) => pd == Some(f) && State() == p
    {
      pd := PfaAlloc();
      if pd.None? { return; }
      var t := PfaAlloc();
      if t.None? { return None; }
      Clear(pd.value);
      Clear(t.value);
      MapIdentity(t.value);
      PokeWord(pd.value, 0, t.value * PAGE_SIZE + 3);
      PokeWord(pd.value, SELF_MAP, pd.value * PAGE_SIZE + 3);
    }

    // -------------------------------------------------------------- cloning

    /** The search of paging_clone_directory for user pages outside the kernel image. */
    method FindUserPage(t: Words, i: nat, kernelEnd: nat) returns (found: bool)
      ensures found <==> HasUserPage(t, i, kernelEnd)
    {
      var j := 0;
      while j < ENTRIES
        invariant j <= ENTRIES && HasUserPage(t, i, kernelEnd) == HasUserPage(t, i, kernelEnd, j)
      {
        if Present(t[j]) && User(t[j]) && !InKernel(Vaddr(i, j), kernelEnd) { return true; }
        j := j + 1;
      }
      return false;
    }

    /** Entry `j` of a table that is copied. */
    method CopyOne(pd: FrameNo, new1: FrameNo, i: nat, kernelEnd: nat, j: nat) returns (ok: bool)
      requires Valid() && i < SELF_MAP && j < ENTRIES
      modifies this`count, mem
      ensures Valid()
      ensures ok <==> CopyOneVia(old(State()), pd, new1, i, kernelEnd, j).Some?
      ensures ok ==> State() == CopyOneVia(old(State()), pd, new1, i, kernelEnd, j).value
    {
      hide WithFrame, Keeps, Poke, WithWords, Present, Reached;
      var old1 := Translate(pd, SELF_MAP, i);
      if old1.None? { return false; }
      var e := mem[old1.value][j];
      if !Present(e) { return true; }
      if Keeps(i, j, e, kernelEnd) {
        ok := Store(pd, new1, j, e);
      } else {
        if count == 0 { return false; }
        var f := PfaAlloc();
        ok := CopyAt(pd, f.value, FrameOf(e));
        if ok { ok := Store(pd, new1, j, WithFrame(f.value, e)); }
      }
    }

    /** The copying loop over one table. */
    method CopyTable(pd: FrameNo, new1: FrameNo, i: nat, kernelEnd: nat) returns (ok: bool)
      requires Valid() && i < SELF_MAP
      modifies this`count, mem
      ensures Valid()
      ensures ok <==> CopyTableVia(old(State()), pd, new1, i, kernelEnd).Some?
      ensures ok ==> State() == CopyTableVia(old(State()), pd, new1, i, kernelEnd).value
    {
      hide CopyOneVia;
      ghost var p := State();
      var j := 0;
      while j < ENTRIES
        invariant j <= ENTRIES && Valid()
        invariant CopyTableVia(p, pd, new1, i, kernelEnd) == CopyTableVia(State(), pd, new1, i, kernelEnd, j)
      {
        ok := CopyOne(pd, new1, i, kernelEnd, j);
        if !ok { return; }
        j := j + 1;
      }
      return true;
    }

    /** A directory entry whose table is copied. */
    method CopyEntry(pd: FrameNo, npd: FrameNo, i: nat, pde: u32, kernelEnd: nat) returns (ok: bool)
      requires Valid() && i < SELF_MAP
      modifies this`count, mem
      ensures Valid()
      ensures ok <==> CopiedEntryVia(old(State()), pd, npd, i, pde, kernelEnd).Some?
      ensures ok ==> State() == CopiedEntryVia(old(State()), pd, npd, i, pde, kernelEnd).value
    {
      hide WithFrame, CopyTableVia, FillAt, StoreAt;
      var t := PfaAlloc();
      if t.None? { return false; }
      ok := ClearAt(pd, t.value);
      if !ok { return; }
      ok := CopyTable(pd, t.value, i, kernelEnd);
      if ok { ok := Store(pd, npd, i, WithFrame(t.value, pde)); }
    }

    /** Directory entry `i`. */
    method CloneEntry(pd: FrameNo, npd: FrameNo, i: nat, kernelEnd: nat) returns (ok: bool)
      requires Valid() && i < SELF_MAP
      modifies this`count, mem
      ensures Valid()
      ensures ok <==> CloneEntryVia(old(State()), pd, npd, i, kernelEnd).Some?
      ensures ok ==> State() == CloneEntryVia(old(State()), pd, npd, i, kernelEnd).value
    {
      hide WithFrame, CopiedEntryVia, HasUserPage, StoreAt, Present, User, Reached;
      var d := Translate(pd, 0, pd);
      if d.None? { return false; }
      var pde := mem[d.value][i];
      if !Present(pde) { ok := Store(pd, npd, i, 0); return; }
      var copies := User(pde);
      if i <= 1 {
        var t := Translate(pd, SELF_MAP, i);
        if t.None? { return false; }
        copies := FindUserPage(mem[t.value], i, kernelEnd);
      }
      if copies { ok := CopyEntry(pd, npd, i, pde, kernelEnd); } else { ok := Store(pd, npd, i, pde); }
    }

    /** paging_clone_directory; in a sane address space it is the specified clone. */
    method CloneDirectory(pd: FrameNo, kernelEnd: nat) returns (npd: Option<FrameNo>)
      requires Valid()
      modifies this`count, mem
      ensures Valid()
      ensures match CloneVia(old(State()), pd, kernelEnd)
        case None => npd == None
        case Some((f, p)) => npd == Some(f) && State() == p
      ensures old(Sane(State(), pd)) ==>
        match Clone(old(State()), pd, kernelEnd)
        case None => npd == None
        case Some((f, p)) => npd == Some(f) && State() == p
    {
      hide CloneEntryVia, StoreAt, Sane, Clone;
      ghost var p0 := State();
      if Sane(p0, pd) { CloneIsVia(p0, pd, kernelEnd); }
      npd := PfaAlloc();
      if npd.None? { return; }
      ghost var p := State();
      var i := 0;
      while i < SELF_MAP
        invariant i <= SELF_MAP && Valid() && npd.Some?
        invariant CloneFromVia(p, pd, npd.value, kernelEnd) == CloneFromVia(State(), pd, npd.value, kernelEnd, i)
      {
        var ok := CloneEntry(pd, npd.value, i, kernelEnd);
        if !ok { return None; }
        i := i + 1;
      }
      var ok := Store(pd, npd.value, SELF_MAP, npd.value * PAGE_SIZE + 3);
      if !ok { return None; }
    }
  }
}
