/** kernel/paging.c on values: physical frames, the stack of free frames, and the cloning of a page
    directory. A frame is named by its number; frames 0 to 1023 are the identity-mapped 4 MB. */
module PagingSpec {
  import opened Wrappers

  const FRAMES: nat := 1024
  const ENTRIES: nat := 1024
  const PAGE_SIZE: nat := 4096
  const SELF_MAP: nat := 1023
  /** The first page of the self-map. */
  const LIMIT: nat := SELF_MAP * ENTRIES
  const KERNEL_START: nat := 0x100000
  const IDENTITY_END: nat := 0x800000

  type FrameNo = f: int | 0 <= f < FRAMES
  type Words = w: seq<u32> | |w| == ENTRIES witness seq(ENTRIES, _ => 0)
  type Memory = m: seq<Words> | |m| == FRAMES witness seq<Words>(FRAMES, _ => Zeroed())

  function Zeroed(): Words { seq(ENTRIES, _ => 0) }

  // ---------------------------------------------------------------- entries

  predicate Present(e: u32) { e % 2 == 1 }

  predicate User(e: u32) { e / 4 % 2 == 1 }

  predicate UserEntry(e: u32) { Present(e) && User(e) }

  /** `e & 0xFFFFF000`, as a frame number. */
  function FrameOf(e: u32): nat { e / PAGE_SIZE }

  function Flags(e: u32): nat { e % PAGE_SIZE }

  /** The entry `e` with another frame. */
  function WithFrame(f: FrameNo, e: u32): (r: u32)
    ensures FrameOf(r) == f && Flags(r) == Flags(e) && (Present(r) <==> Present(e)) && (User(r) <==> User(e))
  {
    f * PAGE_SIZE + e % PAGE_SIZE
  }

  function Vaddr(i: nat, j: nat): nat { i * 0x40_0000 + j * PAGE_SIZE }

  // ---------------------------------------------------------------- physical memory

  /** What a frame outside memory shows when it is read, such as a page of the framebuffer. */
  type Device = nat -> Words

  /** Memory, page_frames, of which the last free frame is handed out first, and the devices. */
  datatype Pool = Pool(mem: Memory, free: seq<FrameNo>, dev: Device)

  /** What stands in a physical frame. */
  function Contents(p: Pool, f: nat): Words { if f < FRAMES then p.mem[f] else p.dev(f) }

  /** The frame that the processor finds behind page number `v` of the address space; None where it
      faults and the kernel panics. */
  function Leads(p: Pool, pd: FrameNo, v: nat): Option<nat>
    requires v < ENTRIES * ENTRIES
  {
    var pde := p.mem[pd][v / ENTRIES];
    if !Present(pde) then None
    else
      var pte := Contents(p, FrameOf(pde))[v % ENTRIES];
      if !Present(pte) then None else Some(FrameOf(pte))
  }

  /** The frame that memcpy reads for physical frame `f`: memory is mapped to itself, any other address
      leads where the directory says. */
  function Source(p: Pool, pd: FrameNo, f: nat): Option<nat>
    requires f < ENTRIES * ENTRIES
  {
    if f < FRAMES then Some(f) else Leads(p, pd, f)
  }

  /** pfa_alloc: None where the kernel panics. */
  function Pop(p: Pool): Option<(FrameNo, Pool)> {
    if p.free == [] then None
    else Some((p.free[|p.free| - 1], p.(free := p.free[..|p.free| - 1])))
  }

  /** `table[j] = e` in frame `f`. */
  function Poke(p: Pool, f: FrameNo, j: nat, e: u32): Pool
    requires j < ENTRIES
  {
    p.(mem := p.mem[f := p.mem[f][j := e]])
  }

  function WithWords(p: Pool, f: FrameNo, w: Words): Pool { p.(mem := p.mem[f := w]) }

  // ---------------------------------------------------------------- paging_clone_directory

  predicate InKernel(vaddr: nat, kernelEnd: nat) { KERNEL_START <= vaddr < kernelEnd }

  /** Which present entries of a table that is copied keep their frame. */
  predicate Keeps(i: nat, j: nat, e: u32, kernelEnd: nat) {
    if i <= 1 then InKernel(Vaddr(i, j), kernelEnd) || !User(e)
    else Vaddr(i, j) < IDENTITY_END || !User(e)
  }

  /** Entry `j` of a table that is copied. None without a free frame, or if the page's physical address is
      not mapped. */
  function CopyOne(p: Pool, pd: FrameNo, old1: FrameNo, new1: FrameNo, i: nat, kernelEnd: nat, j: nat): Option<Pool>
    requires j < ENTRIES
  {
    var e := p.mem[old1][j];
    if !Present(e) then Some(p)
    else if Keeps(i, j, e, kernelEnd) then Some(Poke(p, new1, j, e))
    else if p.free == [] || Source(p, pd, FrameOf(e)).None? then None
    else
      var (f, p1) := Pop(p).value;
      Some(Poke(WithWords(p1, f, Contents(p1, Source(p, pd, FrameOf(e)).value)), new1, j, WithFrame(f, e)))
  }

  /** The loop over the entries of one table from `j` on. */
  function CopyTable(p: Pool, pd: FrameNo, old1: FrameNo, new1: FrameNo, i: nat, kernelEnd: nat, j: nat := 0): Option<Pool>
    requires j <= ENTRIES
    decreases ENTRIES - j
  {
    if j == ENTRIES then Some(p)
    else
      match CopyOne(p, pd, old1, new1, i, kernelEnd, j)
      case None => None
      case Some(p1) => CopyTable(p1, pd, old1, new1, i, kernelEnd, j + 1)
  }

  /** The search for a user page outside the kernel image among the entries from `j` on. */
  predicate HasUserPage(t: Words, i: nat, kernelEnd: nat, j: nat := 0)
    requires j <= ENTRIES
    ensures HasUserPage(t, i, kernelEnd, j) <==>
      exists k :: j <= k < ENTRIES && Present(t[k]) && User(t[k]) && !InKernel(Vaddr(i, k), kernelEnd)
    decreases ENTRIES - j
  {
    j < ENTRIES &&
    ((Present(t[j]) && User(t[j]) && !InKernel(Vaddr(i, j), kernelEnd)) || HasUserPage(t, i, kernelEnd, j + 1))
  }

  /** Whether the table behind a present directory entry is copied; otherwise it is shared. */
  predicate CopiesTable(m: Memory, i: nat, pde: u32, kernelEnd: nat)
    requires FrameOf(pde) < FRAMES
  {
    if i <= 1 then HasUserPage(m[FrameOf(pde)], i, kernelEnd) else User(pde)
  }

  /** One directory entry. */
  function CloneEntry(p: Pool, pd: FrameNo, npd: FrameNo, i: nat, kernelEnd: nat): Option<Pool>
    requires i < SELF_MAP && (Present(p.mem[pd][i]) ==> FrameOf(p.mem[pd][i]) < FRAMES)
  {
    var pde := p.mem[pd][i];
    if !Present(pde) then Some(Poke(p, npd, i, 0))
    else if !CopiesTable(p.mem, i, pde, kernelEnd) then Some(Poke(p, npd, i, pde))
    else
      match Pop(p)
      case None => None
      case Some((t, p1)) =>
        match CopyTable(WithWords(p1, t, Zeroed()), pd, FrameOf(pde), t, i, kernelEnd)
        case None => None
        case Some(p2) => Some(Poke(p2, npd, i, WithFrame(t, pde)))
  }

  /** The directory's tables lie in memory. */
  predicate TablesInMemory(m: Memory, pd: FrameNo) {
    forall i | 0 <= i < SELF_MAP && Present(m[pd][i]) :: FrameOf(m[pd][i]) < FRAMES
  }

  /** The loop over the directory from `i` on. */
  function CloneFrom(p: Pool, pd: FrameNo, npd: FrameNo, kernelEnd: nat, i: nat := 0): Option<Pool>
    requires i <= SELF_MAP
    decreases SELF_MAP - i
  {
    if i == SELF_MAP then Some(p)
    else if Present(p.mem[pd][i]) && FrameOf(p.mem[pd][i]) >= FRAMES then None
    else
      match CloneEntry(p, pd, npd, i, kernelEnd)
      case None => None
      case Some(p1) => CloneFrom(p1, pd, npd, kernelEnd, i + 1)
  }

  /** paging_clone_directory: the new directory's frame, and memory behind it. None where the kernel
      panics, for want of frames or at a page fault; or if a table of the directory is no memory. */
  function Clone(p: Pool, pd: FrameNo, kernelEnd: nat): Option<(FrameNo, Pool)> {
    match Pop(p)
    case None => None
    case Some((npd, p1)) =>
      match CloneFrom(p1, pd, npd, kernelEnd)
      case None => None
      case Some(p2) => Some((npd, Poke(p2, npd, SELF_MAP, npd * PAGE_SIZE + 3)))
  }

  // ---------------------------------------------------------------- address translation

  /** What the processor finds for page `j` of directory entry `i`. */
  datatype Mapping = Unmapped | Mapped(frame: nat, tableFlags: nat, pageFlags: nat)

  function Walk(m: Memory, pd: FrameNo, i: nat, j: nat): Mapping
    requires i < ENTRIES && j < ENTRIES && (Present(m[pd][i]) ==> FrameOf(m[pd][i]) < FRAMES)
  {
    var pde := m[pd][i];
    if !Present(pde) then Unmapped
    else
      var pte := m[FrameOf(pde)][j];
      if !Present(pte) then Unmapped else Mapped(FrameOf(pte), Flags(pde), Flags(pte))
  }

  /** The pages that get a frame of their own. */
  predicate Copied(m: Memory, pd: FrameNo, kernelEnd: nat, i: nat, j: nat)
    requires i < SELF_MAP && j < ENTRIES && TablesInMemory(m, pd)
  {
    var pde := m[pd][i];
    && Present(pde) && Present(m[FrameOf(pde)][j]) && User(m[FrameOf(pde)][j])
    && if i <= 1 then !InKernel(Vaddr(i, j), kernelEnd) else User(pde)
  }

  predicate UserPage(m: Memory, pd: FrameNo, i: nat, j: nat)
    requires i < SELF_MAP && j < ENTRIES && TablesInMemory(m, pd)
  {
    Present(m[pd][i]) && UserEntry(m[FrameOf(m[pd][i])][j])
  }

  /** The frame of a page that is present. */
  function PageFrame(m: Memory, pd: FrameNo, i: nat, j: nat): nat
    requires i < SELF_MAP && j < ENTRIES && TablesInMemory(m, pd) && Present(m[pd][i])
  {
    FrameOf(m[FrameOf(m[pd][i])][j])
  }

  ghost predicate Distinct(s: seq<FrameNo>) { forall a, b | 0 <= a < b < |s| :: s[a] != s[b] }

  /** No two user pages lead to the same frame of memory. */
  ghost predicate Unshared(m: Memory, pd: FrameNo)
    requires TablesInMemory(m, pd)
  {
    forall i, j, k, l | 0 <= i < SELF_MAP && 0 <= j < ENTRIES && 0 <= k < SELF_MAP && 0 <= l < ENTRIES &&
        UserPage(m, pd, i, j) && UserPage(m, pd, k, l) && (i, j) != (k, l) ::
      PageFrame(m, pd, i, j) != PageFrame(m, pd, k, l) || PageFrame(m, pd, i, j) >= FRAMES
  }

  /** Entry 1023 leads back to the directory. */
  predicate SelfMapped(m: Memory, pd: FrameNo) { Present(m[pd][SELF_MAP]) && FrameOf(m[pd][SELF_MAP]) == pd }

  /** The free frames are distinct and are neither the directory nor a table nor mapped for user code,
      user code cannot reach the directory or a table either, and no two entries share a table, no two
      user pages a frame of memory; the directory is its own last table. */
  ghost predicate Separate(p: Pool, pd: FrameNo) {
    && SelfMapped(p.mem, pd) && Distinct(p.free) && pd !in p.free && TablesInMemory(p.mem, pd) && Unshared(p.mem, pd)
    && (forall i, k | 0 <= i < k < SELF_MAP && Present(p.mem[pd][i]) && Present(p.mem[pd][k]) ::
          FrameOf(p.mem[pd][i]) != FrameOf(p.mem[pd][k]))
    && (forall i | 0 <= i < SELF_MAP && Present(p.mem[pd][i]) :: FrameOf(p.mem[pd][i]) !in p.free && FrameOf(p.mem[pd][i]) != pd)
    && (forall i, j | 0 <= i < SELF_MAP && 0 <= j < ENTRIES && UserPage(p.mem, pd, i, j) ::
          PageFrame(p.mem, pd, i, j) !in p.free && PageFrame(p.mem, pd, i, j) != pd)
    && (forall i, j, k | 0 <= i < SELF_MAP && 0 <= j < ENTRIES && UserPage(p.mem, pd, i, j) && 0 <= k < SELF_MAP && Present(p.mem[pd][k]) ::
          PageFrame(p.mem, pd, i, j) != FrameOf(p.mem[pd][k]))
  }

  // ---------------------------------------------------------------- paging_map_page

  /** `(flags & 7) | 1`. */
  function MapFlags(flags: nat): (r: nat)
    ensures r < 8 && r % 2 == 1 && (r / 4 % 2 == 1 <==> flags / 4 % 2 == 1)
  {
    flags % 8 + (if flags % 2 == 0 then 1 else 0)
  }

  type PhysFrame = f: int | 0 <= f < 0x10_0000

  function Entry(f: PhysFrame, flags: nat): (e: u32)
    ensures FrameOf(e) == f && Flags(e) == MapFlags(flags) && Present(e) && (User(e) <==> flags / 4 % 2 == 1)
  {
    EntryBits(f, MapFlags(flags));
    f * PAGE_SIZE + MapFlags(flags)
  }

  lemma EntryBits(f: nat, r: nat)
    requires r < PAGE_SIZE
    ensures (f * PAGE_SIZE + r) % 2 == r % 2 && (f * PAGE_SIZE + r) / 4 % 2 == r / 4 % 2
  {
    LowBit(2048 * f, r);
    Quarter(f, r);
    LowBit(512 * f, r / 4);
  }

  lemma LowBit(h: nat, r: nat)
    ensures (2 * h + r) % 2 == r % 2
  {
  }

  lemma Quarter(f: nat, r: nat)
    ensures (f * PAGE_SIZE + r) / 4 == 1024 * f + r / 4
  {
  }

  /** The table for directory entry `i`, made if there is none. */
  function WithTable(p: Pool, pd: FrameNo, i: nat, flags: nat): Option<Pool>
    requires i < SELF_MAP
  {
    if Present(p.mem[pd][i]) then Some(p)
    else
      match Pop(p)
      case None => None
      case Some((t, p1)) => Some(Poke(WithWords(p1, t, Zeroed()), pd, i, Entry(t, flags)))
  }

  /** paging_map_page: page `j` of directory entry `i` leads to frame `f`. None where the kernel panics
      for want of a table, or if the table lies outside memory. */
  function MapPage(p: Pool, pd: FrameNo, i: nat, j: nat, f: PhysFrame, flags: nat): Option<Pool>
    requires i < SELF_MAP && j < ENTRIES
  {
    match WithTable(p, pd, i, flags)
    case None => None
    case Some(p1) =>
      if FrameOf(p1.mem[pd][i]) >= FRAMES then None
      else Some(Poke(p1, FrameOf(p1.mem[pd][i]), j, Entry(f, flags)))
  }

  /** paging_alloc_page: a free frame, mapped present, writable and for user code. */
  function AllocPage(p: Pool, pd: FrameNo, i: nat, j: nat): Option<Pool>
    requires i < SELF_MAP && j < ENTRIES
  {
    match Pop(p)
    case None => None
    case Some((f, p1)) => MapPage(p1, pd, i, j, f, 7)
  }

  /** paging_init: an identity-mapped first table and the self-map. */
  function Init(p: Pool): Option<(FrameNo, Pool)> {
    match Pop(p)
    case None => None
    case Some((pd, p1)) =>
      match Pop(p1)
      case None => None
      case Some((t, p2)) =>
        var p3 := WithWords(WithWords(p2, pd, Zeroed()), t, seq(ENTRIES, j requires 0 <= j < ENTRIES => j * PAGE_SIZE + 3));
        Some((pd, Poke(Poke(p3, pd, 0, t * PAGE_SIZE + 3), pd, SELF_MAP, pd * PAGE_SIZE + 3)))
  }
}
