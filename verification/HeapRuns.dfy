/** Theorems about kmalloc and kfree over whole sequences of calls. */
module HeapRuns {
  import opened Wrappers
  import opened HeapSpec

  const Fresh: seq<Block> := [Block(HEAP_SIZE, true)]

  /** Index of the live block that begins at offset `o`. */
  function BlockAt(bs: seq<Block>, at: nat, o: nat): (k: nat)
    requires AllSound(bs) && SizeAt(bs, at, o) > 0
    ensures k < |bs| && !bs[k].free && at + Offset(bs, k) == o && bs[k].size == SizeAt(bs, at, o)
  {
    if o == at then
      assert bs[..0] == [];
      0
    else
      var k := BlockAt(bs[1..], at + bs[0].size, o) + 1;
      assert bs[..k] == [bs[0]] + bs[1..][..k - 1];
      k
  }

  function FreeAt(bs: seq<Block>, o: nat): seq<Block>
    requires AllSound(bs) && LiveSize(bs, o) > 0
  {
    Release(bs, BlockAt(bs, 0, o))
  }

  /** kfree(kmalloc(n)) restores the exact block list, split or not. */
  lemma FreeUndoesAlloc(bs: seq<Block>, size: u32)
    requires WellFormed(bs) && Alloc(bs, NeedSize(size)).Some?
    ensures var (o, bs') := Alloc(bs, NeedSize(size)).value;
      AllSound(bs') && LiveSize(bs', o) > 0 && FreeAt(bs', o) == bs
  {
    var need := NeedSize(size);
    var (o, bs') := Alloc(bs, need).value;
    AllocKeepsWellFormed(bs, need);
    AllocLive(bs, need, o);
    var k := BlockAt(bs', 0, o);
    ReleaseKeepsWellFormed(bs', k);
    forall p: nat ensures SizeAt(Release(bs', k), 0, p) == SizeAt(bs, 0, p) {
      AllocLive(bs, need, p);
      ReleaseLive(bs', k, p);
    }
    LiveIsCanonical(Release(bs', k), bs, 0);
  }

  // ---------------------------------------------------------------- any sequence of calls

  datatype Call = Kmalloc(size: u32) | Kfree(o: nat)

  /** kfree is called with live pointers only. */
  predicate Legal(bs: seq<Block>, cs: seq<Call>)
    requires WellFormed(bs)
    decreases |cs|
  {
    cs == [] || (CanCall(bs, cs[0]) && (CallKeepsWellFormed(bs, cs[0]); Legal(After1(bs, cs[0]), cs[1..])))
  }

  predicate CanCall(bs: seq<Block>, c: Call) {
    AllSound(bs) && (c.Kfree? ==> LiveSize(bs, c.o) > 0)
  }

  function After1(bs: seq<Block>, c: Call): seq<Block>
    requires CanCall(bs, c)
  {
    match c
    case Kmalloc(0) => bs
    case Kmalloc(size) => (match Alloc(bs, NeedSize(size)) case None => bs case Some((_, bs')) => bs')
    case Kfree(o) => FreeAt(bs, o)
  }

  lemma CallKeepsWellFormed(bs: seq<Block>, c: Call)
    requires WellFormed(bs) && CanCall(bs, c)
    ensures WellFormed(After1(bs, c))
  {
    match c
    case Kmalloc(size) => if Alloc(bs, NeedSize(size)).Some? { AllocKeepsWellFormed(bs, NeedSize(size)); }
    case Kfree(o) => ReleaseKeepsWellFormed(bs, BlockAt(bs, 0, o));
  }

  function After(bs: seq<Block>, cs: seq<Call>): seq<Block>
    requires WellFormed(bs) && Legal(bs, cs)
    decreases |cs|
  {
    if cs == [] then bs
    else
      CallKeepsWellFormed(bs, cs[0]);
      After(After1(bs, cs[0]), cs[1..])
  }

  lemma {:induction false} RunKeepsWellFormed(bs: seq<Block>, cs: seq<Call>)
    requires WellFormed(bs) && Legal(bs, cs)
    ensures WellFormed(After(bs, cs))
    decreases |cs|
  {
    if cs != [] {
      CallKeepsWellFormed(bs, cs[0]);
      RunKeepsWellFormed(After1(bs, cs[0]), cs[1..]);
    }
  }

  lemma NeedIsBlock(size: u32)
    ensures NeedSize(size) % 8 == 0 && NeedSize(size) >= MIN_BLOCK
  {
  }

  lemma KmallocIs(bs: seq<Block>, size: u32)
    requires AllSound(bs)
    ensures After1(bs, Kmalloc(size)) ==
      if size == 0 || Alloc(bs, NeedSize(size)).None? then bs else Alloc(bs, NeedSize(size)).value.1
  {
    hide Alloc, NeedSize;
  }

  /** Only the block that a call names comes or goes; all others keep their place and size. */
  lemma CallLeavesOthers(bs: seq<Block>, c: Call, o: nat)
    requires WellFormed(bs) && CanCall(bs, c)
    requires c.Kfree? ==> o != c.o
    requires LiveSize(bs, o) > 0
    ensures LiveSize(After1(bs, c), o) == LiveSize(bs, o)
  {
    hide Alloc, Release, SizeAt, Extent, NeedSize, WellFormed;
    match c
    case Kmalloc(size) =>
      NeedIsBlock(size);
      if Alloc(bs, NeedSize(size)).Some? { AllocLive(bs, NeedSize(size), o); }
    case Kfree(p) => ReleaseLive(bs, BlockAt(bs, 0, p), o);
  }

  function FreeCalls(order: seq<nat>): seq<Call> {
    if order == [] then [] else [Kfree(order[0])] + FreeCalls(order[1..])
  }

  ghost predicate Distinct(order: seq<nat>) {
    forall i, j | 0 <= i < j < |order| :: order[i] != order[j]
  }

  /** Freeing every live pointer, in any order, leaves one free block. */
  lemma {:induction false} FreeAllInAnyOrder(bs: seq<Block>, order: seq<nat>)
    requires WellFormed(bs) && Distinct(order)
    requires forall o: nat :: o in order <==> LiveSize(bs, o) > 0
    ensures Legal(bs, FreeCalls(order)) && After(bs, FreeCalls(order)) == Fresh
    decreases |order|
  {
    if order == [] {
      LiveFresh(bs);
      LiveIsCanonical(bs, Fresh, 0);
    } else {
      var o, bs' := order[0], FreeAt(bs, order[0]);
      var k := BlockAt(bs, 0, o);
      ReleaseKeepsWellFormed(bs, k);
      forall p: nat ensures p in order[1..] <==> LiveSize(bs', p) > 0 {
        ReleaseLive(bs, k, p);
        assert p in order <==> p == o || p in order[1..];
        if p in order[1..] { var i :| 0 <= i < |order[1..]| && order[1..][i] == p; assert order[i + 1] == p; }
      }
      assert forall i, j | 0 <= i < j < |order[1..]| :: order[1..][i] == order[i + 1] && order[1..][j] == order[j + 1];
      FreeAllInAnyOrder(bs', order[1..]);
      assert FreeCalls(order)[1..] == FreeCalls(order[1..]);
    }
  }

  lemma LiveFresh(bs: seq<Block>)
    requires WellFormed(bs) && forall o: nat :: LiveSize(bs, o) == 0
    ensures WellFormed(Fresh) && SameLive(bs, Fresh, 0)
  {
    ExtentOne(Fresh[0]);
    forall o: nat ensures SizeAt(bs, 0, o) == SizeAt(Fresh, 0, o) {
      assert LiveSize(bs, o) == 0;
      NothingLive(Fresh, 0, o);
    }
  }

  // ---------------------------------------------------------------- complete first fit

  /** The byte at offset `x` belongs to a free block. */
  predicate FreeByte(bs: seq<Block>, at: nat, x: nat) {
    bs != [] && x >= at && (if x < at + bs[0].size then bs[0].free else FreeByte(bs[1..], at + bs[0].size, x))
  }

  ghost predicate FreeRun(bs: seq<Block>, at: nat, x: nat, n: nat) {
    forall y: nat | x <= y < x + n :: FreeByte(bs, at, y)
  }

  lemma TakenAfterFree(bs: seq<Block>, at: nat)
    requires AllSound(bs) && Coalesced(bs) && bs != [] && bs[0].free
    ensures !FreeByte(bs, at, at + bs[0].size)
  {
    assert |bs| > 1 ==> Sound(bs[1]) && !(bs[0].free && bs[0 + 1].free);
  }

  /** A run of free bytes lies within one free block, because no two free blocks are neighbours. */
  lemma {:induction false} RunInOneBlock(bs: seq<Block>, at: nat, x: nat, n: nat) returns (k: nat)
    requires AllSound(bs) && Coalesced(bs) && n > 0 && FreeRun(bs, at, x, n)
    ensures k < |bs| && bs[k].free && at + Offset(bs, k) <= x && x + n <= at + Offset(bs, k) + bs[k].size
  {
    assert FreeByte(bs, at, x);
    var end: nat := at + bs[0].size;
    if x < end {
      k := 0;
      assert bs[..0] == [];
      TakenAfterFree(bs, at);
      assert x + n > end ==> FreeByte(bs, at, end);
    } else {
      forall y: nat | x <= y < x + n ensures FreeByte(bs[1..], end, y) { assert FreeByte(bs, at, y); }
      var j := RunInOneBlock(bs[1..], end, x, n);
      k := j + 1;
      assert bs[..k] == [bs[0]] + bs[1..][..j];
    }
  }

  lemma {:induction false} FreeBlockIsRun(bs: seq<Block>, at: nat, k: nat, y: nat)
    requires AllSound(bs) && k < |bs| && bs[k].free && at + Offset(bs, k) <= y < at + Offset(bs, k) + bs[k].size
    ensures FreeByte(bs, at, y)
  {
    if k == 0 {
      assert bs[..0] == [];
    } else {
      assert bs[..k] == [bs[0]] + bs[1..][..k - 1];
      FreeBlockIsRun(bs[1..], at + bs[0].size, k - 1, y);
    }
  }

  lemma {:induction false} OffsetMonotone(bs: seq<Block>, j: nat, k: nat)
    requires AllSound(bs) && j < k <= |bs|
    ensures Offset(bs, j) + bs[j].size <= Offset(bs, k)
  {
    assert bs[..k] == bs[..j] + ([bs[j]] + bs[j + 1..k]);
    ExtentConcat(bs[..j], [bs[j]] + bs[j + 1..k]);
    ExtentConcat([bs[j]], bs[j + 1..k]);
    ExtentOne(bs[j]);
  }

  /** kmalloc fails only if no run of free bytes is long enough anywhere, and otherwise takes the
      lowest one. */
  lemma CompleteFirstFit(bs: seq<Block>, need: u32, x: nat)
    requires WellFormed(bs) && need > 0
    ensures Alloc(bs, need).None? ==> !FreeRun(bs, 0, x, need)
    ensures Alloc(bs, need).Some? ==> var o := Alloc(bs, need).value.0;
      FreeRun(bs, 0, o, need) && (FreeRun(bs, 0, x, need) ==> o <= x)
  {
    var k := FirstFit(bs, need);
    if FreeRun(bs, 0, x, need) {
      var j := RunInOneBlock(bs, 0, x, need);
      assert Fits(bs[j], need) && k <= j;
      if k < j { OffsetMonotone(bs, k, j); }
    }
    if k < |bs| {
      forall y: nat | Offset(bs, k) <= y < Offset(bs, k) + need ensures FreeByte(bs, 0, y) {
        FreeBlockIsRun(bs, 0, k, y);
      }
    }
  }

  /** A block that a request of `size` bytes may get: 8-byte steps, at least 16 bytes, and room for the request
      between header and footer. */
  predicate Serves(n: nat, size: u32) { n % 8 == 0 && n >= 16 && n >= size + 8 }

  /** `need` is the smallest block for the request. */
  ghost predicate IsLeast(need: nat, size: u32) {
    Serves(need, size) && forall n: nat | Serves(n, size) :: need <= n
  }

  /** The block size is the smallest that serves, unless it wraps around; then it is the smallest of all. */
  lemma NeedIsLeast(size: u32)
    requires size > 0
    ensures if size <= 0xFFFFFFF0 then IsLeast(NeedSize(size), size) else NeedSize(size) == 16
  {
    if size <= 0xFFFFFFF0 {
      RoundedUp(size);
      forall n: nat | Serves(n, size) ensures 8 * ((size + 7) / 8) + 8 <= n { NextEight(n, size); }
    }
  }

  lemma RoundedUp(size: u32)
    requires 0 < size <= 0xFFFFFFF0
    ensures NeedSize(size) == 8 * ((size + 7) / 8) + 8 && size <= 8 * ((size + 7) / 8)
  {
  }

  lemma NextEight(n: nat, size: nat)
    requires n % 8 == 0 && n >= size + 8
    ensures 8 * ((size + 7) / 8) + 8 <= n
  {
  }

  /** kmalloc(size) fails only if there is no run of free bytes for the smallest block that serves the request;
      otherwise it hands out a block at the lowest such run, of that size or up to 15 bytes more. */
  lemma KmallocTakesLowest(bs: seq<Block>, size: u32, need: nat, x: nat)
    requires WellFormed(bs) && 0 < size && (if size <= 0xFFFFFFF0 then IsLeast(need, size) else need == 16)
    ensures Alloc(bs, NeedSize(size)).None? <==> forall y: nat :: !FreeRun(bs, 0, y, need)
    ensures Alloc(bs, NeedSize(size)).Some? ==>
      var (o, bs') := Alloc(bs, NeedSize(size)).value;
      && FreeRun(bs, 0, o, need) && (FreeRun(bs, 0, x, need) ==> o <= x) && need <= LiveSize(bs', o) < need + 16
  {
    hide FreeRun, Alloc, NeedSize;
    NeedIsLeast(size);
    assert need == NeedSize(size) && need % 8 == 0 && need >= 16;
    forall y: nat ensures Alloc(bs, need).None? ==> !FreeRun(bs, 0, y, need) { CompleteFirstFit(bs, need, y); }
    CompleteFirstFit(bs, need, x);
    if Alloc(bs, need).Some? { AllocLive(bs, need, Alloc(bs, need).value.0); }
  }

  /** On the fresh heap two requests of 8 bytes get the pointers 0x200004 and 0x200014, and one of none gets nothing. */
  lemma FirstPointers()
    ensures WellFormed(Fresh) && After1(Fresh, Kmalloc(0)) == Fresh
    ensures Alloc(Fresh, NeedSize(8)).Some?
    ensures var (o, bs) := Alloc(Fresh, NeedSize(8)).value;
      HEAP_START + o + 4 == 0x200004 && Alloc(bs, NeedSize(8)).Some? && HEAP_START + Alloc(bs, NeedSize(8)).value.0 + 4 == 0x200014
  {
    ExtentOne(Fresh[0]);
    assert Fresh[..0] == [] && Fresh[1..] == [];
    assert FirstFit(Fresh, 16) == 0;
    var bs := Take(Fresh, 0, 16);
    assert bs == [Block(16, false), Block(HEAP_SIZE - 16, true)];
    assert FirstFit(bs, 16, 1) == 1 && FirstFit(bs, 16) == 1;
    assert bs[..1] == [bs[0]];
    ExtentOne(bs[0]);
  }

  /** On the fresh heap the largest request that can be met is 0x3FFF8 bytes. */
  lemma LargestRequest()
    ensures WellFormed(Fresh) && NeedSize(0x3FFF8) == HEAP_SIZE && Alloc(Fresh, NeedSize(0x3FFF8)) == Some((0, [Block(HEAP_SIZE, false)]))
    ensures Alloc(Fresh, NeedSize(0x3FFF9)).None?
  {
    ExtentOne(Fresh[0]);
    assert Fresh[..0] == [] && Fresh[1..] == [];
    assert FirstFit(Fresh, HEAP_SIZE) == 0;
    assert Take(Fresh, 0, HEAP_SIZE) == [Block(HEAP_SIZE, false)];
    assert Offset(Fresh, 0) == 0;
  }

  /** A request is honoured in full exactly if its block size does not wrap around. */
  lemma PayloadIffNoWrap(bs: seq<Block>, size: u32)
    requires WellFormed(bs) && Alloc(bs, NeedSize(size)).Some?
    ensures var (o, bs') := Alloc(bs, NeedSize(size)).value;
      LiveSize(bs', o) - 8 >= size <==> size <= 0xFFFFFFF0
  {
    AllocLive(bs, NeedSize(size), Alloc(bs, NeedSize(size)).value.0);
  }

  /** The largest request gets the smallest block. */
  lemma WrapOccurs()
    ensures WellFormed(Fresh) && NeedSize(0xFFFFFFFF) == MIN_BLOCK
    ensures Alloc(Fresh, NeedSize(0xFFFFFFFF)) == Some((0, [Block(16, false), Block(HEAP_SIZE - 16, true)]))
  {
    ExtentOne(Fresh[0]);
    assert Fresh[..0] == [] && Fresh[1..] == [];
    assert FirstFit(Fresh, MIN_BLOCK) == 0;
    assert Handed(Fresh[0], MIN_BLOCK) == [Block(16, false), Block(HEAP_SIZE - 16, true)];
    assert Take(Fresh, 0, MIN_BLOCK) == Handed(Fresh[0], MIN_BLOCK);
    assert Offset(Fresh, 0) == 0;
  }

  lemma {:induction false} ExtentAligned(bs: seq<Block>)
    requires AllSound(bs)
    ensures Extent(bs) % 8 == 0
  {
    if bs != [] { ExtentAligned(bs[1..]); }
  }

  /** Every pointer that kmalloc returns is 4 modulo 8, whatever the header file promises. */
  lemma PointersAreMisaligned(bs: seq<Block>, size: u32)
    requires WellFormed(bs) && Alloc(bs, NeedSize(size)).Some?
    ensures (HEAP_START + Alloc(bs, NeedSize(size)).value.0 + 4) % 8 == 4
  {
    ExtentAligned(bs[..FirstFit(bs, NeedSize(size))]);
  }
}
