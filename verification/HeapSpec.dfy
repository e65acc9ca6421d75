/** The kernel heap of kernel/kmalloc.c as the list of its blocks, lowest address first.
    Sizes and offsets are in bytes, offsets from HEAP_START; a size counts header and footer. */
module HeapSpec {
  import opened Wrappers

  const HEAP_START: int := 0x200000
  const HEAP_SIZE: int := 0x40000
  const MIN_BLOCK: int := 16
  const WORD_MAX: int := 0xFFFFFFFF

  datatype Block = Block(size: nat, free: bool)

  predicate Sound(b: Block) { b.size % 8 == 0 && b.size >= MIN_BLOCK }

  predicate AllSound(bs: seq<Block>) { forall k | 0 <= k < |bs| :: Sound(bs[k]) }

  function Extent(bs: seq<Block>): nat {
    if bs == [] then 0 else bs[0].size + Extent(bs[1..])
  }

  predicate Coalesced(bs: seq<Block>) {
    forall k | 0 <= k < |bs| - 1 :: !(bs[k].free && bs[k + 1].free)
  }

  /** The heap is tiled exactly by sound blocks, and no two neighbours are both free. */
  predicate WellFormed(bs: seq<Block>) {
    AllSound(bs) && Coalesced(bs) && Extent(bs) == HEAP_SIZE
  }

  /** The block size for a request, in 32-bit arithmetic. */
  function NeedSize(size: u32): (need: u32) {
    var aligned := (size + 7) % (WORD_MAX + 1) / 8 * 8;
    var need := (4 + aligned + 4) % (WORD_MAX + 1);
    if need < MIN_BLOCK then MIN_BLOCK else need
  }

  predicate Fits(b: Block, need: u32) { b.free && b.size >= need }

  function FirstFit(bs: seq<Block>, need: u32, k: nat := 0): (r: nat)
    requires k <= |bs|
    ensures k <= r <= |bs|
    ensures r < |bs| ==> Fits(bs[r], need)
    ensures forall j | k <= j < r :: !Fits(bs[j], need)
    decreases |bs| - k
  {
    if k == |bs| || Fits(bs[k], need) then k else FirstFit(bs, need, k + 1)
  }

  /** What becomes of a free block that is handed out: it is split if what remains can be a block
      of its own. */
  function Handed(b: Block, need: u32): seq<Block>
    requires Fits(b, need)
  {
    if b.size - need >= MIN_BLOCK then [Block(need, false), Block(b.size - need, true)] else [Block(b.size, false)]
  }

  function Take(bs: seq<Block>, k: nat, need: u32): seq<Block>
    requires k < |bs| && Fits(bs[k], need)
  {
    bs[..k] + (Handed(bs[k], need) + bs[k + 1..])
  }

  function Offset(bs: seq<Block>, k: nat): nat
    requires k <= |bs|
  {
    Extent(bs[..k])
  }

  /** What kmalloc does to the blocks: the offset of the block it hands out and the new blocks. */
  function Alloc(bs: seq<Block>, need: u32): Option<(nat, seq<Block>)> {
    var k := FirstFit(bs, need);
    if k == |bs| then None else Some((Offset(bs, k), Take(bs, k, need)))
  }

  /** Blocks `k` and `k+1` become one free block. */
  function Merge(bs: seq<Block>, k: nat): seq<Block>
    requires k + 1 < |bs|
  {
    bs[..k] + [Block(bs[k].size + bs[k + 1].size, true)] + bs[k + 2..]
  }

  /** What kfree does to the blocks. */
  function Release(bs: seq<Block>, k: nat): seq<Block>
    requires k < |bs|
  {
    var freed := bs[k := Block(bs[k].size, true)];
    var right := if k + 1 < |bs| && bs[k + 1].free then Merge(freed, k) else freed;
    if k > 0 && bs[k - 1].free then Merge(right, k - 1) else right
  }

  // ---------------------------------------------------------------- the live blocks

  /** Size of the allocated block that begins at offset `o`, or 0, when `bs` begins at `at`. */
  function SizeAt(bs: seq<Block>, at: nat, o: nat): nat {
    if bs == [] then 0
    else if o == at then if bs[0].free then 0 else bs[0].size
    else if o < at + bs[0].size then 0
    else SizeAt(bs[1..], at + bs[0].size, o)
  }

  function LiveSize(bs: seq<Block>, o: nat): nat { SizeAt(bs, 0, o) }

  lemma {:induction false} ExtentConcat(a: seq<Block>, b: seq<Block>)
    ensures Extent(a + b) == Extent(a) + Extent(b)
  {
    if a == [] {
      assert a + b == b;
    } else {
      assert (a + b)[1..] == a[1..] + b;
      ExtentConcat(a[1..], b);
    }
  }

  lemma {:induction false} SizeAtBounds(bs: seq<Block>, at: nat, o: nat)
    requires AllSound(bs) && SizeAt(bs, at, o) > 0
    ensures at <= o && o + SizeAt(bs, at, o) <= at + Extent(bs) && SizeAt(bs, at, o) >= MIN_BLOCK
  {
    if o != at { SizeAtBounds(bs[1..], at + bs[0].size, o); }
  }

  lemma {:induction false} SizeAtConcat(a: seq<Block>, b: seq<Block>, at: nat, o: nat)
    requires AllSound(a)
    ensures SizeAt(a + b, at, o) == if o < at + Extent(a) then SizeAt(a, at, o) else SizeAt(b, at + Extent(a), o)
  {
    if a == [] {
      assert a + b == b;
    } else {
      assert (a + b)[1..] == a[1..] + b && (a + b)[0] == a[0];
      SizeAtConcat(a[1..], b, at + a[0].size, o);
    }
  }

  /** No two live blocks overlap. */
  lemma {:induction false} LiveBlocksDisjoint(bs: seq<Block>, at: nat, o: nat, p: nat)
    requires AllSound(bs) && SizeAt(bs, at, o) > 0 && SizeAt(bs, at, p) > 0 && o < p
    ensures o + SizeAt(bs, at, o) <= p
  {
    SizeAtBounds(bs, at, o);
    if o != at { LiveBlocksDisjoint(bs[1..], at + bs[0].size, o, p); }
  }

  ghost predicate SameLive(a: seq<Block>, b: seq<Block>, at: nat) {
    forall o: nat :: SizeAt(a, at, o) == SizeAt(b, at, o)
  }

  /** The live blocks determine the whole list: everything else is free and coalesced. */
  lemma {:induction false} LiveIsCanonical(a: seq<Block>, b: seq<Block>, at: nat)
    requires AllSound(a) && AllSound(b) && Coalesced(a) && Coalesced(b) && Extent(a) == Extent(b)
    requires SameLive(a, b, at)
    ensures a == b
  {
    if a != [] && b != [] {
      assert SizeAt(a, at, at) == SizeAt(b, at, at);
      if a[0].free { SameGap(a, b, at); }
      var ta, tb, next := a[1..], b[1..], at + a[0].size;
      forall o: nat ensures SizeAt(ta, next, o) == SizeAt(tb, next, o) {
        TailLive(a, at, o);
        TailLive(b, at, o);
        assert SizeAt(a, at, o) == SizeAt(b, at, o);
      }
      LiveIsCanonical(ta, tb, next);
      assert a == [a[0]] + a[1..] && b == [b[0]] + b[1..];
    }
  }

  lemma TailLive(bs: seq<Block>, at: nat, o: nat)
    requires AllSound(bs) && bs != []
    ensures SizeAt(bs[1..], at + bs[0].size, o) == if o < at + bs[0].size then 0 else SizeAt(bs, at, o)
  {
  }

  /** A leading free block ends where the first live block begins, or at the end. */
  lemma SameGap(a: seq<Block>, b: seq<Block>, at: nat)
    requires AllSound(a) && AllSound(b) && Coalesced(a) && Coalesced(b)
    requires a != [] && b != [] && a[0].free && b[0].free && Extent(a) == Extent(b) && SameLive(a, b, at)
    ensures a[0].size == b[0].size
  {
    if a[0].size < b[0].size { NoShorterGap(a, b, at); }
    if b[0].size < a[0].size { NoShorterGap(b, a, at); }
  }

  lemma NoShorterGap(a: seq<Block>, b: seq<Block>, at: nat)
    requires AllSound(a) && AllSound(b) && Coalesced(a)
    requires a != [] && b != [] && a[0].free && b[0].free && Extent(a) == Extent(b) && SameLive(a, b, at)
    ensures a[0].size >= b[0].size
  {
    hide SizeAt;
    if a[0].size < b[0].size {
      NothingInGap(b, at, at + a[0].size);
      LiveBehindGap(a, at);
    }
  }

  lemma NothingInGap(b: seq<Block>, at: nat, o: nat)
    requires b != [] && b[0].free && at <= o < at + b[0].size
    ensures SizeAt(b, at, o) == 0 && Extent(b) >= b[0].size
  {
  }

  lemma LiveBehindGap(a: seq<Block>, at: nat)
    requires AllSound(a) && Coalesced(a) && a != [] && a[0].free && Extent(a) > a[0].size
    ensures SizeAt(a, at, at + a[0].size) > 0
  {
    assert Extent(a) == a[0].size + Extent(a[1..]) && |a| > 1;
    assert !(a[0].free && a[0 + 1].free);
    assert SizeAt(a, at, at + a[0].size) == a[1].size;
  }

  // ---------------------------------------------------------------- what kmalloc and kfree keep

  /** Blocks between `pre` and `post` are replaced by others of the same extent. */
  lemma ReplacedExtent(pre: seq<Block>, was: seq<Block>, now: seq<Block>, post: seq<Block>)
    requires Extent(was) == Extent(now)
    ensures Extent(pre + (now + post)) == Extent(pre + (was + post))
  {
    ExtentConcat(pre, was + post);
    ExtentConcat(pre, now + post);
    ExtentConcat(was, post);
    ExtentConcat(now, post);
  }

  lemma ReplacedLive(pre: seq<Block>, was: seq<Block>, now: seq<Block>, post: seq<Block>, o: nat)
    requires AllSound(pre) && AllSound(was) && AllSound(now) && Extent(was) == Extent(now)
    ensures SizeAt(pre + (now + post), 0, o) ==
      if Extent(pre) <= o < Extent(pre) + Extent(was) then SizeAt(now, Extent(pre), o)
      else SizeAt(pre + (was + post), 0, o)
    ensures Extent(pre) <= o < Extent(pre) + Extent(was) ==> SizeAt(pre + (was + post), 0, o) == SizeAt(was, Extent(pre), o)
  {
    SizeAtConcat(pre, was + post, 0, o);
    SizeAtConcat(pre, now + post, 0, o);
    SizeAtConcat(was, post, Extent(pre), o);
    SizeAtConcat(now, post, Extent(pre), o);
  }

  lemma ExtentOne(b: Block)
    ensures Extent([b]) == b.size
  {
    assert [b][1..] == [];
  }

  lemma {:induction false} NothingLive(bs: seq<Block>, at: nat, o: nat)
    requires forall k | 0 <= k < |bs| :: bs[k].free
    ensures SizeAt(bs, at, o) == 0
  {
    if bs != [] { NothingLive(bs[1..], at + bs[0].size, o); }
  }

  lemma HandedFacts(b: Block, need: u32, at: nat, o: nat)
    requires Sound(b) && Fits(b, need) && need % 8 == 0 && need >= MIN_BLOCK
    ensures var now := Handed(b, need);
      && AllSound(now) && Extent(now) == b.size && !now[0].free && need <= now[0].size < need + MIN_BLOCK
      && SizeAt(now, at, o) == if o == at then now[0].size else 0
  {
    var now := Handed(b, need);
    if |now| == 2 {
      assert now == [now[0]] + [now[1]] && now[1..] == [now[1]];
      ExtentConcat([now[0]], [now[1]]);
      ExtentOne(now[0]);
      ExtentOne(now[1]);
      NothingLive(now[1..], at + now[0].size, o);
    } else {
      assert now[1..] == [];
      ExtentOne(now[0]);
    }
  }

  lemma Split(bs: seq<Block>, k: nat)
    requires k < |bs|
    ensures bs == bs[..k] + ([bs[k]] + bs[k + 1..])
  {
  }

  lemma AllocKeepsWellFormed(bs: seq<Block>, need: u32)
    requires WellFormed(bs) && need % 8 == 0 && need >= MIN_BLOCK && Alloc(bs, need).Some?
    ensures WellFormed(Alloc(bs, need).value.1)
  {
    hide Handed, Extent;
    var k := FirstFit(bs, need);
    Split(bs, k);
    HandedFacts(bs[k], need, 0, 0);
    ExtentOne(bs[k]);
    ReplacedExtent(bs[..k], [bs[k]], Handed(bs[k], need), bs[k + 1..]);
    TakeCoalesced(bs, k, need);
  }

  lemma TakeCoalesced(bs: seq<Block>, k: nat, need: u32)
    requires k < |bs| && Fits(bs[k], need) && Coalesced(bs)
    ensures Coalesced(Take(bs, k, need))
  {
    var bs', n := Take(bs, k, need), |Handed(bs[k], need)|;
    forall j | 0 <= j < |bs'| - 1 ensures !(bs'[j].free && bs'[j + 1].free) {
      if j < k - 1 {
        assert !(bs[j].free && bs[j + 1].free);
      } else if j >= k + n - 1 {
        assert bs'[j + 1] == bs[j + 2 - n];
        assert !(bs[j + 1 - n].free && bs[j + 1 - n + 1].free);
      }
    }
  }

  /** kmalloc turns free bytes into one live block that is large enough, and leaves every other
      live block alone. */
  lemma AllocLive(bs: seq<Block>, need: u32, o: nat)
    requires WellFormed(bs) && need % 8 == 0 && need >= MIN_BLOCK && Alloc(bs, need).Some?
    ensures var (at, bs') := Alloc(bs, need).value;
      && LiveSize(bs, at) == 0 && need <= LiveSize(bs', at) < need + MIN_BLOCK
      && (o != at ==> LiveSize(bs', o) == LiveSize(bs, o))
  {
    hide Handed, Extent;
    var k := FirstFit(bs, need);
    var at, now := Offset(bs, k), Handed(bs[k], need);
    Split(bs, k);
    ExtentOne(bs[k]);
    HandedFacts(bs[k], need, at, o);
    HandedFacts(bs[k], need, at, at);
    ReplacedLive(bs[..k], [bs[k]], now, bs[k + 1..], o);
    ReplacedLive(bs[..k], [bs[k]], now, bs[k + 1..], at);
    assert [bs[k]][1..] == [];
  }

  // ---------------------------------------------------------------- kfree

  lemma MergeSplit(bs: seq<Block>, k: nat)
    requires k + 1 < |bs|
    ensures bs == bs[..k] + (([bs[k]] + [bs[k + 1]]) + bs[k + 2..])
    ensures Merge(bs, k) == bs[..k] + ([Block(bs[k].size + bs[k + 1].size, true)] + bs[k + 2..])
    ensures Merge(bs, k)[..k] == bs[..k]
  {
  }

  lemma MergeFacts(bs: seq<Block>, k: nat, o: nat)
    requires AllSound(bs) && k + 1 < |bs| && bs[k].free && bs[k + 1].free
    ensures AllSound(Merge(bs, k)) && Extent(Merge(bs, k)) == Extent(bs)
    ensures LiveSize(Merge(bs, k), o) == LiveSize(bs, o)
    ensures Offset(Merge(bs, k), k) == Offset(bs, k)
  {
    hide SizeAt, Extent, Merge;
    var was, now := [bs[k]] + [bs[k + 1]], [Block(bs[k].size + bs[k + 1].size, true)];
    var pre, post := bs[..k], bs[k + 2..];
    MergeSplit(bs, k);
    ExtentConcat([bs[k]], [bs[k + 1]]);
    ExtentOne(bs[k]);
    ExtentOne(bs[k + 1]);
    ExtentOne(now[0]);
    ReplacedExtent(pre, was, now, post);
    ReplacedLive(pre, was, now, post, o);
    NothingLive(was, Extent(pre), o);
    NothingLive(now, Extent(pre), o);
    MergeSound(bs, k);
  }

  lemma MergeSound(bs: seq<Block>, k: nat)
    requires AllSound(bs) && k + 1 < |bs|
    ensures AllSound(Merge(bs, k))
  {
    var bs' := Merge(bs, k);
    assert forall j | 0 <= j < k :: bs'[j] == bs[j];
    assert forall j | k < j < |bs'| :: bs'[j] == bs[j + 1];
  }

  /** `bs` with block `k` marked free and nothing merged. */
  lemma FreedFacts(bs: seq<Block>, k: nat, o: nat)
    requires AllSound(bs) && k < |bs| && !bs[k].free
    ensures var freed := bs[k := Block(bs[k].size, true)];
      && AllSound(freed) && Extent(freed) == Extent(bs)
      && LiveSize(freed, o) == (if o == Offset(bs, k) then 0 else LiveSize(bs, o))
      && LiveSize(bs, Offset(bs, k)) == bs[k].size
  {
    hide Extent;
    var freed := bs[k := Block(bs[k].size, true)];
    var pre, post, was, now := bs[..k], bs[k + 1..], [bs[k]], [freed[k]];
    Split(bs, k);
    assert freed == pre + (now + post);
    ExtentOne(bs[k]);
    ExtentOne(freed[k]);
    ReplacedExtent(pre, was, now, post);
    ReplacedLive(pre, was, now, post, o);
    ReplacedLive(pre, was, now, post, Extent(pre));
    NothingLive(now, Extent(pre), o);
    assert was[1..] == [];
  }

  /** kfree makes the live block at `o` vanish and leaves every other live block alone. */
  lemma ReleaseLive(bs: seq<Block>, k: nat, o: nat)
    requires WellFormed(bs) && k < |bs| && !bs[k].free
    ensures AllSound(Release(bs, k)) && Extent(Release(bs, k)) == HEAP_SIZE
    ensures LiveSize(Release(bs, k), o) == if o == Offset(bs, k) then 0 else LiveSize(bs, o)
    ensures LiveSize(bs, Offset(bs, k)) == bs[k].size
  {
    hide Merge, SizeAt, Extent;
    FreedFacts(bs, k, o);
    var freed := bs[k := Block(bs[k].size, true)];
    var right := freed;
    if k + 1 < |bs| && bs[k + 1].free {
      MergeFacts(freed, k, o);
      right := Merge(freed, k);
    }
    MergeShape(freed, k);
    if k > 0 && bs[k - 1].free { MergeFacts(right, k - 1, o); }
  }

  lemma MergeShape(bs: seq<Block>, k: nat)
    requires k < |bs|
    ensures k + 1 < |bs| ==> var bs' := Merge(bs, k);
      && |bs'| == |bs| - 1 && bs'[k].free && bs'[..k] == bs[..k] && bs'[k + 1..] == bs[k + 2..]
      && forall j | 0 <= j < k :: bs'[j] == bs[j]
  {
  }

  lemma ReleaseKeepsWellFormed(bs: seq<Block>, k: nat)
    requires WellFormed(bs) && k < |bs| && !bs[k].free
    ensures WellFormed(Release(bs, k))
  {
    hide Release, Coalesced;
    ReleaseLive(bs, k, 0);
    ReleaseCoalesced(bs, k);
  }

  lemma MergeElements(bs: seq<Block>, k: nat)
    requires k + 1 < |bs|
    ensures var bs' := Merge(bs, k);
      |bs'| == |bs| - 1 && (forall j | 0 <= j < k :: bs'[j] == bs[j]) && forall j | k < j < |bs'| :: bs'[j] == bs[j + 1]
  {
  }

  /** Where each block stands after a release that merges `d` blocks behind and `e` before. */
  lemma ReleaseElements(bs: seq<Block>, k: nat, d: nat, e: nat)
    requires k < |bs| && d == (if k + 1 < |bs| && bs[k + 1].free then 1 else 0) && e == (if k > 0 && bs[k - 1].free then 1 else 0)
    ensures var bs' := Release(bs, k);
      && |bs'| == |bs| - d - e && (forall j | 0 <= j < k - e :: bs'[j] == bs[j])
      && forall j | k - e < j < |bs'| :: bs'[j] == bs[j + d + e]
  {
    hide Merge;
    var freed := bs[k := Block(bs[k].size, true)];
    var right := freed;
    if d == 1 {
      MergeElements(freed, k);
      right := Merge(freed, k);
    }
    assert forall j | k < j < |right| :: right[j] == bs[j + d];
    if e == 1 { MergeElements(right, k - 1); }
  }

  lemma ReleaseCoalesced(bs: seq<Block>, k: nat)
    requires Coalesced(bs) && k < |bs| && !bs[k].free
    ensures Coalesced(Release(bs, k))
  {
    hide Release;
    var bs' := Release(bs, k);
    var d := if k + 1 < |bs| && bs[k + 1].free then 1 else 0;
    var e := if k > 0 && bs[k - 1].free then 1 else 0;
    ReleaseElements(bs, k, d, e);
    forall j | 0 <= j < |bs'| - 1 ensures !(bs'[j].free && bs'[j + 1].free) {
      if j < k - e {
        assert bs'[j] == bs[j] && !(bs[j].free && bs[j + 1].free);
        assert j + 1 < k - e ==> bs'[j + 1] == bs[j + 1];
      } else {
        var i := j + 1 + d + e;
        assert bs'[j + 1] == bs[i] && !(bs[i - 1].free && bs[i - 1 + 1].free);
        assert j > k - e ==> bs'[j] == bs[i - 1];
      }
    }
  }
}
