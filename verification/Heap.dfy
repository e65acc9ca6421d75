/** kernel/kmalloc.c over raw memory: an array of 32-bit words in which every block carries its size
    and its allocation bit in its first and in its last word. */
module Heap {
  import opened Wrappers
  import opened HeapSpec
  import opened HeapRuns

  const WORDS: nat := 0x10000  // HEAP_SIZE / 4; the epilogue follows

  // ---------------------------------------------------------------- the block macros

  function BlockSize(word: u32): u32 { word / 8 * 8 }

  predicate IsAlloc(word: u32) { word % 2 == 1 }

  function SetAlloc(word: u32): u32 { if word % 2 == 0 then word + 1 else word }

  function SetFree(word: u32): u32 { word - word % 2 }

  /** Header and footer of a block. */
  function Tag(b: Block): int { b.size + if b.free then 0 else 1 }

  /** The words from offset `at` on spell out the blocks `bs`. */
  ghost predicate Laid(w: seq<u32>, at: nat, bs: seq<Block>)
    decreases |bs|
  {
    bs == [] ||
    (&& at % 8 == 0 && Sound(bs[0]) && at + bs[0].size <= 4 * |w|
     && w[at / 4] == Tag(bs[0]) && w[(at + bs[0].size) / 4 - 1] == Tag(bs[0])
     && Laid(w, at + bs[0].size, bs[1..]))
  }

  lemma {:induction false} LaidConcat(w: seq<u32>, at: nat, a: seq<Block>, b: seq<Block>)
    ensures Laid(w, at, a + b) <==> Laid(w, at, a) && Laid(w, at + Extent(a), b)
    decreases |a|
  {
    if a == [] {
      assert a + b == b;
    } else {
      assert (a + b)[1..] == a[1..] + b;
      LaidConcat(w, at + a[0].size, a[1..], b);
    }
  }

  lemma {:induction false} LaidFrame(w: seq<u32>, w': seq<u32>, at: nat, bs: seq<Block>)
    requires Laid(w, at, bs) && |w'| == |w| && at % 4 == 0
    requires forall i | at <= 4 * i < at + Extent(bs) && i < |w| :: w'[i] == w[i]
    ensures Laid(w', at, bs)
    decreases |bs|
  {
    if bs != [] {
      TagsInside(at, bs[0].size, Extent(bs[1..]));
      LaidFrame(w, w', at + bs[0].size, bs[1..]);
    }
  }

  /** Rewriting the words of `was` so that they spell out `now` leaves the other blocks alone. */
  lemma LaidReplaced(w: seq<u32>, w': seq<u32>, pre: seq<Block>, was: seq<Block>, now: seq<Block>, post: seq<Block>)
    requires Laid(w, 0, pre + (was + post)) && Extent(now) == Extent(was)
    requires SameOutside(w, w', Extent(pre), Extent(was))
    requires Laid(w', Extent(pre), now) && Extent(pre) % 8 == 0 && Extent(was) % 8 == 0
    ensures Laid(w', 0, pre + (now + post))
  {
    hide Laid, Extent;
    var lo, hi := Extent(pre), Extent(pre) + Extent(was);
    WordAligned(lo, Extent(was));
    LaidConcat(w, 0, pre, was + post);
    LaidConcat(w, lo, was, post);
    LaidFrame(w, w', 0, pre);
    LaidFrame(w, w', hi, post);
    LaidConcat(w', lo, now, post);
    LaidConcat(w', 0, pre, now + post);
  }

  lemma Aligned(a: nat, b: nat, c: nat)
    requires a % 8 == 0 && b % 8 == 0 && c % 8 == 0
    ensures (a + c) % 8 == 0 && (b - c) % 8 == 0
  {
  }

  lemma WordAligned(a: nat, b: nat)
    requires a % 8 == 0 && b % 8 == 0
    ensures a % 4 == 0 && (a + b) % 4 == 0
  {
  }

  lemma LaidHead(w: seq<u32>, at: nat, bs: seq<Block>)
    requires Laid(w, at, bs) && bs != []
    ensures var b := bs[0];
      && at % 8 == 0 && Sound(b) && at + b.size <= 4 * |w|
      && w[at / 4] == Tag(b) && w[(at + b.size) / 4 - 1] == Tag(b)
      && BlockSize(w[at / 4]) == b.size && (IsAlloc(w[at / 4]) <==> !b.free)
  {
    EvenTag(bs[0].size);
    OddTag(bs[0].size);
  }

  lemma EvenTag(size: nat)
    requires size % 8 == 0
    ensures size / 8 * 8 == size && (size + 1) / 8 == size / 8
  {
  }

  lemma OddTag(size: nat)
    requires size % 8 == 0
    ensures size % 2 == 0 && (size + 1) % 2 == 1
  {
    Parity(4 * (size / 8));
  }

  lemma Parity(h: nat)
    ensures (2 * h) % 2 == 0 && (2 * h + 1) % 2 == 1
  {
  }

  /** The first and the last word of a block lie inside it. */
  lemma TagsInside(at: nat, size: nat, rest: nat)
    requires at % 4 == 0 && size % 8 == 0 && size >= MIN_BLOCK
    ensures at <= 4 * (at / 4) < at + size + rest && at <= 4 * ((at + size) / 4 - 1) < at + size + rest
    ensures (at + size) % 4 == 0
  {
    WordAligned(0, size);
  }

  lemma LaidOne(w: seq<u32>, at: nat, b: Block)
    requires at % 8 == 0 && Sound(b) && at + b.size <= 4 * |w|
    requires w[at / 4] == Tag(b) && w[(at + b.size) / 4 - 1] == Tag(b)
    ensures Laid(w, at, [b])
  {
  }

  /** What the tags of block `k` say, and where it lies. */
  lemma BlockFacts(w: seq<u32>, bs: seq<Block>, k: nat)
    requires Laid(w, 0, bs) && AllSound(bs) && k < |bs|
    ensures var at := Offset(bs, k);
      && at % 8 == 0 && at + bs[k].size == Offset(bs, k + 1) <= Extent(bs) && at + bs[k].size <= 4 * |w|
      && w[at / 4] == Tag(bs[k]) && w[(at + bs[k].size) / 4 - 1] == Tag(bs[k])
      && BlockSize(w[at / 4]) == bs[k].size && (IsAlloc(w[at / 4]) <==> !bs[k].free)
  {
    hide Laid, Extent, BlockSize, IsAlloc, Tag;
    Split(bs, k);
    LaidConcat(w, 0, bs[..k], [bs[k]] + bs[k + 1..]);
    LaidHead(w, Extent(bs[..k]), [bs[k]] + bs[k + 1..]);
    assert bs[..k + 1] == bs[..k] + [bs[k]] && bs == bs[..k + 1] + bs[k + 1..];
    ExtentConcat(bs[..k], [bs[k]]);
    ExtentConcat(bs[..k + 1], bs[k + 1..]);
    ExtentOne(bs[k]);
  }

  /** A live block lies entirely before or entirely after block `k`, or is block `k`. */
  lemma LiveElsewhere(bs: seq<Block>, k: nat, o: nat)
    requires AllSound(bs) && k < |bs| && LiveSize(bs, o) > 0 && (bs[k].free || o != Offset(bs, k))
    ensures o + LiveSize(bs, o) <= Offset(bs, k) || Offset(bs, k) + bs[k].size <= o
  {
    var j := BlockAt(bs, 0, o);
    if j < k { OffsetMonotone(bs, j, k); }
    if k < j { OffsetMonotone(bs, k, j); }
  }

  class Heap {
    const mem: array<u32>
    ghost var blocks: seq<Block>

    ghost predicate Shaped()
      reads this, mem
    {
      && mem.Length == WORDS + 1 && mem[WORDS] == 1
      && AllSound(blocks) && Extent(blocks) == HEAP_SIZE && Laid(mem[..], 0, blocks)
    }

    ghost predicate Valid()
      reads this, mem
    {
      Shaped() && WellFormed(blocks)
    }

    function Index(addr: int): int { (addr - HEAP_START) / 4 }

    /** kmalloc_init. */
    constructor ()
      ensures Valid() && blocks == Fresh && fresh(mem)
    {
      mem := new u32[WORDS + 1];
      blocks := Fresh;
      new;
      mem[Index(HEAP_START)] := HEAP_SIZE;
      mem[Index(HEAP_START + HEAP_SIZE - 4)] := HEAP_SIZE;
      mem[Index(HEAP_START + HEAP_SIZE)] := 1;
      ExtentOne(Fresh[0]);
      assert Fresh[1..] == [] && mem[..][0] == HEAP_SIZE && mem[..][WORDS - 1] == HEAP_SIZE;
    }

    /** The tags of block `k`, or the epilogue behind the last one. */
    lemma HeaderAt(k: nat)
      requires Shaped() && k <= |blocks|
      ensures var at := Offset(blocks, k);
        && at % 8 == 0 && at <= HEAP_SIZE
        && (k == |blocks| ==> at == HEAP_SIZE && BlockSize(mem[at / 4]) == 0)
        && (k < |blocks| ==>
              && Offset(blocks, k + 1) == at + blocks[k].size <= HEAP_SIZE
              && mem[at / 4] == Tag(blocks[k])
              && BlockSize(mem[at / 4]) == blocks[k].size && (IsAlloc(mem[at / 4]) <==> !blocks[k].free))
    {
      hide Laid, Extent;
      assert blocks[..|blocks|] == blocks;
      if k < |blocks| { BlockFacts(mem[..], blocks, k); }
    }

    lemma FooterAt(k: nat)
      requires Shaped() && k < |blocks|
      ensures var end := Offset(blocks, k + 1);
        end % 8 == 0 && 8 <= end <= HEAP_SIZE && mem[end / 4 - 1] == Tag(blocks[k]) && BlockSize(mem[end / 4 - 1]) == blocks[k].size
    {
      hide Laid, Extent;
      BlockFacts(mem[..], blocks, k);
      assert (Offset(blocks, k) + blocks[k].size) % 8 == 0;
    }

    method Kmalloc(size: u32) returns (ptr: int)
      requires Valid()
      modifies mem, this`blocks
      ensures Valid()
      ensures size == 0 || Alloc(old(blocks), NeedSize(size)).None? ==>
        ptr == 0 && blocks == old(blocks) && mem[..] == old(mem[..])
      ensures size != 0 && Alloc(old(blocks), NeedSize(size)).Some? ==>
        var (o, bs') := Alloc(old(blocks), NeedSize(size)).value; ptr == HEAP_START + o + 4 && blocks == bs'
      ensures blocks == After1(old(blocks), HeapRuns.Kmalloc(size))
      ensures PayloadsKept(old(blocks), -1, old(mem[..]), mem[..])
    {
      hide Laid, Extent, Take, SizeAt, Offset, After1;
      KmallocIs(blocks, size);
      if size == 0 { return 0; }
      var aligned := (size + 7) % (WORD_MAX + 1) / 8 * 8;
      var need := (4 + aligned + 4) % (WORD_MAX + 1);
      if need < MIN_BLOCK { need := MIN_BLOCK; }
      var cur := HEAP_START;
      ghost var k := 0;
      OffsetZero(blocks);
      while true
        invariant k <= |blocks| && cur == HEAP_START + Offset(blocks, k)
        invariant forall j | 0 <= j < k :: !Fits(blocks[j], need)
        invariant mem[..] == old(mem[..]) && blocks == old(blocks)
        decreases |blocks| - k
      {
        HeaderAt(k);
        var curSize := BlockSize(mem[Index(cur)]);
        if curSize == 0 { return 0; }
        if !IsAlloc(mem[Index(cur)]) && curSize >= need {
          HandOut(cur, curSize, need, k);
          return cur + 4;
        }
        cur := cur + curSize;
        k := k + 1;
      }
    }

    /** Writes `tag` to both ends of the block of `size` bytes at `addr`. */
    method Stamp(addr: int, size: u32, tag: u32)
      requires addr >= HEAP_START && addr % 8 == 0 && size % 8 == 0 && size >= MIN_BLOCK
      requires addr - HEAP_START + size <= 4 * mem.Length
      modifies mem
      ensures mem[..] == Stamped(old(mem[..]), addr - HEAP_START, size, tag)
    {
      mem[Index(addr)] := tag;
      mem[Index(addr + size - 4)] := tag;
    }

    /** The two branches of kmalloc that write the tags of the block found. */
    method HandOut(cur: int, curSize: u32, need: u32, ghost k: nat)
      requires Valid() && k < |blocks| && cur == HEAP_START + Offset(blocks, k) && curSize == blocks[k].size
      requires Fits(blocks[k], need) && need % 8 == 0 && need >= MIN_BLOCK && k == FirstFit(blocks, need)
      modifies mem, this`blocks
      ensures Valid() && blocks == Take(old(blocks), k, need)
      ensures PayloadsKept(old(blocks), -1, old(mem[..]), mem[..])
    {
      hide Laid, Extent, Offset, Take, LiveSize, PayloadsKept, Stamped, SetAlloc, BlockSize, IsAlloc, Tag;
      HeaderAt(k);
      Aligned(cur, curSize, need);
      var remaining := curSize - need;
      ghost var w := mem[..];
      if remaining >= MIN_BLOCK {
        Stamp(cur, need, SetAlloc(need));
        Stamp(cur + need, remaining, remaining);
      } else {
        Stamp(cur, curSize, SetAlloc(curSize));
      }
      AllocKeepsWellFormed(blocks, need);
      HandedOut(w, blocks, k, need);
      blocks := Take(blocks, k, need);
    }

    /** Marks block `k` free; nothing is merged yet. */
    method MarkFree(hdr: int, ghost k: nat)
      requires Shaped() && k < |blocks| && !blocks[k].free && hdr == HEAP_START + Offset(blocks, k)
      modifies mem, this`blocks
      ensures Shaped() && blocks == old(blocks)[k := Block(old(blocks)[k].size, true)]
      ensures SameOutside(old(mem[..]), mem[..], Offset(old(blocks), k), old(blocks)[k].size)
    {
      hide Laid, Extent, Stamped, Offset;
      HeaderAt(k);
      ghost var w := mem[..];
      var size := BlockSize(mem[Index(hdr)]);
      Stamp(hdr, size, SetFree(mem[Index(hdr)]));
      FreedLaid(w, blocks, k);
      blocks := blocks[k := Block(blocks[k].size, true)];
    }

    /** Makes one block out of `hdr` and the block behind it. */
    method MergeNext(hdr: int, next: int, ghost k: nat)
      requires Shaped() && k + 1 < |blocks| && blocks[k].free && blocks[k + 1].free
      requires hdr == HEAP_START + Offset(blocks, k) && next == HEAP_START + Offset(blocks, k + 1)
      modifies mem, this`blocks
      ensures Shaped() && blocks == Merge(old(blocks), k)
      ensures SameOutside(old(mem[..]), mem[..], Offset(old(blocks), k), old(blocks)[k].size + old(blocks)[k + 1].size)
    {
      hide Laid, Extent, Stamped, Offset, Merge;
      HeaderAt(k);
      HeaderAt(k + 1);
      ghost var w := mem[..];
      var newSize := BlockSize(mem[Index(hdr)]) + BlockSize(mem[Index(next)]);
      Stamp(hdr, newSize, newSize);
      MergeFacts(blocks, k, 0);
      MergedLaid(w, blocks, k, hdr - HEAP_START, newSize);
      blocks := Merge(blocks, k);
    }

    /** kfree up to the merge with the block behind. */
    method FreeAndMergeNext(hdr: int, ghost k: nat)
      requires Shaped() && k < |blocks| && !blocks[k].free && hdr == HEAP_START + Offset(blocks, k)
      modifies mem, this`blocks
      ensures Shaped() && blocks == FreedRight(old(blocks), k)
      ensures SameOutside(old(mem[..]), mem[..], Offset(old(blocks), k), FreedRight(old(blocks), k)[k].size)
    {
      hide Laid, Extent, Offset, Merge;
      ghost var bs := blocks;
      OffsetsStay(bs, k);
      MarkFree(hdr, k);
      MergeShape(blocks, k);
      HeaderAt(k);
      HeaderAt(k + 1);
      var next := hdr + BlockSize(mem[Index(hdr)]);
      if BlockSize(mem[Index(next)]) > 0 && !IsAlloc(mem[Index(next)]) {
        MergedSize(blocks, k);
        MergeNext(hdr, next, k);
      }
    }

    method Kfree(ptr: int)
      requires Valid() && (ptr == 0 || (ptr >= HEAP_START + 4 && LiveSize(blocks, ptr - 4 - HEAP_START) > 0))
      modifies mem, this`blocks
      ensures Valid()
      ensures ptr == 0 ==> blocks == old(blocks) && mem[..] == old(mem[..])
      ensures ptr != 0 ==> blocks == FreeAt(old(blocks), ptr - 4 - HEAP_START)
      ensures ptr != 0 ==> blocks == After1(old(blocks), HeapRuns.Kfree(ptr - 4 - HEAP_START))
      ensures ptr != 0 ==> PayloadsKept(old(blocks), ptr - 4 - HEAP_START, old(mem[..]), mem[..])
    {
      hide Laid, Extent, Merge, SizeAt, Offset, PayloadsKept, FreedRight, Coalesced;
      if ptr == 0 { return; }
      var hdr := ptr - 4;
      ghost var bs, w := blocks, mem[..];
      ghost var k := BlockAt(bs, 0, hdr - HEAP_START);
      ReleaseKeepsWellFormed(bs, k);
      FreedRightFacts(bs, k);
      FreeAndMergeNext(hdr, k);
      ghost var hi := k + 1 + |bs| - |blocks|;
      if hdr > HEAP_START {
        FooterAt(k - 1);
        HeaderAt(k - 1);
        var prev := hdr - BlockSize(mem[Index(hdr - 4)]);
        if !IsAlloc(mem[Index(prev)]) {
          MergeNext(prev, hdr, k - 1);
          ReleasedPayloads(w, mem[..], bs, k, k - 1, hi);
          return;
        }
      }
      ReleasedPayloads(w, mem[..], bs, k, k, hi);
    }
  }

  ghost function Stamped(w: seq<u32>, at: int, size: int, tag: u32): (w': seq<u32>)
    requires 0 <= at && at % 8 == 0 && size % 8 == 0 && size >= MIN_BLOCK && at + size <= 4 * |w|
    ensures |w'| == |w|
  {
    w[at / 4 := tag][(at + size) / 4 - 1 := tag]
  }

  ghost predicate SameOutside(w: seq<u32>, w': seq<u32>, at: nat, size: nat) {
    |w'| == |w| && forall i | 0 <= i < |w| && !(at <= 4 * i < at + size) :: w'[i] == w[i]
  }

  lemma UpdateSplit(bs: seq<Block>, k: nat, b: Block)
    requires k < |bs|
    ensures bs == bs[..k] + ([bs[k]] + bs[k + 1..]) && bs[k := b] == bs[..k] + ([b] + bs[k + 1..])
  {
  }

  /** One stretch of blocks with new tags for another of the same extent. */
  lemma StampedBetween(w: seq<u32>, pre: seq<Block>, was: seq<Block>, b: Block, post: seq<Block>)
    requires Laid(w, 0, pre + (was + post)) && Extent(pre) % 8 == 0 && Extent(was) == b.size && Sound(b) && b.free
    requires Extent(pre) + b.size <= 4 * |w| && b.size < WORD_MAX
    ensures var w' := Stamped(w, Extent(pre), b.size, b.size);
      Laid(w', 0, pre + ([b] + post)) && SameOutside(w, w', Extent(pre), b.size)
  {
    hide Laid, Extent, Stamped, SameOutside;
    ExtentOne(b);
    StampedOne(w, Extent(pre), b);
    LaidReplaced(w, Stamped(w, Extent(pre), b.size, b.size), pre, was, [b], post);
  }

  lemma FreedLaid(w: seq<u32>, bs: seq<Block>, k: nat)
    requires Laid(w, 0, bs) && AllSound(bs) && k < |bs| && Offset(bs, k) % 8 == 0
    requires Offset(bs, k) + bs[k].size <= 4 * |w| && bs[k].size < WORD_MAX
    ensures var w', bs' := Stamped(w, Offset(bs, k), bs[k].size, bs[k].size), bs[k := Block(bs[k].size, true)];
      Laid(w', 0, bs') && Extent(bs') == Extent(bs) && SameOutside(w, w', Offset(bs, k), bs[k].size)
  {
    hide Laid, Extent, Stamped, SameOutside;
    var b := Block(bs[k].size, true);
    UpdateSplit(bs, k, b);
    ExtentOne(bs[k]);
    ExtentOne(b);
    StampedBetween(w, bs[..k], [bs[k]], b, bs[k + 1..]);
    ReplacedExtent(bs[..k], [bs[k]], [b], bs[k + 1..]);
  }

  lemma MergedLaid(w: seq<u32>, bs: seq<Block>, k: nat, at: nat, size: nat)
    requires Laid(w, 0, bs) && AllSound(bs) && k + 1 < |bs| && at == Offset(bs, k) && size == bs[k].size + bs[k + 1].size
    requires at % 8 == 0 && size % 8 == 0 && MIN_BLOCK <= size < WORD_MAX && at + size <= 4 * |w|
    ensures var w' := Stamped(w, at, size, size); Laid(w', 0, Merge(bs, k)) && SameOutside(w, w', at, size)
  {
    hide Laid, Extent, Stamped, SameOutside, Merge;
    MergeSplit(bs, k);
    ExtentConcat([bs[k]], [bs[k + 1]]);
    ExtentOne(bs[k]);
    ExtentOne(bs[k + 1]);
    StampedBetween(w, bs[..k], [bs[k]] + [bs[k + 1]], Block(bs[k].size + bs[k + 1].size, true), bs[k + 2..]);
  }

  lemma OffsetZero(bs: seq<Block>)
    ensures Offset(bs, 0) == 0
  {
    assert bs[..0] == [];
  }

  lemma StampedOne(w: seq<u32>, at: nat, b: Block)
    requires at % 8 == 0 && Sound(b) && at + b.size <= 4 * |w| && Tag(b) <= WORD_MAX
    ensures var w' := Stamped(w, at, b.size, Tag(b)); Laid(w', at, [b]) && SameOutside(w, w', at, b.size)
  {
    LaidOne(Stamped(w, at, b.size, Tag(b)), at, b);
  }

  /** The tags that kmalloc writes into the block it found. */
  ghost function HandedTags(w: seq<u32>, at: nat, size: u32, need: u32): (w': seq<u32>)
    requires at % 8 == 0 && size % 8 == 0 && need % 8 == 0 && MIN_BLOCK <= need <= size && at + size <= 4 * |w|
    ensures |w'| == |w|
  {
    Aligned(at, size, need);
    if size - need >= MIN_BLOCK
    then Stamped(Stamped(w, at, need, SetAlloc(need)), at + need, size - need, size - need)
    else Stamped(w, at, size, SetAlloc(size))
  }

  lemma StampedTwo(w: seq<u32>, at: nat, a: Block, b: Block)
    requires at % 8 == 0 && (at + a.size) % 8 == 0 && Sound(a) && Sound(b)
    requires at + a.size + b.size <= 4 * |w| && Tag(a) <= WORD_MAX && Tag(b) <= WORD_MAX
    ensures var w' := Stamped(Stamped(w, at, a.size, Tag(a)), at + a.size, b.size, Tag(b));
      Laid(w', at, [a, b]) && SameOutside(w, w', at, a.size + b.size)
  {
    hide Stamped, Laid, Extent, SameOutside;
    var w1 := Stamped(w, at, a.size, Tag(a));
    var w' := Stamped(w1, at + a.size, b.size, Tag(b));
    StampedOne(w, at, a);
    StampedOne(w1, at + a.size, b);
    ExtentOne(a);
    OutsideIsBefore(w1, w', at, a.size, b.size);
    WordAligned(at, 0);
    LaidFrame(w1, w', at, [a]);
    LaidConcat(w', at, [a], [b]);
    assert [a, b] == [a] + [b];
    OutsideBoth(w, w1, w', at, a.size, b.size);
  }

  lemma OutsideIsBefore(w: seq<u32>, w': seq<u32>, at: nat, a: nat, b: nat)
    requires SameOutside(w, w', at + a, b)
    ensures |w'| == |w| && forall i: nat | at <= 4 * i < at + a && i < |w| :: w'[i] == w[i]
  {
  }

  lemma OutsideBoth(w: seq<u32>, w1: seq<u32>, w': seq<u32>, at: nat, a: nat, b: nat)
    requires SameOutside(w, w1, at, a) && SameOutside(w1, w', at + a, b)
    ensures SameOutside(w, w', at, a + b)
  {
  }

  lemma HandedLaid(w: seq<u32>, at: nat, b: Block, need: u32)
    requires at % 8 == 0 && Sound(b) && Fits(b, need) && need % 8 == 0 && need >= MIN_BLOCK
    requires at + b.size <= 4 * |w| && b.size < WORD_MAX
    ensures var w' := HandedTags(w, at, b.size, need);
      Laid(w', at, Handed(b, need)) && SameOutside(w, w', at, b.size)
  {
    hide Stamped, Laid, Extent, SameOutside;
    Aligned(at, b.size, need);
    OddTag(need);
    OddTag(b.size);
    if b.size - need >= MIN_BLOCK {
      StampedTwo(w, at, Block(need, false), Block(b.size - need, true));
    } else {
      StampedOne(w, at, Block(b.size, false));
    }
  }

  /** The words after kmalloc has written the tags of block `k`. */
  lemma HandedOut(w: seq<u32>, bs: seq<Block>, k: nat, need: u32)
    requires Laid(w, 0, bs) && AllSound(bs) && k < |bs| && Fits(bs[k], need) && need % 8 == 0 && need >= MIN_BLOCK
    requires |w| == WORDS + 1 && Extent(bs) == HEAP_SIZE && Offset(bs, k) % 8 == 0
    requires Offset(bs, k) + bs[k].size <= HEAP_SIZE
    ensures var w' := HandedTags(w, Offset(bs, k), bs[k].size, need);
      Laid(w', 0, Take(bs, k, need)) && w'[WORDS] == w[WORDS] && PayloadsKept(bs, -1, w, w')
  {
    hide SizeAt, Extent, HandedTags, Handed, Laid, PayloadsKept, SameOutside;
    var at := Offset(bs, k);
    var w' := HandedTags(w, at, bs[k].size, need);
    HandedFacts(bs[k], need, 0, 0);
    HandedLaid(w, at, bs[k], need);
    Split(bs, k);
    ExtentOne(bs[k]);
    LaidReplaced(w, w', bs[..k], [bs[k]], Handed(bs[k], need), bs[k + 1..]);
    ChangedInside(w, w', bs, k);
    EpilogueKept(w, w', at, bs[k].size);
  }

  lemma EpilogueKept(w: seq<u32>, w': seq<u32>, at: nat, size: nat)
    requires SameOutside(w, w', at, size) && |w| == WORDS + 1 && at + size <= HEAP_SIZE
    ensures w'[WORDS] == w[WORDS]
  {
  }

  /** Words changed inside a block that is not live touch nobody's payload. */
  lemma ChangedInside(w: seq<u32>, w': seq<u32>, bs: seq<Block>, k: nat)
    requires AllSound(bs) && k < |bs| && bs[k].free && SameOutside(w, w', Offset(bs, k), bs[k].size)
    ensures PayloadsKept(bs, -1, w, w')
  {
    forall o: nat, i: nat | LiveSize(bs, o) > 0 && o < 4 * i < o + LiveSize(bs, o) - 4 && i < |w| ensures w'[i] == w[i] {
      LiveElsewhere(bs, k, o);
    }
  }

  /** No payload word of a live block changes from `w` to `w'`, except perhaps of the one at `but`. */
  ghost predicate PayloadsKept(bs: seq<Block>, but: int, w: seq<u32>, w': seq<u32>) {
    && |w| == |w'|
    && forall o: nat, i: nat | o != but && LiveSize(bs, o) > 0 && o < 4 * i < o + LiveSize(bs, o) - 4 && i < |w| :: w'[i] == w[i]
  }

  /** The blocks after the merge with the block behind. */
  ghost function FreedRight(bs: seq<Block>, k: nat): (bs': seq<Block>)
    requires k < |bs|
    ensures k < |bs'| && bs'[k].free && forall j | 0 <= j < k :: bs'[j] == bs[j]
  {
    var freed := bs[k := Block(bs[k].size, true)];
    if k + 1 < |bs| && bs[k + 1].free then Merge(freed, k) else freed
  }

  lemma FreedRightFacts(bs: seq<Block>, k: nat)
    requires AllSound(bs) && k < |bs| && !bs[k].free
    ensures var bs' := FreedRight(bs, k);
      && Release(bs, k) == (if k > 0 && bs[k - 1].free then Merge(bs', k - 1) else bs')
      && (|bs'| == |bs| || (|bs'| == |bs| - 1 && k + 1 < |bs| && bs[k + 1].free))
      && Offset(bs', k) == Offset(bs, k) && (Offset(bs, k) > 0 <==> k > 0)
      && (k > 0 ==> Offset(bs', k - 1) == Offset(bs, k - 1) && Offset(bs, k) == Offset(bs, k - 1) + bs[k - 1].size)
      && bs'[k].size == Offset(bs, k + 1 + |bs| - |bs'|) - Offset(bs, k)
  {
    hide Merge, Offset;
    OffsetsStay(bs, k);
    MergeShape(bs[k := Block(bs[k].size, true)], k);
    NextOffset(bs, k);
    FirstOffset(bs, k);
    if k > 0 { NextOffset(bs, k - 1); }
    if k + 1 < |bs| {
      NextOffset(bs, k + 1);
      MergedSize(bs[k := Block(bs[k].size, true)], k);
    }
  }

  lemma MergedSize(bs: seq<Block>, k: nat)
    requires k + 1 < |bs|
    ensures Merge(bs, k)[k].size == bs[k].size + bs[k + 1].size
  {
  }

  /** kfree writes only into the block it frees and into free blocks next to it. */
  lemma ReleasedPayloads(w: seq<u32>, w': seq<u32>, bs: seq<Block>, k: nat, lo: nat, hi: nat)
    requires AllSound(bs) && k < |bs| && lo <= k < hi <= |bs| && |w'| == |w|
    requires lo == k || (lo == k - 1 && bs[k - 1].free)
    requires hi == k + 1 || (hi == k + 2 && bs[k + 1].free)
    requires Offset(bs, lo) <= Offset(bs, hi) && SameOutside(w, w', Offset(bs, lo), Offset(bs, hi) - Offset(bs, lo))
    ensures PayloadsKept(bs, Offset(bs, k), w, w')
  {
    hide Offset;
    forall o: nat, i: nat | o != Offset(bs, k) && LiveSize(bs, o) > 0 && o < 4 * i < o + LiveSize(bs, o) - 4 && i < |w|
      ensures w'[i] == w[i]
    {
      NextOffset(bs, k);
      LiveElsewhere(bs, k, o);
      if lo == k - 1 {
        NextOffset(bs, lo);
        LiveElsewhere(bs, lo, o);
      }
      if hi == k + 2 {
        NextOffset(bs, k + 1);
        LiveElsewhere(bs, k + 1, o);
      }
    }
  }

  lemma FirstOffset(bs: seq<Block>, k: nat)
    requires AllSound(bs) && k < |bs|
    ensures Offset(bs, k) > 0 <==> k > 0
  {
    if k > 0 { OffsetMonotone(bs, 0, k); } else { OffsetZero(bs); }
  }

  lemma NextOffset(bs: seq<Block>, k: nat)
    requires k < |bs|
    ensures Offset(bs, k + 1) == Offset(bs, k) + bs[k].size
  {
    assert bs[..k + 1] == bs[..k] + [bs[k]];
    ExtentConcat(bs[..k], [bs[k]]);
    ExtentOne(bs[k]);
  }

  /** Freeing or merging at `k` moves no block before `k`, nor the end of what is merged. */
  lemma OffsetsStay(bs: seq<Block>, k: nat)
    requires k < |bs|
    ensures var freed := bs[k := Block(bs[k].size, true)];
      && Offset(freed, k) == Offset(bs, k) && Offset(freed, k + 1) == Offset(bs, k + 1)
      && (k > 0 ==> Offset(freed, k - 1) == Offset(bs, k - 1))
      && (k + 1 < |bs| ==>
            && Offset(Merge(freed, k), k) == Offset(bs, k)
            && (k > 0 ==> Offset(Merge(freed, k), k - 1) == Offset(bs, k - 1)))
  {
    var freed := bs[k := Block(bs[k].size, true)];
    assert freed[..k] == bs[..k];
    NextOffset(freed, k);
    NextOffset(bs, k);
    if k > 0 { assert freed[..k - 1] == bs[..k - 1]; }
    if k + 1 < |bs| {
      assert Merge(freed, k)[..k] == bs[..k];
      if k > 0 { assert Merge(freed, k)[..k - 1] == bs[..k - 1]; }
    }
  }
}
