/** sfs_write_file: the loop as a function, what it writes, and what it keeps. */
module SfsWrite {
  import opened Wrappers
  import opened SfsCodec
  import opened SfsSpec

  /** The loop's state: the disk and the caller's copy of the inode. */
  datatype Writing = Writing(disk: Disk, inode: Inode) {
    predicate Ready() {
      && inode.Shaped() && inode.blockCount <= DIRECT_BLOCKS
      && forall k | 0 <= k < inode.blockCount :: inode.blocks[k] < DISK_BLOCKS
    }
  }

  /** One more block for the file. */
  function Grow(w: Writing): Option<Writing>
    requires w.Ready() && w.inode.blockCount < DIRECT_BLOCKS
  {
    match AllocBlock(w.disk)
    case None => None
    case Some((b, d)) =>
      var x := w.inode;
      Some(Writing(d, x.(blocks := x.blocks[x.blockCount := b], blockCount := x.blockCount + 1)))
  }

  /** The loop's state once the block that holds offset `off` exists. */
  function Reach(w: Writing, off: nat): (r: Option<Writing>)
    requires w.Ready() && off <= BLOCK_SIZE * w.inode.blockCount
    ensures r.Some? ==> r.value.Ready() && off / BLOCK_SIZE < r.value.inode.blockCount
  {
    if off / BLOCK_SIZE < w.inode.blockCount then Some(w)
    else if off / BLOCK_SIZE >= DIRECT_BLOCKS then None
    else Grow(w)
  }

  function ChunkLen(off: nat, len: nat): (n: nat)
    ensures n <= len && off % BLOCK_SIZE + n <= BLOCK_SIZE && (len > 0 ==> n > 0)
  {
    if BLOCK_SIZE - off % BLOCK_SIZE > len then len else BLOCK_SIZE - off % BLOCK_SIZE
  }

  /** The part of `data` that fits into the block at `off`, written there. */
  function PutChunk(w: Writing, data: Bytes, off: nat): (r: Writing)
    requires w.Ready() && off / BLOCK_SIZE < w.inode.blockCount
    ensures r.Ready() && r.inode == w.inode
  {
    var b := w.inode.blocks[off / BLOCK_SIZE];
    w.(disk := w.disk[b := Splice(w.disk[b], off % BLOCK_SIZE, data[..ChunkLen(off, |data|)])])
  }

  /** One round of the loop: None if there is no block to be had. */
  function Once(w: Writing, data: Bytes, off: nat): (r: Option<Writing>)
    requires w.Ready() && off <= BLOCK_SIZE * w.inode.blockCount
    ensures r.Some? ==> r.value.Ready() && off + ChunkLen(off, |data|) <= BLOCK_SIZE * r.value.inode.blockCount
    ensures r.Some? ==> w.inode.blockCount <= r.value.inode.blockCount
  {
    match Reach(w, off)
    case None => None
    case Some(w1) =>
      ChunkEnds(off, ChunkLen(off, |data|), w1.inode.blockCount);
      Some(PutChunk(w1, data, off))
  }

  /** The loop of sfs_write_file from offset `off` on, and the number of bytes it writes. */
  function WriteLoop(w: Writing, data: Bytes, off: nat): (r: (Writing, nat))
    requires w.Ready() && off <= BLOCK_SIZE * w.inode.blockCount
    ensures r.0.Ready() && r.1 <= |data| && off + r.1 <= BLOCK_SIZE * r.0.inode.blockCount
    ensures w.inode.blockCount <= r.0.inode.blockCount
    decreases |data|
  {
    if data == [] || Once(w, data, off).None? then (w, 0)
    else
      var n := ChunkLen(off, |data|);
      var (w', m) := WriteLoop(Once(w, data, off).value, data[n..], off + n);
      (w', n + m)
  }

  lemma ChunkEnds(off: nat, n: nat, count: nat)
    requires off % BLOCK_SIZE + n <= BLOCK_SIZE && off / BLOCK_SIZE < count
    ensures off + n <= BLOCK_SIZE * count
  {
  }

  // ---------------------------------------------------------------- one step

  /** An inode that is being written, in a table that is sound but for the entries of the directory. */
  ghost predicate Owning(w: Writing, t: Table, i: InodeNo) {
    Ownership(w.disk, t) && t[i] == w.inode && Used(w.disk, i) && w.Ready()
  }

  /** A file that is being written, in a sound table. */
  ghost predicate Open(w: Writing, t: Table, i: InodeNo) {
    Owning(w, t, i) && RootSound(w.disk, t) && i != ROOT_INO
  }

  lemma OpenIsReady(w: Writing, t: Table, i: InodeNo)
    requires Open(w, t, i)
    ensures w.Ready() && Readable(w.inode) && Owning(w, t, i)
  {
    assert InodeSound(t[i], i);
  }

  /** A block that the bitmap calls free has no owner. */
  lemma FreshBlock(d: Disk, t: Table)
    requires BitmapExact(d, t) && AllocBlock(d).Some?
    ensures var b := AllocBlock(d).value.0; b >= DATA_START && !HasOwner(d, t, b)
  {
    var b := AllocBlock(d).value.0;
    assert !Taken(d, b);
  }

  lemma GrownInodes(w: Writing, t: Table, i: InodeNo)
    requires Owning(w, t, i) && w.inode.blockCount < DIRECT_BLOCKS && AllocBlock(w.disk).Some?
    ensures var w1 := Grow(w).value; InodesSound(w1.disk, t[i := w1.inode]) && Used(w1.disk, i)
  {
    FreshBlock(w.disk, t);
  }

  lemma GrownOwners(w: Writing, t: Table, i: InodeNo, j: InodeNo, k: nat, b: int)
    requires Owning(w, t, i) && w.inode.blockCount < DIRECT_BLOCKS && AllocBlock(w.disk).Some?
    ensures var w1 := Grow(w).value;
      Owns(w1.disk, t[i := w1.inode], j, k, b) <==>
      Owns(w.disk, t, j, k, b) || (j == i && k == w.inode.blockCount && b == AllocBlock(w.disk).value.0)
  {
  }

  lemma SoundParts(d: Disk, t: Table)
    requires InodesSound(d, t) && OwnersDistinct(d, t) && BitmapExact(d, t) && RootSound(d, t)
    ensures Sound(d, t)
  {
  }

  /** A new block belongs to whoever asked for it, and to nobody else. */
  lemma GrownOwnership(w: Writing, t: Table, i: InodeNo)
    requires Owning(w, t, i) && w.inode.blockCount < DIRECT_BLOCKS && AllocBlock(w.disk).Some?
    ensures var w1 := Grow(w).value; Owning(w1, t[i := w1.inode], i)
  {
    hide Owns, InodesSound;
    var w1 := Grow(w).value;
    var t1 := t[i := w1.inode];
    GrownInodes(w, t, i);
    FreshBlock(w.disk, t);
    assert OwnersDistinct(w1.disk, t1) by {
      forall j: InodeNo, k: nat, j': InodeNo, k': nat, b: int | Owns(w1.disk, t1, j, k, b) && Owns(w1.disk, t1, j', k', b)
        ensures j == j' && k == k'
      {
        GrownOwners(w, t, i, j, k, b);
        GrownOwners(w, t, i, j', k', b);
      }
    }
    assert BitmapExact(w1.disk, t1) by {
      forall b: BlockNo ensures Taken(w1.disk, b) <==> b < DATA_START || HasOwner(w1.disk, t1, b) {
        GrownBit(w, t, i, b);
      }
    }
  }

  lemma GrownBit(w: Writing, t: Table, i: InodeNo, b: BlockNo)
    requires Owning(w, t, i) && w.inode.blockCount < DIRECT_BLOCKS && AllocBlock(w.disk).Some?
    ensures var w1 := Grow(w).value;
      Taken(w1.disk, b) <==> b < DATA_START || HasOwner(w1.disk, t[i := w1.inode], b)
  {
    hide Owns, InodesSound, OwnersDistinct, RootSound;
    var w1, new1 := Grow(w).value, AllocBlock(w.disk).value.0;
    var t1 := t[i := w1.inode];
    BitmapFacts(w.disk[BLOCK_BITMAP], new1, b);
    assert Taken(w1.disk, b) <==> b == new1 || Taken(w.disk, b);
    if HasOwner(w.disk, t, b) {
      var j: InodeNo, k: nat :| Owns(w.disk, t, j, k, b);
      GrownOwners(w, t, i, j, k, b);
    }
    if HasOwner(w1.disk, t1, b) {
      var j: InodeNo, k: nat :| Owns(w1.disk, t1, j, k, b);
      GrownOwners(w, t, i, j, k, b);
    }
    GrownOwners(w, t, i, i, w.inode.blockCount, new1);
    FreshBlock(w.disk, t);
  }

  lemma SameOwners(d: Disk, d': Disk, t: Table)
    requires Ownership(d, t) && d'[INODE_BITMAP] == d[INODE_BITMAP] && d'[BLOCK_BITMAP] == d[BLOCK_BITMAP]
    ensures Ownership(d', t)
  {
    assert forall j: InodeNo, k: nat, c: int :: Owns(d', t, j, k, c) <==> Owns(d, t, j, k, c);
    forall b: BlockNo ensures Taken(d', b) <==> b < DATA_START || HasOwner(d', t, b) {
      assert Taken(d', b) == Taken(d, b);
      assert HasOwner(d', t, b) <==> HasOwner(d, t, b);
    }
  }

  lemma OwnBlock(w: Writing, t: Table, i: InodeNo, k: nat)
    requires Owning(w, t, i) && k < w.inode.blockCount
    ensures w.inode.blocks[k] >= DATA_START && Owns(w.disk, t, i, k, w.inode.blocks[k])
  {
    assert InodeSound(t[i], i);
  }

  /** Writing a chunk changes one block of the file that is written, and neither bitmap. */
  lemma PutKeepsOwnership(w: Writing, t: Table, i: InodeNo, data: Bytes, off: nat)
    requires Owning(w, t, i) && off / BLOCK_SIZE < w.inode.blockCount
    ensures Owning(PutChunk(w, data, off), t, i) && Extends(w, PutChunk(w, data, off))
    ensures forall b: BlockNo | b != w.inode.blocks[off / BLOCK_SIZE] :: PutChunk(w, data, off).disk[b] == w.disk[b]
    ensures w.inode.blocks[off / BLOCK_SIZE] >= DATA_START
  {
    hide InodesSound, OwnersDistinct, BitmapExact;
    OwnBlock(w, t, i, off / BLOCK_SIZE);
    SameOwners(w.disk, PutChunk(w, data, off).disk, t);
  }

  /** The chunk changes exactly the bytes it covers. */
  lemma PutBytes(w: Writing, t: Table, i: InodeNo, data: Bytes, off: nat, p: nat)
    requires Owning(w, t, i) && off / BLOCK_SIZE < w.inode.blockCount && p / BLOCK_SIZE < w.inode.blockCount
    ensures var n := ChunkLen(off, |data|);
      RawAt(PutChunk(w, data, off).disk, w.inode, p) == if off <= p < off + n then data[p - off] else RawAt(w.disk, w.inode, p)
  {
    OwnBlock(w, t, i, off / BLOCK_SIZE);
    OwnBlock(w, t, i, p / BLOCK_SIZE);
    SamePage(off, p, ChunkLen(off, |data|));
  }

  lemma SamePage(off: nat, p: nat, n: nat)
    requires off % BLOCK_SIZE + n <= BLOCK_SIZE
    ensures off <= p < off + n ==> p / BLOCK_SIZE == off / BLOCK_SIZE
    ensures p / BLOCK_SIZE == off / BLOCK_SIZE ==> p - off == p % BLOCK_SIZE - off % BLOCK_SIZE
  {
  }

  // ---------------------------------------------------------------- one round

  /** The inode keeps its identity, size and blocks and may gain blocks. */
  predicate Extends(w: Writing, w': Writing) {
    var x, x' := w.inode, w'.inode;
    && w.Ready() && w'.Ready() && x'.ino == x.ino && x'.kind == x.kind && x'.size == x.size && x.blockCount <= x'.blockCount
    && (forall k | 0 <= k < x.blockCount :: x'.blocks[k] == x.blocks[k])
    && w'.disk[INODE_BITMAP] == w.disk[INODE_BITMAP]
  }

  /** Only the block bitmap may differ. */
  predicate SameData(w: Writing, w': Writing) {
    forall b: BlockNo | b != BLOCK_BITMAP :: w'.disk[b] == w.disk[b]
  }

  lemma ReachKeepsOwnership(w: Writing, t: Table, i: InodeNo, off: nat)
    requires Owning(w, t, i) && off <= BLOCK_SIZE * w.inode.blockCount && Reach(w, off).Some?
    ensures var w1 := Reach(w, off).value;
      && Owning(w1, t[i := w1.inode], i) && Extends(w, w1) && SameData(w, w1)
  {
    hide Ownership, Owns;
    if off / BLOCK_SIZE < w.inode.blockCount {
      assert t[i := w.inode] == t;
    } else {
      GrownOwnership(w, t, i);
    }
  }

  lemma OnceKeepsOwnership(w: Writing, t: Table, i: InodeNo, data: Bytes, off: nat)
    requires Owning(w, t, i) && off <= BLOCK_SIZE * w.inode.blockCount && Once(w, data, off).Some?
    ensures var w1 := Once(w, data, off).value; Owning(w1, t[i := w1.inode], i) && Extends(w, w1)
    ensures var w1 := Once(w, data, off).value;
      && off / BLOCK_SIZE < w1.inode.blockCount && w1.inode.blocks[off / BLOCK_SIZE] >= DATA_START
      && forall b: BlockNo | b != BLOCK_BITMAP && b != w1.inode.blocks[off / BLOCK_SIZE] :: w1.disk[b] == w.disk[b]
  {
    hide Ownership, Reach, PutChunk;
    var w0 := Reach(w, off).value;
    ReachKeepsOwnership(w, t, i, off);
    PutKeepsOwnership(w0, t[i := w0.inode], i, data, off);
  }

  /** One round, byte by byte; a new block still holds what was in it. */
  lemma OnceBytes(w: Writing, t: Table, i: InodeNo, data: Bytes, off: nat, p: nat)
    requires Owning(w, t, i) && off <= BLOCK_SIZE * w.inode.blockCount && Once(w, data, off).Some?
    requires p / BLOCK_SIZE < Once(w, data, off).value.inode.blockCount
    ensures var w1 := Once(w, data, off).value;
      RawAt(w1.disk, w1.inode, p) ==
        if off <= p < off + ChunkLen(off, |data|) then data[p - off] else RawAt(w.disk, w1.inode, p)
  {
    hide Ownership, Reach, PutChunk;
    var w0 := Reach(w, off).value;
    ReachKeepsOwnership(w, t, i, off);
    PutBytes(w0, t[i := w0.inode], i, data, off, p);
    OwnBlock(w0, t[i := w0.inode], i, p / BLOCK_SIZE);
  }

  // ---------------------------------------------------------------- the whole loop

  /** The loop keeps the bitmaps and the ownership of blocks sound, whichever inode is written. */
  lemma {:induction false} WriteLoopKeepsOwnership(w: Writing, t: Table, i: InodeNo, data: Bytes, off: nat)
    requires Owning(w, t, i) && off <= BLOCK_SIZE * w.inode.blockCount
    ensures var w' := WriteLoop(w, data, off).0; Owning(w', t[i := w'.inode], i) && Extends(w, w')
    decreases |data|
  {
    hide Ownership, Once;
    if data == [] || Once(w, data, off).None? {
      assert t[i := w.inode] == t;
    } else {
      var w1 := Once(w, data, off).value;
      var n := ChunkLen(off, |data|);
      OnceKeepsOwnership(w, t, i, data, off);
      WriteLoopKeepsOwnership(w1, t[i := w1.inode], i, data[n..], off + n);
      var w' := WriteLoop(w1, data[n..], off + n).0;
      assert t[i := w1.inode][i := w'.inode] == t[i := w'.inode];
    }
  }

  /** Byte for byte: a prefix of the data at the offset; every other byte is what its block held
      before the call, also where the block is new. */
  lemma {:induction false} WriteLoopBytes(w: Writing, t: Table, i: InodeNo, data: Bytes, off: nat, p: nat)
    requires Owning(w, t, i) && off <= BLOCK_SIZE * w.inode.blockCount
    requires p / BLOCK_SIZE < WriteLoop(w, data, off).0.inode.blockCount
    ensures var (w', n) := WriteLoop(w, data, off);
      RawAt(w'.disk, w'.inode, p) == if off <= p < off + n then data[p - off] else RawAt(w.disk, w'.inode, p)
    decreases |data|
  {
    hide Ownership, Once;
    if data != [] && Once(w, data, off).Some? {
      var w1 := Once(w, data, off).value;
      var n := ChunkLen(off, |data|);
      OnceKeepsOwnership(w, t, i, data, off);
      WriteLoopBytes(w1, t[i := w1.inode], i, data[n..], off + n, p);
      RoundTouches(w, t, i, data, off, p);
    }
  }

  /** What the first round does to a byte of the final blocks. */
  lemma RoundTouches(w: Writing, t: Table, i: InodeNo, data: Bytes, off: nat, p: nat)
    requires Owning(w, t, i) && off <= BLOCK_SIZE * w.inode.blockCount && data != [] && Once(w, data, off).Some?
    requires p / BLOCK_SIZE < WriteLoop(w, data, off).0.inode.blockCount
    ensures var w', w1 := WriteLoop(w, data, off).0, Once(w, data, off).value;
      RawAt(w1.disk, w'.inode, p) ==
        if off <= p < off + ChunkLen(off, |data|) then data[p - off] else RawAt(w.disk, w'.inode, p)
  {
    hide Ownership, Once, Owns, WriteLoop;
    LoopGoesOn(w, data, off);
    var w', w1 := WriteLoop(w, data, off).0, Once(w, data, off).value;
    var n := ChunkLen(off, |data|);
    OnceKeepsOwnership(w, t, i, data, off);
    WriteLoopKeepsOwnership(w1, t[i := w1.inode], i, data[n..], off + n);
    var t' := t[i := w1.inode][i := w'.inode];
    SamePage(off, p, n);
    if p / BLOCK_SIZE < w1.inode.blockCount {
      OnceBytes(w, t, i, data, off, p);
    } else {
      OwnBlock(w', t', i, p / BLOCK_SIZE);
      BlocksDiffer(w', t', i, p / BLOCK_SIZE, off / BLOCK_SIZE);
    }
  }

  lemma LoopGoesOn(w: Writing, data: Bytes, off: nat)
    requires w.Ready() && off <= BLOCK_SIZE * w.inode.blockCount && data != [] && Once(w, data, off).Some?
    ensures var n := ChunkLen(off, |data|);
      var (w', m) := WriteLoop(Once(w, data, off).value, data[n..], off + n);
      WriteLoop(w, data, off) == (w', n + m)
  {
  }

  lemma BlocksDiffer(w: Writing, t: Table, i: InodeNo, k: nat, l: nat)
    requires Owning(w, t, i) && k < w.inode.blockCount && l < w.inode.blockCount && k != l
    ensures w.inode.blocks[k] != w.inode.blocks[l]
  {
    OwnBlock(w, t, i, k);
    OwnBlock(w, t, i, l);
  }

  /** Blocks below the data area other than the block bitmap, and the blocks of other files, are
      as before. */
  lemma {:induction false} WriteLoopElsewhere(w: Writing, t: Table, i: InodeNo, data: Bytes, off: nat, b: BlockNo)
    requires Owning(w, t, i) && off <= BLOCK_SIZE * w.inode.blockCount
    requires b != BLOCK_BITMAP && (b < DATA_START || exists j: InodeNo, k: nat :: j != i && Owns(w.disk, t, j, k, b))
    ensures WriteLoop(w, data, off).0.disk[b] == w.disk[b]
    decreases |data|
  {
    hide Ownership, Once;
    if data != [] && Once(w, data, off).Some? {
      var w1 := Once(w, data, off).value;
      var n := ChunkLen(off, |data|);
      OnceKeepsOwnership(w, t, i, data, off);
      var t1 := t[i := w1.inode];
      OwnBlock(w1, t1, i, off / BLOCK_SIZE);
      if b >= DATA_START {
        var j: InodeNo, k: nat :| j != i && Owns(w.disk, t, j, k, b);
        assert Owns(w1.disk, t1, j, k, b);
        OwnersDiffer(w1, t1, i, off / BLOCK_SIZE, j, k, b);
      }
      WriteLoopElsewhere(w1, t1, i, data[n..], off + n, b);
    }
  }

  lemma OwnersDiffer(w: Writing, t: Table, i: InodeNo, k: nat, j: InodeNo, l: nat, b: BlockNo)
    requires Owning(w, t, i) && k < w.inode.blockCount && j != i && Owns(w.disk, t, j, l, b)
    ensures w.inode.blocks[k] != b
  {
    OwnBlock(w, t, i, k);
  }

  /** A write to a file also leaves the directory sound. */
  lemma WriteLoopKeepsOpen(w: Writing, t: Table, i: InodeNo, data: Bytes, off: nat)
    requires Open(w, t, i) && off <= BLOCK_SIZE * w.inode.blockCount
    ensures var w' := WriteLoop(w, data, off).0; Open(w', t[i := w'.inode], i) && Extends(w, w')
  {
    hide Ownership, WriteLoop;
    var w' := WriteLoop(w, data, off).0;
    var t' := t[i := w'.inode];
    OpenIsReady(w, t, i);
    WriteLoopKeepsOwnership(w, t, i, data, off);
    var x := t[ROOT_INO];
    forall k: nat, n: nat | k < x.blockCount && k < DIRECT_BLOCKS && n < DENTRIES_PER_BLOCK && x.blocks[k] < DISK_BLOCKS
      ensures DentrySound(w'.disk, DentryAt(w'.disk[x.blocks[k]], n))
    {
      OwnershipHasRoot(w.disk, t, k);
      WriteLoopElsewhere(w, t, i, data, off, x.blocks[k]);
      assert DentrySound(w.disk, DentryAt(w.disk[x.blocks[k]], n));
    }
  }

  lemma OwnershipHasRoot(d: Disk, t: Table, k: nat)
    requires Ownership(d, t) && k < t[ROOT_INO].blockCount
    ensures k < DIRECT_BLOCKS && Owns(d, t, ROOT_INO, k, t[ROOT_INO].blocks[k]) && DATA_START <= t[ROOT_INO].blocks[k] < DISK_BLOCKS
  {
    assert InodeSound(t[ROOT_INO], ROOT_INO);
  }

  /** The loop stops early only at the twelfth block's end or on a full disk. */
  lemma {:induction false} WriteLoopStops(w: Writing, data: Bytes, off: nat)
    requires w.Ready() && off <= BLOCK_SIZE * w.inode.blockCount
    ensures var (w', n) := WriteLoop(w, data, off);
      n < |data| ==> off + n >= BLOCK_SIZE * DIRECT_BLOCKS || AllocBlock(w'.disk).None?
    decreases |data|
  {
    hide Once, AllocBlock;
    if data != [] {
      if Once(w, data, off).Some? {
        var n := ChunkLen(off, |data|);
        LoopGoesOn(w, data, off);
        WriteLoopStops(Once(w, data, off).value, data[n..], off + n);
      } else {
        OnceStops(w, data, off);
      }
    }
  }

  lemma OnceStops(w: Writing, data: Bytes, off: nat)
    requires w.Ready() && off <= BLOCK_SIZE * w.inode.blockCount && Once(w, data, off).None?
    ensures off >= BLOCK_SIZE * DIRECT_BLOCKS || AllocBlock(w.disk).None?
  {
  }

  // ---------------------------------------------------------------- the outcome, decided beforehand

  /** How many blocks hold `n` bytes. */
  function BlocksFor(n: nat): nat { (n + BLOCK_SIZE - 1) / BLOCK_SIZE }

  /** `w` with further blocks until it has `need` of them or the disk is full; no data is written. */
  function LaidOut(w: Writing, need: nat): (r: Writing)
    requires w.Ready() && need <= DIRECT_BLOCKS
    ensures r.Ready() && w.inode.blockCount <= r.inode.blockCount
    decreases DIRECT_BLOCKS - w.inode.blockCount
  {
    if need <= w.inode.blockCount then w
    else
      match Grow(w)
      case None => w
      case Some(w1) => LaidOut(w1, need)
  }

  /** The number of blocks that a write of `len` bytes at `off` asks for. */
  function Need(off: nat, len: nat): (n: nat)
    ensures n <= DIRECT_BLOCKS
  {
    if len == 0 then 0 else if BlocksFor(off + len) > DIRECT_BLOCKS then DIRECT_BLOCKS else BlocksFor(off + len)
  }

  /** How much of `len` bytes goes into `count` blocks from `off` on. */
  function Room(off: nat, len: nat, count: nat): (n: nat)
    requires off <= BLOCK_SIZE * count
    ensures n <= len && off + n <= BLOCK_SIZE * count
  {
    if off + len <= BLOCK_SIZE * count then len else BLOCK_SIZE * count - off
  }

  /** Which blocks the loop allocates and how much it writes follow from the inode and the bitmap
      before the call. */
  lemma {:induction false} WriteLoopPlan(w: Writing, t: Table, i: InodeNo, data: Bytes, off: nat)
    requires Owning(w, t, i) && off <= BLOCK_SIZE * w.inode.blockCount
    ensures var (w', n) := WriteLoop(w, data, off);
      var plan := LaidOut(w, Need(off, |data|));
      && w'.inode == plan.inode && w'.disk[BLOCK_BITMAP] == plan.disk[BLOCK_BITMAP]
      && n == Room(off, |data|, plan.inode.blockCount)
    decreases |data|
  {
    hide Ownership, Once, LaidOut, Need, Room;
    if data == [] {
      PlanOfNothing(w, off);
    } else if Once(w, data, off).None? {
      PlanFails(w, data, off);
    } else {
      var w1 := Once(w, data, off).value;
      var n := ChunkLen(off, |data|);
      OnceKeepsOwnership(w, t, i, data, off);
      WriteLoopPlan(w1, t[i := w1.inode], i, data[n..], off + n);
      PlanGoesOn(w, t, i, data, off);
    }
  }

  lemma PlanOfNothing(w: Writing, off: nat)
    requires w.Ready() && off <= BLOCK_SIZE * w.inode.blockCount
    ensures LaidOut(w, Need(off, 0)) == w && Room(off, 0, w.inode.blockCount) == 0
  {
  }

  lemma PlanFails(w: Writing, data: Bytes, off: nat)
    requires w.Ready() && off <= BLOCK_SIZE * w.inode.blockCount && data != [] && Once(w, data, off).None?
    ensures LaidOut(w, Need(off, |data|)) == w && Room(off, |data|, w.inode.blockCount) == 0
  {
    hide PutChunk;
  }

  lemma PlanGoesOn(w: Writing, t: Table, i: InodeNo, data: Bytes, off: nat)
    requires Owning(w, t, i) && off <= BLOCK_SIZE * w.inode.blockCount && data != [] && Once(w, data, off).Some?
    ensures var w1, n := Once(w, data, off).value, ChunkLen(off, |data|);
      var plan, plan1 := LaidOut(w, Need(off, |data|)), LaidOut(w1, Need(off + n, |data| - n));
      && plan1.inode == plan.inode && plan1.disk[BLOCK_BITMAP] == plan.disk[BLOCK_BITMAP]
      && Room(off, |data|, plan.inode.blockCount) == n + Room(off + n, |data| - n, plan.inode.blockCount)
  {
    hide Ownership, PutChunk, LaidOut;
    var n, w0, w1 := ChunkLen(off, |data|), Reach(w, off).value, Once(w, data, off).value;
    var need, need1 := Need(off, |data|), Need(off + n, |data| - n);
    ReachKeepsOwnership(w, t, i, off);
    PutKeepsOwnership(w0, t[i := w0.inode], i, data, off);
    PlanReaches(w, off, |data|);
    PlanRest(w0, off, |data|);
    SamePlan(w0, w1, need1);
    ChunkEnds(off, n, w0.inode.blockCount);
  }

  /** The block for the first chunk is the first block of the plan. */
  lemma PlanReaches(w: Writing, off: nat, len: nat)
    requires w.Ready() && off <= BLOCK_SIZE * w.inode.blockCount && len > 0 && Reach(w, off).Some?
    ensures LaidOut(w, Need(off, len)) == LaidOut(Reach(w, off).value, Need(off, len))
  {
  }

  lemma PlanRest(w: Writing, off: nat, len: nat)
    requires w.Ready() && off / BLOCK_SIZE < w.inode.blockCount && len > 0
    ensures var n := ChunkLen(off, len); LaidOut(w, Need(off, len)) == LaidOut(w, Need(off + n, len - n))
  {
  }

  /** The plan depends on the inode and the block bitmap alone. */
  lemma {:induction false} SamePlan(w: Writing, w1: Writing, need: nat)
    requires w.Ready() && w1.Ready() && need <= DIRECT_BLOCKS
    requires w1.inode == w.inode && w1.disk[BLOCK_BITMAP] == w.disk[BLOCK_BITMAP]
    ensures LaidOut(w1, need).inode == LaidOut(w, need).inode
    ensures LaidOut(w1, need).disk[BLOCK_BITMAP] == LaidOut(w, need).disk[BLOCK_BITMAP]
    decreases DIRECT_BLOCKS - w.inode.blockCount
  {
    if need > w.inode.blockCount && Grow(w).Some? { SamePlan(Grow(w).value, Grow(w1).value, need); }
  }
}
