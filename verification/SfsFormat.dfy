/** sfs_format: every run starts from a consistent, empty file system. */
module SfsFormat {
  import opened Wrappers
  import opened SfsCodec
  import opened SfsSpec
  import opened SfsDir
  import opened SfsCreate

  const SFS_MAGIC: u32 := 0x53465321

  function SuperBlock(): Block {
    Splice(ZeroBlock(), 0, LeWords([SFS_MAGIC, DISK_BLOCKS, MAX_INODES, INODE_BITMAP, BLOCK_BITMAP, INODE_TABLE, DATA_START]))
  }

  /** The first `n` bits set. */
  function MarkFirst(bm: Bytes, n: nat): (r: Bytes)
    requires n <= 8 * |bm|
    ensures |r| == |bm|
  {
    if n == 0 then bm else SetBit(MarkFirst(bm, n - 1), n - 1)
  }

  lemma {:induction false} MarkFirstFacts(bm: Bytes, n: nat, j: nat)
    requires n <= 8 * |bm| && j / 8 < |bm|
    ensures TestBit(MarkFirst(bm, n), j) <==> j < n || TestBit(bm, j)
  {
    if n > 0 {
      MarkFirstFacts(bm, n - 1, j);
      BitmapFacts(MarkFirst(bm, n - 1), n - 1, j);
    }
  }

  lemma {:induction false} ZeroBit(k: nat)
    ensures !Bit(0, k)
  {
    if k > 0 { ZeroBit(k - 1); }
  }

  function DotEntry(dots: nat): (e: Dentry)
    requires dots <= 2
    ensures e.Shaped()
  {
    Dentry(ROOT_INO, seq(MAX_FILENAME, i => if i < dots then 46 else 0))
  }

  function RootBlock(): Block {
    PutEntry(PutEntry(ZeroBlock(), 0, DotEntry(1)), 1, DotEntry(2))
  }

  function RootInode(b: u32): (x: Inode)
    ensures x.Shaped()
  {
    Inode(ROOT_INO, 2 * DENTRY_BYTES, SFS_DIR, 1, [b, 0, 0, 0, 0, 0, 0, 0, 0, 0, 0, 0])
  }

  /** The metadata blocks, before the root directory exists. */
  function Blank(d: Disk): Disk {
    d[0 := SuperBlock()][INODE_BITMAP := SetBit(ZeroBlock(), 0)][BLOCK_BITMAP := MarkFirst(ZeroBlock(), DATA_START)]
    [INODE_TABLE := ZeroBlock()][INODE_TABLE + 1 := ZeroBlock()]
  }

  lemma BlankAllocs(d: Disk)
    ensures AllocBlock(Blank(d)).Some? && AllocBlock(Blank(d)).value.0 == DATA_START
  {
    MarkFirstFacts(ZeroBlock(), DATA_START, DATA_START);
    ZeroBit(DATA_START % 8);
    var b := FirstZero(Blank(d)[BLOCK_BITMAP], DISK_BLOCKS);
    MarkFirstFacts(ZeroBlock(), DATA_START, b);
  }

  /** sfs_format. */
  function Format(d: Disk): Disk {
    BlankAllocs(d);
    var (b, d1) := AllocBlock(Blank(d)).value;
    var d2 := WithInode(d1[b := RootBlock()], ROOT_INO, RootInode(b));
    d2[INODE_BITMAP := SetBit(d2[INODE_BITMAP], ROOT_INO)]
  }

  // ---------------------------------------------------------------- the formatted disk

  lemma FormatBlocks(d: Disk)
    ensures Root(Format(d)) == RootInode(DATA_START) && Format(d)[DATA_START] == RootBlock()
    ensures Format(d)[INODE_BITMAP] == SetBit(SetBit(ZeroBlock(), 0), ROOT_INO)
    ensures Format(d)[BLOCK_BITMAP] == SetBit(MarkFirst(ZeroBlock(), DATA_START), DATA_START)
  {
    hide FirstZero, MarkFirst, RootBlock, RootInode, ZeroBlock;
    BlankAllocs(d);
    var d1 := AllocBlock(Blank(d)).value.1[DATA_START := RootBlock()];
    InodesAreSeparate(d1, ROOT_INO, RootInode(DATA_START), ROOT_INO);
    TableFits(ROOT_INO);
  }

  lemma FormatBits(d: Disk, i: nat)
    ensures i < MAX_INODES ==> (TestBit(Format(d)[INODE_BITMAP], i) <==> i <= ROOT_INO)
    ensures i < DISK_BLOCKS ==> (TestBit(Format(d)[BLOCK_BITMAP], i) <==> i <= DATA_START)
  {
    hide Format, SetBit, MarkFirst;
    FormatBlocks(d);
    if i < DISK_BLOCKS {
      ZeroBit(i % 8);
      BitmapFacts(ZeroBlock(), 0, i);
      BitmapFacts(SetBit(ZeroBlock(), 0), ROOT_INO, i);
      MarkFirstFacts(ZeroBlock(), DATA_START, i);
      BitmapFacts(MarkFirst(ZeroBlock(), DATA_START), DATA_START, i);
    }
  }

  lemma FormatEntry(n: nat)
    requires n < DENTRIES_PER_BLOCK
    ensures DentryAt(RootBlock(), n) == if n == 0 then DotEntry(1) else if n == 1 then DotEntry(2) else DentryAt(ZeroBlock(), n)
  {
    hide DotEntry, PutEntry;
    EntriesAreSeparate(ZeroBlock(), 0, DotEntry(1), n);
    EntriesAreSeparate(PutEntry(ZeroBlock(), 0, DotEntry(1)), 1, DotEntry(2), n);
  }

  /** Formatting any disk gives a consistent file system with a root directory and no files. */
  lemma FormatIsConsistent(d: Disk)
    ensures Consistent(Format(d)) && forall i: InodeNo :: Used(Format(d), i) <==> i == ROOT_INO
  {
    hide Format, DotEntry, DentryAt, RootBlock;
    var f := Format(d);
    var t := TableOf(f);
    FormatBlocks(d);
    forall i: nat | i < MAX_INODES ensures TestBit(f[INODE_BITMAP], i) <==> i <= ROOT_INO { FormatBits(d, i); }
    assert t[ROOT_INO] == RootInode(DATA_START);
    assert forall i: InodeNo, k: nat, b: int :: Owns(f, t, i, k, b) <==> i == ROOT_INO && k == 0 && b == DATA_START;
    forall b: BlockNo ensures Taken(f, b) <==> b < DATA_START || HasOwner(f, t, b) {
      FormatBits(d, b);
      if b == DATA_START { assert Owns(f, t, ROOT_INO, 0, b); }
    }
    forall k: nat, n: nat | k < t[ROOT_INO].blockCount && k < DIRECT_BLOCKS && n < DENTRIES_PER_BLOCK &&
        t[ROOT_INO].blocks[k] < DISK_BLOCKS
      ensures DentrySound(f, DentryAt(f[t[ROOT_INO].blocks[k]], n))
    {
      FormatEntry(n);
      ZeroEntry(n);
      DotsAreSound(f, 1);
      DotsAreSound(f, 2);
    }
  }

  lemma DotsAreSound(d: Disk, dots: nat)
    requires dots <= 2 && Used(d, ROOT_INO)
    ensures DentrySound(d, DotEntry(dots))
  {
  }
}
