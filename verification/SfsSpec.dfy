/** fs/sfs.c as functions on the disk: 1024 blocks of 4096 bytes. */
module SfsSpec {
  import opened Wrappers
  import opened SfsCodec

  const DISK_BLOCKS: nat := 1024
  const INODE_BITMAP: nat := 1
  const BLOCK_BITMAP: nat := 2
  const INODE_TABLE: nat := 3
  const DATA_START: nat := 5
  const ROOT_INO: nat := 1
  const SFS_FILE: Byte := 0
  const SFS_DIR: Byte := 1

  type Block = b: Bytes | |b| == BLOCK_SIZE witness seq(BLOCK_SIZE, _ => 0)
  function ZeroBlock(): Block { seq(BLOCK_SIZE, _ => 0) }
  type Disk = d: seq<Block> | |d| == DISK_BLOCKS witness seq<Block>(DISK_BLOCKS, _ => ZeroBlock())
  type InodeNo = i: int | 1 <= i < MAX_INODES witness 1
  type BlockNo = b: int | 0 <= b < DISK_BLOCKS

  // ---------------------------------------------------------------- inodes

  function TableBlock(i: InodeNo): nat { INODE_TABLE + (i - 1) / INODES_PER_BLOCK }

  function TableOffset(i: InodeNo): nat { (i - 1) % INODES_PER_BLOCK * INODE_BYTES }

  lemma TableFits(i: InodeNo)
    ensures INODE_TABLE <= TableBlock(i) < DATA_START && TableOffset(i) + INODE_BYTES <= BLOCK_SIZE
  {
  }

  /** sfs_read_inode. */
  function ReadInode(d: Disk, i: InodeNo): (x: Inode)
    ensures x.Shaped()
  {
    TableFits(i);
    DecodeInode(d[TableBlock(i)][TableOffset(i)..TableOffset(i) + INODE_BYTES])
  }

  /** sfs_write_inode. */
  function WithInode(d: Disk, i: InodeNo, x: Inode): Disk
    requires x.Shaped()
  {
    TableFits(i);
    d[TableBlock(i) := Splice(d[TableBlock(i)], TableOffset(i), EncodeInode(x))]
  }

  /** The packed inodes do not overlap: writing one changes no other. */
  lemma InodesAreSeparate(d: Disk, i: InodeNo, x: Inode, j: InodeNo)
    requires x.Shaped()
    ensures ReadInode(WithInode(d, i, x), j) == if j == i then x else ReadInode(d, j)
  {
    TableFits(i);
    TableFits(j);
    InodeRoundTrip(x);
    var d' := WithInode(d, i, x);
    var lo := TableOffset(j);
    if j == i {
      assert d'[TableBlock(j)][lo..lo + INODE_BYTES] == EncodeInode(x);
    } else {
      if TableBlock(i) == TableBlock(j) { SlotsApart(i, j); }
      assert d'[TableBlock(j)][lo..lo + INODE_BYTES] == d[TableBlock(j)][lo..lo + INODE_BYTES];
    }
  }

  lemma SlotsApart(i: InodeNo, j: InodeNo)
    requires i != j && TableBlock(i) == TableBlock(j)
    ensures TableOffset(i) + INODE_BYTES <= TableOffset(j) || TableOffset(j) + INODE_BYTES <= TableOffset(i)
  {
  }

  predicate Used(d: Disk, i: InodeNo) { TestBit(d[INODE_BITMAP], i) }

  predicate Taken(d: Disk, b: BlockNo) { TestBit(d[BLOCK_BITMAP], b) }

  /** sfs_alloc_block. */
  function AllocBlock(d: Disk): Option<(BlockNo, Disk)> {
    var b := FirstZero(d[BLOCK_BITMAP], DISK_BLOCKS);
    if b == DISK_BLOCKS || b < DATA_START then None
    else Some((b, d[BLOCK_BITMAP := SetBit(d[BLOCK_BITMAP], b)]))
  }

  /** sfs_alloc_inode. */
  function AllocInode(d: Disk): Option<(nat, Disk)> {
    var i := FirstZero(d[INODE_BITMAP], MAX_INODES);
    if i == MAX_INODES then None else Some((i, d[INODE_BITMAP := SetBit(d[INODE_BITMAP], i)]))
  }

  /** sfs_free_inode. */
  function FreeInode(d: Disk, i: InodeNo): Disk {
    d[INODE_BITMAP := ClearBit(d[INODE_BITMAP], i)]
  }

  function DentryAt(b: Block, k: nat): (r: Dentry)
    requires k < DENTRIES_PER_BLOCK
    ensures r.Shaped()
  {
    DecodeDentry(b[k * DENTRY_BYTES..(k + 1) * DENTRY_BYTES])
  }

  // ---------------------------------------------------------------- consistency

  /** An inode table: the one on disk, or the one on disk with an inode that is being worked on. */
  type Table = t: seq<Inode> | |t| == MAX_INODES && forall i | 0 <= i < |t| :: t[i].Shaped() witness seq(MAX_INODES, _ => NoInode)

  const NoInode := Inode(0, 0, 0, 0, [0, 0, 0, 0, 0, 0, 0, 0, 0, 0, 0, 0])

  function TableOf(d: Disk): (t: Table)
    ensures forall i: InodeNo :: t[i] == ReadInode(d, i)
  {
    seq(MAX_INODES, i requires 0 <= i < MAX_INODES => if i == 0 then NoInode else ReadInode(d, i))
  }

  /** Inode `i` is allocated and its block `k` is `b`. */
  predicate Owns(d: Disk, t: Table, i: InodeNo, k: nat, b: int) {
    Used(d, i) && k < DIRECT_BLOCKS && k < t[i].blockCount && t[i].blocks[k] == b
  }

  predicate InodeSound(x: Inode, i: InodeNo) {
    && x.ino == i && x.Shaped() && x.blockCount <= DIRECT_BLOCKS
    && (forall k | 0 <= k < x.blockCount :: DATA_START <= x.blocks[k] < DISK_BLOCKS)
    && (if i == ROOT_INO then x.kind == SFS_DIR && x.blockCount >= 1
        else x.kind == SFS_FILE && x.size <= BLOCK_SIZE * x.blockCount)
  }

  ghost predicate InodesSound(d: Disk, t: Table) {
    && TestBit(d[INODE_BITMAP], 0) && Used(d, ROOT_INO)
    && forall i: InodeNo | Used(d, i) :: InodeSound(t[i], i)
  }

  ghost predicate OwnersDistinct(d: Disk, t: Table) {
    forall i: InodeNo, k: nat, j: InodeNo, l: nat, b: int | Owns(d, t, i, k, b) && Owns(d, t, j, l, b) :: i == j && k == l
  }

  ghost predicate HasOwner(d: Disk, t: Table, b: int) {
    exists i: InodeNo, k: nat :: Owns(d, t, i, k, b)
  }

  ghost predicate BitmapExact(d: Disk, t: Table) {
    forall b: BlockNo :: Taken(d, b) <==> b < DATA_START || HasOwner(d, t, b)
  }

  /** A live entry names an allocated inode and its name ends; an unused entry is all zero. */
  predicate DentrySound(d: Disk, e: Dentry) {
    if e.ino == 0 then forall k | 0 <= k < |e.name| :: e.name[k] == 0
    else e.ino < MAX_INODES && Used(d, e.ino) && e.Shaped() && e.name[MAX_FILENAME - 1] == 0
  }

  ghost predicate RootSound(d: Disk, t: Table) {
    forall k: nat, n: nat | k < t[ROOT_INO].blockCount && k < DIRECT_BLOCKS && n < DENTRIES_PER_BLOCK &&
        t[ROOT_INO].blocks[k] < DISK_BLOCKS ::
      DentrySound(d, DentryAt(d[t[ROOT_INO].blocks[k]], n))
  }

  /** Who owns which block is clear, and the block bitmap says which blocks have an owner. */
  ghost predicate Ownership(d: Disk, t: Table) {
    InodesSound(d, t) && OwnersDistinct(d, t) && BitmapExact(d, t)
  }

  ghost predicate Sound(d: Disk, t: Table) { Ownership(d, t) && RootSound(d, t) }

  ghost predicate Consistent(d: Disk) { Sound(d, TableOf(d)) }

  // ---------------------------------------------------------------- file bytes

  /** Byte `p` of the blocks of `x`, whatever its size says. */
  function RawAt(d: Disk, x: Inode, p: nat): Byte
    requires p / BLOCK_SIZE < DIRECT_BLOCKS && x.Shaped() && x.blocks[p / BLOCK_SIZE] < DISK_BLOCKS
  {
    d[x.blocks[p / BLOCK_SIZE]][p % BLOCK_SIZE]
  }

  predicate Readable(x: Inode) {
    && x.Shaped() && x.blockCount <= DIRECT_BLOCKS && x.size <= BLOCK_SIZE * x.blockCount
    && forall k | 0 <= k < x.blockCount :: x.blocks[k] < DISK_BLOCKS
  }

  /** The contents of a file: a flat sequence of `size` bytes. */
  function Content(d: Disk, x: Inode): (s: Bytes)
    requires Readable(x)
    ensures |s| == x.size && forall p | 0 <= p < x.size :: p / BLOCK_SIZE < x.blockCount && s[p] == RawAt(d, x, p)
  {
    seq(x.size, p requires 0 <= p < x.size => InBlock(p, x.blockCount); RawAt(d, x, p))
  }

  lemma InBlock(p: nat, n: nat)
    requires p < BLOCK_SIZE * n
    ensures p / BLOCK_SIZE < n
  {
  }
}
