/** sfs_format, sfs_lookup and sfs_create of a file under the root directory. */
module SfsDir {
  import opened Wrappers
  import opened SfsCodec
  import opened SfsSpec
  import opened SfsWrite

  // ---------------------------------------------------------------- entries of the root directory

  /** Number of entries in the blocks of a directory. */
  function Total(x: Inode): nat { DENTRIES_PER_BLOCK * x.blockCount }

  predicate DirReady(x: Inode) {
    x.Shaped() && x.blockCount <= DIRECT_BLOCKS && forall k | 0 <= k < x.blockCount :: x.blocks[k] < DISK_BLOCKS
  }

  /** Entry `e`, counting through all blocks of the directory. */
  function Entry(d: Disk, x: Inode, e: nat): (r: Dentry)
    requires DirReady(x) && e < Total(x)
    ensures r.Shaped()
  {
    DentryAt(d[x.blocks[e / DENTRIES_PER_BLOCK]], e % DENTRIES_PER_BLOCK)
  }

  /** The first unused entry from `e` on. */
  function FreeEntry(d: Disk, x: Inode, e: nat := 0): (r: nat)
    requires DirReady(x) && e <= Total(x)
    ensures e <= r <= Total(x) && (r < Total(x) ==> Entry(d, x, r).ino == 0)
    ensures forall k | e <= k < r :: Entry(d, x, k).ino != 0
    decreases Total(x) - e
  {
    if e == Total(x) || Entry(d, x, e).ino == 0 then e else FreeEntry(d, x, e + 1)
  }

  predicate Named(e: Dentry, name: Bytes) { e.ino != 0 && CString(e.name) == name }

  /** The first live entry from `e` on that holds `name`. */
  function MatchEntry(d: Disk, x: Inode, name: Bytes, e: nat := 0): (r: nat)
    requires DirReady(x) && e <= Total(x)
    ensures e <= r <= Total(x) && (r < Total(x) ==> Named(Entry(d, x, r), name))
    ensures forall k | e <= k < r :: !Named(Entry(d, x, k), name)
    decreases Total(x) - e
  {
    if e == Total(x) || Named(Entry(d, x, e), name) then e else MatchEntry(d, x, name, e + 1)
  }

  /** sfs_lookup under the root. */
  function Lookup(d: Disk, name: Bytes): (r: int)
    requires DirReady(ReadInode(d, ROOT_INO))
    ensures -1 <= r < 0x1_0000_0000
  {
    var x := ReadInode(d, ROOT_INO);
    if x.kind != SFS_DIR then -1
    else
      var e := MatchEntry(d, x, name);
      if e == Total(x) then -1 else Entry(d, x, e).ino
  }

  function PutEntry(b: Block, k: nat, e: Dentry): Block
    requires k < DENTRIES_PER_BLOCK && e.Shaped()
  {
    Splice(b, k * DENTRY_BYTES, EncodeDentry(e))
  }

  lemma EntriesAreSeparate(b: Block, k: nat, e: Dentry, n: nat)
    requires k < DENTRIES_PER_BLOCK && n < DENTRIES_PER_BLOCK && e.Shaped()
    ensures DentryAt(PutEntry(b, k, e), n) == if n == k then e else DentryAt(b, n)
  {
    DentryRoundTrip(e);
    var b' := PutEntry(b, k, e);
    var lo := n * DENTRY_BYTES;
    if n == k {
      assert b'[lo..lo + DENTRY_BYTES] == EncodeDentry(e);
    } else {
      assert b'[lo..lo + DENTRY_BYTES] == b[lo..lo + DENTRY_BYTES];
    }
  }

  lemma ZeroEntry(n: nat)
    requires n < DENTRIES_PER_BLOCK
    ensures DentryAt(ZeroBlock(), n).ino == 0 && forall k | 0 <= k < MAX_FILENAME :: DentryAt(ZeroBlock(), n).name[k] == 0
  {
    var s := ZeroBlock()[n * DENTRY_BYTES..(n + 1) * DENTRY_BYTES];
    assert s[..4] == [0, 0, 0, 0];
  }

  // ---------------------------------------------------------------- sfs_create

  function NewInode(i: InodeNo): (x: Inode)
    ensures x.Shaped()
  {
    Inode(i, 0, SFS_FILE, 0, NoInode.blocks)
  }

  /** The directory inode with one more entry. */
  function Longer(x: Inode): Inode { x.(size := (x.size + DENTRY_BYTES) % 0x1_0000_0000) }

  /** Where the entry goes and what it replaces: the disk with it, and the parent inode. None if the
      directory cannot take it. */
  function AddEntry(d: Disk, x: Inode, i: InodeNo, name: Bytes): (r: Option<Writing>)
    requires DirReady(x) && x.blockCount >= 1
    ensures r.Some? ==> r.value.inode.Shaped()
  {
    var e := FreeEntry(d, x);
    if e < Total(x) then
      var b := x.blocks[e / DENTRIES_PER_BLOCK];
      var entry := Dentry(i, CopyName(Entry(d, x, e).name, name));
      Some(Writing(d[b := PutEntry(d[b], e % DENTRIES_PER_BLOCK, entry)], Longer(x)))
    else if x.blockCount >= DIRECT_BLOCKS then None
    else
      match Grow(Writing(d, x))
      case None => None
      case Some(w) =>
        var entry := Dentry(i, CopyName(Entry(d, x, Total(x) - 1).name, name));
        var b := w.inode.blocks[x.blockCount];
        Some(Writing(w.disk[b := PutEntry(ZeroBlock(), 0, entry)], Longer(w.inode)))
  }

  /** sfs_create once inode `i` is allocated: the new disk, and the new inode number or -1. */
  function Insert(d: Disk, x: Inode, i: InodeNo, name: Bytes): (Disk, int)
    requires DirReady(x) && x.blockCount >= 1
  {
    var d2 := WithInode(d, i, NewInode(i));
    match AddEntry(d2, x, i, name)
    case None => (FreeInode(d2, i), -1)
    case Some(w) => (WithInode(w.disk, ROOT_INO, w.inode), i)
  }

  /** sfs_create(ROOT_INO, name, SFS_FILE): the new disk, and the new inode number or -1. */
  function Create(d: Disk, name: Bytes): (Disk, int)
    requires RootReady(d)
  {
    var x := ReadInode(d, ROOT_INO);
    if x.kind != SFS_DIR || Lookup(d, name) >= 0 then (d, -1)
    else
      match AllocInode(d)
      case None => (d, -1)
      case Some((i, d1)) => Insert(d1, x, i, name)
  }

  /** What sfs_create relies on: a readable root directory with its own number, and bit 0 of the inode bitmap set. */
  predicate RootReady(d: Disk) {
    && DirReady(ReadInode(d, ROOT_INO)) && ReadInode(d, ROOT_INO).blockCount >= 1 && ReadInode(d, ROOT_INO).ino == ROOT_INO
    && TestBit(d[INODE_BITMAP], 0)
  }

  lemma ConsistentIsReady(d: Disk)
    requires Consistent(d)
    ensures RootReady(d) && ReadInode(d, ROOT_INO).kind == SFS_DIR
  {
    assert InodeSound(TableOf(d)[ROOT_INO], ROOT_INO);
  }

  // ---------------------------------------------------------------- a new inode

  /** The disk on which inode `i` has been allocated and written. */
  function WithNew(d: Disk, i: InodeNo): Disk {
    WithInode(d[INODE_BITMAP := SetBit(d[INODE_BITMAP], i)], i, NewInode(i))
  }

  lemma NewInodeFacts(d: Disk, i: InodeNo)
    requires Consistent(d) && !Used(d, i)
    ensures var d2 := WithNew(d, i);
      && TableOf(d2) == TableOf(d)[i := NewInode(i)]
      && (forall j: InodeNo :: Used(d2, j) <==> j == i || Used(d, j)) && TestBit(d2[INODE_BITMAP], 0)
      && (forall b: BlockNo | b == 0 || b == BLOCK_BITMAP || b >= DATA_START :: d2[b] == d[b])
  {
    var d1 := d[INODE_BITMAP := SetBit(d[INODE_BITMAP], i)];
    var d2 := WithNew(d, i);
    forall j: InodeNo ensures ReadInode(d2, j) == if j == i then NewInode(i) else ReadInode(d, j) {
      InodesAreSeparate(d1, i, NewInode(i), j);
      TableFits(j);
    }
    TableFits(i);
    forall j: InodeNo ensures Used(d2, j) <==> j == i || Used(d, j) { BitmapFacts(d[INODE_BITMAP], i, j); }
    BitmapFacts(d[INODE_BITMAP], i, 0);
  }

  lemma NewInodeKeepsSound(d: Disk, i: InodeNo)
    requires Consistent(d) && !Used(d, i)
    ensures Consistent(WithNew(d, i))
  {
    hide WithNew;
    var d2, t := WithNew(d, i), TableOf(d);
    NewInodeFacts(d, i);
    var t2 := TableOf(d2);
    assert InodeSound(t[ROOT_INO], ROOT_INO) && i != ROOT_INO;
    assert forall j: InodeNo, k: nat, b: int :: Owns(d2, t2, j, k, b) <==> Owns(d, t, j, k, b);
    forall b: BlockNo ensures Taken(d2, b) <==> b < DATA_START || HasOwner(d2, t2, b) {
      assert HasOwner(d2, t2, b) <==> HasOwner(d, t, b);
      assert Taken(d2, b) == Taken(d, b);
    }
    forall k: nat, n: nat | k < t[ROOT_INO].blockCount && k < DIRECT_BLOCKS && n < DENTRIES_PER_BLOCK &&
        t[ROOT_INO].blocks[k] < DISK_BLOCKS
      ensures DentrySound(d2, DentryAt(d2[t[ROOT_INO].blocks[k]], n))
    {
      assert DentrySound(d, DentryAt(d[t[ROOT_INO].blocks[k]], n));
    }
  }
}
