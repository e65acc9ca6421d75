/** sys_read and sys_write against flat files: each allocated inode is a sequence of bytes. */
module SfsFlat {
  import opened SfsCodec
  import opened SfsSpec
  import opened SfsWrite

  /** `data` written over `c` at `off`; the file grows if the data ends behind its end. */
  function Overwrite(c: Bytes, off: nat, data: Bytes): Bytes
    requires off <= |c|
  {
    c[..off] + data + (if off + |data| < |c| then c[off + |data|..] else [])
  }

  function File(d: Disk, i: InodeNo): (c: Bytes)
    requires Readable(ReadInode(d, i))
    ensures |c| == ReadInode(d, i).size
  {
    Content(d, ReadInode(d, i))
  }

  ghost predicate IsFile(d: Disk, i: InodeNo) {
    Consistent(d) && Used(d, i) && i != ROOT_INO && Readable(ReadInode(d, i))
  }

  lemma FilesAreReadable(d: Disk, i: InodeNo)
    requires Consistent(d) && Used(d, i) && i != ROOT_INO
    ensures IsFile(d, i) && InodeSound(ReadInode(d, i), i)
  {
    assert InodeSound(TableOf(d)[i], i);
  }

  // ---------------------------------------------------------------- writing

  /** sfs_write_file and the sfs_write_inode behind it; also the number of bytes written. */
  function WriteFile(d: Disk, i: InodeNo, data: Bytes, off: nat): (r: (Disk, nat))
    requires Readable(ReadInode(d, i)) && off <= ReadInode(d, i).size
    ensures r.1 <= |data|
  {
    var x := ReadInode(d, i);
    var (w, n) := WriteLoop(Writing(d, x), data, off);
    (WithInode(w.disk, i, Resized(w.inode, off + n)), n)
  }

  function Resized(x: Inode, end: nat): (r: Inode)
    requires x.Shaped() && end <= BLOCK_SIZE * x.blockCount && x.blockCount <= DIRECT_BLOCKS
    ensures r.Shaped()
  {
    if end > x.size then x.(size := end) else x
  }

  /** Storing the inode that was worked on closes the gap between the table in use and the table
      on disk. */
  lemma StoreKeepsOwnership(d: Disk, t: Table, i: InodeNo, x: Inode)
    requires Ownership(d, t) && x.Shaped() && t[i] == x && t[0] == NoInode
    requires forall j: InodeNo | j != i :: t[j] == ReadInode(d, j)
    ensures var d' := WithInode(d, i, x); TableOf(d') == t && Ownership(d', t)
  {
    hide Ownership;
    var d' := WithInode(d, i, x);
    forall j: InodeNo ensures ReadInode(d', j) == t[j] { InodesAreSeparate(d, i, x, j); }
    assert TableOf(d') == t;
    StoreTouchesTable(d, i, x);
    SameOwners(d, d', t);
  }

  lemma StoreKeepsSound(d: Disk, t: Table, i: InodeNo, x: Inode)
    requires Sound(d, t) && x.Shaped() && t[i] == x && t[0] == NoInode
    requires forall j: InodeNo | j != i :: t[j] == ReadInode(d, j)
    ensures var d' := WithInode(d, i, x); TableOf(d') == t && Consistent(d')
  {
    var d' := WithInode(d, i, x);
    StoreKeepsOwnership(d, t, i, x);
    StoreTouchesTable(d, i, x);
    assert InodeSound(t[ROOT_INO], ROOT_INO);
    forall k: nat, n: nat | k < t[ROOT_INO].blockCount && k < DIRECT_BLOCKS && n < DENTRIES_PER_BLOCK &&
        t[ROOT_INO].blocks[k] < DISK_BLOCKS
      ensures DentrySound(d', DentryAt(d'[t[ROOT_INO].blocks[k]], n))
    {
      assert DentrySound(d, DentryAt(d[t[ROOT_INO].blocks[k]], n));
    }
  }

  lemma StoreTouchesTable(d: Disk, i: InodeNo, x: Inode)
    requires x.Shaped()
    ensures forall b: BlockNo | b < INODE_TABLE || b >= DATA_START :: WithInode(d, i, x)[b] == d[b]
  {
    TableFits(i);
  }

  lemma ResizedKeepsOwnership(d: Disk, t: Table, i: InodeNo, end: nat)
    requires Ownership(d, t) && Used(d, i) && end <= BLOCK_SIZE * t[i].blockCount && t[i].blockCount <= DIRECT_BLOCKS
    ensures Ownership(d, t[i := Resized(t[i], end)])
  {
    var t' := t[i := Resized(t[i], end)];
    assert InodeSound(t[i], i);
    assert forall j: InodeNo, k: nat, b: int :: Owns(d, t', j, k, b) <==> Owns(d, t, j, k, b);
    forall b: BlockNo ensures Taken(d, b) <==> b < DATA_START || HasOwner(d, t', b) {
      assert HasOwner(d, t', b) <==> HasOwner(d, t, b);
    }
  }

  /** What sfs_write_file relies on: an allocated inode, and an offset within its bytes. */
  ghost predicate Writable(d: Disk, i: InodeNo, off: nat) {
    Consistent(d) && Used(d, i) && Readable(ReadInode(d, i)) && off <= ReadInode(d, i).size
  }

  /** The blocks that a write of `len` bytes at `off` will have, and the disk on which they are
      allocated but nothing is written. */
  function Planned(d: Disk, i: InodeNo, len: nat, off: nat): (w: Writing)
    requires Readable(ReadInode(d, i))
    ensures w.Ready()
  {
    LaidOut(Writing(d, ReadInode(d, i)), Need(off, len))
  }

  lemma StartsOwning(d: Disk, i: InodeNo, off: nat)
    requires Writable(d, i, off)
    ensures Owning(Writing(d, ReadInode(d, i)), TableOf(d), i) && off <= BLOCK_SIZE * ReadInode(d, i).blockCount
  {
  }

  /** Any write, also one to the root directory: it keeps both bitmaps and the ownership of blocks
      sound, leaves all other inodes and their blocks alone, and gives its inode the planned blocks. */
  lemma WriteOutcome(d: Disk, i: InodeNo, data: Bytes, off: nat)
    requires Writable(d, i, off)
    ensures var (d', n) := WriteFile(d, i, data, off);
      var plan := Planned(d, i, |data|, off);
      && Ownership(d', TableOf(d')) && d'[INODE_BITMAP] == d[INODE_BITMAP] && d'[BLOCK_BITMAP] == plan.disk[BLOCK_BITMAP]
      && off + n <= BLOCK_SIZE * plan.inode.blockCount && n == Room(off, |data|, plan.inode.blockCount)
      && ReadInode(d', i) == Resized(plan.inode, off + n)
      && Extends(Writing(d, ReadInode(d, i)), plan.(disk := d'))
      && (forall j: InodeNo | j != i :: ReadInode(d', j) == ReadInode(d, j))
  {
    hide Ownership, Content, WriteLoop, LaidOut, Need, Room, ReadInode, WithInode;
    var w0, t := Writing(d, ReadInode(d, i)), TableOf(d);
    StartsOwning(d, i, off);
    var (w, n) := WriteLoop(w0, data, off);
    WriteLoopKeepsOwnership(w0, t, i, data, off);
    WriteLoopPlan(w0, t, i, data, off);
    var x := Resized(w.inode, off + n);
    ResizedKeepsOwnership(w.disk, t[i := w.inode], i, off + n);
    assert t[i := w.inode][i := x] == t[i := x];
    forall j: InodeNo | j != i ensures ReadInode(w.disk, j) == ReadInode(d, j) { SameTable(w0, t, i, data, off, j); }
    StoreKeepsOwnership(w.disk, t[i := x], i, x);
    StoreTouchesTable(w.disk, i, x);
    var d' := WriteFile(d, i, data, off).0;
    TableIsRead(d', t[i := x]);
  }

  lemma TableIsRead(d: Disk, t: Table)
    requires TableOf(d) == t
    ensures forall j: InodeNo :: ReadInode(d, j) == t[j]
  {
  }

  /** Every byte of the planned blocks: a prefix of the data at the offset, and everywhere else what
      the block held before the call, also if it was not the file's then. */
  lemma WriteOutcomeByte(d: Disk, i: InodeNo, data: Bytes, off: nat, p: nat)
    requires Writable(d, i, off) && p / BLOCK_SIZE < Planned(d, i, |data|, off).inode.blockCount
    ensures var (d', n) := WriteFile(d, i, data, off);
      var x := Planned(d, i, |data|, off).inode;
      RawAt(d', x, p) == if off <= p < off + n then data[p - off] else RawAt(d, x, p)
  {
    hide Ownership, Content, WriteLoop, LaidOut, Need, Room;
    var w0, t := Writing(d, ReadInode(d, i)), TableOf(d);
    StartsOwning(d, i, off);
    var (w, n) := WriteLoop(w0, data, off);
    WriteLoopKeepsOwnership(w0, t, i, data, off);
    WriteLoopPlan(w0, t, i, data, off);
    WriteLoopBytes(w0, t, i, data, off, p);
    OwnBlock(w, t[i := w.inode], i, p / BLOCK_SIZE);
    StoreTouchesTable(w.disk, i, Resized(w.inode, off + n));
  }

  lemma SameTable(w: Writing, t: Table, i: InodeNo, data: Bytes, off: nat, j: InodeNo)
    requires Owning(w, t, i) && off <= BLOCK_SIZE * w.inode.blockCount
    ensures ReadInode(WriteLoop(w, data, off).0.disk, j) == ReadInode(w.disk, j)
  {
    TableFits(j);
    WriteLoopElsewhere(w, t, i, data, off, TableBlock(j));
  }

  /** The blocks of all other inodes are as before. */
  lemma WriteLeavesOthers(d: Disk, i: InodeNo, data: Bytes, off: nat, j: InodeNo, k: nat)
    requires Writable(d, i, off) && j != i && Used(d, j) && k < ReadInode(d, j).blockCount
    ensures var b := ReadInode(d, j).blocks[k]; InodeSound(ReadInode(d, j), j) && WriteFile(d, i, data, off).0[b] == d[b]
  {
    hide WriteLoop, Owning;
    var b := ReadInode(d, j).blocks[k];
    StartsOwning(d, i, off);
    assert InodeSound(TableOf(d)[j], j);
    assert Owns(d, TableOf(d), j, k, b);
    WriteLoopElsewhere(Writing(d, ReadInode(d, i)), TableOf(d), i, data, off, b);
    var (w, n) := WriteLoop(Writing(d, ReadInode(d, i)), data, off);
    StoreTouchesTable(w.disk, i, Resized(w.inode, off + n));
  }

  /** A write to a file keeps the file system consistent. */
  lemma WriteKeepsConsistent(d: Disk, i: InodeNo, data: Bytes, off: nat)
    requires IsFile(d, i) && off <= ReadInode(d, i).size
    ensures var d' := WriteFile(d, i, data, off).0;
      && Consistent(d') && d'[INODE_BITMAP] == d[INODE_BITMAP] && IsFile(d', i)
      && (forall j: InodeNo | j != i :: ReadInode(d', j) == ReadInode(d, j))
  {
    hide Ownership, WriteFile, Planned;
    var d', x := WriteFile(d, i, data, off).0, ReadInode(d, ROOT_INO);
    WriteOutcome(d, i, data, off);
    assert TableOf(d)[ROOT_INO] == x && TableOf(d')[ROOT_INO] == x;
    forall k: nat, n: nat | k < x.blockCount && k < DIRECT_BLOCKS && n < DENTRIES_PER_BLOCK && x.blocks[k] < DISK_BLOCKS
      ensures DentrySound(d', DentryAt(d'[x.blocks[k]], n))
    {
      RootInUse(d);
      WriteLeavesOthers(d, i, data, off, ROOT_INO, k);
      assert DentrySound(d, DentryAt(d[x.blocks[k]], n));
    }
    FilesAreReadable(d', i);
  }

  lemma RootInUse(d: Disk)
    requires Consistent(d)
    ensures Used(d, ROOT_INO)
  {
  }

  lemma WrittenShape(d: Disk, i: InodeNo, data: Bytes, off: nat)
    requires Writable(d, i, off)
    ensures var (d', n) := WriteFile(d, i, data, off);
      && Readable(ReadInode(d', i)) && off + n <= |File(d', i)|
      && |File(d', i)| == (if off + n > |File(d, i)| then off + n else |File(d, i)|)
  {
    hide Consistent, WriteFile, Planned, Room;
    WriteOutcome(d, i, data, off);
  }

  lemma WrittenByte(d: Disk, i: InodeNo, data: Bytes, off: nat, p: nat)
    requires Writable(d, i, off) && Readable(ReadInode(WriteFile(d, i, data, off).0, i))
    requires p < ReadInode(WriteFile(d, i, data, off).0, i).size
    ensures var (d', n) := WriteFile(d, i, data, off);
      && (off <= p < off + n || p < ReadInode(d, i).size)
      && File(d', i)[p] == if off <= p < off + n then data[p - off] else File(d, i)[p]
  {
    hide Consistent, WriteFile, Planned, Room;
    WriteOutcome(d, i, data, off);
    var (d', n) := WriteFile(d, i, data, off);
    InBlock(p, ReadInode(d', i).blockCount);
    WriteOutcomeByte(d, i, data, off, p);
    if p < ReadInode(d, i).size { InBlock(p, ReadInode(d, i).blockCount); }
  }

  /** A write replaces exactly the bytes at the offset by a prefix of the data. */
  lemma WriteIsOverwrite(d: Disk, i: InodeNo, data: Bytes, off: nat)
    requires Writable(d, i, off)
    ensures var (d', n) := WriteFile(d, i, data, off);
      Readable(ReadInode(d', i)) && File(d', i) == Overwrite(File(d, i), off, data[..n])
  {
    hide WriteFile, File, Consistent;
    var (d', n) := WriteFile(d, i, data, off);
    WrittenShape(d, i, data, off);
    var c := Overwrite(File(d, i), off, data[..n]);
    forall p | 0 <= p < |c| ensures File(d', i)[p] == c[p] { WrittenByte(d, i, data, off, p); }
  }

  /** A short write has reached the end of the twelfth block or filled the disk. */
  lemma ShortWrite(d: Disk, i: InodeNo, data: Bytes, off: nat)
    requires IsFile(d, i) && off <= ReadInode(d, i).size
    ensures var (d', n) := WriteFile(d, i, data, off);
      n < |data| ==> off + n == BLOCK_SIZE * DIRECT_BLOCKS || AllocBlock(d').None?
  {
    hide Ownership, WriteLoop;
    StartsOwning(d, i, off);
    var (w, n) := WriteLoop(Writing(d, ReadInode(d, i)), data, off);
    WriteLoopStops(Writing(d, ReadInode(d, i)), data, off);
    StoreTouchesTable(w.disk, i, Resized(w.inode, off + n));
  }

  /** No other file changes, and neither does the root directory unless it is the one written. */
  lemma WriteKeepsOtherFiles(d: Disk, i: InodeNo, data: Bytes, off: nat, j: InodeNo)
    requires Writable(d, i, off) && j != i && Used(d, j) && Readable(ReadInode(d, j))
    ensures var d' := WriteFile(d, i, data, off).0; ReadInode(d', j) == ReadInode(d, j) && File(d', j) == File(d, j)
  {
    hide WriteFile, Consistent, Planned, Room;
    WriteOutcome(d, i, data, off);
    var d' := WriteFile(d, i, data, off).0;
    forall p | 0 <= p < |File(d, j)| ensures File(d', j)[p] == File(d, j)[p] {
      InBlock(p, ReadInode(d, j).blockCount);
      WriteLeavesOthers(d, i, data, off, j, p / BLOCK_SIZE);
    }
  }

  // ---------------------------------------------------------------- reading

  /** The loop of sfs_read_file: `len` bytes from `off` on, block by block. */
  function ReadLoop(d: Disk, x: Inode, off: nat, len: nat): Bytes
    requires Readable(x)
    decreases len
  {
    if len == 0 || off / BLOCK_SIZE >= x.blockCount then []
    else
      var n := ChunkLen(off, len);
      d[x.blocks[off / BLOCK_SIZE]][off % BLOCK_SIZE..off % BLOCK_SIZE + n] + ReadLoop(d, x, off + n, len - n)
  }

  /** sfs_read_file. */
  function ReadFile(d: Disk, x: Inode, off: nat, count: nat): Bytes
    requires Readable(x)
  {
    if off >= x.size then [] else ReadLoop(d, x, off, if off + count > x.size then x.size - off else count)
  }

  lemma ChunkIsSlice(d: Disk, x: Inode, off: nat, n: nat)
    requires Readable(x) && off + n <= x.size && off % BLOCK_SIZE + n <= BLOCK_SIZE && n > 0
    ensures off / BLOCK_SIZE < x.blockCount
    ensures d[x.blocks[off / BLOCK_SIZE]][off % BLOCK_SIZE..off % BLOCK_SIZE + n] == Content(d, x)[off..off + n]
  {
    InBlock(off, x.blockCount);
    var chunk := d[x.blocks[off / BLOCK_SIZE]][off % BLOCK_SIZE..off % BLOCK_SIZE + n];
    forall p | 0 <= p < n ensures chunk[p] == Content(d, x)[off + p] { SamePage(off, off + p, n); }
  }

  lemma {:induction false} ReadLoopIsSlice(d: Disk, x: Inode, off: nat, len: nat)
    requires Readable(x) && off + len <= x.size
    ensures ReadLoop(d, x, off, len) == Content(d, x)[off..off + len]
    decreases len
  {
    hide Readable, Content;
    if len > 0 {
      var n := ChunkLen(off, len);
      ChunkIsSlice(d, x, off, n);
      ReadLoopIsSlice(d, x, off + n, len - n);
      var c := Content(d, x);
      assert c[off..off + len] == c[off..off + n] + c[off + n..off + len];
    }
  }

  /** A read returns exactly the bytes of the file at the offset, never stale block bytes. */
  lemma ReadIsSlice(d: Disk, x: Inode, off: nat, count: nat)
    requires Readable(x)
    ensures var c := Content(d, x);
      ReadFile(d, x, off, count) == if off >= |c| then [] else c[off..if off + count > |c| then |c| else off + count]
  {
    if off < x.size { ReadLoopIsSlice(d, x, off, if off + count > x.size then x.size - off else count); }
  }
}
