/** fs/sfs.c in its own form: a disk that is read and written block by block, and the table of open
    files. Every method computes the function on the disk of the same name. */
module Sfs {
  import opened Wrappers
  import opened SfsCodec
  import opened SfsSpec
  import opened SfsWrite
  import opened SfsFlat
  import opened SfsDir
  import opened SfsFormat
  import opened SfsTidy
  import opened SfsCalls

  /** bitmap_find_first_zero. */
  method FindFirstZero(bitmap: Bytes, max: nat) returns (idx: int)
    requires max <= 8 * |bitmap|
    ensures idx == if FirstZero(bitmap, max) == max then -1 else FirstZero(bitmap, max)
  {
    var i := 0;
    while i < max
      invariant i <= max && FirstZero(bitmap, max) == FirstZero(bitmap, max, i)
    {
      if !TestBit(bitmap, i) { return i; }
      i := i + 1;
    }
    return -1;
  }

  /** The byte loops that copy `src` into a block buffer. */
  method CopyInto(buf: array<Byte>, at: nat, src: Bytes)
    requires at + |src| <= buf.Length
    modifies buf
    ensures buf[..] == Splice(old(buf[..]), at, src)
  {
    var i := 0;
    while i < |src|
      invariant i <= |src|
      invariant forall k | 0 <= k < buf.Length :: buf[k] == if at <= k < at + i then src[k - at] else old(buf[k])
    {
      buf[at + i] := src[i];
      i := i + 1;
    }
  }

  // ---------------------------------------------------------------- steps of the directory loops

  lemma EntryIndex(d: Disk, x: Inode, bi: nat, di: nat)
    requires DirReady(x) && bi < x.blockCount && di < DENTRIES_PER_BLOCK
    ensures DENTRIES_PER_BLOCK * bi + di < Total(x)
    ensures Entry(d, x, DENTRIES_PER_BLOCK * bi + di) == DentryAt(d[x.blocks[bi]], di)
  {
    assert (DENTRIES_PER_BLOCK * bi + di) / DENTRIES_PER_BLOCK == bi && (DENTRIES_PER_BLOCK * bi + di) % DENTRIES_PER_BLOCK == di;
  }

  lemma MatchStep(d: Disk, x: Inode, name: Bytes, bi: nat, di: nat)
    requires DirReady(x) && bi < x.blockCount && di < DENTRIES_PER_BLOCK
    ensures var e := DENTRIES_PER_BLOCK * bi + di;
      && e < Total(x) && Entry(d, x, e) == DentryAt(d[x.blocks[bi]], di)
      && MatchEntry(d, x, name, e) == if Named(DentryAt(d[x.blocks[bi]], di), name) then e else MatchEntry(d, x, name, e + 1)
  {
    hide Entry, DentryAt, Named;
    EntryIndex(d, x, bi, di);
  }

  lemma FreeStep(d: Disk, x: Inode, bi: nat, di: nat)
    requires DirReady(x) && bi < x.blockCount && di < DENTRIES_PER_BLOCK
    ensures var e := DENTRIES_PER_BLOCK * bi + di;
      && e < Total(x) && Entry(d, x, e) == DentryAt(d[x.blocks[bi]], di)
      && FreeEntry(d, x, e) == if DentryAt(d[x.blocks[bi]], di).ino == 0 then e else FreeEntry(d, x, e + 1)
  {
    hide Entry, DentryAt;
    EntryIndex(d, x, bi, di);
  }

  /** The entry found at (bi, di) is the one sfs_create fills. */
  lemma PlacedHere(d: Disk, x: Inode, i: InodeNo, name: Bytes, bi: nat, di: nat)
    requires DirReady(x) && bi < x.blockCount && di < DENTRIES_PER_BLOCK
    requires FreeEntry(d, x) == DENTRIES_PER_BLOCK * bi + di
    ensures var b := x.blocks[bi];
      AddEntry(d, x, i, name) ==
        Some(Writing(d[b := PutEntry(d[b], di, Dentry(i, CopyName(DentryAt(d[b], di).name, name)))], Longer(x)))
  {
    hide Entry, DentryAt, CopyName, PutEntry, FreeEntry;
    EntryIndex(d, x, bi, di);
    var e := DENTRIES_PER_BLOCK * bi + di;
    assert e / DENTRIES_PER_BLOCK == bi && e % DENTRIES_PER_BLOCK == di;
  }

  /** What remains for sfs_create when every entry is in use. */
  lemma GrownHere(d: Disk, x: Inode, i: InodeNo, name: Bytes, last: Dentry)
    requires DirReady(x) && x.blockCount >= 1 && FreeEntry(d, x) == Total(x) && last == Entry(d, x, Total(x) - 1)
    ensures x.blockCount >= DIRECT_BLOCKS || SfsSpec.AllocBlock(d).None? ==> AddEntry(d, x, i, name).None?
    ensures x.blockCount < DIRECT_BLOCKS && SfsSpec.AllocBlock(d).Some? ==>
      var (b, d1) := SfsSpec.AllocBlock(d).value;
      AddEntry(d, x, i, name) ==
        Some(Writing(d1[b := PutEntry(ZeroBlock(), 0, Dentry(i, CopyName(last.name, name)))],
          Longer(x.(blocks := x.blocks[x.blockCount := b], blockCount := x.blockCount + 1))))
  {
    hide Entry, CopyName, PutEntry, FreeEntry;
  }

  lemma CreateFails(d: Disk, name: Bytes)
    requires RootReady(d)
    requires SfsSpec.ReadInode(d, ROOT_INO).kind != SFS_DIR || SfsDir.Lookup(d, name) >= 0 || SfsSpec.AllocInode(d).None?
    ensures SfsDir.Create(d, name) == (d, -1)
  {
    hide AddEntry, SfsDir.Lookup, SfsSpec.AllocInode, SfsSpec.ReadInode, WithInode;
  }

  lemma CreateGoesOn(d: Disk, name: Bytes)
    requires RootReady(d) && SfsSpec.AllocInode(d).Some?
    requires SfsSpec.ReadInode(d, ROOT_INO).kind == SFS_DIR && SfsDir.Lookup(d, name) < 0
    ensures var (i, d1) := SfsSpec.AllocInode(d).value;
      1 <= i < MAX_INODES && SfsDir.Create(d, name) == Insert(d1, SfsSpec.ReadInode(d, ROOT_INO), i, name)
  {
    hide Insert, SfsDir.Lookup, SfsSpec.ReadInode;
  }

  // ---------------------------------------------------------------- steps of the file loops

  /** The state of sfs_write_file's loop after `done` bytes. */
  predicate Progress(w0: Writing, data: Bytes, off: nat, w: Writing, done: nat) {
    && w0.Ready() && off <= BLOCK_SIZE * w0.inode.blockCount
    && w.Ready() && done <= |data| && off + done <= BLOCK_SIZE * w.inode.blockCount
    && WriteLoop(w0, data, off) ==
         (WriteLoop(w, data[done..], off + done).0, done + WriteLoop(w, data[done..], off + done).1)
  }

  lemma ProgressStarts(w: Writing, data: Bytes, off: nat)
    requires w.Ready() && off <= BLOCK_SIZE * w.inode.blockCount
    ensures Progress(w, data, off, w, 0)
  {
    assert data[0..] == data;
  }

  lemma ProgressGoesOn(w0: Writing, data: Bytes, off: nat, w: Writing, done: nat)
    requires Progress(w0, data, off, w, done) && done < |data| && Once(w, data[done..], off + done).Some?
    ensures var n := ChunkLen(off + done, |data| - done);
      Progress(w0, data, off, Once(w, data[done..], off + done).value, done + n)
  {
    hide Once;
    var n := ChunkLen(off + done, |data| - done);
    assert data[done..][n..] == data[done + n..];
  }

  lemma ProgressEnds(w0: Writing, data: Bytes, off: nat, w: Writing, done: nat)
    requires Progress(w0, data, off, w, done) && (done == |data| || Once(w, data[done..], off + done).None?)
    ensures WriteLoop(w0, data, off) == (w, done)
  {
    hide Once;
  }

  /** One round: where the block comes from, and what is written to it. */
  lemma RoundIs(w0: Writing, data: Bytes, off: nat, w: Writing, done: nat)
    requires Progress(w0, data, off, w, done) && done < |data|
    ensures w.Ready() && (off + done) / BLOCK_SIZE <= w.inode.blockCount
    ensures Once(w, data[done..], off + done) ==
      match Reach(w, off + done)
      case None => None
      case Some(w1) =>
        var b, n := w1.inode.blocks[(off + done) / BLOCK_SIZE], ChunkLen(off + done, |data| - done);
        Some(Writing(w1.disk[b := Splice(w1.disk[b], (off + done) % BLOCK_SIZE, data[done..done + n])], w1.inode))
  {
    hide WriteLoop, Reach;
    var n := ChunkLen(off + done, |data| - done);
    assert data[done..][..n] == data[done..done + n];
    QuotientBound(off + done, w.inode.blockCount);
  }

  lemma QuotientBound(p: nat, n: nat)
    requires p <= BLOCK_SIZE * n
    ensures p / BLOCK_SIZE <= n
  {
  }

  lemma ReadableBlocks(x: Inode)
    requires Readable(x)
    ensures x.Shaped() && x.blockCount <= DIRECT_BLOCKS && forall k | 0 <= k < x.blockCount :: x.blocks[k] < DISK_BLOCKS
  {
  }

  /** One round of sfs_read_file: the next chunk goes behind what has been read. */
  lemma ReadGoesOn(d: Disk, x: Inode, off: nat, len: nat, done: nat, all: Bytes, before: Bytes, after: Bytes)
    requires Readable(x) && done < len <= |before| && (off + done) / BLOCK_SIZE < x.blockCount
    requires all == before[..done] + ReadLoop(d, x, off + done, len - done)
    requires var at, n := off + done, ChunkLen(off + done, len - done);
      after == Splice(before, done, d[x.blocks[at / BLOCK_SIZE]][at % BLOCK_SIZE..at % BLOCK_SIZE + n])
    ensures var n := ChunkLen(off + done, len - done);
      && all == after[..done + n] + ReadLoop(d, x, off + done + n, len - done - n)
      && after[done + n..] == before[done..][n..]
  {
    hide ReadLoop, Readable;
    var at, n := off + done, ChunkLen(off + done, len - done);
    ReadableBlocks(x);
    var chunk := d[x.blocks[at / BLOCK_SIZE]][at % BLOCK_SIZE..at % BLOCK_SIZE + n];
    var rest := ReadLoop(d, x, at + n, len - done - n);
    ReadUnfolds(d, x, at, len - done);
    assert after[..done + n] == before[..done] + chunk;
    assert before[..done] + (chunk + rest) == (before[..done] + chunk) + rest;
  }

  lemma ReadUnfolds(d: Disk, x: Inode, at: nat, len: nat)
    requires Readable(x) && len > 0 && at / BLOCK_SIZE < x.blockCount
    ensures var n := ChunkLen(at, len);
      ReadLoop(d, x, at, len) == d[x.blocks[at / BLOCK_SIZE]][at % BLOCK_SIZE..at % BLOCK_SIZE + n] + ReadLoop(d, x, at + n, len - n)
  {
  }

  lemma ReadEnds(d: Disk, x: Inode, off: nat, len: nat, done: nat)
    requires Readable(x) && done <= len && (done == len || (off + done) / BLOCK_SIZE >= x.blockCount)
    ensures ReadLoop(d, x, off + done, len - done) == []
  {
  }

  lemma NumbersStay(x: Inode, i: InodeNo)
    requires x.Shaped()
    ensures Longer(x).ino == x.ino && Longer(x).Shaped() && NewInode(i).ino == i
  {
  }

  class Sfs {
    const disk: array<Block>
    const files: array<OpenFile>
    var mounted: bool

    ghost predicate Shape() { disk.Length == DISK_BLOCKS && files.Length == MAX_FILES }

    function D(): Disk
      requires Shape()
      reads disk
    {
      disk[..]
    }

    ghost function State(): Fs
      requires Shape()
      reads disk, files
    {
      Fs(disk[..], files[..])
    }

    ghost predicate Valid()
      reads disk, files
    {
      Shape() && Good(State())
    }

    constructor ()
      ensures Shape() && fresh(disk) && fresh(files) && !mounted
    {
      disk := new Block[DISK_BLOCKS];
      files := new OpenFile[MAX_FILES](_ => OpenFile(0, 0, false));
      mounted := false;
    }

    method BlockRead(b: BlockNo) returns (buf: array<Byte>)
      requires Shape()
      ensures fresh(buf) && buf[..] == disk[b]
    {
      var block := disk[b];
      buf := new Byte[BLOCK_SIZE](k requires 0 <= k < BLOCK_SIZE => block[k]);
    }

    method BlockWrite(b: BlockNo, buf: array<Byte>)
      requires Shape() && buf.Length == BLOCK_SIZE
      modifies disk
      ensures D() == old(D())[b := buf[..]]
    {
      disk[b] := buf[..];
    }

    // -------------------------------------------------------------- inodes and blocks

    /** sfs_alloc_inode. */
    method AllocInode() returns (ino: int)
      requires Shape()
      modifies disk
      ensures match SfsSpec.AllocInode(old(D()))
        case None => ino == -1 && D() == old(D())
        case Some((i, d)) => ino == i && D() == d
    {
      ino := FindFirstZero(disk[INODE_BITMAP], MAX_INODES);
      if ino < 0 { return; }
      disk[INODE_BITMAP] := SetBit(disk[INODE_BITMAP], ino);
    }

    /** sfs_free_inode. */
    method FreeInode(ino: u32)
      requires Shape()
      modifies disk
      ensures D() == if 1 <= ino < MAX_INODES then SfsSpec.FreeInode(old(D()), ino) else old(D())
    {
      if ino == 0 || ino >= MAX_INODES { return; }
      disk[INODE_BITMAP] := ClearBit(disk[INODE_BITMAP], ino);
    }

    /** sfs_alloc_block. */
    method AllocBlock() returns (b: int)
      requires Shape()
      modifies disk
      ensures match SfsSpec.AllocBlock(old(D()))
        case None => b == -1 && D() == old(D())
        case Some((n, d)) => b == n && D() == d
    {
      b := FindFirstZero(disk[BLOCK_BITMAP], DISK_BLOCKS);
      if b < 0 || b < DATA_START { return -1; }
      disk[BLOCK_BITMAP] := SetBit(disk[BLOCK_BITMAP], b);
    }

    /** sfs_read_inode. */
    method ReadInode(ino: u32) returns (ok: bool, x: Inode)
      requires Shape()
      ensures ok <==> 1 <= ino < MAX_INODES
      ensures ok ==> x == SfsSpec.ReadInode(D(), ino)
    {
      if ino == 0 || ino >= MAX_INODES { return false, NoInode; }
      TableFits(ino);
      var offset := TableOffset(ino);
      return true, DecodeInode(disk[TableBlock(ino)][offset..offset + INODE_BYTES]);
    }

    /** sfs_write_inode. */
    method WriteInode(x: Inode) returns (ok: bool)
      requires Shape() && x.Shaped()
      modifies disk
      ensures ok <==> 1 <= x.ino < MAX_INODES
      ensures D() == if ok then WithInode(old(D()), x.ino, x) else old(D())
    {
      if x.ino == 0 || x.ino >= MAX_INODES { return false; }
      TableFits(x.ino);
      var buf := BlockRead(TableBlock(x.ino));
      CopyInto(buf, TableOffset(x.ino), EncodeInode(x));
      BlockWrite(TableBlock(x.ino), buf);
      return true;
    }

    // -------------------------------------------------------------- directory

    /** sfs_lookup under the root. */
    method Lookup(name: Bytes) returns (ino: int)
      requires Shape() && RootReady(D())
      ensures ino == SfsDir.Lookup(D(), name)
    {
      hide MatchEntry, DentryAt, CString, SfsSpec.ReadInode, Entry;
      var _, x := ReadInode(ROOT_INO);
      if x.kind != SFS_DIR { return -1; }
      var bi := 0;
      while bi < x.blockCount
        invariant bi <= x.blockCount
        invariant MatchEntry(D(), x, name) == MatchEntry(D(), x, name, DENTRIES_PER_BLOCK * bi)
      {
        var block := disk[x.blocks[bi]];
        var di := 0;
        while di < DENTRIES_PER_BLOCK
          invariant di <= DENTRIES_PER_BLOCK
          invariant MatchEntry(D(), x, name) == MatchEntry(D(), x, name, DENTRIES_PER_BLOCK * bi + di)
        {
          var e := DentryAt(block, di);
          MatchStep(D(), x, name, bi, di);
          if e.ino != 0 && CString(e.name) == name { return e.ino; }
          di := di + 1;
        }
        bi := bi + 1;
      }
      return -1;
    }

    /** The first loop of sfs_create's insertion: the new entry goes into the first unused one. If
        there is none, `last` is the last entry that was looked at. */
    method PlaceEntry(x: Inode, ino: InodeNo, name: Bytes) returns (written: bool, last: Dentry)
      requires Shape() && DirReady(x) && x.blockCount >= 1
      modifies disk
      ensures last.Shaped() && (written <==> FreeEntry(old(D()), x) < Total(x))
      ensures !written ==> D() == old(D()) && last == Entry(D(), x, Total(x) - 1)
      ensures written ==> Some(Writing(D(), Longer(x))) == AddEntry(old(D()), x, ino, name)
    {
      hide FreeEntry, Entry, DentryAt, CopyName, AddEntry, EncodeDentry, Longer;
      last := Dentry(0, seq(MAX_FILENAME, _ => 0));
      var bi := 0;
      while bi < x.blockCount
        invariant bi <= x.blockCount && D() == old(D()) && last.Shaped()
        invariant FreeEntry(D(), x) == FreeEntry(D(), x, DENTRIES_PER_BLOCK * bi)
        invariant bi > 0 ==> last == Entry(D(), x, DENTRIES_PER_BLOCK * bi - 1)
      {
        var buf := BlockRead(x.blocks[bi]);
        var di := 0;
        while di < DENTRIES_PER_BLOCK
          invariant di <= DENTRIES_PER_BLOCK && D() == old(D()) && last.Shaped() && buf[..] == disk[x.blocks[bi]]
          invariant FreeEntry(D(), x) == FreeEntry(D(), x, DENTRIES_PER_BLOCK * bi + di)
          invariant di > 0 ==> last == Entry(D(), x, DENTRIES_PER_BLOCK * bi + di - 1)
        {
          last := DentryAt(buf[..], di);
          FreeStep(D(), x, bi, di);
          if last.ino == 0 {
            PlacedHere(D(), x, ino, name, bi, di);
            last := Dentry(ino, CopyName(last.name, name));
            CopyInto(buf, di * DENTRY_BYTES, EncodeDentry(last));
            BlockWrite(x.blocks[bi], buf);
            return true, last;
          }
          di := di + 1;
        }
        bi := bi + 1;
      }
      return false, last;
    }

    /** sfs_create(ROOT_INO, name, SFS_FILE). */
    method Create(name: Bytes) returns (result: int)
      requires Shape() && RootReady(D())
      modifies disk
      ensures (D(), result) == SfsDir.Create(old(D()), name)
    {
      hide SfsDir.Create, AddEntry, FreeEntry, Entry, CopyName, EncodeDentry, SfsDir.Lookup, SfsSpec.AllocInode, SfsSpec.AllocBlock,
        SfsSpec.ReadInode, WithInode, Longer, NewInode, SfsSpec.FreeInode;
      ghost var d := D();
      var _, parent := ReadInode(ROOT_INO);
      if parent.kind != SFS_DIR { CreateFails(d, name); return -1; }
      var found := Lookup(name);
      if found >= 0 { CreateFails(d, name); return -1; }
      var ino := AllocInode();
      if ino < 0 { CreateFails(d, name); return -1; }
      CreateGoesOn(d, name);
      NumbersStay(parent, ino);
      var _ := WriteInode(NewInode(ino));
      ghost var d2 := D();
      var written, last := PlaceEntry(parent, ino, name);
      if !written {
        GrownHere(d2, parent, ino, name, last);
        if parent.blockCount >= DIRECT_BLOCKS { FreeInode(ino); return -1; }
        var b := AllocBlock();
        if b < 0 { FreeInode(ino); return -1; }
        var buf := new Byte[BLOCK_SIZE](_ => 0);
        assert buf[..] == ZeroBlock();
        last := Dentry(ino, CopyName(last.name, name));
        CopyInto(buf, 0, EncodeDentry(last));
        BlockWrite(b, buf);
        parent := parent.(blocks := parent.blocks[parent.blockCount := b], blockCount := parent.blockCount + 1);
      }
      NumbersStay(parent, ino);
      parent := Longer(parent);
      var _ := WriteInode(parent);
      return ino;
    }

    // -------------------------------------------------------------- files

    /** sfs_read_file. */
    method ReadFile(x: Inode, buf: array<Byte>, count: Count, offset: nat) returns (n: nat)
      requires Shape() && Readable(x) && count <= buf.Length
      modifies buf
      ensures n <= count && buf[..n] == SfsFlat.ReadFile(D(), x, offset, count) && buf[n..] == old(buf[n..])
    {
      hide ReadLoop, Splice, Readable, Content;
      ghost var d, buf0 := D(), buf[..];
      ReadableBlocks(x);
      if offset >= x.size { return 0; }
      var size: nat := count;
      if offset + size > x.size { size := x.size - offset; }
      ghost var all := ReadLoop(d, x, offset, size);
      n := 0;
      while n < size
        invariant n <= size && buf[n..] == buf0[n..] && D() == d
        invariant all == buf[..n] + ReadLoop(d, x, offset + n, size - n)
      {
        var at := offset + n;
        if at / BLOCK_SIZE >= x.blockCount { break; }
        var toCopy := BLOCK_SIZE - at % BLOCK_SIZE;
        if toCopy > size - n { toCopy := size - n; }
        ghost var before := buf[..];
        CopyInto(buf, n, disk[x.blocks[at / BLOCK_SIZE]][at % BLOCK_SIZE..at % BLOCK_SIZE + toCopy]);
        ReadGoesOn(d, x, offset, size, n, all, before, buf[..]);
        n := n + toCopy;
      }
      ReadEnds(d, x, offset, size, n);
    }

    /** sfs_write_file: the caller's inode comes back with its new blocks and size. */
    method WriteFile(inode: Inode, data: Bytes, offset: nat) returns (x: Inode, n: nat)
      requires Shape() && Readable(inode) && offset <= inode.size
      modifies disk
      ensures var (w, m) := WriteLoop(Writing(old(D()), inode), data, offset);
        n == m && D() == w.disk && x == Resized(w.inode, offset + m)
    {
      hide Once, WriteLoop, Progress, PutChunk, SfsSpec.AllocBlock;
      ghost var w0 := Writing(D(), inode);
      x, n := inode, 0;
      ProgressStarts(w0, data, offset);
      while n < |data|
        invariant n <= |data| && Progress(w0, data, offset, Writing(D(), x), n)
        decreases |data| - n
      {
        ghost var w := Writing(D(), x);
        var at := offset + n;
        RoundIs(w0, data, offset, w, n);
        if at / BLOCK_SIZE >= x.blockCount {
          if at / BLOCK_SIZE >= DIRECT_BLOCKS { break; }
          var b := AllocBlock();
          if b < 0 { break; }
          x := x.(blocks := x.blocks[at / BLOCK_SIZE := b], blockCount := x.blockCount + 1);
        }
        ghost var w1 := Writing(D(), x);
        var buf := BlockRead(x.blocks[at / BLOCK_SIZE]);
        var toCopy := BLOCK_SIZE - at % BLOCK_SIZE;
        if toCopy > |data| - n { toCopy := |data| - n; }
        CopyInto(buf, at % BLOCK_SIZE, data[n..n + toCopy]);
        BlockWrite(x.blocks[at / BLOCK_SIZE], buf);
        ProgressGoesOn(w0, data, offset, w, n);
        n := n + toCopy;
      }
      ProgressEnds(w0, data, offset, Writing(D(), x), n);
      if offset + n > x.size { x := x.(size := offset + n); }
    }

    // -------------------------------------------------------------- system calls

    /** SYS_FS_CREATE: a file in the root directory. */
    method SysCreate(name: CStr) returns (result: int)
      requires Valid()
      modifies disk
      ensures Valid() && (State(), Reply(result, [])) == Step(old(State()), Creat(name))
    {
      hide Good, SfsDir.Create, Legal;
      ghost var s := State();
      GoodIsReady(s);
      AlwaysLegal(s, Creat(name));
      var ino := Create(name);
      return if ino >= 0 then 0 else -1;
    }

    /** sys_open. */
    method SysOpen(path: CStr) returns (fd: int)
      requires Valid()
      modifies files
      ensures !mounted ==> fd == -1 && State() == old(State())
      ensures mounted ==> (State(), Reply(fd, [])) == Step(old(State()), Open(path))
      ensures Valid()
    {
      hide Good, SfsDir.Lookup, PathName, FreeFd, Step, RootReady;
      ghost var s := State();
      OpenIs(s, path);
      AlwaysLegal(s, Open(path));
      if !mounted { return -1; }
      var name := SkipSlashes(path);
      if name == [] { return -1; }
      var ino := Lookup(name);
      if ino < 0 { return -1; }
      fd := FindFd();
      if fd < 0 { return -1; }
      files[fd] := OpenFile(ino, 0, true);
      assert files[..] == s.files[fd := OpenFile(ino, 0, true)];
    }

    method FindFd() returns (fd: int)
      requires Shape()
      ensures fd == if FreeFd(files[..]) == MAX_FILES then -1 else FreeFd(files[..])
    {
      var i := 0;
      while i < MAX_FILES
        invariant i <= MAX_FILES && FreeFd(files[..]) == FreeFd(files[..], i)
      {
        if !files[i].inUse { return i; }
        i := i + 1;
      }
      return -1;
    }

    /** sys_read. */
    method SysRead(fd: int, buf: array<Byte>, count: Count) returns (n: int)
      requires Valid() && count <= buf.Length
      modifies files, buf
      ensures Valid() && n <= count
      ensures (State(), Reply(n, if n < 0 then [] else buf[..n])) == Step(old(State()), Read(fd, count))
      ensures if n < 0 then buf[..] == old(buf[..]) else buf[n..] == old(buf[n..])
    {
      hide Good, SfsFlat.ReadFile, FdReady, Legal;
      ghost var s := State();
      GoodIsReady(s);
      AlwaysLegal(s, Read(fd, count));
      if fd < 0 || fd >= MAX_FILES || !files[fd].inUse { return -1; }
      FdReadable(s, fd);
      var f := files[fd];
      var _, x := ReadInode(f.ino);
      n := ReadFile(x, buf, count, f.offset);
      files[fd] := f.(offset := f.offset + n);
      assert files[..] == s.files[fd := f.(offset := f.offset + n)];
    }

    /** sys_write. */
    method SysWrite(fd: int, data: Bytes) returns (n: int)
      requires Valid()
      modifies disk, files
      ensures (State(), Reply(n, [])) == Step(old(State()), Write(fd, data))
      ensures Valid() <==> old(Legal(State(), Write(fd, data)))
    {
      hide Good, WriteLoop, FdReady, WithInode, Step, Resized, Readable, Legal;
      ghost var s := State();
      WriteIs(s, fd, data);
      StepKeepsGoodIff(s, Write(fd, data));
      if fd < 0 || fd >= MAX_FILES || !files[fd].inUse { return -1; }
      var f := files[fd];
      var _, x := ReadInode(f.ino);
      x, n := WriteFile(x, data, f.offset);
      files[fd] := f.(offset := f.offset + n);
      var _ := WriteInode(x);
      assert files[..] == s.files[fd := f.(offset := f.offset + n)];
    }

    /** sys_close. */
    method SysClose(fd: int)
      requires Valid()
      modifies files
      ensures Valid() && State() == Step(old(State()), Close(fd)).0
    {
      hide Good, Legal;
      ghost var s := State();
      AlwaysLegal(s, Close(fd));
      if fd < 0 || fd >= MAX_FILES { return; }
      files[fd] := files[fd].(inUse := false);
      assert files[..] == s.files[fd := s.files[fd].(inUse := false)];
    }

    // -------------------------------------------------------------- formatting and mounting

    /** sfs_format. */
    method Format()
      requires Shape()
      modifies disk
      ensures D() == SfsFormat.Format(old(D())) && Consistent(D()) && Tidy(D())
    {
      hide Consistent, Tidy, WithInode, RootBlock, MarkFirst, FirstZero;
      ghost var d := D();
      FormatIsConsistent(d);
      FormatIsTidy(d);
      BlankAllocs(d);
      var zero := ZeroBlock();
      disk[0] := SuperBlock();
      disk[INODE_BITMAP] := SetBit(zero, 0);
      var bits: Bytes, i := zero, 0;
      MarkNone(zero);
      while i < DATA_START
        invariant i <= DATA_START && bits == MarkFirst(zero, i) && |bits| == BLOCK_SIZE
        invariant D() == d[0 := SuperBlock()][INODE_BITMAP := SetBit(zero, 0)]
      {
        MarkNext(zero, i);
        bits := SetBit(bits, i);
        i := i + 1;
      }
      disk[BLOCK_BITMAP] := bits;
      disk[INODE_TABLE] := zero;
      disk[INODE_TABLE + 1] := zero;
      assert D() == Blank(d);
      var b := AllocBlock();
      disk[b] := RootBlock();
      var _ := WriteInode(RootInode(b));
      disk[INODE_BITMAP] := SetBit(disk[INODE_BITMAP], ROOT_INO);
    }

    /** sfs_mount: the magic number is checked and every descriptor closed. */
    method Mount() returns (ok: bool)
      requires Shape()
      modifies this`mounted, files
      ensures ok <==> Un32(disk[0][..4]) == SFS_MAGIC
      ensures !ok ==> State() == old(State()) && mounted == old(mounted)
      ensures ok ==> mounted && (forall fd | 0 <= fd < MAX_FILES :: files[fd] == old(files[fd]).(inUse := false))
      ensures ok && Consistent(D()) && Tidy(D()) ==> Valid()
    {
      hide Consistent, Tidy;
      if Un32(disk[0][..4]) != SFS_MAGIC { return false; }
      var i := 0;
      while i < MAX_FILES
        invariant i <= MAX_FILES
        invariant forall k | 0 <= k < MAX_FILES :: files[k] == if k < i then old(files[k]).(inUse := false) else old(files[k])
      {
        files[i] := files[i].(inUse := false);
        i := i + 1;
      }
      mounted := true;
      return true;
    }
  }

  method SkipSlashes(path: Bytes) returns (name: Bytes)
    ensures name == PathName(path)
  {
    var i := 0;
    while i < |path| && path[i] == SLASH
      invariant i <= |path| && PathName(path) == PathName(path[i..])
    {
      assert path[i..][1..] == path[i + 1..];
      i := i + 1;
    }
    return path[i..];
  }

  lemma AlwaysLegal(s: Fs, c: Call)
    requires Good(s) && !c.Write?
    ensures Good(Step(s, c).0)
  {
    hide Good, Step;
    StepKeepsGoodIff(s, c);
  }

  lemma OpenIs(s: Fs, path: CStr)
    requires Good(s)
    ensures RootReady(s.disk)
    ensures var name := PathName(path);
      var ino, fd := SfsDir.Lookup(s.disk, name), FreeFd(s.files);
      && ino < MAX_INODES
      && Step(s, Open(path)) ==
           if name == [] || ino < 0 || fd == MAX_FILES then (s, Reply(-1, []))
           else (s.(files := s.files[fd := OpenFile(ino, 0, true)]), Reply(fd, []))
  {
    hide Good, SfsDir.Lookup, PathName, FreeFd, Consistent, Tidy;
    GoodIsConsistent(s);
    LookupFindsUsed(s.disk, PathName(path));
  }

  lemma FdReadable(s: Fs, fd: int)
    requires Good(s) && InUse(s, fd) && FdReady(s, fd)
    ensures 1 <= s.files[fd].ino < MAX_INODES
    ensures var x := SfsSpec.ReadInode(s.disk, s.files[fd].ino); Readable(x) && s.files[fd].offset <= x.size
  {
  }

  /** sys_write in terms of the loop; the inode it stores keeps its number. */
  lemma WriteIs(s: Fs, fd: int, data: Bytes)
    requires Good(s)
    ensures !InUse(s, fd) ==> Step(s, Write(fd, data)) == (s, Reply(-1, []))
    ensures InUse(s, fd) ==>
      var f := s.files[fd];
      && 1 <= f.ino < MAX_INODES && Readable(SfsSpec.ReadInode(s.disk, f.ino)) && f.offset <= SfsSpec.ReadInode(s.disk, f.ino).size
      && var (w, n) := WriteLoop(Writing(s.disk, SfsSpec.ReadInode(s.disk, f.ino)), data, f.offset);
      var x := Resized(w.inode, f.offset + n);
      && x.ino == f.ino
      && Step(s, Write(fd, data)) == (Fs(WithInode(w.disk, f.ino, x), s.files[fd := f.(offset := f.offset + n)]), Reply(n, []))
  {
    hide Good, WriteLoop, WithInode;
    GoodIsReady(s);
    if InUse(s, fd) { WrittenNumber(s, fd, data); }
  }

  lemma WrittenNumber(s: Fs, fd: int, data: Bytes)
    requires Good(s) && InUse(s, fd) && FdReady(s, fd)
    ensures var f := s.files[fd];
      var (w, n) := WriteLoop(Writing(s.disk, SfsSpec.ReadInode(s.disk, f.ino)), data, f.offset);
      Resized(w.inode, f.offset + n).ino == f.ino
  {
    hide Good, WriteLoop, Ownership, Consistent;
    var f := s.files[fd];
    GoodFd(s, fd);
    StartsOwning(s.disk, f.ino, f.offset);
    WriteLoopKeepsOwnership(Writing(s.disk, SfsSpec.ReadInode(s.disk, f.ino)), TableOf(s.disk), f.ino, data, f.offset);
  }

  lemma MarkNone(bm: Bytes)
    ensures MarkFirst(bm, 0) == bm
  {
  }

  lemma MarkNext(bm: Bytes, n: nat)
    requires n < 8 * |bm|
    ensures MarkFirst(bm, n + 1) == SetBit(MarkFirst(bm, n), n)
  {
  }

  /** A formatted disk mounts. */
  lemma FormatMounts(d: Disk)
    ensures Un32(SfsFormat.Format(d)[0][..4]) == SFS_MAGIC
  {
    hide SuperBlock, RootBlock, SetBit, MarkFirst, FirstZero, RootInode, EncodeInode;
    TableFits(ROOT_INO);
    BlankAllocs(d);
    SuperMagic();
  }

  lemma SuperMagic()
    ensures Un32(SuperBlock()[..4]) == SFS_MAGIC
  {
    hide LeWords;
    var ws: seq<u32> := [SFS_MAGIC, DISK_BLOCKS, MAX_INODES, INODE_BITMAP, BLOCK_BITMAP, INODE_TABLE, DATA_START];
    Un32Le32(SFS_MAGIC);
    FirstWord(ws);
    assert SuperBlock()[..4] == LeWords(ws)[..4];
  }

  lemma FirstWord(ws: seq<u32>)
    requires ws != []
    ensures LeWords(ws)[..4] == Le32(ws[0])
  {
  }
}
