/** Runs of system calls from a formatted disk: what they return and what they leave behind is exactly
    what a flat model computes, in which each file and the directory is a sequence of bytes. */
module SfsRuns {
  import opened Wrappers
  import opened SfsCodec
  import opened SfsSpec
  import opened SfsWrite
  import opened SfsFlat
  import opened SfsDir
  import opened SfsCreate
  import opened SfsFormat
  import opened SfsTidy
  import opened SfsCalls

  // ---------------------------------------------------------------- the flat model

  /** The bytes of each file and of the root directory, the number of free blocks, and for each open
      descriptor its inode number and offset. */
  datatype Fd = Fd(ino: u32, offset: nat)
  datatype Flat = Flat(files: map<InodeNo, Bytes>, dir: Bytes, free: nat, fds: seq<Option<Fd>>)

  function BytesOf(a: Flat, i: int): Bytes {
    if i == ROOT_INO then a.dir else if i in a.files then a.files[i] else []
  }

  function WithBytes(a: Flat, i: InodeNo, c: Bytes): Flat {
    if i == ROOT_INO then a.(dir := c) else a.(files := a.files[i := c])
  }

  /** Descriptor `fd` is open on a file or on the directory, at an offset within its bytes. */
  predicate OnBytes(a: Flat, fd: int) {
    && 0 <= fd < |a.fds| && a.fds[fd].Some?
    && (a.fds[fd].value.ino == ROOT_INO || a.fds[fd].value.ino in a.files)
    && a.fds[fd].value.offset <= |BytesOf(a, a.fds[fd].value.ino)|
  }

  /** The bytes of `c` from `off` on, at most `count` of them. */
  function Slice(c: Bytes, off: nat, count: nat): Bytes {
    if off >= |c| then [] else c[off..if off + count > |c| then |c| else off + count]
  }

  function FlatRead(a: Flat, fd: int, count: nat): (Flat, Reply) {
    if !OnBytes(a, fd) then (a, Reply(-1, []))
    else
      var Fd(i, off) := a.fds[fd].value;
      var bytes := Slice(BytesOf(a, i), off, count);
      (a.(fds := a.fds[fd := Some(Fd(i, off + |bytes|))]), Reply(|bytes|, bytes))
  }

  /** As much of the data is written as twelve blocks and the free blocks can take. */
  function FlatWrite(a: Flat, fd: int, data: Bytes): (Flat, Reply) {
    if !OnBytes(a, fd) then (a, Reply(-1, []))
    else
      var Fd(i, off) := a.fds[fd].value;
      var have := BlocksFor(|BytesOf(a, i)|);
      var count := BlocksGot(have, a.free, Need(off, |data|));
      BlocksHold(|BytesOf(a, i)|);
      var n := Room(off, |data|, count);
      var a' := WithBytes(a, i, Overwrite(BytesOf(a, i), off, data[..n]));
      (a'.(free := a.free - (count - have), fds := a.fds[fd := Some(Fd(i, off + n))]), Reply(n, []))
  }

  /** The inode number in the first entry from `e` on that holds `name`, or -1. */
  function FlatFind(dir: Bytes, name: Bytes, e: nat := 0): int
    decreases |dir| - DENTRY_BYTES * e
  {
    if DENTRY_BYTES * (e + 1) > |dir| then -1
    else
      var entry := DecodeDentry(dir[DENTRY_BYTES * e..DENTRY_BYTES * (e + 1)]);
      if CString(entry.name) == name then entry.ino else FlatFind(dir, name, e + 1)
  }

  function FirstClosed(fds: seq<Option<Fd>>, fd: nat := 0): nat
    requires fd <= |fds|
    decreases |fds| - fd
  {
    if fd == |fds| || fds[fd].None? then fd else FirstClosed(fds, fd + 1)
  }

  function FlatOpen(a: Flat, path: CStr): (Flat, Reply) {
    var name := PathName(path);
    var ino, fd := FlatFind(a.dir, name), FirstClosed(a.fds);
    if name == [] || !(0 <= ino < MAX_INODES) || fd >= |a.fds| then (a, Reply(-1, []))
    else (a.(fds := a.fds[fd := Some(Fd(ino, 0))]), Reply(fd, []))
  }

  /** The lowest inode number that no file has, or MAX_INODES. */
  function FreeIno(files: map<InodeNo, Bytes>, i: nat := ROOT_INO + 1): (r: nat)
    requires ROOT_INO < i <= MAX_INODES
    ensures ROOT_INO < r <= MAX_INODES
    decreases MAX_INODES - i
  {
    if i == MAX_INODES || i !in files then i else FreeIno(files, i + 1)
  }

  /** A new file is empty, has the lowest free inode number, and its entry is appended to the directory,
      with the name copied over what is below it. */
  function FlatCreate(a: Flat, name: CStr): (Flat, Reply) {
    var i, full := FreeIno(a.files), |a.dir| % BLOCK_SIZE == 0;
    if FlatFind(a.dir, name) >= 0 || i == MAX_INODES ||
       (full && (|a.dir| >= BLOCK_SIZE * DIRECT_BLOCKS || a.free == 0)) then (a, Reply(-1, []))
    else
      var entry := EncodeDentry(Dentry(i, CopyName(NameBelow(a.dir), name)));
      (a.(files := a.files[i := []], dir := a.dir + entry, free := if full then a.free - 1 else a.free), Reply(0, []))
  }

  function FlatClose(a: Flat, fd: int): (Flat, Reply) {
    (if 0 <= fd < |a.fds| then a.(fds := a.fds[fd := None]) else a, Reply(0, []))
  }

  function FlatStep(a: Flat, c: Call): (Flat, Reply) {
    match c
    case Creat(name) => FlatCreate(a, name)
    case Open(path) => FlatOpen(a, path)
    case Read(fd, count) => FlatRead(a, fd, count)
    case Write(fd, data) => FlatWrite(a, fd, data)
    case Close(fd) => FlatClose(a, fd)
  }

  // ---------------------------------------------------------------- what the disk stands for

  function FdView(f: OpenFile): Option<Fd> { if f.inUse then Some(Fd(f.ino, f.offset)) else None }

  ghost function View(s: Fs): (a: Flat)
    requires Good(s)
    ensures |a.fds| == MAX_FILES && forall k | 0 <= k < MAX_FILES :: a.fds[k] == FdView(s.files[k])
  {
    AllReadable(s);
    Flat(map i: InodeNo | i != ROOT_INO && Used(s.disk, i) :: File(s.disk, i), File(s.disk, ROOT_INO), FreeOn(s.disk),
      seq(MAX_FILES, k requires 0 <= k < MAX_FILES => FdView(s.files[k])))
  }

  lemma AllReadable(s: Fs)
    requires Good(s)
    ensures Used(s.disk, ROOT_INO) && forall i: InodeNo | Used(s.disk, i) :: Readable(ReadInode(s.disk, i))
  {
    hide Good, Consistent, Tidy;
    GoodIsConsistent(s);
    RootInUse(s.disk);
    forall i: InodeNo | Used(s.disk, i) ensures Readable(ReadInode(s.disk, i)) { TidyIsReadable(s.disk, i); }
  }

  lemma FilesView(s: Fs, i: InodeNo)
    requires Good(s)
    ensures i in View(s).files <==> i != ROOT_INO && Used(s.disk, i)
    ensures Used(s.disk, i) ==> Readable(ReadInode(s.disk, i)) && BytesOf(View(s), i) == File(s.disk, i)
  {
    hide Good, File, Readable;
    AllReadable(s);
  }

  lemma DirView(s: Fs)
    requires Good(s)
    ensures Used(s.disk, ROOT_INO) && Readable(Root(s.disk)) && View(s).dir == File(s.disk, ROOT_INO) && View(s).free == FreeOn(s.disk)
  {
    hide Good, File, Readable, FreeOn;
    AllReadable(s);
  }

  /** Two states look alike if their files, their directories, their free blocks and their
      descriptors do. */
  lemma ViewIs(s: Fs, a: Flat)
    requires Good(s) && |a.fds| == MAX_FILES
    requires forall j: InodeNo :: j in View(s).files <==> j in a.files
    requires forall j: InodeNo | j in a.files :: BytesOf(View(s), j) == a.files[j]
    requires ROOT_INO !in a.files && View(s).dir == a.dir && View(s).free == a.free
    requires forall k | 0 <= k < MAX_FILES :: FdView(s.files[k]) == a.fds[k]
    ensures View(s) == a
  {
    hide View, Good;
    var v := View(s);
    FilesView(s, ROOT_INO);
    forall j: InodeNo | j in a.files ensures v.files[j] == a.files[j] { assert BytesOf(v, j) == a.files[j]; }
    assert v.files == a.files;
    assert v.fds == a.fds;
  }

  // ---------------------------------------------------------------- reading, writing and closing

  lemma OpenOnBytes(s: Fs, fd: int)
    requires Good(s)
    ensures OnBytes(View(s), fd) <==> InUse(s, fd)
    ensures InUse(s, fd) ==>
      var f := s.files[fd];
      && View(s).fds[fd] == Some(Fd(f.ino, f.offset)) && FdReady(s, fd) && Writable(s.disk, f.ino, f.offset)
      && BytesOf(View(s), f.ino) == File(s.disk, f.ino)
  {
    hide Good, View, File, Consistent, Readable;
    if InUse(s, fd) {
      GoodFd(s, fd);
      FilesView(s, s.files[fd].ino);
      FdOffset(s, fd);
    }
  }

  lemma FdOffset(s: Fs, fd: int)
    requires InUse(s, fd) && FdReady(s, fd)
    ensures s.files[fd].offset <= |File(s.disk, s.files[fd].ino)|
  {
  }

  lemma ReadIsFlat(s: Fs, fd: int, count: Count)
    requires Good(s) && (InUse(s, fd) ==> FdReady(s, fd)) && Good(ReadCall(s, fd, count).0)
    ensures (View(ReadCall(s, fd, count).0), ReadCall(s, fd, count).1) == FlatRead(View(s), fd, count)
  {
    hide Consistent, ReadFile, Readable, Good, View, ReadInode, OnBytes;
    var s' := ReadCall(s, fd, count).0;
    OpenOnBytes(s, fd);
    if InUse(s, fd) {
      var f := s.files[fd];
      ReadIsSlice(s.disk, ReadInode(s.disk, f.ino), f.offset, count);
      SameDisk(s, s');
      assert View(s').fds == View(s).fds[fd := Some(Fd(f.ino, f.offset + |ReadCall(s, fd, count).1.bytes|))];
    }
  }

  lemma SameDisk(s: Fs, s': Fs)
    requires Good(s) && Good(s') && s'.disk == s.disk
    ensures View(s') == View(s).(fds := View(s').fds)
  {
    hide Good, File, FreeOn;
  }

  lemma WriteIsFlat(s: Fs, fd: int, data: Bytes)
    requires Good(s) && (InUse(s, fd) ==> FdReady(s, fd)) && Good(WriteCall(s, fd, data).0)
    ensures (View(WriteCall(s, fd, data).0), WriteCall(s, fd, data).1) == FlatWrite(View(s), fd, data)
  {
    hide Consistent, WriteFile, File, Good, Readable, View, ReadInode, Overwrite, OnBytes, Writable, BlocksGot, Room, Need, BlocksFor,
      FreeOn, FdReady;
    OpenOnBytes(s, fd);
    if InUse(s, fd) {
      var s' := WriteCall(s, fd, data).0;
      var a, a' := View(s), FlatWrite(View(s), fd, data).0;
      WriteCounts(s, fd, data);
      DirView(s);
      DirView(s');
      forall j: InodeNo
        ensures j in View(s').files <==> j in a'.files
        ensures j == ROOT_INO || j in a'.files ==> BytesOf(View(s'), j) == BytesOf(a', j)
      {
        WrittenView(s, fd, data, j);
      }
      FilesView(s, ROOT_INO);
      ViewIs(s', a');
    }
  }

  lemma WriteCounts(s: Fs, fd: int, data: Bytes)
    requires Good(s) && InUse(s, fd) && FdReady(s, fd)
    ensures var f := s.files[fd];
      var (d', n) := WriteFile(s.disk, f.ino, data, f.offset);
      var have := BlocksFor(|File(s.disk, f.ino)|);
      var count := BlocksGot(have, FreeOn(s.disk), Need(f.offset, |data|));
      f.offset <= BLOCK_SIZE * count && n == Room(f.offset, |data|, count) && FreeOn(d') == FreeOn(s.disk) - (count - have)
  {
    hide Consistent, WriteFile, Good, Packed, ReadInode, BlocksGot, Room, Need, BlocksFor, FreeOn, Used;
    GoodFd(s, fd);
    GoodIsConsistent(s);
    CountsAfterWrite(s.disk, s.files[fd].ino, data, s.files[fd].offset);
    UsedByFd(s.disk, s.files[fd].ino, s.files[fd].offset);
  }

  lemma UsedByFd(d: Disk, i: InodeNo, off: nat)
    requires Writable(d, i, off)
    ensures Used(d, i)
  {
  }

  /** What a write does to the bytes of inode `j`. */
  lemma WrittenView(s: Fs, fd: int, data: Bytes, j: InodeNo)
    requires Good(s) && InUse(s, fd) && FdReady(s, fd) && Good(WriteCall(s, fd, data).0)
    ensures var f, s' := s.files[fd], WriteCall(s, fd, data).0;
      var n := WriteFile(s.disk, f.ino, data, f.offset).1;
      && f.offset <= |BytesOf(View(s), f.ino)|
      && (j in View(s').files <==> j in View(s).files) && (f.ino != ROOT_INO ==> f.ino in View(s).files)
      && (j == ROOT_INO || j in View(s).files ==>
           BytesOf(View(s'), j) == if j == f.ino then Overwrite(BytesOf(View(s), j), f.offset, data[..n]) else BytesOf(View(s), j))
  {
    hide Consistent, WriteFile, File, Good, Readable, View, Writable, ReadInode, Overwrite, Planned, Room;
    var f, s' := s.files[fd], WriteCall(s, fd, data).0;
    var i: InodeNo := f.ino;
    GoodFd(s, fd);
    FdOffset(s, fd);
    UsedByFd(s.disk, i, f.offset);
    FilesView(s, i);
    FilesView(s, j);
    FilesView(s', j);
    AllReadable(s);
    WriteOutcome(s.disk, i, data, f.offset);
    WriteIsOverwrite(s.disk, i, data, f.offset);
    if j != i && Used(s.disk, j) { WriteKeepsOtherFiles(s.disk, i, data, f.offset, j); }
  }

  lemma CloseIsFlat(s: Fs, fd: int)
    requires Good(s) && Good(CloseCall(s, fd))
    ensures View(CloseCall(s, fd)) == FlatClose(View(s), fd).0
  {
    hide Good, View;
    var s' := CloseCall(s, fd);
    SameDisk(s, s');
    assert View(s').fds == FlatClose(View(s), fd).0.fds;
  }

  // ---------------------------------------------------------------- opening and creating

  /** sfs_lookup finds in the blocks what the bytes of the directory say. */
  lemma {:induction false} FindIs(d: Disk, name: Bytes, e: nat)
    requires Consistent(d) && Tidy(d) && Readable(Root(d)) && DENTRY_BYTES * e <= Root(d).size
    ensures e <= Total(Root(d))
    ensures FlatFind(File(d, ROOT_INO), name, e) ==
      var m := MatchEntry(d, Root(d), name, e); if m == Total(Root(d)) then -1 else Entry(d, Root(d), m).ino
    decreases Root(d).size - DENTRY_BYTES * e
  {
    hide Consistent, Tidy, Entry, CString, File, DecodeDentry, ReadInode;
    TidyEnd(d);
    var x := Root(d);
    if DENTRY_BYTES * e == x.size {
      NoMatchBehind(d, name, e);
    } else {
      FindIs(d, name, e + 1);
      DirectoryEntry(d, e);
      LiveEntry(d, e);
    }
  }

  lemma TidyEnd(d: Disk)
    requires Tidy(d)
    ensures Root(d).size % DENTRY_BYTES == 0
  {
  }

  lemma LiveEntry(d: Disk, e: nat)
    requires Tidy(d) && e < Total(Root(d))
    ensures DirReady(Root(d)) && (Entry(d, Root(d), e).ino != 0 <==> DENTRY_BYTES * e < Root(d).size)
  {
  }

  lemma NoMatchBehind(d: Disk, name: Bytes, e: nat)
    requires Tidy(d) && DirReady(Root(d)) && DENTRY_BYTES * e == Root(d).size && e <= Total(Root(d))
    ensures MatchEntry(d, Root(d), name, e) == Total(Root(d))
  {
    hide Tidy, Entry, ReadInode;
    var m := MatchEntry(d, Root(d), name, e);
    if m < Total(Root(d)) { LiveEntry(d, m); }
  }

  lemma LookupIs(d: Disk, name: Bytes)
    requires Consistent(d) && Tidy(d) && Readable(Root(d))
    ensures Lookup(d, name) == FlatFind(File(d, ROOT_INO), name)
  {
    hide Consistent, Tidy, Entry, File, FlatFind, MatchEntry, ReadInode;
    ConsistentIsReady(d);
    FindIs(d, name, 0);
  }

  lemma {:induction false} FreeFdIs(files: Files, fds: seq<Option<Fd>>, fd: nat)
    requires |fds| == MAX_FILES && (forall k | 0 <= k < MAX_FILES :: fds[k] == FdView(files[k])) && fd <= MAX_FILES
    ensures FreeFd(files, fd) == FirstClosed(fds, fd)
    decreases MAX_FILES - fd
  {
    if fd < MAX_FILES { FreeFdIs(files, fds, fd + 1); }
  }

  lemma OpenIsFlat(s: Fs, path: CStr)
    requires Good(s) && RootReady(s.disk) && Good(OpenCall(s, path).0)
    ensures (View(OpenCall(s, path).0), OpenCall(s, path).1) == FlatOpen(View(s), path)
  {
    hide Good, Consistent, Tidy, PathName, Lookup, FlatFind, View, File, FirstClosed, FreeFd, Readable, ReadInode;
    var s', name := OpenCall(s, path).0, PathName(path);
    GoodIsConsistent(s);
    DirView(s);
    LookupIs(s.disk, name);
    LookupFindsUsed(s.disk, name);
    FreeFdIs(s.files, View(s).fds, 0);
    SameDisk(s, s');
    assert View(s').fds == FlatOpen(View(s), path).0.fds;
  }

  /** sfs_alloc_inode takes the lowest number that no file has. */
  lemma {:induction false} FreeInoIs(s: Fs, i: nat)
    requires Good(s) && ROOT_INO < i <= MAX_INODES
    ensures FirstZero(s.disk[INODE_BITMAP], MAX_INODES, i) == FreeIno(View(s).files, i)
    decreases MAX_INODES - i
  {
    hide Good, View, File, Readable, TestBit, BytesOf;
    if i < MAX_INODES {
      FilesView(s, i);
      FreeInoIs(s, i + 1);
    }
  }

  lemma AllocIs(s: Fs)
    requires Good(s)
    ensures var i := FreeIno(View(s).files);
      if i == MAX_INODES then AllocInode(s.disk).None? else AllocInode(s.disk).Some? && AllocInode(s.disk).value.0 == i
  {
    hide Good, View, FreeIno, TestBit, Tidy, BitmapExact, OwnersDistinct, RootSound;
    GoodIsConsistent(s);
    FreeInoIs(s, ROOT_INO + 1);
    FirstBitsSet(s.disk);
  }

  lemma FirstBitsSet(d: Disk)
    requires Consistent(d)
    ensures FirstZero(d[INODE_BITMAP], MAX_INODES) == FirstZero(d[INODE_BITMAP], MAX_INODES, ROOT_INO + 1)
  {
    hide TestBit;
  }

  /** Whether and why a creation fails can be read off the flat state. */
  lemma CanCreateIs(s: Fs, name: CStr)
    requires Good(s) && RootReady(s.disk)
    ensures CanCreate(s.disk, name) <==> FlatCreate(View(s), name).1.result == 0
  {
    hide Good, Consistent, Tidy, Lookup, FlatFind, View, File, FreeIno, Readable, AllocInode, AllocBlock, Slot, FreeOn, Packed,
      MetaTaken, NameBelow, EncodeDentry, CopyName;
    GoodIsConsistent(s);
    DirView(s);
    LookupIs(s.disk, name);
    AllocIs(s);
    OldNameIs(s.disk);
    ConsistentTakesMeta(s.disk);
    AllocTakesOne(s.disk);
    DirectorySize(s.disk);
  }

  lemma DirectorySize(d: Disk)
    requires Consistent(d) && Tidy(d) && Readable(Root(d))
    ensures RootReady(d) && (Slot(d) == Total(Root(d)) ==> |File(d, ROOT_INO)| == BLOCK_SIZE * Root(d).blockCount)
  {
    hide Consistent, Tidy, Slot, ReadInode;
    TidySlot(d);
  }

  lemma CreatIsFlat(s: Fs, name: CStr)
    requires Good(s) && RootReady(s.disk) && Good(CreatCall(s, name).0)
    ensures (View(CreatCall(s, name).0), CreatCall(s, name).1) == FlatCreate(View(s), name)
  {
    hide Good, Consistent, Tidy, CanCreate, View, Create, FlatCreate;
    GoodIsConsistent(s);
    CreateSucceedsIff(s.disk, name);
    CanCreateIs(s, name);
    FlatReply(View(s), name);
    if CanCreate(s.disk, name) { CreatedView(s, name); } else { FailedView(s, name); }
  }

  lemma FlatReply(a: Flat, name: CStr)
    ensures FlatCreate(a, name).1.result == -1 ==> FlatCreate(a, name) == (a, Reply(-1, []))
    ensures FlatCreate(a, name).1.result != -1 ==> FlatCreate(a, name).1 == Reply(0, [])
  {
  }

  lemma CreatedView(s: Fs, name: CStr)
    requires Good(s) && RootReady(s.disk) && Good(CreatCall(s, name).0) && CanCreate(s.disk, name)
    requires FlatCreate(View(s), name).1.result == 0
    ensures View(CreatCall(s, name).0) == FlatCreate(View(s), name).0
  {
    hide Good, Consistent, Tidy, CanCreate, View, Create, File, FreeIno, FreeOn, Readable, NameBelow, EncodeDentry, CopyName,
      ReadInode, FlatFind;
    var s', a' := CreatCall(s, name).0, FlatCreate(View(s), name).0;
    CreatedIno(s, name);
    var i: InodeNo := Create(s.disk, name).1;
    CreatedRest(s, name);
    FilesView(s, ROOT_INO);
    forall j: InodeNo
      ensures j in View(s').files <==> j in a'.files
      ensures j in a'.files ==> BytesOf(View(s'), j) == a'.files[j]
    {
      CreatedFile(s, name, j);
    }
    ViewIs(s', a');
  }

  lemma CreatedIno(s: Fs, name: CStr)
    requires Good(s) && RootReady(s.disk) && CanCreate(s.disk, name)
    ensures ROOT_INO < Create(s.disk, name).1 == FreeIno(View(s).files) < MAX_INODES
  {
    hide Good, Consistent, Tidy, View, FreeIno, Create, WithNew, Stored, AllocInode;
    GoodIsConsistent(s);
    CreateCases(s.disk, name);
    AllocIs(s);
  }

  /** The files after a creation: one more, empty. */
  lemma CreatedFile(s: Fs, name: CStr, j: InodeNo)
    requires Good(s) && RootReady(s.disk) && Good(CreatCall(s, name).0) && CanCreate(s.disk, name)
    ensures var i, a, a' := Create(s.disk, name).1, View(s), View(CreatCall(s, name).0);
      && (j in a'.files <==> j == i || j in a.files)
      && (j in a'.files ==> BytesOf(a', j) == if j == i then [] else BytesOf(a, j))
  {
    hide Good, Consistent, Tidy, CanCreate, View, Create, File, Readable, ReadInode;
    GoodIsConsistent(s);
    CreateSucceedsIff(s.disk, name);
    CreateAddsEmptyFile(s.disk, name, j);
    FilesView(s, j);
    FilesView(CreatCall(s, name).0, j);
    if Used(s.disk, j) && j != ROOT_INO { FilesAreReadable(s.disk, j); }
  }

  /** The directory and the free blocks after a creation. */
  lemma CreatedRest(s: Fs, name: CStr)
    requires Good(s) && RootReady(s.disk) && Good(CreatCall(s, name).0) && CanCreate(s.disk, name)
    requires ROOT_INO < Create(s.disk, name).1 < MAX_INODES
    ensures var i, a, a' := Create(s.disk, name).1, View(s), View(CreatCall(s, name).0);
      && a'.dir == a.dir + EncodeDentry(Dentry(i, CopyName(NameBelow(a.dir), name)))
      && a'.free == if |a.dir| % BLOCK_SIZE == 0 then a.free - 1 else a.free
  {
    hide Good, Consistent, Tidy, CanCreate, View, Create, File, Readable, NameBelow, EncodeDentry, CopyName, ReadInode, FreeBlocks,
      Slot, AllocBlock, MetaTaken;
    GoodIsConsistent(s);
    DirView(s);
    DirView(CreatCall(s, name).0);
    DirectoryAfterCreate(s.disk, name);
    BlocksAfterCreate(s.disk, name);
    OldNameIs(s.disk);
    ConsistentTakesMeta(s.disk);
    AllocTakesOne(s.disk);
  }

  lemma FailedView(s: Fs, name: CStr)
    requires Good(s) && RootReady(s.disk) && Good(CreatCall(s, name).0) && Create(s.disk, name).1 < 0
    ensures View(CreatCall(s, name).0) == View(s)
  {
    hide Good, Consistent, Tidy, View, Create, File, Readable, ReadInode;
    var s' := CreatCall(s, name).0;
    GoodIsConsistent(s);
    FailedCreateRestores(s.disk, name);
    DirView(s);
    DirView(s');
    FilesView(s, ROOT_INO);
    FailedCreateKeepsFile(s.disk, name, ROOT_INO);
    forall j: InodeNo
      ensures j in View(s').files <==> j in View(s).files
      ensures j in View(s).files ==> BytesOf(View(s'), j) == View(s).files[j]
    {
      FilesView(s, j);
      FilesView(s', j);
      if Used(s.disk, j) { FailedCreateKeepsFile(s.disk, name, j); }
    }
    ViewIs(s', View(s));
  }

  lemma FailedCreateKeepsFile(d: Disk, name: Bytes, j: InodeNo)
    requires Consistent(d) && RootReady(d) && Create(d, name).1 < 0 && Used(d, j) && Readable(ReadInode(d, j))
    ensures var d' := Create(d, name).0; ReadInode(d', j) == ReadInode(d, j) && File(d', j) == File(d, j)
  {
    hide Create, Consistent;
    FailedCreateRestores(d, name);
    var d', x := Create(d, name).0, ReadInode(d, j);
    forall p | 0 <= p < x.size ensures File(d', j)[p] == File(d, j)[p] {
      InBlock(p, x.blockCount);
      BlockInData(d, j, p / BLOCK_SIZE);
    }
  }

  lemma BlockInData(d: Disk, j: InodeNo, k: nat)
    requires Consistent(d) && Used(d, j) && k < ReadInode(d, j).blockCount
    ensures k < DIRECT_BLOCKS && ReadInode(d, j).blocks[k] >= DATA_START
  {
    assert InodeSound(TableOf(d)[j], j);
  }

  // ---------------------------------------------------------------- one call

  /** Each call returns what the flat model returns and does to the disk what the flat model does. */
  lemma StepIsFlat(s: Fs, c: Call)
    requires Good(s) && Legal(s, c)
    ensures Good(Step(s, c).0) && (View(Step(s, c).0), Step(s, c).1) == FlatStep(View(s), c)
  {
    hide Good, Legal, OpenCall, CreatCall, ReadCall, WriteCall, CloseCall, FlatRead, FlatWrite, FlatOpen, FlatCreate, View, FdReady;
    StepKeepsGoodIff(s, c);
    GoodIsReady(s);
    match c
    case Creat(name) => CreatIsFlat(s, name);
    case Open(path) => OpenIsFlat(s, path);
    case Read(fd, count) => ReadIsFlat(s, fd, count);
    case Write(fd, data) => WriteIsFlat(s, fd, data);
    case Close(fd) => CloseIsFlat(s, fd);
  }

  // ---------------------------------------------------------------- runs

  ghost predicate LegalRun(s: Fs, cs: seq<Call>)
    requires Good(s)
    decreases |cs|
  {
    cs == [] || (Legal(s, cs[0]) && (StepKeepsGoodIff(s, cs[0]); LegalRun(Step(s, cs[0]).0, cs[1..])))
  }

  /** The state after a run, and what its calls return. */
  ghost function Run(s: Fs, cs: seq<Call>): (Fs, seq<Reply>)
    requires Good(s) && LegalRun(s, cs)
    decreases |cs|
  {
    if cs == [] then (s, [])
    else
      StepKeepsGoodIff(s, cs[0]);
      var (s', rs) := Run(Step(s, cs[0]).0, cs[1..]);
      (s', [Step(s, cs[0]).1] + rs)
  }

  function FlatRun(a: Flat, cs: seq<Call>): (Flat, seq<Reply>)
    decreases |cs|
  {
    if cs == [] then (a, [])
    else
      var (a1, r) := FlatStep(a, cs[0]);
      var (a', rs) := FlatRun(a1, cs[1..]);
      (a', [r] + rs)
  }

  /** Along every legal run the disk stays consistent and tidy, and the replies and the final state are
      those of the flat model. */
  lemma {:induction false} RunIsFlat(s: Fs, cs: seq<Call>)
    requires Good(s) && LegalRun(s, cs)
    ensures Good(Run(s, cs).0) && (View(Run(s, cs).0), Run(s, cs).1) == FlatRun(View(s), cs)
    decreases |cs|
  {
    hide Good, Step, Legal, FlatStep, View;
    if cs != [] {
      StepKeepsGoodIff(s, cs[0]);
      StepIsFlat(s, cs[0]);
      RunIsFlat(Step(s, cs[0]).0, cs[1..]);
    }
  }

  /** The file system after sfs_format and sfs_mount: no open descriptors. */
  function Fresh(d: Disk): Fs { Fs(Format(d), seq(MAX_FILES, _ => OpenFile(0, 0, false))) }

  function FlatFresh(): Flat {
    var dots := EncodeDentry(DotEntry(1)) + EncodeDentry(DotEntry(2));
    Flat(map[], dots, DISK_BLOCKS - DATA_START - 1, seq(MAX_FILES, _ => None))
  }

  /** The flat model of a formatted disk: no files, and a directory that holds "." and "..". */
  lemma FreshIsEmpty(d: Disk)
    ensures Good(Fresh(d)) && View(Fresh(d)) == FlatFresh()
  {
    hide Consistent, Tidy, Format, View, EncodeDentry, DotEntry, FreeOn, ReadInode;
    var s := Fresh(d);
    FormatIsConsistent(d);
    FormatIsTidy(d);
    DirView(s);
    FreshDirectory(d);
    FreshBlocks(d);
    forall i: InodeNo ensures i !in View(s).files { FilesView(s, i); }
    ViewIs(s, FlatFresh());
  }

  lemma FreshDirectory(d: Disk)
    requires Readable(Root(Format(d)))
    ensures File(Format(d), ROOT_INO) == EncodeDentry(DotEntry(1)) + EncodeDentry(DotEntry(2))
  {
    hide Format, EncodeDentry, DotEntry, RootBlock, ReadInode, DentryAt, RawAt, Entry;
    var f := Format(d);
    FormatBlocks(d);
    var dir := EncodeDentry(DotEntry(1)) + EncodeDentry(DotEntry(2));
    forall p: nat | p < |dir| ensures File(f, ROOT_INO)[p] == dir[p] {
      DirectoryByte(f, p / DENTRY_BYTES, p % DENTRY_BYTES);
      FreshEntry(f, p / DENTRY_BYTES);
    }
  }

  lemma FreshEntry(f: Disk, e: nat)
    requires Root(f) == RootInode(DATA_START) && f[DATA_START] == RootBlock() && e < 2
    ensures Entry(f, Root(f), e) == DotEntry(e + 1)
  {
    hide DotEntry, RootBlock, ReadInode, DentryAt;
    FormatEntry(e);
  }

  lemma FreshBlocks(d: Disk)
    ensures FreeOn(Format(d)) == DISK_BLOCKS - DATA_START - 1
  {
    hide Format, FreeBlocks, SetBit, MarkFirst;
    var bm := Format(d)[BLOCK_BITMAP];
    forall i: nat | i < DISK_BLOCKS ensures TestBit(bm, i) <==> i <= DATA_START { FormatBits(d, i); }
    FreeAbove(bm, DATA_START + 1, DISK_BLOCKS);
  }

  lemma {:induction false} FreeAbove(bm: Bytes, lo: nat, n: nat)
    requires lo <= n <= 8 * |bm| && forall i: nat | i < n :: TestBit(bm, i) <==> i < lo
    ensures FreeBlocks(bm, n) == n - lo
  {
    if n == lo { NoneFree(bm, n); } else { FreeAbove(bm, lo, n - 1); }
  }

  /** Bytes that were written through one descriptor come back through any other at that offset. */
  lemma WriteThenRead(s: Fs, w: int, r: int, data: Bytes)
    requires Good(s) && Legal(s, Write(w, data)) && InUse(s, w) && InUse(s, r) && w != r && |data| < 0x8000_0000
    requires s.files[r].ino == s.files[w].ino && s.files[r].offset == s.files[w].offset
    ensures var (s1, reply) := Step(s, Write(w, data));
      && Good(s1) && 0 <= reply.result <= |data|
      && Step(s1, Read(r, reply.result)).1 == Reply(reply.result, data[..reply.result])
  {
    hide Good, Step, Legal, View, FlatRead, FlatWrite, OnBytes, FdReady, Writable, File, BytesOf;
    var (s1, reply) := Step(s, Write(w, data));
    StepIsFlat(s, Write(w, data));
    OpenOnBytes(s, w);
    OpenOnBytes(s, r);
    var n := reply.result;
    FlatWriteThenRead(View(s), w, r, data);
    OthersAreLegal(s1, Read(r, n));
    StepIsFlat(s1, Read(r, n));
  }

  lemma OthersAreLegal(s: Fs, c: Call)
    requires Good(s) && !c.Write?
    ensures Legal(s, c)
  {
  }

  lemma FlatWriteThenRead(a: Flat, w: int, r: int, data: Bytes)
    requires OnBytes(a, w) && OnBytes(a, r) && w != r && a.fds[r] == a.fds[w]
    ensures var (a1, reply) := FlatWrite(a, w, data);
      0 <= reply.result <= |data| && FlatRead(a1, r, reply.result).1 == Reply(reply.result, data[..reply.result])
  {
    hide BlocksFor, BlocksGot, Need, Room;
    var (a1, reply) := FlatWrite(a, w, data);
    var n := reply.result;
    var Fd(i, off) := a.fds[w].value;
    var c := BytesOf(a1, i);
    assert c == Overwrite(BytesOf(a, i), off, data[..n]);
    assert n > 0 ==> c[off..off + n] == data[..n];
  }
}
