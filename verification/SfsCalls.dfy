/** The system calls of fs/sfs.c as steps on the disk and the table of open files. */
module SfsCalls {
  import opened Wrappers
  import opened SfsCodec
  import opened SfsSpec
  import opened SfsWrite
  import opened SfsFlat
  import opened SfsDir
  import opened SfsCreate
  import opened SfsDirWrite
  import opened SfsTidy

  const MAX_FILES: nat := 16
  const SLASH: Byte := 47

  datatype OpenFile = OpenFile(ino: u32, offset: nat, inUse: bool)
  type Files = f: seq<OpenFile> | |f| == MAX_FILES witness seq(MAX_FILES, _ => OpenFile(0, 0, false))
  type Count = n: int | 0 <= n < 0x8000_0000
  type CStr = s: Bytes | 0 !in s witness []

  /** The disk and file_table of a mounted file system. */
  datatype Fs = Fs(disk: Disk, files: Files)

  datatype Call =
    | Creat(name: CStr)
    | Open(path: CStr)
    | Read(fd: int, count: Count)
    | Write(fd: int, data: Bytes)
    | Close(fd: int)

  /** What a call returns: its result and the bytes put into the caller's buffer. */
  datatype Reply = Reply(result: int, bytes: Bytes)

  // ---------------------------------------------------------------- the calls

  /** path_parse: the name behind the leading slashes, all paths being relative to the root. */
  function PathName(path: Bytes): (name: Bytes)
    ensures exists n | 0 <= n <= |path| :: name == path[n..] && (forall k | 0 <= k < n :: path[k] == SLASH)
    ensures name != [] ==> name[0] != SLASH
  {
    if path != [] && path[0] == SLASH then
      var name := PathName(path[1..]);
      assert forall n | 0 <= n <= |path| - 1 :: path[1..][n..] == path[n + 1..];
      name
    else
      assert path[0..] == path;
      path
  }

  /** The lowest descriptor not in use from `fd` on. */
  function FreeFd(files: Files, fd: nat := 0): (r: nat)
    requires fd <= MAX_FILES
    ensures fd <= r <= MAX_FILES && (r < MAX_FILES ==> !files[r].inUse) && forall k | fd <= k < r :: files[k].inUse
    decreases MAX_FILES - fd
  {
    if fd == MAX_FILES || !files[fd].inUse then fd else FreeFd(files, fd + 1)
  }

  predicate InUse(s: Fs, fd: int) { 0 <= fd < MAX_FILES && s.files[fd].inUse }

  /** sys_open. */
  function OpenCall(s: Fs, path: Bytes): (Fs, Reply)
    requires RootReady(s.disk)
  {
    var name := PathName(path);
    if name == [] then (s, Reply(-1, []))
    else
      var ino, fd := Lookup(s.disk, name), FreeFd(s.files);
      if ino < 0 || fd == MAX_FILES then (s, Reply(-1, []))
      else (s.(files := s.files[fd := OpenFile(ino, 0, true)]), Reply(fd, []))
  }

  /** What reads and writes rely on: a readable inode, and an offset within the file. */
  predicate FdReady(s: Fs, fd: int)
    requires InUse(s, fd)
  {
    var f := s.files[fd];
    1 <= f.ino < MAX_INODES && Readable(ReadInode(s.disk, f.ino)) && f.offset <= ReadInode(s.disk, f.ino).size
  }

  /** sys_read. */
  function ReadCall(s: Fs, fd: int, count: Count): (Fs, Reply)
    requires InUse(s, fd) ==> FdReady(s, fd)
  {
    if !InUse(s, fd) then (s, Reply(-1, []))
    else
      var f := s.files[fd];
      var bytes := ReadFile(s.disk, ReadInode(s.disk, f.ino), f.offset, count);
      (s.(files := s.files[fd := f.(offset := f.offset + |bytes|)]), Reply(|bytes|, bytes))
  }

  /** sys_write. */
  function WriteCall(s: Fs, fd: int, data: Bytes): (Fs, Reply)
    requires InUse(s, fd) ==> FdReady(s, fd)
  {
    if !InUse(s, fd) then (s, Reply(-1, []))
    else
      var f := s.files[fd];
      var (d, n) := WriteFile(s.disk, f.ino, data, f.offset);
      (Fs(d, s.files[fd := f.(offset := f.offset + n)]), Reply(n, []))
  }

  /** sys_close. */
  function CloseCall(s: Fs, fd: int): Fs {
    if 0 <= fd < MAX_FILES then s.(files := s.files[fd := s.files[fd].(inUse := false)]) else s
  }

  /** SYS_FS_CREATE: 0 or -1, whatever inode sfs_create took. */
  function CreatCall(s: Fs, name: CStr): (Fs, Reply)
    requires RootReady(s.disk)
  {
    var (d, i) := Create(s.disk, name);
    (s.(disk := d), Reply(if i >= 0 then 0 else -1, []))
  }

  // ---------------------------------------------------------------- the invariant

  /** An open descriptor names an allocated inode; its offset does not pass the end of the bytes. */
  predicate FdSound(d: Disk, f: OpenFile) {
    f.inUse ==> 1 <= f.ino < MAX_INODES && Used(d, f.ino) && f.offset <= ReadInode(d, f.ino).size
  }

  ghost predicate Good(s: Fs) {
    Consistent(s.disk) && Tidy(s.disk) && forall fd | 0 <= fd < MAX_FILES :: FdSound(s.disk, s.files[fd])
  }

  lemma GoodIsConsistent(s: Fs)
    requires Good(s)
    ensures Consistent(s.disk) && Tidy(s.disk) && RootReady(s.disk)
  {
    hide Consistent, Tidy;
    ConsistentIsReady(s.disk);
  }

  lemma GoodFd(s: Fs, fd: int)
    requires Good(s) && InUse(s, fd)
    ensures FdReady(s, fd) && Writable(s.disk, s.files[fd].ino, s.files[fd].offset)
    ensures InodeSound(ReadInode(s.disk, s.files[fd].ino), s.files[fd].ino)
  {
    hide Consistent, Tidy;
    assert FdSound(s.disk, s.files[fd]);
    TidyIsReadable(s.disk, s.files[fd].ino);
  }

  lemma GoodIsReady(s: Fs)
    requires Good(s)
    ensures RootReady(s.disk) && forall fd | InUse(s, fd) :: FdReady(s, fd)
  {
    hide Good, FdReady;
    GoodIsConsistent(s);
    forall fd | InUse(s, fd) ensures FdReady(s, fd) { GoodFd(s, fd); }
  }

  ghost function Step(s: Fs, c: Call): (Fs, Reply)
    requires Good(s)
  {
    GoodIsReady(s);
    match c
    case Creat(name) => CreatCall(s, name)
    case Open(path) => OpenCall(s, path)
    case Read(fd, count) => ReadCall(s, fd, count)
    case Write(fd, data) => WriteCall(s, fd, data)
    case Close(fd) => (CloseCall(s, fd), Reply(0, []))
  }

  /** Every call but a disorderly write through a descriptor on ".". */
  ghost predicate Legal(s: Fs, c: Call)
    requires Good(s)
  {
    c.Write? && InUse(s, c.fd) && s.files[c.fd].ino == ROOT_INO ==> (
      GoodFd(s, c.fd);
      Orderly(s.disk, c.data, s.files[c.fd].offset))
  }

  // ---------------------------------------------------------------- every call keeps the invariant

  /** Files that are still there and have not become shorter keep the descriptors sound. */
  lemma FdsStaySound(s: Fs, d': Disk, fd: nat)
    requires Good(s) && fd < MAX_FILES
    requires forall j: InodeNo | Used(s.disk, j) :: Used(d', j) && ReadInode(d', j).size >= ReadInode(s.disk, j).size
    ensures FdSound(d', s.files[fd])
  {
    hide Consistent, Tidy, ReadInode, Used;
    assert FdSound(s.disk, s.files[fd]);
  }

  lemma CreatKeepsGood(s: Fs, name: CStr)
    requires Good(s)
    ensures RootReady(s.disk) && Good(CreatCall(s, name).0)
  {
    hide Create, Consistent, Tidy, FdSound, ReadInode, Used;
    GoodIsConsistent(s);
    CreateKeepsConsistent(s.disk, name);
    CreateKeepsTidy(s.disk, name);
    var d' := Create(s.disk, name).0;
    forall j: InodeNo | Used(s.disk, j) ensures Used(d', j) && ReadInode(d', j).size >= ReadInode(s.disk, j).size {
      CreateKeepsLive(s.disk, name, j);
    }
    forall fd | 0 <= fd < MAX_FILES ensures FdSound(d', s.files[fd]) { FdsStaySound(s, d', fd); }
  }

  lemma CreateKeepsLive(d: Disk, name: Bytes, j: InodeNo)
    requires Consistent(d) && Tidy(d) && RootReady(d) && Used(d, j)
    ensures var d' := Create(d, name).0; Used(d', j) && ReadInode(d', j).size >= ReadInode(d, j).size
  {
    hide Create, Consistent, Tidy, CanCreate, ReadInode, Slot;
    CreateSucceedsIff(d, name);
    if CanCreate(d, name) {
      CreateAddsEmptyFile(d, name, j);
      if j == ROOT_INO { SizeAfterCreate(d, name); } else { FilesAreReadable(d, j); }
    } else {
      FailedCreateRestores(d, name);
    }
  }

  lemma OpenKeepsGood(s: Fs, path: CStr)
    requires Good(s)
    ensures RootReady(s.disk) && Good(OpenCall(s, path).0)
  {
    hide Consistent, Tidy, PathName, Lookup;
    GoodIsConsistent(s);
    LookupFindsUsed(s.disk, PathName(path));
  }

  /** A lookup only finds allocated inodes. */
  lemma LookupFindsUsed(d: Disk, name: Bytes)
    requires Consistent(d)
    ensures RootReady(d)
    ensures var i := Lookup(d, name); i >= 0 ==> 1 <= i < MAX_INODES && Used(d, i)
  {
    ConsistentIsReady(d);
    var e := MatchEntry(d, Root(d), name);
    if e < Total(Root(d)) { EntryIsSound(d, e); }
  }

  /** A write keeps the disk consistent and tidy unless it is a disorderly one to the directory. */
  lemma WriteKeepsDiskIff(d: Disk, i: InodeNo, data: Bytes, off: nat)
    requires Writable(d, i, off) && Tidy(d) && (i == ROOT_INO ==> Reachable(d, off))
    ensures var d' := WriteFile(d, i, data, off).0;
      Consistent(d') && Tidy(d') <==> (i == ROOT_INO ==> Orderly(d, data, off))
  {
    hide Consistent, Tidy, WriteFile, Orderly;
    if i == ROOT_INO {
      DirectoryWriteKeepsTidyIff(d, data, off);
    } else {
      FilesAreReadable(d, i);
      WriteKeepsConsistent(d, i, data, off);
      WriteKeepsTidy(d, i, data, off);
    }
  }

  lemma WriteKeepsFds(s: Fs, fd: int, data: Bytes)
    requires Good(s) && InUse(s, fd) && FdReady(s, fd)
    ensures var s' := WriteCall(s, fd, data).0; forall k | 0 <= k < MAX_FILES :: FdSound(s'.disk, s'.files[k])
  {
    hide WriteFile, Consistent, Tidy, FdSound, File, Planned, Room;
    GoodFd(s, fd);
    var f := s.files[fd];
    var i: InodeNo := f.ino;
    var (d', n) := WriteFile(s.disk, i, data, f.offset);
    WriteOutcome(s.disk, i, data, f.offset);
    WrittenShape(s.disk, i, data, f.offset);
    var s' := WriteCall(s, fd, data).0;
    forall k | 0 <= k < MAX_FILES ensures FdSound(d', s'.files[k]) {
      FdsStaySound(s, d', k);
      if k == fd { FdSoundAt(d', s'.files[k]); }
    }
  }

  lemma FdSoundAt(d: Disk, f: OpenFile)
    requires 1 <= f.ino < MAX_INODES && Used(d, f.ino) && f.offset <= ReadInode(d, f.ino).size
    ensures FdSound(d, f)
  {
  }

  lemma WriteKeepsGoodIff(s: Fs, fd: int, data: Bytes)
    requires Good(s) && InUse(s, fd) && FdReady(s, fd)
    ensures Good(WriteCall(s, fd, data).0) <==> Legal(s, Write(fd, data))
  {
    hide WriteFile, Consistent, Tidy, FdSound, Orderly;
    GoodFd(s, fd);
    WriteKeepsDiskIff(s.disk, s.files[fd].ino, data, s.files[fd].offset);
    WriteKeepsFds(s, fd, data);
  }

  lemma ReadKeepsGood(s: Fs, fd: int, count: Count)
    requires Good(s) && InUse(s, fd) && FdReady(s, fd)
    ensures Good(ReadCall(s, fd, count).0)
  {
    hide ReadFile, Consistent, Tidy, Content;
    GoodFd(s, fd);
    ReadIsSlice(s.disk, ReadInode(s.disk, s.files[fd].ino), s.files[fd].offset, count);
  }

  lemma CloseKeepsGood(s: Fs, fd: int)
    requires Good(s)
    ensures Good(CloseCall(s, fd))
  {
    hide Consistent, Tidy;
  }

  /** A call keeps the file system consistent and tidy and every descriptor within its bytes, unless
      it is a disorderly write through "."; such a write never does. */
  lemma StepKeepsGoodIff(s: Fs, c: Call)
    requires Good(s)
    ensures Good(Step(s, c).0) <==> Legal(s, c)
  {
    hide Good, Create, OpenCall, ReadCall, WriteCall, CloseCall, CreatCall, FdReady, Orderly;
    GoodIsReady(s);
    match c
    case Creat(name) => CreatKeepsGood(s, name);
    case Open(path) => OpenKeepsGood(s, path);
    case Read(fd, count) => if InUse(s, fd) { ReadKeepsGood(s, fd, count); } else { NoFd(s, c); }
    case Write(fd, data) => if InUse(s, fd) { WriteKeepsGoodIff(s, fd, data); } else { NoFd(s, c); }
    case Close(fd) => CloseKeepsGood(s, fd);
  }

  lemma NoFd(s: Fs, c: Call)
    requires Good(s) && (c.Read? || c.Write?) && !InUse(s, c.fd)
    ensures Step(s, c) == (s, Reply(-1, []))
  {
  }
}
