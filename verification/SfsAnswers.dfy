/** What each system call of fs/sfs.c answers and changes, byte by byte, in terms of the bytes of the files and of
    the directory before the call. */
module SfsAnswers {
  import opened Wrappers
  import opened SfsCodec
  import opened SfsSpec
  import opened SfsWrite
  import opened SfsFlat
  import opened SfsDir
  import opened SfsTidy
  import opened SfsCalls
  import opened SfsRuns

  // ---------------------------------------------------------------- reading and closing

  /** A read returns the bytes from the descriptor's offset on, as many as were asked for or as there are, and moves
      the offset behind them; a descriptor that is not open gets -1. */
  lemma ReadAnswers(s: Fs, fd: int, count: Count)
    requires Good(s)
    ensures var (s', r) := Step(s, Read(fd, count)); var a := View(s);
      && Good(s')
      && if !(0 <= fd < MAX_FILES && s.files[fd].inUse) then s' == s && r.result == -1
         else
           var f := s.files[fd]; var file := BytesOf(a, f.ino);
           && f.offset <= |file|
           && r.result == |r.bytes| == (if f.offset + count <= |file| then count else |file| - f.offset)
           && (forall k | 0 <= k < |r.bytes| :: r.bytes[k] == file[f.offset + k])
           && View(s') == a.(fds := a.fds[fd := Some(Fd(f.ino, f.offset + r.result))])
  {
    hide Good, Step, View, BytesOf;
    OpenOnBytes(s, fd);
    OthersAreLegal(s, Read(fd, count));
    StepIsFlat(s, Read(fd, count));
    if !InUse(s, fd) { NoFd(s, Read(fd, count)); }
  }

  /** Reading twice is reading once: whatever the two counts are, the second read goes on where the first stopped. */
  lemma ReadsContinue(s: Fs, fd: int, m: Count, n: Count)
    requires Good(s) && InUse(s, fd) && m + n < 0x8000_0000
    ensures var (s1, r1) := Step(s, Read(fd, m)); var (s', r) := Step(s, Read(fd, m + n));
      && Good(s1) && Good(s')
      && var (s2, r2) := Step(s1, Read(fd, n));
      Good(s2) && r1.bytes + r2.bytes == r.bytes && View(s2) == View(s')
  {
    hide Good, Step, View, BytesOf, OnBytes;
    OpenOnBytes(s, fd);
    OthersAreLegal(s, Read(fd, m));
    OthersAreLegal(s, Read(fd, m + n));
    StepIsFlat(s, Read(fd, m));
    StepIsFlat(s, Read(fd, m + n));
    var s1 := Step(s, Read(fd, m)).0;
    OthersAreLegal(s1, Read(fd, n));
    StepIsFlat(s1, Read(fd, n));
    FlatReadsContinue(View(s), fd, m, n);
  }

  lemma FlatReadsContinue(a: Flat, fd: int, m: nat, n: nat)
    requires OnBytes(a, fd)
    ensures var (a1, r1) := FlatRead(a, fd, m); var (a2, r2) := FlatRead(a1, fd, n); var (a', r) := FlatRead(a, fd, m + n);
      r1.bytes + r2.bytes == r.bytes && a2 == a'
  {
    var (a1, r1) := FlatRead(a, fd, m);
    var Fd(i, off) := a.fds[fd].value;
    assert BytesOf(a1, i) == BytesOf(a, i);
    assert a.fds[fd := Some(Fd(i, off + |r1.bytes|))][fd := Some(Fd(i, off + |FlatRead(a, fd, m + n).1.bytes|))] ==
      a.fds[fd := Some(Fd(i, off + |FlatRead(a, fd, m + n).1.bytes|))];
  }

  /** After close a descriptor can neither be read nor written, and no other changes. */
  lemma CloseAnswers(s: Fs, fd: int, count: Count, data: Bytes)
    requires Good(s)
    ensures var s' := Step(s, Close(fd)).0;
      && Good(s') && s'.disk == s.disk && (forall k | 0 <= k < MAX_FILES && k != fd :: s'.files[k] == s.files[k])
      && Step(s', Read(fd, count)) == (s', Reply(-1, [])) && Step(s', Write(fd, data)) == (s', Reply(-1, []))
  {
    hide Good;
    CloseKeepsGood(s, fd);
    var s' := Step(s, Close(fd)).0;
    assert !InUse(s', fd);
    NoFd(s', Read(fd, count));
    NoFd(s', Write(fd, data));
  }

  // ---------------------------------------------------------------- writing

  /** From `a` to `a'` the first `n` bytes of the data have been put over those from the descriptor's offset on, and
      the offset is behind them; byte `k` is any byte of the file. No other file changes. */
  ghost predicate Written(a: Flat, a': Flat, fd: int, data: Bytes, n: int, k: nat)
    requires OnBytes(a, fd)
  {
    var Fd(i, off) := a.fds[fd].value;
    var file, file' := BytesOf(a, i), BytesOf(a', i);
    && 0 <= n <= |data| && |file'| == (if off + n > |file| then off + n else |file|)
    && (k < |file'| ==> file'[k] == if off <= k < off + n then data[k - off] else file[k])
    && a'.fds == a.fds[fd := Some(Fd(i, off + n))] && a'.free <= a.free
    && a'.files.Keys == a.files.Keys && forall j: InodeNo | j != i :: BytesOf(a', j) == BytesOf(a, j)
  }

  /** A write stops before the end of the data only where twelve blocks end, or the last free block. */
  ghost predicate Stopped(a: Flat, a': Flat, fd: int, data: Bytes, n: int)
    requires OnBytes(a, fd)
  {
    var end := a.fds[fd].value.offset + n;
    n < |data| ==> end == 12 * 4096 || (a'.free == 0 && end % 4096 == 0)
  }

  /** A write puts a prefix of the data over the bytes from the descriptor's offset on, and says how long it is. */
  lemma WriteAnswers(s: Fs, fd: int, data: Bytes, k: nat)
    requires Good(s) && Legal(s, Write(fd, data))
    ensures var (s', r) := Step(s, Write(fd, data));
      && Good(s')
      && if !(0 <= fd < MAX_FILES && s.files[fd].inUse) then s' == s && r.result == -1
         else OnBytes(View(s), fd) && Written(View(s), View(s'), fd, data, r.result, k) && Stopped(View(s), View(s'), fd, data, r.result)
  {
    hide Good, Legal, Step, View, BytesOf, OnBytes, Writable, FdReady, Written, Stopped, FlatWrite;
    OpenOnBytes(s, fd);
    StepIsFlat(s, Write(fd, data));
    if InUse(s, fd) {
      SmallFile(s, fd);
      FlatWriteAnswers(View(s), fd, data, k);
    } else {
      NoFd(s, Write(fd, data));
    }
  }

  lemma SmallFile(s: Fs, fd: int)
    requires Good(s) && InUse(s, fd)
    ensures |BytesOf(View(s), s.files[fd].ino)| <= 12 * 4096 && View(s).fds[fd] == Some(Fd(s.files[fd].ino, s.files[fd].offset))
  {
    hide Good, View, Consistent, BytesOf;
    OpenOnBytes(s, fd);
    GoodFd(s, fd);
  }

  lemma FlatWriteAnswers(a: Flat, fd: int, data: Bytes, k: nat)
    requires OnBytes(a, fd) && |BytesOf(a, a.fds[fd].value.ino)| <= 12 * 4096
    ensures var (a', r) := FlatWrite(a, fd, data); Written(a, a', fd, data, r.result, k) && Stopped(a, a', fd, data, r.result)
  {
    hide BlocksFor, BlocksGot, Need, Room;
    var Fd(i, off) := a.fds[fd].value;
    var have := BlocksFor(|BytesOf(a, i)|);
    BlocksHold(|BytesOf(a, i)|);
    ShortMeansFull(|BytesOf(a, i)|, a.free, off, |data|);
  }

  lemma ShortMeansFull(size: nat, free: nat, off: nat, len: nat)
    requires off <= size <= 12 * 4096
    ensures var have := BlocksFor(size); var count := BlocksGot(have, free, Need(off, len));
      && have <= count && size <= BLOCK_SIZE * count && off <= BLOCK_SIZE * count
      && (Room(off, len, count) < len ==>
            (off + Room(off, len, count) == 12 * 4096 || (count == have + free && (off + Room(off, len, count)) % 4096 == 0)))
  {
  }

  // ---------------------------------------------------------------- names

  /** Entry `e` of a directory holds `name`. */
  predicate NameAt(dir: Bytes, e: nat, name: Bytes) {
    32 * (e + 1) <= |dir| && CString(dir[32 * e + 4..32 * (e + 1)]) == name
  }

  /** And no entry before it does. */
  predicate FirstNamed(dir: Bytes, e: nat, name: Bytes) {
    NameAt(dir, e, name) && forall k | 0 <= k < e :: !NameAt(dir, k, name)
  }

  lemma {:induction false} FindsFirst(dir: Bytes, name: Bytes, e: nat)
    requires forall k | 0 <= k < e :: !NameAt(dir, k, name)
    ensures var r := FlatFind(dir, name, e);
      if exists k: nat :: NameAt(dir, k, name) then exists k: nat :: FirstNamed(dir, k, name) && r == Word(dir, 32 * k) else r == -1
    decreases |dir| - DENTRY_BYTES * e
  {
    hide CString, Un32;
    if DENTRY_BYTES * (e + 1) <= |dir| {
      var s := dir[DENTRY_BYTES * e..DENTRY_BYTES * (e + 1)];
      assert s[4..] == dir[32 * e + 4..32 * (e + 1)];
      WordIs(s[..4]);
      if NameAt(dir, e, name) { assert FirstNamed(dir, e, name); } else { FindsFirst(dir, name, e + 1); }
    }
  }

  /** `name` is what stands behind the leading slashes of `path`. */
  predicate IsName(path: Bytes, name: Bytes) {
    && |name| <= |path| && path[|path| - |name|..] == name
    && (forall k | 0 <= k < |path| - |name| :: path[k] == '/' as int) && (name != [] ==> name[0] != '/' as int)
  }

  lemma {:induction false} PathNameIs(path: Bytes, name: Bytes)
    requires IsName(path, name)
    ensures PathName(path) == name
  {
    if path != [] && path[0] == SLASH {
      assert path[1..][|path| - 1 - |name|..] == name;
      PathNameIs(path[1..], name);
    } else {
      assert |name| == |path| && path[0..] == path;
    }
  }

  lemma {:induction false} ClosedIsFirst(fds: seq<Option<Fd>>, fd: nat)
    requires fd <= |fds| && forall k | 0 <= k < fd :: fds[k].Some?
    ensures var r := FirstClosed(fds, fd); fd <= r <= |fds| && (forall k | 0 <= k < r :: fds[k].Some?) && (r < |fds| ==> fds[r].None?)
    decreases |fds| - fd
  {
    if fd < |fds| && fds[fd].Some? { ClosedIsFirst(fds, fd + 1); }
  }

  /** What open does: the first entry with the name, the lowest descriptor that is closed, and offset 0. */
  ghost predicate Opened(a: Flat, a': Flat, name: Bytes, fd: int) {
    && 0 <= fd < |a.fds| && a.fds[fd].None? && (forall k | 0 <= k < fd :: a.fds[k].Some?)
    && exists e: nat :: FirstNamed(a.dir, e, name) && a' == a.(fds := a.fds[fd := Some(Fd(Word(a.dir, 32 * e), 0))])
  }

  /** open answers with a descriptor if the directory has the name and a descriptor is closed; otherwise with -1, and
      nothing changes. */
  lemma OpenAnswers(s: Fs, path: CStr, name: Bytes)
    requires Good(s) && IsName(path, name)
    ensures var (s', r) := Step(s, Open(path)); var a := View(s);
      && Good(s')
      && if name != [] && (exists e: nat :: NameAt(a.dir, e, name)) && (exists fd :: 0 <= fd < 16 && a.fds[fd].None?) then
           Opened(a, View(s'), name, r.result)
         else r.result == -1 && View(s') == a
  {
    hide Good, Step, View, NameAt, Word, CString, FlatFind, FirstClosed, Lookup;
    OthersAreLegal(s, Open(path));
    StepIsFlat(s, Open(path));
    PathNameIs(path, name);
    GoodIsConsistent(s);
    LookupFindsUsed(s.disk, name);
    DirView(s);
    LookupIs(s.disk, name);
    FindsFirst(View(s).dir, name, 0);
    ClosedIsFirst(View(s).fds, 0);
  }

  /** `i` is the lowest inode number that no file has. */
  ghost predicate LowestFree(files: map<InodeNo, Bytes>, i: InodeNo) {
    i !in files && 2 <= i && forall j: InodeNo | 2 <= j < i :: j in files
  }

  lemma {:induction false} FreeInoIs(files: map<InodeNo, Bytes>, i: nat)
    requires ROOT_INO < i <= MAX_INODES && forall j: InodeNo | 2 <= j < i :: j in files
    ensures var r := FreeIno(files, i);
      if exists j: InodeNo :: 2 <= j && j !in files then r < MAX_INODES && LowestFree(files, r) else r == MAX_INODES
    decreases MAX_INODES - i
  {
    if i < MAX_INODES && i in files { FreeInoIs(files, i + 1); }
  }

  /** What create does: an empty file with the lowest free number `i`, and an entry at the end of the directory, whose
      name field gets at most 27 characters of the name over zeros, or over the last entry's name if the directory's
      blocks are full. */
  ghost predicate Made(a: Flat, a': Flat, name: Bytes, i: InodeNo) {
    var n, full := |a.dir|, |a.dir| % 4096 == 0;
    && a'.files == a.files[i := []] && a'.fds == a.fds && a'.free == a.free - (if full then 1 else 0)
    && |a'.dir| == n + 32 && a'.dir[..n] == a.dir && Word(a'.dir, n) == i && a'.dir[n + 31] == 0
    && forall k | 0 <= k < 27 :: a'.dir[n + 4 + k] == if k < |name| then name[k] else if full && n >= 28 then a.dir[n - 28 + k] else 0
  }

  /** create answers 0 if the name is new, an inode number is free and the directory can take an entry; otherwise -1,
      and nothing changes. */
  lemma CreatAnswers(s: Fs, name: CStr)
    requires Good(s)
    ensures var (s', r) := Step(s, Creat(name)); var a := View(s);
      && Good(s')
      && if (forall e: nat :: !NameAt(a.dir, e, name)) && (exists j: InodeNo :: 2 <= j && j !in a.files)
            && (|a.dir| % 4096 == 0 ==> |a.dir| < 12 * 4096 && a.free > 0) then
           r.result == 0 && exists i: InodeNo :: LowestFree(a.files, i) && Made(a, View(s'), name, i)
         else r.result == -1 && View(s') == a
  {
    hide Good, Step, View, NameAt, Word, CString, FlatFind, LowestFree, Made, NameBelow, CopyName, EncodeDentry, FreeIno, FirstNamed;
    OthersAreLegal(s, Creat(name));
    StepIsFlat(s, Creat(name));
    FindsFirst(View(s).dir, name, 0);
    FreeInoIs(View(s).files, 2);
    var a := View(s);
    if FlatCreate(a, name).1.result == 0 {
      EntryMade(a, name, FreeIno(a.files));
    }
  }

  lemma EntryMade(a: Flat, name: CStr, i: InodeNo)
    requires |a.dir| % 4096 == 0 ==> a.free > 0
    ensures var dir' := a.dir + EncodeDentry(Dentry(i, CopyName(NameBelow(a.dir), name)));
      Made(a, Flat(a.files[i := []], dir', a.free - (if |a.dir| % 4096 == 0 then 1 else 0), a.fds), name, i)
  {
  }
}
