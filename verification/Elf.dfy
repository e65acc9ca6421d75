/** kernel/elf_loader.c in its own form: pages are allocated in the active directory and filled byte by
    byte from a file. */
module Elf {
  import opened Wrappers
  import opened SfsCodec
  import opened SfsSpec
  import opened SfsFlat
  import opened SfsCalls
  import opened PagingSpec
  import opened PagingVia
  import opened ElfPages
  import opened ElfSpec
  import SfsRuns
  import Sfs
  import Paging

  datatype Status = Ok | Error | Panic | Lost

  class Loader {
    const fs: Sfs.Sfs
    const paging: Paging.Paging
    /** The page directory in CR3. */
    const pd: FrameNo

    constructor (fs: Sfs.Sfs, paging: Paging.Paging, pd: FrameNo)
      ensures this.fs == fs && this.paging == paging && this.pd == pd
    {
      this.fs, this.paging, this.pd := fs, paging, pd;
    }

    ghost predicate Valid()
      reads paging`count
    {
      paging.Valid()
    }

    ghost function State(): Pool
      requires Valid()
      reads paging`count, paging.mem, paging.pageFrames
    {
      paging.State()
    }

    /** The file system is sound, and inode `ino` is in use if there is such an inode. */
    ghost predicate CanRead(ino: u32)
      reads fs.disk, fs.files
    {
      fs.Valid() && (1 <= ino < MAX_INODES ==> Used(fs.D(), ino))
    }

    /** What sfs_read_inode and sfs_read_file make of `ino`. */
    ghost function FileOf(ino: u32): Option<Bytes>
      requires CanRead(ino)
      reads fs.disk, fs.files
    {
      if 1 <= ino < MAX_INODES then
        SfsRuns.AllReadable(fs.State());
        Some(File(fs.D(), ino))
      else None
    }

    /** read_file_at. */
    method ReadFileAt(ino: u32, buf: array<Byte>, size: Count, offset: nat) returns (n: int)
      requires CanRead(ino) && size <= buf.Length
      modifies buf
      ensures CanRead(ino) && FileOf(ino) == old(FileOf(ino))
      ensures n < 0 <==> FileOf(ino).None?
      ensures n >= 0 ==> n <= size && buf[..n] == SfsRuns.Slice(FileOf(ino).value, offset, size) && buf[n..] == old(buf[n..])
    {
      hide SfsFlat.ReadFile, Content, Good, SfsSpec.ReadInode;
      var ok, x := fs.ReadInode(ino);
      if !ok { return -1; }
      SfsRuns.AllReadable(fs.State());
      ReadIsSlice(fs.D(), x, offset, size);
      n := fs.ReadFile(x, buf, size, offset);
    }

    /** The byte loops that write `data` to the page at `va`; false at a page fault. */
    method StoreBytes(va: nat, data: Bytes) returns (ok: bool)
      requires Valid() && va / PAGE_SIZE < LIMIT && va % PAGE_SIZE + |data| <= PAGE_SIZE
      modifies paging.mem
      ensures Valid()
      ensures ok <==> Store(old(State()), pd, va, data).Some?
      ensures State() == if ok then Store(old(State()), pd, va, data).value else old(State())
    {
      hide WithBytes, Reached;
      ghost var p := State();
      var vp := va / PAGE_SIZE;
      var f := paging.Translate(pd, vp / ENTRIES, vp % ENTRIES);
      if f.None? {
        var there := IsThere(vp);
        return there;
      }
      ghost var w := p.mem[f.value];
      var i := 0;
      NoBytes(w, va % PAGE_SIZE);
      assert data[..0] == [] && WithWords(p, f.value, w) == p;
      while i < |data|
        invariant i <= |data| && Valid()
        invariant State() == WithWords(p, f.value, WithBytes(w, va % PAGE_SIZE, data[..i]))
      {
        OneMoreByte(w, va % PAGE_SIZE, data[..i], data[i]);
        assert data[..i + 1] == data[..i] + [data[i]];
        paging.mem[f.value] := WithBytes(paging.mem[f.value], va % PAGE_SIZE + i, [data[i]]);
        i := i + 1;
      }
      assert data[..i] == data;
      return true;
    }

    /** Whether the processor finds page `vp` mapped at all. */
    method IsThere(vp: nat) returns (there: bool)
      requires Valid() && vp < LIMIT
      ensures there <==> MappedAt(State().mem, pd, vp)
    {
      var pde := paging.mem[pd][vp / ENTRIES];
      return Present(pde) && FrameOf(pde) < FRAMES && Present(paging.mem[FrameOf(pde)][vp % ENTRIES]);
    }

    /** A status and the state stand for an outcome. */
    ghost predicate Matches(r: Status, o: Outcome)
      requires Valid()
      reads paging`count, paging.mem, paging.pageFrames
    {
      match o
      case Done(p) => r == Ok && State() == p
      case Failed(p) => r == Error && State() == p
      case Panicked => r == Panic
      case Astray => r == Lost
    }

    /** One round of the first loop: a new page, and `n` bytes of the file in it. */
    method LoadChunk(ino: u32, va: nat, off: nat, n: nat) returns (r: Status)
      requires Valid() && CanRead(ino) && va / PAGE_SIZE < LIMIT && va % PAGE_SIZE + n <= PAGE_SIZE
      modifies paging`count, paging.mem
      ensures Valid() && CanRead(ino) && FileOf(ino) == old(FileOf(ino))
      ensures match AllocAt(old(State()), pd, va / PAGE_SIZE)
        case None => r == Panic
        case Some(p1) =>
          if FileOf(ino).None? then r == Error && State() == p1
          else
            match Store(p1, pd, va, ReadPadded(FileOf(ino).value, off, n))
            case None => r == Panic
            case Some(p2) => r == Ok && State() == p2
    {
      hide Sfs.Sfs.Valid, Good, Used, ReadPadded, Store, AllocPageVia, File;
      var mapped := paging.AllocPage(pd, va / PAGE_SIZE / ENTRIES, va / PAGE_SIZE % ENTRIES);
      if !mapped { return Panic; }
      var buf := new Byte[PAGE_SIZE](_ => 0);
      var got := ReadFileAt(ino, buf, n, off);
      if got < 0 { return Error; }
      PaddedBuffer(FileOf(ino).value, off, n, got, buf[..]);
      var stored := StoreBytes(va, buf[..n]);
      return if stored then Ok else Panic;
    }

    /** The first loop of load_segment. */
    method FileLoop(ino: u32, vaddr: nat, offset: nat, filesz: nat) returns (r: Status)
      requires Valid() && CanRead(ino)
      modifies paging`count, paging.mem
      ensures Valid() && CanRead(ino) && FileOf(ino) == old(FileOf(ino))
      ensures Matches(r, ElfSpec.FileLoop(old(State()), pd, FileOf(ino), vaddr, offset, filesz))
    {
      hide Sfs.Sfs.Valid, Used, ReadPadded, Store, AllocAt, File;
      ghost var file := FileOf(ino);
      ghost var all := ElfSpec.FileLoop(State(), pd, file, vaddr, offset, filesz);
      var va: nat, off: nat, remain: nat := vaddr, offset, filesz;
      while remain > 0
        invariant Valid() && CanRead(ino) && FileOf(ino) == file
        invariant all == ElfSpec.FileLoop(State(), pd, file, va, off, remain)
      {
        if va / PAGE_SIZE >= LIMIT { return Lost; }
        var n := PAGE_SIZE - va % PAGE_SIZE;
        if n > remain { n := remain; }
        r := LoadChunk(ino, va, off, n);
        if r != Ok { return; }
        va, off, remain := va + n, off + n, remain - n;
      }
      return Ok;
    }

    /** The test of the second loop: is the page mapped? */
    method ProbePage(vp: nat) returns (there: Option<bool>)
      requires Valid() && vp < LIMIT
      ensures there == Probe(State().mem, pd, vp)
    {
      var d := paging.Translate(pd, 0, pd);
      if d.None? { return None; }
      if !Present(paging.mem[d.value][vp / ENTRIES]) { return Some(false); }
      var t := paging.Translate(pd, SELF_MAP, vp / ENTRIES);
      if t.None? { return None; }
      return Some(Present(paging.mem[t.value][vp % ENTRIES]));
    }

    /** The second loop of load_segment. */
    method BssLoop(vaddr: nat, length: nat) returns (r: Status)
      requires Valid()
      modifies paging`count, paging.mem
      ensures Valid() && Matches(r, ElfSpec.BssLoop(old(State()), pd, vaddr, length))
    {
      hide Store, AllocPageVia, Probe;
      ghost var all := ElfSpec.BssLoop(State(), pd, vaddr, length);
      var va: nat, remain: nat := vaddr, length;
      while remain > 0
        invariant Valid() && all == ElfSpec.BssLoop(State(), pd, va, remain)
      {
        if va / PAGE_SIZE >= LIMIT { return Lost; }
        var there := ProbePage(va / PAGE_SIZE);
        if there.None? { return Panic; }
        if !there.value {
          var mapped := paging.AllocPage(pd, va / PAGE_SIZE / ENTRIES, va / PAGE_SIZE % ENTRIES);
          if !mapped { return Panic; }
        }
        var n := PAGE_SIZE - va % PAGE_SIZE;
        if n > remain { n := remain; }
        var stored := StoreBytes(va, Zeros(n));
        if !stored { return Panic; }
        va, remain := va + n, remain - n;
      }
      return Ok;
    }

    /** load_segment. */
    method LoadSegment(ino: u32, g: Segment) returns (r: Status)
      requires Valid() && CanRead(ino)
      modifies paging`count, paging.mem
      ensures Valid() && CanRead(ino) && FileOf(ino) == old(FileOf(ino))
      ensures Matches(r, ElfSpec.LoadSegment(old(State()), pd, FileOf(ino), g))
    {
      hide Sfs.Sfs.Valid, Used, File, ElfSpec.FileLoop, ElfSpec.BssLoop;
      r := FileLoop(ino, g.vaddr, g.offset, g.filesz);
      if r == Ok { r := BssLoop(g.vaddr + g.filesz, (g.memsz + 0x1_0000_0000 - g.filesz) % 0x1_0000_0000); }
    }

    /** The loop of elf_load_and_exec over the program headers. */
    method LoadAll(ino: u32, phoff: u32, phnum: nat) returns (r: Status)
      requires Valid() && CanRead(ino) && FileOf(ino).Some?
      modifies paging`count, paging.mem
      ensures Valid() && CanRead(ino) && FileOf(ino) == old(FileOf(ino))
      ensures Matches(r, ElfSpec.LoadAll(old(State()), pd, FileOf(ino).value, phoff, phnum))
    {
      hide Sfs.Sfs.Valid, Used, File, ElfSpec.LoadSegment, UnWords;
      ghost var file := FileOf(ino).value;
      ghost var all := ElfSpec.LoadAll(State(), pd, file, phoff, phnum);
      var i := 0;
      while i < phnum
        invariant i <= phnum && Valid() && CanRead(ino) && FileOf(ino) == Some(file)
        invariant all == ElfSpec.LoadAll(State(), pd, file, phoff, phnum, i)
      {
        var buf := new Byte[PHDR_BYTES](_ => 0);
        var n := ReadFileAt(ino, buf, PHDR_BYTES, (phoff + PHDR_BYTES * i) % 0x1_0000_0000);
        assert buf[..n] == SfsRuns.Slice(file, (phoff + PHDR_BYTES * i) % 0x1_0000_0000, PHDR_BYTES);
        if n < PHDR_BYTES { return Error; }
        assert buf[..n] == buf[..];
        var ws := UnWords(buf[..], 8);
        if IsLoad(ws) {
          r := LoadSegment(ino, SegmentOf(ws));
          if r != Ok { return; }
        }
        i := i + 1;
      }
      return Ok;
    }

    /** setup_user_stack. */
    method SetupStack() returns (ok: bool)
      requires Valid()
      modifies paging`count, paging.mem
      ensures Valid()
      ensures ok <==> StackLoop(old(State()), pd).Some?
      ensures ok ==> State() == StackLoop(old(State()), pd).value
    {
      hide AllocPageVia;
      ghost var all := StackLoop(State(), pd);
      var i := 0;
      while i < STACK_PAGES
        invariant i <= STACK_PAGES && Valid() && all == StackLoop(State(), pd, i)
      {
        var vp := STACK_TOP / PAGE_SIZE - (i + 1);
        ok := paging.AllocPage(pd, vp / ENTRIES, vp % ENTRIES);
        if !ok { return; }
        i := i + 1;
      }
      return true;
    }

    /** elf_load_and_exec once the file is found; if it succeeds, the program goes on at `entry` with its stack
        below `stack`. */
    method LoadAndExec(ino: u32) returns (r: Status, entry: u32, stack: u32)
      requires Valid() && CanRead(ino) && FileOf(ino).Some?
      modifies paging`count, paging.mem
      ensures Valid() && CanRead(ino) && FileOf(ino) == old(FileOf(ino))
      ensures Matches(r, ElfSpec.Exec(old(State()), pd, FileOf(ino).value))
      ensures r == Ok ==> |FileOf(ino).value| >= EHDR_BYTES && entry == EhdrOf(FileOf(ino).value[..EHDR_BYTES]).entry && stack == STACK_TOP
    {
      hide Sfs.Sfs.Valid, Used, File, ElfSpec.LoadAll, UnWords, EhdrOf, Checked, StackLoop;
      entry, stack := 0, 0;
      var buf := new Byte[EHDR_BYTES](_ => 0);
      var n := ReadFileAt(ino, buf, EHDR_BYTES, 0);
      if n < EHDR_BYTES { return Error, 0, 0; }
      assert buf[..n] == buf[..];
      var h := EhdrOf(buf[..]);
      if !Checked(h) { return Error, 0, 0; }
      r := LoadAll(ino, h.phoff, h.phnum);
      if r != Ok { return; }
      var ok := SetupStack();
      if !ok { return Panic, 0, 0; }
      entry, stack := h.entry, STACK_TOP;
    }
  }

  lemma NoBytes(w: Words, at: nat)
    requires at < PAGE_SIZE
    ensures WithBytes(w, at, []) == w
  {
    hide LeWords, UnWords;
    UnWordsLeWords(w);
    assert Splice(FrameBytes(w), at, []) == FrameBytes(w);
  }

  lemma OneMoreByte(w: Words, at: nat, data: Bytes, b: Byte)
    requires at + |data| < PAGE_SIZE
    ensures WithBytes(WithBytes(w, at, data), at + |data|, [b]) == WithBytes(w, at, data + [b])
  {
    hide LeWords, UnWords;
    BytesAre(w, at, data);
    assert Splice(Splice(FrameBytes(w), at, data), at + |data|, [b]) == Splice(FrameBytes(w), at, data + [b]);
  }

  lemma PaddedBuffer(file: Bytes, off: nat, n: nat, got: nat, buf: Bytes)
    requires got <= n <= |buf| && buf[..got] == SfsRuns.Slice(file, off, n) && forall k | got <= k < n :: buf[k] == 0
    ensures buf[..n] == ReadPadded(file, off, n)
  {
    var data := SfsRuns.Slice(file, off, n);
    assert buf[..n] == buf[..got] + buf[got..n];
  }
}
