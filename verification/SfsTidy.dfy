/** What formatted disks keep beyond consistency: each inode has as many blocks as its size needs, and
    the live entries of the root directory are its first ones, one for each 32 bytes of its size. */
module SfsTidy {
  import opened SfsCodec
  import opened SfsSpec
  import opened SfsWrite
  import opened SfsFlat
  import opened SfsDir
  import opened SfsCreate
  import opened SfsFormat
  import opened SfsDirWrite

  /** The live entries come first, as many as the size says. */
  predicate Packed(d: Disk) {
    var x := Root(d);
    && DirReady(x) && x.size % DENTRY_BYTES == 0
    && forall e: nat | e < Total(x) :: Entry(d, x, e).ino != 0 <==> DENTRY_BYTES * e < x.size
  }

  predicate Tidy(d: Disk) {
    && Packed(d)
    && forall i: InodeNo | Used(d, i) :: ReadInode(d, i).blockCount == BlocksFor(ReadInode(d, i).size)
  }

  lemma BlocksHold(n: nat)
    ensures n <= BLOCK_SIZE * BlocksFor(n)
  {
  }

  lemma TidyIsReadable(d: Disk, i: InodeNo)
    requires Consistent(d) && Tidy(d) && Used(d, i)
    ensures Readable(ReadInode(d, i)) && InodeSound(ReadInode(d, i), i)
  {
    hide Packed;
    assert InodeSound(TableOf(d)[i], i);
    BlocksHold(ReadInode(d, i).size);
  }

  // ---------------------------------------------------------------- counting free blocks

  /** The clear bits below `n`. */
  function FreeBlocks(bm: Bytes, n: nat := DISK_BLOCKS): nat
    requires n <= 8 * |bm|
  {
    if n == 0 then 0 else FreeBlocks(bm, n - 1) + if TestBit(bm, n - 1) then 0 else 1
  }

  function FreeOn(d: Disk): nat { FreeBlocks(d[BLOCK_BITMAP]) }

  lemma {:induction false} OneLess(bm: Bytes, b: nat, n: nat)
    requires b / 8 < |bm| && n <= 8 * |bm| && !TestBit(bm, b)
    ensures FreeBlocks(SetBit(bm, b), n) == FreeBlocks(bm, n) - if b < n then 1 else 0
  {
    if n > 0 {
      BitmapFacts(bm, b, n - 1);
      OneLess(bm, b, n - 1);
    }
  }

  lemma {:induction false} NoneFree(bm: Bytes, n: nat)
    requires n <= 8 * |bm|
    ensures FreeBlocks(bm, n) == 0 <==> forall k | 0 <= k < n :: TestBit(bm, k)
  {
    if n > 0 {
      NoneFree(bm, n - 1);
      if FreeBlocks(bm, n) == 0 {
        assert TestBit(bm, n - 1);
      }
    }
  }

  predicate MetaTaken(d: Disk) { forall b: BlockNo | b < DATA_START :: Taken(d, b) }

  /** sfs_alloc_block succeeds exactly if a block is free, and takes one. */
  lemma AllocTakesOne(d: Disk)
    requires MetaTaken(d)
    ensures AllocBlock(d).Some? <==> FreeOn(d) > 0
    ensures AllocBlock(d).Some? ==> FreeOn(AllocBlock(d).value.1) == FreeOn(d) - 1 && MetaTaken(AllocBlock(d).value.1)
  {
    hide TestBit, FreeBlocks;
    var bm := d[BLOCK_BITMAP];
    var b := FirstZero(bm, DISK_BLOCKS);
    NoneFree(bm, DISK_BLOCKS);
    forall c: BlockNo | c < DATA_START ensures TestBit(bm, c) { assert Taken(d, c); }
    if b < DISK_BLOCKS {
      OneLess(bm, b, DISK_BLOCKS);
      forall c: BlockNo | c < DATA_START ensures TestBit(SetBit(bm, b), c) {
        BitmapFacts(bm, b, c);
      }
    }
  }

  /** How many blocks a file of `have` blocks ends up with when a write needs `need`. */
  function BlocksGot(have: nat, free: nat, need: nat): nat {
    if need <= have then have else if need <= have + free then need else have + free
  }

  lemma {:induction false} PlanCounts(w: Writing, need: nat)
    requires w.Ready() && need <= DIRECT_BLOCKS && MetaTaken(w.disk)
    ensures var plan, have := LaidOut(w, need), w.inode.blockCount;
      && plan.inode.blockCount == BlocksGot(have, FreeOn(w.disk), need)
      && FreeOn(plan.disk) == FreeOn(w.disk) - (plan.inode.blockCount - have)
    decreases DIRECT_BLOCKS - w.inode.blockCount
  {
    hide AllocBlock, FreeOn, MetaTaken;
    AllocTakesOne(w.disk);
    if need > w.inode.blockCount && Grow(w).Some? { PlanCounts(Grow(w).value, need); }
  }

  lemma ConsistentTakesMeta(d: Disk)
    requires Consistent(d)
    ensures MetaTaken(d)
  {
  }

  // ---------------------------------------------------------------- writing

  /** The size and the blocks of a file still match after a write. */
  lemma CountFits(size: nat, have: nat, free: nat, off: nat, len: nat)
    requires have == BlocksFor(size) <= DIRECT_BLOCKS && off <= size
    ensures var count := BlocksGot(have, free, Need(off, len));
      && off <= BLOCK_SIZE * count
      && var end := off + Room(off, len, count);
      count == BlocksFor(if end > size then end else size)
  {
  }

  /** What a write does to the size and blocks of its inode and to the number of free blocks. */
  lemma CountsAfterWrite(d: Disk, i: InodeNo, data: Bytes, off: nat)
    requires Writable(d, i, off) && Tidy(d)
    ensures var (d', n) := WriteFile(d, i, data, off);
      var have, x' := ReadInode(d, i).blockCount, ReadInode(d', i);
      && x'.blockCount == BlocksGot(have, FreeOn(d), Need(off, |data|)) == BlocksFor(x'.size)
      && off <= BLOCK_SIZE * x'.blockCount && n == Room(off, |data|, x'.blockCount)
      && FreeOn(d') == FreeOn(d) - (x'.blockCount - have)
  {
    hide Consistent, WriteFile, LaidOut, Need, Room, FreeBlocks, BlocksGot, Packed, BlocksFor, MetaTaken;
    var x := ReadInode(d, i);
    WriteOutcome(d, i, data, off);
    ConsistentTakesMeta(d);
    PlanCounts(Writing(d, x), Need(off, |data|));
    CountFits(x.size, x.blockCount, FreeOn(d), off, |data|);
  }

  lemma TidyCounts(d: Disk, i: InodeNo, data: Bytes, off: nat)
    requires Writable(d, i, off) && Tidy(d)
    ensures var d' := WriteFile(d, i, data, off).0;
      forall j: InodeNo | Used(d', j) :: ReadInode(d', j).blockCount == BlocksFor(ReadInode(d', j).size)
  {
    hide Consistent, WriteFile, Planned, Room, FreeBlocks, BlocksGot, Packed, BlocksFor, Need;
    WriteOutcome(d, i, data, off);
    CountsAfterWrite(d, i, data, off);
  }

  /** A write to a file keeps the disk tidy. */
  lemma WriteKeepsTidy(d: Disk, i: InodeNo, data: Bytes, off: nat)
    requires Writable(d, i, off) && Tidy(d) && i != ROOT_INO
    ensures Tidy(WriteFile(d, i, data, off).0)
  {
    hide Consistent, WriteFile, Planned, Room;
    var d', x := WriteFile(d, i, data, off).0, Root(d);
    TidyCounts(d, i, data, off);
    WriteOutcome(d, i, data, off);
    RootInUse(d);
    forall e: nat | e < Total(x) ensures Entry(d', x, e) == Entry(d, x, e) {
      WriteLeavesOthers(d, i, data, off, ROOT_INO, e / DENTRIES_PER_BLOCK);
    }
  }

  /** Decided before a write to the root directory: afterwards its live entries are sound and still
      the first ones, as many as its size says. */
  predicate Orderly(d: Disk, data: Bytes, off: nat)
    requires Reachable(d, off)
  {
    var end := off + Written(d, data, off);
    var size := if end > Root(d).size then end else Root(d).size;
    && size % DENTRY_BYTES == 0
    && forall e: nat | e < Total(PlannedRoot(d, data, off)) ::
      var entry := EntryAfter(d, data, off, e);
      DentrySound(d, entry) && (entry.ino != 0 <==> DENTRY_BYTES * e < size)
  }

  lemma OrderlySize(d: Disk, data: Bytes, off: nat)
    requires Consistent(d) && Reachable(d, off)
    ensures var end := off + Written(d, data, off);
      Root(WriteFile(d, ROOT_INO, data, off).0).size == if end > Root(d).size then end else Root(d).size
  {
    hide Consistent, WriteFile, LaidOut, Need, Room;
    CanWriteRoot(d, off);
    WriteOutcome(d, ROOT_INO, data, off);
  }

  /** A write to the root directory keeps the disk consistent and tidy exactly if it is orderly. */
  lemma DirectoryWriteKeepsTidyIff(d: Disk, data: Bytes, off: nat)
    requires Consistent(d) && Tidy(d) && Reachable(d, off)
    ensures var d' := WriteFile(d, ROOT_INO, data, off).0;
      Consistent(d') && Tidy(d') <==> Orderly(d, data, off)
  {
    hide Consistent, WriteFile, PlannedRoot, Entry, EntryAfter, DentrySound, Written, FreeBlocks, Touched;
    var d' := WriteFile(d, ROOT_INO, data, off).0;
    CanWriteRoot(d, off);
    OrderlySize(d, data, off);
    TidyCounts(d, ROOT_INO, data, off);
    EntryIsAfter(d, data, off, 0);
    forall e: nat | e < Total(PlannedRoot(d, data, off))
      ensures Entry(d', Root(d'), e) == EntryAfter(d, data, off, e)
      ensures Consistent(d') ==> DentrySound(d, EntryAfter(d, data, off, e))
    {
      EntryIsAfter(d, data, off, e);
      if Consistent(d') { AfterIsSound(d, data, off, e); }
    }
    DirectoryWriteKeepsConsistentIff(d, data, off);
  }

  lemma AfterIsSound(d: Disk, data: Bytes, off: nat, e: nat)
    requires Consistent(d) && Reachable(d, off) && e < Total(PlannedRoot(d, data, off))
    requires Consistent(WriteFile(d, ROOT_INO, data, off).0)
    ensures DentrySound(d, EntryAfter(d, data, off, e))
  {
    hide Consistent, WriteFile, PlannedRoot, Entry, EntryAfter, DentrySound;
    var d' := WriteFile(d, ROOT_INO, data, off).0;
    CanWriteRoot(d, off);
    WriteOutcome(d, ROOT_INO, data, off);
    EntryIsAfter(d, data, off, e);
    ConsistentIsReady(d');
    EntryIsSound(d', e);
    SoundOnSameUsed(d', d, EntryAfter(d, data, off, e));
  }

  // ---------------------------------------------------------------- creating

  /** In a tidy directory the next entry goes where its bytes end. */
  lemma TidySlot(d: Disk)
    requires Consistent(d) && Tidy(d)
    ensures RootReady(d) && DENTRY_BYTES * Slot(d) == Root(d).size <= BLOCK_SIZE * Root(d).blockCount
  {
    hide Consistent, Entry;
    ConsistentIsReady(d);
    RootInUse(d);
    var s, n := Slot(d), Root(d).size / DENTRY_BYTES;
    BlocksHold(Root(d).size);
    SlotIsFree(d);
    if n < Total(Root(d)) { FirstUnused(d, n); }
  }

  lemma FirstUnused(d: Disk, n: nat)
    requires Packed(d) && DENTRY_BYTES * n == Root(d).size && n < Total(Root(d))
    ensures Entry(d, Root(d), n).ino == 0
  {
  }

  /** A creation keeps the disk tidy, successful or not. */
  lemma CreateKeepsTidy(d: Disk, name: Bytes)
    requires Consistent(d) && Tidy(d)
    ensures RootReady(d) && Tidy(Create(d, name).0)
  {
    hide Consistent, Create, CanCreate, Entry, Packed;
    ConsistentIsReady(d);
    CreateSucceedsIff(d, name);
    if CanCreate(d, name) {
      CreatedIsPacked(d, name);
      CreatedCounts(d, name);
    } else {
      FailedIsTidy(d, name);
    }
  }

  lemma CreatedIsPacked(d: Disk, name: Bytes)
    requires Consistent(d) && Tidy(d) && RootReady(d) && CanCreate(d, name)
    ensures Packed(Create(d, name).0)
  {
    hide Consistent, Create, CanCreate, Entry, Tidy, ReadInode, Slot;
    TidySlot(d);
    RootAfterCreate(d, name);
    SizeAfterCreate(d, name);
    var d' := Create(d, name).0;
    forall e: nat | e < Total(Root(d')) ensures Entry(d', Root(d'), e).ino != 0 <==> DENTRY_BYTES * e < Root(d').size {
      CreatedIsLive(d, name, e);
    }
  }

  lemma SizeAfterCreate(d: Disk, name: Bytes)
    requires Consistent(d) && Tidy(d) && RootReady(d) && CanCreate(d, name)
    ensures Root(Create(d, name).0).size == Root(d).size + DENTRY_BYTES == DENTRY_BYTES * (Slot(d) + 1)
  {
    hide Consistent, Create, CanCreate, Tidy, ReadInode, Slot;
    TidySlot(d);
    RootAfterCreate(d, name);
  }

  lemma CreatedIsLive(d: Disk, name: Bytes, e: nat)
    requires Consistent(d) && Tidy(d) && RootReady(d) && CanCreate(d, name)
    requires RootReady(Create(d, name).0) && e < Total(Root(Create(d, name).0))
    ensures var d' := Create(d, name).0; Entry(d', Root(d'), e).ino != 0 <==> e <= Slot(d)
  {
    hide Consistent, Create, CanCreate, Entry, DentryAt, OldName, Slot, CopyName, ReadInode;
    TidySlot(d);
    RootAfterCreate(d, name);
    EntriesAfterCreate(d, name, e);
    ZeroEntry(e % DENTRIES_PER_BLOCK);
  }

  lemma CreatedCounts(d: Disk, name: Bytes)
    requires Consistent(d) && Tidy(d) && RootReady(d) && CanCreate(d, name)
    ensures var d' := Create(d, name).0;
      forall j: InodeNo | Used(d', j) :: ReadInode(d', j).blockCount == BlocksFor(ReadInode(d', j).size)
  {
    hide Consistent, Create, CanCreate, Entry, Slot, Packed, ReadInode, Used;
    var (d', i) := Create(d, name);
    CreateSucceedsIff(d, name);
    TidySlot(d);
    RootAfterCreate(d, name);
    RootCount(d);
    forall j: InodeNo | Used(d', j) ensures ReadInode(d', j).blockCount == BlocksFor(ReadInode(d', j).size) {
      CreateAddsEmptyFile(d, name, j);
      if j != ROOT_INO {
        if j == i { NewCount(d, name); } else { FilesAreReadable(d, j); }
      }
    }
  }

  lemma RootCount(d: Disk)
    requires Consistent(d) && Tidy(d)
    ensures Root(d).blockCount == BlocksFor(Root(d).size)
  {
    hide Packed;
    RootInUse(d);
  }

  lemma NewCount(d: Disk, name: Bytes)
    requires Consistent(d) && RootReady(d) && CanCreate(d, name)
    ensures var (d', i) := Create(d, name); ROOT_INO < i < MAX_INODES && ReadInode(d', i) == NewInode(i)
  {
    hide Consistent, Create, CanCreate, WithNew, Stored, ReadInode;
    CreateCases(d, name);
    var i: InodeNo := AllocInode(d).value.0;
    NewInodeFacts(d, i);
    NewInodeKeepsSound(d, i);
    StoredIsConsistent(WithNew(d, i), i, name);
    TableIsRead(WithNew(d, i), TableOf(d)[i := NewInode(i)]);
  }

  lemma FailedIsTidy(d: Disk, name: Bytes)
    requires Consistent(d) && Tidy(d) && RootReady(d) && !CanCreate(d, name)
    ensures Tidy(Create(d, name).0)
  {
    hide Consistent, Create, CanCreate;
    var d' := Create(d, name).0;
    CreateSucceedsIff(d, name);
    FailedCreateRestores(d, name);
    RootInUse(d);
    ConsistentIsReady(d');
    DirSame(d, d');
  }

  lemma FormatIsTidy(d: Disk)
    ensures Tidy(Format(d))
  {
    hide Format, Consistent, DotEntry, DentryAt, RootBlock;
    var f := Format(d);
    FormatBlocks(d);
    FormatIsConsistent(d);
    ConsistentIsReady(f);
    forall e: nat | e < Total(Root(f)) ensures Entry(f, Root(f), e).ino != 0 <==> DENTRY_BYTES * e < Root(f).size {
      FormatEntry(e);
      ZeroEntry(e);
      DotsLive();
    }
  }

  lemma DotsLive()
    ensures DotEntry(1).ino == ROOT_INO && DotEntry(2).ino == ROOT_INO
  {
  }

  // ---------------------------------------------------------------- the bytes of the directory

  /** The root directory as a file: its bytes are its entries, encoded. */
  lemma DirectoryByte(d: Disk, e: nat, k: nat)
    requires Readable(Root(d)) && e < Total(Root(d)) && k < DENTRY_BYTES
    ensures (DENTRY_BYTES * e + k) / BLOCK_SIZE < Root(d).blockCount
    ensures RawAt(d, Root(d), DENTRY_BYTES * e + k) == EncodeDentry(Entry(d, Root(d), e))[k]
  {
    hide EncodeDentry, DecodeDentry, ReadInode;
    InEntry(e, k);
    var b, n := d[Root(d).blocks[e / DENTRIES_PER_BLOCK]], e % DENTRIES_PER_BLOCK;
    DentryBytes(b[n * DENTRY_BYTES..(n + 1) * DENTRY_BYTES]);
  }

  lemma DirectoryEntry(d: Disk, e: nat)
    requires Readable(Root(d)) && DENTRY_BYTES * (e + 1) <= Root(d).size
    ensures e < Total(Root(d))
    ensures DecodeDentry(File(d, ROOT_INO)[DENTRY_BYTES * e..DENTRY_BYTES * (e + 1)]) == Entry(d, Root(d), e)
  {
    hide EncodeDentry, DecodeDentry, ReadInode, Entry;
    var s := File(d, ROOT_INO)[DENTRY_BYTES * e..DENTRY_BYTES * (e + 1)];
    var entry := Entry(d, Root(d), e);
    forall k: nat | k < DENTRY_BYTES ensures s[k] == EncodeDentry(entry)[k] { DirectoryByte(d, e, k); }
    assert s == EncodeDentry(entry);
    DentryRoundTrip(entry);
  }

  /** The name bytes under a new name: those of the last entry if the directory's blocks are full, and
      zeros otherwise. */
  function NameBelow(dir: Bytes): (s: Bytes)
    ensures |s| == MAX_FILENAME
  {
    if |dir| % BLOCK_SIZE == 0 && |dir| >= MAX_FILENAME then dir[|dir| - MAX_FILENAME..] else seq(MAX_FILENAME, _ => 0)
  }

  lemma OldNameIs(d: Disk)
    requires Consistent(d) && Tidy(d)
    ensures RootReady(d) && Readable(Root(d)) && OldName(d) == NameBelow(File(d, ROOT_INO))
    ensures Slot(d) < Total(Root(d)) <==> |File(d, ROOT_INO)| % BLOCK_SIZE != 0
  {
    hide Consistent, Packed, Entry, EncodeDentry, Slot, File;
    TidySlot(d);
    RootInUse(d);
    TidyIsReadable(d, ROOT_INO);
    RootCount(d);
    var x, dir := Root(d), File(d, ROOT_INO);
    if Slot(d) < Total(x) {
      SlotIsFree(d);
      EntryIsSound(d, Slot(d));
      assert OldName(d) == NameBelow(dir);
    } else {
      LastEntryName(d);
    }
  }

  lemma LastEntryName(d: Disk)
    requires Readable(Root(d)) && Root(d).size == BLOCK_SIZE * Root(d).blockCount && Root(d).blockCount >= 1
    ensures Entry(d, Root(d), Total(Root(d)) - 1).name == NameBelow(File(d, ROOT_INO))
  {
    hide Entry, ReadInode, DecodeDentry, NameBelow;
    var e: nat := Total(Root(d)) - 1;
    DirectoryEntry(d, e);
    LastName(File(d, ROOT_INO), e);
  }

  lemma LastName(dir: Bytes, e: nat)
    requires |dir| == DENTRY_BYTES * (e + 1) && |dir| % BLOCK_SIZE == 0
    ensures DecodeDentry(dir[DENTRY_BYTES * e..DENTRY_BYTES * (e + 1)]).name == NameBelow(dir)
  {
    hide Un32;
    assert dir[DENTRY_BYTES * e..DENTRY_BYTES * (e + 1)][4..] == dir[|dir| - MAX_FILENAME..];
  }

  /** A creation appends one entry to the bytes of the directory. */
  lemma DirectoryAfterCreate(d: Disk, name: Bytes)
    requires Consistent(d) && Tidy(d) && RootReady(d) && CanCreate(d, name)
    requires Readable(Root(d)) && Readable(Root(Create(d, name).0)) && 0 <= Create(d, name).1 < MAX_INODES
    ensures var (d', i) := Create(d, name);
      File(d', ROOT_INO) == File(d, ROOT_INO) + EncodeDentry(Dentry(i, CopyName(NameBelow(File(d, ROOT_INO)), name)))
  {
    hide Consistent, Tidy, Create, CanCreate, Entry, EncodeDentry, CopyName, NameBelow, OldName, Slot, RawAt, ReadInode;
    var (d', i) := Create(d, name);
    CreateKeepsConsistent(d, name);
    CreateKeepsTidy(d, name);
    RootAfterCreate(d, name);
    TidySlot(d);
    OldNameIs(d);
    OldNameIs(d');
    SizeAfterCreate(d, name);
    var dir := File(d, ROOT_INO) + EncodeDentry(Dentry(i, CopyName(OldName(d), name)));
    forall p: nat | p < |dir| ensures File(d', ROOT_INO)[p] == dir[p] { DirectoryByteCreated(d, name, p); }
  }

  lemma DirectoryByteCreated(d: Disk, name: Bytes, p: nat)
    requires Consistent(d) && RootReady(d) && CanCreate(d, name) && DENTRY_BYTES * Slot(d) == Root(d).size
    requires Readable(Root(d)) && Readable(Root(Create(d, name).0)) && p < Root(Create(d, name).0).size == Root(d).size + DENTRY_BYTES
    ensures var (d', i) := Create(d, name);
      && 0 <= i < MAX_INODES
      && File(d', ROOT_INO)[p] ==
           if p < Root(d).size then File(d, ROOT_INO)[p]
           else EncodeDentry(Dentry(i, CopyName(OldName(d), name)))[p - Root(d).size]
  {
    hide Consistent, Create, CanCreate, Entry, EncodeDentry, CopyName, OldName, Slot, ReadInode, DentryAt;
    var d' := Create(d, name).0;
    var e, k := p / DENTRY_BYTES, p % DENTRY_BYTES;
    RootAfterCreate(d, name);
    DirectoryByte(d', e, k);
    EntriesAfterCreate(d, name, e);
    if p < Root(d).size { DirectoryByte(d, e, k); }
  }
}
