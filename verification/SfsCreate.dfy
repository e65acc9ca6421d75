/** What sfs_create keeps and does: consistency, all other files, and what lookups find afterwards. */
module SfsCreate {
  import opened SfsCodec
  import opened SfsSpec
  import opened SfsWrite
  import opened SfsFlat
  import opened SfsDir

  function Root(d: Disk): (x: Inode)
    ensures x.Shaped()
  {
    ReadInode(d, ROOT_INO)
  }

  /** The place of the next entry; behind the last entry if the directory is full. */
  function Slot(d: Disk): (e: nat)
    requires RootReady(d)
    ensures e <= Total(Root(d))
  {
    FreeEntry(d, Root(d))
  }

  /** The name bytes over which the new name is copied: those of the unused entry, or those of the
      last entry if the directory has to grow. */
  function OldName(d: Disk): (s: Bytes)
    requires RootReady(d)
    ensures |s| == MAX_FILENAME
  {
    Entry(d, Root(d), if Slot(d) < Total(Root(d)) then Slot(d) else Total(Root(d)) - 1).name
  }

  /** The name under which the new file can be found. */
  function StoredName(d: Disk, name: Bytes): Bytes
    requires RootReady(d)
  {
    CString(CopyName(OldName(d), name))
  }

  predicate HasRoom(d: Disk)
    requires RootReady(d)
  {
    Slot(d) < Total(Root(d)) || (Root(d).blockCount < DIRECT_BLOCKS && AllocBlock(d).Some?)
  }

  // ---------------------------------------------------------------- the root directory

  lemma RootOwnsItsBlocks(d: Disk, k: nat)
    requires Consistent(d) && k < Root(d).blockCount
    ensures RootReady(d) && Owns(d, TableOf(d), ROOT_INO, k, Root(d).blocks[k]) && DATA_START <= Root(d).blocks[k] < DISK_BLOCKS
  {
    ConsistentIsReady(d);
    assert InodeSound(TableOf(d)[ROOT_INO], ROOT_INO);
  }

  lemma RootBlocksDiffer(d: Disk, k: nat, l: nat)
    requires Consistent(d) && k < Root(d).blockCount && l < Root(d).blockCount && Root(d).blocks[k] == Root(d).blocks[l]
    ensures k == l
  {
    RootOwnsItsBlocks(d, k);
    RootOwnsItsBlocks(d, l);
  }

  lemma EntryIsSound(d: Disk, e: nat)
    requires Consistent(d) && RootReady(d) && e < Total(Root(d))
    ensures DentrySound(d, Entry(d, Root(d), e))
  {
    RootOwnsItsBlocks(d, e / DENTRIES_PER_BLOCK);
    assert TableOf(d)[ROOT_INO] == Root(d);
    assert DentrySound(d, DentryAt(d[Root(d).blocks[e / DENTRIES_PER_BLOCK]], e % DENTRIES_PER_BLOCK));
  }

  lemma DirSame(d: Disk, d': Disk)
    requires Consistent(d) && Root(d') == Root(d) && TestBit(d'[INODE_BITMAP], 0)
    requires forall b: BlockNo | b >= DATA_START :: d'[b] == d[b]
    ensures RootReady(d) && RootReady(d') && Slot(d') == Slot(d)
    ensures forall e: nat | e < Total(Root(d)) :: Entry(d', Root(d), e) == Entry(d, Root(d), e)
  {
    ConsistentIsReady(d);
    var x := Root(d);
    forall e: nat | e < Total(x) ensures Entry(d', x, e) == Entry(d, x, e) {
      RootOwnsItsBlocks(d, e / DENTRIES_PER_BLOCK);
    }
  }

  // ---------------------------------------------------------------- adding the entry

  /** The parent's inode and blocks before its size is updated. */
  predicate Adds(d: Disk, i: InodeNo, name: Bytes) {
    && RootReady(d) && AddEntry(d, Root(d), i, name).Some? && DirReady(AddEntry(d, Root(d), i, name).value.inode)
  }

  function Added(d: Disk, i: InodeNo, name: Bytes): (w: Writing)
    requires Adds(d, i, name)
    ensures w.inode.Shaped() && DirReady(w.inode)
  {
    AddEntry(d, Root(d), i, name).value
  }

  lemma AddsIffRoom(d: Disk, i: InodeNo, name: Bytes)
    requires Consistent(d)
    ensures RootReady(d) && (Adds(d, i, name) <==> HasRoom(d)) && (HasRoom(d) <==> AddEntry(d, Root(d), i, name).Some?)
  {
    ConsistentIsReady(d);
  }

  lemma AddedInPlace(d: Disk, i: InodeNo, name: Bytes, e: nat)
    requires Consistent(d) && Adds(d, i, name) && Slot(d) < Total(Root(d)) && e < Total(Root(d))
    ensures var w := Added(d, i, name);
      && w.inode.blockCount == Root(d).blockCount && w.inode.blocks == Root(d).blocks
      && Entry(w.disk, w.inode, e) == if e == Slot(d) then Dentry(i, CopyName(OldName(d), name)) else Entry(d, Root(d), e)
  {
    var s := Slot(d);
    var entry := Dentry(i, CopyName(OldName(d), name));
    var k, l := e / DENTRIES_PER_BLOCK, s / DENTRIES_PER_BLOCK;
    var b := Root(d).blocks[l];
    EntriesAreSeparate(d[b], s % DENTRIES_PER_BLOCK, entry, e % DENTRIES_PER_BLOCK);
    if Root(d).blocks[k] == b { RootBlocksDiffer(d, k, l); }
  }

  /** How the directory grows: one new block, zero but for its first entry. */
  lemma GrownDir(d: Disk, i: InodeNo, name: Bytes)
    requires Consistent(d) && Adds(d, i, name) && Slot(d) == Total(Root(d))
    ensures AllocBlock(d).Some? && Root(d).blockCount < DIRECT_BLOCKS
    ensures var w, x, b := Added(d, i, name), Root(d), AllocBlock(d).value.0;
      && b >= DATA_START && !HasOwner(d, TableOf(d), b)
      && w.inode.blockCount == x.blockCount + 1 && w.inode.blocks == x.blocks[x.blockCount := b]
      && w.disk[b] == PutEntry(ZeroBlock(), 0, Dentry(i, CopyName(OldName(d), name)))
      && forall c: BlockNo | c != b && c != BLOCK_BITMAP :: w.disk[c] == d[c]
  {
    FreshBlock(d, TableOf(d));
  }

  lemma AddedByGrowth(d: Disk, i: InodeNo, name: Bytes, e: nat)
    requires Consistent(d) && Adds(d, i, name) && Slot(d) == Total(Root(d)) && e < Total(Added(d, i, name).inode)
    ensures Total(Added(d, i, name).inode) == Total(Root(d)) + DENTRIES_PER_BLOCK
    ensures var w := Added(d, i, name);
      Entry(w.disk, w.inode, e) ==
        if e == Slot(d) then Dentry(i, CopyName(OldName(d), name))
        else if e < Total(Root(d)) then Entry(d, Root(d), e)
        else DentryAt(ZeroBlock(), e % DENTRIES_PER_BLOCK)
  {
    hide Consistent, AddEntry, Added, AllocBlock, Slot, OldName, DentryAt, PutEntry;
    var x, w := Root(d), Added(d, i, name);
    var k, n := e / DENTRIES_PER_BLOCK, e % DENTRIES_PER_BLOCK;
    GrownDir(d, i, name);
    if e < Total(x) {
      RootOwnsItsBlocks(d, k);
    } else {
      assert k == x.blockCount && n == e - Total(x);
      EntriesAreSeparate(ZeroBlock(), 0, Dentry(i, CopyName(OldName(d), name)), n);
    }
  }

  /** Every entry of the directory after the new one went in. */
  lemma AddedEntries(d: Disk, i: InodeNo, name: Bytes, e: nat)
    requires Consistent(d) && Adds(d, i, name) && e < Total(Added(d, i, name).inode)
    ensures Total(Root(d)) <= Total(Added(d, i, name).inode) && Slot(d) < Total(Added(d, i, name).inode)
    ensures var w := Added(d, i, name);
      Entry(w.disk, w.inode, e) ==
        if e == Slot(d) then Dentry(i, CopyName(OldName(d), name))
        else if e < Total(Root(d)) then Entry(d, Root(d), e)
        else DentryAt(ZeroBlock(), e % DENTRIES_PER_BLOCK)
  {
    hide AddEntry, Consistent;
    if Slot(d) < Total(Root(d)) {
      InPlaceKeepsTotal(d, i, name);
      AddedInPlace(d, i, name, e);
    } else {
      AddedByGrowth(d, i, name, e);
    }
  }

  lemma InPlaceKeepsTotal(d: Disk, i: InodeNo, name: Bytes)
    requires Adds(d, i, name) && Slot(d) < Total(Root(d))
    ensures Total(Added(d, i, name).inode) == Total(Root(d))
  {
  }

  lemma AddedEntriesSound(d: Disk, i: InodeNo, name: Bytes, e: nat)
    requires Consistent(d) && Used(d, i) && Adds(d, i, name) && e < Total(Added(d, i, name).inode)
    ensures var w := Added(d, i, name); DentrySound(d, Entry(w.disk, w.inode, e))
  {
    hide Consistent, AddEntry, Added;
    AddedEntries(d, i, name, e);
    if e < Total(Root(d)) { EntryIsSound(d, e); }
    ZeroEntry(e % DENTRIES_PER_BLOCK);
  }

  // ---------------------------------------------------------------- consistency

  lemma LongerOwnership(d: Disk, t: Table)
    requires Ownership(d, t)
    ensures Ownership(d, t[ROOT_INO := Longer(t[ROOT_INO])])
  {
    var t' := t[ROOT_INO := Longer(t[ROOT_INO])];
    assert InodeSound(t[ROOT_INO], ROOT_INO);
    assert forall j: InodeNo, k: nat, b: int :: Owns(d, t', j, k, b) <==> Owns(d, t, j, k, b);
    forall b: BlockNo ensures Taken(d, b) <==> b < DATA_START || HasOwner(d, t', b) {
      assert HasOwner(d, t', b) <==> HasOwner(d, t, b);
    }
  }

  lemma InPlaceShape(d: Disk, i: InodeNo, name: Bytes)
    requires Consistent(d) && Adds(d, i, name) && Slot(d) < Total(Root(d))
    ensures var w := Added(d, i, name);
      w.inode == Longer(Root(d)) && forall b: BlockNo | b < DATA_START :: w.disk[b] == d[b]
  {
    RootOwnsItsBlocks(d, Slot(d) / DENTRIES_PER_BLOCK);
  }

  lemma GrownInode(d: Disk, i: InodeNo, name: Bytes)
    requires Consistent(d) && Adds(d, i, name) && Slot(d) == Total(Root(d))
    ensures AllocBlock(d).Some? && Root(d).blockCount < DIRECT_BLOCKS
    ensures var w, w1, b := Added(d, i, name), Grow(Writing(d, Root(d))).value, AllocBlock(d).value.0;
      && w.inode == Longer(w1.inode) && b >= DATA_START
      && forall c: BlockNo | c != b :: w.disk[c] == w1.disk[c]
  {
    FreshBlock(d, TableOf(d));
  }

  lemma AddedOwnership(d: Disk, i: InodeNo, name: Bytes)
    requires Consistent(d) && Adds(d, i, name)
    ensures var w := Added(d, i, name);
      && Ownership(w.disk, TableOf(d)[ROOT_INO := w.inode])
      && forall b: BlockNo | b < DATA_START && b != BLOCK_BITMAP :: w.disk[b] == d[b]
  {
    hide Added, OwnersDistinct, BitmapExact, AddEntry, Owns, Longer;
    var w, x, t := Added(d, i, name), Root(d), TableOf(d);
    ConsistentIsReady(d);
    assert t[ROOT_INO] == x;
    if Slot(d) < Total(x) {
      InPlaceShape(d, i, name);
      LongerOwnership(d, t);
      SameOwners(d, w.disk, t[ROOT_INO := w.inode]);
    } else {
      GrownInode(d, i, name);
      var w1 := Grow(Writing(d, x)).value;
      GrownOwnership(Writing(d, x), t, ROOT_INO);
      var t1 := t[ROOT_INO := w1.inode];
      LongerOwnership(w1.disk, t1);
      assert t1[ROOT_INO := w.inode] == t[ROOT_INO := w.inode];
      SameOwners(w1.disk, w.disk, t[ROOT_INO := w.inode]);
    }
  }

  lemma AddedKeepsSound(d: Disk, i: InodeNo, name: Bytes)
    requires Consistent(d) && Used(d, i) && Adds(d, i, name)
    ensures var w := Added(d, i, name); Sound(w.disk, TableOf(d)[ROOT_INO := w.inode])
  {
    hide Added, OwnersDistinct, BitmapExact, AddEntry, Owns, Consistent, DentrySound, InodesSound;
    var w := Added(d, i, name);
    var t := TableOf(d)[ROOT_INO := w.inode];
    AddedOwnership(d, i, name);
    forall k: nat, n: nat | k < t[ROOT_INO].blockCount && k < DIRECT_BLOCKS && n < DENTRIES_PER_BLOCK &&
        t[ROOT_INO].blocks[k] < DISK_BLOCKS
      ensures DentrySound(w.disk, DentryAt(w.disk[t[ROOT_INO].blocks[k]], n))
    {
      AddedRootEntry(d, i, name, k, n);
    }
    SoundParts(w.disk, t);
  }

  lemma AddedRootEntry(d: Disk, i: InodeNo, name: Bytes, k: nat, n: nat)
    requires Consistent(d) && Used(d, i) && Adds(d, i, name) && n < DENTRIES_PER_BLOCK
    requires Added(d, i, name).disk[INODE_BITMAP] == d[INODE_BITMAP] && k < Added(d, i, name).inode.blockCount
    ensures var w := Added(d, i, name); DentrySound(w.disk, DentryAt(w.disk[w.inode.blocks[k]], n))
  {
    hide Consistent, AddEntry, Added, DentryAt, Slot, OldName, DentrySound;
    var w, e := Added(d, i, name), DENTRIES_PER_BLOCK * k + n;
    AddedEntriesSound(d, i, name, e);
    SoundOnSameUsed(d, w.disk, Entry(w.disk, w.inode, e));
  }

  lemma SoundOnSameUsed(d: Disk, d': Disk, e: Dentry)
    requires d'[INODE_BITMAP] == d[INODE_BITMAP] && DentrySound(d, e)
    ensures DentrySound(d', e)
  {
  }

  /** The disk after a successful creation. */
  function Stored(d: Disk, i: InodeNo, name: Bytes): Disk
    requires Adds(d, i, name)
  {
    WithInode(Added(d, i, name).disk, ROOT_INO, Added(d, i, name).inode)
  }

  lemma StoredIsConsistent(d: Disk, i: InodeNo, name: Bytes)
    requires Consistent(d) && Used(d, i) && Adds(d, i, name)
    ensures var d', w := Stored(d, i, name), Added(d, i, name);
      && Consistent(d') && Root(d') == w.inode && (forall j: InodeNo | j != ROOT_INO :: ReadInode(d', j) == ReadInode(d, j))
      && (forall b: BlockNo | b < INODE_TABLE || b >= DATA_START :: d'[b] == w.disk[b])
      && d'[INODE_BITMAP] == d[INODE_BITMAP]
  {
    hide Added, Sound, AddEntry;
    var w := Added(d, i, name);
    var t := TableOf(d)[ROOT_INO := w.inode];
    AddedKeepsSound(d, i, name);
    AddedOwnership(d, i, name);
    forall j: InodeNo ensures ReadInode(w.disk, j) == ReadInode(d, j) { TableFits(j); }
    StoreKeepsSound(w.disk, t, ROOT_INO, w.inode);
    StoreTouchesTable(w.disk, ROOT_INO, w.inode);
    assert forall j: InodeNo :: ReadInode(Stored(d, i, name), j) == t[j];
  }

  /** The blocks of the files are untouched. */
  lemma AddedElsewhere(d: Disk, i: InodeNo, name: Bytes, j: InodeNo, k: nat, b: BlockNo)
    requires Consistent(d) && Adds(d, i, name) && j != ROOT_INO && Owns(d, TableOf(d), j, k, b)
    ensures b >= DATA_START && Added(d, i, name).disk[b] == d[b]
  {
    assert InodeSound(TableOf(d)[j], j);
    if Slot(d) < Total(Root(d)) {
      RootOwnsItsBlocks(d, Slot(d) / DENTRIES_PER_BLOCK);
    } else {
      assert HasOwner(d, TableOf(d), b);
      GrownDir(d, i, name);
    }
  }

  // ---------------------------------------------------------------- sfs_create

  /** Why a creation fails, decided on the disk before the call. */
  predicate CanCreate(d: Disk, name: Bytes)
    requires RootReady(d)
  {
    Lookup(d, name) < 0 && AllocInode(d).Some? && HasRoom(d)
  }

  lemma AllocatedIsFresh(d: Disk)
    requires Consistent(d) && AllocInode(d).Some?
    ensures RootReady(d)
    ensures var i := AllocInode(d).value.0; ROOT_INO < i < MAX_INODES && !Used(d, i)
  {
    ConsistentIsReady(d);
  }

  /** Allocating the inode changes nothing the rest of the call looks at. */
  lemma NewInodeKeepsRoot(d: Disk, i: InodeNo)
    requires Consistent(d) && !Used(d, i)
    ensures var d2 := WithNew(d, i);
      && Consistent(d2) && RootReady(d) && RootReady(d2) && Root(d2) == Root(d) && Slot(d2) == Slot(d) && OldName(d2) == OldName(d)
      && (HasRoom(d2) <==> HasRoom(d))
      && (forall e: nat | e < Total(Root(d)) :: Entry(d2, Root(d), e) == Entry(d, Root(d), e))
  {
    hide WithNew, Sound, FreeEntry, Entry;
    var d2 := WithNew(d, i);
    NewInodeFacts(d, i);
    NewInodeKeepsSound(d, i);
    assert Used(d, ROOT_INO) by { UsedRoot(d); }
    assert TableOf(d2)[ROOT_INO] == TableOf(d)[ROOT_INO];
    DirSame(d, d2);
    ConsistentIsReady(d);
    assert AllocBlock(d2).Some? <==> AllocBlock(d).Some?;
  }

  lemma UsedRoot(d: Disk)
    requires Consistent(d)
    ensures Used(d, ROOT_INO)
  {
  }

  lemma CreateCases(d: Disk, name: Bytes)
    requires Consistent(d)
    ensures RootReady(d)
    ensures CanCreate(d, name) ==>
      var i := AllocInode(d).value.0;
      && ROOT_INO < i < MAX_INODES && !Used(d, i) && Adds(WithNew(d, i), i, name)
      && Create(d, name) == (Stored(WithNew(d, i), i, name), i)
    ensures !CanCreate(d, name) ==>
      && Create(d, name).1 == -1
      && (Create(d, name).0 == d ||
          (AllocInode(d).Some? && var i := AllocInode(d).value.0;
           ROOT_INO < i < MAX_INODES && !Used(d, i) && Create(d, name).0 == FreeInode(WithNew(d, i), i)))
  {
    hide Lookup, AddEntry, Sound, WithInode, Slot;
    ConsistentIsReady(d);
    if AllocInode(d).Some? {
      AllocatedIsFresh(d);
      var i := AllocInode(d).value.0;
      NewInodeKeepsRoot(d, i);
      AddsIffRoom(WithNew(d, i), i, name);
    }
  }

  /** sfs_create succeeds exactly if the name cannot be found and there is an inode and a place. */
  lemma CreateSucceedsIff(d: Disk, name: Bytes)
    requires Consistent(d)
    ensures RootReady(d) && (Create(d, name).1 >= 0 <==> CanCreate(d, name))
  {
    hide Create, CanCreate, Consistent;
    CreateCases(d, name);
  }

  /** Same allocated inodes and same blocks outside the inode table: as consistent as before. */
  lemma SameLive(d: Disk, d': Disk)
    requires Consistent(d) && forall b: BlockNo | b < INODE_TABLE || b >= DATA_START :: d'[b] == d[b]
    requires forall j: InodeNo | Used(d, j) :: ReadInode(d', j) == ReadInode(d, j)
    ensures Consistent(d')
  {
    var t, t' := TableOf(d), TableOf(d');
    assert forall j: InodeNo, k: nat, b: int :: Owns(d', t', j, k, b) <==> Owns(d, t, j, k, b);
    forall b: BlockNo ensures Taken(d', b) <==> b < DATA_START || HasOwner(d', t', b) {
      assert HasOwner(d', t', b) <==> HasOwner(d, t, b);
      assert Taken(d', b) == Taken(d, b);
    }
    assert InodeSound(t[ROOT_INO], ROOT_INO);
    forall k: nat, n: nat | k < t[ROOT_INO].blockCount && k < DIRECT_BLOCKS && n < DENTRIES_PER_BLOCK &&
        t[ROOT_INO].blocks[k] < DISK_BLOCKS
      ensures DentrySound(d', DentryAt(d'[t[ROOT_INO].blocks[k]], n))
    {
      assert DentrySound(d, DentryAt(d[t[ROOT_INO].blocks[k]], n));
    }
  }

  /** A failed creation leaves both bitmaps, the directory, every data block and every allocated
      inode as they were. */
  lemma FailedCreateRestores(d: Disk, name: Bytes)
    requires Consistent(d) && RootReady(d) && Create(d, name).1 < 0
    ensures var d' := Create(d, name).0;
      && (forall b: BlockNo | b < INODE_TABLE || b >= DATA_START :: d'[b] == d[b])
      && (forall j: InodeNo | Used(d, j) :: ReadInode(d', j) == ReadInode(d, j))
      && Consistent(d')
  {
    hide Create, CanCreate, WithNew, Sound, Stored;
    CreateCases(d, name);
    var d' := Create(d, name).0;
    if d' != d {
      var i := AllocInode(d).value.0;
      NewInodeFacts(d, i);
      UndoneAlloc(d, i);
      forall j: InodeNo | Used(d, j) ensures ReadInode(d', j) == ReadInode(d, j) {
        assert TableOf(WithNew(d, i))[j] == TableOf(d)[j];
        TableFits(j);
      }
      SameLive(d, d');
    }
  }

  lemma UndoneAlloc(d: Disk, i: InodeNo)
    requires !Used(d, i)
    ensures FreeInode(WithNew(d, i), i)[INODE_BITMAP] == d[INODE_BITMAP]
  {
    TableFits(i);
    BitmapFacts(d[INODE_BITMAP], i, i);
  }

  /** sfs_create keeps the file system consistent, whether it succeeds or not. */
  lemma CreateKeepsConsistent(d: Disk, name: Bytes)
    requires Consistent(d)
    ensures RootReady(d) && Consistent(Create(d, name).0)
  {
    hide Create, CanCreate, WithNew, Sound, Stored;
    CreateCases(d, name);
    if CanCreate(d, name) {
      var i := AllocInode(d).value.0;
      NewInodeFacts(d, i);
      NewInodeKeepsSound(d, i);
      StoredIsConsistent(WithNew(d, i), i, name);
    } else {
      FailedCreateRestores(d, name);
    }
  }

  /** A successful creation adds one empty file and changes no other. */
  lemma CreateAddsEmptyFile(d: Disk, name: Bytes, j: InodeNo)
    requires Consistent(d) && RootReady(d) && Create(d, name).1 >= 0
    ensures var (d', i) := Create(d, name);
      && ROOT_INO < i < MAX_INODES && !Used(d, i) && IsFile(d', i) && File(d', i) == []
      && (Used(d', j) <==> j == i || Used(d, j))
      && (IsFile(d, j) ==> IsFile(d', j) && ReadInode(d', j) == ReadInode(d, j) && File(d', j) == File(d, j))
  {
    hide Create, CanCreate, WithNew, Sound, Stored, File, Content;
    CreateCases(d, name);
    CreateKeepsConsistent(d, name);
    var i: InodeNo := AllocInode(d).value.0;
    var d2, d' := WithNew(d, i), Create(d, name).0;
    NewInodeFacts(d, i);
    NewInodeKeepsSound(d, i);
    StoredIsConsistent(d2, i, name);
    FilesAreReadable(d', i);
    assert ReadInode(d2, i) == NewInode(i) by { assert TableOf(d2)[i] == NewInode(i); }
    if IsFile(d, j) {
      assert TableOf(d2)[j] == TableOf(d)[j];
      FilesAreReadable(d', j);
      CreateKeepsFile(d, name, j);
    }
  }

  lemma CreateKeepsFile(d: Disk, name: Bytes, j: InodeNo)
    requires IsFile(d, j) && CanCreate(d, name) && IsFile(Create(d, name).0, j)
    requires ReadInode(Create(d, name).0, j) == ReadInode(d, j)
    ensures File(Create(d, name).0, j) == File(d, j)
  {
    hide Create, CanCreate, WithNew, Sound, Stored, Added, Owns;
    CreateCases(d, name);
    var i: InodeNo := AllocInode(d).value.0;
    var d2, d', x := WithNew(d, i), Create(d, name).0, ReadInode(d, j);
    NewInodeFacts(d, i);
    NewInodeKeepsSound(d, i);
    StoredIsConsistent(d2, i, name);
    assert TableOf(d2)[j] == x;
    forall p | 0 <= p < x.size ensures File(d', j)[p] == File(d, j)[p] {
      InBlock(p, x.blockCount);
      FileOwns(d2, j, p / BLOCK_SIZE);
      AddedElsewhere(d2, i, name, j, p / BLOCK_SIZE, x.blocks[p / BLOCK_SIZE]);
    }
  }

  lemma FileOwns(d: Disk, j: InodeNo, k: nat)
    requires Consistent(d) && Used(d, j) && k < ReadInode(d, j).blockCount && k < DIRECT_BLOCKS
    ensures Owns(d, TableOf(d), j, k, ReadInode(d, j).blocks[k])
  {
  }

  // ---------------------------------------------------------------- what lookups find afterwards

  /** The root directory's inode after a creation. */
  lemma RootAfterCreate(d: Disk, name: Bytes)
    requires Consistent(d) && RootReady(d) && CanCreate(d, name)
    ensures var (d', i) := Create(d, name);
      && RootReady(d') && Root(d').kind == SFS_DIR && ROOT_INO < i < MAX_INODES
      && Root(d').blockCount == (if Slot(d) < Total(Root(d)) then Root(d).blockCount else Root(d).blockCount + 1)
      && Root(d').size == (Root(d).size + DENTRY_BYTES) % 0x1_0000_0000
  {
    hide Create, CanCreate, WithNew, Consistent, Stored, Added, Slot, ReadInode;
    CreateCases(d, name);
    CreateKeepsConsistent(d, name);
    var i: InodeNo := AllocInode(d).value.0;
    NewInodeFacts(d, i);
    NewInodeKeepsRoot(d, i);
    StoredIsConsistent(WithNew(d, i), i, name);
    ConsistentIsReady(Create(d, name).0);
    AddedShape(WithNew(d, i), i, name);
  }

  /** The entry at `e` once a creation has filled the slot. */
  function EntryCreated(d: Disk, i: InodeNo, name: Bytes, e: nat): Dentry
    requires RootReady(d)
  {
    if e == Slot(d) then Dentry(i, CopyName(OldName(d), name))
    else if e < Total(Root(d)) then Entry(d, Root(d), e)
    else DentryAt(ZeroBlock(), e % DENTRIES_PER_BLOCK)
  }

  /** The directory after a creation, entry by entry. */
  lemma EntriesAfterCreate(d: Disk, name: Bytes, e: nat)
    requires Consistent(d) && RootReady(d) && CanCreate(d, name)
    requires RootReady(Create(d, name).0) && e < Total(Root(Create(d, name).0)) && 1 <= Create(d, name).1 < MAX_INODES
    ensures var (d', i) := Create(d, name); Entry(d', Root(d'), e) == EntryCreated(d, i, name, e)
  {
    hide Create, CanCreate, WithNew, Sound, Stored, Added, Slot, OldName, CString, CopyName, DentryAt;
    CreateCases(d, name);
    CreateKeepsConsistent(d, name);
    var i: InodeNo := AllocInode(d).value.0;
    var d2, d' := WithNew(d, i), Create(d, name).0;
    NewInodeFacts(d, i);
    NewInodeKeepsRoot(d, i);
    StoredIsConsistent(d2, i, name);
    var w := Added(d2, i, name);
    AddedEntries(d2, i, name, e);
    RootOwnsItsBlocks(d', e / DENTRIES_PER_BLOCK);
    assert Entry(d', Root(d'), e) == Entry(w.disk, w.inode, e);
  }

  lemma AddedShape(d: Disk, i: InodeNo, name: Bytes)
    requires Consistent(d) && Adds(d, i, name)
    ensures var w := Added(d, i, name);
      && w.inode.size == (Root(d).size + DENTRY_BYTES) % 0x1_0000_0000
      && w.inode.blockCount == (if Slot(d) < Total(Root(d)) then Root(d).blockCount else Root(d).blockCount + 1)
  {
    hide Consistent, Added, Slot;
    if Slot(d) < Total(Root(d)) { InPlaceShape(d, i, name); } else { GrownInode(d, i, name); }
  }

  /** A creation takes a block exactly if the directory has to grow. */
  lemma BlocksAfterCreate(d: Disk, name: Bytes)
    requires Consistent(d) && RootReady(d) && CanCreate(d, name)
    ensures var d' := Create(d, name).0;
      if Slot(d) < Total(Root(d)) then d'[BLOCK_BITMAP] == d[BLOCK_BITMAP]
      else AllocBlock(d).Some? && d'[BLOCK_BITMAP] == AllocBlock(d).value.1[BLOCK_BITMAP]
  {
    hide Create, CanCreate, WithNew, Sound, Stored, Added, Slot;
    CreateCases(d, name);
    var i: InodeNo := AllocInode(d).value.0;
    var d2 := WithNew(d, i);
    NewInodeFacts(d, i);
    NewInodeKeepsRoot(d, i);
    StoredIsConsistent(d2, i, name);
    if Slot(d) < Total(Root(d)) { InPlaceShape(d2, i, name); } else { GrownInode(d2, i, name); }
  }

  lemma NamedAfter(d: Disk, name: Bytes, q: Bytes, e: nat)
    requires Consistent(d) && RootReady(d) && CanCreate(d, name)
    ensures var d' := Create(d, name).0;
      && RootReady(d') && Root(d').kind == SFS_DIR && Total(Root(d)) <= Total(Root(d')) && Slot(d) < Total(Root(d'))
      && (e < Total(Root(d')) ==>
           && (Named(Entry(d', Root(d'), e), q) <==>
                if e == Slot(d) then q == StoredName(d, name) else e < Total(Root(d)) && Named(Entry(d, Root(d), e), q))
           && (e < Total(Root(d)) && e != Slot(d) ==> Entry(d', Root(d'), e) == Entry(d, Root(d), e))
           && (e == Slot(d) ==> Entry(d', Root(d'), e).ino == Create(d, name).1))
  {
    hide Create, CanCreate, Sound, Slot, OldName, CString, CopyName, Entry;
    RootAfterCreate(d, name);
    if e < Total(Root(Create(d, name).0)) {
      EntriesAfterCreate(d, name, e);
      ZeroEntry(e % DENTRIES_PER_BLOCK);
    }
  }

  /** After a creation every name is found as before, but for the one name that was stored. */
  lemma LookupAfterCreate(d: Disk, name: Bytes, q: Bytes)
    requires Consistent(d) && RootReady(d) && CanCreate(d, name)
    ensures var (d', i) := Create(d, name);
      && RootReady(d')
      && Lookup(d', q) ==
           if q == StoredName(d, name) && Slot(d) <= MatchEntry(d, Root(d), q) then i else Lookup(d, q)
  {
    hide Create, CanCreate, Consistent, Slot, StoredName, Entry;
    var d', x, s := Create(d, name).0, Root(d), Slot(d);
    NamedAfter(d, name, q, 0);
    ConsistentIsReady(d);
    var m, m' := MatchEntry(d, x, q), MatchEntry(d', Root(d'), q);
    SlotIsFree(d);
    forall e: nat | e < Total(Root(d'))
      ensures Named(Entry(d', Root(d'), e), q) <==> if e == s then q == StoredName(d, name) else e < Total(x) && Named(Entry(d, x, e), q)
    {
      NamedAfter(d, name, q, e);
    }
    if m' < Total(Root(d')) { NamedAfter(d, name, q, m'); }
  }

  lemma SlotIsFree(d: Disk)
    requires RootReady(d)
    ensures Slot(d) < Total(Root(d)) ==> Entry(d, Root(d), Slot(d)).ino == 0
  {
  }

  /** The name that is stored is the name that was asked for only if it has at most 27 characters and,
      where the directory had to grow, no rest of the last entry's name shows behind it. */
  lemma StoredIsName(d: Disk, name: Bytes)
    requires Consistent(d) && RootReady(d) && 0 !in name
    ensures StoredName(d, name) == name <==>
      |name| < MAX_FILENAME && (Slot(d) < Total(Root(d)) || CString(OldName(d)[|name|..MAX_FILENAME - 1]) == [])
  {
    hide Consistent, CString, CopyName;
    var n := if |name| < MAX_FILENAME - 1 then |name| else MAX_FILENAME - 1;
    var tail := OldName(d)[n..MAX_FILENAME - 1];
    CopiedName(OldName(d), name);
    if Slot(d) < Total(Root(d)) {
      EntryIsSound(d, Slot(d));
      SlotIsFree(d);
      ZeroString(tail);
    }
    if |name| < MAX_FILENAME {
      assert name[..n] == name;
      if name + CString(tail) == name { assert |CString(tail)| == 0; }
    } else {
      assert tail == [];
      EmptyString();
    }
  }

  lemma EmptyString()
    ensures CString([]) == []
  {
  }

  lemma ZeroString(s: Bytes)
    requires forall k | 0 <= k < |s| :: s[k] == 0
    ensures CString(s) == []
  {
  }

  /** A new file is found under its name exactly under that condition; otherwise not at all. */
  lemma CreatedIsFound(d: Disk, name: Bytes)
    requires Consistent(d) && RootReady(d) && 0 !in name && Create(d, name).1 >= 0
    ensures var (d', i) := Create(d, name);
      && RootReady(d')
      && Lookup(d', name) ==
           if |name| < MAX_FILENAME && (Slot(d) < Total(Root(d)) || CString(OldName(d)[|name|..MAX_FILENAME - 1]) == [])
           then i else -1
  {
    hide Create, Consistent, Slot, StoredName;
    CreateSucceedsIff(d, name);
    LookupAfterCreate(d, name, name);
    StoredIsName(d, name);
    ConsistentIsReady(d);
    LookupMisses(d, name);
  }

  lemma LookupMisses(d: Disk, name: Bytes)
    requires RootReady(d) && Root(d).kind == SFS_DIR && Lookup(d, name) < 0
    ensures MatchEntry(d, Root(d), name) == Total(Root(d)) && Lookup(d, name) == -1
  {
  }
}
