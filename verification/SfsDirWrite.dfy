/** A write through a descriptor on ".": sys_write does not refuse it, and the bytes decide whether the
    directory survives. */
module SfsDirWrite {
  import opened SfsCodec
  import opened SfsSpec
  import opened SfsWrite
  import opened SfsFlat
  import opened SfsDir
  import opened SfsCreate
  import opened SfsFormat
  import opened SfsNames

  /** The root directory may be written at `off`. */
  predicate Reachable(d: Disk, off: nat) { Readable(Root(d)) && off <= Root(d).size }

  /** The directory's inode once its blocks are allocated. */
  function PlannedRoot(d: Disk, data: Bytes, off: nat): (x: Inode)
    requires Reachable(d, off)
    ensures DirReady(x) && x.blockCount >= Root(d).blockCount && off <= BLOCK_SIZE * x.blockCount
  {
    Planned(d, ROOT_INO, |data|, off).inode
  }

  /** How many bytes of the data there is room for. */
  function Written(d: Disk, data: Bytes, off: nat): (n: nat)
    requires Reachable(d, off)
    ensures n <= |data|
  {
    Room(off, |data|, PlannedRoot(d, data, off).blockCount)
  }

  /** Byte `p` of the directory's blocks after the write, from the disk before it: new blocks still
      hold what was in them. */
  function ByteAfter(d: Disk, data: Bytes, off: nat, p: nat): Byte
    requires Reachable(d, off) && p / BLOCK_SIZE < PlannedRoot(d, data, off).blockCount
  {
    if off <= p < off + Written(d, data, off) then data[p - off] else RawAt(d, PlannedRoot(d, data, off), p)
  }

  function BytesAfter(d: Disk, data: Bytes, off: nat, e: nat): (s: Bytes)
    requires Reachable(d, off) && e < Total(PlannedRoot(d, data, off))
    ensures |s| == DENTRY_BYTES
    ensures forall k: nat | k < DENTRY_BYTES ::
      (DENTRY_BYTES * e + k) / BLOCK_SIZE < PlannedRoot(d, data, off).blockCount && s[k] == ByteAfter(d, data, off, DENTRY_BYTES * e + k)
  {
    seq<Byte>(DENTRY_BYTES, k requires 0 <= k < DENTRY_BYTES => InEntry(e, k); ByteAfter(d, data, off, DENTRY_BYTES * e + k))
  }

  function EntryAfter(d: Disk, data: Bytes, off: nat, e: nat): (r: Dentry)
    requires Reachable(d, off) && e < Total(PlannedRoot(d, data, off))
    ensures r.Shaped()
  {
    DecodeDentry(BytesAfter(d, data, off, e))
  }

  lemma InEntry(e: nat, k: nat)
    requires k < DENTRY_BYTES
    ensures (DENTRY_BYTES * e + k) / BLOCK_SIZE == e / DENTRIES_PER_BLOCK
    ensures (DENTRY_BYTES * e + k) % BLOCK_SIZE == DENTRY_BYTES * (e % DENTRIES_PER_BLOCK) + k
  {
  }

  /** Some of the data goes into entry `e`, or the entry lies in a block that the write adds. */
  predicate Touched(d: Disk, data: Bytes, off: nat, e: nat)
    requires Reachable(d, off)
  {
    var n := Written(d, data, off);
    e >= Total(Root(d)) || (n > 0 && DENTRY_BYTES * e < off + n && off < DENTRY_BYTES * (e + 1))
  }

  /** Decided before the call, on the disk and the data: the touched entries will be sound. */
  ghost predicate Harmless(d: Disk, data: Bytes, off: nat)
    requires Reachable(d, off)
  {
    forall e: nat | e < Total(PlannedRoot(d, data, off)) && Touched(d, data, off, e) :: DentrySound(d, EntryAfter(d, data, off, e))
  }

  // ---------------------------------------------------------------- the directory after the write

  lemma EntryBytes(d: Disk, x: Inode, e: nat, s: Bytes)
    requires DirReady(x) && e < Total(x) && |s| == DENTRY_BYTES
    requires forall k: nat | k < DENTRY_BYTES ::
      (DENTRY_BYTES * e + k) / BLOCK_SIZE < x.blockCount && s[k] == RawAt(d, x, DENTRY_BYTES * e + k)
    ensures Entry(d, x, e) == DecodeDentry(s)
  {
    hide DecodeDentry;
    var b, n := d[x.blocks[e / DENTRIES_PER_BLOCK]], e % DENTRIES_PER_BLOCK;
    var r := b[n * DENTRY_BYTES..(n + 1) * DENTRY_BYTES];
    forall k: nat | k < DENTRY_BYTES ensures r[k] == s[k] { InEntry(e, k); }
    assert r == s;
  }

  /** The entries after the write are the ones foretold. */
  lemma EntryIsAfter(d: Disk, data: Bytes, off: nat, e: nat)
    requires Consistent(d) && Reachable(d, off) && e < Total(PlannedRoot(d, data, off))
    ensures var d' := WriteFile(d, ROOT_INO, data, off).0;
      && DirReady(Root(d')) && Total(Root(d')) == Total(PlannedRoot(d, data, off))
      && Entry(d', Root(d'), e) == EntryAfter(d, data, off, e)
  {
    hide Consistent, WriteFile, Planned, Room, Entry, RawAt;
    var d', x := WriteFile(d, ROOT_INO, data, off).0, PlannedRoot(d, data, off);
    CanWriteRoot(d, off);
    WriteOutcome(d, ROOT_INO, data, off);
    var s := BytesAfter(d, data, off, e);
    forall k: nat | k < DENTRY_BYTES
      ensures (DENTRY_BYTES * e + k) / BLOCK_SIZE < x.blockCount && s[k] == RawAt(d', x, DENTRY_BYTES * e + k)
    {
      InEntry(e, k);
      WriteOutcomeByte(d, ROOT_INO, data, off, DENTRY_BYTES * e + k);
    }
    EntryBytes(d', x, e, s);
    SameBlocksSameEntry(d', x, Root(d'), e);
  }

  lemma SameBlocksSameEntry(d: Disk, x: Inode, x': Inode, e: nat)
    requires DirReady(x) && x'.blocks == x.blocks && x'.blockCount == x.blockCount && e < Total(x)
    ensures DirReady(x') && Entry(d, x', e) == Entry(d, x, e)
  {
  }

  lemma CanWriteRoot(d: Disk, off: nat)
    requires Consistent(d) && Reachable(d, off)
    ensures Writable(d, ROOT_INO, off) && RootReady(d)
  {
    ConsistentIsReady(d);
  }

  /** An entry whose bytes are written with what they are, or not at all, stays. */
  lemma SameBytesSameEntry(d: Disk, data: Bytes, off: nat, e: nat)
    requires Consistent(d) && Reachable(d, off) && e < Total(Root(d)) && e < Total(PlannedRoot(d, data, off))
    requires forall p: nat | off <= p < off + Written(d, data, off) && p / DENTRY_BYTES == e && p / BLOCK_SIZE < Root(d).blockCount ::
      data[p - off] == RawAt(d, Root(d), p)
    ensures EntryAfter(d, data, off, e) == Entry(d, Root(d), e)
  {
    hide Consistent, WriteFile, Planned, Room, Entry, RawAt;
    var x := PlannedRoot(d, data, off);
    CanWriteRoot(d, off);
    WriteOutcome(d, ROOT_INO, data, off);
    var s := BytesAfter(d, data, off, e);
    forall k: nat | k < DENTRY_BYTES
      ensures (DENTRY_BYTES * e + k) / BLOCK_SIZE < Root(d).blockCount && s[k] == RawAt(d, Root(d), DENTRY_BYTES * e + k)
    {
      InEntry(e, k);
      SameBlockSameByte(d, Root(d), x, DENTRY_BYTES * e + k);
    }
    EntryBytes(d, Root(d), e, s);
  }

  lemma UntouchedStays(d: Disk, data: Bytes, off: nat, e: nat)
    requires Consistent(d) && Reachable(d, off) && e < Total(PlannedRoot(d, data, off)) && !Touched(d, data, off, e)
    ensures EntryAfter(d, data, off, e) == Entry(d, Root(d), e)
  {
    hide Consistent, PlannedRoot, Entry, EntryAfter, RawAt;
    SameBytesSameEntry(d, data, off, e);
  }

  lemma SameBlockSameByte(d: Disk, x: Inode, x': Inode, p: nat)
    requires Writing(d, x).Ready() && Writing(d, x').Ready() && p / BLOCK_SIZE < x.blockCount <= x'.blockCount
    requires forall k | 0 <= k < x.blockCount :: x'.blocks[k] == x.blocks[k]
    ensures RawAt(d, x', p) == RawAt(d, x, p)
  {
  }

  lemma AllEntriesSound(d: Disk)
    requires Ownership(d, TableOf(d)) && DirReady(Root(d))
    requires forall e: nat | e < Total(Root(d)) :: DentrySound(d, Entry(d, Root(d), e))
    ensures Consistent(d)
  {
    hide Ownership, DentrySound, DentryAt;
    var x := Root(d);
    assert TableOf(d)[ROOT_INO] == x;
    forall k: nat, n: nat | k < x.blockCount && k < DIRECT_BLOCKS && n < DENTRIES_PER_BLOCK && x.blocks[k] < DISK_BLOCKS
      ensures DentrySound(d, DentryAt(d[x.blocks[k]], n))
    {
      var e := DENTRIES_PER_BLOCK * k + n;
      assert e / DENTRIES_PER_BLOCK == k && e % DENTRIES_PER_BLOCK == n;
      assert DentrySound(d, Entry(d, x, e));
    }
  }

  /** A write to the root directory keeps the file system consistent if and only if every entry that
      the data touches, and every entry in a block that the write adds, is sound afterwards. */
  lemma DirectoryWriteKeepsConsistentIff(d: Disk, data: Bytes, off: nat)
    requires Consistent(d) && Reachable(d, off)
    ensures Consistent(WriteFile(d, ROOT_INO, data, off).0) <==> Harmless(d, data, off)
  {
    hide Consistent, WriteFile, PlannedRoot, Entry, EntryAfter, DentrySound, Touched;
    var d' := WriteFile(d, ROOT_INO, data, off).0;
    CanWriteRoot(d, off);
    WriteOutcome(d, ROOT_INO, data, off);
    EntryIsAfter(d, data, off, 0);
    if Consistent(d') {
      ConsistentIsReady(d');
      forall e: nat | e < Total(PlannedRoot(d, data, off)) ensures DentrySound(d, EntryAfter(d, data, off, e)) {
        EntryIsAfter(d, data, off, e);
        EntryIsSound(d', e);
        SoundOnSameUsed(d', d, EntryAfter(d, data, off, e));
      }
    }
    if Harmless(d, data, off) {
      forall e: nat | e < Total(Root(d')) ensures DentrySound(d', Entry(d', Root(d'), e)) {
        EntryIsAfter(d, data, off, e);
        if !Touched(d, data, off, e) { UntouchedSound(d, data, off, e); }
        SoundOnSameUsed(d, d', EntryAfter(d, data, off, e));
      }
      AllEntriesSound(d');
    }
  }

  lemma UntouchedSound(d: Disk, data: Bytes, off: nat, e: nat)
    requires Consistent(d) && Reachable(d, off) && e < Total(PlannedRoot(d, data, off)) && !Touched(d, data, off, e)
    ensures DentrySound(d, EntryAfter(d, data, off, e))
  {
    hide Consistent, EntryAfter, DentrySound;
    UntouchedStays(d, data, off, e);
    CanWriteRoot(d, off);
    EntryIsSound(d, e);
  }

  /** A write of no bytes, or of the bytes that are there already, does no harm. */
  lemma RewritingIsHarmless(d: Disk, data: Bytes, off: nat)
    requires Consistent(d) && Reachable(d, off) && off + |data| <= BLOCK_SIZE * Root(d).blockCount
    requires forall p: nat | off <= p < off + |data| && p / BLOCK_SIZE < Root(d).blockCount :: data[p - off] == RawAt(d, Root(d), p)
    ensures Harmless(d, data, off)
  {
    hide Consistent, Entry, EntryAfter, DentrySound, RawAt;
    assert PlannedRoot(d, data, off) == Root(d);
    forall e: nat | e < Total(Root(d)) ensures DentrySound(d, EntryAfter(d, data, off, e)) {
      SameBytesSameEntry(d, data, off, e);
      CanWriteRoot(d, off);
      EntryIsSound(d, e);
    }
  }

  /** One byte written through "." on a formatted disk destroys the directory. */
  lemma DirectoryWriteBreaks(d: Disk)
    ensures var f := Format(d);
      && Consistent(f) && Lookup(f, [46]) == ROOT_INO && Readable(Root(f))
      && !Consistent(WriteFile(f, ROOT_INO, [255], 0).0)
  {
    hide Format, Consistent, WriteFile, RootBlock, Lookup, EntryAfter, Planned;
    var f := Format(d);
    FormatIsConsistent(d);
    FormatBlocks(d);
    DotIsRoot(d);
    OneByteBreaks(f);
    DirectoryWriteKeepsConsistentIff(f, [255], 0);
  }

  lemma DotIsRoot(d: Disk)
    ensures RootReady(Format(d)) && Lookup(Format(d), [46]) == ROOT_INO
  {
    hide Format, Sound, DotEntry, DentryAt, RootBlock;
    var f := Format(d);
    FormatIsConsistent(d);
    ConsistentIsReady(f);
    FormatBlocks(d);
    FormatEntry(0);
    DotNames();
    assert Named(Entry(f, Root(f), 0), [46]);
    DotIno();
  }

  lemma DotIno()
    ensures DotEntry(1).ino == ROOT_INO
  {
  }

  lemma OneByteBreaks(f: Disk)
    requires Root(f) == RootInode(DATA_START) && f[DATA_START] == RootBlock()
    ensures Reachable(f, 0) && !Harmless(f, [255], 0)
  {
    hide RootBlock, RawAt;
    var data: Bytes := [255];
    assert PlannedRoot(f, data, 0) == Root(f) && Written(f, data, 0) == 1;
    FirstNumber(f);
    assert EntryAfter(f, data, 0, 0).ino == 255;
    assert Touched(f, data, 0, 0);
  }

  lemma FirstNumber(f: Disk)
    requires Root(f) == RootInode(DATA_START) && f[DATA_START] == RootBlock()
    ensures RawAt(f, Root(f), 1) == 0 && RawAt(f, Root(f), 2) == 0 && RawAt(f, Root(f), 3) == 0
  {
    hide RootBlock;
    FormatEntry(0);
    DotIno();
    assert RootBlock()[..4] == RootBlock()[0 * DENTRY_BYTES..1 * DENTRY_BYTES][..4];
    assert Un32(RootBlock()[..4]) == 1;
  }
}
