/** A run of sfs_create calls from a formatted disk on which a new file cannot be found under its name. */
module SfsNames {
  import opened SfsCodec
  import opened SfsSpec
  import opened SfsDir
  import opened SfsCreate
  import opened SfsFormat

  /** The `n`-th of the names that fill the directory: two characters, all different. */
  function Label(n: nat): Bytes
    requires 1 <= n < DENTRIES_PER_BLOCK
  {
    [n, 1]
  }

  /** The formatted disk after files 1 to `n` have been created. */
  ghost function Filled(d: Disk, n: nat): (r: Disk)
    requires n < DENTRIES_PER_BLOCK - 1
    ensures Consistent(r)
  {
    if n == 0 then FormatIsConsistent(d); Format(d)
    else
      var f := Filled(d, n - 1);
      CreateKeepsConsistent(f, Label(n));
      Create(f, Label(n)).0
  }

  function NameOf(e: nat): Bytes
    requires e < DENTRIES_PER_BLOCK
  {
    if e == 0 then [46] else if e == 1 then [46, 46] else Label(e - 1)
  }

  /** The root directory has one block, whose first `n` entries are live and hold the names above. */
  ghost predicate Dense(d: Disk, n: nat) {
    && Consistent(d) && RootReady(d) && Root(d).kind == SFS_DIR && Root(d).blockCount == 1 && n <= DENTRIES_PER_BLOCK
    && (forall e: nat | e < DENTRIES_PER_BLOCK && e < n :: Named(Entry(d, Root(d), e), NameOf(e)))
    && (forall e: nat | n <= e < DENTRIES_PER_BLOCK :: Entry(d, Root(d), e).ino == 0)
    && (forall i: InodeNo :: Used(d, i) <==> i < n)
    && AllocBlock(d).Some?
  }

  lemma DenseEntry(d: Disk, n: nat, e: nat, name: Bytes)
    requires Dense(d, n) && e < n && name != NameOf(e)
    ensures e < Total(Root(d)) && Entry(d, Root(d), e).ino != 0 && !Named(Entry(d, Root(d), e), name)
  {
    hide Sound, Entry;
    assert Named(Entry(d, Root(d), e), NameOf(e));
  }

  lemma DenseMisses(d: Disk, n: nat, name: Bytes)
    requires Dense(d, n) && forall e: nat | e < n :: name != NameOf(e)
    ensures Lookup(d, name) < 0
  {
    hide Sound, Entry, Named;
    var m := MatchEntry(d, Root(d), name);
    if m < n { DenseEntry(d, n, m, name); }
    if n <= m < Total(Root(d)) { EmptyEntry(Entry(d, Root(d), m), name); }
  }

  lemma EmptyEntry(e: Dentry, name: Bytes)
    requires e.ino == 0
    ensures !Named(e, name)
  {
  }

  lemma DenseFacts(d: Disk, n: nat)
    requires Dense(d, n) && 2 <= n
    ensures Slot(d) == n
    ensures AllocInode(d).Some? && AllocInode(d).value.0 == n
    ensures n < DENTRIES_PER_BLOCK ==> Lookup(d, NameOf(n)) < 0
  {
    hide Sound, Entry, Named, MatchEntry, Lookup;
    DenseSlot(d, n);
    DenseInode(d, n);
    if n < DENTRIES_PER_BLOCK { DenseMisses(d, n, NameOf(n)); }
  }

  lemma DenseHole(d: Disk, n: nat)
    requires Dense(d, n) && n < DENTRIES_PER_BLOCK
    ensures n < Total(Root(d)) && Entry(d, Root(d), n).ino == 0
  {
  }

  lemma DenseSlot(d: Disk, n: nat)
    requires Dense(d, n)
    ensures Slot(d) == n
  {
    hide Sound, Entry, Named;
    var s := Slot(d);
    assert Total(Root(d)) == DENTRIES_PER_BLOCK;
    if s < n { DenseEntry(d, n, s, []); }
    if n < DENTRIES_PER_BLOCK { DenseHole(d, n); }
  }

  lemma DenseUsed(d: Disk, n: nat, i: nat)
    requires Dense(d, n) && i < MAX_INODES
    ensures TestBit(d[INODE_BITMAP], i) <==> i == 0 || i < n
  {
    hide Entry, Named, OwnersDistinct, BitmapExact, RootSound, Bit, TestBit;
    if i > 0 { assert Used(d, i) <==> i < n; }
  }

  lemma DenseInode(d: Disk, n: nat)
    requires Dense(d, n) && 2 <= n
    ensures AllocInode(d).Some? && AllocInode(d).value.0 == n
  {
    hide Dense, TestBit;
    DenseBound(d, n);
    var i := FirstZero(d[INODE_BITMAP], MAX_INODES);
    DenseUsed(d, n, n);
    if i < MAX_INODES { DenseUsed(d, n, i); }
  }

  lemma DenseBound(d: Disk, n: nat)
    requires Dense(d, n)
    ensures n <= DENTRIES_PER_BLOCK
  {
  }

  lemma DenseGrows(d: Disk, n: nat)
    requires Dense(d, n) && 2 <= n < DENTRIES_PER_BLOCK
    ensures Dense(Create(d, NameOf(n)).0, n + 1)
  {
    hide Create, Sound, Entry, FreeEntry, StoredName, MatchEntry, Named, NameOf, Slot, Lookup, AllocInode, Used;
    var name, d' := NameOf(n), Create(d, NameOf(n)).0;
    DenseFacts(d, n);
    RootAfterCreate(d, name);
    BlocksAfterCreate(d, name);
    CreateKeepsConsistent(d, name);
    NamedAfter(d, name, name, n);
    forall e: nat | e < DENTRIES_PER_BLOCK
      ensures if e < n + 1 then Named(Entry(d', Root(d'), e), NameOf(e)) else Entry(d', Root(d'), e).ino == 0
    {
      DenseAfter(d, n, e);
    }
    forall i: InodeNo ensures Used(d', i) <==> i < n + 1 { UsedAfter(d, n, i); }
  }

  lemma UsedAfter(d: Disk, n: nat, i: InodeNo)
    requires Dense(d, n) && 2 <= n < DENTRIES_PER_BLOCK && RootReady(d)
    ensures Used(Create(d, NameOf(n)).0, i) <==> i < n + 1
  {
    hide Create, Sound, Entry, Named, NameOf, Slot, Lookup, AllocInode;
    DenseFacts(d, n);
    CreateSucceedsIff(d, NameOf(n));
    CreateCases(d, NameOf(n));
    CreateAddsEmptyFile(d, NameOf(n), i);
  }

  lemma DenseAfter(d: Disk, n: nat, e: nat)
    requires Dense(d, n) && 2 <= n < DENTRIES_PER_BLOCK && e < DENTRIES_PER_BLOCK
    ensures var d' := Create(d, NameOf(n)).0;
      && RootReady(d') && e < Total(Root(d'))
      && if e < n + 1 then Named(Entry(d', Root(d'), e), NameOf(e)) else Entry(d', Root(d'), e).ino == 0
  {
    hide Create, Sound, Entry, FreeEntry, StoredName, MatchEntry, Named, Slot, Lookup, AllocInode;
    DenseFacts(d, n);
    StoredIsName(d, NameOf(n));
    NamedAfter(d, NameOf(n), NameOf(e), e);
  }

  lemma FormatIsDense(d: Disk)
    ensures Dense(Format(d), 2)
  {
    hide Format, DotEntry, DentryAt, RootBlock, AllocBlock;
    var f := Format(d);
    FormatBlocks(d);
    FormatIsConsistent(d);
    ConsistentIsReady(f);
    forall e: nat | e < DENTRIES_PER_BLOCK ensures Entry(f, Root(f), e) == DentryAt(RootBlock(), e) { }
    forall e: nat | e < DENTRIES_PER_BLOCK
      ensures if e < 2 then Named(Entry(f, Root(f), e), NameOf(e)) else Entry(f, Root(f), e).ino == 0
    {
      FormatEntry(e);
      ZeroEntry(e);
      DotNames();
    }
    FormatHasBlocks(d);
    forall i: InodeNo ensures Used(f, i) <==> i < 2 { FormatBits(d, i); }
  }

  lemma FormatHasBlocks(d: Disk)
    ensures AllocBlock(Format(d)).Some?
  {
    hide Format;
    var b := FirstZero(Format(d)[BLOCK_BITMAP], DISK_BLOCKS);
    FormatBits(d, DATA_START + 1);
    FormatBits(d, b);
  }

  lemma DotNames()
    ensures Named(DotEntry(1), [46]) && Named(DotEntry(2), [46, 46])
  {
    var one, two := DotEntry(1).name, DotEntry(2).name;
    CStringConcat([46], one[1..]);
    CStringConcat([46, 46], two[2..]);
    assert one == [46] + one[1..] && two == [46, 46] + two[2..];
    ZeroString(one[1..]);
    ZeroString(two[2..]);
  }

  lemma {:induction false} FilledIsDense(d: Disk, n: nat)
    requires n < DENTRIES_PER_BLOCK - 1
    ensures Dense(Filled(d, n), n + 2)
  {
    hide Dense, Create, Format, Sound, RootReady, Label;
    if n == 0 {
      FormatIsDense(d);
    } else {
      FilledIsDense(d, n - 1);
      DenseGrows(Filled(d, n - 1), n + 1);
    }
  }

  /** A run that ends with a new file that sfs_lookup does not find: the directory block is full, and
      behind the one character of the new name the second character of the last entry remains. */
  lemma GrowthGarblesName(d: Disk)
    ensures var f, name := Filled(d, DENTRIES_PER_BLOCK - 2), [127];
      && RootReady(f) && Create(f, name).1 >= 0
      && RootReady(Create(f, name).0) && Lookup(Create(f, name).0, name) == -1
  {
    hide Create, Sound, Entry, FreeEntry, StoredName;
    var f: Disk, name: Bytes := Filled(d, DENTRIES_PER_BLOCK - 2), [127];
    FilledIsDense(d, DENTRIES_PER_BLOCK - 2);
    DenseFacts(f, DENTRIES_PER_BLOCK);
    DenseMisses(f, DENTRIES_PER_BLOCK, name);
    CreateSucceedsIff(f, name);
    CreatedIsFound(f, name);
    LastName(f);
  }

  lemma LastName(d: Disk)
    requires Dense(d, DENTRIES_PER_BLOCK) && Slot(d) == Total(Root(d))
    ensures CString(OldName(d)[1..MAX_FILENAME - 1]) != []
  {
    var s := OldName(d);
    assert Named(Entry(d, Root(d), DENTRIES_PER_BLOCK - 1), NameOf(DENTRIES_PER_BLOCK - 1));
    assert CString(s) == Label(126);
    assert s[1] == Label(126)[1];
  }
}
