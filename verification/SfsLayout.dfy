/** Where everything is on the disk, byte for byte: fs/sfs.h and the constants of fs/sfs.c. */
module SfsLayout {
  import opened Wrappers
  import opened SfsCodec
  import opened SfsSpec
  import opened SfsDir
  import opened SfsFormat

  /** The fields of a packed inode. */
  lemma InodeFields(s: Bytes)
    requires |s| == 61
    ensures var x := DecodeInode(s);
      && x.ino == Word(s, 0) && x.size == Word(s, 4) && x.kind == s[8] && x.blockCount == Word(s, 9)
      && |x.blocks| == 12 && forall k | 0 <= k < 12 :: x.blocks[k] == Word(s, 13 + 4 * k)
  {
    hide Un32, UnWords;
    WordIs(s[..4]);
    WordIs(s[4..8]);
    WordIs(s[9..13]);
    forall k | 0 <= k < 12 ensures DecodeInode(s).blocks[k] == Word(s, 13 + 4 * k) { UnWordsAt(s[13..], 12, k); }
  }

  /** Inode `i` is packed into the two blocks behind the bitmaps, 67 inodes to a block, the first one being 1. */
  lemma InodeOnDisk(d: Disk, i: InodeNo)
    ensures var x, b, at := ReadInode(d, i), d[3 + (i - 1) / 67], 61 * ((i - 1) % 67);
      && at + 61 <= |b|
      && x.ino == Word(b, at) && x.size == Word(b, at + 4) && x.kind == b[at + 8] && x.blockCount == Word(b, at + 9)
      && |x.blocks| == 12 && forall k | 0 <= k < 12 :: x.blocks[k] == Word(b, at + 13 + 4 * k)
  {
    hide DecodeInode, Word;
    TableFits(i);
    var b, at := d[3 + (i - 1) / 67], 61 * ((i - 1) % 67);
    var s := b[at..at + 61];
    InodeFields(s);
    WordInside(b, at, 61, 0);
    WordInside(b, at, 61, 4);
    WordInside(b, at, 61, 9);
    forall k | 0 <= k < 12 ensures Word(s, 13 + 4 * k) == Word(b, at + 13 + 4 * k) { WordInside(b, at, 61, 13 + 4 * k); }
  }

  lemma WordInside(b: Bytes, at: nat, n: nat, o: nat)
    requires at + n <= |b| && o + 4 <= n
    ensures Word(b[at..at + n], o) == Word(b, at + o)
  {
  }

  /** Directory entry `k` of a block: four bytes of inode number, 28 of name. */
  lemma EntryOnDisk(b: Block, k: nat)
    requires k < 128
    ensures var e := DentryAt(b, k); e.ino == Word(b, 32 * k) && |e.name| == 28 && forall n | 0 <= n < 28 :: e.name[n] == b[32 * k + 4 + n]
  {
    hide Un32;
    WordIs(b[k * DENTRY_BYTES..(k + 1) * DENTRY_BYTES][..4]);
  }

  /** `1 << k`. */
  const MASKS: seq<nat> := [1, 2, 4, 8, 16, 32, 64, 128]

  lemma {:induction false} BitIs(b: nat, k: nat)
    requires k < 8
    ensures Bit(b, k) <==> b / MASKS[k] % 2 == 1
  {
    if k > 0 {
      BitIs(b / 2, k - 1);
      HalfMask(b, k);
    }
  }

  lemma HalfMask(b: nat, k: nat)
    requires 1 <= k < 8
    ensures b / MASKS[k] == b / 2 / MASKS[k - 1]
  {
    match k
    case 1 => assert b / 2 == b / 2 / 1;
    case 2 => assert b / 4 == b / 2 / 2;
    case 3 => assert b / 8 == b / 2 / 4;
    case 4 => assert b / 16 == b / 2 / 8;
    case 5 => assert b / 32 == b / 2 / 16;
    case 6 => assert b / 64 == b / 2 / 32;
    case 7 => assert b / 128 == b / 2 / 64;
  }

  /** Inodes are counted in block 1 and blocks in block 2, eight to a byte, lowest bit first. */
  lemma BitmapsOnDisk(d: Disk, i: InodeNo, b: BlockNo)
    ensures Used(d, i) <==> d[1][i / 8] / MASKS[i % 8] % 2 == 1
    ensures Taken(d, b) <==> d[2][b / 8] / MASKS[b % 8] % 2 == 1
  {
    BitIs(d[1][i / 8], i % 8);
    BitIs(d[2][b / 8], b % 8);
  }

  lemma {:induction false} LeWordsAt(ws: seq<u32>, i: nat)
    requires i < |ws|
    ensures Word(LeWords(ws), 4 * i) == ws[i]
  {
    hide Le32;
    if i == 0 {
      LeWordIs(ws[0]);
    } else {
      LeWordsAt(ws[1..], i - 1);
    }
  }

  lemma LeWordIs(x: u32)
    ensures Word(Le32(x), 0) == x
  {
  }

  /** The super block of a formatted disk. */
  lemma SuperBlockOnDisk(d: Disk)
    ensures var b := Format(d)[0];
      && Word(b, 0) == 0x53465321 && Word(b, 4) == 1024 && Word(b, 8) == 134
      && Word(b, 12) == 1 && Word(b, 16) == 2 && Word(b, 20) == 3 && Word(b, 24) == 5
      && forall n | 28 <= n < 4096 :: b[n] == 0
  {
    hide RootBlock, SetBit, MarkFirst, FirstZero, RootInode, EncodeInode, LeWords;
    TableFits(ROOT_INO);
    BlankAllocs(d);
    var ws: seq<u32> := [SFS_MAGIC, DISK_BLOCKS, MAX_INODES, INODE_BITMAP, BLOCK_BITMAP, INODE_TABLE, DATA_START];
    var b := SuperBlock();
    assert Format(d)[0] == b;
    forall i | 0 <= i < 7 ensures Word(b, 4 * i) == ws[i] {
      LeWordsAt(ws, i);
      assert forall n | 0 <= n < 28 :: b[n] == LeWords(ws)[n];
    }
    assert Word(b, 4 * 0) == ws[0] && Word(b, 4 * 1) == ws[1] && Word(b, 4 * 2) == ws[2] && Word(b, 4 * 3) == ws[3];
    assert Word(b, 4 * 4) == ws[4] && Word(b, 4 * 5) == ws[5] && Word(b, 4 * 6) == ws[6];
  }

  /** The root directory of a formatted disk is inode 1: a directory of 64 bytes in block 5. */
  lemma RootOnDisk(d: Disk)
    ensures var b := Format(d)[3];
      && Word(b, 0) == 1 && Word(b, 4) == 64 && b[8] == 1 && Word(b, 9) == 1 && Word(b, 13) == 5
      && forall k | 1 <= k < 12 :: Word(b, 13 + 4 * k) == 0
  {
    hide Format, RootBlock, FirstZero, Word, ReadInode, SetBit, MarkFirst;
    FormatBlocks(d);
    var x := RootInode(DATA_START);
    FirstInode(Format(d), x);
    assert forall k | 1 <= k < 12 :: x.blocks[k] == 0;
    forall k | 1 <= k < 12 ensures Word(Format(d)[3], 13 + 4 * k) == 0 { assert x.blocks[k] == 0; }
  }

  /** Inode 1 stands at the beginning of block 3. */
  lemma FirstInode(d: Disk, x: Inode)
    requires ReadInode(d, 1) == x && x.Shaped()
    ensures x.ino == Word(d[3], 0) && x.size == Word(d[3], 4) && x.kind == d[3][8] && x.blockCount == Word(d[3], 9)
    ensures x.blocks[0] == Word(d[3], 13) && forall k | 1 <= k < 12 :: x.blocks[k] == Word(d[3], 13 + 4 * k)
  {
    hide Word, ReadInode;
    InodeOnDisk(d, 1);
    assert x.blocks[0] == Word(d[3], 13 + 4 * 0);
  }

  /** The entries of that block: "." and "..", both for inode 1, and nothing else. */
  lemma DotsOnDisk(d: Disk, n: nat, m: nat)
    requires n < 128 && m < 28
    ensures var b := Format(d)[5];
      Word(b, 32 * n) == (if n < 2 then 1 else 0) && b[32 * n + 4 + m] == if m <= n < 2 then 46 else 0
  {
    hide Format, DentryAt, RootBlock, FirstZero;
    FormatBlocks(d);
    EntryOnDisk(Format(d)[5], n);
    assert DentryAt(Format(d)[5], n).name[m] == Format(d)[5][32 * n + 4 + m];
    FormatEntry(n);
    ZeroEntry(n);
  }
}
