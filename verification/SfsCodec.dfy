/** The on-disk formats of fs/sfs.c: packed inodes, directory entries and bitmaps, as bytes. */
module SfsCodec {
  import opened Wrappers

  const BLOCK_SIZE: nat := 4096
  const DIRECT_BLOCKS: nat := 12
  const INODE_BYTES: nat := 61
  const INODES_PER_BLOCK: nat := 67
  const MAX_INODES: nat := 134
  const DENTRY_BYTES: nat := 32
  const DENTRIES_PER_BLOCK: nat := 128
  const MAX_FILENAME: nat := 28

  type Byte = b: int | 0 <= b < 256
  type Bytes = seq<Byte>

  // ---------------------------------------------------------------- little-endian words

  function Le32(x: u32): (s: Bytes)
    ensures |s| == 4
  {
    [x % 256, x / 256 % 256, x / 256 / 256 % 256, x / 256 / 256 / 256]
  }

  function Un32(s: Bytes): (x: u32)
    requires |s| == 4
  {
    var b0: int, b1: int, b2: int, b3: int := s[0], s[1], s[2], s[3];
    b0 + 256 * (b1 + 256 * (b2 + 256 * b3))
  }

  lemma Un32Le32(x: u32)
    ensures Un32(Le32(x)) == x
  {
  }

  lemma Le32Un32(s: Bytes)
    requires |s| == 4
    ensures Le32(Un32(s)) == s
  {
    var b0: int, b1: int, b2: int, b3: int := s[0], s[1], s[2], s[3];
    var x := Un32(s);
    var y := b1 + 256 * (b2 + 256 * b3);
    assert x == b0 + 256 * y && x % 256 == b0 && x / 256 == y;
    assert y % 256 == b1 && y / 256 == b2 + 256 * b3;
  }

  function LeWords(ws: seq<u32>): (s: Bytes)
    ensures |s| == 4 * |ws|
  {
    if ws == [] then [] else Le32(ws[0]) + LeWords(ws[1..])
  }

  function UnWords(s: Bytes, n: nat): (ws: seq<u32>)
    requires |s| == 4 * n
    ensures |ws| == n
  {
    if n == 0 then [] else [Un32(s[..4])] + UnWords(s[4..], n - 1)
  }

  /** The little-endian word that begins at byte `at`. */
  function Word(s: Bytes, at: nat): nat
    requires at + 4 <= |s|
  {
    var b0: int, b1: int, b2: int, b3: int := s[at], s[at + 1], s[at + 2], s[at + 3];
    b0 + 256 * b1 + 65536 * b2 + 16777216 * b3
  }

  lemma WordIs(s: Bytes)
    requires |s| == 4
    ensures Un32(s) == Word(s, 0)
  {
  }

  lemma {:induction false} UnWordsAt(s: Bytes, n: nat, i: nat)
    requires |s| == 4 * n && i < n
    ensures UnWords(s, n)[i] == Word(s, 4 * i)
  {
    hide Un32;
    if i == 0 { WordIs(s[..4]); } else { UnWordsAt(s[4..], n - 1, i - 1); }
  }

  lemma {:induction false} UnWordsLeWords(ws: seq<u32>)
    ensures UnWords(LeWords(ws), |ws|) == ws
  {
    if ws != [] {
      var s := LeWords(ws);
      assert s[..4] == Le32(ws[0]) && s[4..] == LeWords(ws[1..]);
      Un32Le32(ws[0]);
      UnWordsLeWords(ws[1..]);
    }
  }

  // ---------------------------------------------------------------- inodes

  datatype Inode = Inode(ino: u32, size: u32, kind: Byte, blockCount: u32, blocks: seq<u32>) {
    predicate Shaped() { |blocks| == DIRECT_BLOCKS }
  }

  function EncodeInode(x: Inode): (s: Bytes)
    requires x.Shaped()
    ensures |s| == INODE_BYTES
  {
    Le32(x.ino) + Le32(x.size) + [x.kind] + Le32(x.blockCount) + LeWords(x.blocks)
  }

  function DecodeInode(s: Bytes): (x: Inode)
    requires |s| == INODE_BYTES
    ensures x.Shaped()
  {
    Inode(Un32(s[..4]), Un32(s[4..8]), s[8], Un32(s[9..13]), UnWords(s[13..], DIRECT_BLOCKS))
  }

  lemma InodeRoundTrip(x: Inode)
    requires x.Shaped()
    ensures DecodeInode(EncodeInode(x)) == x
  {
    var s := EncodeInode(x);
    assert s[..4] == Le32(x.ino) && s[4..8] == Le32(x.size) && s[9..13] == Le32(x.blockCount) && s[13..] == LeWords(x.blocks);
    Un32Le32(x.ino);
    Un32Le32(x.size);
    Un32Le32(x.blockCount);
    UnWordsLeWords(x.blocks);
  }

  /** `n` bytes of `s` replaced from `at` on. */
  function Splice(s: Bytes, at: nat, data: Bytes): (r: Bytes)
    requires at + |data| <= |s|
    ensures |r| == |s|
    ensures forall i | 0 <= i < |s| :: r[i] == if at <= i < at + |data| then data[i - at] else s[i]
  {
    s[..at] + data + s[at + |data|..]
  }

  // ---------------------------------------------------------------- directory entries

  datatype Dentry = Dentry(ino: u32, name: Bytes) {
    predicate Shaped() { |name| == MAX_FILENAME }
  }

  function EncodeDentry(d: Dentry): (s: Bytes)
    requires d.Shaped()
    ensures |s| == DENTRY_BYTES
  {
    Le32(d.ino) + d.name
  }

  function DecodeDentry(s: Bytes): (d: Dentry)
    requires |s| == DENTRY_BYTES
    ensures d.Shaped()
  {
    Dentry(Un32(s[..4]), s[4..])
  }

  lemma DentryRoundTrip(d: Dentry)
    requires d.Shaped()
    ensures DecodeDentry(EncodeDentry(d)) == d
  {
    var s := EncodeDentry(d);
    assert s[..4] == Le32(d.ino) && s[4..] == d.name;
    Un32Le32(d.ino);
  }

  lemma DentryBytes(s: Bytes)
    requires |s| == DENTRY_BYTES
    ensures EncodeDentry(DecodeDentry(s)) == s
  {
    hide Le32, Un32;
    Le32Un32(s[..4]);
    assert s == s[..4] + s[4..];
  }

  /** The C string at the start of `s`. */
  function CString(s: Bytes): (r: Bytes)
    ensures r <= s && 0 !in r && (|r| < |s| ==> s[|r|] == 0)
  {
    if s == [] || s[0] == 0 then [] else [s[0]] + CString(s[1..])
  }

  /** The name field after `name` has been copied over it: at most 27 characters, the old bytes
      behind them, and a final NUL. */
  function CopyName(old1: Bytes, name: Bytes): (r: Bytes)
    requires |old1| == MAX_FILENAME
    ensures |r| == MAX_FILENAME
  {
    var n := if |name| < MAX_FILENAME - 1 then |name| else MAX_FILENAME - 1;
    name[..n] + old1[n..MAX_FILENAME - 1] + [0]
  }

  /** Which name the entry then holds. */
  lemma CopiedName(old1: Bytes, name: Bytes)
    requires |old1| == MAX_FILENAME && 0 !in name
    ensures var n := if |name| < MAX_FILENAME - 1 then |name| else MAX_FILENAME - 1;
      CString(CopyName(old1, name)) == name[..n] + CString(old1[n..MAX_FILENAME - 1])
  {
    var n := if |name| < MAX_FILENAME - 1 then |name| else MAX_FILENAME - 1;
    var r := CopyName(old1, name);
    assert r == name[..n] + (old1[n..MAX_FILENAME - 1] + [0]);
    CStringConcat(name[..n], old1[n..MAX_FILENAME - 1] + [0]);
    CStringNul(old1[n..MAX_FILENAME - 1]);
  }

  lemma {:induction false} CStringConcat(a: Bytes, b: Bytes)
    requires 0 !in a
    ensures CString(a + b) == a + CString(b)
  {
    if a == [] {
      assert a + b == b;
    } else {
      assert (a + b)[1..] == a[1..] + b;
      CStringConcat(a[1..], b);
    }
  }

  lemma {:induction false} CStringNul(a: Bytes)
    ensures CString(a + [0]) == CString(a)
  {
    if a != [] && a[0] != 0 {
      assert (a + [0])[1..] == a[1..] + [0];
      CStringNul(a[1..]);
    }
  }

  // ---------------------------------------------------------------- bitmaps

  /** `b & (1 << k)`, by the binary digits of `b`. */
  predicate Bit(b: nat, k: nat) {
    if k == 0 then b % 2 == 1 else Bit(b / 2, k - 1)
  }

  /** `b | (1 << k)`. */
  function WithBit(b: nat, k: nat): nat {
    if k == 0 then b / 2 * 2 + 1 else 2 * WithBit(b / 2, k - 1) + b % 2
  }

  /** `b & ~(1 << k)`. */
  function WithoutBit(b: nat, k: nat): nat {
    if k == 0 then b / 2 * 2 else 2 * WithoutBit(b / 2, k - 1) + b % 2
  }

  lemma {:induction false} WithBitFacts(b: nat, k: nat, j: nat)
    ensures Bit(WithBit(b, k), j) <==> j == k || Bit(b, j)
  {
    if k > 0 && j > 0 { WithBitFacts(b / 2, k - 1, j - 1); }
  }

  lemma {:induction false} WithoutBitFacts(b: nat, k: nat, j: nat)
    ensures Bit(WithoutBit(b, k), j) <==> j != k && Bit(b, j)
  {
    if k > 0 && j > 0 { WithoutBitFacts(b / 2, k - 1, j - 1); }
  }

  lemma {:induction false} BitUndone(b: nat, k: nat)
    requires !Bit(b, k)
    ensures WithoutBit(WithBit(b, k), k) == b
  {
    if k > 0 { BitUndone(b / 2, k - 1); }
  }

  function Pow2(n: nat): nat { if n == 0 then 1 else 2 * Pow2(n - 1) }

  lemma {:induction false} BitBound(b: nat, k: nat, n: nat)
    requires k < n && b < Pow2(n)
    ensures WithBit(b, k) < Pow2(n) && WithoutBit(b, k) < Pow2(n)
  {
    if k > 0 { BitBound(b / 2, k - 1, n - 1); }
  }

  lemma ByteBound(b: Byte, k: nat)
    requires k < 8
    ensures WithBit(b, k) < 256 && WithoutBit(b, k) < 256
  {
    assert Pow2(4) == 16 && Pow2(8) == 16 * Pow2(4);
    BitBound(b, k, 8);
  }

  predicate TestBit(bm: Bytes, i: nat)
    requires i / 8 < |bm|
  {
    Bit(bm[i / 8], i % 8)
  }

  /** bitmap_set. */
  function SetBit(bm: Bytes, i: nat): (r: Bytes)
    requires i / 8 < |bm|
    ensures |r| == |bm|
  {
    ByteBound(bm[i / 8], i % 8);
    bm[i / 8 := WithBit(bm[i / 8], i % 8)]
  }

  /** bitmap_clear. */
  function ClearBit(bm: Bytes, i: nat): (r: Bytes)
    requires i / 8 < |bm|
    ensures |r| == |bm|
  {
    ByteBound(bm[i / 8], i % 8);
    bm[i / 8 := WithoutBit(bm[i / 8], i % 8)]
  }

  lemma BitmapFacts(bm: Bytes, i: nat, j: nat)
    requires i / 8 < |bm| && j / 8 < |bm|
    ensures TestBit(SetBit(bm, i), j) <==> j == i || TestBit(bm, j)
    ensures TestBit(ClearBit(bm, i), j) <==> j != i && TestBit(bm, j)
    ensures !TestBit(bm, i) ==> ClearBit(SetBit(bm, i), i) == bm
  {
    WithBitFacts(bm[i / 8], i % 8, j % 8);
    WithoutBitFacts(bm[i / 8], i % 8, j % 8);
    if !TestBit(bm, i) { BitUndone(bm[i / 8], i % 8); }
    assert j / 8 == i / 8 && j % 8 == i % 8 ==> j == i;
  }

  /** The first clear bit below `max`, or `max`. */
  function FirstZero(bm: Bytes, max: nat, i: nat := 0): (r: nat)
    requires max <= 8 * |bm| && i <= max
    ensures i <= r <= max && (r < max ==> !TestBit(bm, r)) && forall j | i <= j < r :: TestBit(bm, j)
    decreases max - i
  {
    if i == max || !TestBit(bm, i) then i else FirstZero(bm, max, i + 1)
  }
}
