/** The on-disk format of kernel/fs.h: bitmap bits, inodes and indirect entries read out
    of raw blocks, and what one store into a block changes. */
module FsLayout {
  import opened Blocks

  const NDIRECT: nat := 12
  const NINDIRECT: nat := 256
  const MAXFILE: nat := NDIRECT + NINDIRECT
  const IPB: nat := 16
  const BPB: nat := 8192
  const HALF: nat := 0x1_0000

  // ---- Bits ----

  function Pow2(k: nat): nat {
    if k == 0 then 1 else 2 * Pow2(k - 1)
  }

  /** `x & (1 << k)` is not zero. */
  predicate HasBit(x: nat, k: nat) {
    if k == 0 then x % 2 == 1 else HasBit(x / 2, k - 1)
  }

  /** `x | (1 << k)` */
  function OrBit(x: nat, k: nat): nat {
    if k == 0 then x - x % 2 + 1 else 2 * OrBit(x / 2, k - 1) + x % 2
  }

  /** `x & ~(1 << k)` */
  function AndNotBit(x: nat, k: nat): nat {
    if k == 0 then x - x % 2 else 2 * AndNotBit(x / 2, k - 1) + x % 2
  }

  lemma {:induction false} FlipOneBit(x: nat, k: nat, j: nat)
    ensures HasBit(OrBit(x, k), j) <==> j == k || HasBit(x, j)
    ensures HasBit(AndNotBit(x, k), j) <==> j != k && HasBit(x, j)
  {
    assert k > 0 ==> OrBit(x, k) / 2 == OrBit(x / 2, k - 1) && AndNotBit(x, k) / 2 == AndNotBit(x / 2, k - 1);
    assert OrBit(x, 0) / 2 == x / 2 && AndNotBit(x, 0) / 2 == x / 2;
    if k > 0 && j > 0 {
      FlipOneBit(x / 2, k - 1, j - 1);
    }
  }

  lemma {:induction false} BitsFit(x: nat, k: nat, w: nat)
    requires k < w && x < Pow2(w)
    ensures OrBit(x, k) < Pow2(w) && AndNotBit(x, k) < Pow2(w)
  {
    if k > 0 {
      BitsFit(x / 2, k - 1, w - 1);
    }
  }

  lemma ByteFits(x: Byte, k: nat)
    requires k < 8
    ensures OrBit(x, k) < 256 && AndNotBit(x, k) < 256
  {
    assert Pow2(8) == 2 * Pow2(7) == 4 * Pow2(6) == 8 * Pow2(5) == 16 * Pow2(4);
    assert Pow2(4) == 16;
    BitsFit(x, k, 8);
  }

  /** Bit `k` of a bitmap block: `bp->data[k/8] & (1 << (k%8))`. */
  predicate Bit(b: Block, k: nat)
    requires k < BPB
  {
    HasBit(b[k / 8], k % 8)
  }

  function SetBit(b: Block, k: nat): Block
    requires k < BPB
  {
    ByteFits(b[k / 8], k % 8);
    b[k / 8 := OrBit(b[k / 8], k % 8)]
  }

  function ClearBit(b: Block, k: nat): Block
    requires k < BPB
  {
    ByteFits(b[k / 8], k % 8);
    b[k / 8 := AndNotBit(b[k / 8], k % 8)]
  }

  lemma BitOfStore(b: Block, k: nat)
    requires k < BPB
    ensures forall j: nat | j < BPB :: Bit(SetBit(b, k), j) <==> j == k || Bit(b, j)
    ensures forall j: nat | j < BPB :: Bit(ClearBit(b, k), j) <==> j != k && Bit(b, j)
  {
    forall j: nat | j < BPB
      ensures Bit(SetBit(b, k), j) <==> j == k || Bit(b, j)
      ensures Bit(ClearBit(b, k), j) <==> j != k && Bit(b, j)
    {
      FlipOneBit(b[k / 8], k % 8, j % 8);
      ByteFits(b[k / 8], k % 8);
    }
  }

  // ---- Inodes ----

  datatype Dinode = Dinode(typ: nat, major: nat, minor: nat, nlink: nat, size: nat, addrs: seq<nat>)
  {
    predicate Fits() {
      && typ < HALF && major < HALF && minor < HALF && nlink < HALF && size < WORD_LIMIT
      && |addrs| == NDIRECT + 1 && forall k | 0 <= k < |addrs| :: addrs[k] < WORD_LIMIT
    }
  }

  function SetAddr(ino: Dinode, k: nat, r: nat): Dinode
    requires k < |ino.addrs|
  {
    ino.(addrs := ino.addrs[k := r])
  }

  function WithSize(ino: Dinode, size: nat): Dinode {
    ino.(size := size)
  }

  /** Two inodes that differ at most in their block addresses. */
  predicate SameMeta(ino: Dinode, ino': Dinode) {
    && ino.typ == ino'.typ && ino.major == ino'.major && ino.minor == ino'.minor
    && ino.nlink == ino'.nlink && ino.size == ino'.size
  }

  /** Two inodes that differ at most in size and block addresses. */
  predicate SameKind(ino: Dinode, ino': Dinode) {
    ino.typ == ino'.typ && ino.major == ino'.major && ino.minor == ino'.minor && ino.nlink == ino'.nlink
  }

  /** The sixteen words of a struct dinode. */
  function Encode(ino: Dinode): (ws: seq<nat>)
    requires ino.Fits()
    ensures |ws| == 16 && forall k | 0 <= k < 16 :: ws[k] < WORD_LIMIT
  {
    [ino.typ + HALF * ino.major, ino.minor + HALF * ino.nlink, ino.size] + ino.addrs
  }

  function Decode(ws: seq<nat>): Dinode
    requires |ws| == 16
  {
    Dinode(ws[0] % HALF, ws[0] / HALF, ws[1] % HALF, ws[1] / HALF, ws[2], ws[3..])
  }

  lemma DecodeEncode(ino: Dinode)
    requires ino.Fits()
    ensures Decode(Encode(ino)) == ino
  {
    assert Encode(ino)[3..] == ino.addrs;
  }

  function GetWords(b: Block, at: nat, n: nat): seq<nat>
    requires at + n <= WORDS
  {
    seq<nat>(n, k requires 0 <= k < n => Word(b, at + k))
  }

  function PutWords(b: Block, at: nat, ws: seq<nat>, n: nat): Block
    requires n <= |ws| && at + |ws| <= WORDS && forall k | 0 <= k < |ws| :: ws[k] < WORD_LIMIT
  {
    if n == 0 then b else SetWord(PutWords(b, at, ws, n - 1), at + n - 1, ws[n - 1])
  }

  lemma {:induction false} WordOfPutWords(b: Block, at: nat, ws: seq<nat>, n: nat)
    requires n <= |ws| && at + |ws| <= WORDS && forall k | 0 <= k < |ws| :: ws[k] < WORD_LIMIT
    ensures forall j: nat | j < WORDS ::
              Word(PutWords(b, at, ws, n), j) == if at <= j < at + n then ws[j - at] else Word(b, j)
  {
    if n > 0 {
      WordOfPutWords(b, at, ws, n - 1);
      WordOfSetWord(PutWords(b, at, ws, n - 1), at + n - 1, ws[n - 1]);
    }
  }

  /** `*((struct dinode*)bp->data + i)` */
  function GetInode(b: Block, i: nat): Dinode
    requires i < IPB
  {
    Decode(GetWords(b, 16 * i, 16))
  }

  function PutInode(b: Block, i: nat, ino: Dinode): Block
    requires i < IPB && ino.Fits()
  {
    PutWords(b, 16 * i, Encode(ino), 16)
  }

  /** An inode written into its slot reads back, and the other fifteen are untouched. */
  lemma GetOfPutInode(b: Block, i: nat, ino: Dinode)
    requires i < IPB && ino.Fits()
    ensures GetInode(PutInode(b, i, ino), i) == ino
    ensures forall j: nat | j < IPB && j != i :: GetInode(PutInode(b, i, ino), j) == GetInode(b, j)
  {
    WordOfPutWords(b, 16 * i, Encode(ino), 16);
    var b' := PutInode(b, i, ino);
    assert GetWords(b', 16 * i, 16) == Encode(ino);
    DecodeEncode(ino);
    forall j: nat | j < IPB && j != i
      ensures GetInode(b', j) == GetInode(b, j)
    {
      assert GetWords(b', 16 * j, 16) == GetWords(b, 16 * j, 16);
    }
  }

  // ---- The disk ----

  datatype Super = Super(size: nat, ninodes: nat, inodestart: nat, bmapstart: nat)
  {
    function IBlock(i: nat): nat { i / IPB + inodestart }

    function BBlock(b: nat): nat { b / BPB + bmapstart }

    /** The first data block: mkfs's nmeta. */
    function DataStart(): nat { bmapstart + size / BPB + 1 }

    predicate IsBitmap(b: nat) { bmapstart <= b < DataStart() }

    /** The blocks that hold the bitmap. */
    ghost function BitmapBlocks(): set<nat> {
      set b: nat | b < DataStart() && IsBitmap(b)
    }

    /** The regions do not overlap and the disk holds them all. */
    predicate Fits(d: Disk) {
      && 0 < inodestart && inodestart + ninodes / IPB + 1 <= bmapstart
      && DataStart() <= size == |d| < WORD_LIMIT
    }
  }

  predicate BitAt(d: Disk, sb: Super, b: nat)
    requires sb.Fits(d) && b < sb.size
  {
    Bit(d[sb.BBlock(b)], b % BPB)
  }

  function InodeAt(d: Disk, sb: Super, i: nat): Dinode
    requires sb.Fits(d) && i < sb.ninodes
  {
    GetInode(d[sb.IBlock(i)], i % IPB)
  }

  /** The block an inode refers to in slot `k`: direct blocks are slots 0..11, the
      indirect block is slot 12, its entries are slots 13..268.  0 is none. */
  const SLOTS: nat := NDIRECT + 1 + NINDIRECT

  function Ref(d: Disk, ino: Dinode, k: nat): nat
    requires ino.Fits() && k < SLOTS
  {
    if k <= NDIRECT then ino.addrs[k]
    else if 0 < ino.addrs[NDIRECT] < |d| then Word(d[ino.addrs[NDIRECT]], k - NDIRECT - 1)
    else 0
  }

  /** The slot of file block `bn`. */
  function SlotOf(bn: nat): nat {
    if bn < NDIRECT then bn else bn + 1
  }

  /** Byte `x` of a file; bytes of blocks never allocated read as zero. */
  function FileByte(d: Disk, ino: Dinode, x: nat): Byte
    requires ino.Fits() && x < MAXFILE * BSIZE
  {
    var r := Ref(d, ino, SlotOf(x / BSIZE));
    if 0 < r < |d| then d[r][x % BSIZE] else 0
  }

  // ---- Directory entries ----

  const ROOTINO: nat := 1
  const T_DIR: nat := 1
  const DIRSIZ: nat := 14
  const ENTRY: nat := 16

  /** strncpy into a name field: cut at DIRSIZ, filled up with NULs. */
  function NameField(s: seq<Byte>): (f: seq<Byte>)
    ensures |f| == DIRSIZ
  {
    seq(DIRSIZ, i requires 0 <= i < DIRSIZ => if i < |s| then s[i] else 0)
  }

  /** struct dirent, little endian. */
  function Dirent(inum: nat, name: seq<Byte>): (e: seq<Byte>)
    requires inum < HALF
    ensures |e| == ENTRY
  {
    [inum % 256, inum / 256] + NameField(name)
  }
}
