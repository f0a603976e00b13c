/** mkfs/mkfs.c: an image built block by block satisfies the file system invariant. */
module Mkfs {
  import opened Blocks
  import opened FsLayout
  import opened FsInv
  import opened Fs

  /** No block at or beyond the end of a file is allocated; `size` is the length of file
      `i`, which is still being written. */
  ghost predicate Tight(d: Disk, tab: seq<Dinode>, i: int, size: nat) {
    Fit(tab) && forall j: nat, bn: nat | j < |tab| && bn < MAXFILE ::
      (if j == i then size else tab[j].size) <= bn * BSIZE ==> Ref(d, tab[j], SlotOf(bn)) == 0
  }

  /** A file without data behind its direct blocks has no indirect block. */
  ghost predicate Lean(tab: seq<Dinode>) {
    Fit(tab) && forall j | 0 <= j < |tab| && tab[j].size <= NDIRECT * BSIZE :: tab[j].addrs[NDIRECT] == 0
  }

  lemma LeanTaken(tab: seq<Dinode>, i: nat, typ: nat)
    requires Lean(tab) && i < |tab| && 0 < typ < HALF
    ensures Lean(tab[i := LinkedInode(typ)])
  {
  }

  /** The blocks that a file of `n` bytes takes: its data and, behind the direct blocks, the
      indirect block. */
  function Cost(n: nat): nat {
    var blocks := (n + BSIZE - 1) / BSIZE;
    if blocks > NDIRECT then blocks + 1 else blocks
  }

  lemma CostOfNone()
    ensures Cost(0) == 0
  {
  }

  lemma CostGrows(n: nat, m: nat)
    requires n <= m
    ensures Cost(n) <= Cost(m)
  {
  }

  /** What is missing when a file has `off` bytes and the next go behind them. */
  lemma NextMissing(d: Disk, ino: Dinode, off: nat, n: nat)
    requires ino.Fits() && off / BSIZE < MAXFILE && 0 < n && off % BSIZE + n <= BSIZE
    requires forall bn: nat | bn < MAXFILE && bn * BSIZE < off :: Ref(d, ino, SlotOf(bn)) != 0
    requires forall bn: nat | bn < MAXFILE && off <= bn * BSIZE :: Ref(d, ino, SlotOf(bn)) == 0
    requires off <= NDIRECT * BSIZE ==> ino.addrs[NDIRECT] == 0
    ensures Cost(off + n) == Cost(off) + Missing(d, ino, off / BSIZE)
  {
    var bn := off / BSIZE;
    assert off == bn * BSIZE + off % BSIZE;
    if off % BSIZE == 0 {
      assert Ref(d, ino, SlotOf(bn)) == 0;
      assert (off + BSIZE - 1) / BSIZE == bn && (off + n + BSIZE - 1) / BSIZE == bn + 1;
    } else {
      assert Ref(d, ino, SlotOf(bn)) != 0;
      assert (off + BSIZE - 1) / BSIZE == bn + 1 && (off + n + BSIZE - 1) / BSIZE == bn + 1;
    }
    if off > NDIRECT * BSIZE {
      assert Ref(d, ino, SlotOf(NDIRECT)) != 0;
    }
  }

  /** Exactly the blocks from the first data block up to `freeblock` are taken. */
  ghost predicate Taken(d: Disk, sb: Super, owner: map<nat, Place>, freeblock: nat)
    requires sb.Fits(d)
  {
    && sb.DataStart() <= freeblock <= sb.size
    && (forall b: nat :: b in owner <==> sb.DataStart() <= b < freeblock)
    && (forall b: nat | freeblock <= b < sb.size :: d[b] == ZeroBlock())
    && (forall b: nat | sb.bmapstart <= b < sb.DataStart() :: d[b] == ZeroBlock())
  }

  /** The image between steps; inode `skip` may be newer than its copy in the image. */
  ghost predicate Made(d: Disk, sb: Super, tab: seq<Dinode>, owner: map<nat, Place>, freeblock: nat, skip: int) {
    Linked(d, sb, tab, owner, skip) && Taken(d, sb, owner, freeblock)
  }

  function FreeInode(): (ino: Dinode)
    ensures ino.Fits()
  {
    Dinode(0, 0, 0, 0, 0, seq(NDIRECT + 1, k => 0))
  }

  /** What mkfs's ialloc writes: an empty file with one link. */
  function LinkedInode(typ: nat): (ino: Dinode)
    requires 0 < typ < HALF
    ensures ino.Fits()
  {
    Dinode(typ, 0, 0, 1, 0, seq(NDIRECT + 1, k => 0))
  }

  /** A blank image holds only free inodes. */
  lemma Blank(d: Disk, sb: Super, tab: seq<Dinode>)
    requires sb.Fits(d) && sb.inodestart > 1
    requires forall b: nat | b < |d| && b != 1 :: d[b] == ZeroBlock()
    requires tab == seq(sb.ninodes, i => FreeInode())
    ensures Made(d, sb, tab, map[], sb.DataStart(), -1) && Tight(d, tab, -1, 0) && Clean(Files(d, tab))
  {
    forall i: nat | i < sb.ninodes
      ensures InodeAt(d, sb, i) == tab[i]
    {
      assert i / IPB <= sb.ninodes / IPB;
      var ws := GetWords(ZeroBlock(), 16 * (i % IPB), 16);
      forall k: nat | k < 16
        ensures ws[k] == 0
      {
        ZeroBlockWords(16 * (i % IPB) + k);
      }
      assert ws[3..] == tab[i].addrs;
    }
    forall i | 0 <= i < |tab|
      ensures Files(d, tab)[i] == File(0, seq(MAXFILE * BSIZE, x => 0))
    {
      EmptyFile(d, tab[i]);
    }
  }

  /** One empty inode is as good as another. */
  lemma SwapRefs(d: Disk, tab: seq<Dinode>, i: nat, ino: Dinode)
    requires i < |tab| && Fit(tab) && Unreferenced(tab[i]) && Unreferenced(ino)
    ensures SameRefs(d, tab, d, tab[i := ino])
  {
  }

  /** A block below the bitmap is neither data nor bitmap. */
  lemma TakenStays(d: Disk, sb: Super, owner: map<nat, Place>, free: nat, m: nat, b: Block)
    requires sb.Fits(d) && Taken(d, sb, owner, free) && m < sb.bmapstart
    ensures Taken(d[m := b], sb, owner, free)
  {
  }

  lemma TightStays(d: Disk, tab: seq<Dinode>, d': Disk, tab': seq<Dinode>)
    requires Tight(d, tab, -1, 0) && |tab'| == |tab| && Fit(tab')
    requires forall j | 0 <= j < |tab| :: tab'[j].size == tab[j].size
    requires SameRefs(d, tab, d, tab') && SameRefs(d, tab', d', tab')
    ensures Tight(d', tab', -1, 0)
  {
    hide Ref;
    assert forall j: nat, k: nat | j < |tab| && k < SLOTS :: Ref(d', tab'[j], k) == Ref(d, tab'[j], k);
  }

  /** ialloc takes a free inode: no file changes, the new one is empty. */
  lemma TakeMade(d: Disk, sb: Super, tab: seq<Dinode>, owner: map<nat, Place>, free: nat, i: nat, typ: nat)
    requires Made(d, sb, tab, owner, free, -1) && Tight(d, tab, -1, 0)
    requires i < |tab| && tab[i].typ == 0 && 0 < typ < HALF
    ensures sb.IBlock(i) < |d|
    ensures var d' := d[sb.IBlock(i) := PutInode(d[sb.IBlock(i)], i % IPB, LinkedInode(typ))];
            var tab' := tab[i := LinkedInode(typ)];
            Made(d', sb, tab', owner, free, -1) && Tight(d', tab', -1, 0) && SameFiles(d, tab, d', tab')
  {
    hide NoHoles, Ref, Tight, Taken, PutInode;
    var ino := LinkedInode(typ);
    SwapEmpty(d, sb, tab, owner, i, ino);
    SwapRefs(d, tab, i, ino);
    var tab' := tab[i := ino];
    StoreInode(d, sb, tab', owner, i);
    assert i / IPB <= sb.ninodes / IPB;
    var d' := d[sb.IBlock(i) := PutInode(d[sb.IBlock(i)], i % IPB, ino)];
    TightStays(d, tab, d', tab');
    TakenStays(d, sb, owner, free, sb.IBlock(i), PutInode(d[sb.IBlock(i)], i % IPB, ino));
  }

  /** References after slot `k` of inode `i` has been filled. */
  ghost predicate OnlySlot(d: Disk, tab: seq<Dinode>, d': Disk, tab': seq<Dinode>, i: nat, k: nat) {
    && |tab| == |tab'| && Fit(tab) && Fit(tab')
    && (forall j | 0 <= j < |tab| :: tab'[j].size == tab[j].size)
    && forall j: nat, s: nat | j < |tab| && s < SLOTS && (j != i || s != k) :: Ref(d', tab'[j], s) == Ref(d, tab[j], s)
  }

  lemma TakenNext(d: Disk, d': Disk, sb: Super, owner: map<nat, Place>, r: nat, at: Place)
    requires sb.Fits(d) && Taken(d, sb, owner, r) && r < sb.size && |d'| == |d|
    requires forall b | 0 <= b < |d| && b != r && b !in owner :: d'[b] == d[b]
    ensures r !in owner && sb.DataStart() <= r && d[r] == ZeroBlock()
    ensures sb.Fits(d') && Taken(d', sb, owner[r := at], r + 1)
  {
  }

  lemma StillFreeEmpty(tab: seq<Dinode>, i: nat, ino: Dinode)
    requires FreeEmpty(tab) && i < |tab| && ino.typ != 0
    ensures FreeEmpty(tab[i := ino])
  {
  }

  /** `din.addrs[k] = freeblock++`, with `d[freeblock]` inside the image. */
  lemma AddMade(d: Disk, sb: Super, tab: seq<Dinode>, owner: map<nat, Place>, r: nat, i: nat, k: nat)
    requires Made(d, sb, tab, owner, r, i) && r < sb.size
    requires i < |tab| && tab[i].typ != 0 && k <= NDIRECT && tab[i].addrs[k] == 0
    ensures var tab' := tab[i := SetAddr(tab[i], k, r)];
            && Made(d, sb, tab', owner[r := Place(i, k)], r + 1, i) && SameFiles(d, tab, d, tab')
            && OnlySlot(d, tab, d, tab', i, k)
  {
    hide Taken, NoHoles, FreeEmpty, InodeAt, Files;
    TakenNext(d, d, sb, owner, r, Place(i, k));
    AddDirect(d, sb, tab, owner, i, k, r);
    StillFreeEmpty(tab, i, SetAddr(tab[i], k, r));
    OnDiskFrame(d, d, sb, tab, tab[i := SetAddr(tab[i], k, r)], i);
  }

  /** `indirect[j] = freeblock++`, and the indirect block written back. */
  lemma AddMadeEntry(d: Disk, sb: Super, tab: seq<Dinode>, owner: map<nat, Place>, r: nat, i: nat, j: nat)
    requires Made(d, sb, tab, owner, r, i) && r < sb.size
    requires i < |tab| && j < NINDIRECT && tab[i].addrs[NDIRECT] != 0 && Ref(d, tab[i], NDIRECT + 1 + j) == 0
    ensures sb.DataStart() <= tab[i].addrs[NDIRECT] < r
    ensures var d' := SetEntry(d, tab[i], j, r);
            && Made(d', sb, tab, owner[r := Place(i, NDIRECT + 1 + j)], r + 1, i) && SameFiles(d, tab, d', tab)
            && OnlySlot(d, tab, d', tab, i, NDIRECT + 1 + j) && Ref(d', tab[i], NDIRECT + 1 + j) == r
  {
    var ind := tab[i].addrs[NDIRECT];
    Inside(d, sb, tab, owner, r, i);
    assert ind in owner && sb.DataStart() <= ind by {
      assert Ref(d, tab[i], NDIRECT) == ind;
    }
    hide Taken, NoHoles, FreeEmpty, InodeAt, FileOf, Files;
    TakenNext(d, SetEntry(d, tab[i], j, r), sb, owner, r, Place(i, NDIRECT + 1 + j));
    AddEntry(d, sb, tab, owner, i, j, r);
    WordOfSetWord(d[ind], j, r);
    OnDiskFrame(d, SetEntry(d, tab[i], j, r), sb, tab, tab, i);
  }

  /** The image ends where the superblock says, and no block past `free` is owned. */
  lemma Inside(d: Disk, sb: Super, tab: seq<Dinode>, owner: map<nat, Place>, free: nat, i: nat)
    requires Made(d, sb, tab, owner, free, i) && i < |tab|
    ensures free <= |d| == sb.size && free !in owner && 0 < sb.DataStart() <= free && Fit(tab)
    ensures tab[i].addrs[NDIRECT] < free
  {
    assert Ref(d, tab[i], NDIRECT) == tab[i].addrs[NDIRECT];
  }

  /** A chunk written into an allocated block. */
  lemma ChunkMade(d: Disk, sb: Super, tab: seq<Dinode>, owner: map<nat, Place>, free: nat, i: nat, off: nat,
      chunk: seq<Byte>)
    requires Made(d, sb, tab, owner, free, i) && i < |tab|
    requires off < MAXFILE * BSIZE && off % BSIZE + |chunk| <= BSIZE && Ref(d, tab[i], SlotOf(off / BSIZE)) != 0
    ensures sb.DataStart() <= Ref(d, tab[i], SlotOf(off / BSIZE)) < free <= |d| && off + |chunk| <= MAXFILE * BSIZE
    ensures var d' := WithChunk(d, Ref(d, tab[i], SlotOf(off / BSIZE)), off, chunk);
            && Made(d', sb, tab, owner, free, i) && SameRefs(d, tab, d', tab)
            && Files(d', tab) == Files(d, tab)[i := File(tab[i].size, Spliced(FileOf(d, tab[i]).bytes, off, chunk))]
  {
    assert Ref(d, tab[i], SlotOf(off / BSIZE)) in owner;
    LinkChunk(d, sb, tab, owner, i, off, chunk);
  }

  /** Filling the slot of the block that ends a file keeps the image tight. */
  lemma TightFill(d: Disk, tab: seq<Dinode>, d': Disk, tab': seq<Dinode>, i: nat, fbn: nat, size: nat, size': nat)
    requires Tight(d, tab, i, size) && OnlySlot(d, tab, d', tab', i, SlotOf(fbn))
    requires size <= size' && fbn * BSIZE < size'
    ensures Tight(d', tab', i, size')
  {
  }

  /** The indirect block alone holds no data. */
  lemma TightIndirect(d: Disk, tab: seq<Dinode>, d': Disk, tab': seq<Dinode>, i: nat, size: nat)
    requires Tight(d, tab, i, size) && OnlySlot(d, tab, d', tab', i, NDIRECT)
    ensures Tight(d', tab', i, size)
  {
  }

  lemma TightSame(d: Disk, d': Disk, tab: seq<Dinode>, i: int, size: nat)
    requires Tight(d, tab, i, size) && SameRefs(d, tab, d', tab)
    ensures Tight(d', tab, i, size)
  {
  }

  /** A file with `p` appended. */
  ghost function Appended(f: File, p: seq<Byte>): (f': File)
    requires f.size + |p| <= |f.bytes|
    ensures f'.size == f.size + |p| && |f'.bytes| == |f.bytes| && f'.bytes[..f'.size] == f.bytes[..f.size] + p
  {
    File(f.size + |p|, Spliced(f.bytes, f.size, p))
  }

  /** Past its end every file is zero. */
  ghost predicate Clean(fs: seq<File>) {
    forall j | 0 <= j < |fs| :: forall x | fs[j].size <= x < |fs[j].bytes| :: fs[j].bytes[x] == 0
  }

  lemma CleanAppended(fs: seq<File>, i: nat, p: seq<Byte>)
    requires Clean(fs) && i < |fs| && fs[i].size + |p| <= |fs[i].bytes|
    ensures Clean(fs[i := Appended(fs[i], p)])
  {
  }

  /** The start of iappend: the inode read from the image is the current one. */
  lemma StartAppend(d: Disk, sb: Super, tab: seq<Dinode>, owner: map<nat, Place>, free: nat, i: nat)
    requires Made(d, sb, tab, owner, free, -1) && Tight(d, tab, -1, 0) && i < |tab|
    ensures sb.IBlock(i) < |d| && GetInode(d[sb.IBlock(i)], i % IPB) == tab[i] && Fit(tab)
              && tab[i].size <= MAXFILE * BSIZE
    ensures Made(d, sb, tab, owner, free, i) && Tight(d, tab, i, tab[i].size)
  {
    assert i / IPB <= sb.ninodes / IPB;
    assert InodeAt(d, sb, i) == tab[i];
  }

  lemma TightFits(d: Disk, tab: seq<Dinode>, i: int, size: nat)
    requires Tight(d, tab, i, size)
    ensures Fit(tab)
  {
  }

  lemma TightAtEnd(d: Disk, tab: seq<Dinode>, i: nat, size: nat)
    requires Tight(d, tab, i, size) && i < |tab| && size < WORD_LIMIT
    ensures Tight(d, tab[i := WithSize(tab[i], size)], -1, 0)
  {
    hide FileByte;
    var tab' := tab[i := WithSize(tab[i], size)];
    forall j: nat, bn: nat | j < |tab| && bn < MAXFILE && tab'[j].size <= bn * BSIZE
      ensures Ref(d, tab'[j], SlotOf(bn)) == 0
    {
      assert Ref(d, tab'[j], SlotOf(bn)) == Ref(d, tab[j], SlotOf(bn));
    }
  }

  /** `winode(inum, &din)`: the image catches up with the inode. */
  lemma StoreMade(d: Disk, sb: Super, tab: seq<Dinode>, owner: map<nat, Place>, free: nat, i: nat)
    requires Made(d, sb, tab, owner, free, i) && Tight(d, tab, -1, 0) && i < |tab|
    ensures sb.IBlock(i) < |d| && Fit(tab)
    ensures var d' := d[sb.IBlock(i) := PutInode(d[sb.IBlock(i)], i % IPB, tab[i])];
            Made(d', sb, tab, owner, free, -1) && Tight(d', tab, -1, 0) && SameFiles(d, tab, d', tab)
  {
    hide InodeAt, FreeEmpty, HasBit, Bit, Ref, FileByte, OnDisk;
    StoreInode(d, sb, tab, owner, i);
    TightSame(d, d[sb.IBlock(i) := PutInode(d[sb.IBlock(i)], i % IPB, tab[i])], tab, -1, 0);
  }

  /** The end of iappend: `din.size = off; winode(inum, &din);` */
  lemma FinishAppend(d0: Disk, sb: Super, tab0: seq<Dinode>, owner0: map<nat, Place>, d: Disk, tab: seq<Dinode>,
                     owner: map<nat, Place>, free: nat, i: nat, p: seq<Byte>)
    requires i < |tab0| && tab0[i].size <= MAXFILE * BSIZE
    requires Written(sb, i, d0, tab0, owner0, d, tab, owner, tab0[i].size, p)
    requires Made(d, sb, tab, owner, free, i) && tab[i].typ != 0 && Tight(d, tab, i, tab0[i].size + |p|)
    ensures tab0[i].size + |p| <= MAXFILE * BSIZE && sb.IBlock(i) < |d| && |tab| == |tab0| && Fit(tab0) && Fit(tab)
    ensures Files(d0, tab0)[i].size == tab0[i].size && |Files(d0, tab0)[i].bytes| == MAXFILE * BSIZE
    ensures var tab' := tab[i := WithSize(tab[i], tab0[i].size + |p|)];
            var d' := d[sb.IBlock(i) := PutInode(d[sb.IBlock(i)], i % IPB, tab'[i])];
            && Made(d', sb, tab', owner, free, -1) && Tight(d', tab', -1, 0)
            && Files(d', tab') == Files(d0, tab0)[i := Appended(Files(d0, tab0)[i], p)]
            && tab' == tab0[i := tab'[i]] && tab'[i].typ == tab0[i].typ
  {
    hide Tight, Linked, Taken, FileByte, Ref;
    assert Fit(tab) by { TightFits(d, tab, i, tab0[i].size + |p|); }
    var size := tab0[i].size + |p|;
    var tab' := tab[i := WithSize(tab[i], size)];
    CoveredUpTo(sb, i, d0, tab0, owner0, d, tab, owner, tab0[i].size, p);
    GrowSize(d, sb, tab, owner, i, size);
    TightAtEnd(d, tab, i, size);
    StoreMade(d, sb, tab', owner, free, i);
    assert Files(d0, tab0)[i] == FileOf(d0, tab0[i]) && Files(d, tab)[i] == FileOf(d, tab[i]);
  }

  /** `((off/BSIZE) + 1) * BSIZE` */
  function Rounded(size: nat): nat {
    (size / BSIZE + 1) * BSIZE
  }

  ghost function RoundedFile(f: File): File {
    File(Rounded(f.size), f.bytes)
  }

  /** Rounding the size of file `i` up keeps every block below it allocated exactly when
      its last block is not full. */
  lemma RoundMade(d: Disk, sb: Super, tab: seq<Dinode>, owner: map<nat, Place>, free: nat, i: nat)
    requires Made(d, sb, tab, owner, free, -1) && Tight(d, tab, -1, 0) && i < |tab|
    requires tab[i].typ != 0 && tab[i].size < WORD_LIMIT - BSIZE
    ensures Rounded(tab[i].size) < WORD_LIMIT && sb.IBlock(i) < |d| && Fit(tab)
              && Fit(tab[i := WithSize(tab[i], Rounded(tab[i].size))])
    ensures var tab' := tab[i := WithSize(tab[i], Rounded(tab[i].size))];
            var d' := d[sb.IBlock(i) := PutInode(d[sb.IBlock(i)], i % IPB, tab'[i])];
            && Files(d', tab') == Files(d, tab)[i := RoundedFile(Files(d, tab)[i])]
            && Laid(d', sb, tab', owner, free) && (NoHoles(d', tab') <==> tab[i].size % BSIZE != 0)
  {
    hide FileOf, InodeAt;
    RoundFiles(d, sb, tab, owner, i, Rounded(tab[i].size));
    if tab[i].size % BSIZE != 0 {
      forall bn: nat | bn < MAXFILE && bn * BSIZE < Rounded(tab[i].size)
        ensures Ref(d, tab[i], SlotOf(bn)) != 0
      {
        assert bn <= tab[i].size / BSIZE;
      }
      GrowSize(d, sb, tab, owner, i, Rounded(tab[i].size));
      StoreInode(d, sb, tab[i := WithSize(tab[i], Rounded(tab[i].size))], owner, i);
    } else {
      RoundHole(d, sb, tab, owner, i);
    }
  }

  lemma RoundHole(d: Disk, sb: Super, tab: seq<Dinode>, owner: map<nat, Place>, i: nat)
    requires Refs(d, sb, tab, owner) && NoHoles(d, tab) && Tight(d, tab, -1, 0) && i < |tab|
    requires tab[i].size % BSIZE == 0 && Rounded(tab[i].size) < WORD_LIMIT
    ensures sb.IBlock(i) < |d|
    ensures var tab' := tab[i := WithSize(tab[i], Rounded(tab[i].size))];
            !NoHoles(d[sb.IBlock(i) := PutInode(d[sb.IBlock(i)], i % IPB, tab'[i])], tab')
  {
    RoundFiles(d, sb, tab, owner, i, Rounded(tab[i].size));
    var bn := tab[i].size / BSIZE;
    assert bn * BSIZE < Rounded(tab[i].size);
    if bn < MAXFILE {
      assert Ref(d, tab[i], SlotOf(bn)) == 0;
    }
  }

  lemma RoundFiles(d: Disk, sb: Super, tab: seq<Dinode>, owner: map<nat, Place>, i: nat, size: nat)
    requires Refs(d, sb, tab, owner) && i < |tab| && size < WORD_LIMIT
    ensures sb.IBlock(i) < |d| && Files(d, tab)[i].size == tab[i].size
    ensures var tab' := tab[i := WithSize(tab[i], size)];
            var d' := d[sb.IBlock(i) := PutInode(d[sb.IBlock(i)], i % IPB, tab'[i])];
            && SameRefs(d, tab, d', tab') && Refs(d', sb, tab', owner)
            && (OnDisk(d, sb, tab, -1) ==> OnDisk(d', sb, tab', -1))
            && Files(d', tab') == Files(d, tab)[i := File(size, Files(d, tab)[i].bytes)]
  {
    var tab' := tab[i := WithSize(tab[i], size)];
    forall j: nat, k: nat | j < |tab| && k < SLOTS
      ensures Ref(d, tab'[j], k) == Ref(d, tab[j], k)
    {
    }
    StoreInode(d, sb, tab', owner, i);
    forall j: nat | j < |tab|
      ensures Files(d, tab')[j] == Files(d, tab)[i := File(size, Files(d, tab)[i].bytes)][j]
    {
      assert FileOf(d, tab'[j]).bytes == FileOf(d, tab[j]).bytes;
    }
  }

  /** mkfs's `balloc`: the bitmap of the first `used` blocks. */
  function FirstBits(used: nat): Block
    requires used <= BPB
  {
    if used == 0 then ZeroBlock() else SetBit(FirstBits(used - 1), used - 1)
  }

  lemma {:induction false} BitOfFirstBits(used: nat)
    requires used <= BPB
    ensures forall b: nat | b < BPB :: Bit(FirstBits(used), b) <==> b < used
  {
    if used == 0 {
      forall b: nat | b < BPB
        ensures !Bit(ZeroBlock(), b)
      {
        NoBits(b % 8);
      }
    } else {
      BitOfFirstBits(used - 1);
      BitOfStore(FirstBits(used - 1), used - 1);
    }
  }

  lemma {:induction false} NoBits(k: nat)
    ensures !HasBit(0, k)
  {
    if k > 0 {
      NoBits(k - 1);
    }
  }

  /** All of Made but that every block below a file's size is allocated. */
  ghost predicate Laid(d: Disk, sb: Super, tab: seq<Dinode>, owner: map<nat, Place>, free: nat) {
    Refs(d, sb, tab, owner) && FreeEmpty(tab) && OnDisk(d, sb, tab, -1) && Taken(d, sb, owner, free)
  }

  lemma MarkedBits(d: Disk, sb: Super, owner: map<nat, Place>, free: nat)
    requires sb.Fits(d) && Taken(d, sb, owner, free) && free < BPB
    ensures Bits(d[sb.bmapstart := FirstBits(free)], sb, owner.Keys)
  {
    var d' := d[sb.bmapstart := FirstBits(free)];
    BitOfFirstBits(free);
    forall b: nat | b < sb.size
      ensures BitAt(d', sb, b) <==> b < sb.DataStart() || b in owner
    {
      assert b / BPB <= sb.size / BPB;
      if b >= BPB {
        assert d'[sb.BBlock(b)] == ZeroBlock();
        NoBits(b % BPB % 8);
      }
    }
  }

  /** The bitmap written last marks exactly the metadata and the blocks in use. */
  lemma Marked(d: Disk, sb: Super, tab: seq<Dinode>, owner: map<nat, Place>, free: nat)
    requires Laid(d, sb, tab, owner, free) && free < BPB
    ensures sb.bmapstart < |d|
    ensures var d' := d[sb.bmapstart := FirstBits(free)];
            && Refs(d', sb, tab, owner) && OnDisk(d', sb, tab, -1) && Bits(d', sb, owner.Keys)
            && SameFiles(d, tab, d', tab) && (Consistent(d', sb, tab, owner, -1) <==> NoHoles(d, tab))
  {
    hide Taken, Bits, OnDisk, FreeEmpty, Files, NoHoles, FirstBits;
    var d' := d[sb.bmapstart := FirstBits(free)];
    BitmapFrame(d, d', sb, tab, owner, -1);
    SameHoles(d, d', tab);
    MarkedBits(d, sb, owner, free);
  }

  lemma SameHoles(d: Disk, d': Disk, tab: seq<Dinode>)
    requires Fit(tab) && SameRefs(d, tab, d', tab)
    ensures NoHoles(d, tab) <==> NoHoles(d', tab)
  {
    if NoHoles(d', tab) {
      forall i, bn: nat | 0 <= i < |tab| && bn < MAXFILE && bn * BSIZE < tab[i].size
        ensures Ref(d, tab[i], SlotOf(bn)) != 0
      {
        assert Ref(d', tab[i], SlotOf(bn)) != 0;
      }
    }
  }

  // ---- The tree mkfs builds ----

  const T_FILE: nat := 2

  /** A file named on the command line: its directory name, and what each read returns. */
  datatype HostFile = HostFile(name: seq<Byte>, chunks: seq<seq<Byte>>)

  /** The root directory once `k` files have been entered. */
  function Entries(files: seq<HostFile>, k: nat): (s: seq<Byte>)
    requires k <= |files| && |files| + 2 <= HALF
    ensures |s| == ENTRY * (k + 2)
  {
    if k == 0 then Dirent(ROOTINO, [46]) + Dirent(ROOTINO, [46, 46])
    else Entries(files, k - 1) + Dirent(k + 1, files[k - 1].name)
  }

  /** What the first `n` reads returned. */
  function Joined(chunks: seq<seq<Byte>>, n: nat): seq<Byte>
    requires n <= |chunks|
  {
    if n == 0 then [] else Joined(chunks, n - 1) + chunks[n - 1]
  }

  /** What a file holds. */
  function Bytes(f: HostFile): seq<Byte> {
    Joined(f.chunks, |f.chunks|)
  }

  lemma BytesAre(f: HostFile)
    ensures Bytes(f) == Joined(f.chunks, |f.chunks|)
  {
  }

  lemma {:induction false} JoinedGrows(chunks: seq<seq<Byte>>, k: nat, n: nat)
    requires k <= n <= |chunks|
    ensures |Joined(chunks, k)| <= |Joined(chunks, n)|
  {
    if k < n {
      JoinedGrows(chunks, k, n - 1);
    }
  }

  /** The blocks that the root directory and the first `k` files take. */
  function Used(files: seq<HostFile>, k: nat): nat
    requires k <= |files|
  {
    FilesUse(files, k) + Cost(ENTRY * (k + 2))
  }

  function FilesUse(files: seq<HostFile>, k: nat): nat
    requires k <= |files|
  {
    if k == 0 then 0 else FilesUse(files, k - 1) + Cost(|Bytes(files[k - 1])|)
  }

  lemma {:induction false} UsedGrows(files: seq<HostFile>, k: nat)
    requires k <= |files|
    ensures Used(files, k) <= Used(files, |files|)
    decreases |files| - k
  {
    CostGrows(ENTRY * (k + 2), ENTRY * (|files| + 2));
    FilesUseGrows(files, k);
  }

  lemma {:induction false} FilesUseGrows(files: seq<HostFile>, k: nat)
    requires k <= |files|
    ensures FilesUse(files, k) <= FilesUse(files, |files|)
    decreases |files| - k
  {
    if k < |files| {
      FilesUseGrows(files, k + 1);
    }
  }

  /** Root directory and files are no longer than a file can be, and the image has room for
      `k` of them. */
  ghost predicate Room(sb: Super, files: seq<HostFile>, k: nat)
    requires k <= |files|
  {
    && ENTRY * (k + 2) <= MAXFILE * BSIZE
    && (forall j | 0 <= j < k :: |Bytes(files[j])| <= MAXFILE * BSIZE)
    && sb.DataStart() + Used(files, k) <= sb.size
  }

  /** The two entries that every root directory begins with. */
  lemma RoomStart(sb: Super, files: seq<HostFile>)
    ensures Used(files, 0) == Cost(ENTRY + ENTRY)
    ensures sb.DataStart() + Cost(ENTRY + ENTRY) <= sb.size <==> Room(sb, files, 0)
  {
  }

  /** One file more. */
  lemma RoomNext(sb: Super, files: seq<HostFile>, k: nat)
    requires k < |files| && Room(sb, files, k)
    ensures var n, f := ENTRY * (k + 2), |Bytes(files[k])|;
            && Used(files, k + 1) == Used(files, k) + Cost(n + ENTRY) - Cost(n) + Cost(f)
            && (Room(sb, files, k + 1) <==>
                  && n + ENTRY <= MAXFILE * BSIZE && f <= MAXFILE * BSIZE
                  && sb.DataStart() + Used(files, k) + Cost(n + ENTRY) - Cost(n) + Cost(f) <= sb.size)
  {
    hide Cost, Bytes;
  }

  lemma NoRoom(sb: Super, files: seq<HostFile>, k: nat)
    requires k <= |files| && !Room(sb, files, k)
    ensures !Room(sb, files, |files|)
  {
    UsedGrows(files, k);
  }

  /** File `i` holds `s`. */
  ghost predicate Holds(fs: seq<File>, i: nat, s: seq<Byte>) {
    i < |fs| && fs[i].size <= |fs[i].bytes| && fs[i].bytes[..fs[i].size] == s
  }

  lemma SizeOfFile(d: Disk, tab: seq<Dinode>, i: nat)
    requires Fit(tab) && i < |tab|
    ensures Files(d, tab)[i].size == tab[i].size && |Files(d, tab)[i].bytes| == MAXFILE * BSIZE
  {
  }

  lemma EmptyHolds(d: Disk, tab: seq<Dinode>, i: nat)
    requires Fit(tab) && i < |tab| && tab[i].size == 0
    ensures Holds(Files(d, tab), i, [])
  {
  }

  class Image {
    const sb: Super
    var d: Disk
    var freeinode: nat
    var freeblock: nat
    ghost var tab: seq<Dinode>
    ghost var owner: map<nat, Place>

    ghost predicate Valid()
      reads this
    {
      && Made(d, sb, tab, owner, freeblock, -1) && Tight(d, tab, -1, 0) && Lean(tab) && Clean(Files(d, tab))
      && 0 < freeinode && forall i | freeinode <= i < |tab| :: tab[i].typ == 0
    }

    /** Inode `i` is being written: in memory it is `din`, and `off` bytes long. */
    ghost predicate Writing(i: nat, din: Dinode, off: nat)
      reads this
    {
      && Made(d, sb, tab, owner, freeblock, i) && Tight(d, tab, i, off)
      && i < |tab| && tab[i] == din && din.typ != 0 && din.Fits()
    }

    /** Zero every block, then write the superblock. */
    constructor (sb: Super, super: Block)
      requires sb.inodestart > 1 && sb.inodestart + sb.ninodes / IPB + 1 <= sb.bmapstart
      requires sb.DataStart() <= sb.size < WORD_LIMIT
      ensures Valid() && this.sb == sb && freeinode == 1 && tab == seq(sb.ninodes, i => FreeInode())
      ensures freeblock == sb.DataStart() && owner == map[]
    {
      this.sb := sb;
      var zeroed: Disk := seq(sb.size, b => ZeroBlock());
      d := zeroed[1 := super];
      freeinode, freeblock := 1, sb.DataStart();
      tab, owner := seq(sb.ninodes, i => FreeInode()), map[];
      new;
      Blank(d, sb, tab);
    }

    /** ialloc: the next inode, whatever is in it; mkfs does not check that it exists. */
    method Ialloc(typ: nat) returns (inum: nat)
      requires Valid() && freeinode < |tab| && 0 < typ < HALF
      modifies this`d, this`freeinode, this`tab
      ensures Valid() && inum == old(freeinode) && freeinode == inum + 1
      ensures inum < |old(tab)| && old(tab)[inum].typ == 0 && tab == old(tab)[inum := LinkedInode(typ)]
      ensures SameFiles(old(d), old(tab), d, tab)
    {
      inum := freeinode;
      LeanTaken(tab, inum, typ);
      TakeMade(d, sb, tab, owner, freeblock, inum, typ);
      var m := sb.IBlock(inum);
      d := d[m := PutInode(d[m], inum % IPB, LinkedInode(typ))];
      tab := tab[inum := LinkedInode(typ)];
      freeinode := freeinode + 1;
    }

    /** The block of file block `fbn`, the next free one if there is none yet.  `ok` is
        false where rsect fails because that block is past the end of the image. */
    method DirectBlock(i: nat, din0: Dinode, fbn: nat, ghost off: nat, ghost off': nat)
        returns (ok: bool, din: Dinode, x: nat)
      requires Writing(i, din0, off) && fbn < NDIRECT && fbn * BSIZE < off' && off <= off'
      modifies this`freeblock, this`tab, this`owner
      ensures ok <==> old(freeblock) + Missing(d, din0, fbn) <= sb.size
      ensures ok ==> freeblock == old(freeblock) + Missing(d, din0, fbn)
      ensures ok ==> din.Fits() && din.addrs[NDIRECT] == din0.addrs[NDIRECT]
      ensures ok ==>
                && Writing(i, din, off') && tab == old(tab)[i := din] && SameMeta(din0, din)
                && SameFiles(d, old(tab), d, tab) && x == Ref(d, din, SlotOf(fbn)) != 0
                && (forall b | b in old(owner) :: b in owner && owner[b] == old(owner)[b])
    {
      hide Linked, Taken, Tight;
      Inside(d, sb, tab, owner, freeblock, i);
      din := din0;
      if din.addrs[fbn] == 0 {
        if freeblock >= |d| {
          return false, din, 0;
        }
        AddMade(d, sb, tab, owner, freeblock, i, fbn);
        TightFill(d, tab, d, tab[i := SetAddr(din, fbn, freeblock)], i, fbn, off, off');
        din := SetAddr(din, fbn, freeblock);
        tab := tab[i := din];
        owner := owner[freeblock := Place(i, fbn)];
        freeblock := freeblock + 1;
      } else {
        TightFill(d, tab, d, tab, i, fbn, off, off');
      }
      ok, x := true, din.addrs[fbn];
    }

    /** The indirect block itself, allocated if need be. */
    method IndirectBlock(i: nat, din0: Dinode, ghost j: nat, ghost off: nat) returns (ok: bool, din: Dinode)
      requires Writing(i, din0, off) && j < NINDIRECT
      modifies this`freeblock, this`tab, this`owner
      ensures ok <==> old(freeblock) + (if din0.addrs[NDIRECT] == 0 then 1 else 0) <= sb.size
      ensures ok ==>
                && freeblock == old(freeblock) + (if din0.addrs[NDIRECT] == 0 then 1 else 0)
                && din.Fits() && Ref(d, din, NDIRECT + 1 + j) == Ref(d, din0, NDIRECT + 1 + j)
      ensures ok ==>
                && Writing(i, din, off) && tab == old(tab)[i := din] && SameMeta(din0, din)
                && SameFiles(d, old(tab), d, tab) && din.addrs[NDIRECT] != 0
                && (forall b | b in old(owner) :: b in owner && owner[b] == old(owner)[b])
    {
      hide Linked, Taken, Tight;
      Inside(d, sb, tab, owner, freeblock, i);
      din := din0;
      if din.addrs[NDIRECT] == 0 {
        if freeblock >= |d| {
          return false, din;
        }
        AddMade(d, sb, tab, owner, freeblock, i, NDIRECT);
        TightIndirect(d, tab, d, tab[i := SetAddr(din, NDIRECT, freeblock)], i, off);
        din := SetAddr(din, NDIRECT, freeblock);
        tab := tab[i := din];
        owner := owner[freeblock := Place(i, NDIRECT)];
        freeblock := freeblock + 1;
      }
      ok := true;
    }

    /** The block entered at `indirect[j]`, the next free one if there is none yet. */
    method EntryBlock(i: nat, din: Dinode, j: nat, ghost off: nat, ghost off': nat) returns (ok: bool, x: nat)
      requires Writing(i, din, off) && j < NINDIRECT && din.addrs[NDIRECT] != 0
      requires (NDIRECT + j) * BSIZE < off' && off <= off'
      modifies this`d, this`freeblock, this`owner
      ensures ok <==> old(freeblock) + (if Ref(old(d), din, NDIRECT + 1 + j) == 0 then 1 else 0) <= sb.size
      ensures ok ==>
                freeblock == old(freeblock) + if Ref(old(d), din, NDIRECT + 1 + j) == 0 then 1 else 0
      ensures ok ==>
                && Writing(i, din, off') && SameFiles(old(d), tab, d, tab)
                && x == Ref(d, din, NDIRECT + 1 + j) != 0
                && (forall b | b in old(owner) :: b in owner && owner[b] == old(owner)[b])
    {
      hide Linked, Taken, Tight;
      var ind := din.addrs[NDIRECT];
      Inside(d, sb, tab, owner, freeblock, i);
      x := Word(d[ind], j);
      assert x == Ref(d, din, NDIRECT + 1 + j);
      if x == 0 {
        x := freeblock;
        if freeblock >= |d| {
          return false, x;
        }
        AddMadeEntry(d, sb, tab, owner, freeblock, i, j);
        TightFill(d, tab, SetEntry(d, din, j, freeblock), tab, i, NDIRECT + j, off, off');
        d := d[ind := SetWord(d[ind], j, freeblock)];
        owner := owner[freeblock := Place(i, NDIRECT + 1 + j)];
        freeblock := freeblock + 1;
      } else {
        TightFill(d, tab, d, tab, i, NDIRECT + j, off, off');
      }
      ok := true;
    }

    method BlockFor(i: nat, din0: Dinode, fbn: nat, ghost off: nat, ghost off': nat)
        returns (ok: bool, din: Dinode, x: nat)
      requires Writing(i, din0, off) && fbn < MAXFILE && fbn * BSIZE < off' && off <= off'
      modifies this`d, this`freeblock, this`tab, this`owner
      // rsect fails exactly if a block taken lies past the end of the image.
      ensures ok <==> old(freeblock) + Missing(old(d), din0, fbn) <= sb.size
      ensures ok ==> freeblock == old(freeblock) + Missing(old(d), din0, fbn)
      ensures ok && fbn < NDIRECT ==> din.Fits() && din.addrs[NDIRECT] == din0.addrs[NDIRECT]
      ensures ok ==>
                && Writing(i, din, off') && tab == old(tab)[i := din] && SameMeta(din0, din)
                && SameFiles(old(d), old(tab), d, tab) && x == Ref(d, din, SlotOf(fbn)) != 0
                && (forall b | b in old(owner) :: b in owner && owner[b] == old(owner)[b])
    {
      hide Made, Tight;
      if fbn < NDIRECT {
        ok, din, x := DirectBlock(i, din0, fbn, off, off');
      } else {
        ok, din := IndirectBlock(i, din0, fbn - NDIRECT, off);
        if ok {
          ok, x := EntryBlock(i, din, fbn - NDIRECT, off, off');
        } else {
          x := 0;
        }
      }
    }

    /** One round of iappend: `chunk` goes into the block behind byte `off`. */
    method PutChunk(i: nat, din0: Dinode, off: nat, chunk: seq<Byte>, ghost d0: Disk, ghost tab0: seq<Dinode>,
                    ghost owner0: map<nat, Place>, ghost at: nat, ghost t: seq<Byte>) returns (ok: bool, din: Dinode)
      requires Writing(i, din0, off) && off == at + |t| && off < MAXFILE * BSIZE
      requires 0 < |chunk| && off % BSIZE + |chunk| <= BSIZE
      requires Written(sb, i, d0, tab0, owner0, d, tab, owner, at, t)
      modifies this`d, this`freeblock, this`tab, this`owner
      ensures ok ==>
                && Writing(i, din, off + |chunk|)
                && Written(sb, i, d0, tab0, owner0, d, tab, owner, at, t + chunk)
      ensures ok <==> old(freeblock) + Missing(old(d), din0, off / BSIZE) <= sb.size
      ensures ok ==> freeblock == old(freeblock) + Missing(old(d), din0, off / BSIZE)
      ensures ok && off / BSIZE < NDIRECT ==> din.addrs[NDIRECT] == din0.addrs[NDIRECT]
    {
      hide Linked, Taken, Tight, Written, FileOf;
      ghost var d1, tab1, owner1 := d, tab, owner;
      var x;
      ok, din, x := BlockFor(i, din0, off / BSIZE, off, off + |chunk|);
      if ok {
        ghost var d2 := d;
        ChunkMade(d, sb, tab, owner, freeblock, i, off, chunk);
        TightSame(d, WithChunk(d, x, off, chunk), tab, i, off + |chunk|);
        var o := off % BSIZE;
        d := d[x := d[x][..o] + chunk + d[x][o + |chunk|..]];
        assert Files(d2, tab)[i] == FileOf(d2, tab[i]) && Files(d1, tab1)[i] == FileOf(d1, tab1[i]);
        WrittenNext(sb, i, d0, tab0, owner0, d1, tab1, owner1, d, tab, owner, at, t, chunk);
      }
    }

    /** The loop of iappend. */
    method AppendLoop(i: nat, din0: Dinode, off0: nat, p: seq<Byte>) returns (ok: bool, din: Dinode)
      requires Writing(i, din0, off0) && off0 == din0.size
      requires off0 <= NDIRECT * BSIZE ==> din0.addrs[NDIRECT] == 0
      modifies this`d, this`freeblock, this`tab, this`owner
      ensures ok ==>
                && Writing(i, din, off0 + |p|)
                && Written(sb, i, old(d), old(tab), old(owner), d, tab, owner, off0, p)
                && (off0 + |p| <= NDIRECT * BSIZE ==> din.addrs[NDIRECT] == 0)
      ensures ok <==> off0 + |p| <= MAXFILE * BSIZE && old(freeblock) + Cost(off0 + |p|) - Cost(off0) <= sb.size
      ensures ok ==> freeblock == old(freeblock) + Cost(off0 + |p|) - Cost(off0)
    {
      hide Linked, Taken, Tight, Written, FileOf, Cost, Missing;
      ghost var d0, tab0, owner0 := d, tab, owner;
      WrittenStart(sb, i, d, tab, owner, off0);
      InImage(d, sb, tab, owner, freeblock, i);
      din := din0;
      var off, n := off0, 0;
      while n < |p|
        invariant 0 <= n <= |p| && off == off0 + n
        invariant Writing(i, din, off)
        invariant Written(sb, i, d0, tab0, owner0, d, tab, owner, off0, p[..n])
        invariant off <= NDIRECT * BSIZE ==> din.addrs[NDIRECT] == 0
        invariant off <= MAXFILE * BSIZE && freeblock == old(freeblock) + Cost(off) - Cost(off0) <= sb.size
      {
        if off / BSIZE >= MAXFILE {
          return false, din;
        }
        var n1 := Min(|p| - n, (off / BSIZE + 1) * BSIZE - off);
        RoundCost(d0, tab0, owner0, d, sb, tab, owner, freeblock, i, off0, p[..n], n1);
        CostGrows(off + n1, off0 + |p|);
        ok, din := PutChunk(i, din, off, p[n..n + n1], d0, tab0, owner0, off0, p[..n]);
        if !ok {
          return;
        }
        assert p[..n] + p[n..n + n1] == p[..n + n1];
        n, off := n + n1, off + n1;
      }
      assert p[..n] == p;
      ok := true;
    }

    lemma InImage(d: Disk, sb: Super, tab: seq<Dinode>, owner: map<nat, Place>, free: nat, i: nat)
      requires Made(d, sb, tab, owner, free, i) && i < |tab|
      ensures free <= sb.size && Fit(tab) && tab[i].size <= MAXFILE * BSIZE
    {
    }

    /** What a round of iappend takes. */
    lemma RoundCost(d0: Disk, tab0: seq<Dinode>, owner0: map<nat, Place>, d: Disk, sb: Super, tab: seq<Dinode>,
                    owner: map<nat, Place>, free: nat, i: nat, at: nat, t: seq<Byte>, n: nat)
      requires Made(d, sb, tab, owner, free, i) && i < |tab| && tab[i].Fits()
      requires Written(sb, i, d0, tab0, owner0, d, tab, owner, at, t) && Tight(d, tab, i, at + |t|)
      requires i < |tab0| && at <= tab0[i].size
      requires (at + |t|) / BSIZE < MAXFILE && 0 < n && (at + |t|) % BSIZE + n <= BSIZE
      requires at + |t| <= NDIRECT * BSIZE ==> tab[i].addrs[NDIRECT] == 0
      ensures Cost(at + |t| + n) == Cost(at + |t|) + Missing(d, tab[i], (at + |t|) / BSIZE)
    {
      hide Linked, Taken, Cost, Ref, FileOf, Files;
      CoveredUpTo(sb, i, d0, tab0, owner0, d, tab, owner, at, t);
      NextMissing(d, tab[i], at + |t|, n);
    }

    /** iappend: the file of inode `i` grows by `p`, and no other file changes.  `ok` is
        false where mkfs gives up: the file is too long or the image is full. */
    method Iappend(i: nat, p: seq<Byte>) returns (ok: bool)
      requires Valid() && i < |tab| && tab[i].typ != 0
      modifies this`d, this`freeblock, this`tab, this`owner
      ensures Fit(old(tab)) && old(tab)[i].size <= MAXFILE * BSIZE
      ensures ok ==> Valid() && Fit(tab) && |tab| == |old(tab)|
      ensures ok ==> tab[i].size == old(tab)[i].size + |p| <= MAXFILE * BSIZE
      ensures ok ==> tab == old(tab)[i := tab[i]] && tab[i].typ == old(tab)[i].typ
      ensures ok ==> Files(d, tab) == Files(old(d), old(tab))[i := Appended(Files(old(d), old(tab))[i], p)]
      ensures ok <==>
                && old(tab)[i].size + |p| <= MAXFILE * BSIZE
                && old(freeblock) + Cost(old(tab)[i].size + |p|) - Cost(old(tab)[i].size) <= sb.size
      ensures ok ==> freeblock == old(freeblock) + Cost(old(tab)[i].size + |p|) - Cost(old(tab)[i].size)
    {
      hide Linked, Taken, FileOf, Files, Clean, Appended;
      StartAppend(d, sb, tab, owner, freeblock, i);
      var din := GetInode(d[sb.IBlock(i)], i % IPB);
      var off := din.size;
      ok, din := AppendLoop(i, din, off, p);
      if !ok {
        return;
      }
      FinishAppend(old(d), sb, old(tab), old(owner), d, tab, owner, freeblock, i, p);
      CleanAppended(Files(old(d), old(tab)), i, p);
      din := WithSize(din, off + |p|);
      var m := sb.IBlock(i);
      d := d[m := PutInode(d[m], i % IPB, din)];
      tab := tab[i := din];
    }

    /** The end of main: the root directory's size is rounded up to whole blocks.  The
        invariant survives unless the entries fill their last block exactly: then the
        new size covers a block that was never allocated. */
    method RoundRoot(root: nat)
      requires Valid() && root < |tab| && tab[root].typ != 0 && tab[root].size < WORD_LIMIT - BSIZE
      modifies this`d, this`tab
      ensures Fit(old(tab)) && Fit(tab)
                && tab == old(tab)[root := WithSize(old(tab)[root], Rounded(old(tab)[root].size))]
      ensures Files(d, tab) == Files(old(d), old(tab))[root := RoundedFile(Files(old(d), old(tab))[root])]
      ensures Laid(d, sb, tab, owner, freeblock)
      ensures NoHoles(d, tab) <==> old(tab)[root].size % BSIZE != 0
    {
      hide Linked, Taken, Tight, Files, Clean, NoHoles;
      StartAppend(d, sb, tab, owner, freeblock, root);
      var din := GetInode(d[sb.IBlock(root)], root % IPB);
      RoundMade(d, sb, tab, owner, freeblock, root);
      din := WithSize(din, (din.size / BSIZE + 1) * BSIZE);
      var m := sb.IBlock(root);
      d := d[m := PutInode(d[m], root % IPB, din)];
      tab := tab[root := din];
    }

    static method Bitmap(used: nat) returns (buf: Block)
      requires used < BPB
      ensures buf == FirstBits(used)
    {
      buf := ZeroBlock();
      var i := 0;
      while i < used
        invariant 0 <= i <= used && buf == FirstBits(i)
      {
        buf := SetBit(buf, i);
        i := i + 1;
      }
    }

    /** balloc(freeblock): the bitmap.  `ok` is false where the assertion on `used` fails. */
    method Balloc() returns (ok: bool)
      requires Laid(d, sb, tab, owner, freeblock)
      modifies this`d
      ensures ok <==> freeblock < BPB
      ensures ok ==> SameFiles(old(d), tab, d, tab)
      ensures ok ==> (Consistent(d, sb, tab, owner, -1) <==> NoHoles(old(d), tab))
    {
      if freeblock >= BPB {
        return false;
      }
      hide Laid, Consistent, NoHoles, Files, FirstBits;
      Marked(d, sb, tab, owner, freeblock);
      var buf := Bitmap(freeblock);
      d := d[sb.bmapstart := buf];
      ok := true;
    }

    /** iappend, seen from the file's side. */
    method AppendTo(i: nat, p: seq<Byte>, ghost s: seq<Byte>) returns (ok: bool)
      requires Valid() && i < |tab| && tab[i].typ != 0 && Fit(tab) && Holds(Files(d, tab), i, s)
      modifies this`d, this`freeblock, this`tab, this`owner
      ensures ok ==>
                && Valid() && Fit(old(tab)) && Fit(tab) && |tab| == |old(tab)| && Holds(Files(d, tab), i, s + p)
                && (forall j: nat | j < |tab| && j != i :: Files(d, tab)[j] == Files(old(d), old(tab))[j])
                && tab == old(tab)[i := tab[i]] && tab[i].typ == old(tab)[i].typ
                && tab[i].size == old(tab)[i].size + |p|
      ensures ok <==> |s| + |p| <= MAXFILE * BSIZE && old(freeblock) + Cost(|s| + |p|) - Cost(|s|) <= sb.size
      ensures ok ==> freeblock == old(freeblock) + Cost(|s| + |p|) - Cost(|s|)
    {
      hide Made, Tight, Clean, FileOf, Files;
      SizeOfFile(d, tab, i);
      ok := Iappend(i, p);
      if ok {
        SizeOfFile(d, tab, i);
      }
    }

    /** The root directory with its two entries. */
    method MakeRoot() returns (ok: bool)
      requires Valid() && freeinode == ROOTINO && tab == seq(sb.ninodes, i => FreeInode()) && 2 <= sb.ninodes
      requires freeblock <= sb.size
      modifies this`d, this`freeinode, this`freeblock, this`tab, this`owner
      ensures ok <==> old(freeblock) + Cost(ENTRY + ENTRY) <= sb.size
      ensures ok ==>
                && Valid() && Fit(tab) && |tab| == sb.ninodes && freeinode == 2 && Types(tab, 0)
                && tab[ROOTINO].typ != 0 && tab[ROOTINO].size == ENTRY + ENTRY
                && freeblock == old(freeblock) + Cost(ENTRY + ENTRY)
                && Holds(Files(d, tab), ROOTINO, Dirent(ROOTINO, [46]) + Dirent(ROOTINO, [46, 46]))
    {
      hide Made, Tight, Lean, Clean, FileOf, Files, Dirent, NameField, Types, Cost;
      var root := Ialloc(T_DIR);
      EmptyHolds(d, tab, root);
      CostOfNone();
      CostGrows(ENTRY, ENTRY + ENTRY);
      ok := AppendTo(root, Dirent(ROOTINO, [46]), []);
      if !ok {
        return;
      }
      ok := AppendTo(root, Dirent(ROOTINO, [46, 46]), Dirent(ROOTINO, [46]));
      if !ok {
        return;
      }
      TypesStart(tab);
    }

    /** Enter a file into the root directory and copy it in. */
    method AddFile(f: HostFile, ghost root: seq<Byte>) returns (ok: bool)
      requires Valid() && Fit(tab) && 1 < freeinode < |tab| <= HALF && tab[ROOTINO].typ != 0
      requires Holds(Files(d, tab), ROOTINO, root)
      modifies this`d, this`freeinode, this`freeblock, this`tab, this`owner
      ensures ok ==>
                && Valid() && Fit(tab) && |tab| == |old(tab)| && freeinode == old(freeinode) + 1
                && tab[old(freeinode)].typ == T_FILE
                && (forall j: nat | j < old(freeinode) :: tab[j].typ == old(tab)[j].typ)
                && Holds(Files(d, tab), ROOTINO, root + Dirent(old(freeinode), f.name))
                && Holds(Files(d, tab), old(freeinode), Joined(f.chunks, |f.chunks|))
                && (forall j: nat | j < old(freeinode) && j != ROOTINO ::
                    Files(d, tab)[j] == Files(old(d), old(tab))[j])
                && tab[ROOTINO].size == old(tab)[ROOTINO].size + ENTRY
      ensures ok <==>
                && |root| + ENTRY <= MAXFILE * BSIZE && |Bytes(f)| <= MAXFILE * BSIZE
                && old(freeblock) + Cost(|root| + ENTRY) - Cost(|root|) + Cost(|Bytes(f)|) <= sb.size
      ensures ok ==> freeblock == old(freeblock) + Cost(|root| + ENTRY) - Cost(|root|) + Cost(|Bytes(f)|)
    {
      hide Made, Tight, Lean, Clean, FileOf, Files, Dirent, Cost, Bytes;
      CostOfNone();
      BytesAre(f);
      var inum := Ialloc(T_FILE);
      EmptyHolds(d, tab, inum);
      ok := AppendTo(ROOTINO, Dirent(inum, f.name), root);
      if !ok {
        return;
      }
      ghost var d1, tab1, free1 := d, tab, freeblock;
      var i := 0;
      while i < |f.chunks|
        invariant 0 <= i <= |f.chunks| && ok && freeinode == old(freeinode) + 1
        invariant Valid() && Fit(tab) && Fit(tab1) && |tab| == |tab1|
        invariant forall j: nat | j < |tab| :: tab[j].typ == tab1[j].typ
        invariant Holds(Files(d, tab), inum, Joined(f.chunks, i))
        invariant forall j: nat | j < |tab| && j != inum :: Files(d, tab)[j] == Files(d1, tab1)[j]
        invariant tab[ROOTINO].size == tab1[ROOTINO].size
        invariant |Joined(f.chunks, i)| <= MAXFILE * BSIZE
        invariant freeblock == free1 + Cost(|Joined(f.chunks, i)|) && (i == 0 || freeblock <= sb.size)
      {
        JoinedGrows(f.chunks, i + 1, |f.chunks|);
        CostGrows(|Joined(f.chunks, i + 1)|, |Bytes(f)|);
        ghost var fs := Files(d, tab);
        ok := AppendTo(inum, f.chunks[i], Joined(f.chunks, i));
        if !ok {
          return;
        }
        i := i + 1;
      }
    }
  }

  /** The root directory at the end: its entries, then empty entries up to a whole number
      of blocks. */
  ghost predicate RootHolds(fs: seq<File>, files: seq<HostFile>)
    requires |files| + 2 <= HALF
  {
    var n := ENTRY * (|files| + 2);
    && ROOTINO < |fs| && n <= |fs[ROOTINO].bytes| && fs[ROOTINO].size == Rounded(n)
    && fs[ROOTINO].bytes[..n] == Entries(files, |files|)
    && forall x | n <= x < |fs[ROOTINO].bytes| :: fs[ROOTINO].bytes[x] == 0
  }

  /** The root is a directory, and the `k` inodes behind it are files. */
  ghost predicate Types(tab: seq<Dinode>, k: nat) {
    k + 2 <= |tab| && tab[ROOTINO].typ == T_DIR && forall j | 2 <= j < k + 2 :: tab[j].typ == T_FILE
  }

  lemma TypesNext(tab: seq<Dinode>, tab': seq<Dinode>, k: nat)
    requires Types(tab, k) && |tab'| == |tab| && k + 2 < |tab|
    requires tab'[k + 2].typ == T_FILE && forall j: nat | j < k + 2 :: tab'[j].typ == tab[j].typ
    ensures Types(tab', k + 1) && tab'[ROOTINO].typ != 0
  {
  }

  lemma TypesSized(tab: seq<Dinode>, k: nat, size: nat)
    requires Types(tab, k)
    ensures Types(tab[ROOTINO := WithSize(tab[ROOTINO], size)], k)
  {
  }

  lemma TypesStart(tab: seq<Dinode>)
    requires |tab| >= 2 && tab[ROOTINO].typ == T_DIR
    ensures Types(tab, 0)
  {
  }

  /** main: the image holds the root directory and the files, and it satisfies the file
      system invariant exactly when the root directory's entries do not fill their last
      block.  `ok` is false where mkfs exits with an error. */
  method Build(sb: Super, super: Block, files: seq<HostFile>) returns (img: Image, ok: bool)
    requires sb.inodestart > 1 && sb.inodestart + sb.ninodes / IPB + 1 <= sb.bmapstart
    requires sb.DataStart() <= sb.size < WORD_LIMIT && |files| + 2 <= sb.ninodes <= HALF
    // It fails exactly if the root directory or a file is too long, or the image is too small for
    // all of them, or they do not fit one bitmap block.
    ensures ok <==> Room(sb, files, |files|) && sb.DataStart() + Used(files, |files|) < BPB
    ensures ok ==>
              && img.sb == sb && Fit(img.tab) && RootHolds(Files(img.d, img.tab), files)
              && Types(img.tab, |files|)
              && (forall k: nat | k < |files| ::
                    Holds(Files(img.d, img.tab), k + 2, Joined(files[k].chunks, |files[k].chunks|)))
              && (Consistent(img.d, sb, img.tab, img.owner, -1) <==> ENTRY * (|files| + 2) % BSIZE != 0)
  {
    hide Made, Tight, Clean, FileOf, Dirent, Laid, Consistent, NameField, Joined, RootHolds, Rounded, Files, Types;
    hide Room, Used, Cost, Bytes, Lean;
    img := new Image(sb, super);
    RoomStart(sb, files);
    ok := img.MakeRoot();
    if !ok {
      NoRoom(sb, files, 0);
      return;
    }
    var i := 0;
    while i < |files|
      invariant 0 <= i <= |files| && ok && img.Valid() && img.sb == sb && |img.tab| == sb.ninodes && Fit(img.tab)
      invariant img.freeinode == i + 2 && Types(img.tab, i) && img.tab[ROOTINO].typ != 0
      invariant img.tab[ROOTINO].size == ENTRY * (i + 2)
      invariant Room(sb, files, i) && img.freeblock == sb.DataStart() + Used(files, i)
      invariant fresh(img) && Holds(Files(img.d, img.tab), ROOTINO, Entries(files, i))
      invariant forall k: nat | k < i :: Holds(Files(img.d, img.tab), k + 2, Joined(files[k].chunks, |files[k].chunks|))
    {
      ghost var tab := img.tab;
      RoomNext(sb, files, i);
      ok := img.AddFile(files[i], Entries(files, i));
      if !ok {
        NoRoom(sb, files, i + 1);
        return;
      }
      TypesNext(tab, img.tab, i);
      i := i + 1;
    }
    CleanRoot(Files(img.d, img.tab), files);
    TypesSized(img.tab, |files|, Rounded(img.tab[ROOTINO].size));
    img.RoundRoot(ROOTINO);
    ok := img.Balloc();
  }

  lemma CleanRoot(fs: seq<File>, files: seq<HostFile>)
    requires |files| + 2 <= HALF
    requires Clean(fs) && Holds(fs, ROOTINO, Entries(files, |files|))
    ensures RootHolds(fs[ROOTINO := RoundedFile(fs[ROOTINO])], files)
  {
    hide Entries;
    assert fs[ROOTINO].size == ENTRY * (|files| + 2);
  }
}
