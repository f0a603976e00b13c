/** Block allocation and inode content of kernel/fs.c.  `d` is the disk as bread and
    log_write present it (Log.FsLog.logical): reading block b is `d[b]`, log_write of a
    buffer for b replaces `d[b]` and adds b to `logged`. */
module Fs {
  import opened Blocks
  import opened Counting
  import opened FsLayout
  import opened FsInv

  /** The contents of a file as a byte sequence. */
  ghost function Contents(d: Disk, ino: Dinode): (s: seq<Byte>)
    requires ino.Fits() && ino.size <= MAXFILE * BSIZE
    ensures |s| == ino.size
  {
    FileOf(d, ino).bytes[..ino.size]
  }

  lemma ContentsSlice(d: Disk, ino: Dinode, a: nat, b: nat)
    requires ino.Fits() && a <= b <= ino.size <= MAXFILE * BSIZE
    ensures Contents(d, ino)[a..b] == FileOf(d, ino).bytes[a..b]
  {
  }

  /** An operation that allocated at most `n` blocks has added to the transaction at most
      blocks in `data` and `n` bitmap blocks. */
  ghost predicate LogsAtMost(logged: set<nat>, bitmaps: set<nat>, logged': set<nat>, bitmaps': set<nat>,
                             data: set<nat>, n: nat) {
    logged' <= logged + bitmaps' + data && bitmaps <= bitmaps' && |bitmaps'| <= |bitmaps| + n
  }

  lemma LogsChain(l0: set<nat>, b0: set<nat>, l1: set<nat>, b1: set<nat>, l2: set<nat>, b2: set<nat>,
                  data: set<nat>, more: set<nat>, n: nat, m: nat)
    requires LogsAtMost(l0, b0, l1, b1, data, n) && LogsAtMost(l1, b1, l2, b2, more, m) && data <= more
    ensures LogsAtMost(l0, b0, l2, b2, more, n + m)
  {
  }

  lemma LogsNew(l0: set<nat>, b0: set<nat>, l: set<nat>, b: set<nat>, bb: nat, addr: nat, ind: nat)
    requires (l == l0 && b == b0) || (l == l0 + {bb, addr, ind} && b == b0 + {bb} && addr != 0 && ind != 0)
    ensures LogsAtMost(l0, b0, l, b, {addr, ind} - {0}, 1)
  {
  }

  /** Whatever differs from the disk the operation began on has been logged. */
  ghost predicate Recorded(base: Disk, d: Disk, logged: set<nat>) {
    |base| == |d| && forall b: nat | b < |d| && b !in logged :: d[b] == base[b]
  }

  /** An operation has logged what it changed, from the first inode block on, and `bitmaps` are
      bitmap blocks. */
  ghost predicate Noted(sb: Super, base: Disk, d: Disk, logged: set<nat>, bitmaps: set<nat>) {
    && Recorded(base, d, logged) && bitmaps <= sb.BitmapBlocks()
    && forall b | b in logged :: sb.inodestart <= b < sb.size
  }

  /** What itrunc logs before the inode: some bitmap blocks. */
  ghost predicate LogsBitmaps(sb: Super, l0: set<nat>, b0: set<nat>, l: set<nat>, b: set<nat>) {
    l <= l0 + b && b0 <= b <= b0 + sb.BitmapBlocks()
  }

  /** How many blocks bmap has to allocate for file block `bn`. */
  ghost function Missing(d: Disk, ino: Dinode, bn: nat): nat
    requires ino.Fits() && bn < MAXFILE
  {
    (if Ref(d, ino, SlotOf(bn)) == 0 then 1 else 0) + (if bn >= NDIRECT && ino.addrs[NDIRECT] == 0 then 1 else 0)
  }

  /** The data block and the indirect block behind file block `bn`. */
  ghost function Behind(d: Disk, ino: Dinode, bn: nat): set<nat>
    requires ino.Fits() && bn < MAXFILE
  {
    {Ref(d, ino, SlotOf(bn)), ino.addrs[NDIRECT]} - {0}
  }

  /** Logging the data block after bmap adds nothing that is not behind `bn`. */
  lemma BehindPut(l0: set<nat>, b0: set<nat>, l: set<nat>, b: set<nat>, d: Disk, d': Disk, tab: seq<Dinode>,
                  i: nat, bn: nat, n: nat)
    requires i < |tab| && tab[i].Fits() && bn < MAXFILE && SameRefs(d, tab, d', tab)
    requires LogsAtMost(l0, b0, l, b, Behind(d, tab[i], bn), n) && Ref(d, tab[i], SlotOf(bn)) != 0
    ensures LogsAtMost(l0, b0, l + {Ref(d, tab[i], SlotOf(bn))}, b, Behind(d', tab[i], bn), n)
  {
  }

  /** `s` after `t` is written at `at <= |s|`: replacing, and extending if need be. */
  function WriteAt(s: seq<Byte>, at: nat, t: seq<Byte>): (r: seq<Byte>)
    requires at <= |s|
    ensures |r| == Max(|s|, at + |t|)
  {
    s[..at] + t + if at + |t| < |s| then s[at + |t|..] else []
  }

  function Max(a: nat, b: nat): nat { if a < b then b else a }

  lemma WrittenContents(bytes: seq<Byte>, size: nat, at: nat, t: seq<Byte>)
    requires at <= size <= |bytes| && at + |t| <= |bytes|
    ensures Spliced(bytes, at, t)[..Max(size, at + |t|)] == WriteAt(bytes[..size], at, t)
  {
  }

  function Min(a: nat, b: nat): nat { if a < b then a else b }

  lemma BlockBounds(off: nat, size: nat)
    requires off < size <= MAXFILE * BSIZE
    ensures off / BSIZE < MAXFILE && off / BSIZE * BSIZE < size
  {
  }

  /** The next chunk of a file, inside one block. */
  lemma ChunkOfFile(bytes: seq<Byte>, from: nat, off: nat, m: nat)
    requires |bytes| == MAXFILE * BSIZE && from <= off < |bytes| && off % BSIZE + m <= BSIZE
    ensures off + m <= |bytes| && (off / BSIZE + 1) * BSIZE <= |bytes|
    ensures bytes[from..off] + bytes[off / BSIZE * BSIZE..(off / BSIZE + 1) * BSIZE][off % BSIZE..off % BSIZE + m]
         == bytes[from..off + m]
  {
    assert off == off / BSIZE * BSIZE + off % BSIZE;
  }

  // ---- Counting the blocks a write logs ----

  /** How many blocks bytes `off .. off + n` lie in. */
  function Touched(off: nat, n: nat): nat {
    if n == 0 then 0 else (off + n - 1) / BSIZE - off / BSIZE + 1
  }

  /** How many of these blocks may be new: the first is not if `off` lies inside it. */
  function Fresh(off: nat, n: nat): nat {
    if off % BSIZE != 0 && n > 0 then Touched(off, n) - 1 else Touched(off, n)
  }

  /** The size of the next chunk of a write of `n` bytes at `off`, after `tot` of them. */
  function ChunkSize(off: nat, tot: nat, n: nat): (m: nat)
    requires tot < n
    ensures 0 < m <= n - tot && (off + tot) % BSIZE + m <= BSIZE
  {
    var room := BSIZE - (off + tot) % BSIZE;
    if n - tot < room then n - tot else room
  }

  /** At a block boundary, or at the start of the write. */
  ghost predicate Aligned(off: nat, tot: nat) {
    tot == 0 || (off + tot) % BSIZE == 0
  }

  /** Past the first block, a write touches one block more for each block begun. */
  lemma TouchedNext(off: nat, tot: nat, m: nat)
    requires 0 < m && (off + tot) % BSIZE + m <= BSIZE && Aligned(off, tot)
    ensures Touched(off, tot + m) == Touched(off, tot) + 1
  {
    if tot > 0 {
      var k := (off + tot) / BSIZE;
      assert off + tot == k * BSIZE;
      assert (off + tot - 1) / BSIZE == k - 1;
    }
    assert (off + tot + m - 1) / BSIZE == (off + tot) / BSIZE;
  }

  lemma TouchedGrows(off: nat, n: nat, n': nat)
    requires n <= n'
    ensures Touched(off, n) <= Touched(off, n') && Fresh(off, n) <= Fresh(off, n')
  {
    if n > 0 {
      assert (off + n - 1) / BSIZE <= (off + n' - 1) / BSIZE;
    }
  }

  lemma RoundCounts(off: nat, tot: nat, n: nat)
    requires tot < n && Aligned(off, tot)
    ensures var m := ChunkSize(off, tot, n);
            && Touched(off, tot + m) == Touched(off, tot) + 1 <= Touched(off, n)
            && Fresh(off, tot) + (if (off + tot) % BSIZE == 0 then 1 else 0) <= Fresh(off, tot + m) <= Fresh(off, n)
            && (tot + m < n ==> Aligned(off, tot + m))
  {
    var m := ChunkSize(off, tot, n);
    TouchedNext(off, tot, m);
    TouchedGrows(off, tot + m, n);
    if tot + m < n {
      assert off + tot + m == ((off + tot) / BSIZE + 1) * BSIZE;
    }
  }

  /** After `c` rounds that allocated `news` data blocks: the transaction has grown by
      bitmap blocks, the data blocks `ds` and the indirect block `ind`. */
  ghost predicate Account(l0: set<nat>, b0: set<nat>, l: set<nat>, b: set<nat>, ds: set<nat>, ind: nat,
                          c: nat, news: nat, extra: nat) {
    l <= l0 + b + ds + ({ind} - {0}) && b0 <= b && |ds| <= c && |b| <= |b0| + news + extra
  }

  lemma AccountStart(l: set<nat>, b: set<nat>, ind: nat)
    ensures Account(l, b, l, b, {}, ind, 0, 0, if ind != 0 then 1 else 0)
  {
  }

  lemma AccountStep(l0: set<nat>, b0: set<nat>, l: set<nat>, b: set<nat>, l': set<nat>, b': set<nat>, ds: set<nat>,
                    r: nat, ind: nat, ind': nat, c: nat, news: nat, more: nat, moreInd: nat)
    requires Account(l0, b0, l, b, ds, ind, c, news, if ind != 0 then 1 else 0)
    requires LogsAtMost(l, b, l', b', {r, ind'} - {0}, more + moreInd)
    requires ind != 0 ==> ind' == ind
    requires moreInd <= if ind == 0 then 1 else 0
    ensures Account(l0, b0, l', b', ds + {r}, ind', c + 1, news + more, 1)
    ensures ind' != 0 || moreInd == 0 ==>
              Account(l0, b0, l', b', ds + {r}, ind', c + 1, news + more, if ind' != 0 then 1 else 0)
  {
  }

  lemma AccountWeaken(l0: set<nat>, b0: set<nat>, l: set<nat>, b: set<nat>, ds: set<nat>, ind: nat,
                      c: nat, news: nat, extra: nat, c': nat)
    requires Account(l0, b0, l, b, ds, ind, c, news, extra) && c <= c' && extra <= 1
    ensures Account(l0, b0, l, b, ds, ind, c', news, 1)
  {
  }

  /** The bound on a write: data blocks, a bitmap block for each new one, the indirect
      block and its bitmap block, the inode. */
  lemma AccountTotal(l0: set<nat>, b0: set<nat>, l: set<nat>, b: set<nat>, ds: set<nat>, ind: nat,
                     c: nat, news: nat, inode: nat)
    requires Account(l0, b0, l, b, ds, ind, c, news, 1)
    ensures |l + {inode}| <= |l0| + |b0| + c + news + 3
    ensures |l + {inode}| <= |l0| + |b| + c + 2
  {
    var all := l0 + b + ds + ({ind} - {0}) + {inode};
    assert l + {inode} <= all;
    SubsetSize(l + {inode}, all);
    assert |all| <= |l0 + b| + |ds| + 2 && |l0 + b| <= |l0| + |b|;
  }

  /** `t` has been written at `at` to inode `i` since `d0, tab0, owner0`; the size has not
      been changed yet. */
  ghost predicate Written(sb: Super, i: nat, d0: Disk, tab0: seq<Dinode>, owner0: map<nat, Place>,
                          d: Disk, tab: seq<Dinode>, owner: map<nat, Place>, at: nat, t: seq<Byte>) {
    && Refs(d0, sb, tab0, owner0) && Refs(d, sb, tab, owner)
    && i < |tab| == |tab0| && tab == tab0[i := tab[i]] && SameMeta(tab0[i], tab[i])
    && at + |t| <= MAXFILE * BSIZE
    && Files(d, tab) == Files(d0, tab0)[i := File(tab[i].size, Spliced(FileOf(d0, tab0[i]).bytes, at, t))]
    && (forall b | b in owner0 :: b in owner && owner[b] == owner0[b])
    && (forall bn: nat | bn < MAXFILE && at / BSIZE <= bn && bn * BSIZE < at + |t| :: Ref(d, tab[i], SlotOf(bn)) != 0)
  }

  lemma WrittenStart(sb: Super, i: nat, d: Disk, tab: seq<Dinode>, owner: map<nat, Place>, at: nat)
    requires Linked(d, sb, tab, owner, i) && i < |tab| && at <= tab[i].size
    ensures Written(sb, i, d, tab, owner, d, tab, owner, at, [])
  {
    assert Spliced(FileOf(d, tab[i]).bytes, at, []) == FileOf(d, tab[i]).bytes;
    assert Files(d, tab)[i] == FileOf(d, tab[i]);
  }

  /** Everything up to the end of the write is allocated. */
  lemma CoveredUpTo(sb: Super, i: nat, d0: Disk, tab0: seq<Dinode>, owner0: map<nat, Place>,
                    d: Disk, tab: seq<Dinode>, owner: map<nat, Place>, at: nat, t: seq<Byte>)
    requires Written(sb, i, d0, tab0, owner0, d, tab, owner, at, t) && Linked(d, sb, tab, owner, i) && at <= tab[i].size
    ensures forall bn: nat | bn < MAXFILE && bn * BSIZE < at + |t| :: Ref(d, tab[i], SlotOf(bn)) != 0
    ensures Files(d, tab)[i] == File(tab[i].size, Spliced(FileOf(d0, tab0[i]).bytes, at, t))
    ensures SameMeta(tab0[i], tab[i]) && OthersSame(d0, tab0, d, tab, i)
  {
    forall bn: nat | bn < MAXFILE && bn * BSIZE < at + |t|
      ensures Ref(d, tab[i], SlotOf(bn)) != 0
    {
      assert bn < at / BSIZE ==> bn * BSIZE < tab[i].size;
    }
  }

  /** One more chunk, inside one block. */
  lemma WrittenNext(sb: Super, i: nat, d0: Disk, tab0: seq<Dinode>, owner0: map<nat, Place>,
                    d1: Disk, tab1: seq<Dinode>, owner1: map<nat, Place>,
                    d: Disk, tab: seq<Dinode>, owner: map<nat, Place>, at: nat, t: seq<Byte>, u: seq<Byte>)
    requires Written(sb, i, d0, tab0, owner0, d1, tab1, owner1, at, t) && Linked(d, sb, tab, owner, i)
    requires |tab| == |tab1| && tab == tab1[i := tab[i]] && SameMeta(tab1[i], tab[i])
    requires at + |t| + |u| <= MAXFILE * BSIZE
    requires Files(d, tab) == Files(d1, tab1)[i := File(tab[i].size, Spliced(FileOf(d1, tab1[i]).bytes, at + |t|, u))]
    requires forall b | b in owner1 :: b in owner && owner[b] == owner1[b]
    requires (at + |t|) % BSIZE + |u| <= BSIZE && at + |t| < MAXFILE * BSIZE
    requires Ref(d, tab[i], SlotOf((at + |t|) / BSIZE)) != 0
    ensures Written(sb, i, d0, tab0, owner0, d, tab, owner, at, t + u)
    ensures tab1[i].addrs[NDIRECT] != 0 ==> tab[i].addrs[NDIRECT] == tab1[i].addrs[NDIRECT]
  {
    hide OnDisk, Bits, NoHoles, FreeEmpty, FileOf, Refs, Spliced, Ref;
    RefsFit(d0, sb, tab0, owner0);
    RefsStay(d1, sb, tab1, owner1, d, tab, owner, i);
    SplicedTwice(FileOf(d0, tab0[i]).bytes, at, t, u);
    assert FileOf(d1, tab1[i]) == Files(d1, tab1)[i];
    forall bn: nat | bn < MAXFILE && at / BSIZE <= bn && bn * BSIZE < at + |t + u|
      ensures Ref(d, tab[i], SlotOf(bn)) != 0
    {
      if bn * BSIZE < at + |t| {
        assert Ref(d1, tab1[i], SlotOf(bn)) != 0;
      } else {
        assert bn == (at + |t|) / BSIZE;
      }
    }
  }

  /** A round that stored nothing. */
  lemma WrittenSame(sb: Super, i: nat, d0: Disk, tab0: seq<Dinode>, owner0: map<nat, Place>,
                    d1: Disk, tab1: seq<Dinode>, owner1: map<nat, Place>,
                    d: Disk, tab: seq<Dinode>, owner: map<nat, Place>, at: nat, t: seq<Byte>)
    requires Written(sb, i, d0, tab0, owner0, d1, tab1, owner1, at, t) && Linked(d, sb, tab, owner, i)
    requires |tab| == |tab1| && tab == tab1[i := tab[i]] && SameMeta(tab1[i], tab[i])
    requires Files(d, tab) == Files(d1, tab1)
    requires forall b | b in owner1 :: b in owner && owner[b] == owner1[b]
    ensures Written(sb, i, d0, tab0, owner0, d, tab, owner, at, t)
    ensures tab1[i].addrs[NDIRECT] != 0 ==> tab[i].addrs[NDIRECT] == tab1[i].addrs[NDIRECT]
  {
    RefsStay(d1, sb, tab1, owner1, d, tab, owner, i);
  }

  /** An in-memory inode: the fields of struct inode that live on disk. */
  class Inode {
    var inum: nat
    var din: Dinode

    constructor (inum: nat, din: Dinode)
      ensures this.inum == inum && this.din == din
    {
      this.inum, this.din := inum, din;
    }
  }

  lemma SameBitmapBlock(d: Disk, sb: Super, b: nat, bi: nat)
    requires sb.Fits(d) && b % BPB == 0 && bi < BPB && b + bi < sb.size
    ensures sb.BBlock(b) < |d| && (BitAt(d, sb, b + bi) <==> Bit(d[sb.BBlock(b)], bi))
  {
  }

  class FileSystem {
    const sb: Super
    var d: Disk
    var logged: set<nat>
    /** Every inode: the in-memory one where it is newer than the disk. */
    ghost var tab: seq<Dinode>
    ghost var owner: map<nat, Place>
    /** Bitmap blocks logged so far. */
    ghost var bitmaps: set<nat>
    /** The disk when the operation began. */
    ghost var base: Disk

    /** No inode is newer than the disk. */
    ghost predicate Valid()
      reads this
    {
      Consistent(d, sb, tab, owner, -1) && Noted(sb, base, d, logged, bitmaps)
    }

    /** Inode `ip` is locked and may be newer than its copy on the disk. */
    ghost predicate Held(ip: Inode)
      reads this, ip
    {
      && Consistent(d, sb, tab, owner, ip.inum) && Noted(sb, base, d, logged, bitmaps)
      && ip.inum < |tab| && tab[ip.inum] == ip.din
    }

    /** A held inode that is in use. */
    ghost predicate Open(ip: Inode)
      reads this, ip
    {
      Held(ip) && ip.din.typ != 0
    }

    constructor (sb: Super, d: Disk, ghost tab: seq<Dinode>, ghost owner: map<nat, Place>)
      requires Consistent(d, sb, tab, owner, -1)
      ensures Valid() && this.sb == sb && this.d == d && this.tab == tab && this.owner == owner && logged == {}
    {
      this.sb, this.d, this.tab, this.owner := sb, d, tab, owner;
      logged, bitmaps, base := {}, {}, d;
    }

    /** A new operation: it has logged nothing yet. */
    method BeginOp()
      requires Valid()
      modifies this`logged, this`bitmaps, this`base
      ensures Valid() && logged == {} && bitmaps == {} && base == d
    {
      logged, bitmaps, base := {}, {}, d;
    }

    // ---- Blocks ----

    lemma BitmapsLogged()
      requires Noted(sb, base, d, logged, bitmaps)
      ensures |bitmaps| <= |sb.BitmapBlocks()|
    {
      SubsetSize(bitmaps, sb.BitmapBlocks());
    }

    /** balloc: the first free block, zeroed and marked; 0 if there is none. */
    method Balloc(ghost used: set<nat>) returns (r: nat)
      requires sb.Fits(d) && Bits(d, sb, used) && Noted(sb, base, d, logged, bitmaps)
      modifies this`d, this`logged, this`bitmaps
      ensures sb.Fits(d) && Noted(sb, base, d, logged, bitmaps)
      ensures r == 0 ==> d == old(d) && logged == old(logged) && bitmaps == old(bitmaps)
      ensures r == 0 ==> forall b | sb.DataStart() <= b < sb.size :: b in used
      ensures r != 0 ==>
                && Allocated(old(d), d, sb, used, r)
                && logged == old(logged) + {sb.BBlock(r), r} && bitmaps == old(bitmaps) + {sb.BBlock(r)}
      ensures r != 0 ==> forall b | sb.DataStart() <= b < r :: b in used
    {
      hide ZeroBlock, Allocated, HasBit, Noted, Bits, SetBit, Bit, BitAt, MarkedTo;
      var b := 0;
      NoneMarked(d, sb);
      while b < sb.size
        invariant d == old(d) && b % BPB == 0 && MarkedTo(d, sb, b)
        invariant logged == old(logged) && bitmaps == old(bitmaps)
      {
        r := Scan(b, used);
        if r != 0 {
          return;
        }
        b := b + BPB;
      }
      MarkedInUse(d, sb, used, b);
      r := 0;
    }

    /** The inner loop of balloc, over the bits of one bitmap block. */
    method Scan(b: nat, ghost used: set<nat>) returns (r: nat)
      requires sb.Fits(d) && Bits(d, sb, used) && Noted(sb, base, d, logged, bitmaps)
      requires b < sb.size && b % BPB == 0 && MarkedTo(d, sb, b)
      modifies this`d, this`logged, this`bitmaps
      ensures sb.Fits(d) && Noted(sb, base, d, logged, bitmaps)
      ensures r == 0 ==>
                && d == old(d) && logged == old(logged) && bitmaps == old(bitmaps)
                && sb.Fits(d) && MarkedTo(d, sb, b + BPB)
      ensures r != 0 ==>
                && Allocated(old(d), d, sb, used, r)
                && logged == old(logged) + {sb.BBlock(r), r} && bitmaps == old(bitmaps) + {sb.BBlock(r)}
                && forall c | sb.DataStart() <= c < r :: c in used
    {
      hide ZeroBlock, Allocated, HasBit, Noted, Bits, SetBit, Bit, BitAt, MarkedTo;
      var bi := 0;
      while bi < BPB && b + bi < sb.size
        invariant d == old(d) && 0 <= bi <= BPB && MarkedTo(d, sb, b + bi)
        invariant logged == old(logged) && bitmaps == old(bitmaps)
      {
        SameBitmapBlock(d, sb, b, bi);
        if !Bit(d[sb.BBlock(b)], bi) {
          MarkedInUse(d, sb, used, b + bi);
          MarkBlock(b, bi, used);
          return b + bi;
        }
        MarkedNext(d, sb, b + bi, b + BPB);
        bi := bi + 1;
      }
      MarkedNext(d, sb, b + bi, b + BPB);
      r := 0;
    }

    /** The inner part of balloc: mark block b + bi in use, and zero it. */
    method MarkBlock(b: nat, bi: nat, ghost used: set<nat>)
      requires sb.Fits(d) && Bits(d, sb, used) && Noted(sb, base, d, logged, bitmaps)
      requires b + bi < sb.size && !BitAt(d, sb, b + bi) && b % BPB == 0 && bi < BPB
      modifies this`d, this`logged, this`bitmaps
      ensures sb.Fits(d) && sb.DataStart() <= b + bi && Noted(sb, base, d, logged, bitmaps)
                && Allocated(old(d), d, sb, used, b + bi)
      ensures logged == old(logged) + {sb.BBlock(b + bi), b + bi} && bitmaps == old(bitmaps) + {sb.BBlock(b + bi)}
    {
      hide ZeroBlock;
      ghost var r := b + bi;
      assert sb.BBlock(r) == sb.BBlock(b) && r % BPB == bi && sb.DataStart() <= r && r !in used;
      StoreBit(d, d, sb, r, used);
      d := d[sb.BBlock(b) := SetBit(d[sb.BBlock(b)], bi)];
      StoreBit(old(d), d, sb, r, used);
      logged := logged + {sb.BBlock(b)};
      bitmaps := bitmaps + {sb.BBlock(b)};
      Bzero(b + bi, used + {r});
    }

    method Bzero(b: nat, ghost used: set<nat>)
      requires sb.Fits(d) && Bits(d, sb, used) && Noted(sb, base, d, logged, bitmaps) && sb.DataStart() <= b < sb.size
      modifies this`d, this`logged
      ensures d == old(d)[b := ZeroBlock()] && logged == old(logged) + {b}
      ensures sb.Fits(d) && Bits(d, sb, used) && Noted(sb, base, d, logged, bitmaps)
    {
      d := d[b := ZeroBlock()];
      logged := logged + {b};
      forall c: nat | c < sb.size
        ensures BitAt(d, sb, c) == BitAt(old(d), sb, c)
      {
        assert c / BPB <= sb.size / BPB;
      }
    }

    /** bfree.  `ok` is false where the code panics with "freeing free block". */
    method Bfree(b: nat, ghost used: set<nat>) returns (ok: bool)
      requires sb.Fits(d) && Bits(d, sb, used) && Noted(sb, base, d, logged, bitmaps) && sb.DataStart() <= b < sb.size
      modifies this`d, this`logged, this`bitmaps
      ensures ok <==> b in used
      ensures !ok ==> unchanged(this)
      ensures ok ==>
                && Freed(old(d), d, sb, used - {b}) && Noted(sb, base, d, logged, bitmaps)
                && sb.BBlock(b) in sb.BitmapBlocks()
                && logged == old(logged) + {sb.BBlock(b)} && bitmaps == old(bitmaps) + {sb.BBlock(b)}
    {
      assert BitAt(d, sb, b) <==> b in used;
      assert b / BPB <= sb.size / BPB;
      StoreBit(d, d, sb, b, used);
      if !Bit(d[sb.BBlock(b)], b % BPB) {
        return false;
      }
      d := d[sb.BBlock(b) := ClearBit(d[sb.BBlock(b)], b % BPB)];
      StoreBit(old(d), d, sb, b, used);
      logged := logged + {sb.BBlock(b)};
      bitmaps := bitmaps + {sb.BBlock(b)};
      return true;
    }

    // ---- bmap ----

    /** No data block is free. */
    ghost predicate Full()
      reads this
    {
      forall b | sb.DataStart() <= b < sb.size :: b in owner
    }

    /** The inner `if` of the next method, with `ip->addrs[k] == 0`. */
    method NewDirect(ip: Inode, k: nat) returns (addr: nat)
      requires Open(ip) && k <= NDIRECT && ip.din.addrs[k] == 0
      modifies this`d, this`logged, this`bitmaps, this`tab, this`owner, ip`din
      ensures Open(ip) && SameFiles(old(d), old(tab), d, tab)
      ensures addr == 0 ==>
                && Full() && d == old(d) && owner == old(owner)
                && logged == old(logged) && bitmaps == old(bitmaps)
      ensures addr != 0 ==> addr !in old(owner) && owner == old(owner)[addr := Place(ip.inum, k)]
      ensures addr != 0 ==> addr < |d| && d[addr] == ZeroBlock()
      ensures addr != 0 ==>
                logged == old(logged) + {sb.BBlock(addr), addr} && bitmaps == old(bitmaps) + {sb.BBlock(addr)}
      ensures |old(ip.din).addrs| == NDIRECT + 1
      ensures ip.din == SetAddr(old(ip.din), k, addr)
      ensures tab == old(tab)[ip.inum := ip.din]
    {
      hide OnDisk, NoHoles, FreeEmpty, Bits;
      addr := Balloc(owner.Keys);
      if addr != 0 {
        GrowDirect(old(d), d, sb, tab, owner, ip.inum, k, addr);
        ip.din := SetAddr(ip.din, k, addr);
        owner := owner[addr := Place(ip.inum, k)];
        tab := tab[ip.inum := ip.din];
      } else {
        assert ip.din.addrs == ip.din.addrs[k := addr];
      }
    }

    /** `if((addr = ip->addrs[k]) == 0) { addr = balloc(); ip->addrs[k] = addr; }` */
    method AllocDirect(ip: Inode, k: nat) returns (addr: nat)
      requires Open(ip) && k <= NDIRECT
      modifies this`d, this`logged, this`bitmaps, this`tab, this`owner, ip`din
      ensures Open(ip)
      ensures SameFiles(old(d), old(tab), d, tab)
      ensures addr == 0 ==> Full()
      ensures |old(ip.din).addrs| == NDIRECT + 1
      ensures ip.din == SetAddr(old(ip.din), k, addr)
      ensures tab == old(tab)[ip.inum := ip.din]
      ensures forall b | b in old(owner) :: b in owner && owner[b] == old(owner)[b]
      ensures LogsAtMost(old(logged), old(bitmaps), logged, bitmaps, {addr} - {0},
                if old(ip.din).addrs[k] == 0 then 1 else 0)
      ensures old(ip.din).addrs[k] != 0 ==> unchanged(this) && unchanged(ip)
      ensures old(ip.din).addrs[k] == 0 && addr != 0 ==> addr < |d| && d[addr] == ZeroBlock()
    {
      hide OnDisk, Bits, NoHoles;
      addr := ip.din.addrs[k];
      if addr == 0 {
        addr := NewDirect(ip, k);
      } else {
        assert ip.din.addrs == ip.din.addrs[k := addr];
      }
    }

    /** A data block entered at `a[j]` of the indirect block, with `a[j] == 0`. */
    method NewEntry(ip: Inode, j: nat) returns (addr: nat)
      requires Open(ip) && j < NINDIRECT && ip.din.addrs[NDIRECT] != 0
      requires Ref(d, ip.din, NDIRECT + 1 + j) == 0
      modifies this`d, this`logged, this`bitmaps, this`owner
      ensures Open(ip) && SameFiles(old(d), tab, d, tab)
      ensures addr == 0 ==>
                && Full() && d == old(d) && owner == old(owner)
                && logged == old(logged) && bitmaps == old(bitmaps)
      ensures addr != 0 ==> addr !in old(owner) && owner == old(owner)[addr := Place(ip.inum, NDIRECT + 1 + j)]
      ensures addr != 0 ==> logged == old(logged) + {sb.BBlock(addr), addr, ip.din.addrs[NDIRECT]}
                            && bitmaps == old(bitmaps) + {sb.BBlock(addr)}
      ensures Ref(d, ip.din, NDIRECT + 1 + j) == addr
    {
      hide OnDisk, NoHoles, FreeEmpty, Bits;
      var ind := ip.din.addrs[NDIRECT];
      addr := Balloc(owner.Keys);
      if addr != 0 {
        GrowEntry(old(d), d, sb, tab, owner, ip.inum, j, addr);
        d := d[ind := SetWord(d[ind], j, addr)];
        logged := logged + {ind};
        owner := owner[addr := Place(ip.inum, NDIRECT + 1 + j)];
      }
    }

    /** `a[j]` of the indirect block, allocated if it is 0. */
    method EntryOf(ip: Inode, j: nat) returns (addr: nat)
      requires Open(ip) && j < NINDIRECT && ip.din.addrs[NDIRECT] != 0
      modifies this`d, this`logged, this`bitmaps, this`owner
      ensures Open(ip) && SameFiles(old(d), tab, d, tab)
      ensures addr == Ref(d, ip.din, NDIRECT + 1 + j)
      ensures addr == 0 ==> Full()
      ensures Ref(old(d), ip.din, NDIRECT + 1 + j) != 0 ==> unchanged(this)
      ensures forall b | b in old(owner) :: b in owner && owner[b] == old(owner)[b]
      ensures LogsAtMost(old(logged), old(bitmaps), logged, bitmaps, {addr, ip.din.addrs[NDIRECT]} - {0},
                         if Ref(old(d), ip.din, NDIRECT + 1 + j) == 0 then 1 else 0)
    {
      hide NoHoles, Bits, OnDisk;
      var ind := ip.din.addrs[NDIRECT];
      assert Ref(d, tab[ip.inum], NDIRECT) == ind;
      addr := Word(d[ind], j);
      assert addr == Ref(d, ip.din, NDIRECT + 1 + j);
      if addr == 0 {
        ghost var l0, b0 := logged, bitmaps;
        addr := NewEntry(ip, j);
        LogsNew(l0, b0, logged, bitmaps, sb.BBlock(addr), addr, ind);
      }
    }

    /** bmap for `bn >= NDIRECT`. */
    method BmapIndirect(ip: Inode, j: nat) returns (addr: nat)
      requires Open(ip) && j < NINDIRECT
      modifies this`d, this`logged, this`bitmaps, this`tab, this`owner, ip`din
      ensures Open(ip) && tab == old(tab)[ip.inum := ip.din] && ip.din.Fits() && old(ip.din).Fits()
      ensures SameFiles(old(d), old(tab), d, tab)
      ensures SameMeta(old(ip.din), ip.din)
      ensures addr == Ref(d, ip.din, NDIRECT + 1 + j)
      ensures addr == 0 ==> Full()
      ensures Ref(old(d), old(ip.din), NDIRECT + 1 + j) != 0 ==>
                unchanged(this) && unchanged(ip)
      ensures forall b | b in old(owner) :: b in owner && owner[b] == old(owner)[b]
      ensures LogsAtMost(old(logged), old(bitmaps), logged, bitmaps, {addr, ip.din.addrs[NDIRECT]} - {0},
                         Missing(old(d), old(ip.din), NDIRECT + j))
    {
      hide Consistent, Noted;
      var ind := AllocDirect(ip, NDIRECT);
      if ind == 0 {
        return 0;
      }
      ZeroBlockWords(j);
      ghost var l1, b1 := logged, bitmaps;
      addr := EntryOf(ip, j);
      LogsChain(old(logged), old(bitmaps), l1, b1, logged, bitmaps, {ind}, {addr, ind} - {0},
                if old(ip.din).addrs[NDIRECT] == 0 then 1 else 0,
                if Ref(old(d), old(ip.din), NDIRECT + 1 + j) == 0 then 1 else 0);
    }

    /** bmap, without the panic on `bn >= MAXFILE` that its callers rule out.  It returns
        the block of file block `bn`, allocating it, and the indirect block, if need be;
        0 only if no block is free.  No byte of any file changes. */
    method Bmap(ip: Inode, bn: nat) returns (addr: nat)
      requires Open(ip) && bn < MAXFILE
      modifies this`d, this`logged, this`bitmaps, this`tab, this`owner, ip`din
      ensures Open(ip) && tab == old(tab)[ip.inum := ip.din] && ip.din.Fits() && old(ip.din).Fits()
      ensures SameFiles(old(d), old(tab), d, tab)
      ensures SameMeta(old(ip.din), ip.din)
      ensures addr == Ref(d, ip.din, SlotOf(bn))
      ensures addr == 0 ==> Full()
      ensures Ref(old(d), old(ip.din), SlotOf(bn)) != 0 ==>
                unchanged(this) && unchanged(ip)
      ensures forall b | b in old(owner) :: b in owner && owner[b] == old(owner)[b]
      ensures LogsAtMost(old(logged), old(bitmaps), logged, bitmaps, Behind(d, ip.din, bn),
                         Missing(old(d), old(ip.din), bn))
    {
      if bn < NDIRECT {
        addr := AllocDirect(ip, bn);
      } else {
        addr := BmapIndirect(ip, bn - NDIRECT);
      }
    }

    // ---- Inodes ----

    /** The in-memory part of ilock: read the inode from its block. */
    method Ilock(inum: nat) returns (ip: Inode)
      requires Valid() && inum < sb.ninodes && tab[inum].typ != 0
      ensures fresh(ip) && ip.inum == inum && Open(ip)
    {
      var ino := GetInode(d[sb.IBlock(inum)], inum % IPB);
      assert ino == InodeAt(d, sb, inum);
      ip := new Inode(inum, ino);
    }

    /** iupdate: the disk has caught up with the in-memory inode. */
    method Iupdate(ip: Inode)
      requires Held(ip)
      modifies this`d, this`logged
      ensures Valid() && Held(ip) && SameFiles(old(d), tab, d, tab)
      ensures logged == old(logged) + {sb.IBlock(ip.inum)}
      ensures SameRefs(old(d), tab, d, tab)
    {
      StoreInode(d, sb, tab, owner, ip.inum);
      var m := sb.IBlock(ip.inum);
      d := d[m := PutInode(d[m], ip.inum % IPB, ip.din)];
      logged := logged + {m};
    }

    // ---- Content ----

    /** The raw bytes of file `ip`, up to the largest possible size. */
    ghost function Bytes(ip: Inode): (b: seq<Byte>)
      requires Open(ip)
      reads this, ip
      ensures |b| == MAXFILE * BSIZE
    {
      Files(d, tab)[ip.inum].bytes
    }

    /** Copying `chunk` into the buffer of an allocated block and logging it. */
    method PutChunk(ip: Inode, off: nat, chunk: seq<Byte>, addr: nat)
      requires Open(ip) && off < MAXFILE * BSIZE && off % BSIZE + |chunk| <= BSIZE
      requires ip.din.Fits() && addr == Ref(d, ip.din, SlotOf(off / BSIZE)) != 0
      modifies this`d, this`logged
      ensures Open(ip) && SameRefs(old(d), tab, d, tab)
      ensures logged == old(logged) + {addr}
      ensures off + |chunk| <= MAXFILE * BSIZE
      ensures Files(d, tab) == old(Files(d, tab))[ip.inum := File(ip.din.size, Spliced(old(Bytes(ip)), off, chunk))]
    {
      hide Consistent, Spliced;
      RefInUse(d, sb, tab, owner, ip.inum, SlotOf(off / BSIZE));
      StoreChunk(d, sb, tab, owner, ip.inum, off, chunk);
      var o := off % BSIZE;
      d := d[addr := d[addr][..o] + chunk + d[addr][o + |chunk|..]];
      logged := logged + {addr};
    }

    /** One round of the loop of writei: bmap, copy in, log_write.  `copied` says whether
        the user copy succeeds; the round ends the loop unless it returns true. */
    method WriteStep(ip: Inode, off: nat, chunk: seq<Byte>, copied: bool) returns (done: bool)
      requires Open(ip) && off < MAXFILE * BSIZE && off % BSIZE + |chunk| <= BSIZE
      modifies this`d, this`logged, this`bitmaps, this`tab, this`owner, ip`din
      ensures Open(ip) && tab == old(tab)[ip.inum := ip.din] && ip.din.Fits() && old(ip.din).Fits()
      ensures SameMeta(old(ip.din), ip.din) && off + |chunk| <= MAXFILE * BSIZE
      ensures Fit(tab) && Fit(old(tab))
      ensures !done ==> Files(d, tab) == Files(old(d), old(tab))
      ensures done ==>
                Files(d, tab) ==
                  Files(old(d), old(tab))[ip.inum := File(ip.din.size, Spliced(old(Bytes(ip)), off, chunk))]
      ensures done ==> Ref(d, ip.din, SlotOf(off / BSIZE)) != 0
      ensures !done ==> !copied || (Full() && Ref(old(d), old(ip.din), SlotOf(off / BSIZE)) == 0)
      ensures done ==> copied
      ensures forall b | b in old(owner) :: b in owner && owner[b] == old(owner)[b]
      ensures LogsAtMost(old(logged), old(bitmaps), logged, bitmaps, Behind(d, ip.din, off / BSIZE),
                         Missing(old(d), old(ip.din), off / BSIZE))
    {
      hide Consistent;
      var addr := Bmap(ip, off / BSIZE);
      if addr == 0 || !copied {
        return false;
      }
      ghost var d1, l1 := d, logged;
      PutChunk(ip, off, chunk, addr);
      BehindPut(old(logged), old(bitmaps), l1, bitmaps, d1, d, tab, ip.inum, off / BSIZE,
                Missing(old(d), old(ip.din), off / BSIZE));
      return true;
    }

    /** One round keeps and extends what has been written. */
    method WriteRound(ip: Inode, chunk: seq<Byte>, copied: bool, ghost d0: Disk, ghost tab0: seq<Dinode>,
                      ghost owner0: map<nat, Place>, ghost at: nat, ghost t: seq<Byte>, off: nat) returns (done: bool)
      requires Open(ip) && off == at + |t|
      requires Written(sb, ip.inum, d0, tab0, owner0, d, tab, owner, at, t)
      requires off < MAXFILE * BSIZE && off % BSIZE + |chunk| <= BSIZE
      modifies this`d, this`logged, this`bitmaps, this`tab, this`owner, ip`din
      ensures Open(ip) && ip.din.Fits() && old(ip.din).Fits()
      ensures Written(sb, ip.inum, d0, tab0, owner0, d, tab, owner, at, if done then t + chunk else t)
      ensures old(ip.din).addrs[NDIRECT] != 0 ==> ip.din.addrs[NDIRECT] == old(ip.din).addrs[NDIRECT]
      ensures done ==> Ref(d, ip.din, SlotOf(off / BSIZE)) != 0
      ensures ip.din.size == old(ip.din).size
      ensures !done ==> !copied || (Full() && Ref(old(d), old(ip.din), SlotOf(off / BSIZE)) == 0)
      ensures done ==> copied
      ensures LogsAtMost(old(logged), old(bitmaps), logged, bitmaps, Behind(d, ip.din, off / BSIZE),
                         Missing(old(d), old(ip.din), off / BSIZE))
    {
      hide Linked, Bits, Written, LogsAtMost;
      ghost var d1, tab1, owner1 := d, tab, owner;
      done := WriteStep(ip, off, chunk, copied);
      if done {
        WrittenNext(sb, ip.inum, d0, tab0, owner0, d1, tab1, owner1, d, tab, owner, at, t, chunk);
      } else {
        WrittenSame(sb, ip.inum, d0, tab0, owner0, d1, tab1, owner1, d, tab, owner, at, t);
      }
    }

    /** A round, with the count of the blocks it logs. */
    method CountedRound(ip: Inode, chunk: seq<Byte>, copied: bool, ghost d0: Disk, ghost tab0: seq<Dinode>,
                        ghost owner0: map<nat, Place>, ghost at: nat, ghost t: seq<Byte>, off: nat,
                        ghost l0: set<nat>, ghost b0: set<nat>, ghost ds0: set<nat>, ghost c: nat, ghost news0: nat)
      returns (done: bool, ghost ds: set<nat>, ghost news: nat)
      requires Open(ip) && ip.din.Fits() && off == at + |t|
      requires Written(sb, ip.inum, d0, tab0, owner0, d, tab, owner, at, t)
      requires off < MAXFILE * BSIZE && off % BSIZE + |chunk| <= BSIZE
      requires Account(l0, b0, logged, bitmaps, ds0, ip.din.addrs[NDIRECT], c, news0,
                       if ip.din.addrs[NDIRECT] != 0 then 1 else 0)
      modifies this`d, this`logged, this`bitmaps, this`tab, this`owner, ip`din
      ensures Open(ip) && ip.din.Fits()
      ensures Written(sb, ip.inum, d0, tab0, owner0, d, tab, owner, at, if done then t + chunk else t)
      ensures ip.din.size == old(ip.din).size
      ensures !done ==> !copied || (Full() && off >= ip.din.size && off % BSIZE == 0)
      ensures done ==> copied
      ensures Account(l0, b0, logged, bitmaps, ds, ip.din.addrs[NDIRECT], c + 1, news, 1)
      ensures done ==> Account(l0, b0, logged, bitmaps, ds, ip.din.addrs[NDIRECT], c + 1, news,
                               if ip.din.addrs[NDIRECT] != 0 then 1 else 0)
      ensures news <= news0 + if off % BSIZE == 0 then 1 else 0
    {
      ghost var l1, b1, ind1, bn := logged, bitmaps, ip.din.addrs[NDIRECT], off / BSIZE;
      ghost var more := if Ref(d, ip.din, SlotOf(bn)) == 0 then 1 else 0;
      ghost var moreInd := if bn >= NDIRECT && ind1 == 0 then 1 else 0;
      assert off % BSIZE != 0 ==> at / BSIZE <= bn && bn * BSIZE < off;
      assert off < ip.din.size ==> Ref(d, tab[ip.inum], SlotOf(bn)) != 0;
      done := WriteRound(ip, chunk, copied, d0, tab0, owner0, at, t, off);
      AccountStep(l0, b0, l1, b1, logged, bitmaps, ds0, Ref(d, ip.din, SlotOf(bn)), ind1, ip.din.addrs[NDIRECT],
                  c, news0, more, moreInd);
      ds, news := ds0 + {Ref(d, ip.din, SlotOf(bn))}, news0 + more;
    }

    lemma OpenLinked(ip: Inode)
      requires Open(ip)
      ensures Linked(d, sb, tab, owner, ip.inum) && ip.inum < |tab| && tab[ip.inum] == ip.din
    {
    }

    /** The loop of writei. */
    method WriteLoop(ip: Inode, src: seq<Byte>, readable: nat, off0: nat)
      returns (tot: nat, ghost ds: set<nat>, ghost news: nat)
      requires Open(ip) && ip.din.Fits() && off0 <= ip.din.size && off0 + |src| <= MAXFILE * BSIZE
      modifies this`d, this`logged, this`bitmaps, this`tab, this`owner, ip`din
      ensures Open(ip) && ip.din.Fits() && tot <= |src|
      ensures Written(sb, ip.inum, old(d), old(tab), old(owner), d, tab, owner, off0, src[..tot])
      ensures tot < |src| ==>
                || (Full() && off0 + tot >= ip.din.size && (off0 + tot) % BSIZE == 0)
                || readable < tot + ChunkSize(off0, tot, |src|)
      ensures tot > 0 ==> tot <= readable
      ensures tot < |src| ==> Aligned(off0, tot)
      ensures ip.din.size == old(ip.din).size
      ensures news <= Fresh(off0, |src|)
      ensures Account(old(logged), old(bitmaps), logged, bitmaps, ds, ip.din.addrs[NDIRECT], Touched(off0, |src|),
                news, 1)
    {
      hide Open, Linked, Written, Account;
      ghost var l0, b0, d0, tab0, owner0 := logged, bitmaps, d, tab, owner;
      ds, news := {}, 0;
      OpenLinked(ip);
      WrittenStart(sb, ip.inum, d, tab, owner, off0);
      AccountStart(l0, b0, ip.din.addrs[NDIRECT]);
      tot := 0;
      var off := off0;
      while tot < |src|
        invariant 0 <= tot <= |src| && off == off0 + tot
        invariant Open(ip) && ip.din.Fits()
        invariant Written(sb, ip.inum, d0, tab0, owner0, d, tab, owner, off0, src[..tot])
        invariant tot < |src| ==> Aligned(off0, tot)
        invariant tot > 0 ==> tot <= readable
        invariant ip.din.size == old(ip.din).size
        invariant news <= Fresh(off0, tot)
        invariant Account(l0, b0, logged, bitmaps, ds, ip.din.addrs[NDIRECT], Touched(off0, tot), news,
                          if ip.din.addrs[NDIRECT] != 0 then 1 else 0)
      {
        var m := ChunkSize(off0, tot, |src|);
        RoundCounts(off0, tot, |src|);
        var done;
        done, ds, news := CountedRound(ip, src[tot..tot + m], tot + m <= readable, d0, tab0, owner0, off0,
                                       src[..tot], off, l0, b0, ds, Touched(off0, tot), news);
        if !done {
          AccountWeaken(l0, b0, logged, bitmaps, ds, ip.din.addrs[NDIRECT], Touched(off0, tot + m), news, 1,
                        Touched(off0, |src|));
          return;
        }
        assert src[..tot] + src[tot..tot + m] == src[..tot + m];
        tot := tot + m;
        off := off + m;
      }
      assert src[..tot] == src;
      AccountWeaken(l0, b0, logged, bitmaps, ds, ip.din.addrs[NDIRECT], Touched(off0, tot), news,
                    if ip.din.addrs[NDIRECT] != 0 then 1 else 0, Touched(off0, |src|));
    }

    /** `if(off > ip->size) ip->size = off; iupdate(ip);` */
    method FinishWrite(ip: Inode, off: nat)
      requires Open(ip) && ip.din.Fits() && off <= MAXFILE * BSIZE
      requires forall bn: nat | bn < MAXFILE && bn * BSIZE < off :: Ref(d, ip.din, SlotOf(bn)) != 0
      modifies this`d, this`logged, this`tab, ip`din
      ensures Valid() && Open(ip) && Fit(tab) && Fit(old(tab)) && tab == old(tab)[ip.inum := ip.din]
      ensures Files(d, tab) == Files(old(d), old(tab))[ip.inum := File(Max(old(ip.din).size, off), old(Bytes(ip)))]
      ensures logged == old(logged) + {sb.IBlock(ip.inum)}
      ensures ip.din.Fits() && SameKind(old(ip.din), ip.din) && ip.din.size == Max(old(ip.din).size, off)
    {
      assert Files(d, tab)[ip.inum] == FileOf(d, ip.din);
      if off > ip.din.size {
        GrowSize(d, sb, tab, owner, ip.inum, off);
        ip.din := WithSize(ip.din, off);
        tab := tab[ip.inum := ip.din];
      }
      Iupdate(ip);
    }

    /** writei, for user bytes `src` of which the first `readable` can be copied in.  The
        arithmetic on `off + n` is that of 32-bit unsigned integers. */
    method Writei(ip: Inode, src: seq<Byte>, readable: nat, off0: nat) returns (tot: int)
      requires Open(ip) && off0 < WORD_LIMIT && |src| < WORD_LIMIT
      modifies this`d, this`logged, this`bitmaps, this`tab, this`owner, ip`din
      ensures Open(ip) && (tot == -1 || Valid()) && -1 <= tot <= |src|
      ensures old(ip.din).Fits() && ip.din.Fits() && old(ip.din).size <= MAXFILE * BSIZE
                && ip.din.size <= MAXFILE * BSIZE
      ensures tot == -1 <==> off0 > old(ip.din).size || off0 + |src| > MAXFILE * BSIZE
      ensures tot == -1 ==> unchanged(this) && unchanged(ip)
      // The file is the old one with the first tot bytes written at off0 ...
      ensures tot >= 0 ==> Contents(d, ip.din) == WriteAt(Contents(old(d), old(ip.din)), off0, src[..tot])
      // ... and no other file changes.
      ensures OthersSame(old(d), old(tab), d, tab, ip.inum)
      // A short count means that the next chunk cannot be copied from the user, or that the file
      // needs a new block and the disk is full; the write ends between two blocks then.
      ensures 0 <= tot < |src| ==>
                || (Full() && off0 + tot >= old(ip.din).size && (off0 + tot) % BSIZE == 0)
                || readable < tot + ChunkSize(off0, tot, |src|)
      ensures 0 <= tot < |src| ==> Aligned(off0, tot)
      ensures tot > 0 ==> tot <= readable
      ensures SameKind(old(ip.din), ip.din)
      ensures tot >= 0 ==> ip.din.size == Max(old(ip.din).size, off0 + tot)
      // The transaction grows by a bounded number of blocks.
      ensures |logged| <= |old(logged)| + |old(bitmaps)| + Touched(off0, |src|) + Fresh(off0, |src|) + 3
      ensures |logged| <= |old(logged)| + |bitmaps| + Touched(off0, |src|) + 2
    {
      hide Linked, Bits, Written, Account, FileOf, Touched, Fresh, Spliced, WriteAt;
      OpenFits(ip);
      var n := |src|;
      var sum := (off0 + n) % WORD_LIMIT;
      if off0 > ip.din.size || sum < off0 {
        return -1;
      }
      if sum > MAXFILE * BSIZE {
        return -1;
      }
      ghost var d0, tab0, owner0, ds, news := d, tab, owner, {}, 0;
      ghost var bytes := FileOf(d, ip.din).bytes;
      var count;
      count, ds, news := WriteLoop(ip, src, readable, off0);
      AccountTotal(old(logged), old(bitmaps), logged, bitmaps, ds, ip.din.addrs[NDIRECT],
                   Touched(off0, n), news, sb.IBlock(ip.inum));
      CoveredUpTo(sb, ip.inum, d0, tab0, owner0, d, tab, owner, off0, src[..count]);
      FinishWrite(ip, off0 + count);
      WrittenContents(bytes, tab0[ip.inum].size, off0, src[..count]);
      assert Files(d, tab)[ip.inum] == FileOf(d, ip.din);
      tot := count;
    }

    // ---- itrunc ----

    /** Between steps of itrunc. */
    ghost predicate Truncating(ip: Inode)
      reads this, ip
    {
      && Trimming(d, sb, tab, owner, ip.inum) && Noted(sb, base, d, logged, bitmaps)
      && tab[ip.inum] == ip.din && ip.din.Fits()
    }

    /** The first loop of itrunc: the direct blocks. */
    method TruncDirect(ip: Inode)
      requires Open(ip)
      modifies this`d, this`logged, this`bitmaps, this`tab, this`owner, ip`din
      ensures Truncating(ip) && Bits(d, sb, owner.Keys) && tab == old(tab)[ip.inum := ip.din]
      ensures ip.din.Fits() && SameMeta(old(ip.din), ip.din) && forall k | 0 <= k < NDIRECT :: ip.din.addrs[k] == 0
      ensures OthersSame(old(d), old(tab), d, tab, ip.inum)
      ensures LoseInode(owner, ip.inum) == LoseInode(old(owner), ip.inum)
      ensures LogsBitmaps(sb, old(logged), old(bitmaps), logged, bitmaps)
    {
      TrimmingStart(d, sb, tab, owner, ip.inum);
      var i := 0;
      while i < NDIRECT
        invariant 0 <= i <= NDIRECT && ip.din.Fits() && SameMeta(old(ip.din), ip.din)
        invariant Truncating(ip) && Bits(d, sb, owner.Keys) && tab == old(tab)[ip.inum := ip.din]
        invariant forall k | 0 <= k < i :: ip.din.addrs[k] == 0
        invariant OthersSame(old(d), old(tab), d, tab, ip.inum)
        invariant LoseInode(owner, ip.inum) == LoseInode(old(owner), ip.inum)
        invariant LogsBitmaps(sb, old(logged), old(bitmaps), logged, bitmaps)
      {
        if ip.din.addrs[i] != 0 {
          DropOne(ip, i);
        }
        i := i + 1;
      }
    }

    /** `bfree(ip->addrs[k]); ip->addrs[k] = 0;` */
    method DropOne(ip: Inode, k: nat)
      requires Truncating(ip) && Bits(d, sb, owner.Keys)
      requires k < NDIRECT && ip.din.addrs[k] != 0
      modifies this`d, this`logged, this`bitmaps, this`tab, this`owner, ip`din
      ensures old(ip.din).Fits() && ip.din == SetAddr(old(ip.din), k, 0) && tab == old(tab)[ip.inum := ip.din]
      ensures Truncating(ip) && Bits(d, sb, owner.Keys)
      ensures LoseInode(owner, ip.inum) == LoseInode(old(owner), ip.inum)
      ensures OthersSame(old(d), old(tab), d, tab, ip.inum)
      ensures LogsBitmaps(sb, old(logged), old(bitmaps), logged, bitmaps)
    {
      hide Bits, Trimming, Noted, Freed, OthersSame, LoseSlot, LoseInode;
      ghost var d0 := d;
      DirectOwned(d, sb, tab, owner, ip.inum, k);
      var ok := Bfree(ip.din.addrs[k], owner.Keys);
      TrimDirect(d0, d, sb, tab, owner, ip.inum, k);
      ip.din := SetAddr(ip.din, k, 0);
      tab := tab[ip.inum := ip.din];
      owner := LoseSlot(owner, ip.inum, k);
    }

    /** The second loop of itrunc: what the indirect block lists. */
    method FreeEntries(ip: Inode)
      requires Truncating(ip) && Bits(d, sb, owner.Keys)
      requires ip.din.addrs[NDIRECT] != 0
      modifies this`d, this`logged, this`bitmaps
      ensures Truncating(ip) && SameFiles(old(d), tab, d, tab) && sb.Fits(d)
      ensures Bits(d, sb, owner.Keys - Listed(owner, ip.inum, NINDIRECT))
      ensures LogsBitmaps(sb, old(logged), old(bitmaps), logged, bitmaps)
    {
      hide Trimming, Listed, Bits, Word;
      ListedNext(d, sb, tab, owner, ip.inum, 0);
      NoneListed(owner, ip.inum);
      var a := d[ip.din.addrs[NDIRECT]];
      var j := 0;
      while j < NINDIRECT
        invariant 0 <= j <= NINDIRECT && Noted(sb, base, d, logged, bitmaps)
        invariant Freed(old(d), d, sb, owner.Keys - Listed(owner, ip.inum, j))
        invariant LogsBitmaps(sb, old(logged), old(bitmaps), logged, bitmaps)
      {
        ListedNext(old(d), sb, tab, owner, ip.inum, j);
        if Word(a, j) != 0 {
          var ok := Bfree(Word(a, j), owner.Keys - Listed(owner, ip.inum, j));
          assert ok;
        }
        j := j + 1;
      }
      TrimFrame(old(d), d, sb, tab, owner, ip.inum, owner.Keys - Listed(owner, ip.inum, NINDIRECT));
    }

    lemma NoneListed(owner: map<nat, Place>, i: nat)
      ensures owner.Keys - Listed(owner, i, 0) == owner.Keys
    {
    }

    /** The indirect block, after the direct blocks. */
    method TruncIndirect(ip: Inode)
      requires Truncating(ip) && Bits(d, sb, owner.Keys)
      requires forall k | 0 <= k < NDIRECT :: ip.din.addrs[k] == 0
      requires ip.din.Fits()
      modifies this`d, this`logged, this`bitmaps, this`tab, this`owner, ip`din
      ensures Truncating(ip) && Bits(d, sb, owner.Keys) && tab == old(tab)[ip.inum := ip.din]
      ensures Unreferenced(ip.din) && SameMeta(old(ip.din), ip.din) && owner == LoseInode(old(owner), ip.inum)
      ensures OthersSame(old(d), old(tab), d, tab, ip.inum)
      ensures LogsBitmaps(sb, old(logged), old(bitmaps), logged, bitmaps)
    {
      hide Trimming, Bits, Listed, LoseInode, BitAt, Noted;
      ListedAll(d, sb, tab, owner, ip.inum);
      ghost var d0 := d;
      if ip.din.addrs[NDIRECT] != 0 {
        FreeEntries(ip);
        ghost var d1, ind := d, ip.din.addrs[NDIRECT];
        var ok := Bfree(ip.din.addrs[NDIRECT], owner.Keys - Listed(owner, ip.inum, NINDIRECT));
        assert ok;
        TrimFrame(d1, d, sb, tab, owner, ip.inum, LoseInode(owner, ip.inum).Keys);
      }
      TrimIndirect(d, sb, tab, owner, ip.inum);
      ip.din := SetAddr(ip.din, NDIRECT, 0);
      tab := tab[ip.inum := ip.din];
      owner := LoseInode(owner, ip.inum);
    }

    /** itrunc: the file is empty, its blocks and only its blocks are free, and every other
        file is what it was.  No bfree on the way finds its block already free. */
    method Itrunc(ip: Inode)
      requires Open(ip)
      modifies this`d, this`logged, this`bitmaps, this`tab, this`owner, ip`din
      ensures Valid() && Open(ip)
      ensures ip.din.Fits() && ip.din.size == 0 && Contents(d, ip.din) == []
      ensures Unreferenced(ip.din) && SameKind(old(ip.din), ip.din)
      ensures OthersSame(old(d), old(tab), d, tab, ip.inum)
      ensures owner == LoseInode(old(owner), ip.inum)
      ensures logged <= old(logged) + bitmaps + {sb.IBlock(ip.inum)} && bitmaps <= old(bitmaps) + sb.BitmapBlocks()
    {
      hide NoHoles;
      TruncDirect(ip);
      TruncIndirect(ip);
      TrimDone(d, sb, tab, owner, ip.inum);
      ip.din := WithSize(ip.din, 0);
      tab := tab[ip.inum := ip.din];
      Iupdate(ip);
    }

    // ---- readi ----

    lemma OpenFits(ip: Inode)
      requires Open(ip)
      ensures ip.din.Fits() && ip.din.size <= MAXFILE * BSIZE && Fit(tab)
    {
      assert ip.din == tab[ip.inum];
    }

    /** A block of the file below its size: bmap finds it and changes nothing. */
    method Mapped(ip: Inode, bn: nat) returns (addr: nat)
      requires Open(ip) && ip.din.Fits() && bn < MAXFILE && bn * BSIZE < ip.din.size
      modifies this`d, this`logged, this`bitmaps, this`tab, this`owner, ip`din
      ensures unchanged(this) && unchanged(ip)
      ensures 0 < addr < |d| && d[addr] == FileOf(d, ip.din).bytes[bn * BSIZE..(bn + 1) * BSIZE]
    {
      assert Ref(d, tab[ip.inum], SlotOf(bn)) != 0;
      addr := Bmap(ip, bn);
      BlockOfFile(d, ip.din, bn);
    }

    /** The loop of readi. */
    method ReadLoop(ip: Inode, off0: nat, n: nat, room: nat) returns (ok: bool, dst: seq<Byte>)
      requires Open(ip) && ip.din.Fits() && off0 + n <= ip.din.size <= MAXFILE * BSIZE
      modifies this`d, this`logged, this`bitmaps, this`tab, this`owner, ip`din
      ensures unchanged(this) && unchanged(ip)
      ensures ok <==> n <= room
      ensures ok ==> dst == FileOf(d, ip.din).bytes[off0..off0 + n]
    {
      hide Held, Consistent, FileOf, Touched, LogsAtMost;
      ghost var bytes := FileOf(d, ip.din).bytes;
      dst := [];
      var tot, off := 0, off0;
      while tot < n
        invariant 0 <= tot <= n && off == off0 + tot && tot <= room
        invariant unchanged(this) && unchanged(ip)
        invariant dst == bytes[off0..off]
      {
        BlockBounds(off, ip.din.size);
        var addr := Mapped(ip, off / BSIZE);
        var m := ChunkSize(off0, tot, n);
        if tot + m > room {
          return false, dst;
        }
        var o := off % BSIZE;
        ChunkOfFile(bytes, off0, off, m);
        dst := dst + d[addr][o..o + m];
        tot := tot + m;
        off := off + m;
      }
      ok := true;
    }

    /** readi into a user buffer that can take `room` bytes.  It returns the bytes of the
        file from `off0` on, as many as there are up to `n0`, and never allocates. */
    method Readi(ip: Inode, off0: nat, n0: nat, room: nat) returns (tot: int, dst: seq<Byte>)
      requires Open(ip) && off0 < WORD_LIMIT && n0 < WORD_LIMIT
      modifies this`d, this`logged, this`bitmaps, this`tab, this`owner, ip`din
      ensures unchanged(this) && unchanged(ip)
      ensures ip.din.Fits() && ip.din.size <= MAXFILE * BSIZE
      ensures off0 > ip.din.size || off0 + n0 >= WORD_LIMIT ==> tot == 0 && dst == []
      ensures off0 <= ip.din.size && off0 + n0 < WORD_LIMIT ==>
                var all := Contents(d, ip.din)[off0..Min(off0 + n0, ip.din.size)];
                && (tot == -1 <==> room < |all|)
                && (tot != -1 ==> tot == |all| && dst == all)
    {
      hide Consistent, FileOf;
      OpenFits(ip);
      var n := n0;
      var sum := (off0 + n) % WORD_LIMIT;
      if off0 > ip.din.size || sum < off0 {
        return 0, [];
      }
      if sum > ip.din.size {
        n := ip.din.size - off0;
      }
      ghost var bytes := FileOf(d, ip.din).bytes;
      ContentsSlice(d, ip.din, off0, off0 + n);
      var ok;
      ok, dst := ReadLoop(ip, off0, n, room);
      tot := if ok then n else -1;
    }

    // ---- ialloc, iput ----

    /** ialloc: the first free inode from 1 on, now of type `typ` and empty; 0 if none is
        free.  No file changes. */
    method Ialloc(typ: nat) returns (inum: nat)
      requires Valid() && 0 < typ < HALF
      modifies this`d, this`logged, this`tab
      ensures Valid() && SameFiles(old(d), old(tab), d, tab)
      ensures inum == 0 ==> unchanged(this) && forall i | 1 <= i < |tab| :: tab[i].typ != 0
      ensures inum != 0 ==> inum < |old(tab)| && old(tab)[inum].typ == 0 && tab == old(tab)[inum := NewInode(typ)]
      ensures inum != 0 ==> forall i | 1 <= i < inum :: tab[i].typ != 0
      ensures inum != 0 ==> logged == old(logged) + {sb.IBlock(inum)}
      // All that memset leaves is zero.
      ensures inum != 0 ==>
                && tab[inum].typ == typ && tab[inum].major == tab[inum].minor == tab[inum].nlink == tab[inum].size == 0
                && tab[inum].addrs == seq(NDIRECT + 1, k => 0)
    {
      inum := 1;
      while inum < sb.ninodes
        invariant 1 <= inum && unchanged(this)
        invariant forall i | 1 <= i < inum && i < |tab| :: tab[i].typ != 0
      {
        assert InodeAt(d, sb, inum) == tab[inum];
        if GetInode(d[sb.IBlock(inum)], inum % IPB).typ == 0 {
          TakeInode(d, sb, tab, owner, inum, typ);
          var m := sb.IBlock(inum);
          d := d[m := PutInode(d[m], inum % IPB, NewInode(typ))];
          logged := logged + {m};
          tab := tab[inum := NewInode(typ)];
          return;
        }
        inum := inum + 1;
      }
      inum := 0;
    }

    /** iput on a locked inode with `refs` in-memory references, one of them the caller's, which
        goes: the last one to an unlinked file frees the file and its inode. */
    method Iput(ip: Inode, refs: nat) returns (freed: bool, left: nat)
      requires Valid() && Open(ip) && refs > 0
      modifies this`d, this`logged, this`bitmaps, this`tab, this`owner, ip`din
      ensures Valid()
      ensures left == refs - 1 && (freed <==> left == 0 && old(ip.din).nlink == 0)
      ensures !freed ==> unchanged(this) && unchanged(ip)
      ensures freed ==> |tab| == |old(tab)| && tab[ip.inum].typ == 0 && owner == LoseInode(old(owner), ip.inum)
      ensures OthersSame(old(d), old(tab), d, tab, ip.inum)
      ensures logged <= old(logged) + bitmaps + {sb.IBlock(ip.inum)} && bitmaps <= old(bitmaps) + sb.BitmapBlocks()
    {
      freed := refs == 1 && ip.din.nlink == 0;
      if freed {
        Itrunc(ip);
        GiveUpInode(d, sb, tab, owner, ip.inum);
        ip.din := ip.din.(typ := 0);
        tab := tab[ip.inum := ip.din];
        Iupdate(ip);
      }
      left := refs - 1;
    }
  }
}
