/** filewrite of kernel/file.c on an inode: a long write cut into pieces, each its own
    operation on the log. */
module FileOps {
  import opened Blocks
  import opened FsLayout
  import opened FsInv
  import opened Fs
  import LogProtocol
  import opened LogSpec

  /** `((MAXOPBLOCKS-1-1-2) / 2) * BSIZE` */
  const PIECE: nat := (MAXOPBLOCKS - 1 - 1 - 2) / 2 * BSIZE

  /** A piece logs at most MAXOPBLOCKS distinct blocks, wherever it starts: four data
      blocks and three bitmap blocks for new ones if unaligned, three and three if not; one
      indirect block with its bitmap block; the inode. */
  lemma PieceFits(off: nat, n: nat)
    requires n <= PIECE
    ensures Touched(off, n) + Fresh(off, n) + 3 <= MAXOPBLOCKS && Touched(off, n) <= 4
  {
    if n > 0 {
      var q, r := off / BSIZE, off % BSIZE;
      assert off == q * BSIZE + r;
      assert (off + n - 1) / BSIZE <= q + 3;
      if r == 0 {
        assert (off + n - 1) / BSIZE <= q + 2;
      }
    }
  }

  /** A disk whose blocks one bitmap block can count has one bitmap block; mkfs's has FSSIZE
      blocks, that is 2000 (param.h:12), and its bitmap is computed the same way (mkfs.c:23). */
  lemma OneBitmapBlock(sb: Super)
    requires sb.size < BPB
    ensures |sb.BitmapBlocks()| == 1
  {
    assert sb.size / BPB == 0 && sb.DataStart() == sb.bmapstart + 1;
    forall b: nat
      ensures b in sb.BitmapBlocks() <==> b == sb.bmapstart
    {
    }
    assert sb.BitmapBlocks() == {sb.bmapstart};
  }

  /** With one bitmap block and the log that mkfs makes, log_write never panics as long as
      operations log no more than pieces of filewrite do. */
  lemma WritesNeverPanic(c: LogProtocol.Config, sb: Super)
    requires sb.size < BPB && c.size == LOGSIZE && c.opBlocks <= 6 + |sb.BitmapBlocks()|
    ensures !LogProtocol.PanicReachable(c)
  {
    OneBitmapBlock(sb);
    LogProtocol.NoPanic(c);
  }

  /** Writing two pieces in turn is writing them as one. */
  lemma WriteTwice(s: seq<Byte>, at: nat, t: seq<Byte>, u: seq<Byte>)
    requires at <= |s|
    ensures WriteAt(WriteAt(s, at, t), at + |t|, u) == WriteAt(s, at, t + u)
  {
  }

  /** `s` is `s0` with the first `done` bytes of `src` written at `at`; a write that starts
      past the end writes nothing. */
  ghost predicate Wrote(s0: seq<Byte>, at: nat, src: seq<Byte>, done: nat, s: seq<Byte>) {
    && done <= |src|
    && if at <= |s0| then s == WriteAt(s0, at, src[..done]) else done == 0 && s == s0
  }

  /** A round that wrote `r` of the next bytes. */
  lemma WroteMore(s0: seq<Byte>, at: nat, src: seq<Byte>, done: nat, s: seq<Byte>, r: nat, t: seq<Byte>)
    requires Wrote(s0, at, src, done, s) && done + r <= |src| && at + done <= |s|
    requires t == WriteAt(s, at + done, src[done..done + r])
    ensures Wrote(s0, at, src, done + r, t) && at + done + r <= |t|
  {
    WriteTwice(s0, at, src[..done], src[done..done + r]);
    assert src[..done] + src[done..done + r] == src[..done + r];
  }

  lemma Unwritten(d: Disk, tab: seq<Dinode>, i: nat, ino: Dinode, off: nat)
    requires Fit(tab) && ino.Fits() && ino.size <= MAXFILE * BSIZE
    ensures OthersSame(d, tab, d, tab, i)
    ensures forall src :: Wrote(Contents(d, ino), off, src, 0, Contents(d, ino))
  {
  }

  /** Why a write of `n` bytes at `off`, to a file of `size` bytes, may stop after `done`. */
  ghost predicate Excused(full: bool, size: nat, off: nat, n: int, done: nat, readable: nat) {
    || n < 0 || (done == 0 && off > size)
    || (off + n > MAXFILE * BSIZE && off + done + PIECE > MAXFILE * BSIZE)
    || (full && off + done >= size) || readable < done + BSIZE
  }

  lemma NothingAsked(full: bool, size: nat, off: nat, n: int, readable: nat)
    requires n < 0
    ensures Excused(full, size, off, n, 0, readable)
  {
  }

  lemma PieceExcused(full: bool, size0: nat, size: nat, off: nat, n: int, i: nat, n1: nat, r: int, readable: nat)
    requires i < n && n1 == (if n - i > PIECE then PIECE else n - i) && -1 <= r < n1
    requires if i == 0 then size == size0 else off + i <= size && size0 <= size
    requires r == -1 ==> off + i > size || off + i + n1 > MAXFILE * BSIZE
    requires r >= 0 ==>
               (full && off + i + r >= size) || (if readable > i then readable - i else 0) < r + BSIZE
    ensures Excused(full, size0, off, n, if r > 0 then i + r else i, readable)
  {
  }

  /** A struct file open on an inode. */
  class OpenFile {
    var off: nat
    const ip: Inode

    constructor (ip: Inode)
      ensures this.ip == ip && off == 0
    {
      this.ip, off := ip, 0;
    }

    /** One round of filewrite: an operation that writes one piece. */
    method WritePiece(fs: FileSystem, piece: seq<Byte>, readable: nat) returns (r: int)
      requires fs.Valid() && fs.Open(ip) && off < WORD_LIMIT && |piece| <= PIECE
      modifies this`off, fs`d, fs`logged, fs`bitmaps, fs`base, fs`tab, fs`owner, ip`din
      ensures fs.Valid() && fs.Open(ip) && -1 <= r <= |piece| && off < WORD_LIMIT
      // At most four data blocks, the indirect block, the inode, and bitmap blocks; and in any case
      // no more than the operation has reserved.
      ensures |fs.logged| <= 6 + |fs.sb.BitmapBlocks()| && |fs.logged| <= MAXOPBLOCKS
      ensures off == old(off) + if r > 0 then r else 0
      ensures old(ip.din).Fits() && ip.din.Fits() && old(ip.din).size <= MAXFILE * BSIZE
                && ip.din.size <= MAXFILE * BSIZE
      ensures r == -1 <==> old(off) > old(ip.din).size || old(off) + |piece| > MAXFILE * BSIZE
      ensures r >= 0 ==> ip.din.size == Max(old(ip.din).size, old(off) + r)
      ensures r == -1 ==> ip.din.size == old(ip.din).size
      ensures r == -1 ==> Contents(fs.d, ip.din) == Contents(old(fs.d), old(ip.din))
      ensures r >= 0 ==> Contents(fs.d, ip.din) == WriteAt(Contents(old(fs.d), old(ip.din)), old(off), piece[..r])
      ensures OthersSame(old(fs.d), old(fs.tab), fs.d, fs.tab, ip.inum)
      ensures 0 <= r < |piece| ==> (fs.Full() && old(off) + r >= old(ip.din).size) || readable < r + BSIZE
    {
      fs.BeginOp();
      PieceFits(off, |piece|);
      r := fs.Writei(ip, piece, readable, off);
      fs.BitmapsLogged();
      if r > 0 {
        off := off + r;
      }
    }

    /** filewrite of `n` bytes, `src`, of which the first `readable` can be copied in.
        `done` bytes have been written and `ops` says how many blocks each operation logged. */
    method FileWrite(fs: FileSystem, n: int, src: seq<Byte>, readable: nat)
        returns (ret: int, ghost done: nat, ghost ops: seq<nat>)
      requires fs.Valid() && fs.Open(ip) && off < WORD_LIMIT && |src| == if n < 0 then 0 else n
      modifies this`off, fs`d, fs`logged, fs`bitmaps, fs`base, fs`tab, fs`owner, ip`din
      ensures fs.Valid() && fs.Open(ip) && done <= |src|
      ensures old(ip.din).Fits() && ip.din.Fits() && old(ip.din).size <= MAXFILE * BSIZE
                && ip.din.size <= MAXFILE * BSIZE
      // The first `done` bytes are in the file at the old offset, the offset is past them,
      ensures off == old(off) + done
      ensures Wrote(Contents(old(fs.d), old(ip.din)), old(off), src, done, Contents(fs.d, ip.din))
      // no other file has changed,
      ensures OthersSame(old(fs.d), old(fs.tab), fs.d, fs.tab, ip.inum)
      // the result is n exactly when everything is written, and
      ensures ret == if n >= 0 && done == n then n else -1
      // whatever is missing, is missing for a reason: the offset is past the end, the next piece
      // makes the file too long, there is no block left to grow into, or the next block of `src`
      // cannot be copied in.
      ensures ret == -1 ==> Excused(fs.Full(), old(ip.din).size, old(off), n, done, readable)
      // every operation kept to its reservation in the log, and to what one bitmap block allows.
      ensures forall k | 0 <= k < |ops| :: ops[k] <= MAXOPBLOCKS && ops[k] <= 6 + |fs.sb.BitmapBlocks()|
    {
      hide Consistent, Linked, FileOf, Files, Contents, WriteAt, OthersSame, Fit, Wrote, Excused, Noted;
      var i, r := 0, 0;
      ops, done := [], 0;
      fs.OpenFits(ip);
      Unwritten(fs.d, fs.tab, ip.inum, ip.din, off);
      while i < n
        invariant 0 <= i <= |src| && done == i
        invariant fs.Valid() && fs.Open(ip) && off < WORD_LIMIT
        invariant old(ip.din).Fits() && ip.din.Fits() && old(ip.din).size <= MAXFILE * BSIZE
                    && ip.din.size <= MAXFILE * BSIZE
        invariant off == old(off) + i
        invariant Wrote(Contents(old(fs.d), old(ip.din)), old(off), src, i, Contents(fs.d, ip.din))
        invariant if i == 0 then ip.din.size == old(ip.din).size
                  else old(off) <= old(ip.din).size <= ip.din.size && off <= ip.din.size
        invariant OthersSame(old(fs.d), old(fs.tab), fs.d, fs.tab, ip.inum)
        invariant forall k | 0 <= k < |ops| :: ops[k] <= MAXOPBLOCKS && ops[k] <= 6 + |fs.sb.BitmapBlocks()|
        decreases n - i
      {
        var n1 := n - i;
        if n1 > PIECE {
          n1 := PIECE;
        }
        ghost var size1 := ip.din.size;
        ghost var d1, tab1, s1 := fs.d, fs.tab, Contents(fs.d, ip.din);
        r := WritePiece(fs, src[i..i + n1], if readable > i then readable - i else 0);
        OthersChain(old(fs.d), old(fs.tab), d1, tab1, fs.d, fs.tab, ip.inum);
        ops := ops + [|fs.logged|];
        if r >= 0 {
          assert src[i..i + n1][..r] == src[i..i + r];
          WroteMore(Contents(old(fs.d), old(ip.din)), old(off), src, i, s1, r, Contents(fs.d, ip.din));
          done := done + r;
        }
        if r != n1 {
          PieceExcused(fs.Full(), old(ip.din).size, size1, old(off), n, i, n1, r, readable);
          break;
        }
        i := i + r;
      }
      if n < 0 {
        NothingAsked(fs.Full(), old(ip.din).size, old(off), n, readable);
      }
      ret := if i == n then n else -1;
    }
  }
}
