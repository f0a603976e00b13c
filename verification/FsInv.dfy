/** The file system invariant: who owns each block, which bits are set, and how single
    changes of the disk or of an in-memory inode move it. */
module FsInv {
  import opened Blocks
  import opened FsLayout

  datatype Place = Place(inum: nat, slot: nat)

  /** `owner[b]` is the inode and the slot that refer to block `b`.  Every reference of
      every inode is the owner's, so no block is referred to twice. */
  ghost predicate Refs(d: Disk, sb: Super, tab: seq<Dinode>, owner: map<nat, Place>) {
    && sb.Fits(d) && |tab| == sb.ninodes
    && (forall i | 0 <= i < |tab| :: tab[i].Fits())
    && (forall i: nat, k: nat | i < |tab| && k < SLOTS && Ref(d, tab[i], k) != 0 ::
          Ref(d, tab[i], k) in owner && owner[Ref(d, tab[i], k)] == Place(i, k))
    && (forall b | b in owner ::
          && sb.DataStart() <= b < sb.size && owner[b].inum < |tab| && owner[b].slot < SLOTS
          && Ref(d, tab[owner[b].inum], owner[b].slot) == b)
  }

  /** The bits set are those of the metadata blocks and of the blocks in `used`. */
  ghost predicate Bits(d: Disk, sb: Super, used: set<nat>)
    requires sb.Fits(d)
  {
    forall b: nat | b < sb.size :: BitAt(d, sb, b) <==> b < sb.DataStart() || b in used
  }

  /** Every block below a file's size is allocated. */
  ghost predicate NoHoles(d: Disk, tab: seq<Dinode>) {
    forall i | 0 <= i < |tab| :: tab[i].Fits() && tab[i].size <= MAXFILE * BSIZE &&
      forall bn: nat | bn < MAXFILE && bn * BSIZE < tab[i].size :: Ref(d, tab[i], SlotOf(bn)) != 0
  }

  ghost predicate FreeEmpty(tab: seq<Dinode>) {
    forall i | 0 <= i < |tab| && tab[i].typ == 0 ::
      tab[i].size == 0 && forall k | 0 <= k < |tab[i].addrs| :: tab[i].addrs[k] == 0
  }

  /** The inodes on disk are those of `tab`, except perhaps inode `skip`. */
  ghost predicate OnDisk(d: Disk, sb: Super, tab: seq<Dinode>, skip: int)
    requires sb.Fits(d) && |tab| == sb.ninodes
  {
    forall i: nat | i < sb.ninodes && i != skip :: InodeAt(d, sb, i) == tab[i]
  }

  ghost predicate SameRefs(d: Disk, tab: seq<Dinode>, d': Disk, tab': seq<Dinode>) {
    |tab| == |tab'| && forall i: nat, k: nat | i < |tab| && k < SLOTS && tab[i].Fits() && tab'[i].Fits() ::
      Ref(d', tab'[i], k) == Ref(d, tab[i], k)
  }

  datatype File = File(size: nat, bytes: seq<Byte>)

  ghost function FileOf(d: Disk, ino: Dinode): (f: File)
    requires ino.Fits()
    ensures |f.bytes| == MAXFILE * BSIZE
  {
    File(ino.size, seq(MAXFILE * BSIZE, x requires 0 <= x < MAXFILE * BSIZE => FileByte(d, ino, x)))
  }

  /** All files: the map from inode number to bytes that the file system implements. */
  ghost function Files(d: Disk, tab: seq<Dinode>): (fs: seq<File>)
    requires forall i | 0 <= i < |tab| :: tab[i].Fits()
    ensures |fs| == |tab|
  {
    seq(|tab|, i requires 0 <= i < |tab| => FileOf(d, tab[i]))
  }

  ghost predicate Fit(tab: seq<Dinode>) {
    forall i | 0 <= i < |tab| :: tab[i].Fits()
  }

  ghost predicate SameFiles(d: Disk, tab: seq<Dinode>, d': Disk, tab': seq<Dinode>) {
    Fit(tab) && Fit(tab') && Files(d', tab') == Files(d, tab)
  }

  lemma FilesEqual(d: Disk, tab: seq<Dinode>, d': Disk, tab': seq<Dinode>)
    requires Fit(tab) && Fit(tab') && |tab| == |tab'|
    requires forall i | 0 <= i < |tab| :: tab'[i].size == tab[i].size
    requires forall i, x: nat | 0 <= i < |tab| && x < MAXFILE * BSIZE ::
               FileByte(d', tab'[i], x) == FileByte(d, tab[i], x)
    ensures SameFiles(d, tab, d', tab')
  {
    forall i | 0 <= i < |tab|
      ensures Files(d', tab')[i] == Files(d, tab)[i]
    {
      assert FileOf(d', tab'[i]).bytes == FileOf(d, tab[i]).bytes;
    }
  }

  /** Leaving every indirect block alone leaves every reference alone. */
  lemma RefsFrame(d: Disk, d': Disk, sb: Super, tab: seq<Dinode>, owner: map<nat, Place>)
    requires Refs(d, sb, tab, owner) && |d'| == |d|
    requires forall b | b in owner && owner[b].slot == NDIRECT :: d'[b] == d[b]
    ensures Refs(d', sb, tab, owner) && SameRefs(d, tab, d', tab)
    ensures NoHoles(d, tab) ==> NoHoles(d', tab)
  {
    forall i: nat, k: nat | i < |tab| && k < SLOTS
      ensures Ref(d', tab[i], k) == Ref(d, tab[i], k)
    {
      assert Ref(d, tab[i], NDIRECT) == tab[i].addrs[NDIRECT];
    }
  }

  /** Leaving every owned block alone leaves every file alone. */
  lemma FilesFrame(d: Disk, d': Disk, sb: Super, tab: seq<Dinode>, owner: map<nat, Place>)
    requires Refs(d, sb, tab, owner) && |d'| == |d|
    requires forall b | b in owner :: d'[b] == d[b]
    ensures SameFiles(d, tab, d', tab)
  {
    RefsFrame(d, d', sb, tab, owner);
    forall i, x: nat | 0 <= i < |tab| && x < MAXFILE * BSIZE
      ensures FileByte(d', tab[i], x) == FileByte(d, tab[i], x)
    {
      var r := Ref(d, tab[i], SlotOf(x / BSIZE));
      assert Ref(d', tab[i], SlotOf(x / BSIZE)) == r;
      assert r != 0 ==> r in owner;
    }
    FilesEqual(d, tab, d', tab);
  }

  /** Filling one empty slot with a zeroed block changes no byte of any file. */
  lemma NewSlot(d: Disk, tab: seq<Dinode>, d': Disk, tab': seq<Dinode>, i: nat, k: nat, r: nat)
    requires |tab| == |tab'| && i < |tab| && k < SLOTS && |d'| == |d|
    requires forall j | 0 <= j < |tab| :: tab[j].Fits() && tab'[j].Fits() && tab'[j].size == tab[j].size
    requires forall j: nat, s: nat | j < |tab| && s < SLOTS && (j != i || s != k) ::
               Ref(d', tab'[j], s) == Ref(d, tab[j], s)
    requires Ref(d, tab[i], k) == 0 && Ref(d', tab'[i], k) == r && 0 < r < |d'| && d'[r] == ZeroBlock()
    requires forall j: nat, s: nat | j < |tab| && s < SLOTS && s != NDIRECT && 0 < Ref(d, tab[j], s) < |d| ::
               d'[Ref(d, tab[j], s)] == d[Ref(d, tab[j], s)]
    ensures SameFiles(d, tab, d', tab')
    ensures NoHoles(d, tab) ==> NoHoles(d', tab')
  {
    forall j, x: nat | 0 <= j < |tab| && x < MAXFILE * BSIZE
      ensures FileByte(d', tab'[j], x) == FileByte(d, tab[j], x)
    {
      var s := SlotOf(x / BSIZE);
      if (j != i || s != k) {
        assert Ref(d', tab'[j], s) == Ref(d, tab[j], s);
      }
    }
    FilesEqual(d, tab, d', tab');
  }

  /** Slot `k` of inode `i` now refers to `r`, and every other slot to what it referred to. */
  lemma OneSlotMore(d: Disk, d': Disk, sb: Super, tab: seq<Dinode>, tab': seq<Dinode>, owner: map<nat, Place>,
                    i: nat, k: nat, r: nat)
    requires Refs(d, sb, tab, owner) && i < |tab| == |tab'| && k < SLOTS && |d'| == |d| && Fit(tab')
    requires r !in owner && sb.DataStart() <= r < sb.size
    requires Ref(d, tab[i], k) == 0 && Ref(d', tab'[i], k) == r
    requires forall j: nat, s: nat | j < |tab| && s < SLOTS && (j != i || s != k) ::
               Ref(d', tab'[j], s) == Ref(d, tab[j], s)
    ensures Refs(d', sb, tab', owner[r := Place(i, k)])
  {
    hide Ref;
  }

  /** Filling slot `k` of the inode itself. */
  lemma FillSlot(d: Disk, tab: seq<Dinode>, i: nat, k: nat, r: nat)
    requires Fit(tab) && i < |tab| && k <= NDIRECT && tab[i].addrs[k] == 0 && r < |d| <= WORD_LIMIT
               && d[r] == ZeroBlock()
    ensures var tab' := tab[i := SetAddr(tab[i], k, r)];
            && Fit(tab') && Ref(d, tab'[i], k) == r && Ref(d, tab[i], k) == 0
            && forall j: nat, s: nat | j < |tab| && s < SLOTS && (j != i || s != k) ::
                Ref(d, tab'[j], s) == Ref(d, tab[j], s)
  {
    var tab' := tab[i := SetAddr(tab[i], k, r)];
    forall j: nat, s: nat | j < |tab| && s < SLOTS && (j != i || s != k)
      ensures Ref(d, tab'[j], s) == Ref(d, tab[j], s)
    {
      if j == i && k == NDIRECT && s > NDIRECT {
        ZeroBlockWords(s - NDIRECT - 1);
      }
    }
  }

  /** A fresh zeroed block becomes direct block `k` of an inode, or its indirect block. */
  lemma AddDirect(d: Disk, sb: Super, tab: seq<Dinode>, owner: map<nat, Place>, i: nat, k: nat, r: nat)
    requires Refs(d, sb, tab, owner) && i < |tab| && k <= NDIRECT && tab[i].addrs[k] == 0
    requires r !in owner && sb.DataStart() <= r < sb.size && d[r] == ZeroBlock()
    ensures var tab' := tab[i := SetAddr(tab[i], k, r)];
            && Refs(d, sb, tab', owner[r := Place(i, k)])
            && (forall j: nat, s: nat | j < |tab| && s < SLOTS && (j != i || s != k) ::
                Ref(d, tab'[j], s) == Ref(d, tab[j], s))
            && SameFiles(d, tab, d, tab') && (NoHoles(d, tab) ==> NoHoles(d, tab'))
  {
    hide Ref, NoHoles, SameFiles;
    var tab' := tab[i := SetAddr(tab[i], k, r)];
    FillSlot(d, tab, i, k, r);
    OneSlotMore(d, d, sb, tab, tab', owner, i, k, r);
    NewSlot(d, tab, d, tab', i, k, r);
  }

  /** Storing entry `j` of an inode's indirect block changes that slot and no other. */
  lemma StoreEntry(d: Disk, sb: Super, tab: seq<Dinode>, owner: map<nat, Place>, i: nat, j: nat, r: nat)
    requires Refs(d, sb, tab, owner) && i < |tab| && j < NINDIRECT && Ref(d, tab[i], NDIRECT) != 0
    requires r < WORD_LIMIT
    ensures Ref(d, tab[i], NDIRECT) < |d|
    ensures var ind := Ref(d, tab[i], NDIRECT); var d' := d[ind := SetWord(d[ind], j, r)];
            && Ref(d', tab[i], NDIRECT + 1 + j) == r
            && (forall h: nat, s: nat | h < |tab| && s < SLOTS && (h != i || s != NDIRECT + 1 + j) ::
                  Ref(d', tab[h], s) == Ref(d, tab[h], s))
  {
    var ind := Ref(d, tab[i], NDIRECT);
    var d' := d[ind := SetWord(d[ind], j, r)];
    WordOfSetWord(d[ind], j, r);
    forall h: nat, s: nat | h < |tab| && s < SLOTS && (h != i || s != NDIRECT + 1 + j)
      ensures Ref(d', tab[h], s) == Ref(d, tab[h], s)
    {
      assert Ref(d, tab[h], NDIRECT) == tab[h].addrs[NDIRECT];
    }
  }

  /** The indirect block of one inode is nobody's data block. */
  lemma IndirectOwned(d: Disk, sb: Super, tab: seq<Dinode>, owner: map<nat, Place>, i: nat)
    requires Refs(d, sb, tab, owner) && i < |tab| && Ref(d, tab[i], NDIRECT) != 0
    ensures var ind := Ref(d, tab[i], NDIRECT);
            && ind in owner && ind < |d|
            && forall j: nat, s: nat | j < |tab| && s < SLOTS && s != NDIRECT :: Ref(d, tab[j], s) != ind
  {
    hide Ref;
  }

  /** A fresh block becomes entry `j` of an inode's indirect block. */
  lemma AddEntry(d: Disk, sb: Super, tab: seq<Dinode>, owner: map<nat, Place>, i: nat, j: nat, r: nat)
    requires Refs(d, sb, tab, owner) && i < |tab| && j < NINDIRECT && Ref(d, tab[i], NDIRECT) != 0
    requires Ref(d, tab[i], NDIRECT + 1 + j) == 0
    requires r !in owner && sb.DataStart() <= r < sb.size && d[r] == ZeroBlock()
    ensures Ref(d, tab[i], NDIRECT) < |d|
    ensures var ind := Ref(d, tab[i], NDIRECT); var d' := d[ind := SetWord(d[ind], j, r)];
            && Refs(d', sb, tab, owner[r := Place(i, NDIRECT + 1 + j)])
            && (forall h: nat, s: nat | h < |tab| && s < SLOTS && (h != i || s != NDIRECT + 1 + j) ::
                  Ref(d', tab[h], s) == Ref(d, tab[h], s))
            && SameFiles(d, tab, d', tab) && (NoHoles(d, tab) ==> NoHoles(d', tab))
  {
    hide Ref, SetWord, NoHoles, SameFiles;
    StoreEntry(d, sb, tab, owner, i, j, r);
    IndirectOwned(d, sb, tab, owner, i);
    var ind := Ref(d, tab[i], NDIRECT);
    var d' := d[ind := SetWord(d[ind], j, r)];
    OneSlotMore(d, d', sb, tab, tab, owner, i, NDIRECT + 1 + j, r);
    NewSlot(d, tab, d', tab, i, NDIRECT + 1 + j, r);
  }

  /** A file with `data` in place of block `bn`. */
  ghost function WithBlock(f: File, bn: nat, data: Block): File
    requires |f.bytes| == MAXFILE * BSIZE && bn < MAXFILE
  {
    f.(bytes := f.bytes[..bn * BSIZE] + data + f.bytes[(bn + 1) * BSIZE..])
  }

  lemma StoreDataByte(d: Disk, sb: Super, tab: seq<Dinode>, owner: map<nat, Place>, i: nat, bn: nat, data: Block,
                      j: nat, x: nat)
    requires Refs(d, sb, tab, owner) && i < |tab| && j < |tab| && bn < MAXFILE && Ref(d, tab[i], SlotOf(bn)) != 0
    requires Ref(d, tab[i], SlotOf(bn)) < |d| && x < MAXFILE * BSIZE
    requires SameRefs(d, tab, d[Ref(d, tab[i], SlotOf(bn)) := data], tab)
    ensures FileByte(d[Ref(d, tab[i], SlotOf(bn)) := data], tab[j], x)
              == if j == i && x / BSIZE == bn then data[x % BSIZE] else FileByte(d, tab[j], x)
  {
    var r := Ref(d, tab[i], SlotOf(bn));
    var q := Ref(d, tab[j], SlotOf(x / BSIZE));
    assert Ref(d[r := data], tab[j], SlotOf(x / BSIZE)) == q;
    if q != 0 && (j != i || x / BSIZE != bn) {
      assert owner[q] == Place(j, SlotOf(x / BSIZE)) && owner[r] == Place(i, SlotOf(bn));
    }
  }

  lemma StoreDataBytes(d: Disk, sb: Super, tab: seq<Dinode>, owner: map<nat, Place>, i: nat, bn: nat, data: Block,
                       j: nat)
    requires Refs(d, sb, tab, owner) && i < |tab| && j < |tab| && bn < MAXFILE && Ref(d, tab[i], SlotOf(bn)) != 0
    requires Ref(d, tab[i], SlotOf(bn)) < |d|
    requires SameRefs(d, tab, d[Ref(d, tab[i], SlotOf(bn)) := data], tab)
    ensures FileOf(d[Ref(d, tab[i], SlotOf(bn)) := data], tab[j])
              == if j == i then WithBlock(FileOf(d, tab[i]), bn, data) else FileOf(d, tab[j])
  {
    hide FileByte, Ref;
    var d' := d[Ref(d, tab[i], SlotOf(bn)) := data];
    forall x: nat | x < MAXFILE * BSIZE
      ensures FileByte(d', tab[j], x) == if j == i && x / BSIZE == bn then data[x % BSIZE] else FileByte(d, tab[j], x)
    {
      StoreDataByte(d, sb, tab, owner, i, bn, data, j, x);
    }
    assert FileOf(d', tab[j]).bytes ==
      (if j == i then WithBlock(FileOf(d, tab[i]), bn, data) else FileOf(d, tab[j])).bytes;
  }

  /** Storing into the block of file block `bn` of inode `i`. */
  lemma StoreData(d: Disk, sb: Super, tab: seq<Dinode>, owner: map<nat, Place>, i: nat, bn: nat, data: Block)
    requires Refs(d, sb, tab, owner) && i < |tab| && bn < MAXFILE && Ref(d, tab[i], SlotOf(bn)) != 0
    ensures Ref(d, tab[i], SlotOf(bn)) < |d|
    ensures var d' := d[Ref(d, tab[i], SlotOf(bn)) := data];
            && Refs(d', sb, tab, owner) && SameRefs(d, tab, d', tab)
            && (NoHoles(d, tab) ==> NoHoles(d', tab))
            && Files(d', tab) == Files(d, tab)[i := WithBlock(FileOf(d, tab[i]), bn, data)]
  {
    var d' := d[Ref(d, tab[i], SlotOf(bn)) := data];
    RefsFrame(d, d', sb, tab, owner);
    forall j: nat | j < |tab|
      ensures Files(d', tab)[j] == Files(d, tab)[i := WithBlock(FileOf(d, tab[i]), bn, data)][j]
    {
      StoreDataBytes(d, sb, tab, owner, i, bn, data, j);
    }
  }

  /** Storing inode `i` into its inode block. */
  lemma StoreInode(d: Disk, sb: Super, tab: seq<Dinode>, owner: map<nat, Place>, i: nat)
    requires Refs(d, sb, tab, owner) && i < |tab|
    ensures sb.IBlock(i) < |d|
    ensures var m := sb.IBlock(i); var d' := d[m := PutInode(d[m], i % IPB, tab[i])];
            && Refs(d', sb, tab, owner) && SameRefs(d, tab, d', tab) && SameFiles(d, tab, d', tab)
            && (NoHoles(d, tab) ==> NoHoles(d', tab))
            && (forall used | Bits(d, sb, used) :: Bits(d', sb, used))
            && (OnDisk(d, sb, tab, i) ==> OnDisk(d', sb, tab, -1))
  {
    hide HasBit, Decode, Bits, OnDisk;
    var m := sb.IBlock(i);
    var d' := d[m := PutInode(d[m], i % IPB, tab[i])];
    RefsFrame(d, d', sb, tab, owner);
    FilesFrame(d, d', sb, tab, owner);
    StoredBits(d, sb, m, d'[m]);
    if OnDisk(d, sb, tab, i) {
      StoredOnDisk(d, sb, tab, i);
    }
  }

  lemma StoredBits(d: Disk, sb: Super, m: nat, x: Block)
    requires sb.Fits(d) && m < sb.bmapstart
    ensures forall used | Bits(d, sb, used) :: Bits(d[m := x], sb, used)
  {
    var d' := d[m := x];
    forall used | Bits(d, sb, used)
      ensures Bits(d', sb, used)
    {
      forall b: nat | b < sb.size
        ensures BitAt(d', sb, b) <==> b < sb.DataStart() || b in used
      {
        assert b / BPB <= sb.size / BPB;
        assert BitAt(d', sb, b) == BitAt(d, sb, b);
      }
    }
  }

  lemma StoredOnDisk(d: Disk, sb: Super, tab: seq<Dinode>, i: nat)
    requires sb.Fits(d) && |tab| == sb.ninodes && OnDisk(d, sb, tab, i)
    requires i < |tab| && tab[i].Fits() && sb.IBlock(i) < |d|
    ensures OnDisk(d[sb.IBlock(i) := PutInode(d[sb.IBlock(i)], i % IPB, tab[i])], sb, tab, -1)
  {
    hide HasBit, Decode;
    var m := sb.IBlock(i);
    var d' := d[m := PutInode(d[m], i % IPB, tab[i])];
    GetOfPutInode(d[m], i % IPB, tab[i]);
    forall j: nat | j < sb.ninodes
      ensures InodeAt(d', sb, j) == tab[j]
    {
      if j != i && sb.IBlock(j) == m {
        assert j % IPB != i % IPB;
      }
    }
  }

  /** A bit set or cleared is a block more or a block less in use. */
  lemma StoreBit(d: Disk, d': Disk, sb: Super, b: nat, used: set<nat>)
    requires sb.Fits(d) && b < sb.size && Bits(d, sb, used) && sb.DataStart() <= b
    ensures sb.BBlock(b) < sb.DataStart()
    ensures d' == d[sb.BBlock(b) := SetBit(d[sb.BBlock(b)], b % BPB)] ==> Bits(d', sb, used + {b})
    ensures d' == d[sb.BBlock(b) := ClearBit(d[sb.BBlock(b)], b % BPB)] ==> Bits(d', sb, used - {b})
  {
    assert b / BPB <= sb.size / BPB;
    BitOfStore(d[sb.BBlock(b)], b % BPB);
    if d' == d[sb.BBlock(b) := SetBit(d[sb.BBlock(b)], b % BPB)]
        || d' == d[sb.BBlock(b) := ClearBit(d[sb.BBlock(b)], b % BPB)] {
      forall c: nat | c < sb.size && c != b
        ensures BitAt(d', sb, c) == BitAt(d, sb, c)
      {
        assert c / BPB == b / BPB ==> c % BPB != b % BPB;
      }
    }
  }

  /** The inode blocks decide what is on disk. */
  lemma OnDiskFrame(d: Disk, d': Disk, sb: Super, tab: seq<Dinode>, tab': seq<Dinode>, skip: int)
    requires sb.Fits(d) && |d'| == |d| && |tab| == |tab'| == sb.ninodes && OnDisk(d, sb, tab, skip)
    requires forall m | sb.inodestart <= m < sb.bmapstart :: d'[m] == d[m]
    requires forall i | 0 <= i < |tab| && i != skip :: tab'[i] == tab[i]
    ensures OnDisk(d', sb, tab', skip)
  {
    forall i: nat | i < sb.ninodes && i != skip
      ensures InodeAt(d', sb, i) == tab'[i]
    {
      assert i / IPB <= sb.ninodes / IPB;
    }
  }

  /** An allocation, seen by everyone: one free block and one bitmap block change. */
  lemma AllocFrame(d: Disk, d': Disk, sb: Super, tab: seq<Dinode>, owner: map<nat, Place>, skip: int, r: nat)
    requires Refs(d, sb, tab, owner) && OnDisk(d, sb, tab, skip) && NoHoles(d, tab) && |d'| == |d|
    requires r !in owner && sb.DataStart() <= r < sb.size
    requires forall b | 0 <= b < |d| && b != r && b != sb.BBlock(r) :: d'[b] == d[b]
    ensures Refs(d', sb, tab, owner) && OnDisk(d', sb, tab, skip) && NoHoles(d', tab)
    ensures SameFiles(d, tab, d', tab) && SameRefs(d, tab, d', tab)
  {
    assert r / BPB <= sb.size / BPB;
    RefsFrame(d, d', sb, tab, owner);
    FilesFrame(d, d', sb, tab, owner);
    OnDiskFrame(d, d', sb, tab, tab, skip);
  }

  /** All that holds between steps of an operation on inode `skip`, but for the bitmap. */
  ghost predicate Linked(d: Disk, sb: Super, tab: seq<Dinode>, owner: map<nat, Place>, skip: int) {
    Refs(d, sb, tab, owner) && NoHoles(d, tab) && FreeEmpty(tab) && OnDisk(d, sb, tab, skip)
  }

  /** Everything that holds between steps of an operation on inode `skip`. */
  ghost predicate Consistent(d: Disk, sb: Super, tab: seq<Dinode>, owner: map<nat, Place>, skip: int) {
    Linked(d, sb, tab, owner, skip) && Bits(d, sb, owner.Keys)
  }

  /** AddDirect from the state balloc leaves, where `r` is marked but owned by nobody. */
  lemma TakeDirect(d: Disk, sb: Super, tab: seq<Dinode>, owner: map<nat, Place>, i: nat, k: nat, r: nat)
    requires Refs(d, sb, tab, owner) && Bits(d, sb, owner.Keys + {r}) && NoHoles(d, tab) && FreeEmpty(tab)
    requires OnDisk(d, sb, tab, i) && i < |tab| && tab[i].typ != 0
    requires k <= NDIRECT && tab[i].addrs[k] == 0
    requires r !in owner && sb.DataStart() <= r < sb.size && d[r] == ZeroBlock()
    ensures var tab' := tab[i := SetAddr(tab[i], k, r)];
            && Consistent(d, sb, tab', owner[r := Place(i, k)], i) && SameFiles(d, tab, d, tab')
            && (forall j: nat, s: nat | j < |tab| && s < SLOTS && (j != i || s != k) ::
                Ref(d, tab'[j], s) == Ref(d, tab[j], s))
  {
    AddDirect(d, sb, tab, owner, i, k, r);
    assert owner[r := Place(i, k)].Keys == owner.Keys + {r};
  }

  /** AddEntry from the state balloc leaves. */
  lemma TakeEntry(d: Disk, sb: Super, tab: seq<Dinode>, owner: map<nat, Place>, i: nat, j: nat, r: nat)
    requires Refs(d, sb, tab, owner) && Bits(d, sb, owner.Keys + {r}) && NoHoles(d, tab) && FreeEmpty(tab)
    requires OnDisk(d, sb, tab, i) && i < |tab|
    requires j < NINDIRECT && Ref(d, tab[i], NDIRECT) != 0 && Ref(d, tab[i], NDIRECT + 1 + j) == 0
    requires r !in owner && sb.DataStart() <= r < sb.size && d[r] == ZeroBlock()
    ensures sb.DataStart() <= Ref(d, tab[i], NDIRECT) < |d|
    ensures var ind := Ref(d, tab[i], NDIRECT); var d' := d[ind := SetWord(d[ind], j, r)];
            && Consistent(d', sb, tab, owner[r := Place(i, NDIRECT + 1 + j)], i) && SameFiles(d, tab, d', tab)
            && (forall h: nat, s: nat | h < |tab| && s < SLOTS && (h != i || s != NDIRECT + 1 + j) ::
                  Ref(d', tab[h], s) == Ref(d, tab[h], s))
  {
    hide NoHoles, FreeEmpty, InodeAt;
    AddEntry(d, sb, tab, owner, i, j, r);
    var ind := Ref(d, tab[i], NDIRECT);
    var d' := d[ind := SetWord(d[ind], j, r)];
    assert owner[r := Place(i, NDIRECT + 1 + j)].Keys == owner.Keys + {r};
    OnDiskFrame(d, d', sb, tab, tab, i);
    BitsFrame(d, d', sb, owner.Keys + {r});
  }

  /** The disk with `a[j] = r` stored in the indirect block of `ino`. */
  function SetEntry(d: Disk, ino: Dinode, j: nat, r: nat): Disk
    requires ino.Fits() && ino.addrs[NDIRECT] < |d| && j < NINDIRECT && r < WORD_LIMIT
  {
    d[ino.addrs[NDIRECT] := SetWord(d[ino.addrs[NDIRECT]], j, r)]
  }

  /** `d` is `d0` after balloc has returned block `r`. */
  ghost predicate Allocated(d0: Disk, d: Disk, sb: Super, used: set<nat>, r: nat) {
    && sb.Fits(d0) && sb.Fits(d) && sb.DataStart() <= r < sb.size && r !in used
    && (forall c: nat | c < |d| && c != r && c != sb.BBlock(r) :: d[c] == d0[c])
    && d[r] == ZeroBlock() && Bits(d, sb, used + {r})
  }

  /** balloc, then `ip->addrs[k] = r`. */
  lemma GrowDirect(d0: Disk, d: Disk, sb: Super, tab: seq<Dinode>, owner: map<nat, Place>, i: nat, k: nat, r: nat)
    requires Consistent(d0, sb, tab, owner, i) && Allocated(d0, d, sb, owner.Keys, r)
    requires i < |tab| && tab[i].typ != 0 && k <= NDIRECT && tab[i].addrs[k] == 0
    ensures Consistent(d, sb, tab[i := SetAddr(tab[i], k, r)], owner[r := Place(i, k)], i)
    ensures SameFiles(d0, tab, d, tab[i := SetAddr(tab[i], k, r)])
  {
    AllocFrame(d0, d, sb, tab, owner, i, r);
    TakeDirect(d, sb, tab, owner, i, k, r);
  }

  /** balloc, then `a[j] = r` in the indirect block. */
  lemma GrowEntry(d0: Disk, d: Disk, sb: Super, tab: seq<Dinode>, owner: map<nat, Place>, i: nat, j: nat, r: nat)
    requires Consistent(d0, sb, tab, owner, i) && Allocated(d0, d, sb, owner.Keys, r) && i < |tab|
    requires j < NINDIRECT && tab[i].addrs[NDIRECT] != 0 && Ref(d0, tab[i], NDIRECT + 1 + j) == 0
    ensures sb.DataStart() <= tab[i].addrs[NDIRECT] < |d|
    ensures Consistent(SetEntry(d, tab[i], j, r), sb, tab, owner[r := Place(i, NDIRECT + 1 + j)], i)
    ensures SameFiles(d0, tab, SetEntry(d, tab[i], j, r), tab)
    ensures Ref(SetEntry(d, tab[i], j, r), tab[i], NDIRECT + 1 + j) == r
  {
    AllocFrame(d0, d, sb, tab, owner, i, r);
    assert Ref(d0, tab[i], NDIRECT) != 0;
    TakeEntry(d, sb, tab, owner, i, j, r);
    var ind := tab[i].addrs[NDIRECT];
    WordOfSetWord(d[ind], j, r);
  }

  /** Every block below `n` is marked. */
  ghost predicate MarkedTo(d: Disk, sb: Super, n: nat)
    requires sb.Fits(d)
  {
    forall c: nat | c < n && c < sb.size :: BitAt(d, sb, c)
  }

  lemma NoneMarked(d: Disk, sb: Super)
    requires sb.Fits(d)
    ensures MarkedTo(d, sb, 0)
  {
  }

  lemma MarkedNext(d: Disk, sb: Super, n: nat, m: nat)
    requires sb.Fits(d) && MarkedTo(d, sb, n)
    ensures n < sb.size && BitAt(d, sb, n) ==> MarkedTo(d, sb, n + 1)
    ensures n >= sb.size || n == m ==> MarkedTo(d, sb, m)
  {
  }

  /** Marked data blocks are in use. */
  lemma MarkedInUse(d: Disk, sb: Super, used: set<nat>, n: nat)
    requires sb.Fits(d) && Bits(d, sb, used) && MarkedTo(d, sb, n)
    ensures forall b: nat | sb.DataStart() <= b < n && b < sb.size :: b in used
  {
  }

  /** The bitmap blocks decide the bits. */
  lemma BitsFrame(d: Disk, d': Disk, sb: Super, used: set<nat>)
    requires sb.Fits(d) && |d'| == |d| && Bits(d, sb, used)
    requires forall m | sb.bmapstart <= m < sb.DataStart() :: d'[m] == d[m]
    ensures Bits(d', sb, used)
  {
    forall b: nat | b < sb.size
      ensures BitAt(d', sb, b) == BitAt(d, sb, b)
    {
      assert b / BPB <= sb.size / BPB;
    }
  }

  // ---- Bytes ----

  /** `s` with the bytes from `at` on replaced by `t`, which must end inside `s`. */
  ghost function Spliced(s: seq<Byte>, at: nat, t: seq<Byte>): (r: seq<Byte>)
    requires at + |t| <= |s|
    ensures |r| == |s|
  {
    s[..at] + t + s[at + |t|..]
  }

  lemma SplicedTwice(s: seq<Byte>, at: nat, t: seq<Byte>, u: seq<Byte>)
    requires at + |t| + |u| <= |s|
    ensures Spliced(Spliced(s, at, t), at + |t|, u) == Spliced(s, at, t + u)
  {
  }

  /** Splicing inside one block of a file. */
  lemma SplicedBlock(f: File, off: nat, t: seq<Byte>, data: Block)
    requires |f.bytes| == MAXFILE * BSIZE && off < MAXFILE * BSIZE && off % BSIZE + |t| <= BSIZE
    requires data == f.bytes[off / BSIZE * BSIZE..(off / BSIZE + 1) * BSIZE]
    ensures WithBlock(f, off / BSIZE, Spliced(data, off % BSIZE, t)) == f.(bytes := Spliced(f.bytes, off, t))
  {
    var lo := off / BSIZE * BSIZE;
    assert off == lo + off % BSIZE && lo + BSIZE <= |f.bytes|;
    var mid, whole := Spliced(data, off % BSIZE, t), Spliced(f.bytes, off, t);
    assert whole[..lo] == f.bytes[..lo] && whole[lo + BSIZE..] == f.bytes[lo + BSIZE..];
    forall o | 0 <= o < BSIZE
      ensures mid[o] == whole[lo + o]
    {
      if off % BSIZE <= o < off % BSIZE + |t| {
        assert mid[o] == t[o - off % BSIZE];
      }
    }
    assert whole[lo..lo + BSIZE] == mid;
    assert f.bytes[..lo] + mid + f.bytes[lo + BSIZE..] == whole;
  }

  /** A mapped block holds its part of the file. */
  lemma BlockOfFile(d: Disk, ino: Dinode, bn: nat)
    requires ino.Fits() && bn < MAXFILE && 0 < Ref(d, ino, SlotOf(bn)) < |d|
    ensures d[Ref(d, ino, SlotOf(bn))] == FileOf(d, ino).bytes[bn * BSIZE..(bn + 1) * BSIZE]
  {
    var part := FileOf(d, ino).bytes[bn * BSIZE..(bn + 1) * BSIZE];
    forall o | 0 <= o < BSIZE
      ensures d[Ref(d, ino, SlotOf(bn))][o] == part[o]
    {
      assert (bn * BSIZE + o) / BSIZE == bn && (bn * BSIZE + o) % BSIZE == o;
    }
  }

  lemma RefsFit(d: Disk, sb: Super, tab: seq<Dinode>, owner: map<nat, Place>)
    requires Refs(d, sb, tab, owner)
    ensures Fit(tab)
  {
  }

  /** A reference stays while its owner does. */
  lemma RefsStay(d: Disk, sb: Super, tab: seq<Dinode>, owner: map<nat, Place>,
                 d': Disk, tab': seq<Dinode>, owner': map<nat, Place>, i: nat)
    requires Refs(d, sb, tab, owner) && Refs(d', sb, tab', owner') && i < |tab|
    requires forall b | b in owner :: b in owner' && owner'[b] == owner[b]
    ensures Fit(tab) && Fit(tab') && i < |tab'|
    ensures forall k: nat | k < SLOTS && Ref(d, tab[i], k) != 0 :: Ref(d', tab'[i], k) == Ref(d, tab[i], k)
    ensures tab[i].addrs[NDIRECT] != 0 ==> tab'[i].addrs[NDIRECT] == tab[i].addrs[NDIRECT]
  {
    assert Ref(d, tab[i], NDIRECT) == tab[i].addrs[NDIRECT];
  }

  /** A file may grow over blocks that are allocated. */
  lemma GrowSize(d: Disk, sb: Super, tab: seq<Dinode>, owner: map<nat, Place>, i: nat, size: nat)
    requires Linked(d, sb, tab, owner, i) && i < |tab| && tab[i].typ != 0 && size <= MAXFILE * BSIZE
    requires forall bn: nat | bn < MAXFILE && bn * BSIZE < size :: Ref(d, tab[i], SlotOf(bn)) != 0
    ensures var tab' := tab[i := WithSize(tab[i], size)];
            && Linked(d, sb, tab', owner, i)
            && Files(d, tab') == Files(d, tab)[i := File(size, FileOf(d, tab[i]).bytes)]
  {
    hide Bits, InodeAt;
    var tab' := tab[i := WithSize(tab[i], size)];
    forall j: nat, k: nat | j < |tab| && k < SLOTS
      ensures Ref(d, tab'[j], k) == Ref(d, tab[j], k)
    {
    }
    forall j: nat, x: nat | j < |tab| && x < MAXFILE * BSIZE
      ensures FileByte(d, tab'[j], x) == FileByte(d, tab[j], x)
    {
    }
    forall j: nat | j < |tab|
      ensures Files(d, tab')[j] == Files(d, tab)[i := File(size, FileOf(d, tab[i]).bytes)][j]
    {
      assert FileOf(d, tab'[j]).bytes == FileOf(d, tab[j]).bytes;
    }
    OnDiskFrame(d, d, sb, tab, tab', i);
  }

  /** The disk with `chunk` copied into the buffer of the block behind byte `off`. */
  function WithChunk(d: Disk, addr: nat, off: nat, chunk: seq<Byte>): Disk
    requires addr < |d| && off % BSIZE + |chunk| <= BSIZE
  {
    var o := off % BSIZE;
    d[addr := d[addr][..o] + chunk + d[addr][o + |chunk|..]]
  }

  lemma LinkChunk(d: Disk, sb: Super, tab: seq<Dinode>, owner: map<nat, Place>, i: nat, off: nat, chunk: seq<Byte>)
    requires Linked(d, sb, tab, owner, i) && i < |tab|
    requires off < MAXFILE * BSIZE && off % BSIZE + |chunk| <= BSIZE && Ref(d, tab[i], SlotOf(off / BSIZE)) != 0
    ensures sb.DataStart() <= Ref(d, tab[i], SlotOf(off / BSIZE)) < |d| && off + |chunk| <= MAXFILE * BSIZE
    ensures var d' := WithChunk(d, Ref(d, tab[i], SlotOf(off / BSIZE)), off, chunk);
            && Linked(d', sb, tab, owner, i) && SameRefs(d, tab, d', tab)
            && Files(d', tab) == Files(d, tab)[i := File(tab[i].size, Spliced(FileOf(d, tab[i]).bytes, off, chunk))]
  {
    var addr := Ref(d, tab[i], SlotOf(off / BSIZE));
    var d' := WithChunk(d, addr, off, chunk);
    assert addr in owner;
    StoreData(d, sb, tab, owner, i, off / BSIZE, d'[addr]);
    BlockOfFile(d, tab[i], off / BSIZE);
    SplicedBlock(FileOf(d, tab[i]), off, chunk, d[addr]);
    OnDiskFrame(d, d', sb, tab, tab, i);
  }

  lemma StoreChunk(d: Disk, sb: Super, tab: seq<Dinode>, owner: map<nat, Place>, i: nat, off: nat, chunk: seq<Byte>)
    requires Consistent(d, sb, tab, owner, i) && i < |tab|
    requires off < MAXFILE * BSIZE && off % BSIZE + |chunk| <= BSIZE && Ref(d, tab[i], SlotOf(off / BSIZE)) != 0
    ensures Ref(d, tab[i], SlotOf(off / BSIZE)) < |d| && off + |chunk| <= MAXFILE * BSIZE
    ensures var d' := WithChunk(d, Ref(d, tab[i], SlotOf(off / BSIZE)), off, chunk);
            && Consistent(d', sb, tab, owner, i) && SameRefs(d, tab, d', tab)
            && Files(d', tab) == Files(d, tab)[i := File(tab[i].size, Spliced(FileOf(d, tab[i]).bytes, off, chunk))]
  {
    LinkChunk(d, sb, tab, owner, i, off, chunk);
    BitsFrame(d, WithChunk(d, Ref(d, tab[i], SlotOf(off / BSIZE)), off, chunk), sb, owner.Keys);
  }

  // ---- Freeing ----

  /** A change inside the bitmap touches no inode and no file. */
  lemma BitmapFrame(d: Disk, d': Disk, sb: Super, tab: seq<Dinode>, owner: map<nat, Place>, skip: int)
    requires Refs(d, sb, tab, owner) && OnDisk(d, sb, tab, skip) && |d'| == |d|
    requires forall b | 0 <= b < |d| && !(sb.bmapstart <= b < sb.DataStart()) :: d'[b] == d[b]
    ensures Refs(d', sb, tab, owner) && OnDisk(d', sb, tab, skip) && SameRefs(d, tab, d', tab)
    ensures SameFiles(d, tab, d', tab)
  {
    RefsFrame(d, d', sb, tab, owner);
    FilesFrame(d, d', sb, tab, owner);
    OnDiskFrame(d, d', sb, tab, tab, skip);
  }

  /** The owners that remain when inode `i` loses slot `k`. */
  ghost function LoseSlot(owner: map<nat, Place>, i: nat, k: nat): map<nat, Place> {
    map b | b in owner && owner[b] != Place(i, k) :: owner[b]
  }

  ghost function LoseInode(owner: map<nat, Place>, i: nat): map<nat, Place> {
    map b | b in owner && owner[b].inum != i :: owner[b]
  }

  /** Slot `k` of inode `i` refers to nothing now, and every other slot to what it referred to. */
  lemma OneSlotLess(d: Disk, sb: Super, tab: seq<Dinode>, tab': seq<Dinode>, owner: map<nat, Place>, i: nat, k: nat)
    requires Refs(d, sb, tab, owner) && i < |tab| == |tab'| && k < SLOTS && Fit(tab')
    requires Ref(d, tab[i], k) != 0 && Ref(d, tab'[i], k) == 0
    requires forall j: nat, s: nat | j < |tab| && s < SLOTS && (j != i || s != k) ::
               Ref(d, tab'[j], s) == Ref(d, tab[j], s)
    ensures Refs(d, sb, tab', LoseSlot(owner, i, k))
    ensures LoseSlot(owner, i, k).Keys == owner.Keys - {Ref(d, tab[i], k)}
  {
    hide Ref;
  }

  /** Inode `i` loses direct block `k`; nobody else's file changes. */
  lemma DropDirect(d: Disk, sb: Super, tab: seq<Dinode>, owner: map<nat, Place>, i: nat, k: nat)
    requires Refs(d, sb, tab, owner) && i < |tab| && k < NDIRECT && tab[i].addrs[k] != 0
    ensures var tab' := tab[i := SetAddr(tab[i], k, 0)]; var owner' := LoseSlot(owner, i, k);
            && Refs(d, sb, tab', owner') && owner'.Keys == owner.Keys - {tab[i].addrs[k]}
  {
    var tab' := tab[i := SetAddr(tab[i], k, 0)];
    assert Ref(d, tab[i], k) == tab[i].addrs[k];
    forall j: nat, s: nat | j < |tab| && s < SLOTS && (j != i || s != k)
      ensures Ref(d, tab'[j], s) == Ref(d, tab[j], s)
    {
    }
    hide Refs, LoseSlot;
    OneSlotLess(d, sb, tab, tab', owner, i, k);
  }

  /** Inode `i`, already without direct blocks, loses its indirect block. */
  lemma DropIndirect(d: Disk, sb: Super, tab: seq<Dinode>, owner: map<nat, Place>, i: nat)
    requires Refs(d, sb, tab, owner) && i < |tab| && forall k | 0 <= k < NDIRECT :: tab[i].addrs[k] == 0
    ensures var tab' := tab[i := SetAddr(tab[i], NDIRECT, 0)];
            Refs(d, sb, tab', LoseInode(owner, i))
  {
    var tab' := tab[i := SetAddr(tab[i], NDIRECT, 0)];
    forall j: nat, s: nat | j < |tab| && s < SLOTS
      ensures Ref(d, tab'[j], s) == if j == i then 0 else Ref(d, tab[j], s)
    {
    }
  }

  ghost predicate Unreferenced(ino: Dinode) {
    ino.Fits() && forall k | 0 <= k <= NDIRECT :: ino.addrs[k] == 0
  }

  /** A file without blocks reads as zeroes. */
  lemma EmptyFile(d: Disk, ino: Dinode)
    requires Unreferenced(ino)
    ensures FileOf(d, ino) == File(ino.size, seq(MAXFILE * BSIZE, i => 0))
  {
    forall x: nat | x < MAXFILE * BSIZE
      ensures FileByte(d, ino, x) == 0
    {
    }
  }

  /** Between steps of itrunc on inode `i`: its size is still the old one. */
  ghost predicate Trimming(d: Disk, sb: Super, tab: seq<Dinode>, owner: map<nat, Place>, i: nat) {
    && Refs(d, sb, tab, owner) && OnDisk(d, sb, tab, i) && FreeEmpty(tab)
    && i < |tab| && tab[i].typ != 0 && NoHoles(d, tab[i := WithSize(tab[i], 0)])
  }

  /** No inode but `i` has changed, and no file but its own. */
  ghost predicate OthersSame(d: Disk, tab: seq<Dinode>, d': Disk, tab': seq<Dinode>, i: nat) {
    |tab| == |tab'| && Fit(tab) && Fit(tab') &&
    forall j | 0 <= j < |tab| && j != i :: tab'[j] == tab[j] && Files(d', tab')[j] == Files(d, tab)[j]
  }

  /** `d'` is `d` with some bits of the bitmap cleared, those of `used'` left. */
  ghost predicate Freed(d: Disk, d': Disk, sb: Super, used': set<nat>) {
    && sb.Fits(d) && sb.Fits(d') && Bits(d', sb, used')
    && (forall b: nat | b < |d| && !(sb.bmapstart <= b < sb.DataStart()) :: d'[b] == d[b])
  }

  lemma OthersChain(d: Disk, tab: seq<Dinode>, d1: Disk, tab1: seq<Dinode>, d2: Disk, tab2: seq<Dinode>, i: nat)
    requires OthersSame(d, tab, d1, tab1, i) && OthersSame(d1, tab1, d2, tab2, i)
    ensures OthersSame(d, tab, d2, tab2, i)
  {
  }

  /** Whatever an inode refers to is a data block in use. */
  lemma RefInUse(d: Disk, sb: Super, tab: seq<Dinode>, owner: map<nat, Place>, i: nat, k: nat)
    requires Consistent(d, sb, tab, owner, i) && i < |tab| && k < SLOTS
    ensures tab[i].Fits() && sb.Fits(d)
    ensures var r := Ref(d, tab[i], k); r != 0 ==> r in owner && sb.DataStart() <= r < sb.size
  {
  }

  /** A direct block that is in use can be freed without the panic of bfree. */
  lemma DirectOwned(d: Disk, sb: Super, tab: seq<Dinode>, owner: map<nat, Place>, i: nat, k: nat)
    requires Trimming(d, sb, tab, owner, i) && k < NDIRECT && tab[i].addrs[k] != 0
    ensures sb.Fits(d) && i < |tab| && tab[i].addrs[k] in owner.Keys && sb.DataStart() <= tab[i].addrs[k] < sb.size
  {
    assert Ref(d, tab[i], k) == tab[i].addrs[k];
  }

  /** bfree of direct block `k`, then `ip->addrs[k] = 0`. */
  lemma TrimDirect(d: Disk, d': Disk, sb: Super, tab: seq<Dinode>, owner: map<nat, Place>, i: nat, k: nat)
    requires Trimming(d, sb, tab, owner, i) && k < NDIRECT && tab[i].addrs[k] != 0
    requires Freed(d, d', sb, owner.Keys - {tab[i].addrs[k]})
    ensures var tab' := tab[i := SetAddr(tab[i], k, 0)]; var owner' := LoseSlot(owner, i, k);
            && Trimming(d', sb, tab', owner', i) && Bits(d', sb, owner'.Keys)
            && OthersSame(d, tab, d', tab', i)
    ensures LoseInode(LoseSlot(owner, i, k), i) == LoseInode(owner, i)
  {
    hide HasBit, BitAt, FileByte, InodeAt;
    BitmapFrame(d, d', sb, tab, owner, i);
    DropDirect(d', sb, tab, owner, i, k);
    var tab' := tab[i := SetAddr(tab[i], k, 0)];
    OnDiskFrame(d', d', sb, tab, tab', i);
    TrimNoHoles(d, d', tab, tab', i);
    assert Files(d', tab) == Files(d, tab);
  }

  lemma TrimNoHoles(d: Disk, d': Disk, tab: seq<Dinode>, tab': seq<Dinode>, i: nat)
    requires i < |tab| == |tab'| && Fit(tab) && Fit(tab') && SameRefs(d, tab, d', tab)
    requires forall j | 0 <= j < |tab| && j != i :: tab'[j] == tab[j]
    requires NoHoles(d, tab[i := WithSize(tab[i], 0)])
    ensures NoHoles(d', tab'[i := WithSize(tab'[i], 0)])
  {
    var t, t' := tab[i := WithSize(tab[i], 0)], tab'[i := WithSize(tab'[i], 0)];
    forall j, bn: nat | 0 <= j < |tab| && bn < MAXFILE && bn * BSIZE < t'[j].size
      ensures Ref(d', t'[j], SlotOf(bn)) != 0
    {
      assert j != i && t'[j] == t[j] == tab[j];
      assert Ref(d', tab[j], SlotOf(bn)) == Ref(d, tab[j], SlotOf(bn));
    }
    forall j | 0 <= j < |t'|
      ensures t'[j].Fits() && t'[j].size <= MAXFILE * BSIZE
    {
      assert j != i ==> t[j] == t'[j];
    }
  }

  /** The indirect block and what it lists are freed, then `ip->addrs[NDIRECT] = 0`. */
  lemma TrimIndirect(d: Disk, sb: Super, tab: seq<Dinode>, owner: map<nat, Place>, i: nat)
    requires Trimming(d, sb, tab, owner, i) && forall k | 0 <= k < NDIRECT :: tab[i].addrs[k] == 0
    ensures var tab' := tab[i := SetAddr(tab[i], NDIRECT, 0)];
            Trimming(d, sb, tab', LoseInode(owner, i), i) && OthersSame(d, tab, d, tab', i) && Unreferenced(tab'[i])
  {
    DropIndirect(d, sb, tab, owner, i);
    var tab' := tab[i := SetAddr(tab[i], NDIRECT, 0)];
    OnDiskFrame(d, d, sb, tab, tab', i);
    TrimNoHoles(d, d, tab, tab', i);
  }

  lemma TrimmingStart(d: Disk, sb: Super, tab: seq<Dinode>, owner: map<nat, Place>, i: nat)
    requires Consistent(d, sb, tab, owner, i) && i < |tab| && tab[i].typ != 0
    ensures Trimming(d, sb, tab, owner, i)
  {
    var t := tab[i := WithSize(tab[i], 0)];
    forall j, bn: nat | 0 <= j < |tab| && bn < MAXFILE && bn * BSIZE < t[j].size
      ensures Ref(d, t[j], SlotOf(bn)) != 0
    {
      assert t[j] == tab[j];
    }
    assert forall j | 0 <= j < |t| :: t[j].Fits();
  }

  /** Freeing changes the bitmap and nothing else. */
  lemma TrimFrame(d: Disk, d': Disk, sb: Super, tab: seq<Dinode>, owner: map<nat, Place>, i: nat, used': set<nat>)
    requires Trimming(d, sb, tab, owner, i) && Freed(d, d', sb, used')
    ensures Trimming(d', sb, tab, owner, i) && SameFiles(d, tab, d', tab)
  {
    BitmapFrame(d, d', sb, tab, owner, i);
    TrimNoHoles(d, d', tab, tab, i);
  }

  /** The blocks of inode `i` in the first `j` entries of its indirect block. */
  ghost function Listed(owner: map<nat, Place>, i: nat, j: nat): set<nat> {
    set b | b in owner && owner[b].inum == i && NDIRECT < owner[b].slot <= NDIRECT + j
  }

  /** Entry `j` is nobody's, or the next listed block. */
  lemma ListedNext(d: Disk, sb: Super, tab: seq<Dinode>, owner: map<nat, Place>, i: nat, j: nat)
    requires Trimming(d, sb, tab, owner, i) && j < NINDIRECT && tab[i].addrs[NDIRECT] != 0
    ensures tab[i].addrs[NDIRECT] < |d| && sb.Fits(d)
    ensures var r := Word(d[tab[i].addrs[NDIRECT]], j);
            && (r == 0 ==> Listed(owner, i, j + 1) == Listed(owner, i, j))
            && (r != 0 ==>
                  && sb.DataStart() <= r < sb.size && r in owner.Keys - Listed(owner, i, j)
                  && owner.Keys - Listed(owner, i, j) - {r} == owner.Keys - Listed(owner, i, j + 1))
  {
    hide OnDisk, NoHoles, FreeEmpty;
    assert Ref(d, tab[i], NDIRECT) == tab[i].addrs[NDIRECT];
    var r := Ref(d, tab[i], NDIRECT + 1 + j);
    forall b | b in owner && owner[b] == Place(i, NDIRECT + 1 + j)
      ensures b == r != 0
    {
    }
    assert r != 0 ==> owner[r] == Place(i, NDIRECT + 1 + j);
  }

  /** Without direct blocks, an inode owns its indirect block and what that lists. */
  lemma ListedAll(d: Disk, sb: Super, tab: seq<Dinode>, owner: map<nat, Place>, i: nat)
    requires Trimming(d, sb, tab, owner, i) && forall k | 0 <= k < NDIRECT :: tab[i].addrs[k] == 0
    ensures var ind := tab[i].addrs[NDIRECT];
            && (ind != 0 ==> ind in owner && ind !in Listed(owner, i, NINDIRECT) && sb.DataStart() <= ind < sb.size)
            && (ind == 0 ==> LoseInode(owner, i).Keys == owner.Keys)
            && LoseInode(owner, i).Keys == owner.Keys - Listed(owner, i, NINDIRECT) - {ind}
  {
    hide OnDisk, NoHoles, FreeEmpty;
    var ind := tab[i].addrs[NDIRECT];
    assert Ref(d, tab[i], NDIRECT) == ind;
    forall b | b in owner && owner[b].inum == i
      ensures b in Listed(owner, i, NINDIRECT) || b == ind
    {
      assert Ref(d, tab[i], owner[b].slot) == b != 0;
    }
    assert 0 !in owner;

  }

  /** The end of itrunc: `ip->size = 0`. */
  lemma TrimDone(d: Disk, sb: Super, tab: seq<Dinode>, owner: map<nat, Place>, i: nat)
    requires Trimming(d, sb, tab, owner, i) && Unreferenced(tab[i]) && Bits(d, sb, owner.Keys)
    ensures var tab' := tab[i := WithSize(tab[i], 0)];
            Consistent(d, sb, tab', owner, i) && OthersSame(d, tab, d, tab', i)
            && Files(d, tab')[i] == File(0, seq(MAXFILE * BSIZE, i => 0))
  {
    var tab' := tab[i := WithSize(tab[i], 0)];
    forall j: nat, k: nat | j < |tab| && k < SLOTS
      ensures Ref(d, tab'[j], k) == Ref(d, tab[j], k)
    {
    }
    OnDiskFrame(d, d, sb, tab, tab', i);
    EmptyFile(d, tab'[i]);
  }

  // ---- Inode allocation ----

  /** What ialloc writes: everything zero but the type. */
  function NewInode(typ: nat): (ino: Dinode)
    requires 0 < typ < HALF
    ensures ino.Fits()
  {
    Dinode(typ, 0, 0, 0, 0, seq(NDIRECT + 1, k => 0))
  }

  /** Two inodes without blocks and without bytes hold the same file. */
  lemma SwapEmpty(d: Disk, sb: Super, tab: seq<Dinode>, owner: map<nat, Place>, i: nat, ino: Dinode)
    requires Refs(d, sb, tab, owner) && NoHoles(d, tab) && FreeEmpty(tab) && i < |tab|
    requires Unreferenced(tab[i]) && tab[i].size == 0 && Unreferenced(ino) && ino.size == 0
    ensures var tab' := tab[i := ino];
            Refs(d, sb, tab', owner) && NoHoles(d, tab') && FreeEmpty(tab') && SameFiles(d, tab, d, tab')
  {
    var tab' := tab[i := ino];
    forall j: nat, k: nat | j < |tab| && k < SLOTS
      ensures Ref(d, tab'[j], k) == Ref(d, tab[j], k)
    {
    }
    EmptyFile(d, tab[i]);
    EmptyFile(d, ino);
    assert Files(d, tab') == Files(d, tab);
  }

  /** ialloc takes a free inode: no file changes, the new one is empty. */
  lemma TakeInode(d: Disk, sb: Super, tab: seq<Dinode>, owner: map<nat, Place>, i: nat, typ: nat)
    requires Consistent(d, sb, tab, owner, -1) && i < |tab| && tab[i].typ == 0 && 0 < typ < HALF
    ensures sb.IBlock(i) < |d|
    ensures var d' := d[sb.IBlock(i) := PutInode(d[sb.IBlock(i)], i % IPB, NewInode(typ))];
            var tab' := tab[i := NewInode(typ)];
            Consistent(d', sb, tab', owner, -1) && SameFiles(d, tab, d', tab')
  {
    SwapEmpty(d, sb, tab, owner, i, NewInode(typ));
    StoreInode(d, sb, tab[i := NewInode(typ)], owner, i);
  }

  /** iput sets the type of an emptied inode to 0. */
  lemma GiveUpInode(d: Disk, sb: Super, tab: seq<Dinode>, owner: map<nat, Place>, i: nat)
    requires Consistent(d, sb, tab, owner, i) && i < |tab| && tab[i].size == 0 && i !in Inums(owner)
    ensures var tab' := tab[i := tab[i].(typ := 0)];
            Consistent(d, sb, tab', owner, i) && SameFiles(d, tab, d, tab')
  {
    forall k | 0 <= k <= NDIRECT
      ensures tab[i].addrs[k] == 0
    {
      assert Ref(d, tab[i], k) == tab[i].addrs[k];
    }
    SwapEmpty(d, sb, tab, owner, i, tab[i].(typ := 0));
  }

  /** The inodes that own blocks. */
  ghost function Inums(owner: map<nat, Place>): set<nat> {
    set b | b in owner :: owner[b].inum
  }
}
