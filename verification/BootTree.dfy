/** The directory tree that mkfs leaves, as the kernel reads it: mkfs meets dirlookup. */
module BootTree {
  import opened Blocks
  import opened FsLayout
  import opened FsInv
  import opened Dir
  import opened Path
  import opened Mkfs

  /** Names that mkfs may be given: no NULs, all different as directory names, and none of
      them `.` or `..`. */
  ghost predicate GoodNames(files: seq<HostFile>) {
    && |files| + 2 <= HALF
    && (forall k | 0 <= k < |files| ::
          0 !in files[k].name && Key(files[k].name) != [46] && Key(files[k].name) != [46, 46])
    && forall j, k | 0 <= j < k < |files| :: Key(files[j].name) != Key(files[k].name)
  }

  /** What the root directory should say once `k` files are in it. */
  ghost function RootMap(files: seq<HostFile>, k: nat): map<seq<Byte>, nat>
    requires k <= |files|
  {
    if k == 0 then map[[46] := ROOTINO, [46, 46] := ROOTINO]
    else RootMap(files, k - 1)[Key(files[k - 1].name) := k + 1]
  }

  lemma {:induction false} RootMapHas(files: seq<HostFile>, k: nat, key: seq<Byte>)
    requires k <= |files|
    ensures key in RootMap(files, k) <==>
              key == [46] || key == [46, 46] || exists j :: 0 <= j < k && Key(files[j].name) == key
  {
    hide Key;
    if k > 0 {
      RootMapHas(files, k - 1, key);
    }
  }

  lemma {:induction false} RootMapAt(files: seq<HostFile>, k: nat, j: nat)
    requires GoodNames(files) && j < k <= |files|
    ensures Key(files[j].name) in RootMap(files, k) && RootMap(files, k)[Key(files[j].name)] == j + 2
  {
    hide Key;
    if j < k - 1 {
      RootMapAt(files, k - 1, j);
    }
  }

  /** A new entry at the end of a directory. */
  lemma Append(s: seq<Byte>, inum: nat, name: seq<Byte>)
    requires IsDir(s) && Unique(s) && 0 < inum < HALF && 0 !in name && Key(name) !in DirMap(s)
    ensures var t := s + Dirent(inum, name);
            IsDir(t) && Unique(t) && DirMap(t) == DirMap(s)[Key(name) := inum]
  {
    hide DirMap, Key, Dirent, Unique;
    var e := Dirent(inum, name);
    DirentReads(inum, name);
    assert PutEntry(s, |s| / ENTRY, e) == s + e;
    PutName(s, |s| / ENTRY, e);
  }

  /** The entries mkfs writes are the map they should be. */
  lemma {:induction false} EntriesMean(files: seq<HostFile>, k: nat)
    requires GoodNames(files) && k <= |files|
    ensures IsDir(Entries(files, k)) && Unique(Entries(files, k)) && DirMap(Entries(files, k)) == RootMap(files, k)
  {
    hide Key, Dirent, Unique, NameField, IsDir, DirMap;
    if k == 0 {
      DotEntries();
    } else {
      EntriesMean(files, k - 1);
      RootMapHas(files, k - 1, Key(files[k - 1].name));
      Append(Entries(files, k - 1), k + 1, files[k - 1].name);
    }
  }

  lemma DotEntries()
    ensures var s := Dirent(ROOTINO, [46]) + Dirent(ROOTINO, [46, 46]);
            IsDir(s) && Unique(s) && DirMap(s) == map[[46] := ROOTINO, [46, 46] := ROOTINO]
  {
    KeyIs([46], 1);
    KeyIs([46, 46], 2);
    assert [46][..1] == [46] && [46, 46][..2] == [46, 46];
    var e: seq<Byte> := Dirent(ROOTINO, [46]);
    assert [] + e == e;
    hide Key, Dirent;
    Append([], ROOTINO, [46]);
    Append(e, ROOTINO, [46, 46]);
  }

  /** Empty entries behind a directory do not matter. */
  lemma Padded(s: seq<Byte>, t: seq<Byte>)
    requires IsDir(s) && Unique(s) && |t| % ENTRY == 0 && forall x | 0 <= x < |t| :: t[x] == 0
    ensures IsDir(s + t) && Unique(s + t) && DirMap(s + t) == DirMap(s)
  {
    hide DirMap, KeyOf;
    forall k: nat
      ensures Live(s + t, k) <==> Live(s, k)
      ensures Live(s, k) ==> EntryAt(s + t, k) == EntryAt(s, k)
    {
      EntryOfPadded(s, t, k);
    }
    forall k: nat | Live(s, k)
      ensures KeyOf(EntryAt(s, k)) in DirMap(s) && DirMap(s)[KeyOf(EntryAt(s, k))] == InumOf(EntryAt(s, k))
    {
      LiveInMap(s, k);
    }
    forall key | key in DirMap(s)
      ensures exists k: nat :: Live(s + t, k) && KeyOf(EntryAt(s + t, k)) == key
    {
      var k := MapHasLive(s, key);
      assert Live(s + t, k);
    }
    DirMapIs(s + t, DirMap(s));
  }

  lemma EntryOfPadded(s: seq<Byte>, t: seq<Byte>, k: nat)
    requires IsDir(s) && |t| % ENTRY == 0 && forall x | 0 <= x < |t| :: t[x] == 0
    ensures Live(s + t, k) <==> Live(s, k)
    ensures (k + 1) * ENTRY <= |s| ==> EntryAt(s + t, k) == EntryAt(s, k)
  {
    if |s| < (k + 1) * ENTRY <= |s + t| {
      assert k * ENTRY >= |s|;
      var e := EntryAt(s + t, k);
      assert e[0] == (s + t)[k * ENTRY] == 0 && e[1] == (s + t)[k * ENTRY + 1] == 0;
    }
  }

  lemma RoundedTail(k: nat)
    ensures Rounded(ENTRY * k) >= ENTRY * k && (Rounded(ENTRY * k) - ENTRY * k) % ENTRY == 0
  {
    var n := ENTRY * k;
    var q := n / BSIZE + 1;
    assert Rounded(n) == q * BSIZE && q * BSIZE - n == ENTRY * (q * 64 - k);
    Multiple(q * 64 - k);
  }

  lemma Multiple(m: int)
    ensures ENTRY * m % ENTRY == 0
  {
  }

  lemma RootText(f: File, files: seq<HostFile>)
    requires GoodNames(files) && f.size == Rounded(ENTRY * (|files| + 2)) <= |f.bytes|
    requires ENTRY * (|files| + 2) <= |f.bytes| && f.bytes[..ENTRY * (|files| + 2)] == Entries(files, |files|)
    requires forall x | ENTRY * (|files| + 2) <= x < |f.bytes| :: f.bytes[x] == 0
    ensures IsDir(Text(f)) && Unique(Text(f)) && DirMap(Text(f)) == RootMap(files, |files|)
  {
    hide DirMap, Key, Entries, Unique, GoodNames, Rounded;
    var n := ENTRY * (|files| + 2);
    EntriesMean(files, |files|);
    RoundedTail(|files| + 2);
    assert Text(f) == f.bytes[..n] + f.bytes[n..f.size];
    Padded(f.bytes[..n], f.bytes[n..f.size]);
  }

  /** The kernel finds every file where mkfs put it.  On the image that Mkfs.Build leaves,
      when it is consistent, the root is a directory without double names, and the path of
      the k-th file leads to inode k + 2. */
  lemma FilesFound(d: Disk, sb: Super, tab: seq<Dinode>, owner: map<nat, Place>, files: seq<HostFile>, k: nat,
      path: seq<Byte>)
    requires Consistent(d, sb, tab, owner, -1) && Fit(tab)
    requires GoodNames(files) && RootHolds(Files(d, tab), files) && Types(tab, |files|)
    requires k < |files| && Elements(path) == [Key(files[k].name)]
    ensures DirAt(tab, Files(d, tab), ROOTINO) && Unique(Text(Files(d, tab)[ROOTINO]))
    ensures Resolve(TreeOf(tab, Files(d, tab)), ROOTINO, Elements(path), false) == Found(k + 2)
  {
    assert tab[ROOTINO].size <= MAXFILE * BSIZE;
    var fs := Files(d, tab);
    assert fs[ROOTINO] == FileOf(d, tab[ROOTINO]);
    RootText(fs[ROOTINO], files);
    RootMapAt(files, |files|, k);
    hide DirMap, Key, IsDir, Unique, RootHolds, Elements, Resolve, Consistent, FileOf;
    NameiWalks(TreeOf(tab, fs), ROOTINO, Elements(path));
  }
}
