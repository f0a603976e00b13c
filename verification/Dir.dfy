/** Directories of kernel/fs.c: dirlookup, dirlink and the clearing of an entry by unlink
    implement a finite map from names to inode numbers. */
module Dir {
  import opened Blocks
  import opened FsLayout
  import opened FsInv
  import opened Fs

  // ---- Names ----

  /** The bytes of a name that count: up to the first NUL, at most DIRSIZ. */
  function Key(s: seq<Byte>): (k: seq<Byte>)
    ensures |k| <= DIRSIZ && |k| <= |s| && k == s[..|k|] && 0 !in k
    ensures |k| < DIRSIZ && |k| < |s| ==> s[|k|] == 0
  {
    KeyLength(s, 0);
    s[..Length(s, 0)]
  }

  function Length(s: seq<Byte>, k: nat): (n: nat)
    requires k <= DIRSIZ && k <= |s|
    ensures k <= n <= DIRSIZ && n <= |s|
    decreases DIRSIZ - k
  {
    if k == DIRSIZ || k == |s| || s[k] == 0 then k else Length(s, k + 1)
  }

  lemma {:induction false} KeyLength(s: seq<Byte>, k: nat)
    requires k <= DIRSIZ && k <= |s| && 0 !in s[..k]
    ensures var n := Length(s, k); 0 !in s[..n] && (n < DIRSIZ && n < |s| ==> s[n] == 0)
    decreases DIRSIZ - k
  {
    if k < DIRSIZ && k < |s| && s[k] != 0 {
      assert s[..k + 1] == s[..k] + [s[k]];
      KeyLength(s, k + 1);
    }
  }

  lemma KeyIs(s: seq<Byte>, n: nat)
    requires n <= DIRSIZ && n <= |s| && 0 !in s[..n] && (n < DIRSIZ && n < |s| ==> s[n] == 0)
    ensures Key(s) == s[..n]
  {
    var k := |Key(s)|;
    assert forall i | 0 <= i < n :: s[i] == s[..n][i] && s[i] != 0;
    assert forall i | 0 <= i < k :: s[i] == Key(s)[i] && s[i] != 0;
  }

  /** namecmp: strncmp of a C string and an entry's name field, over DIRSIZ bytes. */
  method NameCmp(s: seq<Byte>, t: seq<Byte>) returns (r: int)
    requires 0 !in s && |t| == DIRSIZ
    ensures r == 0 <==> Key(s) == Key(t)
  {
    var i := 0;
    while i < DIRSIZ
      invariant 0 <= i <= DIRSIZ && i <= |s| && s[..i] == t[..i] && 0 !in t[..i]
    {
      var a: int, b: int := if i < |s| then s[i] else 0, t[i];
      if a != b {
        Differ(s, t, i);
        return a - b;
      }
      if a == 0 {
        KeyIs(s, i);
        KeyIs(t, i);
        return 0;
      }
      assert t[..i + 1] == t[..i] + [b] && s[..i + 1] == s[..i] + [a];
      i := i + 1;
    }
    KeyIs(s, DIRSIZ);
    KeyIs(t, DIRSIZ);
    r := 0;
  }

  lemma Differ(s: seq<Byte>, t: seq<Byte>, i: nat)
    requires 0 !in s && |t| == DIRSIZ && i < DIRSIZ && i <= |s| && s[..i] == t[..i] && 0 !in t[..i]
    requires (if i < |s| then s[i] else 0) != t[i]
    ensures Key(s) != Key(t)
  {
    assert forall k | 0 <= k < i :: s[k] == s[..i][k] && t[k] == t[..i][k] && s[k] == t[k] && t[k] != 0;
    assert forall k | 0 <= k < |Key(s)| :: Key(s)[k] == s[k];
    assert forall k | 0 <= k < |Key(t)| :: Key(t)[k] == t[k];
  }

  lemma KeyOfField(s: seq<Byte>)
    requires 0 !in s
    ensures Key(NameField(s)) == Key(s)
  {
    var n := if |s| < DIRSIZ then |s| else DIRSIZ;
    assert NameField(s)[..n] == s[..n];
    KeyIs(s, n);
    KeyIs(NameField(s), n);
  }

  // ---- Directory contents ----

  function InumOf(e: seq<Byte>): (inum: nat)
    requires |e| == ENTRY
    ensures inum < HALF
  {
    var lo: int, hi: int := e[0], e[1];
    lo + 256 * hi
  }

  function KeyOf(e: seq<Byte>): seq<Byte>
    requires |e| == ENTRY
  {
    Key(e[2..])
  }

  ghost predicate IsDir(s: seq<Byte>) {
    |s| % ENTRY == 0
  }

  function EntryAt(s: seq<Byte>, k: nat): (e: seq<Byte>)
    requires (k + 1) * ENTRY <= |s|
    ensures |e| == ENTRY
  {
    s[k * ENTRY..(k + 1) * ENTRY]
  }

  /** The first n entries as a map; an entry with inode number 0 is free. */
  ghost function Names(s: seq<Byte>, n: nat): map<seq<Byte>, nat>
    requires n * ENTRY <= |s|
  {
    if n == 0 then map[]
    else
      var e := EntryAt(s, n - 1);
      if InumOf(e) == 0 then Names(s, n - 1) else Names(s, n - 1)[KeyOf(e) := InumOf(e)]
  }

  /** The map a directory with these contents stands for. */
  ghost function DirMap(s: seq<Byte>): map<seq<Byte>, nat>
    requires IsDir(s)
  {
    Names(s, |s| / ENTRY)
  }

  /** No name occurs twice. */
  ghost predicate Unique(s: seq<Byte>) {
    forall j: nat, k: nat | j < k && Live(s, j) && Live(s, k) :: KeyOf(EntryAt(s, j)) != KeyOf(EntryAt(s, k))
  }

  ghost predicate Live(s: seq<Byte>, k: nat) {
    (k + 1) * ENTRY <= |s| && InumOf(EntryAt(s, k)) != 0
  }

  lemma {:induction false} NamesHas(s: seq<Byte>, n: nat, key: seq<Byte>)
    requires n * ENTRY <= |s|
    ensures key in Names(s, n) <==> exists k: nat :: k < n && Live(s, k) && KeyOf(EntryAt(s, k)) == key
    ensures key in Names(s, n) ==> Names(s, n)[key] != 0
  {
    hide KeyOf, InumOf, EntryAt;
    if n > 0 {
      NamesHas(s, n - 1, key);
      if key in Names(s, n) && !(Live(s, n - 1) && KeyOf(EntryAt(s, n - 1)) == key) {
        var k: nat :| k < n - 1 && Live(s, k) && KeyOf(EntryAt(s, k)) == key;
        assert k < n;
      }
      if k: nat :| k < n && Live(s, k) && KeyOf(EntryAt(s, k)) == key {
        assert k < n - 1 || k == n - 1;
      }
    }
  }

  /** With unique names the map gives each name the number of its one entry. */
  lemma {:induction false} NamesAt(s: seq<Byte>, n: nat, k: nat)
    requires n * ENTRY <= |s| && k < n && Live(s, k) && Unique(s)
    ensures KeyOf(EntryAt(s, k)) in Names(s, n) && Names(s, n)[KeyOf(EntryAt(s, k))] == InumOf(EntryAt(s, k))
  {
    hide KeyOf, InumOf, EntryAt;
    if k < n - 1 {
      NamesAt(s, n - 1, k);
    }
  }

  /** A map that lists exactly the live entries is the directory's map. */
  lemma DirMapIs(s: seq<Byte>, m: map<seq<Byte>, nat>)
    requires IsDir(s) && Unique(s)
    requires forall k: nat | Live(s, k) :: KeyOf(EntryAt(s, k)) in m && m[KeyOf(EntryAt(s, k))] == InumOf(EntryAt(s, k))
    requires forall key | key in m :: exists k: nat :: Live(s, k) && KeyOf(EntryAt(s, k)) == key
    ensures DirMap(s) == m
  {
    hide KeyOf, InumOf, EntryAt, Names;
    var n := |s| / ENTRY;
    forall key: seq<Byte>
      ensures key in m <==> key in DirMap(s)
      ensures key in m ==> DirMap(s)[key] == m[key]
    {
      NamesHas(s, n, key);
      if key in m {
        var k: nat :| Live(s, k) && KeyOf(EntryAt(s, k)) == key;
        NamesAt(s, n, k);
      }
    }
  }

  lemma LiveInMap(s: seq<Byte>, k: nat)
    requires IsDir(s) && Unique(s) && Live(s, k)
    ensures KeyOf(EntryAt(s, k)) in DirMap(s) && DirMap(s)[KeyOf(EntryAt(s, k))] == InumOf(EntryAt(s, k))
  {
    NamesAt(s, |s| / ENTRY, k);
  }

  lemma MapHasLive(s: seq<Byte>, key: seq<Byte>) returns (k: nat)
    requires IsDir(s) && key in DirMap(s)
    ensures Live(s, k) && KeyOf(EntryAt(s, k)) == key
  {
    NamesHas(s, |s| / ENTRY, key);
    k :| k < |s| / ENTRY && Live(s, k) && KeyOf(EntryAt(s, k)) == key;
  }

  /** Entry k written, in place or at the end. */
  function PutEntry(s: seq<Byte>, k: nat, e: seq<Byte>): (s': seq<Byte>)
    requires k * ENTRY <= |s| && |e| == ENTRY
  {
    WriteAt(s, k * ENTRY, e)
  }

  lemma EntryOfPut(s: seq<Byte>, k: nat, e: seq<Byte>, j: nat)
    requires IsDir(s) && k * ENTRY <= |s| && |e| == ENTRY
    ensures IsDir(PutEntry(s, k, e)) && |PutEntry(s, k, e)| == if k * ENTRY == |s| then |s| + ENTRY else |s|
    ensures (j + 1) * ENTRY <= |PutEntry(s, k, e)| ==>
              EntryAt(PutEntry(s, k, e), j) == if j == k then e else if (j + 1) * ENTRY <= |s| then EntryAt(s, j) else e
    ensures (j + 1) * ENTRY <= |PutEntry(s, k, e)| && j != k ==> (j + 1) * ENTRY <= |s|
  {
    var c := |s| / ENTRY;
    assert |s| == c * ENTRY && k <= c;
  }

  /** dirlink: a free place takes a name that is not there yet. */
  lemma PutName(s: seq<Byte>, k: nat, e: seq<Byte>)
    requires IsDir(s) && Unique(s) && k * ENTRY <= |s| && |e| == ENTRY && !Live(s, k)
    requires InumOf(e) != 0 && KeyOf(e) !in DirMap(s)
    ensures IsDir(PutEntry(s, k, e)) && Unique(PutEntry(s, k, e))
    ensures DirMap(PutEntry(s, k, e)) == DirMap(s)[KeyOf(e) := InumOf(e)]
  {
    hide KeyOf, InumOf, EntryAt, Names, DirMap, WriteAt, PutEntry;
    var s', m := PutEntry(s, k, e), DirMap(s)[KeyOf(e) := InumOf(e)];
    EntryOfPut(s, k, e, k);
    forall j: nat
      ensures Live(s', j) <==> j == k || Live(s, j)
      ensures j != k && Live(s, j) ==> EntryAt(s', j) == EntryAt(s, j) && KeyOf(EntryAt(s, j)) != KeyOf(e)
      ensures j != k && Live(s, j) ==> KeyOf(EntryAt(s, j)) in m && m[KeyOf(EntryAt(s, j))] == InumOf(EntryAt(s, j))
    {
      EntryOfPut(s, k, e, j);
      if Live(s, j) {
        LiveInMap(s, j);
      }
    }
    assert Live(s', k) && EntryAt(s', k) == e;
    forall i: nat, j: nat | i < j && Live(s', i) && Live(s', j)
      ensures KeyOf(EntryAt(s', i)) != KeyOf(EntryAt(s', j))
    {
      assert i != k && j != k ==> Live(s, i) && Live(s, j);
    }
    forall key | key in m
      ensures exists j: nat :: Live(s', j) && KeyOf(EntryAt(s', j)) == key
    {
      if key == KeyOf(e) {
        assert KeyOf(EntryAt(s', k)) == key;
      } else {
        var j := MapHasLive(s, key);
        assert Live(s', j) && KeyOf(EntryAt(s', j)) == key;
      }
    }
    DirMapIs(s', m);
  }

  /** unlink: a live entry is cleared. */
  lemma ClearName(s: seq<Byte>, k: nat, e: seq<Byte>)
    requires IsDir(s) && Unique(s) && Live(s, k) && |e| == ENTRY && InumOf(e) == 0
    ensures IsDir(PutEntry(s, k, e)) && Unique(PutEntry(s, k, e)) && |PutEntry(s, k, e)| == |s|
    ensures DirMap(PutEntry(s, k, e)) == DirMap(s) - {KeyOf(EntryAt(s, k))}
  {
    hide KeyOf, InumOf, EntryAt, Names, DirMap, WriteAt, PutEntry;
    var s', m := PutEntry(s, k, e), DirMap(s) - {KeyOf(EntryAt(s, k))};
    EntryOfPut(s, k, e, k);
    forall j: nat
      ensures Live(s', j) <==> j != k && Live(s, j)
      ensures j != k && Live(s, j) ==> EntryAt(s', j) == EntryAt(s, j)
      ensures j != k && Live(s, j) ==> KeyOf(EntryAt(s, j)) in m && m[KeyOf(EntryAt(s, j))] == InumOf(EntryAt(s, j))
    {
      EntryOfPut(s, k, e, j);
      if Live(s, j) {
        LiveInMap(s, j);
        assert j < k || k < j || j == k;
      }
    }
    forall key | key in m
      ensures exists j: nat :: Live(s', j) && KeyOf(EntryAt(s', j)) == key
    {
      var j := MapHasLive(s, key);
      assert Live(s', j) && KeyOf(EntryAt(s', j)) == key;
    }
    forall i: nat, j: nat | i < j && Live(s', i) && Live(s', j)
      ensures KeyOf(EntryAt(s', i)) != KeyOf(EntryAt(s', j))
    {
      assert Live(s, i) && Live(s, j);
    }
    DirMapIs(s', m);
  }

  lemma DirentReads(inum: nat, name: seq<Byte>)
    requires inum < HALF && 0 !in name
    ensures InumOf(Dirent(inum, name)) == inum && KeyOf(Dirent(inum, name)) == Key(name)
  {
    assert Dirent(inum, name)[2..] == NameField(name);
    KeyOfField(name);
  }

  // ---- The operations ----

  /** A locked directory inode with whole entries and no name twice. */
  ghost predicate Directory(fs: FileSystem, dp: Inode)
    reads fs, dp
  {
    && fs.Open(dp) && dp.din.typ == T_DIR && dp.din.Fits() && dp.din.size <= MAXFILE * BSIZE
    && IsDir(Contents(fs.d, dp.din)) && Unique(Contents(fs.d, dp.din))
  }

  /** `readi(dp, 0, &de, off, sizeof(de))`; a short read would be a panic. */
  method ReadEntry(fs: FileSystem, dp: Inode, off: nat) returns (e: seq<Byte>)
    requires Directory(fs, dp) && off % ENTRY == 0 && off < dp.din.size
    modifies fs`d, fs`logged, fs`bitmaps, fs`tab, fs`owner, dp`din
    ensures unchanged(fs) && unchanged(dp) && |e| == ENTRY
    ensures (off / ENTRY + 1) * ENTRY <= dp.din.size && e == EntryAt(Contents(fs.d, dp.din), off / ENTRY)
  {
    var tot;
    WholeEntry(off, dp.din.size);
    tot, e := fs.Readi(dp, off, ENTRY, ENTRY);
  }

  lemma WholeEntry(off: nat, size: nat)
    requires off % ENTRY == 0 && size % ENTRY == 0 && off < size
    ensures off + ENTRY <= size && off / ENTRY * ENTRY == off && (off / ENTRY + 1) * ENTRY == off + ENTRY
  {
  }

  /** dirlookup: the inode number the map gives for the name, 0 if it has none, and the
      offset of the entry. */
  method Dirlookup(fs: FileSystem, dp: Inode, name: seq<Byte>) returns (inum: nat, off: nat)
    requires Directory(fs, dp) && 0 !in name
    modifies fs`d, fs`logged, fs`bitmaps, fs`tab, fs`owner, dp`din
    ensures unchanged(fs) && unchanged(dp) && Directory(fs, dp)
    ensures var m := DirMap(Contents(fs.d, dp.din)); inum == if Key(name) in m then m[Key(name)] else 0
    ensures inum != 0 ==>
              && off % ENTRY == 0 && Live(Contents(fs.d, dp.din), off / ENTRY)
              && KeyOf(EntryAt(Contents(fs.d, dp.din), off / ENTRY)) == Key(name)
    ensures inum == 0 <==> Key(name) !in DirMap(Contents(fs.d, dp.din))
  {
    hide KeyOf, InumOf, EntryAt, Names, Contents, Unique, DirMap;
    ghost var s := Contents(fs.d, dp.din);
    NamesHas(s, |s| / ENTRY, Key(name));
    DirMapDef(s);
    off := 0;
    while off < dp.din.size
      invariant unchanged(fs) && unchanged(dp) && off % ENTRY == 0 && off <= dp.din.size
      invariant forall k: nat | k < off / ENTRY && Live(s, k) :: KeyOf(EntryAt(s, k)) != Key(name)
    {
      var e := ReadEntry(fs, dp, off);
      WholeEntry(off, dp.din.size);
      inum := InumOf(e);
      if inum != 0 {
        var c := NameCmp(name, e[2..]);
        EntryKey(e);
        if c == 0 {
          LiveInMap(s, off / ENTRY);
          return;
        }
      }
      off := off + ENTRY;
    }
    inum := 0;
  }

  lemma EntryKey(e: seq<Byte>)
    requires |e| == ENTRY
    ensures KeyOf(e) == Key(e[2..])
  {
  }

  lemma DirMapDef(s: seq<Byte>)
    requires IsDir(s)
    ensures DirMap(s) == Names(s, |s| / ENTRY)
  {
  }

  /** The second loop of dirlink: the first free entry, or the end. */
  method FreePlace(fs: FileSystem, dp: Inode) returns (off: nat)
    requires Directory(fs, dp)
    modifies fs`d, fs`logged, fs`bitmaps, fs`tab, fs`owner, dp`din
    ensures unchanged(fs) && unchanged(dp)
    ensures off % ENTRY == 0 && off <= dp.din.size && !Live(Contents(fs.d, dp.din), off / ENTRY)
    ensures off / ENTRY * ENTRY == off
    ensures forall k: nat | k < off / ENTRY :: Live(Contents(fs.d, dp.din), k)
  {
    hide KeyOf, InumOf, EntryAt, Names, Contents, Unique;
    off := 0;
    while off < dp.din.size
      invariant unchanged(fs) && unchanged(dp) && off % ENTRY == 0 && off <= dp.din.size
      invariant forall k: nat | k < off / ENTRY :: Live(Contents(fs.d, dp.din), k)
    {
      var e := ReadEntry(fs, dp, off);
      WholeEntry(off, dp.din.size);
      if InumOf(e) == 0 {
        break;
      }
      off := off + ENTRY;
    }
  }

  ghost predicate AllLive(s: seq<Byte>) {
    forall k: nat | k < |s| / ENTRY :: Live(s, k)
  }

  /** Whether the free place is behind all entries. */
  lemma PlaceAtEnd(s: seq<Byte>, off: nat)
    requires |s| % ENTRY == 0 && off % ENTRY == 0 && off <= |s| && !Live(s, off / ENTRY)
    requires forall k: nat | k < off / ENTRY :: Live(s, k)
    ensures AllLive(s) <==> off == |s|
    ensures off < |s| ==> off + ENTRY <= |s|
  {
    if off < |s| {
      assert off / ENTRY < |s| / ENTRY;
    }
  }

  /** A 16-byte entry never straddles two blocks, so a short write wrote nothing. */
  lemma EntryInBlock(off: nat, tot: nat)
    requires off % ENTRY == 0 && tot < ENTRY && Aligned(off, tot)
    ensures tot == 0
  {
    assert (off + tot) % ENTRY == (off + tot) % BSIZE % ENTRY;
  }

  /** dirlink: the name is added, unless it is there already or the directory cannot grow. */
  method Dirlink(fs: FileSystem, dp: Inode, name: seq<Byte>, inum: nat) returns (r: int)
    requires Directory(fs, dp) && 0 !in name && 0 < inum < HALF
    modifies fs`d, fs`logged, fs`bitmaps, fs`tab, fs`owner, dp`din
    ensures Directory(fs, dp)
    ensures old(dp.din).Fits() && old(dp.din).size <= MAXFILE * BSIZE
    ensures IsDir(Contents(old(fs.d), old(dp.din)))
    ensures r == 0 ==>
              var m := DirMap(Contents(old(fs.d), old(dp.din)));
              Key(name) !in m && DirMap(Contents(fs.d, dp.din)) == m[Key(name) := inum]
    ensures r != 0 ==> r == -1 && Contents(fs.d, dp.din) == Contents(old(fs.d), old(dp.din))
    // It fails only if the name is there, or the directory has no free entry and is as long as a
    // file can be, or needs a new block when there is none.
    ensures r != 0 ==>
              || Key(name) in DirMap(Contents(old(fs.d), old(dp.din)))
              || (AllLive(Contents(old(fs.d), old(dp.din)))
                  && (old(dp.din).size + ENTRY > MAXFILE * BSIZE || (fs.Full() && old(dp.din).size % BSIZE == 0)))
    ensures r == 0 ==>
              dp.din.size == old(dp.din).size + if AllLive(Contents(old(fs.d), old(dp.din))) then ENTRY else 0
    ensures OthersSame(old(fs.d), old(fs.tab), fs.d, fs.tab, dp.inum)
    // one data block, bitmap blocks, the indirect block and the inode
    ensures |fs.logged| <= |old(fs.logged)| + |fs.bitmaps| + 3
  {
    hide KeyOf, InumOf, EntryAt, Names, DirMap, Contents, Unique, Dirent, Key, Files, Consistent;
    ghost var s := Contents(fs.d, dp.din);
    fs.OpenFits(dp);
    var found, off := Dirlookup(fs, dp, name);
    if found != 0 {
      return -1;
    }
    off := FreePlace(fs, dp);
    PlaceAtEnd(s, off);
    var de := Dirent(inum, name);
    DirentReads(inum, name);
    OneBlock(off);
    var tot := fs.Writei(dp, de, ENTRY, off);
    if tot != ENTRY {
      if tot >= 0 {
        EntryInBlock(off, tot);
        NothingWritten(s, off, de[..tot]);
      }
      return -1;
    }
    PutName(s, off / ENTRY, de);
    assert de[..ENTRY] == de;
    r := 0;
  }

  lemma OneBlock(off: nat)
    requires off % ENTRY == 0
    ensures Touched(off, ENTRY) == 1
  {
    assert off == off / BSIZE * BSIZE + off % BSIZE && off % BSIZE % ENTRY == 0;
  }

  lemma NothingWritten(s: seq<Byte>, off: nat, t: seq<Byte>)
    requires off <= |s| && t == []
    ensures WriteAt(s, off, t) == s
  {
  }

  /** The part of sys_unlink that clears the entry at `off`.  `ok` is false where it panics
      over a short write. */
  method ClearEntry(fs: FileSystem, dp: Inode, off: nat) returns (ok: bool)
    requires Directory(fs, dp) && off % ENTRY == 0 && Live(Contents(fs.d, dp.din), off / ENTRY)
    modifies fs`d, fs`logged, fs`bitmaps, fs`tab, fs`owner, dp`din
    ensures Directory(fs, dp) && ok
    ensures old(dp.din).Fits() && old(dp.din).size <= MAXFILE * BSIZE
    ensures var s := Contents(old(fs.d), old(dp.din));
            && IsDir(s) && (off / ENTRY + 1) * ENTRY <= |s|
            && DirMap(Contents(fs.d, dp.din)) == DirMap(s) - {KeyOf(EntryAt(s, off / ENTRY))}
    ensures OthersSame(old(fs.d), old(fs.tab), fs.d, fs.tab, dp.inum)
    // one data block, bitmap blocks, the indirect block and the inode
    ensures |fs.logged| <= |old(fs.logged)| + |fs.bitmaps| + 3
  {
    hide KeyOf, EntryAt, Names, DirMap, Contents, Unique, Files, Consistent;
    ghost var s := Contents(fs.d, dp.din);
    var de := seq<Byte>(ENTRY, i => 0);
    assert InumOf(de) == 0;
    assert off / ENTRY * ENTRY == off;
    OneBlock(off);
    var tot := fs.Writei(dp, de, ENTRY, off);
    ClearName(s, off / ENTRY, de);
    if tot == ENTRY {
      assert de[..ENTRY] == de;
    }
    ok := tot == ENTRY;
  }
}
