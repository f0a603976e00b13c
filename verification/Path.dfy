/** Path names of kernel/fs.c: skipelem and namex, on a tree of directories that does not
    change meanwhile. */
module Path {
  import opened Blocks
  import opened Dir
  import opened FsInv
  import opened FsLayout

  const SLASH: Byte := 47

  // ---- Elements ----

  /** The place of the first byte that is (or is not) a slash, |s| if there is none. */
  function Skip(s: seq<Byte>, slash: bool): (k: nat)
    ensures k <= |s| && (k < |s| ==> (s[k] == SLASH) != slash)
    ensures forall i | 0 <= i < k :: (s[i] == SLASH) == slash
  {
    if s == [] || (s[0] == SLASH) != slash then 0
    else
      var k := Skip(s[1..], slash);
      assert forall i | 0 < i < k + 1 :: s[i] == s[1..][i - 1];
      k + 1
  }

  /** The reference: the non-empty stretches between slashes, each cut at DIRSIZ. */
  function Elements(path: seq<Byte>): (es: seq<seq<Byte>>)
    decreases |path|
  {
    var p := path[Skip(path, true)..];
    if p == [] then []
    else
      var n := Skip(p, false);
      [Cut(p[..n])] + Elements(p[n..])
  }

  function Cut(e: seq<Byte>): seq<Byte> {
    if |e| <= DIRSIZ then e else e[..DIRSIZ]
  }

  lemma CutIs(s: seq<Byte>, a: nat, b: nat)
    requires a <= b <= |s|
    ensures Cut(s[a..b]) == if b - a >= DIRSIZ then s[a..a + DIRSIZ] else s[a..b]
  {
  }

  lemma SkipIs(s: seq<Byte>, slash: bool, k: nat)
    requires k <= |s| && (k < |s| ==> (s[k] == SLASH) != slash) && forall i | 0 <= i < k :: (s[i] == SLASH) == slash
    ensures Skip(s, slash) == k
  {
  }

  /** Leading slashes do not matter. */
  lemma {:induction false} SlashesSkipped(s: seq<Byte>, k: nat)
    requires k <= |s| && forall i | 0 <= i < k :: s[i] == SLASH
    ensures Elements(s[k..]) == Elements(s)
  {
    var n := Skip(s, true);
    assert k <= n;
    SkipIs(s[k..], true, n - k);
    assert s[k..][n - k..] == s[n..];
  }

  /** The element that begins at place a and ends at place b. */
  lemma {:induction false} ElementsFrom(s: seq<Byte>, a: nat, b: nat)
    requires a < b <= |s| && (forall i | 0 <= i < a :: s[i] == SLASH) && (forall i | a <= i < b :: s[i] != SLASH)
    requires b < |s| ==> s[b] == SLASH
    ensures Elements(s) == [Cut(s[a..b])] + Elements(s[b..])
  {
    hide Elements, Skip;
    SkipIs(s, true, a);
    SkipIs(s[a..], false, b - a);
    FirstElement(s);
    assert s[a..][..b - a] == s[a..b] && s[a..][b - a..] == s[b..];
  }

  lemma {:induction false} FirstElement(s: seq<Byte>)
    requires Skip(s, true) < |s|
    ensures var p := s[Skip(s, true)..]; var n := Skip(p, false);
            Elements(s) == [Cut(p[..n])] + Elements(p[n..])
  {
  }

  /** What is left after the leading slashes is nothing exactly when no element is. */
  lemma {:induction false} NoElements(s: seq<Byte>)
    ensures Elements(s) == [] <==> Skip(s, true) == |s|
  {
  }

  /** skipelem: the next element, and the rest without leading slashes; `found` is false for
      a null pointer.  The rest is empty exactly when the element was the last. */
  method SkipElem(path: seq<Byte>) returns (found: bool, name: seq<Byte>, rest: seq<Byte>)
    requires 0 !in path
    ensures found <==> Elements(path) != []
    ensures found ==> name == Elements(path)[0] && Elements(rest) == Elements(path)[1..] && |rest| < |path|
    ensures found ==> (rest != [] ==> rest[0] != SLASH) && (rest == [] <==> Elements(rest) == [])
    ensures 0 !in rest
  {
    hide Elements, Cut, Skip;
    var at := 0;
    while at < |path| && path[at] == SLASH
      invariant 0 <= at <= |path| && forall i | 0 <= i < at :: path[i] == SLASH
    {
      at := at + 1;
    }
    SkipIs(path, true, at);
    NoElements(path);
    if at == |path| {
      return false, [], [];
    }
    var s := at;
    while at < |path| && path[at] != SLASH
      invariant s <= at <= |path| && forall i | s <= i < at :: path[i] != SLASH
    {
      at := at + 1;
    }
    ElementsFrom(path, s, at);
    name := if at - s >= DIRSIZ then path[s..s + DIRSIZ] else path[s..at];
    CutIs(path, s, at);
    ghost var tail := path[at..];
    var begin := at;
    while at < |path| && path[at] == SLASH
      invariant begin <= at <= |path| && forall i | begin <= i < at :: path[i] == SLASH
    {
      at := at + 1;
    }
    rest := path[at..];
    assert rest == tail[at - begin..];
    SlashesSkipped(tail, at - begin);
    SkipIs(rest, true, 0);
    NoElements(rest);
    found := true;
  }

  // ---- Walking the tree ----

  /** Each directory's names; other inodes are not in the map. */
  type Tree = map<nat, map<seq<Byte>, nat>>

  datatype Result = Found(inum: nat) | NotFound

  /** dirlookup of one element in an inode that may not be a directory. */
  function Lookup(tree: Tree, inum: nat, name: seq<Byte>): Result {
    if inum in tree && name in tree[inum] then Found(tree[inum][name]) else NotFound
  }

  /** The reference: one element after the other. */
  function Walk(tree: Tree, from: nat, es: seq<seq<Byte>>): Result
    decreases |es|
  {
    if es == [] then Found(from)
    else match Lookup(tree, from, es[0])
      case Found(next) => Walk(tree, next, es[1..])
      case NotFound => NotFound
  }

  /** What namex finds for the elements `es`. */
  function Resolve(tree: Tree, ip: nat, es: seq<seq<Byte>>, parent: bool): Result
    decreases |es|
  {
    if es == [] then if parent then NotFound else Found(ip)
    else if ip !in tree then NotFound
    else if parent && |es| == 1 then Found(ip)
    else match Lookup(tree, ip, es[0])
      case Found(next) => Resolve(tree, next, es[1..], parent)
      case NotFound => NotFound
  }

  lemma {:induction false} ResolveStep(tree: Tree, ip: nat, es: seq<seq<Byte>>, parent: bool)
    requires es != []
    ensures ip !in tree ==> Resolve(tree, ip, es, parent) == NotFound
    ensures ip in tree && parent && es[1..] == [] ==> Resolve(tree, ip, es, parent) == Found(ip)
    ensures ip in tree && !(parent && es[1..] == []) ==>
              Resolve(tree, ip, es, parent) == match Lookup(tree, ip, es[0])
                                               case Found(next) => Resolve(tree, next, es[1..], parent)
                                               case NotFound => NotFound
  {
  }

  /** namex.  `name` is the last element when the parent is asked for. */
  method Namex(tree: Tree, cwd: nat, path0: seq<Byte>, parent: bool) returns (r: Result, name: seq<Byte>)
    requires 0 !in path0
    ensures r == Resolve(tree, if path0 != [] && path0[0] == SLASH then ROOTINO else cwd, Elements(path0), parent)
    ensures parent && r.Found? ==> Elements(path0) != [] && name == Elements(path0)[|Elements(path0)| - 1]
  {
    hide Elements, Resolve, Lookup;
    var ip: nat := if path0 != [] && path0[0] == SLASH then ROOTINO else cwd;
    ghost var from, all := ip, Elements(path0);
    var path := path0;
    name := [];
    while true
      invariant 0 !in path && Resolve(tree, from, all, parent) == Resolve(tree, ip, Elements(path), parent)
      invariant Elements(path) != [] ==> all != [] && Elements(path)[|Elements(path)| - 1] == all[|all| - 1]
      decreases |path|
    {
      ghost var es := Elements(path);
      var found, rest;
      found, name, rest := SkipElem(path);
      if !found {
        ResolveNone(tree, ip, parent);
        r := if parent then NotFound else Found(ip);
        return;
      }
      ResolveStep(tree, ip, es, parent);
      if ip !in tree {
        return NotFound, name;
      }
      if parent && rest == [] {
        assert |es| == 1;
        return Found(ip), name;
      }
      var next := Lookup(tree, ip, name);
      if next.NotFound? {
        return NotFound, name;
      }
      ip, path := next.inum, rest;
    }
  }

  lemma ResolveNone(tree: Tree, ip: nat, parent: bool)
    ensures Resolve(tree, ip, [], parent) == if parent then NotFound else Found(ip)
  {
  }

  /** namei walks all elements. */
  lemma {:induction false} NameiWalks(tree: Tree, from: nat, es: seq<seq<Byte>>)
    ensures Resolve(tree, from, es, false) == Walk(tree, from, es)
    decreases |es|
  {
    if es != [] && from in tree {
      match Lookup(tree, from, es[0])
      case Found(next) => NameiWalks(tree, next, es[1..]);
      case NotFound =>
    }
  }

  /** nameiparent walks all but the last, which must exist, and ends in a directory. */
  lemma {:induction false} NameiparentWalks(tree: Tree, from: nat, es: seq<seq<Byte>>)
    ensures Resolve(tree, from, es, true) ==
              if es == [] then NotFound
              else match Walk(tree, from, es[..|es| - 1])
                case Found(dir) => if dir in tree then Found(dir) else NotFound
                case NotFound => NotFound
    decreases |es|
  {
    if |es| > 1 {
      assert es[..|es| - 1][0] == es[0] && es[..|es| - 1][1..] == es[1..][..|es| - 2];
      match Lookup(tree, from, es[0])
      case Found(next) => NameiparentWalks(tree, next, es[1..]);
      case NotFound =>
    } else if |es| == 1 {
      assert es[..0] == [];
    }
  }

  /** namei(path) is dirlookup of the last element in nameiparent(path). */
  lemma NameiByParent(tree: Tree, from: nat, es: seq<seq<Byte>>)
    requires es != []
    ensures Resolve(tree, from, es, false) == match Resolve(tree, from, es, true)
                                              case Found(dir) => Lookup(tree, dir, es[|es| - 1])
                                              case NotFound => NotFound
  {
    hide Resolve, Walk;
    NameiWalks(tree, from, es);
    NameiparentWalks(tree, from, es);
    ParentThenLast(tree, from, es);
  }

  /** On the way to its last element. */
  lemma {:induction false} ParentThenLast(tree: Tree, from: nat, es: seq<seq<Byte>>)
    requires es != []
    ensures Walk(tree, from, es) == match Walk(tree, from, es[..|es| - 1])
                                    case Found(dir) => Lookup(tree, dir, es[|es| - 1])
                                    case NotFound => NotFound
    decreases |es|
  {
    if |es| == 1 {
      assert es[..0] == [];
      assert Walk(tree, from, es[1..]) == Walk(tree, from, []);
    } else {
      match Lookup(tree, from, es[0])
      case NotFound =>
      case Found(next) =>
        ParentThenLast(tree, next, es[1..]);
        assert es[1..][..|es| - 2] == es[..|es| - 1][1..];
    }
  }

  lemma ElementKey(s: seq<Byte>, a: nat, b: nat)
    requires 0 !in s && a < b <= |s| && forall i | a <= i < b :: s[i] != SLASH
    ensures var e := Cut(s[a..b]); 0 < |e| <= DIRSIZ && 0 !in e && SLASH !in e && Key(e) == e
  {
    var e := Cut(s[a..b]);
    assert forall k | 0 <= k < |e| :: e[k] == s[a + k] && s[a + k] in s;
    assert e[..|e|] == e;
    KeyIs(e, |e|);
  }

  /** An element from a path and a name in an entry meet as dirlookup compares them. */
  lemma {:induction false} ElementKeys(path: seq<Byte>, i: nat)
    requires 0 !in path && i < |Elements(path)|
    ensures 0 < |Elements(path)[i]| <= DIRSIZ && 0 !in Elements(path)[i] && SLASH !in Elements(path)[i]
    ensures Key(Elements(path)[i]) == Elements(path)[i]
    decreases |path|
  {
    hide Elements, Cut, Key;
    var a := Skip(path, true);
    NoElements(path);
    var n := Skip(path[a..], false);
    var b := a + n;
    assert forall k | a <= k < b :: path[k] == path[a..][k - a] && path[k] != SLASH;
    hide Skip;
    ElementsFrom(path, a, b);
    if i == 0 {
      ElementKey(path, a, b);
    } else {
      ElementKeys(path[b..], i - 1);
    }
  }

  // ---- The tree of a file system ----

  /** What file `f` holds, up to its size. */
  ghost function Text(f: File): seq<Byte>
    requires f.size <= |f.bytes|
  {
    f.bytes[..f.size]
  }

  ghost predicate DirAt(tab: seq<Dinode>, fs: seq<File>, i: nat) {
    i < |tab| == |fs| && tab[i].typ == T_DIR && fs[i].size <= |fs[i].bytes| && IsDir(Text(fs[i]))
  }

  /** The directories among the files `fs` of the inodes `tab`. */
  ghost function TreeOf(tab: seq<Dinode>, fs: seq<File>): Tree {
    map i: nat | i < |tab| && DirAt(tab, fs, i) :: DirMap(Text(fs[i]))
  }

  /** A step of the walk is what Dir.Dirlookup answers in that directory: an inode number, or
      0 for a name that is not there. */
  lemma LookupIsDirlookup(tab: seq<Dinode>, fs: seq<File>, i: nat, path: seq<Byte>, x: nat)
    requires DirAt(tab, fs, i) && 0 !in path && x < |Elements(path)|
    ensures var name := Elements(path)[x]; var m := DirMap(Text(fs[i]));
            var inum := if Key(name) in m then m[Key(name)] else 0;
            Lookup(TreeOf(tab, fs), i, name) == if inum != 0 then Found(inum) else NotFound
  {
    hide Elements, IsDir, Key, Names;
    ElementKeys(path, x);
    var s := Text(fs[i]);
    NamesHas(s, |s| / ENTRY, Elements(path)[x]);
  }

  /** dirlink or unlink in directory `i` changes the tree there and nowhere else. */
  lemma OneDirChanges(d: Disk, tab: seq<Dinode>, d': Disk, tab': seq<Dinode>, i: nat)
    requires OthersSame(d, tab, d', tab', i)
    requires DirAt(tab, Files(d, tab), i) && DirAt(tab', Files(d', tab'), i)
    ensures TreeOf(tab', Files(d', tab')) == TreeOf(tab, Files(d, tab))[i := DirMap(Text(Files(d', tab')[i]))]
  {
    hide DirMap, Files;
    var fs, fs' := Files(d, tab), Files(d', tab');
    assert forall j: nat | j < |tab| && j != i :: DirAt(tab', fs', j) == DirAt(tab, fs, j);
  }
}
