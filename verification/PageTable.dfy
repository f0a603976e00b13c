/** Three-level Sv39 page tables (section 4.4 of the RISC-V Privileged Architecture,
    version 20211203) as kernel/vm.c lays them out in physical memory.  A page is 512
    words; memory is a map from page-aligned addresses to pages. */
module PageTable {
  import opened Wrappers

  const PGSIZE: nat := 4096
  const ENTRIES: nat := 512

  /** Virtual page numbers: 27 bits in Sv39, of which xv6 uses 26. */
  const VPNS: nat := 0x800_0000
  const MAXVPN: nat := 0x400_0000

  const PTE_V: nat := 1
  const PTE_R: nat := 2
  const PTE_W: nat := 4
  const PTE_X: nat := 8
  const PTE_U: nat := 16
  const FLAGS: nat := 1024

  type Page = p: seq<nat> | |p| == ENTRIES witness seq(ENTRIES, i => 0)
  type Memory = map<nat, Page>

  // ---- Page table entries ----

  /** `PA2PTE(pa) | flags`, for a page-aligned address. */
  function MakePte(pa: nat, flags: nat): nat
    requires flags < FLAGS
  {
    pa / PGSIZE * FLAGS + flags
  }

  function Pte2Pa(pte: nat): nat { pte / FLAGS * PGSIZE }

  function PteFlags(pte: nat): nat { pte % FLAGS }

  predicate IsValid(pte: nat) { pte % 2 == 1 }

  /** `(pte & (PTE_R|PTE_W|PTE_X)) != 0`: the entry maps a page. */
  predicate IsLeaf(pte: nat) { pte / 2 % 8 != 0 }

  predicate IsUser(pte: nat) { pte / 16 % 2 == 1 }

  /** `perm | PTE_V` */
  function WithValid(perm: nat): (flags: nat)
    ensures perm < FLAGS ==> flags < FLAGS
  {
    if perm % 2 == 1 then perm else perm + 1
  }

  lemma HighBits(x: nat, f: nat)
    ensures (2 * x + f) % 2 == f % 2 && (2 * x + f) / 2 == x + f / 2
    ensures (8 * x + f) % 8 == f % 8 && (16 * x + f) / 16 == x + f / 16
  {
  }

  /** The frame number does not disturb the flags. */
  lemma FlagBits(q: nat, f: nat)
    ensures IsValid(q * FLAGS + f) == IsValid(f) && IsLeaf(q * FLAGS + f) == IsLeaf(f)
              && IsUser(q * FLAGS + f) == IsUser(f)
  {
    HighBits(q * 512, f);
    HighBits(q * 64, f / 2);
    HighBits(q * 64, f);
    HighBits(q * 32, f / 16);
  }

  lemma Unpacked(q: nat, f: nat)
    requires f < FLAGS
    ensures (q * FLAGS + f) / FLAGS == q && (q * FLAGS + f) % FLAGS == f
  {
  }

  /** Packing loses nothing. */
  lemma PteRoundTrip(pa: nat, flags: nat)
    requires pa % PGSIZE == 0 && flags < FLAGS
    ensures Pte2Pa(MakePte(pa, flags)) == pa && PteFlags(MakePte(pa, flags)) == flags
    ensures IsValid(MakePte(pa, flags)) == IsValid(flags) && IsLeaf(MakePte(pa, flags)) == IsLeaf(flags)
    ensures IsUser(MakePte(pa, flags)) == IsUser(flags)
  {
    hide IsValid, IsLeaf, IsUser;
    var q := pa / PGSIZE;
    FlagBits(q, flags);
    Unpacked(q, flags);
  }

  // ---- Labels ----

  /** The place of a table page: the table it belongs to, its level, and the index bits
      that lead to it from the root. */
  datatype Node = Node(root: nat, level: nat, prefix: nat)

  function Child(n: Node, i: nat): Node
    requires n.level > 0
  {
    Node(n.root, n.level - 1, n.prefix * ENTRIES + i)
  }

  function Parent(n: Node): Node {
    Node(n.root, n.level + 1, n.prefix / ENTRIES)
  }

  /** The index that leads from the parent to `n`. */
  function Index(n: Node): nat { n.prefix % ENTRIES }

  function Top(root: nat): Node { Node(root, 2, 0) }

  /** `PX(level, va)` */
  function PX(level: nat, vpn: nat): (i: nat)
    ensures i < ENTRIES
  {
    if level == 0 then vpn % ENTRIES else if level == 1 then vpn / 0x200 % ENTRIES else vpn / 0x4_0000 % ENTRIES
  }

  /** The table page of each level on the way to `vpn`. */
  function OnWay(root: nat, level: nat, vpn: nat): Node
    requires level <= 2
  {
    Node(root, level, if level == 0 then vpn / 0x200 else if level == 1 then vpn / 0x4_0000 else vpn / 0x800_0000)
  }

  lemma WayDown(root: nat, level: nat, vpn: nat)
    requires 0 < level <= 2 && vpn < VPNS
    ensures Child(OnWay(root, level, vpn), PX(level, vpn)) == OnWay(root, level - 1, vpn)
    ensures OnWay(root, 2, vpn) == Top(root)
  {
  }

  /** Distinct pages get distinct index triples. */
  lemma IndexTriples(v: nat, w: nat)
    requires v < VPNS && w < VPNS && PX(2, v) == PX(2, w) && PX(1, v) == PX(1, w) && PX(0, v) == PX(0, w)
    ensures v == w
  {
    assert v == PX(2, v) * 0x4_0000 + PX(1, v) * 0x200 + PX(0, v);
    assert w == PX(2, w) * 0x4_0000 + PX(1, w) * 0x200 + PX(0, w);
  }

  // ---- The tree ----

  /** `tables` names every table page of every page table.  A page's entry is valid exactly
      where the tree has a child, and then it points to the child and to nothing else.
      The link to `hole`, a page being freed, is not looked at. */
  ghost predicate Tree(mem: Memory, tables: map<Node, nat>, hole: Node) {
    && (forall n | n in tables ::
          && tables[n] in mem && tables[n] % PGSIZE == 0
          && n.level <= 2 && (n.level == 2 ==> n == Top(n.root)))
    && (forall n, m | n in tables && m in tables && tables[n] == tables[m] :: n == m)
    && (forall n | n in tables && n.level < 2 :: Parent(n) in tables)
    && (forall n, i: nat | n in tables && n.level > 0 && i < ENTRIES && Child(n, i) != hole ::
          && (IsValid(mem[tables[n]][i]) <==> Child(n, i) in tables)
          && (Child(n, i) in tables ==> mem[tables[n]][i] == MakePte(tables[Child(n, i)], PTE_V)))
    && (forall n, i: nat | n in tables && n.level == 0 && i < ENTRIES && IsValid(mem[tables[n]][i]) ::
          IsLeaf(mem[tables[n]][i]))
  }

  /** Every page table is named by the address of its root. */
  ghost predicate Rooted(tables: map<Node, nat>) {
    forall n | n in tables :: Top(n.root) in tables && tables[Top(n.root)] == n.root
  }

  /** A label no page has. */
  function NoNode(): Node { Node(0, 3, 0) }

  /** The entry for page `vpn` of the page table at `root`, 0 where there is no table page. */
  ghost function Entry(mem: Memory, tables: map<Node, nat>, root: nat, vpn: nat): nat {
    var n := OnWay(root, 0, vpn);
    if n in tables && tables[n] in mem then mem[tables[n]][vpn % ENTRIES] else 0
  }

  /** The address space: the finite map from virtual pages to entries. */
  ghost function Space(mem: Memory, tables: map<Node, nat>, root: nat): map<nat, nat> {
    map vpn: nat | vpn < VPNS && IsValid(Entry(mem, tables, root, vpn)) :: Entry(mem, tables, root, vpn)
  }

  /** What the hardware does: section 4.3.2, steps 2 to 5, for a 4 KiB page. */
  function Translate(mem: Memory, root: nat, vpn: nat): Option<nat> {
    if root !in mem then None
    else
      var p2 := mem[root][PX(2, vpn)];
      if !IsValid(p2) || IsLeaf(p2) || Pte2Pa(p2) !in mem then None
      else
        var p1 := mem[Pte2Pa(p2)][PX(1, vpn)];
        if !IsValid(p1) || IsLeaf(p1) || Pte2Pa(p1) !in mem then None
        else
          var p0 := mem[Pte2Pa(p1)][PX(0, vpn)];
          if IsValid(p0) && IsLeaf(p0) then Some(p0) else None
  }

  /** One step down the tree. */
  lemma StepDown(mem: Memory, tables: map<Node, nat>, n: Node, i: nat)
    requires Tree(mem, tables, NoNode()) && n in tables && 0 < n.level && i < ENTRIES
    ensures tables[n] in mem
    ensures var pte := mem[tables[n]][i];
            && (IsValid(pte) <==> Child(n, i) in tables)
            && (IsValid(pte) ==> Pte2Pa(pte) == tables[Child(n, i)] && !IsLeaf(pte))
  {
    assert Child(n, i) != NoNode();
    if Child(n, i) in tables {
      PteRoundTrip(tables[Child(n, i)], PTE_V);
    }
  }

  /** The hardware sees exactly the address space. */
  lemma TranslateIsSpace(mem: Memory, tables: map<Node, nat>, root: nat, vpn: nat)
    requires Tree(mem, tables, NoNode()) && Top(root) in tables && tables[Top(root)] == root && vpn < VPNS
    ensures var s := Space(mem, tables, root);
            Translate(mem, root, vpn) == if vpn in s then Some(s[vpn]) else None
  {
    WayDown(root, 2, vpn);
    WayDown(root, 1, vpn);
    StepDown(mem, tables, Top(root), PX(2, vpn));
    if OnWay(root, 1, vpn) in tables {
      StepDown(mem, tables, OnWay(root, 1, vpn), PX(1, vpn));
    } else {
      assert Parent(OnWay(root, 0, vpn)) == OnWay(root, 1, vpn);
    }
  }

  // ---- Changes ----

  function ZeroPage(): Page {
    seq(ENTRIES, i => 0)
  }

  function SetEntry(mem: Memory, t: nat, i: nat, pte: nat): Memory
    requires t in mem && i < ENTRIES
  {
    mem[t := mem[t][i := pte]]
  }

  ghost function Frames(tables: map<Node, nat>): set<nat> {
    set n | n in tables :: tables[n]
  }

  lemma FramesPlus(tables: map<Node, nat>, n: Node, pa: nat)
    requires n !in tables
    ensures Frames(tables[n := pa]) == Frames(tables) + {pa}
  {
    var tables' := tables[n := pa];
    assert forall m | m in tables :: tables'[m] == tables[m];
    assert tables'[n] == pa;
  }

  lemma FramesMinus(tables: map<Node, nat>, n: Node)
    requires n in tables && forall m | m in tables && tables[m] == tables[n] :: m == n
    ensures Frames(tables - {n}) == Frames(tables) - {tables[n]}
  {
    assert forall m | m in tables - {n} :: (tables - {n})[m] == tables[m];
  }

  /** The address spaces of all roots. */
  ghost predicate SameSpaces(mem: Memory, tables: map<Node, nat>, mem': Memory, tables': map<Node, nat>) {
    forall r: nat :: Space(mem', tables', r) == Space(mem, tables, r)
  }

  lemma SpacesEqual(mem: Memory, tables: map<Node, nat>, mem': Memory, tables': map<Node, nat>)
    requires forall r: nat, v: nat | v < VPNS ::
               IsValid(Entry(mem', tables', r, v)) == IsValid(Entry(mem, tables, r, v))
               && (IsValid(Entry(mem, tables, r, v)) ==> Entry(mem', tables', r, v) == Entry(mem, tables, r, v))
    ensures SameSpaces(mem, tables, mem', tables')
  {
    forall r: nat
      ensures Space(mem', tables', r) == Space(mem, tables, r)
    {
      assert Space(mem', tables', r).Keys == Space(mem, tables, r).Keys;
    }
  }

  /** Pages that are not tables do not matter. */
  lemma OutsideTables(mem: Memory, mem': Memory, tables: map<Node, nat>, hole: Node, pa: nat)
    requires Tree(mem, tables, hole) && pa !in Frames(tables) && mem'.Keys == mem.Keys
    requires forall a | a in mem && a != pa :: mem'[a] == mem[a]
    ensures Tree(mem', tables, hole) && SameSpaces(mem, tables, mem', tables)
  {
    SpacesEqual(mem, tables, mem', tables);
  }

  /** A table page is there, and is no other table's page. */
  lemma TablePage(mem: Memory, tables: map<Node, nat>, n: Node)
    requires Tree(mem, tables, NoNode()) && n in tables
    ensures tables[n] in mem && tables[n] in Frames(tables) && tables[n] % PGSIZE == 0
    ensures forall m | m in tables :: tables[m] in mem && (m != n ==> tables[m] != tables[n])
  {
  }

  /** A leaf entry written, or an entry cleared: one page of one address space changes. */
  lemma StoreLeaf(mem: Memory, tables: map<Node, nat>, root: nat, vpn: nat, pte: nat)
    requires Tree(mem, tables, NoNode()) && vpn < VPNS && OnWay(root, 0, vpn) in tables
    requires IsValid(pte) ==> IsLeaf(pte)
    ensures tables[OnWay(root, 0, vpn)] in mem
    ensures var mem' := SetEntry(mem, tables[OnWay(root, 0, vpn)], vpn % ENTRIES, pte);
            && Tree(mem', tables, NoNode())
            && (forall r: nat | r != root :: Space(mem', tables, r) == Space(mem, tables, r))
            && Space(mem', tables, root) ==
                 if IsValid(pte) then Space(mem, tables, root)[vpn := pte] else Space(mem, tables, root) - {vpn}
  {
    var n := OnWay(root, 0, vpn);
    var mem' := SetEntry(mem, tables[n], vpn % ENTRIES, pte);
    forall r: nat, v: nat | v < VPNS && (r != root || v != vpn)
      ensures Entry(mem', tables, r, v) == Entry(mem, tables, r, v)
    {
      if OnWay(r, 0, v) == n {
        assert v % ENTRIES != vpn % ENTRIES;
      }
    }
    assert Entry(mem', tables, root, vpn) == pte;
    forall r: nat | r != root
      ensures Space(mem', tables, r) == Space(mem, tables, r)
    {
      assert Space(mem', tables, r).Keys == Space(mem, tables, r).Keys;
    }
    var s := if IsValid(pte) then Space(mem, tables, root)[vpn := pte] else Space(mem, tables, root) - {vpn};
    assert Space(mem', tables, root).Keys == s.Keys;
  }

  /** A new zeroed page hung below page `n` at index `i`. */
  lemma AddTable(mem: Memory, tables: map<Node, nat>, n: Node, i: nat, pa: nat)
    requires Tree(mem, tables, NoNode()) && n in tables && 0 < n.level && i < ENTRIES && Child(n, i) !in tables
    requires pa in mem && pa % PGSIZE == 0 && mem[pa] == ZeroPage() && pa !in Frames(tables)
    ensures var mem' := SetEntry(mem, tables[n], i, MakePte(pa, PTE_V));
            var tables' := tables[Child(n, i) := pa];
            && Tree(mem', tables', NoNode()) && SameSpaces(mem, tables, mem', tables')
            && Frames(tables') == Frames(tables) + {pa}
  {
    var c := Child(n, i);
    var mem' := SetEntry(mem, tables[n], i, MakePte(pa, PTE_V));
    var tables' := tables[c := pa];
    PteRoundTrip(pa, PTE_V);
    assert pa != tables[n];
    assert Parent(c) == n && Index(c) == i;
    FramesPlus(tables, c, pa);
    forall m, j: nat | m in tables' && m.level > 0 && j < ENTRIES
      ensures && (IsValid(mem'[tables'[m]][j]) <==> Child(m, j) in tables')
              && (Child(m, j) in tables' ==> mem'[tables'[m]][j] == MakePte(tables'[Child(m, j)], PTE_V))
    {
      assert Child(m, j) != NoNode();
      if m == c {
        assert Parent(Child(c, j)) == c;
      } else if m != n || j != i {
        assert Parent(Child(m, j)) == m && Index(Child(m, j)) == j;
        assert Child(m, j) != c;
      }
    }
    forall m, j: nat | m in tables' && m.level == 0 && j < ENTRIES && IsValid(mem'[tables'[m]][j])
      ensures IsLeaf(mem'[tables'[m]][j])
    {
      assert m != n;
    }
    forall r: nat, v: nat | v < VPNS
      ensures IsValid(Entry(mem', tables', r, v)) == IsValid(Entry(mem, tables, r, v))
              && (IsValid(Entry(mem, tables, r, v)) ==> Entry(mem', tables', r, v) == Entry(mem, tables, r, v))
    {
      assert OnWay(r, 0, v) != n;
    }
    SpacesEqual(mem, tables, mem', tables');
  }

  lemma ChildRooted(tables: map<Node, nat>, n: Node, i: nat, pa: nat)
    requires Rooted(tables) && n in tables && 0 < n.level <= 2
    ensures Rooted(tables[Child(n, i) := pa])
  {
    assert Child(n, i) != Top(n.root);
    assert Top(n.root) in tables;
  }

  lemma FreshRoot(tables: map<Node, nat>, pa: nat)
    requires Rooted(tables) && pa !in Frames(tables)
    ensures Top(pa) !in tables && Rooted(tables[Top(pa) := pa]) && forall n | n in tables :: n.root != pa
  {
    forall n | n in tables
      ensures n.root != pa
    {
      assert tables[Top(n.root)] in Frames(tables);
    }
  }

  lemma RootTree(mem: Memory, tables: map<Node, nat>, pa: nat)
    requires Tree(mem, tables, NoNode()) && pa in mem && pa % PGSIZE == 0 && mem[pa] == ZeroPage()
               && pa !in Frames(tables)
    requires forall n | n in tables :: n.root != pa
    ensures Tree(mem, tables[Top(pa) := pa], NoNode())
  {
    var tables' := tables[Top(pa) := pa];
    assert forall n | n in tables :: tables[n] in Frames(tables);
    forall j: nat | j < ENTRIES
      ensures Child(Top(pa), j) !in tables'
    {
      assert Child(Top(pa), j).root == pa;
    }
  }

  /** A fresh zeroed page as the root of an empty page table. */
  lemma AddRoot(mem: Memory, tables: map<Node, nat>, pa: nat)
    requires Tree(mem, tables, NoNode()) && pa in mem && pa % PGSIZE == 0 && mem[pa] == ZeroPage()
               && pa !in Frames(tables)
    requires Rooted(tables)
    ensures var tables' := tables[Top(pa) := pa];
            && Rooted(tables') && Tree(mem, tables', NoNode()) && SameSpaces(mem, tables, mem, tables')
            && Frames(tables') == Frames(tables) + {pa} && Space(mem, tables', pa) == map[]
  {
    hide Tree, Rooted, Frames, Space;
    FreshRoot(tables, pa);
    FramesPlus(tables, Top(pa), pa);
    RootTree(mem, tables, pa);
    RootSpaces(mem, tables, pa);
  }

  lemma RootSpaces(mem: Memory, tables: map<Node, nat>, pa: nat)
    requires forall n | n in tables :: n.root != pa
    ensures SameSpaces(mem, tables, mem, tables[Top(pa) := pa]) && Space(mem, tables[Top(pa) := pa], pa) == map[]
  {
    assert forall v: nat :: OnWay(pa, 0, v) !in tables;
    SpacesEqual(mem, tables, mem, tables[Top(pa) := pa]);
  }

  // ---- Freeing table pages ----

  /** The prefix that `m` has at a higher level. */
  function Up(m: Node, level: nat): nat {
    if level <= m.level then m.prefix
    else if level == m.level + 1 then m.prefix / ENTRIES
    else m.prefix / ENTRIES / ENTRIES
  }

  /** `m` is `n` or lies below it. */
  predicate Under(m: Node, n: Node) {
    m.root == n.root && m.level <= n.level && Up(m, n.level) == n.prefix
  }

  /** `m` lies below one of the first `i` children of `n`. */
  predicate UnderFirst(m: Node, n: Node, i: nat) {
    m.level < n.level && Under(m, n) && Up(m, n.level - 1) % ENTRIES < i
  }

  ghost function Pruned(tables: map<Node, nat>, n: Node): map<Node, nat> {
    map m | m in tables && !Under(m, n) :: tables[m]
  }

  ghost function PrunedFirst(tables: map<Node, nat>, n: Node, i: nat): map<Node, nat> {
    map m | m in tables && !UnderFirst(m, n, i) :: tables[m]
  }

  /** The address spaces have not changed but for the pages below `n`. */
  ghost predicate SameOutside(mem: Memory, tables: map<Node, nat>, mem': Memory, tables': map<Node, nat>, n: Node) {
    forall r: nat, v: nat | v < VPNS && n.level <= 2 && !(r == n.root && OnWay(r, n.level, v) == n) ::
      Entry(mem', tables', r, v) == Entry(mem, tables, r, v)
  }

  lemma UnderStep(m: Node, n: Node, i: nat)
    requires 0 < n.level <= 2 && m.level <= 2 && i < ENTRIES
    ensures UnderFirst(m, n, i + 1) <==> UnderFirst(m, n, i) || Under(m, Child(n, i))
  {
    var c := Child(n, i);
    if m.level < n.level {
      var u := Up(m, n.level - 1);
      assert m.level + 2 == n.level ==> m.prefix / ENTRIES / ENTRIES == u / ENTRIES;
      assert u == c.prefix <==> u / ENTRIES == n.prefix && u % ENTRIES == i;
    }
  }

  /** Below a page that is not there, there is nothing. */
  lemma NothingUnder(mem: Memory, tables: map<Node, nat>, hole: Node, c: Node, m: Node)
    requires Tree(mem, tables, hole) && c !in tables && c.level < 2 && Under(m, c)
    ensures m !in tables
  {
    assert m.level < c.level ==> Parent(m) == c;
  }

  /** A page without children is dropped; only the link to it is left hanging. */
  lemma DropTable(mem: Memory, mem': Memory, tables: map<Node, nat>, n: Node)
    requires Tree(mem, tables, NoNode()) && n in tables && forall m | m in tables && Under(m, n) :: m == n
    requires forall m | m in tables && m != n :: tables[m] in mem' && mem'[tables[m]] == mem[tables[m]]
    ensures Pruned(tables, n) == tables - {n}
    ensures Tree(mem', tables - {n}, n) && Frames(tables - {n}) == Frames(tables) - {tables[n]}
    ensures SameOutside(mem, tables, mem', tables - {n}, n)
  {
    var tables' := tables - {n};
    forall m | m in tables' && m.level < 2
      ensures Parent(m) in tables'
    {
      assert Under(m, Parent(m));
    }
    FramesMinus(tables, n);
    forall m, i: nat | m in tables' && m.level > 0 && i < ENTRIES && Child(m, i) != n
      ensures IsValid(mem'[tables'[m]][i]) <==> Child(m, i) in tables'
      ensures Child(m, i) in tables' ==> mem'[tables'[m]][i] == MakePte(tables'[Child(m, i)], PTE_V)
    {
      assert Child(m, i) != NoNode();
    }
    forall r: nat, v: nat | v < VPNS && !(r == n.root && OnWay(r, n.level, v) == n)
      ensures Entry(mem', tables', r, v) == Entry(mem, tables, r, v)
    {
      assert OnWay(r, 0, v) != n;
    }
  }

  lemma DropRooted(mem: Memory, tables: map<Node, nat>, n: Node)
    requires Tree(mem, tables, NoNode()) && Rooted(tables) && n in tables
    requires forall m | m in tables && Under(m, n) :: m == n
    ensures Rooted(tables - {n})
  {
    forall m | m in tables && m != n
      ensures n != Top(m.root)
    {
      assert m.level == 1 ==> Parent(m) == Top(m.root);
      assert m.level == 0 ==> Parent(Parent(m)) == Top(m.root);
      assert Under(m, Top(m.root));
    }
  }

  /** Clearing the link to a page that was dropped. */
  lemma CloseHole(mem: Memory, tables: map<Node, nat>, n: Node, i: nat)
    requires n in tables && 0 < n.level && i < ENTRIES && Tree(mem, tables, Child(n, i)) && Child(n, i) !in tables
    ensures tables[n] in mem
    ensures var mem' := SetEntry(mem, tables[n], i, 0);
            && Tree(mem', tables, NoNode())
            && forall r: nat, v: nat | v < VPNS :: Entry(mem', tables, r, v) == Entry(mem, tables, r, v)
  {
    var mem' := SetEntry(mem, tables[n], i, 0);
    forall m, j: nat | m in tables && m.level > 0 && j < ENTRIES
      ensures IsValid(mem'[tables[m]][j]) <==> Child(m, j) in tables
      ensures Child(m, j) in tables ==> mem'[tables[m]][j] == MakePte(tables[Child(m, j)], PTE_V)
    {
      if m != n || j != i {
        assert Parent(Child(m, j)) == m && Index(Child(m, j)) == j;
        assert Parent(Child(n, i)) == n && Index(Child(n, i)) == i;
        assert Child(m, j) != Child(n, i);
      }
    }
  }

  /** The pages reached through the first `i` entries of `n`. */
  predicate ThroughFirst(r: nat, v: nat, n: Node, i: nat) {
    n.level <= 2 && OnWay(r, n.level, v) == n && PX(n.level, v) < i
  }

  /** Like SameOutside, while only the first `i` entries of `n` have been freed. */
  ghost predicate SameBeyond(mem: Memory, tables: map<Node, nat>, mem': Memory, tables': map<Node, nat>, n: Node,
      i: nat) {
    forall r: nat, v: nat | v < VPNS && !ThroughFirst(r, v, n, i) ::
        Entry(mem', tables', r, v) == Entry(mem, tables, r, v)
  }

  lemma ThroughStep(r: nat, v: nat, n: Node, i: nat)
    requires 0 < n.level <= 2 && v < VPNS && i < ENTRIES
    ensures OnWay(r, n.level - 1, v) == Child(n, i) <==> OnWay(r, n.level, v) == n && PX(n.level, v) == i
  {
    WayDown(r, n.level, v);
  }

  lemma PruneStart(tables: map<Node, nat>, n: Node)
    ensures PrunedFirst(tables, n, 0) == tables
    ensures n.level == 0 ==> forall i :: PrunedFirst(tables, n, i) == tables
  {
  }

  /** The next child is gone, or was never there. */
  lemma PruneNext(mem: Memory, t0: map<Node, nat>, tables: map<Node, nat>, n: Node, i: nat)
    requires Tree(mem, tables, NoNode()) && tables == PrunedFirst(t0, n, i) && 0 < n.level <= 2 && i < ENTRIES
    requires forall m | m in t0 :: m.level <= 2
    ensures Pruned(tables, Child(n, i)) == PrunedFirst(t0, n, i + 1)
    ensures Child(n, i) !in tables ==> tables == PrunedFirst(t0, n, i + 1)
  {
    forall m | m in t0
      ensures UnderFirst(m, n, i + 1) <==> UnderFirst(m, n, i) || Under(m, Child(n, i))
    {
      UnderStep(m, n, i);
    }
    assert Pruned(tables, Child(n, i)) == PrunedFirst(t0, n, i + 1);
    if Child(n, i) !in tables {
      forall m | m in tables
        ensures !Under(m, Child(n, i))
      {
        if Under(m, Child(n, i)) {
          NothingUnder(mem, tables, NoNode(), Child(n, i), m);
        }
      }
      assert Pruned(tables, Child(n, i)) == tables;
    }
  }

  /** With all children gone, only `n` itself is left. */
  lemma PruneEnd(t0: map<Node, nat>, n: Node)
    requires n.level <= 2 && n in t0 && forall m | m in t0 :: m.level <= 2
    ensures var tables := PrunedFirst(t0, n, ENTRIES);
            && n in tables && (forall m | m in tables && Under(m, n) :: m == n)
            && tables - {n} == Pruned(t0, n)
  {
    var tables := PrunedFirst(t0, n, ENTRIES);
    forall m | m in t0 && Under(m, n) && m != n
      ensures UnderFirst(m, n, ENTRIES)
    {
    }
    assert tables - {n} == Pruned(t0, n);
  }
}
