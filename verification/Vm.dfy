/** The frame pool of kernel/kalloc.c and the page tables of kernel/vm.c over it. */
module Vm {
  import opened Counting
  import opened PageTable
  import opened Wrappers

  /** `memset(pa, b, PGSIZE)`, as words. */
  function Junk(b: nat): Page {
    seq(ENTRIES, i => b * 0x0101_0101_0101_0101)
  }

  /** What follows place `i` of the free list. */
  function After(chain: seq<nat>, i: nat): nat {
    if i + 1 < |chain| then chain[i + 1] else 0
  }

  /** The free list: each free page holds the address of the next in its first word. */
  ghost predicate Chained(mem: Memory, head: nat, chain: seq<nat>) {
    && head == (if chain == [] then 0 else chain[0])
    && (forall i | 0 <= i < |chain| ::
          chain[i] in mem && mem[chain[i]][0] == After(chain, i))
    && forall i, j | 0 <= i < j < |chain| :: chain[i] != chain[j]
  }

  lemma SameKeys(mem: Memory, pa: nat, p: Page)
    requires pa in mem
    ensures mem[pa := p].Keys == mem.Keys
  {
  }

  lemma ChainPop(mem: Memory, mem': Memory, head: nat, chain: seq<nat>)
    requires Chained(mem, head, chain) && chain != [] && mem'.Keys == mem.Keys
    requires forall pa | pa in mem && pa != head :: mem'[pa] == mem[pa]
    ensures Chained(mem', mem[head][0], chain[1..])
    ensures Elems(chain) == Elems(chain[1..]) + {head} && head !in Elems(chain[1..])
  {
    var rest := chain[1..];
    assert chain[0] == head && chain[0] in Elems(chain);
    forall i | 0 <= i < |rest|
      ensures rest[i] == chain[i + 1] && rest[i] in Elems(chain) && rest[i] in mem'
      ensures mem'[rest[i]][0] == After(rest, i)
    {
      assert chain[0] != chain[i + 1] && mem[chain[i + 1]][0] == After(chain, i + 1);
    }
    forall x | x in Elems(chain)
      ensures x in Elems(chain[1..]) + {head}
    {
      var i :| 0 <= i < |chain| && chain[i] == x;
      assert i > 0 ==> chain[1..][i - 1] == x;
    }
  }

  lemma ElemsCons(pa: nat, chain: seq<nat>)
    ensures Elems([pa] + chain) == Elems(chain) + {pa}
    ensures forall i | 0 <= i < |chain| :: chain[i] in Elems(chain)
  {
    var c := [pa] + chain;
    assert c[0] == pa && forall i | 0 <= i < |chain| :: chain[i] == c[i + 1];
  }

  lemma ChainPush(mem: Memory, mem': Memory, head: nat, chain: seq<nat>, pa: nat)
    requires Chained(mem, head, chain) && pa !in Elems(chain) && pa in mem && mem'.Keys == mem.Keys
    requires forall a | a in mem && a != pa :: mem'[a] == mem[a]
    requires mem'[pa][0] == head
    ensures Chained(mem', pa, [pa] + chain) && Elems([pa] + chain) == Elems(chain) + {pa}
  {
    hide Elems;
    var c := [pa] + chain;
    ElemsCons(pa, chain);
    forall i | 0 <= i < |c|
      ensures c[i] in mem' && mem'[c[i]][0] == After(c, i)
    {
      assert i > 0 ==> c[i] == chain[i - 1] && mem[chain[i - 1]][0] == After(chain, i - 1);
      assert i > 0 ==> After(c, i) == After(chain, i - 1);
    }
  }

  /** Table pages may be added to the page table at `root`, nowhere else. */
  ghost predicate Grown(tables: map<Node, nat>, tables': map<Node, nat>, root: nat) {
    && (forall n | n in tables :: n in tables' && tables'[n] == tables[n])
    && (forall n | n in tables' && n !in tables :: n.root == root)
  }

  /** Every page is free, a table page, or held by whoever allocated it. */
  ghost predicate Partition(pages: set<nat>, free: set<nat>, used: set<nat>, held: set<nat>) {
    pages == free + used + held && free !! used && free !! held && used !! held
  }

  lemma Taken(pages: set<nat>, free: set<nat>, free': set<nat>, used: set<nat>, held: set<nat>, pa: nat)
    requires Partition(pages, free, used, held) && free == free' + {pa} && pa !in free'
    ensures Partition(pages, free', used, held + {pa}) && pa in pages && pa !in used && pa !in held
  {
  }

  lemma Untabled(pages: set<nat>, free: set<nat>, used: set<nat>, held: set<nat>, pa: nat)
    requires Partition(pages, free, used, held) && pa in used
    ensures Partition(pages, free, used - {pa}, held + {pa}) && pa !in held
  {
  }

  lemma Given(pages: set<nat>, free: set<nat>, used: set<nat>, held: set<nat>, pa: nat)
    requires Partition(pages, free, used, held) && pa in held
    ensures Partition(pages, free + {pa}, used, held - {pa}) && pa in pages && pa !in used && pa !in free
  {
  }

  /** The free list does not notice changes of other pages. */
  lemma ChainFrame(mem: Memory, mem': Memory, head: nat, chain: seq<nat>)
    requires Chained(mem, head, chain) && mem'.Keys == mem.Keys
    requires forall a | a in Elems(chain) && a in mem :: mem'[a] == mem[a]
    ensures Chained(mem', head, chain)
  {
    forall i | 0 <= i < |chain|
      ensures chain[i] in Elems(chain)
    {
    }
  }

  /** Zeroing a page just allocated and linking it as the table page below `n`. */
  function WithTable(mem: Memory, t: nat, i: nat, pa: nat): Memory
    requires t in mem && i < ENTRIES
  {
    SetEntry(mem[pa := ZeroPage()], t, i, MakePte(pa, PTE_V))
  }

  lemma HangTable(mem: Memory, tables: map<Node, nat>, head: nat, chain: seq<nat>, held: set<nat>, n: Node, i: nat,
      pa: nat)
    requires Tree(mem, tables, NoNode()) && Rooted(tables) && Chained(mem, head, chain)
    requires Partition(mem.Keys, Elems(chain), Frames(tables), held + {pa}) && pa !in held && pa % PGSIZE == 0
    requires n in tables && 0 < n.level && i < ENTRIES && Child(n, i) !in tables
    ensures tables[n] in mem
    ensures var mem' := WithTable(mem, tables[n], i, pa); var tables' := tables[Child(n, i) := pa];
            && Tree(mem', tables', NoNode()) && Rooted(tables') && Chained(mem', head, chain)
            && mem'.Keys == mem.Keys && Partition(mem'.Keys, Elems(chain), Frames(tables'), held)
            && SameSpaces(mem, tables, mem', tables') && forall a | a in held :: a in mem && mem'[a] == mem[a]
  {
    hide Chained, Elems, Tree, Frames, Rooted, Space, SameSpaces;
    TablePage(mem, tables, n);
    Levels(mem, tables);
    ChildRooted(tables, n, i, pa);
    var mem1 := mem[pa := ZeroPage()];
    var mem' := WithTable(mem, tables[n], i, pa);
    SameKeys(mem, pa, ZeroPage());
    SameKeys(mem1, tables[n], mem1[tables[n]][i := MakePte(pa, PTE_V)]);
    OutsideTables(mem, mem1, tables, NoNode(), pa);
    AddTable(mem1, tables, n, i, pa);
    ChainFrame(mem, mem', head, chain);
    SpacesChain(mem, tables, mem1, tables, mem', tables[Child(n, i) := pa]);
  }

  lemma SpacesChain(m0: Memory, t0: map<Node, nat>, m1: Memory, t1: map<Node, nat>, m2: Memory, t2: map<Node, nat>)
    requires SameSpaces(m0, t0, m1, t1) && SameSpaces(m1, t1, m2, t2)
    ensures SameSpaces(m0, t0, m2, t2)
  {
    forall r: nat
      ensures Space(m2, t2, r) == Space(m0, t0, r)
    {
      assert Space(m1, t1, r) == Space(m0, t0, r);
    }
  }

  /** An entry stored at level 0. */
  lemma StoreEntry(mem: Memory, tables: map<Node, nat>, head: nat, chain: seq<nat>, held: set<nat>, root: nat,
      vpn: nat, pte: nat)
    requires Tree(mem, tables, NoNode()) && Chained(mem, head, chain)
    requires Partition(mem.Keys, Elems(chain), Frames(tables), held)
    requires vpn < VPNS && OnWay(root, 0, vpn) in tables && (IsValid(pte) ==> IsLeaf(pte))
    ensures tables[OnWay(root, 0, vpn)] in mem
    ensures var mem' := SetEntry(mem, tables[OnWay(root, 0, vpn)], vpn % ENTRIES, pte);
            && Tree(mem', tables, NoNode()) && Chained(mem', head, chain) && mem'.Keys == mem.Keys
            && (forall a | a in held && a in mem :: mem'[a] == mem[a])
            && (forall r: nat | r != root :: Space(mem', tables, r) == Space(mem, tables, r))
            && Space(mem', tables, root) ==
                 if IsValid(pte) then Space(mem, tables, root)[vpn := pte] else Space(mem, tables, root) - {vpn}
  {
    hide Chained, Elems, Tree, Space;
    StoreLeaf(mem, tables, root, vpn, pte);
    var t := tables[OnWay(root, 0, vpn)];
    assert t in Frames(tables);
    assert SetEntry(mem, t, vpn % ENTRIES, pte).Keys == mem.Keys;
    ChainFrame(mem, SetEntry(mem, t, vpn % ENTRIES, pte), head, chain);
  }

  // ---- What page tables cost ----

  /** The table pages, besides the root, on the way to a page. */
  ghost function Way(root: nat, vpn: nat): set<Node> {
    {OnWay(root, 1, vpn), OnWay(root, 0, vpn)}
  }

  /** Those on the ways to `n` pages from `first` on. */
  ghost function Ways(root: nat, first: nat, n: nat): set<Node> {
    set v: nat, level: nat | first <= v < first + n && level < 2 :: OnWay(root, level, v)
  }

  lemma WaysNext(root: nat, first: nat, n: nat)
    ensures Ways(root, first, 0) == {}
    ensures Ways(root, first, n + 1) == Ways(root, first, n) + Way(root, first + n)
  {
    var ways, way, longer := Ways(root, first, n), Way(root, first + n), Ways(root, first, n + 1);
    forall x | x in longer
      ensures x in ways || x in way
    {
      var v: nat, level: nat :| first <= v < first + n + 1 && level < 2 && x == OnWay(root, level, v);
    }
    WaysGrow(root, first, n, n + 1);
  }

  lemma WaysGrow(root: nat, first: nat, k: nat, n: nat)
    requires k <= n
    ensures Ways(root, first, k) <= Ways(root, first, n)
  {
    var few, many := Ways(root, first, k), Ways(root, first, n);
    forall x | x in few
      ensures x in many
    {
      var v: nat, level: nat :| first <= v < first + k && level < 2 && x == OnWay(root, level, v);
    }
  }

  /** Between free list `c0` with tables `t0` and `c` with `t`, the table pages `nodes` were
      added where they were missing, and `pages` more pages were taken. */
  ghost predicate Spent(c0: seq<nat>, t0: map<Node, nat>, c: seq<nat>, t: map<Node, nat>, nodes: set<Node>,
                        pages: nat) {
    t.Keys == t0.Keys + nodes && |c0| == |c| + |t.Keys - t0.Keys| + pages
  }

  /** The free list does not suffice for that. */
  ghost predicate Lacking(c0: seq<nat>, t0: map<Node, nat>, nodes: set<Node>, pages: nat) {
    |c0| < |nodes - t0.Keys| + pages
  }

  lemma SpentNothing(c: seq<nat>, t: map<Node, nat>, nodes: set<Node>)
    requires nodes <= t.Keys
    ensures Spent(c, t, c, t, nodes, 0)
  {
    assert t.Keys - t.Keys == {} && t.Keys == t.Keys + nodes;
  }

  lemma SpentMore(c0: seq<nat>, t0: map<Node, nat>, c1: seq<nat>, t1: map<Node, nat>, c: seq<nat>, t: map<Node, nat>,
                  nodes: set<Node>, more: set<Node>, pages: nat, extra: nat)
    requires Spent(c0, t0, c1, t1, nodes, pages) && Spent(c1, t1, c, t, more, extra)
    ensures Spent(c0, t0, c, t, nodes + more, pages + extra)
  {
    Parts(t0.Keys, t1.Keys, t.Keys);
    assert t.Keys == t0.Keys + (nodes + more);
  }

  lemma Parts(a: set<Node>, b: set<Node>, c: set<Node>)
    requires a <= b
    ensures |b - a| + |c - b| == |b + c - a|
    ensures b <= c ==> |b - a| + |c - b| == |c - a|
  {
    assert b + c - a == (b - a) + (c - b);
    assert b <= c ==> b + c - a == c - a;
  }

  lemma LackingMore(c0: seq<nat>, t0: map<Node, nat>, c1: seq<nat>, t1: map<Node, nat>, nodes: set<Node>,
                    more: set<Node>, pages: nat, extra: nat)
    requires Spent(c0, t0, c1, t1, nodes, pages) && Lacking(c1, t1, more, extra)
    ensures Lacking(c0, t0, nodes + more, pages + extra)
  {
    Parts(t0.Keys, t1.Keys, more);
    assert nodes + more - t0.Keys == t1.Keys + more - t0.Keys;
  }

  lemma LackingMono(c0: seq<nat>, t0: map<Node, nat>, nodes: set<Node>, more: set<Node>, pages: nat, extra: nat)
    requires Lacking(c0, t0, nodes, pages) && nodes <= more && pages <= extra
    ensures Lacking(c0, t0, more, extra)
  {
    SubsetSize(nodes - t0.Keys, more - t0.Keys);
  }

  /** Enough free pages is exactly what it takes. */
  lemma SpentEnough(c0: seq<nat>, t0: map<Node, nat>, c: seq<nat>, t: map<Node, nat>, nodes: set<Node>, pages: nat)
    requires Spent(c0, t0, c, t, nodes, pages)
    ensures !Lacking(c0, t0, nodes, pages)
  {
    assert t.Keys - t0.Keys == nodes - t0.Keys;
  }

  /** The entry a space holds is the one walk finds. */
  lemma EntryOfSpace(mem: Memory, tables: map<Node, nat>, root: nat, vpn: nat)
    requires Tree(mem, tables, NoNode()) && vpn < VPNS
    ensures vpn in Space(mem, tables, root) ==> OnWay(root, 0, vpn) in tables
    ensures OnWay(root, 0, vpn) in tables ==>
              && tables[OnWay(root, 0, vpn)] in mem
              && var pte := mem[tables[OnWay(root, 0, vpn)]][vpn % ENTRIES];
                 && (IsValid(pte) <==> vpn in Space(mem, tables, root))
                 && (IsValid(pte) ==> pte == Space(mem, tables, root)[vpn] && IsLeaf(pte))
  {
  }

  /** A space with pages `first .. first + k` mapped to consecutive frames from `pa`. */
  ghost function Mapped(s: map<nat, nat>, first: nat, pa: nat, flags: nat, k: nat): map<nat, nat>
    requires flags < FLAGS
  {
    if k == 0 then s
    else Mapped(s, first, pa, flags, k - 1)[first + k - 1 := MakePte(pa + (k - 1) * PGSIZE, flags)]
  }

  /** Only the pages asked for change. */
  lemma {:induction false} MappedAt(s: map<nat, nat>, first: nat, pa: nat, flags: nat, k: nat, v: nat)
    requires flags < FLAGS
    ensures var m := Mapped(s, first, pa, flags, k);
            if first <= v < first + k then v in m && m[v] == MakePte(pa + (v - first) * PGSIZE, flags)
            else (v in m <==> v in s) && (v in s ==> m[v] == s[v])
  {
    if k > 0 {
      MappedAt(s, first, pa, flags, k - 1, v);
    }
  }

  /** A space without pages `first .. first + n`. */
  ghost function Without(s: map<nat, nat>, first: nat, n: nat): map<nat, nat> {
    map v | v in s && !(first <= v < first + n) :: s[v]
  }

  /** The frames behind pages `first .. first + n`. */
  ghost function FramesOf(s: map<nat, nat>, first: nat, n: nat): set<nat> {
    set v | v in s && first <= v < first + n :: Pte2Pa(s[v])
  }

  /** Pages `first .. first + n` are mapped, each to a held frame of its own. */
  ghost predicate Owned(s: map<nat, nat>, first: nat, n: nat, held: set<nat>) {
    && (forall v | first <= v < first + n :: v in s && Pte2Pa(s[v]) in held)
    && forall v, w | first <= v < w < first + n :: Pte2Pa(s[v]) != Pte2Pa(s[w])
  }

  /** The same of the pages that are mapped at all. */
  ghost predicate Freeable(s: map<nat, nat>, first: nat, n: nat, held: set<nat>) {
    && (forall v | first <= v < first + n && v in s :: Pte2Pa(s[v]) in held)
    && forall v, w | first <= v < w < first + n && v in s && w in s :: Pte2Pa(s[v]) != Pte2Pa(s[w])
  }

  /** One page less. */
  lemma UnmapNext(s: map<nat, nat>, first: nat, n: nat, k: nat, held: set<nat>, doFree: bool)
    requires k < n && (doFree ==> Freeable(s, first, n, held))
    ensures first + k in Without(s, first, k) <==> first + k in s
    ensures first + k in s ==>
              && Without(s, first, k)[first + k] == s[first + k]
              && Without(s, first, k + 1) == Without(s, first, k) - {first + k}
              && FramesOf(s, first, k + 1) == FramesOf(s, first, k) + {Pte2Pa(s[first + k])}
              && (doFree ==> Pte2Pa(s[first + k]) in held - FramesOf(s, first, k))
  {
    if first + k !in s {
      return;
    }
    assert forall v | v in s && first <= v < first + k + 1 ::
        Pte2Pa(s[v]) in FramesOf(s, first, k) || Pte2Pa(s[v]) == Pte2Pa(s[first + k]);
    assert doFree ==> forall v | v in s && first <= v < first + k :: Pte2Pa(s[v]) != Pte2Pa(s[first + k]);
  }

  /** `PGROUNDUP(sz) / PGSIZE` */
  function PagesUp(sz: nat): (n: nat)
    ensures sz <= n * PGSIZE < sz + PGSIZE
  {
    (sz + PGSIZE - 1) / PGSIZE
  }

  /** `s` is `s0` and the `k` pages from `first` on, each with a frame of its own; the held
      frames are those of `h0` and the new ones. */
  ghost predicate Added(s0: map<nat, nat>, s: map<nat, nat>, first: nat, k: nat, h0: set<nat>, held: set<nat>) {
    && Without(s, first, k) == s0 && Owned(s, first, k, held)
    && held == h0 + FramesOf(s, first, k) && h0 !! FramesOf(s, first, k)
  }

  lemma AddedNone(s0: map<nat, nat>, first: nat, h0: set<nat>)
    ensures Added(s0, s0, first, 0, h0, h0)
  {
    assert Without(s0, first, 0) == s0;
    assert FramesOf(s0, first, 0) == {};
  }

  lemma AddedNext(s0: map<nat, nat>, s: map<nat, nat>, first: nat, k: nat, h0: set<nat>, held: set<nat>, pa: nat,
      flags: nat)
    requires Added(s0, s, first, k, h0, held) && first + k !in s && pa !in held && pa % PGSIZE == 0 && flags < FLAGS
    ensures Added(s0, s[first + k := MakePte(pa, flags)], first, k + 1, h0, held + {pa})
  {
    hide MakePte, Pte2Pa, PteFlags, IsValid, IsLeaf, IsUser;
    var s' := s[first + k := MakePte(pa, flags)];
    PteRoundTrip(pa, flags);
    assert Without(s', first, k + 1) == s0;
    forall v | first <= v < first + k
      ensures s'[v] == s[v] && Pte2Pa(s[v]) != pa
    {
    }
    UnmapNext(s', first, k + 1, k, held + {pa}, false);
    assert FramesOf(s', first, k) == FramesOf(s, first, k) by {
      assert forall v | v in s && first <= v < first + k :: v in s' && s'[v] == s[v];
    }
  }

  /** Taking the added pages away again gives back what was there. */
  lemma AddedUndone(s0: map<nat, nat>, s: map<nat, nat>, first: nat, k: nat, h0: set<nat>, held: set<nat>)
    requires Added(s0, s, first, k, h0, held)
    ensures Without(s, first, k) == s0 && held - FramesOf(s, first, k) == h0 && Owned(s, first, k, held)
  {
  }

  /** The pages are zeroed and carry the same flags. */
  ghost predicate Zeroed(s: map<nat, nat>, first: nat, k: nat, flags: nat, mem: Memory) {
    forall v | first <= v < first + k && v in s ::
      PteFlags(s[v]) == flags && Pte2Pa(s[v]) in mem && mem[Pte2Pa(s[v])] == ZeroPage()
  }

  /** The pages hold what the parent's hold, with the same flags. */
  ghost predicate Copied(sp: map<nat, nat>, s: map<nat, nat>, k: nat, mem: Memory) {
    forall v | 0 <= v < k && v in s && v in sp ::
      && PteFlags(s[v]) == PteFlags(sp[v])
      && Pte2Pa(s[v]) in mem && Pte2Pa(sp[v]) in mem && mem[Pte2Pa(s[v])] == mem[Pte2Pa(sp[v])]
  }

  lemma ZeroedNext(s: map<nat, nat>, first: nat, k: nat, flags: nat, mem: Memory, mem': Memory, held: set<nat>, pa: nat)
    requires Zeroed(s, first, k, flags, mem) && Owned(s, first, k, held) && flags < FLAGS
    requires mem'.Keys == mem.Keys && forall a | a in held && a in mem :: mem'[a] == mem[a]
    requires pa % PGSIZE == 0 && pa in mem' && mem'[pa] == ZeroPage()
    ensures Zeroed(s[first + k := MakePte(pa, flags)], first, k + 1, flags, mem')
  {
    PteRoundTrip(pa, flags);
  }

  lemma CopiedNext(sp: map<nat, nat>, s: map<nat, nat>, n: nat, k: nat, mem: Memory, mem': Memory, held: set<nat>,
      pa: nat)
    requires Copied(sp, s, k, mem) && Owned(s, 0, k, held) && Owned(sp, 0, n, held) && k < n
    requires mem'.Keys == mem.Keys && forall a | a in held && a in mem :: mem'[a] == mem[a]
    requires Pte2Pa(sp[k]) in mem && pa % PGSIZE == 0 && pa in mem' && mem'[pa] == mem[Pte2Pa(sp[k])]
    ensures Copied(sp, s[k := MakePte(pa, PteFlags(sp[k]))], k + 1, mem')
  {
    PteRoundTrip(pa, PteFlags(sp[k]));
  }

  lemma OwnedMore(s: map<nat, nat>, first: nat, n: nat, held: set<nat>, held': set<nat>)
    requires Owned(s, first, n, held) && held <= held'
    ensures Owned(s, first, n, held')
  {
  }

  // ---- Freeing page tables ----

  /** `pagetable[i] = 0` once the child there has been freed. */
  lemma CloseEntry(mem: Memory, tables: map<Node, nat>, head: nat, chain: seq<nat>, held: set<nat>, n: Node, i: nat)
    requires n in tables && 0 < n.level && i < ENTRIES && Tree(mem, tables, Child(n, i)) && Child(n, i) !in tables
    requires Chained(mem, head, chain) && Partition(mem.Keys, Elems(chain), Frames(tables), held)
    ensures tables[n] in mem
    ensures var mem' := SetEntry(mem, tables[n], i, 0);
            && Tree(mem', tables, NoNode()) && Chained(mem', head, chain) && mem'.Keys == mem.Keys
            && (forall a | a in held && a in mem :: mem'[a] == mem[a])
            && (forall r: nat, v: nat | v < VPNS :: Entry(mem', tables, r, v) == Entry(mem, tables, r, v))
            && forall m | m in tables && m != n && tables[m] in mem :: mem'[tables[m]] == mem[tables[m]]
  {
    hide Chained, Elems;
    CloseHole(mem, tables, n, i);
    assert tables[n] in Frames(tables);
    assert SetEntry(mem, tables[n], i, 0).Keys == mem.Keys;
    ChainFrame(mem, SetEntry(mem, tables[n], i, 0), head, chain);
  }

  /** The page of a childless table becomes an ordinary held page. */
  lemma ReleaseTable(mem: Memory, tables: map<Node, nat>, chain: seq<nat>, held: set<nat>, n: Node)
    requires Tree(mem, tables, NoNode()) && Rooted(tables) && Partition(mem.Keys, Elems(chain), Frames(tables), held)
    requires n in tables && forall m | m in tables && Under(m, n) :: m == n
    ensures Tree(mem, tables - {n}, n) && Rooted(tables - {n})
    ensures Partition(mem.Keys, Elems(chain), Frames(tables - {n}), held + {tables[n]}) && tables[n] !in held
              && tables[n] in mem
    ensures SameOutside(mem, tables, mem, tables - {n}, n)
    ensures forall m | m in tables - {n} :: tables[m] != tables[n]
  {
    hide Elems, Tree, Frames, Rooted, SameOutside, Partition;
    TablePage(mem, tables, n);
    Untabled(mem.Keys, Elems(chain), Frames(tables), held, tables[n]);
    DropTable(mem, mem, tables, n);
    DropRooted(mem, tables, n);
  }

  /** What freeing the pages below the first entries of `n` has done so far. */
  ghost predicate Freeing(mem0: Memory, t0: map<Node, nat>, mem: Memory, tables: map<Node, nat>, n: Node, i: nat) {
    && tables == PrunedFirst(t0, n, i) && SameBeyond(mem0, t0, mem, tables, n, i)
    && (forall m | m in tables && m != n && tables[m] in mem && tables[m] in mem0 :: mem[tables[m]] == mem0[tables[m]])
    && forall v | v in Space(mem0, t0, n.root) :: !ThroughFirst(n.root, v, n, i)
  }

  lemma FreeingStart(mem: Memory, tables: map<Node, nat>, n: Node)
    ensures Freeing(mem, tables, mem, tables, n, 0)
  {
    PruneStart(tables, n);
  }

  /** An invalid entry of a last-level page. */
  lemma FreeingSkipLeaf(mem0: Memory, t0: map<Node, nat>, mem: Memory, tables: map<Node, nat>, n: Node, i: nat)
    requires Freeing(mem0, t0, mem, tables, n, i) && n in tables && n.level == 0 && i < ENTRIES
    requires tables[n] in mem && !IsValid(mem[tables[n]][i])
    ensures Freeing(mem0, t0, mem, tables, n, i + 1)
  {
    PruneStart(t0, n);
    forall v | v in Space(mem0, t0, n.root)
      ensures !ThroughFirst(n.root, v, n, i + 1)
    {
      assert !ThroughFirst(n.root, v, n, i);
      assert Entry(mem, tables, n.root, v) == Entry(mem0, t0, n.root, v);
    }
  }

  /** The next entry leads nowhere, or its subtree has been freed. */
  lemma FreeingNext(mem0: Memory, t0: map<Node, nat>, mem1: Memory, t1: map<Node, nat>, mem: Memory,
      tables: map<Node, nat>,
                    n: Node, i: nat)
    requires Freeing(mem0, t0, mem1, t1, n, i) && Tree(mem1, t1, NoNode()) && n in t1 && 0 < n.level <= 2 && i < ENTRIES
    requires forall m | m in t0 :: m.level <= 2
    requires tables == Pruned(t1, Child(n, i)) && SameOutside(mem1, t1, mem, tables, Child(n, i))
    requires forall m | m in tables && m != n && tables[m] in mem && tables[m] in mem1 ::
               mem[tables[m]] == mem1[tables[m]]
    requires mem.Keys == mem1.Keys
    requires forall v | v in Space(mem1, t1, n.root) :: OnWay(n.root, n.level - 1, v) != Child(n, i)
    ensures Freeing(mem0, t0, mem, tables, n, i + 1)
  {
    hide Tree, Space;
    var c := Child(n, i);
    PruneNext(mem1, t0, t1, n, i);
    forall r: nat, v: nat | v < VPNS && !ThroughFirst(r, v, n, i + 1)
      ensures Entry(mem, tables, r, v) == Entry(mem0, t0, r, v)
    {
      ThroughStep(r, v, n, i);
      assert !ThroughFirst(r, v, n, i);
      assert Entry(mem1, t1, r, v) == Entry(mem0, t0, r, v);
    }
    forall v | v in Space(mem0, t0, n.root)
      ensures !ThroughFirst(n.root, v, n, i + 1)
    {
      InSpace(mem0, t0, n.root, v);
      InSpace(mem1, t1, n.root, v);
      assert !ThroughFirst(n.root, v, n, i);
      assert Entry(mem1, t1, n.root, v) == Entry(mem0, t0, n.root, v);
      ThroughStep(n.root, v, n, i);
    }
  }

  lemma InSpace(mem: Memory, tables: map<Node, nat>, root: nat, v: nat)
    ensures v in Space(mem, tables, root) <==> v < VPNS && IsValid(Entry(mem, tables, root, v))
  {
  }

  /** A page that is not there maps nothing. */
  lemma NothingMapped(mem: Memory, tables: map<Node, nat>, c: Node, v: nat)
    requires Tree(mem, tables, NoNode()) && c !in tables && c.level < 2 && v in Space(mem, tables, c.root)
    ensures OnWay(c.root, c.level, v) != c
  {
    InSpace(mem, tables, c.root, v);
    assert Parent(OnWay(c.root, 0, v)) == OnWay(c.root, 1, v);
  }

  /** There is nothing to free below a page that is not there. */
  lemma NothingToPrune(mem: Memory, tables: map<Node, nat>, c: Node)
    requires Tree(mem, tables, NoNode()) && c !in tables && c.level < 2
    ensures Pruned(tables, c) == tables
  {
    hide Tree, Under;
    forall m | m in tables
      ensures !Under(m, c)
    {
      if Under(m, c) {
        NothingUnder(mem, tables, NoNode(), c, m);
      }
    }
  }

  lemma NothingAt(mem: Memory, tables: map<Node, nat>, c: Node)
    requires Tree(mem, tables, NoNode()) && c !in tables && c.level < 2
    ensures forall v | v in Space(mem, tables, c.root) :: OnWay(c.root, c.level, v) != c
    ensures Pruned(tables, c) == tables
  {
    hide Tree, Pruned, Space;
    forall v | v in Space(mem, tables, c.root)
      ensures OnWay(c.root, c.level, v) != c
    {
      NothingMapped(mem, tables, c, v);
    }
    NothingToPrune(mem, tables, c);
  }

  /** Some page below `n` is mapped. */
  ghost predicate Maps(mem: Memory, tables: map<Node, nat>, n: Node) {
    n.level <= 2 && exists v | v in Space(mem, tables, n.root) :: OnWay(n.root, n.level, v) == n
  }

  lemma NotMapped(mem: Memory, tables: map<Node, nat>, n: Node)
    requires !Maps(mem, tables, n) && n.level <= 2
    ensures forall v | v in Space(mem, tables, n.root) :: OnWay(n.root, n.level, v) != n
  {
  }

  lemma Levels(mem: Memory, tables: map<Node, nat>)
    requires Tree(mem, tables, NoNode())
    ensures forall m | m in tables :: m.level <= 2
  {
  }

  lemma ChildGone(tables: map<Node, nat>, n: Node, i: nat)
    requires n in tables && 0 < n.level
    ensures n in Pruned(tables, Child(n, i)) && Child(n, i) !in Pruned(tables, Child(n, i))
    ensures Pruned(tables, Child(n, i))[n] == tables[n]
  {
  }

  lemma ChildMaps(mem0: Memory, t0: map<Node, nat>, mem: Memory, tables: map<Node, nat>, n: Node, i: nat)
    requires Freeing(mem0, t0, mem, tables, n, i) && 0 < n.level <= 2 && i < ENTRIES
    ensures Maps(mem, tables, Child(n, i)) ==> Maps(mem0, t0, n)
  {
    hide Space;
    if Maps(mem, tables, Child(n, i)) {
      var v :| v in Space(mem, tables, n.root) && OnWay(n.root, n.level - 1, v) == Child(n, i);
      InSpace(mem, tables, n.root, v);
      InSpace(mem0, t0, n.root, v);
      ThroughStep(n.root, v, n, i);
      assert !ThroughFirst(n.root, v, n, i);
    }
  }

  lemma LeafMaps(mem0: Memory, t0: map<Node, nat>, mem: Memory, tables: map<Node, nat>, n: Node, i: nat)
    requires Freeing(mem0, t0, mem, tables, n, i) && Tree(mem, tables, NoNode())
    requires n in tables && n.level == 0 && i < ENTRIES && IsValid(mem[tables[n]][i])
    ensures Maps(mem0, t0, n)
  {
    assert Parent(n) in tables && Parent(Parent(n)) in tables && Parent(Parent(n)) == Top(n.root);
    var v := n.prefix * ENTRIES + i;
    assert n.prefix / ENTRIES / ENTRIES == 0 && v < VPNS && v / 0x200 == n.prefix && v % ENTRIES == i;
    assert !ThroughFirst(n.root, v, n, i);
    assert Entry(mem0, t0, n.root, v) == Entry(mem, tables, n.root, v) == mem[tables[n]][i];
    assert v in Space(mem0, t0, n.root) && OnWay(n.root, 0, v) == n;
  }

  lemma FreeingEnd(mem0: Memory, t0: map<Node, nat>, mem: Memory, tables: map<Node, nat>, n: Node)
    requires Freeing(mem0, t0, mem, tables, n, ENTRIES) && n in tables && n.level <= 2
    requires forall m | m in t0 :: m.level <= 2
    ensures !Maps(mem0, t0, n) && SameOutside(mem0, t0, mem, tables, n)
    ensures (forall m | m in tables && Under(m, n) :: m == n) && tables - {n} == Pruned(t0, n)
    ensures forall m | m in tables && m != n && tables[m] in mem && tables[m] in mem0 ::
              mem[tables[m]] == mem0[tables[m]]
  {
    PruneEnd(t0, n);
    forall v | v in Space(mem0, t0, n.root)
      ensures OnWay(n.root, n.level, v) != n
    {
      assert !ThroughFirst(n.root, v, n, ENTRIES);
    }
    forall r: nat, v: nat | v < VPNS && !(r == n.root && OnWay(r, n.level, v) == n)
      ensures Entry(mem, tables, r, v) == Entry(mem0, t0, r, v)
    {
      assert !ThroughFirst(r, v, n, ENTRIES);
    }
  }

  lemma EndOutside(mem0: Memory, t0: map<Node, nat>, mem1: Memory, t1: map<Node, nat>, mem: Memory,
      tables: map<Node, nat>, n: Node)
    requires SameOutside(mem0, t0, mem1, t1, n) && SameOutside(mem1, t1, mem1, tables, n) && mem.Keys == mem1.Keys
    requires forall m | m in tables && tables[m] in mem :: mem[tables[m]] == mem1[tables[m]]
    ensures SameOutside(mem0, t0, mem, tables, n)
  {
    forall r: nat, v: nat | v < VPNS && n.level <= 2 && !(r == n.root && OnWay(r, n.level, v) == n)
      ensures Entry(mem, tables, r, v) == Entry(mem0, t0, r, v)
    {
      assert Entry(mem1, tables, r, v) == Entry(mem1, t1, r, v);
    }
  }

  // ---- Whole page tables ----

  const TRAMPOLINE: nat := MAXVPN * PGSIZE - PGSIZE
  const TRAPFRAME: nat := TRAMPOLINE - PGSIZE

  /** The two pages on top share their tables. */
  ghost function TopWays(root: nat): set<Node> {
    Way(root, TRAMPOLINE / PGSIZE) + Way(root, TRAPFRAME / PGSIZE)
  }

  lemma TopTables(t: map<Node, nat>, root: nat)
    requires forall n | n in t && n.root == root :: n == Top(root)
    ensures |TopWays(root) - t.Keys| == 2 && |Way(root, TRAMPOLINE / PGSIZE) - t.Keys| == 2
  {
    var v := TRAMPOLINE / PGSIZE;
    assert v / 0x200 == TRAPFRAME / PGSIZE / 0x200 && v / 0x4_0000 == TRAPFRAME / PGSIZE / 0x4_0000;
    TwoNodes(OnWay(root, 0, v), OnWay(root, 1, v), Way(root, v) - t.Keys);
    assert Way(root, TRAPFRAME / PGSIZE) == Way(root, v) == TopWays(root);
  }

  lemma TwoNodes(n: Node, m: Node, nodes: set<Node>)
    requires n != m && forall x :: x in nodes <==> x == n || x == m
    ensures |nodes| == 2
  {
    assert nodes == {n, m};
  }

  /** Without memory for the trampoline, or after it for the trapframe. */
  lemma NoTop(c1: seq<nat>, t1: map<Node, nat>, c2: seq<nat>, t2: map<Node, nat>, root: nat, mapped: bool)
    requires forall n | n in t1 && n.root == root :: n == Top(root)
    requires if mapped then Spent(c1, t1, c2, t2, Way(root, TRAMPOLINE / PGSIZE), 0)
                            && Lacking(c2, t2, Way(root, TRAPFRAME / PGSIZE), 0)
             else Lacking(c1, t1, Way(root, TRAMPOLINE / PGSIZE), 0)
    ensures |c1| < 2
  {
    hide Way;
    TopTables(t1, root);
    if mapped {
      LackingMore(c1, t1, c2, t2, Way(root, TRAMPOLINE / PGSIZE), Way(root, TRAPFRAME / PGSIZE), 0, 0);
    }
  }

  lemma TopThere(c1: seq<nat>, t1: map<Node, nat>, c2: seq<nat>, t2: map<Node, nat>, c: seq<nat>, t: map<Node, nat>,
                 root: nat)
    requires forall n | n in t1 && n.root == root :: n == Top(root)
    requires Spent(c1, t1, c2, t2, Way(root, TRAMPOLINE / PGSIZE), 0)
    requires Spent(c2, t2, c, t, Way(root, TRAPFRAME / PGSIZE), 0)
    ensures |c1| >= 2
  {
    hide Way;
    TopTables(t1, root);
    SpentMore(c1, t1, c2, t2, c, t, Way(root, TRAMPOLINE / PGSIZE), Way(root, TRAPFRAME / PGSIZE), 0, 0);
    SpentEnough(c1, t1, c, t, TopWays(root), 0);
  }

  /** All page tables but the one at `root`. */
  ghost function WithoutTable(tables: map<Node, nat>, root: nat): map<Node, nat> {
    map n | n in tables && n.root != root :: tables[n]
  }

  /** Every page of a page table hangs below its root. */
  lemma AllUnderRoot(mem: Memory, tables: map<Node, nat>, root: nat)
    requires Tree(mem, tables, NoNode())
    ensures Pruned(tables, Top(root)) == WithoutTable(tables, root)
  {
    forall m | m in tables
      ensures m.root == root <==> Under(m, Top(root))
    {
      if m.level == 1 {
        assert Parent(m) in tables && Parent(m) == Top(m.root);
      } else if m.level == 0 {
        assert Parent(m) in tables && Parent(Parent(m)) in tables && Parent(Parent(m)) == Top(m.root);
      }
    }
  }

  /** Nothing links to a root. */
  lemma NoHoleAtRoot(mem: Memory, tables: map<Node, nat>, root: nat)
    requires Tree(mem, tables, Top(root))
    ensures Tree(mem, tables, NoNode())
  {
  }

  lemma OutsideIsOthers(mem0: Memory, t0: map<Node, nat>, mem: Memory, tables: map<Node, nat>, root: nat)
    requires SameOutside(mem0, t0, mem, tables, Top(root))
    ensures forall r: nat | r != root :: Space(mem, tables, r) == Space(mem0, t0, r)
  {
    forall r: nat | r != root
      ensures Space(mem, tables, r) == Space(mem0, t0, r)
    {
      forall v: nat | v < VPNS
        ensures Entry(mem, tables, r, v) == Entry(mem0, t0, r, v)
      {
      }
      assert Space(mem, tables, r).Keys == Space(mem0, t0, r).Keys;
    }
  }

  /** A page table that grew and was then removed leaves the others as they were. */
  lemma RemovedAgain(t0: map<Node, nat>, t1: map<Node, nat>, root: nat)
    requires Grown(t0, t1, root) && forall n | n in t0 :: n.root != root
    ensures WithoutTable(t1, root) == t0
  {
  }

  // ---- Growing ----

  datatype Snapshot = Snapshot(mem: Memory, tables: map<Node, nat>, chain: seq<nat>, held: set<nat>)

  /** From `b` to `n` the page table at `root` may have got new table pages and other entries;
      what else there was is as it was. */
  ghost predicate Kept(b: Snapshot, n: Snapshot, root: nat) {
    && Grown(b.tables, n.tables, root) && n.mem.Keys == b.mem.Keys
    && (forall x | x in b.held && x in n.mem :: n.mem[x] == b.mem[x])
    && forall r: nat | r != root :: Space(n.mem, n.tables, r) == Space(b.mem, b.tables, r)
  }

  lemma KeptTwice(b: Snapshot, m: Snapshot, n: Snapshot, root: nat)
    requires Kept(b, m, root) && Kept(m, n, root) && b.held <= m.held
    ensures Kept(b, n, root)
  {
    hide Space;
    forall r: nat | r != root
      ensures Space(n.mem, n.tables, r) == Space(b.mem, b.tables, r)
    {
      assert Space(m.mem, m.tables, r) == Space(b.mem, b.tables, r);
    }
  }

  lemma KeptMem(b: Snapshot, n: Snapshot, root: nat)
    requires Kept(b, n, root)
    ensures Grown(b.tables, n.tables, root) && n.mem.Keys == b.mem.Keys
    ensures forall x | x in b.held && x in n.mem :: n.mem[x] == b.mem[x]
    ensures forall r: nat | r != root :: Space(n.mem, n.tables, r) == Space(b.mem, b.tables, r)
  {
    hide Space;
  }

  /** After NewPage. */
  lemma KeptStart(b: Snapshot, n: Snapshot, root: nat, pa: nat)
    requires n.tables == b.tables && n.mem.Keys == b.mem.Keys && pa !in b.held
    requires SameSpaces(b.mem, b.tables, n.mem, n.tables) && forall x | x in b.mem && x != pa :: n.mem[x] == b.mem[x]
    ensures Kept(b, n, root)
    ensures forall r: nat :: Space(n.mem, n.tables, r) == Space(b.mem, b.tables, r)
  {
    hide Space;
  }

  lemma SpacesOf(b: Snapshot, n: Snapshot)
    requires SameSpaces(b.mem, b.tables, n.mem, n.tables)
    ensures forall r: nat :: Space(n.mem, n.tables, r) == Space(b.mem, b.tables, r)
  {
    hide Space;
  }

  lemma KeptStep(b: Snapshot, n: Snapshot, root: nat)
    requires Grown(b.tables, n.tables, root) && n.mem.Keys == b.mem.Keys
    requires forall x | x in b.held && x in n.mem :: n.mem[x] == b.mem[x]
    requires forall r: nat | r != root :: Space(n.mem, n.tables, r) == Space(b.mem, b.tables, r)
    ensures Kept(b, n, root)
  {
    hide Space;
  }

  lemma NoneLeft(b: Snapshot, root: nat, nodes: set<Node>)
    requires b.chain == []
    ensures Kept(b, b, root) && Lacking(b.chain, b.tables, nodes, 1)
  {
  }

  /** A page was taken, and then table pages for it, or there was no memory for them. */
  lemma PageTaken(b: Snapshot, m: Snapshot, n: Snapshot, nodes: set<Node>, ok: bool)
    requires |b.chain| == |m.chain| + 1 && m.tables == b.tables
    requires if ok then Spent(m.chain, m.tables, n.chain, n.tables, nodes, 0) else Lacking(m.chain, m.tables, nodes, 0)
    ensures if ok then Spent(b.chain, b.tables, n.chain, n.tables, nodes, 1) else Lacking(b.chain, b.tables, nodes, 1)
  {
  }

  /** Pages are unmapped again; the table pages stay. */
  lemma KeptUndone(b: Snapshot, m: Snapshot, n: Snapshot, root: nat)
    requires Kept(b, m, root) && n.tables == m.tables && n.mem.Keys == m.mem.Keys && n.held == b.held
    requires forall x | x in n.held && x in n.mem :: n.mem[x] == m.mem[x]
    requires forall r: nat | r != root :: Space(n.mem, n.tables, r) == Space(m.mem, m.tables, r)
    ensures Kept(b, n, root)
  {
    hide Space;
    forall r: nat | r != root
      ensures Space(n.mem, n.tables, r) == Space(b.mem, b.tables, r)
    {
      assert Space(m.mem, m.tables, r) == Space(b.mem, b.tables, r);
    }
  }

  /** From `b` to `n` pages `first .. first + k` were added to the page table at `root`. */
  ghost predicate Growing(b: Snapshot, n: Snapshot, root: nat, first: nat, k: nat) {
    && Kept(b, n, root) && b.held <= n.held
    && Added(Space(b.mem, b.tables, root), Space(n.mem, n.tables, root), first, k, b.held, n.held)
    && Spent(b.chain, b.tables, n.chain, n.tables, Ways(root, first, k), k)
  }

  lemma GrowingStart(b: Snapshot, root: nat, first: nat)
    ensures Growing(b, b, root, first, 0)
  {
    hide Space, Added;
    AddedNone(Space(b.mem, b.tables, root), first, b.held);
    WaysNext(root, first, 0);
    SpentNothing(b.chain, b.tables, {});
  }

  /** From `b` to `n` mappages has mapped `k` pages from `first` on to the frames from `pa` on. */
  ghost predicate Mapping(b: Snapshot, n: Snapshot, root: nat, first: nat, pa: nat, flags: nat, k: nat)
    requires flags < FLAGS
  {
    && Kept(b, n, root) && n.held == b.held
    && Space(n.mem, n.tables, root) == Mapped(Space(b.mem, b.tables, root), first, pa, flags, k)
    && (forall v | first <= v < first + k :: v !in Space(b.mem, b.tables, root))
    && Spent(b.chain, b.tables, n.chain, n.tables, Ways(root, first, k), 0)
  }

  lemma MappingStart(b: Snapshot, root: nat, first: nat, pa: nat, flags: nat)
    requires flags < FLAGS
    ensures Mapping(b, b, root, first, pa, flags, 0)
  {
    hide Space;
    WaysNext(root, first, 0);
    SpentNothing(b.chain, b.tables, {});
  }

  lemma MappingNext(b: Snapshot, m: Snapshot, n: Snapshot, root: nat, first: nat, pa: nat, flags: nat, k: nat)
    requires flags < FLAGS && Mapping(b, m, root, first, pa, flags, k) && Kept(m, n, root) && n.held == m.held
    requires first + k !in Space(m.mem, m.tables, root)
    requires Space(n.mem, n.tables, root)
               == Space(m.mem, m.tables, root)[first + k := MakePte(pa + k * PGSIZE, flags)]
    requires Spent(m.chain, m.tables, n.chain, n.tables, Way(root, first + k), 0)
    ensures Mapping(b, n, root, first, pa, flags, k + 1)
  {
    hide Space, Kept, Spent, Way, Ways;
    KeptTwice(b, m, n, root);
    MappedAt(Space(b.mem, b.tables, root), first, pa, flags, k, first + k);
    WaysNext(root, first, k);
    SpentMore(b.chain, b.tables, m.chain, m.tables, n.chain, n.tables, Ways(root, first, k), Way(root, first + k),
              0, 0);
  }

  lemma MappingHeld(b: Snapshot, n: Snapshot, root: nat, first: nat, pa: nat, flags: nat, k: nat)
    requires flags < FLAGS && Mapping(b, n, root, first, pa, flags, k)
    ensures Grown(b.tables, n.tables, root) && n.mem.Keys == b.mem.Keys && n.held == b.held
    ensures forall x | x in b.held && x in n.mem :: n.mem[x] == b.mem[x]
    ensures forall r: nat | r != root :: Space(n.mem, n.tables, r) == Space(b.mem, b.tables, r)
    ensures Space(n.mem, n.tables, root) == Mapped(Space(b.mem, b.tables, root), first, pa, flags, k)
    ensures forall v | first <= v < first + k :: v !in Space(b.mem, b.tables, root)
    ensures Spent(b.chain, b.tables, n.chain, n.tables, Ways(root, first, k), 0)
  {
    hide Space, Spent;
  }

  /** The next page is mapped already, or there is no memory for its tables. */
  lemma MappingStops(b: Snapshot, m: Snapshot, n: Snapshot, root: nat, first: nat, pa: nat, flags: nat, k: nat,
                     remap: bool)
    requires flags < FLAGS && Mapping(b, m, root, first, pa, flags, k) && Kept(m, n, root) && n.held == m.held
    requires Space(n.mem, n.tables, root) == Space(m.mem, m.tables, root)
    requires remap <==> first + k in Space(m.mem, m.tables, root)
    requires !remap ==> Lacking(m.chain, m.tables, Way(root, first + k), 0)
    ensures Kept(b, n, root)
    ensures Space(n.mem, n.tables, root) == Mapped(Space(b.mem, b.tables, root), first, pa, flags, k)
    ensures remap <==> first + k in Space(b.mem, b.tables, root)
    ensures !remap ==> Lacking(b.chain, b.tables, Ways(root, first, k + 1), 0)
  {
    hide Space, Kept, Spent, Way, Ways, Lacking;
    KeptTwice(b, m, n, root);
    MappedAt(Space(b.mem, b.tables, root), first, pa, flags, k, first + k);
    if !remap {
      WaysNext(root, first, k);
      LackingMore(b.chain, b.tables, m.chain, m.tables, Ways(root, first, k), Way(root, first + k), 0, 0);
    }
  }

  /** Whoever undoes the `k` pages takes away exactly these. */
  lemma GrowingUndone(b: Snapshot, n: Snapshot, root: nat, first: nat, k: nat)
    requires Growing(b, n, root, first, k)
    ensures Kept(b, n, root) && b.held <= n.held
    ensures first + k in Space(n.mem, n.tables, root) ==> first + k in Space(b.mem, b.tables, root)
    ensures var s := Space(n.mem, n.tables, root);
            && Without(s, first, k) == Space(b.mem, b.tables, root) && n.held - FramesOf(s, first, k) == b.held
            && Owned(s, first, k, n.held) && Freeable(s, first, k, n.held)
            && forall v | first <= v < first + k :: v in s
  {
    hide Space, Kept, Spent;
    var s := Space(n.mem, n.tables, root);
    AddedUndone(Space(b.mem, b.tables, root), s, first, k, b.held, n.held);
    assert first + k in s ==> first + k in Without(s, first, k);
  }

  /** One page more, in frame `pa`. */
  lemma GrowingNext(b: Snapshot, m: Snapshot, n: Snapshot, root: nat, first: nat, k: nat, pa: nat, flags: nat)
    requires Growing(b, m, root, first, k) && Kept(m, n, root) && first + k !in Space(m.mem, m.tables, root)
    requires flags < FLAGS && pa !in m.held && pa % PGSIZE == 0 && n.held == m.held + {pa}
    requires Space(n.mem, n.tables, root) == Space(m.mem, m.tables, root)[first + k := MakePte(pa, flags)]
    requires Spent(m.chain, m.tables, n.chain, n.tables, Way(root, first + k), 1)
    ensures Growing(b, n, root, first, k + 1)
  {
    hide Space, Added, Kept, Spent, Way, Ways, MakePte, Grown;
    KeptTwice(b, m, n, root);
    AddedNext(Space(b.mem, b.tables, root), Space(m.mem, m.tables, root), first, k, b.held, m.held, pa, flags);
    WaysNext(root, first, k);
    SpentMore(b.chain, b.tables, m.chain, m.tables, n.chain, n.tables, Ways(root, first, k), Way(root, first + k),
              k, 1);
  }

  /** For the next page memory runs out: there never was enough for `total` pages. */
  lemma TooFew(b: Snapshot, m: Snapshot, root: nat, first: nat, k: nat, total: nat)
    requires Growing(b, m, root, first, k) && Lacking(m.chain, m.tables, Way(root, first + k), 1) && k < total
    ensures |b.chain| < total + |Ways(root, first, total) - b.tables.Keys|
  {
    hide Space, Added, Kept, Way, Ways, Spent;
    WaysNext(root, first, k);
    WaysGrow(root, first, k + 1, total);
    LackingMore(b.chain, b.tables, m.chain, m.tables, Ways(root, first, k), Way(root, first + k), k, 1);
    LackingMono(b.chain, b.tables, Ways(root, first, k + 1), Ways(root, first, total), k + 1, total);
  }

  /** All pages are there. */
  lemma AllThere(b: Snapshot, n: Snapshot, root: nat, first: nat, k: nat)
    requires Growing(b, n, root, first, k)
    ensures Kept(b, n, root)
    ensures Added(Space(b.mem, b.tables, root), Space(n.mem, n.tables, root), first, k, b.held, n.held)
    ensures |b.chain| >= k + |Ways(root, first, k) - b.tables.Keys|
  {
    SpentEnough(b.chain, b.tables, n.chain, n.tables, Ways(root, first, k), k);
  }

  class Machine {
    const lo: nat
    const hi: nat
    var mem: Memory
    var freelist: nat
    ghost var chain: seq<nat>
    ghost var tables: map<Node, nat>
    ghost var held: set<nat>

    /** A page kfree accepts: aligned, and between `end` and PHYSTOP. */
    predicate InPool(pa: nat) {
      pa % PGSIZE == 0 && lo <= pa < hi
    }

    /** Memory is the pool. */
    ghost predicate Pooled(pages: set<nat>) {
      lo > 0 && forall pa :: pa in pages <==> InPool(pa)
    }

    ghost predicate ValidBut(hole: Node)
      reads this
    {
      && Pooled(mem.Keys)
      && Chained(mem, freelist, chain) && Partition(mem.Keys, Elems(chain), Frames(tables), held)
      && Tree(mem, tables, hole)
    }

    ghost predicate Valid()
      reads this
    {
      ValidBut(NoNode()) && Rooted(tables)
    }

    /** `root` is the address of a page table. */
    ghost predicate IsTable(root: nat)
      reads this
    {
      Top(root) in tables && tables[Top(root)] == root
    }

    /** What a change to some table pages and free pages leaves alone. */
    twostate predicate KeepsHeld()
      reads this
    {
      held == old(held) && mem.Keys == old(mem).Keys && forall pa | pa in held && pa in mem :: mem[pa] == old(mem)[pa]
    }

    /** kinit, before freerange: memory is there, and nothing is free yet. */
    constructor (mem: Memory, lo: nat, hi: nat)
      requires lo > 0 && forall pa :: pa in mem <==> pa % PGSIZE == 0 && lo <= pa < hi
      ensures Valid() && this.lo == lo && this.hi == hi && this.mem == mem
      ensures chain == [] && tables == map[] && held == mem.Keys
    {
      this.mem, this.lo, this.hi := mem, lo, hi;
      freelist, chain, tables, held := 0, [], map[], mem.Keys;
      new;
      assert Elems([]) == {} && Frames(map[]) == {};
    }

    /** freerange from `end` to PHYSTOP: every page of the pool is on the free list. */
    method Freerange()
      requires Valid() && tables == map[] && held == mem.Keys && hi % PGSIZE == 0
      modifies this`mem, this`freelist, this`chain, this`held
      ensures Valid() && mem.Keys == old(mem).Keys && Elems(chain) == mem.Keys && held == {}
    {
      hide Tree, Chained, Elems, Frames, Rooted, Partition, Pooled, InPool;
      var p := PagesUp(lo) * PGSIZE;
      PagesFrom(mem.Keys, p);
      while p + PGSIZE <= hi
        invariant Valid() && mem.Keys == old(mem).Keys && p % PGSIZE == 0 && p >= lo
        invariant held == From(mem.Keys, p)
      {
        PagesFrom(mem.Keys, p);
        var ok := Kfree(p, NoNode());
        p := p + PGSIZE;
      }
      PagesFrom(mem.Keys, p);
      AllFree(mem.Keys, Elems(chain), tables);
    }

    ghost function From(pages: set<nat>, p: nat): set<nat> {
      set pa | pa in pages && p <= pa
    }

    lemma PagesFrom(pages: set<nat>, p: nat)
      requires Pooled(pages) && p % PGSIZE == 0 && p >= lo && hi % PGSIZE == 0
      ensures p < lo + PGSIZE ==> From(pages, p) == pages
      ensures p + PGSIZE <= hi ==>
                p in pages && InPool(p) && p in From(pages, p) && From(pages, p + PGSIZE) == From(pages, p) - {p}
      ensures p + PGSIZE > hi ==> From(pages, p) == {}
    {
      forall pa | pa in pages
        ensures (p < pa ==> p + PGSIZE <= pa) && (p < lo + PGSIZE ==> p <= pa) && pa < hi && pa + PGSIZE <= hi
      {
        var x, y, z := pa / PGSIZE, p / PGSIZE, hi / PGSIZE;
        assert pa == x * PGSIZE && p == y * PGSIZE && hi == z * PGSIZE;
      }
    }

    lemma AllFree(pages: set<nat>, free: set<nat>, tables: map<Node, nat>)
      requires Partition(pages, free, Frames(tables), {}) && tables == map[]
      ensures free == pages
    {
      assert Frames(tables) == {};
    }

    lemma InPages(pages: set<nat>, pa: nat)
      requires Pooled(pages)
      ensures InPool(pa) <==> pa in pages
      ensures pa in pages ==> pa % PGSIZE == 0 && pa != 0
    {
    }

    // ---- kalloc.c ----

    /** kalloc: 0 exactly when no page is free. */
    method Kalloc() returns (pa: nat)
      requires Valid()
      modifies this`mem, this`freelist, this`chain, this`held
      ensures Valid() && SameSpaces(old(mem), tables, mem, tables)
      ensures pa == 0 <==> old(chain) == []
      ensures pa == 0 ==> unchanged(this)
      ensures pa != 0 ==>
                && old(chain) == [pa] + chain && held == old(held) + {pa} && pa !in old(held) && pa % PGSIZE == 0
                && mem == old(mem)[pa := Junk(5)] && mem.Keys == old(mem).Keys && pa in mem && pa !in Frames(tables)
    {
      hide Tree, Frames, Elems, Space, Rooted, Partition, Pooled, InPool;
      pa := freelist;
      InPages(mem.Keys, pa);
      if pa != 0 {
        SameKeys(mem, pa, Junk(5));
        ChainPop(mem, mem[pa := Junk(5)], freelist, chain);
        Taken(mem.Keys, Elems(chain), Elems(chain[1..]), Frames(tables), held, pa);
        OutsideTables(mem, mem[pa := Junk(5)], tables, NoNode(), pa);
        freelist := mem[pa][0];
        mem := mem[pa := Junk(5)];
        chain := chain[1..];
        held := held + {pa};
      }
    }

    /** kfree.  `ok` is false where the code panics. */
    method Kfree(pa: nat, ghost hole: Node) returns (ok: bool)
      requires ValidBut(hole) && (pa in held || !InPool(pa))
      modifies this`mem, this`freelist, this`chain, this`held
      ensures ok <==> InPool(pa)
      ensures !ok ==> unchanged(this)
      ensures ok ==>
                && ValidBut(hole) && chain == [pa] + old(chain) && held == old(held) - {pa}
                && mem == old(mem)[pa := Junk(1)[0 := old(freelist)]] && mem.Keys == old(mem).Keys
                && SameSpaces(old(mem), tables, mem, tables)
    {
      if !InPool(pa) {
        return false;
      }
      hide Tree, Chained, Frames, Elems, Space, Rooted, Partition, Pooled, InPool;
      ghost var mem' := mem[pa := Junk(1)[0 := freelist]];
      Given(mem.Keys, Elems(chain), Frames(tables), held, pa);
      ChainPush(mem, mem', freelist, chain, pa);
      OutsideTables(mem, mem', tables, hole, pa);
      mem := mem[pa := Junk(1)[0 := freelist]];
      freelist := pa;
      chain := [pa] + chain;
      held := held - {pa};
      ok := true;
    }

    // ---- vm.c: walk ----

    /** The inner `else` of walk: allocate a table page, zero it and hang it below `n`,
        the table page at `t`, at index `i`. */
    method NewTable(ghost n: Node, t: nat, i: nat) returns (pa: nat)
      requires Valid() && n in tables && tables[n] == t && 0 < n.level && i < ENTRIES && Child(n, i) !in tables
      modifies this`mem, this`freelist, this`chain, this`tables, this`held
      ensures Valid() && SameSpaces(old(mem), old(tables), mem, tables) && KeepsHeld()
      ensures pa == 0 ==> unchanged(this) && chain == []
      ensures pa != 0 ==>
                && tables == old(tables)[Child(n, i) := pa]
                && Spent(old(chain), old(tables), chain, tables, {Child(n, i)}, 0)
    {
      hide Tree, Chained, Frames, Elems, Space, Rooted, Partition, Pooled, InPool;
      pa := Kalloc();
      if pa != 0 {
        HangTable(mem, tables, freelist, chain, old(held), n, i, pa);
        mem := mem[pa := ZeroPage()];
        mem := mem[t := mem[t][i := MakePte(pa, PTE_V)]];
        tables := tables[Child(n, i) := pa];
        held := old(held);
        assert tables.Keys - old(tables).Keys == {Child(n, i)};
      }
    }

    /** One level of walk, from the table page at `t` on the way to `vpn`. */
    method WalkLevel(root: nat, vpn: nat, alloc: bool, level: nat, t: nat) returns (next: nat)
      requires Valid() && vpn < VPNS && 0 < level <= 2
      requires OnWay(root, level, vpn) in tables && tables[OnWay(root, level, vpn)] == t
      modifies this`mem, this`freelist, this`chain, this`tables, this`held
      ensures Valid() && KeepsHeld() && Grown(old(tables), tables, root)
      ensures SameSpaces(old(mem), old(tables), mem, tables)
      ensures !alloc ==> unchanged(this)
      ensures next != 0 ==> OnWay(root, level - 1, vpn) in tables && tables[OnWay(root, level - 1, vpn)] == next
      ensures next == 0 ==> OnWay(root, level - 1, vpn) !in tables && (alloc ==> chain == [])
      ensures next != 0 ==> Spent(old(chain), old(tables), chain, tables, {OnWay(root, level - 1, vpn)}, 0)
      ensures next == 0 ==> unchanged(this)
    {
      hide Tree, Chained, Space, Rooted, Partition, Pooled;
      ghost var n := OnWay(root, level, vpn);
      var i := PX(level, vpn);
      WayDown(root, level, vpn);
      StepDown(mem, tables, n, i);
      var pte := mem[t][i];
      if IsValid(pte) {
        next := Pte2Pa(pte);
        TableNotNull(mem, tables, Child(n, i));
        SpentNothing(chain, tables, {Child(n, i)});
      } else if !alloc {
        next := 0;
      } else {
        next := NewTable(n, t, i);
      }
    }

    lemma TableNotNull(mem: Memory, tables: map<Node, nat>, n: Node)
      requires Tree(mem, tables, NoNode()) && Pooled(mem.Keys) && n in tables
      ensures tables[n] != 0
    {
    }

    /** walk: the table page that holds the entry for `vpn`; the entry's index is PX(0, va). */
    method Walk(root: nat, vpn: nat, alloc: bool) returns (ok: bool, t: nat)
      requires Valid() && IsTable(root) && vpn < MAXVPN
      modifies this`mem, this`freelist, this`chain, this`tables, this`held
      ensures Valid() && KeepsHeld() && Grown(old(tables), tables, root)
      ensures SameSpaces(old(mem), old(tables), mem, tables)
      ensures !alloc ==> unchanged(this)
      ensures ok ==> OnWay(root, 0, vpn) in tables && t == tables[OnWay(root, 0, vpn)]
      ensures !ok ==> OnWay(root, 0, vpn) !in tables && (alloc ==> chain == [])
      // With `alloc` it fails exactly if there are fewer free pages than tables missing.
      ensures ok ==> Spent(old(chain), old(tables), chain, tables, Way(root, vpn), 0)
      ensures alloc && !ok ==> Lacking(old(chain), old(tables), Way(root, vpn), 0)
    {
      hide Tree, Chained, Space, Rooted, Partition, Pooled, Spent, Lacking;
      var level := 2;
      t := root;
      WayDown(root, 2, vpn);
      SpentNothing(chain, tables, {});
      while level > 0
        invariant 0 <= level <= 2 && Valid() && KeepsHeld() && Grown(old(tables), tables, root)
        invariant SameSpaces(old(mem), old(tables), mem, tables)
        invariant !alloc ==> unchanged(this)
        invariant OnWay(root, level, vpn) in tables && t == tables[OnWay(root, level, vpn)]
        invariant Spent(old(chain), old(tables), chain, tables, WayTo(root, vpn, level), 0)
      {
        ghost var mem1, tables1, chain1 := mem, tables, chain;
        var next := WalkLevel(root, vpn, alloc, level, t);
        SpacesChain(old(mem), old(tables), mem1, tables1, mem, tables);
        if next == 0 {
          NothingBelow(mem, tables, root, vpn, level - 1);
          if alloc {
            NoWay(old(chain), old(tables), chain, tables, root, vpn, level);
          }
          return false, 0;
        }
        SpentMore(old(chain), old(tables), chain1, tables1, chain, tables, WayTo(root, vpn, level),
                  {OnWay(root, level - 1, vpn)}, 0, 0);
        assert WayTo(root, vpn, level) + {OnWay(root, level - 1, vpn)} == WayTo(root, vpn, level - 1);
        t := next;
        level := level - 1;
      }
      ok := true;
    }

    ghost function WayTo(root: nat, vpn: nat, level: nat): set<Node>
      requires level <= 2
    {
      if level == 2 then {} else if level == 1 then {OnWay(root, 1, vpn)} else Way(root, vpn)
    }

    lemma NoWay(c0: seq<nat>, t0: map<Node, nat>, c: seq<nat>, t: map<Node, nat>, root: nat, vpn: nat, level: nat)
      requires 0 < level <= 2 && c == [] && OnWay(root, level - 1, vpn) !in t
      requires Spent(c0, t0, c, t, WayTo(root, vpn, level), 0)
      ensures Lacking(c0, t0, Way(root, vpn), 0)
    {
      var node := OnWay(root, level - 1, vpn);
      assert {node} - t.Keys == {node};
      LackingMore(c0, t0, c, t, WayTo(root, vpn, level), {node}, 0, 0);
      LackingMono(c0, t0, WayTo(root, vpn, level) + {node}, Way(root, vpn), 0, 0);
    }

    lemma NothingBelow(mem: Memory, tables: map<Node, nat>, root: nat, vpn: nat, level: nat)
      requires Tree(mem, tables, NoNode()) && vpn < VPNS && level < 2
      ensures OnWay(root, level, vpn) !in tables ==> OnWay(root, 0, vpn) !in tables
    {
      if level == 1 {
        assert Parent(OnWay(root, 0, vpn)) == OnWay(root, 1, vpn);
      }
    }

    /** Every other address space is as it was. */
    twostate predicate OtherSpaces(root: nat)
      reads this
    {
      forall r: nat | r != root :: Space(mem, tables, r) == Space(old(mem), old(tables), r)
    }

    // ---- vm.c: mappages, uvmunmap ----

    /** One round of mappages.  `ok` is false without memory, `remap` is true where it panics
        because the page is mapped. */
    method MapPage(root: nat, vpn: nat, pa: nat, perm: nat) returns (ok: bool, remap: bool)
      requires Valid() && IsTable(root) && vpn < MAXVPN && perm < FLAGS && IsLeaf(perm)
      modifies this`mem, this`freelist, this`chain, this`tables, this`held
      ensures Valid() && IsTable(root) && KeepsHeld() && Grown(old(tables), tables, root) && OtherSpaces(root)
      ensures remap <==> vpn in Space(old(mem), old(tables), root)
      ensures remap ==> !ok
      ensures ok ==> Space(mem, tables, root) == Space(old(mem), old(tables), root)[vpn := MakePte(pa, WithValid(perm))]
      ensures !ok ==> Space(mem, tables, root) == Space(old(mem), old(tables), root)
      ensures !ok && !remap ==> chain == []
      ensures ok ==> Spent(old(chain), old(tables), chain, tables, Way(root, vpn), 0)
      ensures !ok && !remap ==> Lacking(old(chain), old(tables), Way(root, vpn), 0)
    {
      hide Tree, Chained, Space, Rooted, Partition, Pooled, Frames, Elems, Spent, Lacking;
      var t;
      ok, t := Walk(root, vpn, true);
      EntryOfSpace(mem, tables, root, vpn);
      remap := false;
      if ok {
        if IsValid(mem[t][PX(0, vpn)]) {
          return false, true;
        }
        LeafPte(pa, perm);
        StoreEntry(mem, tables, freelist, chain, held, root, vpn, MakePte(pa, WithValid(perm)));
        mem := mem[t := mem[t][PX(0, vpn) := MakePte(pa, WithValid(perm))]];
      }
    }

    lemma LeafPte(pa: nat, perm: nat)
      requires perm < FLAGS && IsLeaf(perm)
      ensures IsValid(MakePte(pa, WithValid(perm))) && IsLeaf(MakePte(pa, WithValid(perm)))
    {
      FlagBits(pa / PGSIZE, WithValid(perm));
    }

    /** mappages.  It stops at a page that is mapped, where it panics, or when memory runs out;
        the pages it has mapped stay mapped. */
    method Mappages(root: nat, va: nat, size: nat, pa0: nat, perm: nat) returns (ok: bool, remap: bool, ghost done: nat)
      requires Valid() && IsTable(root) && size > 0 && va + size <= MAXVPN * PGSIZE && perm < FLAGS && IsLeaf(perm)
      modifies this`mem, this`freelist, this`chain, this`tables, this`held
      ensures Valid() && IsTable(root) && KeepsHeld() && Grown(old(tables), tables, root) && OtherSpaces(root)
      ensures Space(mem, tables, root) == Mapped(Space(old(mem), old(tables), root), va / PGSIZE, pa0,
                WithValid(perm), done)
      ensures done <= (va + size - 1) / PGSIZE - va / PGSIZE + 1
      ensures ok <==> done == (va + size - 1) / PGSIZE - va / PGSIZE + 1
      // Only pages that were not mapped are mapped, and only a mapped page is a panic.
      ensures forall v | va / PGSIZE <= v < va / PGSIZE + done :: v !in Space(old(mem), old(tables), root)
      ensures remap <==> !ok && va / PGSIZE + done in Space(old(mem), old(tables), root)
      // Memory runs out exactly if there are fewer free pages than tables missing.
      ensures ok ==> Spent(old(chain), old(tables), chain, tables, Ways(root, va / PGSIZE, done), 0)
      ensures !ok && !remap ==> chain == [] && Lacking(old(chain), old(tables), Ways(root, va / PGSIZE, done + 1), 0)
    {
      hide Tree, Chained, Space, Rooted, Partition, Pooled, Frames, Elems, Kept, Mapping, Spent, Lacking, Way, Ways;
      var a, last := va / PGSIZE * PGSIZE, (va + size - 1) / PGSIZE * PGSIZE;
      var pa := pa0;
      ghost var b, first, flags := Now(), va / PGSIZE, WithValid(perm);
      done := 0;
      MappingStart(b, root, first, pa0, flags);
      while true
        invariant a == (first + done) * PGSIZE && pa == pa0 + done * PGSIZE && a <= last
        invariant Valid() && IsTable(root) && Mapping(b, Now(), root, first, pa0, flags, done)
        decreases last - a
      {
        ghost var m := Now();
        ok, remap := MapPage(root, a / PGSIZE, pa, perm);
        KeptStep(m, Now(), root);
        if !ok {
          MappingStops(b, m, Now(), root, first, pa0, flags, done, remap);
          KeptMem(b, Now(), root);
          MappingHeld(b, m, root, first, pa0, flags, done);
          return;
        }
        MappingNext(b, m, Now(), root, first, pa0, flags, done);
        done := done + 1;
        if a == last {
          MappingHeld(b, Now(), root, first, pa0, flags, done);
          return;
        }
        a := a + PGSIZE;
        pa := pa + PGSIZE;
      }
    }

    /** mappages of a single page that is not mapped. */
    method MapOne(root: nat, vpn: nat, pa: nat, perm: nat) returns (ok: bool)
      requires Valid() && IsTable(root) && vpn < MAXVPN && perm < FLAGS && IsLeaf(perm)
      requires vpn !in Space(mem, tables, root)
      modifies this`mem, this`freelist, this`chain, this`tables, this`held
      ensures Valid() && IsTable(root) && KeepsHeld() && Grown(old(tables), tables, root) && OtherSpaces(root)
      ensures var s := Space(old(mem), old(tables), root);
              Space(mem, tables, root) == if ok then s[vpn := MakePte(pa, WithValid(perm))] else s
      ensures ok ==> Spent(old(chain), old(tables), chain, tables, Way(root, vpn), 0)
      ensures !ok ==> chain == [] && Lacking(old(chain), old(tables), Way(root, vpn), 0)
    {
      hide Tree, Chained, Space, Rooted, Partition, Pooled, Frames, Elems, Mapped, Spent, Lacking, Way, Ways;
      WaysNext(root, vpn, 0);
      assert {} + Way(root, vpn) == Way(root, vpn);
      assert vpn * PGSIZE / PGSIZE == vpn && (vpn * PGSIZE + PGSIZE - 1) / PGSIZE == vpn;
      var remap; ghost var done;
      OneMapped(Space(mem, tables, root), vpn, pa, WithValid(perm));
      ok, remap, done := Mappages(root, vpn * PGSIZE, PGSIZE, pa, perm);
    }

    lemma OneMapped(s: map<nat, nat>, first: nat, pa: nat, flags: nat)
      requires flags < FLAGS
      ensures Mapped(s, first, pa, flags, 0) == s && Mapped(s, first, pa, flags, 1) == s[first := MakePte(pa, flags)]
    {
    }

    /** One round of uvmunmap.  `ok` is false where it panics: there is no entry, it is not
        valid, or it is not a leaf, which it always is. */
    method UnmapPage(root: nat, vpn: nat, doFree: bool) returns (ok: bool)
      requires Valid() && IsTable(root) && vpn < MAXVPN
      requires doFree && vpn in Space(mem, tables, root) ==> Pte2Pa(Space(mem, tables, root)[vpn]) in held
      modifies this`mem, this`freelist, this`chain, this`tables, this`held
      ensures ok <==> vpn in Space(old(mem), old(tables), root)
      ensures !ok ==> unchanged(this)
      ensures Valid() && tables == old(tables) && OtherSpaces(root) && mem.Keys == old(mem).Keys
      ensures ok ==>
                && Space(mem, tables, root) == Space(old(mem), old(tables), root) - {vpn}
                && held == if doFree then old(held) - {Pte2Pa(Space(old(mem), old(tables), root)[vpn])} else old(held)
      ensures forall pa | pa in held && pa in mem :: mem[pa] == old(mem)[pa]
    {
      hide Tree, Chained, Space, Rooted, Partition, Pooled, Frames, Elems;
      EntryOfSpace(mem, tables, root, vpn);
      var found, t := Walk(root, vpn, false);
      if !found {
        return false;
      }
      if !IsValid(mem[t][PX(0, vpn)]) {
        return false;
      }
      if PteFlags(mem[t][PX(0, vpn)]) == PTE_V {
        LeafFlags(mem[t][PX(0, vpn)]);
        return false;
      }
      if doFree {
        var pa := Pte2Pa(mem[t][PX(0, vpn)]);
        HeldInPages(pa);
        ok := Kfree(pa, NoNode());
        EntryOfSpace(mem, tables, root, vpn);
      }
      StoreEntry(mem, tables, freelist, chain, held, root, vpn, 0);
      mem := mem[t := mem[t][PX(0, vpn) := 0]];
      ok := true;
    }

    lemma FlagsPart(q: nat, f: nat)
      requires f < FLAGS
      ensures (q * FLAGS + f) / 2 % 8 == f / 2 % 8
    {
      assert q * FLAGS + f == 2 * (q * (FLAGS / 2)) + f;
      assert (q * FLAGS + f) / 2 == 8 * (q * 64) + f / 2;
    }

    lemma LeafFlags(pte: nat)
      requires IsLeaf(pte)
      ensures PteFlags(pte) != PTE_V
    {
      FlagsPart(pte / FLAGS, pte % FLAGS);
    }

    lemma HeldInPages(pa: nat)
      requires Valid() && pa in held
      ensures pa in mem && InPool(pa)
    {
    }

    /** uvmunmap of `n` pages from `va`.  `ok` is false where it panics, which it does exactly for
        a misaligned address or a page that is not mapped, the first one it comes to. */
    method Uvmunmap(root: nat, va: nat, n: nat, doFree: bool) returns (ok: bool, ghost done: nat)
      requires Valid() && IsTable(root) && va / PGSIZE + n <= MAXVPN
      requires doFree ==> Freeable(Space(mem, tables, root), va / PGSIZE, n, held)
      modifies this`mem, this`freelist, this`chain, this`tables, this`held
      ensures ok <==>
                && va % PGSIZE == 0
                && forall v | va / PGSIZE <= v < va / PGSIZE + n :: v in Space(old(mem), old(tables), root)
      ensures done <= n && (ok ==> done == n)
      ensures !ok && va % PGSIZE == 0 ==> done < n && va / PGSIZE + done !in Space(old(mem), old(tables), root)
      ensures Valid() && tables == old(tables) && OtherSpaces(root) && mem.Keys == old(mem).Keys
      ensures forall v | va / PGSIZE <= v < va / PGSIZE + done :: v in Space(old(mem), old(tables), root)
      ensures Space(mem, tables, root) == Without(Space(old(mem), old(tables), root), va / PGSIZE, done)
      ensures held == if doFree then old(held) - FramesOf(Space(old(mem), old(tables), root), va / PGSIZE, done)
                else old(held)
      ensures forall pa | pa in held && pa in mem :: mem[pa] == old(mem)[pa]
    {
      hide Tree, Chained, Space, Rooted, Partition, Pooled, Frames, Elems, Freeable;
      ghost var s := Space(mem, tables, root);
      ghost var first := va / PGSIZE;
      done := 0;
      assert Without(s, first, 0) == s;
      assert FramesOf(s, first, 0) == {};
      if va % PGSIZE != 0 {
        return false, 0;
      }
      var a := va;
      while a < va + n * PGSIZE
        invariant done <= n && a == va + done * PGSIZE
        invariant Valid() && tables == old(tables) && OtherSpaces(root) && mem.Keys == old(mem).Keys
        invariant forall v | first <= v < first + done :: v in s
        invariant Space(mem, tables, root) == Without(s, first, done)
        invariant held == if doFree then old(held) - FramesOf(s, first, done) else old(held)
        invariant forall pa | pa in held && pa in mem :: mem[pa] == old(mem)[pa]
      {
        hide Without, FramesOf;
        UnmapNext(s, first, n, done, old(held), doFree);
        assert a / PGSIZE == first + done;
        ok := UnmapPage(root, a / PGSIZE, doFree);
        if !ok {
          return;
        }
        a, done := a + PGSIZE, done + 1;
      }
      ok := true;
    }

    // ---- vm.c: growing, shrinking and copying ----

    /** memset or memmove into a page the caller holds. */
    method FillPage(pa: nat, p: Page)
      requires Valid() && pa in held
      modifies this`mem
      ensures Valid() && mem == old(mem)[pa := p] && mem.Keys == old(mem).Keys && pa in mem
      ensures SameSpaces(old(mem), tables, mem, tables)
    {
      hide Tree, Chained, Space, Rooted, Pooled, Frames, Elems;
      SameKeys(mem, pa, p);
      OutsideTables(mem, mem[pa := p], tables, NoNode(), pa);
      ChainFrame(mem, mem[pa := p], freelist, chain);
      mem := mem[pa := p];
    }

    /** uvmdealloc: the pages between the two sizes go, with their frames. */
    method Uvmdealloc(root: nat, oldsz: nat, newsz: nat) returns (sz: nat)
      requires Valid() && IsTable(root) && PagesUp(oldsz) <= MAXVPN
      requires newsz < oldsz ==> Owned(Space(mem, tables, root), PagesUp(newsz), PagesUp(oldsz) - PagesUp(newsz), held)
      modifies this`mem, this`freelist, this`chain, this`tables, this`held
      ensures Valid() && tables == old(tables) && OtherSpaces(root) && mem.Keys == old(mem).Keys
      ensures sz == if newsz < oldsz then newsz else oldsz
      ensures newsz >= oldsz ==> unchanged(this)
      ensures newsz < oldsz ==>
                var n := PagesUp(oldsz) - PagesUp(newsz); var s := Space(old(mem), old(tables), root);
                && Space(mem, tables, root) == Without(s, PagesUp(newsz), n)
                && held == old(held) - FramesOf(s, PagesUp(newsz), n)
      ensures forall pa | pa in held && pa in mem :: mem[pa] == old(mem)[pa]
    {
      hide Tree, Chained, Space, Rooted, Partition, Pooled, Frames, Elems;
      if newsz >= oldsz {
        return oldsz;
      }
      if PagesUp(newsz) < PagesUp(oldsz) {
        assert PagesUp(newsz) * PGSIZE / PGSIZE == PagesUp(newsz);
        var ok; ghost var done;
        ok, done := Uvmunmap(root, PagesUp(newsz) * PGSIZE, PagesUp(oldsz) - PagesUp(newsz), true);
        assert ok;
      } else {
        assert Without(Space(mem, tables, root), PagesUp(newsz), 0) == Space(mem, tables, root);
        assert FramesOf(Space(mem, tables, root), PagesUp(newsz), 0) == {};
      }
      sz := newsz;
    }

    ghost function Now(): Snapshot
      reads this
    {
      Snapshot(mem, tables, chain, held)
    }

    /** A page allocated, filled with `p` and mapped at `vpn`; undone if either step fails. */
    method AddPage(root: nat, vpn: nat, perm: nat, p: Page) returns (pa: nat)
      requires Valid() && IsTable(root) && vpn < MAXVPN && vpn !in Space(mem, tables, root)
      requires perm < FLAGS && IsLeaf(perm)
      modifies this`mem, this`freelist, this`chain, this`tables, this`held
      ensures Valid() && IsTable(root) && Kept(old(Now()), Now(), root)
      ensures pa == 0 ==> held == old(held) && Space(mem, tables, root) == Space(old(mem), old(tables), root)
      ensures pa != 0 ==> Spent(old(chain), old(tables), chain, tables, Way(root, vpn), 1)
      ensures pa == 0 ==> Lacking(old(chain), old(tables), Way(root, vpn), 1)
      ensures pa != 0 ==>
                && held == old(held) + {pa} && pa !in old(held) && pa % PGSIZE == 0 && pa in mem && mem[pa] == p
                && Space(mem, tables, root) == Space(old(mem), old(tables), root)[vpn := MakePte(pa, WithValid(perm))]
    {
      hide Tree, Chained, Space, Rooted, Partition, Pooled, Frames, Elems, Way, Kept, Spent, Lacking, SameSpaces;
      ghost var b := Now();
      pa := NewPage(p);
      if pa == 0 {
        NoneLeft(b, root, Way(root, vpn));
        return;
      }
      KeptStart(b, Now(), root, pa);
      ghost var m := Now();
      var ok := MapOne(root, vpn, pa, perm);
      KeptStep(m, Now(), root);
      KeptTwice(b, m, Now(), root);
      PageTaken(b, m, Now(), Way(root, vpn), ok);
      if !ok {
        ghost var n := Now();
        HeldInPages(pa);
        ok := Kfree(pa, NoNode());
        SpacesOf(n, Now());
        KeptUndone(b, n, Now(), root);
        pa := 0;
      }
    }

    /** kalloc, and the page filled. */
    method NewPage(p: Page) returns (pa: nat)
      requires Valid()
      modifies this`mem, this`freelist, this`chain, this`held
      ensures Valid() && SameSpaces(old(mem), tables, mem, tables)
      ensures pa == 0 ==> unchanged(this) && chain == []
      ensures pa != 0 ==>
                && old(chain) == [pa] + chain && held == old(held) + {pa} && pa !in old(held) && pa % PGSIZE == 0
                && mem.Keys == old(mem).Keys && pa in mem && mem[pa] == p && pa !in Frames(tables)
                && forall x | x in mem && x != pa :: mem[x] == old(mem)[x]
    {
      hide Tree, Chained, Space, Rooted, Partition, Pooled, Frames, Elems;
      pa := Kalloc();
      if pa != 0 {
        ghost var mem1 := mem;
        FillPage(pa, p);
        SpacesChain(old(mem), tables, mem1, tables, mem, tables);
      }
    }

    /** One round of uvmalloc or uvmcopy: the next page, filled with `p`.  If it cannot be had,
        there was not enough memory for `n` pages from the start. */
    method GrowOne(ghost b: Snapshot, root: nat, ghost first: nat, ghost k: nat, ghost n: nat, vpn: nat, perm: nat,
                   p: Page) returns (pa: nat)
      requires Valid() && IsTable(root) && Growing(b, Now(), root, first, k)
      requires vpn == first + k < MAXVPN && k < n && vpn !in Space(mem, tables, root) && perm < FLAGS && IsLeaf(perm)
      modifies this`mem, this`freelist, this`chain, this`tables, this`held
      ensures Valid() && IsTable(root) && Kept(old(Now()), Now(), root)
      ensures pa == 0 ==>
                && held == old(held) && Space(mem, tables, root) == Space(old(mem), old(tables), root)
                && |b.chain| < n + |Ways(root, first, n) - b.tables.Keys|
      ensures pa != 0 ==>
                && Growing(b, Now(), root, first, k + 1)
                && pa !in old(held) && pa % PGSIZE == 0 && pa in mem && mem[pa] == p
                && Space(mem, tables, root) == Space(old(mem), old(tables), root)[vpn := MakePte(pa, WithValid(perm))]
    {
      hide Tree, Chained, Space, Rooted, Partition, Pooled, Frames, Elems, Growing, Kept, Spent, Lacking, Ways, Way;
      ghost var was := Now();
      pa := AddPage(root, vpn, perm, p);
      if pa == 0 {
        TooFew(b, was, root, first, k, n);
      } else {
        GrowingNext(b, was, Now(), root, first, k, pa, WithValid(perm));
      }
    }

    /** uvmalloc: on success the pages between the two sizes are there, zeroed, in frames
        that nobody held; on failure nothing that was there before has changed. */
    method Uvmalloc(root: nat, oldsz: nat, newsz: nat, xperm: nat) returns (sz: nat, ghost ok: bool)
      requires Valid() && IsTable(root) && PagesUp(newsz) <= MAXVPN && xperm in {0, PTE_W, PTE_X, PTE_W + PTE_X}
      requires forall v | PagesUp(oldsz) <= v < PagesUp(newsz) :: v !in Space(mem, tables, root)
      modifies this`mem, this`freelist, this`chain, this`tables, this`held
      ensures Valid() && IsTable(root) && Grown(old(tables), tables, root) && OtherSpaces(root)
      ensures forall a | a in old(held) && a in mem && a in old(mem) :: mem[a] == old(mem)[a]
      ensures sz == if !ok then 0 else if newsz < oldsz then oldsz else newsz
      ensures newsz <= oldsz ==> unchanged(this) && ok
      // It fails exactly if there are not enough free pages for the new pages and for the
      // tables missing on the ways to them.
      ensures newsz > oldsz ==>
                (ok <==> |old(chain)| >= PagesUp(newsz) - PagesUp(oldsz)
                           + |Ways(root, PagesUp(oldsz), PagesUp(newsz) - PagesUp(oldsz)) - old(tables).Keys|)
      ensures !ok ==> Space(mem, tables, root) == Space(old(mem), old(tables), root) && held == old(held)
      ensures ok && newsz > oldsz ==>
                var first := PagesUp(oldsz); var n := PagesUp(newsz) - first;
                && Added(Space(old(mem), old(tables), root), Space(mem, tables, root), first, n, old(held), held)
                && Zeroed(Space(mem, tables, root), first, n, PTE_R + PTE_U + xperm + PTE_V, mem)
    {
      hide Tree, Chained, Space, Rooted, Partition, Pooled, Frames, Elems, Growing, Kept, Added, Zeroed, Owned,
        Freeable, Ways, Without, FramesOf;
      ok := true;
      if newsz < oldsz {
        return oldsz, true;
      }
      ghost var b, first := Now(), PagesUp(oldsz);
      var perm := PTE_R + PTE_U + xperm;
      UserPerm(xperm);
      var from := PagesUp(oldsz) * PGSIZE;
      var a := from;
      ghost var k := 0;
      GrowingStart(b, root, first);
      NoneZeroed(Space(mem, tables, root), first, perm + PTE_V, mem);
      while a < newsz
        invariant a == (first + k) * PGSIZE && (k == 0 || first + k <= PagesUp(newsz))
        invariant Valid() && IsTable(root) && Growing(b, Now(), root, first, k)
        invariant Zeroed(Space(mem, tables, root), first, k, perm + PTE_V, mem)
        invariant k == 0 ==> unchanged(this)
      {
        ghost var was, s1 := Now(), Space(mem, tables, root);
        GrowingUndone(b, was, root, first, k);
        assert a / PGSIZE == first + k;
        var pa := GrowOne(b, root, first, k, PagesUp(newsz) - first, a / PGSIZE, perm, ZeroPage());
        if pa == 0 {
          assert PagesUp(a) == first + k && PagesUp(first * PGSIZE) == first;
          KeptTwice(b, was, Now(), root);
          ghost var m := Now();
          var undone := Uvmdealloc(root, a, from);
          KeptUndone(b, m, Now(), root);
          KeptMem(b, Now(), root);
          return 0, false;
        }
        KeptMem(was, Now(), root);
        ZeroedNext(s1, first, k, perm + PTE_V, was.mem, mem, was.held, pa);
        a, k := a + PGSIZE, k + 1;
      }
      AllThere(b, Now(), root, first, k);
      KeptMem(b, Now(), root);
      sz := newsz;
    }

    lemma UserPerm(xperm: nat)
      requires xperm in {0, PTE_W, PTE_X, PTE_W + PTE_X}
      ensures IsLeaf(PTE_R + PTE_U + xperm) && WithValid(PTE_R + PTE_U + xperm) == PTE_R + PTE_U + xperm + PTE_V < FLAGS
    {
    }

    lemma NoneZeroed(s: map<nat, nat>, first: nat, flags: nat, mem: Memory)
      ensures Zeroed(s, first, 0, flags, mem) && Copied(s, s, 0, mem)
    {
    }

    /** walk without allocation on a page that is mapped: its entry. */
    method Lookup(root: nat, vpn: nat) returns (pte: nat)
      requires Valid() && IsTable(root) && vpn < MAXVPN && vpn in Space(mem, tables, root)
      modifies this`mem, this`freelist, this`chain, this`tables, this`held
      ensures unchanged(this) && pte == Space(mem, tables, root)[vpn] && IsValid(pte) && IsLeaf(pte)
    {
      hide Tree, Chained, Space, Rooted, Partition, Pooled, Frames, Elems;
      var ok, t := Walk(root, vpn, false);
      EntryOfSpace(mem, tables, root, vpn);
      pte := mem[t][PX(0, vpn)];
    }

    /** uvmcopy: on success the child has the parent's pages, byte for byte and flag for
        flag, in frames of its own; on failure both are as before. */
    method Uvmcopy(parent: nat, child: nat, sz: nat) returns (ok: bool)
      requires Valid() && IsTable(parent) && IsTable(child) && parent != child && PagesUp(sz) <= MAXVPN
      requires Owned(Space(mem, tables, parent), 0, PagesUp(sz), held)
      requires forall v | 0 <= v < PagesUp(sz) :: v !in Space(mem, tables, child)
      modifies this`mem, this`freelist, this`chain, this`tables, this`held
      ensures Valid() && IsTable(parent) && IsTable(child) && Grown(old(tables), tables, child) && OtherSpaces(child)
      ensures forall a | a in old(held) && a in mem && a in old(mem) :: mem[a] == old(mem)[a]
      // It fails exactly if there are not enough free pages for the copies and for the tables
      // missing on the ways to them.
      ensures ok <==> |old(chain)| >= PagesUp(sz) + |Ways(child, 0, PagesUp(sz)) - old(tables).Keys|
      ensures !ok ==> Space(mem, tables, child) == Space(old(mem), old(tables), child) && held == old(held)
      ensures ok ==>
                && Added(Space(old(mem), old(tables), child), Space(mem, tables, child), 0, PagesUp(sz), old(held),
                    held)
                && Copied(Space(mem, tables, parent), Space(mem, tables, child), PagesUp(sz), mem)
    {
      hide Tree, Chained, Space, Rooted, Partition, Pooled, Frames, Elems, Growing, Kept, Added, Copied, Owned,
        Freeable, Ways, Without, FramesOf;
      ghost var b, sp, n := Now(), Space(mem, tables, parent), PagesUp(sz);
      var i := 0;
      ghost var k := 0;
      GrowingStart(b, child, 0);
      NoneCopied(sp, Space(mem, tables, child), mem);
      while i < sz
        invariant i == k * PGSIZE && k <= n
        invariant Valid() && IsTable(child) && IsTable(parent) && Growing(b, Now(), child, 0, k)
        invariant Copied(sp, Space(mem, tables, child), k, mem)
      {
        ghost var was, s1 := Now(), Space(mem, tables, child);
        GrowingUndone(b, was, child, 0, k);
        KeptMem(b, was, child);
        assert i / PGSIZE == k;
        OwnedAt(sp, n, b.held, k);
        var pte := Lookup(parent, i / PGSIZE);
        HeldInPages(Pte2Pa(pte));
        FlagsOf(pte);
        var pa := GrowOne(b, child, 0, k, n, i / PGSIZE, PteFlags(pte), mem[Pte2Pa(pte)]);
        if pa == 0 {
          KeptTwice(b, was, Now(), child);
          ghost var m := Now();
          var undone; ghost var done;
          undone, done := Uvmunmap(child, 0, i / PGSIZE, true);
          assert undone;
          KeptUndone(b, m, Now(), child);
          KeptMem(b, Now(), child);
          return false;
        }
        KeptMem(was, Now(), child);
        OwnedMore(sp, 0, n, b.held, was.held);
        CopiedNext(sp, s1, n, k, was.mem, mem, was.held, pa);
        i, k := i + PGSIZE, k + 1;
      }
      AllThere(b, Now(), child, 0, n);
      KeptMem(b, Now(), child);
      ok := true;
    }

    lemma OwnedAt(s: map<nat, nat>, n: nat, held: set<nat>, k: nat)
      requires Owned(s, 0, n, held) && k < n
      ensures k in s && Pte2Pa(s[k]) in held
    {
    }

    lemma FlagsOf(pte: nat)
      requires IsValid(pte) && IsLeaf(pte)
      ensures IsLeaf(PteFlags(pte)) && WithValid(PteFlags(pte)) == PteFlags(pte) < FLAGS
    {
      FlagBits(pte / FLAGS, pte % FLAGS);
    }

    lemma NoneCopied(sp: map<nat, nat>, s: map<nat, nat>, mem: Memory)
      ensures Copied(sp, s, 0, mem)
    {
    }

    // ---- vm.c: freewalk, uvmfree ----

    /** freewalk on the table page `n` at `t`.  `ok` is false where the code panics with
        "freewalk: leaf", which is exactly when some page below is still mapped; otherwise
        `n` and every table page below it are free again, and nothing else is. */
    method Freewalk(ghost n: Node, t: nat) returns (ok: bool)
      requires Valid() && n in tables && tables[n] == t && n.level <= 2
      modifies this`mem, this`freelist, this`chain, this`tables, this`held
      ensures ok <==> !Maps(old(mem), old(tables), n)
      ensures ok ==>
                && ValidBut(n) && Rooted(tables) && tables == Pruned(old(tables), n) && KeepsHeld()
                && SameOutside(old(mem), old(tables), mem, tables, n)
                && forall m | m in tables && tables[m] in mem && tables[m] in old(mem) ::
                    mem[tables[m]] == old(mem)[tables[m]]
      decreases n.level, 2
    {
      hide Tree, Chained, Space, Rooted, Partition, Pooled, Frames, Elems, Freeing;
      Levels(mem, tables);
      FreeingStart(mem, tables, n);
      var i := 0;
      while i < ENTRIES
        invariant 0 <= i <= ENTRIES && Valid() && KeepsHeld() && n in tables && tables[n] == t
        invariant Freeing(old(mem), old(tables), mem, tables, n, i)
        decreases ENTRIES - i
      {
        ok := FreeEntry(n, t, i, old(mem), old(tables));
        if !ok {
          return;
        }
        i := i + 1;
      }
      FreeingEnd(old(mem), old(tables), mem, tables, n);
      ReleaseTable(mem, tables, chain, held, n);
      ghost var mem1, tables1 := mem, tables;
      tables := tables - {n};
      held := held + {t};
      InPages(mem.Keys, t);
      ok := Kfree(t, n);
      EndOutside(old(mem), old(tables), mem1, tables1, mem, tables, n);
    }

    /** One round of freewalk. */
    method FreeEntry(ghost n: Node, t: nat, i: nat, ghost mem0: Memory, ghost t0: map<Node, nat>) returns (ok: bool)
      requires Valid() && n in tables && tables[n] == t && n.level <= 2 && i < ENTRIES
      requires Freeing(mem0, t0, mem, tables, n, i) && Tree(mem0, t0, NoNode())
      modifies this`mem, this`freelist, this`chain, this`tables, this`held
      ensures ok ==>
                && Valid() && KeepsHeld() && n in tables && tables[n] == t
                && Freeing(mem0, t0, mem, tables, n, i + 1)
      ensures !ok ==> Maps(mem0, t0, n)
      decreases n.level, 1
    {
      hide Chained, Space, Rooted, Partition, Pooled, Frames, Elems, Freeing;
      var pte := mem[t][i];
      if n.level > 0 {
        StepDown(mem, tables, n, i);
      }
      if IsValid(pte) && !IsLeaf(pte) {
        ok := FreeChild(n, t, i, mem0, t0);
      } else if IsValid(pte) {
        LeafMaps(mem0, t0, mem, tables, n, i);
        return false;
      } else {
        ok := true;
        if n.level == 0 {
          FreeingSkipLeaf(mem0, t0, mem, tables, n, i);
        } else {
          NothingAt(mem, tables, Child(n, i));
          FreeingNext(mem0, t0, mem, tables, mem, tables, n, i);
        }
      }
    }

    /** A valid entry that is not a leaf: `freewalk(child); pagetable[i] = 0;` */
    method FreeChild(ghost n: Node, t: nat, i: nat, ghost mem0: Memory, ghost t0: map<Node, nat>) returns (ok: bool)
      requires Valid() && n in tables && tables[n] == t && 0 < n.level <= 2 && i < ENTRIES
      requires Freeing(mem0, t0, mem, tables, n, i) && Tree(mem0, t0, NoNode())
      requires t in mem && IsValid(mem[t][i])
      modifies this`mem, this`freelist, this`chain, this`tables, this`held
      ensures ok ==>
                && Valid() && KeepsHeld() && n in tables && tables[n] == t
                && Freeing(mem0, t0, mem, tables, n, i + 1)
      ensures !ok ==> Maps(mem0, t0, n)
      decreases n.level, 0
    {
      hide Chained, Space, Tree, Rooted, Partition, Pooled, Frames, Elems, Freeing, Maps;
      StepDown(mem, tables, n, i);
      ghost var mem1, t1 := mem, tables;
      var child := Pte2Pa(mem[t][i]);
      ChildMaps(mem0, t0, mem, tables, n, i);
      ok := Freewalk(Child(n, i), child);
      if ok {
        ChildGone(t1, n, i);
        CloseEntry(mem, tables, freelist, chain, held, n, i);
        mem := mem[t := mem[t][i := 0]];
        NotMapped(mem1, t1, Child(n, i));
        Levels(mem0, t0);
        FreeingNext(mem0, t0, mem1, t1, mem, tables, n, i);
      }
    }

    /** uvmcreate: an empty page table. */
    method Uvmcreate() returns (root: nat)
      requires Valid()
      modifies this`mem, this`freelist, this`chain, this`tables, this`held
      ensures Valid() && KeepsHeld()
      ensures root == 0 <==> old(chain) == []
      ensures root == 0 ==> unchanged(this)
      ensures root != 0 ==>
                && old(chain) == [root] + chain
                && IsTable(root) && tables == old(tables)[Top(root) := root] && Space(mem, tables, root) == map[]
                && SameSpaces(old(mem), old(tables), mem, tables) && forall n | n in old(tables) :: n.root != root
    {
      hide Tree, Chained, Space, Partition, Pooled, Frames, Elems;
      root := Kalloc();
      if root != 0 {
        ghost var mem1, t1 := mem, tables;
        FillPage(root, ZeroPage());
        AddRoot(mem, tables, root);
        NewRoot(mem.Keys, Elems(chain), tables, old(held), root);
        SpacesChain(old(mem), t1, mem1, t1, mem, t1);
        SpacesChain(old(mem), t1, mem, t1, mem, tables[Top(root) := root]);
        tables := tables[Top(root) := root];
        held := old(held);
      }
    }

    lemma NewRoot(pages: set<nat>, free: set<nat>, tables: map<Node, nat>, held: set<nat>, root: nat)
      requires Partition(pages, free, Frames(tables), held + {root}) && root !in held && Rooted(tables)
      ensures Partition(pages, free, Frames(tables) + {root}, held)
      ensures forall n | n in tables :: n.root != root
    {
      forall n | n in tables
        ensures n.root != root
      {
        assert tables[Top(n.root)] in Frames(tables);
      }
    }

    /** uvmfree of a page table that maps exactly the user pages: its frames and all of its
        table pages are free again.  The leaf panic of freewalk cannot happen. */
    method Uvmfree(root: nat, sz: nat)
      requires Valid() && IsTable(root) && PagesUp(sz) <= MAXVPN
      requires Owned(Space(mem, tables, root), 0, PagesUp(sz), held)
      requires forall v | v in Space(mem, tables, root) :: v < PagesUp(sz)
      modifies this`mem, this`freelist, this`chain, this`tables, this`held
      ensures Valid() && tables == WithoutTable(old(tables), root) && OtherSpaces(root) && mem.Keys == old(mem).Keys
      ensures held == old(held) - FramesOf(Space(old(mem), old(tables), root), 0, PagesUp(sz))
      ensures forall pa | pa in held && pa in mem :: mem[pa] == old(mem)[pa]
    {
      hide Tree, Chained, Space, Partition, Pooled, Frames, Elems;
      ghost var s := Space(mem, tables, root);
      if sz > 0 {
        var unmapped; ghost var done;
        unmapped, done := Uvmunmap(root, 0, PagesUp(sz), true);
        assert unmapped;
      } else {
        assert FramesOf(s, 0, 0) == {};
      }
      assert Space(mem, tables, root) == map[];
      AllUnderRoot(mem, tables, root);
      ghost var mem1, t1 := mem, tables;
      var ok := Freewalk(Top(root), root);
      assert ok;
      NoHoleAtRoot(mem, tables, root);
      OutsideIsOthers(mem1, t1, mem, tables, root);
    }

    /** proc_pagetable: no user memory, the trampoline and the trapframe page on top; or,
        when memory runs out on the way, exactly the tables there were before. */
    method ProcPagetable(trampoline: nat, trapframe: nat) returns (root: nat)
      requires Valid()
      modifies this`mem, this`freelist, this`chain, this`tables, this`held
      ensures Valid() && KeepsHeld()
      // Three pages are needed: the root and the two tables above the two pages mapped.
      ensures root != 0 <==> |old(chain)| >= 3
      ensures root == 0 ==>
                && tables == old(tables)
                && forall r: nat | Top(r) in tables :: Space(mem, tables, r) == Space(old(mem), old(tables), r)
      ensures root != 0 ==>
                && IsTable(root) && OtherSpaces(root)
                && Space(mem, tables, root) == map[TRAMPOLINE / PGSIZE := MakePte(trampoline, PTE_R + PTE_X + PTE_V),
                                                   TRAPFRAME / PGSIZE := MakePte(trapframe, PTE_R + PTE_W + PTE_V)]
    {
      hide Tree, Chained, Space, Partition, Pooled, Frames, Elems, Rooted, Mapped, WithoutTable, MakePte, Spent,
        Lacking, Way;
      root := Uvmcreate();
      if root == 0 {
        return;
      }
      ghost var chain1, tables1 := chain, tables;
      var ok := MapOne(root, TRAMPOLINE / PGSIZE, trampoline, PTE_R + PTE_X);
      ghost var chain2, tables2 := chain, tables;
      if !ok {
        NoTop(chain1, tables1, chain2, tables2, root, false);
        RemovedAgain(old(tables), tables, root);
        Abandon(root, false);
        return 0;
      }
      ok := MapOne(root, TRAPFRAME / PGSIZE, trapframe, PTE_R + PTE_W);
      if !ok {
        NoTop(chain1, tables1, chain2, tables2, root, true);
        RemovedAgain(old(tables), tables, root);
        Abandon(root, true);
        return 0;
      }
      TopThere(chain1, tables1, chain2, tables2, chain, tables, root);
    }

    /** The ways out of proc_pagetable when memory runs out: the trampoline is unmapped, if it
        was mapped, and the tables are freed. */
    method Abandon(root: nat, mapped: bool)
      requires Valid() && IsTable(root)
      requires Space(mem, tables, root).Keys == if mapped then {TRAMPOLINE / PGSIZE} else {}
      modifies this`mem, this`freelist, this`chain, this`tables, this`held
      ensures Valid() && KeepsHeld() && tables == WithoutTable(old(tables), root) && OtherSpaces(root)
    {
      hide Tree, Chained, Space, Partition, Pooled, Frames, Elems, Rooted, WithoutTable;
      if mapped {
        var ok; ghost var done;
        ok, done := Uvmunmap(root, TRAMPOLINE, 1, false);
      }
      Uvmfree(root, 0);
    }

    /** proc_freepagetable: everything the process had comes back to the free list: its
        frames and the pages of its page table, and nothing more. */
    method ProcFreepagetable(root: nat, sz: nat)
      requires Valid() && IsTable(root) && PagesUp(sz) <= TRAPFRAME / PGSIZE
      requires Owned(Space(mem, tables, root), 0, PagesUp(sz), held)
      requires forall v :: v in Space(mem, tables, root) <==>
                 0 <= v < PagesUp(sz) || v == TRAPFRAME / PGSIZE || v == TRAMPOLINE / PGSIZE
      modifies this`mem, this`freelist, this`chain, this`tables, this`held
      ensures Valid() && tables == WithoutTable(old(tables), root) && OtherSpaces(root)
      ensures held == old(held) - FramesOf(Space(old(mem), old(tables), root), 0, PagesUp(sz))
      ensures Elems(chain) == old(Elems(chain)) + (Frames(old(tables)) - Frames(tables))
                              + FramesOf(Space(old(mem), old(tables), root), 0, PagesUp(sz))
      ensures forall pa | pa in held && pa in mem && pa in old(mem) :: mem[pa] == old(mem)[pa]
    {
      hide Tree, Chained, Space, Pooled, Frames, Elems, Owned, FramesOf, Partition, Rooted;
      ghost var s := Space(mem, tables, root);
      var ok; ghost var done;
      ok, done := Uvmunmap(root, TRAMPOLINE, 1, false);
      ok, done := Uvmunmap(root, TRAPFRAME, 1, false);
      SamePages(s, Space(mem, tables, root), PagesUp(sz), held);
      Uvmfree(root, sz);
      FramesOfRest(old(tables), root);
      OwnedHeld(s, PagesUp(sz), old(held));
      AllReturned(mem.Keys, old(Elems(chain)), Frames(old(tables)), old(held), Elems(chain), Frames(tables), held,
                  FramesOf(s, 0, PagesUp(sz)));
    }

    lemma SamePages(s: map<nat, nat>, s': map<nat, nat>, n: nat, held: set<nat>)
      requires Owned(s, 0, n, held) && forall v | 0 <= v < n :: v in s' && s'[v] == s[v]
      ensures Owned(s', 0, n, held) && FramesOf(s', 0, n) == FramesOf(s, 0, n)
    {
      assert forall v | v in s' && 0 <= v < n :: v in s && s'[v] == s[v];
    }

    lemma AllReturned(pages: set<nat>, free: set<nat>, used: set<nat>, held: set<nat>,
                      free': set<nat>, used': set<nat>, held': set<nat>, frames: set<nat>)
      requires Partition(pages, free, used, held) && Partition(pages, free', used', held')
      requires used' <= used && frames <= held && held' == held - frames
      ensures free' == free + (used - used') + frames
    {
    }

    lemma FramesOfRest(tables: map<Node, nat>, root: nat)
      ensures Frames(WithoutTable(tables, root)) <= Frames(tables)
    {
      assert forall n | n in WithoutTable(tables, root) :: WithoutTable(tables, root)[n] == tables[n];
    }

    lemma OwnedHeld(s: map<nat, nat>, n: nat, held: set<nat>)
      requires Owned(s, 0, n, held)
      ensures FramesOf(s, 0, n) <= held
    {
    }
  }
}
