/** malloc, free and morecore of user/umalloc.c.  Addresses and sizes are in units of one
    header; `ptr` and `size` are the fields of the header at each address. */
module Umalloc {
  import opened Blocks
  import opened Counting
  import opened FreeList

  const HEADER: nat := 16
  const INT_LIMIT: nat := 0x8000_0000

  /** `(nbytes + sizeof(Header) - 1)/sizeof(Header) + 1` */
  function Units(nbytes: nat): (n: nat)
    ensures n >= 1 && nbytes <= (n - 1) * HEADER < nbytes + HEADER
  {
    (nbytes + HEADER - 1) / HEADER + 1
  }

  /** What morecore asks sbrk for. */
  function Chunk(nu: nat): nat {
    if nu < 4096 then 4096 else nu
  }

  /** The place after which block `x` belongs. */
  ghost predicate Spot(l: seq<nat>, j: nat, x: nat) {
    j < |l| && l[j] < x && (j + 1 < |l| ==> x < l[j + 1])
  }

  lemma {:induction false} SpotExists(l: seq<nat>, x: nat) returns (j: nat)
    requires Ascending(l) && |l| > 0 && l[0] < x && forall i | 0 <= i < |l| :: l[i] != x
    ensures Spot(l, j, x)
    ensures forall i | 0 <= i <= j :: l[i] < x
    ensures forall i | j < i < |l| :: x < l[i]
  {
    j := 0;
    while j + 1 < |l| && l[j + 1] < x
      invariant j < |l| && l[j] < x
    {
      j := j + 1;
    }
  }

  /** The scan of free stops at place `k`. */
  ghost predicate Stops(l: seq<nat>, k: nat, x: nat)
    requires k < |l|
  {
    (x > l[k] && x < Next(l, k)) || (l[k] >= Next(l, k) && (x > l[k] || x < Next(l, k)))
  }

  /** It stops where the block belongs and nowhere else. */
  lemma SpotStep(l: seq<nat>, k: nat, j: nat, x: nat)
    requires Ascending(l) && k < |l| && Spot(l, j, x) && l[0] < x && forall i | 0 <= i < |l| :: l[i] != x
    ensures Stops(l, k, x) <==> k == j
  {
    assert k < j ==> l[k] < l[j] && l[k + 1] <= l[j];
    assert k > j ==> l[j + 1] <= l[k];
  }

  lemma ListParts(ptr: map<nat, nat>, size: map<nat, nat>, l: seq<nat>)
    requires List(ptr, size, l)
    ensures Ring(ptr, l) && Ascending(l) && Sized(size, l) && |l| > 0
  {
  }

  lemma RingAt(ptr: map<nat, nat>, l: seq<nat>, k: nat)
    requires Ring(ptr, l) && k < |l|
    ensures l[k] in ptr && ptr[l[k]] == Next(l, k)
  {
  }

  lemma NextIsAfter(l: seq<nat>, k: nat)
    requires k < |l|
    ensures Next(l, k) == l[After(|l|, k)]
  {
  }

  /** Steps from place `k` to place `f`, going round. */
  function Dist(n: nat, k: nat, f: nat): nat
    requires k < n && f < n
  {
    if k <= f then f - k else f + n - k
  }

  function After(n: nat, k: nat): (k': nat)
    requires k < n
    ensures k' < n
  {
    if k + 1 < n then k + 1 else 0
  }

  function Before(n: nat, k: nat): (k': nat)
    requires k < n
    ensures k' < n && After(n, k') == k
  {
    if k > 0 then k - 1 else n - 1
  }

  lemma StepCloser(n: nat, k: nat, f: nat)
    requires k < n && f < n
    ensures k != f ==> Dist(n, After(n, k), f) < Dist(n, k, f)
    ensures Before(n, After(n, k)) == k
  {
  }

  lemma SizedAt(size: map<nat, nat>, l: seq<nat>, k: nat)
    requires Sized(size, l) && k < |l|
    ensures l[k] in size
  {
  }

  lemma IsPlace(l: seq<nat>, k: nat, f: nat)
    requires Ascending(l) && k < |l| && f < |l|
    ensures l[k] == l[f] <==> k == f
  {
  }

  /** Some free block has at least `n` units. */
  ghost predicate Fits(free: map<nat, nat>, n: nat) {
    exists h :: h in free && free[h] >= n
  }

  class Heap {
    /** The header `base`, below the heap. */
    const base: nat
    /** Where the heap begins, and how far memory reaches. */
    const start: nat
    const limit: nat
    var ptr: map<nat, nat>
    var size: map<nat, nat>
    var freep: nat
    var brk: nat
    ghost var l: seq<nat>
    ghost var live: map<nat, nat>

    ghost predicate Bounded()
      reads this
    {
      0 < base < start <= brk <= limit && limit <= WORD_LIMIT
    }

    /** The list and the live blocks make up the heap. */
    ghost predicate Listed()
      reads this
    {
      && List(ptr, size, l) && l[0] == base && freep in Elems(l)
      && Covered(FreeOf(size, l), live, start, brk) && LiveSized(size, live)
    }

    ghost predicate Valid()
      reads this
    {
      && Bounded()
      && (freep == 0 ==> live == map[] && brk == start)
      && (freep != 0 ==> Listed())
    }

    constructor (base: nat, start: nat, limit: nat)
      requires 0 < base < start <= limit <= WORD_LIMIT
      ensures Valid() && live == map[] && freep == 0 && this.base == base && this.start == start && this.limit == limit
    {
      this.base, this.start, this.limit := base, start, limit;
      ptr, size, freep, brk, l, live := map[], map[], 0, start, [], map[];
    }

    // ---- free ----

    /** The scanning loop of free: it ends at the one place where block `bp` belongs. */
    method FindSpot(bp: nat) returns (p: nat, ghost j: nat)
      requires Valid() && freep != 0 && bp in live
      ensures Spot(l, j, bp) && p == l[j]
      ensures forall i | 0 <= i < |l| :: l[i] != bp
    {
      hide List, Covered, Elems, LiveSized, Spot, Next;
      SpotFacts(bp);
      ListParts(ptr, size, l);
      j := SpotExists(l, bp);
      p := freep;
      ghost var k: nat := IndexOf(l, freep);
      RingAt(ptr, l, k);
      SpotStep(l, k, j, bp);
      while !(bp > p && bp < ptr[p])
        invariant k < |l| && j < |l| && p == l[k] && p in ptr && ptr[p] == Next(l, k)
        invariant Stops(l, k, bp) <==> k == j
        decreases Dist(|l|, k, j)
      {
        if p >= ptr[p] && (bp > p || bp < ptr[p]) {
          break;
        }
        p := ptr[p];
        NextIsAfter(l, k);
        k := After(|l|, k);
        RingAt(ptr, l, k);
        SpotStep(l, k, j, bp);
      }
    }

    lemma SpotFacts(bp: nat)
      requires Valid() && freep != 0 && bp in live
      ensures l[0] < bp && live[bp] > 0 && bp in size && size[bp] == live[bp]
      ensures forall i | 0 <= i < |l| :: l[i] != bp
      ensures forall i | 0 < i < |l| :: l[i] < bp ==> l[i] + size[l[i]] <= bp
      ensures forall i | 0 < i < |l| :: bp < l[i] ==> bp + size[bp] <= l[i]
    {
      hide Covered, Elems, Sizes;
      LiveInside(FreeOf(size, l), live, start, brk, bp);
      forall i | 0 < i < |l|
        ensures l[i] != bp && (l[i] < bp ==> l[i] + size[l[i]] <= bp) && (bp < l[i] ==> bp + size[bp] <= l[i])
      {
        FreeAt(size, l, i);
        LiveAndFree(FreeOf(size, l), live, start, brk, bp, l[i]);
      }
    }

    /** The first `if` of free: block `bp` is entered after `p`, taking in the next block if
        the two touch.  Only `p` does not point to it yet. */
    method EnterBlock(bp: nat, p: nat, ghost j: nat)
      requires Valid() && freep != 0 && bp in live && Spot(l, j, bp) && p == l[j]
      requires forall i | 0 <= i < |l| :: l[i] != bp
      modifies this`ptr, this`size, this`l, this`live
      ensures Bounded() && bp in ptr && p in ptr && Joining(ptr[p := bp], size, l, j) && l[0] == base && l[j] == p
                && l[j + 1] == bp
      ensures live == old(live) - {bp} && Covered(FreeOf(size, l), live, start, brk) && LiveSized(size, live)
      ensures bp in size && size[bp] >= old(live)[bp]
    {
      hide List, Joining, Covered, FreeOf, InsertAfter, ReplaceAfter, Ring, Ascending, Elems;
      SpotFacts(bp);
      ListParts(ptr, size, l);
      RingAt(ptr, l, j);
      ghost var free, l0 := FreeOf(size, l), l;
      ReleaseCovers(free, live, start, brk, bp);
      live := live - {bp};
      if bp + size[bp] == ptr[p] {
        ghost var y := ptr[p];
        assert j + 1 < |l|;
        RingAt(ptr, l, j + 1);
        FreeAt(size, l, j + 1);
        EnterMerged(ptr, size, l, j, bp);
        JoinCovers(free[bp := size[bp]], live, start, brk, bp);
        TwoUpdates(free, y, bp, size[bp], size[bp] + size[y]);
        l := ReplaceAfter(l, j, bp);
        size := size[bp := size[bp] + size[ptr[p]]];
        ptr := ptr[bp := ptr[ptr[p]]];
      } else {
        Enter(ptr, size, l, j, bp);
        l := InsertAfter(l, j, bp);
        ptr := ptr[bp := ptr[p]];
      }
    }

    lemma TwoUpdates(free: map<nat, nat>, y: nat, x: nat, m: nat, n: nat)
      requires y != x
      ensures (free[x := m] - {y})[x := n] == (free - {y})[x := n]
    {
    }

    /** The second `if` of free: `p` takes `bp` in if they touch, or points to it. */
    method JoinPrevious(bp: nat, p: nat, ghost j: nat) returns (ghost i: nat)
      requires Bounded() && bp in ptr && p in ptr && p in size && bp in size && p < bp
      requires Joining(ptr[p := bp], size, l, j) && l[0] == base && l[j] == p && l[j + 1] == bp
      requires Covered(FreeOf(size, l), live, start, brk) && LiveSized(size, live)
      modifies this`ptr, this`size, this`freep, this`l
      ensures Valid() && freep == p && freep != 0
      ensures 0 < i < |l| && l[i] in size && l[i] <= bp && bp + old(size)[bp] <= l[i] + size[l[i]]
    {
      hide List, Covered, FreeOf, DropAfter, ApartBut, Ring, Ascending;
      FirstIsLeast(l, j);
      FreeAt(size, l, j + 1);
      if j > 0 {
        FreeAt(size, l, j);
      }
      ghost var free := FreeOf(size, l);
      if p + size[p] == bp {
        assert j > 0 by {
          LowestStarts(bp);
        }
        Joined(ptr[p := bp], size, l, j);
        JoinCovers(free, live, start, brk, p);
        assert ptr[p := bp][p := ptr[p := bp][bp]] == ptr[p := ptr[bp]];
        StillLive(free, p);
        l := DropAfter(l, j);
        size := size[p := size[p] + size[bp]];
        ptr := ptr[p := ptr[bp]];
        i := j;
      } else {
        NotJoined(ptr[p := bp], size, l, j);
        ptr := ptr[p := bp];
        i := j + 1;
      }
      InElems(l, j);
      freep := p;
    }

    lemma LowestStarts(bp: nat)
      requires Bounded() && |l| > 0 && Sized(size, l) && l[0] == base
      requires Covered(FreeOf(size, l), live, start, brk) && bp in FreeOf(size, l)
      ensures base + size[l[0]] != bp
    {
      assert (FreeOf(size, l) + live)[bp] > 0;
    }

    lemma StillLive(free: map<nat, nat>, p: nat)
      requires Covered(free, live, start, brk) && p in free
      ensures p !in live
    {
    }

    /** free: the block is free, all other live blocks are as they were, and the block lies
        inside one free block now. */
    method Free(ap: nat) returns (ghost i: nat)
      requires Valid() && ap >= 1 && ap - 1 in live
      modifies this`ptr, this`size, this`freep, this`l, this`live
      ensures Valid() && freep != 0 && live == old(live) - {ap - 1}
      ensures 0 < i < |l| && l[i] in size && l[i] <= ap - 1 && ap - 1 + old(live)[ap - 1] <= l[i] + size[l[i]]
      ensures Sum(FreeOf(size, l)) == Sum(FreeOf(old(size), old(l))) + old(live)[ap - 1]
    {
      hide List, Covered, FreeOf, Elems, Sum, Joining;
      var bp := ap - 1;
      ListParts(ptr, size, l);
      Conserved(FreeOf(size, l), live, start, brk);
      SumMinus(live, bp);
      var p; ghost var j;
      p, j := FindSpot(bp);
      SpotFacts(bp);
      EnterBlock(bp, p, j);
      JoiningParts(ptr[p := bp], size, l, j);
      i := JoinPrevious(bp, p, j);
      Conserved(FreeOf(size, l), live, start, brk);
    }

    lemma JoiningParts(ptr: map<nat, nat>, size: map<nat, nat>, l: seq<nat>, j: nat)
      requires Joining(ptr, size, l, j)
      ensures j + 1 < |l| && l[j] in size && l[j + 1] in size && l[j] < l[j + 1]
    {
    }

    // ---- morecore, malloc ----

    /** morecore.  `given` is sbrk's answer as long as memory does not end; 0 is returned when it
        refuses. */
    method Morecore(nu0: nat, given: bool) returns (p: nat, ghost i: nat)
      requires Valid() && freep != 0 && nu0 > 0 && nu0 * HEADER < INT_LIMIT
      modifies this`ptr, this`size, this`freep, this`brk, this`l, this`live
      ensures Valid() && live == old(live) && freep != 0
      ensures p != 0 <==> given && old(brk) + Chunk(nu0) <= limit
      ensures p == 0 ==> unchanged(this)
      ensures p != 0 ==> p == freep && brk == old(brk) + Chunk(nu0)
      ensures p != 0 ==> 0 < i < |l| && l[i] in size && size[l[i]] >= nu0
    {
      hide List, Covered, FreeOf, Elems;
      ListParts(ptr, size, l);
      var nu := nu0;
      if nu < 4096 {
        nu := 4096;
      }
      if !given || brk + nu > limit {
        return 0, 0;
      }
      var hp := brk;
      GrowCovers(FreeOf(size, l), live, start, brk, nu);
      NewAtEnd(hp, nu);
      brk := brk + nu;
      size := size[hp := nu];
      live := live[hp := nu];
      i := Free(hp + 1);
      assert live == old(live);
      p := freep;
    }

    lemma NewAtEnd(hp: nat, n: nat)
      requires Valid() && freep != 0 && hp == brk && hp !in FreeOf(size, l)
      ensures List(ptr, size[hp := n], l) && FreeOf(size[hp := n], l) == FreeOf(size, l)
    {
      forall k | 0 <= k < |l|
        ensures l[k] != hp
      {
        if k > 0 {
          FreeAt(size, l, k);
        }
      }
      OtherSize(ptr, size, l, hp, n);
    }

    /** The free blocks between freep and place `k`, going round, are too small. */
    ghost predicate Searched(f: nat, k: nat, n: nat)
      reads this
    {
      && f < |l| && k < |l| && Sized(size, l)
      && forall h: nat | h < |l| && Dist(|l|, h, f) > Dist(|l|, k, f) :: size[l[h]] < n
    }

    /** Place `k` is too small as well. */
    lemma SearchedOn(f: nat, k: nat, n: nat)
      requires Searched(f, k, n) && size[l[k]] < n
      ensures k != f ==> Searched(f, After(|l|, k), n)
      ensures k == f ==> forall h: nat | h < |l| :: size[l[h]] < n
    {
      forall h: nat | h < |l| && (k == f || Dist(|l|, h, f) > Dist(|l|, After(|l|, k), f))
        ensures size[l[h]] < n
      {
        assert h == k || Dist(|l|, h, f) > Dist(|l|, k, f);
      }
    }

    lemma SearchStart(f: nat, n: nat)
      requires f < |l| && Sized(size, l)
      ensures Searched(f, After(|l|, f), n)
    {
    }

    /** A block found at place `k`: unlink it, or cut its tail off. */
    method Carve(p: nat, prevp: nat, n: nat, ghost k: nat) returns (q: nat)
      requires Valid() && freep != 0 && k < |l| && l[k] == p && p in size && size[p] >= n >= 1
      requires prevp == l[Before(|l|, k)] && prevp in ptr && p in ptr
      modifies this`ptr, this`size, this`freep, this`l, this`live
      ensures Valid() && freep == prevp && freep != 0
      ensures q !in old(live) && live == old(live)[q := n]
      ensures Sum(FreeOf(size, l)) + n == Sum(FreeOf(old(size), old(l)))
    {
      hide List, Covered, FreeOf, DropAfter, Ring, ApartBut, Elems, Sum, Ascending;
      ListParts(ptr, size, l);
      FirstIsLeast(l, Before(|l|, k));
      ghost var free, live0 := FreeOf(size, l), live;
      Conserved(free, live, start, brk);
      FreeAt(size, l, k);
      if size[p] == n {
        TakeCovers(free, live, start, brk, p);
        Leave(ptr, size, l, k - 1);
        RemainsAt(l, k - 1);
        ptr := ptr[prevp := ptr[p]];
        l := DropAfter(l, k - 1);
        q := p;
        live := live[q := n];
      } else {
        SplitCovers(free, live, start, brk, p, n);
        Shrink(ptr, size, l, k, size[p] - n);
        size := size[p := size[p] - n];
        q := p + size[p];
        NotListed(q);
        OtherSize(ptr, size, l, q, n);
        InElems(l, k - 1);
        size := size[q := n];
        live := live[q := n];
      }
      freep := prevp;
      SumMinus(live, q);
      assert live - {q} == live0;
      Conserved(FreeOf(size, l), live, start, brk);
    }

    lemma RemainsAt(l: seq<nat>, j: nat)
      requires j + 1 < |l|
      ensures l[j] in Elems(DropAfter(l, j))
    {
      DroppedAt(l, j, j);
      InElems(DropAfter(l, j), j);
    }

    lemma NotListed(q: nat)
      requires List(ptr, size, l) && l[0] == base < start <= q && q !in FreeOf(size, l)
      ensures q !in Elems(l)
    {
      forall i: nat | i < |l|
        ensures l[i] != q
      {
        if i > 0 {
          FreeAt(size, l, i);
        }
      }
    }

    lemma BaseAlone(n: nat)
      requires Bounded() && live == map[] && brk == start
      ensures List(ptr[base := base], size[base := 0], [base]) && base in Elems([base])
      ensures Covered(FreeOf(size[base := 0], [base]), live, start, brk)
      ensures !Fits(FreeOf(size[base := 0], [base]), n)
    {
      assert FreeOf(size[base := 0], [base]) == map[];
      assert [base][0] == base;
    }

    /** If every place of the list is too small, so is every free block. */
    lemma AllSmall(n: nat)
      requires Sized(size, l) && |l| > 0 && forall h: nat | h < |l| :: size[l[h]] < n
      ensures !Fits(FreeOf(size, l), n)
    {
    }

    /** Some free block has at least `n` units. */
    ghost predicate Room(n: nat)
      requires Valid()
      reads this
    {
      freep != 0 && Fits(FreeOf(size, l), n)
    }

    /** The block at place `k` is one. */
    lemma FitsAt(k: nat, n: nat)
      requires Listed() && Bounded() && k < |l| && l[k] in size && size[l[k]] >= n >= 1
      ensures Fits(FreeOf(size, l), n)
    {
      FreeAt(size, l, k);
      assert l[k] in FreeOf(size, l);
    }

    /** malloc: a block of its own that holds `nbytes`.  sbrk is asked for more exactly if no free
        block is large enough, and only its refusal makes malloc return 0.  Both scans end, and
        morecore is called at most once. */
    method Malloc(nbytes: nat, given: bool) returns (ap: nat)
      requires Valid() && Units(nbytes) * HEADER < INT_LIMIT
      modifies this`ptr, this`size, this`freep, this`brk, this`l, this`live
      ensures Valid() && freep != 0
      ensures old(Room(Units(nbytes))) ==> ap != 0 && brk == old(brk)
      ensures !old(Room(Units(nbytes))) ==>
                && (ap != 0 <==> given && old(brk) + Chunk(Units(nbytes)) <= limit)
                && brk == old(brk) + if ap != 0 then Chunk(Units(nbytes)) else 0
      ensures ap == 0 ==> live == old(live)
      ensures ap != 0 ==>
                && ap - 1 !in old(live) && live == old(live)[ap - 1 := Units(nbytes)]
                && nbytes <= (live[ap - 1] - 1) * HEADER
    {
      hide List, Covered, FreeOf, Ring, Sized, ApartBut, Elems, Ascending, Dist, Fits;
      var nunits := Units(nbytes);
      if freep == 0 {
        BaseAlone(nunits);
        ptr, size, freep := ptr[base := base], size[base := 0], base;
        l := [base];
      }
      var prevp := freep;
      ListParts(ptr, size, l);
      ghost var f: nat := IndexOf(l, freep);
      ghost var k: nat := After(|l|, f);
      RingAt(ptr, l, f);
      NextIsAfter(l, f);
      SearchStart(f, nunits);
      var p := ptr[prevp];
      ghost var grown := false;
      ghost var big := 0;
      while true
        invariant Valid() && freep != 0 && live == old(live) && f < |l| && k < |l| && l[f] == freep
        invariant p == l[k] && prevp == l[Before(|l|, k)] && prevp in ptr
        invariant Searched(f, k, nunits)
        invariant grown ==> 0 < big < |l| && l[big] in size && size[l[big]] >= nunits
        invariant brk == old(brk) + if grown then Chunk(nunits) else 0
        invariant !grown ==> (Fits(FreeOf(size, l), nunits) <==> old(Room(nunits)))
        invariant grown ==> !old(Room(nunits)) && given && brk <= limit
        decreases !grown, Dist(|l|, k, f)
      {
        ListParts(ptr, size, l);
        RingAt(ptr, l, k);
        SizedAt(size, l, k);
        if size[p] >= nunits {
          FitsAt(k, nunits);
          var q := Carve(p, prevp, nunits, k);
          return q + 1;
        }
        SearchedOn(f, k, nunits);
        IsPlace(l, k, f);
        if p == freep {
          assert !grown;
          ghost var i;
          AllSmall(nunits);
          p, i := Morecore(nunits, given);
          if p == 0 {
            return 0;
          }
          grown, big := true, i;
          ListParts(ptr, size, l);
          f := IndexOf(l, freep);
          k := f;
          RingAt(ptr, l, k);
          SearchStart(f, nunits);
        }
        prevp := p;
        NextIsAfter(l, k);
        StepCloser(|l|, k, f);
        p := ptr[p];
        k := After(|l|, k);
      }
    }
  }

  ghost function IndexOf(l: seq<nat>, x: nat): (k: nat)
    requires x in Elems(l)
    ensures k < |l| && l[k] == x
  {
    var k: nat :| k < |l| && l[k] == x;
    k
  }
}
