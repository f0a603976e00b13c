/** The circular, address-ordered free list of user/umalloc.c and the blocks it is cut
    from.  Addresses and sizes are in units of one header. */
module FreeList {
  import opened Counting

  // ---- Tilings ----

  /** The blocks cover `start .. brk` without gaps or overlaps. */
  ghost predicate Tiled(blocks: map<nat, nat>, start: nat, brk: nat) {
    && start <= brk && (start < brk ==> start in blocks)
    && (forall h | h in blocks :: blocks[h] > 0 && start <= h && h + blocks[h] <= brk)
    && (forall h | h in blocks && h + blocks[h] < brk :: h + blocks[h] in blocks)
    && forall g, h | g in blocks && h in blocks && g < h :: g + blocks[g] <= h
  }

  /** Every unit lies in exactly one block. */
  lemma {:induction false} TiledCovers(blocks: map<nat, nat>, start: nat, brk: nat, u: nat) returns (h: nat)
    requires Tiled(blocks, start, brk) && start <= u < brk
    ensures h in blocks && h <= u < h + blocks[h]
    ensures forall g | g in blocks && g <= u < g + blocks[g] :: g == h
  {
    h := start;
    while u >= h + blocks[h]
      invariant h in blocks && h <= u
      decreases u - h
    {
      h := h + blocks[h];
    }
  }

  /** The end of the last block can only be the end of the heap. */
  lemma TiledMerge(blocks: map<nat, nat>, start: nat, brk: nat, a: nat)
    requires Tiled(blocks, start, brk) && a in blocks && a + blocks[a] in blocks
    ensures var b := a + blocks[a]; Tiled((blocks - {b})[a := blocks[a] + blocks[b]], start, brk)
  {
  }

  lemma TiledSplit(blocks: map<nat, nat>, start: nat, brk: nat, a: nat, k: nat)
    requires Tiled(blocks, start, brk) && a in blocks && 0 < k < blocks[a]
    ensures a + k !in blocks && Tiled(blocks[a := k][a + k := blocks[a] - k], start, brk)
  {
  }

  lemma TiledGrow(blocks: map<nat, nat>, start: nat, brk: nat, n: nat)
    requires Tiled(blocks, start, brk) && n > 0
    ensures brk !in blocks && Tiled(blocks[brk := n], start, brk + n)
  {
  }

  ghost function Sum(m: map<nat, nat>): nat {
    if m == map[] then 0 else var k :| k in m; m[k] + Sum(m - {k})
  }

  lemma {:induction false} SumMinus(m: map<nat, nat>, k: nat)
    requires k in m
    ensures Sum(m) == m[k] + Sum(m - {k})
  {
    var j :| j in m && Sum(m) == m[j] + Sum(m - {j});
    if j != k {
      SumMinus(m - {j}, k);
      SumMinus(m - {k}, j);
      assert m - {j} - {k} == m - {k} - {j};
    }
  }

  lemma {:induction false} SumUnion(a: map<nat, nat>, b: map<nat, nat>)
    requires a.Keys !! b.Keys
    ensures Sum(a + b) == Sum(a) + Sum(b)
  {
    if a == map[] {
      assert a + b == b;
    } else {
      var k :| k in a;
      SumMinus(a, k);
      SumMinus(a + b, k);
      SumUnion(a - {k}, b);
      assert a + b - {k} == (a - {k}) + b;
    }
  }

  lemma TiledRest(blocks: map<nat, nat>, start: nat, brk: nat)
    requires Tiled(blocks, start, brk) && start < brk
    ensures Tiled(blocks - {start}, start + blocks[start], brk)
  {
  }

  /** The sizes of the blocks add up to what they cover. */
  lemma {:induction false} TiledSum(blocks: map<nat, nat>, start: nat, brk: nat)
    requires Tiled(blocks, start, brk)
    ensures Sum(blocks) == brk - start
    decreases brk - start
  {
    if start == brk {
      assert blocks == map[];
    } else {
      SumMinus(blocks, start);
      TiledRest(blocks, start, brk);
      TiledSum(blocks - {start}, start + blocks[start], brk);
    }
  }

  // ---- The ring ----

  /** The element after place `i`, around the ring. */
  function Next(l: seq<nat>, i: nat): nat
    requires i < |l|
  {
    if i + 1 < |l| then l[i + 1] else l[0]
  }

  ghost predicate Ring(ptr: map<nat, nat>, l: seq<nat>) {
    |l| > 0 && forall i: nat | i < |l| :: l[i] in ptr && ptr[l[i]] == Next(l, i)
  }

  ghost predicate Ascending(l: seq<nat>) {
    forall i, j | 0 <= i < j < |l| :: l[i] < l[j]
  }

  /** Block `i` of the list does not touch the next one.  Place 0 is the empty block `base`. */
  ghost predicate Apart(size: map<nat, nat>, l: seq<nat>, i: nat) {
    0 < i && i + 1 < |l| && l[i] in size ==> l[i] + size[l[i]] < l[i + 1]
  }

  ghost predicate ApartBut(size: map<nat, nat>, l: seq<nat>, j: int) {
    forall i: nat | i != j :: Apart(size, l, i)
  }

  ghost predicate Sized(size: map<nat, nat>, l: seq<nat>) {
    && (forall i: nat | i < |l| :: l[i] in size)
    && (|l| > 0 ==> size[l[0]] == 0) && forall i: nat | 0 < i < |l| :: size[l[i]] > 0
  }

  function InsertAfter(l: seq<nat>, j: nat, x: nat): (r: seq<nat>)
    requires j < |l|
    ensures |r| == |l| + 1
  {
    l[..j + 1] + [x] + l[j + 1..]
  }

  /** The list with `x` in place of the element after place `j`. */
  function ReplaceAfter(l: seq<nat>, j: nat, x: nat): (r: seq<nat>)
    requires j + 1 < |l|
    ensures |r| == |l|
  {
    l[j + 1 := x]
  }

  /** The list without the element after place `i`. */
  function DropAfter(l: seq<nat>, i: nat): (r: seq<nat>)
    requires i + 1 < |l|
    ensures |r| == |l| - 1
  {
    l[..i + 1] + l[i + 2..]
  }

  lemma InsertedAt(l: seq<nat>, j: nat, x: nat, i: nat)
    requires j < |l| && i <= |l|
    ensures InsertAfter(l, j, x)[i] == if i <= j then l[i] else if i == j + 1 then x else l[i - 1]
  {
  }

  lemma AscendingInsert(l: seq<nat>, j: nat, x: nat)
    requires Ascending(l) && j < |l| && l[j] < x && (j + 1 < |l| ==> x < l[j + 1])
    ensures Ascending(InsertAfter(l, j, x))
  {
  }

  lemma RingInsert(ptr: map<nat, nat>, l: seq<nat>, j: nat, x: nat)
    requires Ring(ptr, l) && Ascending(l) && j < |l| && l[j] < x && (j + 1 < |l| ==> x < l[j + 1])
    ensures Ring(ptr[x := ptr[l[j]]][l[j] := x], InsertAfter(l, j, x))
  {
    hide InsertAfter;
    var l', ptr' := InsertAfter(l, j, x), ptr[x := ptr[l[j]]][l[j] := x];
    InsertedAt(l, j, x, 0);
    forall i: nat | i < |l'|
      ensures l'[i] in ptr' && ptr'[l'[i]] == Next(l', i)
    {
      InsertedAt(l, j, x, i);
      if i < |l| {
        InsertedAt(l, j, x, i + 1);
      }
      assert i < j ==> l[i] < l[j];
      assert i > j + 1 ==> l[j] < x < l[i - 1];
    }
  }

  lemma RingDrop(ptr: map<nat, nat>, l: seq<nat>, i: nat)
    requires Ring(ptr, l) && Ascending(l) && i + 1 < |l|
    ensures Ring(ptr[l[i] := ptr[l[i + 1]]], DropAfter(l, i)) && Ascending(DropAfter(l, i))
  {
    var l', ptr' := DropAfter(l, i), ptr[l[i] := ptr[l[i + 1]]];
    forall k: nat | k < |l'|
      ensures l'[k] in ptr' && ptr'[l'[k]] == Next(l', k)
    {
      assert l'[k] == l[if k <= i then k else k + 1];
      assert k < i ==> l[k] != l[i];
      assert k > i ==> l[k + 1] != l[i];
    }
  }

  /** The free list between calls: in address order, no two blocks adjacent. */
  ghost predicate List(ptr: map<nat, nat>, size: map<nat, nat>, l: seq<nat>) {
    Ring(ptr, l) && Ascending(l) && Sized(size, l) && ApartBut(size, l, -1)
  }

  /** The same, but block `j` may touch the next one. */
  ghost predicate Joining(ptr: map<nat, nat>, size: map<nat, nat>, l: seq<nat>, j: nat) {
    && Ring(ptr, l) && Ascending(l) && Sized(size, l) && ApartBut(size, l, j)
    && j + 1 < |l| && (j > 0 ==> l[j] + size[l[j]] <= l[j + 1])
  }

  /** The free blocks with their sizes: all of the list but `base`. */
  ghost function FreeOf(size: map<nat, nat>, l: seq<nat>): map<nat, nat>
    requires |l| > 0
  {
    Sizes(size, Elems(l) - {l[0]})
  }

  ghost function Sizes(size: map<nat, nat>, heads: set<nat>): map<nat, nat> {
    map h | h in heads && h in size :: size[h]
  }

  lemma SizesSwap(size: map<nat, nat>, heads: set<nat>, y: nat, a: nat, n: nat)
    requires y in heads && y != a
    ensures Sizes(size[a := n], heads - {y} + {a}) == (Sizes(size, heads) - {y})[a := n]
  {
  }

  lemma SizesPlus(size: map<nat, nat>, heads: set<nat>, x: nat)
    requires x in size
    ensures Sizes(size, heads + {x}) == Sizes(size, heads)[x := size[x]]
  {
  }

  lemma SizesMinus(size: map<nat, nat>, heads: set<nat>, x: nat)
    ensures Sizes(size, heads - {x}) == Sizes(size, heads) - {x}
  {
  }

  lemma MemberInsert(l: seq<nat>, j: nat, x: nat)
    requires j < |l|
    ensures Elems(InsertAfter(l, j, x)) == Elems(l) + {x}
  {
    assert l == l[..j + 1] + l[j + 1..];
  }

  lemma MemberDrop(l: seq<nat>, j: nat)
    requires Ascending(l) && j + 1 < |l|
    ensures Elems(DropAfter(l, j)) == Elems(l) - {l[j + 1]}
  {
    assert l == l[..j + 1] + [l[j + 1]] + l[j + 2..];
    assert l[j + 1] !in l[..j + 1];
    assert l[j + 1] !in l[j + 2..];
  }

  lemma MemberReplace(l: seq<nat>, j: nat, x: nat)
    requires Ascending(l) && j + 1 < |l|
    ensures Elems(ReplaceAfter(l, j, x)) == Elems(l) - {l[j + 1]} + {x}
  {
    assert l == l[..j + 1] + [l[j + 1]] + l[j + 2..];
    assert l[j + 1 := x] == l[..j + 1] + [x] + l[j + 2..];
    assert l[j + 1] !in l[..j + 1];
    assert l[j + 1] !in l[j + 2..];
  }

  lemma InElems(l: seq<nat>, j: nat)
    requires j < |l|
    ensures l[j] in Elems(l)
  {
  }

  lemma DroppedAt(l: seq<nat>, j: nat, i: nat)
    requires j + 1 < |l| && i + 1 < |l|
    ensures DropAfter(l, j)[i] == l[if i <= j then i else i + 1]
  {
  }

  lemma ApartInsert(size: map<nat, nat>, l: seq<nat>, j: nat, x: nat)
    requires j < |l| && ApartBut(size, l, -1) && x in size && (j + 1 < |l| ==> x + size[x] < l[j + 1])
    requires Sized(size, l) && size[x] > 0
    ensures Sized(size, InsertAfter(l, j, x)) && ApartBut(size, InsertAfter(l, j, x), j)
  {
    hide InsertAfter;
    var l' := InsertAfter(l, j, x);
    forall i: nat | i < |l'|
      ensures l'[i] in size && if i == 0 then size[l'[i]] == 0 else size[l'[i]] > 0
    {
      InsertedAt(l, j, x, i);
    }
    forall i: nat | i != j
      ensures Apart(size, l', i)
    {
      if i < |l| {
        InsertedAt(l, j, x, i);
        InsertedAt(l, j, x, i + 1);
      }
      assert Apart(size, l, i);
      assert i > 0 ==> Apart(size, l, i - 1);
    }
  }

  /** Entering block `x` after place `j`, where it does not touch the next block. */
  lemma Enter(ptr: map<nat, nat>, size: map<nat, nat>, l: seq<nat>, j: nat, x: nat)
    requires List(ptr, size, l) && j < |l| && l[j] < x && x in size && size[x] > 0
    requires (j > 0 ==> l[j] + size[l[j]] <= x) && (j + 1 < |l| ==> x + size[x] < l[j + 1])
    ensures Joining(ptr[x := ptr[l[j]]][l[j] := x], size, InsertAfter(l, j, x), j)
    ensures InsertAfter(l, j, x)[j] == l[j] && InsertAfter(l, j, x)[j + 1] == x && InsertAfter(l, j, x)[0] == l[0]
    ensures FreeOf(size, InsertAfter(l, j, x)) == FreeOf(size, l)[x := size[x]]
  {
    RingInsert(ptr, l, j, x);
    AscendingInsert(l, j, x);
    ApartInsert(size, l, j, x);
    MemberInsert(l, j, x);
    InsertedAt(l, j, x, 0);
    InsertedAt(l, j, x, j);
    InsertedAt(l, j, x, j + 1);
    hide InsertAfter, Ring, Apart, Elems, Sizes;
    assert l[0] <= l[j];
    SizesPlus(size, Elems(l) - {l[0]}, x);
    assert Elems(l) + {x} - {l[0]} == Elems(l) - {l[0]} + {x};
  }

  lemma ReplacedAt(l: seq<nat>, j: nat, x: nat, i: nat)
    requires j + 1 < |l| && i < |l|
    ensures ReplaceAfter(l, j, x)[i] == if i == j + 1 then x else l[i]
    ensures Next(ReplaceAfter(l, j, x), i) == if i == j then x else Next(l, i)
  {
  }

  lemma RingReplace(ptr: map<nat, nat>, l: seq<nat>, j: nat, x: nat)
    requires Ring(ptr, l) && Ascending(l) && j + 1 < |l| && l[j] < x < l[j + 1]
    ensures Ring(ptr[x := ptr[l[j + 1]]][l[j] := x], ReplaceAfter(l, j, x))
  {
    hide ReplaceAfter, Next;
    var l', ptr' := ReplaceAfter(l, j, x), ptr[x := ptr[l[j + 1]]][l[j] := x];
    forall i: nat | i < |l'|
      ensures l'[i] in ptr' && ptr'[l'[i]] == Next(l', i)
    {
      ReplacedAt(l, j, x, i);
      assert ptr[l[i]] == Next(l, i);
      assert i < j ==> l[i] < l[j];
      assert i > j + 1 ==> l[j + 1] < l[i];
    }
  }

  lemma ApartReplace(size: map<nat, nat>, l: seq<nat>, j: nat, x: nat, n: nat)
    requires Sized(size, l) && Ascending(l) && j + 1 < |l| && l[j] < x < l[j + 1] && n > 0
    requires x + n == l[j + 1] + size[l[j + 1]] && ApartBut(size, l, -1)
    ensures Ascending(ReplaceAfter(l, j, x)) && Sized(size[x := n], ReplaceAfter(l, j, x))
    ensures ApartBut(size[x := n], ReplaceAfter(l, j, x), j)
  {
    var l', size' := ReplaceAfter(l, j, x), size[x := n];
    forall i | 0 <= i < |l|
      ensures l[i] != x
    {
      assert i < j ==> l[i] < l[j];
      assert i > j + 1 ==> l[j + 1] < l[i];
    }
    forall i: nat | i != j
      ensures Apart(size', l', i)
    {
      assert Apart(size, l, i);
    }
  }

  lemma FirstIsLeast(l: seq<nat>, j: nat)
    requires Ascending(l) && j < |l|
    ensures l[0] <= l[j] && (j + 1 < |l| ==> l[j] < l[j + 1])
  {
  }

  /** Entering block `x` after place `j` and swallowing the block it touches there. */
  lemma EnterMerged(ptr: map<nat, nat>, size: map<nat, nat>, l: seq<nat>, j: nat, x: nat)
    requires List(ptr, size, l) && j + 1 < |l| && l[j] < x && x in size && size[x] > 0
    requires (j > 0 ==> l[j] + size[l[j]] <= x) && x + size[x] == l[j + 1]
    ensures var y := l[j + 1]; var size' := size[x := size[x] + size[y]];
            && Joining(ptr[x := ptr[y]][l[j] := x], size', ReplaceAfter(l, j, x), j)
            && FreeOf(size', ReplaceAfter(l, j, x)) == (FreeOf(size, l) - {y})[x := size'[x]]
            && ReplaceAfter(l, j, x)[0] == l[0] && ReplaceAfter(l, j, x)[j] == l[j] && ReplaceAfter(l, j, x)[j + 1] == x
  {
    hide Elems, Ring, Apart, Sizes, ReplaceAfter, Ascending;
    var y, l' := l[j + 1], ReplaceAfter(l, j, x);
    var n := size[x] + size[y];
    FirstIsLeast(l, j);
    RingReplace(ptr, l, j, x);
    ApartReplace(size, l, j, x, n);
    MemberReplace(l, j, x);
    InElems(l, j + 1);
    ReplacedAt(l, j, x, 0);
    ReplacedAt(l, j, x, j);
    ReplacedAt(l, j, x, j + 1);
    SizesSwap(size, Elems(l) - {l[0]}, y, x, n);
    assert Elems(l) - {y} + {x} - {l[0]} == Elems(l) - {l[0]} - {y} + {x};
  }

  /** Nothing to join. */
  lemma NotJoined(ptr: map<nat, nat>, size: map<nat, nat>, l: seq<nat>, j: nat)
    requires Joining(ptr, size, l, j) && (j > 0 ==> l[j] + size[l[j]] != l[j + 1])
    ensures List(ptr, size, l)
  {
    forall i: nat
      ensures Apart(size, l, i)
    {
    }
  }

  lemma ApartJoined(size: map<nat, nat>, l: seq<nat>, j: nat)
    requires Sized(size, l) && Ascending(l) && 0 < j && j + 1 < |l| && l[j] + size[l[j]] == l[j + 1]
    requires ApartBut(size, l, j)
    ensures var size' := size[l[j] := size[l[j]] + size[l[j + 1]]];
            Sized(size', DropAfter(l, j)) && ApartBut(size', DropAfter(l, j), -1)
  {
    hide DropAfter;
    var l' := DropAfter(l, j);
    var size' := size[l[j] := size[l[j]] + size[l[j + 1]]];
    forall i: nat | i < |l'|
      ensures l'[i] == l[if i <= j then i else i + 1] && (i != j ==> l'[i] != l[j])
    {
      DroppedAt(l, j, i);
    }
    forall i: nat
      ensures Apart(size', l', i)
    {
      assert i != j ==> Apart(size, l, i);
      assert i + 1 != j ==> Apart(size, l, i + 1);
    }
    assert l'[0] == l[0];
  }

  /** Block `j` swallows the next one. */
  lemma Joined(ptr: map<nat, nat>, size: map<nat, nat>, l: seq<nat>, j: nat)
    requires Joining(ptr, size, l, j) && 0 < j && l[j] + size[l[j]] == l[j + 1]
    ensures var y := l[j + 1]; var size' := size[l[j] := size[l[j]] + size[y]];
            && List(ptr[l[j] := ptr[y]], size', DropAfter(l, j))
            && DropAfter(l, j)[0] == l[0] && DropAfter(l, j)[j] == l[j]
            && FreeOf(size', DropAfter(l, j)) == (FreeOf(size, l) - {y})[l[j] := size'[l[j]]]
  {
    hide DropAfter, Ring, Apart, Elems, Sizes, Ascending;
    FirstIsLeast(l, j);
    FirstIsLeast(l, j - 1);
    RingDrop(ptr, l, j);
    ApartJoined(size, l, j);
    MemberDrop(l, j);
    DroppedAt(l, j, 0);
    DroppedAt(l, j, j);
    InElems(l, j);
    InElems(l, j + 1);
    var y, n := l[j + 1], size[l[j]] + size[l[j + 1]];
    SizesSwap(size, Elems(l) - {l[0]}, y, l[j], n);
    assert Elems(l) - {y} - {l[0]} == Elems(l) - {l[0]} - {y} + {l[j]};
  }

  lemma ApartDrop(size: map<nat, nat>, l: seq<nat>, j: nat)
    requires Sized(size, l) && Ascending(l) && j + 1 < |l| && ApartBut(size, l, -1)
    ensures Sized(size, DropAfter(l, j)) && ApartBut(size, DropAfter(l, j), -1)
  {
    hide DropAfter;
    var l' := DropAfter(l, j);
    forall i: nat | i < |l'|
      ensures l'[i] == l[if i <= j then i else i + 1]
    {
      DroppedAt(l, j, i);
    }
    forall i: nat
      ensures Apart(size, l', i)
    {
      assert Apart(size, l, i) && Apart(size, l, i + 1);
    }
    assert l'[0] == l[0];
  }

  /** A block leaves the list. */
  lemma Leave(ptr: map<nat, nat>, size: map<nat, nat>, l: seq<nat>, j: nat)
    requires List(ptr, size, l) && j + 1 < |l|
    ensures List(ptr[l[j] := ptr[l[j + 1]]], size, DropAfter(l, j))
    ensures FreeOf(size, DropAfter(l, j)) == FreeOf(size, l) - {l[j + 1]} && DropAfter(l, j)[0] == l[0]
  {
    RingDrop(ptr, l, j);
    ApartDrop(size, l, j);
    MemberDrop(l, j);
    DroppedAt(l, j, 0);
    hide DropAfter, Ring, Apart, Elems, Sizes;
    SizesMinus(size, Elems(l) - {l[0]}, l[j + 1]);
    assert Elems(l) - {l[j + 1]} - {l[0]} == Elems(l) - {l[0]} - {l[j + 1]};
  }

  lemma ApartShrink(size: map<nat, nat>, l: seq<nat>, j: nat, n: nat)
    requires Sized(size, l) && Ascending(l) && ApartBut(size, l, -1) && 0 < j < |l| && 0 < n < size[l[j]]
    ensures Sized(size[l[j] := n], l) && ApartBut(size[l[j] := n], l, -1)
  {
    var size' := size[l[j] := n];
    forall i: nat
      ensures Apart(size', l, i)
    {
      assert Apart(size, l, i);
    }
  }

  lemma SizesSet(size: map<nat, nat>, heads: set<nat>, a: nat, n: nat)
    requires a in heads
    ensures Sizes(size[a := n], heads) == Sizes(size, heads)[a := n]
  {
  }

  /** A block keeps its place but gives up its tail. */
  lemma Shrink(ptr: map<nat, nat>, size: map<nat, nat>, l: seq<nat>, j: nat, n: nat)
    requires List(ptr, size, l) && 0 < j < |l| && 0 < n < size[l[j]]
    ensures var size' := size[l[j] := n];
            && List(ptr, size', l) && FreeOf(size', l) == FreeOf(size, l)[l[j] := n]
  {
    hide Elems, Sizes, Ring, Ascending, ApartBut;
    ApartShrink(size, l, j, n);
    InElems(l, j);
    FirstIsLeast(l, j - 1);
    FirstIsLeast(l, j);
    SizesSet(size, Elems(l) - {l[0]}, l[j], n);
  }

  /** The size of a block outside the list does not matter. */
  lemma OtherSize(ptr: map<nat, nat>, size: map<nat, nat>, l: seq<nat>, x: nat, n: nat)
    requires List(ptr, size, l) && x !in Elems(l)
    ensures List(ptr, size[x := n], l) && FreeOf(size[x := n], l) == FreeOf(size, l)
  {
    var size' := size[x := n];
    forall i: nat | i < |l|
      ensures l[i] != x
    {
      InElems(l, i);
    }
    forall i: nat
      ensures Apart(size', l, i)
    {
      assert Apart(size, l, i);
    }
  }

  /** Free and live blocks together are all there is between `start` and `brk`. */
  ghost predicate Covered(free: map<nat, nat>, live: map<nat, nat>, start: nat, brk: nat) {
    free.Keys !! live.Keys && Tiled(free + live, start, brk)
  }

  ghost predicate LiveSized(size: map<nat, nat>, live: map<nat, nat>) {
    forall h | h in live :: h in size && size[h] == live[h]
  }

  /** Conservation: the free and the live units add up to what sbrk has given. */
  lemma Conserved(free: map<nat, nat>, live: map<nat, nat>, start: nat, brk: nat)
    requires Covered(free, live, start, brk)
    ensures Sum(free) + Sum(live) == brk - start
  {
    SumUnion(free, live);
    TiledSum(free + live, start, brk);
  }

  lemma ReleaseCovers(free: map<nat, nat>, live: map<nat, nat>, start: nat, brk: nat, x: nat)
    requires Covered(free, live, start, brk) && x in live
    ensures Covered(free[x := live[x]], live - {x}, start, brk)
  {
    assert free[x := live[x]] + (live - {x}) == free + live;
  }

  /** Joining two free blocks. */
  lemma JoinCovers(free: map<nat, nat>, live: map<nat, nat>, start: nat, brk: nat, a: nat)
    requires Covered(free, live, start, brk) && a in free && a + free[a] in free
    ensures Covered((free - {a + free[a]})[a := free[a] + free[a + free[a]]], live, start, brk)
  {
    hide Tiled;
    var b := a + free[a];
    var blocks := free + live;
    TiledMerge(blocks, start, brk, a);
    assert (free - {b})[a := free[a] + free[b]] + live == (blocks - {b})[a := blocks[a] + blocks[b]];
  }

  lemma TakeCovers(free: map<nat, nat>, live: map<nat, nat>, start: nat, brk: nat, x: nat)
    requires Covered(free, live, start, brk) && x in free
    ensures Covered(free - {x}, live[x := free[x]], start, brk) && x !in live
  {
    assert free - {x} + live[x := free[x]] == free + live;
  }

  /** Cutting `n` units off the end of a free block. */
  lemma SplitCovers(free: map<nat, nat>, live: map<nat, nat>, start: nat, brk: nat, a: nat, n: nat)
    requires Covered(free, live, start, brk) && a in free && 0 < n < free[a]
    ensures var q := a + free[a] - n;
            q !in free && q !in live && q >= start && Covered(free[a := free[a] - n], live[q := n], start, brk)
  {
    var blocks, k := free + live, free[a] - n;
    TiledSplit(blocks, start, brk, a, k);
    assert free[a := k] + live[a + k := n] == blocks[a := k][a + k := blocks[a] - k];
  }

  lemma GrowCovers(free: map<nat, nat>, live: map<nat, nat>, start: nat, brk: nat, n: nat)
    requires Covered(free, live, start, brk) && n > 0
    ensures brk !in free && brk !in live && Covered(free, live[brk := n], start, brk + n)
  {
    TiledGrow(free + live, start, brk, n);
    assert free + live[brk := n] == (free + live)[brk := n];
  }

  /** A live block against a free one. */
  lemma LiveAndFree(free: map<nat, nat>, live: map<nat, nat>, start: nat, brk: nat, x: nat, h: nat)
    requires Covered(free, live, start, brk) && x in live && h in free
    ensures x != h && (h < x ==> h + free[h] <= x) && (x < h ==> x + live[x] <= h) && start <= x
              && x + live[x] <= brk && live[x] > 0
  {
    var blocks := free + live;
    assert blocks[x] == live[x] && blocks[h] == free[h];
  }

  lemma LiveInside(free: map<nat, nat>, live: map<nat, nat>, start: nat, brk: nat, x: nat)
    requires Covered(free, live, start, brk) && x in live
    ensures start <= x && x + live[x] <= brk && live[x] > 0
  {
    assert (free + live)[x] == live[x];
  }

  lemma FreeAt(size: map<nat, nat>, l: seq<nat>, i: nat)
    requires Ascending(l) && Sized(size, l) && 0 < i < |l|
    ensures l[i] in FreeOf(size, l) && FreeOf(size, l)[l[i]] == size[l[i]]
  {
    InElems(l, i);
    assert l[0] < l[i];
  }
}
