/** The buffer cache of kernel/bio.c: NBUF buffers on a doubly linked list in
    least-recently-used order, between the file system and the disk.

    A pointer to a buffer is its index in the array `bcache.buf`; `bcache.head`
    is index HEAD.  `disk` is the device, `images` every content it ever had, so
    a crash leaves one of `images` behind. */
module Bio {
  import opened Blocks
  import opened Counting

  const NBUF: nat := 30
  const HEAD: nat := NBUF

  datatype Buf = Buf(valid: bool, dev: nat, blockno: nat, locked: bool, refcnt: nat, data: Block)
  {
    predicate Holds(d: nat, bno: nat) {
      dev == d && blockno == bno
    }

    /** The same but for the number of references. */
    ghost predicate Same(b: Buf) {
      this == b.(refcnt := refcnt)
    }
  }

  // ---- The circular list through head ----

  /** The `i`-th node after head; head itself closes the circle at both ends. */
  ghost function At(order: seq<nat>, i: int): nat {
    if 0 <= i < |order| then order[i] else HEAD
  }

  ghost predicate Ring(order: seq<nat>, next: seq<nat>, prev: seq<nat>) {
    && Distinct(order) && Below(order, NBUF)
    && |next| == |prev| == NBUF + 1
    && (forall i | 0 <= i <= |order| :: next[At(order, i - 1)] == At(order, i))
    && (forall i | 0 <= i <= |order| :: prev[At(order, i)] == At(order, i - 1))
  }

  ghost function Without(order: seq<nat>, r: nat): seq<nat>
    requires r < |order|
  {
    order[..r] + order[r + 1..]
  }

  /** Splicing the `r`-th node out of the list. */
  lemma Unlink(order: seq<nat>, next: seq<nat>, prev: seq<nat>, r: nat)
    requires Ring(order, next, prev) && r < |order|
    ensures var b := order[r];
            prev[b] <= NBUF && next[b] <= NBUF &&
            Ring(Without(order, r), next[prev[b] := next[b]], prev[next[b] := prev[b]])
  {
    var b := order[r];
    var rest := Without(order, r);
    assert At(order, r) == b;
    assert next[b] == At(order, r + 1) by { assert next[At(order, r + 1 - 1)] == At(order, r + 1); }
    assert prev[b] == At(order, r - 1);
    forall i | 0 <= i <= |rest|
      ensures next[prev[b] := next[b]][At(rest, i - 1)] == At(rest, i)
      ensures prev[next[b] := prev[b]][At(rest, i)] == At(rest, i - 1)
    {
      assert At(rest, i) == At(order, if i < r then i else i + 1);
      assert At(rest, i - 1) == At(order, if i - 1 < r then i - 1 else i);
      var k := if i < r then i else i + 1;
      assert next[At(order, k - 1)] == At(order, k) && prev[At(order, k)] == At(order, k - 1);
    }
  }

  /** Inserting a node that is not on the list right after head. */
  lemma Link(order: seq<nat>, next: seq<nat>, prev: seq<nat>, b: nat)
    requires Ring(order, next, prev) && b < NBUF && b !in order
    ensures next[HEAD] <= NBUF
    ensures Ring([b] + order, next[b := next[HEAD]][HEAD := b], prev[b := HEAD][next[HEAD] := b])
  {
    var longer := [b] + order;
    assert next[At(order, 0 - 1)] == At(order, 0);
    var n', p' := next[b := next[HEAD]][HEAD := b], prev[b := HEAD][next[HEAD] := b];
    forall i | 0 <= i <= |longer|
      ensures n'[At(longer, i - 1)] == At(longer, i)
      ensures p'[At(longer, i)] == At(longer, i - 1)
    {
      if i >= 2 {
        assert At(longer, i) == At(order, i - 1) && At(longer, i - 1) == At(order, i - 2);
        assert next[At(order, i - 1 - 1)] == At(order, i - 1) && prev[At(order, i - 1)] == At(order, i - 2);
      }
    }
  }

  // ---- Keys ----

  ghost predicate UniqueKeys(buf: seq<Buf>) {
    forall i, j | 0 <= i < j < |buf| && buf[i].dev != 0 :: !buf[j].Holds(buf[i].dev, buf[i].blockno)
  }

  predicate Absent(buf: seq<Buf>, dev: nat, bno: nat) {
    forall j | 0 <= j < |buf| :: !buf[j].Holds(dev, bno)
  }

  /** bread would neither panic for want of a buffer nor block on a held one. */
  predicate Available(buf: seq<Buf>, dev: nat, bno: nat) {
    && (forall j | 0 <= j < |buf| && buf[j].Holds(dev, bno) :: !buf[j].locked)
    && (Absent(buf, dev, bno) ==> exists j :: 0 <= j < |buf| && buf[j].refcnt == 0)
  }

  /** What bget leaves in the buffer it returns, before the lock. */
  function Referenced(b: Buf, dev: nat, bno: nat): Buf {
    if b.Holds(dev, bno) then b.(refcnt := b.refcnt + 1)
    else b.(dev := dev, blockno := bno, valid := false, refcnt := 1)
  }

  /** What bread leaves in the buffer it returns. */
  function Loaded(b: Buf, disk: Disk, dev: nat, bno: nat): Buf
    requires bno < |disk|
  {
    if b.Holds(dev, bno) then
      b.(refcnt := b.refcnt + 1, locked := true, valid := true, data := if b.valid then b.data else disk[bno])
    else
      Buf(true, dev, bno, true, 1, disk[bno])
  }

  class BufferCache {
    var disk: Disk
    ghost var images: seq<Disk>
    var buf: seq<Buf>
    var next: seq<nat>
    var prev: seq<nat>
    ghost var order: seq<nat>

    ghost predicate Valid()
      reads this
    {
      && Ring(order, next, prev) && |order| == NBUF
      && |buf| == NBUF && UniqueKeys(buf)
      && (forall b | 0 <= b < NBUF :: buf[b].locked ==> buf[b].refcnt > 0)
      && |images| > 0 && images[|images| - 1] == disk
    }

    /** binit, over a disk with the given content. */
    constructor (initial: Disk)
      ensures Valid() && disk == initial && images == [initial]
      ensures buf == seq(NBUF, i => Buf(false, 0, 0, false, 0, ZeroBlock()))
      ensures order == seq(NBUF, i => NBUF - 1 - i)
    {
      disk := initial;
      images := [initial];
      buf := seq(NBUF, i => Buf(false, 0, 0, false, 0, ZeroBlock()));
      next := seq(NBUF + 1, i => HEAD);
      prev := seq(NBUF + 1, i => HEAD);
      order := [];
      new;
      var b := 0;
      while b < NBUF
        invariant 0 <= b <= NBUF
        invariant order == seq(b, i requires 0 <= i < b => b - 1 - i)
        invariant Ring(order, next, prev)
        invariant disk == initial && images == [initial]
        invariant buf == seq(NBUF, i => Buf(false, 0, 0, false, 0, ZeroBlock()))
      {
        Link(order, next, prev, b);
        next := next[b := next[HEAD]];
        prev := prev[b := HEAD];
        prev := prev[next[HEAD] := b];
        next := next[HEAD := b];
        order := [b] + order;
        b := b + 1;
      }
    }

    /** The buffer already caching a block, found by walking forward from head. */
    method Lookup(d: nat, bno: nat) returns (found: bool, b: nat)
      requires Valid() && d != 0
      ensures found ==> b < NBUF && buf[b].Holds(d, bno)
      ensures !found ==> Absent(buf, d, bno)
    {
      ghost var i := 0;
      b := next[HEAD];
      assert next[At(order, 0 - 1)] == At(order, 0);
      while b != HEAD
        invariant 0 <= i <= NBUF && b == At(order, i)
        invariant forall k | 0 <= k < i :: !buf[order[k]].Holds(d, bno)
        decreases NBUF - i
      {
        if buf[b].dev == d && buf[b].blockno == bno {
          return true, b;
        }
        assert next[At(order, i + 1 - 1)] == At(order, i + 1);
        b := next[b];
        i := i + 1;
      }
      Pigeonhole(order, NBUF);
      forall j | 0 <= j < NBUF
        ensures !buf[j].Holds(d, bno)
      {
        assert j in order;
      }
      return false, HEAD;
    }

    /** The least recently used free buffer, found by walking backward from head. */
    method Victim() returns (b: nat)
      requires Valid()
      requires exists j :: 0 <= j < NBUF && buf[j].refcnt == 0
      ensures b < NBUF && buf[b].refcnt == 0
      ensures exists r {:trigger order[r]} :: 0 <= r < NBUF && order[r] == b
                && forall k | r < k < NBUF :: buf[order[k]].refcnt != 0
    {
      ghost var i := NBUF - 1;
      b := prev[HEAD];
      assert prev[At(order, NBUF)] == At(order, NBUF - 1);
      Pigeonhole(order, NBUF);
      while buf[b].refcnt != 0
        invariant 0 <= i < NBUF && b == order[i]
        invariant forall k | i < k < NBUF :: buf[order[k]].refcnt != 0
        decreases i
      {
        assert prev[At(order, i)] == At(order, i - 1);
        assert i > 0 by {
          var j :| 0 <= j < NBUF && buf[j].refcnt == 0;
          assert j in order;
        }
        b := prev[b];
        i := i - 1;
      }
    }

    /** bget up to `release(&bcache.lock)`: a reference to the buffer of the block, which
        another process may have locked.  A buffer with references keeps its key and its data;
        the buffer recycled, if any, is the least recently used free one. */
    method Bget(d: nat, bno: nat) returns (b: nat)
      requires Valid() && d != 0
      requires Absent(buf, d, bno) ==> exists j :: 0 <= j < NBUF && buf[j].refcnt == 0
      modifies this`buf
      ensures Valid() && b < NBUF && buf == old(buf)[b := Referenced(old(buf)[b], d, bno)]
      ensures !Absent(old(buf), d, bno) ==> old(buf)[b].Holds(d, bno)
      ensures Absent(old(buf), d, bno) ==>
                && old(buf)[b].refcnt == 0
                && exists r {:trigger order[r]} :: 0 <= r < NBUF && order[r] == b
                     && forall k | r < k < NBUF :: old(buf)[order[k]].refcnt != 0
    {
      var found;
      found, b := Lookup(d, bno);
      if found {
        buf := buf[b := buf[b].(refcnt := buf[b].refcnt + 1)];
      } else {
        b := Victim();
        buf := buf[b := buf[b].(dev := d, blockno := bno, valid := false, refcnt := 1)];
      }
    }

    /** `acquiresleep(&b->lock)`, once nobody else holds the lock. */
    method Lock(b: nat)
      requires Valid() && b < NBUF && buf[b].refcnt > 0 && !buf[b].locked
      modifies this`buf
      ensures Valid() && buf == old(buf)[b := old(buf)[b].(locked := true)]
    {
      buf := buf[b := buf[b].(locked := true)];
    }

    /** The rest of bread: read the block if the buffer does not have it. */
    method Load(b: nat)
      requires Valid() && b < NBUF && buf[b].locked && buf[b].blockno < |disk|
      modifies this`buf
      ensures Valid()
      ensures buf == old(buf)[b := if old(buf)[b].valid then old(buf)[b]
                                   else old(buf)[b].(data := disk[old(buf)[b].blockno], valid := true)]
    {
      if !buf[b].valid {
        buf := buf[b := buf[b].(data := disk[buf[b].blockno], valid := true)];
      }
    }

    /** bread, when it has not to wait for the lock. */
    method Bread(d: nat, bno: nat) returns (b: nat)
      requires Valid() && d != 0 && bno < |disk|
      requires Available(buf, d, bno)
      modifies this`buf
      ensures Valid() && b < NBUF
      ensures buf == old(buf)[b := Loaded(old(buf)[b], disk, d, bno)]
      ensures !Absent(old(buf), d, bno) ==> old(buf)[b].Holds(d, bno)
      ensures Absent(old(buf), d, bno) ==>
                (old(buf)[b].refcnt == 0 &&
                 exists r {:trigger order[r]} :: 0 <= r < NBUF && order[r] == b
                   && forall k | r < k < NBUF :: old(buf)[order[k]].refcnt != 0)
    {
      b := Bget(d, bno);
      Lock(b);
      Load(b);
    }

    /** The holder of a buffer changes its bytes in memory. */
    method Fill(b: nat, data: Block)
      requires Valid() && b < NBUF && buf[b].locked
      modifies this`buf
      ensures Valid() && buf == old(buf)[b := old(buf)[b].(data := data)]
    {
      buf := buf[b := buf[b].(data := data)];
    }

    method Bwrite(b: nat)
      requires Valid() && b < NBUF && buf[b].locked && buf[b].blockno < |disk|
      modifies this`disk, this`images
      ensures Valid()
      ensures disk == old(disk)[buf[b].blockno := buf[b].data]
      ensures images == old(images) + [disk]
    {
      disk := disk[buf[b].blockno := buf[b].data];
      images := images + [disk];
    }

    method Brelse(b: nat)
      requires Valid() && b < NBUF && buf[b].locked
      modifies this`buf, this`next, this`prev, this`order
      ensures Valid()
      ensures buf == old(buf)[b := old(buf)[b].(locked := false, refcnt := old(buf)[b].refcnt - 1)]
      ensures old(buf)[b].refcnt > 1 ==> order == old(order)
      ensures old(buf)[b].refcnt == 1 ==>
              exists r {:trigger old(order)[r]} ::
                  0 <= r < NBUF && old(order)[r] == b && order == [b] + Without(old(order), r)
    {
      buf := buf[b := buf[b].(locked := false, refcnt := buf[b].refcnt - 1)];
      if buf[b].refcnt == 0 {
        Pigeonhole(order, NBUF);
        assert b in order;
        ghost var r :| 0 <= r < NBUF && order[r] == b;
        Unlink(order, next, prev, r);
        Link(Without(order, r), next[prev[b] := next[b]], prev[next[b] := prev[b]], b);
        prev := prev[next[b] := prev[b]];
        next := next[prev[b] := next[b]];
        next := next[b := next[HEAD]];
        prev := prev[b := HEAD];
        prev := prev[next[HEAD] := b];
        next := next[HEAD := b];
        order := [b] + Without(order, r);
      }
    }

    method Bpin(b: nat)
      requires Valid() && b < NBUF
      modifies this`buf
      ensures Valid() && buf == old(buf)[b := old(buf)[b].(refcnt := old(buf)[b].refcnt + 1)]
    {
      buf := buf[b := buf[b].(refcnt := buf[b].refcnt + 1)];
    }

    method Bunpin(b: nat)
      requires Valid() && b < NBUF && buf[b].refcnt > 0
      requires buf[b].locked ==> buf[b].refcnt > 1
      modifies this`buf
      ensures Valid() && buf == old(buf)[b := old(buf)[b].(refcnt := old(buf)[b].refcnt - 1)]
    {
      buf := buf[b := buf[b].(refcnt := buf[b].refcnt - 1)];
    }
  }
}
