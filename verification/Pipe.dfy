/** kernel/pipe.c: a 512-byte ring with two 32-bit counters that wrap around.  Each method
    is one stretch under pi->lock, up to the release or to the sleep that releases it, so
    every interleaving of readers and writers is a sequence of calls. */
module Pipe {
  import opened Blocks

  const PIPESIZE: nat := 512

  datatype Outcome = Done | Sleep | Fail

  /** Counters that differ by at most PIPESIZE, modulo 2^32. */
  lemma Counters(r: nat, w: nat)
    requires r <= w <= r + PIPESIZE
    ensures r % WORD_LIMIT == w % WORD_LIMIT <==> r == w
    ensures (r % WORD_LIMIT + PIPESIZE) % WORD_LIMIT == w % WORD_LIMIT <==> w == r + PIPESIZE
    ensures r % WORD_LIMIT % PIPESIZE == r % PIPESIZE && w % WORD_LIMIT % PIPESIZE == w % PIPESIZE
    ensures (r % WORD_LIMIT + 1) % WORD_LIMIT == (r + 1) % WORD_LIMIT
    ensures (w % WORD_LIMIT + 1) % WORD_LIMIT == (w + 1) % WORD_LIMIT
  {
    Digits(r);
    Digits(w);
    var a, b, x, y := r / WORD_LIMIT, w / WORD_LIMIT, r % WORD_LIMIT, w % WORD_LIMIT;
    assert r == a * WORD_LIMIT + x && w == b * WORD_LIMIT + y;
    assert b == a || b == a + 1;
  }

  lemma Digits(n: nat)
    ensures n % WORD_LIMIT % PIPESIZE == n % PIPESIZE && (n % WORD_LIMIT + 1) % WORD_LIMIT == (n + 1) % WORD_LIMIT
  {
    var q, m := n / WORD_LIMIT, n % WORD_LIMIT;
    assert n == q * WORD_LIMIT + m;
    Multiple(q * 0x80_0000, m);
    if m == WORD_LIMIT - 1 {
      assert n + 1 == (q + 1) * WORD_LIMIT;
    } else {
      assert n + 1 == q * WORD_LIMIT + (m + 1);
    }
  }

  lemma Multiple(q: nat, m: nat)
    ensures (q * PIPESIZE + m) % PIPESIZE == m % PIPESIZE
  {
  }

  function Slot(k: nat): (i: nat)
    ensures i < PIPESIZE
  {
    k % PIPESIZE
  }

  lemma SlotsDiffer(i: nat, j: nat)
    requires i < j < i + PIPESIZE
    ensures Slot(i) != Slot(j)
  {
    assert i == i / PIPESIZE * PIPESIZE + Slot(i) && j == j / PIPESIZE * PIPESIZE + Slot(j);
  }

  /** The ring holds the bytes of `s` from the r-th on. */
  ghost predicate Holds(data: seq<Byte>, s: seq<Byte>, r: nat) {
    |data| == PIPESIZE && r <= |s| && forall k: nat | r <= k < |s| :: data[Slot(k)] == s[k]
  }

  lemma Store(data: seq<Byte>, s: seq<Byte>, r: nat, b: Byte)
    requires Holds(data, s, r) && |s| < r + PIPESIZE
    ensures Holds(data[Slot(|s|) := b], s + [b], r)
  {
    forall k: nat | r <= k < |s|
      ensures Slot(k) != Slot(|s|)
    {
      SlotsDiffer(k, |s|);
    }
  }

  class Pipe {
    const data: array<Byte>
    var nread: nat
    var nwrite: nat
    var readopen: bool
    var writeopen: bool
    /** All bytes ever accepted from writers, and how many of them readers have taken. */
    ghost var accepted: seq<Byte>
    ghost var taken: nat
    /** What readers were given, and how many bytes were taken for them in vain. */
    ghost var delivered: seq<Byte>
    ghost var lost: nat

    ghost predicate Valid()
      reads this, data
    {
      && data.Length == PIPESIZE && taken <= |accepted| <= taken + PIPESIZE
      && nread == taken % WORD_LIMIT && nwrite == |accepted| % WORD_LIMIT
      && Holds(data[..], accepted, taken)
      // Readers together are given a prefix of what writers together sent, in order.
      && |delivered| + lost == taken && (lost == 0 ==> delivered == accepted[..taken])
    }

    constructor ()
      ensures Valid() && fresh(data) && accepted == delivered == [] && lost == 0 && readopen && writeopen
    {
      data := new Byte[PIPESIZE](i => 0);
      nread, nwrite, readopen, writeopen := 0, 0, true, true;
      accepted, taken, delivered, lost := [], 0, [], 0;
    }

    /** The counters never drift apart by more than the ring holds. */
    lemma CountersAgree()
      requires Valid()
      ensures (nwrite - nread) % WORD_LIMIT == |accepted| - taken <= PIPESIZE
    {
      var r, w := taken / WORD_LIMIT, |accepted| / WORD_LIMIT;
      assert taken == r * WORD_LIMIT + nread && |accepted| == w * WORD_LIMIT + nwrite;
      assert w == r || w == r + 1;
    }

    /** pipewrite from byte i on, until it is done, has to sleep, or fails.  The first
        `readable` bytes of `src` can be copied in. */
    method Write(src: seq<Byte>, i0: nat, readable: nat, killed: bool) returns (out: Outcome, i: nat)
      requires Valid() && i0 <= |src|
      modifies this`nwrite, this`accepted, data
      ensures Valid() && i0 <= i <= |src|
      // The bytes are accepted in order, behind all that came before.
      ensures accepted == old(accepted) + src[i0..i]
      ensures out == Sleep ==> |accepted| == taken + PIPESIZE && i < |src| && readopen && !killed
      ensures out == Fail <==> i0 < |src| && (!readopen || killed)
      ensures out == Done ==> i == |src| || (i >= readable && |accepted| < taken + PIPESIZE)
      ensures i > i0 ==> readopen && !killed && i <= readable
      ensures out == Fail ==> i == i0
    {
      i := i0;
      while i < |src|
        invariant Valid() && i0 <= i <= |src| && accepted == old(accepted) + src[i0..i]
        invariant i > i0 ==> readopen && !killed && i <= readable
      {
        if !readopen || killed {
          return Fail, i;
        }
        Counters(taken, |accepted|);
        if nwrite == (nread + PIPESIZE) % WORD_LIMIT {
          return Sleep, i;
        }
        if i >= readable {
          break;
        }
        Put(src[i]);
        i := i + 1;
      }
      out := Done;
    }

    /** `pi->data[pi->nwrite++ % PIPESIZE] = ch;` */
    method Put(ch: Byte)
      requires Valid() && |accepted| < taken + PIPESIZE
      modifies this`nwrite, this`accepted, data
      ensures Valid() && accepted == old(accepted) + [ch]
    {
      Counters(taken, |accepted|);
      Store(data[..], accepted, taken, ch);
      ghost var was := data[..];
      data[nwrite % PIPESIZE] := ch;
      assert data[..] == was[Slot(|accepted|) := ch];
      nwrite := (nwrite + 1) % WORD_LIMIT;
      accepted := accepted + [ch];
    }

    /** `ch = pi->data[pi->nread++ % PIPESIZE];`, and whether its copyout succeeds. */
    method Get(copied: bool) returns (ch: Byte)
      requires Valid() && taken < |accepted|
      modifies this`nread, this`taken, this`delivered, this`lost
      ensures Valid() && taken == old(taken) + 1 && ch == accepted[old(taken)]
      ensures delivered == old(delivered) + (if copied then [ch] else []) && lost == old(lost) + if copied then 0 else 1
    {
      Counters(taken, |accepted|);
      assert data[..][Slot(taken)] == accepted[taken];
      ch := data[nread % PIPESIZE];
      nread := (nread + 1) % WORD_LIMIT;
      taken := taken + 1;
      if copied {
        delivered := delivered + [ch];
      } else {
        lost := lost + 1;
      }
    }

    /** piperead of n bytes into a buffer that takes `room` of them, until it is done, has to
        sleep, or fails. */
    method Read(n: nat, room: nat, killed: bool) returns (out: Outcome, dst: seq<Byte>)
      requires Valid()
      modifies this`nread, this`taken, this`delivered, this`lost
      ensures Valid() && delivered == old(delivered) + dst
      ensures room >= n ==> lost == old(lost)
      ensures out == (if old(taken) < |accepted| || !writeopen then Done else if killed then Fail else Sleep)
      ensures out != Done ==> unchanged(this) && dst == []
      // What is delivered comes next in the order in which it was accepted;
      ensures old(taken) <= taken <= |accepted| && |dst| <= taken - old(taken)
                && dst == accepted[old(taken)..old(taken) + |dst|]
      // nothing is dropped, but for one byte whose copy to the user fails;
      ensures taken == old(taken) + |dst| +
                if |dst| == room < n && out == Done && old(taken) + room < |accepted| then 1 else 0
      ensures out == Done && room >= n ==> |dst| == if n < |accepted| - old(taken) then n else |accepted| - old(taken)
      // and 0 means that the pipe is empty and no writer is left.
      ensures out == Done && n > 0 && room >= n && dst == [] ==> taken == |accepted| && !writeopen
    {
      dst := [];
      Counters(taken, |accepted|);
      if nread == nwrite && writeopen {
        return if killed then Fail else Sleep, [];
      }
      var i := 0;
      while i < n
        invariant Valid() && i == |dst| <= n && i <= room && taken == old(taken) + i
        invariant dst == accepted[old(taken)..taken]
        invariant delivered == old(delivered) + dst && lost == old(lost)
      {
        Counters(taken, |accepted|);
        if nread == nwrite {
          break;
        }
        var ch := Get(i < room);
        if i >= room {
          break;
        }
        dst := dst + [ch];
        i := i + 1;
      }
      out := Done;
    }

    /** pipeclose; `freed` says whether the pipe's memory goes. */
    method Close(writable: bool) returns (freed: bool)
      requires Valid()
      modifies this`readopen, this`writeopen
      ensures Valid() && freed == (!readopen && !writeopen)
      ensures writeopen == (old(writeopen) && !writable) && readopen == (old(readopen) && writable)
    {
      if writable {
        writeopen := false;
      } else {
        readopen := false;
      }
      freed := !readopen && !writeopen;
    }
  }
}
