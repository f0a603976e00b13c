/** kernel/log.c over the buffer cache: log_write with absorption and pinning,
    commit, and recovery, one disk write at a time. */
module Log {
  import opened Blocks
  import opened Counting
  import opened Bio
  import opened LogSpec

  // ---- Buffers of one device; `P` is the set of block numbers pinned by the log ----

  /** Every pinned block is cached, block `x` in buffer `slot[x]`. */
  ghost predicate Cached(buf: seq<Buf>, dev: nat, P: set<nat>, slot: map<nat, nat>) {
    forall x | x in P :: x in slot && slot[x] < |buf| && buf[slot[x]].Holds(dev, x) && buf[slot[x]].valid
  }

  ghost predicate InUse(buf: seq<Buf>, dev: nat, blocks: nat) {
    forall j: nat | j < |buf| ::
      if buf[j].dev == 0 then buf[j].refcnt == 0 else buf[j].dev == dev && buf[j].blockno < blocks
  }

  predicate Pinned(b: Buf, P: set<nat>) {
    b.dev != 0 && b.blockno in P
  }

  /** The account of references: one for the log if it holds the buffer, one for a pin, and
      `refs[j]` for the other processes that hold buffer j or wait for it. */
  ghost predicate Counts(buf: seq<Buf>, refs: seq<nat>, P: set<nat>, mine: set<nat>) {
    |refs| == |buf| && forall j: nat | j < |buf| ::
      && buf[j].refcnt == refs[j] + (if j in mine then 1 else 0) + (if Pinned(buf[j], P) then 1 else 0)
      && (buf[j].locked ==> j in mine || refs[j] > 0)
  }

  /** Cached blocks that are not pinned agree with the disk. */
  ghost predicate Clean(buf: seq<Buf>, disk: Disk, P: set<nat>) {
    forall j: nat | j < |buf| && buf[j].dev != 0 && buf[j].valid && buf[j].blockno < |disk| && buf[j].blockno !in P ::
      buf[j].data == disk[buf[j].blockno]
  }

  /** Cached pinned blocks have their logged values. */
  ghost predicate Holding(buf: seq<Buf>, logical: Disk, P: set<nat>) {
    forall j: nat | j < |buf| && buf[j].dev != 0 && buf[j].valid && buf[j].blockno in P ::
      buf[j].blockno < |logical| && buf[j].data == logical[buf[j].blockno]
  }

  /** `mine` are the buffers that the log itself holds; nobody else has a reference to a block
      of the log. */
  ghost predicate Ours(buf: seq<Buf>, l: Layout, mine: set<nat>) {
    && (forall j | j in mine :: j < |buf| && buf[j].locked && (!l.Home(buf[j].blockno) ==> buf[j].refcnt == 1))
    && forall j: nat | j < |buf| && buf[j].refcnt > 0 && j !in mine :: l.Home(buf[j].blockno)
  }

  predicate Spare(buf: seq<Buf>) {
    exists j :: 0 <= j < |buf| && buf[j].refcnt == 0
  }

  /** Some process waits for this buffer and could have its lock. */
  predicate Waits(b: Buf, P: set<nat>) {
    !b.locked && b.dev != 0 && b.refcnt > if b.blockno in P then 1 else 0
  }

  /** Nobody else has any buffer. */
  ghost predicate NoneElse(refs: seq<nat>) {
    forall j: nat | j < |refs| :: refs[j] == 0
  }

  /** What is known of home blocks: pinned ones have their logged values in the cache, and
      the others have them on the disk. */
  ghost predicate Known(buf: seq<Buf>, disk: Disk, logical: Disk, l: Layout, P: set<nat>) {
    && |logical| == |disk| && Holding(buf, logical, P)
    && forall b | 0 <= b < |disk| && l.Home(b) && b !in P :: disk[b] == logical[b]
  }

  ghost function Values(logical: Disk, lh: seq<nat>): (vals: seq<Block>)
    requires Below(lh, |logical|)
  {
    seq(|lh|, t requires 0 <= t < |lh| => logical[lh[t]])
  }

  lemma {:induction false} CountKeys(buf: seq<Buf>, dev: nat, P: set<nat>, mine: set<nat>)
    requires UniqueKeys(buf)
    requires forall j: nat | j < |buf| :: j in mine || (buf[j].dev != 0 && buf[j].dev == dev && buf[j].blockno in P)
    ensures |buf| <= |P| + |mine|
  {
    if buf != [] {
      var n := |buf| - 1;
      var rest := buf[..n];
      assert forall j: nat | j < n :: rest[j] == buf[j];
      if n in mine {
        CountKeys(rest, dev, P, mine - {n});
      } else {
        CountKeys(rest, dev, P - {buf[n].blockno}, mine);
      }
    }
  }

  /** Fewer pinned blocks and held buffers than buffers leave one that is neither. */
  lemma FreeBuffer(buf: seq<Buf>, dev: nat, blocks: nat, P: set<nat>, mine: set<nat>) returns (j: nat)
    requires UniqueKeys(buf) && InUse(buf, dev, blocks) && |P| + |mine| < |buf|
    ensures j < |buf| && j !in mine && (buf[j].dev == 0 || buf[j].blockno !in P)
  {
    if forall k: nat | k < |buf| :: k in mine || (buf[k].dev != 0 && buf[k].blockno in P) {
      CountKeys(buf, dev, P, mine);
      assert false;
    }
    j :| j < |buf| && j !in mine && !(buf[j].dev != 0 && buf[j].blockno in P);
  }

  lemma {:induction false} ElemsCount(s: seq<nat>)
    ensures |Elems(s)| <= |s|
  {
    if s != [] {
      ElemsCount(s[1..]);
      assert Elems(s) == Elems(s[1..]) + {s[0]};
    }
  }

  lemma ElemsTail(s: seq<nat>, k: nat)
    requires Distinct(s) && k < |s|
    ensures Elems(s[k..]) - {s[k]} == Elems(s[k + 1..]) && s[k] in Elems(s[k..])
  {
    assert s[k..] == [s[k]] + s[k + 1..];
  }

  /** One more write of write_log. */
  lemma LogNext(past: seq<Disk>, d: Disk, l: Layout, logical: Disk, lh: seq<nat>, k: nat)
    requires Below(lh, |logical|) && k < |lh| && l.start + |lh| < |d|
    ensures var vals := Values(logical, lh); var e := LogImage(d, l, vals, k);
            && LogImage(d, l, vals, k + 1) == e[l.start + k + 1 := logical[lh[k]]]
            && LogTrace(past, d, l, vals, k + 1) == LogTrace(past, d, l, vals, k) + [LogImage(d, l, vals, k + 1)]
  {
  }

  /** Installing leaves the log blocks themselves alone. */
  lemma InstallSource(d: Disk, l: Layout, lh: seq<nat>, k: nat, t: nat)
    requires l.Fits(d) && Loggable(d, l, lh) && k <= |lh| && t < |lh|
    ensures InstallImage(d, l, lh, k)[l.start + t + 1] == d[l.start + t + 1]
    ensures k < |lh| ==> var e := InstallImage(d, l, lh, k);
              InstallImage(d, l, lh, k + 1) == e[lh[k] := e[l.start + k + 1]]
  {
    InstallImageAt(d, l, lh, k);
    assert !l.Home(l.start + t + 1);
  }

  // ---- The cache while the log works on it ----

  /** What commit and recovery work on: the cache, the disk behind it, the logged values, and
      where pinned blocks are cached; `refs` are the references of other processes. */
  datatype View = View(buf: seq<Buf>, refs: seq<nat>, disk: Disk, logical: Disk, l: Layout, dev: nat,
                       slot: map<nat, nat>)

  ghost predicate Sound(v: View, P: set<nat>, mine: set<nat>) {
    && InUse(v.buf, v.dev, |v.disk|) && Counts(v.buf, v.refs, P, mine) && Clean(v.buf, v.disk, P)
    && |P| < NBUF && (forall x | x in P :: x < |v.disk| && v.l.Home(x)) && Cached(v.buf, v.dev, P, v.slot)
  }

  /** Between any two steps of commit or recovery, with blocks `P` pinned.  `mine` are the
      buffers it holds.  It runs `alone` at boot; otherwise other processes take, hold and
      release buffers of home blocks. */
  ghost predicate State(v: View, P: set<nat>, mine: set<nat>, alone: bool) {
    && Sound(v, P, mine) && Ours(v.buf, v.l, mine)
    && if alone then P == {} && NoneElse(v.refs) else Known(v.buf, v.disk, v.logical, v.l, P)
  }

  /** Buffer `b` becomes `x`, with `r` references of others; a pinned block stays in it, and
      what it holds of another block is what the disk has. */
  ghost predicate MayBecome(v: View, P: set<nat>, mine: set<nat>, b: nat, x: Buf, r: nat) {
    && b < |v.buf| && x.dev == v.dev && x.blockno < |v.disk|
    && x.refcnt == r + (if b in mine then 1 else 0) + (if x.blockno in P then 1 else 0)
    && (x.locked ==> b in mine || r > 0)
    && (x.valid && x.blockno !in P ==> x.data == v.disk[x.blockno])
    && (v.buf[b].dev != 0 && v.buf[b].blockno in P ==> x.blockno == v.buf[b].blockno && x.valid)
    && (x.blockno in P ==> v.buf[b].Holds(v.dev, x.blockno) && v.buf[b].valid && x.data == v.buf[b].data)
  }

  lemma OneBuffer(v: View, P: set<nat>, mine: set<nat>, mine': set<nat>, alone: bool, b: nat, x: Buf,
                  r: nat)
    requires State(v, P, mine, alone) && v.dev != 0 && MayBecome(v, P, mine', b, x, r)
    requires forall j | j != b :: j in mine' <==> j in mine
    requires if b in mine' then x.locked && (!v.l.Home(x.blockno) ==> x.refcnt == 1)
             else x.refcnt > 0 ==> v.l.Home(x.blockno)
    requires alone ==> r == 0
    ensures |v.refs| == |v.buf| && State(v.(buf := v.buf[b := x], refs := v.refs[b := r]), P, mine', alone)
  {
  }

  /** The buffer of a pinned block is the one where it is pinned. */
  lemma PinnedIs(v: View, P: set<nat>, mine: set<nat>, b: nat)
    requires Sound(v, P, mine) && UniqueKeys(v.buf) && b < |v.buf| && v.dev != 0
    ensures Pinned(v.buf[b], P) ==> v.buf[b].valid && v.slot[v.buf[b].blockno] == b
    ensures forall bno | bno in P :: !Absent(v.buf, v.dev, bno)
  {
  }

  /** bget by another process. */
  lemma GetFrame(v: View, P: set<nat>, mine: set<nat>, b: nat, bno: nat)
    requires UniqueKeys(v.buf)
    requires State(v, P, mine, false) && v.dev != 0 && b < |v.buf| && bno < |v.disk| && v.l.Home(bno)
    requires v.buf[b].Holds(v.dev, bno) || (Absent(v.buf, v.dev, bno) && v.buf[b].refcnt == 0)
    ensures |v.refs| == |v.buf|
    ensures State(v.(buf := v.buf[b := Referenced(v.buf[b], v.dev, bno)], refs := v.refs[b := v.refs[b] + 1]),
                  P, mine, false)
    ensures forall j | j in mine :: j < |v.buf| && v.buf[b := Referenced(v.buf[b], v.dev, bno)][j].Same(v.buf[j])
  {
    PinnedIs(v, P, mine, b);
    OneBuffer(v, P, mine, mine, false, b, Referenced(v.buf[b], v.dev, bno), v.refs[b] + 1);
  }

  /** What bread leaves in a locked buffer. */
  function Fetched(b: Buf, disk: Disk): Buf
    requires b.blockno < |disk|
  {
    if b.valid then b.(locked := true) else b.(locked := true, data := disk[b.blockno], valid := true)
  }

  /** The rest of bread by another process: it reads the logged value. */
  lemma ReadFrame(v: View, P: set<nat>, mine: set<nat>, b: nat)
    requires UniqueKeys(v.buf)
    requires State(v, P, mine, false) && v.dev != 0 && b < |v.buf| && !v.buf[b].locked && Waits(v.buf[b], P)
    ensures v.buf[b].blockno < |v.disk| == |v.logical| && b !in mine && v.buf[b].dev == v.dev
    ensures var x := Fetched(v.buf[b], v.disk);
            State(v.(buf := v.buf[b := x]), P, mine, false) && x.data == v.logical[x.blockno]
  {
    PinnedIs(v, P, mine, b);
    OneBuffer(v, P, mine, mine, false, b, Fetched(v.buf[b], v.disk), v.refs[b]);
    assert v.refs[b := v.refs[b]] == v.refs;
  }

  function Released(b: Buf): Buf
    requires b.refcnt > 0
  {
    b.(locked := false, refcnt := b.refcnt - 1)
  }

  /** brelse by another process. */
  lemma ReleaseFrame(v: View, P: set<nat>, mine: set<nat>, b: nat)
    requires UniqueKeys(v.buf)
    requires State(v, P, mine, false) && v.dev != 0 && b < |v.buf| && v.buf[b].locked && b !in mine
    ensures |v.refs| == |v.buf| && v.refs[b] > 0 && v.buf[b].refcnt > 0
    ensures State(v.(buf := v.buf[b := Released(v.buf[b])], refs := v.refs[b := v.refs[b] - 1]), P, mine, false)
  {
    PinnedIs(v, P, mine, b);
    OneBuffer(v, P, mine, mine, false, b, Released(v.buf[b]), v.refs[b] - 1);
  }

  /** bread by the log. */
  lemma HoldFrame(v: View, P: set<nat>, mine: set<nat>, alone: bool, b: nat, bno: nat)
    requires UniqueKeys(v.buf)
    requires State(v, P, mine, alone) && v.dev != 0 && b < |v.buf| && bno < |v.disk| && Available(v.buf, v.dev, bno)
    requires v.buf[b].Holds(v.dev, bno) || (Absent(v.buf, v.dev, bno) && v.buf[b].refcnt == 0)
    requires !v.buf[b].locked
    ensures b !in mine
    ensures var x := Loaded(v.buf[b], v.disk, v.dev, bno);
            && State(v.(buf := v.buf[b := x]), P, mine + {b}, alone)
            && (bno !in P ==> x.data == v.disk[bno])
            && (bno in P ==> bno < |v.logical| && x.data == v.logical[bno])
  {
    PinnedIs(v, P, mine, b);
    OneBuffer(v, P, mine, mine + {b}, alone, b, Loaded(v.buf[b], v.disk, v.dev, bno), v.refs[b]);
    assert v.refs[b := v.refs[b]] == v.refs;
  }

  /** brelse by the log. */
  lemma DropFrame(v: View, P: set<nat>, mine: set<nat>, alone: bool, b: nat)
    requires UniqueKeys(v.buf)
    requires State(v, P, mine, alone) && v.dev != 0 && b in mine
    requires forall j: nat | j < |v.buf| && v.buf[j].locked :: v.buf[j].refcnt > 0
    ensures b < |v.buf| && v.buf[b].locked && v.buf[b].refcnt > 0
    ensures State(v.(buf := v.buf[b := Released(v.buf[b])]), P, mine - {b}, alone)
  {
    PinnedIs(v, P, mine, b);
    OneBuffer(v, P, mine, mine - {b}, alone, b, Released(v.buf[b]), v.refs[b]);
    assert v.refs[b := v.refs[b]] == v.refs;
  }

  /** A held buffer, with new data and perhaps without its pin, and the disk it was written to:
      `P'` is `P` without the block. */
  lemma SoundWritten(v: View, P: set<nat>, P': set<nat>, mine: set<nat>, b: nat, x: Buf)
    requires Sound(v, P, mine) && v.dev != 0 && UniqueKeys(v.buf) && b < |v.buf| && v.buf[b].dev != 0 && v.buf[b].locked
    requires x == v.buf[b].(data := x.data, refcnt := x.refcnt) && x.blockno < |v.disk| && P' == P - {x.blockno}
    requires x.refcnt == v.buf[b].refcnt - if x.blockno in P then 1 else 0
    ensures Sound(v.(buf := v.buf[b := x], disk := v.disk[x.blockno := x.data]), P', mine)
  {
    assert |P'| <= |P| by {
      assert P == P' + (P - P');
    }
    hide UniqueKeys, Clean, Cached, InUse, Counts;
    CountsWritten(v, P, P', mine, b, x);
    CleanWritten(v, P, P', b, x);
    CachedWritten(v, P, P', b, x);
  }

  lemma CountsWritten(v: View, P: set<nat>, P': set<nat>, mine: set<nat>, b: nat, x: Buf)
    requires InUse(v.buf, v.dev, |v.disk|) && Counts(v.buf, v.refs, P, mine) && UniqueKeys(v.buf)
    requires b < |v.buf| && v.buf[b].dev != 0
    requires x == v.buf[b].(data := x.data, refcnt := x.refcnt) && P' == P - {x.blockno}
    requires x.refcnt == v.buf[b].refcnt - if x.blockno in P then 1 else 0
    ensures InUse(v.buf[b := x], v.dev, |v.disk|) && Counts(v.buf[b := x], v.refs, P', mine)
  {
    OtherBlocks(v, b);
  }

  /** No other buffer has the block of buffer b. */
  lemma OtherBlocks(v: View, b: nat)
    requires InUse(v.buf, v.dev, |v.disk|) && UniqueKeys(v.buf) && b < |v.buf| && v.buf[b].dev != 0
    ensures forall j: nat | j < |v.buf| && j != b && v.buf[j].dev != 0 :: v.buf[j].blockno != v.buf[b].blockno
  {
    forall j: nat | j < |v.buf| && j != b && v.buf[j].dev != 0
      ensures v.buf[j].blockno != v.buf[b].blockno
    {
      assert if j < b then !v.buf[b].Holds(v.buf[j].dev, v.buf[j].blockno)
             else !v.buf[j].Holds(v.buf[b].dev, v.buf[b].blockno);
    }
  }

  lemma CleanWritten(v: View, P: set<nat>, P': set<nat>, b: nat, x: Buf)
    requires Clean(v.buf, v.disk, P) && InUse(v.buf, v.dev, |v.disk|) && UniqueKeys(v.buf) && b < |v.buf|
    requires v.buf[b].dev != 0 && x == v.buf[b].(data := x.data, refcnt := x.refcnt) && x.blockno < |v.disk|
    requires P' == P - {x.blockno}
    ensures Clean(v.buf[b := x], v.disk[x.blockno := x.data], P')
  {
    OtherBlocks(v, b);
  }

  lemma CachedWritten(v: View, P: set<nat>, P': set<nat>, b: nat, x: Buf)
    requires Cached(v.buf, v.dev, P, v.slot) && b < |v.buf| && P' <= P
    requires x == v.buf[b].(data := x.data, refcnt := x.refcnt)
    ensures Cached(v.buf[b := x], v.dev, P', v.slot)
  {
  }

  lemma KnownWritten(v: View, P: set<nat>, P': set<nat>, b: nat, x: Buf)
    requires Known(v.buf, v.disk, v.logical, v.l, P) && b < |v.buf| && P' == P - {x.blockno}
    requires x == v.buf[b].(data := x.data, refcnt := x.refcnt) && x.blockno < |v.disk|
    requires v.l.Home(x.blockno) ==> x.data == v.logical[x.blockno]
    ensures Known(v.buf[b := x], v.disk[x.blockno := x.data], v.logical, v.l, P')
  {
  }

  lemma OursWritten(v: View, mine: set<nat>, b: nat, x: Buf)
    requires Ours(v.buf, v.l, mine) && b < |v.buf| && b in mine && x == v.buf[b].(data := x.data, refcnt := x.refcnt)
    requires x.refcnt != v.buf[b].refcnt ==> v.l.Home(x.blockno)
    ensures Ours(v.buf[b := x], v.l, mine)
  {
  }

  /** A write of a held buffer, which loses its pin if it has one. */
  lemma WriteFrame(v: View, P: set<nat>, P': set<nat>, mine: set<nat>, alone: bool, b: nat, x: Buf)
    requires State(v, P, mine, alone) && v.dev != 0 && UniqueKeys(v.buf) && b in mine && b < |v.buf|
               && v.buf[b].dev != 0
    requires x == v.buf[b].(data := x.data, refcnt := x.refcnt) && x.blockno < |v.disk| && P' == P - {x.blockno}
    requires x.refcnt == v.buf[b].refcnt - if x.blockno in P then 1 else 0
    requires !alone && v.l.Home(x.blockno) ==> x.blockno < |v.logical| && x.data == v.logical[x.blockno]
    ensures State(v.(buf := v.buf[b := x], disk := v.disk[x.blockno := x.data]), P', mine, alone)
  {
    HeldBlock(v, P, mine, alone, b);
    InPool(v, P, mine);
    hide Sound, Known, Ours, NoneElse;
    SoundWritten(v, P, P', mine, b, x);
    OursWritten(v, mine, b, x);
    if !alone {
      KnownWritten(v, P, P', b, x);
    }
  }

  lemma InPool(v: View, P: set<nat>, mine: set<nat>)
    requires Sound(v, P, mine)
    ensures forall x | x in P :: v.l.Home(x)
  {
  }

  /** A block that the log wants is available to it, or others have to give something up. */
  lemma Waiting(v: View, P: set<nat>, mine: set<nat>, alone: bool, bno: nat)
    requires State(v, P, mine, alone) && UniqueKeys(v.buf) && |v.buf| == NBUF && (bno in P || |P| + |mine| < NBUF)
    requires forall j: nat | j < |v.buf| && v.buf[j].locked :: v.buf[j].refcnt > 0
    requires forall j | j in mine && j < NBUF :: !v.buf[j].Holds(v.dev, bno)
    ensures alone ==> Available(v.buf, v.dev, bno)
    ensures bno in P ==> !Absent(v.buf, v.dev, bno)
    ensures bno !in P ==> exists j :: 0 <= j < NBUF && j !in mine && (v.buf[j].dev == 0 || v.buf[j].blockno !in P)
  {
    if bno !in P {
      var k := FreeBuffer(v.buf, v.dev, |v.disk|, P, mine);
    }
  }

  lemma SoundFact(v: View, P: set<nat>, mine: set<nat>)
    requires State(v, P, mine, false)
    ensures Sound(v, P, mine)
  {
  }

  lemma HeldAll(v: View, P: set<nat>, mine: set<nat>)
    requires State(v, P, mine, false)
    ensures forall j | j in mine :: j < |v.buf| && v.buf[j].Same(v.buf[j])
  {
  }

  lemma Boot(v: View)
    requires |v.refs| == |v.buf| && NoneElse(v.refs)
    requires forall j: nat | j < |v.buf| :: v.buf[j].dev == 0 && v.buf[j].refcnt == 0 && !v.buf[j].locked
    ensures State(v, {}, {}, true)
  {
  }

  /** A held buffer is on the disk's list of blocks, and has a reference more if pinned. */
  lemma HeldBlock(v: View, P: set<nat>, mine: set<nat>, alone: bool, b: nat)
    requires State(v, P, mine, alone) && b in mine && b < |v.buf| && v.buf[b].dev != 0
    ensures v.buf[b].blockno < |v.disk| && v.buf[b].locked
    ensures v.buf[b].blockno in P ==> v.buf[b].refcnt > 1
    ensures alone ==> P == {}
  {
  }

  lemma LogBlock(v: View, P: set<nat>, mine: set<nat>, alone: bool, b: nat)
    requires State(v, P, mine, alone) && b in mine && b < |v.buf| && v.buf[b].dev != 0 && !v.l.Home(v.buf[b].blockno)
    ensures v.buf[b].blockno < |v.disk| && v.buf[b].locked && v.buf[b].blockno !in P
  {
  }

  /** Blocks that are not in the log list are on the disk as they were last logged. */
  ghost predicate AgreeBut(logical: Disk, disk: Disk, lh: seq<nat>) {
    |logical| == |disk| && forall b | 0 <= b < |disk| && b !in lh :: logical[b] == disk[b]
  }

  ghost predicate SameHome(d: Disk, e: Disk, l: Layout) {
    |d| == |e| && forall b | 0 <= b < |d| && l.Home(b) :: d[b] == e[b]
  }

  // ---- The cache while clients work on it ----

  /** Buffers hold the logged values, but for those that a client has changed and not yet
      logged, `dirty`. */
  ghost predicate Clients(v: View, P: set<nat>, dirty: set<nat>) {
    && InUse(v.buf, v.dev, |v.disk|) && Ours(v.buf, v.l, {}) && Counts(v.buf, v.refs, P, {})
    && Cached(v.buf, v.dev, P, v.slot) && |v.logical| == |v.disk|
    && (forall j | j in dirty :: j < |v.buf| && v.buf[j].locked)
    && forall j: nat | j < |v.buf| && v.buf[j].dev != 0 && v.buf[j].valid && j !in dirty ::
         v.buf[j].data == v.logical[v.buf[j].blockno]
  }

  /** bread by a client: the buffer has the logged value. */
  lemma ClientReads(v: View, P: set<nat>, dirty: set<nat>, b: nat, bno: nat)
    requires UniqueKeys(v.buf) && Clients(v, P, dirty) && v.dev != 0 && b < |v.buf| && bno < |v.disk| && v.l.Home(bno)
    requires v.buf[b].Holds(v.dev, bno) || (Absent(v.buf, v.dev, bno) && v.buf[b].refcnt == 0)
    requires !v.buf[b].locked && (bno in P || v.disk[bno] == v.logical[bno])
    ensures var x := Loaded(v.buf[b], v.disk, v.dev, bno);
            && b !in dirty && |v.logical| == |v.disk| && x.data == v.logical[bno] && |v.refs| == |v.buf|
            && Clients(v.(buf := v.buf[b := x], refs := v.refs[b := v.refs[b] + 1]), P, dirty)
  {
    assert bno in P ==> v.slot[bno] == b;
  }

  lemma ClientModifies(v: View, P: set<nat>, dirty: set<nat>, b: nat, data: Block)
    requires Clients(v, P, dirty) && b < |v.buf| && v.buf[b].locked
    ensures Clients(v.(buf := v.buf[b := v.buf[b].(data := data)]), P, dirty + {b})
  {
  }

  lemma ClientReleases(v: View, P: set<nat>, dirty: set<nat>, b: nat)
    requires Clients(v, P, dirty) && b < |v.buf| && v.buf[b].locked && b !in dirty
    ensures |v.refs| == |v.buf| && v.refs[b] > 0 && v.buf[b].refcnt > 0
    ensures Clients(v.(buf := v.buf[b := Released(v.buf[b])], refs := v.refs[b := v.refs[b] - 1]), P, dirty)
  {
  }

  /** log_write: what the buffer holds becomes the logged value. */
  lemma ClientLogs(v: View, P: set<nat>, dirty: set<nat>, b: nat)
    requires UniqueKeys(v.buf) && Clients(v, P, dirty) && b < |v.buf| && v.buf[b].dev == v.dev != 0
    ensures v.buf[b].blockno < |v.logical|
    ensures Clients(v.(logical := v.logical[v.buf[b].blockno := v.buf[b].data]), P, dirty - {b})
  {
    OtherBlocks(v, b);
  }

  /** The pin of a block that is new in the log. */
  lemma ClientPins(v: View, P: set<nat>, dirty: set<nat>, b: nat)
    requires UniqueKeys(v.buf) && Clients(v, P, dirty) && b < |v.buf| && v.buf[b].dev == v.dev != 0 && v.buf[b].valid
    requires v.buf[b].locked && v.buf[b].blockno !in P && v.l.Home(v.buf[b].blockno)
    ensures var x := v.buf[b].(refcnt := v.buf[b].refcnt + 1);
            Clients(v.(buf := v.buf[b := x], slot := v.slot[x.blockno := b]), P + {x.blockno}, dirty)
  {
  }

  /** Nothing is changed and not logged any more: commit can run. */
  lemma ClientsDone(v: View, P: set<nat>)
    requires Clients(v, P, {}) && |P| < NBUF && forall x | x in P :: x < |v.disk| && v.l.Home(x)
    requires forall b | 0 <= b < |v.disk| && b !in P :: v.logical[b] == v.disk[b]
    ensures State(v, P, {}, false)
  {
  }

  // ---- When no other process holds up a commit ----

  /** Nobody but the log has a lock, and some buffer is neither pinned nor referred to. */
  ghost predicate Still(v: View, P: set<nat>, mine: set<nat>) {
    && (forall j: nat | j < |v.buf| && v.buf[j].locked :: j in mine)
    && exists j: nat :: Unclaimed(v, P, j)
  }

  ghost predicate Unclaimed(v: View, P: set<nat>, j: nat) {
    j < |v.buf| && j < |v.refs| && v.refs[j] == 0 && !Pinned(v.buf[j], P)
  }

  /** Before a commit that is what the buffers themselves say. */
  lemma StillStart(v: View, P: set<nat>)
    requires Counts(v.buf, v.refs, P, {})
    requires Unlocked(v.buf) && Spare(v.buf)
    ensures Still(v, P, {})
  {
    var j :| 0 <= j < |v.buf| && v.buf[j].refcnt == 0;
    assert Unclaimed(v, P, j);
  }

  predicate Unlocked(buf: seq<Buf>) {
    forall j: nat | j < |buf| :: !buf[j].locked
  }

  /** Every buffer has the references it had, but for one less on each buffer of a block in
      `lh`. */
  ghost predicate OneLess(was: seq<Buf>, now: seq<Buf>, lh: seq<nat>) {
    |now| == |was| && forall j: nat | j < |was| ::
      now[j].refcnt == was[j].refcnt - if was[j].dev != 0 && was[j].blockno in lh then 1 else 0
  }

  /** The account before and after a commit, if the clients' part is the same. */
  lemma PinsGone(was: seq<Buf>, now: seq<Buf>, refs: seq<nat>, lh: seq<nat>)
    requires Counts(was, refs, Elems(lh), {}) && Counts(now, refs, {}, {})
    ensures OneLess(was, now, lh)
  {
    forall x | x in lh
      ensures x in Elems(lh)
    {
    }
  }

  lemma HeldPin(v: View, P: set<nat>, mine: set<nat>, b: nat, bno: nat)
    requires Sound(v, P, mine) && UniqueKeys(v.buf) && b < |v.buf| && v.dev != 0
    requires v.buf[b].Holds(v.dev, bno) || (Absent(v.buf, v.dev, bno) && v.buf[b].refcnt == 0)
    ensures bno in P ==> Pinned(v.buf[b], P)
  {
    PinnedIs(v, P, mine, b);
  }

  lemma StillHeld(v: View, P: set<nat>, mine: set<nat>, b: nat, x: Buf)
    requires Still(v, P, mine) && b < |v.buf| && (Pinned(x, P) ==> Pinned(v.buf[b], P))
    ensures Still(v.(buf := v.buf[b := x]), P, mine + {b})
  {
    var j: nat :| Unclaimed(v, P, j);
    assert Unclaimed(v.(buf := v.buf[b := x]), P, j);
  }

  /** The log does something to a buffer it holds, and perhaps releases it or takes its pin. */
  lemma StillDone(v: View, P: set<nat>, P': set<nat>, mine: set<nat>, mine': set<nat>, b: nat, x: Buf, disk: Disk)
    requires Still(v, P, mine) && b < |v.buf| && x.dev == v.buf[b].dev && x.blockno == v.buf[b].blockno
    requires P' <= P && mine - {b} <= mine' && (x.locked ==> b in mine')
    ensures Still(v.(buf := v.buf[b := x], disk := disk), P', mine')
  {
    var j: nat :| Unclaimed(v, P, j);
    assert Unclaimed(v.(buf := v.buf[b := x], disk := disk), P', j);
  }

  /** Then the log finds the buffer of a block without waiting. */
  lemma StillFree(v: View, P: set<nat>, mine: set<nat>, bno: nat)
    requires Still(v, P, mine) && Counts(v.buf, v.refs, P, mine) && Cached(v.buf, v.dev, P, v.slot)
    requires bno in P || mine == {}
    ensures Absent(v.buf, v.dev, bno) ==> Spare(v.buf)
  {
    var j: nat :| Unclaimed(v, P, j);
    assert bno !in P ==> v.buf[j].refcnt == 0;
  }

  /** Clients that refer to fewer buffers than the log leaves unpinned find a buffer to recycle:
      bget does not panic. */
  lemma BuffersLeft(v: View, P: set<nat>, dirty: set<nat>, held: set<nat>)
    requires UniqueKeys(v.buf) && Clients(v, P, dirty) && |P| + |held| < |v.buf|
    requires forall j: nat | j < |v.buf| && v.refs[j] > 0 :: j in held
    ensures Spare(v.buf)
  {
    var j := FreeBuffer(v.buf, v.dev, |v.disk|, P, held);
    assert v.buf[j].refcnt == 0;
  }

  /** The log blocks of `d` hold the logged values. */
  ghost predicate Committed(d: Disk, l: Layout, lh: seq<nat>, logical: Disk) {
    && |logical| == |d| && Loggable(d, l, lh) && l.start + |lh| < |d|
    && forall t | 0 <= t < |lh| :: d[l.start + t + 1] == logical[lh[t]]
  }

  lemma HeaderCommitted(d: Disk, g: Disk, l: Layout, lh: seq<nat>, logical: Disk)
    requires l.Fits(d) && Loggable(d, l, lh) && |logical| == |d|
    requires HoldsLog(d, g, l, Values(logical, lh), |lh|)
    ensures Committed(WithHead(g, l, lh), l, lh, logical)
  {
    var h := g[l.start := PutHead(g[l.start], lh, |lh|)];
    forall t | 0 <= t < |lh|
      ensures h[l.start + t + 1] == logical[lh[t]]
    {
      assert h[l.start + t + 1] == g[l.start + t + 1] == Values(logical, lh)[t];
    }
  }

  /** A finished commit leaves the logged values at home and an empty log. */
  lemma CommitDone(d: Disk, l: Layout, lh: seq<nat>, logical: Disk)
    requires Quiet(d, l) && Loggable(d, l, lh) && AgreeBut(logical, d, lh)
    ensures var e := CommitImage(d, l, lh, Values(logical, lh), 2 * |lh| + 2);
            Quiet(e, l) && SameHome(e, logical, l)
  {
    var e := CommitImage(d, l, lh, Values(logical, lh), 2 * |lh| + 2);
    CommitAtomic(d, l, lh, Values(logical, lh), 2 * |lh| + 2);
    forall b | 0 <= b < |d| && l.Home(b)
      ensures e[b] == logical[b]
    {
      assert AfterRecovery(e, l, b) == e[b];
    }
  }

  class FsLog {
    const cache: BufferCache
    const l: Layout
    const dev: nat
    var lh: seq<nat>        // log.lh.block[..log.lh.n]
    var outstanding: int
    var committing: bool

    /** The value last logged for each block: what bread must return. */
    ghost var logical: Disk
    ghost var slot: map<nat, nat>
    /** How many references the clients have to each buffer: one if a client holds it, and one
        for each that waits for it. */
    ghost var refs: seq<nat>
    /** Whether other processes go on using buffers while a commit runs.  If not, they only
        give up what the commit would otherwise wait for. */
    const busy: bool
    /** Held buffers changed since they were read or logged. */
    ghost var dirty: set<nat>

    ghost function Now(): View
      reads this`slot, this`logical, this`refs, cache
    {
      View(cache.buf, refs, cache.disk, logical, l, dev, slot)
    }

    /** Between any two steps of commit or recovery. */
    ghost predicate During(P: set<nat>, mine: set<nat>, alone: bool)
      reads this`slot, this`logical, this`refs, cache
    {
      cache.Valid() && l.Fits(cache.disk) && dev != 0 && State(Now(), P, mine, alone)
    }

    /** Nothing that other processes do gets in the way. */
    ghost predicate Idle(P: set<nat>, mine: set<nat>)
      reads this`slot, this`logical, this`refs, cache
    {
      !busy && Still(Now(), P, mine)
    }

    lemma Facts(P: set<nat>, mine: set<nat>, alone: bool)
      requires During(P, mine, alone)
      ensures l.Fits(cache.disk) && |P| < NBUF && |cache.buf| == NBUF
      ensures forall x | x in P :: x < |cache.disk| && l.Home(x)
      ensures if alone then P == {} else |logical| == |cache.disk|
    {
    }

    /** Between any two operations of the clients. */
    ghost predicate Valid()
      reads this, cache
    {
      && cache.Valid() && l.Fits(cache.disk) && dev != 0 && l.size <= NBUF
      && Quiet(cache.disk, l) && Loggable(cache.disk, l, lh)
      && (outstanding >= 0 && (committing ==> outstanding == 0))
      && AgreeBut(logical, cache.disk, lh) && Clients(Now(), Elems(lh), dirty)
    }

    /** initlog: recovery from whatever the last crash left on the disk, before any other
        process runs. */
    constructor (cache: BufferCache, l: Layout, dev: nat, busy: bool)
      requires cache.Valid() && dev != 0 && l.size <= NBUF && HeaderOk(cache.disk, l)
      requires forall j: nat | j < NBUF :: cache.buf[j].dev == 0 && cache.buf[j].refcnt == 0
      modifies cache
      ensures Valid() && this.cache == cache && this.l == l && this.dev == dev && this.busy == busy
      ensures forall j: nat | j < NBUF :: cache.buf[j].refcnt == 0
      ensures lh == [] && outstanding == 0 && !committing && dirty == {}
      ensures logical == cache.disk
      ensures cache.disk == RecoveryImage(old(cache.disk), l, HeadCount(old(cache.disk), l) + 1)
      ensures cache.images ==
                RecoveryTrace(old(cache.images), old(cache.disk), l, HeadCount(old(cache.disk), l) + 1)
    {
      this.cache, this.l, this.dev, this.busy := cache, l, dev, busy;
      refs := seq(NBUF, j => 0);
      lh, outstanding, committing := [], 0, false;
      logical, slot, dirty := [], map[], {};
      new;
      Boot(Now());
      Recover();
    }

    /** recover_from_log */
    method Recover()
      requires During({}, {}, true) && HeaderOk(cache.disk, l) && dirty == {} && outstanding == 0 && !committing
      requires l.size <= NBUF
      modifies this`lh, this`logical, this`refs, cache
      ensures Valid() && lh == [] && logical == cache.disk
      ensures forall j: nat | j < NBUF :: cache.buf[j].refcnt == 0
      ensures cache.disk == RecoveryImage(old(cache.disk), l, HeadCount(old(cache.disk), l) + 1)
      ensures cache.images ==
                RecoveryTrace(old(cache.images), old(cache.disk), l, HeadCount(old(cache.disk), l) + 1)
    {
      hide During, Resting, Valid, Clients;
      Facts({}, {}, true);
      ghost var d0, i0 := cache.disk, cache.images;
      ReadHead();
      InstallTrans(true, {});
      RecoveryPhases(i0, d0, l, |lh|);
      lh := [];
      WriteHead({}, true);
      RecoveryCompletes(d0, l);
      NobodyElse();
      AtRest(true);
      logical := cache.disk;
      Rested();
    }

    lemma NobodyElse()
      requires During({}, {}, true)
      ensures forall j: nat | j < NBUF :: cache.buf[j].refcnt == 0
    {
    }

    // ---- Other processes ----

    /** Another process takes a reference to the buffer of a home block, in bget. */
    method OtherGets(bno: nat, ghost P: set<nat>, ghost mine: set<nat>)
      requires During(P, mine, false) && bno < |cache.disk| && l.Home(bno)
      requires Absent(cache.buf, dev, bno) ==> exists j :: 0 <= j < NBUF && cache.buf[j].refcnt == 0
      modifies cache`buf, this`refs
      ensures During(P, mine, false) && forall j | j in mine :: j < NBUF && cache.buf[j].Same(old(cache.buf)[j])
    {
      hide State;
      ghost var v := Now();
      var b := cache.Bget(dev, bno);
      GetFrame(v, P, mine, b, bno);
      refs := refs[b := refs[b] + 1];
    }

    /** One that has waited, or need not wait, gets the lock and its bread returns: what it
        reads is the logged value of the block, whatever commit has done so far. */
    method OtherReads(b: nat, ghost P: set<nat>, ghost mine: set<nat>)
      requires During(P, mine, false) && b < NBUF && Waits(cache.buf[b], P)
      modifies cache`buf
      ensures During(P, mine, false) && b !in mine && cache.buf[b].locked
      ensures cache.buf == old(cache.buf)[b := cache.buf[b]]
      ensures cache.buf[b].refcnt == old(cache.buf)[b].refcnt
      ensures cache.buf[b].Holds(dev, old(cache.buf)[b].blockno) && cache.buf[b].blockno < |logical|
      ensures cache.buf[b].data == logical[cache.buf[b].blockno]
    {
      hide State;
      ReadFrame(Now(), P, mine, b);
      cache.Lock(b);
      cache.Load(b);
      assert cache.buf == old(cache.buf)[b := Fetched(old(cache.buf)[b], cache.disk)];
    }

    /** One that holds a buffer releases it. */
    method OtherReleases(b: nat, ghost P: set<nat>, ghost mine: set<nat>)
      requires During(P, mine, false) && b < NBUF && cache.buf[b].locked && b !in mine
      modifies cache`buf, cache`next, cache`prev, cache`order, this`refs
      ensures During(P, mine, false)
      ensures cache.buf == old(cache.buf)[b := Released(old(cache.buf)[b])]
    {
      hide State;
      ReleaseFrame(Now(), P, mine, b);
      refs := refs[b := refs[b] - 1];
      cache.Brelse(b);
    }

    /** Whatever other processes do with buffers for a while. */
    method Others(P: set<nat>, mine: set<nat>, alone: bool)
      requires During(P, mine, alone)
      modifies cache`buf, cache`next, cache`prev, cache`order, this`refs
      ensures During(P, mine, alone) && forall j | j in mine :: j < NBUF && cache.buf[j].Same(old(cache.buf)[j])
      ensures !busy ==> cache.buf == old(cache.buf) && refs == old(refs)
    {
      if alone || !busy {
        return;
      }
      var n: nat := *;
      while n > 0
        invariant During(P, mine, false) && forall j | j in mine :: j < NBUF && cache.buf[j].Same(old(cache.buf)[j])
      {
        var b: nat, bno: nat := *, *;
        if b < NBUF && cache.buf[b].locked && b !in mine {
          OtherReleases(b, P, mine);
        } else if b < NBUF && Waits(cache.buf[b], P) {
          OtherReads(b, P, mine);
        } else if bno < |cache.disk| && l.Home(bno) && Spare(cache.buf) {
          OtherGets(bno, P, mine);
        }
        n := n - 1;
      }
    }

    lemma NoWait(P: set<nat>, mine: set<nat>, bno: nat)
      requires During(P, mine, false) && Idle(P, mine) && (bno in P || mine == {})
      ensures Absent(cache.buf, dev, bno) ==> Spare(cache.buf)
    {
      StillFree(Now(), P, mine, bno);
    }

    /** Waiting until the lock of a block can be had and, if the block is not cached, until
        there is a free buffer: `j` is one that is neither pinned nor the log's own. */
    method Await(bno: nat, P: set<nat>, mine: set<nat>, alone: bool)
      requires During(P, mine, alone) && bno < |cache.disk| && (bno in P || |P| + |mine| < NBUF)
      requires forall j | j in mine && j < NBUF :: !cache.buf[j].Holds(dev, bno)
      modifies cache`buf, cache`next, cache`prev, cache`order, this`refs
      ensures During(P, mine, alone) && forall j | j in mine :: j < NBUF && cache.buf[j].Same(old(cache.buf)[j])
      ensures Available(cache.buf, dev, bno)
      ensures !alone && old(Idle(P, mine)) && (bno in P || mine == {}) ==>
                cache.buf == old(cache.buf) && refs == old(refs)
    {
      hide State;
      Others(P, mine, alone);
      Waiting(Now(), P, mine, alone, bno);
      if alone {
        return;
      }
      AwaitLock(bno, P, mine);
      if old(Idle(P, mine)) && (bno in P || mine == {}) {
        NoWait(P, mine, bno);
      }
      if Absent(cache.buf, dev, bno) && !Spare(cache.buf) {
        var j :| 0 <= j < NBUF && j !in mine && (cache.buf[j].dev == 0 || cache.buf[j].blockno !in P);
        FreeUp(j, P, mine);
      }
    }

    /** Whoever holds the buffer of a block releases it. */
    method AwaitLock(bno: nat, P: set<nat>, mine: set<nat>)
      requires During(P, mine, false) && forall j | j in mine && j < NBUF :: !cache.buf[j].Holds(dev, bno)
      modifies cache`buf, cache`next, cache`prev, cache`order, this`refs
      ensures During(P, mine, false) && |old(cache.buf)| == |cache.buf| == NBUF
      ensures old(Idle(P, mine)) ==> cache.buf == old(cache.buf) && refs == old(refs)
      ensures forall j | j in mine :: j < NBUF && cache.buf[j].Same(old(cache.buf)[j])
      ensures forall j: nat | j < NBUF ::
                && cache.buf[j].dev == old(cache.buf)[j].dev && cache.buf[j].blockno == old(cache.buf)[j].blockno
                && !(cache.buf[j].Holds(dev, bno) && cache.buf[j].locked)
    {
      hide State;
      Facts(P, mine, false);
      HeldAll(Now(), P, mine);
      if b :| 0 <= b < NBUF && cache.buf[b].Holds(dev, bno) && cache.buf[b].locked {
        OtherReleases(b, P, mine);
      }
    }

    /** Another process, and whoever waits behind it, is done with buffer j. */
    method FreeUp(j: nat, P: set<nat>, mine: set<nat>)
      requires During(P, mine, false) && j < NBUF && j !in mine
      requires cache.buf[j].dev == 0 || cache.buf[j].blockno !in P
      modifies cache`buf, cache`next, cache`prev, cache`order, this`refs
      ensures During(P, mine, false) && forall i | i in mine :: i < NBUF && cache.buf[i].Same(old(cache.buf)[i])
      ensures cache.buf[j].refcnt == 0
      ensures cache.buf == old(cache.buf)[j := cache.buf[j]]
      ensures cache.buf[j].dev == old(cache.buf)[j].dev && cache.buf[j].blockno == old(cache.buf)[j].blockno
    {
      if cache.buf[j].locked {
        OtherReleases(j, P, mine);
      }
      while cache.buf[j].refcnt > 0
        invariant During(P, mine, false) && forall i | i in mine :: i < NBUF && cache.buf[i].Same(old(cache.buf)[i])
        invariant cache.buf == old(cache.buf)[j := cache.buf[j]] && !cache.buf[j].locked
        invariant cache.buf[j].dev == old(cache.buf)[j].dev && cache.buf[j].blockno == old(cache.buf)[j].blockno
        decreases cache.buf[j].refcnt
      {
        OtherReads(j, P, mine);
        OtherReleases(j, P, mine);
      }
    }

    // ---- The steps of commit and recovery, others coming in between ----

    /** bread by the log. */
    method Hold(bno: nat, P: set<nat>, mine: set<nat>, alone: bool) returns (b: nat)
      requires During(P, mine, alone) && bno < |cache.disk| && (bno in P || |P| + |mine| < NBUF)
      requires forall j | j in mine && j < NBUF :: !cache.buf[j].Holds(dev, bno)
      modifies cache`buf, cache`next, cache`prev, cache`order, this`refs
      ensures During(P, mine + {b}, alone) && b < NBUF == |cache.buf| && b !in mine && cache.buf[b].Holds(dev, bno)
      ensures forall j | j in mine :: j < NBUF && cache.buf[j].Same(old(cache.buf)[j])
      ensures bno !in P ==> cache.buf[b].data == cache.disk[bno]
      ensures bno in P ==> bno < |logical| && cache.buf[b].data == logical[bno]
      ensures !alone && old(Idle(P, mine)) && (bno in P || mine == {}) ==> Idle(P, mine + {b}) && refs == old(refs)
    {
      hide State, Still;
      Await(bno, P, mine, alone);
      ghost var v := Now();
      b := cache.Bread(dev, bno);
      HoldFrame(v, P, mine, alone, b, bno);
      if !alone && old(Idle(P, mine)) && (bno in P || mine == {}) {
        assert v == old(Now());
        SoundFact(v, P, mine);
        HeldPin(v, P, mine, b, bno);
        StillHeld(v, P, mine, b, cache.buf[b]);
      }
    }

    /** memmove and bwrite of a block of the log. */
    method Store(b: nat, data: Block, P: set<nat>, mine: set<nat>, alone: bool)
      requires During(P, mine, alone) && b in mine && b < NBUF && cache.buf[b].dev == dev
      requires !l.Home(cache.buf[b].blockno)
      modifies cache, this`refs
      ensures During(P, mine, alone) && old(cache.buf)[b].blockno < |old(cache.disk)|
      ensures forall j | j in mine :: j < NBUF && cache.buf[j].Same(old(cache.buf)[j].(data := cache.buf[j].data))
      ensures forall j | j in mine && j != b :: j < NBUF && cache.buf[j].data == old(cache.buf)[j].data
      ensures cache.disk == old(cache.disk)[old(cache.buf)[b].blockno := data]
      ensures cache.images == old(cache.images) + [cache.disk]
      ensures old(Idle(P, mine)) ==> Idle(P, mine) && refs == old(refs)
    {
      hide State, Still;
      ghost var v := Now();
      LogBlock(v, P, mine, alone, b);
      cache.Fill(b, data);
      cache.Bwrite(b);
      assert P - {cache.buf[b].blockno} == P;
      WriteFrame(v, P, P, mine, alone, b, cache.buf[b]);
      if Still(v, P, mine) {
        StillDone(v, P, P, mine, mine, b, cache.buf[b], cache.disk);
      }
      Others(P, mine, alone);
    }

    /** brelse by the log. */
    method Drop(b: nat, P: set<nat>, mine: set<nat>, alone: bool)
      requires During(P, mine, alone) && b in mine && b < NBUF
      modifies cache`buf, cache`next, cache`prev, cache`order, this`refs
      ensures During(P, mine - {b}, alone)
      ensures forall j | j in mine - {b} :: j < NBUF && cache.buf[j].Same(old(cache.buf)[j])
      ensures old(Idle(P, mine)) ==> Idle(P, mine - {b}) && refs == old(refs)
    {
      hide State, Still;
      DropFrame(Now(), P, mine, alone, b);
      if Still(Now(), P, mine) {
        StillDone(Now(), P, P, mine, mine - {b}, b, Released(cache.buf[b]), cache.disk);
      }
      cache.Brelse(b);
      Others(P, mine - {b}, alone);
    }

    /** The middle of a round of install_trans: the home block is written, and unpinned unless
        this is recovery. */
    method Settle(b: nat, data: Block, P: set<nat>, mine: set<nat>, recovering: bool)
      requires During(P, mine, recovering) && b in mine && b < NBUF && cache.buf[b].dev == dev
      requires !recovering ==>
                 && cache.buf[b].blockno in P && cache.buf[b].blockno < |logical|
                 && data == logical[cache.buf[b].blockno]
      modifies cache, this`refs
      ensures var bno := old(cache.buf)[b].blockno;
              && During(P - {bno}, mine, recovering) && bno < |old(cache.disk)|
              && cache.disk == old(cache.disk)[bno := data]
      ensures forall j | j in mine && j != b :: j < NBUF && cache.buf[j].Same(old(cache.buf)[j])
      ensures cache.images == old(cache.images) + [cache.disk]
      ensures old(Idle(P, mine)) ==> Idle(P - {old(cache.buf)[b].blockno}, mine) && refs == old(refs)
    {
      hide State, Still;
      ghost var v := Now();
      var bno := cache.buf[b].blockno;
      HeldBlock(v, P, mine, recovering, b);
      cache.Fill(b, data);
      cache.Bwrite(b);
      if !recovering {
        cache.Bunpin(b);
      }
      assert cache.buf == v.buf[b := cache.buf[b]];
      WriteFrame(v, P, P - {bno}, mine, recovering, b, cache.buf[b]);
      if Still(v, P, mine) {
        StillDone(v, P, P - {bno}, mine, mine, b, cache.buf[b], cache.disk);
      }
      Others(P - {bno}, mine, recovering);
    }

    // ---- The loops of commit and recovery ----

    /** One round of write_log: a modified block from the cache to its log block. */
    method LogOne(tail: nat, bno: nat, P: set<nat>)
      requires During(P, {}, false) && tail + 1 < l.size && bno in P
      modifies cache, this`refs
      ensures During(P, {}, false) && bno < |logical| && l.start + tail + 1 < |old(cache.disk)|
      ensures cache.disk == old(cache.disk)[l.start + tail + 1 := logical[bno]]
      ensures cache.images == old(cache.images) + [cache.disk]
      ensures old(Idle(P, {})) ==> Idle(P, {}) && refs == old(refs)
    {
      var x := l.start + tail + 1;
      hide During, Idle;
      Facts(P, {}, false);
      assert !l.Home(x) && x !in P;
      var to := Hold(x, P, {}, false);
      var from := Hold(bno, P, {to}, false);
      assert {} + {to} == {to};
      Store(to, cache.buf[from].data, P, {to} + {from}, false);
      Drop(from, P, {to} + {from}, false);
      assert {to} + {from} - {from} == {to};
      Drop(to, P, {to}, false);
      assert {to} - {to} == {};
    }

    /** The state of write_log after `tail` rounds, on a disk that was `d0` before. */
    ghost predicate Logging(i0: seq<Disk>, d0: Disk, tail: nat, P: set<nat>)
      reads this`lh, this`slot, this`logical, this`refs, cache
    {
      && l.Fits(d0) && |lh| < l.size && |logical| == |d0| && Below(lh, |d0|) && tail <= |lh|
      && P == Elems(lh) && During(P, {}, false)
      && cache.disk == LogImage(d0, l, Values(logical, lh), tail)
      && cache.images == LogTrace(i0, d0, l, Values(logical, lh), tail)
    }

    method LogStep(ghost i0: seq<Disk>, ghost d0: Disk, tail: nat, P: set<nat>)
      requires Logging(i0, d0, tail, P) && tail < |lh|
      modifies cache, this`refs
      ensures Logging(i0, d0, tail + 1, P)
      ensures old(Idle(P, {})) ==> Idle(P, {}) && refs == old(refs)
    {
      hide Idle, During, LogImage, LogTrace, Values;
      LogNext(i0, d0, l, logical, lh, tail);
      LogOne(tail, lh[tail], P);
    }

    /** write_log: modified blocks from the cache to the log. */
    method WriteLog(P: set<nat>)
      requires During(P, {}, false) && P == Elems(lh)
      requires |lh| < l.size && |logical| == |cache.disk| && Below(lh, |logical|)
      modifies cache, this`refs
      ensures During(P, {}, false) && |cache.disk| == |old(cache.disk)|
      ensures l.start + |lh| < |cache.disk|
      ensures cache.disk == LogImage(old(cache.disk), l, Values(logical, lh), |lh|)
      ensures cache.images == LogTrace(old(cache.images), old(cache.disk), l, Values(logical, lh), |lh|)
      ensures old(Idle(P, {})) ==> Idle(P, {}) && refs == old(refs)
    {
      hide During, Below, Idle;
      Facts(P, {}, false);
      ghost var i0, d0 := cache.images, cache.disk;
      var tail := 0;
      while tail < |lh|
        invariant 0 <= tail <= |lh| && Logging(i0, d0, tail, P)
        invariant old(Idle(P, {})) ==> Idle(P, {}) && refs == old(refs)
      {
        LogStep(i0, d0, tail, P);
        tail := tail + 1;
      }
    }

    /** The loop of write_head that fills in `n` and the entries. */
    method EncodeHead(was: Block) returns (head: Block)
      requires |lh| <= LOGSIZE && Below(lh, WORD_LIMIT)
      ensures head == PutHead(was, lh, |lh|)
    {
      head := SetWord(was, 0, |lh|);
      var i := 0;
      while i < |lh|
        invariant 0 <= i <= |lh|
        invariant head == PutHead(was, lh, i)
      {
        head := SetWord(head, i + 1, lh[i]);
        i := i + 1;
      }
    }

    /** write_head.  Words beyond the `n` entries keep what was there before. */
    method WriteHead(P: set<nat>, alone: bool)
      requires During(P, {}, alone) && |lh| <= LOGSIZE && Below(lh, |cache.disk|)
      modifies cache, this`refs
      ensures During(P, {}, alone) && l.start < |old(cache.disk)| <= WORD_LIMIT
      ensures cache.disk == WithHead(old(cache.disk), l, lh)
      ensures cache.images == old(cache.images) + [cache.disk]
      ensures !alone && old(Idle(P, {})) ==> Idle(P, {}) && refs == old(refs)
    {
      hide During, Idle;
      Facts(P, {}, alone);
      assert !l.Home(l.start) && l.start !in P;
      var b := Hold(l.start, P, {}, alone);
      assert {} + {b} == {b} && {b} - {b} == {};
      var head := EncodeHead(cache.buf[b].data);
      Store(b, head, P, {b}, alone);
      Drop(b, P, {b}, alone);
    }

    /** read_head. */
    method ReadHead()
      requires During({}, {}, true) && HeaderOk(cache.disk, l)
      modifies this`lh, this`refs, cache
      ensures During({}, {}, true) && cache.disk == old(cache.disk) && cache.images == old(cache.images)
      ensures lh == HeadList(cache.disk, l)
    {
      hide During;
      var b := Hold(l.start, {}, {}, true);
      assert {} + {b} == {b} && {b} - {b} == {};
      var n := Word(cache.buf[b].data, 0);
      lh := [];
      var i := 0;
      while i < n
        modifies this`lh
        invariant 0 <= i <= n && During({}, {b}, true)
        invariant lh == HeadList(cache.disk, l)[..i]
      {
        lh := lh + [Word(cache.buf[b].data, i + 1)];
        i := i + 1;
      }
      Drop(b, {}, {b}, true);
    }

    /** One round of install_trans: log block `tail` to its home `bno`. */
    method InstallOne(tail: nat, bno: nat, P: set<nat>, recovering: bool)
      requires During(P, {}, recovering) && tail + 1 < l.size && bno < |cache.disk| && l.Home(bno)
      requires l.start + tail + 1 < |cache.disk| && (if recovering then P == {} else bno in P)
      requires !recovering ==> bno < |logical| && cache.disk[l.start + tail + 1] == logical[bno]
      modifies cache, this`refs
      ensures During(P - {bno}, {}, recovering)
      ensures cache.disk == old(cache.disk)[bno := old(cache.disk)[l.start + tail + 1]]
      ensures cache.images == old(cache.images) + [cache.disk]
      ensures !recovering && old(Idle(P, {})) ==> Idle(P - {bno}, {}) && refs == old(refs)
    {
      var x := l.start + tail + 1;
      hide During, Idle;
      Facts(P, {}, recovering);
      assert !l.Home(x) && x !in P;
      var lbuf := Hold(x, P, {}, recovering);
      assert {} + {lbuf} == {lbuf};
      var dbuf := Hold(bno, P, {lbuf}, recovering);
      Settle(dbuf, cache.buf[lbuf].data, P, {lbuf} + {dbuf}, recovering);
      assert {lbuf} + {dbuf} - {lbuf} == {dbuf} && {dbuf} - {dbuf} == {};
      Drop(lbuf, P - {bno}, {lbuf} + {dbuf}, recovering);
      Drop(dbuf, P - {bno}, {dbuf}, recovering);
    }

    /** The state of install_trans after `tail` rounds, on a disk that was `d0` before. */
    ghost predicate Installing(recovering: bool, d0: Disk, tail: nat, P: set<nat>)
      reads this`lh, this`slot, this`logical, this`refs, cache
    {
      && l.Fits(d0) && Loggable(d0, l, lh) && tail <= |lh|
      && P == (if recovering then {} else Elems(lh[tail..]))
      && During(P, {}, recovering)
      && cache.disk == InstallImage(d0, l, lh, tail)
      && (recovering || Committed(d0, l, lh, logical))
    }

    method InstallStep(recovering: bool, ghost d0: Disk, tail: nat, P: set<nat>)
      requires Installing(recovering, d0, tail, P) && tail < |lh|
      modifies cache, this`refs
      ensures Installing(recovering, d0, tail + 1, P - {lh[tail]})
      ensures cache.images == old(cache.images) + [InstallImage(d0, l, lh, tail + 1)]
      ensures !recovering && old(Idle(P, {})) ==> Idle(P - {lh[tail]}, {}) && refs == old(refs)
    {
      InstallSource(d0, l, lh, tail, tail);
      ElemsTail(lh, tail);
      assert !recovering ==> cache.disk[l.start + tail + 1] == logical[lh[tail]];
      hide During, Idle, Committed, InstallImage;
      InstallOne(tail, lh[tail], P, recovering);
    }

    lemma Account(P: set<nat>, alone: bool)
      requires During(P, {}, alone)
      ensures |refs| == |cache.buf| == NBUF && Counts(cache.buf, refs, P, {})
    {
    }

    /** install_trans: committed blocks from the log to their homes. */
    method InstallTrans(recovering: bool, P: set<nat>)
      requires Installing(recovering, cache.disk, 0, P)
      modifies cache, this`refs
      ensures During({}, {}, recovering)
      ensures forall j: nat | j < NBUF :: cache.buf[j].refcnt == refs[j]
      ensures !recovering && old(Idle(P, {})) ==>
                Idle({}, {}) && refs == old(refs) && OneLess(old(cache.buf), cache.buf, lh)
      ensures cache.disk == InstallImage(old(cache.disk), l, lh, |lh|)
      ensures cache.images == InstallTrace(old(cache.images), old(cache.disk), l, lh, |lh|)
    {
      hide During, Idle;
      Account(P, recovering);
      ghost var d0, was := cache.disk, cache.buf;
      var tail, Q := 0, P;
      while tail < |lh|
        invariant 0 <= tail <= |lh|
        invariant Installing(recovering, d0, tail, Q)
        invariant cache.images == InstallTrace(old(cache.images), d0, l, lh, tail)
        invariant !recovering && old(Idle(P, {})) ==> Idle(Q, {}) && refs == old(refs)
      {
        InstallStep(recovering, d0, tail, Q);
        Q := Q - {lh[tail]};
        tail := tail + 1;
      }
      assert Elems(lh[|lh|..]) == {} && lh[0..] == lh;
      Account({}, recovering);
      if !recovering && old(Idle(P, {})) {
        PinsGone(was, cache.buf, refs, lh);
      }
    }

    // ---- commit ----

    lemma CanCommit()
      requires Valid() && dirty == {}
      ensures During(Elems(lh), {}, false) && l.Fits(cache.disk)
      ensures Quiet(cache.disk, l) && Loggable(cache.disk, l, lh) && AgreeBut(logical, cache.disk, lh)
      ensures outstanding >= 0 && (committing ==> outstanding == 0) && l.size <= NBUF
      ensures |logical| == |cache.disk| <= WORD_LIMIT && |lh| <= LOGSIZE && l.start + |lh| < |cache.disk|
      ensures Below(lh, |cache.disk|)
    {
      hide Clients, State;
      ElemsCount(lh);
      ClientsDone(Now(), Elems(lh));
    }

    lemma MayIdle()
      requires During(Elems(lh), {}, false)
      ensures !busy && Unlocked(cache.buf) && Spare(cache.buf) ==> Idle(Elems(lh), {})
    {
      if Unlocked(cache.buf) && Spare(cache.buf) {
        StillStart(Now(), Elems(lh));
      }
    }

    /** The account of references once nothing is pinned any more. */
    lemma AfterPins(was: seq<Buf>, refs0: seq<nat>, lh0: seq<nat>)
      requires During({}, {}, false) && Counts(was, refs0, Elems(lh0), {})
      ensures |refs| == NBUF && forall j: nat | j < NBUF :: cache.buf[j].refcnt == refs[j]
      ensures refs == refs0 ==> OneLess(was, cache.buf, lh0)
    {
      if refs == refs0 {
        PinsGone(was, cache.buf, refs, lh0);
      }
    }

    lemma NothingLogged()
      requires Valid() && lh == []
      ensures logical == cache.disk && SameHome(logical, logical, l) && Elems(lh) == {}
    {
    }

    /** What is left when nothing is pinned any more: every buffer agrees with the disk. */
    ghost predicate Resting()
      reads this`lh, this`slot, this`refs, this`outstanding, this`committing, this`dirty, cache
    {
      && cache.Valid() && l.Fits(cache.disk) && dev != 0 && Ours(cache.buf, l, {})
      && Sound(View(cache.buf, refs, cache.disk, [], l, dev, slot), {}, {})
      && lh == [] && Quiet(cache.disk, l) && dirty == {}
      && outstanding >= 0 && (committing ==> outstanding == 0) && l.size <= NBUF
    }

    lemma AtRest(alone: bool)
      requires During({}, {}, alone) && lh == [] && Quiet(cache.disk, l) && dirty == {}
      requires outstanding >= 0 && (committing ==> outstanding == 0) && l.size <= NBUF
      ensures Resting()
    {
    }

    lemma Rested()
      requires Resting() && logical == cache.disk
      ensures Valid()
    {
      assert Elems([]) == {};
    }

    /** The first half of commit, up to the header write that commits. */
    method LogAndHead(P: set<nat>)
      requires During(P, {}, false) && P == Elems(lh)
      requires Loggable(cache.disk, l, lh) && |logical| == |cache.disk|
      modifies cache, this`refs
      ensures Installing(false, cache.disk, 0, P)
      ensures |cache.disk| == |old(cache.disk)| <= WORD_LIMIT && l.start + |lh| < |cache.disk|
      ensures cache.disk == CommitImage(old(cache.disk), l, lh, Values(logical, lh), |lh| + 1)
      ensures cache.images == CommitTrace(old(cache.images), old(cache.disk), l, lh, Values(logical, lh), |lh| + 1)
      ensures old(Idle(P, {})) ==> Idle(P, {}) && refs == old(refs)
    {
      ghost var d0, vals, i0 := cache.disk, Values(logical, lh), cache.images;
      hide During, Idle, HoldsLog, Committed;
      Facts(P, {}, false);
      WriteLog(P);
      LogImageAt(d0, l, vals, |lh|);
      HeaderCommitted(d0, cache.disk, l, lh, logical);
      WriteHead(P, false);
      CommitPhases(i0, d0, l, lh, vals, |lh| + 1);
      assert lh[0..] == lh;
    }

    /** The second half: install the blocks at home and erase the header. */
    method InstallAndErase(P: set<nat>, ghost i0: seq<Disk>, ghost d0: Disk, ghost vals: seq<Block>)
      requires Installing(false, cache.disk, 0, P)
      requires |vals| == |lh| && l.Fits(d0) && |d0| == |cache.disk|
      requires cache.disk == CommitImage(d0, l, lh, vals, |lh| + 1)
      requires cache.images == CommitTrace(i0, d0, l, lh, vals, |lh| + 1)
      modifies this`lh, this`refs, cache
      ensures During({}, {}, false) && lh == []
      ensures old(Idle(P, {})) ==> refs == old(refs)
      ensures cache.disk == CommitImage(d0, l, old(lh), vals, 2 * |old(lh)| + 2)
      ensures cache.images == CommitTrace(i0, d0, l, old(lh), vals, 2 * |old(lh)| + 2)
    {
      hide During, Idle;
      CommitEnding(i0, d0, l, lh, vals);
      InstallTrans(false, P);
      lh := [];
      WriteHead({}, false);
    }

    lemma CommitBounds()
      requires l.Fits(cache.disk) && Loggable(cache.disk, l, lh) && AgreeBut(logical, cache.disk, lh)
      ensures |lh| <= LOGSIZE && |lh| < l.size && Below(lh, |cache.disk|) && |logical| == |cache.disk| <= WORD_LIMIT
      ensures l.start + |lh| < |cache.disk| && |Values(logical, lh)| == |lh|
    {
    }

    /** The body of commit for a log that is not empty. */
    method CommitBlocks(P: set<nat>)
      requires During(P, {}, false) && P == Elems(lh) && l.Fits(cache.disk)
      requires Quiet(cache.disk, l) && Loggable(cache.disk, l, lh) && AgreeBut(logical, cache.disk, lh)
      modifies this`lh, this`refs, cache
      ensures old(Idle(P, {})) ==> refs == old(refs)
      ensures During({}, {}, false) && lh == [] && Quiet(cache.disk, l) && SameHome(cache.disk, logical, l)
      ensures cache.images == CommitTrace(old(cache.images), old(cache.disk), l, old(lh),
                                          Values(logical, old(lh)), 2 * |old(lh)| + 2)
    {
      hide *;
      CommitBounds();
      ghost var d0, vals, i0 := cache.disk, Values(logical, lh), cache.images;
      LogAndHead(P);
      CommitDone(d0, l, lh, logical);
      InstallAndErase(P, i0, d0, vals);
    }

    /** commit: every disk write of the code, in its order, while other processes read.  The
        images it leaves on the disk are those of LogSpec.CommitImage, so LogSpec.CrashAtomicity
        applies to each. */
    method Commit()
      requires Valid() && dirty == {}
      modifies this`lh, this`logical, this`refs, cache
      ensures Valid() && lh == [] && logical == cache.disk
      ensures SameHome(logical, old(logical), l)
      // The pins are gone: every reference left is a client's, and if no client moves, each
      // buffer of a logged block has exactly one reference less and no other buffer a change.
      ensures forall j: nat | j < NBUF :: cache.buf[j].refcnt == refs[j]
      ensures !busy && Unlocked(old(cache.buf)) && Spare(old(cache.buf)) ==>
                refs == old(refs) && OneLess(old(cache.buf), cache.buf, old(lh))
      ensures if old(lh) == [] then cache.disk == old(cache.disk) && cache.images == old(cache.images)
              else cache.images == CommitTrace(old(cache.images), old(cache.disk), l, old(lh),
                                               Values(old(logical), old(lh)), 2 * |old(lh)| + 2)
    {
      hide *;
      CanCommit();
      Account(Elems(lh), false);
      MayIdle();
      ghost var was, lh0 := cache.buf, lh;
      if |lh| > 0 {
        CommitBlocks(Elems(lh));
        Account({}, false);
        AfterPins(was, old(refs), lh0);
        AtRest(false);
        logical := cache.disk;
        Rested();
      } else {
        NothingLogged();
        AfterPins(was, old(refs), lh0);
      }
    }

    /** bget does not panic for want of a buffer as long as the clients refer to fewer buffers
        than the log leaves unpinned. */
    lemma NeverOut(held: set<nat>)
      requires Valid() && |lh| + |held| < NBUF
      requires forall j: nat | j < |refs| && refs[j] > 0 :: j in held
      ensures Spare(cache.buf)
    {
      ElemsCount(lh);
      BuffersLeft(Now(), Elems(lh), dirty, held);
    }

    // ---- The interface of the file system ----

    /** bread: the buffer holds the value last logged for the block. */
    method Read(bno: nat) returns (b: nat)
      requires Valid() && bno < |cache.disk| && l.Home(bno) && Available(cache.buf, dev, bno)
      modifies cache`buf, this`refs
      ensures Valid() && b < NBUF && b !in dirty
      ensures cache.buf[b].Holds(dev, bno) && cache.buf[b].locked
      ensures cache.buf[b].data == logical[bno]
      ensures cache.buf == old(cache.buf)[b := cache.buf[b]]
      ensures cache.buf[b].refcnt == 1 + (if old(cache.buf)[b].Holds(dev, bno) then old(cache.buf)[b].refcnt else 0)
      ensures b < |old(refs)| && refs == old(refs)[b := old(refs)[b] + 1]
    {
      hide Clients, Quiet, Loggable;
      ghost var v := Now();
      b := cache.Bread(dev, bno);
      ClientReads(v, Elems(lh), dirty, b, bno);
      refs := refs[b := refs[b] + 1];
    }

    /** The client changes the bytes of a buffer it holds. */
    method Modify(b: nat, data: Block)
      requires Valid() && b < NBUF && cache.buf[b].locked
      modifies this`dirty, cache`buf
      ensures Valid() && dirty == old(dirty) + {b}
      ensures cache.buf == old(cache.buf)[b := old(cache.buf)[b].(data := data)]
    {
      hide Clients, Quiet, Loggable;
      ClientModifies(Now(), Elems(lh), dirty, b, data);
      cache.Fill(b, data);
      dirty := dirty + {b};
    }

    /** The end of log_write for a block that is not in the log yet. */
    method Append(b: nat)
      requires Valid() && b < NBUF && cache.buf[b].locked && cache.buf[b].valid && cache.buf[b].dev == dev
      requires l.Home(cache.buf[b].blockno) && cache.buf[b].blockno !in lh
      requires |lh| < LOGSIZE && |lh| < l.size - 1
      modifies this`lh, this`logical, this`slot, this`dirty, cache`buf
      ensures Valid() && old(cache.buf)[b].blockno < |old(logical)|
      ensures logical == old(logical)[old(cache.buf)[b].blockno := old(cache.buf)[b].data]
      ensures lh == old(lh) + [old(cache.buf)[b].blockno] && dirty == old(dirty) - {b}
      ensures cache.buf == old(cache.buf)[b := old(cache.buf)[b].(refcnt := old(cache.buf)[b].refcnt + 1)]
    {
      hide Clients, Quiet;
      var bno := cache.buf[b].blockno;
      assert Elems(lh + [bno]) == Elems(lh) + {bno};
      ClientLogs(Now(), Elems(lh), dirty, b);
      logical := logical[bno := cache.buf[b].data];
      dirty := dirty - {b};
      ClientPins(Now(), Elems(lh), dirty, b);
      cache.Bpin(b);
      slot := slot[bno := b];
      lh := lh + [bno];
    }

    /** log_write.  `ok` is false where the code panics. */
    method LogWrite(b: nat) returns (ok: bool)
      requires Valid() && b < NBUF && cache.buf[b].locked && cache.buf[b].valid && cache.buf[b].dev == dev
      requires l.Home(cache.buf[b].blockno)
      modifies this`lh, this`logical, this`slot, this`dirty, cache`buf
      ensures ok <==> old(|lh|) < LOGSIZE && old(|lh|) < l.size - 1 && outstanding >= 1
      ensures !ok ==> unchanged(this) && unchanged(cache)
      ensures ok ==> var bno := old(cache.buf)[b].blockno;
                && Valid() && bno < |old(logical)|
                && logical == old(logical)[bno := old(cache.buf)[b].data]
                && lh == (if bno in old(lh) then old(lh) else old(lh) + [bno])
                && dirty == old(dirty) - {b}
                && cache.buf == old(cache.buf)[b := old(cache.buf)[b].(refcnt := cache.buf[b].refcnt)]
                && cache.buf[b].refcnt == old(cache.buf)[b].refcnt + if bno in old(lh) then 0 else 1
    {
      hide Clients, Quiet;
      if |lh| >= LOGSIZE || |lh| >= l.size - 1 || outstanding < 1 {
        return false;
      }
      ClientLogs(Now(), Elems(lh), dirty, b);
      var bno := cache.buf[b].blockno;
      var i := 0;
      while i < |lh| && lh[i] != bno
        invariant 0 <= i <= |lh| && bno !in lh[..i]
      {
        i := i + 1;
      }
      if i == |lh| {
        assert lh[..i] == lh;
        Append(b);
      } else {
        assert lh[i := bno] == lh;
        lh := lh[i := bno];
        logical := logical[bno := cache.buf[b].data];
        dirty := dirty - {b};
      }
      return true;
    }

    /** brelse, by a client that has logged its changes. */
    method Release(b: nat)
      requires Valid() && b < NBUF && cache.buf[b].locked && b !in dirty
      modifies cache`buf, cache`next, cache`prev, cache`order, this`refs
      ensures Valid() && old(cache.buf)[b].refcnt > 0
      ensures cache.buf == old(cache.buf)[b := Released(old(cache.buf)[b])]
      ensures b < |old(refs)| && old(refs)[b] > 0 && refs == old(refs)[b := old(refs)[b] - 1]
    {
      hide Clients, Quiet, Loggable;
      ClientReleases(Now(), Elems(lh), dirty, b);
      refs := refs[b := refs[b] - 1];
      cache.Brelse(b);
    }

    /** One pass of the begin_op loop; the caller sleeps when it returns false. */
    method BeginOp() returns (entered: bool)
      requires Valid()
      modifies this`outstanding
      ensures Valid()
      ensures entered <==> !committing && |lh| + (old(outstanding) + 1) * MAXOPBLOCKS <= LOGSIZE
      ensures outstanding == old(outstanding) + (if entered then 1 else 0)
    {
      if committing || |lh| + (outstanding + 1) * MAXOPBLOCKS > LOGSIZE {
        return false;
      }
      outstanding := outstanding + 1;
      return true;
    }

    /** end_op; the last operation out commits.  The code's panic on `committing` cannot
        happen, and while no operation is outstanding every home block on the disk is
        the value last logged for it. */
    method EndOp()
      requires Valid() && outstanding > 0
      requires outstanding == 1 ==> dirty == {}
      modifies this, cache
      ensures Valid() && outstanding == old(outstanding) - 1 && !committing
      ensures SameHome(logical, old(logical), l)
      ensures outstanding == 0 ==> lh == [] && logical == cache.disk
      ensures outstanding == 0 ==> forall j: nat | j < NBUF :: cache.buf[j].refcnt == refs[j]
      ensures outstanding == 0 && !busy && Unlocked(old(cache.buf)) && Spare(old(cache.buf)) ==>
                refs == old(refs) && OneLess(old(cache.buf), cache.buf, old(lh))
      ensures outstanding > 0 ==> cache.buf == old(cache.buf) && refs == old(refs)
      ensures outstanding > 0 || old(lh) == [] ==>
                lh == old(lh) && cache.disk == old(cache.disk) && cache.images == old(cache.images)
      ensures outstanding == 0 && old(lh) != [] ==>
                cache.images == CommitTrace(old(cache.images), old(cache.disk), l, old(lh),
                                            Values(old(logical), old(lh)), 2 * |old(lh)| + 2)
    {
      outstanding := outstanding - 1;
      assert !committing;
      if outstanding == 0 {
        committing := true;
        Commit();
        committing := false;
      }
    }
  }
}
