/** The on-disk redo log of kernel/log.c as pure functions of disk images: what a
    commit writes, what recovery writes, and what a crash at any point leaves.

    One bwrite is one atomic step, so an image after `k` disk writes is exactly
    what a crash between write `k` and write `k + 1` leaves on the disk. */
module LogSpec {
  import opened Blocks
  import opened Counting

  const MAXOPBLOCKS: nat := 10
  const LOGSIZE: nat := 3 * MAXOPBLOCKS

  /** `size` blocks from `start`: the header block, then `size - 1` log blocks. */
  datatype Layout = Layout(start: nat, size: nat)
  {
    predicate Home(b: nat) {
      !(start <= b < start + size)
    }

    ghost predicate Fits(d: Disk) {
      size > 0 && start + size <= |d| <= WORD_LIMIT
    }
  }

  /** A list of block numbers that can be logged: no repeats, none inside the log. */
  ghost predicate Loggable(d: Disk, l: Layout, lh: seq<nat>) {
    && |lh| <= LOGSIZE && |lh| < l.size && Distinct(lh) && Below(lh, |d|)
    && forall i | 0 <= i < |lh| :: l.Home(lh[i])
  }

  function HeadCount(d: Disk, l: Layout): nat
    requires l.start < |d|
  {
    Word(d[l.start], 0)
  }

  function HeadList(d: Disk, l: Layout): (lh: seq<nat>)
    requires l.start < |d| && HeadCount(d, l) <= LOGSIZE
  {
    seq(HeadCount(d, l), i requires 0 <= i < HeadCount(d, l) => Word(d[l.start], i + 1))
  }

  ghost predicate HeaderOk(d: Disk, l: Layout) {
    l.Fits(d) && HeadCount(d, l) <= LOGSIZE && Loggable(d, l, HeadList(d, l))
  }

  ghost function IndexOf(lh: seq<nat>, b: nat): (i: nat)
    requires b in lh
    ensures i < |lh| && lh[i] == b
  {
    var i: nat :| i < |lh| && lh[i] == b;
    i
  }

  /** The content of block `b` once recovery has run: the logged copy if the header
      lists `b`, else what is on the disk. */
  ghost function AfterRecovery(d: Disk, l: Layout, b: nat): Block
    requires HeaderOk(d, l) && b < |d|
  {
    if b in HeadList(d, l) then d[l.start + 1 + IndexOf(HeadList(d, l), b)] else d[b]
  }

  /** Block `b` after the transaction that writes `vals[i]` to `lh[i]`. */
  ghost function Applied(d: Disk, lh: seq<nat>, vals: seq<Block>, b: nat): Block
    requires |lh| == |vals| && b < |d|
  {
    if b in lh then vals[IndexOf(lh, b)] else d[b]
  }

  // ---- The header block ----

  /** The header buffer after write_head has stored `n` and its first `k` entries. */
  function PutHead(b: Block, lh: seq<nat>, k: nat): Block
    requires k <= |lh| <= LOGSIZE && Below(lh, WORD_LIMIT)
  {
    if k == 0 then SetWord(b, 0, |lh|) else SetWord(PutHead(b, lh, k - 1), k, lh[k - 1])
  }

  lemma {:induction false} PutHeadReads(b: Block, lh: seq<nat>, k: nat)
    requires k <= |lh| <= LOGSIZE && Below(lh, WORD_LIMIT)
    ensures Word(PutHead(b, lh, k), 0) == |lh|
    ensures forall i: nat | i < k :: Word(PutHead(b, lh, k), i + 1) == lh[i]
  {
    if k == 0 {
      WordOfSetWord(b, 0, |lh|);
    } else {
      PutHeadReads(b, lh, k - 1);
      WordOfSetWord(PutHead(b, lh, k - 1), k, lh[k - 1]);
    }
  }

  /** The disk right after write_head. */
  function WithHead(d: Disk, l: Layout, lh: seq<nat>): Disk
    requires l.start < |d| && |lh| <= LOGSIZE && Below(lh, WORD_LIMIT)
  {
    d[l.start := PutHead(d[l.start], lh, |lh|)]
  }

  lemma HeadOfWithHead(d: Disk, l: Layout, lh: seq<nat>)
    requires l.Fits(d) && Loggable(d, l, lh)
    ensures HeaderOk(WithHead(d, l, lh), l) && HeadList(WithHead(d, l, lh), l) == lh
  {
    PutHeadReads(d[l.start], lh, |lh|);
    var e := WithHead(d, l, lh);
    assert HeadCount(e, l) == |lh|;
    assert HeadList(e, l) == lh;
  }

  // ---- Images written by commit and by recovery ----

  /** write_log after `k` of its writes. */
  function LogImage(d: Disk, l: Layout, vals: seq<Block>, k: nat): (e: Disk)
    requires k <= |vals| && l.start + |vals| < |d|
    ensures |e| == |d|
  {
    if k == 0 then d else LogImage(d, l, vals, k - 1)[l.start + k := vals[k - 1]]
  }

  /** install_trans after `k` of its writes. */
  function InstallImage(d: Disk, l: Layout, lh: seq<nat>, k: nat): (e: Disk)
    requires k <= |lh| && l.start + |lh| < |d| && Below(lh, |d|)
    ensures |e| == |d|
  {
    if k == 0 then d else
      var e := InstallImage(d, l, lh, k - 1);
      e[lh[k - 1] := e[l.start + k]]
  }

  /** commit after `k` of its `2n + 2` disk writes. */
  function CommitImage(d: Disk, l: Layout, lh: seq<nat>, vals: seq<Block>, k: nat): (e: Disk)
    requires |d| <= WORD_LIMIT && |lh| == |vals| <= LOGSIZE && k <= 2 * |lh| + 2
    requires l.start + |lh| < |d| && Below(lh, |d|)
    ensures |e| == |d|
  {
    var n := |lh|;
    if k <= n then LogImage(d, l, vals, k)
    else
      var h := WithHead(LogImage(d, l, vals, n), l, lh);
      if k <= 2 * n + 1 then InstallImage(h, l, lh, k - n - 1)
      else WithHead(InstallImage(h, l, lh, n), l, [])
  }

  /** recover_from_log after `k` of its `n + 1` disk writes. */
  function RecoveryImage(d: Disk, l: Layout, k: nat): (e: Disk)
    requires l.start < |d| && HeadCount(d, l) <= LOGSIZE && k <= HeadCount(d, l) + 1
    requires l.start + HeadCount(d, l) < |d| && Below(HeadList(d, l), |d|)
    ensures |e| == |d|
  {
    var lh := HeadList(d, l);
    if k <= |lh| then InstallImage(d, l, lh, k)
    else WithHead(InstallImage(d, l, lh, |lh|), l, [])
  }

  // `past` extended with the images left by each of the first `k` writes.

  function LogTrace(past: seq<Disk>, d: Disk, l: Layout, vals: seq<Block>, k: nat): seq<Disk>
    requires k <= |vals| && l.start + |vals| < |d|
  {
    if k == 0 then past else LogTrace(past, d, l, vals, k - 1) + [LogImage(d, l, vals, k)]
  }

  function InstallTrace(past: seq<Disk>, d: Disk, l: Layout, lh: seq<nat>, k: nat): seq<Disk>
    requires k <= |lh| && l.start + |lh| < |d| && Below(lh, |d|)
  {
    if k == 0 then past else InstallTrace(past, d, l, lh, k - 1) + [InstallImage(d, l, lh, k)]
  }

  function CommitTrace(past: seq<Disk>, d: Disk, l: Layout, lh: seq<nat>, vals: seq<Block>, k: nat): seq<Disk>
    requires |d| <= WORD_LIMIT && |lh| == |vals| <= LOGSIZE && k <= 2 * |lh| + 2
    requires l.start + |lh| < |d| && Below(lh, |d|)
  {
    if k == 0 then past else CommitTrace(past, d, l, lh, vals, k - 1) + [CommitImage(d, l, lh, vals, k)]
  }

  function RecoveryTrace(past: seq<Disk>, d: Disk, l: Layout, k: nat): seq<Disk>
    requires l.start < |d| && HeadCount(d, l) <= LOGSIZE && k <= HeadCount(d, l) + 1
    requires l.start + HeadCount(d, l) < |d| && Below(HeadList(d, l), |d|)
  {
    if k == 0 then past else RecoveryTrace(past, d, l, k - 1) + [RecoveryImage(d, l, k)]
  }

  /** commit is write_log, then write_head, then install_trans. */
  lemma {:induction false} CommitPhases(past: seq<Disk>, d: Disk, l: Layout, lh: seq<nat>, vals: seq<Block>, k: nat)
    requires |d| <= WORD_LIMIT && |lh| == |vals| <= LOGSIZE && k <= 2 * |lh| + 1
    requires l.start + |lh| < |d| && Below(lh, |d|)
    ensures var n := |lh|; var h := WithHead(LogImage(d, l, vals, n), l, lh);
            CommitTrace(past, d, l, lh, vals, k) ==
              if k <= n then LogTrace(past, d, l, vals, k)
              else InstallTrace(LogTrace(past, d, l, vals, n) + [h], h, l, lh, k - n - 1)
  {
    if k > 0 {
      CommitPhases(past, d, l, lh, vals, k - 1);
    }
  }

  /** From the committing header write to the end. */
  lemma CommitEnding(past: seq<Disk>, d: Disk, l: Layout, lh: seq<nat>, vals: seq<Block>)
    requires |d| <= WORD_LIMIT && |lh| == |vals| <= LOGSIZE && l.start + |lh| < |d| && Below(lh, |d|)
    ensures var n := |lh|; var h := CommitImage(d, l, lh, vals, n + 1);
            && WithHead(InstallImage(h, l, lh, n), l, []) == CommitImage(d, l, lh, vals, 2 * n + 2)
            && InstallTrace(CommitTrace(past, d, l, lh, vals, n + 1), h, l, lh, n)
                 + [CommitImage(d, l, lh, vals, 2 * n + 2)] == CommitTrace(past, d, l, lh, vals, 2 * n + 2)
  {
    CommitPhases(past, d, l, lh, vals, |lh| + 1);
    CommitPhases(past, d, l, lh, vals, 2 * |lh| + 1);
  }

  lemma {:induction false} RecoveryPhases(past: seq<Disk>, d: Disk, l: Layout, k: nat)
    requires HeaderOk(d, l) && k <= HeadCount(d, l)
    ensures RecoveryTrace(past, d, l, k) == InstallTrace(past, d, l, HeadList(d, l), k)
  {
    if k > 0 {
      RecoveryPhases(past, d, l, k - 1);
    }
  }

  /** `g` is `d` with the first `k` of `vals` in the blocks after the header. */
  ghost predicate HoldsLog(d: Disk, g: Disk, l: Layout, vals: seq<Block>, k: nat) {
    && |g| == |d| && k <= |vals|
    && forall b | 0 <= b < |d| :: g[b] == if l.start < b <= l.start + k then vals[b - l.start - 1] else d[b]
  }

  lemma {:induction false} LogImageAt(d: Disk, l: Layout, vals: seq<Block>, k: nat)
    requires k <= |vals| && l.start + |vals| < |d|
    ensures HoldsLog(d, LogImage(d, l, vals, k), l, vals, k)
  {
    if k > 0 {
      LogImageAt(d, l, vals, k - 1);
    }
  }

  /** Installing copies log block `i` to its home `lh[i]` and touches nothing else. */
  lemma {:induction false} InstallImageAt(d: Disk, l: Layout, lh: seq<nat>, k: nat)
    requires k <= |lh| && l.Fits(d) && Loggable(d, l, lh)
    ensures var e := InstallImage(d, l, lh, k);
            && (forall i | 0 <= i < k :: e[lh[i]] == d[l.start + 1 + i])
            && (forall b | 0 <= b < |d| && b !in lh[..k] :: e[b] == d[b])
  {
    if k > 0 {
      InstallImageAt(d, l, lh, k - 1);
      assert lh[..k] == lh[..k - 1] + [lh[k - 1]];
      assert !l.Home(l.start + k);
    }
  }

  // ---- Crash safety ----

  /** `e` recovers to the home blocks that `d` recovers to. */
  ghost predicate SameRecovery(d: Disk, e: Disk, l: Layout) {
    && HeaderOk(d, l) && HeaderOk(e, l) && |d| == |e|
    && forall b | 0 <= b < |d| && l.Home(b) :: AfterRecovery(e, l, b) == AfterRecovery(d, l, b)
  }

  /** Installing any prefix of the log changes nothing that recovery will produce. */
  lemma InstallKeepsRecovery(d: Disk, l: Layout, k: nat)
    requires HeaderOk(d, l) && k <= HeadCount(d, l)
    ensures SameRecovery(d, InstallImage(d, l, HeadList(d, l), k), l)
    ensures HeadList(InstallImage(d, l, HeadList(d, l), k), l) == HeadList(d, l)
  {
    var lh := HeadList(d, l);
    var e := InstallImage(d, l, lh, k);
    InstallImageAt(d, l, lh, k);
    assert forall b | l.start <= b < l.start + l.size :: b !in lh;
    assert forall b | l.start <= b < l.start + l.size :: e[b] == d[b];
    assert HeadList(e, l) == lh;
    forall b | 0 <= b < |d| && l.Home(b)
      ensures AfterRecovery(e, l, b) == AfterRecovery(d, l, b)
    {
      if b in lh {
        var i := IndexOf(lh, b);
        assert e[l.start + 1 + i] == d[l.start + 1 + i];
      }
    }
  }

  /** After a whole recovery the home blocks are the recovered ones and the log is empty. */
  lemma RecoveryCompletes(d: Disk, l: Layout)
    requires HeaderOk(d, l)
    ensures var e := RecoveryImage(d, l, HeadCount(d, l) + 1);
            && SameRecovery(d, e, l) && HeadList(e, l) == []
            && forall b | 0 <= b < |d| && l.Home(b) :: e[b] == AfterRecovery(d, l, b)
  {
    var lh := HeadList(d, l);
    var f := InstallImage(d, l, lh, |lh|);
    InstallImageAt(d, l, lh, |lh|);
    assert lh[..|lh|] == lh;
    HeadOfWithHead(f, l, []);
    forall b | 0 <= b < |d| && l.Home(b)
      ensures f[b] == AfterRecovery(d, l, b)
    {
      if b in lh {
        assert f[lh[IndexOf(lh, b)]] == d[l.start + 1 + IndexOf(lh, b)];
      }
    }
  }

  /** A crash anywhere inside recovery leaves an image with the same recovery. */
  lemma RecoveryKeepsRecovery(d: Disk, l: Layout, k: nat)
    requires HeaderOk(d, l) && k <= HeadCount(d, l) + 1
    ensures SameRecovery(d, RecoveryImage(d, l, k), l)
  {
    if k <= HeadCount(d, l) {
      InstallKeepsRecovery(d, l, k);
    } else {
      RecoveryCompletes(d, l);
    }
  }

  /** Recovering a second time writes nothing new: recovery is idempotent. */
  lemma RecoveryIdempotent(d: Disk, l: Layout)
    requires HeaderOk(d, l)
    ensures var e := RecoveryImage(d, l, HeadCount(d, l) + 1);
            && HeaderOk(e, l)
            && forall b | 0 <= b < |d| && l.Home(b) :: RecoveryImage(e, l, HeadCount(e, l) + 1)[b] == e[b]
  {
    RecoveryCompletes(d, l);
    RecoveryCompletes(RecoveryImage(d, l, HeadCount(d, l) + 1), l);
  }

  /** What a disk recovers to whose header lists `lh` and whose log blocks hold `vals`. */
  lemma RecoversTo(d: Disk, g: Disk, h: Disk, l: Layout, lh: seq<nat>, vals: seq<Block>)
    requires HeaderOk(h, l) && HeadList(h, l) == lh && |vals| == |lh| && |h| == |g|
    requires HoldsLog(d, g, l, vals, |vals|) && h == g[l.start := h[l.start]]
    ensures forall b | 0 <= b < |d| && l.Home(b) :: AfterRecovery(h, l, b) == Applied(d, lh, vals, b)
  {
    hide Word, HeadList;
    forall b | 0 <= b < |d| && l.Home(b)
      ensures AfterRecovery(h, l, b) == Applied(d, lh, vals, b)
    {
      if b in lh {
        assert h[l.start + 1 + IndexOf(lh, b)] == vals[IndexOf(lh, b)];
      } else {
        assert h[b] == g[b] == d[b];
      }
    }
  }

  /** The header write commits: from then on recovery produces the new blocks. */
  lemma HeaderCommits(d: Disk, l: Layout, lh: seq<nat>, vals: seq<Block>)
    requires l.Fits(d) && Loggable(d, l, lh) && |vals| == |lh|
    ensures var h := WithHead(LogImage(d, l, vals, |lh|), l, lh);
            && HeaderOk(h, l) && HeadList(h, l) == lh
            && forall b | 0 <= b < |d| && l.Home(b) :: AfterRecovery(h, l, b) == Applied(d, lh, vals, b)
  {
    hide Word, HeadList, AfterRecovery, Applied, PutHead, HeaderOk, LogImage, HoldsLog;
    var g := LogImage(d, l, vals, |lh|);
    LogImageAt(d, l, vals, |lh|);
    HeadOfWithHead(g, l, lh);
    var h := WithHead(g, l, lh);
    RecoversTo(d, g, h, l, lh, vals);
  }

  /** No later write of commit changes what recovery produces. */
  lemma InstallAtomic(d: Disk, l: Layout, lh: seq<nat>, vals: seq<Block>, k: nat)
    requires l.Fits(d) && Loggable(d, l, lh) && |vals| == |lh| < k <= 2 * |lh| + 2
    ensures var h := WithHead(LogImage(d, l, vals, |lh|), l, lh); var e := CommitImage(d, l, lh, vals, k);
            SameRecovery(h, e, l) && (k == 2 * |lh| + 2 ==> HeadList(e, l) == [])
  {
    var h := WithHead(LogImage(d, l, vals, |lh|), l, lh);
    HeaderCommits(d, l, lh, vals);
    hide AfterRecovery, Loggable, PutHead, LogImage, InstallImage;
    if k <= 2 * |lh| + 1 {
      InstallKeepsRecovery(h, l, k - |lh| - 1);
    } else {
      RecoveryCompletes(h, l);
    }
  }

  /** What a crash after `k` disk writes of commit recovers to: the old home blocks up
      to and including the last log write, the new ones from the header write on. */
  lemma CommitAtomic(d: Disk, l: Layout, lh: seq<nat>, vals: seq<Block>, k: nat)
    requires Quiet(d, l)
    requires Loggable(d, l, lh) && |vals| == |lh| && k <= 2 * |lh| + 2
    ensures var e := CommitImage(d, l, lh, vals, k);
            && HeaderOk(e, l)
            && (k == 2 * |lh| + 2 ==> HeadList(e, l) == [])
            && forall b | 0 <= b < |d| && l.Home(b) ::
                 AfterRecovery(e, l, b) == if k <= |lh| then d[b] else Applied(d, lh, vals, b)
  {
    if k <= |lh| {
      LogImageAt(d, l, vals, k);
    } else {
      HeaderCommits(d, l, lh, vals);
      InstallAtomic(d, l, lh, vals, k);
    }
  }

  // ---- Any number of crashes ----

  /** `ds[0]` is what the first crash left; each later image is what a further crash,
      during the recovery of the one before it, left. */
  ghost predicate CrashChain(ds: seq<Disk>, l: Layout) {
    && |ds| > 0 && HeaderOk(ds[0], l)
    && forall i | 0 <= i < |ds| - 1 :: HeaderOk(ds[i], l) ==> CrashedRecovery(ds[i], ds[i + 1], l)
  }

  ghost predicate CrashedRecovery(d: Disk, e: Disk, l: Layout)
    requires HeaderOk(d, l)
  {
    exists k: nat {:trigger RecoveryImage(d, l, k)} :: k <= HeadCount(d, l) + 1 && e == RecoveryImage(d, l, k)
  }

  lemma {:induction false} CrashChainKeepsRecovery(ds: seq<Disk>, l: Layout)
    requires CrashChain(ds, l)
    ensures SameRecovery(ds[0], ds[|ds| - 1], l)
  {
    if |ds| > 1 {
      var ds' := ds[..|ds| - 1];
      CrashChainKeepsRecovery(ds', l);
      var d := ds[|ds| - 2];
      assert CrashedRecovery(d, ds[|ds| - 2 + 1], l);
      var k: nat :| k <= HeadCount(d, l) + 1 && ds[|ds| - 1] == RecoveryImage(d, l, k);
      RecoveryKeepsRecovery(d, l, k);
    }
  }

  /** Crash atomicity of commit: crash it after any disk write, then crash recovery any
      number of times, then let recovery finish.  Either every home block is as before
      the transaction or every home block is as after it. */
  lemma CrashAtomicity(d: Disk, l: Layout, lh: seq<nat>, vals: seq<Block>, k: nat, ds: seq<Disk>)
    requires Quiet(d, l)
    requires Loggable(d, l, lh) && |vals| == |lh| && k <= 2 * |lh| + 2
    requires CrashChain(ds, l) && ds[0] == CommitImage(d, l, lh, vals, k)
    ensures var last := ds[|ds| - 1];
            HeaderOk(last, l) && |last| == |d| &&
            forall b | 0 <= b < |d| && l.Home(b) ::
              RecoveryImage(last, l, HeadCount(last, l) + 1)[b]
                == if k <= |lh| then d[b] else Applied(d, lh, vals, b)
  {
    CommitAtomic(d, l, lh, vals, k);
    CrashChainKeepsRecovery(ds, l);
    RecoveryCompletes(ds[|ds| - 1], l);
  }

  // ---- Whole histories ----

  /** A transaction, the number of its disk writes done before power was lost (all of
      them when it was not), and the images left by crashes of the recovery. */
  datatype Txn = Txn(lh: seq<nat>, vals: seq<Block>, writes: nat, crashes: seq<Disk>)

  /** No transaction is on the disk: the log header is empty. */
  ghost predicate Quiet(d: Disk, l: Layout) {
    HeaderOk(d, l) && HeadList(d, l) == []
  }

  ghost predicate TxnOk(d: Disk, l: Layout, t: Txn) {
    && l.Fits(d) && Loggable(d, l, t.lh) && |t.vals| == |t.lh| && t.writes <= 2 * |t.lh| + 2
    && CrashChain(t.crashes, l) && t.crashes[0] == CommitImage(d, l, t.lh, t.vals, t.writes)
  }

  /** The disk after the crashes of `t` and the recovery that at last completes. */
  ghost function Settled(l: Layout, t: Txn): Disk
    requires CrashChain(t.crashes, l)
  {
    var last := t.crashes[|t.crashes| - 1];
    if HeaderOk(last, l) then RecoveryImage(last, l, HeadCount(last, l) + 1) else last
  }

  ghost predicate History(d: Disk, l: Layout, ts: seq<Txn>)
    decreases |ts|
  {
    ts == [] || (TxnOk(d, l, ts[0]) && History(Settled(l, ts[0]), l, ts[1..]))
  }

  ghost function FinalDisk(d: Disk, l: Layout, ts: seq<Txn>): Disk
    requires History(d, l, ts)
    decreases |ts|
  {
    if ts == [] then d else FinalDisk(Settled(l, ts[0]), l, ts[1..])
  }

  ghost function HomeMap(d: Disk, l: Layout): map<nat, Block> {
    map b: nat | b < |d| && l.Home(b) :: d[b]
  }

  /** The reference: home blocks as a plain map, a transaction all or nothing. */
  ghost function Step(m: map<nat, Block>, t: Txn): map<nat, Block>
    requires |t.lh| == |t.vals|
  {
    if t.writes <= |t.lh| then m
    else map b | b in m :: if b in t.lh then t.vals[IndexOf(t.lh, b)] else m[b]
  }

  ghost function Replay(m: map<nat, Block>, ts: seq<Txn>): map<nat, Block>
    requires forall t | t in ts :: |t.lh| == |t.vals|
    decreases |ts|
  {
    if ts == [] then m else Replay(Step(m, ts[0]), ts[1..])
  }

  lemma TxnIsAtomic(d: Disk, l: Layout, t: Txn)
    requires Quiet(d, l) && TxnOk(d, l, t)
    ensures Quiet(Settled(l, t), l)
    ensures HomeMap(Settled(l, t), l) == Step(HomeMap(d, l), t)
  {
    CrashAtomicity(d, l, t.lh, t.vals, t.writes, t.crashes);
    RecoveryCompletes(t.crashes[|t.crashes| - 1], l);
  }

  /** Over any history of commits, crashes and recoveries the home blocks follow the
      reference, and a transaction counts exactly when its header write was done. */
  lemma {:induction false} HistoryIsAtomic(d: Disk, l: Layout, ts: seq<Txn>)
    requires Quiet(d, l) && History(d, l, ts)
    ensures forall t | t in ts :: |t.lh| == |t.vals|
    ensures HomeMap(FinalDisk(d, l, ts), l) == Replay(HomeMap(d, l), ts)
    decreases |ts|
  {
    if ts != [] {
      TxnIsAtomic(d, l, ts[0]);
      HistoryIsAtomic(Settled(l, ts[0]), l, ts[1..]);
    }
  }
}
