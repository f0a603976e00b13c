/** The log and the file system together: after any crashes and the recovery that at last
    completes, the disk holds a consistent file system whose files are all as before the
    operation or all as after it. */
module CrashFs {
  import opened Blocks
  import opened Counting
  import opened LogSpec
  import opened FsLayout
  import opened FsInv
  import opened Fs
  import Log

  /** The file system lives above the log. */
  ghost predicate Above(l: Layout, sb: Super) {
    l.start + l.size <= sb.inodestart
  }

  /** The blocks from the first inode block on decide everything. */
  lemma HomeFrame(d: Disk, d': Disk, sb: Super, tab: seq<Dinode>, owner: map<nat, Place>)
    requires Consistent(d, sb, tab, owner, -1) && |d'| == |d|
    requires forall b | sb.inodestart <= b < |d| :: d'[b] == d[b]
    ensures Consistent(d', sb, tab, owner, -1) && SameFiles(d, tab, d', tab)
  {
    hide Ref, BitAt, InodeAt, FileOf;
    RefsFrame(d, d', sb, tab, owner);
    FilesFrame(d, d', sb, tab, owner);
    OnDiskFrame(d, d', sb, tab, tab, -1);
    BitsFrame(d, d', sb, owner.Keys);
  }

  /** An operation that logged what it changed is a transaction: applying its blocks to
      the disk it began on gives the disk it ended on. */
  lemma OperationIsTransaction(d: Disk, d': Disk, lh: seq<nat>)
    requires Below(lh, |d'|) && Recorded(d, d', Elems(lh))
    ensures forall b | 0 <= b < |d| :: Applied(d, lh, Log.Values(d', lh), b) == d'[b]
  {
  }

  /** Crash safety of a file system operation that took `d` to `d'` and logged `lh`: crash
      its commit after any disk write, crash recovery any number of times, let it finish. */
  lemma CrashSafe(sb: Super, l: Layout, d: Disk, tab: seq<Dinode>, owner: map<nat, Place>,
                  d': Disk, tab': seq<Dinode>, owner': map<nat, Place>, lh: seq<nat>, k: nat, ds: seq<Disk>)
    requires Above(l, sb) && Quiet(d, l) && Loggable(d, l, lh) && Below(lh, |d'|)
    requires Consistent(d, sb, tab, owner, -1) && Consistent(d', sb, tab', owner', -1)
    requires Recorded(d, d', Elems(lh))
    requires k <= 2 * |lh| + 2 && CrashChain(ds, l) && ds[0] == CommitImage(d, l, lh, Log.Values(d', lh), k)
    ensures var last := ds[|ds| - 1];
            HeaderOk(last, l) &&
            var r := RecoveryImage(last, l, HeadCount(last, l) + 1);
            && (k <= |lh| ==> Consistent(r, sb, tab, owner, -1) && SameFiles(d, tab, r, tab))
            && (k > |lh| ==> Consistent(r, sb, tab', owner', -1) && SameFiles(d', tab', r, tab'))
  {
    hide Consistent;
    CrashAtomicity(d, l, lh, Log.Values(d', lh), k, ds);
    OperationIsTransaction(d, d', lh);
    var last := ds[|ds| - 1];
    var r := RecoveryImage(last, l, HeadCount(last, l) + 1);
    RecoveryCompletes(last, l);
    if k <= |lh| {
      HomeFrame(d, r, sb, tab, owner);
    } else {
      HomeFrame(d', r, sb, tab', owner');
    }
  }

  /** What an operation has logged can be a transaction: home blocks only, each of them once. */
  lemma LoggedIsLoggable(sb: Super, l: Layout, base: Disk, d: Disk, logged: set<nat>, bitmaps: set<nat>, lh: seq<nat>)
    requires Noted(sb, base, d, logged, bitmaps) && sb.Fits(d) && Above(l, sb)
    requires Distinct(lh) && Elems(lh) == logged && |lh| <= LOGSIZE && |lh| < l.size
    ensures Loggable(base, l, lh) && Below(lh, |d|)
  {
    forall i | 0 <= i < |lh|
      ensures sb.inodestart <= lh[i] < sb.size
    {
      assert lh[i] in Elems(lh);
    }
  }

  // ---- The commit of Log.FsLog ----

  lemma {:induction false} TraceAt(past: seq<Disk>, d: Disk, l: Layout, lh: seq<nat>, vals: seq<Block>, k: nat, i: nat)
    requires |d| <= WORD_LIMIT && |lh| == |vals| <= LOGSIZE && k <= 2 * |lh| + 2
    requires l.start + |lh| < |d| && Below(lh, |d|)
    ensures |CommitTrace(past, d, l, lh, vals, k)| == |past| + k
    ensures i < k ==> CommitTrace(past, d, l, lh, vals, k)[|past| + i] == CommitImage(d, l, lh, vals, i + 1)
  {
    if k > 0 {
      TraceAt(past, d, l, lh, vals, k - 1, i);
    }
  }

  /** `e`, left by a crash, recovers to a consistent file system with the files of `d` or with
      those of `d'`, however often the recovery crashes. */
  ghost predicate OldOrNew(e: Disk, l: Layout, sb: Super, d: Disk, tab: seq<Dinode>, owner: map<nat, Place>,
                           d': Disk, tab': seq<Dinode>, owner': map<nat, Place>) {
    forall ds | CrashChain(ds, l) && ds[0] == e :: Settles(ds[|ds| - 1], l, sb, d, tab, owner, d', tab', owner')
  }

  ghost predicate Settles(last: Disk, l: Layout, sb: Super, d: Disk, tab: seq<Dinode>, owner: map<nat, Place>,
                          d': Disk, tab': seq<Dinode>, owner': map<nat, Place>) {
    HeaderOk(last, l) &&
    var r := RecoveryImage(last, l, HeadCount(last, l) + 1);
    || (Consistent(r, sb, tab, owner, -1) && SameFiles(d, tab, r, tab))
    || (Consistent(r, sb, tab', owner', -1) && SameFiles(d', tab', r, tab'))
  }

  /** Every image that a commit leaves on the disk. */
  lemma ImagesSettle(past: seq<Disk>, d: Disk, l: Layout, lh: seq<nat>, d': Disk, sb: Super, tab: seq<Dinode>,
                     owner: map<nat, Place>, tab': seq<Dinode>, owner': map<nat, Place>, i: nat)
    requires Above(l, sb) && Quiet(d, l) && Loggable(d, l, lh) && Log.AgreeBut(d', d, lh)
    requires Consistent(d, sb, tab, owner, -1) && Consistent(d', sb, tab', owner', -1)
    requires i < 2 * |lh| + 2
    ensures |CommitTrace(past, d, l, lh, Log.Values(d', lh), 2 * |lh| + 2)| == |past| + 2 * |lh| + 2
    ensures OldOrNew(CommitTrace(past, d, l, lh, Log.Values(d', lh), 2 * |lh| + 2)[|past| + i],
                     l, sb, d, tab, owner, d', tab', owner')
  {
    hide Consistent, CommitImage, Quiet, Loggable, Settles;
    CommitFits(d, l, lh);
    TraceAt(past, d, l, lh, Log.Values(d', lh), 2 * |lh| + 2, i);
    var e := CommitImage(d, l, lh, Log.Values(d', lh), i + 1);
    forall ds | CrashChain(ds, l) && ds[0] == e
      ensures Settles(ds[|ds| - 1], l, sb, d, tab, owner, d', tab', owner')
    {
      OneSettles(d, l, lh, d', sb, tab, owner, tab', owner', i, ds);
    }
  }

  /** The images from number `n` on. */
  ghost predicate AllSettle(images: seq<Disk>, n: nat, l: Layout, sb: Super, d: Disk, tab: seq<Dinode>,
                            owner: map<nat, Place>, d': Disk, tab': seq<Dinode>, owner': map<nat, Place>) {
    n <= |images| && forall i | n <= i < |images| :: OldOrNew(images[i], l, sb, d, tab, owner, d', tab', owner')
  }

  lemma TraceSettles(past: seq<Disk>, d: Disk, l: Layout, lh: seq<nat>, d': Disk, sb: Super, tab: seq<Dinode>,
                     owner: map<nat, Place>, tab': seq<Dinode>, owner': map<nat, Place>)
    requires Above(l, sb) && Quiet(d, l) && Loggable(d, l, lh) && Log.AgreeBut(d', d, lh)
    requires Consistent(d, sb, tab, owner, -1) && Consistent(d', sb, tab', owner', -1)
    ensures |d| <= WORD_LIMIT && |lh| <= LOGSIZE && l.start + |lh| < |d| && Below(lh, |d|)
    ensures AllSettle(CommitTrace(past, d, l, lh, Log.Values(d', lh), 2 * |lh| + 2), |past|,
                      l, sb, d, tab, owner, d', tab', owner')
  {
    hide Consistent, OldOrNew, CommitTrace, Quiet, Loggable;
    CommitFits(d, l, lh);
    var trace := CommitTrace(past, d, l, lh, Log.Values(d', lh), 2 * |lh| + 2);
    ImagesSettle(past, d, l, lh, d', sb, tab, owner, tab', owner', 0);
    forall i | |past| <= i < |trace|
      ensures OldOrNew(trace[i], l, sb, d, tab, owner, d', tab', owner')
    {
      ImagesSettle(past, d, l, lh, d', sb, tab, owner, tab', owner', i - |past|);
    }
  }

  lemma CommitFits(d: Disk, l: Layout, lh: seq<nat>)
    requires Quiet(d, l) && Loggable(d, l, lh)
    ensures |d| <= WORD_LIMIT && |lh| <= LOGSIZE && l.start + |lh| < |d| && Below(lh, |d|)
  {
  }

  lemma OneSettles(d: Disk, l: Layout, lh: seq<nat>, d': Disk, sb: Super, tab: seq<Dinode>, owner: map<nat, Place>,
                   tab': seq<Dinode>, owner': map<nat, Place>, i: nat, ds: seq<Disk>)
    requires Above(l, sb) && Quiet(d, l) && Loggable(d, l, lh) && Log.AgreeBut(d', d, lh)
    requires Consistent(d, sb, tab, owner, -1) && Consistent(d', sb, tab', owner', -1)
    requires i < 2 * |lh| + 2 && CrashChain(ds, l) && ds[0] == CommitImage(d, l, lh, Log.Values(d', lh), i + 1)
    ensures Settles(ds[|ds| - 1], l, sb, d, tab, owner, d', tab', owner')
  {
    hide Consistent, CommitImage, Quiet, Loggable, HeaderOk;
    CommitFits(d, l, lh);
    CrashSafe(sb, l, d, tab, owner, d', tab', owner', lh, i + 1, ds);
  }

  /** commit on a disk that holds a file system, when the logged values hold one too: crash it
      anywhere, while other processes read, and crash recovery any number of times, and the files
      are all as before or all as logged.  When it is not crashed, they are as logged. */
  method CommitFiles(log: Log.FsLog, sb: Super, ghost tab: seq<Dinode>, ghost owner: map<nat, Place>,
                     ghost tab': seq<Dinode>, ghost owner': map<nat, Place>)
    requires log.Valid() && log.dirty == {} && Above(log.l, sb)
    requires Consistent(log.cache.disk, sb, tab, owner, -1) && Consistent(log.logical, sb, tab', owner', -1)
    modifies log`lh, log`logical, log`refs, log.cache
    ensures log.Valid() && log.lh == []
    ensures Consistent(log.cache.disk, sb, tab', owner', -1)
    ensures SameFiles(old(log.logical), tab', log.cache.disk, tab')
    ensures AllSettle(log.cache.images, |old(log.cache.images)|, log.l, sb,
                      old(log.cache.disk), tab, owner, old(log.logical), tab', owner')
  {
    hide Consistent, OldOrNew, CommitTrace;
    ghost var d, d', lh, past := log.cache.disk, log.logical, log.lh, log.cache.images;
    CanStart(log);
    TraceSettles(past, d, log.l, lh, d', sb, tab, owner, tab', owner');
    log.Commit();
    HomeFrame(d', log.cache.disk, sb, tab', owner');
  }

  lemma CanStart(log: Log.FsLog)
    requires log.Valid()
    ensures Quiet(log.cache.disk, log.l) && Loggable(log.cache.disk, log.l, log.lh)
    ensures Log.AgreeBut(log.logical, log.cache.disk, log.lh)
  {
  }

  // ---- Whole histories ----

  /** The disk holds a consistent file system. */
  ghost predicate HoldsFs(d: Disk, sb: Super) {
    exists tab, owner :: Consistent(d, sb, tab, owner, -1)
  }

  /** Every transaction, applied as a whole to the disk it meets, is a file system
      operation: it takes a consistent file system to a consistent one. */
  ghost predicate Operations(d: Disk, l: Layout, sb: Super, ts: seq<Txn>)
    requires History(d, l, ts)
    decreases |ts|
  {
    ts == [] ||
    (&& (exists d' :: IsOperation(d, d', sb, ts[0]))
     && Operations(Settled(l, ts[0]), l, sb, ts[1..]))
  }

  ghost predicate IsOperation(d: Disk, d': Disk, sb: Super, t: Txn) {
    && HoldsFs(d', sb) && Below(t.lh, |d'|) && t.vals == Log.Values(d', t.lh)
    && Recorded(d, d', Elems(t.lh))
  }

  /** What Fs.FileSystem leaves after any of its operations, whose methods all ensure Valid, is
      an operation in this sense, in whatever order its blocks are listed. */
  lemma FileSystemOperates(fs: FileSystem, l: Layout, t: Txn)
    requires fs.Valid() && Above(l, fs.sb) && Quiet(fs.base, l)
    requires Distinct(t.lh) && Elems(t.lh) == fs.logged && |t.lh| <= LOGSIZE && |t.lh| < l.size
    requires Below(t.lh, |fs.d|) && t.vals == Log.Values(fs.d, t.lh) && t.writes <= 2 * |t.lh| + 2
    requires l.start + |t.lh| < |fs.base| <= WORD_LIMIT && Below(t.lh, |fs.base|)
    requires CrashChain(t.crashes, l) && t.crashes[0] == CommitImage(fs.base, l, t.lh, t.vals, t.writes)
    ensures TxnOk(fs.base, l, t) && IsOperation(fs.base, fs.d, fs.sb, t)
  {
    hide CrashChain, HeaderOk;
    LoggedIsLoggable(fs.sb, l, fs.base, fs.d, fs.logged, fs.bitmaps, t.lh);
    assert Consistent(fs.d, fs.sb, fs.tab, fs.owner, -1);
  }

  /** A disk with a file system still holds one after any history of operations, crashes
      and recoveries. */
  lemma {:induction false} HistoryKeepsFs(d: Disk, l: Layout, sb: Super, ts: seq<Txn>)
    requires Above(l, sb) && Quiet(d, l) && HoldsFs(d, sb) && History(d, l, ts) && Operations(d, l, sb, ts)
    ensures HoldsFs(FinalDisk(d, l, ts), sb)
    decreases |ts|
  {
    hide Consistent, Loggable, HeaderOk, Recorded, CrashChain, CommitImage, RecoveryImage, HomeMap;
    if ts != [] {
      var t := ts[0];
      var tab, owner :| Consistent(d, sb, tab, owner, -1);
      var d' :| IsOperation(d, d', sb, t);
      var tab', owner' :| Consistent(d', sb, tab', owner', -1);
      CrashSafe(sb, l, d, tab, owner, d', tab', owner', t.lh, t.writes, t.crashes);
      TxnIsAtomic(d, l, t);
      HistoryKeepsFs(Settled(l, t), l, sb, ts[1..]);
    }
  }
}
