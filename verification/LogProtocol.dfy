/** Group commit in kernel/log.c as a transition system: any number of processes in
    begin_op, log_write, end_op and commit, interleaved at their lock sections. */
module LogProtocol {
  import opened Counting
  import opened LogSpec

  /** `size` is log.size; every operation logs at most `opBlocks` distinct blocks. */
  datatype Config = Config(procs: nat, size: nat, opBlocks: nat)

  datatype Pc =
    | Outside
    | Asleep                      // sleeping on &log in begin_op
    | Awake                       // woken, about to test again
    | InOp(used: set<nat>)        // between begin_op and end_op, with the blocks it logged
    | Writing                     // in commit, before log.lh.n = 0
    | Erased                      // in commit, after log.lh.n = 0

  datatype State = State(pc: seq<Pc>, lh: set<nat>, outstanding: int, committing: bool)

  ghost function Woken(pc: seq<Pc>): seq<Pc> {
    seq(|pc|, i requires 0 <= i < |pc| => if pc[i] == Asleep then Awake else pc[i])
  }

  // ---- Steps of process p ----

  ghost predicate Full(s: State) {
    s.committing || |s.lh| + (s.outstanding + 1) * MAXOPBLOCKS > LOGSIZE
  }

  ghost predicate Begin(s: State, t: State, p: nat) {
    && p < |s.pc| && (s.pc[p] == Outside || s.pc[p] == Awake)
    && t == if Full(s) then s.(pc := s.pc[p := Asleep])
            else s.(pc := s.pc[p := InOp({})], outstanding := s.outstanding + 1)
  }

  /** Process p calls log_write on block b, which its operation is entitled to. */
  ghost predicate CallsLogWrite(c: Config, s: State, p: nat, b: nat) {
    p < |s.pc| && s.pc[p].InOp? && |s.pc[p].used + {b}| <= c.opBlocks
  }

  /** The guard of log_write: "too big a transaction". */
  ghost predicate TooBig(c: Config, s: State) {
    |s.lh| >= LOGSIZE || |s.lh| >= c.size - 1
  }

  ghost predicate LogWrite(c: Config, s: State, t: State, p: nat, b: nat) {
    && CallsLogWrite(c, s, p, b) && !TooBig(c, s)
    && t == s.(pc := s.pc[p := InOp(s.pc[p].used + {b})], lh := s.lh + {b})
  }

  ghost predicate End(s: State, t: State, p: nat) {
    && p < |s.pc| && s.pc[p].InOp?
    && t == if s.outstanding == 1 then
              s.(pc := s.pc[p := Writing], outstanding := 0, committing := true)
            else
              s.(pc := Woken(s.pc[p := Outside]), outstanding := s.outstanding - 1)
  }

  ghost predicate Erase(s: State, t: State, p: nat) {
    p < |s.pc| && s.pc[p] == Writing && t == s.(pc := s.pc[p := Erased], lh := {})
  }

  ghost predicate Finish(s: State, t: State, p: nat) {
    p < |s.pc| && s.pc[p] == Erased && t == s.(pc := Woken(s.pc[p := Outside]), committing := false)
  }

  /** kill wakes a sleeper for another reason. */
  ghost predicate Kill(s: State, t: State, p: nat) {
    p < |s.pc| && s.pc[p] == Asleep && t == s.(pc := s.pc[p := Awake])
  }

  datatype Move =
    | MBegin(p: nat) | MLogWrite(p: nat, b: nat) | MEnd(p: nat)
    | MErase(p: nat) | MFinish(p: nat) | MKill(p: nat)

  ghost predicate Step(c: Config, s: State, t: State, m: Move) {
    match m
    case MBegin(p) => Begin(s, t, p)
    case MLogWrite(p, b) => LogWrite(c, s, t, p, b)
    case MEnd(p) => End(s, t, p)
    case MErase(p) => Erase(s, t, p)
    case MFinish(p) => Finish(s, t, p)
    case MKill(p) => Kill(s, t, p)
  }

  ghost predicate Next(c: Config, s: State, t: State) {
    exists m :: Step(c, s, t, m)
  }

  ghost predicate Init(c: Config, s: State) {
    s == State(seq(c.procs, i => Outside), {}, 0, false)
  }

  ghost predicate Run(c: Config, tr: seq<State>) {
    && |tr| > 0 && Init(c, tr[0])
    && forall i | 0 <= i < |tr| - 1 :: Next(c, tr[i], tr[i + 1])
  }

  ghost predicate Reachable(c: Config, s: State) {
    exists tr :: Run(c, tr) && tr[|tr| - 1] == s
  }

  lemma Extend(c: Config, s: State, t: State)
    requires Reachable(c, s) && Next(c, s, t)
    ensures Reachable(c, t)
  {
    var tr :| Run(c, tr) && tr[|tr| - 1] == s;
    assert Run(c, tr + [t]);
  }

  // ---- Totals over the processes ----

  ghost function Total(pc: seq<Pc>, f: Pc -> int): int {
    if pc == [] then 0 else Total(pc[..|pc| - 1], f) + f(pc[|pc| - 1])
  }

  lemma {:induction false} TotalUpdate(pc: seq<Pc>, f: Pc -> int, p: nat, x: Pc)
    requires p < |pc|
    ensures Total(pc[p := x], f) == Total(pc, f) - f(pc[p]) + f(x)
  {
    var n := |pc| - 1;
    if p < n {
      assert pc[p := x][..n] == pc[..n][p := x];
      TotalUpdate(pc[..n], f, p, x);
    } else {
      assert pc[p := x][..n] == pc[..n];
    }
  }

  lemma {:induction false} TotalWoken(pc: seq<Pc>, f: Pc -> int)
    requires f(Asleep) == f(Awake)
    ensures Total(Woken(pc), f) == Total(pc, f)
  {
    if pc != [] {
      var n := |pc| - 1;
      assert Woken(pc)[..n] == Woken(pc[..n]);
      TotalWoken(pc[..n], f);
    }
  }

  /** A summand is at most the total when none is negative. */
  lemma {:induction false} TotalAtLeast(pc: seq<Pc>, f: Pc -> int, p: nat)
    requires p < |pc| && forall i | 0 <= i < |pc| :: f(pc[i]) >= 0
    ensures Total(pc, f) >= f(pc[p]) && Total(pc, f) >= 0
  {
    var n := |pc| - 1;
    var rest := pc[..n];
    assert forall i | 0 <= i < n :: rest[i] == pc[i];
    if n > 0 {
      TotalAtLeast(rest, f, if p < n then p else 0);
    }
  }

  lemma {:induction false} TotalZero(pc: seq<Pc>, f: Pc -> int)
    requires forall i | 0 <= i < |pc| :: f(pc[i]) == 0
    ensures Total(pc, f) == 0
  {
    if pc != [] {
      var rest := pc[..|pc| - 1];
      assert forall i | 0 <= i < |rest| :: rest[i] == pc[i];
      TotalZero(rest, f);
    }
  }

  ghost function Ops(): Pc -> int {
    (x: Pc) => if x.InOp? then 1 else 0
  }

  /** Log slots the operations in progress may still use, at `k` blocks each. */
  ghost function Left(k: nat): Pc -> int {
    (x: Pc) => if x.InOp? then k - |x.used| else 0
  }

  // ---- The invariant ----

  ghost predicate InCommit(x: Pc) { x == Writing || x == Erased }

  ghost predicate Inv(c: Config, s: State) {
    && |s.pc| == c.procs
    && s.outstanding == Total(s.pc, Ops()) >= 0
    && (forall p | 0 <= p < |s.pc| && s.pc[p].InOp? :: s.pc[p].used <= s.lh && |s.pc[p].used| <= c.opBlocks)
    && (s.committing ==> s.outstanding == 0)
    && (forall p | 0 <= p < |s.pc| && InCommit(s.pc[p]) :: s.committing)
    && (forall p, q | 0 <= p < |s.pc| && 0 <= q < |s.pc| && p != q && InCommit(s.pc[p]) :: !InCommit(s.pc[q]))
    && (s.committing ==> exists p :: 0 <= p < |s.pc| && InCommit(s.pc[p]))
    && (forall p | 0 <= p < |s.pc| && s.pc[p] == Erased :: s.lh == {})
    && (s.outstanding == 0 && !s.committing ==> s.lh == {})
    && (forall p | 0 <= p < |s.pc| && s.pc[p] == Asleep :: s.committing || s.outstanding > 0)
    && (c.opBlocks <= MAXOPBLOCKS ==> Reserved(c, s))
  }

  /** Logged blocks and reserved slots together fit the log. */
  ghost predicate Reserved(c: Config, s: State) {
    && |s.lh| + Total(s.pc, Left(MAXOPBLOCKS)) <= LOGSIZE
    && |s.lh| + Total(s.pc, Left(c.opBlocks)) <= MAXOPBLOCKS + 2 * c.opBlocks
  }

  lemma InitInv(c: Config, s: State)
    requires Init(c, s)
    ensures Inv(c, s)
  {
    TotalZero(s.pc, Ops());
    TotalZero(s.pc, Left(MAXOPBLOCKS));
    TotalZero(s.pc, Left(c.opBlocks));
  }

  lemma {:induction false} LeftAtMost(pc: seq<Pc>, k: nat)
    ensures Total(pc, Left(k)) <= k * Total(pc, Ops())
  {
    if pc != [] {
      LeftAtMost(pc[..|pc| - 1], k);
    }
  }

  lemma BeginReserves(c: Config, s: State, t: State, p: nat)
    requires Inv(c, s) && Begin(s, t, p) && !Full(s) && c.opBlocks <= MAXOPBLOCKS
    ensures Reserved(c, t)
  {
    var k := c.opBlocks;
    TotalUpdate(s.pc, Left(MAXOPBLOCKS), p, InOp({}));
    TotalUpdate(s.pc, Left(k), p, InOp({}));
    LeftAtMost(s.pc, MAXOPBLOCKS);
    LeftAtMost(s.pc, k);
    if s.outstanding == 0 {
      assert |s.lh| == 0;
    } else if s.outstanding == 1 {
      assert Total(s.pc, Left(k)) <= k;
    } else {
      assert s.outstanding == 2;
      assert Total(s.pc, Left(k)) <= 2 * k;
    }
  }

  lemma BeginSleeps(c: Config, s: State, t: State, p: nat)
    requires Inv(c, s) && Begin(s, t, p) && Full(s)
    ensures Inv(c, t)
  {
    TotalUpdate(s.pc, Ops(), p, Asleep);
    assert c.opBlocks <= MAXOPBLOCKS ==> Reserved(c, t) by {
      TotalUpdate(s.pc, Left(MAXOPBLOCKS), p, Asleep);
      TotalUpdate(s.pc, Left(c.opBlocks), p, Asleep);
    }
    hide Reserved;
    assert s.outstanding == 0 && !s.committing ==> |s.lh| == 0;
    if s.committing {
      var q :| 0 <= q < |s.pc| && InCommit(s.pc[q]);
      assert InCommit(t.pc[q]);
    }
  }

  lemma BeginInv(c: Config, s: State, t: State, p: nat)
    requires Inv(c, s) && Begin(s, t, p)
    ensures Inv(c, t)
  {
    if Full(s) {
      BeginSleeps(c, s, t, p);
    } else {
      if c.opBlocks <= MAXOPBLOCKS {
        BeginReserves(c, s, t, p);
      }
      hide Reserved;
      TotalUpdate(s.pc, Ops(), p, InOp({}));
    }
  }

  lemma LogWriteReserves(c: Config, s: State, t: State, p: nat, b: nat)
    requires Inv(c, s) && LogWrite(c, s, t, p, b) && c.opBlocks <= MAXOPBLOCKS
    ensures Reserved(c, t)
  {
    TotalUpdate(s.pc, Left(MAXOPBLOCKS), p, t.pc[p]);
    TotalUpdate(s.pc, Left(c.opBlocks), p, t.pc[p]);
    assert b in s.pc[p].used ==> s.pc[p].used + {b} == s.pc[p].used && s.lh + {b} == s.lh;
  }

  lemma LogWriteInv(c: Config, s: State, t: State, p: nat, b: nat)
    requires Inv(c, s) && LogWrite(c, s, t, p, b)
    ensures Inv(c, t)
  {
    TotalUpdate(s.pc, Ops(), p, t.pc[p]);
    TotalAtLeast(s.pc, Ops(), p);
    if c.opBlocks <= MAXOPBLOCKS {
      LogWriteReserves(c, s, t, p, b);
    }
  }

  lemma EndReserves(c: Config, s: State, t: State, p: nat)
    requires Inv(c, s) && End(s, t, p) && c.opBlocks <= MAXOPBLOCKS
    ensures Reserved(c, t)
  {
    var x := if s.outstanding == 1 then Writing else Outside;
    TotalUpdate(s.pc, Left(MAXOPBLOCKS), p, x);
    TotalUpdate(s.pc, Left(c.opBlocks), p, x);
    TotalWoken(s.pc[p := x], Left(MAXOPBLOCKS));
    TotalWoken(s.pc[p := x], Left(c.opBlocks));
  }

  /** The last operation out goes on to commit. */
  lemma EndLast(c: Config, s: State, t: State, p: nat)
    requires Inv(c, s) && End(s, t, p) && s.outstanding == 1
    ensures Inv(c, t)
  {
    if c.opBlocks <= MAXOPBLOCKS {
      EndReserves(c, s, t, p);
    }
    hide Reserved;
    TotalUpdate(s.pc, Ops(), p, Writing);
    assert InCommit(t.pc[p]);
    assert !s.committing;
  }

  /** The others wake whoever sleeps. */
  lemma EndMore(c: Config, s: State, t: State, p: nat)
    requires Inv(c, s) && End(s, t, p) && s.outstanding > 1
    ensures Inv(c, t)
  {
    if c.opBlocks <= MAXOPBLOCKS {
      EndReserves(c, s, t, p);
    }
    hide Reserved;
    TotalUpdate(s.pc, Ops(), p, Outside);
    TotalWoken(s.pc[p := Outside], Ops());
    assert !s.committing && forall q | 0 <= q < |t.pc| :: !InCommit(t.pc[q]) && t.pc[q] != Asleep;
  }

  lemma EndInv(c: Config, s: State, t: State, p: nat)
    requires Inv(c, s) && End(s, t, p)
    ensures Inv(c, t)
  {
    TotalAtLeast(s.pc, Ops(), p);
    hide Reserved;
    if s.outstanding == 1 {
      EndLast(c, s, t, p);
    } else {
      EndMore(c, s, t, p);
    }
  }

  lemma EraseInv(c: Config, s: State, t: State, p: nat)
    requires Inv(c, s) && Erase(s, t, p)
    ensures Inv(c, t)
  {
    TotalUpdate(s.pc, Ops(), p, Erased);
    TotalUpdate(s.pc, Left(MAXOPBLOCKS), p, Erased);
    TotalUpdate(s.pc, Left(c.opBlocks), p, Erased);
    assert InCommit(t.pc[p]);
    NoOps(s.pc);
  }

  lemma {:induction false} NoOps(pc: seq<Pc>)
    requires Total(pc, Ops()) == 0
    ensures forall i | 0 <= i < |pc| :: !pc[i].InOp?
  {
    forall i | 0 <= i < |pc|
      ensures !pc[i].InOp?
    {
      TotalAtLeast(pc, Ops(), i);
    }
  }

  lemma FinishInv(c: Config, s: State, t: State, p: nat)
    requires Inv(c, s) && Finish(s, t, p)
    ensures Inv(c, t)
  {
    TotalUpdate(s.pc, Ops(), p, Outside);
    TotalUpdate(s.pc, Left(MAXOPBLOCKS), p, Outside);
    TotalUpdate(s.pc, Left(c.opBlocks), p, Outside);
    TotalWoken(s.pc[p := Outside], Ops());
    TotalWoken(s.pc[p := Outside], Left(MAXOPBLOCKS));
    TotalWoken(s.pc[p := Outside], Left(c.opBlocks));
  }

  lemma KillInv(c: Config, s: State, t: State, p: nat)
    requires Inv(c, s) && Kill(s, t, p)
    ensures Inv(c, t)
  {
    assert c.opBlocks <= MAXOPBLOCKS ==> Reserved(c, t) by {
      TotalUpdate(s.pc, Left(MAXOPBLOCKS), p, Awake);
      TotalUpdate(s.pc, Left(c.opBlocks), p, Awake);
    }
    hide Reserved;
    TotalUpdate(s.pc, Ops(), p, Awake);
    if s.committing {
      var q :| 0 <= q < |s.pc| && InCommit(s.pc[q]);
      assert InCommit(t.pc[q]);
    }
  }

  lemma NextInv(c: Config, s: State, t: State)
    requires Inv(c, s) && Next(c, s, t)
    ensures Inv(c, t)
  {
    var m :| Step(c, s, t, m);
    match m
    case MBegin(p) => BeginInv(c, s, t, p);
    case MLogWrite(p, b) => LogWriteInv(c, s, t, p, b);
    case MEnd(p) => EndInv(c, s, t, p);
    case MErase(p) => EraseInv(c, s, t, p);
    case MFinish(p) => FinishInv(c, s, t, p);
    case MKill(p) => KillInv(c, s, t, p);
  }

  lemma {:induction false} RunInv(c: Config, tr: seq<State>)
    requires Run(c, tr)
    ensures Inv(c, tr[|tr| - 1])
  {
    if |tr| == 1 {
      InitInv(c, tr[0]);
    } else {
      var tr' := tr[..|tr| - 1];
      assert Run(c, tr');
      RunInv(c, tr');
      assert Next(c, tr[|tr| - 2], tr[|tr| - 2 + 1]);
      NextInv(c, tr[|tr| - 2], tr[|tr| - 1]);
    }
  }

  // ---- What holds in every run ----

  lemma Safety(c: Config, s: State)
    requires Reachable(c, s)
    ensures s.committing ==> s.outstanding == 0
    ensures s.outstanding == 0 && !s.committing ==> s.lh == {}
    ensures c.opBlocks <= MAXOPBLOCKS ==> |s.lh| + Total(s.pc, Left(MAXOPBLOCKS)) <= LOGSIZE
    // end_op's panic("log.committing") and log_write's panic outside a transaction
    ensures forall p | 0 <= p < |s.pc| && s.pc[p].InOp? :: !s.committing && s.outstanding >= 1
    // no process sleeps on &log unless a commit or an operation will still wake it
    ensures forall p | 0 <= p < |s.pc| && s.pc[p] == Asleep ::
              exists q :: 0 <= q < |s.pc| && (s.pc[q].InOp? || InCommit(s.pc[q]))
  {
    var tr :| Run(c, tr) && tr[|tr| - 1] == s;
    RunInv(c, tr);
    forall p | 0 <= p < |s.pc| && s.pc[p].InOp?
      ensures !s.committing && s.outstanding >= 1
    {
      TotalAtLeast(s.pc, Ops(), p);
    }
    if !s.committing && forall q | 0 <= q < |s.pc| :: !s.pc[q].InOp? {
      TotalZero(s.pc, Ops());
    }
  }

  /** While a commit is in progress the logged set is frozen: only the committing process
      changes it, by erasing it. */
  lemma CommitFreezes(c: Config, s: State, t: State)
    requires Reachable(c, s) && Next(c, s, t) && s.committing && t.lh != s.lh
    ensures t.lh == {} && exists p :: 0 <= p < |s.pc| <= |t.pc| && s.pc[p] == Writing && t.pc[p] == Erased
  {
    Safety(c, s);
    var m :| Step(c, s, t, m);
    assert m.MErase?;
    assert s.pc[m.p] == Writing && t.pc[m.p] == Erased;
  }

  /** Whoever sleeps on the log still has a reason to: the log is full, or a commit runs. */
  ghost predicate SleepIsNeeded(s: State) {
    forall p | 0 <= p < |s.pc| && s.pc[p] == Asleep :: Full(s)
  }

  lemma StepSleepIsNeeded(c: Config, s: State, t: State, m: Move)
    requires SleepIsNeeded(s) && Step(c, s, t, m)
    requires forall p | 0 <= p < |s.pc| && InCommit(s.pc[p]) :: s.committing
    ensures SleepIsNeeded(t)
  {
    assert m.MErase? ==> InCommit(s.pc[m.p]);
    if m.MLogWrite? {
      assert s.lh <= t.lh;
      SubsetSize(s.lh, t.lh);
    }
  }

  lemma {:induction false} RunSleepIsNeeded(c: Config, tr: seq<State>)
    requires Run(c, tr)
    ensures SleepIsNeeded(tr[|tr| - 1])
  {
    if |tr| > 1 {
      var tr' := tr[..|tr| - 1];
      assert Run(c, tr');
      RunInv(c, tr');
      RunSleepIsNeeded(c, tr');
      assert Next(c, tr[|tr| - 2], tr[|tr| - 2 + 1]);
      var m :| Step(c, tr[|tr| - 2], tr[|tr| - 1], m);
      StepSleepIsNeeded(c, tr[|tr| - 2], tr[|tr| - 1], m);
    }
  }

  /** In every reachable state nobody sleeps in begin_op who could enter: whatever makes room
      wakes the sleepers. */
  lemma NobodyOversleeps(c: Config, s: State, p: nat)
    requires Reachable(c, s) && p < |s.pc| && s.pc[p] == Asleep
    ensures s.committing || |s.lh| + (s.outstanding + 1) * MAXOPBLOCKS > LOGSIZE
  {
    var tr :| Run(c, tr) && tr[|tr| - 1] == s;
    RunSleepIsNeeded(c, tr);
  }

  // ---- Every process can get on ----

  ghost predicate Leads(c: Config, tr: seq<State>, s: State, t: State) {
    && |tr| > 0 && tr[0] == s && tr[|tr| - 1] == t
    && forall i | 0 <= i < |tr| - 1 :: Next(c, tr[i], tr[i + 1])
  }

  lemma LeadsFrom(c: Config, s: State, u: State, m: Move, tr: seq<State>, t: State)
    requires Step(c, s, u, m) && Leads(c, tr, u, t)
    ensures Leads(c, [s] + tr, s, t)
  {
    var longer := [s] + tr;
    forall i | 0 <= i < |longer| - 1
      ensures Next(c, longer[i], longer[i + 1])
    {
      if i > 0 {
        assert Next(c, tr[i - 1], tr[i - 1 + 1]);
      }
    }
  }

  /** What the processes have still to do: an operation to end, a commit to finish. */
  ghost function Work(): Pc -> int {
    (x: Pc) => if x.InOp? then 3 else if x == Writing then 2 else if x == Erased then 1 else 0
  }

  lemma {:induction false} WorkLeft(pc: seq<Pc>)
    ensures Total(pc, Work()) >= 0
  {
    if pc != [] {
      TotalAtLeast(pc, Work(), 0);
    }
  }

  /** One step that brings the log closer to rest. */
  lemma Onward(c: Config, s: State) returns (t: State, m: Move)
    requires Inv(c, s) && (s.outstanding > 0 || s.committing)
    ensures Step(c, s, t, m) && Inv(c, t) && Total(t.pc, Work()) < Total(s.pc, Work())
  {
    var p: nat;
    if s.outstanding > 0 {
      if forall q | 0 <= q < |s.pc| :: !s.pc[q].InOp? {
        TotalZero(s.pc, Ops());
      }
      p :| p < |s.pc| && s.pc[p].InOp?;
      m := MEnd(p);
      var x := if s.outstanding == 1 then Writing else Outside;
      t := if s.outstanding == 1 then s.(pc := s.pc[p := x], outstanding := 0, committing := true)
           else s.(pc := Woken(s.pc[p := x]), outstanding := s.outstanding - 1);
      TotalUpdate(s.pc, Work(), p, x);
      TotalWoken(s.pc[p := x], Work());
    } else {
      p :| p < |s.pc| && InCommit(s.pc[p]);
      if s.pc[p] == Writing {
        m, t := MErase(p), s.(pc := s.pc[p := Erased], lh := {});
        TotalUpdate(s.pc, Work(), p, Erased);
      } else {
        m, t := MFinish(p), s.(pc := Woken(s.pc[p := Outside]), committing := false);
        TotalUpdate(s.pc, Work(), p, Outside);
        TotalWoken(s.pc[p := Outside], Work());
      }
    }
    StepIsNext(c, s, t, m);
    NextInv(c, s, t);
  }

  lemma StepIsNext(c: Config, s: State, t: State, m: Move)
    requires Step(c, s, t, m)
    ensures Next(c, s, t)
  {
  }

  /** The operations can end and the commit can finish. */
  lemma {:induction false} CanRest(c: Config, s: State) returns (tr: seq<State>, t: State)
    requires Inv(c, s)
    ensures Leads(c, tr, s, t) && Inv(c, t) && t.outstanding == 0 && !t.committing
    decreases Total(s.pc, Work())
  {
    hide Inv, Step, Work;
    RestFacts(c, s);
    if s.outstanding == 0 && !s.committing {
      return [s], s;
    }
    var u, m := Onward(c, s);
    WorkLeft(u.pc);
    WorkLeft(s.pc);
    tr, t := CanRest(c, u);
    LeadsFrom(c, s, u, m, tr, t);
    tr := [s] + tr;
  }

  lemma RestFacts(c: Config, s: State)
    requires Inv(c, s)
    ensures s.outstanding >= 0
  {
  }

  /** No process is shut out: from every reachable state, each one can come to be inside an
      operation.  In particular nobody who sleeps on the log has to sleep for ever. */
  lemma CanEnter(c: Config, s: State, p: nat) returns (tr: seq<State>, t: State)
    requires Reachable(c, s) && p < c.procs
    ensures Leads(c, tr, s, t) && p < |t.pc| && t.pc[p].InOp?
  {
    var run :| Run(c, run) && run[|run| - 1] == s;
    RunInv(c, run);
    var u;
    tr, u := CanRest(c, s);
    NoOps(u.pc);
    t := u.(pc := u.pc[p := InOp({})], outstanding := u.outstanding + 1);
    assert !Full(u) && Step(c, u, t, MBegin(p));
    StepIsNext(c, u, t, MBegin(p));
    tr := tr + [t];
  }

  // ---- When log_write can panic ----

  ghost predicate PanicReachable(c: Config) {
    exists s, p: nat, b: nat :: Reachable(c, s) && CallsLogWrite(c, s, p, b) && TooBig(c, s)
  }

  /** Process 0 in an operation; everyone else but process 1 outside and awake. */
  ghost predicate Lull(c: Config, s: State, outstanding: int, n: nat) {
    && |s.pc| == c.procs >= 2 && s.pc[0].InOp? && s.outstanding == outstanding && !s.committing
    && (forall p | 2 <= p < |s.pc| :: s.pc[p] == Outside)
    && (forall b | b in s.lh :: b < n)
  }

  /** Process p logs `m` more blocks, all new to the log. */
  lemma {:induction false} Fill(c: Config, s: State, outstanding: int, n: nat, p: nat, m: nat) returns (t: State)
    requires Reachable(c, s) && !PanicReachable(c) && c.procs >= 2 && Lull(c, s, outstanding, n)
    requires p < 2 && s.pc[p].InOp? && |s.pc[p].used| + m <= c.opBlocks
    ensures Reachable(c, t) && Lull(c, t, outstanding, n + m) && |t.lh| == |s.lh| + m
    ensures t.pc[p].InOp? && |t.pc[p].used| <= |s.pc[p].used| + m && (m > 0 ==> t.pc[p].used != {})
              && t.pc[1 - p] == s.pc[1 - p]
  {
    t := s;
    if m > 0 {
      var r := Fill(c, s, outstanding, n, p, m - 1);
      var b := n + m - 1;
      t := r.(pc := r.pc[p := InOp(r.pc[p].used + {b})], lh := r.lh + {b});
      assert CallsLogWrite(c, r, p, b);
      assert Step(c, r, t, MLogWrite(p, b));
      Extend(c, r, t);
    }
  }

  /** Process 0 sits in an operation while `r` one-block operations come and go. */
  lemma {:induction false} Idle(c: Config, r: nat) returns (s: State)
    requires c.procs >= 2 && c.opBlocks >= 1 && r <= MAXOPBLOCKS && !PanicReachable(c)
    ensures Reachable(c, s) && Lull(c, s, 1, r) && |s.lh| == r
    ensures s.pc[0] == InOp({}) && s.pc[1] == Outside
  {
    if r == 0 {
      var init := State(seq(c.procs, i => Outside), {}, 0, false);
      assert Run(c, [init]) && [init][|[init]| - 1] == init;
      s := init.(pc := init.pc[0 := InOp({})], outstanding := 1);
      assert Step(c, init, s, MBegin(0));
      Extend(c, init, s);
    } else {
      var s0 := Idle(c, r - 1);
      var s1 := s0.(pc := s0.pc[1 := InOp({})], outstanding := 2);
      assert Step(c, s0, s1, MBegin(1));
      Extend(c, s0, s1);
      var s2 := Fill(c, s1, 2, r - 1, 1, 1);
      s := s2.(pc := Woken(s2.pc[1 := Outside]), outstanding := 1);
      assert Step(c, s2, s, MEnd(1));
      Extend(c, s2, s);
    }
  }

  /** MAXOPBLOCKS blocks of finished operations, then two full ones. */
  lemma Fullest(c: Config) returns (s: State)
    requires c.procs >= 2 && 1 <= c.opBlocks && !PanicReachable(c)
    ensures Reachable(c, s) && |s.lh| == MAXOPBLOCKS + 2 * c.opBlocks
    ensures |s.pc| == c.procs && s.pc[0].InOp? && |s.pc[0].used| <= c.opBlocks
    ensures s.pc[0].used != {}
  {
    var k := c.opBlocks;
    var s0 := Idle(c, MAXOPBLOCKS);
    var s1 := s0.(pc := s0.pc[1 := InOp({})], outstanding := 2);
    assert Step(c, s0, s1, MBegin(1));
    Extend(c, s0, s1);
    var s2 := Fill(c, s1, 2, MAXOPBLOCKS, 0, k);
    s := Fill(c, s2, 2, MAXOPBLOCKS + k, 1, k);
  }

  /** A log that holds the blocks of one reservation and of two operations more is never full. */
  lemma NoPanic(c: Config)
    requires c.opBlocks <= MAXOPBLOCKS
    requires MAXOPBLOCKS + 2 * c.opBlocks < c.size - 1 && MAXOPBLOCKS + 2 * c.opBlocks < LOGSIZE
    ensures !PanicReachable(c)
  {
    if PanicReachable(c) {
      var s, p: nat, b: nat :| Reachable(c, s) && CallsLogWrite(c, s, p, b) && TooBig(c, s);
      var tr :| Run(c, tr) && tr[|tr| - 1] == s;
      RunInv(c, tr);
      TotalLeft(s.pc, c.opBlocks);
    }
  }

  lemma {:induction false} TotalLeft(pc: seq<Pc>, k: nat)
    requires forall i | 0 <= i < |pc| && pc[i].InOp? :: |pc[i].used| <= k
    ensures Total(pc, Left(k)) >= 0
  {
    if pc != [] {
      TotalAtLeast(pc, Left(k), 0);
    }
  }

  /** Exactly when log_write's guard can fire although every operation keeps to
      `opBlocks` blocks. */
  lemma PanicIff(c: Config)
    requires c.procs >= 2 && 1 <= c.opBlocks <= MAXOPBLOCKS
    ensures PanicReachable(c) <==> c.size - 1 <= MAXOPBLOCKS + 2 * c.opBlocks || LOGSIZE <= MAXOPBLOCKS + 2 * c.opBlocks
  {
    var k := c.opBlocks;
    if c.size - 1 > MAXOPBLOCKS + 2 * k && LOGSIZE > MAXOPBLOCKS + 2 * k {
      NoPanic(c);
    } else if !PanicReachable(c) {
      var s := Fullest(c);
      var b :| b in s.pc[0].used;
      assert s.pc[0].used + {b} == s.pc[0].used;
      assert CallsLogWrite(c, s, 0, b);
    }
  }

  /** The log that mkfs makes: LOGSIZE blocks in all, one data block fewer. */
  lemma MkfsLog(c: Config)
    requires c.procs >= 2 && c.size == LOGSIZE && 1 <= c.opBlocks <= MAXOPBLOCKS
    ensures PanicReachable(c) <==> c.opBlocks == MAXOPBLOCKS
  {
    PanicIff(c);
  }
}
