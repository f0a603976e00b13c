/** kernel/sleeplock.c over sleep and wakeup of kernel/proc.c, as a transition system: one
    sleep lock, any number of processes, every interleaving of the sections in which a
    spinlock is held.  sleep takes the process's own lock before it lets go of `lk`, and
    wakeup visits the processes one by one; both are separate steps here. */
module SleepLock {
  datatype Pc =
    | Away                  // neither holds nor wants the sleep lock
    | Testing               // acquiresleep, holds lk: about to test `locked`
    | Falling               // in sleep: holds p->lock, has released lk, still RUNNING
    | Sleeping              // p->state == SLEEPING, p->chan == lk
    | Woken                 // RUNNABLE again, or back in sleep before `acquire(lk)`
    | Holding               // has the sleep lock
    | Clearing              // releasesleep, holds lk: about to clear `locked`
    | Scanning(next: nat)   // in wakeup, holds lk: process `next` is looked at next

  /** `lk` is the holder of the spinlock; `pid` is lk->pid, 0 when the lock is free. */
  datatype Spin = Free | Held(holder: nat)
  datatype State = State(pc: seq<Pc>, lk: Spin, locked: bool, pid: nat)

  /** Process p's pid: distinct and not 0. */
  function PidOf(p: nat): nat { p + 1 }

  // ---- Steps of process p ----

  /** `acquire(&lk->lk)`, from acquiresleep or at the end of sleep. */
  ghost predicate TakeSpin(s: State, t: State, p: nat) {
    && p < |s.pc| && (s.pc[p] == Away || s.pc[p] == Woken) && s.lk == Free
    && t == s.(pc := s.pc[p := Testing], lk := Held(p))
  }

  /** `while(lk->locked) sleep(lk, &lk->lk);` or take the lock. */
  ghost predicate Test(s: State, t: State, p: nat) {
    && p < |s.pc| && s.pc[p] == Testing
    && t == if s.locked then s.(pc := s.pc[p := Falling], lk := Free)
            else s.(pc := s.pc[p := Holding], lk := Free, locked := true, pid := PidOf(p))
  }

  /** `p->chan = chan; p->state = SLEEPING; sched();` and the scheduler releases p->lock. */
  ghost predicate FallAsleep(s: State, t: State, p: nat) {
    p < |s.pc| && s.pc[p] == Falling && t == s.(pc := s.pc[p := Sleeping])
  }

  ghost predicate StartRelease(s: State, t: State, p: nat) {
    && p < |s.pc| && s.pc[p] == Holding && s.lk == Free
    && t == s.(pc := s.pc[p := Clearing], lk := Held(p))
  }

  ghost predicate Clear(s: State, t: State, p: nat) {
    && p < |s.pc| && s.pc[p] == Clearing
    && t == s.(pc := s.pc[p := Scanning(0)], locked := false, pid := 0)
  }

  /** One round of wakeup.  It waits for p->lock, which a falling process holds. */
  ghost predicate Scan(s: State, t: State, p: nat) {
    && p < |s.pc| && s.pc[p].Scanning? && s.pc[p].next < |s.pc|
    && var q := s.pc[p].next;
       && s.pc[q] != Falling
       && t == s.(pc := (if q != p && s.pc[q] == Sleeping then s.pc[q := Woken] else s.pc)[p := Scanning(q + 1)])
  }

  ghost predicate EndRelease(s: State, t: State, p: nat) {
    && p < |s.pc| && s.pc[p] == Scanning(|s.pc|)
    && t == s.(pc := s.pc[p := Away], lk := Free)
  }

  /** kill makes a sleeper runnable; it will test `locked` again. */
  ghost predicate Kill(s: State, t: State, p: nat) {
    p < |s.pc| && s.pc[p] == Sleeping && t == s.(pc := s.pc[p := Woken])
  }

  datatype Move = MTakeSpin(p: nat) | MTest(p: nat) | MFall(p: nat) | MStart(p: nat) | MClear(p: nat)
                | MScan(p: nat) | MEnd(p: nat) | MKill(p: nat)

  ghost predicate Step(s: State, t: State, m: Move) {
    match m
    case MTakeSpin(p) => TakeSpin(s, t, p)
    case MTest(p) => Test(s, t, p)
    case MFall(p) => FallAsleep(s, t, p)
    case MStart(p) => StartRelease(s, t, p)
    case MClear(p) => Clear(s, t, p)
    case MScan(p) => Scan(s, t, p)
    case MEnd(p) => EndRelease(s, t, p)
    case MKill(p) => Kill(s, t, p)
  }

  ghost predicate Next(s: State, t: State) {
    exists m :: Step(s, t, m)
  }

  /** initsleeplock, with nobody near the lock. */
  ghost predicate Init(s: State) {
    s == State(seq(|s.pc|, i => Away), Free, false, 0)
  }

  ghost predicate Run(tr: seq<State>) {
    |tr| > 0 && Init(tr[0]) && forall i | 0 <= i < |tr| - 1 :: Next(tr[i], tr[i + 1])
  }

  // ---- The invariant ----

  ghost predicate HasSpin(x: Pc) { x == Testing || x == Clearing || x.Scanning? }

  ghost predicate HasLock(x: Pc) { x == Holding || x == Clearing }

  /** Process q is between clearing `locked` and looking at process p. */
  ghost predicate WillWake(s: State, q: nat, p: nat) {
    q < |s.pc| && s.pc[q].Scanning? && s.pc[q].next <= p
  }

  ghost predicate SpinOwner(s: State) {
    && (s.lk.Held? ==> s.lk.holder < |s.pc|)
    && forall p: nat | p < |s.pc| :: HasSpin(s.pc[p]) <==> s.lk == Held(p)
  }

  ghost predicate LockOwner(s: State) {
    && (forall p: nat | p < |s.pc| :: HasLock(s.pc[p]) <==> s.locked && s.pid == PidOf(p))
    && (s.locked ==> 0 < s.pid <= |s.pc|) && (!s.locked ==> s.pid == 0)
  }

  /** While somebody scans, the lock stays free: taking it needs the spinlock. */
  ghost predicate Cursors(s: State) {
    forall p: nat | p < |s.pc| && s.pc[p].Scanning? :: s.pc[p].next <= |s.pc| && !s.locked
  }

  /** Who holds what. */
  ghost predicate Owners(s: State) {
    SpinOwner(s) && LockOwner(s) && Cursors(s)
  }

  /** Whoever sleeps, or is about to, will be woken. */
  ghost predicate Cared(s: State) {
    forall p: nat | p < |s.pc| && (s.pc[p] == Falling || s.pc[p] == Sleeping) ::
      s.locked || exists q: nat :: WillWake(s, q, p)
  }

  ghost predicate Inv(s: State) {
    Owners(s) && Cared(s)
  }

  /** Sleepers that will be woken, whatever other processes do in between. */
  lemma WakeKept(s: State, t: State, p: nat)
    requires p < |s.pc| == |t.pc| && (t.pc[p] == Falling || t.pc[p] == Sleeping) && s.pc[p] == t.pc[p]
    requires s.locked || exists q: nat :: WillWake(s, q, p)
    requires s.locked ==> t.locked
    requires forall q: nat | WillWake(s, q, p) :: WillWake(t, q, p) || t.locked
    ensures t.locked || exists q: nat :: WillWake(t, q, p)
  {
    if !s.locked {
      var q: nat :| WillWake(s, q, p);
      assert WillWake(t, q, p) || t.locked;
    }
  }

  lemma StepSpinOwner(s: State, t: State, m: Move)
    requires SpinOwner(s) && Step(s, t, m)
    ensures SpinOwner(t)
  {
    assert m.MScan? ==> HasSpin(s.pc[m.p]) && HasSpin(t.pc[m.p]) && t.lk == s.lk;
  }

  lemma StepLockOwner(s: State, t: State, m: Move)
    requires LockOwner(s) && Step(s, t, m)
    ensures LockOwner(t)
  {
  }

  lemma StepOwners(s: State, t: State, m: Move)
    requires Owners(s) && Step(s, t, m)
    ensures Owners(t)
  {
    StepSpinOwner(s, t, m);
    StepLockOwner(s, t, m);
    StepCursors(s, t, m);
  }

  lemma StepCursors(s: State, t: State, m: Move)
    requires SpinOwner(s) && Cursors(s) && Step(s, t, m)
    ensures Cursors(t)
  {
    assert m.MTest? ==> HasSpin(s.pc[m.p]);
  }

  lemma StepInv(s: State, t: State, m: Move)
    requires Inv(s) && Step(s, t, m)
    ensures Inv(t)
  {
    StepOwners(s, t, m);
    StepCared(s, t, m);
  }

  lemma StepCared(s: State, t: State, m: Move)
    requires Inv(s) && Step(s, t, m)
    ensures Cared(t)
  {
    assert |t.pc| == |s.pc|;
    forall p: nat | p < |t.pc| && (t.pc[p] == Falling || t.pc[p] == Sleeping)
      ensures t.locked || exists q: nat :: WillWake(t, q, p)
    {
      match m
      case MTest(q) =>
        if s.pc[p] == t.pc[p] { WakeKept(s, t, p); }
      case MFall(q) =>
        if p == q {
          if !s.locked {
            var w: nat :| WillWake(s, w, p);
            assert WillWake(t, w, p);
          }
        } else {
          WakeKept(s, t, p);
        }
      case MClear(q) => assert WillWake(t, q, p);
      case MScan(q) => WakeKept(s, t, p);
      case MEnd(q) => WakeKept(s, t, p);
      case _ => WakeKept(s, t, p);
    }
  }

  lemma {:induction false} RunInv(tr: seq<State>, i: nat)
    requires Run(tr) && i < |tr|
    ensures Inv(tr[i]) && |tr[i].pc| == |tr[0].pc|
  {
    if i > 0 {
      RunInv(tr, i - 1);
      assert Next(tr[i - 1], tr[i - 1 + 1]);
      var m :| Step(tr[i - 1], tr[i], m);
      StepInv(tr[i - 1], tr[i], m);
    }
  }

  /** Mutual exclusion, and holdingsleep answers truly, in every state of every run. */
  lemma MutualExclusion(tr: seq<State>, i: nat)
    requires Run(tr) && i < |tr|
    ensures var s := tr[i];
            && (forall p: nat, q: nat | p < |s.pc| && q < |s.pc| && HasLock(s.pc[p]) && HasLock(s.pc[q]) :: p == q)
            && (forall p: nat | p < |s.pc| :: s.locked && s.pid == PidOf(p) <==> HasLock(s.pc[p]))
            && (s.locked <==> exists p: nat :: p < |s.pc| && HasLock(s.pc[p]))
  {
    RunInv(tr, i);
    var s := tr[i];
    if s.locked {
      assert HasLock(s.pc[s.pid - 1]);
    }
  }

  /** No wakeup is lost: whoever sleeps on the lock sleeps because it is held, or because a
      releaser has cleared it and has not come to the sleeper yet.  In particular nobody
      sleeps on a free lock that nobody is working on. */
  lemma NoLostWakeup(tr: seq<State>, i: nat, p: nat)
    requires Run(tr) && i < |tr| && p < |tr[i].pc| && tr[i].pc[p] == Sleeping
    ensures tr[i].locked || exists q: nat :: WillWake(tr[i], q, p)
    ensures !tr[i].locked ==> tr[i].lk.Held?
  {
    RunInv(tr, i);
  }

  /** A releaser leaves no sleeper behind when its scan is done. */
  lemma ReleaseWakesAll(tr: seq<State>, i: nat, q: nat)
    requires Run(tr) && i < |tr| && q < |tr[i].pc| && tr[i].pc[q] == Scanning(|tr[i].pc|)
    ensures !tr[i].locked && forall p: nat | p < |tr[i].pc| :: tr[i].pc[p] != Sleeping && tr[i].pc[p] != Falling
  {
    RunInv(tr, i);
    var s := tr[i];
    assert HasSpin(s.pc[q]);
    assert forall w: nat | w < |s.pc| && s.pc[w].Scanning? :: HasSpin(s.pc[w]) && w == q;
  }

  // ---- Every process can get the lock ----

  ghost predicate Leads(tr: seq<State>, s: State, t: State) {
    && |tr| > 0 && tr[0] == s && tr[|tr| - 1] == t
    && forall i | 0 <= i < |tr| - 1 :: Next(tr[i], tr[i + 1])
  }

  lemma LeadsFrom(s: State, u: State, m: Move, tr: seq<State>, t: State)
    requires Step(s, u, m) && Leads(tr, u, t)
    ensures Leads([s] + tr, s, t)
  {
    var longer := [s] + tr;
    forall i | 0 <= i < |longer| - 1
      ensures Next(longer[i], longer[i + 1])
    {
      if i > 0 {
        assert Next(tr[i - 1], tr[i - 1 + 1]);
      }
    }
  }

  /** How far the lock is from being free and left alone. */
  ghost function Phase(s: State): nat {
    if s.lk == Free then if s.locked then 3 else 0
    else if s.lk.holder >= |s.pc| || s.pc[s.lk.holder] == Testing then 4
    else if s.pc[s.lk.holder] == Clearing then 2
    else 1
  }

  /** What a scan has still to do: the processes to visit, and whether it waits for one. */
  ghost function ToVisit(s: State): nat {
    if s.lk.Held? && s.lk.holder < |s.pc| && s.pc[s.lk.holder].Scanning? && s.pc[s.lk.holder].next <= |s.pc| then
      |s.pc| - s.pc[s.lk.holder].next
    else 0
  }

  ghost function Waits(s: State): nat {
    if s.lk.Held? && s.lk.holder < |s.pc| && s.pc[s.lk.holder].Scanning? && s.pc[s.lk.holder].next < |s.pc|
       && s.pc[s.pc[s.lk.holder].next] == Falling then 1
    else 0
  }

  /** One step that brings it closer. */
  lemma Onward(s: State) returns (t: State, m: Move)
    requires Inv(s) && Phase(s) != 0
    ensures Step(s, t, m) && |t.pc| == |s.pc|
    ensures Phase(t) < Phase(s)
              || (Phase(t) == Phase(s)
                  && (ToVisit(t) < ToVisit(s) || (ToVisit(t) == ToVisit(s) && Waits(t) < Waits(s))))
  {
    hide Cared;
    if s.lk == Free {
      var p := s.pid - 1;
      assert HasLock(s.pc[p]) && !HasSpin(s.pc[p]);
      m, t := MStart(p), s.(pc := s.pc[p := Clearing], lk := Held(p));
    } else {
      var p := s.lk.holder;
      assert HasSpin(s.pc[p]);
      match s.pc[p]
      case Testing =>
        m := MTest(p);
        t := if s.locked then s.(pc := s.pc[p := Falling], lk := Free)
             else s.(pc := s.pc[p := Holding], lk := Free, locked := true, pid := PidOf(p));
      case Clearing =>
        m, t := MClear(p), s.(pc := s.pc[p := Scanning(0)], locked := false, pid := 0);
      case Scanning(q) =>
        if q == |s.pc| {
          m, t := MEnd(p), s.(pc := s.pc[p := Away], lk := Free);
        } else if s.pc[q] == Falling {
          m, t := MFall(q), s.(pc := s.pc[q := Sleeping]);
        } else {
          m := MScan(p);
          t := s.(pc := (if q != p && s.pc[q] == Sleeping then s.pc[q := Woken] else s.pc)[p := Scanning(q + 1)]);
        }
      case _ =>
    }
  }

  /** The lock can become free, with nobody working on it. */
  lemma {:induction false} CanBeFreed(s: State) returns (tr: seq<State>, t: State)
    requires Inv(s)
    ensures Leads(tr, s, t) && Inv(t) && |t.pc| == |s.pc| && t.lk == Free && !t.locked
    decreases Phase(s), ToVisit(s), Waits(s)
  {
    hide Inv, Step;
    if Phase(s) == 0 {
      return [s], s;
    }
    var u, m := Onward(s);
    StepInv(s, u, m);
    tr, t := CanBeFreed(u);
    LeadsFrom(s, u, m, tr, t);
    tr := [s] + tr;
  }

  /** No process is shut out: from every state of every run, each one can come to hold the
      lock, wherever it is. */
  lemma CanHold(run: seq<State>, i: nat, p: nat) returns (tr: seq<State>, t: State)
    requires Run(run) && i < |run| && p < |run[0].pc|
    ensures Leads(tr, run[i], t) && p < |t.pc| && t.pc[p] == Holding && t.locked && t.pid == PidOf(p)
  {
    RunInv(run, i);
    var u;
    tr, u := CanBeFreed(run[i]);
    assert !HasSpin(u.pc[p]) && !HasLock(u.pc[p]);
    assert u.pc[p] != Sleeping && u.pc[p] != Falling by {
      assert forall q: nat | q < |u.pc| :: !HasSpin(u.pc[q]);
    }
    var v := u.(pc := u.pc[p := Testing], lk := Held(p));
    t := v.(pc := v.pc[p := Holding], lk := Free, locked := true, pid := PidOf(p));
    assert Step(u, v, MTakeSpin(p)) && Step(v, t, MTest(p));
    assert Next(u, v) && Next(v, t);
    tr := tr + [v, t];
  }
}
