/** The process table of kernel/proc.c as a transition system: allocproc, fork, exit, kill,
    wait and waitx, sleeping and scheduling, in every interleaving.  A step is one section
    under p->lock, or under wait_lock: whatever wait and exit do while they hold wait_lock
    cannot be told apart from a single step by anybody who reads `parent` or looks for
    zombies. */
module ProcTree {
  datatype Status = UNUSED | USED | SLEEPING | RUNNABLE | RUNNING | ZOMBIE

  /** What a process is in the middle of. */
  datatype Doing =
    | Nothing
    | Forking(child: nat)   // fork: child allocated, np->parent not set
    | Adopted(child: nat)   // fork: np->parent set, child not yet RUNNABLE
    | Waiting               // wait or waitx: asleep on itself, or about to scan again
    | Blocked               // asleep on another channel

  /** One slot of the table.  `parent` is -1 for a null pointer. */
  datatype Proc = Proc(status: Status, pid: nat, parent: int, killed: bool, doing: Doing)

  /** `exited` and `reaped` record the pids that have become zombies and those that wait or
      waitx has returned. */
  datatype State = State(proc: seq<Proc>, initproc: nat, nextpid: nat, exited: set<nat>, reaped: set<nat>)

  ghost predicate Slot(s: State, p: int) { 0 <= p < |s.proc| }

  /** freeproc */
  function Freed(): Proc { Proc(UNUSED, 0, -1, false, Nothing) }

  /** A running process between two system calls, or about to start one. */
  ghost predicate Runs(s: State, p: nat, what: Doing) {
    p < |s.proc| && s.proc[p].status == RUNNING && s.proc[p].doing == what
  }

  function Put(s: State, p: nat, x: Proc): State
    requires p < |s.proc|
  {
    s.(proc := s.proc[p := x])
  }

  // ---- fork ----

  /** allocproc finds an UNUSED slot. */
  ghost predicate Alloc(s: State, t: State, p: nat, c: nat) {
    && Runs(s, p, Nothing) && c < |s.proc| && s.proc[c].status == UNUSED
    && t == s.(nextpid := s.nextpid + 1,
               proc := s.proc[c := s.proc[c].(status := USED, pid := s.nextpid, doing := Nothing)]
                             [p := s.proc[p].(doing := Forking(c))])
  }

  /** The trapframe, the page table or uvmcopy fails: freeproc. */
  ghost predicate ForkFails(s: State, t: State, p: nat) {
    && p < |s.proc| && s.proc[p].status == RUNNING && s.proc[p].doing.Forking? && s.proc[p].doing.child < |s.proc|
    && t == s.(proc := s.proc[s.proc[p].doing.child := Freed()][p := s.proc[p].(doing := Nothing)])
  }

  /** `acquire(&wait_lock); np->parent = p;` */
  ghost predicate Adopt(s: State, t: State, p: nat) {
    && p < |s.proc| && s.proc[p].status == RUNNING && s.proc[p].doing.Forking?
    && var c := s.proc[p].doing.child;
       c < |s.proc| && t == s.(proc := s.proc[c := s.proc[c].(parent := p)][p := s.proc[p].(doing := Adopted(c))])
  }

  /** `np->state = RUNNABLE;` */
  ghost predicate Launch(s: State, t: State, p: nat) {
    && p < |s.proc| && s.proc[p].status == RUNNING && s.proc[p].doing.Adopted?
    && var c := s.proc[p].doing.child;
       c < |s.proc| && t == s.(proc := s.proc[c := s.proc[c].(status := RUNNABLE)][p := s.proc[p].(doing := Nothing)])
  }

  // ---- exit ----

  /** `wakeup(q)` for the channel of a process that waits for its children. */
  ghost predicate WaitsAsleep(x: Proc) {
    x.status == SLEEPING && x.doing == Waiting
  }

  /** Slot q after reparent(p) and wakeup(p->parent), by process p. */
  ghost function AfterExit(s: State, p: nat, q: nat): Proc
    requires p < |s.proc| && q < |s.proc|
  {
    var x := s.proc[q];
    if q == p then x.(status := ZOMBIE)
    else
      var y := if x.parent == p then x.(parent := s.initproc) else x;
      if WaitsAsleep(y) && (q == s.proc[p].parent || (q == s.initproc && HasChild(s, p)))
      then y.(status := RUNNABLE) else y
  }

  ghost predicate HasChild(s: State, p: nat) {
    exists c :: 0 <= c < |s.proc| && s.proc[c].parent == p
  }

  /** The part of exit under wait_lock; "init exiting" is a panic. */
  ghost predicate Exit(s: State, t: State, p: nat) {
    && Runs(s, p, Nothing) && p != s.initproc
    && t == s.(proc := seq(|s.proc|, q requires 0 <= q < |s.proc| => AfterExit(s, p, q)),
               exited := s.exited + {s.proc[p].pid})
  }

  // ---- wait, waitx ----

  ghost predicate InWait(s: State, p: nat) {
    Runs(s, p, Nothing) || Runs(s, p, Waiting)
  }

  /** The scan finds child c, a zombie: freeproc, and c's pid is returned. */
  ghost predicate Reap(s: State, t: State, p: nat, c: nat, pid: nat) {
    && InWait(s, p) && c < |s.proc| && s.proc[c].parent == p && s.proc[c].status == ZOMBIE && pid == s.proc[c].pid
    && t == s.(proc := s.proc[c := Freed()][p := s.proc[p].(doing := Nothing)], reaped := s.reaped + {pid})
  }

  /** The scan returns -1: no children, killed, or the copyout of a zombie's status fails. */
  ghost predicate WaitFails(s: State, t: State, p: nat) {
    && InWait(s, p)
    && (!HasChild(s, p) || s.proc[p].killed || exists c :: ZombieChild(s, p, c))
    && t == Put(s, p, s.proc[p].(doing := Nothing))
  }

  ghost predicate ZombieChild(s: State, p: nat, c: nat) {
    c < |s.proc| && s.proc[c].parent == p && s.proc[c].status == ZOMBIE
  }

  /** Children, but no zombie among them: `sleep(p, &wait_lock)`. */
  ghost predicate WaitSleeps(s: State, t: State, p: nat) {
    && InWait(s, p) && HasChild(s, p) && !s.proc[p].killed && (forall c: nat :: !ZombieChild(s, p, c))
    && t == Put(s, p, s.proc[p].(status := SLEEPING, doing := Waiting))
  }

  // ---- Scheduling, other sleeps, kill ----

  ghost predicate Schedule(s: State, t: State, p: nat) {
    p < |s.proc| && s.proc[p].status == RUNNABLE && t == Put(s, p, s.proc[p].(status := RUNNING))
  }

  ghost predicate Yield(s: State, t: State, p: nat) {
    p < |s.proc| && s.proc[p].status == RUNNING && t == Put(s, p, s.proc[p].(status := RUNNABLE))
  }

  ghost predicate Block(s: State, t: State, p: nat) {
    Runs(s, p, Nothing) && t == Put(s, p, s.proc[p].(status := SLEEPING, doing := Blocked))
  }

  ghost predicate Unblock(s: State, t: State, p: nat) {
    && p < |s.proc| && s.proc[p].status == SLEEPING && s.proc[p].doing == Blocked
    && t == Put(s, p, s.proc[p].(status := RUNNABLE))
  }

  /** Back from the sleep on another channel. */
  ghost predicate Resume(s: State, t: State, p: nat) {
    Runs(s, p, Blocked) && t == Put(s, p, s.proc[p].(doing := Nothing))
  }

  /** kill of the process in slot p, whatever its state. */
  ghost predicate Kill(s: State, t: State, p: nat) {
    p < |s.proc| &&
    t == Put(s, p, s.proc[p].(killed := true,
                              status := if s.proc[p].status == SLEEPING then RUNNABLE else s.proc[p].status))
  }

  datatype Move =
    | MAlloc(p: nat, c: nat) | MForkFails(p: nat) | MAdopt(p: nat) | MLaunch(p: nat) | MExit(p: nat)
    | MReap(p: nat, c: nat, pid: nat) | MWaitFails(p: nat) | MWaitSleeps(p: nat)
    | MSchedule(p: nat) | MYield(p: nat) | MBlock(p: nat) | MUnblock(p: nat) | MResume(p: nat) | MKill(p: nat)

  ghost predicate Step(s: State, t: State, m: Move) {
    match m
    case MAlloc(p, c) => Alloc(s, t, p, c)
    case MForkFails(p) => ForkFails(s, t, p)
    case MAdopt(p) => Adopt(s, t, p)
    case MLaunch(p) => Launch(s, t, p)
    case MExit(p) => Exit(s, t, p)
    case MReap(p, c, pid) => Reap(s, t, p, c, pid)
    case MWaitFails(p) => WaitFails(s, t, p)
    case MWaitSleeps(p) => WaitSleeps(s, t, p)
    case MSchedule(p) => Schedule(s, t, p)
    case MYield(p) => Yield(s, t, p)
    case MBlock(p) => Block(s, t, p)
    case MUnblock(p) => Unblock(s, t, p)
    case MResume(p) => Resume(s, t, p)
    case MKill(p) => Kill(s, t, p)
  }

  ghost predicate Next(s: State, t: State) {
    exists m :: Step(s, t, m)
  }

  /** After userinit: one process, init, with pid 1. */
  ghost predicate Init(s: State) {
    && s.initproc < |s.proc| && s.nextpid == 2 && s.exited == {} && s.reaped == {}
    && s.proc[s.initproc] == Proc(RUNNABLE, 1, -1, false, Nothing)
    && forall p: nat | p < |s.proc| && p != s.initproc :: s.proc[p] == Freed()
  }

  ghost predicate Run(tr: seq<State>) {
    |tr| > 0 && Init(tr[0]) && forall i | 0 <= i < |tr| - 1 :: Next(tr[i], tr[i + 1])
  }

  // ---- The invariant ----

  predicate Alive(x: Proc) { x.status == SLEEPING || x.status == RUNNABLE || x.status == RUNNING }

  /** Process p is in fork with child c. */
  ghost predicate InFork(s: State, p: nat, c: nat) {
    p < |s.proc| && (s.proc[p].doing == Forking(c) || s.proc[p].doing == Adopted(c))
  }

  /** A parent pointer designates a process that is neither UNUSED, nor still being made,
      nor a ZOMBIE, and never the process itself. */
  ghost predicate Parents(s: State) {
    && Slot(s, s.initproc) && Alive(s.proc[s.initproc]) && s.proc[s.initproc].parent == -1
    && forall c: nat | c < |s.proc| && s.proc[c].parent != -1 ::
         && s.proc[c].status != UNUSED && s.proc[c].parent != c
         && Slot(s, s.proc[c].parent) && Alive(s.proc[s.proc[c].parent])
  }

  /** fork owns its child: USED, and of nobody else. */
  ghost predicate Forks(s: State) {
    && (forall p: nat, c: nat | InFork(s, p, c) ::
          && s.proc[p].status != SLEEPING && Alive(s.proc[p])
          && c < |s.proc| && c != p && s.proc[c].status == USED && s.proc[c].doing == Nothing
          && s.proc[c].parent == (if s.proc[p].doing.Adopted? then p else -1))
    && (forall p: nat, q: nat, c: nat | InFork(s, p, c) && InFork(s, q, c) :: p == q)
    && (forall c: nat | c < |s.proc| && s.proc[c].status == USED :: exists p: nat :: InFork(s, p, c))
    && forall p: nat | p < |s.proc|
        && (s.proc[p].status == UNUSED || s.proc[p].status == ZOMBIE || s.proc[p].status == USED) ::
         s.proc[p].doing == Nothing
  }

  /** Every process but init has a parent, from the moment fork has set it. */
  ghost predicate Orphans(s: State) {
    forall c: nat | c < |s.proc| && c != s.initproc && s.proc[c].status != UNUSED && s.proc[c].status != USED ::
      s.proc[c].parent != -1
  }

  /** Pids are distinct, and the zombies are those that have exited and not been reaped. */
  ghost predicate Pids(s: State) {
    && (forall p: nat | p < |s.proc| && s.proc[p].status != UNUSED :: 0 < s.proc[p].pid < s.nextpid)
    && (forall p: nat, q: nat | p < |s.proc| && q < |s.proc| && s.proc[p].status != UNUSED && s.proc[q].status != UNUSED
                               && s.proc[p].pid == s.proc[q].pid :: p == q)
    && (forall p: nat | p < |s.proc| && s.proc[p].status == ZOMBIE :: s.proc[p].pid in s.exited - s.reaped)
    && (forall x | x in s.exited - s.reaped :: exists p: nat :: ZombieWith(s, p, x))
    && (forall p: nat | p < |s.proc| && s.proc[p].status != UNUSED && s.proc[p].status != ZOMBIE ::
        s.proc[p].pid !in s.exited)
    && s.reaped <= s.exited && forall x | x in s.exited :: 0 < x < s.nextpid
  }

  ghost predicate ZombieWith(s: State, p: nat, pid: nat) {
    p < |s.proc| && s.proc[p].status == ZOMBIE && s.proc[p].pid == pid
  }

  /** Nobody sleeps in wait while one of his children is a zombie. */
  ghost predicate Woken(s: State) {
    forall c: nat | c < |s.proc| && s.proc[c].status == ZOMBIE && Slot(s, s.proc[c].parent) ::
      !WaitsAsleep(s.proc[s.proc[c].parent])
  }

  ghost predicate Inv(s: State) {
    Parents(s) && Forks(s) && Orphans(s) && Pids(s) && Woken(s)
  }

  // ---- Every step keeps it ----

  /** A step that concerns one process that is in use and not a zombie: it sleeps, wakes,
      runs, is killed, or goes on to another part of its life. */
  ghost predicate Local(s: State, t: State, p: nat) {
    && p < |s.proc| && |t.proc| == |s.proc| && t == Put(s, p, t.proc[p])
    && var x := s.proc[p]; var y := t.proc[p];
       && y.pid == x.pid && y.parent == x.parent
       && (y.status == x.status || (Alive(x) && Alive(y)))
       && (y.doing == x.doing
           || (x.status == RUNNING && !x.doing.Forking? && !x.doing.Adopted?
               && if y.status == SLEEPING then y.doing == Waiting || y.doing == Blocked
                  else y.status == RUNNING && y.doing == Nothing))
       && (y.status == SLEEPING ==> !y.doing.Forking? && !y.doing.Adopted?)
       && (WaitsAsleep(y) ==> WaitsAsleep(x) || forall c: nat :: !ZombieChild(s, p, c))
  }

  lemma LocalSteps(s: State, t: State, m: Move)
    requires Step(s, t, m) && Forks(s)
    requires m.MWaitFails? || m.MWaitSleeps? || m.MSchedule? || m.MYield? || m.MBlock? || m.MUnblock? || m.MResume?
               || m.MKill?
    ensures Local(s, t, m.p)
  {
  }

  lemma LocalParents(s: State, t: State, p: nat)
    requires Inv(s) && Local(s, t, p)
    ensures Parents(t) && Orphans(t)
  {
    hide Forks, Pids, Woken;
  }

  lemma LocalForks(s: State, t: State, p: nat)
    requires Forks(s) && Local(s, t, p)
    ensures Forks(t)
  {
    forall q: nat, c: nat
      ensures InFork(t, q, c) <==> InFork(s, q, c)
    {
    }
    forall c: nat | c < |t.proc| && t.proc[c].status == USED
      ensures exists q: nat :: InFork(t, q, c)
    {
      var q: nat :| InFork(s, q, c);
      assert InFork(t, q, c);
    }
  }

  /** Nothing that Pids looks at has changed. */
  ghost predicate SamePids(s: State, t: State) {
    && |t.proc| == |s.proc| && t.nextpid == s.nextpid && t.exited == s.exited && t.reaped == s.reaped
    && forall p: nat | p < |s.proc| ::
         && t.proc[p].pid == s.proc[p].pid
         && (t.proc[p].status == UNUSED <==> s.proc[p].status == UNUSED)
         && (t.proc[p].status == ZOMBIE <==> s.proc[p].status == ZOMBIE)
  }

  lemma KeepPids(s: State, t: State)
    requires Pids(s) && SamePids(s, t)
    ensures Pids(t)
  {
    forall x | x in t.exited - t.reaped
      ensures exists q: nat :: ZombieWith(t, q, x)
    {
      var q: nat :| ZombieWith(s, q, x);
      assert ZombieWith(t, q, x);
    }
  }

  lemma LocalWoken(s: State, t: State, p: nat)
    requires Inv(s) && Local(s, t, p)
    ensures Woken(t)
  {
    hide Forks, Pids, Orphans;
    forall c: nat | c < |t.proc| && t.proc[c].status == ZOMBIE && Slot(t, t.proc[c].parent)
      ensures !WaitsAsleep(t.proc[t.proc[c].parent])
    {
      assert s.proc[c].status == ZOMBIE && s.proc[c].parent == t.proc[c].parent;
      if s.proc[c].parent == p {
        assert ZombieChild(s, p, c);
      }
    }
  }

  lemma LocalInv(s: State, t: State, p: nat)
    requires Inv(s) && Local(s, t, p)
    ensures Inv(t)
  {
    LocalParents(s, t, p);
    LocalForks(s, t, p);
    KeepPids(s, t);
    LocalWoken(s, t, p);
  }

  // fork

  lemma AllocForks(s: State, t: State, p: nat, c: nat)
    requires Parents(s) && Forks(s) && Alloc(s, t, p, c)
    ensures Forks(t)
  {
    forall q: nat, d: nat
      ensures InFork(t, q, d) <==> (q == p && d == c) || InFork(s, q, d)
    {
    }
    forall d: nat | d < |t.proc| && t.proc[d].status == USED
      ensures exists q: nat :: InFork(t, q, d)
    {
      if d == c {
        assert InFork(t, p, c);
      } else {
        var q: nat :| InFork(s, q, d);
        assert InFork(t, q, d);
      }
    }
  }

  lemma AllocPids(s: State, t: State, p: nat, c: nat)
    requires Pids(s) && Alloc(s, t, p, c)
    ensures Pids(t)
  {
    forall q: nat | q < |t.proc| && t.proc[q].status != UNUSED
      ensures if q == c then t.proc[q].pid == s.nextpid
              else t.proc[q].status == s.proc[q].status && t.proc[q].pid == s.proc[q].pid < s.nextpid
    {
    }
    forall x | x in t.exited - t.reaped
      ensures exists q: nat :: ZombieWith(t, q, x)
    {
      var q: nat :| ZombieWith(s, q, x);
      assert ZombieWith(t, q, x);
    }
  }

  lemma AllocParents(s: State, t: State, p: nat, c: nat)
    requires Parents(s) && Orphans(s) && Alloc(s, t, p, c)
    ensures Parents(t) && Orphans(t)
  {
  }

  lemma AllocWoken(s: State, t: State, p: nat, c: nat)
    requires Parents(s) && Woken(s) && Alloc(s, t, p, c)
    ensures Woken(t)
  {
  }

  lemma AllocInv(s: State, t: State, p: nat, c: nat)
    requires Inv(s) && Alloc(s, t, p, c)
    ensures Inv(t)
  {
    AllocForks(s, t, p, c);
    AllocPids(s, t, p, c);
    AllocParents(s, t, p, c);
    AllocWoken(s, t, p, c);
  }

  /** The child of p's fork leaves fork's hands: freed, or runnable. */
  lemma EndForks(s: State, t: State, p: nat, c: nat)
    requires Forks(s) && InFork(s, p, c) && |t.proc| == |s.proc|
    requires t.proc == s.proc[c := t.proc[c]][p := s.proc[p].(doing := Nothing)]
    requires t.proc[c].doing == Nothing && t.proc[c].status != USED
    ensures Forks(t)
  {
    forall q: nat, d: nat
      ensures InFork(t, q, d) <==> q != p && InFork(s, q, d)
    {
    }
    forall d: nat | d < |t.proc| && t.proc[d].status == USED
      ensures exists q: nat :: InFork(t, q, d)
    {
      var q: nat :| InFork(s, q, d);
      assert InFork(t, q, d);
    }
  }

  lemma ForkFailsPids(s: State, t: State, p: nat, c: nat)
    requires Pids(s) && ForkFails(s, t, p)
    requires InFork(s, p, c) && c < |s.proc| && c != p && s.proc[c].status == USED
    ensures Pids(t)
  {
    forall x | x in t.exited - t.reaped
      ensures exists q: nat :: ZombieWith(t, q, x)
    {
      var q: nat :| ZombieWith(s, q, x);
      assert ZombieWith(t, q, x);
    }
  }

  lemma ForkFailsParents(s: State, t: State, p: nat, c: nat)
    requires Parents(s) && Orphans(s) && ForkFails(s, t, p)
    requires InFork(s, p, c) && c < |s.proc| && s.proc[c].status == USED && c != p && s.proc[c].parent == -1
    ensures Parents(t) && Orphans(t)
  {
  }

  lemma ForkFailsWoken(s: State, t: State, p: nat, c: nat)
    requires Parents(s) && Woken(s) && ForkFails(s, t, p)
    requires InFork(s, p, c) && c < |s.proc| && s.proc[c].status == USED && c != p && s.proc[c].parent == -1
    ensures Woken(t)
  {
  }

  lemma ForkFailsInv(s: State, t: State, p: nat)
    requires Inv(s) && ForkFails(s, t, p)
    ensures Inv(t)
  {
    var c := s.proc[p].doing.child;
    assert InFork(s, p, c);
    EndForks(s, t, p, c);
    assert s.proc[c].status == USED && c != p && s.proc[c].parent == -1;
    ForkFailsPids(s, t, p, c);
    ForkFailsParents(s, t, p, c);
    ForkFailsWoken(s, t, p, c);
  }

  lemma AdoptForks(s: State, t: State, p: nat)
    requires Forks(s) && Adopt(s, t, p)
    ensures Forks(t)
  {
    forall q: nat, d: nat
      ensures InFork(t, q, d) <==> InFork(s, q, d)
    {
    }
    forall q: nat | q < |s.proc|
      ensures t.proc[q].status == s.proc[q].status
      ensures q != p ==> t.proc[q].doing == s.proc[q].doing
      ensures !InFork(s, p, q) ==> t.proc[q].parent == s.proc[q].parent
    {
    }
    forall d: nat | d < |t.proc| && t.proc[d].status == USED
      ensures exists q: nat :: InFork(t, q, d)
    {
      var q: nat :| InFork(s, q, d);
      assert InFork(t, q, d);
    }
  }

  lemma AdoptParents(s: State, t: State, p: nat, c: nat)
    requires Parents(s) && Orphans(s) && Adopt(s, t, p)
    requires InFork(s, p, c) && c < |s.proc| && s.proc[c].status == USED && c != p
    ensures Parents(t) && Orphans(t)
  {
  }

  lemma AdoptWoken(s: State, t: State, p: nat, c: nat)
    requires Parents(s) && Woken(s) && Adopt(s, t, p)
    requires InFork(s, p, c) && c < |s.proc| && s.proc[c].status == USED && c != p
    ensures Woken(t)
  {
  }

  lemma AdoptInv(s: State, t: State, p: nat)
    requires Inv(s) && Adopt(s, t, p)
    ensures Inv(t)
  {
    var c := s.proc[p].doing.child;
    assert InFork(s, p, c);
    AdoptForks(s, t, p);
    KeepPids(s, t);
    assert s.proc[c].status == USED && c != p;
    AdoptParents(s, t, p, c);
    AdoptWoken(s, t, p, c);
  }

  lemma LaunchParents(s: State, t: State, p: nat, c: nat)
    requires Parents(s) && Orphans(s) && Launch(s, t, p)
    requires InFork(s, p, c) && c < |s.proc| && s.proc[c].status == USED && c != p && s.proc[c].parent == p
    ensures Parents(t) && Orphans(t)
  {
  }

  lemma LaunchWoken(s: State, t: State, p: nat, c: nat)
    requires Parents(s) && Woken(s) && Launch(s, t, p)
    requires InFork(s, p, c) && c < |s.proc| && s.proc[c].status == USED && c != p && s.proc[c].parent == p
    ensures Woken(t)
  {
  }

  lemma LaunchInv(s: State, t: State, p: nat)
    requires Inv(s) && Launch(s, t, p)
    ensures Inv(t)
  {
    var c := s.proc[p].doing.child;
    assert InFork(s, p, c);
    EndForks(s, t, p, c);
    assert s.proc[c].status == USED && c != p && s.proc[c].parent == p;
    KeepPids(s, t);
    LaunchParents(s, t, p, c);
    LaunchWoken(s, t, p, c);
  }

  // exit

  lemma ExitForks(s: State, t: State, p: nat)
    requires Forks(s) && Exit(s, t, p)
    ensures Forks(t)
  {
    forall q: nat, d: nat
      ensures InFork(t, q, d) <==> InFork(s, q, d)
    {
    }
    forall d: nat | d < |t.proc| && t.proc[d].status == USED
      ensures exists q: nat :: InFork(t, q, d)
    {
      var q: nat :| InFork(s, q, d);
      assert InFork(t, q, d);
    }
  }

  lemma ExitPids(s: State, t: State, p: nat)
    requires Pids(s) && Exit(s, t, p)
    ensures Pids(t)
  {
    forall q: nat | q < |s.proc|
      ensures t.proc[q].pid == s.proc[q].pid
      ensures q != p ==> (t.proc[q].status == s.proc[q].status
                || (s.proc[q].status == SLEEPING && t.proc[q].status == RUNNABLE))
    {
    }
    assert t.proc[p].status == ZOMBIE && s.proc[p].pid !in s.exited;
    hide AfterExit, WaitsAsleep, HasChild;
    forall x | x in t.exited - t.reaped
      ensures exists q: nat :: ZombieWith(t, q, x)
    {
      if x == s.proc[p].pid {
        assert ZombieWith(t, p, x);
      } else {
        assert x in s.exited - s.reaped;
        var q: nat :| ZombieWith(s, q, x);
        assert ZombieWith(t, q, x);
      }
    }
  }

  lemma ExitParents(s: State, t: State, p: nat)
    requires Parents(s) && Orphans(s) && Exit(s, t, p)
    ensures Parents(t) && Orphans(t)
  {
  }

  lemma ExitWoken(s: State, t: State, p: nat)
    requires Parents(s) && Woken(s) && Exit(s, t, p)
    ensures Woken(t)
  {
    forall c: nat | c < |t.proc| && t.proc[c].status == ZOMBIE && Slot(t, t.proc[c].parent)
      ensures !WaitsAsleep(t.proc[t.proc[c].parent])
    {
      assert s.proc[c].parent == p ==> HasChild(s, p);
    }
  }

  lemma ExitInv(s: State, t: State, p: nat)
    requires Inv(s) && Exit(s, t, p)
    ensures Inv(t)
  {
    ExitForks(s, t, p);
    ExitPids(s, t, p);
    ExitParents(s, t, p);
    ExitWoken(s, t, p);
  }

  // wait, waitx

  lemma ReapForks(s: State, t: State, p: nat, c: nat, pid: nat)
    requires Forks(s) && Reap(s, t, p, c, pid)
    ensures Forks(t)
  {
    forall q: nat, d: nat
      ensures InFork(t, q, d) <==> InFork(s, q, d)
    {
    }
    forall d: nat | d < |t.proc| && t.proc[d].status == USED
      ensures exists q: nat :: InFork(t, q, d)
    {
      var q: nat :| InFork(s, q, d);
      assert InFork(t, q, d);
    }
  }

  lemma ReapPids(s: State, t: State, p: nat, c: nat, pid: nat)
    requires Pids(s) && Reap(s, t, p, c, pid)
    ensures Pids(t)
  {
    forall x | x in t.exited - t.reaped
      ensures exists q: nat :: ZombieWith(t, q, x)
    {
      assert x in s.exited - s.reaped;
      var q: nat :| ZombieWith(s, q, x);
      assert ZombieWith(t, q, x);
    }
  }

  lemma ReapParents(s: State, t: State, p: nat, c: nat, pid: nat)
    requires Parents(s) && Orphans(s) && Reap(s, t, p, c, pid)
    ensures Parents(t) && Orphans(t)
  {
  }

  lemma ReapWoken(s: State, t: State, p: nat, c: nat, pid: nat)
    requires Parents(s) && Woken(s) && Reap(s, t, p, c, pid)
    ensures Woken(t)
  {
  }

  lemma ReapInv(s: State, t: State, p: nat, c: nat, pid: nat)
    requires Inv(s) && Reap(s, t, p, c, pid)
    ensures Inv(t)
  {
    ReapForks(s, t, p, c, pid);
    ReapPids(s, t, p, c, pid);
    ReapParents(s, t, p, c, pid);
    ReapWoken(s, t, p, c, pid);
  }

  // ---- Over runs ----

  lemma StepInv(s: State, t: State, m: Move)
    requires Inv(s) && Step(s, t, m)
    ensures Inv(t)
  {
    match m
    case MAlloc(p, c) => AllocInv(s, t, p, c);
    case MForkFails(p) => ForkFailsInv(s, t, p);
    case MAdopt(p) => AdoptInv(s, t, p);
    case MLaunch(p) => LaunchInv(s, t, p);
    case MExit(p) => ExitInv(s, t, p);
    case MReap(p, c, pid) => ReapInv(s, t, p, c, pid);
    case _ =>
      LocalSteps(s, t, m);
      LocalInv(s, t, m.p);
  }

  lemma InitInv(s: State)
    requires Init(s)
    ensures Inv(s)
  {
  }

  lemma {:induction false} RunInv(tr: seq<State>, i: nat)
    requires Run(tr) && i < |tr|
    ensures Inv(tr[i])
  {
    hide Inv;
    if i == 0 {
      InitInv(tr[0]);
    } else {
      RunInv(tr, i - 1);
      assert Next(tr[i - 1], tr[i - 1 + 1]);
      var m :| Step(tr[i - 1], tr[i], m);
      StepInv(tr[i - 1], tr[i], m);
    }
  }

  /** In every state of every run: parents are there, only init and children still inside
      fork have none, and nobody sleeps in wait beside a zombie of his own. */
  lemma TreeSafety(tr: seq<State>, i: nat)
    requires Run(tr) && i < |tr|
    ensures var s := tr[i];
            && (forall c: nat | c < |s.proc| && s.proc[c].parent != -1 ::
                  Slot(s, s.proc[c].parent) && s.proc[s.proc[c].parent].status != UNUSED
                  && s.proc[s.proc[c].parent].status != ZOMBIE)
            && (forall c: nat | c < |s.proc| && Alive(s.proc[c]) && c != s.initproc :: s.proc[c].parent != -1)
            && (forall c: nat | c < |s.proc| && s.proc[c].status == ZOMBIE ::
                  Slot(s, s.proc[c].parent) && !WaitsAsleep(s.proc[s.proc[c].parent]))
  {
    RunInv(tr, i);
    var s := tr[i];
    hide Forks, Pids;
    forall c: nat | c < |s.proc| && s.proc[c].status == ZOMBIE
      ensures Slot(s, s.proc[c].parent)
    {
      assert c != s.initproc && s.proc[c].parent != -1;
    }
  }

  lemma OnlyReapFrees(s: State, t: State, m: Move, c: nat)
    requires Forks(s) && Step(s, t, m)
    requires c < |s.proc| && c < |t.proc| && s.proc[c].status == ZOMBIE && t.proc[c].status != ZOMBIE
    ensures m.MReap? && m.c == c
  {
    forall p: nat | p < |s.proc|
      ensures s.proc[p].doing != Forking(c) && s.proc[p].doing != Adopted(c)
    {
      assert !InFork(s, p, c);
    }
    hide Forks, InFork;
  }

  /** A slot leaves ZOMBIE only through wait or waitx by its current parent, which returns
      its pid, and nobody has been given that pid before. */
  lemma LeavesZombie(tr: seq<State>, i: nat, m: Move, c: nat)
    requires Run(tr) && i + 1 < |tr| && Step(tr[i], tr[i + 1], m)
    requires c < |tr[i].proc| && c < |tr[i + 1].proc|
    requires tr[i].proc[c].status == ZOMBIE && tr[i + 1].proc[c].status != ZOMBIE
    ensures m.MReap? && m.p == tr[i].proc[c].parent && m.c == c && m.pid == tr[i].proc[c].pid
    ensures tr[i].proc[c].pid in tr[i].exited - tr[i].reaped
  {
    RunInv(tr, i);
    assert Forks(tr[i]) && tr[i].proc[c].pid in tr[i].exited - tr[i].reaped;
    hide Inv, Forks;
    OnlyReapFrees(tr[i], tr[i + 1], m, c);
  }

  lemma {:induction false} ReapedGrows(tr: seq<State>, i: nat, j: nat)
    requires Run(tr) && i <= j < |tr|
    ensures tr[i].reaped <= tr[j].reaped
  {
    if i < j {
      ReapedGrows(tr, i, j - 1);
      assert Next(tr[j - 1], tr[j - 1 + 1]);
    }
  }

  /** No process is reaped twice: two different calls never return the same pid. */
  lemma ReapedOnce(tr: seq<State>, i: nat, p: nat, c: nat, pid: nat, j: nat, q: nat, d: nat, pid': nat)
    requires Run(tr) && i < j < |tr| - 1
    requires Step(tr[i], tr[i + 1], MReap(p, c, pid)) && Step(tr[j], tr[j + 1], MReap(q, d, pid'))
    ensures pid != pid'
  {
    RunInv(tr, j);
    ReapedGrows(tr, i + 1, j);
  }

  /** Every process that has exited is a zombie or has been reaped, never both. */
  lemma ZombiesAreUnreaped(tr: seq<State>, i: nat, pid: nat)
    requires Run(tr) && i < |tr|
    ensures pid in tr[i].exited - tr[i].reaped <==> exists p: nat :: ZombieWith(tr[i], p, pid)
  {
    RunInv(tr, i);
    var s := tr[i];
    if p: nat :| ZombieWith(s, p, pid) {
      assert s.proc[p].pid in s.exited - s.reaped;
    }
  }

  // ---- Who is whose parent ----

  /** exit gives all of p's children to init, makes p a zombie, and wakes at most p's parent and
      init, if they sleep in wait; nothing else changes. */
  lemma ExitGivesToInit(s: State, t: State, p: nat)
    requires Step(s, t, MExit(p))
    ensures |t.proc| == |s.proc| && t.initproc == s.initproc && t.nextpid == s.nextpid && t.reaped == s.reaped
    ensures p < |s.proc| && t.proc[p] == s.proc[p].(status := ZOMBIE) && t.exited == s.exited + {s.proc[p].pid}
    ensures forall q: nat | q < |s.proc| && q != p ::
              t.proc[q] == s.proc[q].(parent := t.proc[q].parent, status := t.proc[q].status)
    ensures forall q: nat | q < |s.proc| && q != p ::
              t.proc[q].parent == if s.proc[q].parent == p then t.initproc else s.proc[q].parent
    ensures forall q: nat | q < |s.proc| && q != p && t.proc[q].status != s.proc[q].status ::
              WaitsAsleep(s.proc[q]) && t.proc[q].status == RUNNABLE && (q == s.proc[p].parent || q == s.initproc)
    ensures var q := s.proc[p].parent; Slot(s, q) && q != p && WaitsAsleep(s.proc[q]) ==> t.proc[q].status == RUNNABLE
    ensures var q := s.initproc; HasChild(s, p) && q < |s.proc| && WaitsAsleep(s.proc[q]) ==>
              t.proc[q].status == RUNNABLE
  {
  }

  /** A process that is neither being made nor dead keeps its slot and pid until it exits. */
  lemma StaysAlive(s: State, t: State, m: Move, p: nat)
    requires Inv(s) && Step(s, t, m) && p < |s.proc| && Alive(s.proc[p])
    ensures p < |t.proc| && t.proc[p].pid == s.proc[p].pid && s.proc[p].pid !in s.exited
    ensures if m == MExit(p) then s.proc[p].pid in t.exited
            else Alive(t.proc[p]) && s.proc[p].pid !in t.exited
  {
    hide Parents, Orphans, Woken, Pids;
    AliveUnexited(s, p);
    ExitedBy(s, t, m);
    match m
    case MAlloc(q, d) =>
    case MForkFails(q) => assert InFork(s, q, s.proc[q].doing.child);
    case MAdopt(q) =>
    case MLaunch(q) =>
    case MExit(q) => ExitGivesToInit(s, t, q);
    case MReap(q, d, pid) =>
    case _ =>
      LocalSteps(s, t, m);
      LocalKeeps(s, t, m.p);
  }

  /** Only two steps change the parent of a process: fork sets it, and the exit of the parent
      makes it init. */
  lemma ParentChanges(s: State, t: State, m: Move, c: nat)
    requires Inv(s) && Step(s, t, m) && c < |t.proc| && t.proc[c].status != UNUSED && t.proc[c].pid < s.nextpid
    ensures c < |s.proc| && s.proc[c].status != UNUSED && s.proc[c].pid == t.proc[c].pid
    ensures if m.MAdopt? && s.proc[m.p].doing == Forking(c) then s.proc[c].parent == -1 && t.proc[c].parent == m.p
            else t.proc[c].parent == if m.MExit? && s.proc[c].parent == m.p then s.initproc else s.proc[c].parent
  {
    hide Orphans, Woken, Pids;
    match m
    case MAlloc(p, d) =>
    case MForkFails(p) =>
    case MAdopt(p) => assert InFork(s, p, s.proc[p].doing.child);
    case MLaunch(p) =>
    case MExit(p) => ExitGivesToInit(s, t, p);
    case MReap(p, d, pid) =>
    case _ =>
      LocalSteps(s, t, m);
      LocalKeeps(s, t, m.p);
  }

  lemma AliveUnexited(s: State, p: nat)
    requires Pids(s) && p < |s.proc| && Alive(s.proc[p])
    ensures s.proc[p].pid !in s.exited
  {
  }

  lemma LocalKeeps(s: State, t: State, p: nat)
    requires Local(s, t, p)
    ensures |t.proc| == |s.proc| && t.exited == s.exited
    ensures forall c: nat | c < |s.proc| ::
              && (Alive(s.proc[c]) ==> Alive(t.proc[c]))
              && t.proc[c].pid == s.proc[c].pid && t.proc[c].parent == s.proc[c].parent
              && (t.proc[c].status == UNUSED <==> s.proc[c].status == UNUSED)
  {
  }

  lemma {:induction false} Monotone(tr: seq<State>, i: nat, j: nat)
    requires Run(tr) && i <= j < |tr|
    ensures tr[i].nextpid <= tr[j].nextpid && tr[i].exited <= tr[j].exited && tr[i].initproc == tr[j].initproc
    ensures |tr[i].proc| == |tr[j].proc|
  {
    if i < j {
      Monotone(tr, i, j - 1);
      assert Next(tr[j - 1], tr[j - 1 + 1]);
    }
  }

  /** The parent of a process is the one that forked it, until that one exits, and init from then
      on.  The process of pid x was forked into slot c, at step k, by the one of pid y in slot p. */
  lemma {:induction false} ParentIsForker(tr: seq<State>, k: nat, p: nat, j: nat)
    requires Run(tr) && k < j < |tr| && Step(tr[k], tr[k + 1], MAdopt(p))
    ensures var c := tr[k].proc[p].doing.child;
            && c < |tr[k].proc| == |tr[j].proc|
            && var x := tr[k].proc[c].pid; var y := tr[k].proc[p].pid;
               && (y !in tr[j].exited ==> Alive(tr[j].proc[p]) && tr[j].proc[p].pid == y)
               && (tr[j].proc[c].status != UNUSED && tr[j].proc[c].pid == x ==>
                     tr[j].proc[c].parent == if y in tr[j].exited then tr[j].initproc else p)
  {
    hide Inv, Step;
    RunInv(tr, k);
    RunInv(tr, j - 1);
    Monotone(tr, k, j - 1);
    Monotone(tr, j - 1, j);
    ParentSet(tr[k], tr[k + 1], p);
    if j > k + 1 {
      ParentIsForker(tr, k, p, j - 1);
      assert Next(tr[j - 1], tr[j - 1 + 1]);
      var c, m :| c == tr[k].proc[p].doing.child && Step(tr[j - 1], tr[j], m);
      ParentStays(tr[j - 1], tr[j], m, p, tr[k].proc[p].pid, c, tr[k].proc[c].pid);
    }
  }

  /** When fork has set the parent of its child. */
  lemma ParentSet(s: State, t: State, p: nat)
    requires Inv(s) && Step(s, t, MAdopt(p))
    ensures p < |s.proc| == |t.proc| && s.proc[p].doing.Forking?
    ensures var c := s.proc[p].doing.child;
            && c < |s.proc| && s.proc[c].pid < s.nextpid && s.proc[p].pid !in t.exited
            && Alive(t.proc[p]) && t.proc[p].pid == s.proc[p].pid && t.proc[c].parent == p
  {
    assert InFork(s, p, s.proc[p].doing.child);
    StaysAlive(s, t, MAdopt(p), p);
  }

  lemma ParentStays(s: State, t: State, m: Move, p: nat, y: nat, c: nat, x: nat)
    requires Inv(s) && Step(s, t, m) && c < |s.proc| == |t.proc| && p < |s.proc| && x < s.nextpid
    requires y !in s.exited ==> Alive(s.proc[p]) && s.proc[p].pid == y
    requires s.proc[c].status != UNUSED && s.proc[c].pid == x ==>
               s.proc[c].parent == if y in s.exited then s.initproc else p
    ensures y !in t.exited ==> Alive(t.proc[p]) && t.proc[p].pid == y
    ensures t.proc[c].status != UNUSED && t.proc[c].pid == x ==>
              t.proc[c].parent == if y in t.exited then t.initproc else p
  {
    if y !in s.exited {
      StaysAlive(s, t, m, p);
    }
    if t.proc[c].status != UNUSED && t.proc[c].pid == x {
      ParentChanges(s, t, m, c);
    }
    ExitedBy(s, t, m);
    hide Inv, Step;
  }

  lemma ExitedBy(s: State, t: State, m: Move)
    requires Inv(s) && Step(s, t, m)
    ensures t.initproc == s.initproc && s.exited <= t.exited
    ensures forall y | y in t.exited - s.exited :: m.MExit? && m.p < |s.proc| && s.proc[m.p].pid == y
    ensures m.MExit? ==> m.p != s.initproc
    ensures m.MExit? ==>
              forall p: nat | p < |s.proc| && Alive(s.proc[p]) && s.proc[p].pid == s.proc[m.p].pid :: p == m.p
  {
  }

  /** wait and waitx return the pid of a process that the caller forked itself, as long as the
      caller of fork has not exited; after that they return it to init. */
  lemma ReapsOwn(tr: seq<State>, k: nat, p: nat, i: nat, q: nat, c: nat, pid: nat)
    requires Run(tr) && k < i < |tr| - 1 && Step(tr[k], tr[k + 1], MAdopt(p))
    requires Step(tr[i], tr[i + 1], MReap(q, c, pid))
    requires c == tr[k].proc[p].doing.child && pid == tr[k].proc[c].pid
    ensures var y := tr[k].proc[p].pid;
            if y in tr[i].exited then q == tr[i].initproc else q == p && tr[i].proc[q].pid == y
  {
    ParentIsForker(tr, k, p, i);
  }

  // ---- Sleepers ----

  /** Whoever sleeps does so in wait, and is not killed then, or on another channel. */
  ghost predicate Sleepers(s: State) {
    forall p: nat | p < |s.proc| && s.proc[p].status == SLEEPING ::
      s.proc[p].doing == Blocked || (s.proc[p].doing == Waiting && !s.proc[p].killed)
  }

  lemma StepSleepers(s: State, t: State, m: Move)
    requires Inv(s) && Sleepers(s) && Step(s, t, m)
    ensures Sleepers(t)
  {
    hide Parents, Orphans, Pids, Woken;
    if m.MAlloc? || m.MForkFails? || m.MAdopt? || m.MLaunch? {
      assert m.MAlloc? || InFork(s, m.p, s.proc[m.p].doing.child);
    }
  }

  /** A killed process never sleeps in wait: kill wakes it there, and it does not go back. */
  lemma {:induction false} KilledNeverWaits(tr: seq<State>, i: nat)
    requires Run(tr) && i < |tr|
    ensures Sleepers(tr[i])
  {
    hide Inv, Step, Sleepers;
    if i > 0 {
      KilledNeverWaits(tr, i - 1);
      RunInv(tr, i - 1);
      assert Next(tr[i - 1], tr[i - 1 + 1]);
      var m :| Step(tr[i - 1], tr[i], m);
      StepSleepers(tr[i - 1], tr[i], m);
    } else {
      StartSleepers(tr[0]);
    }
  }

  lemma StartSleepers(s: State)
    requires Init(s)
    ensures Sleepers(s)
  {
  }

  // ---- Every zombie can be reaped ----

  ghost predicate Leads(tr: seq<State>, s: State, t: State) {
    && |tr| > 0 && tr[0] == s && tr[|tr| - 1] == t
    && forall i | 0 <= i < |tr| - 1 :: Next(tr[i], tr[i + 1])
  }

  lemma LeadsFrom(s: State, u: State, m: Move, tr: seq<State>, t: State)
    requires Step(s, u, m) && Leads(tr, u, t)
    ensures Leads([s] + tr, s, t)
  {
    var longer := [s] + tr;
    forall i | 0 <= i < |longer| - 1
      ensures Next(longer[i], longer[i + 1])
    {
      if i == 0 {
        assert Step(longer[0], longer[1], m);
      } else {
        assert Next(tr[i - 1], tr[i - 1 + 1]);
      }
    }
  }

  /** How far a process is from a scan of wait. */
  ghost function Far(x: Proc): nat {
    if x.status == SLEEPING then 6
    else if x.status == RUNNABLE then 5
    else if x.doing.Forking? then 4
    else if x.doing.Adopted? then 3
    else if x.doing == Blocked then 2
    else 1
  }

  /** A zombie c and its parent q. */
  ghost predicate Left(s: State, q: nat, c: nat, pid: nat) {
    && Inv(s) && Sleepers(s) && q < |s.proc| && ZombieWith(s, c, pid) && s.proc[c].parent == q && Alive(s.proc[q])
  }

  /** One step of the parent towards wait. */
  lemma TowardsWait(s: State, q: nat, c: nat, pid: nat) returns (t: State, m: Move)
    requires Left(s, q, c, pid) && Far(s.proc[q]) > 1
    ensures Step(s, t, m) && |t.proc| == |s.proc| && Far(t.proc[q]) < Far(s.proc[q])
    ensures Alive(t.proc[q]) && t.proc[c] == s.proc[c]
  {
    hide Pids, Orphans;
    var x := s.proc[q];
    assert x.status == SLEEPING ==> !WaitsAsleep(x);
    if x.status == SLEEPING {
      m, t := MUnblock(q), Put(s, q, x.(status := RUNNABLE));
    } else if x.status == RUNNABLE {
      m, t := MSchedule(q), Put(s, q, x.(status := RUNNING));
    } else if x.doing.Forking? {
      var d := x.doing.child;
      assert InFork(s, q, d);
      m, t := MAdopt(q), s.(proc := s.proc[d := s.proc[d].(parent := q)][q := x.(doing := Adopted(d))]);
    } else if x.doing.Adopted? {
      var d := x.doing.child;
      assert InFork(s, q, d);
      m, t := MLaunch(q), s.(proc := s.proc[d := s.proc[d].(status := RUNNABLE)][q := x.(doing := Nothing)]);
    } else {
      m, t := MResume(q), Put(s, q, x.(doing := Nothing));
    }
  }

  lemma {:induction false} ParentReaps(s: State, q: nat, c: nat, pid: nat) returns (tr: seq<State>, t: State)
    requires Left(s, q, c, pid)
    ensures Leads(tr, s, t) && pid in t.reaped
    decreases Far(s.proc[q])
  {
    if Far(s.proc[q]) == 1 {
      t := s.(proc := s.proc[c := Freed()][q := s.proc[q].(doing := Nothing)], reaped := s.reaped + {pid});
      CanScan(s, q);
      assert Step(s, t, MReap(q, c, pid));
      LeadsFrom(s, t, MReap(q, c, pid), [t], t);
      return [s, t], t;
    }
    var u, m := TowardsWait(s, q, c, pid);
    StepInv(s, u, m);
    StepSleepers(s, u, m);
    hide Inv, Step, Sleepers;
    tr, t := ParentReaps(u, q, c, pid);
    LeadsFrom(s, u, m, tr, t);
    tr := [s] + tr;
  }

  lemma CanScan(s: State, q: nat)
    requires q < |s.proc| && Alive(s.proc[q]) && Far(s.proc[q]) == 1
    ensures InWait(s, q)
  {
  }

  /** No zombie has to stay: from every state of every run its parent can come to wait and be
      given its pid. */
  lemma CanReap(run: seq<State>, i: nat, c: nat) returns (tr: seq<State>, t: State)
    requires Run(run) && i < |run| && c < |run[i].proc| && run[i].proc[c].status == ZOMBIE
    ensures Leads(tr, run[i], t) && run[i].proc[c].pid in t.reaped
  {
    var s := run[i];
    RunInv(run, i);
    KilledNeverWaits(run, i);
    assert c != s.initproc && s.proc[c].parent != -1;
    assert ZombieWith(s, c, s.proc[c].pid);
    tr, t := ParentReaps(s, s.proc[c].parent, c, s.proc[c].pid);
  }
}
