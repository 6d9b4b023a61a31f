/** Runs of the scheduler, under any interleaving of its actions, and what holds in
    every state they reach. */
module SchedulerRuns {
  import opened Sequences
  import opened Scheduler
  import opened SchedulerInvariant

  /** INTR says whether interrupts were on at the call. */
  datatype Action =
    | Creates(priority: int, intr: bool)
    | Yields
    | Idles                            // the idle thread blocks
    | Downs(sema: nat)                 // sema_down is called
    | Resumes                          // a woken thread is back at the loop test
    | TriesDown(sema: nat)
    | Ups(sema: nat, intr: bool)
    | Acquires(lock: nat)
    | TriesAcquire(lock: nat)
    | Releases(lock: nat, intr: bool)
    | SetsPriority(priority: int)
    | SetsNice(priority: int)          // with what the formula gives
    | Sleeps
    | Ticks(expired: set<Tid>)         // the timer wakes the sleepers that are due
    | Recalculates(tid: Tid, priority: int)
    | Exits

  /** The assertions that the operation makes hold; threads only use semaphores that
      are not part of a lock directly, and exit holding no lock. */
  predicate Enabled(s: State, a: Action)
    requires Wf(s)
  {
    var t := s.current;
    var th := s.threads[t];
    && (th.cont == Own <==> !a.Resumes?)
    && match a
       case Creates(p, _) => PRI_MIN <= p <= PRI_MAX
       case Yields => true
       case Idles => t == IDLE
       case Downs(k) => t != IDLE && |s.holder| <= k < |s.semas|
       case Resumes => th.cont.Down?
       case TriesDown(k) => t != IDLE && |s.holder| <= k < |s.semas|
       case Ups(k, _) => |s.holder| <= k < |s.semas|
       case Acquires(l) => t != IDLE && l < |s.holder| && s.holder[l] != Some(t) && Acquire(s, l).Some?
       case TriesAcquire(l) => t != IDLE && l < |s.holder| && s.holder[l] != Some(t)
       case Releases(l, _) => t != IDLE && l < |s.holder| && s.holder[l] == Some(t)
       case SetsPriority(_) => t != IDLE
       case SetsNice(p) => t != IDLE && s.mlfqs && (th.pl.Some? ==> Linked(s, t)) && PRI_MIN <= p <= PRI_MAX
       case Sleeps => t != IDLE
       case Ticks(_) => true
       case Recalculates(u, p) =>
         s.mlfqs && u < |s.threads| && (s.threads[u].pl.Some? ==> Linked(s, u)) && PRI_MIN <= p <= PRI_MAX
       case Exits => t != IDLE && th.held == []
  }

  function Step(s: State, a: Action): (s': State)
    requires Wf(s) && Enabled(s, a)
    ensures Wf(s')
  {
    CurrentThread(s);
    match a
    case Creates(p, intr) => Create(s, p, intr)
    case Yields => Yield(s)
    case Idles => Block(s)
    case Downs(k) => DownPass(s, k)
    case Resumes => DownPass(s, s.threads[s.current].cont.sema)
    case TriesDown(k) => TryDown(s, k)
    case Ups(k, intr) => Up(s, k, intr)
    case Acquires(l) => Acquire(s, l).value
    case TriesAcquire(l) => TryDown(s, l)
    case Releases(l, intr) => Release(s, l, intr)
    case SetsPriority(p) => SetPriority(s, p)
    case SetsNice(p) => SetNice(s, p)
    case Sleeps => Sleep(s)
    case Ticks(expired) => WakeExpired(s, expired, 0)
    case Recalculates(u, p) => Recalculate(s, u, p)
    case Exits => Exit(s)
  }

  /** The idle thread blocked and the main thread running; any number of locks, all
      free, and of other semaphores. */
  predicate Init(s: State) {
    && |s.threads| == 2 && s.current == 1 && s.ready == [] && s.sleeping == [] && |s.holder| <= |s.semas|
    && s.threads[IDLE] == Thread(Blocked, PRI_MIN, PRI_MIN, false, None, 0, None, [], Own)
    && s.threads[1] == Thread(Running, PRI_DEFAULT, PRI_DEFAULT, false, None, 0, None, [], Own)
    && (forall k :: 0 <= k < |s.semas| ==> s.semas[k] == Sema(s.semas[k].value, [], s.semas[k].value, 0, 0))
    && (forall l :: 0 <= l < |s.holder| ==> s.holder[l] == None && s.semas[l].value == 1)
  }

  ghost predicate Next(s: State, s': State) {
    Wf(s) && exists a :: Enabled(s, a) && s' == Step(s, a)
  }

  ghost predicate Behaviour(ss: seq<State>) {
    && |ss| > 0
    && Init(ss[0])
    && forall i {:trigger ss[i]} :: 0 < i < |ss| ==> Next(ss[i - 1], ss[i])
  }

  lemma InitInv(s: State)
    requires Init(s)
    ensures Inv(s)
  {
    assert s.threads == [s.threads[0], s.threads[1]];
    forall l | IsList(s, l) ensures ListOk(s, l) {
      assert List(s, l) == [];
    }
    assert Placed(s, 0) && Placed(s, 1);
    assert ThreadWf(s, s.threads[0]) && ThreadWf(s, s.threads[1]);
  }

  lemma InvWf(s: State)
    requires Inv(s)
    ensures Wf(s)
  {
  }

  predicate GivesUp(a: Action) {
    a.Yields? || a.Idles? || a.Sleeps? || a.Exits?
  }

  lemma StepInv(s: State, a: Action)
    requires Inv(s) && Enabled(s, a)
    ensures Inv(Step(s, a))
    ensures Fair(s, Step(s, a)) && (GivesUp(a) ==> Best(Step(s, a)))
  {
    hide Best, Inv, Create, Yield, Block, DownPass, TryDown, Up, Acquire, Release, SetPriority, SetNice,
      Sleep, Exit, ThreadWf;
    InvWf(s);
    match a
    case Creates(p, intr) => CreateInv(s, p, intr);
    case Yields => YieldInv(s);
    case Idles => IdleBlockInv(s);
    case Downs(k) => DownPassInv(s, k);
    case Resumes => ResumeInv(s);
    case TriesDown(k) => TryDownInv(s, k);
    case Ups(k, intr) => PlainUpInv(s, k, intr);
    case Acquires(l) => AcquireInv(s, l);
    case TriesAcquire(l) => TryDownInv(s, l);
    case Releases(l, intr) => ReleaseInv(s, l, intr);
    case SetsPriority(p) => SetPriorityInv(s, p);
    case SetsNice(p) => SetNiceInv(s, p);
    case Sleeps => SleepInv(s);
    case Ticks(expired) => TicksInv(s, expired);
    case Recalculates(u, p) => RecalculateInv(s, u, p);
    case Exits => ExitInv(s);
  }

  lemma ResumeInv(s: State)
    requires Inv(s) && s.threads[s.current].cont.Down?
    ensures s.threads[s.current].cont.sema < |s.semas|
    ensures var s' := DownPass(s, s.threads[s.current].cont.sema); Inv(s') && Fair(s, s')
  {
    CurrentThread(s);
    assert Placed(s, s.current);
    DownPassInv(s, s.threads[s.current].cont.sema);
  }

  lemma TryDownInv(s: State, k: nat)
    requires Inv(s) && k < |s.semas| && s.current != IDLE && s.threads[s.current].cont == Own
    ensures Inv(TryDown(s, k)) && Fair(s, TryDown(s, k))
  {
    if s.semas[k].value > 0 {
      DownPassInv(s, k);
    }
  }

  lemma PlainUpInv(s: State, k: nat, intr: bool)
    requires Inv(s) && |s.holder| <= k < |s.semas|
    ensures Inv(Up(s, k, intr)) && Fair(s, Up(s, k, intr))
  {
    assert LockOk(Upped(s, k));
    UpInv(s, k, intr);
  }

  lemma TicksInv(s: State, expired: set<Tid>)
    requires Inv(s)
    ensures Inv(WakeExpired(s, expired, 0)) && WakeExpired(s, expired, 0).current == s.current
  {
    WakeExpiredInv(s, expired, 0);
    WakesExactly(s, expired, 0);
  }

  lemma {:induction false} RunInv(ss: seq<State>, i: nat)
    requires Behaviour(ss) && i < |ss|
    ensures Inv(ss[i])
  {
    if i == 0 {
      InitInv(ss[0]);
    } else {
      RunInv(ss, i - 1);
      assert Next(ss[i - 1], ss[i]);
      var a :| Enabled(ss[i - 1], a) && ss[i] == Step(ss[i - 1], a);
      StepInv(ss[i - 1], a);
    }
  }

  // ----- in every reachable state

  /** Every priority list is in order; a linked thread is in the list it names and
      in no other. */
  lemma ListsInOrder(ss: seq<State>, i: nat)
    requires Behaviour(ss) && i < |ss|
    ensures var s := ss[i];
            && (forall l :: IsList(s, l) ==> Within(s.threads, List(s, l)) && Ordered(s.threads, List(s, l)))
            && (forall l, t :: IsList(s, l) && t in List(s, l) ==> t < |s.threads| && s.threads[t].pl == Some(l))
            && (forall t :: 0 <= t < |s.threads| && s.threads[t].pl.Some? ==>
                  IsList(s, s.threads[t].pl.value) && t in List(s, s.threads[t].pl.value))
  {
    var s := ss[i];
    RunInv(ss, i);
    forall l | IsList(s, l)
      ensures Within(s.threads, List(s, l)) && Ordered(s.threads, List(s, l))
      ensures forall t :: t in List(s, l) ==> t < |s.threads| && s.threads[t].pl == Some(l)
    {
      assert ListOk(s, l);
    }
  }

  /** Whenever an action leaves another thread running, or the running thread gives up the
      CPU, the thread that runs next is the best of all that can run: the highest priority,
      and of those the one in line longest.  The idle thread runs only if no other can. */
  lemma PicksTheBest(ss: seq<State>, i: nat, a: Action)
    requires Behaviour(ss) && i + 1 < |ss| && Wf(ss[i]) && Enabled(ss[i], a) && ss[i + 1] == Step(ss[i], a)
    ensures ss[i + 1].current != ss[i].current || GivesUp(a) ==> Best(ss[i + 1])
  {
    hide Inv, Wf, Enabled, Step, Best;
    RunInv(ss, i);
    StepInv(ss[i], a);
  }

  /** Actions that may make a thread of higher priority than the current one runnable, or
      lower the current one, and then check for that: with interrupts on, where they can be
      off. */
  predicate Checks(s: State, a: Action)
    requires Wf(s) && Enabled(s, a)
  {
    match a
    case Creates(_, intr) => intr
    case Ups(k, intr) => intr && s.semas[k].waiters != []
    case Releases(l, intr) => intr && s.semas[l].waiters != []
    case SetsPriority(_) => !s.mlfqs
    case SetsNice(_) => true
    case _ => GivesUp(a)
  }

  /** After such an action no thread that can run has a higher priority than the one that
      does. */
  lemma Preempts(ss: seq<State>, i: nat, a: Action)
    requires Behaviour(ss) && i + 1 < |ss| && Wf(ss[i]) && Enabled(ss[i], a) && ss[i + 1] == Step(ss[i], a)
    requires Checks(ss[i], a)
    ensures Highest(ss[i + 1])
  {
    hide Inv, Wf, Enabled, Step, Highest, Checks;
    RunInv(ss, i);
    CheckedHighest(ss[i], a);
  }

  lemma CheckedHighest(s: State, a: Action)
    requires Inv(s) && Enabled(s, a) && Checks(s, a)
    ensures Highest(Step(s, a))
  {
    hide Best, Highest, Inv, Create, Yield, Block, Up, Release, SetPriority, SetNice, Sleep, Exit,
      ThreadWf;
    InvWf(s);
    if GivesUp(a) {
      StepInv(s, a);
      BestIsHighest(Step(s, a));
    } else {
      match a
      case Creates(p, _) => CreateHighest(s, p);
      case Ups(k, _) => PlainUpHighest(s, k);
      case Releases(l, _) => ReleaseHighest(s, l);
      case SetsPriority(p) => SetPriorityHighest(s, p);
      case SetsNice(p) => SetNiceInv(s, p);
      case _ =>
    }
  }

  lemma PlainUpHighest(s: State, k: nat)
    requires Inv(s) && k < |s.semas| && s.semas[k].waiters != []
    ensures Highest(Up(s, k, true))
  {
    hide Up, Highest, ListsOk, SyncOk;
    UpHighest(s, k);
  }

  /** No thread is lost: each one that has not exited is running, runnable and in the
      ready list, asleep, or in the list of the semaphore that it is downing. */
  lemma NobodyIsLost(ss: seq<State>, i: nat, t: Tid)
    requires Behaviour(ss) && i < |ss|
    requires t < |ss[i].threads| && t != IDLE && ss[i].threads[t].status != Dying
    ensures var s := ss[i];
            var th := s.threads[t];
            || (t == s.current && th.status == Running)
            || (t in s.ready && th.status == Runnable)
            || (t in s.sleeping && th.status == Blocked)
            || (th.cont.Down? && th.cont.sema < |s.semas| && t in s.semas[th.cont.sema].waiters && th.status == Blocked)
  {
    var s := ss[i];
    RunInv(ss, i);
    assert Placed(s, t);
    if s.threads[t].status == Runnable {
      assert t in List(s, Ready);
    } else if s.threads[t].status == Blocked && t !in s.sleeping {
      assert t in List(s, s.threads[t].pl.value);
    }
  }

  /** Thread T was woken from semaphore K's list, can run, and will test for a unit. */
  predicate HasTaker(s: State, k: nat, t: Tid) {
    && t < |s.threads| && s.threads[t].cont == Down(k)
    && (s.threads[t].status == Runnable || s.threads[t].status == Running)
  }

  /** Semaphores conserve units; while threads wait, the units available are at most
      the woken threads still to test for one, so an available unit always has a
      taker that can run. */
  lemma SemaphoresKeepFaith(ss: seq<State>, i: nat, k: nat)
    requires Behaviour(ss) && i < |ss| && k < |ss[i].semas|
    ensures var s := ss[i];
            var m := s.semas[k];
            && m.value == m.initial + m.ups - m.downs
            && (m.waiters != [] ==> m.value <= WokenCount(s.threads, k))
            && (m.waiters != [] && m.value > 0 ==> exists t :: HasTaker(s, k, t))
  {
    var s := ss[i];
    RunInv(ss, i);
    assert SemaOk(s, k);
    if s.semas[k].waiters != [] && s.semas[k].value > 0 {
      var t := WokenExists(s.threads, k);
      WokenCanRun(s, k, t);
      assert HasTaker(s, k, t);
    }
  }

  lemma WokenCanRun(s: State, k: nat, t: Tid)
    requires Inv(s) && t < |s.threads| && Woken(s.threads[t], k)
    ensures s.threads[t].status == Runnable || s.threads[t].status == Running
  {
    assert Placed(s, t);
  }

  lemma {:induction false} WokenExists(threads: seq<Thread>, k: nat) returns (t: Tid)
    requires WokenCount(threads, k) > 0
    ensures t < |threads| && Woken(threads[t], k)
  {
    if Woken(threads[0], k) {
      t := 0;
    } else {
      var u := WokenExists(threads[1..], k);
      t := u + 1;
    }
  }

  /** A lock is in the list of acquired locks of its holder and of nobody else, once,
      and its semaphore is 1 exactly while it has no holder. */
  lemma LocksHaveOneHolder(ss: seq<State>, i: nat, l: nat, t: Tid)
    requires Behaviour(ss) && i < |ss| && l < |ss[i].holder| && t < |ss[i].threads|
    ensures var s := ss[i];
            && (l in s.threads[t].held <==> s.holder[l] == Some(t))
            && Distinct(s.threads[t].held)
            && s.semas[l].value == if s.holder[l] == None then 1 else 0
  {
    RunInv(ss, i);
  }

  /** Without the feedback-queue scheduler a priority is never below the one the
      thread set itself, and equals it unless raised by a donation. */
  lemma DonationOnlyRaises(ss: seq<State>, i: nat, t: Tid)
    requires Behaviour(ss) && i < |ss| && t < |ss[i].threads| && !ss[i].mlfqs
    ensures var th := ss[i].threads[t];
            th.original <= th.priority && (!th.donated ==> th.original == th.priority)
  {
    RunInv(ss, i);
  }
}
