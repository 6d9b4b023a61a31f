/** What lock_release and lock_acquire do to priorities, in every state a run of the
    scheduler reaches. */
module Donation {
  import opened Sequences
  import opened Scheduler
  import opened SchedulerInvariant
  import opened SchedulerRuns

  // ----- lock_release

  /** P is the largest of ORIGINAL and the priorities of all threads waiting for the
      locks in LOCKS. */
  predicate IsTrueMaximum(s: State, p: int, original: int, locks: seq<nat>)
    requires Wf(s) && forall i :: 0 <= i < |locks| ==> locks[i] < |s.holder|
  {
    && original <= p
    && (forall i, j :: 0 <= i < |locks| && 0 <= j < |s.semas[locks[i]].waiters| ==>
          s.threads[s.semas[locks[i]].waiters[j]].priority <= p)
    && (p == original || WaiterAt(s, p, locks))
  }

  predicate WaiterAt(s: State, p: int, locks: seq<nat>)
    requires Wf(s) && forall i :: 0 <= i < |locks| ==> locks[i] < |s.holder|
  {
    exists i, j :: 0 <= i < |locks| && 0 <= j < |s.semas[locks[i]].waiters| &&
      s.threads[s.semas[locks[i]].waiters[j]].priority == p
  }

  /** Some thread waiting for the locks in LOCKS has at least the lowest priority. */
  predicate SensibleWaiter(s: State, locks: seq<nat>)
    requires Wf(s) && forall i :: 0 <= i < |locks| ==> locks[i] < |s.holder|
  {
    exists i, j :: 0 <= i < |locks| && 0 <= j < |s.semas[locks[i]].waiters| &&
      s.threads[s.semas[locks[i]].waiters[j]].priority >= PRI_MIN
  }

  /** Looking only at the first waiter of each lock finds the largest priority of all
      waiters, or PRI_MIN if that is larger. */
  lemma {:induction false} NextDonationIsMaximum(s: State, locks: seq<nat>)
    requires Wf(s) && ListsOk(s) && forall i :: 0 <= i < |locks| ==> locks[i] < |s.holder|
    ensures NextDonation(s, locks) >= PRI_MIN
    ensures forall i, j :: 0 <= i < |locks| && 0 <= j < |s.semas[locks[i]].waiters| ==>
              s.threads[s.semas[locks[i]].waiters[j]].priority <= NextDonation(s, locks)
    ensures NextDonation(s, locks) == PRI_MIN || WaiterAt(s, NextDonation(s, locks), locks)
  {
    if locks != [] {
      var n := |locks| - 1;
      var front := locks[..n];
      NextDonationIsMaximum(s, front);
      var ts := s.semas[locks[n]].waiters;
      assert List(s, Waiters(locks[n])) == ts;
      assert ListOk(s, Waiters(locks[n]));
      assert forall j :: 0 < j < |ts| ==> Precedes(s.threads[ts[0]], s.threads[ts[j]]);
      var best := NextDonation(s, locks);
      if best == NextDonation(s, front) {
        if best != PRI_MIN {
          var i, j :| 0 <= i < |front| && 0 <= j < |s.semas[front[i]].waiters| &&
            s.threads[s.semas[front[i]].waiters[j]].priority == best;
          assert locks[i] == front[i];
        }
      } else {
        assert s.threads[s.semas[locks[n]].waiters[0]].priority == best;
      }
    }
  }

  /** sema_up leaves every other semaphore and every thread's priorities and locks. */
  lemma UpFrame(s: State, k: nat, intr: bool)
    requires Core(s, None, true) && k < |s.semas|
    ensures var s' := Up(s, k, intr);
      && |s'.semas| == |s.semas| && s'.holder == s.holder && |s'.threads| == |s.threads|
      && (forall j :: 0 <= j < |s.semas| && j != k ==> s'.semas[j] == s.semas[j])
      && (forall u :: 0 <= u < |s.threads| ==> SameStanding(s.threads[u], s'.threads[u]))
  {
    hide Best, SameSync, Unblock, ListsOk, Placed;
    var s1 := Upped(s, k);
    UppedCore(s, k);
    if s.semas[k].waiters != [] {
      var t, s2 := s.semas[k].waiters[0], Unlink(s1, Waiters(k), 0);
      PoppedCore(s1, k);
      UnblockCore(s2, t, intr);
      SameSyncStanding(s2, Up(s, k, intr));
    }
  }

  predicate SameStanding(a: Thread, b: Thread) {
    b.priority == a.priority && b.original == a.original && b.donated == a.donated && b.held == a.held
  }

  lemma SameSyncStanding(s: State, s': State)
    requires SameSync(s, s')
    ensures s'.semas == s.semas && s'.holder == s.holder && |s'.threads| == |s.threads|
    ensures forall u :: 0 <= u < |s.threads| ==> SameStanding(s.threads[u], s'.threads[u])
  {
    forall u | 0 <= u < |s.threads| ensures SameStanding(s.threads[u], s'.threads[u]) {
      assert SameRecord(s.threads[u], s'.threads[u]);
    }
  }

  /** lock_release changes the standing of the thread that calls it alone, and no other
      lock's waiters. */
  lemma ReleaseFrame(s: State, l: nat, intr: bool)
    requires Inv(s) && l < |s.holder| && s.holder[l] == Some(s.current) && s.current != IDLE
    ensures var t, s' := s.current, Release(s, l, intr);
      && |s'.semas| == |s.semas| && |s'.holder| == |s.holder| && |s'.threads| == |s.threads|
      && (forall j :: 0 <= j < |s.semas| && j != l ==> s'.semas[j] == s.semas[j])
      && (forall u :: 0 <= u < |s.threads| && u != t ==> s'.threads[u].priority == s.threads[u].priority)
      && StillHeld(s, l) && SameStanding(ReleasedThread(s, s.threads[t], Without(s.threads[t].held, l)), s'.threads[t])
  {
    hide Up, ListsOk, Placed, SyncOk, ReleasedThread, Without;
    CurrentThread(s);
    ReleasedCore(s, l);
    UpFrame(Released(s, l), l, intr);
    assert Release(s, l, intr) == Up(Released(s, l), l, intr);
  }

  /** The locks that remain are locks. */
  predicate StillHeld(s: State, l: nat)
    requires Wf(s)
  {
    var locks := Without(s.threads[s.current].held, l);
    forall i :: 0 <= i < |locks| ==> locks[i] < |s.holder|
  }

  lemma MaximumAlike(s: State, s': State, p: int, original: int, locks: seq<nat>)
    requires Wf(s) && Wf(s') && |s'.holder| == |s.holder|
    requires forall i :: 0 <= i < |locks| ==> locks[i] < |s.holder|
    requires forall i :: 0 <= i < |locks| ==> s'.semas[locks[i]] == s.semas[locks[i]]
    requires forall i, j :: 0 <= i < |locks| && 0 <= j < |s.semas[locks[i]].waiters| ==>
               var u := s.semas[locks[i]].waiters[j];
               u < |s'.threads| && s'.threads[u].priority == s.threads[u].priority
    ensures IsTrueMaximum(s', p, original, locks) <==> IsTrueMaximum(s, p, original, locks)
  {
    if WaiterAt(s, p, locks) {
      var i, j :| 0 <= i < |locks| && 0 <= j < |s.semas[locks[i]].waiters| &&
        s.threads[s.semas[locks[i]].waiters[j]].priority == p;
      assert s'.threads[s'.semas[locks[i]].waiters[j]].priority == p;
    }
    if WaiterAt(s', p, locks) {
      var i, j :| 0 <= i < |locks| && 0 <= j < |s'.semas[locks[i]].waiters| &&
        s'.threads[s'.semas[locks[i]].waiters[j]].priority == p;
      assert s.threads[s.semas[locks[i]].waiters[j]].priority == p;
    }
    if IsTrueMaximum(s', p, original, locks) {
      forall i, j | 0 <= i < |locks| && 0 <= j < |s.semas[locks[i]].waiters|
        ensures s.threads[s.semas[locks[i]].waiters[j]].priority <= p
      {
        assert s'.threads[s'.semas[locks[i]].waiters[j]].priority <= p;
      }
    }
  }

  /** The running thread waits for nothing. */
  lemma NotAWaiter(s: State, k: nat, j: nat)
    requires Inv(s) && k < |s.semas| && j < |s.semas[k].waiters|
    ensures s.semas[k].waiters[j] < |s.threads| && s.semas[k].waiters[j] != s.current
  {
    assert ListOk(s, Waiters(k));
    assert List(s, Waiters(k)) == s.semas[k].waiters;
    assert Placed(s, s.current);
  }

  /** lock_release leaves the thread at the true maximum of its own priority and those of all
      waiters for the locks it still holds, in every reachable state, if and only if it holds
      no more locks or that maximum is a sensible priority. */
  lemma ReleaseSetsTrueMaximum(ss: seq<State>, k: nat, l: nat, intr: bool)
    requires Behaviour(ss) && k < |ss|
    requires var s := ss[k]; Wf(s) && !s.mlfqs && s.current != IDLE && l < |s.holder| && s.holder[l] == Some(s.current)
    ensures var s, s' := ss[k], Release(ss[k], l, intr);
      var t, locks := s.current, Without(s.threads[s.current].held, l);
      && t < |s'.threads| && s'.threads[t].held == locks && s'.threads[t].original == s.threads[t].original
      && (forall i :: 0 <= i < |locks| ==> locks[i] < |s.holder| && locks[i] < |s'.holder|)
      && (IsTrueMaximum(s', s'.threads[t].priority, s'.threads[t].original, locks) <==>
            locks == [] || s.threads[t].original >= PRI_MIN || SensibleWaiter(s, locks))
  {
    hide Behaviour, Inv, Wf, Release, Without, IsTrueMaximum, SensibleWaiter;
    RunInv(ss, k);
    ReleaseMaximum(ss[k], l, intr);
  }

  lemma ReleaseMaximum(s: State, l: nat, intr: bool)
    requires Inv(s) && Wf(s) && !s.mlfqs && s.current != IDLE && l < |s.holder| && s.holder[l] == Some(s.current)
    ensures var s' := Release(s, l, intr);
      var t, locks := s.current, Without(s.threads[s.current].held, l);
      && t < |s'.threads| && s'.threads[t].held == locks && s'.threads[t].original == s.threads[t].original
      && (forall i :: 0 <= i < |locks| ==> locks[i] < |s.holder| && locks[i] < |s'.holder|)
      && (IsTrueMaximum(s', s'.threads[t].priority, s'.threads[t].original, locks) <==>
            locks == [] || s.threads[t].original >= PRI_MIN || SensibleWaiter(s, locks))
  {
    hide Inv, Wf, Release, Without, IsTrueMaximum, SensibleWaiter, ReleasedThread;
    var s' := Release(s, l, intr);
    ReleasedStanding(s, l, intr);
    var t, th := s.current, s.threads[s.current];
    var locks := Without(th.held, l);
    ReleasedAlike(s, s', l, s'.threads[t].priority, th.original, locks);
    ReleasedMaximum(s, th, locks);
  }

  /** Only the priority of the current thread, and nothing of the locks but L, has changed. */
  predicate OnlyReleaser(s: State, s': State, l: nat) {
    && |s'.semas| == |s.semas| && |s'.holder| == |s.holder| && |s'.threads| == |s.threads|
    && (forall j :: 0 <= j < |s.semas| && j != l ==> s'.semas[j] == s.semas[j])
    && (forall u :: 0 <= u < |s.threads| && u != s.current ==> s'.threads[u].priority == s.threads[u].priority)
  }

  predicate OtherLocks(s: State, l: nat, locks: seq<nat>) {
    forall i :: 0 <= i < |locks| ==> locks[i] < |s.holder| <= |s.semas| && locks[i] != l
  }

  lemma ReleasedStanding(s: State, l: nat, intr: bool)
    requires Inv(s) && !s.mlfqs && s.current != IDLE && l < |s.holder| && s.holder[l] == Some(s.current)
    ensures s.current < |s.threads| && ListsOk(s) && Wf(s) && StillHeld(s, l)
    ensures var s', th := Release(s, l, intr), s.threads[s.current];
      var locks := Without(th.held, l);
      && Wf(s') && OnlyReleaser(s, s', l) && OtherLocks(s, l, locks)
      && s'.threads[s.current].held == locks && s'.threads[s.current].original == th.original
      && s'.threads[s.current].priority == ReleasedThread(s, th, locks).priority
  {
    hide Release, Without, NextDonation;
    ReleaseFrame(s, l, intr);
    WithoutMembers(s.threads[s.current].held, l);
  }

  /** So the waiters for the locks still held, and their priorities, are as they were. */
  lemma ReleasedAlike(s: State, s': State, l: nat, p: int, original: int, locks: seq<nat>)
    requires Inv(s) && Wf(s') && OnlyReleaser(s, s', l) && OtherLocks(s, l, locks)
    ensures forall i :: 0 <= i < |locks| ==> locks[i] < |s.holder| && locks[i] < |s'.holder|
    ensures IsTrueMaximum(s', p, original, locks) <==> IsTrueMaximum(s, p, original, locks)
  {
    hide IsTrueMaximum, ListsOk, SyncOk;
    forall i, j | 0 <= i < |locks| && 0 <= j < |s.semas[locks[i]].waiters|
      ensures s.semas[locks[i]].waiters[j] < |s.threads| && s.semas[locks[i]].waiters[j] != s.current
    {
      NotAWaiter(s, locks[i], j);
    }
    MaximumAlike(s, s', p, original, locks);
  }

  lemma ReleasedMaximum(s: State, th: Thread, locks: seq<nat>)
    requires Wf(s) && ListsOk(s) && !s.mlfqs && forall i :: 0 <= i < |locks| ==> locks[i] < |s.holder|
    ensures IsTrueMaximum(s, ReleasedThread(s, th, locks).priority, th.original, locks) <==>
              locks == [] || th.original >= PRI_MIN || SensibleWaiter(s, locks)
  {
    NextDonationIsMaximum(s, locks);
  }

  /** A lone thread that yields runs on. */
  lemma YieldsAlone(s: State)
    requires Wf(s) && |s.threads| == 2 && s.current == 1 && s.ready == []
    requires s.threads[1].status == Running && s.threads[1].pl == None
    ensures Yield(s) == s.(threads := [s.threads[0], s.threads[1].(stamp := s.clock)], clock := s.clock + 1)
  {
    var s1 := Link(s, Ready, 1);
    assert InsertAt([], 0, 1) == [1];
    assert s1.ready == [1] && s1.threads[0] == s.threads[0];
    assert RemoveAt([1], 0) == [];
  }

  /** One that lowers its priority below PRI_MIN yields. */
  lemma LowersItself(s: State)
    requires Wf(s) && |s.threads| == 2 && s.current == 1 && s.ready == [] && !s.mlfqs
    requires s.threads[1].status == Running && !s.threads[1].donated && s.threads[1].pl == None
    ensures SetPriority(s, -1) ==
      s.(threads := [s.threads[0], s.threads[1].(priority := -1, original := -1, stamp := s.clock)],
         clock := s.clock + 1)
    ensures s.threads[1].cont == Own ==> Next(s, SetPriority(s, -1))
  {
    hide Yield;
    var s1 := Set(s, 1, s.threads[1].(original := -1, priority := -1));
    SetWf(s, 1, s1.threads[1]);
    YieldsAlone(s1);
    assert SetPriority(s, -1) == Yield(s1);
    assert s.threads[1].cont == Own ==> Enabled(s, SetsPriority(-1)) && Step(s, SetsPriority(-1)) == SetPriority(s, -1);
  }

  /** The condition is needed: a thread that gave itself a negative priority and releases
      one of two locks that nobody waits for ends up above it. */
  lemma ReleaseCanOverrate() returns (ss: seq<State>)
    ensures Behaviour(ss) && |ss| == 5 && Wf(ss[3]) && |ss[3].holder| == 2 && ss[4] == Release(ss[3], 0, true)
    ensures var s, t := ss[4], ss[3].current;
      && Wf(s) && t < |s.threads| && s.threads[t].original == -1 && s.threads[t].priority == 0
      && s.threads[t].held == [1] && |s.holder| == 2 && !IsTrueMaximum(s, 0, -1, [1])
  {
    hide Inv, Next, SetPriority, Wf, Without, Release, ReleasedThread, IsTrueMaximum, SensibleWaiter, Enabled, Step;
    var m := Sema(1, [], 1, 0, 0);
    var idle := Thread(Blocked, PRI_MIN, PRI_MIN, false, None, 0, None, [], Own);
    var me := Thread(Running, PRI_DEFAULT, PRI_DEFAULT, false, None, 0, None, [], Own);
    var s0 := State([idle, me], [], [], [m, m], [None, None], 1, 0, false);
    InitInv(s0);
    Takes(s0, 0);
    var s1 := TookLock(s0, 0);
    Takes(s1, 1);
    var s2 := TookLock(s1, 1);
    LowersItself(s2);
    var s3 := SetPriority(s2, -1);
    assert s3.threads[1].held == [0, 1] && s3.semas[1].waiters == [];
    ReleasesHigh(s3);
    ss := [s0, s1, s2, s3, Release(s3, 0, true)];
    assert Behaviour(ss) by {
      assert Next(ss[0], ss[1]) && Next(ss[1], ss[2]) && Next(ss[2], ss[3]) && Next(ss[3], ss[4]);
    }
    RunInv(ss, 3);
    ReleaseSetsTrueMaximum(ss, 3, 0, true);
    ReleasedStanding(s3, 0, true);
  }

  /** Thread 1 at priority -1, about to release one of two locks nobody waits for. */
  lemma ReleasesHigh(s: State)
    requires Wf(s) && s.current == 1 && |s.threads| == 2 && |s.holder| == 2 && !s.mlfqs
    requires s.threads[1].held == [0, 1] && s.threads[1].original == -1 && s.semas[1].waiters == []
    requires s.threads[1].cont == Own && s.holder[0] == Some(1)
    ensures Next(s, Release(s, 0, true))
    ensures Without([0, 1], 0) == [1]
    ensures ReleasedThread(s, s.threads[1], [1]).priority == 0 && !SensibleWaiter(s, [1])
  {
    hide Release, ThreadWf;
    assert IndexOf([0, 1], 0) == 0;
    assert NextDonation(s, [1][..0]) == 0;
    assert Enabled(s, Releases(0, true)) && Step(s, Releases(0, true)) == Release(s, 0, true);
  }

  /** The second thread holding free lock L. */
  function TookLock(s: State, l: nat): State
    requires |s.threads| == 2 && l < |s.holder| <= |s.semas|
  {
    var th := s.threads[1];
    s.(semas := s.semas[l := s.semas[l].(value := 0, downs := s.semas[l].downs + 1)],
       threads := [s.threads[0], th.(waitingFor := None, held := th.held + [l])],
       holder := s.holder[l := Some(1)])
  }

  /** Taking a free lock. */
  lemma Takes(s: State, l: nat)
    requires Inv(s) && s.current == 1 && |s.threads| == 2 && s.threads[1].cont == Own && l < |s.holder|
    requires s.holder[l] == None && s.semas[l].value == 1
    ensures Next(s, TookLock(s, l)) && Inv(TookLock(s, l)) && Wf(TookLock(s, l))
  {
    var s' := TookLock(s, l);
    assert Acquire(s, l) == Some(GiveLock(Taken(s, l), l, 1));
    assert GiveLock(Taken(s, l), l, 1) == s';
    assert Enabled(s, Acquires(l)) && Step(s, Acquires(l)) == s';
    StepInv(s, Acquires(l));
  }

  // ----- lock_acquire

  /** A thread that has to wait changes nobody's priority by going to sleep. */
  lemma WaitingKeepsPriorities(s: State, k: nat)
    requires Wf(s) && k < |s.semas| && s.semas[k].value == 0
    ensures var s' := DownPass(s, k);
      && |s'.threads| == |s.threads|
      && forall u :: 0 <= u < |s.threads| ==> s'.threads[u].priority == s.threads[u].priority
  {
    hide Schedule, Enqueued;
    EnqueuedShape(s, k);
    ScheduleThreads(SetStatus(Enqueued(s, k), s.current, Blocked));
  }

  lemma {:induction false} RaisedCountAlike(a: seq<Thread>, b: seq<Thread>, a1: seq<Thread>, b1: seq<Thread>)
    requires |a| == |a1| == |b| == |b1|
    requires forall u :: 0 <= u < |a| ==> a1[u].priority == a[u].priority && b1[u].priority == b[u].priority
    ensures RaisedCount(a, b) == RaisedCount(a1, b1)
  {
    if a != [] {
      RaisedCountAlike(a[1..], b[1..], a1[1..], b1[1..]);
    }
  }

  /** After a blocking lock_acquire the holder is at least at the acquirer's priority and no
      thread is lower than before; at most nine were raised, and unless all nine were used
      up, whoever a raised thread waits for is at that priority too. */
  lemma AcquireDonates(ss: seq<State>, k: nat, l: nat)
    requires Behaviour(ss) && k < |ss|
    requires var s := ss[k];
      && Wf(s) && !s.mlfqs && s.current != IDLE && s.threads[s.current].cont == Own
      && l < |s.holder| && s.holder[l].Some? && s.holder[l] != Some(s.current) && Acquire(s, l).Some?
    ensures var s, s' := ss[k], Acquire(ss[k], l).value;
      && |s'.threads| == |s.threads| && s.holder[l].value < |s.threads|
      && Given(s, s', s.holder[l].value, s.threads[s.current].priority)
  {
    RunInv(ss, k);
    DonatesFrom(ss[k], l);
  }

  /** P has been given to the holder H, and passed on, on the way from S to S1. */
  predicate Given(s: State, s1: State, h: Tid, p: int)
    requires |s.threads| == |s1.threads| && h < |s.threads|
  {
    && s1.threads[h].priority >= p
    && (forall u :: 0 <= u < |s.threads| ==> s1.threads[u].priority >= s.threads[u].priority)
    && RaisedCount(s.threads, s1.threads) <= 9
    && (RaisedCount(s.threads, s1.threads) < 9 ==>
          forall u :: 0 <= u < |s.threads| && s1.threads[u].priority != s.threads[u].priority ==> PassedOn(s, s1, u, p))
  }

  lemma DonatesFrom(s: State, l: nat)
    requires Inv(s) && Wf(s) && !s.mlfqs && s.current != IDLE && s.threads[s.current].cont == Own
    requires l < |s.holder| && s.holder[l].Some? && s.holder[l] != Some(s.current) && Acquire(s, l).Some?
    ensures |Acquire(s, l).value.threads| == |s.threads| && s.holder[l].value < |s.threads|
    ensures Given(s, Acquire(s, l).value, s.holder[l].value, s.threads[s.current].priority)
  {
    hide Donate, DownPass, Inv, Wf, Given, Acquire;
    HeldLock(s, l);
    var h, th := s.holder[l].value, s.threads[s.current];
    var s1, r := AcquireSteps(s, l);
    WaitingSet(s, h);
    Reached(s1, h, th.priority, r);
    WaitingKeepsPriorities(r.value, l);
    GivenAlike(s, s1, r.value, Acquire(s, l).value, h, th.priority);
  }

  /** lock_acquire of a held lock: whom to wait for, the donation, and the wait. */
  lemma AcquireSteps(s: State, l: nat) returns (s1: State, r: Option<State>)
    requires Wf(s) && !s.mlfqs && l < |s.holder| && s.holder[l].Some? && s.semas[l].value == 0 && Acquire(s, l).Some?
    ensures var h, th := s.holder[l].value, s.threads[s.current];
      && h < |s.threads| && s1 == Set(s, s.current, th.(waitingFor := Some(h))) && Wf(s1)
      && r == (if th.priority > s1.threads[h].priority
               then Donate(s1, Some(h), th.priority, DONATION_DEPTH) else Some(s1))
      && r.Some? && Wf(r.value) && l < |r.value.semas| && Acquire(s, l).value == DownPass(r.value, l)
  {
    hide Donate, DownPass;
    var h, th := s.holder[l].value, s.threads[s.current];
    s1 := Set(s, s.current, th.(waitingFor := Some(h)));
    SetWf(s, s.current, s1.threads[s.current]);
    r := if th.priority > s1.threads[h].priority then Donate(s1, Some(h), th.priority, DONATION_DEPTH) else Some(s1);
  }

  lemma GivenAlike(s: State, s1: State, r: State, s': State, h: Tid, p: int)
    requires |s.threads| == |s1.threads| == |r.threads| == |s'.threads| && h < |s.threads| && s.current < |s.threads|
    requires s1 == Set(s, s.current, s1.threads[s.current])
    requires s1.threads[s.current].priority == s.threads[s.current].priority
    requires r.threads[s.current] == s1.threads[s.current]
    requires forall u :: 0 <= u < |r.threads| ==> s'.threads[u].priority == r.threads[u].priority
    requires forall u :: 0 <= u < |r.threads| ==> r.threads[u].priority >= s1.threads[u].priority
    requires Given(s1, r, h, p)
    ensures Given(s, s', h, p)
  {
    RaisedCountAlike(s1.threads, r.threads, s.threads, s'.threads);
    if RaisedCount(s.threads, s'.threads) < DONATION_DEPTH {
      forall u | 0 <= u < |s.threads| && s'.threads[u].priority != s.threads[u].priority ensures PassedOn(s, s', u, p) {
        assert PassedOn(s1, r, u, p);
      }
    }
  }

  lemma HeldLock(s: State, l: nat)
    requires Inv(s) && l < |s.holder| && s.holder[l].Some?
    ensures s.holder[l].value < |s.threads| && l < |s.semas| && s.semas[l].value == 0 && s.current < |s.threads|
    ensures s.threads[s.current].pl == None
  {
    assert Placed(s, s.current);
  }

  lemma WaitingSet(s: State, h: Tid)
    requires Inv(s) && h < |s.threads| && s.current < |s.threads|
    ensures Inv(Set(s, s.current, s.threads[s.current].(waitingFor := Some(h))))
  {
    CurrentChanged(s, s.threads[s.current].(waitingFor := Some(h)));
  }

  /** What lock_acquire's donation has done by the time the thread waits. */
  lemma Reached(s: State, h: Tid, priority: int, r: Option<State>)
    requires Inv(s) && Wf(s) && !s.mlfqs && h < |s.threads| && s.current < |s.threads|
    requires s.threads[s.current].pl == None
    requires r == if priority > s.threads[h].priority then Donate(s, Some(h), priority, DONATION_DEPTH) else Some(s)
    requires r.Some?
    ensures Inv(r.value) && Donated(s, r.value, priority) && r.value.threads[s.current] == s.threads[s.current]
    ensures Given(s, r.value, h, priority)
  {
    hide Donate, Inv, Wf, PassedOn;
    if priority > s.threads[h].priority {
      DonateInv(s, Some(h), priority, DONATION_DEPTH, r);
      DonateFrame(s, Some(h), priority, DONATION_DEPTH, r);
      DonateReaches(s, Some(h), priority, DONATION_DEPTH, r);
      assert Donated(s, r.value, priority);
      assert Raised(s.threads[s.current], r.value.threads[s.current], priority);
      assert forall u :: 0 <= u < |s.threads| ==> Raised(s.threads[u], r.value.threads[u], priority);
    } else {
      RaisedCountNone(s.threads);
    }
  }

  /** Where a donation goes wrong: at a thread that has exited, or at one of too low a
      priority in no priority list. */
  datatype End = Exited | Unlinked

  /** The chain of waitingFor from CUR on, as far as N threads go, comes to END through threads
      below PRIORITY that are in priority lists and not in SEEN. */
  predicate ComesTo(s: State, end: End, cur: Option<Tid>, priority: int, n: nat, seen: set<Tid>)
    requires Wf(s) && (cur.Some? ==> cur.value < |s.threads|)
    decreases n
  {
    cur.Some? && n > 0 &&
    var t := cur.value;
    if Freed(s, t) then
      end == Exited
    else
      && t !in seen && s.threads[t].priority < priority
      && if s.threads[t].pl == None then
           end == Unlinked
         else
           CanFollow(s, t);
           ComesTo(s, end, s.threads[t].waitingFor, priority, n - 1, seen + {t})
  }

  /** S1 is S after a donation has raised the threads in SEEN. */
  predicate Along(s: State, s1: State, priority: int, seen: set<Tid>) {
    && |s1.threads| == |s.threads|
    && forall u :: 0 <= u < |s.threads| ==>
         && s1.threads[u].pl == s.threads[u].pl && s1.threads[u].status == s.threads[u].status
         && (u in seen ==> s1.threads[u].priority >= priority)
         && (u !in seen ==> s1.threads[u].priority == s.threads[u].priority)
         && (s1.threads[u].priority < priority ==> s1.threads[u].waitingFor == s.threads[u].waitingFor)
  }

  lemma {:induction false} DonateStops(s: State, s1: State, cur: Option<Tid>, priority: int, n: nat, seen: set<Tid>)
    requires Wf(s) && Inv(s1) && !s1.mlfqs && Along(s, s1, priority, seen) && (cur.Some? ==> cur.value < |s.threads|)
    ensures Donate(s1, cur, priority, n) == None <==>
      ComesTo(s, Exited, cur, priority, n, seen) || ComesTo(s, Unlinked, cur, priority, n, seen)
    decreases n
  {
    hide Reposition, Inv, Wf;
    if cur.Some? && n > 0 && !Freed(s1, cur.value) && s1.threads[cur.value].priority < priority {
      var t := cur.value;
      LinkedIff(s1, t);
      CanFollow(s, t);
      if Linked(s1, t) {
        RaiseOne(s1, t, priority);
        RepositionShape(s1, t, priority, true);
        DonateStops(s, Reposition(s1, t, priority, true), s1.threads[t].waitingFor, priority, n - 1, seen + {t});
      }
    }
  }

  lemma LinkedIff(s: State, t: Tid)
    requires Inv(s) && t < |s.threads|
    ensures Wf(s) && (Linked(s, t) <==> s.threads[t].pl.Some?)
  {
  }

  /** lock_acquire goes wrong in exactly the states where the lock is held and the donation
      comes to a thread that has exited, whose structure is freed, or to one of lower priority
      in no priority list, where an assertion stops the kernel. */
  lemma AcquireStopsIff(ss: seq<State>, k: nat, l: nat)
    requires Behaviour(ss) && k < |ss|
    requires var s := ss[k];
      Wf(s) && s.current != IDLE && l < |s.holder| && s.holder[l] != Some(s.current)
    ensures var s := ss[k];
      && (Acquire(s, l) == None <==> !s.mlfqs && (DonationComesTo(s, Exited, l) || DonationComesTo(s, Unlinked, l)))
      && (s.holder[l].Some? ==> !Freed(s, s.holder[l].value))
  {
    RunInv(ss, k);
    StopsIff(ss[k], l);
  }

  /** The donation that the current thread makes to acquire lock L comes to END. */
  predicate DonationComesTo(s: State, end: End, l: nat)
    requires Wf(s) && l < |s.holder|
  {
    ComesTo(s, end, s.holder[l], s.threads[s.current].priority, DONATION_DEPTH, {})
  }

  lemma StopsIff(s: State, l: nat)
    requires Inv(s) && s.current != IDLE && l < |s.holder| && s.holder[l] != Some(s.current)
    ensures Acquire(s, l) == None <==>
      !s.mlfqs && (DonationComesTo(s, Exited, l) || DonationComesTo(s, Unlinked, l))
    ensures s.holder[l].Some? ==> !Freed(s, s.holder[l].value)
  {
    hide Donate, DownPass, Inv;
    InvWf(s);
    LockValue(s, l);
    if s.holder[l].Some? {
      HolderLives(s, l);
      var h, th := s.holder[l].value, s.threads[s.current];
      WaitingSet(s, h);
      var s1 := Set(s, s.current, th.(waitingFor := Some(h)));
      if !s.mlfqs {
        DonateStops(s, s1, Some(h), th.priority, DONATION_DEPTH, {});
      }
    }
  }

  /** Nobody exits holding a lock. */
  lemma HolderLives(s: State, l: nat)
    requires Inv(s) && l < |s.holder| && s.holder[l].Some?
    ensures s.holder[l].value < |s.threads| && s.threads[s.holder[l].value].status != Dying
  {
    var h := s.holder[l].value;
    assert Placed(s, h);
    assert l in s.threads[h].held;
  }

  lemma LockValue(s: State, l: nat)
    requires Inv(s) && l < |s.holder|
    ensures l < |s.semas| && (s.semas[l].value == 0 <==> s.holder[l].Some?)
  {
  }
}
