/** What every run of the scheduler keeps. */
module SchedulerInvariant {
  import opened Sequences
  import opened Scheduler

  /** Thread T is where its status says.  In particular no live thread but the idle
      one is ever outside the CPU, the ready list, the sleeping list, and the list
      of the semaphore it is downing. */
  predicate Placed(s: State, t: Tid)
    requires t < |s.threads|
  {
    var th := s.threads[t];
    && (t == IDLE ==> th.cont == Own && th.held == [] && th.status != Dying)
    && match th.status
       case Running => th.pl == None && t !in s.sleeping
       case Runnable => t !in s.sleeping && th.pl == (if t == IDLE then None else Some(Ready))
       case Dying => th.pl == None && t !in s.sleeping && th.cont == Own && th.held == []
       case Blocked =>
         if t == IDLE then th.pl == None && t !in s.sleeping
         else if t in s.sleeping then th.pl == None && th.cont == Own
         else th.pl.Some? && th.pl.value.Waiters? && th.cont == Down(th.pl.value.sema)
  }

  /** Everything is in place but thread X; if ON, the current thread alone runs,
      and otherwise none does. */
  ghost predicate Core(s: State, x: Option<Tid>, on: bool) {
    && Wf(s) && ListsOk(s) && Distinct(s.sleeping)
    && (forall t :: 0 <= t < |s.threads| && Some(t) != x ==> Placed(s, t))
    && (forall t :: 0 <= t < |s.threads| ==> (s.threads[t].status == Running <==> on && t == s.current))
  }

  predicate WaitsOn(pl: Option<ListId>) { pl.Some? && pl.value.Waiters? }

  /** Nothing that the synchronisation invariants speak of has changed. */
  predicate SameRecord(a: Thread, b: Thread) {
    && b.priority == a.priority && b.original == a.original && b.donated == a.donated
    && b.held == a.held && b.cont == a.cont
    && (WaitsOn(a.pl) || WaitsOn(b.pl) ==> b.pl == a.pl)
  }

  predicate SameSync(s: State, s': State) {
    && s'.semas == s.semas && s'.holder == s.holder && s'.mlfqs == s.mlfqs
    && |s'.threads| == |s.threads|
    && forall t :: 0 <= t < |s.threads| ==> SameRecord(s.threads[t], s'.threads[t])
  }

  lemma SameSyncTransitive(s: State, s1: State, s2: State)
    requires SameSync(s, s1) && SameSync(s1, s2)
    ensures SameSync(s, s2)
  {
    forall t | 0 <= t < |s.threads| ensures SameRecord(s.threads[t], s2.threads[t]) {
      assert SameRecord(s.threads[t], s1.threads[t]) && SameRecord(s1.threads[t], s2.threads[t]);
    }
  }

  // ----- switching threads

  lemma ScheduleLists(s: State)
    requires Wf(s) && ListsOk(s)
    ensures ListsOk(Schedule(s))
  {
    var s' := Schedule(s);
    if s.ready == [] {
      assert SameLists(s, s');
      SameListsKeeps(s, s');
    } else {
      var s1 := Unlink(s, Ready, 0);
      UnlinkKeepsLists(s, Ready, 0);
      assert SameLists(s1, s');
      SameListsKeeps(s1, s');
    }
  }

  /** The thread that schedule picks: the head of the ready list, or the idle thread. */
  function Picked(s: State): Tid {
    if s.ready == [] then IDLE else s.ready[0]
  }

  lemma ScheduleThreads(s: State)
    requires Wf(s)
    ensures var t, s' := Picked(s), Schedule(s);
            && t < |s.threads| && s'.current == t && |s'.threads| == |s.threads|
            && s'.semas == s.semas && s'.holder == s.holder && s'.mlfqs == s.mlfqs && s'.sleeping == s.sleeping
            && s'.threads[t] == s.threads[t].(status := Running, pl := if s.ready == [] then s.threads[t].pl else None)
            && (forall u :: 0 <= u < |s.threads| && u != t ==> s'.threads[u] == s.threads[u])
  {
  }

  lemma ScheduleCore(s: State)
    requires Core(s, None, false)
    ensures Core(Schedule(s), None, true)
    ensures SameSync(s, Schedule(s))
  {
    ScheduleLists(s);
    ScheduleThreads(s);
    var t := Picked(s);
    assert Placed(s, t);
    if s.ready != [] {
      assert ListOk(s, Ready);
      assert s.threads[t].pl == Some(Ready);
    }
    SwitchTo(s, Schedule(s), t);
  }

  lemma SwitchTo(s: State, s': State, t: Tid)
    requires Core(s, None, false)
    requires Wf(s') && ListsOk(s')
    requires t < |s.threads| == |s'.threads| && t == s'.current
    requires s'.semas == s.semas && s'.holder == s.holder && s'.mlfqs == s.mlfqs && s'.sleeping == s.sleeping
    requires s.threads[t].pl == None || s.threads[t].pl == Some(Ready)
    requires Placed(s, t) && t !in s.sleeping && s.threads[t].status != Dying
    requires s'.threads[t] == s.threads[t].(status := Running, pl := None)
    requires forall u :: 0 <= u < |s.threads| && u != t ==> s'.threads[u] == s.threads[u]
    ensures Core(s', None, true)
    ensures SameSync(s, s')
  {
    forall u | 0 <= u < |s.threads| ensures Placed(s', u) && SameRecord(s.threads[u], s'.threads[u]) {
      assert Placed(s, u);
    }
  }

  /** The current thread leaves the lists before every thread that is runnable, and is the
      idle one only if there is none. */
  predicate Best(s: State) {
    forall u :: 0 <= u < |s.threads| && u != IDLE && s.threads[u].status == Runnable ==>
      s.current < |s.threads| && s.current != IDLE && Precedes(s.threads[s.current], s.threads[u])
  }

  /** The same thread runs on, or the best one does. */
  predicate Fair(s: State, s': State) {
    s'.current == s.current || Best(s')
  }

  lemma ScheduleBest(s: State)
    requires Core(s, None, false)
    ensures Best(Schedule(s))
  {
    ScheduleThreads(s);
    var t, s' := Picked(s), Schedule(s);
    assert ListOk(s, Ready);
    assert Placed(s, IDLE);
    forall u | 0 <= u < |s'.threads| && u != IDLE && s'.threads[u].status == Runnable
      ensures t != IDLE && Precedes(s'.threads[t], s'.threads[u])
    {
      assert u != t;
      assert Placed(s, u);
      assert u in List(s, Ready);
      var k :| 0 <= k < |s.ready| && s.ready[k] == u;
      assert Precedes(s.threads[s.ready[0]], s.threads[s.ready[k]]);
    }
  }

  lemma BlockCore(s: State)
    requires Wf(s) && Core(SetStatus(s, s.current, Blocked), None, false)
    ensures Core(Block(s), None, true)
    ensures SameSync(s, Block(s)) && Best(Block(s))
  {
    hide Best;
    var s1 := SetStatus(s, s.current, Blocked);
    ScheduleCore(s1);
    ScheduleBest(s1);
    assert SameSync(s, s1);
    SameSyncTransitive(s, s1, Block(s));
  }

  /** The current thread back in line, before thread_yield schedules. */
  function InLine(s: State): (s': State)
    requires Wf(s)
    ensures Wf(s')
  {
    LinkWf(s, Ready, s.current);
    var s1 := if s.current == IDLE then s else Link(s, Ready, s.current);
    SetWf(s1, s.current, s1.threads[s.current].(status := Runnable));
    SetStatus(s1, s.current, Runnable)
  }

  lemma InLineCore(s: State)
    requires Core(s, None, true)
    ensures Core(InLine(s), None, false) && SameSync(s, InLine(s))
  {
    hide ListsOk, Link, InLine;
    assert Placed(s, s.current);
    InLineLists(s);
    InLineShape(s);
    MadeRunnable(s, InLine(s), s.current, None, false);
  }

  lemma InLineLists(s: State)
    requires Wf(s) && ListsOk(s) && s.threads[s.current].pl == None
    ensures ListsOk(InLine(s))
  {
    hide Ordered, InsertPos;
    var t := s.current;
    var s1 := if t == IDLE then s else Link(s, Ready, t);
    if t != IDLE {
      LinkKeepsLists(s, Ready, t);
    }
    assert SameLists(s1, InLine(s));
    SameListsKeeps(s1, InLine(s));
  }

  lemma InLineShape(s: State)
    requires Wf(s)
    ensures var t, s' := s.current, InLine(s);
      && |s'.threads| == |s.threads| && s'.current == t
      && s'.threads[t].pl == (if t == IDLE then s.threads[t].pl else Some(Ready))
      && s'.threads[t] == s.threads[t].(status := Runnable, pl := s'.threads[t].pl, stamp := s'.threads[t].stamp)
      && s'.semas == s.semas && s'.holder == s.holder && s'.mlfqs == s.mlfqs && s'.sleeping == s.sleeping
      && (forall u :: 0 <= u < |s.threads| && u != t ==> s'.threads[u] == s.threads[u])
  {
    hide ThreadWf;
  }

  lemma YieldIs(s: State)
    requires Wf(s)
    ensures Yield(s) == Schedule(InLine(s))
  {
    hide Schedule, Link, Wf;
  }

  lemma YieldCore(s: State)
    requires Core(s, None, true)
    ensures Core(Yield(s), None, true)
    ensures SameSync(s, Yield(s)) && Best(Yield(s))
  {
    hide Schedule, InLine, Yield, ListsOk, Placed, SameSync, Best;
    InLineCore(s);
    YieldIs(s);
    ScheduleCore(InLine(s));
    ScheduleBest(InLine(s));
    SameSyncTransitive(s, InLine(s), Yield(s));
  }

  /** T, running or loose before, is now in the ready list. */
  lemma MadeRunnable(s: State, s': State, t: Tid, x: Option<Tid>, on: bool)
    requires Core(s, x, true) && Wf(s') && ListsOk(s')
    requires t < |s.threads| == |s'.threads| && (x == None || x == Some(t)) && t !in s.sleeping
    requires s.threads[t].pl == None && s'.threads[t].pl == (if t == IDLE then None else Some(Ready))
    requires t == IDLE ==> s.threads[t].cont == Own && s.threads[t].held == []
    requires s'.threads[t] == s.threads[t].(status := Runnable, pl := s'.threads[t].pl, stamp := s'.threads[t].stamp)
    requires s'.semas == s.semas && s'.holder == s.holder && s'.mlfqs == s.mlfqs && s'.sleeping == s.sleeping
    requires forall u :: 0 <= u < |s.threads| && u != t ==> s'.threads[u] == s.threads[u]
    requires s'.current == s.current && (on <==> t != s.current)
    ensures Core(s', None, on)
    ensures SameSync(s, s')
  {
    forall u | 0 <= u < |s.threads| ensures Placed(s', u) && SameRecord(s.threads[u], s'.threads[u]) {
      if u != t {
        assert Placed(s, u);
      }
    }
  }

  /** T has just left a semaphore's list, or is new: it is linked nowhere. */
  predicate Loose(s: State, t: Tid) {
    && t < |s.threads| && t != IDLE && t != s.current
    && s.threads[t].status == Blocked && s.threads[t].pl == None && t !in s.sleeping
  }

  /** T made runnable, before thread_unblock looks whether to yield. */
  function Readied(s: State, t: Tid): (s': State)
    requires Wf(s) && t < |s.threads|
    ensures Wf(s')
  {
    LinkWf(s, Ready, t);
    var s1 := Link(s, Ready, t);
    SetWf(s1, t, s1.threads[t].(status := Runnable));
    SetStatus(s1, t, Runnable)
  }

  lemma ReadiedCore(s: State, t: Tid)
    requires Core(s, Some(t), true) && Loose(s, t)
    ensures Core(Readied(s, t), None, true) && SameSync(s, Readied(s, t)) && Readied(s, t).current == s.current
  {
    hide Ordered, InsertPos;
    var s1 := Link(s, Ready, t);
    LinkKeepsLists(s, Ready, t);
    var s2 := SetStatus(s1, t, Runnable);
    assert SameLists(s1, s2);
    SameListsKeeps(s1, s2);
    MadeRunnable(s, s2, t, Some(t), true);
  }

  lemma UnblockIs(s: State, t: Tid, intr: bool)
    requires Wf(s) && t < |s.threads|
    ensures var s1 := Readied(s, t);
      Unblock(s, t, intr) ==
        if intr && s1.threads[s1.current].priority < TopPriority(s1, s1.ready) then Yield(s1) else s1
  {
    hide Yield, Wf, Link;
  }

  lemma UnblockCore(s: State, t: Tid, intr: bool)
    requires Core(s, Some(t), true) && Loose(s, t)
    ensures Core(Unblock(s, t, intr), None, true)
    ensures SameSync(s, Unblock(s, t, intr)) && Fair(s, Unblock(s, t, intr))
  {
    hide Yield, Unblock, Readied, Best, ListsOk, Placed, SameSync;
    var s1 := Readied(s, t);
    ReadiedCore(s, t);
    UnblockIs(s, t, intr);
    if Unblock(s, t, intr) != s1 {
      YieldCore(s1);
      SameSyncTransitive(s, s1, Yield(s1));
    }
  }

  /** No thread that can run has a higher priority than the one that does. */
  predicate Highest(s: State) {
    forall u :: 0 <= u < |s.threads| && u != IDLE && s.threads[u].status == Runnable ==>
      s.current < |s.threads| && s.threads[s.current].priority >= s.threads[u].priority
  }

  lemma ReadyTop(s: State)
    requires Core(s, None, true) && s.threads[s.current].priority >= TopPriority(s, s.ready)
    ensures Highest(s)
  {
    assert ListOk(s, Ready);
    forall u | 0 <= u < |s.threads| && u != IDLE && s.threads[u].status == Runnable
      ensures s.threads[s.current].priority >= s.threads[u].priority
    {
      assert Placed(s, u);
      assert u in List(s, Ready);
      var k :| 0 <= k < |s.ready| && s.ready[k] == u;
      assert k == 0 || Precedes(s.threads[s.ready[0]], s.threads[s.ready[k]]);
    }
  }

  lemma BestIsHighest(s: State)
    requires Best(s)
    ensures Highest(s)
  {
  }

  lemma UnblockHighest(s: State, t: Tid)
    requires Core(s, Some(t), true) && Loose(s, t)
    ensures Highest(Unblock(s, t, true))
  {
    hide Yield, Unblock, Readied, Best, Highest, ListsOk, Placed, SameSync;
    var s1 := Readied(s, t);
    ReadiedCore(s, t);
    UnblockIs(s, t, true);
    if s1.threads[s1.current].priority < TopPriority(s1, s1.ready) {
      YieldCore(s1);
      BestIsHighest(Yield(s1));
    } else {
      ReadyTop(s1);
    }
  }

  // ----- synchronisation

  /** Woken in sema_down on semaphore K and not yet back at the loop test. */
  predicate Woken(th: Thread, k: nat) {
    th.cont == Down(k) && th.pl != Some(Waiters(k))
  }

  function WokenCount(threads: seq<Thread>, k: nat): nat {
    if threads == [] then 0 else (if Woken(threads[0], k) then 1 else 0) + WokenCount(threads[1..], k)
  }

  /** Conservation, and no waiter is stranded: while threads wait, at most as many
      units are available as there are woken threads still to test for one. */
  predicate SemaOk(s: State, k: nat)
    requires k < |s.semas|
  {
    var m := s.semas[k];
    && m.value + m.downs == m.initial + m.ups
    && (m.waiters != [] ==> m.value <= WokenCount(s.threads, k))
  }

  ghost predicate LockOk(s: State)
    requires |s.holder| <= |s.semas|
  {
    && (forall l :: 0 <= l < |s.holder| ==> s.semas[l].value == if s.holder[l] == None then 1 else 0)
    && (forall t :: 0 <= t < |s.threads| ==> Distinct(s.threads[t].held))
    && (forall t, l :: 0 <= t < |s.threads| && 0 <= l < |s.holder| ==>
          (l in s.threads[t].held <==> s.holder[l] == Some(t)))
  }

  /** Without the feedback-queue scheduler, donation only raises priorities. */
  predicate PriorityOk(s: State) {
    !s.mlfqs ==>
      forall t :: 0 <= t < |s.threads| ==>
        && s.threads[t].original <= s.threads[t].priority
        && (!s.threads[t].donated ==> s.threads[t].original == s.threads[t].priority)
  }

  ghost predicate SyncOk(s: State)
    requires |s.holder| <= |s.semas|
  {
    (forall k :: 0 <= k < |s.semas| ==> SemaOk(s, k)) && LockOk(s) && PriorityOk(s)
  }

  ghost predicate Inv(s: State) {
    Core(s, None, true) && SyncOk(s)
  }

  lemma {:induction false} WokenSame(threads: seq<Thread>, threads': seq<Thread>, k: nat)
    requires |threads'| == |threads|
    requires forall t :: 0 <= t < |threads| ==> Woken(threads[t], k) == Woken(threads'[t], k)
    ensures WokenCount(threads', k) == WokenCount(threads, k)
  {
    if threads != [] {
      WokenSame(threads[1..], threads'[1..], k);
    }
  }

  lemma {:induction false} WokenUpdate(threads: seq<Thread>, t: Tid, th: Thread, k: nat)
    requires t < |threads|
    ensures WokenCount(threads[t := th], k) + (if Woken(threads[t], k) then 1 else 0)
         == WokenCount(threads, k) + (if Woken(th, k) then 1 else 0)
  {
    var threads' := threads[t := th];
    if t == 0 {
      assert threads'[1..] == threads[1..];
    } else {
      assert threads'[1..] == threads[1..][t - 1 := th];
      WokenUpdate(threads[1..], t - 1, th, k);
    }
  }

  lemma {:induction false} WokenAppend(threads: seq<Thread>, th: Thread, k: nat)
    ensures WokenCount(threads + [th], k) == WokenCount(threads, k) + (if Woken(th, k) then 1 else 0)
  {
    if threads == [] {
      assert threads + [th] == [th];
    } else {
      assert (threads + [th])[1..] == threads[1..] + [th];
      WokenAppend(threads[1..], th, k);
    }
  }

  lemma SameSyncKeeps(s: State, s': State)
    requires |s.holder| <= |s.semas| && SyncOk(s) && SameSync(s, s')
    ensures SyncOk(s')
  {
    forall t | 0 <= t < |s.threads|
      ensures s'.threads[t].held == s.threads[t].held && SameRecord(s.threads[t], s'.threads[t])
    {
    }
    forall k | 0 <= k < |s.semas| ensures SemaOk(s', k) {
      assert SemaOk(s, k);
      WokenSame(s.threads, s'.threads, k);
    }
  }

  /** Thread T alone may have changed, and semaphore K. */
  predicate OnlyChanges(s: State, s': State, t: Tid, k: nat) {
    && |s'.threads| == |s.threads| && |s'.semas| == |s.semas| && s'.mlfqs == s.mlfqs
    && (forall u :: 0 <= u < |s.threads| && u != t ==> s'.threads[u] == s.threads[u])
    && (forall j :: 0 <= j < |s.semas| && j != k ==> s'.semas[j] == s.semas[j])
  }

  lemma OtherSemaKept(s: State, s': State, t: Tid, k: nat, j: nat)
    requires t < |s.threads| && j < |s.semas| && j != k && OnlyChanges(s, s', t, k) && SemaOk(s, j)
    requires Woken(s'.threads[t], j) == Woken(s.threads[t], j)
    ensures SemaOk(s', j)
  {
    WokenSame(s.threads, s'.threads, j);
  }

  // ----- semaphores

  lemma EnqueuedLists(s: State, k: nat)
    requires Wf(s) && ListsOk(s) && k < |s.semas| && s.threads[s.current].pl == None
    ensures ListsOk(SetStatus(Enqueued(s, k), s.current, Blocked))
  {
    var t := s.current;
    var s1 := Link(s, Waiters(k), t);
    LinkKeepsLists(s, Waiters(k), t);
    var s2 := SetStatus(Enqueued(s, k), t, Blocked);
    assert SameLists(s1, s2);
    SameListsKeeps(s1, s2);
  }

  lemma EnqueuedShape(s: State, k: nat)
    requires Wf(s) && k < |s.semas|
    ensures var t, s' := s.current, Enqueued(s, k);
            && |s'.threads| == |s.threads| && s'.sleeping == s.sleeping && s'.current == s.current
            && s'.threads[t] == s.threads[t].(pl := Some(Waiters(k)), stamp := s.clock, cont := Down(k))
            && (forall u :: 0 <= u < |s.threads| && u != t ==> s'.threads[u] == s.threads[u])
  {
  }

  lemma EnqueuedCore(s: State, k: nat)
    requires Core(s, None, true) && k < |s.semas| && s.current != IDLE
    ensures Core(SetStatus(Enqueued(s, k), s.current, Blocked), None, false)
  {
    var t := s.current;
    assert Placed(s, t);
    EnqueuedLists(s, k);
    EnqueuedShape(s, k);
    var s1 := Enqueued(s, k);
    BlockedThread(s, s1, SetStatus(s1, t, Blocked), k);
  }

  lemma BlockedThread(s: State, s1: State, s2: State, k: nat)
    requires Core(s, None, true) && s.current != IDLE
    requires Wf(s1) && |s1.threads| == |s.threads| && s1.sleeping == s.sleeping && s1.current == s.current
    requires s2 == SetStatus(s1, s.current, Blocked) && ListsOk(s2)
    requires s1.threads[s.current] == s.threads[s.current].(pl := Some(Waiters(k)), stamp := s.clock, cont := Down(k))
    requires forall u :: 0 <= u < |s.threads| && u != s.current ==> s1.threads[u] == s.threads[u]
    ensures Core(s2, None, false)
  {
    forall u | 0 <= u < |s2.threads| ensures Placed(s2, u) && ThreadWf(s2, s2.threads[u]) {
      assert Placed(s, u) && ThreadWf(s1, s1.threads[u]);
    }
  }

  lemma EnqueuedSync(s: State, k: nat)
    requires Wf(s) && SyncOk(s) && k < |s.semas| && s.semas[k].value == 0
    requires s.threads[s.current].pl == None
    requires s.threads[s.current].cont == Own || s.threads[s.current].cont == Down(k)
    ensures SyncOk(Enqueued(s, k))
  {
    var t, s' := s.current, Enqueued(s, k);
    assert OnlyChanges(s, s', t, k);
    forall j | 0 <= j < |s'.semas| ensures SemaOk(s', j) {
      assert SemaOk(s, j);
      if j != k {
        OtherSemaKept(s, s', t, k, j);
      }
    }
    assert forall u :: 0 <= u < |s.threads| ==> s'.threads[u].held == s.threads[u].held;
    assert LockOk(s');
  }

  lemma TakenSemas(s: State, k: nat)
    requires Wf(s) && SyncOk(s) && k < |s.semas| && s.semas[k].value > 0
    requires s.threads[s.current].pl == None
    requires s.threads[s.current].cont == Own || s.threads[s.current].cont == Down(k)
    ensures forall j :: 0 <= j < |s.semas| ==> SemaOk(Taken(s, k), j)
  {
    var t, s' := s.current, Taken(s, k);
    assert OnlyChanges(s, s', t, k);
    forall j | 0 <= j < |s'.semas| ensures SemaOk(s', j) {
      assert SemaOk(s, j);
      if j != k {
        OtherSemaKept(s, s', t, k, j);
      } else {
        WokenUpdate(s.threads, t, s'.threads[t], k);
      }
    }
  }

  lemma TakenCore(s: State, k: nat)
    requires Core(s, None, true) && k < |s.semas| && s.semas[k].value > 0
    ensures Core(Taken(s, k), None, true)
  {
    var t, s' := s.current, Taken(s, k);
    assert SameLists(s, s');
    SameListsKeeps(s, s');
    forall u | 0 <= u < |s'.threads| ensures Placed(s', u) {
      assert Placed(s, u);
    }
  }

  lemma GiveLockCore(s: State, l: nat, t: Tid)
    requires Core(s, None, true) && l < |s.holder| && t == s.current != IDLE
    ensures Core(GiveLock(s, l, t), None, true)
  {
    var s' := GiveLock(s, l, t);
    assert SameLists(s, s');
    SameListsKeeps(s, s');
    forall u | 0 <= u < |s'.threads| ensures Placed(s', u) {
      assert Placed(s, u);
    }
  }

  lemma TakenLocks(s: State, k: nat)
    requires Wf(s) && SyncOk(s) && k < |s.semas| && s.semas[k].value > 0
    ensures |s.holder| <= k ==> LockOk(Taken(s, k))
    ensures k < |s.holder| ==> LockOk(GiveLock(Taken(s, k), k, s.current))
    ensures PriorityOk(Taken(s, k))
    ensures k < |s.holder| ==> PriorityOk(GiveLock(Taken(s, k), k, s.current))
  {
    var t := s.current;
    var s1 := Taken(s, k);
    assert forall u :: 0 <= u < |s.threads| ==> s1.threads[u].held == s.threads[u].held;
    if k < |s.holder| {
      GiveLockLocks(s, s1, k, t);
    }
  }

  lemma GiveLockLocks(s: State, s1: State, k: nat, t: Tid)
    requires Wf(s) && Wf(s1) && LockOk(s) && k < |s.holder| && s.holder[k] == None
    requires t < |s.threads| == |s1.threads| && s1.holder == s.holder && |s1.semas| == |s.semas|
    requires forall u :: 0 <= u < |s.threads| ==> s1.threads[u].held == s.threads[u].held
    requires forall j :: 0 <= j < |s.semas| ==> s1.semas[j].value == if j == k then 0 else s.semas[j].value
    ensures LockOk(GiveLock(s1, k, t))
  {
    var s' := GiveLock(s1, k, t);
    assert k !in s.threads[t].held;
    forall u, l | 0 <= u < |s'.threads| && 0 <= l < |s'.holder|
      ensures l in s'.threads[u].held <==> s'.holder[l] == Some(u)
    {
      assert l in s.threads[u].held <==> s.holder[l] == Some(u);
      assert s'.threads[u].held == if u == t then s.threads[u].held + [k] else s.threads[u].held;
    }
  }

  lemma GiveLockSemas(s: State, l: nat, t: Tid, k: nat)
    requires Wf(s) && l < |s.holder| && t < |s.threads| && k < |s.semas| && SemaOk(s, k)
    ensures SemaOk(GiveLock(s, l, t), k)
  {
    var s' := GiveLock(s, l, t);
    WokenSame(s.threads, s'.threads, k);
  }

  lemma DownPassInv(s: State, k: nat)
    requires Inv(s) && k < |s.semas| && s.current != IDLE
    requires s.threads[s.current].cont == Own || s.threads[s.current].cont == Down(k)
    ensures Inv(DownPass(s, k)) && Fair(s, DownPass(s, k))
  {
    hide Best;
    assert Placed(s, s.current);
    if s.semas[k].value == 0 {
      EnqueuedCore(s, k);
      EnqueuedSync(s, k);
      BlockCore(Enqueued(s, k));
      SameSyncKeeps(Enqueued(s, k), DownPass(s, k));
    } else {
      TakenInv(s, k);
    }
  }

  lemma TakenInv(s: State, k: nat)
    requires Inv(s) && k < |s.semas| && s.current != IDLE && s.semas[k].value > 0
    requires s.threads[s.current].cont == Own || s.threads[s.current].cont == Down(k)
    ensures Inv(DownPass(s, k))
  {
    assert Placed(s, s.current);
    TakenCore(s, k);
    TakenSemas(s, k);
    TakenLocks(s, k);
    if k < |s.holder| {
      GiveLockCore(Taken(s, k), k, s.current);
      forall j | 0 <= j < |s.semas| ensures SemaOk(DownPass(s, k), j) {
        GiveLockSemas(Taken(s, k), k, s.current, j);
      }
    }
  }

  // ----- sema_up

  lemma UppedCore(s: State, k: nat)
    requires Core(s, None, true) && k < |s.semas|
    ensures Core(Upped(s, k), None, true)
  {
    var s' := Upped(s, k);
    assert SameLists(s, s');
    SameListsKeeps(s, s');
    forall u | 0 <= u < |s'.threads| ensures Placed(s', u) {
      assert Placed(s, u);
    }
  }

  /** The first waiter of semaphore K, taken off its list. */
  lemma PoppedCore(s: State, k: nat)
    requires Core(s, None, true) && k < |s.semas| && s.semas[k].waiters != []
    ensures var t := s.semas[k].waiters[0];
            && Core(Unlink(s, Waiters(k), 0), Some(t), true) && Loose(Unlink(s, Waiters(k), 0), t)
            && s.threads[t].cont == Down(k) && s.threads[t].pl == Some(Waiters(k))
  {
    var t := s.semas[k].waiters[0];
    var s' := Unlink(s, Waiters(k), 0);
    assert ListOk(s, Waiters(k));
    UnlinkKeepsLists(s, Waiters(k), 0);
    UnlinkWf(s, Waiters(k), 0);
    assert Placed(s, t);
    forall u | 0 <= u < |s'.threads| && u != t ensures Placed(s', u) {
      assert Placed(s, u);
    }
  }

  lemma PoppedSync(s: State, k: nat, s1: State)
    requires Core(s, None, true) && k < |s.semas| && s.semas[k].waiters != []
    requires forall j :: 0 <= j < |s.semas| ==> SemaOk(s, j)
    requires s1 == Upped(s, k)
    requires LockOk(s1) && PriorityOk(s)
    ensures SyncOk(Unlink(s1, Waiters(k), 0))
  {
    hide SemaOk, LockOk, ListsOk, PriorityOk;
    UppedCore(s, k);
    PoppedCore(s1, k);
    UnlinkWf(s1, Waiters(k), 0);
    PoppedSemas(s, k, s1);
    PoppedLocks(s, k, s1);
  }

  lemma PoppedSemas(s: State, k: nat, s1: State)
    requires Wf(s) && k < |s.semas| && s.semas[k].waiters != [] && s1 == Upped(s, k)
    requires forall j :: 0 <= j < |s.semas| ==> SemaOk(s, j)
    requires var t := s.semas[k].waiters[0]; s.threads[t].cont == Down(k) && s.threads[t].pl == Some(Waiters(k))
    requires Wf(Unlink(s1, Waiters(k), 0))
    ensures forall j :: 0 <= j < |s.semas| ==> SemaOk(Unlink(s1, Waiters(k), 0), j)
  {
    var t := s.semas[k].waiters[0];
    var s' := Unlink(s1, Waiters(k), 0);
    assert OnlyChanges(s, s', t, k);
    forall j | 0 <= j < |s'.semas| ensures SemaOk(s', j) {
      assert SemaOk(s, j);
      if j != k {
        OtherSemaKept(s, s', t, k, j);
      } else {
        WokenUpdate(s.threads, t, s'.threads[t], k);
      }
    }
  }

  lemma PoppedLocks(s: State, k: nat, s1: State)
    requires Wf(s) && k < |s.semas| && s.semas[k].waiters != [] && s1 == Upped(s, k) && LockOk(s1) && PriorityOk(s)
    requires Wf(Unlink(s1, Waiters(k), 0))
    ensures LockOk(Unlink(s1, Waiters(k), 0)) && PriorityOk(Unlink(s1, Waiters(k), 0))
  {
    var s' := Unlink(s1, Waiters(k), 0);
    assert forall u :: 0 <= u < |s.threads| ==> s'.threads[u].held == s1.threads[u].held;
  }

  /** sema_up restores the invariant, given that the added unit suits the lock, if
      any, that the semaphore belongs to. */
  lemma UpInv(s: State, k: nat, intr: bool)
    requires Core(s, None, true) && k < |s.semas|
    requires forall j :: 0 <= j < |s.semas| ==> SemaOk(s, j)
    requires LockOk(Upped(s, k)) && PriorityOk(s)
    ensures Inv(Up(s, k, intr)) && Fair(s, Up(s, k, intr))
  {
    hide Best;
    var s1 := Upped(s, k);
    UppedCore(s, k);
    if s.semas[k].waiters == [] {
      forall j | 0 <= j < |s1.semas| ensures SemaOk(s1, j) {
        assert SemaOk(s, j);
      }
    } else {
      var t := s.semas[k].waiters[0];
      PoppedSync(s, k, s1);
      PoppedCore(s1, k);
      var s2 := Unlink(s1, Waiters(k), 0);
      UnblockCore(s2, t, intr);
      SameSyncKeeps(s2, Up(s, k, intr));
    }
  }

  lemma UpHighest(s: State, k: nat)
    requires Core(s, None, true) && k < |s.semas| && s.semas[k].waiters != []
    ensures Highest(Up(s, k, true))
  {
    hide Highest, Unblock, ListsOk;
    var s1 := Upped(s, k);
    UppedCore(s, k);
    PoppedCore(s1, k);
    UnblockHighest(Unlink(s1, Waiters(k), 0), s.semas[k].waiters[0]);
  }

  // ----- donation

  /** Thread T has a new priority and place; nothing else that matters changed. */
  predicate Repositioned(s: State, s': State, t: Tid, priority: int, donated: bool)
    requires t < |s.threads|
  {
    && |s'.threads| == |s.threads| && |s'.semas| == |s.semas|
    && s'.holder == s.holder && s'.current == s.current && s'.sleeping == s.sleeping && s'.mlfqs == s.mlfqs
    && s'.threads[t] == s.threads[t].(priority := priority, donated := donated, stamp := s'.threads[t].stamp)
    && (forall u :: 0 <= u < |s.threads| && u != t ==> s'.threads[u] == s.threads[u])
    && (forall k :: 0 <= k < |s.semas| ==>
          && s'.semas[k] == s.semas[k].(waiters := s'.semas[k].waiters)
          && (s'.semas[k].waiters == [] <==> s.semas[k].waiters == []))
  }

  lemma SetListShape(s: State, l: ListId, ts: seq<Tid>)
    requires IsList(s, l)
    ensures var s' := SetList(s, l, ts);
            && s' == s.(ready := s'.ready, semas := s'.semas) && |s'.semas| == |s.semas|
            && forall k :: 0 <= k < |s.semas| ==>
                 s'.semas[k] == s.semas[k].(waiters := if l == Waiters(k) then ts else s.semas[k].waiters)
  {
  }

  lemma RepositionShape(s: State, t: Tid, priority: int, donated: bool)
    requires Wf(s) && t < |s.threads| && Linked(s, t)
    ensures Repositioned(s, Reposition(s, t, priority, donated), t, priority, donated)
  {
    var l := s.threads[t].pl.value;
    var ts := List(s, l);
    var k := IndexOf(ts, t);
    UnlinkWf(s, l, k);
    var s1 := Unlink(s, l, k);
    SetListShape(s, l, RemoveAt(ts, k));
    SetListOthers(s, l, RemoveAt(ts, k));
    var s2 := Set(s1, t, s1.threads[t].(priority := priority, donated := donated));
    var ts1 := List(s2, l);
    var ts2 := InsertAt(ts1, InsertPos(s2.threads, ts1, t), t);
    SetListShape(s2, l, ts2);
    var s' := Reposition(s, t, priority, donated);
    forall j | 0 <= j < |s.semas|
      ensures s'.semas[j] == s.semas[j].(waiters := s'.semas[j].waiters)
      ensures s'.semas[j].waiters == [] <==> s.semas[j].waiters == []
    {
      assert s'.semas[j] == s.semas[j].(waiters := if l == Waiters(j) then ts2 else s.semas[j].waiters);
    }
  }

  lemma RepositionLists(s: State, t: Tid, priority: int, donated: bool)
    requires Wf(s) && ListsOk(s) && t < |s.threads| && Linked(s, t)
    ensures ListsOk(Reposition(s, t, priority, donated))
  {
    var l := s.threads[t].pl.value;
    var k := IndexOf(List(s, l), t);
    UnlinkKeepsLists(s, l, k);
    UnlinkWf(s, l, k);
    var s1 := Unlink(s, l, k);
    var s2 := Set(s1, t, s1.threads[t].(priority := priority, donated := donated));
    assert SameLists(s1, s2);
    SameListsKeeps(s1, s2);
    LinkKeepsLists(s2, l, t);
  }

  lemma RepositionInv(s: State, t: Tid, priority: int, donated: bool)
    requires Inv(s) && t < |s.threads| && Linked(s, t)
    requires !s.mlfqs ==> s.threads[t].original <= priority && donated
    ensures Inv(Reposition(s, t, priority, donated))
  {
    RepositionShape(s, t, priority, donated);
    RepositionLists(s, t, priority, donated);
    RepositionedInv(s, Reposition(s, t, priority, donated), t, priority, donated);
  }

  lemma RepositionedInv(s: State, s': State, t: Tid, priority: int, donated: bool)
    requires Inv(s) && Wf(s') && ListsOk(s')
    requires t < |s.threads| && Repositioned(s, s', t, priority, donated)
    requires !s.mlfqs ==> s.threads[t].original <= priority && donated
    ensures Inv(s')
  {
    forall u | 0 <= u < |s'.threads| ensures Placed(s', u) {
      assert Placed(s, u);
    }
    assert forall u :: 0 <= u < |s.threads| ==> s'.threads[u].held == s.threads[u].held;
    RepositionedSync(s, s', t, priority, donated);
  }

  lemma RepositionedSync(s: State, s': State, t: Tid, priority: int, donated: bool)
    requires Wf(s) && SyncOk(s) && t < |s.threads| && Repositioned(s, s', t, priority, donated)
    requires !s.mlfqs ==> s.threads[t].original <= priority && donated
    requires forall u :: 0 <= u < |s.threads| ==> s'.threads[u].held == s.threads[u].held
    ensures SyncOk(s')
  {
    forall k | 0 <= k < |s'.semas| ensures SemaOk(s', k) {
      assert SemaOk(s, k);
      WokenSame(s.threads, s'.threads, k);
    }
  }

  /** What a donation leaves alone: everything but the places and raised priorities
      of threads other than the current one. */
  predicate Donated(s: State, s': State, priority: int) {
    && |s'.threads| == |s.threads| && |s'.semas| == |s.semas|
    && s'.holder == s.holder && s'.current == s.current && s'.mlfqs == s.mlfqs
    && (forall k :: 0 <= k < |s.semas| ==> s'.semas[k] == s.semas[k].(waiters := s'.semas[k].waiters))
    && (forall u :: 0 <= u < |s.threads| ==> Raised(s.threads[u], s'.threads[u], priority))
  }

  /** Unchanged but for its place in a list, or raised to the donated priority. */
  predicate Raised(a: Thread, b: Thread, priority: int) {
    && b == a.(priority := b.priority, donated := b.donated, stamp := b.stamp)
    && (b == a || (a.priority < priority == b.priority && b.donated && a.pl.Some?))
  }

  lemma {:induction false} DonateInv(s: State, cur: Option<Tid>, priority: int, n: nat, r: Option<State>)
    requires Inv(s) && !s.mlfqs && (cur.Some? ==> cur.value < |s.threads|)
    requires r == Donate(s, cur, priority, n)
    ensures r.Some? ==> Inv(r.value)
    decreases n
  {
    hide Donate, Reposition;
    var go, s1, next := DonateNext(s, cur, priority, n, r);
    if go {
      RaiseOne(s, cur.value, priority);
      DonateInv(s1, next, priority, n - 1, r);
    }
  }

  /** One pass of the donation loop: it ends here, or raises one thread and goes on. */
  lemma DonateNext(s: State, cur: Option<Tid>, priority: int, n: nat, r: Option<State>)
    returns (go: bool, s1: State, next: Option<Tid>)
    requires Wf(s) && (cur.Some? ==> cur.value < |s.threads|)
    requires r == Donate(s, cur, priority, n)
    ensures !go ==> r == None || r == Some(s)
    ensures !go && r.Some? ==> cur == None || n == 0 || s.threads[cur.value].priority >= priority
    ensures go ==> n > 0 && cur.Some? && s.threads[cur.value].priority < priority && Linked(s, cur.value)
    ensures go ==> !Freed(s, cur.value)
    ensures go ==> s1 == Reposition(s, cur.value, priority, true) && Wf(s1)
    ensures go ==> Repositioned(s, s1, cur.value, priority, true)
    ensures go ==> next == s.threads[cur.value].waitingFor && (next.Some? ==> next.value < |s1.threads|)
    ensures go ==> r == Donate(s1, next, priority, n - 1)
  {
    s1, next := s, None;
    go := cur.Some? && n > 0 && !Freed(s, cur.value) && s.threads[cur.value].priority < priority;
    go := go && Linked(s, cur.value);
    if go {
      var t := cur.value;
      assert ThreadWf(s, s.threads[t]);
      RepositionShape(s, t, priority, true);
      s1, next := Reposition(s, t, priority, true), s.threads[t].waitingFor;
    }
  }

  lemma RaiseOne(s: State, t: Tid, priority: int)
    requires Inv(s) && !s.mlfqs && t < |s.threads| && s.threads[t].priority < priority && Linked(s, t)
    ensures Inv(Reposition(s, t, priority, true))
  {
    RepositionInv(s, t, priority, true);
  }

  lemma {:induction false} DonateFrame(s: State, cur: Option<Tid>, priority: int, n: nat, r: Option<State>)
    requires Wf(s) && (cur.Some? ==> cur.value < |s.threads|)
    requires r == Donate(s, cur, priority, n)
    ensures r.Some? ==> Donated(s, r.value, priority)
    decreases n
  {
    hide Donate, Reposition, Wf;
    var go, s1, next := DonateNext(s, cur, priority, n, r);
    if go {
      DonateFrame(s1, next, priority, n - 1, r);
      if r.Some? {
        forall u | 0 <= u < |s.threads| ensures Raised(s.threads[u], r.value.threads[u], priority) {
          assert Raised(s1.threads[u], r.value.threads[u], priority);
        }
      }
    }
  }

  function RaisedCount(a: seq<Thread>, b: seq<Thread>): nat
    requires |a| == |b|
  {
    if a == [] then 0
    else (if a[0].priority != b[0].priority then 1 else 0) + RaisedCount(a[1..], b[1..])
  }

  lemma {:induction false} RaisedCountStep(a: seq<Thread>, a1: seq<Thread>, b: seq<Thread>, t: Tid)
    requires t < |a| == |a1| == |b|
    requires forall u :: 0 <= u < |a| && u != t ==> a1[u].priority == a[u].priority
    requires a[t].priority != b[t].priority && a1[t].priority == b[t].priority
    ensures RaisedCount(a, b) == RaisedCount(a1, b) + 1
  {
    if t == 0 {
      RaisedCountSame(a[1..], a1[1..], b[1..]);
    } else {
      assert a[0].priority == a1[0].priority;
      RaisedCountStep(a[1..], a1[1..], b[1..], t - 1);
    }
  }

  lemma {:induction false} RaisedCountSame(a: seq<Thread>, a1: seq<Thread>, b: seq<Thread>)
    requires |a| == |a1| == |b|
    requires forall u :: 0 <= u < |a| ==> a1[u].priority == a[u].priority
    ensures RaisedCount(a, b) == RaisedCount(a1, b)
  {
    if a != [] {
      RaisedCountSame(a[1..], a1[1..], b[1..]);
    }
  }

  /** The thread that U waits for, if any, is at least at the donated priority. */
  predicate PassedOn(s: State, s': State, u: Tid, priority: int)
    requires u < |s.threads| == |s'.threads|
  {
    var next := s.threads[u].waitingFor;
    next.Some? ==> next.value < |s'.threads| && s'.threads[next.value].priority >= priority
  }

  /** A donation reaches the holder and, unless it used up its depth, passes along
      from every thread it raised to the one that thread waits for. */
  lemma {:induction false} DonateReaches(s: State, cur: Option<Tid>, priority: int, n: nat, r: Option<State>)
    requires Wf(s) && (cur.Some? ==> cur.value < |s.threads|)
    requires r == Donate(s, cur, priority, n) && r.Some?
    ensures |r.value.threads| == |s.threads|
    ensures cur.Some? && n > 0 ==> r.value.threads[cur.value].priority >= priority
    ensures RaisedCount(s.threads, r.value.threads) <= n
    ensures RaisedCount(s.threads, r.value.threads) < n ==>
              forall u :: 0 <= u < |s.threads| && r.value.threads[u].priority != s.threads[u].priority ==>
                PassedOn(s, r.value, u, priority)
    decreases n
  {
    hide Donate, Reposition, Wf;
    var go, s1, next := DonateNext(s, cur, priority, n, r);
    if go {
      var t := cur.value;
      DonateReaches(s1, next, priority, n - 1, r);
      DonateFrame(s1, next, priority, n - 1, r);
      var s' := r.value;
      assert Raised(s1.threads[t], s'.threads[t], priority);
      RaisedCountStep(s.threads, s1.threads, s'.threads, t);
      if RaisedCount(s.threads, s'.threads) < n {
        forall u | 0 <= u < |s.threads| && s'.threads[u].priority != s.threads[u].priority
          ensures PassedOn(s, s', u, priority)
        {
          if u != t {
            assert PassedOn(s1, s', u, priority);
          }
        }
      }
    } else {
      RaisedCountNone(s.threads);
    }
  }

  lemma {:induction false} RaisedCountNone(a: seq<Thread>)
    ensures RaisedCount(a, a) == 0
  {
    if a != [] {
      RaisedCountNone(a[1..]);
    }
  }

  // ----- the other operations

  lemma YieldInv(s: State)
    requires Inv(s)
    ensures Inv(Yield(s)) && Best(Yield(s))
  {
    hide Best;
    YieldCore(s);
    SameSyncKeeps(s, Yield(s));
  }

  /** Changing the current thread's priorities, or whom it waits for, disturbs no list. */
  lemma CurrentChanged(s: State, th: Thread)
    requires Inv(s)
    requires var old' := s.threads[s.current];
             th == old'.(priority := th.priority, original := th.original, donated := th.donated,
                         waitingFor := th.waitingFor)
    requires th.waitingFor.Some? ==> th.waitingFor.value < |s.threads|
    requires !s.mlfqs ==> th.original <= th.priority && (!th.donated ==> th.original == th.priority)
    ensures Inv(Set(s, s.current, th))
  {
    var t := s.current;
    var s' := Set(s, t, th);
    assert Placed(s, t);
    SetWf(s, t, th);
    assert SameLists(s, s');
    SameListsKeeps(s, s');
    forall u | 0 <= u < |s'.threads| ensures Placed(s', u) {
      assert Placed(s, u);
    }
    assert forall u :: 0 <= u < |s.threads| ==> s'.threads[u].held == s.threads[u].held;
    forall k | 0 <= k < |s'.semas| ensures SemaOk(s', k) {
      assert SemaOk(s, k);
      WokenSame(s.threads, s'.threads, k);
    }
  }

  lemma SetPriorityInv(s: State, priority: int)
    requires Inv(s)
    ensures Inv(SetPriority(s, priority)) && Fair(s, SetPriority(s, priority))
  {
    hide Best, Yield;
    if !s.mlfqs {
      var th := s.threads[s.current].(original := priority);
      var th' := if !th.donated then th.(priority := priority)
                 else if th.priority < priority then th.(priority := priority, donated := false)
                 else th;
      CurrentThread(s);
      CurrentChanged(s, th');
      YieldInv(Set(s, s.current, th'));
    }
  }

  lemma SetPriorityHighest(s: State, priority: int)
    requires Inv(s) && !s.mlfqs
    ensures Highest(SetPriority(s, priority))
  {
    hide Best, Highest, Yield;
    var th := s.threads[s.current].(original := priority);
    var th' := if !th.donated then th.(priority := priority)
               else if th.priority < priority then th.(priority := priority, donated := false)
               else th;
    CurrentThread(s);
    CurrentChanged(s, th');
    var s1 := Set(s, s.current, th');
    if th'.priority < TopPriority(s1, s1.ready) {
      YieldInv(s1);
      BestIsHighest(Yield(s1));
    } else {
      ReadyTop(s1);
    }
  }

  lemma CurrentThread(s: State)
    requires Wf(s)
    ensures ThreadWf(s, s.threads[s.current])
  {
  }

  lemma AcquireInv(s: State, l: nat)
    requires Inv(s) && s.current != IDLE && s.threads[s.current].cont == Own
    requires l < |s.holder| && s.holder[l] != Some(s.current)
    ensures Acquire(s, l).Some? ==> Inv(Acquire(s, l).value) && Fair(s, Acquire(s, l).value)
  {
    hide Best, Donate, DownPass;
    if s.semas[l].value > 0 {
      DownPassInv(s, l);
    } else if s.holder[l].Some? {
      var t, h := s.current, s.holder[l].value;
      var th := s.threads[t];
      var s1 := Set(s, t, th.(waitingFor := Some(h)));
      CurrentChanged(s, th.(waitingFor := Some(h)));
      if th.priority > s1.threads[h].priority && !s.mlfqs {
        DonatedInv(s1, h, th.priority, l);
      } else {
        DownPassInv(s1, l);
      }
    }
  }

  lemma DonatedInv(s: State, h: Tid, priority: int, l: nat)
    requires Inv(s) && !s.mlfqs && h < |s.threads| && s.current != IDLE && s.threads[s.current].cont == Own
    requires l < |s.semas|
    ensures var r := Donate(s, Some(h), priority, DONATION_DEPTH);
            r.Some? ==> Wf(r.value) && l < |r.value.semas| && Inv(DownPass(r.value, l)) && Fair(s, DownPass(r.value, l))
  {
    hide Donate, DownPass, Best;
    var r := Donate(s, Some(h), priority, DONATION_DEPTH);
    DonateInv(s, Some(h), priority, DONATION_DEPTH, r);
    DonateFrame(s, Some(h), priority, DONATION_DEPTH, r);
    if r.Some? {
      assert Raised(s.threads[s.current], r.value.threads[s.current], priority);
      DownPassInv(r.value, l);
    }
  }

  /** The state of lock_release just before it ups the semaphore. */
  function Released(s: State, l: nat): State
    requires Wf(s) && l < |s.holder|
  {
    var th := s.threads[s.current];
    CurrentThread(s);
    Set(s, s.current, ReleasedThread(s, th, Without(th.held, l))).(holder := s.holder[l := None])
  }

  lemma WithoutMembers(locks: seq<nat>, l: nat)
    requires Distinct(locks)
    ensures Distinct(Without(locks, l))
    ensures forall m :: m in Without(locks, l) <==> m in locks && m != l
  {
    if l in locks {
      RemoveAtMembers(locks, IndexOf(locks, l));
    }
  }

  /** Releasing changes nothing of a thread but its locks and its priority. */
  lemma ReleasedRecord(s: State, th: Thread, locks: seq<nat>)
    requires Wf(s) && forall i :: 0 <= i < |locks| ==> locks[i] < |s.holder|
    ensures var r := ReleasedThread(s, th, locks);
      r == th.(held := locks, priority := r.priority, donated := r.donated)
  {
  }

  lemma ReleasedCore(s: State, l: nat)
    requires Inv(s) && l < |s.holder| && s.current != IDLE
    ensures Core(Released(s, l), None, true)
  {
    hide ReleasedThread, Without, NextDonation, Ordered, LockOk, PriorityOk;
    var t := s.current;
    CurrentThread(s);
    var s' := Released(s, l);
    ReleasedRecord(s, s.threads[t], Without(s.threads[t].held, l));
    assert Placed(s, t);
    assert SameLists(s, s');
    SameListsKeeps(s, s');
    forall u | 0 <= u < |s'.threads| ensures Placed(s', u) && ThreadWf(s', s'.threads[u]) {
      assert Placed(s, u) && ThreadWf(s, s.threads[u]);
    }
  }

  lemma ReleasedSemas(s: State, l: nat)
    requires Inv(s) && l < |s.holder| && Wf(Released(s, l))
    ensures forall k :: 0 <= k < |s.semas| ==> SemaOk(Released(s, l), k)
  {
    hide ReleasedThread, Without, NextDonation, LockOk, PriorityOk, ListsOk;
    CurrentThread(s);
    var t, s' := s.current, Released(s, l);
    ReleasedRecord(s, s.threads[t], Without(s.threads[t].held, l));
    forall k | 0 <= k < |s'.semas| ensures SemaOk(s', k) {
      assert SemaOk(s, k);
      WokenSame(s.threads, s'.threads, k);
    }
  }

  lemma ReleasedLocks(s: State, l: nat)
    requires Inv(s) && l < |s.holder| && s.holder[l] == Some(s.current) && Wf(Released(s, l))
    ensures LockOk(Upped(Released(s, l), l))
  {
    hide ReleasedThread, Without, NextDonation, SemaOk, WokenCount, PriorityOk, ListsOk;
    CurrentThread(s);
    var t, s' := s.current, Released(s, l);
    ReleasedRecord(s, s.threads[t], Without(s.threads[t].held, l));
    WithoutMembers(s.threads[t].held, l);
    assert s'.threads[t].held == Without(s.threads[t].held, l);
    assert forall u :: 0 <= u < |s.threads| && u != t ==> s'.threads[u].held == s.threads[u].held;
  }

  lemma ReleasedPriority(s: State, l: nat)
    requires Inv(s) && l < |s.holder| && Wf(Released(s, l))
    ensures PriorityOk(Released(s, l))
  {
    hide Without, NextDonation, SemaOk, WokenCount, LockOk, ListsOk;
  }

  lemma ReleaseInv(s: State, l: nat, intr: bool)
    requires Inv(s) && l < |s.holder| && s.holder[l] == Some(s.current) && s.current != IDLE
    ensures Inv(Release(s, l, intr)) && Fair(s, Release(s, l, intr))
  {
    hide Best;
    ReleasedCore(s, l);
    ReleasedSemas(s, l);
    ReleasedLocks(s, l);
    ReleasedPriority(s, l);
    UpInv(Released(s, l), l, intr);
  }

  lemma ReleaseHighest(s: State, l: nat)
    requires Inv(s) && l < |s.holder| && s.current != IDLE && s.semas[l].waiters != []
    ensures Highest(Release(s, l, true))
  {
    hide Highest, Up;
    ReleasedCore(s, l);
    UpHighest(Released(s, l), l);
  }

  lemma AsleepCore(s: State)
    requires Inv(s) && s.current != IDLE && s.threads[s.current].cont == Own
    ensures var s1 := s.(sleeping := s.sleeping + [s.current]);
      Wf(s1) && Core(SetStatus(s1, s.current, Blocked), None, false)
  {
    hide Ordered;
    var t := s.current;
    assert Placed(s, t);
    var s1 := s.(sleeping := s.sleeping + [t]);
    var s2 := SetStatus(s1, t, Blocked);
    assert SameLists(s, s2);
    SameListsKeeps(s, s2);
    InsertAtDistinct(s.sleeping, |s.sleeping|, t);
    assert InsertAt(s.sleeping, |s.sleeping|, t) == s1.sleeping;
    forall u | 0 <= u < |s2.threads| ensures Placed(s2, u) {
      assert Placed(s, u);
    }
  }

  lemma SleepInv(s: State)
    requires Inv(s) && s.current != IDLE && s.threads[s.current].cont == Own
    ensures Inv(Sleep(s)) && Best(Sleep(s))
  {
    hide Block, Ordered, Best;
    var s1 := s.(sleeping := s.sleeping + [s.current]);
    AsleepCore(s);
    BlockCore(s1);
    assert SameSync(s, s1);
    SameSyncTransitive(s, s1, Sleep(s));
    SameSyncKeeps(s, Sleep(s));
  }

  lemma WakeAtInv(s: State, i: nat)
    requires Inv(s) && i < |s.sleeping|
    ensures Inv(WakeAt(s, i))
  {
    var t := s.sleeping[i];
    assert Placed(s, t);
    var s1 := s.(sleeping := RemoveAt(s.sleeping, i));
    RemoveAtMembers(s.sleeping, i);
    assert SameLists(s, s1);
    SameListsKeeps(s, s1);
    forall u | 0 <= u < |s1.threads| && u != t ensures Placed(s1, u) {
      assert Placed(s, u);
    }
    assert Core(s1, Some(t), true);
    UnblockCore(s1, t, false);
    assert SameSync(s, s1);
    SameSyncTransitive(s, s1, WakeAt(s, i));
    SameSyncKeeps(s, WakeAt(s, i));
  }

  lemma {:induction false} WakeExpiredInv(s: State, expired: set<Tid>, i: nat)
    requires Inv(s) && Wf(s) && i <= |s.sleeping|
    ensures Inv(WakeExpired(s, expired, i))
    decreases |s.sleeping| - i
  {
    hide WakeAt, Inv, Wf;
    if i < |s.sleeping| {
      if s.sleeping[i] in expired {
        WakeAtInv(s, i);
        WakeExpiredInv(WakeAt(s, i), expired, i);
      } else {
        WakeExpiredInv(s, expired, i + 1);
      }
    }
  }

  /** The sleepers of TS that are not due, in order. */
  function Remaining(ts: seq<Tid>, expired: set<Tid>): seq<Tid> {
    if ts == [] then []
    else if ts[0] in expired then Remaining(ts[1..], expired)
    else [ts[0]] + Remaining(ts[1..], expired)
  }

  /** The sleepers in TS that are due are runnable and in the ready list, and nothing else
      about the threads has changed. */
  predicate Woke(s: State, s': State, ts: seq<Tid>, expired: set<Tid>) {
    && |s'.threads| == |s.threads| && s'.current == s.current && s'.semas == s.semas && s'.holder == s.holder
    && (forall u :: u in s.ready ==> u in s'.ready)
    && (forall u :: 0 <= u < |s.threads| ==>
          if u in ts && u in expired then s'.threads[u].status == Runnable && u in s'.ready
          else s'.threads[u] == s.threads[u])
  }

  lemma WakeAtShape(s: State, i: nat)
    requires Wf(s) && i < |s.sleeping|
    ensures var t, s' := s.sleeping[i], WakeAt(s, i);
      && t < |s.threads| == |s'.threads| && s'.current == s.current && s'.sleeping == RemoveAt(s.sleeping, i)
      && s'.semas == s.semas && s'.holder == s.holder
      && s'.threads[t].status == Runnable && t in s'.ready
      && (forall u :: u in s.ready ==> u in s'.ready)
      && (forall u :: 0 <= u < |s.threads| && u != t ==> s'.threads[u] == s.threads[u])
  {
    var t := s.sleeping[i];
    InsertAtMembers(s.ready, InsertPos(s.threads, s.ready, t), t);
  }

  /** thread_update_timers takes exactly the sleepers that are due off the sleeping list and
      makes exactly those runnable. */
  lemma {:induction false} WakesExactly(s: State, expired: set<Tid>, i: nat)
    requires Wf(s) && i <= |s.sleeping|
    ensures var s' := WakeExpired(s, expired, i);
      && s'.sleeping == s.sleeping[..i] + Remaining(s.sleeping[i..], expired)
      && Woke(s, s', s.sleeping[i..], expired)
    decreases |s.sleeping| - i
  {
    hide WakeAt, Wf;
    if i < |s.sleeping| {
      var t, ts := s.sleeping[i], s.sleeping[i..];
      assert ts[0] == t && ts[1..] == s.sleeping[i + 1..];
      if t in expired {
        WakeAtShape(s, i);
        var s1 := WakeAt(s, i);
        WakesExactly(s1, expired, i);
        assert s1.sleeping[..i] == s.sleeping[..i] && s1.sleeping[i..] == ts[1..];
        assert forall u :: u in ts <==> u == t || u in ts[1..];
      } else {
        WakesExactly(s, expired, i + 1);
        assert s.sleeping[..i + 1] == s.sleeping[..i] + [t];
        Associative(s.sleeping[..i], [t], Remaining(ts[1..], expired));
        assert forall u :: u in ts <==> u == t || u in ts[1..];
      }
    }
  }

  lemma CreateInv(s: State, priority: int, intr: bool)
    requires Inv(s)
    ensures Inv(Create(s, priority, intr)) && Fair(s, Create(s, priority, intr))
  {
    hide Best;
    var p := if s.mlfqs then PRI_DEFAULT else priority;
    var th := Thread(Blocked, p, p, false, None, 0, None, [], Own);
    var t := |s.threads|;
    var s1 := s.(threads := s.threads + [th]);
    CreatedCore(s, s1, th);
    CreatedSync(s, s1, th);
    UnblockCore(s1, t, intr);
    SameSyncKeeps(s1, Create(s, priority, intr));
  }

  lemma CreateHighest(s: State, priority: int)
    requires Inv(s)
    ensures Highest(Create(s, priority, true))
  {
    hide Highest, Unblock;
    var p := if s.mlfqs then PRI_DEFAULT else priority;
    var th := Thread(Blocked, p, p, false, None, 0, None, [], Own);
    var s1 := s.(threads := s.threads + [th]);
    CreatedCore(s, s1, th);
    UnblockHighest(s1, |s.threads|);
  }

  lemma CreatedCore(s: State, s1: State, th: Thread)
    requires Core(s, None, true) && s1 == s.(threads := s.threads + [th])
    requires th.status == Blocked && th.pl == None && th.held == [] && th.waitingFor == None && th.cont == Own
    ensures Core(s1, Some(|s.threads|), true) && Loose(s1, |s.threads|)
  {
    var t := |s.threads|;
    CreateWf(s, s1);
    assert forall u :: 0 <= u < t ==> s1.threads[u] == s.threads[u];
    forall l | IsList(s1, l) ensures ListOk(s1, l) {
      assert ListOk(s, l) && List(s1, l) == List(s, l);
    }
    forall u | 0 <= u < t ensures Placed(s1, u) {
      assert Placed(s, u);
    }
    assert t !in s.sleeping;
  }

  lemma CreatedSync(s: State, s1: State, th: Thread)
    requires Wf(s) && SyncOk(s) && s1 == s.(threads := s.threads + [th])
    requires th.pl == None && th.held == [] && th.cont == Own && th.priority == th.original
    ensures SyncOk(s1)
  {
    forall k | 0 <= k < |s1.semas| ensures SemaOk(s1, k) {
      assert SemaOk(s, k);
      WokenAppend(s.threads, th, k);
    }
    assert forall u :: 0 <= u < |s.threads| ==> s1.threads[u] == s.threads[u];
    forall u, l | 0 <= u < |s1.threads| && 0 <= l < |s1.holder|
      ensures l in s1.threads[u].held <==> s1.holder[l] == Some(u)
    {
      if u < |s.threads| {
        assert l in s.threads[u].held <==> s.holder[l] == Some(u);
      }
    }
  }

  lemma RecalculateInv(s: State, t: Tid, priority: int)
    requires Inv(s) && s.mlfqs && t < |s.threads|
    ensures s.threads[t].pl.Some? ==> Linked(s, t)
    ensures Inv(Recalculate(s, t, priority)) && Recalculate(s, t, priority).current == s.current
  {
    if s.threads[t].pl.Some? {
      RepositionShape(s, t, priority, s.threads[t].donated);
      RepositionInv(s, t, priority, s.threads[t].donated);
    } else {
      UnlinkedChanged(s, t, priority);
    }
  }

  lemma SetNiceInv(s: State, priority: int)
    requires Inv(s) && s.mlfqs
    ensures s.threads[s.current].pl.Some? ==> Linked(s, s.current)
    ensures Inv(SetNice(s, priority)) && Fair(s, SetNice(s, priority)) && Highest(SetNice(s, priority))
  {
    hide Best, Highest, Yield, Recalculate;
    RecalculateInv(s, s.current, priority);
    var s1 := Recalculate(s, s.current, priority);
    if s1.threads[s1.current].priority < TopPriority(s1, s1.ready) {
      YieldInv(s1);
      BestIsHighest(Yield(s1));
    } else {
      ReadyTop(s1);
    }
  }

  lemma UnlinkedChanged(s: State, t: Tid, priority: int)
    requires Inv(s) && s.mlfqs && t < |s.threads| && s.threads[t].pl == None
    ensures Inv(Set(s, t, s.threads[t].(priority := priority)))
  {
    var s' := Set(s, t, s.threads[t].(priority := priority));
    SetWf(s, t, s'.threads[t]);
    assert SameLists(s, s');
    SameListsKeeps(s, s');
    forall u | 0 <= u < |s'.threads| ensures Placed(s', u) {
      assert Placed(s, u);
    }
    assert forall u :: 0 <= u < |s.threads| ==> s'.threads[u].held == s.threads[u].held;
    forall k | 0 <= k < |s'.semas| ensures SemaOk(s', k) {
      assert SemaOk(s, k);
      WokenSame(s.threads, s'.threads, k);
    }
  }

  lemma ExitingCore(s: State)
    requires Inv(s) && s.current != IDLE && s.threads[s.current].cont == Own && s.threads[s.current].held == []
    ensures var s1 := Set(s, s.current, s.threads[s.current].(pl := None, status := Dying));
      Core(s1, None, false) && SameSync(s, s1)
  {
    var t := s.current;
    assert Placed(s, t);
    var s1 := Set(s, t, s.threads[t].(pl := None, status := Dying));
    assert SameLists(s, s1);
    SameListsKeeps(s, s1);
    forall u | 0 <= u < |s1.threads| ensures Placed(s1, u) {
      assert Placed(s, u);
    }
  }

  lemma ExitInv(s: State)
    requires Inv(s) && s.current != IDLE && s.threads[s.current].cont == Own && s.threads[s.current].held == []
    ensures Inv(Exit(s)) && Best(Exit(s))
  {
    hide Best;
    var s1 := Set(s, s.current, s.threads[s.current].(pl := None, status := Dying));
    ExitingCore(s);
    ScheduleCore(s1);
    ScheduleBest(s1);
    SameSyncTransitive(s, s1, Exit(s));
    SameSyncKeeps(s, Exit(s));
  }

  lemma IdleCore(s: State)
    requires Inv(s) && s.current == IDLE
    ensures Core(SetStatus(s, IDLE, Blocked), None, false)
  {
    var s1 := SetStatus(s, IDLE, Blocked);
    assert Placed(s, IDLE);
    assert SameLists(s, s1);
    SameListsKeeps(s, s1);
    forall u | 0 <= u < |s1.threads| ensures Placed(s1, u) {
      assert Placed(s, u);
    }
  }

  lemma IdleBlockInv(s: State)
    requires Inv(s) && s.current == IDLE
    ensures Inv(Block(s)) && Best(Block(s))
  {
    hide Best;
    IdleCore(s);
    BlockCore(s);
    SameSyncKeeps(s, Block(s));
  }
}
