/** What each kernel operation does, on the states before and after it, whatever switch of
    threads comes with it. */
module SchedulerEffects {
  import opened Sequences
  import opened Scheduler
  import opened SchedulerInvariant
  import opened SchedulerRuns

  /** Whether a thread can run, waits for something, or has exited. */
  datatype Kind = Able | Waiting | Gone

  function KindOf(status: Status): Kind {
    match status
    case Running => Able
    case Runnable => Able
    case Blocked => Waiting
    case Dying => Gone
  }

  /** All of a thread but its place in the lists. */
  predicate SameFields(a: Thread, b: Thread) {
    && b.priority == a.priority && b.original == a.original && b.donated == a.donated
    && b.waitingFor == a.waitingFor && b.held == a.held && b.cont == a.cont
  }

  /** Thread U is as it was, but that it may have got or lost the CPU. */
  predicate Kept(s: State, s': State, u: Tid)
    requires u < |s.threads| && u < |s'.threads|
  {
    && SameFields(s.threads[u], s'.threads[u])
    && (u != IDLE ==> KindOf(s'.threads[u].status) == KindOf(s.threads[u].status))
  }

  predicate OthersKept(s: State, s': State, t: Tid) {
    && |s.threads| <= |s'.threads|
    && forall u :: 0 <= u < |s.threads| && u != t ==> Kept(s, s', u)
  }

  /** No more than a switch of threads has happened. */
  predicate Switched(s: State, s': State) {
    && s'.semas == s.semas && s'.holder == s.holder && s'.sleeping == s.sleeping && s'.mlfqs == s.mlfqs
    && |s'.threads| == |s.threads|
    && forall u :: 0 <= u < |s.threads| ==> Kept(s, s', u)
  }

  lemma SwitchedTransitive(s: State, s1: State, s2: State)
    requires Switched(s, s1) && Switched(s1, s2)
    ensures Switched(s, s2)
  {
    forall u | 0 <= u < |s.threads| ensures Kept(s, s2, u) {
      assert Kept(s, s1, u) && Kept(s1, s2, u);
    }
  }

  lemma ScheduleSwitches(s: State)
    requires Core(s, None, false)
    ensures Switched(s, Schedule(s))
  {
    hide Schedule;
    ScheduleThreads(s);
    if s.ready != [] {
      assert ListOk(s, Ready);
      assert s.threads[s.ready[0]].pl == Some(Ready);
      assert Placed(s, s.ready[0]);
    }
  }

  lemma YieldSwitches(s: State)
    requires Core(s, None, true)
    ensures Switched(s, Yield(s))
  {
    hide Schedule, Yield, ListsOk, Placed;
    InLineCore(s);
    YieldIs(s);
    ScheduleSwitches(InLine(s));
    InLineSwitches(s);
    SwitchedTransitive(s, InLine(s), Yield(s));
  }

  lemma InLineSwitches(s: State)
    requires Wf(s) && s.threads[s.current].status == Running
    ensures Switched(s, InLine(s))
  {
    hide ThreadWf;
  }

  lemma BlockSwitches(s: State)
    requires Wf(s) && Core(SetStatus(s, s.current, Blocked), None, false)
    ensures Switched(SetStatus(s, s.current, Blocked), Block(s))
  {
    ScheduleSwitches(SetStatus(s, s.current, Blocked));
  }

  lemma UnblockSwitches(s: State, t: Tid, intr: bool)
    requires Core(s, Some(t), true) && Loose(s, t)
    ensures Switched(SetStatus(s, t, Runnable), Unblock(s, t, intr))
  {
    hide Yield, Unblock, ListsOk, Placed;
    ReadiedCore(s, t);
    UnblockIs(s, t, intr);
    ReadiedSwitches(s, t);
    if Unblock(s, t, intr) != Readied(s, t) {
      YieldSwitches(Readied(s, t));
      SwitchedTransitive(SetStatus(s, t, Runnable), Readied(s, t), Unblock(s, t, intr));
    }
  }

  lemma ReadiedSwitches(s: State, t: Tid)
    requires Wf(s) && t < |s.threads|
    ensures Switched(SetStatus(s, t, Runnable), Readied(s, t))
  {
    hide ThreadWf;
  }

  // ----- semaphores

  predicate OtherSemas(s: State, s': State, k: nat) {
    |s'.semas| == |s.semas| && forall j :: 0 <= j < |s.semas| && j != k ==> s'.semas[j] == s.semas[j]
  }

  /** A thread that tests semaphore K takes a unit if there is one, and otherwise joins the
      waiters; nothing else changes.  With the unit of a lock's semaphore it becomes the lock's
      holder. */
  predicate Tested(s: State, s': State, k: nat)
    requires Wf(s) && k < |s.semas|
  {
    var t := s.current;
    && OtherSemas(s, s', k) && |s'.threads| == |s.threads| && OthersKept(s, s', t) && s'.sleeping == s.sleeping
    && if s.semas[k].value > 0 then TookUnit(s, s', k) else Waits(s, s', k)
  }

  predicate TookUnit(s: State, s': State, k: nat)
    requires Wf(s) && k < |s.semas| == |s'.semas| && |s'.threads| == |s.threads| && s.semas[k].value > 0
  {
    var t := s.current;
    var th, m := s.threads[t], s.semas[k];
    && s'.semas[k] == m.(value := m.value - 1, downs := m.downs + 1)
    && s'.current == t && s'.ready == s.ready
    && if k < |s.holder| then
         && s'.holder == s.holder[k := Some(t)]
         && s'.threads[t] == th.(cont := Own, waitingFor := None, held := th.held + [k])
       else
         s'.holder == s.holder && s'.threads[t] == th.(cont := Own)
  }

  predicate Waits(s: State, s': State, k: nat)
    requires Wf(s) && k < |s.semas| == |s'.semas| && |s'.threads| == |s.threads|
  {
    var t := s.current;
    && s'.holder == s.holder && s'.semas[k] == s.semas[k].(waiters := s'.semas[k].waiters)
    && multiset(s'.semas[k].waiters) == multiset(s.semas[k].waiters) + multiset{t}
    && s'.threads[t].status == Blocked && SameFields(s.threads[t].(cont := Down(k)), s'.threads[t])
  }

  lemma DownEffect(s: State, k: nat)
    requires Inv(s) && k < |s.semas| && s.current != IDLE
    requires s.threads[s.current].cont == Own || s.threads[s.current].cont == Down(k)
    ensures Tested(s, DownPass(s, k), k)
  {
    if s.semas[k].value == 0 {
      WaitEffect(s, k);
    }
  }

  lemma WaitEffect(s: State, k: nat)
    requires Inv(s) && k < |s.semas| && s.current != IDLE && s.semas[k].value == 0
    requires s.threads[s.current].cont == Own || s.threads[s.current].cont == Down(k)
    ensures Tested(s, DownPass(s, k), k)
  {
    hide Block, Inv, ListsOk;
    InvCore(s);
    EnqueuedCore(s, k);
    var s1 := Enqueued(s, k);
    BlockSwitches(s1);
    EnqueuedEffect(s, k);
    var s2 := SetStatus(s1, s.current, Blocked);
    forall u | 0 <= u < |s.threads| && u != s.current ensures Kept(s, DownPass(s, k), u) {
      assert Kept(s2, Block(s1), u);
    }
    assert Kept(s2, Block(s1), s.current);
  }

  lemma InvCore(s: State)
    requires Inv(s)
    ensures Wf(s) && Core(s, None, true)
  {
  }

  lemma EnqueuedEffect(s: State, k: nat)
    requires Wf(s) && k < |s.semas|
    ensures var t, s' := s.current, Enqueued(s, k);
      && OtherSemas(s, s', k) && |s'.threads| == |s.threads| && s'.sleeping == s.sleeping && s'.holder == s.holder
      && s'.current == t && s'.semas[k] == s.semas[k].(waiters := s'.semas[k].waiters)
      && multiset(s'.semas[k].waiters) == multiset(s.semas[k].waiters) + multiset{t}
      && SameFields(s.threads[t].(cont := Down(k)), s'.threads[t])
      && (forall u :: 0 <= u < |s.threads| && u != t ==> s'.threads[u] == s.threads[u])
  {
    hide ThreadWf;
    var ts := s.semas[k].waiters;
    InsertAtMembers(ts, InsertPos(s.threads, ts, s.current), s.current);
  }

  /** All but the first. */
  function Rest(ts: seq<Tid>): seq<Tid> {
    if ts == [] then [] else ts[1..]
  }

  /** sema_up adds a unit; if threads wait, it wakes the one of them that comes before all the
      others, and otherwise does no more. */
  predicate AddedUnit(s: State, s': State, k: nat)
    requires Wf(s) && k < |s.semas|
  {
    var m := s.semas[k];
    && OtherSemas(s, s', k) && |s'.threads| == |s.threads| && s'.sleeping == s.sleeping && s'.holder == s.holder
    && s'.semas[k] == m.(value := m.value + 1, ups := m.ups + 1, waiters := Rest(m.waiters))
    && if m.waiters == [] then
         s' == s.(semas := s'.semas)
       else
         var w := m.waiters[0];
         && (forall j :: 0 < j < |m.waiters| ==> Precedes(s.threads[w], s.threads[m.waiters[j]]))
         && OthersKept(s, s', w)
         && SameFields(s.threads[w], s'.threads[w]) && KindOf(s'.threads[w].status) == Able
  }

  lemma UpEffect(s: State, k: nat, intr: bool)
    requires Core(s, None, true) && k < |s.semas|
    ensures AddedUnit(s, Up(s, k, intr), k)
  {
    hide Unblock, Placed, ListsOk;
    if s.semas[k].waiters != [] {
      var s1 := Upped(s, k);
      UppedCore(s, k);
      PoppedCore(s1, k);
      var w, s2 := s.semas[k].waiters[0], Unlink(s1, Waiters(k), 0);
      UnblockSwitches(s2, w, intr);
      FirstWaiter(s, k);
      PoppedEffect(s, k, w);
      WokenEffect(s, s2, Up(s, k, intr), k, w);
    }
  }

  lemma FirstWaiter(s: State, k: nat)
    requires ListsOk(s) && k < |s.semas| && s.semas[k].waiters != []
    ensures var ts := s.semas[k].waiters;
      (forall j :: 0 <= j < |ts| ==> ts[j] < |s.threads|) &&
      forall j :: 0 < j < |ts| ==> Precedes(s.threads[ts[0]], s.threads[ts[j]])
  {
    assert ListOk(s, Waiters(k));
    assert List(s, Waiters(k)) == s.semas[k].waiters;
  }

  lemma PoppedEffect(s: State, k: nat, w: Tid)
    requires Wf(s) && k < |s.semas| && s.semas[k].waiters != [] && w == s.semas[k].waiters[0]
    ensures var s' := Unlink(Upped(s, k), Waiters(k), 0);
      && OtherSemas(s, s', k) && |s'.threads| == |s.threads| && s'.sleeping == s.sleeping && s'.holder == s.holder
      && s'.semas[k] == (var m := s.semas[k]; m.(value := m.value + 1, ups := m.ups + 1, waiters := m.waiters[1..]))
      && s'.threads == s.threads[w := s.threads[w].(pl := None)]
  {
    hide ThreadWf;
    var ts := s.semas[k].waiters;
    assert RemoveAt(ts, 0) == ts[1..];
  }

  lemma WokenEffect(s: State, s1: State, s': State, k: nat, w: Tid)
    requires w < |s.threads| == |s1.threads| && s1.threads == s.threads[w := s.threads[w].(pl := None)]
    requires Switched(SetStatus(s1, w, Runnable), s')
    ensures s'.semas == s1.semas && s'.holder == s1.holder && s'.sleeping == s1.sleeping && |s'.threads| == |s.threads|
    ensures OthersKept(s, s', w) && SameFields(s.threads[w], s'.threads[w])
    ensures w != IDLE ==> KindOf(s'.threads[w].status) == Able
  {
    var s2 := SetStatus(s1, w, Runnable);
    assert Kept(s2, s', w);
    forall u | 0 <= u < |s.threads| && u != w ensures Kept(s, s', u) {
      assert Kept(s2, s', u);
    }
  }

  // ----- locks

  /** Thread U is as it was, but may have been raised to PRIORITY. */
  predicate KeptOrRaised(s: State, s': State, u: Tid, priority: int)
    requires u < |s.threads| && u < |s'.threads|
  {
    var a, b := s.threads[u], s'.threads[u];
    && SameFields(a.(priority := b.priority, donated := b.donated), b)
    && (u != IDLE ==> KindOf(b.status) == KindOf(a.status))
    && ((b.priority == a.priority && b.donated == a.donated) || (a.priority < priority == b.priority && b.donated))
  }

  /** The current thread waits for lock L, held by H, to whom it may have donated. */
  predicate WaitsForLock(s: State, s': State, l: nat, h: Tid)
    requires Wf(s) && l < |s.holder|
  {
    var t := s.current;
    && s'.holder == s.holder && s'.sleeping == s.sleeping && |s'.threads| == |s.threads| && |s'.semas| == |s.semas|
    && (forall j :: 0 <= j < |s.semas| ==> s'.semas[j] == s.semas[j].(waiters := s'.semas[j].waiters))
    && t in s'.semas[l].waiters && s'.threads[t].status == Blocked
    && SameFields(s.threads[t].(cont := Down(l), waitingFor := Some(h)), s'.threads[t])
    && (forall u :: 0 <= u < |s.threads| && u != t ==> KeptOrRaised(s, s', u, s.threads[t].priority))
  }

  /** lock_acquire of a free lock takes it at once; otherwise the thread waits for its holder. */
  lemma AcquireEffect(s: State, l: nat)
    requires Inv(s) && s.current != IDLE && s.threads[s.current].cont == Own
    requires l < |s.holder| && s.holder[l] != Some(s.current) && Acquire(s, l).Some?
    ensures s.holder[l] == None ==> Tested(s, Acquire(s, l).value, l) && s.semas[l].value > 0
    ensures s.holder[l].Some? ==> WaitsForLock(s, Acquire(s, l).value, l, s.holder[l].value)
  {
    hide Donate, DownPass, Tested, WaitsForLock;
    if s.holder[l] == None {
      DownEffect(s, l);
    } else {
      var t, h := s.current, s.holder[l].value;
      var th := s.threads[t].(waitingFor := Some(h));
      CurrentThread(s);
      CurrentChanged(s, th);
      var s1 := Set(s, t, th);
      if th.priority > s1.threads[h].priority && !s.mlfqs {
        var r := Donate(s1, Some(h), th.priority, DONATION_DEPTH);
        DonateInv(s1, Some(h), th.priority, DONATION_DEPTH, r);
        DonateFrame(s1, Some(h), th.priority, DONATION_DEPTH, r);
        DonateKeepsSleep(s1, Some(h), th.priority, DONATION_DEPTH, r);
        DonatedWaits(s, s1, r.value, l, h);
      } else {
        RaisedNone(s1, th.priority);
        DonatedWaits(s, s1, s1, l, h);
      }
    }
  }

  lemma RaisedNone(s: State, priority: int)
    ensures Donated(s, s, priority)
  {
  }

  lemma {:induction false} DonateKeepsSleep(s: State, cur: Option<Tid>, priority: int, n: nat, r: Option<State>)
    requires Wf(s) && (cur.Some? ==> cur.value < |s.threads|)
    requires r == Donate(s, cur, priority, n) && r.Some?
    ensures r.value.sleeping == s.sleeping
    decreases n
  {
    hide Donate, Reposition, Wf;
    var go, s1, next := DonateNext(s, cur, priority, n, r);
    if go {
      DonateKeepsSleep(s1, next, priority, n - 1, r);
    }
  }

  lemma DonatedWaits(s: State, s1: State, r: State, l: nat, h: Tid)
    requires Wf(s) && l < |s.holder| && h < |s.threads| && s.current != IDLE && s.semas[l].value == 0
    requires s1 == Set(s, s.current, s.threads[s.current].(waitingFor := Some(h)))
    requires Inv(r) && Donated(s1, r, s.threads[s.current].priority) && r.sleeping == s.sleeping
    requires s.threads[s.current].cont == Own && s.threads[s.current].pl == None
    ensures Wf(r) && l < |r.semas| && WaitsForLock(s, DownPass(r, l), l, h)
  {
    hide DownPass, Inv, Kept;
    var t, p := s.current, s.threads[s.current].priority;
    InvCore(r);
    assert Raised(s1.threads[t], r.threads[t], p);
    DownEffect(r, l);
    var s' := DownPass(r, l);
    assert t in multiset(s'.semas[l].waiters);
    forall u | 0 <= u < |s.threads| && u != t ensures KeptOrRaised(s, s', u, p) {
      assert Raised(s1.threads[u], r.threads[u], p);
      RaisedThenKept(s, r, s', u, p);
    }
  }

  lemma RaisedThenKept(s: State, r: State, s': State, u: Tid, p: int)
    requires u < |s.threads| && u < |r.threads| && u < |s'.threads|
    requires Raised(s.threads[u], r.threads[u], p) && Kept(r, s', u)
    ensures KeptOrRaised(s, s', u, p)
  {
  }

  /** lock_release gives lock L up, adds a unit to its semaphore and wakes the first waiter.
      Without the feedback queue the thread counts as donated to exactly if it stays above the
      priority it set itself. */
  ghost predicate GaveUp(s: State, s': State, l: nat)
    requires Wf(s) && l < |s.holder|
  {
    var t, m := s.current, s.semas[l];
    && OtherSemas(s, s', l) && |s'.threads| == |s.threads| && s'.sleeping == s.sleeping
    && s'.holder == s.holder[l := None]
    && s'.semas[l] == m.(value := m.value + 1, ups := m.ups + 1, waiters := Rest(m.waiters))
    && var a, b := s.threads[t], s'.threads[t];
       && (forall k :: k in b.held <==> k in a.held && k != l) && KindOf(b.status) == Able
       && b.original == a.original && b.cont == a.cont && b.waitingFor == a.waitingFor
       && (s.mlfqs ==> b.priority == a.priority) && (!s.mlfqs ==> (b.donated <==> b.priority > b.original))
       && (forall u :: 0 <= u < |s.threads| && u != t && (m.waiters == [] || u != m.waiters[0]) ==> Kept(s, s', u))
       && (m.waiters != [] ==>
             && SameFields(s.threads[m.waiters[0]], s'.threads[m.waiters[0]])
             && KindOf(s'.threads[m.waiters[0]].status) == Able)
  }

  lemma ReleaseEffect(s: State, l: nat, intr: bool)
    requires Inv(s) && l < |s.holder| && s.holder[l] == Some(s.current) && s.current != IDLE
    ensures GaveUp(s, Release(s, l, intr), l)
  {
    hide Up, Inv, Core, Kept, SameFields, Wf, Released;
    InvCore(s);
    ReleasedCore(s, l);
    InCore(Released(s, l));
    ReleasedFacts(s, l);
    var s1, s' := Released(s, l), Up(Released(s, l), l, intr);
    UpEffect(s1, l, intr);
    ReleaseIs(s, l, intr);
    RunningNow(s);
    ReleasedKept(s, s1, s', l);
    KeptFields(s1, s', s.current);
  }

  lemma InCore(s: State)
    requires Core(s, None, true)
    ensures Wf(s)
  {
  }

  lemma KeptFields(s: State, s': State, u: Tid)
    requires u < |s.threads| && u < |s'.threads| && Kept(s, s', u) && u != IDLE
    ensures SameFields(s.threads[u], s'.threads[u]) && KindOf(s'.threads[u].status) == KindOf(s.threads[u].status)
    ensures var a, b := s.threads[u], s'.threads[u];
      && b.priority == a.priority && b.original == a.original && b.donated == a.donated
      && b.waitingFor == a.waitingFor && b.held == a.held && b.cont == a.cont
  {
  }

  lemma ReleaseIs(s: State, l: nat, intr: bool)
    requires Wf(s) && l < |s.holder| && Wf(Released(s, l))
    ensures Release(s, l, intr) == Up(Released(s, l), l, intr)
  {
    hide Up, ReleasedThread, Without;
    CurrentThread(s);
  }

  /** The state of lock_release before it ups the semaphore. */
  lemma ReleasedFacts(s: State, l: nat)
    requires Inv(s) && l < |s.holder|
    ensures var s1, t := Released(s, l), s.current;
      && s1.semas == s.semas && s1.sleeping == s.sleeping && s1.holder == s.holder[l := None]
      && t < |s.threads| == |s1.threads| && s1.threads == s.threads[t := s1.threads[t]]
      && var a, b := s.threads[t], s1.threads[t];
         && (forall k :: k in b.held <==> k in a.held && k != l) && b.status == a.status
         && b.original == a.original && b.cont == a.cont && b.waitingFor == a.waitingFor
         && (s.mlfqs ==> b.priority == a.priority) && (!s.mlfqs ==> (b.donated <==> b.priority > b.original))
  {
    hide ListsOk, Placed, SemaOk, NextDonation, Without, ReleasedThread;
    var t := s.current;
    CurrentThread(s);
    var locks := Without(s.threads[t].held, l);
    WithoutMembers(s.threads[t].held, l);
    ReleasedRecord(s, s.threads[t], locks);
    ReleasedStanding(s, s.threads[t], locks);
  }

  lemma RunningNow(s: State)
    requires Inv(s)
    ensures s.threads[s.current].status == Running && s.threads[s.current].pl == None
    ensures forall k, j :: 0 <= k < |s.semas| && 0 <= j < |s.semas[k].waiters| ==> s.semas[k].waiters[j] != s.current
  {
    assert Placed(s, s.current);
    forall k, j | 0 <= k < |s.semas| && 0 <= j < |s.semas[k].waiters| ensures s.semas[k].waiters[j] != s.current {
      assert ListOk(s, Waiters(k));
      assert List(s, Waiters(k)) == s.semas[k].waiters;
    }
  }

  lemma ReleasedStanding(s: State, th: Thread, locks: seq<nat>)
    requires Wf(s) && forall i :: 0 <= i < |locks| ==> locks[i] < |s.holder|
    ensures var r := ReleasedThread(s, th, locks);
      && (s.mlfqs ==> r.priority == th.priority)
      && (!s.mlfqs ==> (r.donated <==> r.priority > r.original))
  {
  }

  lemma ReleasedKept(s: State, s1: State, s': State, l: nat)
    requires Wf(s) && Wf(s1) && l < |s.holder| && |s1.threads| == |s.threads| && s1.semas == s.semas
    requires s.current < |s.threads| && s.threads[s.current].status == Running && s.current != IDLE
    requires s1.threads == s.threads[s.current := s1.threads[s.current]] && s1.threads[s.current].status == Running
    requires s.semas[l].waiters != [] ==> s.semas[l].waiters[0] != s.current
    requires AddedUnit(s1, s', l)
    ensures Kept(s1, s', s.current)
    ensures var ts := s.semas[l].waiters;
      && (forall u :: 0 <= u < |s.threads| && u != s.current && (ts == [] || u != ts[0]) ==> Kept(s, s', u))
      && (ts != [] ==>
            && ts[0] < |s.threads| && SameFields(s.threads[ts[0]], s'.threads[ts[0]])
            && KindOf(s'.threads[ts[0]].status) == Able)
  {
    var ts := s.semas[l].waiters;
    forall u | 0 <= u < |s.threads| && u != s.current && (ts == [] || u != ts[0]) ensures Kept(s, s', u) {
      assert Kept(s1, s', u);
    }
  }

  // ----- threads

  /** thread_create adds one thread, of the priority asked for or, under the feedback queue, of
      the default one, and it can run. */
  lemma CreateEffect(s: State, priority: int, intr: bool)
    requires Inv(s)
    ensures var n, s', p := |s.threads|, Create(s, priority, intr), if s.mlfqs then PRI_DEFAULT else priority;
      && |s'.threads| == n + 1 && OthersKept(s, s', n) && KindOf(s'.threads[n].status) == Able
      && SameFields(Thread(Blocked, p, p, false, None, 0, None, [], Own), s'.threads[n])
      && s'.semas == s.semas && s'.holder == s.holder && s'.sleeping == s.sleeping
  {
    hide Unblock, ListsOk, Placed, SyncOk;
    var p := if s.mlfqs then PRI_DEFAULT else priority;
    var th := Thread(Blocked, p, p, false, None, 0, None, [], Own);
    var s1 := s.(threads := s.threads + [th]);
    CreatedCore(s, s1, th);
    UnblockSwitches(s1, |s.threads|, intr);
    var s2, s' := SetStatus(s1, |s.threads|, Runnable), Create(s, priority, intr);
    assert Kept(s2, s', |s.threads|);
    forall u | 0 <= u < |s.threads| ensures Kept(s, s', u) {
      assert Kept(s2, s', u);
    }
  }

  lemma CurrentThenSwitched(s: State, s1: State, s': State)
    requires s.current < |s.threads| == |s1.threads| && s1.threads == s.threads[s.current := s1.threads[s.current]]
    requires Switched(s1, s') && s.current != IDLE
    ensures OthersKept(s, s', s.current) && |s'.threads| == |s.threads|
    ensures SameFields(s1.threads[s.current], s'.threads[s.current])
    ensures KindOf(s'.threads[s.current].status) == KindOf(s1.threads[s.current].status)
  {
    assert Kept(s1, s', s.current);
    forall u | 0 <= u < |s.threads| && u != s.current ensures Kept(s, s', u) {
      assert Kept(s1, s', u);
    }
  }

  /** The new priorities of a thread that sets its own. */
  predicate Asked(a: Thread, b: Thread, priority: int) {
    && b.original == priority
    && b.priority == (if a.donated && a.priority >= priority then a.priority else priority)
    && (b.donated <==> a.donated && a.priority >= priority)
    && b.waitingFor == a.waitingFor && b.held == a.held && b.cont == a.cont && KindOf(b.status) == KindOf(a.status)
  }

  /** thread_set_priority sets the priority the thread asks for, at once unless it is donated
      at least that much. */
  lemma SetPriorityEffect(s: State, priority: int)
    requires Inv(s) && !s.mlfqs && s.current != IDLE
    ensures var t, s' := s.current, SetPriority(s, priority);
      && |s'.threads| == |s.threads| && OthersKept(s, s', t) && Asked(s.threads[t], s'.threads[t], priority)
      && s'.semas == s.semas && s'.holder == s.holder && s'.sleeping == s.sleeping
  {
    hide Yield, ListsOk, Placed, SyncOk;
    var th := s.threads[s.current].(original := priority);
    var th' := if !th.donated then th.(priority := priority)
               else if th.priority < priority then th.(priority := priority, donated := false)
               else th;
    CurrentThread(s);
    CurrentChanged(s, th');
    var s1, s' := Set(s, s.current, th'), SetPriority(s, priority);
    if s' != s1 {
      YieldSwitches(s1);
      CurrentThenSwitched(s, s1, s');
    }
  }

  /** thread_set_nice gives the thread its new priority; other threads keep theirs. */
  lemma SetNiceEffect(s: State, priority: int)
    requires Inv(s) && s.mlfqs && s.current != IDLE
    ensures s.threads[s.current].pl.Some? ==> Linked(s, s.current)
    ensures var t, s' := s.current, SetNice(s, priority);
      && |s'.threads| == |s.threads| && OthersKept(s, s', t)
      && SameFields(s.threads[t].(priority := priority), s'.threads[t]) && KindOf(s'.threads[t].status) == Able
      && s'.semas == s.semas && s'.holder == s.holder && s'.sleeping == s.sleeping
  {
    hide Yield, ListsOk, Placed, SyncOk;
    RunningNow(s);
    RecalculateInv(s, s.current, priority);
    var s1, s' := Set(s, s.current, s.threads[s.current].(priority := priority)), SetNice(s, priority);
    assert Recalculate(s, s.current, priority) == s1;
    if s' != s1 {
      YieldSwitches(s1);
      CurrentThenSwitched(s, s1, s');
    }
  }

  /** thread_calculate_priority gives one thread its new priority, and moves it in its list. */
  lemma RecalculateEffect(s: State, t: Tid, priority: int)
    requires Inv(s) && s.mlfqs && t < |s.threads|
    ensures s.threads[t].pl.Some? ==> Linked(s, t)
    ensures var s' := Recalculate(s, t, priority);
      && |s'.threads| == |s.threads| && s'.current == s.current && s'.holder == s.holder && s'.sleeping == s.sleeping
      && (forall u :: 0 <= u < |s.threads| && u != t ==> s'.threads[u] == s.threads[u])
      && s'.threads[t] == s.threads[t].(priority := priority, stamp := s'.threads[t].stamp)
      && |s'.semas| == |s.semas|
      && (forall k :: 0 <= k < |s.semas| ==> s'.semas[k] == s.semas[k].(waiters := s'.semas[k].waiters))
  {
    RecalculateInv(s, t, priority);
    if s.threads[t].pl.Some? {
      RepositionShape(s, t, priority, s.threads[t].donated);
    }
  }

  /** thread_sleep puts the thread last on the sleeping list. */
  lemma SleepEffect(s: State)
    requires Inv(s) && s.current != IDLE && s.threads[s.current].cont == Own
    ensures var t, s' := s.current, Sleep(s);
      && |s'.threads| == |s.threads| && OthersKept(s, s', t) && s'.sleeping == s.sleeping + [t]
      && SameFields(s.threads[t], s'.threads[t]) && s'.threads[t].status == Blocked
      && s'.semas == s.semas && s'.holder == s.holder
  {
    hide Block, ListsOk, Placed, SyncOk;
    var t, s1 := s.current, s.(sleeping := s.sleeping + [s.current]);
    AsleepCore(s);
    BlockSwitches(s1);
    var s2 := SetStatus(s1, t, Blocked);
    assert Kept(s2, Sleep(s), t);
    forall u | 0 <= u < |s.threads| && u != t ensures Kept(s, Sleep(s), u) {
      assert Kept(s2, Sleep(s), u);
    }
  }

  /** thread_exit ends the thread and leaves all others. */
  lemma ExitEffect(s: State)
    requires Inv(s) && s.current != IDLE && s.threads[s.current].cont == Own && s.threads[s.current].held == []
    ensures var t, s' := s.current, Exit(s);
      && |s'.threads| == |s.threads| && OthersKept(s, s', t) && s'.threads[t].status == Dying
      && s'.semas == s.semas && s'.holder == s.holder && s'.sleeping == s.sleeping
  {
    hide Schedule, ListsOk, Placed, SyncOk;
    var t, s1 := s.current, Set(s, s.current, s.threads[s.current].(pl := None, status := Dying));
    ExitingCore(s);
    ScheduleSwitches(s1);
    assert Kept(s1, Exit(s), t);
    forall u | 0 <= u < |s.threads| && u != t ensures Kept(s, Exit(s), u) {
      assert Kept(s1, Exit(s), u);
    }
  }

  /** The idle thread, when it blocks, changes nothing but who runs. */
  lemma IdleEffect(s: State)
    requires Inv(s) && s.current == IDLE
    ensures Switched(s, Block(s))
  {
    hide Block, ListsOk, Placed, SyncOk;
    var s1 := SetStatus(s, IDLE, Blocked);
    IdleCore(s);
    BlockSwitches(s);
    forall u | 0 <= u < |s.threads| ensures Kept(s, Block(s), u) {
      assert Kept(s1, Block(s), u);
    }
  }

  // ----- units over runs

  /** A run and the actions taken in it. */
  ghost predicate Run(ss: seq<State>, acts: seq<Action>) {
    && |ss| == |acts| + 1 && Init(ss[0])
    && forall i {:trigger acts[i]} :: 0 <= i < |acts| ==>
         Wf(ss[i]) && Enabled(ss[i], acts[i]) && ss[i + 1] == Step(ss[i], acts[i])
  }

  lemma RunBehaves(ss: seq<State>, acts: seq<Action>)
    requires Run(ss, acts)
    ensures Behaviour(ss)
  {
    hide Wf, Enabled, Step, Init;
    forall i | 0 < i < |ss| ensures Next(ss[i - 1], ss[i]) {
      assert Enabled(ss[i - 1], acts[i - 1]);
    }
  }

  /** The actions that up semaphore K. */
  predicate UpsOn(a: Action, k: nat) {
    (a.Ups? && a.sema == k) || (a.Releases? && a.lock == k)
  }

  /** Those that test semaphore K for a unit. */
  predicate TestsOn(s: State, a: Action, k: nat) {
    match a
    case Downs(j) => j == k
    case TriesDown(j) => j == k
    case Acquires(l) => l == k
    case TriesAcquire(l) => l == k
    case Resumes => s.current < |s.threads| && s.threads[s.current].cont == Down(k)
    case _ => false
  }

  predicate TakesOn(s: State, a: Action, k: nat) {
    TestsOn(s, a, k) && k < |s.semas| && s.semas[k].value > 0
  }

  /** A semaphore gains a unit with each action that ups it and loses one with each that tests
      it while it has one. */
  predicate Counted(s: State, s': State, a: Action, k: nat)
    requires k < |s.semas|
  {
    var up, down := if UpsOn(a, k) then 1 else 0, if TakesOn(s, a, k) then 1 else 0;
    && |s'.semas| == |s.semas|
    && s'.semas[k].value == s.semas[k].value + up - down && s'.semas[k].initial == s.semas[k].initial
    && s'.semas[k].ups == s.semas[k].ups + up && s'.semas[k].downs == s.semas[k].downs + down
  }

  lemma StepCounts(s: State, a: Action, k: nat)
    requires Inv(s) && Wf(s) && Enabled(s, a) && k < |s.semas|
    ensures Counted(s, Step(s, a), a, k)
  {
    hide Inv, Step, Counted, Wf;
    if a.Downs? || a.Resumes? || a.TriesDown? || a.Acquires? || a.TriesAcquire? {
      TestCounts(s, a, k);
    } else if a.Ups? || a.Releases? {
      UpCounts(s, a, k);
    } else {
      PlainCounts(s, a, k);
    }
  }

  /** The other actions leave every semaphore but for the order of its waiters. */
  lemma PlainCounts(s: State, a: Action, k: nat)
    requires Inv(s) && Wf(s) && Enabled(s, a) && k < |s.semas|
    requires !(a.Downs? || a.Resumes? || a.TriesDown? || a.Acquires? || a.TriesAcquire? || a.Ups? || a.Releases?)
    ensures Counted(s, Step(s, a), a, k)
  {
    hide Inv, Create, Yield, Block, SetPriority, SetNice, Sleep, Exit, Recalculate, WakeExpired, ThreadWf, Kept,
      SameFields;
    match a
    case Creates(p, intr) => CreateEffect(s, p, intr);
    case Yields =>
      InvCore(s);
      YieldSwitches(s);
    case Idles => IdleEffect(s);
    case SetsPriority(p) => SetPriorityKeeps(s, p);
    case SetsNice(p) => SetNiceEffect(s, p);
    case Sleeps => SleepEffect(s);
    case Ticks(expired) => WakesExactly(s, expired, 0);
    case Recalculates(u, p) => RecalculateEffect(s, u, p);
    case Exits => ExitEffect(s);
  }

  /** What an up of semaphore J leaves of semaphore K. */
  predicate UpCounted(s: State, s': State, upped: bool, k: nat)
    requires k < |s.semas|
  {
    var up := if upped then 1 else 0;
    && |s'.semas| == |s.semas| && s'.semas[k].value == s.semas[k].value + up
    && s'.semas[k].initial == s.semas[k].initial && s'.semas[k].ups == s.semas[k].ups + up
    && s'.semas[k].downs == s.semas[k].downs
  }

  lemma AddedCounts(s: State, s': State, j: nat, k: nat)
    requires Wf(s) && j < |s.semas| && k < |s.semas| && AddedUnit(s, s', j)
    ensures UpCounted(s, s', j == k, k)
  {
    hide ThreadWf, OthersKept, SameFields, Precedes;
  }

  lemma GaveUpCounts(s: State, s': State, l: nat, k: nat)
    requires Wf(s) && l < |s.holder| && k < |s.semas| && GaveUp(s, s', l)
    ensures UpCounted(s, s', l == k, k)
  {
    hide ThreadWf, Kept, SameFields;
  }

  lemma UpCounts(s: State, a: Action, k: nat)
    requires Inv(s) && Wf(s) && Enabled(s, a) && k < |s.semas| && (a.Ups? || a.Releases?)
    ensures Counted(s, Step(s, a), a, k)
  {
    hide Inv, Up, Release, ThreadWf, AddedUnit, GaveUp, Core;
    match a
    case Ups(j, intr) =>
      InvCore(s);
      UpEffect(s, j, intr);
      AddedCounts(s, Up(s, j, intr), j, k);
    case Releases(l, intr) =>
      ReleaseEffect(s, l, intr);
      GaveUpCounts(s, Release(s, l, intr), l, k);
  }

  /** What a test leaves of semaphore K. */
  predicate TestCounted(s: State, s': State, taken: bool, k: nat)
    requires k < |s.semas|
  {
    var down := if taken then 1 else 0;
    && |s'.semas| == |s.semas| && s'.semas[k].value == s.semas[k].value - down
    && s'.semas[k].initial == s.semas[k].initial && s'.semas[k].ups == s.semas[k].ups
    && s'.semas[k].downs == s.semas[k].downs + down
  }

  lemma TestedCounts(s: State, s': State, j: nat, k: nat)
    requires Wf(s) && j < |s.semas| && k < |s.semas| && Tested(s, s', j)
    ensures TestCounted(s, s', j == k && s.semas[k].value > 0, k)
  {
    hide Kept, SameFields, ThreadWf;
  }

  lemma AcquireCounts(s: State, l: nat, k: nat)
    requires Inv(s) && Wf(s) && s.current != IDLE && s.threads[s.current].cont == Own && k < |s.semas|
    requires l < |s.holder| && s.holder[l] != Some(s.current) && Acquire(s, l).Some?
    ensures TestCounted(s, Acquire(s, l).value, l == k && s.semas[k].value > 0, k)
  {
    hide Inv, Acquire, Tested, Kept, SameFields, ThreadWf, KeptOrRaised;
    AcquireEffect(s, l);
    FreeIffUnit(s, l);
    if s.holder[l] == None {
      TestedCounts(s, Acquire(s, l).value, l, k);
    }
  }

  lemma TryCounts(s: State, j: nat, k: nat)
    requires Inv(s) && Wf(s) && j < |s.semas| && k < |s.semas| && s.current != IDLE && s.threads[s.current].cont == Own
    ensures TestCounted(s, TryDown(s, j), j == k && s.semas[k].value > 0, k)
  {
    hide Inv, Tested, Wf, TryDown;
    TryEffect(s, j);
    if s.semas[j].value > 0 {
      TestedCounts(s, TryDown(s, j), j, k);
    }
  }

  lemma TestCounts(s: State, a: Action, k: nat)
    requires Inv(s) && Wf(s) && Enabled(s, a) && k < |s.semas|
    requires a.Downs? || a.Resumes? || a.TriesDown? || a.Acquires? || a.TriesAcquire?
    ensures Counted(s, Step(s, a), a, k)
  {
    hide Inv, DownPass, TryDown, Acquire, ThreadWf, Tested;
    match a
    case Downs(j) =>
      DownEffect(s, j);
      TestedCounts(s, DownPass(s, j), j, k);
    case Resumes =>
      ResumeEffect(s);
      TestedCounts(s, Step(s, a), s.threads[s.current].cont.sema, k);
    case TriesDown(j) => TryCounts(s, j, k);
    case Acquires(l) => AcquireCounts(s, l, k);
    case TriesAcquire(l) => TryCounts(s, l, k);
  }

  lemma ResumeEffect(s: State)
    requires Inv(s) && s.threads[s.current].cont.Down?
    ensures s.threads[s.current].cont.sema < |s.semas|
    ensures Tested(s, DownPass(s, s.threads[s.current].cont.sema), s.threads[s.current].cont.sema)
  {
    CurrentThread(s);
    assert Placed(s, s.current);
    DownEffect(s, s.threads[s.current].cont.sema);
  }

  /** sema_try_down and lock_try_acquire take a unit if there is one, and otherwise do nothing. */
  lemma TryEffect(s: State, k: nat)
    requires Inv(s) && k < |s.semas| && s.current != IDLE && s.threads[s.current].cont == Own
    ensures if s.semas[k].value > 0 then Tested(s, TryDown(s, k), k) else TryDown(s, k) == s
  {
    if s.semas[k].value > 0 {
      DownEffect(s, k);
    }
  }

  lemma FreeIffUnit(s: State, l: nat)
    requires Inv(s) && l < |s.holder|
    ensures l < |s.semas| && (s.semas[l].value > 0 <==> s.holder[l] == None)
  {
  }

  lemma SetPriorityKeeps(s: State, priority: int)
    requires Inv(s) && s.current != IDLE
    ensures SetPriority(s, priority).semas == s.semas
  {
    if !s.mlfqs {
      SetPriorityEffect(s, priority);
    }
  }

  /** How many of the first N actions up semaphore K, and how many take a unit of it. */
  function UpCount(acts: seq<Action>, k: nat, n: nat): nat
    requires n <= |acts|
  {
    if n == 0 then 0 else UpCount(acts, k, n - 1) + if UpsOn(acts[n - 1], k) then 1 else 0
  }

  function TakeCount(ss: seq<State>, acts: seq<Action>, k: nat, n: nat): nat
    requires n <= |acts| <= |ss|
  {
    if n == 0 then 0 else TakeCount(ss, acts, k, n - 1) + if TakesOn(ss[n - 1], acts[n - 1], k) then 1 else 0
  }

  /** In every run the value of a semaphore is what it started with, and one more for each
      action that upped it, and one less for each that found it positive and took a unit. */
  lemma {:induction false} UnitsConserved(ss: seq<State>, acts: seq<Action>, k: nat, n: nat)
    requires Run(ss, acts) && k < |ss[0].semas| && n <= |acts|
    ensures |ss[n].semas| == |ss[0].semas|
    ensures var m := ss[n].semas[k];
      && m.value == ss[0].semas[k].value + UpCount(acts, k, n) - TakeCount(ss, acts, k, n)
      && m.ups == UpCount(acts, k, n) && m.downs == TakeCount(ss, acts, k, n)
  {
    hide Enabled, Step, Wf, TakesOn, Init, Inv;
    if n == 0 {
      FreshSema(ss[0], k);
    } else {
      UnitsConserved(ss, acts, k, n - 1);
      RunBehaves(ss, acts);
      RunInv(ss, n - 1);
      assert Enabled(ss[n - 1], acts[n - 1]);
      StepCounts(ss[n - 1], acts[n - 1], k);
    }
  }

  lemma FreshSema(s: State, k: nat)
    requires Init(s) && k < |s.semas|
    ensures s.semas[k].ups == 0 && s.semas[k].downs == 0
  {
  }

  // ----- switches

  /** The CPU has gone, if at all, to a thread of higher priority than the one that had it. */
  predicate SwitchedUp(s: State, s': State) {
    s'.current != s.current ==>
      && s.current < |s'.threads| && s'.current < |s'.threads|
      && s'.threads[s'.current].priority > s'.threads[s.current].priority
  }

  lemma YieldPicks(s: State)
    requires Wf(s) && s.threads[s.current].priority < TopPriority(s, s.ready)
    ensures Yield(s).current == if s.ready == [] then s.current else s.ready[0]
  {
    hide Schedule, Yield, ThreadWf;
    YieldIs(s);
    ScheduleThreads(InLine(s));
    assert s.ready == [] ==> InsertAt(s.ready, 0, s.current) == [s.current];
  }

  /** thread_yield by a thread below the first in the ready list gives the CPU to a higher one. */
  lemma YieldsUp(s: State)
    requires Core(s, None, true) && s.threads[s.current].priority < TopPriority(s, s.ready)
    ensures SwitchedUp(s, Yield(s))
  {
    hide Yield, Placed, ListsOk;
    YieldPicks(s);
    YieldSwitches(s);
    if s.ready != [] {
      assert Kept(s, Yield(s), s.ready[0]) && Kept(s, Yield(s), s.current);
    }
  }

  /** thread_unblock takes the CPU from the current thread only with interrupts on, and only for
      a thread of higher priority. */
  lemma UnblocksUp(s: State, t: Tid, intr: bool)
    requires Core(s, Some(t), true) && Loose(s, t)
    ensures SwitchedUp(s, Unblock(s, t, intr)) && (!intr ==> Unblock(s, t, intr).current == s.current)
  {
    hide Yield, Unblock, Readied, ListsOk, Placed, SameSync, SwitchedUp;
    var s1 := Readied(s, t);
    ReadiedCore(s, t);
    UnblockIs(s, t, intr);
    if intr && s1.threads[s1.current].priority < TopPriority(s1, s1.ready) {
      YieldsUp(s1);
    }
    UpFrom(s, s1, Unblock(s, t, intr));
  }

  lemma UpFrom(s: State, s1: State, s': State)
    requires s1.current == s.current && (s' == s1 || SwitchedUp(s1, s'))
    ensures SwitchedUp(s, s')
  {
  }

  lemma UpsUp(s: State, k: nat, intr: bool)
    requires Core(s, None, true) && k < |s.semas|
    ensures SwitchedUp(s, Up(s, k, intr)) && (!intr ==> Up(s, k, intr).current == s.current)
  {
    hide Unblock, ListsOk, Placed;
    if s.semas[k].waiters != [] {
      var s1 := Upped(s, k);
      UppedCore(s, k);
      PoppedCore(s1, k);
      UnblocksUp(Unlink(s1, Waiters(k), 0), s.semas[k].waiters[0], intr);
    }
  }

  lemma CreatesUp(s: State, priority: int, intr: bool)
    requires Inv(s)
    ensures SwitchedUp(s, Create(s, priority, intr)) && (!intr ==> Create(s, priority, intr).current == s.current)
  {
    hide Unblock, ListsOk, Placed, SyncOk;
    var p := if s.mlfqs then PRI_DEFAULT else priority;
    var th := Thread(Blocked, p, p, false, None, 0, None, [], Own);
    var s1 := s.(threads := s.threads + [th]);
    CreatedCore(s, s1, th);
    UnblocksUp(s1, |s.threads|, intr);
  }

  lemma ReleasesUp(s: State, l: nat, intr: bool)
    requires Inv(s) && l < |s.holder| && s.current != IDLE
    ensures SwitchedUp(s, Release(s, l, intr)) && (!intr ==> Release(s, l, intr).current == s.current)
  {
    hide Up, ListsOk, Placed, SyncOk, Core, ReleasedThread, Without;
    InvCore(s);
    CurrentThread(s);
    ReleasedCore(s, l);
    InCore(Released(s, l));
    ReleaseIs(s, l, intr);
    UpsUp(Released(s, l), l, intr);
  }

  lemma SetPriorityUp(s: State, priority: int)
    requires Inv(s)
    ensures SwitchedUp(s, SetPriority(s, priority))
  {
    hide Yield, ListsOk, Placed, SyncOk;
    if !s.mlfqs {
      var th := s.threads[s.current].(original := priority);
      var th' := if !th.donated then th.(priority := priority)
                 else if th.priority < priority then th.(priority := priority, donated := false)
                 else th;
      CurrentThread(s);
      CurrentChanged(s, th');
      var s1 := Set(s, s.current, th');
      if th'.priority < TopPriority(s1, s1.ready) {
        YieldsUp(s1);
      }
    }
  }

  lemma SetNiceUp(s: State, priority: int)
    requires Inv(s) && s.mlfqs
    ensures s.threads[s.current].pl.Some? ==> Linked(s, s.current)
    ensures SwitchedUp(s, SetNice(s, priority))
  {
    hide Yield, ListsOk, Placed, SyncOk, Recalculate;
    RecalculateInv(s, s.current, priority);
    var s1 := Recalculate(s, s.current, priority);
    if s1.threads[s1.current].priority < TopPriority(s1, s1.ready) {
      YieldsUp(s1);
    }
  }

  /** Whether an action may take the CPU from the current thread for another that it makes
      runnable or puts above it. */
  predicate MayPreempt(a: Action) {
    match a
    case Creates(_, intr) => intr
    case Ups(_, intr) => intr
    case Releases(_, intr) => intr
    case SetsPriority(_) => true
    case SetsNice(_) => true
    case _ => false
  }

  /** In every run the CPU changes hands only when the current thread gives it up or has to
      wait, or for a thread of higher priority in an action that may preempt. */
  lemma NoNeedlessSwitch(ss: seq<State>, i: nat, a: Action)
    requires Behaviour(ss) && i + 1 < |ss| && Wf(ss[i]) && Enabled(ss[i], a) && ss[i + 1] == Step(ss[i], a)
    requires ss[i + 1].current != ss[i].current
    ensures var s, s' := ss[i], ss[i + 1];
      || GivesUp(a)
      || (s.current < |s'.threads| && s'.threads[s.current].status == Blocked && s'.threads[s.current].cont.Down?)
      || (MayPreempt(a) && SwitchedUp(s, s'))
  {
    hide Inv, Wf, Enabled, Step, SwitchedUp;
    RunInv(ss, i);
    StepSwitch(ss[i], a);
  }

  lemma StepSwitch(s: State, a: Action)
    requires Inv(s) && Wf(s) && Enabled(s, a) && Step(s, a).current != s.current
    ensures var s' := Step(s, a);
      || GivesUp(a)
      || (s.current < |s'.threads| && s'.threads[s.current].status == Blocked && s'.threads[s.current].cont.Down?)
      || (MayPreempt(a) && SwitchedUp(s, s'))
  {
    hide Inv, Create, Yield, Block, DownPass, TryDown, Up, Acquire, Release, SetPriority, SetNice, Sleep, Exit,
      Recalculate, WakeExpired, ThreadWf, SwitchedUp, Kept;
    match a
    case Creates(p, intr) => CreatesUp(s, p, intr);
    case Ups(k, intr) =>
      InvCore(s);
      UpsUp(s, k, intr);
    case Releases(l, intr) => ReleasesUp(s, l, intr);
    case SetsPriority(p) => SetPriorityUp(s, p);
    case SetsNice(p) => SetNiceUp(s, p);
    case Downs(k) => DownEffect(s, k);
    case Resumes => ResumeEffect(s);
    case TriesDown(k) => TryEffect(s, k);
    case TriesAcquire(l) => TryEffect(s, l);
    case Acquires(l) =>
      AcquireEffect(s, l);
      FreeIffUnit(s, l);
    case Ticks(expired) => WakesExactly(s, expired, 0);
    case Recalculates(u, p) => RecalculateEffect(s, u, p);
    case _ =>
  }
}
