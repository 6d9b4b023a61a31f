/** Runs that reach the states where lock_acquire goes wrong. */
module DonationRuns {
  import opened Sequences
  import opened Scheduler
  import opened SchedulerInvariant
  import opened SchedulerRuns
  import opened Donation

  /** A thread takes a lock, makes one of higher priority and goes
      to sleep; when the new thread wants the lock, the kernel stops. */
  lemma AcquireCanStop() returns (ss: seq<State>)
    ensures Behaviour(ss) && |ss| == 4 && Wf(ss[3])
    ensures var s := ss[3];
      && s.current == 2 && s.holder == [Some(1)] && s.sleeping == [1]
      && DonationComesTo(s, Unlinked, 0) && Acquire(s, 0) == None
  {
    hide Inv, Next, Wf, Acquire, Create, Sleep, ComesTo;
    var m := Sema(1, [], 1, 0, 0);
    var idle := Thread(Blocked, PRI_MIN, PRI_MIN, false, None, 0, None, [], Own);
    var me := Thread(Running, PRI_DEFAULT, PRI_DEFAULT, false, None, 0, None, [], Own);
    var s0 := State([idle, me], [], [], [m], [None], 1, 0, false);
    InitInv(s0);
    Takes(s0, 0);
    var s1 := TookLock(s0, 0);
    MakesOne(s1);
    var s2 := Create(s1, 40, false);
    FallsAsleep(s2);
    var s3 := Sleep(s2);
    ss := [s0, s1, s2, s3];
    assert Behaviour(ss) by {
      assert Next(ss[0], ss[1]) && Next(ss[1], ss[2]) && Next(ss[2], ss[3]);
    }
    AcquireStopsIff(ss, 3, 0);
    StopsAtOnce(s3);
  }

  lemma MakesOne(s: State)
    requires Wf(s) && |s.threads| == 2 && s.ready == [] && !s.mlfqs && s.threads[s.current].cont == Own
    ensures Next(s, Create(s, 40, false)) && Wf(Create(s, 40, false))
    ensures var th := Thread(Runnable, 40, 40, false, Some(Ready), s.clock, None, [], Own);
      Create(s, 40, false) == s.(threads := s.threads + [th], ready := [2], clock := s.clock + 1)
  {
    var s' := Create(s, 40, false);
    assert InsertAt([], 0, 2) == [2];
    assert s'.threads == s.threads + [s'.threads[2]];
    assert Enabled(s, Creates(40, false)) && Step(s, Creates(40, false)) == s';
  }

  lemma FallsAsleep(s: State)
    requires Wf(s) && |s.threads| == 3 && s.current == 1 && s.ready == [2] && s.sleeping == []
    requires s.threads[1].cont == Own
    ensures Next(s, Sleep(s)) && Wf(Sleep(s))
    ensures var s' := Sleep(s);
      && s'.current == 2 && s'.sleeping == [1] && s'.holder == s.holder && s'.semas == s.semas && s'.mlfqs == s.mlfqs
      && |s'.threads| == 3 && s'.threads[1] == s.threads[1].(status := Blocked)
      && s'.threads[2] == s.threads[2].(status := Running, pl := None)
  {
    assert [] + [1] == [1];
    assert Enabled(s, Sleeps) && Step(s, Sleeps) == Sleep(s);
  }

  lemma StopsAtOnce(s: State)
    requires Wf(s) && |s.threads| == 3 && s.holder == [Some(1)] && s.current == 2
    requires s.threads[1].pl == None && s.threads[1].priority < s.threads[2].priority
    ensures DonationComesTo(s, Unlinked, 0)
  {
  }

  // ----- steps that the next run takes

  /** A thread that no donation has reached. */
  function Plain(status: Status, priority: int, pl: Option<ListId>, stamp: nat, waitingFor: Option<Tid>,
                 held: seq<nat>, cont: Cont): Thread
  {
    Thread(status, priority, priority, false, pl, stamp, waitingFor, held, cont)
  }

  /** The current thread, alone in its own code. */
  predicate Acts(s: State) {
    Wf(s) && !s.mlfqs && s.current != IDLE && s.threads[s.current].cont == Own
  }

  /** Thread T back in line. */
  function Queued(th: Thread, now: nat): Thread {
    th.(status := Runnable, pl := Some(Ready), stamp := now)
  }

  function OnCpu(th: Thread): Thread {
    th.(status := Running, pl := None)
  }

  /** A new thread of higher priority runs at once. */
  lemma Overtaken(s: State, p: int)
    requires Acts(s) && s.ready == [] && PRI_MIN <= p <= PRI_MAX && s.threads[s.current].priority < p
    ensures var t, th := s.current, Plain(Running, p, None, s.clock, None, [], Own);
      Next(s, s.(threads := s.threads[t := Queued(s.threads[t], s.clock + 1)] + [th],
                 ready := [t], current := |s.threads|, clock := s.clock + 2))
  {
    var t, n, th := s.current, |s.threads|, Plain(Running, p, None, s.clock, None, [], Own);
    assert InsertAt([], 0, n) == [n];
    assert [n][1..] == [] && InsertAt([n], 1, t) == [n, t];
    assert RemoveAt([n, t], 0) == [t];
    var s' := Create(s, p, true);
    assert s'.threads == s.threads[t := Queued(s.threads[t], s.clock + 1)] + [th];
    assert Enabled(s, Creates(p, true)) && Step(s, Creates(p, true)) == s';
  }

  lemma TakesFree(s: State, l: nat)
    requires Acts(s) && l < |s.holder| && s.holder[l] == None && s.semas[l].value == 1
    ensures var t, m := s.current, s.semas[l];
      Next(s, s.(semas := s.semas[l := m.(value := 0, downs := m.downs + 1)], holder := s.holder[l := Some(t)],
                 threads := s.threads[t := s.threads[t].(waitingFor := None, held := s.threads[t].held + [l])]))
  {
    var s' := GiveLock(Taken(s, l), l, s.current);
    assert Acquire(s, l) == Some(s');
    assert Enabled(s, Acquires(l)) && Step(s, Acquires(l)) == s';
  }

  lemma GoesToSleep(s: State, r: Tid)
    requires Acts(s) && s.ready == [r] && s.sleeping == [] && s.current != r < |s.threads|
    ensures var t := s.current;
      Next(s, s.(threads := s.threads[t := s.threads[t].(status := Blocked)][r := OnCpu(s.threads[r])],
                 sleeping := [t], ready := [], current := r))
  {
    assert [] + [s.current] == [s.current] && RemoveAt([r], 0) == [];
    assert Enabled(s, Sleeps) && Step(s, Sleeps) == Sleep(s);
  }

  /** Waiting for a lock whose holder is of no lower priority. */
  lemma HasToWait(s: State, l: nat, r: Tid)
    requires Acts(s) && l < |s.holder| && s.holder[l].Some? && s.holder[l] != Some(s.current)
    requires s.semas[l].value == 0 && s.semas[l].waiters == [] && s.ready == [r] && s.current != r < |s.threads|
    requires s.threads[s.current].priority <= s.threads[s.holder[l].value].priority
    ensures var t, h := s.current, s.holder[l].value;
      var th := s.threads[t].(status := Blocked, pl := Some(Waiters(l)), stamp := s.clock, cont := Down(l));
      Next(s, s.(threads := s.threads[t := th.(waitingFor := Some(h))][r := OnCpu(s.threads[r])],
                 semas := s.semas[l := s.semas[l].(waiters := [t])],
                 ready := [], current := r, clock := s.clock + 1))
  {
    hide DownPass;
    var t, h := s.current, s.holder[l].value;
    var s1 := Set(s, t, s.threads[t].(waitingFor := Some(h)));
    SetWf(s, t, s1.threads[t]);
    Parks(s1, l, r);
    assert Acquire(s, l) == Some(DownPass(s1, l));
    assert Enabled(s, Acquires(l)) && Step(s, Acquires(l)) == DownPass(s1, l);
  }

  lemma Parks(s: State, k: nat, r: Tid)
    requires Wf(s) && k < |s.semas| && s.semas[k].value == 0 && s.semas[k].waiters == []
    requires s.ready == [r] && s.current != r < |s.threads|
    ensures var t := s.current;
      var th := s.threads[t].(status := Blocked, pl := Some(Waiters(k)), stamp := s.clock, cont := Down(k));
      DownPass(s, k) ==
        s.(threads := s.threads[t := th][r := OnCpu(s.threads[r])], semas := s.semas[k := s.semas[k].(waiters := [t])],
           ready := [], current := r, clock := s.clock + 1)
  {
    hide Block, ThreadWf;
    var t := s.current;
    assert InsertAt([], 0, t) == [t];
    var th := s.threads[t].(pl := Some(Waiters(k)), stamp := s.clock, cont := Down(k));
    var m := s.semas[k].(waiters := [t]);
    var s1 := s.(threads := s.threads[t := th], semas := s.semas[k := m], clock := s.clock + 1);
    assert Enqueued(s, k) == s1;
    SwitchesTo(s1, r);
  }

  lemma SwitchesTo(s: State, r: Tid)
    requires Wf(s) && s.ready == [r] && s.current != r < |s.threads|
    ensures var th := s.threads[s.current].(status := Blocked);
      Block(s) == s.(threads := s.threads[s.current := th][r := OnCpu(s.threads[r])], ready := [], current := r)
  {
    hide ThreadWf;
    assert RemoveAt([r], 0) == [];
  }

  lemma WakesUp(s: State, u: Tid)
    requires Acts(s) && s.sleeping == [u] && s.ready == [] && u < |s.threads|
    ensures Next(s, s.(threads := s.threads[u := Queued(s.threads[u], s.clock)],
                       sleeping := [], ready := [u], clock := s.clock + 1))
  {
    assert RemoveAt([u], 0) == [] && InsertAt([], 0, u) == [u];
    assert WakeExpired(s, {u}, 0) == WakeAt(s, 0);
    assert Enabled(s, Ticks({u})) && Step(s, Ticks({u})) == WakeAt(s, 0);
  }

  lemma GivesWay(s: State, r: Tid)
    requires Acts(s) && s.ready == [r] && s.current != r < |s.threads|
    requires s.threads[s.current].priority <= s.threads[r].priority
    ensures var t := s.current;
      Next(s, s.(threads := s.threads[t := Queued(s.threads[t], s.clock)][r := OnCpu(s.threads[r])],
                 ready := [t], current := r, clock := s.clock + 1))
  {
    var t := s.current;
    assert [r][1..] == [] && InsertAt([r], 1, t) == [r, t] && RemoveAt([r, t], 0) == [t];
    assert Enabled(s, Yields) && Step(s, Yields) == Yield(s);
  }

  /** A new thread of no higher priority waits its turn. */
  lemma MakesAnother(s: State, p: int, r: Tid)
    requires Acts(s) && s.ready == [r] && r < |s.threads| && PRI_MIN <= p <= PRI_MAX
    requires s.threads[r].priority < p <= s.threads[s.current].priority
    ensures Next(s, s.(threads := s.threads + [Plain(Runnable, p, Some(Ready), s.clock, None, [], Own)],
                       ready := [|s.threads|, r], clock := s.clock + 1))
  {
    var n, s' := |s.threads|, Create(s, p, true);
    assert InsertAt([r], 0, n) == [n, r];
    assert s'.threads == s.threads + [Plain(Runnable, p, Some(Ready), s.clock, None, [], Own)];
    assert Enabled(s, Creates(p, true)) && Step(s, Creates(p, true)) == s';
  }

  /** Releasing the only lock held, to waiter W, who comes between the two that are ready. */
  lemma HandsOver(s: State, l: nat, a: Tid, w: Tid, b: Tid)
    requires Acts(s) && l < |s.holder| && s.holder[l] == Some(s.current)
    requires s.semas[l].waiters == [w] && s.ready == [a, b] && w != s.current && a != s.current && a != w && b != w
    requires a < |s.threads| && w < |s.threads| && b < |s.threads|
    requires s.threads[s.current].held == [l]
    requires s.threads[s.current].original == s.threads[s.current].priority && !s.threads[s.current].donated
    requires s.threads[s.current].priority >= s.threads[a].priority >= s.threads[w].priority > s.threads[b].priority
    ensures var t, m := s.current, s.semas[l];
      Next(s, s.(threads := s.threads[t := s.threads[t].(held := [])][w := Queued(s.threads[w], s.clock)],
                 semas := s.semas[l := m.(value := m.value + 1, ups := m.ups + 1, waiters := [])],
                 holder := s.holder[l := None], ready := [a, w, b], clock := s.clock + 1))
  {
    hide Up, NextDonation;
    var t := s.current;
    CurrentThread(s);
    assert IndexOf([l], l) == 0 && RemoveAt([l], 0) == [];
    var s1 := s.(threads := s.threads[t := s.threads[t].(held := [])], holder := s.holder[l := None]);
    assert Released(s, l) == s1;
    assert Release(s, l, true) == Up(s1, l, true);
    assert Enabled(s, Releases(l, true)) && Step(s, Releases(l, true)) == Up(s1, l, true);
    assert Wf(s1);
    UpsTo(s1, l, a, w, b);
  }

  lemma UpsTo(s: State, l: nat, a: Tid, w: Tid, b: Tid)
    requires Wf(s) && l < |s.semas| && s.semas[l].waiters == [w] && s.ready == [a, b]
    requires w != s.current && a != w && b != w
    requires a < |s.threads| && w < |s.threads| && b < |s.threads|
    requires s.threads[s.current].priority >= s.threads[a].priority >= s.threads[w].priority > s.threads[b].priority
    ensures var m := s.semas[l];
      Up(s, l, true) ==
        s.(threads := s.threads[w := Queued(s.threads[w], s.clock)], ready := [a, w, b], clock := s.clock + 1,
           semas := s.semas[l := m.(value := m.value + 1, ups := m.ups + 1, waiters := [])])
  {
    hide Unblock, Wf;
    assert RemoveAt([w], 0) == [];
    var m := s.semas[l].(value := s.semas[l].value + 1, ups := s.semas[l].ups + 1, waiters := []);
    var s1 := s.(threads := s.threads[w := s.threads[w].(pl := None)], semas := s.semas[l := m]);
    assert Unlink(Upped(s, l), Waiters(l), 0) == s1;
    UnlinkWf(Upped(s, l), Waiters(l), 0);
    assert Up(s, l, true) == Unblock(s1, w, true);
    JoinsBetween(s1, a, w, b);
  }

  lemma JoinsBetween(s: State, a: Tid, w: Tid, b: Tid)
    requires Wf(s) && s.ready == [a, b] && w != s.current && a != w && b != w
    requires a < |s.threads| && w < |s.threads| && b < |s.threads|
    requires s.threads[s.current].priority >= s.threads[a].priority >= s.threads[w].priority > s.threads[b].priority
    ensures Unblock(s, w, true) ==
      s.(threads := s.threads[w := Queued(s.threads[w], s.clock)], ready := [a, w, b], clock := s.clock + 1)
  {
    hide Unblock, Yield, ThreadWf;
    UnblockIs(s, w, true);
    assert [a, b][1..] == [b] && [b][1..] == [];
    assert InsertPos(s.threads, [a, b], w) == 1;
    assert InsertAt([a, b], 1, w) == [a, w, b];
  }

  lemma Leaves(s: State, a: Tid, b: Tid, c: Tid)
    requires Acts(s) && s.ready == [a, b, c] && s.current != a < |s.threads| && s.threads[s.current].held == []
    ensures var t := s.current;
      Next(s, s.(threads := s.threads[t := s.threads[t].(pl := None, status := Dying)][a := OnCpu(s.threads[a])],
                 ready := [b, c], current := a))
  {
    assert RemoveAt([a, b, c], 0) == [b, c];
    assert Enabled(s, Exits) && Step(s, Exits) == Exit(s);
  }

  // ----- a donation that comes to a thread that has exited

  /* Thread 2 takes lock 0 and sleeps; thread 3 takes lock 1 and waits for lock 0; thread 2
     releases lock 0 and exits before thread 3 runs again, so thread 3 still names thread 2 as
     the one it waits for when thread 4 wants lock 1. */

  const IDLER: Thread := Plain(Blocked, PRI_MIN, None, 0, None, [], Own)
  const FIRST: Thread := Plain(Running, PRI_DEFAULT, None, 0, None, [], Own)
  const SECOND: Thread := Plain(Running, 60, None, 0, None, [], Own)
  const SLEEPER: Thread := Plain(Blocked, 60, None, 0, None, [0], Own)
  const AWAKE: Thread := Plain(Running, 60, None, 5, None, [0], Own)
  const GONE: Thread := Plain(Dying, 60, None, 5, None, [], Own)
  const THIRD: Thread := Plain(Running, 40, None, 2, None, [], Own)
  const WAITER: Thread := Plain(Blocked, 40, Some(Waiters(0)), 4, Some(2), [1], Down(0))
  const FOURTH: Thread := Plain(Runnable, 50, Some(Ready), 7, None, [], Own)

  const FREE: Sema := Sema(1, [], 1, 0, 0)
  const TAKEN: Sema := Sema(0, [], 1, 0, 1)
  const AWAITED: Sema := Sema(0, [3], 1, 0, 1)
  const RELEASED: Sema := Sema(1, [], 1, 1, 1)

  function Stage0(): State {
    State([IDLER, FIRST], [], [], [FREE, FREE], [None, None], 1, 0, false)
  }

  function Stage1(): State {
    State([IDLER, Queued(FIRST, 1), SECOND], [1], [], [FREE, FREE], [None, None], 2, 2, false)
  }

  function Stage2(): State {
    State([IDLER, Queued(FIRST, 1), SECOND.(held := [0])], [1], [], [TAKEN, FREE], [Some(2), None], 2, 2, false)
  }

  function Stage3(): State {
    State([IDLER, FIRST.(stamp := 1), SLEEPER], [], [2], [TAKEN, FREE], [Some(2), None], 1, 2, false)
  }

  function Stage4(): State {
    State([IDLER, Queued(FIRST, 3), SLEEPER, THIRD], [1], [2], [TAKEN, FREE], [Some(2), None], 3, 4, false)
  }

  function Stage5(): State {
    State([IDLER, Queued(FIRST, 3), SLEEPER, THIRD.(held := [1])],
          [1], [2], [TAKEN, TAKEN], [Some(2), Some(3)], 3, 4, false)
  }

  function Stage6(): State {
    State([IDLER, FIRST.(stamp := 3), SLEEPER, WAITER], [], [2], [AWAITED, TAKEN], [Some(2), Some(3)], 1, 5, false)
  }

  function Stage7(): State {
    State([IDLER, FIRST.(stamp := 3), Queued(SLEEPER, 5), WAITER],
          [2], [], [AWAITED, TAKEN], [Some(2), Some(3)], 1, 6, false)
  }

  function Stage8(): State {
    State([IDLER, Queued(FIRST, 6), AWAKE, WAITER], [1], [], [AWAITED, TAKEN], [Some(2), Some(3)], 2, 7, false)
  }

  function Stage9(): State {
    State([IDLER, Queued(FIRST, 6), AWAKE, WAITER, FOURTH],
          [4, 1], [], [AWAITED, TAKEN], [Some(2), Some(3)], 2, 8, false)
  }

  function Stage10(): State {
    State([IDLER, Queued(FIRST, 6), AWAKE.(held := []), Queued(WAITER, 8), FOURTH],
          [4, 3, 1], [], [RELEASED, TAKEN], [None, Some(3)], 2, 9, false)
  }

  function Stage11(): State {
    State([IDLER, Queued(FIRST, 6), GONE, Queued(WAITER, 8), OnCpu(FOURTH)],
          [3, 1], [], [RELEASED, TAKEN], [None, Some(3)], 4, 9, false)
  }

  lemma NextWf(s: State, s': State)
    requires Next(s, s')
    ensures Wf(s')
  {
  }

  lemma Step0()
    requires Wf(Stage0())
    ensures Next(Stage0(), Stage1()) && Wf(Stage1())
  {
    hide Next, Wf;
    Overtaken(Stage0(), 60);
    assert Stage0().threads[1 := Queued(FIRST, 1)] + [SECOND] == Stage1().threads;
    NextWf(Stage0(), Stage1());
  }

  lemma Step1()
    requires Wf(Stage1())
    ensures Next(Stage1(), Stage2()) && Wf(Stage2())
  {
    hide Next, Wf;
    TakesFree(Stage1(), 0);
    assert [] + [0] == [0];
    assert Stage1().threads[2 := SECOND.(held := [0])] == Stage2().threads;
    assert Stage1().semas[0 := TAKEN] == Stage2().semas && Stage1().holder[0 := Some(2)] == Stage2().holder;
    NextWf(Stage1(), Stage2());
  }

  lemma Step2()
    requires Wf(Stage2())
    ensures Next(Stage2(), Stage3()) && Wf(Stage3())
  {
    hide Next, Wf;
    GoesToSleep(Stage2(), 1);
    assert Stage2().threads[2 := SLEEPER][1 := FIRST.(stamp := 1)] == Stage3().threads;
    NextWf(Stage2(), Stage3());
  }

  lemma Step3()
    requires Wf(Stage3())
    ensures Next(Stage3(), Stage4()) && Wf(Stage4())
  {
    hide Next, Wf;
    Overtaken(Stage3(), 40);
    assert Stage3().threads[1 := Queued(FIRST, 3)] + [THIRD] == Stage4().threads;
    NextWf(Stage3(), Stage4());
  }

  lemma Step4()
    requires Wf(Stage4())
    ensures Next(Stage4(), Stage5()) && Wf(Stage5())
  {
    hide Next, Wf;
    TakesFree(Stage4(), 1);
    assert [] + [1] == [1];
    assert Stage4().threads[3 := THIRD.(held := [1])] == Stage5().threads;
    assert Stage4().semas[1 := TAKEN] == Stage5().semas && Stage4().holder[1 := Some(3)] == Stage5().holder;
    NextWf(Stage4(), Stage5());
  }

  lemma Step5()
    requires Wf(Stage5())
    ensures Next(Stage5(), Stage6()) && Wf(Stage6())
  {
    hide Next, Wf;
    HasToWait(Stage5(), 0, 1);
    assert OnCpu(Queued(FIRST, 3)) == FIRST.(stamp := 3);
    assert Stage5().threads[3 := WAITER][1 := FIRST.(stamp := 3)] == Stage6().threads;
    assert [TAKEN, TAKEN][0 := AWAITED] == Stage6().semas;
    NextWf(Stage5(), Stage6());
  }

  lemma Step6()
    requires Wf(Stage6())
    ensures Next(Stage6(), Stage7()) && Wf(Stage7())
  {
    hide Next, Wf;
    WakesUp(Stage6(), 2);
    assert Stage6().threads[2 := Queued(SLEEPER, 5)] == Stage7().threads;
    NextWf(Stage6(), Stage7());
  }

  lemma Step7()
    requires Wf(Stage7())
    ensures Next(Stage7(), Stage8()) && Wf(Stage8())
  {
    hide Next, Wf;
    GivesWay(Stage7(), 2);
    assert Stage7().threads[1 := Queued(FIRST, 6)][2 := AWAKE] == Stage8().threads;
    NextWf(Stage7(), Stage8());
  }

  lemma Step8()
    requires Wf(Stage8())
    ensures Next(Stage8(), Stage9()) && Wf(Stage9())
  {
    hide Next, Wf;
    MakesAnother(Stage8(), 50, 1);
    assert Stage8().threads + [FOURTH] == Stage9().threads;
    NextWf(Stage8(), Stage9());
  }

  lemma Step9()
    requires Wf(Stage9())
    ensures Next(Stage9(), Stage10()) && Wf(Stage10())
  {
    hide Next, Wf;
    HandsOver(Stage9(), 0, 4, 3, 1);
    assert Stage9().threads[2 := AWAKE.(held := [])][3 := Queued(WAITER, 8)] == Stage10().threads;
    assert Stage9().semas[0 := RELEASED] == Stage10().semas;
    assert Stage9().holder[0 := None] == Stage10().holder;
    NextWf(Stage9(), Stage10());
  }

  lemma Step10()
    requires Wf(Stage10())
    ensures Next(Stage10(), Stage11()) && Wf(Stage11())
  {
    hide Next, Wf;
    Leaves(Stage10(), 4, 3, 1);
    assert Stage10().threads[2 := GONE][4 := OnCpu(FOURTH)] == Stage11().threads;
    NextWf(Stage10(), Stage11());
  }

  lemma FirstStage()
    ensures Init(Stage0()) && Wf(Stage0())
  {
  }

  lemma LastStage()
    ensures Wf(Stage11()) && DonationComesTo(Stage11(), Exited, 1) && !DonationComesTo(Stage11(), Unlinked, 1)
  {
    var s := Stage11();
    CanFollow(s, 3);
    assert ComesTo(s, Exited, Some(2), 50, 8, {3}) && !ComesTo(s, Unlinked, Some(2), 50, 8, {3});
    assert {} + {3} == {3};
  }

  /** The run: lock_acquire goes wrong at the end of it, although thread 2 exited with a higher
      priority than thread 4's. */
  lemma AcquireCanReadFreed() returns (ss: seq<State>)
    ensures Behaviour(ss) && |ss| == 12 && ss[11] == Stage11() && Wf(ss[11]) && Freed(ss[11], 2)
    ensures DonationComesTo(ss[11], Exited, 1) && !DonationComesTo(ss[11], Unlinked, 1) && Acquire(ss[11], 1) == None
  {
    hide Init, Next, Wf, Acquire, DonationComesTo;
    FirstStage();
    Step0();
    Step1();
    Step2();
    Step3();
    Step4();
    Step5();
    Step6();
    Step7();
    Step8();
    Step9();
    Step10();
    ss := [Stage0(), Stage1(), Stage2(), Stage3(), Stage4(), Stage5(), Stage6(), Stage7(), Stage8(), Stage9(),
      Stage10(), Stage11()];
    LastStage();
    AcquireStopsIff(ss, 11, 1);
  }
}
