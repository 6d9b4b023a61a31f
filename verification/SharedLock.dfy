/** The reader/writer lock of threads/synch.c: a counter protected by a lock and
    a Mesa-style condition variable, as a state machine.

    One step is one section that no other thread can interleave with: an
    acquisition or release of the inner lock, one test of the counter, the
    insertion of a waiter, one signal, one down of a waiter's private semaphore.
    Which waiter a signal takes, and where a waiter is inserted, is left open. */
module SharedLock {

  import opened Sequences

  type Tid = nat

  datatype Mode = Shared | Exclusive

  /** Where a thread stands in the lock's code. */
  datatype Pc =
    | Idle
    | Enter(mode: Mode)               // about to take the inner lock to acquire
    | Test(mode: Mode, woken: bool)   // inner lock held, at the loop test
    | Queued(mode: Mode)              // on the condition's list, inner lock still held
    | Wait(mode: Mode, value: nat)    // downing its private semaphore
    | Reenter(mode: Mode)             // woken, about to retake the inner lock
    | Leave(mode: Mode)               // counter updated, inner lock still held
    | Holding(mode: Mode)             // has access
    | Release(mode: Mode)             // about to take the inner lock to release
    | Update(mode: Mode)              // inner lock held, about to update the counter
    | Signal                          // about to signal one waiter
    | Broadcast                       // in the loop that signals every waiter
    | Done                            // about to drop the inner lock

  datatype State = State(i: int, holder: Option<Tid>, waiters: seq<Tid>, pc: seq<Pc>)

  predicate Init(s: State) {
    s.i == 0 && s.holder == None && s.waiters == [] && forall t :: 0 <= t < |s.pc| ==> s.pc[t] == Idle
  }

  predicate InMonitor(p: Pc) {
    p.Test? || p.Queued? || p.Leave? || p.Update? || p.Signal? || p.Broadcast? || p.Done?
  }

  /** The loop condition of the two acquire functions. */
  predicate Blocked(mode: Mode, i: int) {
    match mode
    case Exclusive => i != 0
    case Shared => i < 0
  }

  predicate Enabled(s: State, t: Tid, pick: nat)
  {
    t < |s.pc| &&
    match s.pc[t]
    case Idle => false
    case Holding(_) => false
    case Enter(_) => s.holder == None
    case Reenter(_) => s.holder == None
    case Release(_) => s.holder == None
    case Wait(_, v) => v > 0
    case Test(mode, _) => pick <= |s.waiters|
    case Signal => s.waiters == [] || pick < |s.waiters|
    case Broadcast => s.waiters == [] || pick < |s.waiters|
    case _ => true
  }

  /** Pops the picked waiter and ups its semaphore. */
  function SignalOne(s: State, pick: nat): State
    requires pick < |s.waiters|
  {
    var w := s.waiters[pick];
    var waiters := RemoveAt(s.waiters, pick);
    if w < |s.pc| && s.pc[w].Wait? then
      s.(waiters := waiters, pc := s.pc[w := Wait(s.pc[w].mode, s.pc[w].value + 1)])
    else
      s.(waiters := waiters)
  }

  function Step(s: State, t: Tid, pick: nat): State
    requires Enabled(s, t, pick)
  {
    match s.pc[t]
    case Enter(mode) => s.(holder := Some(t), pc := s.pc[t := Test(mode, false)])
    case Reenter(mode) => s.(holder := Some(t), pc := s.pc[t := Test(mode, true)])
    case Release(mode) => s.(holder := Some(t), pc := s.pc[t := Update(mode)])
    case Test(mode, _) =>
      if Blocked(mode, s.i) then
        s.(waiters := InsertAt(s.waiters, pick, t), pc := s.pc[t := Queued(mode)])
      else
        s.(i := if mode == Exclusive then -1 else s.i + 1, pc := s.pc[t := Leave(mode)])
    case Queued(mode) => s.(holder := None, pc := s.pc[t := Wait(mode, 0)])
    case Wait(mode, v) => s.(pc := s.pc[t := Reenter(mode)])
    case Leave(mode) => s.(holder := None, pc := s.pc[t := Holding(mode)])
    case Update(Shared) =>
      s.(i := s.i - 1, pc := s.pc[t := if s.i - 1 == 0 then Signal else Done])
    case Update(Exclusive) => s.(i := 0, pc := s.pc[t := Broadcast])
    case Signal =>
      var s' := if s.waiters == [] then s else SignalOne(s, pick);
      s'.(pc := s'.pc[t := Done])
    case Broadcast =>
      if s.waiters == [] then s.(pc := s.pc[t := Done]) else SignalOne(s, pick)
    case Done => s.(holder := None, pc := s.pc[t := Idle])
  }

  /** A thread outside the lock calls an acquire function, or one with access
      calls the matching release function. */
  predicate Call(s: State, s': State)
  {
    s'.i == s.i && s'.holder == s.holder && s'.waiters == s.waiters &&
    exists t :: 0 <= t < |s.pc| && CallBy(s.pc, s'.pc, t)
  }

  predicate CallBy(pc: seq<Pc>, pc': seq<Pc>, t: Tid)
    requires t < |pc|
  {
    match pc[t]
    case Idle => pc' == pc[t := Enter(Shared)] || pc' == pc[t := Enter(Exclusive)]
    case Holding(mode) => pc' == pc[t := Release(mode)]
    case _ => false
  }

  ghost predicate Internal(s: State, s': State) {
    exists t, pick :: Enabled(s, t, pick) && s' == Step(s, t, pick)
  }

  ghost predicate Next(s: State, s': State) {
    Call(s, s') || Internal(s, s')
  }

  ghost predicate Behaviour(ss: seq<State>) {
    && |ss| > 0
    && Init(ss[0])
    && forall k {:trigger ss[k]} :: 0 < k < |ss| ==> Next(ss[k - 1], ss[k])
  }

  // ----- the invariant

  /** The inner lock is held exactly by the thread inside the monitor. */
  predicate LockOk(s: State) {
    && (s.holder.Some? ==> s.holder.value < |s.pc|)
    && forall t :: 0 <= t < |s.pc| ==> (InMonitor(s.pc[t]) <==> s.holder == Some(t))
  }

  predicate Parked(p: Pc) { p.Queued? || (p.Wait? && p.value == 0) }

  /** The condition's list holds each parked thread once and nobody else, and no
      private semaphore is upped twice. */
  ghost predicate ListOk(s: State) {
    && (forall t :: t in s.waiters ==> t < |s.pc| && Parked(s.pc[t]))
    && Distinct(s.waiters)
    && (forall t :: 0 <= t < |s.pc| && Parked(s.pc[t]) ==> t in s.waiters)
    && (forall t :: 0 <= t < |s.pc| && s.pc[t].Wait? ==> s.pc[t].value <= 1)
  }

  /** Has access in the given mode: from the counter update that grants it to the
      one that gives it back. */
  predicate HasAccess(p: Pc, mode: Mode) {
    p == Leave(mode) || p == Holding(mode) || p == Release(mode) || p == Update(mode)
  }

  function Count(pc: seq<Pc>, mode: Mode): nat {
    if pc == [] then 0 else (if HasAccess(pc[0], mode) then 1 else 0) + Count(pc[1..], mode)
  }

  predicate CountOk(s: State) {
    if s.i == -1 then
      Count(s.pc, Exclusive) == 1 && Count(s.pc, Shared) == 0
    else
      Count(s.pc, Exclusive) == 0 && Count(s.pc, Shared) == s.i
  }

  /** Signalled and still on its way to test the counter again. */
  predicate OnWay(p: Pc) {
    p.Reenter? || (p.Wait? && p.value > 0) || (p.Test? && p.woken)
  }

  predicate Signalling(p: Pc) { p.Signal? || p.Broadcast? }

  predicate WakeOk(s: State) {
    && (s.i == 0 && s.waiters != [] ==>
          exists t :: 0 <= t < |s.pc| && (OnWay(s.pc[t]) || Signalling(s.pc[t])))
    && (forall t :: 0 <= t < |s.pc| && Parked(s.pc[t]) && s.pc[t].mode == Shared ==>
          s.i == -1 || exists u :: 0 <= u < |s.pc| && s.pc[u] == Broadcast)
    && (forall t :: 0 <= t < |s.pc| && Signalling(s.pc[t]) ==> s.i == 0)
  }

  ghost predicate Inv(s: State) {
    LockOk(s) && ListOk(s) && CountOk(s) && WakeOk(s)
  }

  // ----- counting

  lemma {:induction false} CountUpdate(pc: seq<Pc>, t: nat, p: Pc, mode: Mode)
    requires t < |pc|
    ensures Count(pc[t := p], mode) + (if HasAccess(pc[t], mode) then 1 else 0)
         == Count(pc, mode) + (if HasAccess(p, mode) then 1 else 0)
  {
    var q := pc[t := p];
    if t == 0 {
      assert q[1..] == pc[1..];
    } else {
      assert q[1..] == pc[1..][t - 1 := p];
      CountUpdate(pc[1..], t - 1, p, mode);
    }
  }

  lemma {:induction false} CountNone(pc: seq<Pc>, mode: Mode)
    requires forall t :: 0 <= t < |pc| ==> !HasAccess(pc[t], mode)
    ensures Count(pc, mode) == 0
  {
    if pc != [] {
      assert !HasAccess(pc[0], mode);
      CountNone(pc[1..], mode);
    }
  }

  lemma {:induction false} CountPositive(pc: seq<Pc>, mode: Mode, t: nat)
    requires t < |pc| && HasAccess(pc[t], mode)
    ensures Count(pc, mode) > 0
  {
    if t != 0 {
      CountPositive(pc[1..], mode, t - 1);
    }
  }

  // ----- every step keeps it

  lemma SignalOneIs(s: State, pick: nat)
    requires LockOk(s) && ListOk(s) && pick < |s.waiters|
    requires s.holder.Some? && s.holder.value < |s.pc| && Signalling(s.pc[s.holder.value])
    ensures var w := s.waiters[pick];
            && w < |s.pc| && s.pc[w].Wait? && s.pc[w].value == 0 && w != s.holder.value
            && SignalOne(s, pick) == s.(waiters := RemoveAt(s.waiters, pick),
                                        pc := s.pc[w := Wait(s.pc[w].mode, 1)])
  {
    var w := s.waiters[pick];
    assert w in s.waiters;
    assert s.pc[w].Queued? ==> s.holder == Some(w);
  }

  lemma StepLock(s: State, t: Tid, pick: nat)
    requires Inv(s) && Enabled(s, t, pick)
    ensures LockOk(Step(s, t, pick))
  {
    hide CountOk, WakeOk;
    if Signalling(s.pc[t]) && s.waiters != [] {
      SignalOneIs(s, pick);
    }
  }

  lemma StepCount(s: State, t: Tid, pick: nat)
    requires Inv(s) && Enabled(s, t, pick)
    ensures CountOk(Step(s, t, pick))
  {
    if Signalling(s.pc[t]) && s.waiters != [] {
      SignalCount(s, t, pick);
    } else {
      PlainCount(s, t, pick);
    }
  }

  lemma SignalCount(s: State, t: Tid, pick: nat)
    requires Inv(s) && Enabled(s, t, pick)
    requires Signalling(s.pc[t]) && s.waiters != []
    ensures CountOk(Step(s, t, pick))
  {
    var s' := Step(s, t, pick);
    SignalOneIs(s, pick);
    var w := s.waiters[pick];
    var pc1 := s.pc[w := Wait(s.pc[w].mode, 1)];
    assert s'.pc == pc1[t := s'.pc[t]];
    forall mode ensures Count(s'.pc, mode) == Count(s.pc, mode) {
      CountUpdate(s.pc, w, pc1[w], mode);
      CountUpdate(pc1, t, s'.pc[t], mode);
    }
  }

  lemma PlainCount(s: State, t: Tid, pick: nat)
    requires CountOk(s) && Enabled(s, t, pick)
    requires !(Signalling(s.pc[t]) && s.waiters != [])
    ensures CountOk(Step(s, t, pick))
  {
    hide Count;
    var s' := Step(s, t, pick);
    var p := s'.pc[t];
    assert s'.pc == s.pc[t := p];
    CountUpdate(s.pc, t, p, Shared);
    CountUpdate(s.pc, t, p, Exclusive);
    if s.pc[t].Update? {
      CountPositive(s.pc, s.pc[t].mode, t);
    }
  }

  lemma StepList(s: State, t: Tid, pick: nat)
    requires Inv(s) && Enabled(s, t, pick)
    ensures ListOk(Step(s, t, pick))
  {
    if Signalling(s.pc[t]) && s.waiters != [] {
      SignalList(s, t, pick);
    } else if s.pc[t].Test? && Blocked(s.pc[t].mode, s.i) {
      QueueList(s, t, pick);
    } else {
      var s' := Step(s, t, pick);
      assert Parked(s'.pc[t]) <==> Parked(s.pc[t]);
    }
  }

  lemma SignalList(s: State, t: Tid, pick: nat)
    requires Inv(s) && Enabled(s, t, pick)
    requires Signalling(s.pc[t]) && s.waiters != []
    ensures ListOk(Step(s, t, pick))
  {
    SignalOneIs(s, pick);
    RemoveAtMembers(s.waiters, pick);
  }

  lemma QueueList(s: State, t: Tid, pick: nat)
    requires Inv(s) && Enabled(s, t, pick)
    requires s.pc[t].Test? && Blocked(s.pc[t].mode, s.i)
    ensures ListOk(Step(s, t, pick))
  {
    var s' := Step(s, t, pick);
    InsertAtMembers(s.waiters, pick, t);
    InsertAtDistinct(s.waiters, pick, t);
  }

  /** A thread in the monitor that is not broadcasting sees a parked reader only
      while a writer has access. */
  lemma ParkedReader(s: State, t: Tid, u: Tid)
    requires Inv(s) && t < |s.pc| && InMonitor(s.pc[t]) && s.pc[t] != Broadcast
    requires u < |s.pc| && Parked(s.pc[u]) && s.pc[u].mode == Shared
    ensures s.i == -1
  {
  }

  lemma StepWake(s: State, t: Tid, pick: nat)
    requires Inv(s) && Enabled(s, t, pick)
    ensures WakeOk(Step(s, t, pick))
  {
    var s' := Step(s, t, pick);
    if s'.i == 0 && s'.waiters != [] {
      var u := WakeWitness(s, t, pick);
    }
    forall u | 0 <= u < |s'.pc| && Parked(s'.pc[u]) && s'.pc[u].mode == Shared
      ensures s'.i == -1 || exists b :: 0 <= b < |s'.pc| && s'.pc[b] == Broadcast
    {
      StepReader(s, t, pick, u);
    }
    forall u | 0 <= u < |s'.pc| && Signalling(s'.pc[u]) ensures s'.i == 0 {
      StepSignalling(s, t, pick, u);
    }
  }

  lemma WakeWitness(s: State, t: Tid, pick: nat) returns (u: Tid)
    requires Inv(s) && Enabled(s, t, pick)
    requires Step(s, t, pick).i == 0 && Step(s, t, pick).waiters != []
    ensures var pc := Step(s, t, pick).pc; u < |pc| && (OnWay(pc[u]) || Signalling(pc[u]))
  {
    if Signalling(s.pc[t]) && s.waiters != [] {
      SignalOneIs(s, pick);
      u := s.waiters[pick];
    } else if s.pc[t].Update? {
      u := t;
    } else {
      u :| 0 <= u < |s.pc| && (OnWay(s.pc[u]) || Signalling(s.pc[u]));
    }
  }

  lemma StepReader(s: State, t: Tid, pick: nat, u: Tid)
    requires Inv(s) && Enabled(s, t, pick)
    requires u < |s.pc| == |Step(s, t, pick).pc|
    requires var p := Step(s, t, pick).pc[u]; Parked(p) && p.mode == Shared
    ensures var s' := Step(s, t, pick);
            s'.i == -1 || exists b :: 0 <= b < |s'.pc| && s'.pc[b] == Broadcast
  {
    var s' := Step(s, t, pick);
    if s.pc[t] == Broadcast || s.pc[t] == Update(Exclusive) {
      if s.waiters != [] && s.pc[t] == Broadcast {
        SignalOneIs(s, pick);
      }
      assert s'.pc[t] == Broadcast;
    } else if u == t {
      assert s.i == -1;
    } else {
      if s.pc[t] == Signal && s.waiters != [] {
        SignalOneIs(s, pick);
      }
      if InMonitor(s.pc[t]) {
        ParkedReader(s, t, u);
        if s.pc[t].Update? {
          CountPositive(s.pc, Shared, t);
        }
      } else if s.i != -1 {
        var b :| 0 <= b < |s.pc| && s.pc[b] == Broadcast;
        assert s'.pc[b] == Broadcast;
      }
    }
  }

  lemma StepSignalling(s: State, t: Tid, pick: nat, u: Tid)
    requires Inv(s) && Enabled(s, t, pick)
    requires u < |s.pc| == |Step(s, t, pick).pc|
    requires Signalling(Step(s, t, pick).pc[u])
    ensures Step(s, t, pick).i == 0
  {
    if Signalling(s.pc[t]) && s.waiters != [] {
      SignalOneIs(s, pick);
    }
  }

  lemma InitInv(s: State)
    requires Init(s)
    ensures Inv(s)
  {
    CountNone(s.pc, Shared);
    CountNone(s.pc, Exclusive);
  }

  lemma CallInv(s: State, s': State)
    requires Inv(s) && Call(s, s')
    ensures Inv(s')
  {
    hide LockOk, ListOk, WakeOk;
    var t :| 0 <= t < |s.pc| && CallBy(s.pc, s'.pc, t);
    var p := s'.pc[t];
    assert s'.pc == s.pc[t := p];
    CallLists(s, s', t);
    CountUpdate(s.pc, t, p, Shared);
    CountUpdate(s.pc, t, p, Exclusive);
    CallWake(s, s', t);
  }

  lemma CallLists(s: State, s': State, t: Tid)
    requires LockOk(s) && ListOk(s)
    requires t < |s.pc| && CallBy(s.pc, s'.pc, t)
    requires s'.holder == s.holder && s'.waiters == s.waiters
    ensures LockOk(s') && ListOk(s')
  {
    assert !InMonitor(s'.pc[t]) && !Parked(s'.pc[t]) && !s'.pc[t].Wait?;
    assert forall u :: 0 <= u < |s.pc| && u != t ==> s'.pc[u] == s.pc[u];
  }

  lemma CallWake(s: State, s': State, t: Tid)
    requires WakeOk(s)
    requires t < |s.pc| && CallBy(s.pc, s'.pc, t)
    requires s'.i == s.i && s'.waiters == s.waiters
    ensures WakeOk(s')
  {
    assert forall u :: 0 <= u < |s.pc| && (OnWay(s.pc[u]) || Signalling(s.pc[u]) || Parked(s.pc[u])) ==>
        s'.pc[u] == s.pc[u];
    if s.i == 0 && s.waiters != [] {
      var u :| 0 <= u < |s.pc| && (OnWay(s.pc[u]) || Signalling(s.pc[u]));
      assert OnWay(s'.pc[u]) || Signalling(s'.pc[u]);
    }
    if u :| 0 <= u < |s.pc| && s.pc[u] == Broadcast {
      assert Signalling(s.pc[u]) && s'.pc[u] == Broadcast;
    }
  }

  lemma StepInv(s: State, t: Tid, pick: nat)
    requires Inv(s) && Enabled(s, t, pick)
    ensures Inv(Step(s, t, pick))
  {
    StepLock(s, t, pick);
    StepList(s, t, pick);
    StepCount(s, t, pick);
    StepWake(s, t, pick);
  }

  lemma {:induction false} BehaviourInv(ss: seq<State>, k: nat)
    requires Behaviour(ss) && k < |ss|
    ensures Inv(ss[k])
  {
    if k == 0 {
      InitInv(ss[0]);
    } else {
      BehaviourInv(ss, k - 1);
      if Call(ss[k - 1], ss[k]) {
        CallInv(ss[k - 1], ss[k]);
      } else {
        var t, pick :| Enabled(ss[k - 1], t, pick) && ss[k] == Step(ss[k - 1], t, pick);
        StepInv(ss[k - 1], t, pick);
      }
    }
  }

  // ----- what every run keeps

  /** The counter is -1 exactly when one writer and no reader has access, and is
      otherwise the number of readers, with no writer. */
  lemma CounterMeansAccess(ss: seq<State>, k: nat)
    requires Behaviour(ss) && k < |ss|
    ensures var s := ss[k];
            && (s.i == -1 <==> Count(s.pc, Exclusive) == 1)
            && (s.i == -1 ==> Count(s.pc, Shared) == 0)
            && (s.i != -1 ==> Count(s.pc, Exclusive) == 0 && s.i == Count(s.pc, Shared))
  {
    BehaviourInv(ss, k);
  }

  /** A writer's access excludes every other thread's. */
  lemma WriterAlone(ss: seq<State>, k: nat, t: Tid, u: Tid)
    requires Behaviour(ss) && k < |ss|
    requires t < |ss[k].pc| && u < |ss[k].pc| && t != u
    requires HasAccess(ss[k].pc[t], Exclusive)
    ensures !HasAccess(ss[k].pc[u], Exclusive) && !HasAccess(ss[k].pc[u], Shared)
  {
    var s := ss[k];
    BehaviourInv(ss, k);
    CountPositive(s.pc, Exclusive, t);
    if HasAccess(s.pc[u], Shared) {
      CountPositive(s.pc, Shared, u);
    }
    if HasAccess(s.pc[u], Exclusive) {
      CountUpdate(s.pc, t, Idle, Exclusive);
      CountPositive(s.pc[t := Idle], Exclusive, u);
    }
  }

  /** No wake-up is lost: when the lock is free, nobody is signalling, and threads
      are parked, a signalled thread is on its way to test the counter; and with
      nobody signalling a reader is parked only while a writer has access. */
  lemma NoLostWakeUp(ss: seq<State>, k: nat)
    requires Behaviour(ss) && k < |ss|
    requires forall t :: 0 <= t < |ss[k].pc| ==> !Signalling(ss[k].pc[t])
    ensures var s := ss[k];
            && (s.i == 0 && s.waiters != [] ==> exists t :: 0 <= t < |s.pc| && OnWay(s.pc[t]))
            && (forall t :: 0 <= t < |s.pc| && Parked(s.pc[t]) && s.pc[t].mode == Shared ==> s.i == -1)
  {
    BehaviourInv(ss, k);
  }

  // ----- a thread gets what it called for

  /** Where a thread stands between calling for access and having given it back. */
  datatype Phase = Outside | Acquiring(mode: Mode) | Granted(mode: Mode) | Inside(mode: Mode) | Releasing(mode: Mode)
    | Finishing

  function PhaseOf(p: Pc): Phase {
    match p
    case Idle => Outside
    case Enter(mode) => Acquiring(mode)
    case Test(mode, _) => Acquiring(mode)
    case Queued(mode) => Acquiring(mode)
    case Wait(mode, _) => Acquiring(mode)
    case Reenter(mode) => Acquiring(mode)
    case Leave(mode) => Granted(mode)
    case Holding(mode) => Inside(mode)
    case Release(mode) => Releasing(mode)
    case Update(mode) => Releasing(mode)
    case _ => Finishing
  }

  /** The phases come in order, and the mode stays the one called for. */
  predicate Follows(a: Phase, b: Phase) {
    b == a ||
    match a
    case Outside => b.Acquiring?
    case Acquiring(mode) => b == Granted(mode)
    case Granted(mode) => b == Inside(mode)
    case Inside(mode) => b == Releasing(mode)
    case Releasing(_) => b == Finishing
    case Finishing => b == Outside
  }

  lemma PhasesFollow(s: State, s': State, u: Tid)
    requires Next(s, s') && u < |s.pc|
    ensures |s'.pc| == |s.pc| && Follows(PhaseOf(s.pc[u]), PhaseOf(s'.pc[u]))
  {
    if Internal(s, s') {
      var t, pick :| Enabled(s, t, pick) && s' == Step(s, t, pick);
      assert |s'.pc| == |s.pc|;
      if u != t {
        assert s'.pc[u] == s.pc[u] || (s.pc[u].Wait? && s'.pc[u] == Wait(s.pc[u].mode, s.pc[u].value + 1));
      }
    }
  }

  /** In every run a thread that called for access in some mode, when it next has access, has
      it in that mode; until then it is still acquiring it. */
  lemma {:induction false} GetsWhatItCalledFor(ss: seq<State>, j: nat, k: nat, u: Tid, mode: Mode)
    requires Behaviour(ss) && j <= k < |ss| && u < |ss[j].pc| && ss[j].pc[u] == Enter(mode)
    requires forall i {:trigger ss[i]} :: j <= i < k ==> u < |ss[i].pc| && !ss[i].pc[u].Holding?
    ensures u < |ss[k].pc|
    ensures PhaseOf(ss[k].pc[u]) == Acquiring(mode) || PhaseOf(ss[k].pc[u]) == Granted(mode) ||
            ss[k].pc[u] == Holding(mode)
  {
    hide Next;
    if j < k {
      GetsWhatItCalledFor(ss, j, k - 1, u, mode);
      assert !ss[k - 1].pc[u].Holding?;
      assert Next(ss[k - 1], ss[k]);
      PhasesFollow(ss[k - 1], ss[k], u);
    }
  }

  /** A shared release that leaves the lock free wakes one waiter, if there is one; an exclusive
      release goes on until nobody waits.  Each wake-up ups the private semaphore of a thread on
      the list and takes it off. */
  lemma ReleaseWakes(s: State, t: Tid, pick: nat)
    requires Inv(s) && Enabled(s, t, pick) && Signalling(s.pc[t])
    ensures var s' := Step(s, t, pick);
      if s.waiters == [] then
        s' == s.(pc := s.pc[t := Done])
      else
        var w := s.waiters[pick];
        && w != t && w < |s.pc| && s.pc[w].Wait? && s.pc[w].value == 0
        && s' == s.(waiters := RemoveAt(s.waiters, pick),
                    pc := s.pc[w := Wait(s.pc[w].mode, 1)][t := if s.pc[t] == Signal then Done else Broadcast])
  {
    if s.waiters != [] {
      SignalOneIs(s, pick);
    }
  }

  /** Giving access back: the counter, and what follows. */
  lemma ReleaseCounts(s: State, t: Tid, pick: nat)
    requires Inv(s) && Enabled(s, t, pick) && s.pc[t].Update?
    ensures var s', p := Step(s, t, pick), s.pc[t].mode;
      && (p == Exclusive ==> s.i == -1 && s' == s.(i := 0, pc := s.pc[t := Broadcast]))
      && (p == Shared ==> s.i > 0 && s' == s.(i := s.i - 1, pc := s.pc[t := if s.i == 1 then Signal else Done]))
  {
    CountPositive(s.pc, s.pc[t].mode, t);
  }

  /** Thread T takes one step, putting itself last where it queues. */
  function StepLast(s: State, t: Tid): State
    requires Enabled(s, t, |s.waiters|)
  {
    Step(s, t, |s.waiters|)
  }

  /** Run alone from a free inner lock, an acquire ends with access and the counter changed to
      say so, exactly if the counter allows that mode; otherwise it ends parked and the counter
      is the same. */
  lemma AcquiresAlone(s: State, t: Tid)
    requires t < |s.pc| && s.pc[t].Enter? && s.holder == None
    ensures Enabled(s, t, |s.waiters|)
    ensures var s1 := StepLast(s, t); Enabled(s1, t, |s1.waiters|)
    ensures var s2 := StepLast(StepLast(s, t), t); Enabled(s2, t, |s2.waiters|)
    ensures var s3 := StepLast(StepLast(StepLast(s, t), t), t);
      match s.pc[t].mode
      case Shared =>
        if s.i >= 0 then s3 == s.(i := s.i + 1, pc := s.pc[t := Holding(Shared)])
        else s3 == s.(waiters := s.waiters + [t], pc := s.pc[t := Wait(Shared, 0)])
      case Exclusive =>
        if s.i == 0 then s3 == s.(i := -1, pc := s.pc[t := Holding(Exclusive)])
        else s3 == s.(waiters := s.waiters + [t], pc := s.pc[t := Wait(Exclusive, 0)])
  {
    assert InsertAt(s.waiters, |s.waiters|, t) == s.waiters + [t];
  }

  // ----- left alone, the lock settles

  /** An upper bound on the steps that a thread at P can still cause by itself,
      with W waiters on the list and N threads in all. */
  function Rank(p: Pc, w: nat, n: nat): nat {
    match p
    case Idle => 0
    case Holding(_) => 0
    case Wait(_, v) => if v == 0 then 0 else 4
    case Enter(_) => 3
    case Reenter(_) => 3
    case Test(_, _) => 2
    case Queued(_) => 1
    case Leave(_) => 1
    case Done => 1
    case Signal => 6
    case Broadcast => 2 + 5 * w
    case Update(_) => 7 + 5 * n
    case Release(_) => 8 + 5 * n
  }

  function RankSum(pc: seq<Pc>, w: nat, n: nat): nat {
    if pc == [] then 0 else Rank(pc[0], w, n) + RankSum(pc[1..], w, n)
  }

  function Pending(s: State): nat {
    RankSum(s.pc, |s.waiters|, |s.pc|)
  }

  lemma {:induction false} RankUpdate(pc: seq<Pc>, t: nat, p: Pc, w: nat, n: nat)
    requires t < |pc|
    ensures RankSum(pc[t := p], w, n) + Rank(pc[t], w, n) == RankSum(pc, w, n) + Rank(p, w, n)
  {
    var q := pc[t := p];
    if t == 0 {
      assert q[1..] == pc[1..];
    } else {
      assert q[1..] == pc[1..][t - 1 := p];
      RankUpdate(pc[1..], t - 1, p, w, n);
    }
  }

  /** The length of the list matters only to a broadcasting thread. */
  lemma {:induction false} RankWaiters(pc: seq<Pc>, w: nat, w': nat, n: nat)
    requires forall t :: 0 <= t < |pc| ==> pc[t] != Broadcast
    ensures RankSum(pc, w, n) == RankSum(pc, w', n)
  {
    if pc != [] {
      assert pc[0] != Broadcast;
      RankWaiters(pc[1..], w, w', n);
    }
  }

  lemma WaitersBounded(s: State)
    requires ListOk(s)
    ensures |s.waiters| <= |s.pc|
  {
    forall k | 0 <= k < |s.waiters| ensures s.waiters[k] < |s.pc| {
      assert s.waiters[k] in s.waiters;
    }
    DistinctBounded(s.waiters, |s.pc|);
  }

  lemma StepSettles(s: State, t: Tid, pick: nat)
    requires Inv(s) && Enabled(s, t, pick)
    ensures Pending(Step(s, t, pick)) < Pending(s)
  {
    hide CountOk, WakeOk, RankSum;
    var s' := Step(s, t, pick);
    var n, w, w' := |s.pc|, |s.waiters|, |s'.waiters|;
    if Signalling(s.pc[t]) && s.waiters != [] {
      SignalSettles(s, t, pick);
    } else {
      var p := s'.pc[t];
      assert s'.pc == s.pc[t := p];
      WaitersBounded(s);
      RankUpdate(s.pc, t, p, w, n);
      if w' != w {
        RankWaiters(s'.pc, w, w', n);
      }
    }
  }

  lemma SignalSettles(s: State, t: Tid, pick: nat)
    requires Inv(s) && Enabled(s, t, pick)
    requires Signalling(s.pc[t]) && s.waiters != []
    ensures Pending(Step(s, t, pick)) < Pending(s)
  {
    hide CountOk, WakeOk, RankSum;
    var s' := Step(s, t, pick);
    var n, w := |s.pc|, |s.waiters|;
    SignalOneIs(s, pick);
    var v := s.waiters[pick];
    var pc1 := s.pc[v := Wait(s.pc[v].mode, 1)];
    var pc2 := pc1[t := Done];
    RankUpdate(s.pc, v, pc1[v], w, n);
    RankUpdate(pc1, t, Done, w, n);
    RankWaiters(pc2, w, w - 1, n);
    RankUpdate(pc2, t, s'.pc[t], w - 1, n);
    assert pc2[t := s'.pc[t]] == s'.pc;
  }

  /** A run in which no thread calls into the lock. */
  ghost predicate Quiet(ss: seq<State>) {
    && |ss| > 0
    && forall k {:trigger ss[k]} :: 0 < k < |ss| ==> Internal(ss[k - 1], ss[k])
  }

  /** Left alone the lock settles: a run without calls is no longer than the
      pending work at its start, which is quadratic in the number of threads. */
  lemma {:induction false} QuietRunsEnd(ss: seq<State>, k: nat)
    requires Quiet(ss) && Inv(ss[0]) && k < |ss|
    ensures k + Pending(ss[k]) <= Pending(ss[0])
    ensures Inv(ss[k])
  {
    if k > 0 {
      QuietRunsEnd(ss, k - 1);
      InternalStep(ss[k - 1], ss[k]);
    }
  }

  lemma InternalStep(s: State, s': State)
    requires Inv(s) && Internal(s, s')
    ensures Inv(s') && Pending(s') < Pending(s)
  {
    var t, pick :| Enabled(s, t, pick) && s' == Step(s, t, pick);
    StepInv(s, t, pick);
    StepSettles(s, t, pick);
  }

  ghost predicate Settled(s: State) {
    forall t, pick :: !Enabled(s, t, pick)
  }

  /** Once settled, nobody who could have access is left parked: no thread waits
      on a free lock, and only writers wait while readers have access. */
  lemma SettledParksNobodyInVain(s: State)
    requires Inv(s) && Settled(s)
    ensures s.holder == None
    ensures forall t :: 0 <= t < |s.pc| ==> s.pc[t].Idle? || s.pc[t].Holding? || Parked(s.pc[t])
    ensures s.i == 0 ==> forall t :: 0 <= t < |s.pc| ==> s.pc[t].Idle?
    ensures forall t :: 0 <= t < |s.pc| && Parked(s.pc[t]) ==> Blocked(s.pc[t].mode, s.i)
  {
    SettledPcs(s);
    CountZero(s.pc);
    assert s.i == 0 ==> s.waiters == [];
    forall t | 0 <= t < |s.pc| && s.pc[t].Holding?
      ensures HasAccess(s.pc[t], Shared) || HasAccess(s.pc[t], Exclusive)
    {
      assert s.pc[t].mode == Shared || s.pc[t].mode == Exclusive;
    }
  }

  lemma SettledPcs(s: State)
    requires Inv(s) && Settled(s)
    ensures s.holder == None
    ensures forall t :: 0 <= t < |s.pc| ==> s.pc[t].Idle? || s.pc[t].Holding? || Parked(s.pc[t])
    ensures forall t :: 0 <= t < |s.pc| ==> !OnWay(s.pc[t]) && !Signalling(s.pc[t])
  {
    forall t | 0 <= t < |s.pc| ensures !InMonitor(s.pc[t]) {
      assert !Enabled(s, t, 0);
    }
    assert s.holder == None;
    forall t | 0 <= t < |s.pc| ensures s.pc[t].Idle? || s.pc[t].Holding? || Parked(s.pc[t]) {
      assert !Enabled(s, t, 0);
    }
  }

  lemma CountZero(pc: seq<Pc>)
    ensures Count(pc, Shared) == 0 ==> forall t :: 0 <= t < |pc| ==> !HasAccess(pc[t], Shared)
    ensures Count(pc, Exclusive) == 0 ==> forall t :: 0 <= t < |pc| ==> !HasAccess(pc[t], Exclusive)
  {
    forall t, mode | 0 <= t < |pc| && HasAccess(pc[t], mode) ensures Count(pc, mode) > 0 {
      CountPositive(pc, mode, t);
    }
  }

  lemma {:induction false} PendingBounded(pc: seq<Pc>, w: nat, n: nat)
    requires w <= n
    ensures RankSum(pc, w, n) <= |pc| * (8 + 5 * n)
  {
    if pc != [] {
      PendingBounded(pc[1..], w, n);
      assert |pc| * (8 + 5 * n) == (|pc| - 1) * (8 + 5 * n) + (8 + 5 * n);
    }
  }

  /** From every reachable state: once no thread calls into the lock any more, at
      most N(5N + 8) steps remain, and when none remains each parked thread is
      waiting for an access that really excludes it. */
  lemma LeftAloneSettles(ss: seq<State>, qs: seq<State>)
    requires Behaviour(ss)
    requires Quiet(qs) && qs[0] == ss[|ss| - 1]
    ensures |qs| - 1 <= |qs[0].pc| * (8 + 5 * |qs[0].pc|)
    ensures var s := qs[|qs| - 1];
            Settled(s) ==>
              forall t :: 0 <= t < |s.pc| && Parked(s.pc[t]) ==> Blocked(s.pc[t].mode, s.i)
  {
    hide Inv, Pending;
    BehaviourInv(ss, |ss| - 1);
    QuietRunsEnd(qs, |qs| - 1);
    InitialPending(qs[0]);
    if Settled(qs[|qs| - 1]) {
      SettledParksNobodyInVain(qs[|qs| - 1]);
    }
  }

  lemma InitialPending(s: State)
    requires ListOk(s)
    ensures Pending(s) <= |s.pc| * (8 + 5 * |s.pc|)
  {
    WaitersBounded(s);
    PendingBounded(s.pc, |s.waiters|, |s.pc|);
  }
}
