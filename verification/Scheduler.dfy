/** The thread scheduler, semaphores and locks of threads/thread.c and
    threads/synch.c as one state machine.

    Each action is one section of kernel code that runs with interrupts off.
    Threads are numbered by creation; thread 0 is the idle thread.  The first
    |holder| semaphores are those embedded in locks: lock L owns semaphore L. */
module Scheduler {
  import opened Sequences

  type Tid = nat

  const PRI_MIN := 0
  const PRI_DEFAULT := 31
  const PRI_MAX := 63
  const IDLE: Tid := 0

  /** initial_thread */
  const MAIN: Tid := 1

  /** A list kept in priority order. */
  datatype ListId = Ready | Waiters(sema: nat)

  datatype Status = Running | Runnable | Blocked | Dying

  /** Where a thread continues when it next runs: in its own code, or at the top
      of the loop in sema_down. */
  datatype Cont = Own | Down(sema: nat)

  datatype Thread = Thread(
    status: Status,
    priority: int,
    original: int,
    donated: bool,
    pl: Option<ListId>,         // the priority list that links the thread
    stamp: nat,                 // when it was last linked into one
    waitingFor: Option<Tid>,
    held: seq<nat>,             // acquired locks
    cont: Cont)

  /** INITIAL, UPS and DOWNS record the semaphore's history. */
  datatype Sema = Sema(value: nat, waiters: seq<Tid>, initial: nat, ups: nat, downs: nat)

  datatype State = State(
    threads: seq<Thread>,
    ready: seq<Tid>,
    sleeping: seq<Tid>,
    semas: seq<Sema>,
    holder: seq<Option<Tid>>,
    current: Tid,
    clock: nat,
    mlfqs: bool)

  // ----- priority lists

  predicate IsList(s: State, l: ListId) {
    l.Waiters? ==> l.sema < |s.semas|
  }

  function List(s: State, l: ListId): seq<Tid>
    requires IsList(s, l)
  {
    match l
    case Ready => s.ready
    case Waiters(k) => s.semas[k].waiters
  }

  function SetList(s: State, l: ListId, ts: seq<Tid>): State
    requires IsList(s, l)
  {
    match l
    case Ready => s.(ready := ts)
    case Waiters(k) => s.(semas := s.semas[k := s.semas[k].(waiters := ts)])
  }

  predicate Within(threads: seq<Thread>, ts: seq<Tid>) {
    forall i :: 0 <= i < |ts| ==> ts[i] < |threads|
  }

  /** Where list_insert_ordered puts thread T: before the first element of strictly
      lower priority. */
  function InsertPos(threads: seq<Thread>, ts: seq<Tid>, t: Tid): (k: nat)
    requires t < |threads| && Within(threads, ts)
    ensures k <= |ts|
  {
    if ts == [] || threads[t].priority > threads[ts[0]].priority then
      0
    else
      1 + InsertPos(threads, ts[1..], t)
  }

  /** Links T into priority list L. */
  function Link(s: State, l: ListId, t: Tid): State
    requires IsList(s, l) && t < |s.threads| && Within(s.threads, List(s, l))
  {
    var ts := List(s, l);
    var s1 := SetList(s, l, InsertAt(ts, InsertPos(s.threads, ts, t), t));
    s1.(threads := s.threads[t := s.threads[t].(pl := Some(l), stamp := s.clock)], clock := s.clock + 1)
  }

  /** Unlinks the element at index K of priority list L. */
  function Unlink(s: State, l: ListId, k: nat): State
    requires IsList(s, l) && k < |List(s, l)| && List(s, l)[k] < |s.threads|
  {
    var t := List(s, l)[k];
    var s1 := SetList(s, l, RemoveAt(List(s, l), k));
    s1.(threads := s.threads[t := s.threads[t].(pl := None)])
  }

  /** A leaves the list before B: higher priority, or equal and linked earlier. */
  predicate Precedes(a: Thread, b: Thread) {
    a.priority > b.priority || (a.priority == b.priority && a.stamp < b.stamp)
  }

  predicate Ordered(threads: seq<Thread>, ts: seq<Tid>)
    requires Within(threads, ts)
  {
    forall i, j :: 0 <= i < j < |ts| ==> Precedes(threads[ts[i]], threads[ts[j]])
  }

  /** List L is in order and links exactly threads that name it. */
  predicate ListOk(s: State, l: ListId)
    requires IsList(s, l)
  {
    var ts := List(s, l);
    && Within(s.threads, ts)
    && Ordered(s.threads, ts)
    && forall i :: 0 <= i < |ts| ==> s.threads[ts[i]].pl == Some(l) && s.threads[ts[i]].stamp < s.clock
  }

  ghost predicate ListsOk(s: State) {
    && (forall l :: IsList(s, l) ==> ListOk(s, l))
    && (forall t :: 0 <= t < |s.threads| && s.threads[t].pl.Some? ==>
          IsList(s, s.threads[t].pl.value) && t in List(s, s.threads[t].pl.value))
  }

  lemma OrderedDistinct(threads: seq<Thread>, ts: seq<Tid>)
    requires Within(threads, ts) && Ordered(threads, ts)
    ensures Distinct(ts)
  {
  }

  lemma {:induction false} InsertPosSplits(threads: seq<Thread>, ts: seq<Tid>, t: Tid)
    requires t < |threads| && Within(threads, ts) && Ordered(threads, ts)
    ensures var k := InsertPos(threads, ts, t);
            && (forall i :: 0 <= i < k ==> threads[ts[i]].priority >= threads[t].priority)
            && (forall i :: k <= i < |ts| ==> threads[ts[i]].priority < threads[t].priority)
  {
    if ts == [] || threads[t].priority > threads[ts[0]].priority {
    } else {
      var rest := ts[1..];
      assert forall i, j :: 0 <= i < j < |rest| ==> rest[i] == ts[i + 1] && rest[j] == ts[j + 1];
      InsertPosSplits(threads, rest, t);
      var k := InsertPos(threads, rest, t);
      forall i | 0 <= i < k + 1 ensures threads[ts[i]].priority >= threads[t].priority {
        if i > 0 {
          assert ts[i] == rest[i - 1];
        }
      }
      forall i | k + 1 <= i < |ts| ensures threads[ts[i]].priority < threads[t].priority {
        assert ts[i] == rest[i - 1];
      }
    }
  }

  lemma InsertKeepsOrder(threads: seq<Thread>, ts: seq<Tid>, t: Tid, l: ListId, now: nat)
    requires t < |threads| && Within(threads, ts) && Ordered(threads, ts) && t !in ts
    requires forall i :: 0 <= i < |ts| ==> threads[ts[i]].stamp < now
    ensures var threads' := threads[t := threads[t].(pl := Some(l), stamp := now)];
            var ts' := InsertAt(ts, InsertPos(threads, ts, t), t);
            Within(threads', ts') && Ordered(threads', ts')
  {
    hide InsertPos;
    var k := InsertPos(threads, ts, t);
    var threads' := threads[t := threads[t].(pl := Some(l), stamp := now)];
    var ts' := InsertAt(ts, k, t);
    InsertPosSplits(threads, ts, t);
    InsertedOrder(threads, threads', ts, ts', t, k);
  }

  lemma InsertedOrder(threads: seq<Thread>, threads': seq<Thread>, ts: seq<Tid>, ts': seq<Tid>, t: Tid, k: nat)
    requires t < |threads| == |threads'| && Within(threads, ts) && Ordered(threads, ts) && t !in ts
    requires k <= |ts| && ts' == InsertAt(ts, k, t)
    requires forall u :: 0 <= u < |threads| && u != t ==> threads'[u] == threads[u]
    requires forall i :: 0 <= i < k ==> Precedes(threads[ts[i]], threads'[t])
    requires forall i :: k <= i < |ts| ==> Precedes(threads'[t], threads[ts[i]])
    ensures Within(threads', ts') && Ordered(threads', ts')
  {
    hide Precedes;
    forall i | 0 <= i < |ts'| && i != k
      ensures ts'[i] == ts[if i < k then i else i - 1] != t && threads'[ts'[i]] == threads[ts'[i]]
    {
      assert ts[if i < k then i else i - 1] in ts;
    }
    forall i, j | 0 <= i < j < |ts'| ensures Precedes(threads'[ts'[i]], threads'[ts'[j]]) {
      if i == k {
        assert threads'[ts'[j]] == threads[ts[j - 1]];
      } else if j == k {
        assert threads'[ts'[i]] == threads[ts[i]];
      } else {
        var i', j' := if i < k then i else i - 1, if j < k then j else j - 1;
        assert Precedes(threads[ts[i']], threads[ts[j']]);
      }
    }
  }

  lemma SetListOthers(s: State, l: ListId, ts: seq<Tid>)
    requires IsList(s, l)
    ensures List(SetList(s, l, ts), l) == ts
    ensures forall m :: IsList(s, m) && m != l ==> List(SetList(s, l, ts), m) == List(s, m)
  {
  }

  lemma LinkOrders(s: State, l: ListId, t: Tid)
    requires IsList(s, l) && ListOk(s, l) && t < |s.threads| && s.threads[t].pl == None
    ensures ListOk(Link(s, l, t), l)
  {
    var ts := List(s, l);
    var k := InsertPos(s.threads, ts, t);
    var ts' := InsertAt(ts, k, t);
    assert t !in ts;
    SetListOthers(s, l, ts');
    var s' := Link(s, l, t);
    assert List(s', l) == ts';
    assert s'.threads == s.threads[t := s.threads[t].(pl := Some(l), stamp := s.clock)];
    assert Within(s'.threads, ts') && Ordered(s'.threads, ts') by {
      InsertKeepsOrder(s.threads, ts, t, l, s.clock);
    }
    LinkedNames(s.threads, ts, t, l, s.clock, k);
  }

  lemma LinkedNames(threads: seq<Thread>, ts: seq<Tid>, t: Tid, l: ListId, now: nat, k: nat)
    requires t < |threads| && Within(threads, ts) && t !in ts && k <= |ts|
    requires forall i :: 0 <= i < |ts| ==> threads[ts[i]].pl == Some(l) && threads[ts[i]].stamp < now
    ensures var threads' := threads[t := threads[t].(pl := Some(l), stamp := now)];
            var ts' := InsertAt(ts, k, t);
            forall i :: 0 <= i < |ts'| ==>
              ts'[i] < |threads'| && threads'[ts'[i]].pl == Some(l) && threads'[ts'[i]].stamp < now + 1
  {
    var ts' := InsertAt(ts, k, t);
    assert forall i :: 0 <= i < |ts'| ==> ts'[i] == if i < k then ts[i] else if i == k then t else ts[i - 1];
  }

  /** What a change to list L and to thread T leaves of the other lists. */
  lemma OtherListKept(s: State, s': State, l: ListId, t: Tid, m: ListId)
    requires IsList(s, l) && IsList(s, m) && m != l && ListOk(s, m)
    requires IsList(s', m) && List(s', m) == List(s, m)
    requires t < |s.threads| == |s'.threads| && s.threads[t].pl != Some(m) && s'.clock >= s.clock
    requires forall u :: 0 <= u < |s.threads| && u != t ==> s'.threads[u] == s.threads[u]
    ensures ListOk(s', m)
  {
    var ts := List(s, m);
    assert forall i :: 0 <= i < |ts| ==> ts[i] != t;
  }

  lemma LinkKeepsLists(s: State, l: ListId, t: Tid)
    requires ListsOk(s) && IsList(s, l) && t < |s.threads| && s.threads[t].pl == None
    ensures Within(s.threads, List(s, l))
    ensures ListsOk(Link(s, l, t))
  {
    assert ListOk(s, l);
    var s' := Link(s, l, t);
    var ts := List(s, l);
    var k := InsertPos(s.threads, ts, t);
    InsertAtMembers(ts, k, t);
    SetListOthers(s, l, InsertAt(ts, k, t));
    LinkOrders(s, l, t);
    forall m | IsList(s', m) ensures ListOk(s', m) {
      if m != l {
        assert ListOk(s, m);
        OtherListKept(s, s', l, t, m);
      }
    }
    forall u | 0 <= u < |s'.threads| && s'.threads[u].pl.Some?
      ensures IsList(s', s'.threads[u].pl.value) && u in List(s', s'.threads[u].pl.value)
    {
      if u != t {
        assert s'.threads[u] == s.threads[u];
        assert IsList(s, s.threads[u].pl.value);
      }
    }
  }

  lemma UnlinkOrders(s: State, l: ListId, k: nat)
    requires IsList(s, l) && ListOk(s, l) && k < |List(s, l)|
    ensures ListOk(Unlink(s, l, k), l)
  {
    var ts := List(s, l);
    var ts' := RemoveAt(ts, k);
    var s' := Unlink(s, l, k);
    SetListOthers(s, l, ts');
    OrderedDistinct(s.threads, ts);
    assert List(s', l) == ts';
    assert forall i :: 0 <= i < |ts'| ==> ts'[i] == ts[if i < k then i else i + 1];
    RemovedOrder(s.threads, s'.threads, ts, ts', k);
  }

  lemma RemovedOrder(threads: seq<Thread>, threads': seq<Thread>, ts: seq<Tid>, ts': seq<Tid>, k: nat)
    requires Within(threads, ts) && Ordered(threads, ts) && Distinct(ts) && k < |ts| == |ts'| + 1
    requires forall i :: 0 <= i < |ts'| ==> ts'[i] == ts[if i < k then i else i + 1]
    requires |threads'| == |threads| && forall u :: 0 <= u < |threads| && u != ts[k] ==> threads'[u] == threads[u]
    ensures Within(threads', ts') && Ordered(threads', ts')
    ensures forall i :: 0 <= i < |ts'| ==> threads'[ts'[i]] == threads[ts'[i]]
  {
    forall i, j | 0 <= i < j < |ts'| ensures Precedes(threads'[ts'[i]], threads'[ts'[j]]) {
      var i', j' := if i < k then i else i + 1, if j < k then j else j + 1;
      assert Precedes(threads[ts[i']], threads[ts[j']]);
    }
  }

  lemma UnlinkKeepsLists(s: State, l: ListId, k: nat)
    requires ListsOk(s) && IsList(s, l) && k < |List(s, l)|
    ensures List(s, l)[k] < |s.threads|
    ensures ListsOk(Unlink(s, l, k))
  {
    var ts := List(s, l);
    var t := ts[k];
    assert ListOk(s, l);
    var s' := Unlink(s, l, k);
    OrderedDistinct(s.threads, ts);
    RemoveAtMembers(ts, k);
    SetListOthers(s, l, RemoveAt(ts, k));
    UnlinkOrders(s, l, k);
    forall m | IsList(s', m) ensures ListOk(s', m) {
      if m != l {
        assert ListOk(s, m);
        OtherListKept(s, s', l, t, m);
      }
    }
    forall u | 0 <= u < |s'.threads| && s'.threads[u].pl.Some?
      ensures IsList(s', s'.threads[u].pl.value) && u in List(s', s'.threads[u].pl.value)
    {
      assert s'.threads[u] == s.threads[u];
      assert IsList(s, s.threads[u].pl.value);
    }
  }

  /** Changes that leave the lists, the clock, and the rank of every linked thread. */
  predicate SameLists(s: State, s': State) {
    && s'.ready == s.ready && s'.clock == s.clock
    && |s'.semas| == |s.semas|
    && (forall k :: 0 <= k < |s.semas| ==> s'.semas[k].waiters == s.semas[k].waiters)
    && |s'.threads| == |s.threads|
    && (forall t :: 0 <= t < |s.threads| ==>
          && s'.threads[t].pl == s.threads[t].pl
          && (s.threads[t].pl.Some? ==>
                s'.threads[t].priority == s.threads[t].priority && s'.threads[t].stamp == s.threads[t].stamp))
  }

  lemma SameListsKeeps(s: State, s': State)
    requires ListsOk(s) && SameLists(s, s')
    ensures ListsOk(s')
  {
    forall l | IsList(s', l) ensures ListOk(s', l) {
      assert IsList(s, l) && ListOk(s, l);
      assert List(s', l) == List(s, l);
    }
    forall t | 0 <= t < |s'.threads| && s'.threads[t].pl.Some?
      ensures IsList(s', s'.threads[t].pl.value) && t in List(s', s'.threads[t].pl.value)
    {
      var l := s.threads[t].pl.value;
      assert IsList(s, l) && t in List(s, l);
    }
  }

  // ----- the kernel's operations

  predicate ThreadWf(s: State, th: Thread) {
    && (th.waitingFor.Some? ==> th.waitingFor.value < |s.threads|)
    && (th.cont.Down? ==> th.cont.sema < |s.semas|)
    && forall i :: 0 <= i < |th.held| ==> th.held[i] < |s.holder|
  }

  /** Every reference is to something that exists. */
  predicate Wf(s: State) {
    && 0 < |s.threads| && s.current < |s.threads| && |s.holder| <= |s.semas|
    && Within(s.threads, s.ready) && Within(s.threads, s.sleeping)
    && (forall k :: 0 <= k < |s.semas| ==> Within(s.threads, s.semas[k].waiters))
    && (forall l :: 0 <= l < |s.holder| && s.holder[l].Some? ==> s.holder[l].value < |s.threads|)
    && (forall t :: 0 <= t < |s.threads| ==> ThreadWf(s, s.threads[t]))
  }

  function Set(s: State, t: Tid, th: Thread): State
    requires t < |s.threads|
  {
    s.(threads := s.threads[t := th])
  }

  function SetStatus(s: State, t: Tid, status: Status): State
    requires t < |s.threads|
  {
    Set(s, t, s.threads[t].(status := status))
  }

  /** thread_list_top_pri */
  function TopPriority(s: State, ts: seq<Tid>): int
    requires Within(s.threads, ts)
  {
    if ts == [] then PRI_MIN else s.threads[ts[0]].priority
  }

  /** schedule, with next_thread_to_run */
  function Schedule(s: State): (s': State)
    requires Wf(s)
    ensures Wf(s')
  {
    if s.ready == [] then
      SetStatus(s, IDLE, Running).(current := IDLE)
    else
      var t := s.ready[0];
      SetStatus(Unlink(s, Ready, 0), t, Running).(current := t)
  }

  /** thread_block */
  function Block(s: State): (s': State)
    requires Wf(s)
    ensures Wf(s')
  {
    Schedule(SetStatus(s, s.current, Blocked))
  }

  /** thread_yield */
  function Yield(s: State): (s': State)
    requires Wf(s)
    ensures Wf(s')
  {
    var s1 := if s.current == IDLE then s else Link(s, Ready, s.current);
    Schedule(SetStatus(s1, s.current, Runnable))
  }

  /** thread_unblock; INTR says that interrupts were on when it was called */
  function Unblock(s: State, t: Tid, intr: bool): (s': State)
    requires Wf(s) && t < |s.threads|
    ensures Wf(s')
  {
    LinkWf(s, Ready, t);
    var s0 := Link(s, Ready, t);
    SetWf(s0, t, s0.threads[t].(status := Runnable));
    var s1 := SetStatus(s0, t, Runnable);
    if intr && s1.threads[s1.current].priority < TopPriority(s1, s1.ready) then Yield(s1) else s1
  }

  /** The current thread joins the waiters of semaphore K. */
  function Enqueued(s: State, k: nat): (s': State)
    requires Wf(s) && k < |s.semas|
    ensures Wf(s')
  {
    var s1 := Link(s, Waiters(k), s.current);
    Set(s1, s.current, s1.threads[s.current].(cont := Down(k)))
  }

  /** The current thread takes a unit of semaphore K and leaves the loop. */
  function Taken(s: State, k: nat): (s': State)
    requires Wf(s) && k < |s.semas| && s.semas[k].value > 0
    ensures Wf(s')
  {
    var m := s.semas[k];
    var s1 := s.(semas := s.semas[k := m.(value := m.value - 1, downs := m.downs + 1)]);
    Set(s1, s.current, s1.threads[s.current].(cont := Own))
  }

  /** One pass of the loop in sema_down, by the current thread.  When the down of
      a lock's semaphore completes, give_lock follows at once. */
  function DownPass(s: State, k: nat): (s': State)
    requires Wf(s) && k < |s.semas|
    ensures Wf(s')
  {
    if s.semas[k].value == 0 then
      Block(Enqueued(s, k))
    else if k < |s.holder| then
      GiveLock(Taken(s, k), k, s.current)
    else
      Taken(s, k)
  }

  /** give_lock */
  function GiveLock(s: State, l: nat, t: Tid): (s': State)
    requires Wf(s) && l < |s.holder| && t < |s.threads|
    ensures Wf(s')
  {
    var th := s.threads[t];
    Set(s, t, th.(waitingFor := None, held := th.held + [l])).(holder := s.holder[l := Some(t)])
  }

  /** sema_try_down, and lock_try_acquire for a lock's semaphore */
  function TryDown(s: State, k: nat): (s': State)
    requires Wf(s) && k < |s.semas|
    ensures Wf(s')
  {
    if s.semas[k].value > 0 then DownPass(s, k) else s
  }

  /** A unit is added to semaphore K. */
  function Upped(s: State, k: nat): (s': State)
    requires Wf(s) && k < |s.semas|
    ensures Wf(s')
  {
    var m := s.semas[k];
    s.(semas := s.semas[k := m.(value := m.value + 1, ups := m.ups + 1)])
  }

  /** sema_up */
  function Up(s: State, k: nat, intr: bool): (s': State)
    requires Wf(s) && k < |s.semas|
    ensures Wf(s')
  {
    var s1 := Upped(s, k);
    var ts := s1.semas[k].waiters;
    if ts == [] then s1 else Unblock(Unlink(s1, Waiters(k), 0), ts[0], intr)
  }

  function IndexOf<T(==)>(ts: seq<T>, t: T): (k: nat)
    requires t in ts
    ensures k < |ts| && ts[k] == t
  {
    if ts[0] == t then 0 else 1 + IndexOf(ts[1..], t)
  }

  predicate Linked(s: State, t: Tid)
    requires t < |s.threads|
  {
    var pl := s.threads[t].pl;
    pl.Some? && IsList(s, pl.value) && t in List(s, pl.value)
  }

  /** Changes the priority of a linked thread and moves it to its new place, as
      list_update_elem does. */
  function Reposition(s: State, t: Tid, priority: int, donated: bool): (s': State)
    requires Wf(s) && t < |s.threads| && Linked(s, t)
    ensures Wf(s') && |s'.threads| == |s.threads| && |s'.semas| == |s.semas| && |s'.holder| == |s.holder|
  {
    var l := s.threads[t].pl.value;
    var k := IndexOf(List(s, l), t);
    UnlinkWf(s, l, k);
    var s1 := Unlink(s, l, k);
    var s2 := Set(s1, t, s1.threads[t].(priority := priority, donated := donated));
    SetWf(s1, t, s2.threads[t]);
    LinkWf(s2, l, t);
    Link(s2, l, t)
  }

  lemma UnlinkWf(s: State, l: ListId, k: nat)
    requires Wf(s) && IsList(s, l) && k < |List(s, l)|
    ensures Within(s.threads, List(s, l))
    ensures Wf(Unlink(s, l, k))
  {
    var s' := Unlink(s, l, k);
    forall t | 0 <= t < |s.threads| ensures ThreadWf(s', s'.threads[t]) {
      assert ThreadWf(s, s.threads[t]);
    }
  }

  lemma LinkWf(s: State, l: ListId, t: Tid)
    requires Wf(s) && IsList(s, l) && t < |s.threads|
    ensures Within(s.threads, List(s, l))
    ensures Wf(Link(s, l, t))
  {
    var s' := Link(s, l, t);
    forall u | 0 <= u < |s.threads| ensures ThreadWf(s', s'.threads[u]) {
      assert ThreadWf(s, s.threads[u]);
    }
  }

  lemma SetWf(s: State, t: Tid, th: Thread)
    requires Wf(s) && t < |s.threads|
    requires th.waitingFor == s.threads[t].waitingFor || (th.waitingFor.Some? ==> th.waitingFor.value < |s.threads|)
    requires th.cont == s.threads[t].cont && th.held == s.threads[t].held
    ensures Wf(Set(s, t, th))
  {
    var s' := Set(s, t, th);
    forall u | 0 <= u < |s.threads| ensures ThreadWf(s', s'.threads[u]) {
      assert ThreadWf(s, s.threads[u]);
    }
  }

  lemma CanFollow(s: State, t: Tid)
    requires Wf(s) && t < |s.threads|
    ensures s.threads[t].waitingFor.Some? ==> s.threads[t].waitingFor.value < |s.threads|
  {
    assert ThreadWf(s, s.threads[t]);
  }

  /** T has exited and the page that held its structure has been freed, as all are but the
      initial thread's. */
  predicate Freed(s: State, t: Tid)
    requires t < |s.threads|
  {
    s.threads[t].status == Dying && t != MAIN
  }

  /** lock_donate from thread CUR on, with N more threads allowed.  The result is None if it
      goes wrong: it follows a pointer to a thread structure that has been freed, or a thread
      that must be raised is not linked in a priority list, which fails an assertion. */
  function Donate(s: State, cur: Option<Tid>, priority: int, n: nat): (r: Option<State>)
    requires Wf(s) && (cur.Some? ==> cur.value < |s.threads|)
    ensures r.Some? ==> Wf(r.value) && |r.value.semas| == |s.semas| && |r.value.holder| == |s.holder|
    decreases n
  {
    hide Reposition, Wf;
    if cur == None || n == 0 then
      Some(s)
    else
      var t := cur.value;
      if Freed(s, t) then
        None
      else if s.threads[t].priority >= priority then
        Some(s)
      else if !Linked(s, t) then
        None
      else
        CanFollow(s, t);
        Donate(Reposition(s, t, priority, true), s.threads[t].waitingFor, priority, n - 1)
  }

  const DONATION_DEPTH: nat := 9

  /** lock_acquire up to the point where the thread has the lock or sleeps. */
  function Acquire(s: State, l: nat): (r: Option<State>)
    requires Wf(s) && l < |s.holder|
    ensures r.Some? ==> Wf(r.value)
  {
    var t := s.current;
    var th := s.threads[t];
    if s.semas[l].value > 0 then
      Some(DownPass(s, l))
    else if s.holder[l] == None then
      None
    else
      var h := s.holder[l].value;
      var s1 := Set(s, t, th.(waitingFor := Some(h)));
      SetWf(s, t, s1.threads[t]);
      var r := if th.priority > s1.threads[h].priority && !s.mlfqs
               then Donate(s1, Some(h), th.priority, DONATION_DEPTH) else Some(s1);
      if r == None then None else Some(DownPass(r.value, l))
  }

  function Without(locks: seq<nat>, l: nat): (r: seq<nat>)
    ensures forall i :: 0 <= i < |r| ==> r[i] in locks
  {
    if l in locks then RemoveAt(locks, IndexOf(locks, l)) else locks
  }

  /** next_potential_donation */
  function NextDonation(s: State, locks: seq<nat>): int
    requires Wf(s) && forall i :: 0 <= i < |locks| ==> locks[i] < |s.holder|
  {
    if locks == [] then
      0
    else
      var n := |locks| - 1;
      var best := NextDonation(s, locks[..n]);
      var top := TopPriority(s, s.semas[locks[n]].waiters);
      if top > best then top else best
  }

  /** The priority of the thread that releases a lock, with LOCKS still held. */
  function ReleasedThread(s: State, th: Thread, locks: seq<nat>): Thread
    requires Wf(s) && forall i :: 0 <= i < |locks| ==> locks[i] < |s.holder|
  {
    if s.mlfqs then
      th.(held := locks)
    else if locks != [] && th.original < NextDonation(s, locks) then
      th.(held := locks, priority := NextDonation(s, locks), donated := true)
    else
      th.(held := locks, priority := th.original, donated := false)
  }

  /** lock_release */
  function Release(s: State, l: nat, intr: bool): (s': State)
    requires Wf(s) && l < |s.holder|
    ensures Wf(s')
  {
    var t := s.current;
    var th := s.threads[t];
    assert ThreadWf(s, th);
    var locks := Without(th.held, l);
    var s1 := Set(s, t, ReleasedThread(s, th, locks)).(holder := s.holder[l := None]);
    Up(s1, l, intr)
  }

  /** thread_set_priority */
  function SetPriority(s: State, priority: int): (s': State)
    requires Wf(s)
    ensures Wf(s')
  {
    if s.mlfqs then
      s
    else
      var t := s.current;
      var th := s.threads[t].(original := priority);
      var th' := if !th.donated then th.(priority := priority)
                 else if th.priority < priority then th.(priority := priority, donated := false)
                 else th;
      var s1 := Set(s, t, th');
      if th'.priority < TopPriority(s1, s1.ready) then Yield(s1) else s1
  }

  /** thread_sleep */
  function Sleep(s: State): (s': State)
    requires Wf(s)
    ensures Wf(s')
  {
    Block(s.(sleeping := s.sleeping + [s.current]))
  }

  /** thread_update_timers from index I of the sleeping list on */
  function WakeExpired(s: State, expired: set<Tid>, i: nat): (s': State)
    requires Wf(s) && i <= |s.sleeping|
    ensures Wf(s')
    decreases |s.sleeping| - i
  {
    if i == |s.sleeping| then
      s
    else if s.sleeping[i] in expired then
      WakeExpired(WakeAt(s, i), expired, i)
    else
      WakeExpired(s, expired, i + 1)
  }

  function WakeAt(s: State, i: nat): (s': State)
    requires Wf(s) && i < |s.sleeping|
    ensures Wf(s') && |s'.sleeping| == |s.sleeping| - 1
  {
    var t := s.sleeping[i];
    var s1 := s.(sleeping := RemoveAt(s.sleeping, i));
    SetStatus(Link(s1, Ready, t), t, Runnable)
  }

  /** thread_create */
  function Create(s: State, priority: int, intr: bool): (s': State)
    requires Wf(s)
    ensures Wf(s')
  {
    var p := if s.mlfqs then PRI_DEFAULT else priority;
    var s1 := s.(threads := s.threads + [Thread(Blocked, p, p, false, None, 0, None, [], Own)]);
    CreateWf(s, s1);
    Unblock(s1, |s.threads|, intr)
  }

  lemma CreateWf(s: State, s1: State)
    requires Wf(s)
    requires |s1.threads| == |s.threads| + 1
    requires s1.threads[..|s.threads|] == s.threads
    requires s1.threads[|s.threads|].held == [] && s1.threads[|s.threads|].waitingFor == None
    requires s1.threads[|s.threads|].cont == Own
    requires s1 == s.(threads := s1.threads)
    ensures Wf(s1)
  {
    forall t | 0 <= t < |s1.threads| ensures ThreadWf(s1, s1.threads[t]) {
      if t < |s.threads| {
        assert s1.threads[t] == s.threads[t] && ThreadWf(s, s.threads[t]);
      }
    }
  }

  /** The effect of thread_calculate_priority on a thread, for the feedback-queue
      scheduler. */
  function Recalculate(s: State, t: Tid, priority: int): (s': State)
    requires Wf(s) && t < |s.threads| && (s.threads[t].pl.Some? ==> Linked(s, t))
    ensures Wf(s')
  {
    if s.threads[t].pl.Some? then
      Reposition(s, t, priority, s.threads[t].donated)
    else
      Set(s, t, s.threads[t].(priority := priority))
  }

  /** thread_set_nice, with the priority that the new nice gives */
  function SetNice(s: State, priority: int): (s': State)
    requires Wf(s) && (s.threads[s.current].pl.Some? ==> Linked(s, s.current))
    ensures Wf(s')
  {
    var s1 := Recalculate(s, s.current, priority);
    if s1.threads[s1.current].priority < TopPriority(s1, s1.ready) then Yield(s1) else s1
  }

  /** thread_exit */
  function Exit(s: State): (s': State)
    requires Wf(s)
    ensures Wf(s')
  {
    Schedule(Set(s, s.current, s.threads[s.current].(pl := None, status := Dying)))
  }
}
