/** The loops of threads/thread.c and threads/synch.c that change the kernel's state in
    place, each proved to do what the state machine's function for it does. */
module SchedulerLoops {
  import opened Sequences
  import opened Scheduler
  import opened SchedulerInvariant

  class Kernel {
    var st: State

    constructor (st: State)
      ensures this.st == st
    {
      this.st := st;
    }

    /** The scan of list_insert_ordered with thread_cmp: before the first thread of lower
        priority. */
    method InsertionPoint(ts: seq<Tid>, t: Tid) returns (k: nat)
      requires t < |st.threads| && Within(st.threads, ts)
      ensures k == InsertPos(st.threads, ts, t)
    {
      k := 0;
      assert ts[0..] == ts;
      while k < |ts| && st.threads[t].priority <= st.threads[ts[k]].priority
        invariant k <= |ts|
        invariant InsertPos(st.threads, ts, t) == k + InsertPos(st.threads, ts[k..], t)
      {
        assert ts[k..][1..] == ts[k + 1..];
        k := k + 1;
      }
    }

    /** lock_donate: up the chain of holders, at most nine of them.  It fails where the
        kernel would read a freed structure or stop on an assertion. */
    method LockDonate(l: nat, priority: int) returns (ok: bool)
      requires Wf(st) && l < |st.holder|
      modifies this
      ensures Donate(old(st), old(st).holder[l], priority, DONATION_DEPTH) == if ok then Some(st) else None
    {
      hide Reposition, Wf;
      HolderExists(st, l);
      var cur: Option<Tid>, count := st.holder[l], 0;
      while cur.Some? && count < DONATION_DEPTH
        invariant 0 <= count <= DONATION_DEPTH && Wf(st) && (cur.Some? ==> cur.value < |st.threads|)
        invariant Donate(old(st), old(st).holder[l], priority, DONATION_DEPTH) ==
                  Donate(st, cur, priority, DONATION_DEPTH - count)
        decreases DONATION_DEPTH - count
      {
        var t := cur.value;
        if Freed(st, t) {
          return false;
        }
        if st.threads[t].priority >= priority {
          return true;
        }
        if !Linked(st, t) {
          return false;
        }
        WaitsForSomebody(st, t);
        cur := st.threads[t].waitingFor;
        st := Reposition(st, t, priority, true);
        count := count + 1;
      }
      return true;
    }

    /** next_potential_donation: the top waiter of each lock held. */
    method NextPotentialDonation(locks: seq<nat>) returns (best: int)
      requires Wf(st) && forall i :: 0 <= i < |locks| ==> locks[i] < |st.holder|
      ensures best == NextDonation(st, locks)
    {
      best := 0;
      var i := 0;
      while i < |locks|
        invariant 0 <= i <= |locks| && best == NextDonation(st, locks[..i])
      {
        var top := TopPriority(st, st.semas[locks[i]].waiters);
        assert locks[..i + 1][..i] == locks[..i];
        if top > best {
          best := top;
        }
        i := i + 1;
      }
      assert locks[..|locks|] == locks;
    }

    /** thread_update_timers: each sleeper that is due joins the ready list. */
    method UpdateTimers(expired: set<Tid>)
      requires Wf(st)
      modifies this
      ensures st == WakeExpired(old(st), expired, 0)
      ensures st.sleeping == Remaining(old(st).sleeping, expired) && Woke(old(st), st, old(st).sleeping, expired)
    {
      hide Wf, WakeAt, Remaining, Woke;
      WakesExactly(st, expired, 0);
      Untouched(st.sleeping, expired);
      var i := 0;
      while i < |st.sleeping|
        invariant 0 <= i <= |st.sleeping| && Wf(st)
        invariant WakeExpired(old(st), expired, 0) == WakeExpired(st, expired, i)
        decreases |st.sleeping| - i
      {
        if st.sleeping[i] in expired {
          st := WakeAt(st, i);
        } else {
          i := i + 1;
        }
      }
    }
  }

  lemma HolderExists(s: State, l: nat)
    requires Wf(s) && l < |s.holder|
    ensures s.holder[l].Some? ==> s.holder[l].value < |s.threads|
  {
  }

  lemma WaitsForSomebody(s: State, t: Tid)
    requires Wf(s) && t < |s.threads| && Linked(s, t)
    ensures forall p :: |Reposition(s, t, p, true).threads| == |s.threads|
    ensures s.threads[t].waitingFor.Some? ==> s.threads[t].waitingFor.value < |s.threads|
  {
    assert ThreadWf(s, s.threads[t]);
  }

  lemma Untouched(ts: seq<Tid>, expired: set<Tid>)
    ensures ts[0..] == ts && ts[..0] + Remaining(ts, expired) == Remaining(ts, expired)
  {
  }
}
