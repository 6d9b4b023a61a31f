/** The intrusive doubly linked list of lib/kernel/list.c.

    A list owns a head and a tail header; the ghost sequence NODES holds the headers
    and, between them, the elements in order.  Links are rewritten exactly as the
    source does, and every operation is specified on the sequence. */
module LinkedList {
  import opened Sequences
  import opened MergeRuns

  class Elem {
    var prev: Elem?
    var next: Elem?

    constructor ()
      ensures prev == null && next == null
    {
      prev, next := null, null;
    }
  }

  /** The links run through NS in both directions and end in null. */
  ghost predicate Chained(ns: seq<Elem>)
    reads ns
  {
    && |ns| >= 2 && Distinct(ns)
    && ns[0].prev == null && ns[|ns| - 1].next == null
    && (forall i {:trigger ns[i].next} :: 0 <= i < |ns| - 1 ==> ns[i].next == ns[i + 1])
    && (forall i {:trigger ns[i].prev} :: 0 < i < |ns| ==> ns[i].prev == ns[i - 1])
  }

  class List {
    const head: Elem
    const tail: Elem
    ghost var nodes: seq<Elem>

    ghost predicate Valid()
      reads this, nodes
    {
      Chained(nodes) && nodes[0] == head && nodes[|nodes| - 1] == tail
    }

    /** The elements, without the headers. */
    ghost function Elems(): seq<Elem>
      requires |nodes| >= 2
      reads this
    {
      Interior(nodes)
    }

    /** list_init */
    constructor ()
      ensures Valid() && Elems() == []
      ensures fresh(nodes)
    {
      head := new Elem();
      tail := new Elem();
      new;
      head.next := tail;
      tail.prev := head;
      nodes := [head, tail];
    }

    /** list_insert: ELEM goes just before BEFORE, an element or the tail. */
    method Insert(before: Elem, elem: Elem, ghost k: nat)
      requires Valid() && 0 < k < |nodes| && nodes[k] == before && elem !in nodes
      modifies this, nodes, elem
      ensures Valid() && nodes == old(InsertAt(nodes, k, elem))
    {
      ghost var ns := nodes;
      elem.prev := before.prev;
      elem.next := before;
      before.prev.next := elem;
      before.prev := elem;
      assert forall i {:trigger ns[i].next} :: 0 <= i < |ns| - 1 && i != k - 1 ==> ns[i].next == ns[i + 1];
      assert forall i {:trigger ns[i].prev} :: 0 < i < |ns| && i != k ==> ns[i].prev == ns[i - 1];
      nodes := InsertAt(ns, k, elem);
      Joined(ns, k, [elem]);
    }

    /** list_remove: unlinks ELEM and returns the node that followed it. */
    method Remove(elem: Elem, ghost k: nat) returns (next: Elem)
      requires Valid() && 0 < k < |nodes| - 1 && nodes[k] == elem
      modifies this, nodes
      ensures Valid() && nodes == old(RemoveAt(nodes, k)) && next == old(nodes[k + 1])
    {
      ghost var ns := nodes;
      next := Unhook(elem, elem, k, k + 1);
      nodes := RemoveAt(ns, k);
      Closed(ns, k, k + 1);
    }

    /** Ties the neighbours of the nodes from FIRST to FINAL together, past them; returns
        the one after. */
    method Unhook(first: Elem, final: Elem, ghost f: nat, ghost l: nat) returns (next: Elem)
      requires Valid() && 0 < f < l < |nodes| && nodes[f] == first && nodes[l - 1] == final
      modifies nodes
      ensures next == nodes[l] && nodes[f - 1].next == nodes[l] && nodes[l].prev == nodes[f - 1]
      ensures nodes[0].prev == null && nodes[|nodes| - 1].next == null
      ensures forall i {:trigger nodes[i].next} :: 0 <= i < |nodes| - 1 && i != f - 1 ==> nodes[i].next == nodes[i + 1]
      ensures forall i {:trigger nodes[i].prev} :: 0 < i < |nodes| && i != l ==> nodes[i].prev == nodes[i - 1]
    {
      next := final.next;
      first.prev.next := next;
      next.prev := first.prev;
    }

    /** The first half of list_splice: takes the nodes from FIRST to FINAL out of the
        list, leaving them linked to each other. */
    method Detach(first: Elem, final: Elem, ghost f: nat, ghost l: nat)
      requires Valid() && 0 < f < l < |nodes| && nodes[f] == first && nodes[l - 1] == final
      modifies this, nodes
      ensures Valid() && nodes == old(nodes[..f] + nodes[l..])
      ensures Inner(old(nodes[f..l]))
    {
      ghost var ns := nodes;
      var next := Unhook(first, final, f, l);
      nodes := ns[..f] + ns[l..];
      Closed(ns, f, l);
    }

    /** The second half of list_splice: puts the nodes in SEG just before BEFORE. */
    method Attach(before: Elem, first: Elem, final: Elem, ghost b: nat, ghost seg: seq<Elem>)
      requires Valid() && 0 < b < |nodes| && nodes[b] == before
      requires Inner(seg) && seg[0] == first && seg[|seg| - 1] == final
      requires Distinct(seg) && forall i :: 0 <= i < |seg| ==> seg[i] !in nodes
      modifies this, nodes, seg
      ensures Valid() && nodes == old(nodes[..b] + seg + nodes[b..])
    {
      ghost var ns := nodes;
      Hook(before, first, final, b, seg);
      nodes := ns[..b] + seg + ns[b..];
      Joined(ns, b, seg);
    }

    /** Ties the ends of SEG to BEFORE and to the node it follows. */
    method Hook(before: Elem, first: Elem, final: Elem, ghost b: nat, ghost seg: seq<Elem>)
      requires Valid() && 0 < b < |nodes| && nodes[b] == before
      requires Inner(seg) && seg[0] == first && seg[|seg| - 1] == final
      requires Distinct(seg) && forall i :: 0 <= i < |seg| ==> seg[i] !in nodes
      modifies nodes, seg
      ensures Inner(seg) && seg[0].prev == nodes[b - 1] && seg[|seg| - 1].next == nodes[b]
      ensures nodes[b - 1].next == seg[0] && nodes[b].prev == seg[|seg| - 1]
      ensures nodes[0].prev == null && nodes[|nodes| - 1].next == null
      ensures forall i {:trigger nodes[i].next} :: 0 <= i < |nodes| - 1 && i != b - 1 ==> nodes[i].next == nodes[i + 1]
      ensures forall i {:trigger nodes[i].prev} :: 0 < i < |nodes| && i != b ==> nodes[i].prev == nodes[i - 1]
    {
      first.prev := before.prev;
      final.next := before;
      assert Chained(nodes) && Inner(seg) && first.prev == nodes[b - 1] && final.next == before;
      assert nodes[b - 1] !in seg && before !in seg;
      before.prev.next := first;
      before.prev := final;
    }

    /** list_splice within one list: the elements from FIRST up to but not including
        LAST move to just before BEFORE, which lies outside them. */
    method Splice(before: Elem, first: Elem, last: Elem, ghost b: nat, ghost f: nat, ghost l: nat)
      requires Valid() && 0 < b < |nodes| && 0 < f <= l < |nodes|
      requires nodes[b] == before && nodes[f] == first && nodes[l] == last
      requires b < f || l <= b
      modifies this, nodes
      ensures Valid() && nodes == old(MoveSegment(nodes, b, f, l))
    {
      ghost var ns := nodes;
      if first == last {
        assert MoveSegment(ns, b, f, l) == ns;
        return;
      }
      var final := last.prev;
      SegmentApart(ns, f, l);
      Detach(first, final, f, l);
      ghost var b1 := if b < f then b else b - (l - f);
      Attach(before, first, final, b1, ns[f..l]);
      MoveSegmentRejoins(ns, b, f, l);
    }

    /** list_splice from another list. */
    method SpliceFrom(other: List, before: Elem, first: Elem, last: Elem, ghost b: nat, ghost f: nat, ghost l: nat)
      requires Valid() && other.Valid() && other != this && forall i :: 0 <= i < |nodes| ==> nodes[i] !in other.nodes
      requires 0 < b < |nodes| && nodes[b] == before
      requires 0 < f <= l < |other.nodes| && other.nodes[f] == first && other.nodes[l] == last
      modifies this, nodes, other, other.nodes
      ensures Valid() && nodes == old(nodes[..b] + other.nodes[f..l] + nodes[b..])
      ensures other.Valid() && other.nodes == old(other.nodes[..f] + other.nodes[l..])
    {
      ghost var ns, os, seg := nodes, other.nodes, other.nodes[f..l];
      if first == last {
        other.SameIndex(f, l);
        Uncut(ns, b);
        Uncut(os, f);
        return;
      }
      var final := last.prev;
      Parts(ns, os, f, l);
      other.Detach(first, final, f, l);
      assert Valid();
      Attach(before, first, final, b, seg);
      assert Chained(other.nodes);
    }

    /** The loop of list_reverse: swaps the links of every element. */
    method TurnLinks()
      requires Valid()
      modifies nodes
      ensures nodes == old(nodes) && head.next == old(head.next) && tail.prev == old(tail.prev)
      ensures head.prev == null && tail.next == null
      ensures forall i {:trigger nodes[i].prev} {:trigger nodes[i].next} :: 0 < i < |nodes| - 1 ==>
        nodes[i].prev == nodes[i + 1] && nodes[i].next == nodes[i - 1]
    {
      ghost var ns := nodes;
      ghost var k, n := 1, |ns| - 1;
      var e := head.next;
      while e != tail
        invariant 0 < k <= n && e == ns[k]
        invariant forall i {:trigger ns[i].prev} {:trigger ns[i].next} :: 0 < i < k ==>
          ns[i].prev == ns[i + 1] && ns[i].next == ns[i - 1]
        invariant forall i {:trigger ns[i].prev} {:trigger ns[i].next} :: k <= i < n ==>
          ns[i].prev == ns[i - 1] && ns[i].next == ns[i + 1]
        invariant ns[0].next == ns[1] && ns[0].prev == null && ns[n].prev == ns[n - 1] && ns[n].next == null
        decreases n - k
      {
        assert forall i :: 0 <= i <= n && i != k ==> ns[i] != e;
        e.prev, e.next := e.next, e.prev;
        e, k := e.prev, k + 1;
      }
    }

    /** list_reverse: after the elements, the headers' links and those to them. */
    method Reverse()
      requires Valid()
      modifies this, nodes
      ensures Valid() && Elems() == Reversed(old(Elems()))
    {
      if head.next == tail {
        SameIndex(1, |nodes| - 1);
        assert Elems() == [];
        return;
      }
      ghost var ns := nodes;
      ghost var n := |ns| - 1;
      assert head.next == ns[1] && tail.prev == ns[n - 1] && n > 1;
      TurnLinks();
      head.next, tail.prev := tail.prev, head.next;
      assert head.next == ns[n - 1] && tail.prev == ns[1];
      var x, y := head.next.prev, tail.prev.next;
      head.next.prev := y;
      tail.prev.next := x;
      nodes := [head] + Reversed(Interior(ns)) + [tail];
      assert forall i {:trigger ns[i].next} :: 1 < i < n ==> ns[i].next == ns[i - 1];
      assert forall i {:trigger ns[i].prev} :: 0 < i < n - 1 ==> ns[i].prev == ns[i + 1];
      ReversedChain(ns);
      assert Interior(nodes) == Reversed(Interior(ns));
    }

    /** list_insert_ordered: ELEM goes before the first element it is less than, so
        after those it compares equal to, and the list stays sorted. */
    method InsertOrdered(elem: Elem, less: (Elem, Elem) -> bool) returns (ghost k: nat)
      requires Valid() && elem !in nodes
      requires Sorted(less, Elems()) && WeakOrder(less, (set x | x in Elems()) + {elem})
      modifies this, nodes, elem
      ensures Valid() && k <= |old(Elems())| && Elems() == InsertAt(old(Elems()), k, elem)
      ensures forall i :: 0 <= i < k ==> !less(elem, old(Elems()[i]))
      ensures k < |old(Elems())| ==> less(elem, old(Elems()[k]))
      ensures Sorted(less, Elems())
    {
      hide Sorted, WeakOrder;
      var e := head.next;
      k := 0;
      while e != tail && !less(elem, e)
        invariant k < |nodes| - 1 && e == nodes[k + 1]
        invariant forall i :: 0 <= i < k ==> !less(elem, Elems()[i])
        decreases |nodes| - k
      {
        e, k := e.next, k + 1;
      }
      ghost var es := Elems();
      if e == tail {
        SameIndex(k + 1, |nodes| - 1);
      }
      InsertSorted(less, es, elem, k);
      InteriorInsert(nodes, k, elem);
      Insert(e, elem, k + 1);
    }

    /** list_update_elem: ELEM, whose order may have changed, moves to its new place, after
        those of the others it compares equal to. */
    method UpdateElem(elem: Elem, less: (Elem, Elem) -> bool, ghost k: nat) returns (ghost j: nat)
      requires Valid() && k < |Elems()| && Elems()[k] == elem
      requires Sorted(less, RemoveAt(Elems(), k)) && WeakOrder(less, set x | x in Elems())
      modifies this, nodes
      ensures Valid() && j < |old(Elems())| && Elems() == InsertAt(RemoveAt(old(Elems()), k), j, elem)
      ensures forall i :: 0 <= i < j ==> !less(elem, RemoveAt(old(Elems()), k)[i])
      ensures j < |old(Elems())| - 1 ==> less(elem, RemoveAt(old(Elems()), k)[j])
      ensures Sorted(less, Elems())
    {
      ghost var es := Elems();
      InteriorRemove(nodes, k);
      RemoveAtMembers(nodes, k + 1);
      OrderKept(less, es, k);
      var next := Remove(elem, k + 1);
      j := InsertOrdered(elem, less);
    }

    /** find_end_of_run: the end of the run of nondecreasing elements that starts at A,
        or B if the run reaches it. */
    method FindEndOfRun(a: Elem, b: Elem, less: (Elem, Elem) -> bool, ghost i: nat, ghost e: nat)
      returns (r: Elem, ghost j: nat)
      requires Valid() && 0 < i < e < |nodes| && nodes[i] == a && nodes[e] == b
      ensures RunEnd(less, nodes, i, j, e) && nodes[j] == r
    {
      r, j := a.next, i + 1;
      while r != b && !less(r, r.prev)
        invariant i < j <= e && nodes[j] == r
        invariant forall k :: i < k < j ==> !less(nodes[k], nodes[k - 1])
        decreases e - j
      {
        r, j := r.next, j + 1;
      }
    }

    lemma NextIs(i: nat)
      requires Valid() && i < |nodes| - 1
      ensures nodes[i].next == nodes[i + 1] && nodes[i + 1].prev == nodes[i]
    {
    }

    lemma Headed()
      requires Valid()
      ensures |nodes| >= 2 && head.next == nodes[1] && nodes[0] == head && nodes[|nodes| - 1] == tail
      ensures Permuted(nodes, nodes)
    {
    }

    lemma SameIndex(i: nat, j: nat)
      requires Valid() && i < |nodes| && j < |nodes| && nodes[i] == nodes[j]
      ensures i == j
    {
    }

    /** The step of inplace_merge that moves the element at index M to index I. */
    method MoveForward(a0: Elem, a1b0: Elem, ghost i: nat, ghost m: nat) returns (next: Elem)
      requires Valid() && 0 < i < m < |nodes| - 1 && nodes[i] == a0 && nodes[m] == a1b0
      modifies this, nodes
      ensures Valid() && nodes == old(MoveSegment(nodes, i, m, m + 1)) && next == old(nodes[m + 1])
    {
      next := a1b0.next;
      Splice(a0, next.prev, next, i, m, m + 1);
    }

    /** inplace_merge: merges the sorted ranges LO..MID and MID..E of the list in place. */
    method InplaceMerge(a0_: Elem, a1b0_: Elem, b1: Elem, less: (Elem, Elem) -> bool,
                        ghost lo: nat, ghost mid: nat, ghost e: nat, ghost all: set<Elem>, ghost was: seq<Elem>)
      requires Valid() && 0 < lo <= mid <= e < |nodes|
      requires nodes[lo] == a0_ && nodes[mid] == a1b0_ && nodes[e] == b1
      requires MergeState(less, all, was, nodes, nodes, lo, lo, mid, e)
      modifies this, nodes
      ensures Valid() && |nodes| == |old(nodes)| && Drawn(nodes, all)
      ensures nodes[..lo] == old(nodes[..lo]) && nodes[e..] == old(nodes[e..])
      ensures Permuted(old(nodes), nodes) && Steady(less, was, nodes)
      ensures forall x, y :: lo <= x < y < e ==> !less(nodes[y], nodes[x])
    {
      hide MergeState, MoveSegment, Steady, Permuted, Merging, WeakOrder, Drawn, Chained;
      var a0, a1b0 := a0_, a1b0_;
      ghost var i, m, ns := lo, mid, nodes;
      MergeFacts(less, all, was, ns, nodes, lo, i, m, e);
      while a0 != a1b0 && a1b0 != b1
        invariant Valid() && |nodes| == |ns| && forall k :: 0 <= k < |nodes| ==> nodes[k] in ns
        invariant lo <= i <= m <= e && nodes[i] == a0 && nodes[m] == a1b0 && nodes[e] == b1
        invariant MergeState(less, all, was, ns, nodes, lo, i, m, e)
        decreases e - i
      {
        if !less(a1b0, a0) {
          MergeKeep(less, all, was, ns, nodes, lo, i, m, e);
          NextIs(i);
          a0, i := a0.next, i + 1;
        } else {
          MergeMove(less, all, was, ns, nodes, lo, i, m, e);
          a1b0 := MoveForward(a0, a1b0, i, m);
          i, m := i + 1, m + 1;
          MergeFacts(less, all, was, ns, nodes, lo, i, m, e);
        }
      }
      if a0 == a1b0 {
        SameIndex(i, m);
      } else {
        SameIndex(m, e);
      }
      MergeFacts(less, all, was, ns, nodes, lo, i, m, e);
    }

    /** One pass of list_sort: merges adjacent runs two by two and counts the runs
        it leaves, half of those there were, rounded up. */
    method Pass(less: (Elem, Elem) -> bool, ghost all: set<Elem>, ghost was: seq<Elem>) returns (count: nat)
      requires Valid() && WeakOrder(less, all) && Drawn(nodes, all) && Steady(less, was, nodes)
      modifies this, nodes
      ensures Valid() && |nodes| == |old(nodes)| && forall k :: 0 <= k < |nodes| ==> nodes[k] in old(nodes)
      ensures Permuted(old(nodes), nodes) && Drawn(nodes, all) && Steady(less, was, nodes)
      ensures count == (Runs(less, old(Elems())) + 1) / 2
      ensures nodes[0] == head && nodes[|nodes| - 1] == tail && Runs(less, Elems()) <= count
    {
      hide WeakOrder, Drawn, Steady, Permuted, Chained, PassState, RunEnd, MergeState, Runs;
      ghost var ns := nodes;
      Headed();
      count := 0;
      var a0 := head.next;
      ghost var p := 1;
      PassStarts(less, ns);
      while a0 != tail
        invariant Valid() && |nodes| == |ns| && forall k :: 0 <= k < |nodes| ==> nodes[k] in ns
        invariant Permuted(ns, nodes) && Drawn(nodes, all) && Steady(less, was, nodes)
        invariant 0 < p < |nodes| && nodes[p] == a0
        invariant PassState(less, ns, nodes, p, count)
        decreases |ns| - p
      {
        var a1b0, q := FindEndOfRun(a0, tail, less, p, |nodes| - 1);
        if a1b0 == tail {
          SameIndex(q, |nodes| - 1);
          PassEndsWithRun(less, ns, nodes, p, count);
          count := count + 1;
          return;
        }
        var b1, r := FindEndOfRun(a1b0, tail, less, q, |nodes| - 1);
        ghost var s := nodes;
        RunsMergeable(less, all, was, s, p, q, r, |nodes| - 1);
        InplaceMerge(a0, a1b0, b1, less, p, q, r, all, was);
        PassMerges(less, ns, s, nodes, p, q, r, count);
        PermutedThrough(ns, s, nodes);
        count := count + 1;
        a0, p := b1, r;
      }
      SameIndex(p, |nodes| - 1);
      PassEnds(less, ns, nodes, p, count);
    }

    /** list_sort: a stable sort by any strict weak order.  It ends because each pass
        counts at most half the runs of the one before, rounded up. */
    method Sort(less: (Elem, Elem) -> bool)
      requires Valid() && WeakOrder(less, set x | x in Elems())
      modifies this, nodes
      ensures Valid() && Permuted(old(Elems()), Elems())
      ensures Sorted(less, Elems()) && Stable(less, old(Elems()), Elems())
    {
      hide WeakOrder, Drawn, Steady, Permuted, Runs, Chained, Sorted, Stable;
      Headed();
      ghost var ns, was := nodes, Elems();
      assert ns[0] == head && ns[|ns| - 1] == tail;
      ghost var all := set x | x in was;
      SortStarts(less, all, ns);
      var count := Pass(less, all, was);
      while count > 1
        invariant Valid() && |nodes| == |ns| && forall k :: 0 <= k < |nodes| ==> nodes[k] in ns
        invariant Permuted(ns, nodes) && Drawn(nodes, all) && Steady(less, was, nodes)
        invariant nodes[0] == head && nodes[|nodes| - 1] == tail && Runs(less, Elems()) <= count
        decreases count
      {
        ghost var s := nodes;
        count := Pass(less, all, was);
        PermutedThrough(ns, s, nodes);
      }
      OneRunSorted(less, all, nodes);
      InteriorPermuted(ns, nodes);
      InteriorStable(less, was, nodes);
    }
  }

  lemma Uncut<T>(s: seq<T>, k: nat)
    requires k <= |s|
    ensures s[..k] + s[k..k] + s[k..] == s && s[..k] + s[k..] == s
  {
  }

  /** The part of OS from F to L, and the rest of it, lie apart from each other and from NS. */
  lemma Parts<T>(ns: seq<T>, os: seq<T>, f: nat, l: nat)
    requires Distinct(os) && f <= l <= |os| && forall i :: 0 <= i < |ns| ==> ns[i] !in os
    ensures var seg, rest := os[f..l], os[..f] + os[l..];
      && Distinct(seg) && (forall i :: 0 <= i < |seg| ==> seg[i] !in ns && seg[i] !in rest)
      && (forall i :: 0 <= i < |rest| ==> rest[i] !in ns && rest[i] !in seg)
  {
    var seg, rest := os[f..l], os[..f] + os[l..];
    assert forall i :: 0 <= i < |rest| ==> rest[i] == os[if i < f then i else i + (l - f)];
  }

  /** With every link turned round, the elements form a chain in reverse order. */
  lemma ReversedChain(ns: seq<Elem>)
    requires |ns| > 2 && Distinct(ns) && ns[0].prev == null && ns[|ns| - 1].next == null
    requires forall i {:trigger ns[i].next} :: 1 < i < |ns| - 1 ==> ns[i].next == ns[i - 1]
    requires forall i {:trigger ns[i].prev} :: 0 < i < |ns| - 2 ==> ns[i].prev == ns[i + 1]
    requires ns[0].next == ns[|ns| - 2] && ns[|ns| - 2].prev == ns[0]
    requires ns[|ns| - 1].prev == ns[1] && ns[1].next == ns[|ns| - 1]
    ensures Chained([ns[0]] + Reversed(Interior(ns)) + [ns[|ns| - 1]])
  {
    var n := |ns| - 1;
    var r := [ns[0]] + Reversed(Interior(ns)) + [ns[n]];
    ReversedAt(Interior(ns));
    assert |r| == |ns|;
    forall i | 0 <= i < |r| ensures r[i] == ns[if i == 0 || i == n then i else n - i] {
      if 0 < i < n {
        assert r[i] == Reversed(Interior(ns))[i - 1] == Interior(ns)[n - 1 - i];
      }
    }
    forall i, j | 0 <= i < j < |r| ensures r[i] != r[j] {
      assert r[i] == ns[if i == 0 || i == n then i else n - i] && r[j] == ns[if j == 0 || j == n then j else n - j];
    }
    forall i | 0 <= i < |r| - 1 ensures r[i].next == r[i + 1] && r[i + 1].prev == r[i] {
    }
  }

  /** With the link from F-1 to L closed, the nodes outside F..L form a chain, and
      those inside stay linked. */
  lemma Closed(ns: seq<Elem>, f: nat, l: nat)
    requires 0 < f < l < |ns| && Distinct(ns)
    requires ns[0].prev == null && ns[|ns| - 1].next == null
    requires forall i {:trigger ns[i].next} :: 0 <= i < |ns| - 1 && i != f - 1 ==> ns[i].next == ns[i + 1]
    requires forall i {:trigger ns[i].prev} :: 0 < i < |ns| && i != l ==> ns[i].prev == ns[i - 1]
    requires ns[f - 1].next == ns[l] && ns[l].prev == ns[f - 1]
    ensures Chained(ns[..f] + ns[l..])
    ensures Inner(ns[f..l])
  {
    var r, d := ns[..f] + ns[l..], l - f;
    assert forall i :: 0 <= i < |r| ==> r[i] == ns[if i < f then i else i + d];
    forall i | 0 <= i < |r| - 1 ensures r[i].next == r[i + 1] && r[i + 1].prev == r[i] {
      if i < f - 1 {
        assert r[i] == ns[i] && r[i + 1] == ns[i + 1];
      } else if i == f - 1 {
        assert r[i] == ns[f - 1] && r[i + 1] == ns[l];
      } else {
        assert r[i] == ns[i + d] && r[i + 1] == ns[i + d + 1];
      }
    }
  }

  lemma Joined(ns: seq<Elem>, b: nat, seg: seq<Elem>)
    requires 0 < b < |ns| && Inner(seg) && Distinct(ns) && Distinct(seg) && forall i :: 0 <= i < |seg| ==> seg[i] !in ns
    requires ns[0].prev == null && ns[|ns| - 1].next == null
    requires forall i {:trigger ns[i].next} :: 0 <= i < |ns| - 1 && i != b - 1 ==> ns[i].next == ns[i + 1]
    requires forall i {:trigger ns[i].prev} :: 0 < i < |ns| && i != b ==> ns[i].prev == ns[i - 1]
    requires ns[b - 1].next == seg[0] && seg[0].prev == ns[b - 1]
    requires ns[b].prev == seg[|seg| - 1] && seg[|seg| - 1].next == ns[b]
    ensures Chained(ns[..b] + seg + ns[b..])
  {
    var r := ns[..b] + seg + ns[b..];
    SegmentDistinct(ns, b, seg);
    forall i | 0 <= i < |r| - 1 ensures r[i].next == r[i + 1] && r[i + 1].prev == r[i] {
      if i < b - 1 {
        assert r[i] == ns[i] && r[i + 1] == ns[i + 1];
      } else if i == b - 1 {
        assert r[i] == ns[i] && r[i + 1] == seg[0];
      } else if i < b + |seg| - 1 {
        assert r[i] == seg[i - b] && r[i + 1] == seg[i - b + 1];
      } else if i == b + |seg| - 1 {
        assert r[i] == seg[i - b] && r[i + 1] == ns[b];
      } else {
        assert r[i] == ns[i - |seg|] && r[i + 1] == ns[i - |seg| + 1];
      }
    }
  }

  /** Linked to each other in this order. */
  ghost predicate Inner(seg: seq<Elem>)
    reads seg
  {
    && |seg| > 0
    && (forall i {:trigger seg[i].next} :: 0 <= i < |seg| - 1 ==> seg[i].next == seg[i + 1])
    && (forall i {:trigger seg[i].prev} :: 0 < i < |seg| ==> seg[i].prev == seg[i - 1])
  }
}
