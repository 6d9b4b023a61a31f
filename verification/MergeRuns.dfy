/** Sequences under a strict weak order: runs, merging two adjacent runs by moving
    elements forward, and stability. */
module MergeRuns {
  import opened Sequences

  /** The elements at F..L moved to just before the one at B. */
  function MoveSegment<T>(s: seq<T>, b: nat, f: nat, l: nat): (r: seq<T>)
    requires b <= |s| && f <= l <= |s| && (b <= f || l <= b)
    ensures |r| == |s|
  {
    if b <= f then s[..b] + s[f..l] + s[b..f] + s[l..] else s[..f] + s[l..b] + s[f..l] + s[b..]
  }

  lemma SegmentApart<T>(s: seq<T>, f: nat, l: nat)
    requires f <= l <= |s| && Distinct(s)
    ensures Distinct(s[f..l]) && forall i :: 0 <= i < l - f ==> s[f..l][i] !in s[..f] + s[l..]
  {
    var rest := s[..f] + s[l..];
    forall i, j | 0 <= i < l - f && 0 <= j < |rest| ensures s[f..l][i] != rest[j] {
      assert rest[j] == s[if j < f then j else j + (l - f)];
    }
  }

  /** Taking a segment out and putting it back elsewhere is moving it. */
  lemma MoveSegmentRejoins<T>(s: seq<T>, b: nat, f: nat, l: nat)
    requires b <= |s| && f <= l <= |s| && (b < f || l <= b)
    ensures var rest := s[..f] + s[l..];
            var k := if b < f then b else b - (l - f);
            rest[..k] + s[f..l] + rest[k..] == MoveSegment(s, b, f, l)
  {
    var rest := s[..f] + s[l..];
    if b < f {
      assert rest[..b] == s[..b] && rest[b..] == s[b..f] + s[l..];
    } else {
      var k := b - (l - f);
      assert rest[..k] == s[..f] + s[l..b] && rest[k..] == s[b..];
    }
  }

  // ----- strict weak orders

  /** LESS is a strict weak order on the elements of S. */
  ghost predicate WeakOrder<T>(less: (T, T) -> bool, s: set<T>) {
    && (forall x, y :: x in s && y in s && less(x, y) ==> !less(y, x))
    && (forall x, y, z :: x in s && y in s && z in s && !less(x, y) && !less(y, z) ==> !less(x, z))
  }

  ghost predicate Sorted<T>(less: (T, T) -> bool, s: seq<T>) {
    forall i, j :: 0 <= i < j < |s| ==> !less(s[j], s[i])
  }

  /** Elements that compare equal are in the same order in S as in WAS. */
  ghost predicate Stable<T>(less: (T, T) -> bool, was: seq<T>, s: seq<T>) {
    forall i, j :: 0 <= i < j < |s| && !less(s[i], s[j]) ==> Before(was, s[i], s[j]) || less(s[j], s[i])
  }

  /** X occurs in S before Y. */
  ghost predicate Before<T>(s: seq<T>, x: T, y: T) {
    exists i, j :: 0 <= i < j < |s| && s[i] == x && s[j] == y
  }

  ghost predicate Permuted<T>(was: seq<T>, s: seq<T>) {
    multiset(was) == multiset(s)
  }

  /** Descents: the number of elements that are less than the one before. */
  ghost function Descents<T>(less: (T, T) -> bool, s: seq<T>): nat {
    if |s| < 2 then 0
    else Descents(less, s[..|s| - 1]) + (if less(s[|s| - 1], s[|s| - 2]) then 1 else 0)
  }

  /** The number of maximal nondecreasing runs. */
  ghost function Runs<T>(less: (T, T) -> bool, s: seq<T>): nat {
    if s == [] then 0 else 1 + Descents(less, s)
  }

  lemma {:induction false} DescentsSplit<T>(less: (T, T) -> bool, s: seq<T>, k: nat)
    requires k <= |s|
    ensures Descents(less, s) == Descents(less, s[..k]) + Descents(less, s[k..])
                                 + (if 0 < k < |s| && less(s[k], s[k - 1]) then 1 else 0)
    decreases |s|
  {
    var n := |s|;
    if k == n {
      assert s[..k] == s && s[k..] == [];
    } else if n >= 2 {
      var front := s[..n - 1];
      DescentsSplit(less, front, k);
      assert front[..k] == s[..k];
      assert front[k..] == s[k..][..n - 1 - k];
      if k < n - 1 {
        assert s[k..][n - k - 1] == s[n - 1] && s[k..][n - k - 2] == s[n - 2];
      }
    }
  }

  lemma {:induction false} NoDescents<T>(less: (T, T) -> bool, s: seq<T>)
    ensures Descents(less, s) == 0 <==> forall i :: 0 < i < |s| ==> !less(s[i], s[i - 1])
  {
    if |s| >= 2 {
      var n := |s| - 1;
      var front := s[..n];
      NoDescents(less, front);
      assert forall i :: 0 <= i < n ==> front[i] == s[i];
    }
  }

  /** Sorted step by step is sorted. */
  lemma {:induction false} AdjacentSorted<T>(less: (T, T) -> bool, s: seq<T>, all: set<T>)
    requires WeakOrder(less, all) && forall i :: 0 <= i < |s| ==> s[i] in all
    requires forall i :: 0 < i < |s| ==> !less(s[i], s[i - 1])
    ensures Sorted(less, s)
  {
    if |s| >= 2 {
      var n := |s| - 1;
      var front := s[..n];
      assert forall i :: 0 <= i < n ==> front[i] == s[i];
      AdjacentSorted(less, front, all);
      forall i | 0 <= i < n ensures !less(s[n], s[i]) {
        assert !less(s[n], s[n - 1]);
        if i < n - 1 {
          assert !less(front[n - 1], front[i]);
        }
      }
    }
  }

  // ----- merging in place

  /** In the window LO..E everything is in order but the pairs of an element of I..M
      and one of M..E: the two ranges still to be merged. */
  ghost predicate Merging<T>(less: (T, T) -> bool, s: seq<T>, lo: nat, i: nat, m: nat, e: nat)
    requires lo <= i <= m <= e <= |s|
  {
    forall x, y :: lo <= x < y < e && !(i <= x < m <= y) ==> !less(s[y], s[x])
  }

  /** The elements of S between the headers are in ALL. */
  ghost predicate Drawn<T>(s: seq<T>, all: set<T>) {
    forall i :: 0 < i < |s| - 1 ==> s[i] in all
  }

  /** Stable, for the elements between the headers. */
  ghost predicate Steady<T>(less: (T, T) -> bool, was: seq<T>, s: seq<T>) {
    forall i, j :: 0 < i < j < |s| - 1 && !less(s[i], s[j]) && !less(s[j], s[i]) ==> Before(was, s[i], s[j])
  }

  lemma KeepStep<T>(less: (T, T) -> bool, all: set<T>, s: seq<T>, lo: nat, i: nat, m: nat, e: nat)
    requires 0 < lo <= i < m < e < |s| && Merging(less, s, lo, i, m, e)
    requires WeakOrder(less, all) && Drawn(s, all) && !less(s[m], s[i])
    ensures Merging(less, s, lo, i + 1, m, e)
  {
    forall y | m <= y < e ensures !less(s[y], s[i]) {
      assert y > m ==> !less(s[y], s[m]);
    }
  }

  /** Element M moves forward to I. */
  lemma MoveOne<T>(s: seq<T>, i: nat, m: nat)
    requires i <= m < |s|
    ensures var r := MoveSegment(s, i, m, m + 1);
            && |r| == |s| && r[..i] == s[..i] && r[m + 1..] == s[m + 1..] && r[i] == s[m]
            && (forall k :: i < k <= m ==> r[k] == s[k - 1])
            && (forall k :: 0 <= k < i || m < k < |s| ==> r[k] == s[k])
            && multiset(r) == multiset(s)
  {
    var r := MoveSegment(s, i, m, m + 1);
    assert s == s[..i] + s[i..m] + s[m..m + 1] + s[m + 1..];
    assert r == s[..i] + s[m..m + 1] + s[i..m] + s[m + 1..];
  }

  lemma MoveStep<T>(less: (T, T) -> bool, all: set<T>, s: seq<T>, lo: nat, i: nat, m: nat, e: nat)
    requires 0 < lo <= i < m < e < |s| && Merging(less, s, lo, i, m, e)
    requires WeakOrder(less, all) && Drawn(s, all) && less(s[m], s[i])
    ensures Merging(less, MoveSegment(s, i, m, m + 1), lo, i + 1, m + 1, e)
  {
    var r := MoveSegment(s, i, m, m + 1);
    MoveOne(s, i, m);
    forall x, y | lo <= x < y < e && !(i + 1 <= x < m + 1 <= y) ensures !less(r[y], r[x]) {
      if x == i && y <= m {
        assert !less(s[i], s[m]);
        assert y - 1 > i ==> !less(s[y - 1], s[i]);
      } else {
        var x' := if x == i then m else if i < x <= m then x - 1 else x;
        var y' := if y == i then m else if i < y <= m then y - 1 else y;
        assert r[x] == s[x'] && r[y] == s[y'];
      }
    }
  }

  lemma MoveSteady<T>(less: (T, T) -> bool, all: set<T>, was: seq<T>, s: seq<T>, lo: nat, i: nat, m: nat, e: nat)
    requires 0 < lo <= i < m < e < |s| && Merging(less, s, lo, i, m, e)
    requires WeakOrder(less, all) && Drawn(s, all) && less(s[m], s[i]) && Steady(less, was, s)
    ensures Steady(less, was, MoveSegment(s, i, m, m + 1))
  {
    var r := MoveSegment(s, i, m, m + 1);
    MoveOne(s, i, m);
    forall k | i <= k < m ensures less(s[m], s[k]) {
      assert k > i ==> !less(s[k], s[i]);
    }
    forall x, y | 0 < x < y < |r| - 1 && !less(r[x], r[y]) && !less(r[y], r[x]) ensures Before(was, r[x], r[y]) {
      if x != i || m < y {
        var x' := if x == i then m else if i < x <= m then x - 1 else x;
        var y' := if y == i then m else if i < y <= m then y - 1 else y;
        assert r[x] == s[x'] && r[y] == s[y'];
      }
    }
  }

  /** S is NS with the window LO..E partly merged, as far as I and M. */
  ghost predicate MergeState<T>(less: (T, T) -> bool, all: set<T>, was: seq<T>, ns: seq<T>, s: seq<T>,
                                lo: nat, i: nat, m: nat, e: nat) {
    && |s| == |ns| && 0 < lo <= i <= m <= e < |s|
    && Drawn(s, all) && Permuted(ns, s)
    && Merging(less, s, lo, i, m, e) && Steady(less, was, s) && WeakOrder(less, all)
    && s[..lo] == ns[..lo] && s[e..] == ns[e..]
  }

  lemma MergeKeep<T>(less: (T, T) -> bool, all: set<T>, was: seq<T>, ns: seq<T>, s: seq<T>, lo: nat, i: nat, m: nat,
    e: nat)
    requires MergeState(less, all, was, ns, s, lo, i, m, e) && i < m < e && !less(s[m], s[i])
    ensures MergeState(less, all, was, ns, s, lo, i + 1, m, e)
  {
    KeepStep(less, all, s, lo, i, m, e);
  }

  lemma MergeMove<T>(less: (T, T) -> bool, all: set<T>, was: seq<T>, ns: seq<T>, s: seq<T>, lo: nat, i: nat, m: nat,
    e: nat)
    requires MergeState(less, all, was, ns, s, lo, i, m, e) && i < m < e && less(s[m], s[i])
    ensures var r := MoveSegment(s, i, m, m + 1);
            && MergeState(less, all, was, ns, r, lo, i + 1, m + 1, e)
            && |r| == |s| && r[i + 1] == s[i] && r[m + 1] == s[m + 1] && r[e] == s[e]
  {
    var r := MoveSegment(s, i, m, m + 1);
    MoveOne(s, i, m);
    MoveStep(less, all, s, lo, i, m, e);
    MoveSteady(less, all, was, s, lo, i, m, e);
    assert r[..lo] == r[..i][..lo] && s[..lo] == s[..i][..lo];
    assert r[e..] == r[m + 1..][e - m - 1..] && s[e..] == s[m + 1..][e - m - 1..];
  }

  lemma MergeFacts<T>(less: (T, T) -> bool, all: set<T>, was: seq<T>, ns: seq<T>, s: seq<T>, lo: nat, i: nat, m: nat,
    e: nat)
    requires MergeState(less, all, was, ns, s, lo, i, m, e)
    ensures |s| == |ns| && Drawn(s, all) && forall k :: 0 <= k < |s| ==> s[k] in ns
    ensures s[..lo] == ns[..lo] && s[e..] == ns[e..] && Permuted(ns, s) && Steady(less, was, s)
    ensures i == m || m == e ==> forall x, y :: lo <= x < y < e ==> !less(s[y], s[x])
  {
    forall k | 0 <= k < |s| ensures s[k] in ns {
      assert s[k] in multiset(s);
    }
  }

  // ----- one pass over the list

  /** What lies between the headers. */
  function Interior<T>(s: seq<T>): seq<T>
    requires |s| >= 2
  {
    s[1..|s| - 1]
  }

  /** A pass that started on NS has merged COUNT pairs of runs, up to index P. */
  ghost predicate PassState<T>(less: (T, T) -> bool, ns: seq<T>, s: seq<T>, p: nat, count: nat) {
    && |s| == |ns| && 0 < p < |s| && s[p..] == ns[p..]
    && Runs(less, Interior(ns)) == 2 * count + Runs(less, ns[p..|ns| - 1])
    && Runs(less, s[1..p]) <= count
  }

  /** Q ends the run that starts at P in the stretch up to E. */
  ghost predicate RunEnd<T>(less: (T, T) -> bool, s: seq<T>, p: nat, q: nat, e: nat) {
    && p < q <= e <= |s|
    && (forall k :: p < k < q ==> !less(s[k], s[k - 1]))
    && (q < e ==> less(s[q], s[q - 1]))
  }

  lemma RunEndCounts<T>(less: (T, T) -> bool, s: seq<T>, p: nat, q: nat, e: nat)
    requires RunEnd(less, s, p, q, e)
    ensures Runs(less, s[p..e]) == 1 + Runs(less, s[q..e])
  {
    hide Descents;
    var t, k := s[p..e], q - p;
    var run := s[p..q];
    assert t[..k] == run && t[k..] == s[q..e];
    assert forall i :: 0 <= i < |run| ==> run[i] == s[p + i];
    assert Descents(less, run) == 0 by {
      NoDescents(less, run);
    }
    DescentsSplit(less, t, k);
    if q < e {
      assert t[k] == s[q] && t[k - 1] == s[q - 1];
    } else {
      assert e == q;
      assert s[q..e] == [];
      assert t == run;
    }
  }

  /** A sorted stretch adds at most one run. */
  lemma SortedStretch<T>(less: (T, T) -> bool, s: seq<T>, p: nat, r: nat)
    requires 0 < p < r <= |s| && forall k :: p < k < r ==> !less(s[k], s[k - 1])
    ensures Runs(less, s[1..r]) <= Runs(less, s[1..p]) + 1
  {
    hide Descents;
    var t, k := s[1..r], p - 1;
    var run := s[p..r];
    assert t[..k] == s[1..p] && t[k..] == run;
    assert forall i :: 0 <= i < |run| ==> run[i] == s[p + i];
    assert Descents(less, run) == 0 by {
      NoDescents(less, run);
    }
    DescentsSplit(less, t, k);
    if k == 0 {
      assert s[1..p] == [] && t == run;
    }
  }

  lemma SameTail<T>(s: seq<T>, t: seq<T>, p: nat, r: nat, e: nat)
    requires |s| == |t| && p <= r <= e <= |s| && s[p..] == t[p..]
    ensures s[r..e] == t[r..e]
  {
    forall k | r <= k < e ensures s[k] == t[k] {
      assert s[k] == s[p..][k - p] && t[k] == t[p..][k - p];
    }
  }

  lemma PassStarts<T>(less: (T, T) -> bool, ns: seq<T>)
    requires |ns| >= 2
    ensures PassState(less, ns, ns, 1, 0)
  {
    assert ns[1..1] == [];
  }

  lemma PassMerges<T>(less: (T, T) -> bool, ns: seq<T>, s: seq<T>, s': seq<T>, p: nat, q: nat, r: nat, count: nat)
    requires PassState(less, ns, s, p, count)
    requires RunEnd(less, s, p, q, |s| - 1) && RunEnd(less, s, q, r, |s| - 1)
    requires |s'| == |s| && s'[..p] == s[..p] && s'[r..] == s[r..]
    requires forall x, y :: p <= x < y < r ==> !less(s'[y], s'[x])
    ensures PassState(less, ns, s', r, count + 1)
  {
    var e := |s| - 1;
    RunEndCounts(less, s, p, q, e);
    RunEndCounts(less, s, q, r, e);
    SameTail(s, ns, p, p, e);
    SameTail(s, ns, p, r, e);
    SameTail(s, ns, p, r, |s|);
    assert s'[1..p] == s'[..p][1..] && s[1..p] == s[..p][1..];
    SortedStretch(less, s', p, r);
  }

  /** A pass leaves at most half the runs, rounded up, which is what it counts. */
  lemma PassEnds<T>(less: (T, T) -> bool, ns: seq<T>, s: seq<T>, p: nat, count: nat)
    requires PassState(less, ns, s, p, count) && p == |s| - 1
    ensures count == (Runs(less, Interior(ns)) + 1) / 2
    ensures Runs(less, Interior(s)) <= count
  {
    assert ns[p..|ns| - 1] == [];
  }

  lemma PassEndsWithRun<T>(less: (T, T) -> bool, ns: seq<T>, s: seq<T>, p: nat, count: nat)
    requires PassState(less, ns, s, p, count) && RunEnd(less, s, p, |s| - 1, |s| - 1)
    ensures count + 1 == (Runs(less, Interior(ns)) + 1) / 2
    ensures Runs(less, Interior(s)) <= count + 1
  {
    var e := |s| - 1;
    RunEndCounts(less, s, p, e, e);
    assert s[e..e] == [];
    SameTail(s, ns, p, p, e);
    SortedStretch(less, s, p, e);
  }

  /** With at most one run left, the interior is sorted. */
  lemma OneRunSorted<T>(less: (T, T) -> bool, all: set<T>, s: seq<T>)
    requires |s| >= 2 && WeakOrder(less, all) && Drawn(s, all) && Runs(less, Interior(s)) <= 1
    ensures Sorted(less, Interior(s))
  {
    var t := Interior(s);
    NoDescents(less, t);
    assert forall i :: 0 <= i < |t| ==> t[i] == s[i + 1];
    AdjacentSorted(less, t, all);
  }

  /** What holds of the whole node sequence, headers fixed, holds of the interior. */
  lemma InteriorPermuted<T>(ns: seq<T>, s: seq<T>)
    requires |s| == |ns| >= 2 && Permuted(ns, s) && s[0] == ns[0] && s[|s| - 1] == ns[|ns| - 1]
    ensures Permuted(Interior(ns), Interior(s))
  {
    var e := |s| - 1;
    assert s == [s[0]] + Interior(s) + [s[e]];
    assert ns == [ns[0]] + Interior(ns) + [ns[e]];
    assert multiset(s) == multiset{s[0]} + multiset(Interior(s)) + multiset{s[e]};
    assert multiset(ns) == multiset{ns[0]} + multiset(Interior(ns)) + multiset{ns[e]};
    assert multiset(Interior(s)) == multiset(s) - multiset{s[0]} - multiset{s[e]};
    assert multiset(Interior(ns)) == multiset(ns) - multiset{ns[0]} - multiset{ns[e]};
  }

  lemma InteriorStable<T>(less: (T, T) -> bool, was: seq<T>, s: seq<T>)
    requires |s| >= 2 && Steady(less, was, s)
    ensures Stable(less, was, Interior(s))
  {
    var t := Interior(s);
    forall i, j | 0 <= i < j < |t| && !less(t[i], t[j]) ensures Before(was, t[i], t[j]) || less(t[j], t[i]) {
      assert t[i] == s[i + 1] && t[j] == s[j + 1];
    }
  }

  lemma SortStarts<T>(less: (T, T) -> bool, all: set<T>, s: seq<T>)
    requires |s| >= 2 && all == set x | x in Interior(s)
    ensures Steady(less, Interior(s), s) && Drawn(s, all)
  {
    var was := Interior(s);
    forall i, j | 0 < i < j < |s| - 1 ensures Before(was, s[i], s[j]) {
      assert was[i - 1] == s[i] && was[j - 1] == s[j];
    }
    forall i | 0 < i < |s| - 1 ensures s[i] in all {
      assert was[i - 1] == s[i];
    }
  }

  lemma RunsMergeable<T>(less: (T, T) -> bool, all: set<T>, was: seq<T>, s: seq<T>, p: nat, q: nat, r: nat, e: nat)
    requires 0 < p && e < |s| && RunEnd(less, s, p, q, e) && RunEnd(less, s, q, r, e)
    requires WeakOrder(less, all) && Drawn(s, all) && Steady(less, was, s)
    ensures MergeState(less, all, was, s, s, p, p, q, r)
  {
    var a, b := s[p..q], s[q..r];
    AdjacentSorted(less, a, all);
    AdjacentSorted(less, b, all);
    forall x, y | p <= x < y < r && !(p <= x < q <= y) ensures !less(s[y], s[x]) {
      if y < q {
        assert a[x - p] == s[x] && a[y - p] == s[y];
      } else {
        assert b[x - q] == s[x] && b[y - q] == s[y];
      }
    }
  }

  lemma PermutedThrough<T>(a: seq<T>, b: seq<T>, c: seq<T>)
    requires Permuted(a, b) && Permuted(b, c)
    ensures Permuted(a, c) && forall k :: 0 <= k < |c| ==> c[k] in a
  {
    forall k | 0 <= k < |c| ensures c[k] in a {
      assert c[k] in multiset(c);
    }
  }

  /** Inserting before the first element that is greater keeps a sequence sorted. */
  lemma InsertSorted<T>(less: (T, T) -> bool, s: seq<T>, x: T, k: nat)
    requires k <= |s| && Sorted(less, s) && WeakOrder(less, (set y | y in s) + {x})
    requires forall i :: 0 <= i < k ==> !less(x, s[i])
    requires k < |s| ==> less(x, s[k])
    ensures Sorted(less, InsertAt(s, k, x))
  {
    var r := InsertAt(s, k, x);
    assert forall i :: 0 <= i < |r| ==> r[i] == if i < k then s[i] else if i == k then x else s[i - 1];
    forall i, j | 0 <= i < j < |r| ensures !less(r[j], r[i]) {
      if i == k {
        assert less(x, s[k]) && !less(s[k], x);
        assert j - 1 > k ==> !less(s[j - 1], s[k]);
      }
    }
  }

  /** A sorted, stable rearrangement of distinct elements is unique. */
  lemma {:induction false} StableSortUnique<T>(less: (T, T) -> bool, was: seq<T>, s: seq<T>, t: seq<T>, n: nat)
    requires Distinct(was) && Permuted(was, s) && Permuted(was, t) && n <= |s|
    requires Sorted(less, s) && Sorted(less, t) && Stable(less, was, s) && Stable(less, was, t)
    ensures |s| == |t| && s[..n] == t[..n]
  {
    assert |s| == |multiset(s)| == |multiset(t)| == |t|;
    if n > 0 {
      StableSortUnique(less, was, s, t, n - 1);
      var i := n - 1;
      assert s[..n] == s[..i] + [s[i]] && t[..n] == t[..i] + [t[i]];
      if s[i] != t[i] {
        var j := Later(s, t, i);
        var k := Later(t, s, i);
        assert !less(s[j], s[i]) && !less(t[k], t[i]);
        NotBothWays(was, s[i], t[i]);
      }
    }
  }

  lemma NotBothWays<T>(s: seq<T>, x: T, y: T)
    requires Distinct(s)
    ensures !(Before(s, x, y) && Before(s, y, x))
  {
  }

  /** With equal beginnings, the element at I of T is further on in S. */
  lemma Later<T>(s: seq<T>, t: seq<T>, i: nat) returns (j: nat)
    requires multiset(s) == multiset(t) && i < |s| == |t| && s[..i] == t[..i] && s[i] != t[i]
    ensures i < j < |s| && s[j] == t[i]
  {
    TailMultiset(s, i);
    TailMultiset(t, i);
    assert t[i..][0] in multiset(t[i..]);
    assert t[i] in s[i..];
    var d :| 0 <= d < |s[i..]| && s[i..][d] == t[i];
    j := i + d;
  }

  lemma TailMultiset<T>(s: seq<T>, i: nat)
    requires i <= |s|
    ensures multiset(s[i..]) == multiset(s) - multiset(s[..i])
  {
    assert s == s[..i] + s[i..];
  }

  lemma InteriorInsert<T>(ns: seq<T>, k: nat, x: T)
    requires |ns| >= 2 && k < |ns| - 1
    ensures Interior(InsertAt(ns, k + 1, x)) == InsertAt(Interior(ns), k, x)
  {
    var t := Interior(ns);
    var r := InsertAt(ns, k + 1, x);
    assert r == ns[..k + 1] + [x] + ns[k + 1..];
    assert t[..k] == ns[1..k + 1] && t[k..] == ns[k + 1..|ns| - 1];
    assert r[1..k + 1] == ns[1..k + 1] && r[k + 1] == x && r[k + 2..|ns|] == ns[k + 1..|ns| - 1];
    assert r[1..|ns|] == r[1..k + 1] + [r[k + 1]] + r[k + 2..|ns|];
  }

  lemma InteriorRemove<T>(ns: seq<T>, k: nat)
    requires |ns| >= 2 && k < |ns| - 2
    ensures Interior(RemoveAt(ns, k + 1)) == RemoveAt(Interior(ns), k)
  {
    var t := Interior(ns);
    var r := RemoveAt(ns, k + 1);
    assert r == ns[..k + 1] + ns[k + 2..];
    assert t[..k] == ns[1..k + 1] && t[k + 1..] == ns[k + 2..|ns| - 1];
    assert r[1..k + 1] == ns[1..k + 1] && r[k + 1..|ns| - 2] == ns[k + 2..|ns| - 1];
    assert r[1..|ns| - 2] == r[1..k + 1] + r[k + 1..|ns| - 2];
  }

  lemma OrderKept<T>(less: (T, T) -> bool, s: seq<T>, k: nat)
    requires k < |s| && WeakOrder(less, set x | x in s)
    ensures WeakOrder(less, (set x | x in RemoveAt(s, k)) + {s[k]})
  {
    var a, b := (set x | x in RemoveAt(s, k)) + {s[k]}, set x | x in s;
    assert forall x :: x in a ==> x in b;
  }
}
