/** sort and binary_search of lib/stdlib.c, with the 1-based indexes of the source. */
module HeapSort {
  import opened Sequences

  /** COMPARE gives strcmp-type results of a total preorder. */
  ghost predicate Preorder<T(!new)>(compare: (T, T) -> int) {
    && (forall a, b :: compare(a, b) > 0 <==> compare(b, a) < 0)
    && (forall a, b, c :: compare(a, b) <= 0 && compare(b, c) <= 0 ==> compare(a, c) <= 0)
  }

  ghost predicate Sorted<T>(compare: (T, T) -> int, s: seq<T>) {
    forall i, j :: 0 <= i < j < |s| ==> compare(s[i], s[j]) <= 0
  }

  /** The element at P is not below the one at C. */
  ghost predicate Above<T>(compare: (T, T) -> int, s: seq<T>, p: nat, c: nat)
    requires 0 < p <= |s| && 0 < c <= |s|
  {
    compare(s[c - 1], s[p - 1]) <= 0
  }

  /** Among the first CNT elements, those at I and after are not below their children,
      except perhaps the one at HOLE. */
  ghost predicate HeapBut<T>(compare: (T, T) -> int, s: seq<T>, i: nat, cnt: nat, hole: nat)
    requires cnt <= |s| && i > 0
  {
    forall c: nat {:trigger c / 2} :: i <= c / 2 && c <= cnt && c / 2 != hole ==> Above(compare, s, c / 2, c)
  }

  /** With a hole, its parent is above its children. */
  ghost predicate Bridged<T>(compare: (T, T) -> int, s: seq<T>, i: nat, cnt: nat, hole: nat)
    requires cnt <= |s| && i > 0
  {
    forall c: nat {:trigger c / 2} :: i <= hole / 2 && c / 2 == hole && 0 < c <= cnt ==> Above(compare, s, hole / 2, c)
  }

  /** The hole at the top has no parent to bridge it with. */
  lemma Unbridged<T>(compare: (T, T) -> int, s: seq<T>, i: nat, cnt: nat)
    requires cnt <= |s| && i > 0
    ensures Bridged(compare, s, i, cnt, i)
  {
  }

  function Swapped<T>(s: seq<T>, x: nat, y: nat): seq<T>
    requires 0 < x <= |s| && 0 < y <= |s|
  {
    s[x - 1 := s[y - 1]][y - 1 := s[x - 1]]
  }

  lemma SwappedPermutes<T>(s: seq<T>, x: nat, y: nat, n: nat)
    requires 0 < x <= n <= |s| && 0 < y <= n
    ensures multiset(Swapped(s, x, y)[..n]) == multiset(s[..n]) && Swapped(s, x, y)[n..] == s[n..]
  {
    var a, b := s[..n], Swapped(s, x, y)[..n];
    assert b == a[x - 1 := a[y - 1]][y - 1 := a[x - 1]];
  }

  /** Swapping the hole with its largest child, M, moves the hole down. */
  lemma FloatDown<T(!new)>(compare: (T, T) -> int, s: seq<T>, i: nat, cnt: nat, hole: nat, m: nat)
    requires Preorder(compare) && cnt <= |s| && 0 < i <= hole
    requires HeapBut(compare, s, i, cnt, hole) && Bridged(compare, s, i, cnt, hole)
    requires m / 2 == hole && m <= cnt && compare(s[m - 1], s[hole - 1]) > 0
    requires forall c: nat {:trigger c / 2} :: c / 2 == hole && c <= cnt ==> Above(compare, s, m, c)
    ensures HeapBut(compare, Swapped(s, hole, m), i, cnt, m) && Bridged(compare, Swapped(s, hole, m), i, cnt, m)
  {
    var t := Swapped(s, hole, m);
    forall c: nat | i <= c / 2 && c <= cnt && c / 2 != m ensures Above(compare, t, c / 2, c) {
      if c / 2 == hole {
        assert Above(compare, s, m, c);
      } else if c == hole {
        assert m / 2 == hole;
        assert Above(compare, s, hole / 2, m);
      } else {
        assert Above(compare, s, c / 2, c);
      }
    }
    forall c: nat | i <= m / 2 && c / 2 == m && 0 < c <= cnt ensures Above(compare, t, m / 2, c) {
      assert Above(compare, s, c / 2, c);
    }
  }

  /** do_swap */
  method Swap<T>(a: array<T>, x: nat, y: nat)
    requires 0 < x <= a.Length && 0 < y <= a.Length
    modifies a
    ensures a[..] == Swapped(old(a[..]), x, y)
  {
    a[x - 1], a[y - 1] := a[y - 1], a[x - 1];
  }

  /** The largest of the element at I and its children. */
  method Largest<T(!new)>(a: array<T>, i: nat, cnt: nat, compare: (T, T) -> int) returns (m: nat)
    requires Preorder(compare) && 0 < i <= cnt <= a.Length
    ensures m == i || m / 2 == i
    ensures 0 < m <= cnt && Above(compare, a[..], m, i)
    ensures forall c: nat {:trigger c / 2} :: c / 2 == i && c <= cnt ==> Above(compare, a[..], m, c)
    ensures m != i ==> compare(a[m - 1], a[i - 1]) > 0
  {
    var left, right := 2 * i, 2 * i + 1;
    m := i;
    if left <= cnt && compare(a[left - 1], a[m - 1]) > 0 {
      m := left;
    }
    if right <= cnt && compare(a[right - 1], a[m - 1]) > 0 {
      m := right;
    }
    forall c: nat | c / 2 == i ensures c == left || c == right {
    }
  }

  /** heapify: the element at I0 floats down, and the heap holds from there on. */
  method Heapify<T(!new)>(a: array<T>, i0: nat, cnt: nat, compare: (T, T) -> int)
    requires Preorder(compare) && 0 < i0 <= cnt <= a.Length
    requires HeapBut(compare, a[..], i0, cnt, i0)
    modifies a
    ensures HeapBut(compare, a[..], i0, cnt, 0)
    ensures multiset(a[..cnt]) == multiset(old(a[..cnt])) && a[cnt..] == old(a[cnt..])
  {
    hide Preorder, Swapped;
    Unbridged(compare, a[..], i0, cnt);
    var i := i0;
    while true
      invariant i0 <= i <= cnt
      invariant HeapBut(compare, a[..], i0, cnt, i) && Bridged(compare, a[..], i0, cnt, i)
      invariant multiset(a[..cnt]) == multiset(old(a[..cnt])) && a[cnt..] == old(a[cnt..])
      decreases cnt - i
    {
      var m := Largest(a, i, cnt, compare);
      if m == i {
        return;
      }
      FloatDown(compare, a[..], i0, cnt, i, m);
      SwappedPermutes(a[..], i, m, cnt);
      Swap(a, i, m);
      i := m;
    }
  }

  /** The root of a heap is its largest element. */
  lemma {:induction false} RootLargest<T(!new)>(compare: (T, T) -> int, s: seq<T>, cnt: nat, c: nat)
    requires Preorder(compare) && 0 < c <= cnt <= |s| && HeapBut(compare, s, 1, cnt, 0)
    ensures Above(compare, s, 1, c)
  {
    if c > 1 {
      RootLargest(compare, s, cnt, c / 2);
      assert Above(compare, s, c / 2, c);
    }
  }

  /** The elements from N on are sorted, and none before them is above any of them. */
  ghost predicate Split<T>(compare: (T, T) -> int, s: seq<T>, n: nat)
    requires n <= |s|
  {
    && (forall x, y :: 0 <= x < n <= y < |s| ==> compare(s[x], s[y]) <= 0)
    && (forall x, y :: n <= x < y < |s| ==> compare(s[x], s[y]) <= 0)
  }

  /** Moving the root of the heap to its end extends the sorted part. */
  lemma TakeRoot<T(!new)>(compare: (T, T) -> int, s: seq<T>, n: nat)
    requires Preorder(compare) && 1 < n <= |s| && HeapBut(compare, s, 1, n, 0) && Split(compare, s, n)
    ensures HeapBut(compare, Swapped(s, 1, n), 1, n - 1, 1) && Split(compare, Swapped(s, 1, n), n - 1)
  {
    hide Preorder, Split;
    RootMoved(compare, s, n);
    var t := Swapped(s, 1, n);
    forall c: nat | 1 <= c / 2 && c <= n - 1 && c / 2 != 1 ensures Above(compare, t, c / 2, c) {
      assert Above(compare, s, c / 2, c);
    }
  }

  lemma RootMoved<T(!new)>(compare: (T, T) -> int, s: seq<T>, n: nat)
    requires Preorder(compare) && 1 < n <= |s| && HeapBut(compare, s, 1, n, 0) && Split(compare, s, n)
    ensures Split(compare, Swapped(s, 1, n), n - 1)
  {
    hide Preorder, HeapBut;
    forall x | 0 <= x < n ensures compare(s[x], s[0]) <= 0 {
      RootLargest(compare, s, n, x + 1);
    }
    var t := Swapped(s, 1, n);
    assert forall x :: 0 <= x < |s| ==> t[x] == if x == 0 then s[n - 1] else if x == n - 1 then s[0] else s[x];
  }

  lemma SplitPermuted<T(!new)>(compare: (T, T) -> int, s: seq<T>, t: seq<T>, n: nat)
    requires n <= |s| == |t| && Split(compare, s, n)
    requires multiset(t[..n]) == multiset(s[..n]) && t[n..] == s[n..]
    ensures Split(compare, t, n)
  {
    forall y | n <= y < |t| ensures t[y] == s[y] {
      assert t[n..][y - n] == s[n..][y - n];
    }
    forall x, y | 0 <= x < n <= y < |t| ensures compare(t[x], t[y]) <= 0 {
      assert t[..n][x] in multiset(t[..n]);
      assert t[x] in s[..n];
      var z :| 0 <= z < n && s[z] == t[x];
    }
  }

  /** T has the elements of S. */
  ghost predicate Rearranged<T>(s: seq<T>, t: seq<T>) {
    multiset(t) == multiset(s)
  }

  lemma RearrangedAgain<T>(was: seq<T>, s: seq<T>, t: seq<T>, n: nat)
    requires Rearranged(was, s) && n <= |s| == |t| && multiset(t[..n]) == multiset(s[..n]) && t[n..] == s[n..]
    ensures Rearranged(was, t)
  {
    assert s == s[..n] + s[n..] && t == t[..n] + t[n..];
  }

  /** sort: a heap is built, then its root moved to the end over and over. */
  method Sort<T(!new)>(a: array<T>, compare: (T, T) -> int)
    requires Preorder(compare)
    modifies a
    ensures Sorted(compare, a[..]) && multiset(a[..]) == multiset(old(a[..]))
  {
    BuildHeap(a, compare);
    var i: nat := a.Length;
    while i > 1
      invariant i <= a.Length && (a.Length > 0 ==> i > 0)
      invariant i > 0 ==> HeapBut(compare, a[..], 1, i, 0)
      invariant Split(compare, a[..], i) && Rearranged(old(a[..]), a[..])
    {
      MoveRoot(a, i, compare, old(a[..]));
      i := i - 1;
    }
  }

  /** One round of sort's second loop. */
  method MoveRoot<T(!new)>(a: array<T>, i: nat, compare: (T, T) -> int, ghost was: seq<T>)
    requires Preorder(compare) && 1 < i <= a.Length
    requires HeapBut(compare, a[..], 1, i, 0) && Split(compare, a[..], i) && Rearranged(was, a[..])
    modifies a
    ensures HeapBut(compare, a[..], 1, i - 1, 0) && Split(compare, a[..], i - 1) && Rearranged(was, a[..])
  {
    hide Preorder, HeapBut, Swapped, Split, Rearranged;
    ghost var s := a[..];
    TakeRoot(compare, s, i);
    SwappedPermutes(s, 1, i, i);
    Swap(a, 1, i);
    ghost var t := a[..];
    RearrangedAgain(was, s, t, i);
    Heapify(a, 1, i - 1, compare);
    SplitPermuted(compare, t, a[..], i - 1);
    RearrangedAgain(was, t, a[..], i - 1);
  }

  method BuildHeap<T(!new)>(a: array<T>, compare: (T, T) -> int)
    requires Preorder(compare)
    modifies a
    ensures HeapBut(compare, a[..], 1, a.Length, 0) && Rearranged(old(a[..]), a[..])
  {
    hide Preorder, Rearranged;
    var i: nat := a.Length / 2;
    Unmoved(a[..]);
    while i > 0
      invariant i <= a.Length / 2
      invariant HeapBut(compare, a[..], i + 1, a.Length, 0) && Rearranged(old(a[..]), a[..])
    {
      ghost var s := a[..];
      assert HeapBut(compare, s, i, a.Length, i);
      Heapify(a, i, a.Length, compare);
      RearrangedAgain(old(a[..]), s, a[..], a.Length);
      i := i - 1;
    }
  }

  lemma Unmoved<T>(s: seq<T>)
    ensures Rearranged(s, s)
  {
  }

  /** binary_search: an index whose element compares equal to KEY, exactly when there is
      one. */
  method BinarySearch<T(!new)>(key: T, a: array<T>, compare: (T, T) -> int) returns (r: Option<nat>)
    requires Preorder(compare) && Sorted(compare, a[..])
    ensures r.Some? ==> r.value < a.Length && compare(key, a[r.value]) == 0
    ensures r.None? ==> forall k :: 0 <= k < a.Length ==> compare(key, a[k]) != 0
  {
    var first, last := 0, a.Length;
    while first < last
      invariant 0 <= first <= last <= a.Length
      invariant forall k :: 0 <= k < first ==> compare(key, a[k]) > 0
      invariant forall k :: last <= k < a.Length ==> compare(key, a[k]) < 0
    {
      var middle := first + (last - first) / 2;
      var cmp := compare(key, a[middle]);
      ghost var s := a[..];
      if cmp < 0 {
        forall k | middle <= k < a.Length ensures compare(key, a[k]) < 0 {
          assert middle < k ==> compare(s[middle], s[k]) <= 0;
        }
        last := middle;
      } else if cmp > 0 {
        forall k | 0 <= k <= middle ensures compare(key, a[k]) > 0 {
          assert k < middle ==> compare(s[k], s[middle]) <= 0;
        }
        first := middle + 1;
      } else {
        return Some(middle);
      }
    }
    return None;
  }
}
