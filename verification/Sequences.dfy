/** Insertion into and removal from sequences, and what they do to membership
    and to the absence of repetitions. */
module Sequences {

  datatype Option<+T> = None | Some(value: T)

  ghost predicate Distinct<T>(s: seq<T>) {
    forall i, j :: 0 <= i < j < |s| ==> s[i] != s[j]
  }

  function InsertAt<T>(s: seq<T>, k: nat, x: T): (r: seq<T>)
    requires k <= |s|
    ensures |r| == |s| + 1
  {
    s[..k] + [x] + s[k..]
  }

  function RemoveAt<T>(s: seq<T>, k: nat): (r: seq<T>)
    requires k < |s|
    ensures |r| == |s| - 1
  {
    s[..k] + s[k + 1..]
  }

  /** S with the CNT elements from START on replaced by VALUE. */
  function Filled<T>(s: seq<T>, start: nat, cnt: nat, value: T): (r: seq<T>)
    requires start + cnt <= |s|
    ensures |r| == |s|
    ensures forall k :: 0 <= k < |s| ==> r[k] == if start <= k < start + cnt then value else s[k]
  {
    s[..start] + seq(cnt, _ => value) + s[start + cnt..]
  }

  lemma Associative<T>(a: seq<T>, b: seq<T>, c: seq<T>)
    ensures (a + b) + c == a + (b + c)
  {
  }

  lemma InsertAtMembers<T>(s: seq<T>, k: nat, x: T)
    requires k <= |s|
    ensures forall y :: y in InsertAt(s, k, x) <==> y == x || y in s
    ensures multiset(InsertAt(s, k, x)) == multiset(s) + multiset{x}
  {
    var r := InsertAt(s, k, x);
    assert s == s[..k] + s[k..];
    assert multiset(r) == multiset(s[..k]) + multiset{x} + multiset(s[k..]);
    forall y ensures y in r <==> y == x || y in s {
      assert y in r <==> y in multiset(r);
      assert y in s <==> y in multiset(s);
    }
  }

  lemma RemoveAtMembers<T>(s: seq<T>, k: nat)
    requires k < |s|
    requires Distinct(s)
    ensures forall y :: y in RemoveAt(s, k) <==> y != s[k] && y in s
    ensures Distinct(RemoveAt(s, k))
  {
    var r := RemoveAt(s, k);
    assert forall j :: 0 <= j < |r| ==> r[j] == s[if j < k then j else j + 1];
    forall y | y in s && y != s[k] ensures y in r {
      var j :| 0 <= j < |s| && s[j] == y;
      assert r[if j < k then j else j - 1] == y;
    }
  }

  lemma InsertAtDistinct<T>(s: seq<T>, k: nat, x: T)
    requires k <= |s|
    requires Distinct(s) && x !in s
    ensures Distinct(InsertAt(s, k, x))
  {
    var r := InsertAt(s, k, x);
    forall i, j | 0 <= i < j < |r| ensures r[i] != r[j] {
      assert i == k || r[i] == s[if i < k then i else i - 1];
      assert j == k || r[j] == s[if j < k then j else j - 1];
    }
  }

  lemma ConcatDistinct<T>(a: seq<T>, b: seq<T>)
    requires Distinct(a) && Distinct(b) && forall i :: 0 <= i < |a| ==> a[i] !in b
    ensures Distinct(a + b)
  {
    var r := a + b;
    forall i, j | 0 <= i < j < |r| ensures r[i] != r[j] {
      assert i < |a| <= j ==> r[i] == a[i] && r[j] == b[j - |a|];
    }
  }

  lemma DistinctParts<T>(a: seq<T>, b: seq<T>)
    requires Distinct(a + b)
    ensures Distinct(a) && Distinct(b) && forall i :: 0 <= i < |a| ==> a[i] !in b
  {
    var r := a + b;
    assert forall i :: 0 <= i < |a| ==> r[i] == a[i];
    assert forall i :: 0 <= i < |b| ==> r[|a| + i] == b[i];
    forall i, j | 0 <= i < j < |b| ensures b[i] != b[j] {
      assert r[|a| + i] != r[|a| + j];
    }
  }

  lemma SegmentDistinct<T>(s: seq<T>, k: nat, seg: seq<T>)
    requires k <= |s|
    requires Distinct(s) && Distinct(seg) && forall i :: 0 <= i < |seg| ==> seg[i] !in s
    ensures Distinct(s[..k] + seg + s[k..])
  {
    var r := s[..k] + seg + s[k..];
    forall i, j | 0 <= i < j < |r| ensures r[i] != r[j] {
      assert r[i] == if i < k then s[i] else if i < k + |seg| then seg[i - k] else s[i - |seg|];
      assert r[j] == if j < k then s[j] else if j < k + |seg| then seg[j - k] else s[j - |seg|];
    }
  }

  lemma {:induction false} DistinctBounded(s: seq<nat>, n: nat)
    requires Distinct(s)
    requires forall k :: 0 <= k < |s| ==> s[k] < n
    ensures |s| <= n
  {
    if s != [] {
      assert s[0] < n;
      if k :| 0 <= k < |s| && s[k] == n - 1 {
        RemoveAtMembers(s, k);
        var r := RemoveAt(s, k);
        forall j | 0 <= j < |r| ensures r[j] < n - 1 {
          assert r[j] in r;
        }
        DistinctBounded(r, n - 1);
      } else {
        DistinctBounded(s, n - 1);
      }
    }
  }

  function Reversed<T>(s: seq<T>): seq<T> {
    if s == [] then [] else Reversed(s[1..]) + [s[0]]
  }

  lemma {:induction false} ReversedAt<T>(s: seq<T>)
    ensures |Reversed(s)| == |s| && forall i :: 0 <= i < |s| ==> Reversed(s)[i] == s[|s| - 1 - i]
  {
    if s != [] {
      ReversedAt(s[1..]);
    }
  }

  ghost function Elements<T>(s: seq<T>): set<T> {
    set x | x in s
  }

  lemma {:induction false} DistinctCount<T>(s: seq<T>)
    requires Distinct(s)
    ensures |Elements(s)| == |s|
  {
    if s != [] {
      DistinctCount(s[1..]);
      assert Elements(s) == {s[0]} + Elements(s[1..]);
      assert s[0] !in s[1..];
    }
  }
}
