/** The chained hash table of lib/kernel/hash.c.

    Elements that compare equal, neither being less than the other, have the same key; the
    table is proved to be a finite map from keys to elements. */
module HashTable {
  import opened Sequences
  import opened Arithmetic
  import opened PowersOfTwo

  /** The order and the hash agree on which elements are equal. */
  ghost predicate Agree<K(!new), E(!new)>(hash: E -> nat, less: (E, E) -> bool, key: E -> K) {
    && (forall a, b :: !less(a, b) && !less(b, a) <==> key(a) == key(b))
    && (forall a, b :: key(a) == key(b) ==> hash(a) == hash(b))
  }

  /** find_bucket, among N buckets. */
  function BucketOf<E>(hash: E -> nat, n: nat, e: E): (i: nat)
    requires n > 0
    ensures i < n
  {
    And(hash(e), n - 1)
  }

  /** With a power of two buckets, the bucket is the remainder of the hash. */
  lemma BucketIsRemainder<E>(hash: E -> nat, k: nat, e: E)
    ensures BucketOf(hash, Pow2(k), e) == hash(e) % Pow2(k)
  {
    AndMask(hash(e), k);
  }

  /** The buckets hold exactly the elements of M, each once, in the bucket of its hash. */
  ghost predicate Holds<K(!new), E(!new)>(hash: E -> nat, key: E -> K, buckets: seq<seq<E>>, m: map<K, E>) {
    && |buckets| > 0
    && (forall i :: 0 <= i < |buckets| ==> Distinct(buckets[i]))
    && (forall i, e :: 0 <= i < |buckets| && e in buckets[i] ==> Placed(hash, key, |buckets|, m, i, e))
    && (forall k :: k in m ==> key(m[k]) == k && m[k] in buckets[BucketOf(hash, |buckets|, m[k])])
  }

  ghost predicate Placed<K(!new), E(!new)>(hash: E -> nat, key: E -> K, n: nat, m: map<K, E>, i: nat, e: E)
    requires n > 0
  {
    BucketOf(hash, n, e) == i && key(e) in m && m[key(e)] == e
  }

  lemma EmptyHolds<K(!new), E(!new)>(hash: E -> nat, key: E -> K, n: nat)
    requires n > 0
    ensures Holds(hash, key, seq(n, _ => []), map[])
  {
  }

  /** An element with a new key goes at the front of its bucket. */
  lemma PushHolds<K(!new), E(!new)>(hash: E -> nat, key: E -> K, buckets: seq<seq<E>>, m: map<K, E>, e: E)
    requires Holds(hash, key, buckets, m) && key(e) !in m
    ensures var i := BucketOf(hash, |buckets|, e);
      Holds(hash, key, buckets[i := [e] + buckets[i]], m[key(e) := e])
  {
    hide BucketOf;
    var i := BucketOf(hash, |buckets|, e);
    var b, t := buckets[i := [e] + buckets[i]], m[key(e) := e];
    assert e in buckets[i] ==> Placed(hash, key, |buckets|, m, i, e);
    assert Distinct(b[i]);
    forall j, x | 0 <= j < |b| && x in b[j] ensures Placed(hash, key, |b|, t, j, x) {
      assert x in buckets[j] ==> Placed(hash, key, |buckets|, m, j, x);
    }
  }

  lemma RemoveHolds<K(!new), E(!new)>(hash: E -> nat, key: E -> K, buckets: seq<seq<E>>, m: map<K, E>, i: nat, p: nat)
    requires Holds(hash, key, buckets, m) && i < |buckets| && p < |buckets[i]|
    ensures key(buckets[i][p]) in m && m[key(buckets[i][p])] == buckets[i][p]
    ensures Holds(hash, key, buckets[i := RemoveAt(buckets[i], p)], m - {key(buckets[i][p])})
  {
    hide BucketOf;
    var e := buckets[i][p];
    var b, t := buckets[i := RemoveAt(buckets[i], p)], m - {key(e)};
    assert Placed(hash, key, |buckets|, m, i, e);
    RemoveAtMembers(buckets[i], p);
    forall j, x | 0 <= j < |b| && x in b[j] ensures Placed(hash, key, |b|, t, j, x) {
      assert Placed(hash, key, |buckets|, m, j, x);
    }
  }

  /** Two elements of the table with one key are the same one. */
  lemma KeyIsPlace<K(!new), E(!new)>(hash: E -> nat, key: E -> K, buckets: seq<seq<E>>, m: map<K, E>,
                                     i: nat, p: nat, j: nat, q: nat)
    requires Holds(hash, key, buckets, m) && i < |buckets| && p < |buckets[i]| && j < |buckets| && q < |buckets[j]|
    requires key(buckets[i][p]) == key(buckets[j][q])
    ensures i == j && p == q
  {
    hide BucketOf;
    assert Placed(hash, key, |buckets|, m, i, buckets[i][p]);
    assert Placed(hash, key, |buckets|, m, j, buckets[j][q]);
  }

  /** Bucket I of the old buckets has been moved up to its P-th element, and those before
      it wholly: M holds what was moved and nothing of the rest. */
  ghost predicate Moved<K(!new), E(!new)>(key: E -> K, old_: seq<seq<E>>, m: map<K, E>, i: nat, p: nat) {
    && (forall j, q :: 0 <= j < |old_| && 0 <= q < |old_[j]| ==>
          (key(old_[j][q]) in m <==> j < i || (j == i && q < p)))
  }

  class Hash<K(!new, ==), E(!new, ==)> {
    const hash: E -> nat
    const less: (E, E) -> bool
    ghost const key: E -> K
    var buckets: seq<seq<E>>
    var elemCnt: nat
    ghost var contents: map<K, E>

    /** The number of buckets is a power of two, at least four. */
    ghost predicate Valid()
      reads this
    {
      && Agree(hash, less, key)
      && Holds(hash, key, buckets, contents)
      && elemCnt == |contents|
      && exists k :: k >= 2 && |buckets| == Pow2(k)
    }

    /** hash_init, when the buckets can be allocated. */
    constructor (hash: E -> nat, less: (E, E) -> bool, ghost key: E -> K)
      requires Agree(hash, less, key)
      ensures Valid() && contents == map[]
      ensures this.hash == hash && this.less == less && this.key == key
    {
      this.hash, this.less, this.key := hash, less, key;
      elemCnt, contents := 0, map[];
      buckets := seq(4, _ => []);
      new;
      EmptyHolds(hash, key, 4);
      assert Pow2(2) == 4;
    }

    /** find_elem in bucket I: the place of an element equal to E. */
    method FindElem(i: nat, e: E) returns (found: bool, p: nat)
      requires Valid() && i == BucketOf(hash, |buckets|, e)
      ensures found <==> key(e) in contents
      ensures found ==> i < |buckets| && p < |buckets[i]|
      ensures found ==> buckets[i][p] == contents[key(e)] && key(buckets[i][p]) == key(e)
    {
      hide BucketOf;
      p := 0;
      while p < |buckets[i]|
        invariant p <= |buckets[i]|
        invariant forall q :: 0 <= q < p ==> key(buckets[i][q]) != key(e)
      {
        var x := buckets[i][p];
        if !less(x, e) && !less(e, x) {
          assert x in buckets[i];
          return true, p;
        }
        p := p + 1;
      }
      found := false;
      SameBucket(hash, less, key, |buckets|);
    }

    /** hash_find */
    method Find(e: E) returns (r: Option<E>)
      requires Valid()
      ensures r == if key(e) in contents then Some(contents[key(e)]) else None
    {
      var i := BucketOf(hash, |buckets|, e);
      var found, p := FindElem(i, e);
      r := if found then Some(buckets[i][p]) else None;
    }

    /** insert_elem into bucket I */
    method InsertElem(i: nat, e: E)
      requires Valid() && key(e) !in contents && i == BucketOf(hash, |buckets|, e)
      modifies this
      ensures Valid() && contents == old(contents)[key(e) := e] && |buckets| == |old(buckets)|
    {
      hide BucketOf, Agree;
      PushHolds(hash, key, buckets, contents, e);
      elemCnt := elemCnt + 1;
      buckets := buckets[i := [e] + buckets[i]];
      contents := contents[key(e) := e];
    }

    /** remove_elem, of the P-th in bucket I */
    method RemoveElem(i: nat, p: nat)
      requires Valid() && i < |buckets| && p < |buckets[i]|
      modifies this
      ensures Valid() && contents == old(contents) - {key(old(buckets[i][p]))} && |buckets| == |old(buckets)|
    {
      hide BucketOf, Agree;
      RemoveHolds(hash, key, buckets, contents, i, p);
      ghost var k := key(buckets[i][p]);
      assert contents == (contents - {k})[k := contents[k]];
      elemCnt := elemCnt - 1;
      contents := contents - {k};
      buckets := buckets[i := RemoveAt(buckets[i], p)];
    }

    /** hash_insert; OK says whether memory for new buckets is there. */
    method Insert(e: E, ok: bool) returns (r: Option<E>)
      requires Valid()
      modifies this
      ensures Valid()
      ensures r == if key(e) in old(contents) then Some(old(contents)[key(e)]) else None
      ensures contents == if r.Some? then old(contents) else old(contents)[key(e) := e]
    {
      hide Holds, BucketOf, Agree;
      var i := BucketOf(hash, |buckets|, e);
      var found, p := FindElem(i, e);
      r := if found then Some(buckets[i][p]) else None;
      if !found {
        InsertElem(i, e);
      }
      Rehash(ok);
    }

    /** hash_replace */
    method Replace(e: E, ok: bool) returns (r: Option<E>)
      requires Valid()
      modifies this
      ensures Valid()
      ensures r == if key(e) in old(contents) then Some(old(contents)[key(e)]) else None
      ensures contents == old(contents)[key(e) := e]
    {
      hide Holds, BucketOf, Agree;
      var i := BucketOf(hash, |buckets|, e);
      var found, p := FindElem(i, e);
      r := if found then Some(buckets[i][p]) else None;
      if found {
        RemoveElem(i, p);
      }
      InsertElem(i, e);
      assert contents == old(contents)[key(e) := e];
      Rehash(ok);
    }

    /** hash_delete */
    method Delete(e: E, ok: bool) returns (r: Option<E>)
      requires Valid()
      modifies this
      ensures Valid()
      ensures r == if key(e) in old(contents) then Some(old(contents)[key(e)]) else None
      ensures contents == old(contents) - {key(e)}
    {
      hide Holds, BucketOf, Agree;
      var i := BucketOf(hash, |buckets|, e);
      var found, p := FindElem(i, e);
      r := if found then Some(buckets[i][p]) else None;
      if found {
        RemoveElem(i, p);
        Rehash(ok);
      }
    }

    /** rehash: the number of buckets becomes the greatest power of two not above half the
        number of elements, but at least four; without memory, nothing changes. */
    method Rehash(ok: bool)
      requires Valid()
      modifies this
      ensures Valid() && contents == old(contents) && elemCnt == old(elemCnt)
      ensures !ok ==> buckets == old(buckets)
      ensures ok ==> var want := if elemCnt / 2 < 4 then 4 else elemCnt / 2;
        |buckets| <= want < 2 * |buckets|
    {
      hide Holds, BucketOf, Agree;
      var n := elemCnt / 2;
      if n < 4 {
        n := 4;
      }
      ghost var k := SomePower(n);
      AtLeastFour(n, k);
      n := RoundDownToPower(n, k);
      if n == |buckets| || !ok {
        return;
      }
      MoveAll(n);
    }

    /** Moves every element to its place among N new buckets. */
    method MoveAll(n: nat)
      requires n > 0 && Holds(hash, key, buckets, contents)
      modifies this`buckets
      ensures Holds(hash, key, buckets, contents) && |buckets| == n
    {
      hide BucketOf, Holds;
      var old_, i := buckets, 0;
      buckets := seq(n, _ => []);
      ghost var m: map<K, E> := map[];
      EmptyHolds<K, E>(hash, key, n);
      while i < |old_|
        invariant 0 <= i <= |old_| && |buckets| == n
        invariant Holds(hash, key, buckets, m) && Moved(key, old_, m, i, 0)
        invariant forall k :: k in m ==> k in contents && m[k] == contents[k]
      {
        var p := 0;
        while p < |old_[i]|
          invariant 0 <= p <= |old_[i]| && |buckets| == n
          invariant Holds(hash, key, buckets, m) && Moved(key, old_, m, i, p)
          invariant forall k :: k in m ==> k in contents && m[k] == contents[k]
        {
          var e := old_[i][p];
          MoveOne(hash, key, old_, contents, m, i, p);
          PushHolds(hash, key, buckets, m, e);
          var j := BucketOf(hash, n, e);
          buckets := buckets[j := [e] + buckets[j]];
          m := m[key(e) := e];
          p := p + 1;
        }
        i := i + 1;
      }
      AllMoved(hash, key, old_, contents, m);
    }
  }

  lemma AtLeastFour(n: nat, k: nat)
    requires n >= 4 && Pow2(k) <= n < Pow2(k + 1)
    ensures k >= 2
  {
    assert Pow2(1) == 2 && Pow2(2) == 4;
  }

  lemma MoveOne<K(!new), E(!new)>(hash: E -> nat, key: E -> K, old_: seq<seq<E>>, all: map<K, E>, m: map<K, E>,
                                  i: nat, p: nat)
    requires Holds(hash, key, old_, all) && i < |old_| && p < |old_[i]| && Moved(key, old_, m, i, p)
    ensures var e := old_[i][p];
      && key(e) !in m && key(e) in all && all[key(e)] == e
      && Moved(key, old_, m[key(e) := e], i, p + 1)
  {
    hide BucketOf;
    var e := old_[i][p];
    assert Placed(hash, key, |old_|, all, i, e);
    forall j, q | 0 <= j < |old_| && 0 <= q < |old_[j]| && key(old_[j][q]) == key(e) ensures j == i && q == p {
      KeyIsPlace(hash, key, old_, all, j, q, i, p);
    }
  }

  lemma AllMoved<K(!new), E(!new)>(hash: E -> nat, key: E -> K, old_: seq<seq<E>>, all: map<K, E>, m: map<K, E>)
    requires Holds(hash, key, old_, all) && Moved(key, old_, m, |old_|, 0)
    requires forall k :: k in m ==> k in all && m[k] == all[k]
    ensures m == all
  {
    forall k | k in all ensures k in m {
      var i := BucketOf(hash, |old_|, all[k]);
      var q :| 0 <= q < |old_[i]| && old_[i][q] == all[k];
      assert key(old_[i][q]) in m;
    }
  }

  lemma SameBucket<K(!new), E(!new)>(hash: E -> nat, less: (E, E) -> bool, key: E -> K, n: nat)
    requires Agree(hash, less, key) && n > 0
    ensures forall a, b :: key(a) == key(b) ==> BucketOf(hash, n, a) == BucketOf(hash, n, b)
  {
  }

  /** The elements of the first N buckets, bucket after bucket. */
  function Flatten<E>(buckets: seq<seq<E>>, n: nat): seq<E>
    requires n <= |buckets|
  {
    if n == 0 then [] else Flatten(buckets, n - 1) + buckets[n - 1]
  }

  lemma {:induction false} FlattenPrefix<E>(buckets: seq<seq<E>>, i: nat, n: nat)
    requires i <= n <= |buckets|
    ensures Flatten(buckets, i) <= Flatten(buckets, n)
  {
    if i < n {
      FlattenPrefix(buckets, i, n - 1);
    }
  }

  /** Where the P-th element of bucket I comes. */
  lemma FlattenAt<E>(buckets: seq<seq<E>>, i: nat, p: nat)
    requires i < |buckets| && p < |buckets[i]|
    ensures var k := |Flatten(buckets, i)| + p;
      k < |Flatten(buckets, |buckets|)| && Flatten(buckets, |buckets|)[k] == buckets[i][p]
  {
    FlattenPrefix(buckets, i + 1, |buckets|);
    assert Flatten(buckets, i + 1) == Flatten(buckets, i) + buckets[i];
  }

  /** Every place in the flattened sequence is some place in some bucket. */
  lemma {:induction false} FlattenFrom<E>(buckets: seq<seq<E>>, n: nat, k: nat) returns (i: nat, p: nat)
    requires n <= |buckets| && k < |Flatten(buckets, n)|
    ensures i < n && p < |buckets[i]| && k == |Flatten(buckets, i)| + p && Flatten(buckets, n)[k] == buckets[i][p]
  {
    if k < |Flatten(buckets, n - 1)| {
      i, p := FlattenFrom(buckets, n - 1, k);
    } else {
      i, p := n - 1, k - |Flatten(buckets, n - 1)|;
    }
  }

  /** The flattened table has each element of the map exactly once. */
  lemma EachOnce<K(!new), E(!new)>(hash: E -> nat, key: E -> K, buckets: seq<seq<E>>, m: map<K, E>)
    requires Holds(hash, key, buckets, m)
    ensures var all := Flatten(buckets, |buckets|);
      && Distinct(all) && |all| == |m|
      && forall e :: e in all <==> key(e) in m && m[key(e)] == e
  {
    hide BucketOf;
    var all := Flatten(buckets, |buckets|);
    forall e ensures e in all <==> key(e) in m && m[key(e)] == e {
      if e in all {
        var k :| 0 <= k < |all| && all[k] == e;
        var i, p := FlattenFrom(buckets, |buckets|, k);
        assert Placed(hash, key, |buckets|, m, i, buckets[i][p]);
      }
      if key(e) in m && m[key(e)] == e {
        var i := BucketOf(hash, |buckets|, e);
        var p :| 0 <= p < |buckets[i]| && buckets[i][p] == e;
        FlattenAt(buckets, i, p);
      }
    }
    KeysOnce(hash, key, buckets, m);
  }

  lemma KeysOnce<K(!new), E(!new)>(hash: E -> nat, key: E -> K, buckets: seq<seq<E>>, m: map<K, E>)
    requires Holds(hash, key, buckets, m)
    requires forall e :: e in Flatten(buckets, |buckets|) <==> key(e) in m && m[key(e)] == e
    ensures Distinct(Flatten(buckets, |buckets|)) && |Flatten(buckets, |buckets|)| == |m|
  {
    hide BucketOf;
    var all := Flatten(buckets, |buckets|);
    var keys := seq(|all|, i requires 0 <= i < |all| => key(all[i]));
    forall j, k | 0 <= j < k < |all| ensures keys[j] != keys[k] && all[j] != all[k] {
      var i, p := FlattenFrom(buckets, |buckets|, j);
      var h, q := FlattenFrom(buckets, |buckets|, k);
      if keys[j] == keys[k] {
        KeyIsPlace(hash, key, buckets, m, i, p, h, q);
      }
    }
    DistinctCount(keys);
    forall k | k in m ensures k in Elements(keys) {
      var e := m[k];
      assert e in all;
      var j :| 0 <= j < |all| && all[j] == e;
      assert keys[j] == k;
    }
    assert Elements(keys) == m.Keys;
  }

  /** An iterator: its bucket and its place there, -1 at the bucket's head. */
  class HashIterator<K(!new, ==), E(!new, ==)> {
    const table: Hash<K, E>
    var bucket: nat
    var pos: int

    ghost predicate Valid()
      reads this, table
    {
      table.Valid() && bucket < |table.buckets| && -1 <= pos < |table.buckets[bucket]|
    }

    /** How many elements have been visited. */
    ghost function Visited(): nat
      requires Valid()
      reads this, table
    {
      |Flatten(table.buckets, bucket)| + pos + 1
    }

    /** hash_first */
    constructor (table: Hash<K, E>)
      requires table.Valid()
      ensures this.table == table && Valid() && Visited() == 0
    {
      this.table := table;
      bucket, pos := 0, -1;
    }

    /** hash_next: the next element in order; at the end, a null pointer. */
    method Next() returns (r: Option<E>)
      requires Valid()
      modifies this
      ensures var all := Flatten(table.buckets, |table.buckets|);
        if old(Visited()) < |all| then r == Some(all[old(Visited())]) && Valid() && Visited() == old(Visited()) + 1
        else r == None
    {
      hide Holds;
      ghost var v := Visited();
      pos := pos + 1;
      while pos == |table.buckets[bucket]|
        invariant bucket < |table.buckets| && 0 <= pos <= |table.buckets[bucket]|
        invariant v == |Flatten(table.buckets, bucket)| + pos
        decreases |table.buckets| - bucket
      {
        bucket := bucket + 1;
        if bucket >= |table.buckets| {
          return None;
        }
        pos := 0;
      }
      FlattenAt(table.buckets, bucket, pos);
      r := Some(table.buckets[bucket][pos]);
    }
  }

  /** The iteration idiom: the elements in the order visited. */
  method Iterate<K(!new, ==), E(!new, ==)>(table: Hash<K, E>) returns (all: seq<E>)
    requires table.Valid()
    ensures all == Flatten(table.buckets, |table.buckets|)
  {
    hide Holds, Agree, Flatten;
    ghost var flat := Flatten(table.buckets, |table.buckets|);
    all := [];
    var it := new HashIterator<K, E>(table);
    var e := it.Next();
    while e.Some?
      invariant it.table == table && |all| <= |flat| && all == flat[..|all|]
      invariant e.Some? ==> |all| < |flat| && e == Some(flat[|all|]) && it.Valid() && it.Visited() == |all| + 1
      invariant e.None? ==> |all| == |flat|
      decreases |flat| - |all|, e.Some?
    {
      all := all + [e.value];
      e := it.Next();
    }
  }

  /** It visits each element of the table exactly once. */
  method VisitAll<K(!new, ==), E(!new, ==)>(table: Hash<K, E>) returns (all: seq<E>)
    requires table.Valid()
    ensures Distinct(all) && |all| == table.elemCnt
    ensures forall e :: e in all <==> table.key(e) in table.contents && table.contents[table.key(e)] == e
  {
    hide Holds, Agree, Flatten;
    all := Iterate(table);
    EachOnce(table.hash, table.key, table.buckets, table.contents);
  }
}
