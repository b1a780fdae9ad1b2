/** A table partition as the store keeps it: rows in strictly ascending
    order of their primary key. Strict order makes keys unique, so an
    INSERT is an upsert on the full primary key. */
module SortedTable {

  /** A primary key: the partition key followed by two clustering
      columns, compared lexicographically. A clustering column declared
      DESC is stored negated, so ascending key order is the declared
      clustering order. A table without clustering columns fills them
      with zeroes. */
  datatype Key = Key(partition: int, first: int, second: int)

  predicate KeyLess(a: Key, b: Key) {
    || a.partition < b.partition
    || (a.partition == b.partition && a.first < b.first)
    || (a.partition == b.partition && a.first == b.first && a.second < b.second)
  }

  /** Rows in strictly ascending key order. */
  ghost predicate Sorted<R>(t: seq<R>, key: R -> Key) {
    forall i, j :: 0 <= i < j < |t| ==> KeyLess(key(t[i]), key(t[j]))
  }

  ghost predicate HasKey<R>(t: seq<R>, k: Key, key: R -> Key) {
    exists y :: y in t && key(y) == k
  }

  lemma SortedTail<R>(t: seq<R>, key: R -> Key)
    requires Sorted(t, key) && t != []
    ensures Sorted(t[1..], key)
    ensures forall y :: y in t[1..] ==> KeyLess(key(t[0]), key(y))
  {
    forall y | y in t[1..] ensures KeyLess(key(t[0]), key(y)) {
      var j :| 0 <= j < |t[1..]| && t[1..][j] == y;
      assert t[j + 1] == y;
    }
  }

  /** INSERT: the row replaces the row with the same key, if any, and
      otherwise is added at its place in key order. */
  function Upsert<R>(t: seq<R>, x: R, key: R -> Key): (r: seq<R>)
    requires Sorted(t, key)
    ensures Sorted(r, key)
    ensures x in r
    ensures forall y :: y in r ==> y == x || (y in t && key(y) != key(x))
    ensures forall y :: y in t && key(y) != key(x) ==> y in r
    ensures |r| == if HasKey(t, key(x), key) then |t| else |t| + 1
    decreases |t|
  {
    if t == [] then [x]
    else if KeyLess(key(x), key(t[0])) then
      SortedTail(t, key);
      [x] + t
    else if key(x) == key(t[0]) then
      SortedTail(t, key);
      [x] + t[1..]
    else
      SortedTail(t, key);
      var rest := Upsert(t[1..], x, key);
      assert HasKey(t, key(x), key) <==> HasKey(t[1..], key(x), key) by {
        assert t == [t[0]] + t[1..];
      }
      [t[0]] + rest
  }

  /** A sequence of INSERTs, issued in order. */
  function UpsertAll<R>(t: seq<R>, xs: seq<R>, key: R -> Key): (r: seq<R>)
    requires Sorted(t, key)
    ensures Sorted(r, key)
    ensures forall y :: y in r ==> y in t || y in xs
    ensures forall y :: y in t && (forall x :: x in xs ==> key(x) != key(y)) ==> y in r
    ensures xs != [] ==> xs[|xs| - 1] in r
    decreases |xs|
  {
    if xs == [] then t
    else
      var front := xs[..|xs| - 1];
      assert forall x :: x in front ==> x in xs;
      Upsert(UpsertAll(t, front, key), xs[|xs| - 1], key)
  }

  /** One more statement after a batch. */
  lemma UpsertAllSnoc<R>(t: seq<R>, xs: seq<R>, x: R, key: R -> Key)
    requires Sorted(t, key)
    ensures UpsertAll(t, xs + [x], key) == Upsert(UpsertAll(t, xs, key), x, key)
  {
    assert (xs + [x])[..|xs|] == xs;
  }

  /** Two statements in a row. */
  lemma UpsertAllPair<R>(t: seq<R>, x: R, y: R, key: R -> Key)
    requires Sorted(t, key)
    ensures UpsertAll(t, [x, y], key) == Upsert(Upsert(t, x, key), y, key)
  {
    var none: seq<R> := [];
    assert UpsertAll(t, none, key) == t;
    UpsertAllSnoc(t, none, x, key);
    assert none + [x] == [x];
    UpsertAllSnoc(t, [x], y, key);
    assert [x] + [y] == [x, y];
  }

  /** The rows that satisfy p, in table order (a SELECT ... WHERE). */
  function Filter<R>(t: seq<R>, p: R -> bool): (r: seq<R>)
    ensures forall y :: y in r ==> y in t && p(y)
    ensures forall y :: y in t && p(y) ==> y in r
    ensures |r| <= |t|
  {
    if t == [] then [] else (if p(t[0]) then [t[0]] else []) + Filter(t[1..], p)
  }

  lemma {:induction false} FilterSorted<R>(t: seq<R>, p: R -> bool, key: R -> Key)
    ensures Sorted(t, key) ==> Sorted(Filter(t, p), key)
  {
    if t != [] && Sorted(t, key) {
      SortedTail(t, key);
      FilterSorted(t[1..], p, key);
      var rest := Filter(t[1..], p);
      assert forall y :: y in rest ==> KeyLess(key(t[0]), key(y));
    }
  }

  lemma SliceSorted<R>(t: seq<R>, lo: int, hi: int, key: R -> Key)
    requires Sorted(t, key) && 0 <= lo <= hi <= |t|
    ensures Sorted(t[lo..hi], key)
  {
    assert forall i :: 0 <= i < hi - lo ==> t[lo..hi][i] == t[lo + i];
  }
}
