/** Offset pagination as the model layer does it: fetch the first
    offset + limit rows in clustering order (CQL LIMIT), then keep the
    Python slice rows[offset:offset+limit]. */
module Pagination {
  import opened Wrappers
  import opened SortedTable

  function Min(a: int, b: int): int { if a <= b then a else b }

  /** CQL's LIMIT is a 32-bit int: the store refuses a LIMIT that is not
      positive or that exceeds this bound. */
  const MaxLimit: int := 0x7FFF_FFFF

  /** How Python reads a slice bound i against a list of length n: a
      negative bound counts from the end, then the bound is clamped to
      [0, n]. */
  function SliceBound(i: int, n: nat): (b: nat)
    ensures b <= n
    ensures 0 <= i <= n ==> b == i
  {
    if i < 0 then (if i + n < 0 then 0 else i + n) else if i > n then n else i
  }

  /** Python's s[lo:hi]. */
  function PySlice<T>(s: seq<T>, lo: int, hi: int): (r: seq<T>)
    ensures 0 <= lo <= hi <= |s| ==> r == s[lo..hi]
    ensures 0 <= hi <= lo ==> r == []
  {
    var a, b := SliceBound(lo, |s|), SliceBound(hi, |s|);
    if a < b then s[a..b] else []
  }

  /** The rows a SELECT ... LIMIT n returns, for an n the store accepts. */
  function Fetch<T>(rows: seq<T>, n: int): (r: seq<T>)
    requires 0 < n <= MaxLimit
    ensures r == rows[..Min(n, |rows|)]
  {
    if n < |rows| then rows[..n] else rows
  }

  /** The intended page: the ordered rows from position offset, at most
      limit of them. */
  function Segment<T>(rows: seq<T>, offset: nat, limit: nat): (r: seq<T>)
    ensures |r| <= limit
    ensures offset < |rows| ==> |r| == Min(limit, |rows| - offset)
    ensures r == [] <==> offset >= |rows| || limit == 0
    ensures forall k :: 0 <= k < |r| ==> offset + k < |rows| && r[k] == rows[offset + k]
  {
    if offset >= |rows| then [] else rows[offset..Min(offset + limit, |rows|)]
  }

  lemma OffsetProduct(page: int, limit: int)
    ensures (page - 1) * limit + limit == page * limit
    ensures page >= 1 && limit >= 1 ==> (page - 1) * limit >= 0
    ensures page * limit > 0 && !(page >= 1 && limit >= 1) ==> page <= -1 && limit <= -1
  {
    if page >= 1 && limit >= 1 {
      assert (page - 1) * limit >= 0 * limit;
    }
  }

  /** Fetching offset + limit rows and slicing [offset:offset+limit] is
      the intended page. */
  lemma FetchThenSlice<T>(rows: seq<T>, offset: nat, limit: nat)
    requires limit >= 1 && offset + limit <= MaxLimit
    ensures PySlice(Fetch(rows, offset + limit), offset, offset + limit) == Segment(rows, offset, limit)
  {
    var fetched := Fetch(rows, offset + limit);
    var m := Min(offset + limit, |rows|);
    assert fetched == rows[..m];
    if offset < |rows| {
      assert SliceBound(offset, |fetched|) == offset;
      assert SliceBound(offset + limit, |fetched|) == m;
      assert fetched[offset..m] == rows[offset..m];
    }
  }

  /** offset = (page - 1) * limit: the rows before the requested page. */
  function Offset(page: int, limit: int): (r: int)
    ensures page >= 1 && limit >= 1 ==> r >= 0
    ensures r + limit == page * limit
  {
    OffsetProduct(page, limit);
    (page - 1) * limit
  }

  /** One offset-paginated read: offset = (page - 1) * limit, fetch
      offset + limit rows, slice [offset:offset+limit]. None when the
      store rejects the LIMIT page * limit: not positive, or wider than
      a 32-bit int. */
  function Window<T>(rows: seq<T>, page: int, limit: int): (r: Option<seq<T>>)
    ensures r.None? <==> page * limit <= 0 || page * limit > MaxLimit
    ensures page >= 1 && limit >= 1 && page * limit <= MaxLimit ==>
      r == Some(Segment(rows, Offset(page, limit), limit))
    ensures r.Some? && !(page >= 1 && limit >= 1) ==> r.value == []
    ensures r.Some? ==> forall x :: x in r.value ==> x in rows
  {
    OffsetProduct(page, limit);
    var offset := Offset(page, limit);
    if offset + limit <= 0 || offset + limit > MaxLimit then None
    else
      var fetched := Fetch(rows, offset + limit);
      var r := PySlice(fetched, offset, offset + limit);
      assert page >= 1 && limit >= 1 ==> r == Segment(rows, offset, limit) by {
        if page >= 1 && limit >= 1 { FetchThenSlice(rows, offset, limit); }
      }
      Some(r)
  }

  lemma WindowSorted<T>(rows: seq<T>, page: int, limit: int, key: T -> Key)
    requires Sorted(rows, key)
    ensures Window(rows, page, limit).Some? ==> Sorted(Window(rows, page, limit).value, key)
  {
    if page >= 1 && limit >= 1 {
      var offset := Offset(page, limit);
      if offset < |rows| {
        SliceSorted(rows, offset, Min(offset + limit, |rows|), key);
      }
    }
  }

  /** Pages 1..k at a fixed limit, concatenated; every one of these reads
      asks for at most k * limit rows. */
  function Pages<T>(rows: seq<T>, k: nat, limit: int): seq<T>
    requires limit >= 1 && k * limit <= MaxLimit
  {
    if k == 0 then []
    else
      assert (k - 1) * limit <= k * limit;
      Pages(rows, k - 1, limit) + Window(rows, k, limit).value
  }

  lemma PrefixThenSegment<T>(rows: seq<T>, before: nat, limit: nat)
    ensures rows[..Min(before, |rows|)] + Segment(rows, before, limit) == rows[..Min(before + limit, |rows|)]
  {
    if before < |rows| {
      assert rows[..before] + rows[before..Min(before + limit, |rows|)] == rows[..Min(before + limit, |rows|)];
    }
  }

  /** Pages 1..k are the first min(k * limit, n) rows, each once, in order. */
  lemma {:induction false} PagesArePrefix<T>(rows: seq<T>, k: nat, limit: int)
    requires limit >= 1 && k * limit <= MaxLimit
    ensures Pages(rows, k, limit) == rows[..Min(k * limit, |rows|)]
  {
    if k > 0 {
      assert (k - 1) * limit <= k * limit;
      PagesArePrefix(rows, k - 1, limit);
      var before: nat := Offset(k, limit);
      assert Window(rows, k, limit) == Some(Segment(rows, before, limit));
      PrefixThenSegment(rows, before, limit);
    }
  }

  /** Pages 1..ceil(n / limit) reproduce every row of the partition, as
      long as the last of these reads has a LIMIT the store accepts. */
  lemma PagesCoverAll<T>(rows: seq<T>, limit: int)
    requires limit >= 1 && |rows| + limit - 1 <= MaxLimit
    ensures Pages(rows, (|rows| + limit - 1) / limit, limit) == rows
  {
    var n := |rows|;
    var k := (n + limit - 1) / limit;
    assert k * limit + (n + limit - 1) % limit == n + limit - 1;
    assert k * limit >= n;
    PagesArePrefix(rows, k, limit);
  }
}
