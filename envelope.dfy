/** The paginated envelope the read controllers return, and the per-row
    mapping with error isolation: each fetched row is turned into a
    response record, and a record the response schema rejects is skipped
    rather than failing the whole page. */
module Envelope {

  /** {total, page, limit, data}. */
  datatype Page<T> = Page(total: nat, page: int, limit: int, data: seq<T>)

  /** The records built from rows, in row order, keeping only those the
      response schema accepts. */
  function Accepted<R, S>(rows: seq<R>, build: R -> S, accepts: S -> bool): (r: seq<S>)
    ensures |r| <= |rows|
    ensures forall k :: 0 <= k < |r| ==> accepts(r[k])
    decreases |rows|
  {
    if rows == [] then []
    else
      var record := build(rows[|rows| - 1]);
      Accepted(rows[..|rows| - 1], build, accepts) + (if accepts(record) then [record] else [])
  }

  /** r[k] was built from rows[idx[k]], and idx is strictly increasing:
      r is an order-preserving selection from rows. */
  ghost predicate EmbeddedAt<R, S>(r: seq<S>, rows: seq<R>, build: R -> S, idx: seq<int>) {
    && |idx| == |r|
    && (forall k :: 0 <= k < |idx| ==> 0 <= idx[k] < |rows| && r[k] == build(rows[idx[k]]))
    && (forall k, l :: 0 <= k < l < |idx| ==> idx[k] < idx[l])
  }

  /** The surviving records keep the order of their rows. */
  lemma {:induction false} AcceptedKeepsOrder<R, S>(rows: seq<R>, build: R -> S, accepts: S -> bool)
    ensures exists idx :: EmbeddedAt(Accepted(rows, build, accepts), rows, build, idx)
  {
    if rows == [] {
      assert EmbeddedAt(Accepted(rows, build, accepts), rows, build, []);
    } else {
      var front := rows[..|rows| - 1];
      AcceptedKeepsOrder(front, build, accepts);
      var idx :| EmbeddedAt(Accepted(front, build, accepts), front, build, idx);
      var record := build(rows[|rows| - 1]);
      if accepts(record) {
        assert EmbeddedAt(Accepted(rows, build, accepts), rows, build, idx + [|rows| - 1]);
      } else {
        assert EmbeddedAt(Accepted(rows, build, accepts), rows, build, idx);
      }
    }
  }

  /** No accepted record is dropped. */
  lemma {:induction false} AcceptedKeepsEveryValidRow<R, S>(rows: seq<R>, build: R -> S, accepts: S -> bool)
    ensures forall i :: 0 <= i < |rows| && accepts(build(rows[i])) ==>
      build(rows[i]) in Accepted(rows, build, accepts)
  {
    if rows != [] {
      var front := rows[..|rows| - 1];
      AcceptedKeepsEveryValidRow(front, build, accepts);
      assert forall i :: 0 <= i < |front| ==> front[i] == rows[i];
    }
  }

  /** When no record is rejected, data is every row, mapped, in order. */
  lemma {:induction false} AcceptedAll<R, S>(rows: seq<R>, build: R -> S, accepts: S -> bool)
    requires forall i :: 0 <= i < |rows| ==> accepts(build(rows[i]))
    ensures |Accepted(rows, build, accepts)| == |rows|
    ensures forall k :: 0 <= k < |rows| ==> Accepted(rows, build, accepts)[k] == build(rows[k])
  {
    if rows != [] {
      var front := rows[..|rows| - 1];
      assert forall i :: 0 <= i < |front| ==> front[i] == rows[i];
      AcceptedAll(front, build, accepts);
    }
  }

  /** The `for row in rows: try data.append(...) except: log` loop. */
  method CollectAccepted<R, S>(rows: seq<R>, build: R -> S, accepts: S -> bool) returns (data: seq<S>)
    ensures data == Accepted(rows, build, accepts)
  {
    data := [];
    for i := 0 to |rows|
      invariant data == Accepted(rows[..i], build, accepts)
    {
      assert rows[..i + 1][..i] == rows[..i];
      var record := build(rows[i]);
      if accepts(record) {
        data := data + [record];
      }
    }
    assert rows[..|rows|] == rows;
  }
}
