/**
 * What the reorder actions do to the `sortOrder` column. Each one writes
 * position i into the row `orderedIds[i]`, one write per position and in list
 * order, without checking the list: an id listed twice ends with its last
 * position, an unknown id updates nothing, an unlisted row keeps its value.
 * The column is viewed here as a map from row id to sortOrder.
 */
module Ordering {

  /** The last position of `x` in `ids`, or -1 when it is not listed. */
  function LastIndexOf(ids: seq<int>, x: int): (k: int)
    ensures -1 <= k < |ids|
    ensures k == -1 <==> x !in ids
    ensures k >= 0 ==> ids[k] == x && forall j :: k < j < |ids| ==> ids[j] != x
  {
    if |ids| == 0 then -1
    else if ids[|ids| - 1] == x then |ids| - 1
    else LastIndexOf(ids[..|ids| - 1], x)
  }

  /** The sortOrder of row `id` once the positions of `ids` are written, starting from `before`. */
  function SortAfter(ids: seq<int>, id: int, before: int): int {
    if id in ids then LastIndexOf(ids, id) else before
  }

  /** The whole column after a reorder with `ids`. */
  function Reordered(orders: map<int, int>, ids: seq<int>): map<int, int> {
    map id | id in orders :: SortAfter(ids, id, orders[id])
  }

  /** One more write: position i of the list. Used by the reorder loops. */
  lemma SortAfterStep(ids: seq<int>, i: nat, id: int, before: int)
    requires i < |ids|
    ensures SortAfter(ids[..i + 1], id, before) == if ids[i] == id then i else SortAfter(ids[..i], id, before)
  {
    assert ids[..i + 1][..i] == ids[..i];
    assert id in ids[..i + 1] <==> id in ids[..i] || ids[i] == id;
  }

  predicate Distinct(ids: seq<int>) {
    forall i, j :: 0 <= i < j < |ids| ==> ids[i] != ids[j]
  }

  /** In a list without repeats, every id ends with its own position. */
  lemma DistinctPosition(ids: seq<int>, k: nat)
    requires Distinct(ids) && k < |ids|
    ensures LastIndexOf(ids, ids[k]) == k
  {
  }

  /** Rows keep their ids: the reorder never adds or drops one. */
  lemma ReorderedKeys(orders: map<int, int>, ids: seq<int>)
    ensures Reordered(orders, ids).Keys == orders.Keys
  {
  }

  /**
   * A listed id gets its last position in the list, whatever it held;
   * an unlisted id keeps its value.
   */
  lemma ReorderedValue(orders: map<int, int>, ids: seq<int>, id: int)
    requires id in orders
    ensures id in ids ==>
              && Reordered(orders, ids)[id] == LastIndexOf(ids, id)
              && ids[Reordered(orders, ids)[id]] == id
              && (forall j :: Reordered(orders, ids)[id] < j < |ids| ==> ids[j] != id)
    ensures id !in ids ==> Reordered(orders, ids)[id] == orders[id]
  {
  }

  /**
   * Given the full current id list without repeats, the reorder assigns the
   * dense sequence 0..n-1, each id its own position, so a listing ordered by
   * sortOrder shows the rows in list order.
   */
  lemma {:induction false} FullListIsDense(orders: map<int, int>, ids: seq<int>)
    requires Distinct(ids)
    requires forall k :: 0 <= k < |ids| ==> ids[k] in orders
    requires forall id :: id in orders ==> id in ids
    ensures |ids| == |orders|
    ensures forall k :: 0 <= k < |ids| ==> Reordered(orders, ids)[ids[k]] == k
    ensures forall v :: v in Reordered(orders, ids).Values <==> 0 <= v < |ids|
    ensures forall j, k :: 0 <= j < k < |ids| ==> Reordered(orders, ids)[ids[j]] < Reordered(orders, ids)[ids[k]]
  {
    var after := Reordered(orders, ids);
    forall k | 0 <= k < |ids| ensures after[ids[k]] == k {
      DistinctPosition(ids, k);
    }
    assert forall v :: v in after.Values <==> 0 <= v < |ids| by {
      forall v | v in after.Values ensures 0 <= v < |ids| {
        var id :| id in after && after[id] == v;
        var k :| 0 <= k < |ids| && ids[k] == id;
      }
      forall k | 0 <= k < |ids| ensures k in after.Values {
        assert after[ids[k]] == k;
      }
    }
    DistinctCard(ids, orders.Keys);
  }

  /** A list without repeats that enumerates a set is as long as the set is large. */
  lemma {:induction false} DistinctCard(ids: seq<int>, keys: set<int>)
    requires Distinct(ids)
    requires forall id :: id in keys <==> id in ids
    ensures |ids| == |keys|
  {
    if |ids| > 0 {
      var last := ids[|ids| - 1];
      var init := ids[..|ids| - 1];
      assert forall id :: id in keys - {last} <==> id in init by {
        forall id ensures id in keys - {last} <==> id in init {
          if id in init {
            var j :| 0 <= j < |init| && init[j] == id;
            assert ids[j] == id;
          }
          if id in ids && id != last {
            var j :| 0 <= j < |ids| && ids[j] == id;
            assert j < |ids| - 1;
            assert init[j] == id;
          }
        }
      }
      DistinctCard(init, keys - {last});
    } else {
      assert forall id :: id !in keys;
      assert keys == {};
    }
  }

  /** A trailing unknown id changes nothing. */
  lemma UnknownIdIgnored(orders: map<int, int>, ids: seq<int>, x: int)
    requires x !in orders
    ensures Reordered(orders, ids + [x]) == Reordered(orders, ids)
  {
    forall id | id in orders ensures SortAfter(ids + [x], id, orders[id]) == SortAfter(ids, id, orders[id]) {
      assert (ids + [x])[..|ids|] == ids;
      SortAfterStep(ids + [x], |ids|, id, orders[id]);
      assert (ids + [x])[..|ids| + 1] == ids + [x];
    }
  }

  /** Reordering three rows to (c, a, b) gives them 0, 1 and 2. */
  lemma ThreeRowExample(a: int, b: int, c: int, oa: int, ob: int, oc: int)
    requires a != b && b != c && a != c
    ensures Reordered(map[a := oa, b := ob, c := oc], [c, a, b]) == map[c := 0, a := 1, b := 2]
  {
    var after := Reordered(map[a := oa, b := ob, c := oc], [c, a, b]);
    assert LastIndexOf([c, a, b], b) == 2;
    assert [c, a, b][..2] == [c, a];
    assert LastIndexOf([c, a, b], a) == 1;
    assert [c, a] [..1] == [c];
    assert LastIndexOf([c, a, b], c) == 0;
  }
}
