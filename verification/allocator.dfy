/** The deterministic cell-id allocator: for a set of ids in use, the n
    smallest naturals not in use, in increasing order. Asking again for the
    same count gives the same ids; asking for more extends the answer. */
module Allocator {
  import opened Cells
  import opened IdLists

  /** The ids in use at or above `from`. */
  function UsedFrom(used: set<CellId>, from: CellId): set<CellId> {
    set id | id in used && id >= from
  }

  /** The smallest free id at or above `from`. */
  function NextFree(used: set<CellId>, from: CellId): (r: CellId)
    ensures r >= from && r !in used
    decreases UsedFrom(used, from)
  {
    if from !in used then from
    else
      assert from in UsedFrom(used, from) && from !in UsedFrom(used, from + 1);
      NextFree(used, from + 1)
  }

  /** Nothing free is skipped: every id from `from` up to the answer is in
      use. */
  lemma {:induction false} NextFreeLeast(used: set<CellId>, from: CellId)
    ensures forall k :: from <= k < NextFree(used, from) ==> k in used
    decreases UsedFrom(used, from)
  {
    if from in used {
      assert from in UsedFrom(used, from) && from !in UsedFrom(used, from + 1);
      NextFreeLeast(used, from + 1);
    }
  }

  /** The first n free ids. */
  function AvailableIds(used: set<CellId>, n: nat): (ids: seq<CellId>)
    ensures |ids| == n
    ensures forall i :: 0 <= i < n ==> ids[i] !in used
  {
    if n == 0 then []
    else
      var prev := AvailableIds(used, n - 1);
      prev + [NextFree(used, if n == 1 then 0 else prev[n - 2] + 1)]
  }

  /** The ids come out in strictly increasing order. */
  lemma {:induction false} AvailableIdsIncreasing(used: set<CellId>, n: nat)
    ensures forall i, j :: 0 <= i < j < n ==> AvailableIds(used, n)[i] < AvailableIds(used, n)[j]
  {
    if n > 0 {
      AvailableIdsIncreasing(used, n - 1);
      var ids := AvailableIds(used, n);
      var prev := AvailableIds(used, n - 1);
      assert ids[..n - 1] == prev;
      forall i, j | 0 <= i < j < n ensures ids[i] < ids[j] {
        if j < n - 1 {
          assert ids[i] == prev[i] && ids[j] == prev[j];
        } else if i < n - 2 {
          assert ids[i] == prev[i] < prev[n - 2] == ids[n - 2];
        }
      }
    }
  }

  /** The ids are the least free ones: every free id below the last one
      handed out was handed out too. */
  lemma {:induction false} AvailableIdsLeast(used: set<CellId>, n: nat)
    requires n > 0
    ensures forall k :: k < AvailableIds(used, n)[n - 1] && k !in used ==> k in AvailableIds(used, n)
  {
    var ids := AvailableIds(used, n);
    if n == 1 {
      NextFreeLeast(used, 0);
    } else {
      AvailableIdsLeast(used, n - 1);
      var prev := AvailableIds(used, n - 1);
      assert ids == prev + [ids[n - 1]];
      NextFreeLeast(used, prev[n - 2] + 1);
      forall k | k < ids[n - 1] && k !in used ensures k in ids {
        if k < prev[n - 2] {
          assert k in prev;
        } else if k == prev[n - 2] {
          assert ids[n - 2] == k;
        }
      }
    }
  }

  /** The answer for n has no repeated id and no id in use. */
  lemma AvailableIdsDistinct(used: set<CellId>, n: nat)
    ensures Distinct(AvailableIds(used, n))
    ensures Elems(AvailableIds(used, n)) !! used
  {
    AvailableIdsIncreasing(used, n);
  }

  /** Prefix stability: the first m ids of a request for n are the ids of a
      request for m. */
  lemma {:induction false} AvailableIdsPrefix(used: set<CellId>, m: nat, n: nat)
    requires m <= n
    ensures AvailableIds(used, n)[..m] == AvailableIds(used, m)
    decreases n
  {
    if m < n {
      AvailableIdsPrefix(used, m, n - 1);
      assert AvailableIds(used, n)[..n - 1] == AvailableIds(used, n - 1);
    }
  }

  /** The ids between positions a and b of a request for b are distinct,
      free, and none of them was among the first a. */
  lemma AvailableIdsTail(used: set<CellId>, a: nat, b: nat)
    requires a <= b
    ensures Distinct(AvailableIds(used, b)[a..])
    ensures Elems(AvailableIds(used, b)[a..]) !! used
    ensures Elems(AvailableIds(used, b)[a..]) !! Elems(AvailableIds(used, a))
  {
    var ids := AvailableIds(used, b);
    var tail := ids[a..];
    AvailableIdsPrefix(used, a, b);
    AvailableIdsIncreasing(used, b);
    forall i, j | 0 <= i < j < |tail| ensures tail[i] != tail[j] {
      assert tail[i] == ids[a + i] && tail[j] == ids[a + j];
    }
    forall i | 0 <= i < |tail| ensures tail[i] !in AvailableIds(used, a) {
      assert tail[i] == ids[a + i];
    }
  }

  /** The ids from position a, split at a + m: the first part is what a
      request for a + m adds after a, the rest what a request for a + m + n
      adds after a + m. */
  lemma AvailableIdsSplit(used: set<CellId>, a: nat, m: nat, n: nat)
    ensures AvailableIds(used, a + m)[a..] + AvailableIds(used, a + m + n)[a + m..]
            == AvailableIds(used, a + m + n)[a..]
  {
    var ids := AvailableIds(used, a + m + n);
    AvailableIdsPrefix(used, a + m, a + m + n);
    SliceOfPrefix(ids, AvailableIds(used, a + m), a, a + m);
    SliceSplit(ids, a, a + m);
  }
}
