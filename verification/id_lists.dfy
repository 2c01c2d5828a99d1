/** Lists of cell ids: the ids a list mentions, lists without repetition,
    and the slicing facts the allocator's proofs rely on. */
module IdLists {
  import opened Cells

  /** The ids a list mentions. */
  function Elems(ids: seq<CellId>): set<CellId> {
    set id | id in ids
  }

  /** A list of ids with no repetition. */
  predicate Distinct(ids: seq<CellId>) {
    forall i, j :: 0 <= i < j < |ids| ==> ids[i] != ids[j]
  }

  /** The two halves of a list without repetition share no id. */
  lemma DistinctHalves(x: seq<CellId>, y: seq<CellId>)
    requires Distinct(x + y)
    ensures Elems(x) !! Elems(y)
  {
    forall i, j | 0 <= i < |x| && 0 <= j < |y| ensures x[i] != y[j] {
      assert (x + y)[i] == x[i] && (x + y)[|x| + j] == y[j];
    }
  }

  /** A slice of a prefix is a slice of the whole. */
  lemma SliceOfPrefix(s: seq<CellId>, t: seq<CellId>, a: nat, b: nat)
    requires a <= b <= |s| && t == s[..b]
    ensures t[a..] == s[a..b]
  {
  }

  /** A suffix splits at any later position. */
  lemma SliceSplit(s: seq<CellId>, a: nat, b: nat)
    requires a <= b <= |s|
    ensures s[a..] == s[a..b] + s[b..]
  {
  }
}
