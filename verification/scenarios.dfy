/** Whole-transaction properties: a "make key vertex" Operator driven through
    validate, compute and apply, id freshness across requests, and the
    delete-before-insert order of application. */
module Scenarios {
  import opened Wrappers
  import opened Cells
  import opened IdLists
  import opened Allocator
  import opened CellStore
  import opened OperatorBase
  import opened Operators
  import MakeKeyVertexOp

  /** Two successive single-id requests give two different ids, neither of
      them live in the store. */
  lemma TwoRequestsDistinct(op: Operator, store: Store)
    ensures var (op1, first) := GetAvailableId(op, store);
            var (_, second) := GetAvailableId(op1, store);
            first != second && first !in store && second !in store
  {
    var (op1, first) := GetAvailableId(op, store);
    assert first in Requested(op1, store);
  }

  /** Validating and computing a "make key vertex" Operator proposes exactly
      one key vertex, at the first free id, carrying the operator's frame. */
  lemma MakeKeyVertexComputes(store: Store, frame: Frame)
    ensures var (valid, op1) := IsValid(MakeKeyVertexOp.Make(frame), store);
            && valid && CanApply(op1, store)
            && var c := Compute(op1, store);
               var id := AvailableIds(store.Keys, 1)[0];
               && id !in store
               && c.newCells == [id] && c.deletedCells == []
               && c.cellsAfter == map[id := OpKeyVertexData(frame)]
               && MakeKeyVertexOp.KeyVertexId(c) == id
  {
    var op0 := MakeKeyVertexOp.Make(frame);
    InitWf(op0.kind);
    var (valid, op1) := IsValid(op0, store);
    var id := AvailableIds(store.Keys, 1)[0];
    assert NextId(op1, store) == id;
  }

  /** Driving a "make key vertex" Operator through validate and apply on any
      store succeeds, adds exactly one key vertex at the first free id with
      the operator's frame, and leaves every other cell alone. */
  lemma MakeKeyVertexTransaction(store: Store, frame: Frame)
    ensures var (_, op1) := IsValid(MakeKeyVertexOp.Make(frame), store);
            && CanApply(op1, store)
            && Apply(op1, store).Ok?
            && var (op2, after) := Apply(op1, store).value;
               var id := AvailableIds(store.Keys, 1)[0];
               && id !in store
               && MakeKeyVertexOp.KeyVertexId(op2) == id
               && op2.newCells == [id] && op2.deletedCells == []
               && after == store[id := Cell(KeyVertex, KeyVertexData(frame))]
               && MakeKeyVertexOp.KeyVertex(op2, after) == Some(Cell(KeyVertex, KeyVertexData(frame)))
  {
    MakeKeyVertexComputes(store, frame);
    var (_, op1) := IsValid(MakeKeyVertexOp.Make(frame), store);
    var c := Compute(op1, store);
    var id := AvailableIds(store.Keys, 1)[0];
    assert Elems(c.newCells) == {id};
    assert CanApplyEffects(store, c.newCells, c.deletedCells, c.cellsAfter);
    var after := Apply(op1, store).value.1;
    assert after == store[id := Cell(KeyVertex, KeyVertexData(frame))];
  }

  /** On an empty store the first key vertex gets id 0. */
  lemma MakeKeyVertexOnEmptyStore()
    ensures var (_, op1) := IsValid(MakeKeyVertexOp.Make(5), map[]);
            Apply(op1, map[]).Ok?
            && Apply(op1, map[]).value.1 == map[0 := Cell(KeyVertex, KeyVertexData(5))]
  {
    MakeKeyVertexTransaction(map[], 5);
    assert AvailableIds({}, 1) == [0];
  }

  /** What an applied Operator proposed can be read back from the store:
      each touched cell's data converts back to exactly its proposal. */
  lemma ApplyReadBack(op: Operator, store: Store)
    requires CanApply(op, store) && Apply(op, store).Ok?
    ensures var c := Compute(op, store);
            var after := Apply(op, store).value.1;
            forall k :: k in c.cellsAfter ==> k in after && Proposal(after[k].data) == c.cellsAfter[k]
  {
    var c := Compute(op, store);
    var after := Apply(op, store).value.1;
    forall k | k in c.cellsAfter ensures k in after && Proposal(after[k].data) == c.cellsAfter[k] {
      ConvertRoundTrip(c.cellsAfter[k]);
    }
  }

  /** An id both deleted and re-created in one application ends with the new
      kind and data: the deletion happens before the insertion. */
  lemma DeleteThenRecreate(store: Store, newCells: seq<CellId>, deletedCells: seq<CellId>,
                           proposed: map<CellId, OpCellData>, id: CellId)
    requires Elems(newCells) <= proposed.Keys
    requires id in deletedCells && id in newCells
    requires CanApplyEffects(store, newCells, deletedCells, proposed)
    ensures ApplyEffects(store, newCells, deletedCells, proposed).Ok?
    ensures ApplyEffects(store, newCells, deletedCells, proposed).value[id]
            == Cell(proposed[id].Kind(), Convert(proposed[id]))
  {
    ApplyEffectsSpec(store, newCells, deletedCells, proposed);
  }

  /** The concrete case: key edge 3 deleted and key vertex 3 created. */
  lemma DeleteThenRecreateExample()
    ensures ApplyEffects(map[3 := Cell(KeyEdge, KeyEdgeData(1))], [3], [3],
                         map[3 := OpKeyVertexData(7)])
            == Ok(map[3 := Cell(KeyVertex, KeyVertexData(7))])
  {
    var store := map[3 := Cell(KeyEdge, KeyEdgeData(1))];
    var proposed := map[3 := OpKeyVertexData(7)];
    assert Elems([3]) == {3};
    assert CanApplyEffects(store, [3], [3], proposed);
    ApplyEffectsSpec(store, [3], [3], proposed);
    assert AppliedStore(store, [3], [3], proposed) == map[3 := Cell(KeyVertex, KeyVertexData(7))];
  }
}
