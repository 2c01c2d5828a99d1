/** The state an Operator carries through its transaction, and the base
    services its subtypes use while computing: id requests against the
    deterministic allocator and the creation of proposed cells. */
module OperatorBase {
  import opened Wrappers
  import opened Cells
  import opened IdLists
  import opened Allocator

  /** The closed set of Operator subtypes with their own inputs and outputs.
      Making a key vertex takes a frame and, once computed, knows the id of
      the vertex it creates. */
  datatype OpKind = MakeKeyVertex(frame: Frame, keyVertexId: Option<CellId>)

  /** An Operator: the three one-shot flags, the cached validity, the number
      of ids requested so far, and the proposed after-state. */
  datatype Operator = Operator(
    kind: OpKind,
    isValidated: bool,
    valid: bool,
    isComputed: bool,
    isApplied: bool,
    numIdRequested: nat,
    newCells: seq<CellId>,
    deletedCells: seq<CellId>,
    cellsAfter: map<CellId, OpCellData>)

  /** A freshly constructed Operator of the given subtype. */
  function Init(kind: OpKind): (op: Operator)
    ensures !op.isValidated && !op.isComputed && !op.isApplied
    ensures op.numIdRequested == 0
    ensures op.newCells == [] && op.deletedCells == [] && op.cellsAfter == map[]
    ensures op.kind == kind
  {
    Operator(kind, false, false, false, false, 0, [], [], map[])
  }

  /** The ids this Operator has been handed so far, re-derived from the
      store's allocator. */
  function Requested(op: Operator, store: Store): seq<CellId> {
    AvailableIds(store.Keys, op.numIdRequested)
  }

  /** Request one more id: the counter grows by one, and the answer is the
      last entry of the regenerated prefix. */
  function GetAvailableId(op: Operator, store: Store): (r: (Operator, CellId))
    ensures r.0 == op.(numIdRequested := op.numIdRequested + 1)
    ensures r.1 !in store
    ensures r.1 !in Requested(op, store)
    ensures Requested(r.0, store) == Requested(op, store) + [r.1]
  {
    var n := op.numIdRequested + 1;
    var ids := AvailableIds(store.Keys, n);
    AvailableIdsPrefix(store.Keys, n - 1, n);
    AvailableIdsTail(store.Keys, n - 1, n);
    assert ids[n - 1] in Elems(ids[n - 1..]);
    assert ids == ids[..n - 1] + [ids[n - 1]];
    (op.(numIdRequested := n), ids[n - 1])
  }

  /** Request `count` more ids: the counter grows by `count`, and the answer
      is the new tail of the regenerated prefix. */
  function GetAvailableIds(op: Operator, store: Store, count: nat): (r: (Operator, seq<CellId>))
    ensures r.0 == op.(numIdRequested := op.numIdRequested + count)
    ensures |r.1| == count
  {
    var n := op.numIdRequested + count;
    (op.(numIdRequested := n), AvailableIds(store.Keys, n)[op.numIdRequested..])
  }

  /** A request extends the record of ids handed out by exactly the ids it
      returns. */
  lemma GetAvailableIdsExtends(op: Operator, store: Store, count: nat)
    ensures Requested(GetAvailableIds(op, store, count).0, store)
            == Requested(op, store) + GetAvailableIds(op, store, count).1
  {
    var n := op.numIdRequested + count;
    var ids := AvailableIds(store.Keys, n);
    AvailableIdsPrefix(store.Keys, op.numIdRequested, n);
    assert ids == ids[..op.numIdRequested] + ids[op.numIdRequested..];
  }

  /** The ids of one request are distinct, not live, and new to this
      Operator. */
  lemma GetAvailableIdsFresh(op: Operator, store: Store, count: nat)
    ensures Distinct(GetAvailableIds(op, store, count).1)
    ensures Elems(GetAvailableIds(op, store, count).1) !! store.Keys
    ensures Elems(GetAvailableIds(op, store, count).1) !! Elems(Requested(op, store))
  {
    AvailableIdsTail(store.Keys, op.numIdRequested, op.numIdRequested + count);
  }

  /** A single request is a request for one id. */
  lemma GetAvailableIdIsSingleRequest(op: Operator, store: Store)
    ensures GetAvailableIds(op, store, 1).0 == GetAvailableId(op, store).0
    ensures GetAvailableIds(op, store, 1).1 == [GetAvailableId(op, store).1]
  {
  }

  /** Two successive requests hand out, together, what one request for both
      counts would, and leave the same counter. */
  lemma SuccessiveRequests(op: Operator, store: Store, m: nat, n: nat)
    ensures GetAvailableIds(GetAvailableIds(op, store, m).0, store, n).0
            == GetAvailableIds(op, store, m + n).0
    ensures GetAvailableIds(op, store, m).1 + GetAvailableIds(GetAvailableIds(op, store, m).0, store, n).1
            == GetAvailableIds(op, store, m + n).1
  {
    AvailableIdsSplit(store.Keys, op.numIdRequested, m, n);
  }

  /** No id is handed out twice by two successive requests. */
  lemma SuccessiveRequestsDisjoint(op: Operator, store: Store, m: nat, n: nat)
    ensures Elems(GetAvailableIds(op, store, m).1)
            !! Elems(GetAvailableIds(GetAvailableIds(op, store, m).0, store, n).1)
  {
    SuccessiveRequests(op, store, m, n);
    GetAvailableIdsFresh(op, store, m + n);
    DistinctHalves(GetAvailableIds(op, store, m).1,
                   GetAvailableIds(GetAvailableIds(op, store, m).0, store, n).1);
  }

  /** The id the next request would return. */
  function NextId(op: Operator, store: Store): CellId {
    GetAvailableId(op, store).1
  }

  /** Create a proposed cell of the given kind at the next id, with fresh
      default data, and record the id as created by this Operator. The caller
      must not already hold proposed data at that id (the source aborts). */
  function NewCell(op: Operator, store: Store, kind: CellKind): (r: (Operator, CellId))
    requires NextId(op, store) !in op.cellsAfter
    ensures r.1 !in store && r.1 !in Requested(op, store) && r.1 !in op.cellsAfter
    ensures r.0.numIdRequested == op.numIdRequested + 1
    ensures r.0.newCells == op.newCells + [r.1]
    ensures r.0.cellsAfter.Keys == op.cellsAfter.Keys + {r.1}
    ensures r.0.cellsAfter[r.1] == DefaultOpData(kind)
    ensures forall k :: k in op.cellsAfter ==> r.0.cellsAfter[k] == op.cellsAfter[k]
    ensures r.0.kind == op.kind && r.0.deletedCells == op.deletedCells
    ensures r.0.isValidated == op.isValidated && r.0.valid == op.valid
    ensures r.0.isComputed == op.isComputed && r.0.isApplied == op.isApplied
  {
    var (op1, id) := GetAvailableId(op, store);
    (op1.(cellsAfter := op1.cellsAfter[id := DefaultOpData(kind)], newCells := op1.newCells + [id]), id)
  }

  /** A proposed key vertex at the next id. */
  function NewKeyVertex(op: Operator, store: Store): (r: (Operator, CellId))
    requires NextId(op, store) !in op.cellsAfter
    ensures r.1 !in store && r.1 !in op.cellsAfter
    ensures r.0.newCells == op.newCells + [r.1]
    ensures r.0.cellsAfter.Keys == op.cellsAfter.Keys + {r.1}
    ensures r.0.cellsAfter[r.1] == DefaultOpData(KeyVertex)
    ensures r.0.cellsAfter[r.1].OpKeyVertexData?
    ensures r.0.numIdRequested == op.numIdRequested + 1
    ensures forall k :: k in op.cellsAfter ==> r.0.cellsAfter[k] == op.cellsAfter[k]
    ensures r.0.kind == op.kind && r.0.deletedCells == op.deletedCells
    ensures r.0.isValidated == op.isValidated && r.0.valid == op.valid
    ensures r.0.isComputed == op.isComputed && r.0.isApplied == op.isApplied
  {
    NewCell(op, store, KeyVertex)
  }

  /** A proposed key edge at the next id. */
  function NewKeyEdge(op: Operator, store: Store): (r: (Operator, CellId))
    requires NextId(op, store) !in op.cellsAfter
    ensures r.1 !in store && r.1 !in op.cellsAfter
    ensures r.0.newCells == op.newCells + [r.1]
    ensures r.0.cellsAfter.Keys == op.cellsAfter.Keys + {r.1}
    ensures r.0.cellsAfter[r.1] == DefaultOpData(KeyEdge)
    ensures r.0.cellsAfter[r.1].OpKeyEdgeData?
    ensures r.0.numIdRequested == op.numIdRequested + 1
    ensures forall k :: k in op.cellsAfter ==> r.0.cellsAfter[k] == op.cellsAfter[k]
    ensures r.0.kind == op.kind && r.0.deletedCells == op.deletedCells
    ensures r.0.isValidated == op.isValidated && r.0.valid == op.valid
    ensures r.0.isComputed == op.isComputed && r.0.isApplied == op.isApplied
  {
    NewCell(op, store, KeyEdge)
  }

  /** Proposed data only for live cells or for ids this Operator was handed. */
  predicate ProposalsKnown(op: Operator, store: Store) {
    op.cellsAfter.Keys <= store.Keys + Elems(Requested(op, store))
  }

  /** While proposals stay on known ids, the abort in NewCell cannot fire,
      and creating a cell keeps proposals on known ids. */
  lemma NewCellNeverAborts(op: Operator, store: Store, kind: CellKind)
    requires ProposalsKnown(op, store)
    ensures NextId(op, store) !in op.cellsAfter
    ensures ProposalsKnown(NewCell(op, store, kind).0, store)
  {
    var (op1, id) := GetAvailableId(op, store);
    assert Elems(Requested(op1, store)) == Elems(Requested(op, store)) + {id};
  }
}
