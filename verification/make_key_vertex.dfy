/** The "make key vertex" Operator: its input is a frame, its output the id
    of the key vertex it creates. The validity check and the computation are
    modelling assumptions: the operator is always valid, and computing
    creates one proposed key vertex at the given frame and remembers its id. */
module MakeKeyVertexOp {
  import opened Wrappers
  import opened Cells
  import opened OperatorBase

  /** A new "make key vertex" Operator for the given frame. */
  function Make(frame: Frame): (op: Operator)
    ensures op.kind.frame == frame && op.kind.keyVertexId.None?
    ensures !op.isValidated && !op.isComputed && !op.isApplied
    ensures op.numIdRequested == 0
    ensures op.newCells == [] && op.deletedCells == [] && op.cellsAfter == map[]
  {
    Init(MakeKeyVertex(frame, None))
  }

  /** Validity of the operator against the store (assumed: always valid). */
  predicate Valid(op: Operator, store: Store) {
    true
  }

  /** The computation: one new proposed key vertex, carrying the frame, whose
      id becomes the operator's output. */
  function Propose(op: Operator, store: Store): (r: Operator)
    requires NextId(op, store) !in op.cellsAfter
    ensures r.kind.keyVertexId == Some(NextId(op, store))
    ensures NextId(op, store) !in store
    ensures r.kind.frame == op.kind.frame
    ensures r.newCells == op.newCells + [NextId(op, store)]
    ensures r.cellsAfter.Keys == op.cellsAfter.Keys + {NextId(op, store)}
    ensures r.cellsAfter[NextId(op, store)] == OpKeyVertexData(op.kind.frame)
    ensures forall k :: k in op.cellsAfter ==> r.cellsAfter[k] == op.cellsAfter[k]
    ensures r.deletedCells == op.deletedCells
    ensures r.numIdRequested == op.numIdRequested + 1
    ensures r.isValidated == op.isValidated && r.valid == op.valid
    ensures r.isComputed == op.isComputed && r.isApplied == op.isApplied
  {
    var (op1, id) := NewKeyVertex(op, store);
    op1.(cellsAfter := op1.cellsAfter[id := OpKeyVertexData(op.kind.frame)],
         kind := op.kind.(keyVertexId := Some(id)))
  }

  /** The output is set exactly once computed, and names a created key vertex
      at the operator's frame. */
  predicate Outputs(op: Operator) {
    && (op.kind.keyVertexId.Some? <==> op.isComputed)
    && (op.isComputed ==>
          && op.kind.keyVertexId.value in op.newCells
          && op.kind.keyVertexId.value in op.cellsAfter
          && op.cellsAfter[op.kind.keyVertexId.value] == OpKeyVertexData(op.kind.frame))
  }

  /** Post-computation accessor: the id of the vertex the operator creates. */
  function KeyVertexId(op: Operator): (id: CellId)
    requires op.isComputed && Outputs(op)
    ensures id in op.newCells
    ensures id in op.cellsAfter && op.cellsAfter[id] == OpKeyVertexData(op.kind.frame)
  {
    op.kind.keyVertexId.value
  }

  /** Post-application accessor: the created key vertex as the store holds
      it, or nothing once some later edit has removed it. */
  function KeyVertex(op: Operator, store: Store): (r: Option<Cell>)
    requires op.isApplied && op.isComputed && Outputs(op)
    ensures r.Some? <==> KeyVertexId(op) in store
    ensures r.Some? ==> r.value == store[KeyVertexId(op)]
  {
    var id := KeyVertexId(op);
    if id in store then Some(store[id]) else None
  }
}
