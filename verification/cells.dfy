/** The cell data model of a Vector Animation Complex: identifiers, cell
    kinds, committed cell data, the proposed data an Operator builds, and the
    committed cell store. */
module Cells {

  /** Cell identifiers are naturals, totally ordered. */
  type CellId = nat

  /** A time coordinate; the model only relies on equality. */
  type Frame = int

  /** The cell kinds the engine can construct. */
  datatype CellKind = KeyVertex | KeyEdge

  /** Committed payload of a cell. */
  datatype CellData = KeyVertexData(frame: Frame) | KeyEdgeData(frame: Frame) {
    function Kind(): CellKind {
      if KeyVertexData? then KeyVertex else KeyEdge
    }
  }

  /** Proposed payload, owned by an Operator until it is applied. */
  datatype OpCellData = OpKeyVertexData(frame: Frame) | OpKeyEdgeData(frame: Frame) {
    function Kind(): CellKind {
      if OpKeyVertexData? then KeyVertex else KeyEdge
    }
  }

  /** A committed cell: its kind never changes, its data may be rewritten. */
  datatype Cell = Cell(kind: CellKind, data: CellData)

  /** A cell whose data matches its kind. */
  predicate WellKinded(c: Cell) {
    c.data.Kind() == c.kind
  }

  /** The committed store: every live cell, by id. */
  type Store = map<CellId, Cell>

  predicate StoreWellKinded(store: Store) {
    forall id :: id in store ==> WellKinded(store[id])
  }

  /** The freshly allocated proposed data of a given kind. */
  function DefaultOpData(kind: CellKind): (d: OpCellData)
    ensures d.Kind() == kind
  {
    match kind
    case KeyVertex => OpKeyVertexData(0)
    case KeyEdge => OpKeyEdgeData(0)
  }

  /** Construction of a committed cell of the given kind, with default data
      that the later data copy overwrites. */
  function MakeCell(kind: CellKind): (c: Cell)
    ensures c.kind == kind
    ensures WellKinded(c)
  {
    match kind
    case KeyVertex => Cell(KeyVertex, KeyVertexData(0))
    case KeyEdge => Cell(KeyEdge, KeyEdgeData(0))
  }

  /** Conversion of proposed data into committed data. */
  function Convert(d: OpCellData): (r: CellData)
    ensures r.Kind() == d.Kind()
    ensures r.frame == d.frame
  {
    match d
    case OpKeyVertexData(f) => KeyVertexData(f)
    case OpKeyEdgeData(f) => KeyEdgeData(f)
  }

  /** Reading committed data back as a proposal. */
  function Proposal(d: CellData): (r: OpCellData)
    ensures r.Kind() == d.Kind()
    ensures r.frame == d.frame
  {
    match d
    case KeyVertexData(f) => OpKeyVertexData(f)
    case KeyEdgeData(f) => OpKeyEdgeData(f)
  }

  /** Conversion loses nothing: reading back what was committed gives the
      proposal that was written. */
  lemma ConvertRoundTrip(d: OpCellData)
    ensures Proposal(Convert(d)) == d
    ensures Convert(Proposal(Convert(d))) == Convert(d)
  {
  }
}
