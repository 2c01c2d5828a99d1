/** The Operator transaction protocol: validate, compute, apply. Each phase
    runs the subtype's own step at most once; apply commits the computed
    after-state to the cell store. */
module Operators {
  import opened Wrappers
  import opened Cells
  import opened IdLists
  import opened Allocator
  import opened CellStore
  import opened OperatorBase
  import MakeKeyVertexOp

  /** What every Operator reachable through the protocol satisfies: the flags
      only move forward, nothing is proposed before computing, every created
      id is listed once and has proposed data, and the subtype's outputs are
      in place once computed. */
  predicate Wf(op: Operator) {
    && (op.isComputed ==> op.isValidated && op.valid)
    && (op.isApplied ==> op.isComputed)
    && Distinct(op.newCells)
    && Elems(op.newCells) <= op.cellsAfter.Keys
    && (!op.isComputed ==> op.newCells == [] && op.deletedCells == [] && op.cellsAfter == map[])
    && match op.kind
       case MakeKeyVertex(_, _) => MakeKeyVertexOp.Outputs(op)
  }

  /** A freshly constructed Operator is well formed. */
  lemma InitWf(kind: OpKind)
    requires kind.keyVertexId.None?
    ensures Wf(Init(kind))
  {
  }

  /** The subtype's validity check. */
  function SubtypeIsValid(op: Operator, store: Store): bool {
    match op.kind
    case MakeKeyVertex(_, _) => MakeKeyVertexOp.Valid(op, store)
  }

  /** The subtype's computation, run on an Operator that has not computed. */
  function SubtypeCompute(op: Operator, store: Store): (r: Operator)
    requires Wf(op) && !op.isComputed && op.isValidated && op.valid
    ensures Wf(r.(isComputed := true))
    ensures !r.isApplied && r.isValidated && r.valid
  {
    match op.kind
    case MakeKeyVertex(_, _) =>
      var r := MakeKeyVertexOp.Propose(op, store);
      assert r.newCells == [NextId(op, store)];
      r
  }

  /** Validity, checked once and cached: the first call runs the subtype's
      check and records the answer; later calls return the recorded answer
      and change nothing. */
  function IsValid(op: Operator, store: Store): (r: (bool, Operator))
    ensures r.1.isValidated && r.0 == r.1.valid
    ensures op.isValidated ==> r.0 == op.valid && r.1 == op
    ensures !op.isValidated ==> r.0 == SubtypeIsValid(op, store)
    ensures r.1.(isValidated := op.isValidated, valid := op.valid) == op
    ensures Wf(op) ==> Wf(r.1)
  {
    if op.isValidated then (op.valid, op)
    else
      var v := SubtypeIsValid(op, store);
      (v, op.(isValidated := true, valid := v))
  }

  /** Memoisation: once asked, the answer stays fixed whatever the store. */
  lemma IsValidMemoised(op: Operator, store: Store, later: Store)
    ensures IsValid(IsValid(op, store).1, later) == IsValid(op, store)
  {
  }

  /** Computing requires validity, runs the subtype's computation the first
      time only, and leaves the Operator computed. */
  function Compute(op: Operator, store: Store): (r: Operator)
    requires Wf(op) && IsValid(op, store).0
    ensures Wf(r) && r.isComputed && r.isValidated && r.valid
    ensures r.isApplied == op.isApplied
    ensures op.isComputed ==> r == op
  {
    var (_, op1) := IsValid(op, store);
    if op1.isComputed then op1
    else SubtypeCompute(op1, store).(isComputed := true)
  }

  /** Computing again, against any store, changes nothing. */
  lemma ComputeIdempotent(op: Operator, store: Store, later: Store)
    requires Wf(op) && IsValid(op, store).0
    ensures IsValid(Compute(op, store), later).0
    ensures Compute(Compute(op, store), later) == Compute(op, store)
  {
  }

  /** When apply may be called: the Operator is valid and not yet applied. */
  predicate CanApply(op: Operator, store: Store) {
    Wf(op) && !op.isApplied && IsValid(op, store).0
  }

  /** Applying computes first if need be, commits the proposed after-state
      to the store (deletions, then insertions, then data), and leaves the
      Operator applied. A store refusal aborts the application. */
  function Apply(op: Operator, store: Store): (r: Result<(Operator, Store), StoreError>)
    requires CanApply(op, store)
    ensures var c := Compute(op, store);
            r.Ok? <==> CanApplyEffects(store, c.newCells, c.deletedCells, c.cellsAfter)
    ensures var c := Compute(op, store);
            r.Ok? ==> r.value.0 == c.(isApplied := true)
                      && r.value.1 == AppliedStore(store, c.newCells, c.deletedCells, c.cellsAfter)
    ensures r.Ok? ==> Wf(r.value.0) && r.value.0.isComputed && r.value.0.isApplied
    ensures r.Ok? ==> forall s :: !CanApply(r.value.0, s)
  {
    var c := Compute(op, store);
    ApplyEffectsSpec(store, c.newCells, c.deletedCells, c.cellsAfter);
    var after :- ApplyEffects(store, c.newCells, c.deletedCells, c.cellsAfter);
    Ok((c.(isApplied := true), after))
  }
}
