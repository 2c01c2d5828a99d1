# OpenVAC Operators: a verified model of the transactional edit protocol

This project models the core of the OpenVAC topology engine used by the
VPaint vector-graphics editor: the `Operator`, a one-shot transaction that
edits the Vector Animation Complex (VAC), together with its concrete
subtype `OpMakeKeyVertex`.

An Operator goes through validate, compute and apply. Validation runs the
subtype's check once and caches the answer. Computation, which requires
validity, runs the subtype's step once. It fills three things: the list of
cells to create (`newCells`), the list of cells to destroy
(`deletedCells`), and a map from cell id to the proposed cell data
(`cellsAfter`). Applying, which requires that the Operator has not been
applied, computes first if need be and then commits to the cell store in a
fixed order: remove the deleted ids, insert the new cells, then overwrite
the data of every touched cell with the converted proposal.

New ids come from a deterministic allocator. The store is not changed
between requests, so asking again returns the same ids. The Operator
therefore keeps a count of ids requested so far. Each request regenerates
the whole prefix of that length and keeps only the new tail.

Modules, one per component:

- `Wrappers` (wrappers.dfy): `Option` and `Result`.
- `IdLists` (id_lists.dfy): lists of ids without repetition and the
  slicing facts used by the allocator proofs.
- `Cells` (cells.dfy): ids, frames, cell kinds, committed and proposed
  data, cells and the store (a `map` from id to cell). Also the kind
  dispatch `make_shared` and the proposed-to-committed conversion.
- `Allocator` (allocator.dfy): the allocator, as a pure function
  returning the n smallest ids not in use.
- `CellStore` (cell_store.dfy): the store's insert and remove, and the
  three passes of `apply_`. A refusal by the store is an error result.
- `OperatorBase` (operator_base.dfy): the Operator record, the id requests
  `getAvailableId_`/`getAvailableIds_`, and `newKeyVertex`/`newKeyEdge`.
- `MakeKeyVertexOp` (make_key_vertex.dfy): the `OpMakeKeyVertex` subtype
  and its two accessors.
- `Operators` (operators.dfy): `isValid`, `compute`, `apply` and the
  dispatch over the closed set of subtypes.
- `Scenarios` (scenarios.dfy): whole-transaction properties.

The Operator's polymorphism becomes the closed datatype `OpKind`. Shared
and weak handles (`CellSharedPtr`, `WeakPtr`) become plain values in the store map, and a handle
becomes a lookup by id. The `VAC` the Operator points to becomes an
explicit `store` parameter. `isValid` and `compute` take the store but
never return it, so they cannot change it.

Each `assert` in the source is a usage error and becomes a `requires`:
`compute` needs validity, `apply` needs not-yet-applied, `newCell` needs
an id not already proposed, and the accessors need computed or applied.
Every Operator built by the protocol also satisfies `Operators.Wf`:
`Operators.InitWf` proves it for a fresh Operator, and `IsValid`,
`Compute` and `Apply` preserve it. So `Compute` and `Apply` also
require `Wf`.

## Model

| member | source | states |
|---|---|---|
| `OperatorBase.Init` | src/OpenVAC/src/OpenVAC/Operators/Operator.cpp:19-26 | A new Operator has validated, computed and applied false, an id counter of 0, and nothing proposed |
| `Operators.InitWf` | src/OpenVAC/src/OpenVAC/Operators/Operator.cpp:19-26 | A freshly constructed Operator satisfies the protocol invariant `Wf` |
| `Operators.IsValid` | src/OpenVAC/src/OpenVAC/Operators/Operator.cpp:33-41 | The first call runs the subtype check and caches the answer. Later calls return the cached answer and return the Operator unchanged. Only the two validity fields ever change, and `Wf` is preserved |
| `Operators.IsValidMemoised` | src/OpenVAC/src/OpenVAC/Operators/Operator.cpp:33-41 | A second call, even against a different store, returns the same answer and Operator as the first: the check runs at most once |
| `Operators.Compute` | src/OpenVAC/src/OpenVAC/Operators/Operator.cpp:43-52 | Requires validity. The result is computed, validated, valid and well formed, with the applied flag unchanged. An already computed Operator is returned unchanged |
| `Operators.ComputeIdempotent` | src/OpenVAC/src/OpenVAC/Operators/Operator.cpp:43-52 | Computing a computed Operator again, against any store, is allowed and changes nothing |
| `Operators.SubtypeCompute` | src/OpenVAC/src/OpenVAC/Operators/Operator.cpp:46-50 | The subtype step, run on an uncomputed Operator, yields an Operator that is well formed once flagged computed, and is still unapplied and valid |
| `Operators.Apply` | src/OpenVAC/src/OpenVAC/Operators/Operator.cpp:59-66 | Requires not applied and valid. Success holds exactly when the removals, insertions and copies of the computed Operator are all allowed. Then the store is the reference after-state `CellStore.AppliedStore`, and the Operator is the computed one with applied set. Afterwards no store permits another apply |
| `CellStore.Insert` | src/OpenVAC/src/OpenVAC/Operators/Operator.cpp:94-95 | Insertion succeeds exactly when the id is not live. It adds that one id with the given cell and keeps every other cell |
| `CellStore.Remove` | src/OpenVAC/src/OpenVAC/Operators/Operator.cpp:86-89 | Removal succeeds exactly when the id is live. It drops that one id and keeps every other cell |
| `CellStore.InsertRemoveInverse` | src/OpenVAC/src/OpenVAC/Operators/Operator.cpp:85-96 | Removing a just-inserted id gives back the original store, and re-inserting a just-removed cell restores it |
| `CellStore.RemoveAll` | src/OpenVAC/src/OpenVAC/Operators/Operator.cpp:85-89 | Removing a list of ids succeeds exactly when the list has no repeat and every id is live. The result lacks exactly those ids and keeps every other cell |
| `CellStore.InsertAll` | src/OpenVAC/src/OpenVAC/Operators/Operator.cpp:91-96 | Inserting a list of new ids succeeds exactly when the list has no repeat and no id is live. Each new id gets a fresh cell of the kind its proposal records. Old cells are kept |
| `CellStore.CopyData` | src/OpenVAC/src/OpenVAC/Operators/Operator.cpp:98-107 | The data copy succeeds exactly when every proposed id is live. Each proposed cell keeps its kind and gets the converted proposal as data. The key set and all other cells are unchanged |
| `CellStore.ApplyEffects` | src/OpenVAC/src/OpenVAC/Operators/Operator.cpp:83-108 | Characterises when the whole application succeeds. Deleted ids that are not re-created are absent afterwards. New ids are present with the proposed kind. Every proposed id carries its converted data. Rewritten old cells keep their kind. Ids mentioned nowhere keep their cell or stay absent |
| `CellStore.ApplyEffectsSpec` | src/OpenVAC/src/OpenVAC/Operators/Operator.cpp:83-108 | The application succeeds exactly under `CanApplyEffects`, and then equals the independent id-by-id reference `AppliedStore` |
| `CellStore.ApplyEffectsWellKinded` | src/OpenVAC/src/OpenVAC/Operators/Operator.cpp:98-107 | Application keeps every cell's data matching its kind, provided each rewritten old cell is given data of its own kind |
| `Scenarios.DeleteThenRecreate` | src/OpenVAC/src/OpenVAC/Operators/Operator.cpp:85-96 | An id that is both deleted and created ends up with the new kind and the new data, because deletions come before insertions |
| `Scenarios.DeleteThenRecreateExample` | src/OpenVAC/src/OpenVAC/Operators/Operator.cpp:85-96 | Key edge 3 deleted and key vertex 3 created gives a store holding only the new key vertex 3 |
| `Scenarios.ApplyReadBack` | src/OpenVAC/src/OpenVAC/Operators/Operator.cpp:98-107 | After a successful apply, every proposed cell is in the store and its data reads back as exactly the proposal |
| `Cells.MakeCell` | src/OpenVAC/src/OpenVAC/Operators/Operator.cpp:165-174 | Kind dispatch builds a cell of the requested kind whose data matches that kind |
| `Cells.Convert` | src/OpenVAC/src/OpenVAC/Operators/Operator.cpp:99-106 | Conversion keeps the kind and the frame of the proposal |
| `Cells.Proposal` | src/OpenVAC/src/OpenVAC/Operators/Operator.cpp:99-106 | Not a function of the source: the inverse of the conversion, which `Cells.ConvertRoundTrip` and `Scenarios.ApplyReadBack` use to read committed data back; it keeps the kind and the frame |
| `Cells.ConvertRoundTrip` | src/OpenVAC/src/OpenVAC/Operators/Operator.cpp:99-106 | Converting a proposal and reading it back gives the proposal: nothing is lost |
| `Cells.DefaultOpData` | src/OpenVAC/src/OpenVAC/Operators/Operator.cpp:118-119 | The freshly allocated proposed data has the requested kind |
| `Allocator.NextFree` | src/OpenVAC/src/OpenVAC/Operators/Operator.cpp:146-150 | The next free id at or above a bound is not in use |
| `Allocator.NextFreeLeast` | src/OpenVAC/src/OpenVAC/Operators/Operator.cpp:146-150 | Every id between the bound and the next free id is in use: no free id is skipped |
| `Allocator.AvailableIds` | src/OpenVAC/src/OpenVAC/Operators/Operator.cpp:146-150 | A request for n ids returns n ids, none of them in use |
| `Allocator.AvailableIdsIncreasing` | src/OpenVAC/src/OpenVAC/Operators/Operator.cpp:146-150 | The ids come in strictly increasing order |
| `Allocator.AvailableIdsLeast` | src/OpenVAC/src/OpenVAC/Operators/Operator.cpp:146-150 | They are the least free ids: every free id below the last one returned is returned |
| `Allocator.AvailableIdsDistinct` | src/OpenVAC/src/OpenVAC/Operators/Operator.cpp:146-150 | The ids have no repeat and are disjoint from the ids in use |
| `Allocator.AvailableIdsPrefix` | src/OpenVAC/src/OpenVAC/Operators/Operator.cpp:146-150 | Prefix stability: the first m ids of a request for n are the answer to a request for m |
| `Allocator.AvailableIdsTail` | src/OpenVAC/src/OpenVAC/Operators/Operator.cpp:158-162 | The tail after position a of a request is free, has no repeat, and shares no id with the first a |
| `Allocator.AvailableIdsSplit` | src/OpenVAC/src/OpenVAC/Operators/Operator.cpp:158-162 | The new tails of two successive requests, concatenated, are the new tail of one request for both counts |
| `OperatorBase.GetAvailableId` | src/OpenVAC/src/OpenVAC/Operators/Operator.cpp:144-154 | A single request raises the counter by one and changes nothing else. The id is not live and was not handed out before. The record of handed-out ids grows by exactly this id |
| `OperatorBase.GetAvailableIds` | src/OpenVAC/src/OpenVAC/Operators/Operator.cpp:156-163 | A request for n ids raises the counter by n, changes nothing else, and returns n ids |
| `OperatorBase.GetAvailableIdsExtends` | src/OpenVAC/src/OpenVAC/Operators/Operator.cpp:156-163 | The returned ids are the last n entries of the regenerated prefix: the handed-out record grows by exactly them |
| `OperatorBase.GetAvailableIdsFresh` | src/OpenVAC/src/OpenVAC/Operators/Operator.cpp:156-163 | The returned ids have no repeat, are not live, and were not handed out before |
| `OperatorBase.GetAvailableIdIsSingleRequest` | src/OpenVAC/src/OpenVAC/Operators/Operator.cpp:144-163 | Asking for one id equals asking for a list of one id |
| `OperatorBase.SuccessiveRequests` | src/OpenVAC/src/OpenVAC/Operators/Operator.cpp:156-163 | Two successive requests return together what one request for both counts returns, and leave the same counter |
| `OperatorBase.SuccessiveRequestsDisjoint` | src/OpenVAC/src/OpenVAC/Operators/Operator.cpp:156-163 | Two successive requests never return the same id |
| `Scenarios.TwoRequestsDistinct` | src/OpenVAC/src/OpenVAC/Operators/Operator.cpp:144-154 | Two successive single-id requests return different ids, neither of them live |
| `OperatorBase.NewCell` | src/OpenVAC/src/OpenVAC/Operators/Operator.cpp:110-132 | Requires that the next id has no proposal yet. The id is fresh and gets default data of the requested kind. It is appended to `newCells`, the counter rises by one, and old proposals, deletions, flags and subtype are unchanged |
| `OperatorBase.NewKeyVertex` | src/OpenVAC/src/OpenVAC/Operators/Operator.cpp:134-137 | Creates default key-vertex data at a fresh id and appends the id to `newCells`. The counter rises by one; existing proposals, deletions, flags and subtype are unchanged |
| `OperatorBase.NewKeyEdge` | src/OpenVAC/src/OpenVAC/Operators/Operator.cpp:139-142 | Creates default key-edge data at a fresh id and appends the id to `newCells`. The counter rises by one; existing proposals, deletions, flags and subtype are unchanged |
| `OperatorBase.NewCellNeverAborts` | src/OpenVAC/src/OpenVAC/Operators/Operator.cpp:121-125 | If proposals exist only for live ids or ids already handed out, the abort on a taken id cannot fire, and creating a cell keeps that condition |
| `MakeKeyVertexOp.Make` | src/OpenVAC/src/OpenVAC/Operators/OpMakeKeyVertex.h:20-20 | The constructor stores the frame unchanged, has no output yet, and starts from the base's fresh state |
| `MakeKeyVertexOp.Propose` | src/OpenVAC/src/OpenVAC/Operators/OpMakeKeyVertex.h:32-39 | Modelling assumption for the subtype's computation: it creates one proposed key vertex at the next id, carrying the frame, and records that id as the output. Nothing else changes |
| `MakeKeyVertexOp.KeyVertexId` | src/OpenVAC/src/OpenVAC/Operators/OpMakeKeyVertex.h:25-26 | Defined only once computed: the id is one of `newCells` and is proposed as a key vertex at the operator's frame |
| `MakeKeyVertexOp.KeyVertex` | src/OpenVAC/src/OpenVAC/Operators/OpMakeKeyVertex.h:28-29 | Defined only once applied: the store's cell at the output id, or nothing when no cell is there |
| `Scenarios.MakeKeyVertexComputes` | src/OpenVAC/src/OpenVAC/Operators/OpMakeKeyVertex.h:22-26 | On any store the subtype is valid and may be applied. Computing it proposes exactly one key vertex, at the first free id, with its frame |
| `Scenarios.MakeKeyVertexTransaction` | src/OpenVAC/src/OpenVAC/Operators/OpMakeKeyVertex.h:22-29 | Validate then apply succeeds on any store. The store gains exactly one key vertex, at the first free id, with the frame, and no other cell changes. Both accessors report it |
| `Scenarios.MakeKeyVertexOnEmptyStore` | src/OpenVAC/src/OpenVAC/Operators/OpMakeKeyVertex.h:20-29 | On an empty store with frame 5, apply yields exactly one cell: id 0, a key vertex at frame 5 |

## Left out

- The plain getters `vac()`, `isComputed()`, `isApplied()`, `newCells()` and `deletedCells()` (Operator.cpp:28-31, 54-57, 68-81) are fields of the `Operator` record and have no members of their own.
- The cell manager (`cellManager_.insert`, `remove`, `getAvailableIds`, `operator[]`) is not part of this model. Insert and remove are map updates that fail on a live or a missing id. The allocator is a pure function that returns the n smallest free ids, a concrete choice with the deterministic, prefix-stable behaviour the comment at Operator.cpp:146-150 relies on.
- The source fails on a store refusal partway through `apply_`, after some cells have changed. The model returns an error and drops the partial store.
- `OpCellDataToCellDataConverter` is not part of this model. Conversion copies the frame and keeps the kind. Key-edge geometry and connectivity are left out, so both kinds of data carry only a frame.
- The bodies of `OpMakeKeyVertex::isValid_` and `compute_` are not part of this model. `MakeKeyVertexOp.Valid` (always true) and `MakeKeyVertexOp.Propose` are modelling assumptions, not properties of the source. Neither of them requests ids during validation.
- The `else` branch of `make_shared` (Operator.cpp:175-178) returns nothing, which is undefined behaviour. `CellKind` has only the two kinds that are dispatched.
- Shared and weak handles and object identity are left out. A cell is a value in the store map. `newKeyVertex`/`newKeyEdge` return the new id and not a handle to the data. The optional `outId` becomes that returned id, and a caller fills in the data by updating `cellsAfter` at the id.
- `numIdRequested_` is an unbounded natural. The source's fixed-width unsigned counter could wrap around, but no edit requests anywhere near that many ids.
- `getAvailableIds_` builds its result from `&ids[numIdRequested_]`, one past the end of the vector. The model returns the intended slice of the regenerated prefix.
- The `assert`s are preconditions. The source's asserts disappear in builds without assertions, and the model does not cover that behaviour.
- `Operators.Compute`: also requires `Operators.Wf`, an invariant that every Operator reachable through construction, validation, computation and application satisfies.
- `Operators.Apply`: also requires `Operators.Wf`, for the same reason.
- `MakeKeyVertexOp.KeyVertexId`: besides computed, requires `MakeKeyVertexOp.Outputs`, which `Operators.Wf` guarantees for every reachable Operator.
- `MakeKeyVertexOp.KeyVertex`: besides applied, requires computed and `MakeKeyVertexOp.Outputs`, both guaranteed by `Operators.Wf` once applied.
- The GUI files `src/Gui/SvgParser.h` (SVG reading, colour parsing, floating-point angles) and `src/App/Views/TestAction.h` (a mouse-action stub that only logs) are outside the core.
- Undo, rendering and serialisation are outside the core.
