/** The committed cell store's primitives and the three passes an applied
    Operator makes over it: removal of deleted cells, insertion of new cells,
    and the copy of converted data onto every touched cell. A primitive that
    the store refuses aborts the whole application. */
module CellStore {
  import opened Wrappers
  import opened Cells
  import opened IdLists

  datatype StoreError =
    | NoSuchCell(id: CellId)   // removal of an id the store does not hold
    | IdTaken(id: CellId)      // insertion at an id the store already holds
    | CopyTargetMissing        // proposed data for an id with no live cell

  /** Insert a cell at a free id; fails if the id is live. */
  function Insert(store: Store, id: CellId, cell: Cell): (r: Result<Store, StoreError>)
    ensures r.Ok? <==> id !in store
    ensures r.Ok? ==> r.value.Keys == store.Keys + {id} && r.value[id] == cell
    ensures r.Ok? ==> forall k :: k in store ==> r.value[k] == store[k]
  {
    if id in store then Err(IdTaken(id)) else Ok(store[id := cell])
  }

  /** Remove a live cell; fails if the id is not live. */
  function Remove(store: Store, id: CellId): (r: Result<Store, StoreError>)
    ensures r.Ok? <==> id in store
    ensures r.Ok? ==> r.value.Keys == store.Keys - {id}
    ensures r.Ok? ==> forall k :: k in r.value ==> r.value[k] == store[k]
  {
    if id in store then Ok(store - {id}) else Err(NoSuchCell(id))
  }

  /** Removal undoes insertion, and re-inserting a removed cell restores
      the store. */
  lemma InsertRemoveInverse(store: Store, id: CellId, cell: Cell)
    ensures id !in store ==> Remove(Insert(store, id, cell).value, id) == Ok(store)
    ensures id in store ==> Insert(Remove(store, id).value, id, store[id]) == Ok(store)
  {
    if id !in store {
      assert Insert(store, id, cell).value - {id} == store;
    } else {
      assert (store - {id})[id := store[id]] == store;
    }
  }

  /** The first pass: remove each listed id in turn. */
  function RemoveAll(store: Store, ids: seq<CellId>): (r: Result<Store, StoreError>)
    ensures r.Ok? <==> Distinct(ids) && Elems(ids) <= store.Keys
    ensures r.Ok? ==> r.value.Keys == store.Keys - Elems(ids)
    ensures r.Ok? ==> forall k :: k in r.value ==> r.value[k] == store[k]
    decreases |ids|
  {
    if ids == [] then Ok(store)
    else
      var s :- Remove(store, ids[0]);
      var rest := RemoveAll(s, ids[1..]);
      assert Elems(ids) == {ids[0]} + Elems(ids[1..]);
      assert Distinct(ids) <==> ids[0] !in ids[1..] && Distinct(ids[1..]) by {
        if ids[0] !in ids[1..] && Distinct(ids[1..]) {
          forall i, j | 0 <= i < j < |ids| ensures ids[i] != ids[j] {
            if i > 0 {
              assert ids[i] == ids[1..][i - 1] && ids[j] == ids[1..][j - 1];
            } else {
              assert ids[j] == ids[1..][j - 1];
            }
          }
        }
        if Distinct(ids) {
          assert forall j :: 0 <= j < |ids[1..]| ==> ids[1..][j] == ids[j + 1];
        }
      }
      rest
  }

  /** The second pass: construct and insert a cell for each new id, of the
      kind its proposed data records. */
  function InsertAll(store: Store, ids: seq<CellId>, proposed: map<CellId, OpCellData>)
    : (r: Result<Store, StoreError>)
    requires Elems(ids) <= proposed.Keys
    ensures r.Ok? <==> Distinct(ids) && Elems(ids) !! store.Keys
    ensures r.Ok? ==> r.value.Keys == store.Keys + Elems(ids)
    ensures r.Ok? ==> forall k :: k in ids ==> r.value[k] == MakeCell(proposed[k].Kind())
    ensures r.Ok? ==> forall k :: k in store ==> r.value[k] == store[k]
    decreases |ids|
  {
    if ids == [] then Ok(store)
    else
      var s :- Insert(store, ids[0], MakeCell(proposed[ids[0]].Kind()));
      assert Elems(ids) == {ids[0]} + Elems(ids[1..]);
      var rest := InsertAll(s, ids[1..], proposed);
      assert Distinct(ids) <==> ids[0] !in ids[1..] && Distinct(ids[1..]) by {
        if ids[0] !in ids[1..] && Distinct(ids[1..]) {
          forall i, j | 0 <= i < j < |ids| ensures ids[i] != ids[j] {
            if i > 0 {
              assert ids[i] == ids[1..][i - 1] && ids[j] == ids[1..][j - 1];
            } else {
              assert ids[j] == ids[1..][j - 1];
            }
          }
        }
        if Distinct(ids) {
          assert forall j :: 0 <= j < |ids[1..]| ==> ids[1..][j] == ids[j + 1];
        }
      }
      rest
  }

  /** The third pass: overwrite the data of every cell with proposed data by
      its conversion; the cell keeps its kind. */
  function CopyData(store: Store, proposed: map<CellId, OpCellData>): (r: Result<Store, StoreError>)
    ensures r.Ok? <==> proposed.Keys <= store.Keys
    ensures r.Ok? ==> r.value.Keys == store.Keys
    ensures r.Ok? ==> forall k :: k in proposed ==>
      r.value[k].kind == store[k].kind && r.value[k].data == Convert(proposed[k])
    ensures r.Ok? ==> forall k :: k in store && k !in proposed ==> r.value[k] == store[k]
  {
    if proposed.Keys <= store.Keys then
      Ok(map k | k in store :: if k in proposed then store[k].(data := Convert(proposed[k])) else store[k])
    else
      Err(CopyTargetMissing)
  }

  /** The whole application of an Operator's lists and proposed map, passes
      in the source's order. */
  function ApplyEffects(store: Store, newCells: seq<CellId>, deletedCells: seq<CellId>,
                        proposed: map<CellId, OpCellData>): (r: Result<Store, StoreError>)
    requires Elems(newCells) <= proposed.Keys
    ensures r.Ok? <==> CanApplyEffects(store, newCells, deletedCells, proposed)
    ensures r.Ok? ==> forall k :: k in deletedCells && k !in newCells ==> k !in r.value
    ensures r.Ok? ==> forall k :: k in newCells ==>
      k in r.value && r.value[k].kind == proposed[k].Kind()
    ensures r.Ok? ==> forall k :: k in proposed ==>
      k in r.value && r.value[k].data == Convert(proposed[k])
    ensures r.Ok? ==> forall k :: k in proposed && k !in newCells ==> r.value[k].kind == store[k].kind
    ensures r.Ok? ==> forall k :: k !in deletedCells && k !in newCells && k !in proposed ==>
      (k in r.value <==> k in store) && (k in store ==> r.value[k] == store[k])
  {
    var removed :- RemoveAll(store, deletedCells);
    var inserted :- InsertAll(removed, newCells, proposed);
    CopyData(inserted, proposed)
  }

  /** When the application succeeds: deleted ids are distinct and live,
      new ids are distinct and free once the deletions are done, and every
      proposed id names a cell that exists after the insertions. */
  predicate CanApplyEffects(store: Store, newCells: seq<CellId>, deletedCells: seq<CellId>,
                            proposed: map<CellId, OpCellData>)
  {
    && Distinct(deletedCells) && Elems(deletedCells) <= store.Keys
    && Distinct(newCells) && Elems(newCells) !! (store.Keys - Elems(deletedCells))
    && proposed.Keys <= (store.Keys - Elems(deletedCells)) + Elems(newCells)
  }

  /** Reference description of the store after application, id by id. */
  function AppliedStore(store: Store, newCells: seq<CellId>, deletedCells: seq<CellId>,
                        proposed: map<CellId, OpCellData>): Store
    requires Elems(newCells) <= proposed.Keys
    requires proposed.Keys <= (store.Keys - Elems(deletedCells)) + Elems(newCells)
  {
    map k | k in (store.Keys - Elems(deletedCells)) + Elems(newCells) ::
      if k in newCells then Cell(proposed[k].Kind(), Convert(proposed[k]))
      else if k in proposed then store[k].(data := Convert(proposed[k]))
      else store[k]
  }

  /** Application succeeds exactly when every removal, insertion and copy is
      permitted, and then yields the reference store. */
  lemma ApplyEffectsSpec(store: Store, newCells: seq<CellId>, deletedCells: seq<CellId>,
                         proposed: map<CellId, OpCellData>)
    requires Elems(newCells) <= proposed.Keys
    ensures ApplyEffects(store, newCells, deletedCells, proposed).Ok?
            <==> CanApplyEffects(store, newCells, deletedCells, proposed)
    ensures ApplyEffects(store, newCells, deletedCells, proposed).Ok? ==>
            ApplyEffects(store, newCells, deletedCells, proposed).value
            == AppliedStore(store, newCells, deletedCells, proposed)
  {
    var r := ApplyEffects(store, newCells, deletedCells, proposed);
    if r.Ok? {
      var removed := RemoveAll(store, deletedCells).value;
      var inserted := InsertAll(removed, newCells, proposed).value;
      var expected := AppliedStore(store, newCells, deletedCells, proposed);
      assert r.value.Keys == expected.Keys;
      forall k | k in r.value ensures r.value[k] == expected[k] {
        if k in newCells {
          assert inserted[k] == MakeCell(proposed[k].Kind());
        }
      }
    }
  }

  /** Application keeps every cell's data matching its kind, provided each
      pre-existing cell the Operator rewrites gets data of its own kind. */
  lemma ApplyEffectsWellKinded(store: Store, newCells: seq<CellId>, deletedCells: seq<CellId>,
                               proposed: map<CellId, OpCellData>)
    requires Elems(newCells) <= proposed.Keys
    requires StoreWellKinded(store)
    requires forall k :: k in proposed && k !in newCells && k in store ==> store[k].kind == proposed[k].Kind()
    requires ApplyEffects(store, newCells, deletedCells, proposed).Ok?
    ensures StoreWellKinded(ApplyEffects(store, newCells, deletedCells, proposed).value)
  {
    var r := ApplyEffects(store, newCells, deletedCells, proposed).value;
    forall k | k in r ensures WellKinded(r[k]) {
      if k in proposed && k !in newCells {
        assert r[k].kind == store[k].kind;
      }
    }
  }
}
