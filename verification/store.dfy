/** The application state owned by the exercise provider
    (context/ExerciseContext.tsx): the exercise list, the ordered selection
    of ids and the global settings, with their in-memory transitions.
    Persistence to the browser's database is not modelled.

    The provider does not keep the selection inside the store: toggling
    accepts unknown ids, restoring the demo bank leaves the selection as it
    was, and materialising the selection drops ids it cannot resolve. */
module Store {
  import opened Wrappers
  import opened Types
  import opened Seqs

  datatype AppState = AppState(
    exercises: seq<Exercise>,
    selectedIds: seq<string>,
    settings: GlobalSettings)

  /** The bundled demo bank (constants.ts), which is empty. */
  const ManualDatabase: seq<Exercise> := []

  const DefaultSettings: GlobalSettings := GlobalSettings("", None, true)

  /** Every selected id names an exercise in the store. */
  ghost predicate SelectionInStore(st: AppState) {
    forall k :: 0 <= k < |st.selectedIds| ==> st.selectedIds[k] in Ids(st.exercises)
  }

  // ---------------------------------------------------------------------
  // start-up

  /** The exercises after the initial load: `None` is a failed load,
      `Some(saved)` what the database returned. Saved records win unless
      there are none. */
  function InitialExercises(loaded: Option<seq<Exercise>>): (r: seq<Exercise>)
    ensures loaded.Some? && |loaded.value| > 0 ==> r == loaded.value
    ensures loaded.None? || |loaded.value| == 0 ==> r == ManualDatabase
  {
    match loaded
    case Some(saved) => if |saved| > 0 then saved else ManualDatabase
    case None => ManualDatabase
  }

  function InitialState(loaded: Option<seq<Exercise>>): (st: AppState)
    ensures st.selectedIds == [] && st.settings == DefaultSettings
    ensures SelectionInStore(st)
    ensures loaded.Some? && loaded.value != [] ==> st.exercises == loaded.value
    ensures loaded.None? || loaded.value == [] ==> st.exercises == []
  {
    AppState(InitialExercises(loaded), [], DefaultSettings)
  }

  // ---------------------------------------------------------------------
  // exercises

  /** `addExercise`: the new record goes to the front; no duplicate check. */
  function AddExercise(st: AppState, ex: Exercise): (r: AppState)
    ensures |r.exercises| == |st.exercises| + 1 && r.exercises[0] == ex && r.exercises[1..] == st.exercises
    ensures Ids(r.exercises) == [ex.id] + Ids(st.exercises)
    ensures r.selectedIds == st.selectedIds && r.settings == st.settings
  {
    st.(exercises := [ex] + st.exercises)
  }

  /** `deleteExercise`: every record and every selection entry with `id`
      goes; everything else stays, in order. */
  function DeleteExercise(st: AppState, id: string): (r: AppState)
    ensures id !in Ids(r.exercises) && id !in r.selectedIds
    ensures forall e: Exercise :: e in r.exercises <==> e in st.exercises && e.id != id
    ensures forall x :: x in r.selectedIds <==> x in st.selectedIds && x != id
    ensures forall e: Exercise :: e.id != id ==> multiset(r.exercises)[e] == multiset(st.exercises)[e]
    ensures forall x :: x != id ==> multiset(r.selectedIds)[x] == multiset(st.selectedIds)[x]
    ensures IsSubsequence(r.exercises, st.exercises) && IsSubsequence(r.selectedIds, st.selectedIds)
    ensures r.settings == st.settings
  {
    var exs := Filter(st.exercises, (e: Exercise) => e.id != id);
    assert forall k :: 0 <= k < |exs| ==> exs[k] in exs;
    st.(exercises := exs, selectedIds := Filter(st.selectedIds, (x: string) => x != id))
  }

  /** Deleting keeps the selection inside the store. */
  lemma DeletePreservesSelectionInStore(st: AppState, id: string)
    requires SelectionInStore(st)
    ensures SelectionInStore(DeleteExercise(st, id))
  {
    var r := DeleteExercise(st, id);
    forall k | 0 <= k < |r.selectedIds| ensures r.selectedIds[k] in Ids(r.exercises) {
      var x := r.selectedIds[k];
      assert x in r.selectedIds;
      var j :| 0 <= j < |st.selectedIds| && st.selectedIds[j] == x;
      KeptAfterDelete(st, id, x);
    }
  }

  lemma KeptAfterDelete(st: AppState, id: string, x: string)
    requires x in Ids(st.exercises) && x != id
    ensures x in Ids(DeleteExercise(st, id).exercises)
  {
    var r := DeleteExercise(st, id);
    var i :| 0 <= i < |st.exercises| && Ids(st.exercises)[i] == x;
    assert st.exercises[i] in r.exercises;
    var i2 :| 0 <= i2 < |r.exercises| && r.exercises[i2] == st.exercises[i];
    assert Ids(r.exercises)[i2] == x;
  }

  /** Adding keeps the selection inside the store. */
  lemma AddPreservesSelectionInStore(st: AppState, ex: Exercise)
    requires SelectionInStore(st)
    ensures SelectionInStore(AddExercise(st, ex))
  {
    var r := AddExercise(st, ex);
    forall k | 0 <= k < |r.selectedIds| ensures r.selectedIds[k] in Ids(r.exercises) {
      var i :| 0 <= i < |st.exercises| && Ids(st.exercises)[i] == r.selectedIds[k];
      assert Ids(r.exercises)[i + 1] == st.exercises[i].id;
    }
  }

  /** Adding a record and deleting its id is the same as deleting the id. */
  lemma DeleteUndoesAdd(st: AppState, ex: Exercise)
    ensures DeleteExercise(AddExercise(st, ex), ex.id) == DeleteExercise(st, ex.id)
  {
    var added := AddExercise(st, ex);
    assert added.exercises == [ex] + st.exercises;
    assert added.exercises[1..] == st.exercises;
  }

  /** `deleteAllExercises` */
  function DeleteAllExercises(st: AppState): (r: AppState)
    ensures r.exercises == [] && r.selectedIds == [] && r.settings == st.settings
    ensures SelectionInStore(r)
  {
    st.(exercises := [], selectedIds := [])
  }

  /** `restoreDemoData`: the store becomes the bundled bank; the selection
      is left as it was. */
  function RestoreDemoData(st: AppState): (r: AppState)
    ensures r.exercises == ManualDatabase && Ids(r.exercises) == []
    ensures r.selectedIds == st.selectedIds && r.settings == st.settings
  {
    st.(exercises := ManualDatabase)
  }

  /** Because the bundled bank is empty, restoring it leaves every selected
      id dangling. */
  lemma RestoreDemoDanglesSelection(st: AppState)
    requires st.selectedIds != []
    ensures !SelectionInStore(RestoreDemoData(st))
  {
    assert Ids(RestoreDemoData(st).exercises) == [];
    assert st.selectedIds[0] !in Ids(RestoreDemoData(st).exercises);
  }

  // ---------------------------------------------------------------------
  // selection

  /** `toggleSelection` on the id list: a present id is removed (every
      occurrence), an absent one is appended. */
  function Toggle(sel: seq<string>, id: string): (r: seq<string>)
    ensures id in sel ==> id !in r && IsSubsequence(r, sel)
    ensures id in sel ==> forall x :: x != id ==> multiset(r)[x] == multiset(sel)[x]
    ensures id !in sel ==> |r| == |sel| + 1 && r[..|sel|] == sel && r[|sel|] == id
  {
    if id in sel then Filter(sel, (x: string) => x != id) else sel + [id]
  }

  /** Toggling an absent id twice gives back the original sequence. */
  lemma ToggleTwiceAbsent(sel: seq<string>, id: string)
    requires id !in sel
    ensures Toggle(Toggle(sel, id), id) == sel
  {
    var once := sel + [id];
    assert Filter(once, (x: string) => x != id) == Filter(sel, (x: string) => x != id) + [] by {
      FilterAppendLast(sel, id);
    }
    FilterAll(sel, (x: string) => x != id);
  }

  lemma {:induction false} FilterAppendLast(sel: seq<string>, id: string)
    ensures Filter(sel + [id], (x: string) => x != id) == Filter(sel, (x: string) => x != id)
  {
    if |sel| > 0 {
      FilterAppendLast(sel[1..], id);
      assert (sel + [id])[1..] == sel[1..] + [id];
    } else {
      assert sel + [id] == [id];
    }
  }

  /** Toggling a present id twice restores membership; the id moves to the
      end. */
  lemma ToggleTwicePresent(sel: seq<string>, id: string)
    requires id in sel
    ensures var r := Toggle(Toggle(sel, id), id);
            (forall x :: x in r <==> x in sel) && r[|r| - 1] == id
  {
  }

  /** Toggling keeps a duplicate-free selection duplicate-free. */
  lemma ToggleKeepsNoDup(sel: seq<string>, id: string)
    requires NoDup(sel)
    ensures NoDup(Toggle(sel, id))
  {
    if id in sel {
      FilterNoDup(sel, (x: string) => x != id);
    }
  }

  /** The selection may point outside the store: toggling an unknown id
      selects it all the same. */
  lemma ToggleAcceptsUnknownId(st: AppState, id: string)
    requires SelectionInStore(st) && id !in Ids(st.exercises)
    ensures !SelectionInStore(st.(selectedIds := Toggle(st.selectedIds, id)))
  {
    var sel := Toggle(st.selectedIds, id);
    assert id !in st.selectedIds;
    assert sel[|sel| - 1] == id;
  }

  /** `toggleSelection`: the store's selection becomes the toggled one; every
      other id keeps its multiplicity. */
  function ToggleSelection(st: AppState, id: string): (r: AppState)
    ensures r.exercises == st.exercises && r.settings == st.settings
    ensures (id in r.selectedIds) != (id in st.selectedIds)
    ensures r.selectedIds == Toggle(st.selectedIds, id)
    ensures forall x :: x != id ==> multiset(r.selectedIds)[x] == multiset(st.selectedIds)[x]
  {
    st.(selectedIds := Toggle(st.selectedIds, id))
  }

  /** `reorderSelection`: the new order replaces the selection as given,
      unfiltered. */
  function ReorderSelection(st: AppState, newOrder: seq<string>): (r: AppState)
    ensures r.selectedIds == newOrder
    ensures r.exercises == st.exercises && r.settings == st.settings
  {
    st.(selectedIds := newOrder)
  }

  /** `clearSelection` */
  function ClearSelection(st: AppState): (r: AppState)
    ensures r.selectedIds == [] && SelectionInStore(r)
    ensures r.exercises == st.exercises && r.settings == st.settings
  {
    st.(selectedIds := [])
  }

  // ---------------------------------------------------------------------
  // materialising the selection

  /** Index of the first record with `id`, searching from `i`. */
  function FirstIndexOfId(exs: seq<Exercise>, id: string, i: nat): (r: Option<nat>)
    requires i <= |exs|
    ensures r.Some? ==> i <= r.value < |exs| && exs[r.value].id == id
    ensures r.Some? ==> forall j :: i <= j < r.value ==> exs[j].id != id
    ensures r.None? ==> forall j :: i <= j < |exs| ==> exs[j].id != id
    decreases |exs| - i
  {
    if i == |exs| then None
    else if exs[i].id == id then Some(i)
    else FirstIndexOfId(exs, id, i + 1)
  }

  /** `exercises.find(ex => ex.id === id)`: the first record with `id`,
      present exactly when some record has that id. */
  function FindById(exs: seq<Exercise>, id: string): (r: Option<Exercise>)
    ensures r.Some? <==> id in Ids(exs)
    ensures r.Some? ==> r.value in exs && r.value.id == id
  {
    match FirstIndexOfId(exs, id, 0)
    case Some(k) =>
      assert Ids(exs)[k] == id;
      Some(exs[k])
    case None =>
      assert forall j :: 0 <= j < |exs| ==> Ids(exs)[j] != id;
      None
  }

  /** The record `FindById` returns comes before every other record with
      the same id. */
  lemma FindByIdIsFirst(exs: seq<Exercise>, id: string, k: nat)
    requires k < |exs| && exs[k].id == id
    ensures FindById(exs, id).Some?
    ensures exists i :: 0 <= i <= k && exs[i] == FindById(exs, id).value
  {
    assert Ids(exs)[k] == id;
    var i := FirstIndexOfId(exs, id, 0).value;
    assert exs[i] == FindById(exs, id).value;
  }

  /** The test `getSelectedExercises` applies to a selected id. */
  function InStore(exs: seq<Exercise>): string -> bool {
    (x: string) => x in Ids(exs)
  }

  /** `getSelectedExercises` on given lists: the records of the selected
      ids, in selection order, the first record for each id, dropping ids
      that are not in the store. */
  function Materialize(exs: seq<Exercise>, sel: seq<string>): (r: seq<Exercise>)
    ensures |r| <= |sel|
    ensures Ids(r) == Filter(sel, InStore(exs))
    ensures forall k :: 0 <= k < |r| ==> FindById(exs, r[k].id) == Some(r[k])
  {
    var present := Filter(sel, InStore(exs));
    assert forall k :: 0 <= k < |present| ==> present[k] in Ids(exs) by {
      forall k | 0 <= k < |present| ensures present[k] in Ids(exs) {
        assert present[k] in present;
      }
    }
    seq(|present|, k requires 0 <= k < |present| => FindById(exs, present[k]).value)
  }

  function GetSelectedExercises(st: AppState): (r: seq<Exercise>)
    ensures Ids(r) == Filter(st.selectedIds, InStore(st.exercises))
    ensures forall k :: 0 <= k < |r| ==> r[k] in st.exercises && FindById(st.exercises, r[k].id) == Some(r[k])
  {
    Materialize(st.exercises, st.selectedIds)
  }

  /** With the selection inside the store, the selected exercises are the
      selection itself, in order. */
  lemma SelectedWhenInStore(st: AppState)
    requires SelectionInStore(st)
    ensures Ids(GetSelectedExercises(st)) == st.selectedIds
  {
    MaterializeComplete(st.exercises, st.selectedIds);
  }

  /** With the selection inside the store nothing is dropped. */
  lemma MaterializeComplete(exs: seq<Exercise>, sel: seq<string>)
    requires forall k :: 0 <= k < |sel| ==> sel[k] in Ids(exs)
    ensures Ids(Materialize(exs, sel)) == sel
  {
    FilterAll(sel, InStore(exs));
  }

  /** Reordering and then materialising yields the records in the new order. */
  lemma ReorderThenMaterialize(st: AppState, newOrder: seq<string>)
    requires forall k :: 0 <= k < |newOrder| ==> newOrder[k] in Ids(st.exercises)
    ensures Ids(GetSelectedExercises(ReorderSelection(st, newOrder))) == newOrder
  {
    MaterializeComplete(st.exercises, newOrder);
  }

  // ---------------------------------------------------------------------
  // settings

  /** A `Partial<GlobalSettings>`: `None` for a field that is not given.
      `logoBase64` may be given as `null`, hence the nested option. */
  datatype SettingsPatch = SettingsPatch(
    schoolName: Option<string>,
    logoBase64: Option<Option<string>>,
    includeSpecTable: Option<bool>)

  /** `{ ...prev, ...patch }` */
  function MergeSettings(prev: GlobalSettings, patch: SettingsPatch): (r: GlobalSettings)
    ensures r.schoolName == patch.schoolName.GetOr(prev.schoolName)
    ensures r.logoBase64 == patch.logoBase64.GetOr(prev.logoBase64)
    ensures r.includeSpecTable == patch.includeSpecTable.GetOr(prev.includeSpecTable)
  {
    GlobalSettings(
      patch.schoolName.GetOr(prev.schoolName),
      patch.logoBase64.GetOr(prev.logoBase64),
      patch.includeSpecTable.GetOr(prev.includeSpecTable))
  }

  /** Applying two patches in turn is applying their spread, later fields
      winning; applying one twice is applying it once; the empty patch
      changes nothing. */
  lemma MergeSettingsLaws(prev: GlobalSettings, p1: SettingsPatch, p2: SettingsPatch)
    ensures MergeSettings(MergeSettings(prev, p1), p2)
         == MergeSettings(prev, SettingsPatch(
              if p2.schoolName.Some? then p2.schoolName else p1.schoolName,
              if p2.logoBase64.Some? then p2.logoBase64 else p1.logoBase64,
              if p2.includeSpecTable.Some? then p2.includeSpecTable else p1.includeSpecTable))
    ensures MergeSettings(MergeSettings(prev, p1), p1) == MergeSettings(prev, p1)
    ensures MergeSettings(prev, SettingsPatch(None, None, None)) == prev
  {
  }

  /** `updateSettings` */
  function UpdateSettings(st: AppState, patch: SettingsPatch): (r: AppState)
    ensures r.exercises == st.exercises && r.selectedIds == st.selectedIds
    ensures patch.schoolName.None? ==> r.settings.schoolName == st.settings.schoolName
    ensures patch.logoBase64.None? ==> r.settings.logoBase64 == st.settings.logoBase64
    ensures patch.includeSpecTable.None? ==> r.settings.includeSpecTable == st.settings.includeSpecTable
    ensures patch.schoolName.Some? ==> r.settings.schoolName == patch.schoolName.value
    ensures patch.logoBase64.Some? ==> r.settings.logoBase64 == patch.logoBase64.value
    ensures patch.includeSpecTable.Some? ==> r.settings.includeSpecTable == patch.includeSpecTable.value
  {
    st.(settings := MergeSettings(st.settings, patch))
  }
}
