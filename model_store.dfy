/** The save / reload / remove protocol of the viewer page: the glTF file of
    each storey goes into the `bimModels` store under the name `id + level`,
    the list of those names into the `modelsNames` marker, and the IFC
    properties text into the `bimProperties` store under "properties"; on the
    next visit the marker decides which button is enabled and, when present,
    the stored files are loaded again in marker order. */
module ModelStore {
  import opened JsValues

  type Bytes = seq<bv8>

  /** One entry of the exporter's `allCategories`, in `for ... in` order: the
      level's name and its serialised glTF file. */
  datatype Level = Level(name: string, file: Bytes)

  /** What the glTF exporter returns for one IFC file: the model's id (as the
      text it contributes to a name), the levels, and the text of the
      properties JSON file. */
  datatype Export = Export(id: string, levels: seq<Level>, propertiesText: string)

  /** A row of the `bimModels` store; `name` is its primary key. */
  datatype ModelRecord = ModelRecord(name: string, id: string, level: string, file: Bytes)

  /** The persistent writes, in the order they are issued. */
  datatype Write =
    | BulkPutModels(names: seq<string>)
    | SetMarker(names: seq<string>)
    | PutProperties(key: string)
    | RemoveMarker
    | DeleteDatabase

  /** Why a reload stops: `savedModel[0]` or `propertiesFromDB` is `undefined`
      and reading its `file` throws. */
  datatype LoadError = MissingModel(name: string) | MissingProperties

  datatype LoadOutcome = Done | Crashed(error: LoadError)

  /** The key of the properties row. */
  const PropertiesKey: string := "properties"

  /** The keys of an object are distinct, so are the level names. */
  predicate DistinctLevelNames(levels: seq<Level>)
  {
    forall i, j :: 0 <= i < j < |levels| ==> levels[i].name != levels[j].name
  }

  predicate DistinctNames(names: seq<string>)
  {
    forall i, j :: 0 <= i < j < |names| ==> names[i] != names[j]
  }

  // ---------------------------------------------------------------------
  // Saving
  // ---------------------------------------------------------------------

  /** The `models` array the save loop builds. */
  function ModelsOf(id: string, levels: seq<Level>): (r: seq<ModelRecord>)
    ensures |r| == |levels|
    decreases |levels|
  {
    if |levels| == 0 then []
    else
      var last := levels[|levels| - 1];
      ModelsOf(id, levels[..|levels| - 1]) + [ModelRecord(id + last.name, id, last.name, last.file)]
  }

  /** Save builds one row per level, in level order: the i-th row is named by
      the model id followed by the i-th level's name, and records that id,
      that level name and that level's file. */
  lemma {:induction false} ModelsOfAt(id: string, levels: seq<Level>, i: nat)
    requires i < |levels|
    ensures ModelsOf(id, levels)[i] == ModelRecord(id + levels[i].name, id, levels[i].name, levels[i].file)
    decreases |levels|
  {
    if i < |levels| - 1 {
      ModelsOfAt(id, levels[..|levels| - 1], i);
    }
  }

  /** `models.map((model) => model.name)`. */
  function NamesOf(models: seq<ModelRecord>): (r: seq<string>)
    ensures |r| == |models|
    ensures forall i :: 0 <= i < |models| ==> r[i] == models[i].name
  {
    seq(|models|, i requires 0 <= i < |models| => models[i].name)
  }

  /** The names given to distinct levels of one model are distinct: the common
      id prefix cancels. */
  lemma SavedNamesDistinct(id: string, levels: seq<Level>)
    requires DistinctLevelNames(levels)
    ensures DistinctNames(NamesOf(ModelsOf(id, levels)))
  {
    var names := NamesOf(ModelsOf(id, levels));
    forall i, j | 0 <= i < j < |names|
      ensures names[i] != names[j]
    {
      ModelsOfAt(id, levels, i);
      ModelsOfAt(id, levels, j);
      assert names[i][|id|..] == levels[i].name;
      assert names[j][|id|..] == levels[j].name;
    }
  }

  /** The names of a batch of rows. */
  function NameSet(rows: seq<ModelRecord>): set<string>
  {
    set i | 0 <= i < |rows| :: rows[i].name
  }

  /** `bulkPut(rows)`: each row is stored under its name, replacing a row
      with the same name, in order. Afterwards the store holds the old names
      and the batch's, and a row whose name is not in the batch is untouched. */
  function PutAll(store: map<string, ModelRecord>, rows: seq<ModelRecord>): (r: map<string, ModelRecord>)
    ensures r.Keys == store.Keys + NameSet(rows)
    ensures forall n :: n in store && n !in NameSet(rows) ==> r[n] == store[n]
    decreases |rows|
  {
    if |rows| == 0 then store
    else
      var last := rows[|rows| - 1];
      var init := rows[..|rows| - 1];
      var r := PutAll(store, init);
      assert NameSet(rows) == NameSet(init) + {last.name} by {
        assert forall i :: 0 <= i < |init| ==> init[i] == rows[i];
        assert rows[|rows| - 1].name in NameSet(rows);
      }
      r[last.name := last]
  }

  /** After `bulkPut`, the row stored under a name is the last row of the batch
      with that name. */
  lemma {:induction false} PutAllFinds(store: map<string, ModelRecord>, rows: seq<ModelRecord>, i: nat)
    requires i < |rows|
    requires forall j :: i < j < |rows| ==> rows[j].name != rows[i].name
    ensures rows[i].name in PutAll(store, rows) && PutAll(store, rows)[rows[i].name] == rows[i]
    decreases |rows|
  {
    if i < |rows| - 1 {
      var init := rows[..|rows| - 1];
      PutAllFinds(store, init, i);
    }
  }

  // ---------------------------------------------------------------------
  // Reloading
  // ---------------------------------------------------------------------

  /** The position of the first marker name without a stored row, or the
      number of names when every name has one. */
  function FirstMissing(models: map<string, ModelRecord>, names: seq<string>): (j: nat)
    ensures j <= |names|
    ensures forall i :: 0 <= i < j ==> names[i] in models
    ensures j < |names| ==> names[j] !in models
    decreases |names|
  {
    if |names| == 0 then 0
    else if names[0] !in models then 0
    else 1 + FirstMissing(models, names[1..])
  }

  /** The files of the rows stored under `names`, in order. */
  function FilesOf(models: map<string, ModelRecord>, names: seq<string>): (r: seq<Bytes>)
    requires forall i :: 0 <= i < |names| ==> names[i] in models
    ensures |r| == |names|
    ensures forall i :: 0 <= i < |names| ==> r[i] == models[names[i]].file
  {
    seq(|names|, i requires 0 <= i < |names| => models[names[i]].file)
  }

  /** The files a reload hands to the viewer: those of the marker names up to
      the first one without a row. */
  function LoadedFiles(models: map<string, ModelRecord>, names: seq<string>): (r: seq<Bytes>)
    ensures |r| <= |names|
    ensures forall i :: 0 <= i < |r| ==> names[i] in models && r[i] == models[names[i]].file
    ensures |r| < |names| ==> names[|r|] !in models
  {
    FilesOf(models, names[..FirstMissing(models, names)])
  }

  /** How a reload ends. */
  function LoadOutcomeOf(models: map<string, ModelRecord>, propertyFiles: map<string, string>,
                         names: seq<string>): (r: LoadOutcome)
    ensures r == Done <==> (forall i :: 0 <= i < |names| ==> names[i] in models) && PropertiesKey in propertyFiles
  {
    var j := FirstMissing(models, names);
    if j < |names| then Crashed(MissingModel(names[j]))
    else if PropertiesKey !in propertyFiles then Crashed(MissingProperties)
    else Done
  }

  /** When every marker name has a row, a reload loads the files of all of
      them, in marker order. */
  lemma AllPresentAllLoaded(models: map<string, ModelRecord>, names: seq<string>)
    requires forall i :: 0 <= i < |names| ==> names[i] in models
    ensures FirstMissing(models, names) == |names|
    ensures LoadedFiles(models, names) == FilesOf(models, names)
  {
    assert names[..|names|] == names;
  }

  /** Saving then reloading gives back what was saved, whatever the stores
      held before: the reload ends `Done`, so it loads every level's file in
      level order and, as `ModelPage.LoadSavedIfc` states for `Done`, sets
      `properties` to the row under "properties", which holds the saved
      text. */
  lemma SaveThenLoad(store: map<string, ModelRecord>, propertyFiles: map<string, string>, ex: Export)
    requires DistinctLevelNames(ex.levels)
    ensures var rows := ModelsOf(ex.id, ex.levels);
            var models := PutAll(store, rows);
            var files := propertyFiles[PropertiesKey := ex.propertiesText];
            var names := NamesOf(rows);
            && LoadOutcomeOf(models, files, names) == Done
            && LoadedFiles(models, names) == LevelFiles(ex.levels)
            && files[PropertiesKey] == ex.propertiesText
  {
    var rows := ModelsOf(ex.id, ex.levels);
    var models := PutAll(store, rows);
    var names := NamesOf(rows);
    SavedNamesDistinct(ex.id, ex.levels);
    forall i | 0 <= i < |rows|
      ensures names[i] in models && models[names[i]].file == ex.levels[i].file
    {
      PutAllFinds(store, rows, i);
      ModelsOfAt(ex.id, ex.levels, i);
    }
    AllPresentAllLoaded(models, names);
  }

  /** The marker is written before the properties row. A save that stops
      between the two (the awaited properties export throws, or the page
      is closed) into stores without a properties row leaves a marker whose
      reload loads every level and then crashes on the missing properties. */
  lemma SaveStoppedAfterMarker(store: map<string, ModelRecord>, propertyFiles: map<string, string>, ex: Export)
    requires DistinctLevelNames(ex.levels)
    requires PropertiesKey !in propertyFiles
    ensures var rows := ModelsOf(ex.id, ex.levels);
            var models := PutAll(store, rows);
            var names := NamesOf(rows);
            && LoadedFiles(models, names) == LevelFiles(ex.levels)
            && LoadOutcomeOf(models, propertyFiles, names) == Crashed(MissingProperties)
  {
    SaveThenLoad(store, propertyFiles, ex);
  }

  /** The levels' files, in level order. */
  function LevelFiles(levels: seq<Level>): (r: seq<Bytes>)
    ensures |r| == |levels|
    ensures forall i :: 0 <= i < |levels| ==> r[i] == levels[i].file
  {
    seq(|levels|, i requires 0 <= i < |levels| => levels[i].file)
  }

  /** The button states `updateButtons` sets: with no marker, remove is
      disabled and load enabled; with one, the other way round. Exactly one
      of the two is disabled. */
  function ButtonStates(marker: Option<seq<string>>): (r: (bool, bool))
    ensures r.0 != r.1
    ensures r.0 <==> marker == None
  {
    if marker.None? then (true, false) else (false, true)
  }

  // ---------------------------------------------------------------------
  // The page
  // ---------------------------------------------------------------------

  /** The stores, the marker and what the page has loaded. JSON.stringify and
      JSON.parse are an identity on the marker's names and on the properties
      text. */
  class ModelPage {
    /** `db.bimModels`, keyed by name. */
    var models: map<string, ModelRecord>
    /** `db.bimProperties`: the `file` of each row, keyed by name. */
    var propertyFiles: map<string, string>
    /** `localStorage["modelsNames"]`. */
    var marker: Option<seq<string>>
    /** The persistent writes issued so far, in order. */
    var writes: seq<Write>
    /** The files handed to the viewer's glTF loader, in order. */
    var loaded: seq<Bytes>
    /** The module-level `properties`; `None` while it is `undefined`. */
    var properties: Option<string>
    var removeDisabled: bool
    var loadDisabled: bool

    constructor (models: map<string, ModelRecord>, propertyFiles: map<string, string>, marker: Option<seq<string>>)
      ensures this.models == models && this.propertyFiles == propertyFiles && this.marker == marker
      ensures writes == [] && loaded == [] && properties == None
      ensures !removeDisabled && !loadDisabled
    {
      this.models := models;
      this.propertyFiles := propertyFiles;
      this.marker := marker;
      writes := [];
      loaded := [];
      properties := None;
      removeDisabled := false;
      loadDisabled := false;
    }

    /** `preprocessAndSaveIfc`: build one row per level, store them all, then
        write the marker with their names, then store the properties text. */
    method PreprocessAndSaveIfc(ex: Export)
      modifies this
      ensures var rows := ModelsOf(ex.id, ex.levels);
              && models == PutAll(old(models), rows)
              && marker == Some(NamesOf(rows))
              && propertyFiles == old(propertyFiles)[PropertiesKey := ex.propertiesText]
              && writes == old(writes) + [BulkPutModels(NamesOf(rows)), SetMarker(NamesOf(rows)), PutProperties(PropertiesKey)]
      ensures loaded == old(loaded) && properties == old(properties)
      ensures removeDisabled == old(removeDisabled) && loadDisabled == old(loadDisabled)
    {
      var rows := BuildModels(ex);
      var names := NamesOf(rows);
      models := PutAll(models, rows);
      writes := writes + [BulkPutModels(names)];
      marker := Some(names);
      writes := writes + [SetMarker(names)];
      propertyFiles := propertyFiles[PropertiesKey := ex.propertiesText];
      writes := writes + [PutProperties(PropertiesKey)];
    }

    /** The loop of `preprocessAndSaveIfc` that pushes one row per level. */
    static method BuildModels(ex: Export) returns (rows: seq<ModelRecord>)
      ensures rows == ModelsOf(ex.id, ex.levels)
    {
      rows := [];
      for i := 0 to |ex.levels|
        invariant rows == ModelsOf(ex.id, ex.levels[..i])
      {
        var level := ex.levels[i];
        assert ex.levels[..i + 1][..i] == ex.levels[..i];
        rows := rows + [ModelRecord(ex.id + level.name, ex.id, level.name, level.file)];
      }
      assert ex.levels[..|ex.levels|] == ex.levels;
    }

    /** `loadSavedIfc`: load the file of the row stored under each marker name,
        in marker order, then read the properties text. A missing row or a
        missing properties row stops it, after the files loaded so far. */
    method LoadSavedIfc() returns (outcome: LoadOutcome)
      requires marker.Some?
      modifies this`loaded, this`properties
      ensures loaded == old(loaded) + LoadedFiles(models, marker.value)
      ensures outcome == LoadOutcomeOf(models, propertyFiles, marker.value)
      ensures properties == if outcome == Done then Some(propertyFiles[PropertiesKey]) else old(properties)
    {
      var names := marker.value;
      for i := 0 to |names|
        invariant forall k :: 0 <= k < i ==> names[k] in models
        invariant loaded == old(loaded) + FilesOf(models, names[..i])
        invariant properties == old(properties)
      {
        if names[i] !in models {
          assert FirstMissing(models, names) == i;
          return Crashed(MissingModel(names[i]));
        }
        loaded := loaded + [models[names[i]].file];
        assert FilesOf(models, names[..i + 1]) == FilesOf(models, names[..i]) + [models[names[i]].file];
      }
      assert FirstMissing(models, names) == |names|;
      assert names[..|names|] == names;
      if PropertiesKey !in propertyFiles {
        return Crashed(MissingProperties);
      }
      properties := Some(propertyFiles[PropertiesKey]);
      outcome := Done;
    }

    /** `removeDatabase`: remove the marker, then delete the database (both
        stores end up empty). */
    method RemoveDatabase()
      modifies this
      ensures marker == None && models == map[] && propertyFiles == map[]
      ensures writes == old(writes) + [RemoveMarker, DeleteDatabase]
      ensures loaded == old(loaded) && properties == old(properties)
      ensures removeDisabled == old(removeDisabled) && loadDisabled == old(loadDisabled)
    {
      marker := None;
      writes := writes + [RemoveMarker];
      models := map[];
      propertyFiles := map[];
      writes := writes + [DeleteDatabase];
    }

    /** `updateButtons`: with no marker, disable remove and enable load; with
        one, start a reload (which is not awaited, so the buttons are set
        whatever its outcome), enable remove and disable load. */
    method UpdateButtons()
      modifies this
      ensures (removeDisabled, loadDisabled) == ButtonStates(old(marker))
      ensures marker == old(marker) && models == old(models) && propertyFiles == old(propertyFiles)
      ensures writes == old(writes)
      ensures old(marker) == None ==> loaded == old(loaded) && properties == old(properties)
      ensures old(marker) != None ==>
                && loaded == old(loaded) + LoadedFiles(models, marker.value)
                && properties == if LoadOutcomeOf(models, propertyFiles, marker.value) == Done
                                 then Some(propertyFiles[PropertiesKey]) else old(properties)
    {
      if marker.None? {
        removeDisabled := true;
        loadDisabled := false;
      } else {
        var _ := LoadSavedIfc();
        removeDisabled := false;
        loadDisabled := true;
      }
    }
  }
}
