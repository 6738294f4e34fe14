# IFC viewer data layer, in Dafny

This project models the data layer of a browser IFC viewer (the IFC.js final
exercise). The page loads an IFC building model, exports it to one glTF file
per storey together with a JSON table of IFC properties, and keeps both in the
browser's IndexedDB so that the next visit can reload them. When an element is
double-clicked, the page resolves that element's property sets from the
table. It also shows a properties panel and a spatial-tree panel.

The modules follow the source:

- `JsValues` (`js_values.dfy`): the JavaScript values and plain objects the
  code handles. Covers property lookup (`undefined` when absent), assignment,
  `delete`, truthiness, `===` and `Array.prototype.includes`.
- `PropertySets` (`property_sets.dfy`): `getPropertySets`. It has three
  identical copies (app.js, components/db-load.js,
  components/get-properties.js), and all three are modelled by one
  definition.
  - The `filter`/`filter`/`map` selection is a chain of functions over the
    table's keys, in the order `Object.values` visits them.
  - The `for` loop that writes `HasProperty` and the assignment to `psets`
    are methods of the `PropertyTable` class, which updates the table in
    place.
- `PropertiesMenu` (`properties_menu.dfy`): `createPropertiesMenu`,
  `createPropertyEntry` and `removeAllChildren`. It covers the display value
  rule and the hidden keys, and the panel is a class whose children are
  cleared by a `while` loop.
- `TreeMenu` (`tree_menu.dfy`): `nodeToString`, `constructTreeMenuNode` and
  `createTreeMenu` over an already-built spatial tree.
- `Selection` (`selection.dfy`): the `simpleChildSelected` cell and the
  `selected` marks of the tree's leaves.
- `ModelStore` (`model_store.dfy`): `preprocessAndSaveIfc`, `loadSavedIfc`,
  `removeDatabase` and `updateButtons`. The page is a class holding:
  - the `bimModels` and `bimProperties` stores (maps);
  - the `modelsNames` marker (`Option`);
  - a log of the persistent writes;
  - the files handed to the viewer;
  - the module-level `properties`;
  - the two buttons' disabled flags.

Records of the property table are identified by their key. The arrays the
resolver writes hold references (`Ref(k)`) to the records, not copies, just as
the JavaScript arrays hold the record objects themselves.

The save writes the marker after the model rows but before the properties row
(components/db-load.js:93-102). `ModelStore.SaveStoppedAfterMarker` states
what a save that stops between those two writes leaves behind.

## Model

| member | source | states |
|---|---|---|
| JsValues.SetField | app.js:78 | after `o[k] = v`, `o[k]` is `v` and every other property is unchanged; an existing key keeps its place and a new one goes last |
| JsValues.Get | app.js:66 | `o[k]` is the stored value when the key is present and `undefined` otherwise |
| JsValues.Delete | app.js:99-101 | after `delete o[k]` the key is gone, every other property is unchanged, the key list stays duplicate-free, and the remaining keys keep their order (the gap closes where `k` stood; nothing moves when `k` is absent) |
| JsValues.Truthy | app.js:113 | `undefined` and `null` are falsy; every object, array and record reference is truthy |
| JsValues.Includes | app.js:72 | `includes` holds exactly when some element is `===` to the searched value |
| PropertySets.AscendingKeys | app.js:67 | `Object.values` visits exactly the table's records, in ascending numeric key order |
| PropertySets.KeepIf | app.js:68-73 | `filter` keeps exactly the elements that pass the test, and on an ascending key list (the only lists it is given) the result is ascending too, hence in their original order |
| PropertySets.AllPsetRels | app.js:68-70 | the first filter yields exactly the IFCRELDEFINESBYPROPERTIES records, in table order |
| PropertySets.RelatedPsetRels | app.js:71-73 | the second filter yields exactly the IFCRELDEFINESBYPROPERTIES records whose `RelatedObjects` contains the element's `expressID`, in table order |
| PropertySets.DefinitionKey | app.js:75 | the record a relation maps to is the table record under its `RelatingPropertyDefinition` number |
| PropertySets.DefinitionsOf | components/get-properties.js:20-22 | the map yields one record per relation, in relation order, each the record under that relation's `RelatingPropertyDefinition` |
| PropertySets.Lookup | app.js:78 | `properties[id]` is a reference to the record under the id when the table has one, and `undefined` otherwise |
| PropertySets.HasPropertyOf | app.js:78 | `map` yields an array exactly when `HasProperties` is one, of the same length, element i the lookup of `HasProperties[i]` |
| PropertySets.Written | app.js:77-79 | the loop keeps the table's keys and leaves records outside the selection untouched (its effect on the selected sets is stated by `WrittenAt`) |
| PropertySets.Applied | app.js:77-80 | after the loop and the assignment, the table keeps its keys, the element's `psets` is the list of references to the selection, and records that are neither the element nor selected are untouched |
| PropertySets.Resolved | app.js:65-81 | the resolved table keeps its keys and changes no record but the element and the selected sets (their new contents are stated by `ResolvedPsets` and `AppliedAt`) |
| PropertySets.PsetKeys | app.js:74-76 | every selected property set is a table record with a `HasProperties` list |
| PropertySets.PsetKeysAreMatchingDefinitions | app.js:66-76 | the selected property sets are, one per matching relation and in table order of the relations, the records under their `RelatingPropertyDefinition` |
| PropertySets.PropertyTable.GetPropertySets | app.js:65-81 | the table after the call is the resolved table: `HasProperty` written on the selected sets, `psets` on the element |
| PropertySets.PropertyTable.WriteHasProperties | app.js:77-79 | given keys of records with a `HasProperties` array (on any other the code throws), the loop writes `HasProperty` on each in turn, reading the table as it stands at each step |
| PropertySets.WrittenAt | components/db-load.js:161-163 | the loop's writes do not interfere: each selected set ends with the `HasProperty` computed from the original table, and every other record is untouched, even when a set is selected twice |
| PropertySets.AppliedAt | app.js:77-80 | per record: only `psets` (element only) and `HasProperty` (selected sets only) change, and `HasProperty` is the element-wise lookup of `HasProperties` |
| PropertySets.AppliedTwice | components/get-properties.js:23-26 | running the loop and the assignment again with the same selection changes nothing |
| PropertySets.AppliedKeepsInputs | components/get-properties.js:23-26 | the writes leave `type`, `RelatedObjects`, `RelatingPropertyDefinition`, `HasProperties` and `expressID` of every record as they were |
| PropertySets.ResolvedPsets | components/db-load.js:158-164 | the element's `psets` is the list of references to the selected sets, in selection order |
| PropertySets.NoRelationNoPsets | components/get-properties.js:17-26 | an element that no IFCRELDEFINESBYPROPERTIES record relates to gets `psets == []` |
| PropertySets.SameRelationsSameSelection | app.js:68-76 | tables whose records agree on everything the two filters and the map read select the same relations and the same sets |
| PropertySets.OtherTypesNeverContribute | components/get-properties.js:14-16 | records of any other type never influence the selection, whatever they hold |
| PropertySets.HasPropertyIsElementwiseLookup | components/get-properties.js:23-25 | each selected set's `HasProperty` has the length of its `HasProperties`, with element i the record under `HasProperties[i]` (or `undefined`), and `HasProperties` is unchanged |
| PropertySets.OnlyPsetsAndHasPropertyChange | app.js:77-80 | the table keeps its keys; every property other than `psets` and `HasProperty` keeps its value; `psets` changes on the element only, `HasProperty` on the selected sets only; all other records are untouched |
| PropertySets.SelectionDependsOnInputs | components/get-properties.js:12-22 | the selection, and whether the resolver can run at all, depend only on `type`, `RelatedObjects`, `RelatingPropertyDefinition` and `HasProperties` |
| PropertySets.ResolveTwiceSame | components/get-properties.js:11-27 | resolving the same element again on the resolved table is possible and changes nothing |
| PropertiesMenu.DisplayValue | app.js:112-113 | the shown value is never null or undefined: the text "undefined" for null/undefined, `value.value` when that is truthy, the value itself otherwise |
| PropertiesMenu.DisplayValueStable | app.js:112-113 | normalising an already shown non-object value again leaves it unchanged |
| PropertiesMenu.ShownKeys | app.js:99-103 | the keys the panel may show are exactly the element's keys other than `psets`, `mats` and `type` |
| PropertiesMenu.DeletesLeaveShownKeys | app.js:99-101 | the three deletes, one after the other, leave the element's keys minus the hidden ones, in their original order |
| PropertiesMenu.Stripped | app.js:99-101 | after the three deletes the element has no `psets`, `mats` or `type`, every other property is kept, and its keys are the original keys minus the hidden ones, in order |
| PropertiesMenu.EntriesFor | app.js:103-105 | one entry per listed key, in order, each showing that key's display value |
| PropertiesMenu.MenuEntries | app.js:99-105 | the panel holds one entry per shown key, in the element's key order, each with the display value of that key's original value |
| PropertiesMenu.MenuEntriesAreShownKeys | app.js:99-105 | every panel entry is a property of the element other than the three hidden ones, with its display value |
| PropertiesMenu.EveryShownKeyOnce | app.js:103-105 | every remaining property has an entry, and no key has two |
| PropertiesMenu.HiddenKeysNeverShown | app.js:99-101 | `psets`, `mats` and `type` never appear in the panel |
| PropertiesMenu.Panel.RemoveAllChildren | app.js:127-131 | the loop leaves the panel empty |
| PropertiesMenu.Panel.CreatePropertyEntry | app.js:108-125 | appends exactly one entry: the key with its display value |
| PropertiesMenu.Panel.CreatePropertiesMenu | app.js:96-106 | the caller's element is left stripped, and the panel holds exactly the entries of the remaining keys |
| TreeMenu.DigitsNoLeadingZero | app.js:155 | the decimal digits of a number start with `0` only for zero itself |
| TreeMenu.IntToString | app.js:155 | the text of an integer starts with a minus sign exactly when it is negative, followed by decimal digits without leading zeros |
| TreeMenu.Label | app.js:154-156 | a label is the type, then " - ", then the express ID's text: a minus sign exactly for a negative ID, digits without leading zeros, reading back as the ID |
| TreeMenu.IntToStringRoundTrip | app.js:155 | the decimal text of an express ID reads back as that ID |
| TreeMenu.LabelDeterminesNode | app.js:154-156 | a label `type - expressID` determines the type and express ID, given the length of the type |
| TreeMenu.RenderNode | app.js:158-168 | a node is rendered as a leaf exactly when it has no children; otherwise it is a nested entry with one item per child; the label is `nodeToString` |
| TreeMenu.RenderAll | app.js:165-167 | the children are rendered one each, in order |
| TreeMenu.CreateTreeMenu | app.js:145-152 | the project is always a nested entry, holding its children's entries |
| TreeMenu.ProjectRenderedAsNode | app.js:148-151 | the project is rendered like any other node, except that a childless project is still nested (and empty) |
| TreeMenu.RenderKeepsPreorder | app.js:158-168 | the rendered entries carry every node's label once, in preorder |
| TreeMenu.RenderAllKeepsPreorder | app.js:165-167 | the same for a list of sibling nodes |
| TreeMenu.LeavesAreChildlessNodes | app.js:159-163 | the leaves of the menu are exactly the childless nodes, in preorder |
| TreeMenu.LeavesAreChildlessNodesAll | app.js:165-167 | the same for a list of sibling nodes |
| TreeMenu.TreeMenuListsEveryNode | app.js:145-152 | the tree panel lists the project and then every other node, in preorder |
| Selection.AfterClick | app.js:213-217 | after a click the clicked leaf is recorded and marked, and no leaf gains a mark except the clicked one |
| Selection.ClickSelectsOnlyClicked | app.js:213-217 | from a single selection, a click leaves exactly the clicked leaf marked |
| Selection.ClicksKeepOneSelected | app.js:192 | from the initial cell, any series of clicks leaves at most one leaf marked, and that leaf is the one clicked last |
| Selection.SimpleChildSelected.constructor | app.js:192 | initially nothing is recorded and nothing is marked |
| Selection.SimpleChildSelected.Click | app.js:213-217 | unmarks the recorded leaf, marks and records the clicked one; the selection stays single |
| ModelStore.ModelsOf | components/db-load.js:76-90 | the save builds exactly one row per level (each row is stated by `ModelsOfAt`) |
| ModelStore.ModelsOfAt | components/db-load.js:84-89 | the i-th row is named `id + levelName` and records that id, that level name and that level's file |
| ModelStore.NamesOf | components/db-load.js:96 | the marker's names are the rows' names, in row order |
| ModelStore.SavedNamesDistinct | components/db-load.js:79-90 | distinct levels of one model get distinct names |
| ModelStore.PutAll | components/db-load.js:93 | `bulkPut` adds the batch's names to the store and leaves rows under other names untouched |
| ModelStore.PutAllFinds | components/db-load.js:93 | after `bulkPut`, the row under a name is the last row of the batch with that name |
| ModelStore.FirstMissing | components/db-load.js:113-120 | a reload stops at the first marker name that has no row |
| ModelStore.FilesOf | components/db-load.js:113-123 | the loaded files are those of the rows under the names, in marker order |
| ModelStore.LoadedFiles | components/db-load.js:113-124 | a reload loads, in marker order, the files of the marker names up to but not including the first name without a row |
| ModelStore.LoadOutcomeOf | components/db-load.js:113-129 | a reload finishes exactly when every marker name has a row and the properties row exists |
| ModelStore.AllPresentAllLoaded | components/db-load.js:113-124 | when every name has a row, every file is loaded, in marker order |
| ModelStore.SaveThenLoad | components/db-load.js:93-129 | after a save, a reload loads every level's file in level order and reads back the saved properties text |
| ModelStore.SaveStoppedAfterMarker | components/db-load.js:96-102 | a save that stops after the marker write, into stores without a properties row, leaves a marker whose reload crashes on the missing properties |
| ModelStore.ButtonStates | components/db-load.js:49-60 | with no marker remove is disabled and load enabled, otherwise the reverse; exactly one button is disabled |
| ModelStore.ModelPage.BuildModels | components/db-load.js:76-90 | the save loop builds one row per level, in level order |
| ModelStore.ModelPage.PreprocessAndSaveIfc | components/db-load.js:64-105 | stores all rows, then sets the marker to their names, then stores the properties text under "properties", in that order and nothing else |
| ModelStore.ModelPage.LoadSavedIfc | components/db-load.js:107-130 | loads the marker's files in order up to the first missing row, then reads the properties text; a missing row or properties row is reported |
| ModelStore.ModelPage.RemoveDatabase | components/db-load.js:132-136 | removes the marker, then deletes the database; afterwards there is no marker |
| ModelStore.ModelPage.UpdateButtons | components/db-load.js:49-60 | sets the buttons by `ButtonStates`, and reloads the stored model when the marker is present |

## Left out

- components/three-utils.js is not part of this model. It only builds materials for the 3D viewer.
- The viewer is not modelled: construction, grid and axes, picking and pre-picking, glTF export and loading, `URL.createObjectURL`, `File` and `arrayBuffer`. The model keeps only what the page passes to and receives from it: the exported levels and properties text, and the files handed to the loader.
- DOM plumbing is not modelled: element creation, CSS classes on carets (app.js:134-143), hover handlers and `location.reload()`. A panel is the list of its entries, and the tree is a value.
- Dexie and `localStorage` are not modelled. The stores are maps and the marker is an `Option`; the database schema (components/db-load.js:18-32) is not modelled. Deleting the database is modelled as emptying both stores.
- `async`/`await` is modelled as a strict sequence. `updateButtons` does not await `loadSavedIfc`, so the buttons are set whatever the reload's outcome; the model does this.
- `JSON.stringify` and `JSON.parse` are an identity on the marker's names and on the properties text. The JSON file is not parsed: `PropertyTable` starts from an already parsed table.
- ModelStore.Export: the model id is taken as the text it contributes to `id + levelName`. JavaScript's conversion of a numeric id to text is not modelled.
- PropertySets.AscendingKeys: the table's keys are naturals, all visited in ascending order. `Object.values` and `for ... in` put only array-index keys (0 to 2^32 - 2) first in ascending order; larger integer keys and other keys follow in insertion order. Tables with keys of 2^32 - 1 or more, or with non-integer keys, are not modelled.
- PropertySets.Lookup: only a non-negative integer member id finds a record. A member id given as a string of digits would find the same record in JavaScript but is `undefined` here.
- PropertySets.PropertyTable.GetPropertySets: the inputs on which the code throws are excluded by its precondition (`Resolvable`), not modelled as errors. These are: a relation without a `RelatedObjects` array, a relating definition that is missing or has no `HasProperties` array, and an element key missing from the table. Two shapes on which the code does not throw are excluded as well: a relation whose `RelatedObjects` is a string (then `includes` is a substring test on the id's text), and a `RelatingPropertyDefinition` given as a string of digits (then `properties[...]` still finds the record with that number).
- TreeMenu.IntToString: writes every integer in plain decimal. JavaScript writes numbers of magnitude 10^21 or more in exponent form (`1e+21`); express IDs that large are not modelled.
- PropertiesMenu.DisplayValue: for a reference to a table record (`Ref`), `value.value` is not looked up and the reference is shown as it is. Values other than integers (floating-point numbers) are not modelled.
- PropertiesMenu.Panel.CreatePropertiesMenu: the keys of the element are visited in insertion order. The integer-like-keys-first rule of `for ... in` is not modelled.
- The text a value turns into in `textContent` is not modelled; an entry keeps the value itself.
- Spatial tree construction is not modelled. `createTreeMenu` receives a tree that is already built, and the code never builds one.
- Selection: leaves are identified by number. The viewer pick, the property fetch and the `createPropertiesMenu` call in the leaf click handler (app.js:205-212) are not part of `Click`; the panel is modelled by `PropertiesMenu.Panel`.
- app.js's own save path is not modelled: its load button clears the database before a new upload, and it loads and parses the properties row at start. It uses the same store operations as components/db-load.js.
- Two wiring mistakes are not modelled. components/db-load.js:44 calls `preprocessAndSaveIfc()` instead of assigning it, and components/db-load.js:141 reads `result.id` without checking `result`.
