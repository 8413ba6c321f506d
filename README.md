# SceneFlow isolate/restore and named list, in Dafny

SceneFlow is an extension for a 3D editor. It keeps a user-curated list of object names
and offers batch visibility actions. This project models its core:

- the **visibility accessor**, which reads or writes the three flags of an object
  looked up by name;
- the **snapshot store**: capture writes one record per object, and restore writes the
  records back and makes objects created since the capture fully visible;
- the **isolate/restore toggles** of list mode and selection mode. Each mode owns one
  store, and at most one of the two stores is non-empty at a time;
- the **named-list edits** that feed list isolation: the blank entry, removing the
  active entry, manual add and remove (with Python's `str.strip()`), add and remove
  selected, clear, and import merging. Each removal clamps the active index afterwards.

The host scene is a sequence of uniquely named objects, each carrying three booleans
(`hidden`, `hideRender`, `hideViewport`). The scene properties that the operators
update in place are the fields of the class `SceneState.Scene`:

- the registry, `objs`;
- the two stores, `listState` and `selState`;
- the list, `names`;
- the active index, `active`;
- the manual text field, `nameInput`.

Each modelled operator's `execute` body is a method of `Scene` with the same loops.
`Scene.Valid()` is the invariant that every operator method keeps. The two loop helpers
`Scene.AppendUnlisted` and `Scene.DeleteMatching` are the exceptions: they run inside
`Scene.AddSelected` and `Scene.RemoveSelected`, which restore `Valid()` afterwards. The
invariant says:

- object names are unique;
- at most one store is non-empty;
- non-empty list names are distinct;
- the active index is -1 or a valid position.

Each method is specified by value-level functions: `Snapshot`, `Restored`, `Isolate`,
`Without`, `Import` and `ClampActive`. What SceneFlow promises is proved about these
functions as lemmas:

- capture then restore is the identity;
- restoring the capture taken before isolating undoes the isolation;
- the isolation counts mean "visible afterwards" and "newly hidden";
- isolation is idempotent;
- import is idempotent;
- an export that is imported back into an empty list gives the same list, provided the
  names are distinct, non-empty, already stripped and free of '\n' and '\r'. Other lists
  do not come back the same: a blank entry added by "+" (`SceneFlow/sceneflow.py:128`)
  is dropped on import (`SceneFlow/sceneflow.py:340`), and a selected object's name with
  a trailing space (`SceneFlow/sceneflow.py:258`) comes back stripped.

List isolation only calls `hide_set(False)` on a named object
(`SceneFlow/sceneflow.py:201`). Its `hide_render` and `hide_viewport` stay as they were,
so a named object that is disabled in viewports stays disabled. `Isolation.Isolate`
states that no render or viewport flag changes.

## Model

| member | source | states |
|---|---|---|
| Visibility.IndexOf | SceneFlow/sceneflow.py:70 | lookup by name: `None` exactly when no object has the name, otherwise the first object carrying it |
| Visibility.Write | SceneFlow/sceneflow.py:69-76 | the registry keeps its objects and their order; a name that does not resolve changes nothing |
| Visibility.Read | SceneFlow/sceneflow.py:63-67 | `get_object_visibility`: the record carries the object's name and its three current flags |
| Visibility.ReadWriteBack | SceneFlow/sceneflow.py:63-76 | writing back what was read leaves the registry unchanged, and reading after a write gives the written flags |
| Visibility.WriteEffect | SceneFlow/sceneflow.py:69-76 | with unique names, the write sets all three flags of the named object and leaves every other object as it was |
| SnapshotStore.Snapshot | SceneFlow/sceneflow.py:78-87 | capture: one record per object, in registry order, with that object's name and current three flags |
| SnapshotStore.Captured | SceneFlow/sceneflow.py:92 | `objects_in_state`: exactly the names of the store's records |
| SnapshotStore.ResetOne | SceneFlow/sceneflow.py:98-100 | a captured object keeps its flags; an uncaptured one gets all three flags false |
| SnapshotStore.ResetUncaptured | SceneFlow/sceneflow.py:97-100 | the second restore pass keeps the objects, leaves captured ones as they are and makes every uncaptured one fully visible |
| SnapshotStore.WriteAll | SceneFlow/sceneflow.py:94-96 | writing the records back keeps the registry's objects and order |
| SnapshotStore.Restored | SceneFlow/sceneflow.py:89-102 | restore of a non-empty store keeps the registry's objects and order |
| SnapshotStore.RestoreEffect | SceneFlow/sceneflow.py:89-91 | restore of any store keeps the objects; an empty store changes nothing |
| SnapshotStore.WriteAllUntouched | SceneFlow/sceneflow.py:94-96 | an object that no record names keeps its flags; records naming missing objects are skipped |
| SnapshotStore.RestoreApplies | SceneFlow/sceneflow.py:94-96 | after restore, the object named by a record carries exactly that record's flags |
| SnapshotStore.RestoreUncapturedVisible | SceneFlow/sceneflow.py:97-100 | after restore, an object whose name the store did not capture has all three flags false |
| SnapshotStore.RestoreUndoesFlagChanges | SceneFlow/sceneflow.py:78-102 | restoring a capture of `base` gives `base` back after any change of flags made since |
| SnapshotStore.CaptureRestoreRoundTrip | SceneFlow/sceneflow.py:78-102 | capture followed at once by restore leaves every object's three flags as they were |
| Isolation.ListNames | SceneFlow/sceneflow.py:198 | `list_names`: every non-empty entry of the list and nothing else; the empty name is never in it |
| Isolation.ShownCount | SceneFlow/sceneflow.py:199-201 | `shown_count` as the loop accumulates it; at most the number of objects |
| Isolation.NewlyHiddenCount | SceneFlow/sceneflow.py:199-203 | `hidden_count` as the loop accumulates it; together with `shown_count` at most the number of objects |
| Isolation.IsolateOne | SceneFlow/sceneflow.py:201-203 | one object of the pass: a named object ends not hidden whatever its flags, an unnamed one ends hidden, an unnamed hidden one is unchanged, and render and viewport flags are kept |
| Isolation.Isolate | SceneFlow/sceneflow.py:198-203 | named objects end not hidden, every other object ends hidden, no render or viewport flag changes |
| Isolation.IsolationCounts | SceneFlow/sceneflow.py:199-204 | `shown_count` is the number of objects visible after isolation, `hidden_count` the number that went from visible to hidden |
| Isolation.NothingLeftToHide | SceneFlow/sceneflow.py:203 | when every unnamed object is already hidden, nothing is counted as newly hidden |
| Isolation.ShownCountByName | SceneFlow/sceneflow.py:201 | `shown_count` counts named objects whatever their flags |
| Isolation.IsolateIdempotent | SceneFlow/sceneflow.py:198-203 | isolating twice equals isolating once; the second pass hides nothing new and reports the same shown count |
| Isolation.BlankListHidesAll | SceneFlow/sceneflow.py:198 | empty entries name nothing: a list of blanks hides every object and shows none |
| Isolation.IsolateThenRestore | SceneFlow/sceneflow.py:196-203 | restoring the capture taken just before isolation gives back the registry exactly |
| NamedList.IsSpace | SceneFlow/sceneflow.py:288 | Python's `str.isspace` set, the characters `str.strip()` removes: ASCII whitespace, U+001C to U+001F, U+0085 and the Unicode space and line separators |
| NamedList.WhitespaceClasses | SceneFlow/sceneflow.py:288 | the set `IsSpace` behind `str.strip()` holds blanks, tabs, line breaks and Unicode spaces, and no letter, digit, `_` or `.` |
| NamedList.StripLeading | SceneFlow/sceneflow.py:288 | the result is a suffix of the input that drops only whitespace and does not start with whitespace |
| NamedList.StripTrailing | SceneFlow/sceneflow.py:288 | the result is a prefix of the input that drops only whitespace and does not end with whitespace |
| NamedList.Strip | SceneFlow/sceneflow.py:288 | `str.strip()`: the result is no longer than the input and neither starts nor ends with whitespace |
| NamedList.StripSlice | SceneFlow/sceneflow.py:288 | the strip is the slice of the input that starts right after its leading whitespace |
| NamedList.StripDropsOnlySpace | SceneFlow/sceneflow.py:288 | every character of the input before or after its strip is whitespace |
| NamedList.StripFixed | SceneFlow/sceneflow.py:304 | a name without whitespace at either end is its own strip (so stripping is idempotent) |
| NamedList.StripLine | SceneFlow/sceneflow.py:338-339 | stripping a line read from a file drops its line terminator |
| NamedList.ClampActive | SceneFlow/sceneflow.py:143 | the index after a removal is `min(old, len-1)` on a non-empty list and -1 on an empty one, so it lies in [-1, len-1] |
| NamedList.RemoveAtKeepsDistinct | SceneFlow/sceneflow.py:141 | removing one entry keeps the non-empty names distinct |
| NamedList.FindFirst | SceneFlow/sceneflow.py:306-308 | the index of the first entry equal to the name, or -1 exactly when no entry is |
| NamedList.MatchingIndices | SceneFlow/sceneflow.py:269 | `indices_to_remove`: strictly ascending positions, each of an entry naming a selected object |
| NamedList.MatchingIndicesComplete | SceneFlow/sceneflow.py:269 | every position of an entry naming a selected object is among the indices to remove |
| NamedList.Without | SceneFlow/sceneflow.py:269-272 | the list that "remove selected" leaves: never longer than the original |
| NamedList.WithoutLength | SceneFlow/sceneflow.py:269-272 | filtering drops exactly one entry per index to remove |
| NamedList.WithoutMembers | SceneFlow/sceneflow.py:269-272 | the filtered list holds exactly the entries that name no selected object |
| NamedList.WithoutKeepsDistinct | SceneFlow/sceneflow.py:272 | filtering keeps the non-empty names distinct |
| NamedList.RemoveMatchStep | SceneFlow/sceneflow.py:272 | removing the next match from the end extends the filtered tail down to that match |
| NamedList.FilteredFromEnds | SceneFlow/sceneflow.py:271-272 | the reversed removal loop starts from the list itself and ends with the filtered list |
| NamedList.Unlisted | SceneFlow/sceneflow.py:255-258 | "add selected" appends at most one name per selected object, none of them listed before the call |
| NamedList.UnlistedMembers | SceneFlow/sceneflow.py:255-258 | the appended names are exactly the selected names that were not listed before the call |
| NamedList.AddSelectedKeepsDistinct | SceneFlow/sceneflow.py:255-258 | adding the selection keeps the non-empty names distinct |
| NamedList.Import | SceneFlow/sceneflow.py:335-341 | import only appends: the old list is a prefix of the new one |
| NamedList.ImportComplete | SceneFlow/sceneflow.py:338-341 | after import, every non-empty stripped line is in the list |
| NamedList.ImportAddsOnlyNew | SceneFlow/sceneflow.py:340-341 | every appended entry is a non-empty stripped line of the file that is not earlier in the list |
| NamedList.ImportNothingNew | SceneFlow/sceneflow.py:340 | a file whose names are all listed (or blank) leaves the list unchanged |
| NamedList.ImportIdempotent | SceneFlow/sceneflow.py:335-343 | importing the same lines a second time adds nothing |
| NamedList.ImportKeepsDistinct | SceneFlow/sceneflow.py:340-341 | import keeps the non-empty names distinct |
| NamedList.ExportLines | SceneFlow/sceneflow.py:358-359 | export writes one line per entry |
| NamedList.ExportImportRoundTrip | SceneFlow/sceneflow.py:358-359 | importing an exported list of distinct stripped names into an empty list reproduces it in order |
| SceneState.WithFlags | SceneFlow/sceneflow.py:225 | the host's "hide unselected" changes flags only, never which objects exist or their order |
| SceneState.ShowsName | SceneFlow/sceneflow.py:229-230 | `obj = bpy.data.objects.get(name)` then `obj and not obj.hide_get()`: the first object of that name exists and is not hidden |
| SceneState.StillShownVisible | SceneFlow/sceneflow.py:229-230 | a selected name counts as shown exactly when it names an object that is not hidden |
| SceneState.CountShown | SceneFlow/sceneflow.py:227-230 | the re-selection loop counts the selected names of objects that are not hidden |
| SceneState.CubeSphereIsolation | SceneFlow/sceneflow.py:198-204 | isolating the list ["Cube"] over a visible Cube and Sphere hides only Sphere and reports 1 shown, 1 newly hidden |
| SceneState.Mode.Other | SceneFlow/sceneflow.py:185 | `other_state_prop_name` (also at line 211): the other mode, which is never the mode itself |
| SceneState.Scene.Store | SceneFlow/sceneflow.py:189 | `getattr(context.scene, state_prop_name)` (also at lines 79 and 90): the list store for list mode and the selection store for selection mode; in a valid scene it holds each name once, and while it is non-empty the other store is empty |
| SceneState.Scene.constructor | SceneFlow/sceneflow.py:659-663 | a registered scene: both stores empty, empty list, active index -1, empty text field |
| SceneState.Scene.SetVisibility | SceneFlow/sceneflow.py:69-76 | reports whether the name resolved; the registry becomes `Write` of the old one |
| SceneState.Scene.Capture | SceneFlow/sceneflow.py:78-87 | the mode's store becomes the capture of the registry, discarding earlier contents; the other store stays empty |
| SceneState.Scene.WriteBack | SceneFlow/sceneflow.py:94-96 | the first restore loop writes every record back by name, in store order |
| SceneState.Scene.ResetUncapturedPass | SceneFlow/sceneflow.py:98-100 | the second restore loop makes every uncaptured object fully visible |
| SceneState.Scene.Restore | SceneFlow/sceneflow.py:89-102 | fails without change on an empty store; otherwise restores the registry, empties the store and succeeds; the other store is untouched |
| SceneState.Scene.ToggleList | SceneFlow/sceneflow.py:188-205 | isolated: restore; idle with empty list: cancel, no change; otherwise clear the selection store, capture, isolate, report both counts |
| SceneState.Scene.ApplyListMask | SceneFlow/sceneflow.py:198-204 | the isolation loop produces `Isolate` of the registry and returns the shown and newly hidden counts |
| SceneState.Scene.ToggleSelection | SceneFlow/sceneflow.py:214-233 | isolated: restore; nothing selected: cancel, no change; otherwise clear the list store, capture, apply the host's hide and count selected objects still visible |
| SceneState.Scene.AddBlank | SceneFlow/sceneflow.py:127-130 | appends an empty entry and makes it active |
| SceneState.Scene.RemoveActive | SceneFlow/sceneflow.py:138-145 | removes the active entry and clamps the index exactly when the index is valid, otherwise cancels with no change |
| SceneState.Scene.AddManual | SceneFlow/sceneflow.py:287-295 | appends the stripped name, makes it active and clears the field exactly when it is non-empty and not listed; otherwise no change |
| SceneState.Scene.RemoveManual | SceneFlow/sceneflow.py:303-315 | removes the first entry equal to the stripped name, clamps the index and clears the field exactly when the name is non-empty and listed |
| SceneState.Scene.AddSelected | SceneFlow/sceneflow.py:254-261 | appends the unlisted selected names in selection order and returns how many were added |
| SceneState.Scene.AppendUnlisted | SceneFlow/sceneflow.py:255-258 | the loop of "add selected" appends `Unlisted` of the list as it was before the call and counts the appended names |
| SceneState.Scene.DeleteMatching | SceneFlow/sceneflow.py:271-272 | the reversed-index loop removes exactly the matching entries and counts them |
| SceneState.Scene.RemoveSelected | SceneFlow/sceneflow.py:267-277 | cancels with no change exactly when no entry matches; otherwise removes all matches, count > 0, clamps the index |
| SceneState.Scene.ClearList | SceneFlow/sceneflow.py:323-327 | empties a non-empty list, resets the index to -1 and reports the old length; cancels on an empty list |
| SceneState.Scene.ImportLines | SceneFlow/sceneflow.py:334-345 | the list becomes `Import` of the old list and the lines; the count is the number appended |

## Left out

- User interface: panels, the list's `draw_item`, preferences `draw`, `register`/`unregister`, and the `poll` methods. Each modelled `execute` re-checks the conditions its `poll` tests.
- File I/O: reading the file in import, writing it in export, the file dialogs, `auto_export_list_names` and the export path handling. Import is modelled over the lines of the file as already read. Export is modelled only by the lines it writes.
- Scene.ImportLines: does not model the I/O error path, where an exception cancels the import after part of it may have been applied.
- Python's universal-newline splitting of a file into lines is not modelled. This is why the export round trip requires names without '\n' or '\r'.
- Scene.ToggleSelection: the host's `hide_view_set(unselected=True)` is an input giving the flags it leaves on each object, because its semantics are not in this code. The deselect/reselect of the selection and the choice of the active object are not modelled; only the store handling and the reported count are.
- Scene.AddSelected: requires the selection to hold each name once, which the host's unique object names guarantee. The selection's order is an input.
- Select and deselect by list (`SceneFlow/sceneflow.py:159-161`, `SceneFlow/sceneflow.py:172-174`), hide and unhide by list (`SceneFlow/sceneflow.py:378-380`, `SceneFlow/sceneflow.py:394-396`) and unhide selected (`SceneFlow/sceneflow.py:455-458`) are the add-on's own per-object loops: they call `select_set` or `hide_set` on each listed or selected object. Hide selected (`SceneFlow/sceneflow.py:436`) and unhide all (`SceneFlow/sceneflow.py:245`) call the host's bulk operators. None of them reads or writes an isolation store or the list, and none is modelled.
- Deleting the objects named by the list or the selected objects (`SceneFlow/sceneflow.py:400-425`, `SceneFlow/sceneflow.py:466-485`): the host's delete is not modelled. After the delete, these operators prune the named list the same way "remove selected" does: a reversed-index removal loop, then the active index is clamped. That pruning is not modelled for these two operators. It is the same filter and clamp as `Scene.RemoveSelected` and `ClampActive`.
- Undo and redo (`SceneFlow/object_visibility_undo.py`), and the helper files `SceneFlow/ovm_utils.py`, `SceneFlow/ops.py`, `SceneFlow/ui.py` and `SceneFlow/__init__.py`: these are pass-throughs and registration with no logic of their own.
- Setting the active index by clicking in the list: the UI does this. The model only keeps the index within [-1, len-1].
- Status messages: the `report` texts are modelled as the `Outcome` and `Status` values and counts that they print.
