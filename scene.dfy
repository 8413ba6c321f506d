/** The scene state the add-on keeps and updates in place: the host's object
    registry, the two isolation snapshot stores, the named list with its
    active-index cursor and the manual name field, and the operators'
    `execute` bodies that change them. */
module SceneState {
  import opened Visibility
  import opened SnapshotStore
  import opened Isolation
  import opened NamedList

  /** The two isolation modes; each owns one snapshot store. */
  datatype Mode = ListMode | SelectionMode {
    function Other(): (r: Mode)
      ensures r != this
    {
      if this == ListMode then SelectionMode else ListMode
    }
  }

  /** What an isolate/restore toggle reports. */
  datatype Outcome =
    | ViewRestored                    // "Restored previous object visibility."
    | RestoreFailed                   // "Failed to restore state (was not isolated?)."
    | NothingToIsolate                // the list is empty / nothing is selected: cancelled
    | ListIsolated(shown: nat, newlyHidden: nat)
    | SelectionIsolated(shown: nat)

  /** The operator result: `{'FINISHED'}` or `{'CANCELLED'}`. */
  datatype Status = Finished | Cancelled

  /** The registry with the flags the host leaves on each object, position by position. */
  function WithFlags(objs: seq<Obj>, flags: seq<Flags>): (r: seq<Obj>)
    requires |flags| == |objs|
    ensures SameNames(r, objs)
  {
    seq(|objs|, i requires 0 <= i < |objs| => Obj(objs[i].name, flags[i]))
  }

  /** The names of the objects that are not hidden. */
  function VisibleNames(objs: seq<Obj>): set<string> {
    set o | o in objs && !o.flags.hidden :: o.name
  }

  /** With unique names, a name is visible exactly when it resolves to a non-hidden object. */
  lemma VisibleNameLookup(objs: seq<Obj>, name: string)
    requires UniqueNames(objs)
    ensures name in VisibleNames(objs) <==> IndexOf(objs, name).Some? && !objs[IndexOf(objs, name).value].flags.hidden
  {
    if name in VisibleNames(objs) {
      var o :| o in objs && !o.flags.hidden && o.name == name;
      var i :| 0 <= i < |objs| && objs[i] == o;
      IndexOfUnique(objs, i);
    }
    if IndexOf(objs, name).Some? {
      var k := IndexOf(objs, name).value;
      assert objs[k] in objs;
    }
  }

  /** `obj = bpy.data.objects.get(name)` followed by `obj and not obj.hide_get()`. */
  predicate ShowsName(objs: seq<Obj>, name: string)
    ensures ShowsName(objs, name) <==>
      exists i :: 0 <= i < |objs| && objs[i].name == name && !objs[i].flags.hidden
        && forall j :: 0 <= j < i ==> objs[j].name != name
  {
    match IndexOf(objs, name)
    case Some(k) => !objs[k].flags.hidden
    case None => false
  }

  /** The selected names still showing an object. */
  function StillShown(objs: seq<Obj>, selected: set<string>): set<string> {
    set n | n in selected && ShowsName(objs, n)
  }

  /** With unique names, the selected names still showing are the selected names of the
      objects that are not hidden. */
  lemma StillShownVisible(objs: seq<Obj>, selected: set<string>)
    requires UniqueNames(objs)
    ensures StillShown(objs, selected) == selected * VisibleNames(objs)
  {
    forall n | n in selected
      ensures ShowsName(objs, n) <==> n in VisibleNames(objs)
    {
      VisibleNameLookup(objs, n);
    }
  }

  /** The re-selection loop of the selection toggle: each selected name that still
      resolves to an object that is not hidden is counted once. */
  method CountShown(objs: seq<Obj>, selected: set<string>) returns (shown: nat)
    requires UniqueNames(objs)
    ensures shown == |selected * VisibleNames(objs)|
  {
    ghost var done: set<string> := {};
    shown := 0;
    var pending := selected;
    while pending != {}
      invariant pending <= selected && done == selected - pending
      invariant shown == |StillShown(objs, done)|
      decreases pending
    {
      var name :| name in pending;
      ghost var next := done + {name};
      var obj := IndexOf(objs, name);
      if obj.Some? && !objs[obj.value].flags.hidden {
        assert StillShown(objs, next) == StillShown(objs, done) + {name};
        shown := shown + 1;
      } else {
        assert StillShown(objs, next) == StillShown(objs, done);
      }
      done := next;
      pending := pending - {name};
    }
    assert done == selected;
    StillShownVisible(objs, selected);
  }

  class Scene {
    /** `bpy.data.objects`, in registry order. */
    var objs: seq<Obj>
    /** `ovm_isolate_list_state`: the capture taken when the list was isolated. */
    var listState: seq<Record>
    /** `ovm_isolate_selection_state`: the capture taken when the selection was isolated. */
    var selState: seq<Record>
    /** `ovm_object_name_list`. */
    var names: seq<string>
    /** `ovm_active_object_name_index`; -1 means no entry is active. */
    var active: int
    /** `ovm_object_name_input`: the text field of the manual add/remove row. */
    var nameInput: string

    /** Object names are unique; each store holds a name once; at most one mode is
        isolated at a time; non-empty list names are distinct; the cursor is -1 or an entry. */
    ghost predicate Valid()
      reads this
    {
      && UniqueNames(objs)
      && UniqueRecordNames(listState) && UniqueRecordNames(selState)
      && (listState == [] || selState == [])
      && DistinctNonBlank(names)
      && -1 <= active < |names|
    }

    /** The store that belongs to mode `m`. In a valid scene it holds each name once, and
        while it is non-empty the other mode's store is empty. */
    function Store(m: Mode): (r: seq<Record>)
      reads this
      ensures m == ListMode ==> r == listState
      ensures m == SelectionMode ==> r == selState
      ensures Valid() ==> UniqueRecordNames(r)
      ensures Valid() && r != [] ==> (if m == ListMode then selState else listState) == []
    {
      if m == ListMode then listState else selState
    }

    /** A scene whose registry holds `registry`, with both modes idle and an empty list. */
    constructor (registry: seq<Obj>)
      requires UniqueNames(registry)
      ensures Valid()
      ensures objs == registry && listState == [] && selState == []
      ensures names == [] && active == -1 && nameInput == ""
    {
      objs := registry;
      listState, selState := [], [];
      names, active, nameInput := [], -1, "";
    }

    /** `set_object_visibility`: writes all three flags of the object named `name`;
        reports whether the name resolved. */
    method SetVisibility(name: string, f: Flags) returns (found: bool)
      requires Valid()
      modifies this`objs
      ensures Valid()
      ensures found == IndexOf(old(objs), name).Some?
      ensures objs == Write(old(objs), name, f)
    {
      match IndexOf(objs, name)
      case None =>
        found := false;
      case Some(k) =>
        objs := objs[k := Obj(objs[k].name, f)];
        found := true;
    }

    /** `store_visibility_state`: the store of mode `m` is cleared and receives one record per
        object, in registry order. It is only ever called once the other store is empty. */
    method Capture(m: Mode)
      requires Valid() && Store(m.Other()) == []
      modifies this`listState, this`selState
      ensures Valid()
      ensures Store(m) == Snapshot(objs)
      ensures Store(m.Other()) == []
    {
      var state: seq<Record> := [];
      var i := 0;
      while i < |objs|
        invariant 0 <= i <= |objs|
        invariant state == Snapshot(objs[..i])
      {
        assert objs[..i + 1][..i] == objs[..i];
        state := state + [Read(objs[i])];
        i := i + 1;
      }
      assert objs[..|objs|] == objs;
      SnapshotUnique(objs);
      if m == ListMode {
        listState := state;
      } else {
        selState := state;
      }
    }

    /** `restore_visibility_state`: fails on an empty store and changes nothing; otherwise
        writes every record back by name, makes every uncaptured object fully visible,
        clears the store and succeeds. */
    method Restore(m: Mode) returns (ok: bool)
      requires Valid()
      modifies this`objs, this`listState, this`selState
      ensures Valid()
      ensures ok == (old(Store(m)) != [])
      ensures objs == RestoreEffect(old(objs), old(Store(m)))
      ensures Store(m) == [] && Store(m.Other()) == old(Store(m.Other()))
    {
      var store := Store(m);
      if store == [] {
        return false;
      }
      WriteBack(store);
      ResetUncapturedPass(Captured(store));
      if m == ListMode {
        listState := [];
      } else {
        selState := [];
      }
      ok := true;
    }

    /** The first loop of restore: each record's flags are written to the object of that
        name, in store order. */
    method WriteBack(store: seq<Record>)
      requires Valid()
      modifies this`objs
      ensures Valid()
      ensures objs == WriteAll(old(objs), store)
    {
      var i := 0;
      while i < |store|
        invariant 0 <= i <= |store|
        invariant Valid()
        invariant objs == WriteAll(old(objs), store[..i])
      {
        assert store[..i + 1][..i] == store[..i];
        var found := SetVisibility(store[i].name, store[i].flags);
        i := i + 1;
      }
      assert store[..|store|] == store;
    }

    /** The second loop of restore: every object whose name was not captured is made
        fully visible. */
    method ResetUncapturedPass(captured: set<string>)
      requires Valid()
      modifies this`objs
      ensures Valid()
      ensures objs == ResetUncaptured(old(objs), captured)
    {
      var j := 0;
      while j < |objs|
        invariant 0 <= j <= |objs| == |old(objs)|
        invariant Valid()
        invariant forall k :: 0 <= k < j ==> objs[k] == ResetOne(old(objs)[k], captured)
        invariant forall k :: j <= k < |objs| ==> objs[k] == old(objs)[k]
      {
        if objs[j].name !in captured {
          IndexOfUnique(objs, j);
          var found := SetVisibility(objs[j].name, Visible);
        }
        j := j + 1;
      }
    }

    /** The list toggle (`IsolateRestoreListOperator.execute`). Isolated: restore. Idle with an
        empty list: cancel. Otherwise: restore the selection mode, capture, then show every
        object named by a non-empty list entry and hide every other one. */
    method ToggleList() returns (outcome: Outcome)
      requires Valid()
      modifies this`objs, this`listState, this`selState
      ensures Valid()
      ensures old(listState) != [] ==>
        && outcome == ViewRestored
        && objs == Restored(old(objs), old(listState))
        && listState == [] && selState == old(selState)
      ensures old(listState) == [] && names == [] ==>
        && outcome == NothingToIsolate
        && objs == old(objs) && listState == [] && selState == old(selState)
      ensures old(listState) == [] && names != [] ==>
        var base := RestoreEffect(old(objs), old(selState));
        var named := ListNames(names);
        && listState == Snapshot(base) && selState == []
        && objs == Isolate(base, named)
        && outcome == ListIsolated(ShownCount(base, named), NewlyHiddenCount(base, named))
    {
      if listState != [] {
        var ok := Restore(ListMode);
        outcome := if ok then ViewRestored else RestoreFailed;
        return;
      }
      if names == [] {
        return NothingToIsolate;
      }
      var cleared := Restore(SelectionMode);
      Capture(ListMode);
      var shown, hidden := ApplyListMask(ListNames(names));
      outcome := ListIsolated(shown, hidden);
    }

    /** The isolation pass of the list toggle, over `bpy.data.objects`: a named object is
        shown and counted, an unnamed one is hidden and counted only if it was visible. */
    method ApplyListMask(named: set<string>) returns (shown: nat, hidden: nat)
      requires Valid()
      modifies this`objs
      ensures Valid()
      ensures objs == Isolate(old(objs), named)
      ensures shown == ShownCount(old(objs), named) && hidden == NewlyHiddenCount(old(objs), named)
    {
      ghost var base := objs;
      shown, hidden := 0, 0;
      var i := 0;
      while i < |objs|
        invariant 0 <= i <= |objs| == |base|
        invariant forall k :: 0 <= k < i ==> objs[k] == IsolateOne(base[k], named)
        invariant forall k :: i <= k < |objs| ==> objs[k] == base[k]
        invariant shown == ShownCount(base[..i], named)
        invariant hidden == NewlyHiddenCount(base[..i], named)
      {
        assert base[..i + 1][..i] == base[..i];
        var o := objs[i];
        if o.name in named {
          objs := objs[i := Obj(o.name, o.flags.(hidden := false))];
          shown := shown + 1;
        } else if !o.flags.hidden {
          objs := objs[i := Obj(o.name, o.flags.(hidden := true))];
          hidden := hidden + 1;
        }
        i := i + 1;
      }
      assert base[..|base|] == base;
      assert objs == Isolate(base, named);
      SameNamesUnique(objs, base);
    }

    /** The selection toggle (`IsolateRestoreSelectedOperator.execute`). `selected` holds the
        names of the selected objects; `hostFlags` are the flags the host's bulk "hide
        unselected" leaves on each object of the registry. The reported count is the
        number of selected objects still visible afterwards. */
    method ToggleSelection(selected: set<string>, hostFlags: seq<Flags>) returns (outcome: Outcome)
      requires Valid() && |hostFlags| == |objs|
      modifies this`objs, this`listState, this`selState
      ensures Valid()
      ensures old(selState) != [] ==>
        && outcome == ViewRestored
        && objs == Restored(old(objs), old(selState))
        && selState == [] && listState == old(listState)
      ensures old(selState) == [] && selected == {} ==>
        && outcome == NothingToIsolate
        && objs == old(objs) && selState == [] && listState == old(listState)
      ensures old(selState) == [] && selected != {} ==>
        var base := RestoreEffect(old(objs), old(listState));
        && selState == Snapshot(base) && listState == []
        && objs == WithFlags(base, hostFlags)
        && outcome == SelectionIsolated(|selected * VisibleNames(objs)|)
    {
      if selState != [] {
        var ok := Restore(SelectionMode);
        outcome := if ok then ViewRestored else RestoreFailed;
        return;
      }
      if selected == {} {
        return NothingToIsolate;
      }
      var cleared := Restore(ListMode);
      Capture(SelectionMode);
      SameNamesUnique(WithFlags(objs, hostFlags), objs);
      objs := WithFlags(objs, hostFlags);
      var shown := CountShown(objs, selected);
      outcome := SelectionIsolated(shown);
    }

    /** The "+" button of the list: appends an empty entry and makes it active. */
    method AddBlank()
      requires Valid()
      modifies this`names, this`active
      ensures Valid()
      ensures names == old(names) + [""] && active == |names| - 1
    {
      names := names + [""];
      active := |names| - 1;
    }

    /** The "-" button of the list: removes the active entry, if there is one, and clamps
        the cursor. */
    method RemoveActive() returns (status: Status)
      requires Valid()
      modifies this`names, this`active
      ensures Valid()
      ensures status == Finished <==> 0 <= old(active) < |old(names)|
      ensures status == Finished ==>
        && names == old(names)[..old(active)] + old(names)[old(active) + 1..]
        && active == ClampActive(old(active), |names|)
      ensures status == Cancelled ==> names == old(names) && active == old(active)
    {
      var idx := active;
      if 0 <= idx < |names| {
        var rest := names[..idx] + names[idx + 1..];
        RemoveAtKeepsDistinct(names, idx);
        var clamped := ClampActive(idx, |rest|);
        names, active := rest, clamped;
        status := Finished;
      } else {
        status := Cancelled;
      }
    }

    /** Manual add: the stripped name is appended and made active unless it is empty or
        already listed; the text field is cleared on success. */
    method AddManual(nameToAdd: string) returns (status: Status)
      requires Valid()
      modifies this`names, this`active, this`nameInput
      ensures Valid()
      ensures var n := Strip(nameToAdd);
        && (status == Finished <==> n != "" && n !in old(names))
        && (status == Finished ==> names == old(names) + [n] && active == |names| - 1 && nameInput == "")
        && (status == Cancelled ==>
              names == old(names) && active == old(active) && nameInput == old(nameInput))
    {
      var name := Strip(nameToAdd);
      if name == "" {
        return Cancelled;
      }
      if name in names {
        return Cancelled;
      }
      names := names + [name];
      active := |names| - 1;
      nameInput := "";
      status := Finished;
    }

    /** Manual remove: the first entry equal to the stripped name is removed and the cursor
        clamped; the text field is cleared on success. */
    method RemoveManual(nameToRemove: string) returns (status: Status)
      requires Valid()
      modifies this`names, this`active, this`nameInput
      ensures Valid()
      ensures var n := Strip(nameToRemove);
        && (status == Finished <==> n != "" && n in old(names))
        && (status == Finished ==>
              && (exists k :: 0 <= k < |old(names)| && old(names)[k] == n
                    && names == old(names)[..k] + old(names)[k + 1..])
              && n !in names
              && active == ClampActive(old(active), |names|) && nameInput == "")
        && (status == Cancelled ==>
              names == old(names) && active == old(active) && nameInput == old(nameInput))
    {
      var name := Strip(nameToRemove);
      if name == "" {
        return Cancelled;
      }
      var found := FindFirst(names, name);
      if found != -1 {
        ghost var before := names;
        RemoveAtKeepsDistinct(names, found);
        names := names[..found] + names[found + 1..];
        assert forall i :: 0 <= i < |names| ==> names[i] == if i < found then before[i] else before[i + 1];
        active := ClampActive(active, |names|);
        nameInput := "";
        return Finished;
      }
      return Cancelled;
    }

    /** "Add selected": appends the name of each selected object not listed before the call. */
    method AddSelected(selected: seq<string>) returns (count: nat)
      requires Valid() && Distinct(selected)
      modifies this`names
      ensures Valid()
      ensures names == old(names) + Unlisted(selected, old(names))
      ensures count == |names| - |old(names)|
    {
      count := AppendUnlisted(selected);
      AddSelectedKeepsDistinct(selected, old(names));
    }

    /** The loop of "add selected": the membership test uses the names listed before the
        call, which the loop does not update. */
    method AppendUnlisted(selected: seq<string>) returns (count: nat)
      modifies this`names
      ensures names == old(names) + Unlisted(selected, old(names))
      ensures count == |names| - |old(names)|
    {
      count := 0;
      ghost var before := names;
      var current := set n | n in names;
      var i := 0;
      while i < |selected|
        invariant 0 <= i <= |selected|
        invariant names == before + Unlisted(selected[..i], before)
        invariant count == |names| - |before|
      {
        assert selected[..i + 1][..i] == selected[..i];
        assert selected[i] in current <==> selected[i] in before;
        if selected[i] !in current {
          names := names + [selected[i]];
          count := count + 1;
        }
        i := i + 1;
      }
      assert selected[..|selected|] == selected;
    }

    /** "Remove selected": removes every entry naming a selected object, last first, and
        clamps the cursor; cancelled when no entry matches. */
    method RemoveSelected(selected: set<string>) returns (status: Status, count: nat)
      requires Valid()
      modifies this`names, this`active
      ensures Valid()
      ensures status == Finished <==> exists i :: 0 <= i < |old(names)| && old(names)[i] in selected
      ensures status == Finished ==>
        && names == Without(old(names), selected)
        && count == |old(names)| - |names| && count > 0
        && active == ClampActive(old(active), |names|)
      ensures status == Cancelled ==> names == old(names) && active == old(active) && count == 0
    {
      var ix := MatchingIndices(names, selected);
      if ix == [] {
        MatchingIndicesComplete(names, selected);
        assert forall i :: 0 <= i < |names| && names[i] in selected ==> i in ix;
        return Cancelled, 0;
      }
      assert names[ix[0]] in selected;
      count := DeleteMatching(selected, ix);
      WithoutKeepsDistinct(old(names), selected);
      active := ClampActive(active, |names|);
      status := Finished;
    }

    /** The deletion loop of "remove selected": the entries at the matching indices `ix` are
        removed one at a time, highest index first, so that no earlier index shifts. */
    method DeleteMatching(selected: set<string>, ix: seq<nat>) returns (count: nat)
      requires ix == MatchingIndices(names, selected) && ix != []
      modifies this`names
      ensures names == Without(old(names), selected)
      ensures count == |old(names)| - |names| == |ix|
    {
      ghost var orig := names;
      FilteredFromEnds(orig, selected);
      count := 0;
      var j := |ix|;
      while j > 0
        invariant 0 <= j <= |ix|
        invariant names == FilteredFrom(orig, selected, j)
        invariant count == |orig| - |names| == |ix| - j
      {
        RemoveMatchStep(orig, selected, j);
        names := names[..ix[j - 1]] + names[ix[j - 1] + 1..];
        j := j - 1;
        count := count + 1;
      }
    }

    /** "Clear list": empties a non-empty list and resets the cursor. */
    method ClearList() returns (status: Status, count: nat)
      requires Valid()
      modifies this`names, this`active
      ensures Valid()
      ensures status == Finished <==> old(names) != []
      ensures status == Finished ==> names == [] && active == -1 && count == |old(names)|
      ensures status == Cancelled ==> names == old(names) && active == old(active) && count == 0
    {
      if names == [] {
        return Cancelled, 0;
      }
      count := |names|;
      names := [];
      active := -1;
      status := Finished;
    }

    /** Import over the already split lines of a file: each stripped, non-empty line not
        yet listed (before the call or earlier in the file) is appended. */
    method ImportLines(lines: seq<string>) returns (count: nat)
      requires Valid()
      modifies this`names
      ensures Valid()
      ensures names == Import(old(names), lines)
      ensures count == |names| - |old(names)|
    {
      count := 0;
      var current := set n | n in names;
      var i := 0;
      while i < |lines|
        invariant 0 <= i <= |lines|
        invariant names == Import(old(names), lines[..i])
        invariant count == |names| - |old(names)|
        invariant forall n :: n in current <==> n in names
      {
        assert lines[..i + 1][..i] == lines[..i];
        var name := Strip(lines[i]);
        if name != "" && name !in current {
          names := names + [name];
          current := current + {name};
          count := count + 1;
        }
        i := i + 1;
      }
      assert lines[..|lines|] == lines;
      ImportKeepsDistinct(old(names), lines);
    }
  }

  /** Isolating the list ["Cube"] over a visible Cube and Sphere hides only Sphere and
      reports one object shown and one hidden. */
  lemma CubeSphereIsolation(cube: Obj, sphere: Obj)
    requires cube == Obj("Cube", Visible) && sphere == Obj("Sphere", Visible)
    ensures ListNames(["Cube"]) == {"Cube"}
    ensures Isolate([cube, sphere], {"Cube"}) == [cube, Obj("Sphere", Visible.(hidden := true))]
    ensures ShownCount([cube, sphere], {"Cube"}) == 1 && NewlyHiddenCount([cube, sphere], {"Cube"}) == 1
  {
    assert "Cube" in ["Cube"];
    assert [cube, sphere][..1] == [cube];
    assert [cube][..0] == [];
    assert ShownCount([cube], {"Cube"}) == 1;
    assert NewlyHiddenCount([cube], {"Cube"}) == 0;
  }
}
