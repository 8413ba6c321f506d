/** The snapshot store: what `store_visibility_state` captures and what
    `restore_visibility_state` does with it, as functions of the registry,
    with the round-trip and reconciliation properties proved about them. */
module SnapshotStore {
  import opened Visibility

  /** Record names are unique within a store captured from a uniquely named registry. */
  predicate UniqueRecordNames(store: seq<Record>) {
    forall i, j :: 0 <= i < j < |store| ==> store[i].name != store[j].name
  }

  /** Capture: one record per object, in registry order, carrying that object's current flags. */
  function Snapshot(objs: seq<Obj>): (r: seq<Record>)
    ensures |r| == |objs|
    ensures forall i :: 0 <= i < |objs| ==> r[i].name == objs[i].name && r[i].flags == objs[i].flags
  {
    if objs == [] then [] else Snapshot(objs[..|objs| - 1]) + [Read(objs[|objs| - 1])]
  }

  /** A capture of a uniquely named registry holds each name once. */
  lemma SnapshotUnique(objs: seq<Obj>)
    requires UniqueNames(objs)
    ensures UniqueRecordNames(Snapshot(objs))
  {
  }

  /** The names a store captured (`objects_in_state`). */
  function Captured(store: seq<Record>): (r: set<string>)
    ensures forall i :: 0 <= i < |store| ==> store[i].name in r
    ensures forall n :: n in r ==> exists i :: 0 <= i < |store| && store[i].name == n
  {
    set r | r in store :: r.name
  }

  /** The first pass of restore: every record is written back by name, in store order. */
  function WriteAll(objs: seq<Obj>, store: seq<Record>): (r: seq<Obj>)
    ensures SameNames(r, objs)
  {
    if store == [] then objs
    else
      var last := store[|store| - 1];
      Write(WriteAll(objs, store[..|store| - 1]), last.name, last.flags)
  }

  /** One object in the second pass of restore. */
  function ResetOne(o: Obj, captured: set<string>): (r: Obj)
    ensures r.name == o.name
    ensures r.flags == if o.name in captured then o.flags else Visible
  {
    if o.name in captured then o else Obj(o.name, Visible)
  }

  /** The second pass of restore: every object the store did not capture becomes fully visible. */
  function ResetUncaptured(objs: seq<Obj>, captured: set<string>): (r: seq<Obj>)
    ensures SameNames(r, objs)
    ensures forall i :: 0 <= i < |objs| && objs[i].name in captured ==> r[i] == objs[i]
    ensures forall i :: 0 <= i < |objs| && objs[i].name !in captured ==> r[i].flags == Visible
  {
    seq(|objs|, i requires 0 <= i < |objs| => ResetOne(objs[i], captured))
  }

  /** The registry after `restore_visibility_state` on a non-empty store. */
  function Restored(objs: seq<Obj>, store: seq<Record>): (r: seq<Obj>)
    ensures SameNames(r, objs)
  {
    ResetUncaptured(WriteAll(objs, store), Captured(store))
  }

  /** The registry after `restore_visibility_state` on any store: an empty store means
      there is nothing to restore and no object changes. */
  function RestoreEffect(objs: seq<Obj>, store: seq<Record>): (r: seq<Obj>)
    ensures SameNames(r, objs)
    ensures store == [] ==> r == objs
  {
    if store == [] then objs else Restored(objs, store)
  }

  /** A record whose name resolves to no object of the registry has no effect;
      writes for other names leave an object alone. */
  lemma {:induction false} WriteAllUntouched(objs: seq<Obj>, store: seq<Record>, j: nat)
    requires j < |objs|
    requires forall r :: r in store ==> r.name != objs[j].name
    ensures WriteAll(objs, store)[j] == objs[j]
  {
    if store != [] {
      var prefix := store[..|store| - 1];
      assert forall r :: r in prefix ==> r in store;
      WriteAllUntouched(objs, prefix, j);
    }
  }

  /** With unique names, the object named by record `i` ends up with that record's flags. */
  lemma {:induction false} WriteAllHit(objs: seq<Obj>, store: seq<Record>, i: nat, j: nat)
    requires UniqueNames(objs) && UniqueRecordNames(store)
    requires i < |store| && j < |objs| && store[i].name == objs[j].name
    ensures WriteAll(objs, store)[j] == Obj(objs[j].name, store[i].flags)
  {
    var prefix := store[..|store| - 1];
    var last := store[|store| - 1];
    var w := WriteAll(objs, prefix);
    SameNamesUnique(w, objs);
    if i == |store| - 1 {
      WriteEffect(w, last.name, last.flags, j);
    } else {
      WriteAllHit(objs, prefix, i, j);
      WriteEffect(w, last.name, last.flags, j);
    }
  }

  /** Restore writes each record's flags to the object of that name, if it still exists. */
  lemma RestoreApplies(objs: seq<Obj>, store: seq<Record>, i: nat, j: nat)
    requires UniqueNames(objs) && UniqueRecordNames(store)
    requires i < |store| && j < |objs| && store[i].name == objs[j].name
    ensures Restored(objs, store)[j] == Obj(objs[j].name, store[i].flags)
  {
    WriteAllHit(objs, store, i, j);
    assert store[i] in store;
  }

  /** Restore makes every object the store did not capture fully visible
      (objects created after the capture). */
  lemma RestoreUncapturedVisible(objs: seq<Obj>, store: seq<Record>, j: nat)
    requires j < |objs| && objs[j].name !in Captured(store)
    ensures Restored(objs, store)[j] == Obj(objs[j].name, Visible)
  {
  }

  /** Writing back a capture of `base` over a registry that only changed flags
      since: after the first `k` records, the first `k` objects are back. */
  lemma {:induction false} WriteAllSnapshotPrefix(base: seq<Obj>, now: seq<Obj>, k: nat)
    requires UniqueNames(base) && SameNames(now, base) && k <= |base|
    ensures WriteAll(now, Snapshot(base)[..k]) == base[..k] + now[k..]
  {
    if k > 0 {
      var snap := Snapshot(base);
      WriteAllSnapshotPrefix(base, now, k - 1);
      assert snap[..k][..k - 1] == snap[..k - 1];
      WriteBackOne(base, now, k - 1);
    }
  }

  /** One step of the above: writing back the record of object `k`. */
  lemma WriteBackOne(base: seq<Obj>, now: seq<Obj>, k: nat)
    requires UniqueNames(base) && SameNames(now, base) && k < |base|
    ensures Write(base[..k] + now[k..], base[k].name, base[k].flags) == base[..k + 1] + now[k + 1..]
  {
    var m := base[..k] + now[k..];
    assert SameNames(m, base);
    SameNamesUnique(m, base);
    IndexOfUnique(m, k);
    assert Write(m, base[k].name, base[k].flags) == m[k := base[k]];
  }

  /** Restoring a capture of `base` undoes any change of flags made since the capture. */
  lemma RestoreUndoesFlagChanges(base: seq<Obj>, now: seq<Obj>)
    requires UniqueNames(base) && SameNames(now, base)
    ensures Restored(now, Snapshot(base)) == base
  {
    var snap := Snapshot(base);
    WriteAllSnapshotPrefix(base, now, |base|);
    assert snap[..|base|] == snap;
    assert now[|base|..] == [];
    assert base[..|base|] + [] == base;
    forall i | 0 <= i < |base|
      ensures base[i].name in Captured(snap)
    {
      assert snap[i] in snap;
    }
  }

  /** Capture followed immediately by restore leaves every object's flags as they were. */
  lemma CaptureRestoreRoundTrip(objs: seq<Obj>)
    requires UniqueNames(objs)
    ensures Restored(objs, Snapshot(objs)) == objs
  {
    RestoreUndoesFlagChanges(objs, objs);
  }
}
