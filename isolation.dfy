/** The visibility mask that list isolation applies after capturing the
    registry (the loop over `bpy.data.objects` in the list toggle), its two
    reported counts, and what restoring the capture afterwards gives back. */
module Isolation {
  import opened Visibility
  import opened SnapshotStore

  /** `list_names`: the names the list isolates; empty entries are ignored. */
  function ListNames(names: seq<string>): (r: set<string>)
    ensures "" !in r
    ensures forall i :: 0 <= i < |names| && names[i] != "" ==> names[i] in r
    ensures forall n :: n in r ==> n in names
  {
    set n | n in names && n != ""
  }

  /** One object of the isolation pass: a named object is shown (`hide_set(False)`),
      even if it already was; an unnamed one is hidden only if it is not hidden yet. */
  function IsolateOne(o: Obj, named: set<string>): (r: Obj)
    ensures r.name == o.name
    ensures r.flags.hidden == (o.name !in named)
    ensures o.name !in named && o.flags.hidden ==> r == o
    ensures r.flags.hideRender == o.flags.hideRender && r.flags.hideViewport == o.flags.hideViewport
  {
    if o.name in named then Obj(o.name, o.flags.(hidden := false))
    else if !o.flags.hidden then Obj(o.name, o.flags.(hidden := true))
    else o
  }

  /** The registry after the isolation pass. Named objects are no longer hidden, every
      other object is hidden, and no render or viewport flag is touched. */
  function Isolate(objs: seq<Obj>, named: set<string>): (r: seq<Obj>)
    ensures SameNames(r, objs)
    ensures forall i :: 0 <= i < |objs| ==> r[i].flags.hidden == (objs[i].name !in named)
    ensures forall i :: 0 <= i < |objs| ==>
      r[i].flags.hideRender == objs[i].flags.hideRender && r[i].flags.hideViewport == objs[i].flags.hideViewport
  {
    seq(|objs|, i requires 0 <= i < |objs| => IsolateOne(objs[i], named))
  }

  /** `shown_count`: incremented once per named object, visible before or not. */
  function ShownCount(objs: seq<Obj>, named: set<string>): (r: nat)
    ensures r <= |objs|
  {
    if objs == [] then 0
    else ShownCount(objs[..|objs| - 1], named) + (if objs[|objs| - 1].name in named then 1 else 0)
  }

  /** `hidden_count`: incremented once per unnamed object that was not hidden yet. */
  function NewlyHiddenCount(objs: seq<Obj>, named: set<string>): (r: nat)
    ensures r <= |objs|
    ensures r + ShownCount(objs, named) <= |objs|
  {
    if objs == [] then 0
    else
      var o := objs[|objs| - 1];
      NewlyHiddenCount(objs[..|objs| - 1], named) + (if o.name !in named && !o.flags.hidden then 1 else 0)
  }

  /** The number of objects of a registry that are not hidden. */
  function VisibleCount(objs: seq<Obj>): nat {
    if objs == [] then 0
    else VisibleCount(objs[..|objs| - 1]) + (if objs[|objs| - 1].flags.hidden then 0 else 1)
  }

  /** The number of objects hidden in `after` that were not hidden in `before`. */
  function HiddenSince(before: seq<Obj>, after: seq<Obj>): nat
    requires |before| == |after|
  {
    if before == [] then 0
    else
      var n := |before| - 1;
      HiddenSince(before[..n], after[..n]) + (if !before[n].flags.hidden && after[n].flags.hidden then 1 else 0)
  }

  /** The two reported counts are what the isolation pass actually did: `shown_count`
      is the number of objects visible afterwards, `hidden_count` the number of objects
      that went from visible to hidden. */
  lemma {:induction false} IsolationCounts(objs: seq<Obj>, named: set<string>)
    ensures ShownCount(objs, named) == VisibleCount(Isolate(objs, named))
    ensures NewlyHiddenCount(objs, named) == HiddenSince(objs, Isolate(objs, named))
  {
    if objs != [] {
      var n := |objs| - 1;
      IsolationCounts(objs[..n], named);
      assert Isolate(objs, named)[..n] == Isolate(objs[..n], named);
    }
  }

  /** Once every unnamed object is hidden, isolating again hides nothing more. */
  lemma {:induction false} NothingLeftToHide(objs: seq<Obj>, named: set<string>)
    requires forall i :: 0 <= i < |objs| && objs[i].name !in named ==> objs[i].flags.hidden
    ensures NewlyHiddenCount(objs, named) == 0
  {
    if objs != [] {
      NothingLeftToHide(objs[..|objs| - 1], named);
    }
  }

  /** The shown count depends on the names alone, not on the flags. */
  lemma {:induction false} ShownCountByName(a: seq<Obj>, b: seq<Obj>, named: set<string>)
    requires SameNames(a, b)
    ensures ShownCount(a, named) == ShownCount(b, named)
  {
    if a != [] {
      ShownCountByName(a[..|a| - 1], b[..|b| - 1], named);
    }
  }

  /** Isolating an already isolated registry changes nothing, hides nothing a second
      time, and reports the same shown count. */
  lemma IsolateIdempotent(objs: seq<Obj>, named: set<string>)
    ensures Isolate(Isolate(objs, named), named) == Isolate(objs, named)
    ensures NewlyHiddenCount(Isolate(objs, named), named) == 0
    ensures ShownCount(Isolate(objs, named), named) == ShownCount(objs, named)
  {
    var once := Isolate(objs, named);
    NothingLeftToHide(once, named);
    ShownCountByName(once, objs, named);
  }

  /** A list whose entries are all empty names nothing: isolating it hides every
      object and shows none. */
  lemma {:induction false} BlankListHidesAll(objs: seq<Obj>, names: seq<string>)
    requires forall k :: 0 <= k < |names| ==> names[k] == ""
    ensures forall i :: 0 <= i < |objs| ==> Isolate(objs, ListNames(names))[i].flags.hidden
    ensures ShownCount(objs, ListNames(names)) == 0
  {
    assert ListNames(names) == {};
    if objs != [] {
      BlankListHidesAll(objs[..|objs| - 1], names);
    }
  }

  /** Restoring the capture taken just before isolating gives back that state exactly,
      hidden flags included. */
  lemma IsolateThenRestore(base: seq<Obj>, named: set<string>)
    requires UniqueNames(base)
    ensures Restored(Isolate(base, named), Snapshot(base)) == base
  {
    RestoreUndoesFlagChanges(base, Isolate(base, named));
  }
}
