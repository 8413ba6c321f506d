/** The visibility accessor: the three per-object flags of the host editor,
    the object registry as an ordered sequence of uniquely named objects,
    lookup by name and the write that `set_object_visibility` performs. */
module Visibility {

  datatype Option<T> = None | Some(value: T)

  /** The three independent visibility toggles of one object:
      hidden in the view layer (`hide_get`/`hide_set`), hidden in renders,
      and disabled in viewports. */
  datatype Flags = Flags(hidden: bool, hideRender: bool, hideViewport: bool)

  /** All three flags cleared: the object is fully visible. */
  const Visible := Flags(false, false, false)

  /** An object of the host's registry (`bpy.data.objects`). */
  datatype Obj = Obj(name: string, flags: Flags)

  /** One entry of a snapshot store (`SceneFlow_VisibilityStateItem`). */
  datatype Record = Record(name: string, flags: Flags)

  /** The host guarantees that object names are unique in the registry. */
  predicate UniqueNames(objs: seq<Obj>) {
    forall i, j :: 0 <= i < j < |objs| ==> objs[i].name != objs[j].name
  }

  /** Two registries holding the same objects, in the same order, whatever their flags. */
  predicate SameNames(a: seq<Obj>, b: seq<Obj>) {
    |a| == |b| && forall i :: 0 <= i < |a| ==> a[i].name == b[i].name
  }

  /** Registry lookup by name (`bpy.data.objects.get`): the first object carrying `name`. */
  function IndexOf(objs: seq<Obj>, name: string): (r: Option<nat>)
    ensures r.None? <==> forall i :: 0 <= i < |objs| ==> objs[i].name != name
    ensures r.Some? ==> r.value < |objs| && objs[r.value].name == name
    ensures r.Some? ==> forall i :: 0 <= i < r.value ==> objs[i].name != name
  {
    if objs == [] then None
    else if objs[0].name == name then Some(0)
    else match IndexOf(objs[1..], name)
      case None => None
      case Some(k) => Some(k + 1)
  }

  /** With unique names, looking up the name of the object at `i` finds that object. */
  lemma IndexOfUnique(objs: seq<Obj>, i: nat)
    requires UniqueNames(objs) && i < |objs|
    ensures IndexOf(objs, objs[i].name) == Some(i)
  {
    assert IndexOf(objs, objs[i].name).Some?;
  }

  /** `get_object_visibility`: the record describing one object's current state. */
  function Read(o: Obj): (r: Record)
    ensures r.name == o.name && r.flags == o.flags
  {
    Record(o.name, o.flags)
  }

  /** Writing back what was read from an object leaves the registry as it is, and
      reading after a write gives the written flags. */
  lemma ReadWriteBack(objs: seq<Obj>, i: nat, f: Flags)
    requires UniqueNames(objs) && i < |objs|
    ensures Write(objs, objs[i].name, Read(objs[i]).flags) == objs
    ensures Read(Write(objs, objs[i].name, f)[i]) == Record(objs[i].name, f)
  {
    IndexOfUnique(objs, i);
    assert objs[i := Obj(objs[i].name, objs[i].flags)] == objs;
  }

  /** `set_object_visibility`: all three flags of the object named `name` become `f`;
      a name that does not resolve leaves the registry as it is. */
  function Write(objs: seq<Obj>, name: string, f: Flags): (r: seq<Obj>)
    ensures SameNames(r, objs)
    ensures IndexOf(objs, name).None? ==> r == objs
  {
    match IndexOf(objs, name)
    case None => objs
    case Some(k) => objs[k := Obj(objs[k].name, f)]
  }

  /** With unique names, a write changes exactly the flags of the object of that name. */
  lemma WriteEffect(objs: seq<Obj>, name: string, f: Flags, i: nat)
    requires UniqueNames(objs) && i < |objs|
    ensures Write(objs, name, f)[i] == if objs[i].name == name then Obj(name, f) else objs[i]
  {
    if objs[i].name == name {
      IndexOfUnique(objs, i);
    }
  }

  /** A registry with the same names as a uniquely named one is uniquely named too. */
  lemma SameNamesUnique(a: seq<Obj>, b: seq<Obj>)
    requires SameNames(a, b) && UniqueNames(b)
    ensures UniqueNames(a)
  {
  }
}
