/**
 The two recursive walks of layer.rs, `copy_dir_recursive` and `remove_dir_recursive`, and
 `move_dir`, which runs one after the other. `stack` is the number of nested calls the call
 stack has room for; running out of it is a failure.
 */
module TreeOps {
  import opened Base
  import opened Paths
  import opened Layers
  import opened Overlay
  import opened Listing

  ghost function CopyDir(s: Stack, src: Path, dest: Path, stack: nat): Step
    decreases stack, 0
  {
    if stack == 0 then Step(s.upper, Failed)
    else
      var t := Prepare(s.upper, dest);
      if t.status == Failed then t
      else
        var v := if dest in t.upper then t else MakeDir(t.upper, dest);
        if v.status == Failed then v
        else match ReadDir(s.(upper := v.upper), src)
          case None => Step(v.upper, Failed)
          case Some(names) => CopyEntries(s.(upper := v.upper), src, dest, names, stack - 1)
  }

  ghost function CopyEntries(s: Stack, src: Path, dest: Path, names: seq<Name>, stack: nat): Step
    decreases stack, 1 + |names|
  {
    if names == [] then Step(s.upper, Done)
    else
      var t := CopyEntry(s, Child(src, names[0]), Child(dest, names[0]), stack);
      if t.status == Failed then t
      else CopyEntries(s.(upper := t.upper), src, dest, names[1..], stack)
  }

  ghost function CopyEntry(s: Stack, a: Path, b: Path, stack: nat): Step
    decreases stack, 1
  {
    match View(s, a)
    case None => Step(s.upper, Done)
    case Some(Dir) => CopyDir(s, a, b, stack)
    case Some(File(_)) => CopyFile(s, a, b)
  }

  /** The marker files that lie directly in `d`. */
  function MarkersIn(u: Layer, d: Path): set<Path> {
    set p | p in u && p.Child? && p.dir == d && IsMarker(p.name)
  }

  /** Delete every marker in `d`; a marker that is a directory cannot be deleted. */
  function SweepMarkers(u: Layer, d: Path): Step {
    if d !in u then Step(u, Done)
    else if u[d].File? || exists p :: p in MarkersIn(u, d) && u[p] == Dir then Step(u, Failed)
    else Step(u - MarkersIn(u, d), Done)
  }

  /**
   The sweep succeeds exactly when the directory is not there, or is one without marker directories; then
   no name in it is a marker and everything else is as before. A failed sweep is stated as changing nothing.
   */
  lemma SweepIs(u: Layer, d: Path)
    ensures var t := SweepMarkers(u, d);
      && (t.status == Done <==> d !in u || (u[d] == Dir && forall n :: IsMarker(n) ==> !IsDir(u, Child(d, n))))
      && (t.status == Failed ==> t.upper == u)
      && (t.status == Done ==> forall q ::
            && (q in t.upper <==> q in u && !(d in u && q.Child? && q.dir == d && IsMarker(q.name)))
            && (q in t.upper ==> t.upper[q] == u[q]))
  {
    if d in u && u[d] == Dir && exists n :: IsMarker(n) && IsDir(u, Child(d, n)) {
      var n :| IsMarker(n) && IsDir(u, Child(d, n));
      assert Child(d, n) in MarkersIn(u, d);
    }
    if p :| p in MarkersIn(u, d) && u[p] == Dir {
      assert IsDir(u, Child(d, p.name));
    }
  }

  ghost function RemoveTree(s: Stack, p: Path, stack: nat): Step
    decreases stack, 0
  {
    if stack == 0 then Step(s.upper, Failed)
    else match ReadDir(s, p)
      case None => Step(s.upper, Failed)
      case Some(names) =>
        var t := RemoveEntries(s, p, names, stack - 1);
        if t.status == Failed then t
        else
          var v := SweepMarkers(t.upper, p);
          if v.status == Failed then v else RemoveDir(s.(upper := v.upper), p)
  }

  ghost function RemoveEntries(s: Stack, p: Path, names: seq<Name>, stack: nat): Step
    decreases stack, 1 + |names|
  {
    if names == [] then Step(s.upper, Done)
    else
      var t := RemoveEntry(s, Child(p, names[0]), stack);
      if t.status == Failed then t
      else RemoveEntries(s.(upper := t.upper), p, names[1..], stack)
  }

  ghost function RemoveEntry(s: Stack, a: Path, stack: nat): Step
    decreases stack, 1
  {
    match View(s, a)
    case None => Step(s.upper, Done)
    case Some(Dir) => RemoveTree(s, a, stack)
    case Some(File(_)) => RemoveFile(s, a)
  }

  ghost function MoveDir(s: Stack, src: Path, dest: Path, stack: nat): Step {
    var t := CopyDir(s, src, dest, stack);
    if t.status == Failed then t else RemoveTree(s.(upper := t.upper), src, stack)
  }
}
