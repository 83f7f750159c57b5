/**
 The overlay refines a flat map from path to entry. Each successful write changes the view at
 its named paths only, copy-up changes it nowhere, a failed write changes it nowhere, and no
 ordinary path of the upper ever comes to lie next to its own whiteout.
 */
module FlatView {
  import opened Base
  import opened Paths
  import opened Layers
  import opened Overlay
  import opened UpperEffects

  // ── Invariant and hypotheses ──────────────────────────────────────────────

  /** No ordinary path is present together with its own whiteout. */
  ghost predicate Clean(l: Layer) {
    forall p :: p in l && p.Child? && Ordinary(p) ==> WhPath(p) !in l
  }

  ghost predicate Inv(s: Stack) {
    WellFormed(s.upper) && Clean(s.upper) && forall k :: 0 <= k < |s.lowers| ==> WellFormed(s.lowers[k])
  }

  /** A path the theorems speak about: not the root, no marker among its names. */
  predicate Named(p: Path) {
    p.Child? && Ordinary(p)
  }

  /** `d` and every directory above it resolve to directories. */
  predicate VisibleDir(s: Stack, d: Path) {
    d.Child? ==> View(s, d) == Some(Dir) && VisibleDir(s, d.dir)
  }

  predicate VisibleParents(s: Stack, p: Path) {
    p.Child? ==> VisibleDir(s, p.dir)
  }

  ghost predicate SameView(s: Stack, t: Stack) {
    forall q :: Named(q) ==> View(t, q) == View(s, q)
  }

  ghost predicate SameViewBut(s: Stack, t: Stack, p: Path) {
    forall q :: Named(q) && q != p ==> View(t, q) == View(s, q)
  }

  // ── When a change of the upper cannot be seen ─────────────────────────────

  ghost predicate SameMarkers(u: Layer, v: Layer) {
    forall d :: OpaqueMarker(d) in u <==> OpaqueMarker(d) in v
  }

  lemma {:induction false} SameOpaqueFrom(u: Layer, v: Layer, d: Path)
    requires SameMarkers(u, v)
    ensures OpaqueFrom(u, d) == OpaqueFrom(v, d)
  {
    assert OpaqueMarker(d) in u <==> OpaqueMarker(d) in v;
    if d.Child? { SameOpaqueFrom(u, v, d.dir); }
  }

  /** Equal probes of the upper give equal views. */
  lemma UnseenChange(s: Stack, v: Layer, q: Path)
    requires SameMarkers(s.upper, v)
    requires WhPath(q) in s.upper <==> WhPath(q) in v
    requires q in s.upper <==> q in v
    requires q in v ==> v[q] == s.upper[q]
    ensures View(s.(upper := v), q) == View(s, q)
  {
    SameOpaqueFrom(s.upper, v, if q.Child? then q.dir else Root);
  }

  // ── Creating missing parents ──────────────────────────────────────────────

  /** `v` is `u` with some missing directories at or above `d` added. */
  ghost predicate AddsDirs(u: Layer, v: Layer, d: Path) {
    && (forall q :: q in u ==> q in v && v[q] == u[q])
    && (forall q :: q in v && q !in u ==> AtOrBelow(d, q) && v[q] == Dir)
  }

  lemma {:induction false} EnsureDirAdds(u: Layer, d: Path)
    requires WellFormed(u)
    ensures var t := EnsureDir(u, d); WellFormed(t.upper) && AddsDirs(u, t.upper, d)
    ensures var t := EnsureDir(u, d); t.status == Done ==> d in t.upper
  {
    if d.Child? {
      EnsureDirAdds(u, d.dir);
      var t := EnsureDir(u, d.dir);
      StepsKeepWellFormed(t.upper, d, []);
    }
  }

  /** Below visible directories nothing is in the way. */
  lemma {:induction false} EnsureDirSucceeds(s: Stack, d: Path)
    requires WellFormed(s.upper) && Ordinary(d) && VisibleDir(s, d)
    ensures var t := EnsureDir(s.upper, d); t.status == Done && IsDir(t.upper, d)
  {
    EnsureDirAdds(s.upper, d);
    if d.Child? {
      EnsureDirSucceeds(s, d.dir);
      EnsureDirAdds(s.upper, d.dir);
    }
  }

  /** Added directories are ordinary, and were visible as directories already. */
  lemma {:induction false} VisibleAncestor(s: Stack, d: Path, a: Path)
    requires VisibleDir(s, d) && AtOrBelow(d, a) && a.Child?
    ensures View(s, a) == Some(Dir)
  {
    if d != a { VisibleAncestor(s, d.dir, a); }
  }

  lemma AddedDirsUnseen(s: Stack, v: Layer, d: Path)
    requires Inv(s) && Ordinary(d) && VisibleDir(s, d) && AddsDirs(s.upper, v, d) && WellFormed(v)
    ensures SameView(s, s.(upper := v)) && Inv(s.(upper := v)) && SameMarkers(s.upper, v)
    ensures forall q :: Named(q) ==> (WhPath(q) in v <==> WhPath(q) in s.upper)
  {
    var u := s.upper;
    forall q | q in v && q !in u
      ensures Ordinary(q)
    {
      AncestorOrdinary(d, q);
    }
    forall e
      ensures OpaqueMarker(e) in u <==> OpaqueMarker(e) in v
    {
      OpaqueNotOrdinary(e);
    }
    forall q | Named(q)
      ensures WhPath(q) in v <==> WhPath(q) in u
      ensures View(s.(upper := v), q) == View(s, q)
    {
      WhPathFacts(q, q);
      if q in v && q !in u {
        VisibleAncestor(s, d, q);
      } else {
        UnseenChange(s, v, q);
      }
    }
    forall q | q in v && Named(q)
      ensures WhPath(q) !in v
    {
      if q !in u { VisibleAncestor(s, d, q); }
    }
  }

  lemma ParentsUnseen(s: Stack, p: Path)
    requires Inv(s) && Named(p) && VisibleParents(s, p)
    ensures var t := EnsureParents(s.upper, p);
      && t.status == Done && IsDir(t.upper, p.dir) && AddsDirs(s.upper, t.upper, p.dir)
      && SameView(s, s.(upper := t.upper)) && Inv(s.(upper := t.upper))
      && (forall q :: Named(q) ==> (WhPath(q) in t.upper <==> WhPath(q) in s.upper))
      && (p in t.upper <==> p in s.upper)
  {
    EnsureDirSucceeds(s, p.dir);
    EnsureDirAdds(s.upper, p.dir);
    AddedDirsUnseen(s, EnsureParents(s.upper, p).upper, p.dir);
    if AtOrBelow(p.dir, p) {
      AtOrBelowDepth(p.dir, p);
    }
  }

  // ── One entry of the upper changes ────────────────────────────────────────

  /** Set or remove one named entry: only that path can look different. */
  lemma EntryChanged(s: Stack, v: Layer, p: Path)
    requires Inv(s) && Named(p) && WellFormed(v)
    requires forall q :: q != p ==> (q in v <==> q in s.upper) && (q in v ==> v[q] == s.upper[q])
    requires p in v ==> WhPath(p) !in s.upper
    ensures Inv(s.(upper := v)) && SameViewBut(s, s.(upper := v), p)
    ensures p in v ==> View(s.(upper := v), p) == Some(v[p])
  {
    forall e
      ensures OpaqueMarker(e) in s.upper <==> OpaqueMarker(e) in v
    {
      OpaqueNotOrdinary(e);
    }
    forall q | Named(q)
      ensures WhPath(q) in v <==> WhPath(q) in s.upper
      ensures q != p ==> View(s.(upper := v), q) == View(s, q)
    {
      WhPathFacts(q, q);
      if q != p { UnseenChange(s, v, q); }
    }
  }

  /** Add or remove the whiteout of one named path: only that path can look different. */
  lemma WhiteoutChanged(s: Stack, v: Layer, p: Path)
    requires Inv(s) && Named(p) && WellFormed(v)
    requires forall q :: q != WhPath(p) ==> (q in v <==> q in s.upper) && (q in v ==> v[q] == s.upper[q])
    requires WhPath(p) in v ==> p !in s.upper
    ensures Inv(s.(upper := v)) && SameViewBut(s, s.(upper := v), p)
    ensures p in v <==> p in s.upper
    ensures WhPath(p) in v ==> View(s.(upper := v), p) == None
  {
    WhPathFacts(p, p);
    forall e
      ensures OpaqueMarker(e) in s.upper <==> OpaqueMarker(e) in v
    {
      WhPathFacts(p, Child(e, ""));
    }
    forall q | Named(q)
      ensures q != WhPath(p)
      ensures q != p ==> WhPath(q) != WhPath(p) && View(s.(upper := v), q) == View(s, q)
    {
      WhPathFacts(q, p);
      if q != p { UnseenChange(s, v, q); }
    }
  }

  lemma {:induction false} VisibleKept(s: Stack, t: Stack, d: Path, p: Path)
    requires VisibleDir(s, d) && Ordinary(d) && SameViewBut(s, t, p) && !AtOrBelow(d, p)
    ensures VisibleDir(t, d)
  {
    if d.Child? { VisibleKept(s, t, d.dir, p); }
  }

  lemma ParentsKept(s: Stack, t: Stack, p: Path)
    requires Named(p) && VisibleParents(s, p) && SameViewBut(s, t, p)
    ensures VisibleParents(t, p)
  {
    if AtOrBelow(p.dir, p) { AtOrBelowDepth(p.dir, p); }
    VisibleKept(s, t, p.dir, p);
  }

  // ── The writes ────────────────────────────────────────────────────────────

  /** Success changes the view at `p` to `node` and nowhere else; failure changes it nowhere. */
  ghost predicate Writes(s: Stack, t: Step, p: Path, node: Option<Node>) {
    var s' := s.(upper := t.upper);
    && Inv(s')
    && if t.status == Done then SameViewBut(s, s', p) && View(s', p) == node else SameView(s, s')
  }

  lemma PrepareEffect(s: Stack, p: Path)
    requires Inv(s) && Named(p) && VisibleParents(s, p)
    ensures var t := Prepare(s.upper, p); var s' := s.(upper := t.upper);
      && Inv(s') && SameViewBut(s, s', p)
      && (p in t.upper <==> p in s.upper)
      && (t.status == Failed || p in s.upper ==> SameView(s, s'))
      && (t.status == Done ==> IsDir(t.upper, p.dir) && WhPath(p) !in t.upper)
  {
    ParentsUnseen(s, p);
    WhPathFacts(p, p);
    var a := EnsureParents(s.upper, p).upper;
    var t := RemoveWhiteout(a, p);
    StepsKeepWellFormed(a, WhPath(p), []);
    if WhPath(p) in a && t.status == Done {
      WhiteoutChanged(s.(upper := a), t.upper, p);
      assert WhPath(p) in s.upper && p !in s.upper;
    }
  }

  /** Nothing is in the way above a path with visible parents. */
  lemma VisibleNoFileAbove(s: Stack, p: Path)
    requires WellFormed(s.upper) && p.Child? && VisibleParents(s, p)
    ensures !FileAbove(s.upper, p)
  {
    forall a | AtOrBelow(p.dir, a) && a in s.upper
      ensures s.upper[a] == Dir
    {
      if a.Child? { VisibleAncestor(s, p.dir, a); }
    }
  }

  lemma CreateFileWrites(s: Stack, p: Path, data: Bytes)
    requires Inv(s) && Named(p) && VisibleParents(s, p)
    ensures Writes(s, CreateFile(s.upper, p, data), p, Some(File(data)))
    ensures CreateFile(s.upper, p, data).status == Done <==> !IsDir(s.upper, p) && !IsDir(s.upper, WhPath(p))
  {
    VisibleNoFileAbove(s, p);
    CreateFileIs(s.upper, p, data);
    PrepareEffect(s, p);
    var a := Prepare(s.upper, p);
    if a.status == Done {
      var t := WriteFile(a.upper, p, data);
      StepsKeepWellFormed(a.upper, p, data);
      if t.status == Done {
        EntryChanged(s.(upper := a.upper), t.upper, p);
      }
    }
  }

  lemma CreateDirWrites(s: Stack, p: Path)
    requires Inv(s) && Named(p) && VisibleParents(s, p)
    ensures Writes(s, CreateDir(s.upper, p), p, Some(Dir))
    ensures CreateDir(s.upper, p).status == Done <==> p !in s.upper && !IsDir(s.upper, WhPath(p))
  {
    VisibleNoFileAbove(s, p);
    CreateDirIs(s.upper, p);
    PrepareEffect(s, p);
    var a := Prepare(s.upper, p);
    if a.status == Done {
      var t := MakeDir(a.upper, p);
      StepsKeepWellFormed(a.upper, p, []);
      if t.status == Done {
        EntryChanged(s.(upper := a.upper), t.upper, p);
      }
    }
  }

  /** Copy-up is invisible, and leaves the entry it was asked for in the upper. */
  lemma CopyUpUnseen(s: Stack, p: Path)
    requires Inv(s) && Named(p) && VisibleParents(s, p)
    ensures var t := CopyUp(s, p); var s' := s.(upper := t.upper);
      && Inv(s') && SameView(s, s')
      && (t.status == Done ==> p in t.upper && View(s, p) == Some(t.upper[p]))
      && (t.status == Done <==> View(s, p).Some? && !IsDir(s.upper, p))
  {
    VisibleNoFileAbove(s, p);
    CopyUpIs(s, p);
    ParentsUnseen(s, p);
    var a := EnsureParents(s.upper, p).upper;
    var t := CopyUp(s, p);
    if View(s, p).Some? && t.upper != a {
      var data := if View(s, p).value.File? then View(s, p).value.data else [];
      StepsKeepWellFormed(a, p, data);
      EntryChanged(s.(upper := a), t.upper, p);
    }
  }

  lemma AppendFileWrites(s: Stack, p: Path, data: Bytes)
    requires Inv(s) && Named(p) && VisibleParents(s, p)
    ensures var t := AppendFile(s, p, data);
      && (t.status == Done <==> View(s, p).Some? && View(s, p).value.File?)
      && Writes(s, t, p, if t.status == Done then Some(File(View(s, p).value.data + data)) else None)
  {
    var a := if p in s.upper then s else s.(upper := CopyUp(s, p).upper);
    if p !in s.upper {
      CopyUpUnseen(s, p);
    }
    var t := AppendFile(s, p, data);
    if p in a.upper {
      StepsKeepWellFormed(a.upper, p, data);
      if a.upper[p].File? {
        EntryChanged(a, t.upper, p);
      }
    }
  }

  lemma HideLowerEffect(s: Stack, p: Path)
    requires Inv(s) && Named(p) && VisibleParents(s, p) && p !in s.upper
    ensures var t := HideLower(s.lowers, s.upper, p); var s' := s.(upper := t.upper);
      && t.status == Done && Inv(s') && SameViewBut(s, s', p) && View(s', p) == None
  {
    if InSomeLower(s.lowers, p) {
      ParentsUnseen(s, p);
      assert EnsureParents(s.upper, WhPath(p)) == EnsureParents(s.upper, p);
      var a := EnsureParents(s.upper, p).upper;
      var t := CreateWhiteout(s.upper, p);
      StepsKeepWellFormed(a, WhPath(p), []);
      WhiteoutChanged(s.(upper := a), t.upper, p);
    } else {
      NotInLowers(s.lowers, p);
    }
  }

  lemma RemoveFileWrites(s: Stack, p: Path)
    requires Inv(s) && Named(p) && VisibleParents(s, p)
    ensures Writes(s, RemoveFile(s, p), p, None)
    ensures RemoveFile(s, p).status == Done <==> !IsDir(s.upper, p)
  {
    var a := if p in s.upper then DeleteFile(s.upper, p) else Step(s.upper, Done);
    if a.status == Done {
      StepsKeepWellFormed(s.upper, p, []);
      var m := s.(upper := a.upper);
      EntryChanged(s, a.upper, p);
      ParentsKept(s, m, p);
      HideLowerEffect(m, p);
    }
  }

  lemma RemoveDirWrites(s: Stack, p: Path)
    requires Inv(s) && Named(p) && VisibleParents(s, p)
    ensures Writes(s, RemoveDir(s, p), p, None)
    ensures RemoveDir(s, p).status == Done <==> p !in s.upper || (s.upper[p] == Dir && Names(s.upper, p) == {})
  {
    var a := if p in s.upper then DeleteDir(s.upper, p) else Step(s.upper, Done);
    if a.status == Done {
      StepsKeepWellFormed(s.upper, p, []);
      var m := s.(upper := a.upper);
      EntryChanged(s, a.upper, p);
      ParentsKept(s, m, p);
      HideLowerEffect(m, p);
    }
  }

  lemma CopyFileWrites(s: Stack, src: Path, dest: Path)
    requires Inv(s) && Named(dest) && VisibleParents(s, dest)
    ensures Writes(s, CopyFile(s, src, dest), dest, View(s, src))
    ensures CopyFile(s, src, dest).status == Done <==>
              SeesFile(s, src) && !IsDir(s.upper, dest) && !IsDir(s.upper, WhPath(dest))
  {
    match View(s, src) {
      case Some(File(data)) => CreateFileWrites(s, dest, data);
      case _ =>
    }
  }

  /** A file where a directory is needed stops parent creation before it adds anything. */
  lemma BlockedByFile(u: Layer, f: Path, d: Path)
    requires WellFormed(u) && f in u && u[f].File? && AtOrBelow(d, f)
    ensures EnsureDir(u, d).upper == u
    ensures EnsureDir(u, d).status == Done ==> d == f
  {
    EnsureDirAdds(u, d);
    var v := EnsureDir(u, d).upper;
    forall q | q in v && q !in u
      ensures false
    {
      AncestorsNest(d, q, f);
      if AtOrBelow(q, f) {
        AncestorsAreDirs(v, q, f);
      } else {
        AncestorsAreDirs(u, f, q);
      }
    }
    assert v == u;
    if EnsureDir(u, d).status == Done {
      AncestorsAreDirs(v, d, f);
    }
  }

  /** Moving a file onto one of its own ancestors writes the copy and then fails. */
  lemma MoveOntoAncestorFails(s: Stack, src: Path, dest: Path)
    requires Inv(s) && Named(src) && Named(dest) && VisibleParents(s, dest)
    requires src != dest && AtOrBelow(src, dest)
    ensures MoveFile(s, src, dest).status == Failed
    ensures MoveFile(s, src, dest).upper == CopyFile(s, src, dest).upper
  {
    CopyFileWrites(s, src, dest);
    var t := CopyFile(s, src, dest);
    if t.status == Done {
      var u := t.upper;
      if src in u {
        AncestorsAreDirs(u, src, dest);
      }
      if src in s.upper {
        AncestorsAreDirs(s.upper, src, dest);
        PrepareEffect(s, dest);
        PrepareKeeps(s, dest);
      }
      if !InSomeLower(s.lowers, src) {
        NotInLowers(s.lowers, src);
      }
      WhPathFacts(src, src);
      BlockedByFile(u, dest, src.dir);
      if WhPath(src) in u {
        AncestorsAreDirs(u, WhPath(src), dest);
      }
    }
  }

  /** Preparing to create leaves an existing entry alone. */
  lemma PrepareKeeps(s: Stack, p: Path)
    requires Inv(s) && Named(p) && VisibleParents(s, p) && p in s.upper
    ensures p in Prepare(s.upper, p).upper && Prepare(s.upper, p).upper[p] == s.upper[p]
  {
    ParentsUnseen(s, p);
    WhPathFacts(p, p);
  }

  /** The view after a move: the source gone, the destination holding its bytes, all else as before. */
  ghost predicate Moved(s: Stack, s': Stack, src: Path, dest: Path) {
    && View(s', src) == None && View(s', dest) == View(s, src)
    && forall q :: Named(q) && q != src && q != dest ==> View(s', q) == View(s, q)
  }

  lemma MoveFileWrites(s: Stack, src: Path, dest: Path)
    requires Inv(s) && Named(src) && Named(dest) && src != dest
    requires VisibleParents(s, src) && VisibleParents(s, dest)
    ensures var t := MoveFile(s, src, dest); var s' := s.(upper := t.upper);
      && Inv(s')
      && (t.status == Done <==> CopyFile(s, src, dest).status == Done && !AtOrBelow(src, dest))
      && (t.status == Done ==> Moved(s, s', src, dest))
      && (t.status == Failed ==>
            if CopyFile(s, src, dest).status == Failed then SameView(s, s')
            else AtOrBelow(src, dest) && SameViewBut(s, s', dest) && View(s', dest) == View(s, src))
  {
    CopyFileWrites(s, src, dest);
    var a := CopyFile(s, src, dest);
    var m := s.(upper := a.upper);
    if a.status == Done {
      if AtOrBelow(src, dest) {
        MoveOntoAncestorFails(s, src, dest);
      } else {
        assert AtOrBelow(src.dir, dest) ==> AtOrBelow(src, dest);
        VisibleKept(s, m, src.dir, dest);
        RemoveFileWrites(m, src);
        assert View(m, src) == View(s, src);
        assert IsDir(m.upper, src) ==> View(m, src) == Some(Dir);
      }
    }
  }

  // ── Runs ──────────────────────────────────────────────────────────────────

  /** A call on the merged filesystem, or the capture of the upper as a new top lower. */
  datatype Op =
    | CreateFileOp(p: Path, data: Bytes)
    | CreateDirOp(p: Path)
    | AppendFileOp(p: Path, data: Bytes)
    | RemoveFileOp(p: Path)
    | RemoveDirOp(p: Path)
    | CopyUpOp(p: Path)
    | CopyFileOp(src: Path, dest: Path)
    | MoveFileOp(src: Path, dest: Path)
    | CaptureOp

  /**
   Capture and remount: the upper's raw tree, markers included, becomes the first lower under
   a fresh upper.
   */
  function Capture(s: Stack): Stack {
    Stack(EmptyLayer, [s.upper] + s.lowers)
  }

  function StepOf(s: Stack, op: Op): Step {
    match op
    case CreateFileOp(p, data) => CreateFile(s.upper, p, data)
    case CreateDirOp(p) => CreateDir(s.upper, p)
    case AppendFileOp(p, data) => AppendFile(s, p, data)
    case RemoveFileOp(p) => RemoveFile(s, p)
    case RemoveDirOp(p) => RemoveDir(s, p)
    case CopyUpOp(p) => CopyUp(s, p)
    case CopyFileOp(src, dest) => CopyFile(s, src, dest)
    case MoveFileOp(src, dest) => MoveFile(s, src, dest)
    case CaptureOp => Step(s.upper, Done)
  }

  function Apply(s: Stack, op: Op): Stack {
    if op.CaptureOp? then Capture(s) else s.(upper := StepOf(s, op).upper)
  }

  /** Ordinary names under visible parents; a move names two different paths. */
  predicate Legal(s: Stack, op: Op) {
    match op
    case CreateFileOp(p, _) => Named(p) && VisibleParents(s, p)
    case CreateDirOp(p) => Named(p) && VisibleParents(s, p)
    case AppendFileOp(p, _) => Named(p) && VisibleParents(s, p)
    case RemoveFileOp(p) => Named(p) && VisibleParents(s, p)
    case RemoveDirOp(p) => Named(p) && VisibleParents(s, p)
    case CopyUpOp(p) => Named(p) && VisibleParents(s, p)
    case CopyFileOp(src, dest) => Named(src) && Named(dest) && VisibleParents(s, dest)
    case MoveFileOp(src, dest) =>
      Named(src) && Named(dest) && src != dest && VisibleParents(s, src) && VisibleParents(s, dest)
    case CaptureOp => true
  }

  /** The reference: a map from paths to entries, with no layers. */
  type Flat = Path -> Option<Node>

  function Update(f: Flat, p: Path, node: Option<Node>): Flat {
    q => if q == p then node else f(q)
  }

  function FlatApply(f: Flat, op: Op): Flat {
    match op
    case CreateFileOp(p, data) => Update(f, p, Some(File(data)))
    case CreateDirOp(p) => Update(f, p, Some(Dir))
    case AppendFileOp(p, data) =>
      (match f(p) case Some(File(had)) => Update(f, p, Some(File(had + data))) case _ => f)
    case RemoveFileOp(p) => Update(f, p, None)
    case RemoveDirOp(p) => Update(f, p, None)
    case CopyUpOp(_) => f
    case CopyFileOp(src, dest) => Update(f, dest, f(src))
    case MoveFileOp(src, dest) => Update(Update(f, dest, f(src)), src, None)
    case CaptureOp => f
  }

  ghost predicate Shows(s: Stack, f: Flat) {
    forall q :: Named(q) ==> View(s, q) == f(q)
  }

  lemma EmptyLayerFacts(q: Path)
    requires q.Child?
    ensures WellFormed(EmptyLayer) && Clean(EmptyLayer)
    ensures q !in EmptyLayer && WhPath(q) !in EmptyLayer && !OpaqueAbove(EmptyLayer, q)
  {
    EmptyNotOpaque(q.dir);
  }

  lemma {:induction false} EmptyNotOpaque(d: Path)
    ensures !OpaqueFrom(EmptyLayer, d)
  {
    if d.Child? { EmptyNotOpaque(d.dir); }
  }

  /** Capturing and stacking changes no read. */
  lemma CaptureUnseen(s: Stack)
    ensures SameView(s, Capture(s)) && forall q :: Named(q) ==> q !in Capture(s).upper && WhPath(q) !in Capture(s).upper
    ensures Inv(s) ==> Inv(Capture(s))
  {
    EmptyLayerFacts(Child(Root, ""));
    forall q | Named(q)
      ensures View(Capture(s), q) == View(s, q)
    {
      EmptyLayerFacts(q);
      WhNameFacts(q.name, q.name);
      assert ([s.upper] + s.lowers)[1..] == s.lowers;
    }
  }

  /** What a call needs to do as asked. */
  predicate Accepts(s: Stack, op: Op)
    decreases if op.MoveFileOp? then 1 else 0
  {
    match op
    case CreateFileOp(p, _) => !IsDir(s.upper, p) && !IsDir(s.upper, WhPath(p))
    case CreateDirOp(p) => p !in s.upper && !IsDir(s.upper, WhPath(p))
    case AppendFileOp(p, _) => SeesFile(s, p)
    case RemoveFileOp(p) => !IsDir(s.upper, p)
    case RemoveDirOp(p) => p in s.upper ==> s.upper[p] == Dir && Names(s.upper, p) == {}
    case CopyUpOp(p) => View(s, p).Some? && !IsDir(s.upper, p)
    case CopyFileOp(src, dest) => SeesFile(s, src) && !IsDir(s.upper, dest) && !IsDir(s.upper, WhPath(dest))
    case MoveFileOp(src, dest) => Accepts(s, CopyFileOp(src, dest)) && !AtOrBelow(src, dest)
    case CaptureOp => true
  }

  /** How a call ended: as asked, refused, or as a move that was refused once its copy was made. */
  datatype Ending = Performed | Refused | OnlyCopied

  function EndingOf(s: Stack, op: Op): Ending {
    if StepOf(s, op).status == Done then Performed
    else if op.MoveFileOp? && CopyFile(s, op.src, op.dest).status == Done then OnlyCopied
    else Refused
  }

  /** What the flat map makes of a call that ended so. */
  function FlatStep(f: Flat, op: Op, e: Ending): Flat {
    match e
    case Performed => FlatApply(f, op)
    case Refused => f
    case OnlyCopied => if op.MoveFileOp? then Update(f, op.dest, f(op.src)) else f
  }

  /** One call, however it ends, refines one step of the flat map. */
  lemma ApplyRefines(s: Stack, f: Flat, op: Op)
    requires Inv(s) && Legal(s, op) && Shows(s, f)
    ensures Inv(Apply(s, op)) && Shows(Apply(s, op), FlatStep(f, op, EndingOf(s, op)))
    ensures EndingOf(s, op) ==
              if Accepts(s, op) then Performed
              else if op.MoveFileOp? && Accepts(s, CopyFileOp(op.src, op.dest)) then OnlyCopied
              else Refused
    ensures Apply(s, op).lowers == if op.CaptureOp? then [s.upper] + s.lowers else s.lowers
  {
    hide View, VisibleParents, Inv, MoveFile, CopyFile, AppendFile, RemoveFile, RemoveDir, CopyUp;
    match op
    case CreateFileOp(p, data) => CreateFileWrites(s, p, data);
    case CreateDirOp(p) => CreateDirWrites(s, p);
    case AppendFileOp(p, data) => AppendFileWrites(s, p, data);
    case RemoveFileOp(p) => RemoveFileWrites(s, p);
    case RemoveDirOp(p) => RemoveDirWrites(s, p);
    case CopyUpOp(p) => CopyUpUnseen(s, p);
    case CopyFileOp(src, dest) => CopyFileWrites(s, src, dest);
    case MoveFileOp(src, dest) =>
      MoveFileWrites(s, src, dest);
      CopyFileWrites(s, src, dest);
    case CaptureOp => CaptureUnseen(s);
  }

  function Run(s: Stack, ops: seq<Op>): Stack
    decreases |ops|
  {
    if ops == [] then s else Run(Apply(s, ops[0]), ops[1..])
  }

  function FlatRun(f: Flat, ops: seq<Op>, endings: seq<Ending>): Flat
    requires |endings| == |ops|
    decreases |ops|
  {
    if ops == [] then f else FlatRun(FlatStep(f, ops[0], endings[0]), ops[1..], endings[1..])
  }

  function Endings(s: Stack, ops: seq<Op>): (r: seq<Ending>)
    ensures |r| == |ops|
    decreases |ops|
  {
    if ops == [] then [] else [EndingOf(s, ops[0])] + Endings(Apply(s, ops[0]), ops[1..])
  }

  /** Every call is legal where it is made; it may fail. */
  predicate LegalRun(s: Stack, ops: seq<Op>)
    decreases |ops|
  {
    ops != [] ==> Legal(s, ops[0]) && LegalRun(Apply(s, ops[0]), ops[1..])
  }

  /**
   Any run of legal calls, refused ones and captures among them, shows exactly what the flat map
   holds after the same calls with the same endings, and the upper stays clean.
   */
  lemma {:induction false} RunRefines(s: Stack, f: Flat, ops: seq<Op>)
    requires Inv(s) && Shows(s, f) && LegalRun(s, ops)
    ensures Inv(Run(s, ops)) && Shows(Run(s, ops), FlatRun(f, ops, Endings(s, ops)))
    decreases |ops|
  {
    if ops != [] {
      ApplyRefines(s, f, ops[0]);
      RunRefines(Apply(s, ops[0]), FlatStep(f, ops[0], EndingOf(s, ops[0])), ops[1..]);
      assert Endings(s, ops)[1..] == Endings(Apply(s, ops[0]), ops[1..]);
    }
  }

  /** The lowers a run has at its end: the captures it made, newest first, then the ones it started with. */
  predicate LowersKept(s: Stack, t: Stack, captures: nat) {
    |t.lowers| == captures + |s.lowers| && t.lowers[captures..] == s.lowers
  }

  function Captures(ops: seq<Op>): nat {
    if ops == [] then 0 else (if ops[0].CaptureOp? then 1 else 0) + Captures(ops[1..])
  }

  /** Whatever fails on the way, the invariant holds at the end and no lower layer was touched. */
  lemma {:induction false} RunKeepsInv(s: Stack, ops: seq<Op>)
    requires Inv(s) && LegalRun(s, ops)
    ensures Inv(Run(s, ops)) && LowersKept(s, Run(s, ops), Captures(ops))
    decreases |ops|
  {
    if ops != [] {
      var m := Apply(s, ops[0]);
      ApplyRefines(s, q => View(s, q), ops[0]);
      RunKeepsInv(m, ops[1..]);
      var t := Run(m, ops[1..]);
      var c := Captures(ops[1..]);
      if ops[0].CaptureOp? {
        assert t.lowers[c + 1..] == t.lowers[c..][1..];
      }
    }
  }

  /** Any number of capture generations in a row leaves every read as it was. */
  function Generations(s: Stack, n: nat): Stack {
    if n == 0 then s else Capture(Generations(s, n - 1))
  }

  lemma {:induction false} GenerationsUnseen(s: Stack, n: nat)
    ensures SameView(s, Generations(s, n))
    ensures Inv(s) ==> Inv(Generations(s, n))
  {
    if n > 0 {
      GenerationsUnseen(s, n - 1);
      CaptureUnseen(Generations(s, n - 1));
    }
  }

  // ── Where the code surprises ──────────────────────────────────────────────

  /** The merged filesystem accepts the move of `a/b` onto the directory `a`: it fails and leaves a file there. */
  lemma MoveOntoParent() returns (s: Stack, src: Path, dest: Path)
    ensures Inv(s) && Legal(s, MoveFileOp(src, dest)) && AtOrBelow(src, dest)
    ensures View(s, dest) == Some(Dir) && View(s, src) == Some(File([1]))
    ensures var t := MoveFile(s, src, dest); t.status == Failed && View(s.(upper := t.upper), dest) == Some(File([1]))
  {
    dest := Child(Root, "a");
    src := Child(dest, "b");
    var lower: Layer := map[Root := Dir, dest := Dir, src := File([1])];
    s := Stack(EmptyLayer, [lower]);
    EmptyLayerFacts(dest);
    EmptyLayerFacts(src);
    assert !IsMarker("a") && !IsMarker("b");
    WhPathFacts(src, dest);
    assert s.lowers[0] == lower;
    assert AtOrBelow(src, dest);
    MoveFileWrites(s, src, dest);
  }

  /**
   So it does for a destination that does not exist: `a` is whited out, `a/b` of the lower still
   resolves, and moving it to `a` fails and leaves a file there.
   */
  lemma MoveOntoRemovedParent() returns (s: Stack, src: Path, dest: Path)
    ensures Inv(s) && Named(src) && Named(dest) && VisibleParents(s, dest) && AtOrBelow(src, dest) && src != dest
    ensures View(s, dest) == None && View(s, src) == Some(File([1]))
    ensures var t := MoveFile(s, src, dest); t.status == Failed && View(s.(upper := t.upper), dest) == Some(File([1]))
  {
    dest := Child(Root, "a");
    src := Child(dest, "b");
    var lower: Layer := map[Root := Dir, dest := Dir, src := File([1])];
    var upper: Layer := map[Root := Dir, WhPath(dest) := File([])];
    s := Stack(upper, [lower]);
    assert !IsMarker("a") && !IsMarker("b");
    WhPathFacts(src, dest);
    WhPathFacts(dest, dest);
    assert s.lowers[0] == lower;
    assert !OpaqueFrom(upper, Root) && !OpaqueFrom(upper, dest);
    assert AtOrBelow(src, dest);
    MoveOntoAncestorFails(s, src, dest);
    CopyFileWrites(s, src, dest);
    assert EnsureDir(upper, Root) == Step(upper, Done);
    assert Prepare(upper, dest) == Step(upper - {WhPath(dest)}, Done);
  }

  /** Nothing named below `p` resolves. */
  ghost predicate NothingBelow(s: Stack, p: Path) {
    forall q :: Named(q) && q != p && AtOrBelow(q, p) ==> View(s, q) == None
  }

  /**
   Removing a directory makes what is below it unresolvable only if it was so before: each path
   below keeps its view, so nothing resolves there afterwards exactly when nothing did.
   */
  lemma RemovedDirEmptyIff(s: Stack, p: Path)
    requires Inv(s) && Named(p) && VisibleParents(s, p) && RemoveDir(s, p).status == Done
    ensures var t := s.(upper := RemoveDir(s, p).upper);
      && View(t, p) == None
      && (forall q :: Named(q) && q != p && AtOrBelow(q, p) ==> View(t, q) == View(s, q) && q !in s.upper)
      && (NothingBelow(t, p) <==> NothingBelow(s, p))
  {
    RemoveDirWrites(s, p);
    forall q | q in s.upper && q != p && AtOrBelow(q, p)
      ensures false
    {
      EntryBelowNamed(s.upper, q, p);
    }
  }

  /** A directory with something below it in the layer is there and has an entry. */
  lemma {:induction false} EntryBelowNamed(u: Layer, q: Path, p: Path)
    requires WellFormed(u) && q in u && q != p && AtOrBelow(q, p)
    ensures p in u && Names(u, p) != {}
  {
    if q.dir == p {
      assert q.name in Names(u, p);
    } else {
      EntryBelowNamed(u, q.dir, p);
    }
  }

  /** Removing a directory hides it, not what a lower layer holds in it; lookup asks only about the path itself. */
  lemma RemovedDirKeepsChildren() returns (s: Stack, d: Path, child: Path)
    ensures Inv(s) && child == Child(d, "f") && View(s, d) == Some(Dir)
    ensures RemoveDir(s, d).status == Done
    ensures var t := s.(upper := RemoveDir(s, d).upper); View(t, d) == None && View(t, child) == Some(File([]))
  {
    d := Child(Root, "d");
    child := Child(d, "f");
    var lower: Layer := map[Root := Dir, d := Dir, child := File([])];
    s := Stack(EmptyLayer, [lower]);
    EmptyLayerFacts(d);
    EmptyLayerFacts(child);
    assert !IsMarker("d") && !IsMarker("f");
    WhNameFacts("d", "f");
    assert WhPath(d) !in lower && WhPath(child) !in lower;
    assert d in s.lowers[0];
    RemoveDirWrites(s, d);
  }
}
