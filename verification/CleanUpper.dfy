/**
 When a call leaves an entry of the upper next to its own whiteout. No parents need be visible
 here: what decides is whether the call creates again a directory that is whited out.
 */
module CleanUpper {
  import opened Base
  import opened Paths
  import opened Layers
  import opened Overlay
  import opened FlatView

  /** Some ancestor of `p` is whited out in the layer. */
  ghost predicate AncestorWhitedOut(u: Layer, p: Path) {
    exists a: Path :: a.Child? && AtOrBelow(p, a) && a != p && WhitedOut(u, a)
  }

  // ── Parents ───────────────────────────────────────────────────────────────

  /** Creating parents keeps the layer clean exactly when none of them is whited out. */
  lemma ParentsCleanIff(u: Layer, p: Path)
    requires WellFormed(u) && Clean(u) && Named(p) && EnsureParents(u, p).status == Done
    ensures var a := EnsureParents(u, p).upper;
      && WellFormed(a) && AddsDirs(u, a, p.dir)
      && (forall q :: Named(q) ==> (WhPath(q) in a <==> WhPath(q) in u))
      && (p in a <==> p in u)
      && (Clean(a) <==> !AncestorWhitedOut(u, p))
  {
    var a := EnsureParents(u, p).upper;
    EnsureDirAdds(u, p.dir);
    forall q | q in a && q !in u
      ensures Ordinary(q) && AtOrBelow(p, q) && q != p
    {
      AncestorOrdinary(p.dir, q);
      AtOrBelowDepth(p.dir, q);
    }
    forall q | Named(q)
      ensures WhPath(q) in a <==> WhPath(q) in u
    {
      WhPathFacts(q, q);
    }
    if AncestorWhitedOut(u, p) {
      var b: Path :| b.Child? && AtOrBelow(p, b) && b != p && WhitedOut(u, b);
      AncestorsAreDirs(a, p.dir, b);
      AncestorOrdinary(p, b);
      assert WhPath(b) in a;
    } else {
      forall q | q in a && Named(q)
        ensures WhPath(q) !in a
      {
        if q !in u { assert !WhitedOut(u, q); }
      }
    }
  }

  /** An entry and its whiteout never both there: changing the two does not matter to cleanliness. */
  lemma PairChanged(a: Layer, z: Layer, p: Path)
    requires Named(p) && !(p in a && WhPath(p) in a) && !(p in z && WhPath(p) in z)
    requires forall q :: q != p && q != WhPath(p) ==> (q in z <==> q in a)
    ensures Clean(z) <==> Clean(a)
  {
    forall q | Named(q) && q != p
      ensures (q in z <==> q in a) && (WhPath(q) in z <==> WhPath(q) in a)
    {
      WhPathFacts(q, p);
    }
  }

  // ── Each call ─────────────────────────────────────────────────────────────

  lemma PrepareCleanIff(u: Layer, p: Path)
    requires WellFormed(u) && Clean(u) && Named(p) && Prepare(u, p).status == Done
    ensures var t := Prepare(u, p).upper;
      && WellFormed(t) && WhPath(p) !in t && (p in t <==> p in u)
      && (Clean(t) <==> !AncestorWhitedOut(u, p))
      && (forall q :: Named(q) && q != p ==> (WhPath(q) in t <==> WhPath(q) in u))
  {
    ParentsCleanIff(u, p);
    WhPathFacts(p, p);
    var a := EnsureParents(u, p).upper;
    StepsKeepWellFormed(a, WhPath(p), []);
    PairChanged(a, Prepare(u, p).upper, p);
    forall q | Named(q) && q != p
      ensures WhPath(q) != WhPath(p)
    {
      WhPathFacts(q, p);
    }
  }

  lemma CreateFileCleanIff(u: Layer, p: Path, data: Bytes)
    requires WellFormed(u) && Clean(u) && Named(p) && CreateFile(u, p, data).status == Done
    ensures var z := CreateFile(u, p, data).upper;
      && WellFormed(z) && p in z && z[p].File?
      && (Clean(z) <==> !AncestorWhitedOut(u, p))
      && (forall q :: Named(q) && q != p ==> (WhPath(q) in z <==> WhPath(q) in u))
  {
    PrepareCleanIff(u, p);
    WhPathFacts(p, p);
    var t := Prepare(u, p).upper;
    StepsKeepWellFormed(t, p, data);
    PairChanged(t, CreateFile(u, p, data).upper, p);
    forall q | Named(q)
      ensures WhPath(q) != p
    {
      WhPathFacts(q, q);
    }
  }

  lemma CreateDirCleanIff(u: Layer, p: Path)
    requires WellFormed(u) && Clean(u) && Named(p) && CreateDir(u, p).status == Done
    ensures Clean(CreateDir(u, p).upper) <==> !AncestorWhitedOut(u, p)
  {
    PrepareCleanIff(u, p);
    PairChanged(Prepare(u, p).upper, CreateDir(u, p).upper, p);
  }

  lemma CopyUpCleanIff(s: Stack, p: Path)
    requires WellFormed(s.upper) && Clean(s.upper) && Named(p) && CopyUp(s, p).status == Done
    ensures Clean(CopyUp(s, p).upper) <==> !AncestorWhitedOut(s.upper, p)
  {
    ParentsCleanIff(s.upper, p);
    WhPathFacts(p, p);
    PairChanged(EnsureParents(s.upper, p).upper, CopyUp(s, p).upper, p);
  }

  /** What a clean layer holds has no whited-out ancestor. */
  lemma HeldNotBelowWhiteout(u: Layer, p: Path)
    requires WellFormed(u) && Clean(u) && Named(p) && p in u
    ensures !AncestorWhitedOut(u, p)
  {
    forall a: Path | a.Child? && AtOrBelow(p, a) && a != p
      ensures !WhitedOut(u, a)
    {
      AncestorsAreDirs(u, p, a);
      AncestorOrdinary(p, a);
    }
  }

  lemma AppendFileCleanIff(s: Stack, p: Path, data: Bytes)
    requires WellFormed(s.upper) && Clean(s.upper) && Named(p) && AppendFile(s, p, data).status == Done
    ensures Clean(AppendFile(s, p, data).upper) <==> !AncestorWhitedOut(s.upper, p)
  {
    var z := AppendFile(s, p, data).upper;
    if p in s.upper {
      HeldNotBelowWhiteout(s.upper, p);
      assert forall q :: q in z <==> q in s.upper;
    } else {
      CopyUpCleanIff(s, p);
      var t := CopyUp(s, p).upper;
      assert forall q :: q in z <==> q in t;
    }
  }

  lemma HideLowerCleanIff(lowers: seq<Layer>, u: Layer, p: Path)
    requires WellFormed(u) && Clean(u) && Named(p) && p !in u && HideLower(lowers, u, p).status == Done
    ensures Clean(HideLower(lowers, u, p).upper) <==> !(InSomeLower(lowers, p) && AncestorWhitedOut(u, p))
  {
    if InSomeLower(lowers, p) {
      ParentsCleanIff(u, p);
      WhPathFacts(p, p);
      PairChanged(EnsureParents(u, p).upper, HideLower(lowers, u, p).upper, p);
    }
  }

  /** A removal, of a file or of a directory: the entry goes, then the lowers' entry is hidden. */
  lemma RemoveCleanIff(s: Stack, p: Path, z: Step)
    requires WellFormed(s.upper) && Clean(s.upper) && Named(p) && z.status == Done
    requires z == RemoveFile(s, p) || z == RemoveDir(s, p)
    ensures Clean(z.upper) <==> !(InSomeLower(s.lowers, p) && AncestorWhitedOut(s.upper, p))
  {
    var u := s.upper;
    var v := if p in u then u - {p} else u;
    StepsKeepWellFormed(u, p, []);
    assert z == HideLower(s.lowers, v, p);
    PairChanged(u, v, p);
    forall a: Path | a.Child? && AtOrBelow(p, a)
      ensures WhitedOut(v, a) <==> WhitedOut(u, a)
    {
      AncestorOrdinary(p, a);
      WhPathFacts(a, p);
    }
    assert AncestorWhitedOut(v, p) <==> AncestorWhitedOut(u, p);
    HideLowerCleanIff(s.lowers, v, p);
  }

  /** A directory beside its whiteout survives the removal of a file. */
  lemma UncleanSurvives(s: Stack, p: Path, d: Path)
    requires WellFormed(s.upper) && Named(p) && Named(d) && IsDir(s.upper, d) && WhPath(d) in s.upper
    requires RemoveFile(s, p).status == Done
    ensures !Clean(RemoveFile(s, p).upper)
  {
    var v := if p in s.upper then s.upper - {p} else s.upper;
    WhPathFacts(d, d);
    StepsKeepWellFormed(s.upper, p, []);
    EnsureDirAdds(v, p.dir);
    assert d in v && WhPath(d) in v;
    var z := RemoveFile(s, p).upper;
    assert d in z && WhPath(d) in z;
  }

  /** A lower's path below a file of the upper cannot be hidden. */
  lemma HidingBlocked(lowers: seq<Layer>, u: Layer, p: Path, f: Path)
    requires WellFormed(u) && f in u && u[f].File? && AtOrBelow(p, f) && p != f && InSomeLower(lowers, p)
    ensures HideLower(lowers, u, p).status == Failed
  {
    BlockedByFile(u, f, p.dir);
    if WhPath(p) in u { AncestorsAreDirs(u, WhPath(p), f); }
  }

  lemma MoveFileCleanIff(s: Stack, src: Path, dest: Path)
    requires WellFormed(s.upper) && Clean(s.upper) && Named(src) && Named(dest) && MoveFile(s, src, dest).status == Done
    ensures Clean(MoveFile(s, src, dest).upper)
       <==> !AncestorWhitedOut(s.upper, dest) && !(InSomeLower(s.lowers, src) && AncestorWhitedOut(s.upper, src))
  {
    var u, v := s.upper, CopyFile(s, src, dest).upper;
    var m := s.(upper := v);
    CreateFileCleanIff(u, dest, View(s, src).value.data);
    if AncestorWhitedOut(u, dest) {
      var d: Path :| d.Child? && AtOrBelow(dest, d) && d != dest && WhitedOut(u, d);
      AncestorsAreDirs(v, dest, d);
      AncestorOrdinary(dest, d);
      UncleanSurvives(m, src, d);
    } else {
      RemoveCleanIff(m, src, RemoveFile(m, src));
      if InSomeLower(s.lowers, src) {
        WhitedOutKept(m, u, src, dest);
      }
    }
  }

  /** Where the moved file's lower entry could be hidden, the copy changed no whiteout above it. */
  lemma WhitedOutKept(m: Stack, u: Layer, src: Path, dest: Path)
    requires WellFormed(m.upper) && Named(src) && Named(dest) && dest in m.upper && m.upper[dest].File?
    requires forall q :: Named(q) && q != dest ==> (WhPath(q) in m.upper <==> WhPath(q) in u)
    requires InSomeLower(m.lowers, src) && RemoveFile(m, src).status == Done
    ensures AncestorWhitedOut(m.upper, src) <==> AncestorWhitedOut(u, src)
  {
    if AtOrBelow(src, dest) && src != dest {
      var v := if src in m.upper then m.upper - {src} else m.upper;
      StepsKeepWellFormed(m.upper, src, []);
      HidingBlocked(m.lowers, v, src, dest);
    }
    forall a: Path | a.Child? && AtOrBelow(src, a) && a != src
      ensures WhitedOut(m.upper, a) <==> WhitedOut(u, a)
    {
      AncestorOrdinary(src, a);
    }
  }

  // ── All calls ─────────────────────────────────────────────────────────────

  /** The paths a call writes have no marker among their names. */
  predicate NamesOrdinary(op: Op) {
    match op
    case CreateFileOp(p, _) => Named(p)
    case CreateDirOp(p) => Named(p)
    case AppendFileOp(p, _) => Named(p)
    case RemoveFileOp(p) => Named(p)
    case RemoveDirOp(p) => Named(p)
    case CopyUpOp(p) => Named(p)
    case CopyFileOp(_, dest) => Named(dest)
    case MoveFileOp(src, dest) => Named(src) && Named(dest)
    case CaptureOp => true
  }

  /**
   The call needs, for the path it creates or for the whiteout it leaves, a directory that is
   whited out in the upper.
   */
  ghost predicate Revives(s: Stack, op: Op) {
    match op
    case CreateFileOp(p, _) => AncestorWhitedOut(s.upper, p)
    case CreateDirOp(p) => AncestorWhitedOut(s.upper, p)
    case AppendFileOp(p, _) => AncestorWhitedOut(s.upper, p)
    case RemoveFileOp(p) => InSomeLower(s.lowers, p) && AncestorWhitedOut(s.upper, p)
    case RemoveDirOp(p) => InSomeLower(s.lowers, p) && AncestorWhitedOut(s.upper, p)
    case CopyUpOp(p) => AncestorWhitedOut(s.upper, p)
    case CopyFileOp(_, dest) => AncestorWhitedOut(s.upper, dest)
    case MoveFileOp(src, dest) =>
      AncestorWhitedOut(s.upper, dest) || (InSomeLower(s.lowers, src) && AncestorWhitedOut(s.upper, src))
    case CaptureOp => false
  }

  /**
   A successful call leaves the upper clean exactly when it does not create again, beside its
   whiteout, a directory above the path it writes or hides.
   */
  lemma CallKeepsCleanIff(s: Stack, op: Op)
    requires WellFormed(s.upper) && Clean(s.upper) && NamesOrdinary(op) && StepOf(s, op).status == Done
    ensures Clean(StepOf(s, op).upper) <==> !Revives(s, op)
  {
    hide Clean, AncestorWhitedOut;
    match op
    case CreateFileOp(p, data) => CreateFileCleanIff(s.upper, p, data);
    case CreateDirOp(p) => CreateDirCleanIff(s.upper, p);
    case AppendFileOp(p, data) => AppendFileCleanIff(s, p, data);
    case RemoveFileOp(p) => RemoveCleanIff(s, p, RemoveFile(s, p));
    case RemoveDirOp(p) => RemoveCleanIff(s, p, RemoveDir(s, p));
    case CopyUpOp(p) => CopyUpCleanIff(s, p);
    case CopyFileOp(src, dest) => CreateFileCleanIff(s.upper, dest, View(s, src).value.data);
    case MoveFileOp(src, dest) => MoveFileCleanIff(s, src, dest);
    case CaptureOp =>
  }

  // ── Such calls exist ──────────────────────────────────────────────────────

  const D := Child(Root, "d")
  const F := Child(D, "f")
  const G := Child(D, "g")

  /** The lower's directory `d` is whited out, and holds a file. */
  const Whited := Stack(map[Root := Dir, WhPath(D) := File([])], [map[Root := Dir, D := Dir, F := File([1])]])

  lemma WhitedNames()
    ensures Named(D) && Named(F) && Named(G)
    ensures D !in Whited.upper && F !in Whited.upper && G !in Whited.upper
    ensures WhPath(F) !in Whited.upper && WhPath(G) !in Whited.upper && G !in Whited.lowers[0]
    ensures WhPath(F) !in Whited.lowers[0] && WhPath(G) !in Whited.lowers[0] && WhPath(D) !in Whited.lowers[0]
  {
    assert !IsMarker("d") && !IsMarker("f") && !IsMarker("g");
    WhPathFacts(D, F);
    WhPathFacts(D, G);
    WhPathFacts(F, G);
  }

  lemma NoOpaqueInWhited()
    ensures !OpaqueFrom(Whited.upper, Root) && !OpaqueFrom(Whited.upper, D)
    ensures !OpaqueFrom(Whited.lowers[0], Root) && !OpaqueFrom(Whited.lowers[0], D)
  {
    WhitedNames();
    WhPathFacts(D, F);
    OpaqueNotOrdinary(Root);
    OpaqueNotOrdinary(D);
  }

  lemma WhitedFacts()
    ensures Inv(Whited) && View(Whited, F) == Some(File([1])) && View(Whited, G) == None
    ensures InSomeLower(Whited.lowers, F) && AncestorWhitedOut(Whited.upper, F) && AncestorWhitedOut(Whited.upper, G)
    ensures EnsureDir(Whited.upper, D) == Step(Whited.upper[D := Dir], Done)
  {
    hide OpaqueFrom, IsMarker, WhName;
    WhitedNames();
    NoOpaqueInWhited();
    WhNameFacts("f", "g");
    WhNameFacts("g", "f");
    assert Whited.lowers[1..] == [] && ViewLowers([], G) == None;
    assert F in Whited.lowers[0];
    assert EnsureDir(Whited.upper, Root) == Step(Whited.upper, Done);
    assert AtOrBelow(F, D) && AtOrBelow(G, D) && WhitedOut(Whited.upper, D);
    WhPathFacts(D, F);
  }

  /** Below a whited-out directory a creation, a removal and an append each leave it beside its whiteout. */
  lemma WorkBelowWhiteout()
    ensures Inv(Whited) && Named(F) && Named(G) && View(Whited, F) == Some(File([1])) && View(Whited, G) == None
    ensures var t := CreateFile(Whited.upper, G, []); t.status == Done && !Clean(t.upper)
    ensures var t := RemoveFile(Whited, F); t.status == Done && !Clean(t.upper)
    ensures var t := AppendFile(Whited, F, [2]); t.status == Done && !Clean(t.upper)
  {
    WhitedFacts();
    WhitedNames();
    CreationDone();
    RemovalDone();
    AppendDone();
    hide *;
    InvParts();
    CreateFileCleanIff(Whited.upper, G, []);
    RemoveCleanIff(Whited, F, RemoveFile(Whited, F));
    AppendFileCleanIff(Whited, F, [2]);
  }

  lemma InvParts()
    ensures WellFormed(Whited.upper) && Clean(Whited.upper)
  {
    WhitedFacts();
  }

  lemma CreationDone()
    ensures CreateFile(Whited.upper, G, []).status == Done
  {
    hide View, Inv, IsMarker, WhName;
    WhitedFacts();
    WhitedNames();
    WhPathFacts(D, G);
  }

  lemma RemovalDone()
    ensures RemoveFile(Whited, F).status == Done
  {
    hide View, Inv, IsMarker, WhName;
    WhitedFacts();
    WhitedNames();
    WhPathFacts(D, F);
    assert EnsureParents(Whited.upper, WhPath(F)) == Step(Whited.upper[D := Dir], Done);
  }

  lemma AppendDone()
    ensures AppendFile(Whited, F, [2]).status == Done
  {
    hide View, Inv, IsMarker, WhName;
    WhitedFacts();
    WhitedNames();
    WhPathFacts(D, F);
    assert EnsureParents(Whited.upper, F) == Step(Whited.upper[D := Dir], Done);
  }
}
