/** The second half of `move_dir`: the upper keeps nothing at or below the removed directory. */
module RemoveTreeProof {
  import opened Base
  import opened NameOrder
  import opened Paths
  import opened Layers
  import opened Overlay
  import opened FlatView
  import opened Listing
  import opened TreeOps
  import opened CopyTree

  // ── The effect of one removal on the upper ────────────────────────────────

  /**
   Nothing is left at or below `p`; everything else stays; what is new is the whiteout of `p`
   or a directory above it.
   */
  ghost predicate Cleared(u: Layer, v: Layer, p: Path) {
    && (forall q :: AtOrBelow(q, p) ==> q !in v)
    && (forall q :: q in u && !AtOrBelow(q, p) ==> q in v && v[q] == u[q])
    && (forall q :: q in v && q !in u ==>
          (p.Child? && q == WhPath(p) && v[q].File?) || (p.Child? && AtOrBelow(p.dir, q) && v[q] == Dir))
  }

  /** Views outside the subtree of `p` are as before. */
  ghost predicate SameViewOff(s: Stack, t: Stack, p: Path) {
    forall x :: Named(x) && !AtOrBelow(x, p) ==> View(t, x) == View(s, x)
  }

  lemma {:induction false} EmptyDirNothingBelow(u: Layer, p: Path, q: Path)
    requires WellFormed(u) && Names(u, p) == {} && AtOrBelow(q, p) && q != p
    ensures q !in u
    decreases q
  {
    if q in u {
      if q.dir == p {
        NamesAre(u, p, q.name);
      } else {
        EmptyDirNothingBelow(u, p, q.dir);
      }
    }
  }

  lemma NotAboveItself(p: Path)
    requires p.Child?
    ensures !AtOrBelow(p.dir, p) && !AtOrBelow(WhPath(p), p)
  {
    if AtOrBelow(p.dir, p) { AtOrBelowDepth(p.dir, p); }
    WhNameFacts(p.name, p.name);
    assert |WhName(p.name)| == |p.name| + 4;
  }

  /** Hiding the lowers' entry of a path the upper does not hold. */
  lemma HideLowerCleared(s: Stack, u: Layer, p: Path)
    requires WellFormed(u) && Named(p)
    requires forall q :: AtOrBelow(q, p) ==> q !in u
    ensures var t := HideLower(s.lowers, u, p); t.status == Done ==> Cleared(u, t.upper, p)
  {
    EnsureDirAdds(u, p.dir);
    NotAboveItself(p);
    WhPathFacts(p, p);
    var a := EnsureDir(u, p.dir).upper;
    forall q | AtOrBelow(q, p)
      ensures q !in a && q != WhPath(p)
    {
      if AtOrBelow(p.dir, q) {
        AtOrBelowDepth(p.dir, q);
        AtOrBelowDepth(q, p);
      }
    }
  }

  lemma RemoveFileCleared(s: Stack, p: Path)
    requires Inv(s) && Named(p) && VisibleParents(s, p) && !IsDir(s.upper, p)
    ensures Cleared(s.upper, RemoveFile(s, p).upper, p)
  {
    RemoveFileWrites(s, p);
    var a := if p in s.upper then DeleteFile(s.upper, p).upper else s.upper;
    StepsKeepWellFormed(s.upper, p, []);
    forall q | AtOrBelow(q, p)
      ensures q !in a
    {
      if q in s.upper { AncestorsAreDirs(s.upper, q, p); }
    }
    HideLowerCleared(s, a, p);
  }

  lemma RemoveDirCleared(s: Stack, p: Path)
    requires Inv(s) && Named(p) && VisibleParents(s, p)
    requires p in s.upper ==> s.upper[p] == Dir && Names(s.upper, p) == {}
    ensures Cleared(s.upper, RemoveDir(s, p).upper, p)
  {
    RemoveDirWrites(s, p);
    var a := if p in s.upper then DeleteDir(s.upper, p).upper else s.upper;
    StepsKeepWellFormed(s.upper, p, []);
    forall q | AtOrBelow(q, p)
      ensures q !in a
    {
      if q in s.upper {
        AncestorsAreDirs(s.upper, q, p);
        if q != p { EmptyDirNothingBelow(s.upper, p, q); }
      }
    }
    HideLowerCleared(s, a, p);
  }

  /** Removal keeps a stack regular. */
  lemma RegularAfterRemoval(s: Stack, v: Layer, p: Path)
    requires Regular(s) && Named(p) && VisibleDir(s, p.dir) && Inv(s.(upper := v)) && Cleared(s.upper, v, p)
    ensures Regular(s.(upper := v))
  {
    var u := s.upper;
    forall q | q in v && q !in u
      ensures (q == WhPath(p) && v[q].File?) || (Ordinary(q) && v[q] == Dir)
    {
      if AtOrBelow(p.dir, q) { AncestorOrdinary(p.dir, q); }
    }
    forall d
      ensures OpaqueMarker(d) !in v
    {
      OpaqueNotOrdinary(d);
      WhPathFacts(p, Child(d, ""));
    }
    forall k | 0 <= k < |s.lowers|
      ensures Agree(v, s.lowers[k])
    {
      forall q | q in v && q in s.lowers[k] && Named(q)
        ensures v[q] == Dir <==> s.lowers[k][q] == Dir
      {
        if q in u {
          assert Agree(u, s.lowers[k]) && !AtOrBelow(q, p);
        } else {
          WhPathFacts(p, p);
          VisibleAncestor(s, p.dir, q);
          DirEverywhere(s, q);
        }
      }
    }
  }

  lemma {:induction false} VisibleOff(s: Stack, t: Stack, d: Path, p: Path)
    requires VisibleDir(s, d) && Ordinary(d) && SameViewOff(s, t, p) && !AtOrBelow(d, p)
    ensures VisibleDir(t, d)
  {
    if d.Child? { VisibleOff(s, t, d.dir, p); }
  }

  // ── One entry ─────────────────────────────────────────────────────────────

  /** What removing the entry `a` achieves. */
  ghost predicate Removed(s: Stack, t: Step, a: Path) {
    var s' := s.(upper := t.upper);
    && t.status == Done && Regular(s') && Cleared(s.upper, t.upper, a)
    && SameViewOff(s, s', a) && View(s', a) == None
  }

  lemma RemoveOneFile(s: Stack, a: Path)
    requires Regular(s) && Named(a) && VisibleParents(s, a) && View(s, a).Some? && View(s, a).value.File?
    ensures Removed(s, RemoveFile(s, a), a)
  {
    assert a in s.upper ==> View(s, a) == Some(s.upper[a]);
    RemoveFileWrites(s, a);
    RemoveFileCleared(s, a);
    RegularAfterRemoval(s, RemoveFile(s, a).upper, a);
  }

  lemma {:induction false} RemoveEntryDone(s: Stack, a: Path, stack: nat)
    requires Regular(s) && Named(a) && VisibleParents(s, a) && View(s, a).Some? && FitsStack(s, a, stack)
    ensures Removed(s, RemoveEntry(s, a, stack), a)
    decreases stack, 1
  {
    hide Removed, RemoveTree, RemoveFile;
    if View(s, a) == Some(Dir) {
      RemoveTreeDone(s, a, stack);
    } else {
      RemoveOneFile(s, a);
    }
  }

  // ── All listed children of a directory ────────────────────────────────────

  ghost predicate ClearedAll(u: Layer, v: Layer, p: Path, names: seq<Name>) {
    && (forall n, q :: n in names && AtOrBelow(q, Child(p, n)) ==> q !in v)
    && (forall q :: q in u && (forall n :: n in names ==> !AtOrBelow(q, Child(p, n))) ==> q in v && v[q] == u[q])
    && (forall q :: q in v && q !in u ==>
          (v[q].File? && q.Child? && q.dir == p && IsMarker(q.name)) || (AtOrBelow(p, q) && v[q] == Dir))
  }

  ghost predicate SameViewOffAll(s: Stack, t: Stack, p: Path, names: seq<Name>) {
    forall x :: Named(x) && (forall n :: n in names ==> !AtOrBelow(x, Child(p, n))) ==> View(t, x) == View(s, x)
  }

  ghost predicate ReadyToRemove(s: Stack, p: Path, names: seq<Name>, stack: nat) {
    && Regular(s) && Named(p) && VisibleDir(s, p) && StrictlySorted(names)
    && forall n :: n in names ==> !IsMarker(n) && View(s, Child(p, n)).Some? && FitsStack(s, Child(p, n), stack)
  }

  lemma {:induction false} RemoveEntriesDone(s: Stack, p: Path, names: seq<Name>, stack: nat)
    requires ReadyToRemove(s, p, names, stack)
    ensures var t := RemoveEntries(s, p, names, stack); var s' := s.(upper := t.upper);
      t.status == Done && Regular(s') && ClearedAll(s.upper, t.upper, p, names) && SameViewOffAll(s, s', p, names)
    decreases stack, 1 + |names|
  {
    hide Regular, FitsStack, RemoveEntry;
    if names != [] {
      var n, rest := names[0], names[1..];
      assert n in names;
      RemoveEntryDone(s, Child(p, n), stack);
      var v := RemoveEntry(s, Child(p, n), stack).upper;
      StillReadyToRemove(s, p, names, stack, v);
      RemoveEntriesDone(s.(upper := v), p, rest, stack);
      var w := RemoveEntries(s.(upper := v), p, rest, stack).upper;
      JoinRemovals(s, p, names, v, w);
    }
  }

  lemma StillReadyToRemove(s: Stack, p: Path, names: seq<Name>, stack: nat, v: Layer)
    requires ReadyToRemove(s, p, names, stack) && names != []
    requires Removed(s, Step(v, Done), Child(p, names[0]))
    ensures ReadyToRemove(s.(upper := v), p, names[1..], stack)
  {
    hide Regular;
    var t, c := s.(upper := v), Child(p, names[0]);
    TailDistinct(names);
    NotAboveItself(c);
    VisibleOff(s, t, p, c);
    forall m | m in names[1..]
      ensures !IsMarker(m) && View(t, Child(p, m)).Some? && FitsStack(t, Child(p, m), stack)
    {
      assert m in names;
      SiblingsApart(p, m, names[0]);
      StillFits(s, p, m, names[0], stack, v);
    }
  }

  lemma StillFits(s: Stack, p: Path, m: Name, n: Name, stack: nat, v: Layer)
    requires m != n && !IsMarker(m) && FitsStack(s, Child(p, m), stack) && Cleared(s.upper, v, Child(p, n))
    ensures FitsStack(s.(upper := v), Child(p, m), stack)
  {
    WhNameFacts(n, m);
    forall q | q in v && AtOrBelow(q, Child(p, m))
      ensures q in s.upper
    {
      if q !in s.upper {
        if q == WhPath(Child(p, n)) {
          SiblingsApart(p, WhName(n), m);
        } else {
          AtOrBelowDepth(p, q);
          AtOrBelowDepth(q, Child(p, m));
        }
      }
    }
  }

  lemma JoinRemovals(s: Stack, p: Path, names: seq<Name>, v: Layer, w: Layer)
    requires StrictlySorted(names) && names != [] && (forall n :: n in names ==> !IsMarker(n))
    requires Removed(s, Step(v, Done), Child(p, names[0]))
    requires ClearedAll(v, w, p, names[1..]) && SameViewOffAll(s.(upper := v), s.(upper := w), p, names[1..])
    ensures ClearedAll(s.upper, w, p, names) && SameViewOffAll(s, s.(upper := w), p, names)
  {
    hide Regular, View;
    TailDistinct(names);
    assert names[0] in names && (forall m :: m in names[1..] ==> m in names);
    JoinCleared(s.upper, p, names, v, w);
    forall x | Named(x) && forall n :: n in names ==> !AtOrBelow(x, Child(p, n))
      ensures View(s.(upper := w), x) == View(s, x)
    {
      assert !AtOrBelow(x, Child(p, names[0]));
    }
  }

  lemma JoinCleared(u: Layer, p: Path, names: seq<Name>, v: Layer, w: Layer)
    requires StrictlySorted(names) && names != [] && (forall n :: n in names ==> !IsMarker(n))
    requires Cleared(u, v, Child(p, names[0])) && ClearedAll(v, w, p, names[1..])
    ensures ClearedAll(u, w, p, names)
  {
    var c := Child(p, names[0]);
    TailDistinct(names);
    assert names[0] in names && (forall m :: m in names[1..] ==> m in names);
    forall q | q in w && q !in u
      ensures (w[q].File? && q.Child? && q.dir == p && IsMarker(q.name)) || (AtOrBelow(p, q) && w[q] == Dir)
    {
      WhNameFacts(names[0], names[0]);
      if q in v {
        NewStays(p, names, v, w, q);
      }
    }
    forall n, q | n in names && AtOrBelow(q, Child(p, n))
      ensures q !in w
    {
      if n == names[0] {
        SiblingNotNew(p, n, q, w);
      }
    }
    forall q | q in u && forall n :: n in names ==> !AtOrBelow(q, Child(p, n))
      ensures q in w && w[q] == u[q]
    {
      assert !AtOrBelow(q, c);
    }
  }

  /** What the first removal added is not taken away by the later ones. */
  lemma NewStays(p: Path, names: seq<Name>, v: Layer, w: Layer, q: Path)
    requires names != [] && StrictlySorted(names) && (forall n :: n in names ==> !IsMarker(n))
    requires ClearedAll(v, w, p, names[1..]) && q in v && q in w
    ensures w[q] == v[q]
  {
    forall m | m in names[1..]
      ensures !AtOrBelow(q, Child(p, m))
    {
      assert q in w;
    }
  }

  lemma SiblingNotNew(p: Path, n: Name, q: Path, w: Layer)
    requires !IsMarker(n) && AtOrBelow(q, Child(p, n))
    requires q in w ==> (w[q].File? && q.Child? && q.dir == p && IsMarker(q.name)) || (AtOrBelow(p, q) && w[q] == Dir)
    ensures q !in w
  {
    AtOrBelowDepth(q, Child(p, n));
    if AtOrBelow(p, q) {
      AtOrBelowDepth(p, q);
    } else if q.Child? && q.dir == p && q.name != n {
      SiblingsApart(p, q.name, n);
    }
  }

  // ── The whole directory ───────────────────────────────────────────────────

  lemma {:induction false} RemoveTreeDone(s: Stack, p: Path, stack: nat)
    requires Regular(s) && Named(p) && VisibleParents(s, p) && View(s, p) == Some(Dir) && FitsStack(s, p, stack)
    ensures Removed(s, RemoveTree(s, p, stack), p)
    decreases stack, 0
  {
    hide Regular, FitsStack, ReadDir, RemoveEntries, SweepMarkers, RemoveDir, ClearedAll, Removed, MarkersIn, Inv;
    HeldFits(s, p, stack);
    RegularListing(s, p);
    var names := ReadDir(s, p).value;
    forall n | n in names
      ensures FitsStack(s, Child(p, n), stack - 1)
    {
      ChildFits(s, p, n, stack);
    }
    RemoveEntriesDone(s, p, names, stack - 1);
    NotBelowChildren(p, names, p);
    var v := RemoveEntries(s, p, names, stack - 1).upper;
    OnlyMarkersLeft(s, p, names, v);
    SweepEmpties(s, p, names, v);
    var w := SweepMarkers(v, p).upper;
    FinishRemoval(s, p, names, v, w);
  }

  /** After the listed children are gone, what lies below `p` in the upper is marker files. */
  lemma OnlyMarkersLeft(s: Stack, p: Path, names: seq<Name>, v: Layer)
    requires Regular(s) && Named(p) && Regular(s.(upper := v)) && ClearedAll(s.upper, v, p, names)
    requires forall n :: n in names <==> !IsMarker(n) && View(s, Child(p, n)).Some?
    ensures forall q :: q in v && AtOrBelow(q, p) && q != p ==> q in MarkersIn(v, p) && v[q].File?
  {
    forall q | q in v && AtOrBelow(q, p) && q != p
      ensures q in MarkersIn(v, p) && v[q].File?
    {
      var rel := BelowIsGraft(q, p);
      var n, rest := FirstStep(rel);
      GraftStep(p, n, rest);
      var c := Child(p, n);
      GraftBelow(c, rest);
      AncestorsAreDirs(v, q, c);
      if IsMarker(n) {
        assert q == c;
      } else {
        UnlistedAbsent(s, p, names, v, n);
      }
    }
  }

  lemma UnlistedAbsent(s: Stack, p: Path, names: seq<Name>, v: Layer, n: Name)
    requires Regular(s) && Named(p) && ClearedAll(s.upper, v, p, names) && !IsMarker(n)
    requires forall k :: k in names <==> !IsMarker(k) && View(s, Child(p, k)).Some?
    ensures Child(p, n) !in v
  {
    var c := Child(p, n);
    if c in v && n !in names {
      assert c in s.upper ==> View(s, c).Some?;
      AtOrBelowDepth(c, c);
      if AtOrBelow(p, c) { AtOrBelowDepth(p, c); }
    }
  }

  /** The sweep leaves the directory empty and touches nothing else. */
  lemma SweepEmpties(s: Stack, p: Path, names: seq<Name>, v: Layer)
    requires Named(p) && Regular(s.(upper := v)) && View(s.(upper := v), p) == Some(Dir)
    requires forall q :: q in v && AtOrBelow(q, p) && q != p ==> q in MarkersIn(v, p) && v[q].File?
    ensures var t := SweepMarkers(v, p); var m := s.(upper := t.upper);
      && t.status == Done && Inv(m)
      && (forall q :: q in t.upper ==> q in v && t.upper[q] == v[q])
      && (forall q :: q in v && (q == p || !AtOrBelow(q, p)) ==> q in t.upper)
      && (p in t.upper ==> t.upper[p] == Dir && Names(t.upper, p) == {})
      && (forall x :: Named(x) && (x == p || !AtOrBelow(x, p)) ==> View(m, x) == View(s.(upper := v), x))
  {
    var a := s.(upper := v);
    assert p in v ==> View(a, p) == Some(v[p]);
    forall q | q in MarkersIn(v, p)
      ensures AtOrBelow(q, p) && q != p && v[q].File?
    {
      assert AtOrBelow(q.dir, p);
      assert Depth(q) == 1 + Depth(p);
    }
    var w := SweepMarkers(v, p).upper;
    forall x | Named(x) && (x == p || !AtOrBelow(x, p))
      ensures View(s.(upper := w), x) == View(a, x)
    {
      WhPathFacts(x, x);
      assert WhPath(x) !in MarkersIn(v, p) by {
        if x.dir == p && x != p { assert AtOrBelow(x, p); }
        if x == p { NotAboveItself(p); }
      }
      UnseenChange(a, w, x);
    }
    if p in w {
      forall n
        ensures n !in Names(w, p)
      {
        NamesAre(w, p, n);
        var c := Child(p, n);
        assert c.dir == p && Depth(c) == 1 + Depth(c.dir);
        assert AtOrBelow(c.dir, p);
      }
    }
  }

  lemma FinishRemoval(s: Stack, p: Path, names: seq<Name>, v: Layer, w: Layer)
    requires Regular(s) && Named(p) && VisibleParents(s, p) && View(s, p) == Some(Dir)
    requires ClearedAll(s.upper, v, p, names) && SameViewOffAll(s, s.(upper := v), p, names)
    requires Inv(s.(upper := w)) && (forall q :: q in w ==> q in v && w[q] == v[q])
    requires forall q :: q in v && (q == p || !AtOrBelow(q, p)) ==> q in w
    requires p in w ==> w[p] == Dir && Names(w, p) == {}
    requires forall x :: Named(x) && (x == p || !AtOrBelow(x, p)) ==> View(s.(upper := w), x) == View(s.(upper := v), x)
    ensures Removed(s, RemoveDir(s.(upper := w), p), p)
  {
    var m := s.(upper := w);
    forall x | Named(x) && (x == p || !AtOrBelow(x, p))
      ensures View(m, x) == View(s, x)
    {
      NotBelowChildren(p, names, x);
    }
    NotAboveItself(p);
    VisibleOff(s, m, p.dir, p);
    RemoveDirWrites(m, p);
    RemoveDirCleared(m, p);
    var z := RemoveDir(m, p).upper;
    ComposeCleared(s, p, names, v, w, z);
    RegularAfterRemoval(s, z, p);
  }

  lemma NotBelowChildren(p: Path, names: seq<Name>, x: Path)
    requires x == p || !AtOrBelow(x, p)
    ensures forall n :: n in names ==> !AtOrBelow(x, Child(p, n))
  {
    forall n | n in names
      ensures !AtOrBelow(x, Child(p, n))
    {
      if AtOrBelow(x, Child(p, n)) {
        assert AtOrBelow(Child(p, n), p);
        AtOrBelowTransitive(x, Child(p, n), p);
        AtOrBelowDepth(x, Child(p, n));
      }
    }
  }

  lemma ComposeCleared(s: Stack, p: Path, names: seq<Name>, v: Layer, w: Layer, z: Layer)
    requires p.Child? && ClearedAll(s.upper, v, p, names) && Cleared(w, z, p)
    requires forall q :: q in w ==> q in v && w[q] == v[q]
    requires forall q :: q in v && (q == p || !AtOrBelow(q, p)) ==> q in w
    ensures Cleared(s.upper, z, p)
  {
    forall q | q in s.upper && !AtOrBelow(q, p)
      ensures q in z && z[q] == s.upper[q]
    {
      NotBelowChildren(p, names, q);
    }
    forall q | q in z && q !in s.upper
      ensures (q == WhPath(p) && z[q].File?) || (AtOrBelow(p.dir, q) && z[q] == Dir)
    {
      if q in w {
        assert AtOrBelow(p, p);
        assert q.Child? && q.dir == p ==> AtOrBelow(q, p);
      }
    }
  }
}
