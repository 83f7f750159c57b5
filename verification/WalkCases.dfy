/**
 What the two walks do where the tree theorems do not look: a destination that exists already, and a
 name that is listed but does not resolve.
 */
module WalkCases {
  import opened Base
  import opened NameOrder
  import opened Paths
  import opened Layers
  import opened Overlay
  import opened UpperEffects
  import opened FlatView
  import opened Listing
  import opened TreeOps
  import opened CopyTree
  import opened RemoveTreeProof

  // ── A destination that exists ─────────────────────────────────────────────

  /**
   A copy into a directory the upper holds already merges: each listed child whose place is free appears
   there whole, and nothing else changes.
   */
  lemma CopyIntoExisting(s: Stack, src: Path, dest: Path, stack: nat)
    requires Regular(s) && Named(src) && Named(dest) && Apart(src, dest) && IsDir(s.upper, dest)
    requires View(s, src) == Some(Dir) && FitsStack(s, src, stack)
    requires forall n :: !IsMarker(n) && View(s, Child(src, n)).Some? ==> Free(s, Child(dest, n))
    ensures ReadDir(s, src).Some?
    ensures var t, names := CopyDir(s, src, dest, stack), ReadDir(s, src).value;
      && t.status == Done && Regular(s.(upper := t.upper)) && SameOffAll(s.upper, t.upper, dest, names)
      && (forall n :: n in names <==> !IsMarker(n) && View(s, Child(src, n)).Some?)
      && (forall n :: n in names ==> Copied(s, Child(src, n), Child(dest, n), t.upper))
  {
    hide Copied, SameOffAll, CopyDir, CopyEntries, ReadDir, Free, FitsStack, Consistent, NoOpaque;
    HeldFits(s, src, stack);
    RegularListing(s, src);
    RoomAlready(s.upper, dest);
    CopyStartsListing(s, src, dest, stack);
    ChildrenFit(s, src, ReadDir(s, src).value, stack);
    CopyEntriesTree(s, src, dest, ReadDir(s, src).value, stack - 1);
  }

  lemma ChildrenFit(s: Stack, src: Path, names: seq<Name>, stack: nat)
    requires FitsStack(s, src, stack) && stack > 0
    ensures forall n :: n in names ==> FitsStack(s, Child(src, n), stack - 1)
  {
    forall n | n in names
      ensures FitsStack(s, Child(src, n), stack - 1)
    {
      ChildFits(s, src, n, stack);
    }
  }

  /** With nothing to prepare the walk goes straight to the entries. */
  lemma CopyStartsListing(s: Stack, src: Path, dest: Path, stack: nat)
    requires stack > 0 && Prepare(s.upper, dest) == Step(s.upper, Done) && dest in s.upper && ReadDir(s, src).Some?
    ensures CopyDir(s, src, dest, stack) == CopyEntries(s, src, dest, ReadDir(s, src).value, stack - 1)
  {
    hide Prepare, ReadDir;
    assert s.(upper := s.upper) == s;
  }

  lemma RoomAlready(u: Layer, dest: Path)
    requires WellFormed(u) && Clean(u) && Named(dest) && dest in u
    ensures Prepare(u, dest) == Step(u, Done)
  {
    AncestorsAreDirs(u, dest, dest.dir);
    EnsureExisting(u, dest.dir);
  }

  /**
   A move into such a directory merges too: the children stand whole in it beside what it held, the
   source is gone, and the upper holds nothing at or below it.
   */
  lemma MoveIntoExisting(s: Stack, src: Path, dest: Path, stack: nat)
    requires Regular(s) && Named(src) && Named(dest) && Apart(src, dest) && IsDir(s.upper, dest)
    requires View(s, src) == Some(Dir) && VisibleParents(s, src) && FitsStack(s, src, stack)
    requires forall n :: !IsMarker(n) && View(s, Child(src, n)).Some? ==> Free(s, Child(dest, n))
    ensures ReadDir(s, src).Some?
    ensures var r, names := MoveDir(s, src, dest, stack), ReadDir(s, src).value; var t := s.(upper := r.upper);
      && r.status == Done && View(t, src) == None && (forall q :: AtOrBelow(q, src) ==> q !in t.upper)
      && (forall n :: n in names <==> !IsMarker(n) && View(s, Child(src, n)).Some?)
      && (forall n :: n in names ==> Copied(s, Child(src, n), Child(dest, n), t.upper))
      && (forall q :: q in s.upper && AtOrBelow(q, dest) ==> q in t.upper && t.upper[q] == s.upper[q])
  {
    hide Copied, SameOffAll, CopyDir, ReadDir, Free, FitsStack, Regular, RemoveTree, Apart, VisibleParents;
    CopyIntoExisting(s, src, dest, stack);
    var names, v := ReadDir(s, src).value, CopyDir(s, src, dest, stack).upper;
    SourceUntouched(s, src, dest, names, v, stack);
    var m := s.(upper := v);
    RemoveTreeDone(m, src, stack);
    var z := RemoveTree(m, src, stack).upper;
    DestinationKept(s, src, dest, names, v, z);
  }

  /** What was copied into `dest` does not show at or below the source. */
  lemma SourceUntouched(s: Stack, src: Path, dest: Path, names: seq<Name>, v: Layer, stack: nat)
    requires Regular(s) && Named(src) && Named(dest) && Apart(src, dest) && VisibleParents(s, src) && FitsStack(s, src, stack)
    requires Regular(s.(upper := v)) && SameOffAll(s.upper, v, dest, names) && View(s, src) == Some(Dir)
    ensures var m := s.(upper := v); View(m, src) == Some(Dir) && VisibleParents(m, src) && FitsStack(m, src, stack)
  {
    var m := s.(upper := v);
    OffDest(s.upper, v, dest, names);
    forall x | Named(x) && !AtOrBelow(x, dest)
      ensures View(m, x) == View(s, x)
    {
      ViewOff(s, v, x, dest);
    }
    assert !AtOrBelow(src.dir, dest);
    VisibleOff(s, m, src.dir, dest);
    forall q | q in v && AtOrBelow(q, src)
      ensures Depth(q) < Depth(src) + stack
    {
      NotBelowOther(q, src, dest);
    }
  }

  lemma OffDest(u: Layer, v: Layer, dest: Path, names: seq<Name>)
    requires SameOffAll(u, v, dest, names)
    ensures SameOff(u, v, dest)
    ensures forall q :: q in u && AtOrBelow(q, dest) && (forall n :: n in names ==> !AtOrBelow(q, Child(dest, n))) ==>
                          q in v && v[q] == u[q]
  {
    forall q | !AtOrBelow(q, dest)
      ensures (q in v <==> q in u) && (q in v ==> v[q] == u[q])
    {
      forall n | n in names
        ensures !AtOrBelow(q, Child(dest, n))
      {
        if AtOrBelow(q, Child(dest, n)) { AtOrBelowTransitive(q, Child(dest, n), dest); }
      }
    }
  }

  /** Removing the source leaves everything at and below the destination as it is. */
  lemma DestinationKept(s: Stack, src: Path, dest: Path, names: seq<Name>, v: Layer, z: Layer)
    requires Regular(s) && Named(src) && Named(dest) && Apart(src, dest) && SameOffAll(s.upper, v, dest, names)
    requires IsDir(s.upper, dest) && Cleared(v, z, src)
    requires forall n :: n in names ==> Free(s, Child(dest, n))
    requires forall n :: n in names ==> Copied(s, Child(src, n), Child(dest, n), v)
    ensures forall n :: n in names ==> Copied(s, Child(src, n), Child(dest, n), z)
    ensures forall q :: q in s.upper && AtOrBelow(q, dest) ==> q in z && z[q] == s.upper[q]
  {
    OffDest(s.upper, v, dest, names);
    forall q | q in s.upper && AtOrBelow(q, dest)
      ensures q in v && v[q] == s.upper[q]
    {
      forall n | n in names
        ensures !AtOrBelow(q, Child(dest, n))
      {
        if AtOrBelow(q, Child(dest, n)) { NothingBelowFree(s.upper, Child(dest, n), q); }
      }
    }
    forall q | AtOrBelow(q, dest)
      ensures q in v ==> q in z && z[q] == v[q]
      ensures q in z ==> q in v
    {
      NotBelowOther(q, dest, src);
      if AtOrBelow(src.dir, q) { AtOrBelowTransitive(src.dir, q, dest); }
      if AtOrBelow(WhPath(src), dest) { WhPathFacts(src, src); }
    }
    forall n | n in names
      ensures Copied(s, Child(src, n), Child(dest, n), z)
    {
      forall q | AtOrBelow(q, Child(dest, n))
        ensures (q in z <==> q in v) && (q in z ==> z[q] == v[q])
      {
        AtOrBelowTransitive(q, Child(dest, n), dest);
      }
      CopiedOff(s, Child(src, n), Child(dest, n), v, z);
    }
  }

  // ── A name that does not resolve ──────────────────────────────────────────

  /** Such a name is passed over by both walks: the rest is copied, or removed, as if it were not listed. */
  lemma UnresolvedSkipped(s: Stack, src: Path, dest: Path, n: Name, rest: seq<Name>, stack: nat)
    requires View(s, Child(src, n)) == None
    ensures CopyEntries(s, src, dest, [n] + rest, stack) == CopyEntries(s, src, dest, rest, stack)
    ensures RemoveEntries(s, src, [n] + rest, stack) == RemoveEntries(s, src, rest, stack)
  {
    assert ([n] + rest)[1..] == rest;
  }

  // ── An opaque directory ───────────────────────────────────────────────────

  const D := Child(Root, "d")
  const G := Child(D, "g")
  const E := Child(Root, "e")

  /** The upper's `d` is opaque over the `d` of a lower, which holds `d/g`. */
  const OpaqueStack := Stack(map[Root := Dir, D := Dir, OpaqueMarker(D) := File([])], [map[Root := Dir, D := Dir, G := File([1])]])

  const MadeE: Layer := OpaqueStack.upper[E := Dir]

  const GoneD: Layer := map[Root := Dir, E := Dir, WhPath(D) := File([])]

  lemma OpaqueNames()
    ensures !IsMarker("d") && !IsMarker("e") && !IsMarker("g") && IsMarker(OPAQUE_WHITEOUT)
    ensures WhPath(D).name != OPAQUE_WHITEOUT && WhPath(E).name != OPAQUE_WHITEOUT && WhPath(G).name != OPAQUE_WHITEOUT
    ensures WhPath(D) != D && WhPath(D) != E && WhPath(D) != WhPath(E) && WhPath(E) != D && WhPath(G) != G
    ensures WhPath(G) != OpaqueMarker(D)
  {
    WhNameFacts("d", "e");
    WhNameFacts("e", "d");
    WhNameFacts("g", "d");
    NotItsOwnWhiteout(D);
    NotItsOwnWhiteout(G);
    WhPathFacts(D, E);
    WhPathFacts(E, D);
    WhPathFacts(G, G);
  }

  /** Listing the opaque directory finds nothing, before and after `e` is made. */
  lemma NothingListed(s: Stack)
    requires s.lowers == OpaqueStack.lowers && (s.upper == OpaqueStack.upper || s.upper == MadeE)
    ensures ReadDir(s, D) == Some([])
  {
    hide Sorted;
    OpaqueNames();
    forall n
      ensures n !in ListedNames(s, D)
    {
      ListedNamesAre(s, D, n);
    }
    assert ListedNames(s, D) == {};
    SortedIs([]);
    assert Elements([]) == {};
  }

  lemma CopyOfOpaque()
    ensures CopyDir(OpaqueStack, D, E, 1) == Step(MadeE, Done)
  {
    hide ReadDir, IsMarker, WhName;
    OpaqueNames();
    NothingListed(OpaqueStack.(upper := MadeE));
    assert EnsureParents(OpaqueStack.upper, E) == Step(OpaqueStack.upper, Done);
    assert Prepare(OpaqueStack.upper, E) == Step(OpaqueStack.upper, Done);
    assert MakeDir(OpaqueStack.upper, E) == Step(MadeE, Done);
  }

  lemma RemovalOfOpaque()
    ensures RemoveTree(OpaqueStack.(upper := MadeE), D, 1) == Step(GoneD, Done)
  {
    hide ReadDir, IsMarker, WhName;
    OpaqueNames();
    var s := OpaqueStack.(upper := MadeE);
    NothingListed(s);
    assert MarkersIn(MadeE, D) == {OpaqueMarker(D)};
    var swept: Layer := map[Root := Dir, D := Dir, E := Dir];
    assert SweepMarkers(MadeE, D) == Step(swept, Done) by {
      assert MadeE - MarkersIn(MadeE, D) == swept;
    }
    forall n
      ensures n !in Names(swept, D)
    {
      NamesAre(swept, D, n);
    }
    assert swept - {D} == map[Root := Dir, E := Dir];
    assert D in s.lowers[0];
    assert CreateWhiteout(swept - {D}, D) == Step(GoneD, Done);
  }

  /**
   Moving an opaque directory: what it hid is not copied, and comes back into view at the old place,
   since the marker went with the directory and the whiteout left there hides only the directory itself.
   */
  lemma MovedOpaqueUnhides()
    ensures WellFormed(OpaqueStack.upper) && View(OpaqueStack, D) == Some(Dir) && View(OpaqueStack, G) == None
    ensures var r := MoveDir(OpaqueStack, D, E, 1); var t := OpaqueStack.(upper := r.upper);
      && r.status == Done && View(t, E) == Some(Dir) && View(t, Child(E, "g")) == None
      && View(t, D) == None && View(t, G) == Some(File([1]))
  {
    hide CopyDir, RemoveTree, IsMarker, WhName;
    OpaqueNames();
    CopyOfOpaque();
    RemovalOfOpaque();
    var t := OpaqueStack.(upper := GoneD);
    assert OpaqueStack.(upper := MadeE).(upper := GoneD) == t;
    WhNameFacts("g", "e");
    assert t.lowers[1..] == [];
    NoOpaqueLeft();
    var x := Child(E, "g");
    assert MoveDir(OpaqueStack, D, E, 1) == Step(GoneD, Done);
    WhPathFacts(x, E);
    assert WhPath(x) !in t.upper && x !in t.lowers[0] && ViewLowers([], x) == None;
    NotItsOwnWhiteout(E);
    assert t.upper == GoneD && WhPath(D) in GoneD && E in GoneD && WhPath(E) !in GoneD && GoneD[E] == Dir;
    assert WhitedOut(t.upper, D) && !WhitedOut(t.upper, E);
    assert View(t, E) == Some(Dir) && View(t, D) == None;
    assert View(t, x) == None;
    assert View(t, G) == Some(File([1]));
  }

  lemma NoOpaqueLeft()
    ensures !OpaqueFrom(GoneD, Root) && !OpaqueFrom(GoneD, D) && !OpaqueFrom(GoneD, E)
    ensures !OpaqueFrom(OpaqueStack.lowers[0], Root) && !OpaqueFrom(OpaqueStack.lowers[0], E)
  {
    OpaqueNames();
    WhNameFacts("d", "e");
  }
}
