/**
 `move_dir` of a directory into itself: the copy walk finds its own copy among the entries of the
 directory it copies, and goes down it without end.
 */
module NestedMove {
  import opened Base
  import opened NameOrder
  import opened Paths
  import opened Layers
  import opened Overlay
  import opened FlatView
  import opened Listing
  import opened TreeOps
  import opened CopyTree
  import opened MoveTree

  // ── What the copy walk keeps ──────────────────────────────────────────────

  ghost predicate Tidy(u: Layer) {
    WellFormed(u) && Clean(u)
  }

  /** No directory of the upper was lost. */
  ghost predicate KeepsDirs(u: Layer, v: Layer) {
    forall q :: IsDir(u, q) ==> IsDir(v, q)
  }

  ghost predicate Kept(u: Layer, v: Layer) {
    Tidy(v) && KeepsDirs(u, v)
  }

  /** Under an existing parent, making room and creating keep the upper tidy and its directories. */
  lemma CreatingKeeps(u: Layer, b: Path, data: Bytes)
    requires Tidy(u) && Named(b) && IsDir(u, b.dir)
    ensures Kept(u, Prepare(u, b).upper) && Kept(u, CreateFile(u, b, data).upper) && Kept(u, CreateDir(u, b).upper)
    ensures Prepare(u, b).status == Done ==> WhPath(b) !in Prepare(u, b).upper
  {
    EnsureExisting(u, b.dir);
    WhPathFacts(b, b);
    var t := Prepare(u, b).upper;
    StepsKeepWellFormed(u, WhPath(b), []);
    StepsKeepWellFormed(t, b, data);
    forall q | Named(q)
      ensures WhPath(q) != b
    {
      WhPathFacts(q, q);
    }
  }

  /** The directory a copy goes to, as the walk leaves it before it lists. */
  ghost function MadeDir(u: Layer, b: Path): Step {
    var t := Prepare(u, b);
    if t.status == Failed || b in t.upper then t else MakeDir(t.upper, b)
  }

  lemma MadeDirKeeps(u: Layer, b: Path)
    requires Tidy(u) && Named(b) && IsDir(u, b.dir)
    ensures var v := MadeDir(u, b); Kept(u, v.upper) && (v.status == Done ==> b in v.upper)
  {
    CreatingKeeps(u, b, []);
  }

  /** What listing an own directory returns. */
  lemma ListedNamesPlain(s: Stack, d: Path)
    requires ReadDir(s, d).Some?
    ensures forall n :: n in ReadDir(s, d).value <==> Listed(s, d, n)
  {
    var names := ReadDir(s, d).value;
    forall n
      ensures n in names <==> Listed(s, d, n)
    {
      assert n in names <==> n in Elements(names);
      ListedNamesAre(s, d, n);
    }
  }

  predicate Plain(names: seq<Name>) {
    forall n :: n in names ==> !IsMarker(n)
  }

  lemma {:induction false} CopyDirKeeps(s: Stack, a: Path, b: Path, stack: nat)
    requires Tidy(s.upper) && Named(b) && IsDir(s.upper, b.dir)
    ensures Kept(s.upper, CopyDir(s, a, b, stack).upper)
    decreases stack, 0
  {
    hide Tidy, IsDir, Listed;
    MadeDirKeeps(s.upper, b);
    var v := MadeDir(s.upper, b);
    var m := s.(upper := v.upper);
    if stack > 0 && v.status == Done && ReadDir(m, a).Some? {
      ListedArePlain(m, a);
      CopyEntriesKeep(m, a, b, ReadDir(m, a).value, stack - 1);
    }
  }

  lemma ListedArePlain(s: Stack, d: Path)
    requires ReadDir(s, d).Some?
    ensures Plain(ReadDir(s, d).value)
  {
    ListedNamesPlain(s, d);
  }

  lemma {:induction false} CopyEntriesKeep(s: Stack, a: Path, b: Path, names: seq<Name>, stack: nat)
    requires Tidy(s.upper) && Named(b) && b in s.upper && Plain(names)
    ensures Kept(s.upper, CopyEntries(s, a, b, names, stack).upper)
    decreases stack, 1 + |names|
  {
    hide Tidy;
    if names != [] {
      assert names[0] in names;
      CopyEntryKeeps(s, Child(a, names[0]), b, names[0], stack);
      var t := CopyEntry(s, Child(a, names[0]), Child(b, names[0]), stack);
      if IsDir(s.upper, b) {
        CopyEntriesKeep(s.(upper := t.upper), a, b, names[1..], stack);
      } else {
        CopyEntriesKeep(s, a, b, names[1..], stack);
      }
    }
  }

  /** An entry copied into `b`; when `b` is a file nothing changes. */
  lemma {:induction false} CopyEntryKeeps(s: Stack, x: Path, b: Path, n: Name, stack: nat)
    requires Tidy(s.upper) && Named(b) && b in s.upper && !IsMarker(n)
    ensures var t := CopyEntry(s, x, Child(b, n), stack);
      && Kept(s.upper, t.upper)
      && (s.upper[b].File? ==> t.upper == s.upper && (View(s, x).Some? ==> t.status == Failed))
    decreases stack, 1
  {
    if s.upper[b].File? {
      BlockedEntry(s, x, b, n, stack);
    } else {
      match View(s, x)
      case None =>
      case Some(Dir) => CopyDirKeeps(s, x, Child(b, n), stack);
      case Some(File(data)) => CreatingKeeps(s.upper, Child(b, n), data);
    }
  }

  /** Nothing can be copied into a file. */
  lemma BlockedEntry(s: Stack, x: Path, b: Path, n: Name, stack: nat)
    requires WellFormed(s.upper) && b in s.upper && s.upper[b].File?
    ensures var t := CopyEntry(s, x, Child(b, n), stack);
      t.upper == s.upper && (View(s, x).Some? ==> t.status == Failed)
  {
    EnsureExisting(s.upper, b);
    assert Child(b, n) !in s.upper && WhPath(Child(b, n)) !in s.upper;
  }

  // ── The walk that meets its own copy ──────────────────────────────────────

  /** The step from `a` towards something below it. */
  lemma {:induction false} StepTowards(b: Path, a: Path) returns (n: Name)
    requires AtOrBelow(b, a) && b != a
    ensures AtOrBelow(b, Child(a, n))
  {
    if b.dir == a {
      n := b.name;
    } else {
      n := StepTowards(b.dir, a);
    }
  }

  /** A directory above something the tidy upper holds is seen. */
  lemma AncestorSeen(s: Stack, b: Path, c: Path)
    requires Tidy(s.upper) && Named(b) && b in s.upper && AtOrBelow(b, c) && c.Child?
    ensures Named(c) && c in s.upper && View(s, c) == Some(s.upper[c])
    ensures c != b ==> View(s, c) == Some(Dir)
  {
    AncestorsAreDirs(s.upper, b, c);
    AncestorOrdinary(b, c);
  }

  /** A copy to a place inside the copied directory fails with every stack. */
  lemma {:induction false} NestedCopyFails(s: Stack, a: Path, b: Path, stack: nat)
    requires Tidy(s.upper) && Named(b) && IsDir(s.upper, b.dir) && AtOrBelow(b, a) && b != a
    ensures CopyDir(s, a, b, stack).status == Failed
    decreases stack, 0
  {
    hide Tidy, Listed;
    MadeDirKeeps(s.upper, b);
    var v := MadeDir(s.upper, b);
    var m := s.(upper := v.upper);
    if stack > 0 && v.status == Done && ReadDir(m, a).Some? {
      var n := StepTowards(b, a);
      ListedArePlain(m, a);
      OwnCopyListed(m, a, b, n);
      NestedEntriesFail(m, a, b, ReadDir(m, a).value, n, stack - 1);
    }
  }

  lemma OwnCopyListed(s: Stack, a: Path, b: Path, n: Name)
    requires Tidy(s.upper) && Named(b) && b in s.upper && AtOrBelow(b, Child(a, n)) && ReadDir(s, a).Some?
    ensures n in ReadDir(s, a).value
  {
    AncestorSeen(s, b, Child(a, n));
    ListedNamesPlain(s, a);
  }

  /** When the turn of the child that holds the copy comes, it is copied to a place inside itself again. */
  lemma {:induction false} NestedEntriesFail(s: Stack, a: Path, b: Path, names: seq<Name>, n: Name, stack: nat)
    requires Tidy(s.upper) && Named(b) && b in s.upper && AtOrBelow(b, Child(a, n)) && Plain(names) && n in names
    ensures CopyEntries(s, a, b, names, stack).status == Failed
    decreases stack, 1 + |names|
  {
    hide Tidy;
    assert names[0] in names;
    CopyEntryKeeps(s, Child(a, names[0]), b, names[0], stack);
    var t := CopyEntry(s, Child(a, names[0]), Child(b, names[0]), stack);
    if names[0] == n {
      AncestorSeen(s, b, Child(a, n));
      if IsDir(s.upper, b) {
        NestedChild(a, b, n);
        NestedCopyFails(s, Child(a, n), Child(b, n), stack);
      }
    } else if t.status == Done {
      assert IsDir(s.upper, b) ==> IsDir(t.upper, b);
      NestedEntriesFail(s.(upper := t.upper), a, b, names[1..], n, stack);
    }
  }

  lemma NestedChild(a: Path, b: Path, n: Name)
    requires AtOrBelow(b, Child(a, n))
    ensures AtOrBelow(Child(b, n), Child(a, n)) && Child(b, n) != Child(a, n)
  {
    AtOrBelowDepth(b, Child(a, n));
  }

  // ── The move ──────────────────────────────────────────────────────────────

  /** Moving a directory to a place inside it fails with every stack, and never gets to removing anything. */
  lemma NestedMoveFails(s: Stack, src: Path, dest: Path, stack: nat)
    requires Inv(s) && Named(dest) && VisibleParents(s, dest) && AtOrBelow(dest, src) && dest != src
    ensures MoveDir(s, src, dest, stack).status == Failed
    ensures MoveDir(s, src, dest, stack).upper == CopyDir(s, src, dest, stack).upper
  {
    ParentsUnseen(s, dest);
    var m := s.(upper := EnsureParents(s.upper, dest).upper);
    EnsureExisting(m.upper, dest.dir);
    assert Prepare(m.upper, dest) == Prepare(s.upper, dest);
    NestedCopyFails(m, src, dest, stack);
    if stack > 0 {
      SamePreparation(s, m, src, dest, stack);
    }
  }

  lemma SamePreparation(s: Stack, m: Stack, src: Path, dest: Path, stack: nat)
    requires stack > 0 && m.lowers == s.lowers && Prepare(m.upper, dest) == Prepare(s.upper, dest)
    ensures CopyDir(m, src, dest, stack) == CopyDir(s, src, dest, stack)
  {
    var t := MadeDir(s.upper, dest);
    assert s.(upper := t.upper) == m.(upper := t.upper);
  }

  /** A place no layer knows is not above a directory that is seen. */
  lemma AbsentNotAbove(s: Stack, src: Path, dest: Path)
    requires CanAsk(s, src, dest)
    ensures !AtOrBelow(src, dest)
  {
    ResolveIsView(s, src);
    var l := LayerAt(s, Resolve(s, src).value);
    if AtOrBelow(src, dest) {
      AncestorsAreDirs(l, src, dest);
    }
  }

  /** A move to a free place ends well, with some stack, exactly when the place is not inside the moved directory. */
  lemma MoveDirEndsIff(s: Stack, src: Path, dest: Path)
    requires CanAsk(s, src, dest)
    ensures (exists stack: nat :: MoveDir(s, src, dest, stack).status == Done) <==> !AtOrBelow(dest, src)
  {
    AbsentNotAbove(s, src, dest);
    if AtOrBelow(dest, src) {
      forall stack: nat
        ensures MoveDir(s, src, dest, stack).status == Failed
      {
        NestedMoveFails(s, src, dest, stack);
      }
    } else {
      var stack := MoveDirTerminates(s, src, dest);
    }
  }
}
