/** The first half of `move_dir`: the copy holds exactly the subtree that listing reaches. */
module CopyTree {
  import opened Base
  import opened NameOrder
  import opened Paths
  import opened Layers
  import opened Overlay
  import opened FlatView
  import opened Listing
  import opened TreeOps

  // ── Hypotheses ────────────────────────────────────────────────────────────

  ghost predicate NoOpaque(l: Layer) {
    forall d :: OpaqueMarker(d) !in l
  }

  ghost predicate Agree(l: Layer, m: Layer) {
    forall p :: p in l && p in m && Named(p) ==> (l[p] == Dir <==> m[p] == Dir)
  }

  /** No path is a file in one layer and a directory in another. */
  ghost predicate Consistent(s: Stack) {
    && (forall k :: 0 <= k < |s.lowers| ==> Agree(s.upper, s.lowers[k]))
    && (forall j, k :: 0 <= j < |s.lowers| && 0 <= k < |s.lowers| ==> Agree(s.lowers[j], s.lowers[k]))
  }

  /** Clean, type-consistent layers without opaque markers; whiteouts in the upper are files. */
  ghost predicate Regular(s: Stack) {
    && CleanStack(s) && Consistent(s)
    && NoOpaque(s.upper) && (forall k :: 0 <= k < |s.lowers| ==> NoOpaque(s.lowers[k]))
    && (forall p :: p in s.upper && p.Child? && IsMarker(p.name) ==> s.upper[p].File?)
  }

  predicate AbsentBelow(s: Stack, p: Path) {
    p !in s.upper && !InSomeLower(s.lowers, p)
  }

  predicate Apart(p: Path, q: Path) {
    !AtOrBelow(p, q) && !AtOrBelow(q, p)
  }

  /** No layer holds anything `stack` or more levels below `base`. */
  ghost predicate Shallow(l: Layer, base: Path, stack: nat) {
    forall q :: q in l && AtOrBelow(q, base) ==> Depth(q) < Depth(base) + stack
  }

  ghost predicate FitsStack(s: Stack, base: Path, stack: nat) {
    Shallow(s.upper, base, stack) && forall k :: 0 <= k < |s.lowers| ==> Shallow(s.lowers[k], base, stack)
  }

  /** Every tree fits some stack. */
  lemma {:induction false} LayerDepth(l: Layer) returns (n: nat)
    ensures forall q :: q in l ==> Depth(q) < n
    decreases |l|
  {
    if l == map[] {
      n := 0;
    } else {
      var p :| p in l;
      var rest := l - {p};
      assert rest.Keys == l.Keys - {p};
      var m := LayerDepth(rest);
      n := if m > Depth(p) then m else Depth(p) + 1;
      forall q | q in l
        ensures Depth(q) < n
      {
        if q != p { assert q in rest; }
      }
    }
  }

  lemma {:induction false} SomeStackFits(s: Stack, base: Path) returns (n: nat)
    ensures FitsStack(s, base, n)
    decreases |s.lowers|
  {
    var a := LayerDepth(s.upper);
    if s.lowers == [] {
      n := a;
    } else {
      var b := SomeStackFits(Stack(s.lowers[0], s.lowers[1..]), base);
      n := if a > b then a else b;
      forall k | 0 <= k < |s.lowers|
        ensures Shallow(s.lowers[k], base, n)
      {
        if k > 0 { assert s.lowers[1..][k - 1] == s.lowers[k]; }
      }
    }
  }

  lemma HeldFits(s: Stack, base: Path, stack: nat)
    requires FitsStack(s, base, stack) && View(s, base).Some?
    ensures stack > 0
  {
    ResolveIsView(s, base);
  }

  lemma ChildFits(s: Stack, base: Path, n: Name, stack: nat)
    requires FitsStack(s, base, stack) && stack > 0
    ensures FitsStack(s, Child(base, n), stack - 1)
  {
    forall l: Layer | Shallow(l, base, stack)
      ensures Shallow(l, Child(base, n), stack - 1)
    {
      forall q | q in l && AtOrBelow(q, Child(base, n))
        ensures Depth(q) < Depth(Child(base, n)) + (stack - 1)
      {
        AtOrBelowTransitive(q, Child(base, n), base);
      }
    }
  }

  // ── What listing reaches ──────────────────────────────────────────────────

  /** `rel` is found from `base` by listing directory after directory. */
  predicate Reach(s: Stack, base: Path, rel: Path) {
    rel == Root ||
    (Reach(s, base, rel.dir) && View(s, Graft(base, rel.dir)) == Some(Dir)
     && !IsMarker(rel.name) && View(s, Graft(base, rel)).Some?)
  }

  /** `b` in the layer `v` is a copy of all that is reached from `a`. */
  ghost predicate Copied(s: Stack, a: Path, b: Path, v: Layer) {
    forall rel ::
      && (Graft(b, rel) in v <==> Reach(s, a, rel))
      && (Graft(b, rel) in v ==> View(s, Graft(a, rel)) == Some(v[Graft(b, rel)]))
  }

  /** The layers agree everywhere but at or below `b`. */
  ghost predicate SameOff(u: Layer, v: Layer, b: Path) {
    forall q :: !AtOrBelow(q, b) ==> (q in v <==> q in u) && (q in v ==> v[q] == u[q])
  }

  lemma NotBelowOther(x: Path, a: Path, b: Path)
    requires Apart(a, b) && AtOrBelow(x, a)
    ensures !AtOrBelow(x, b)
  {
    if AtOrBelow(x, b) { AncestorsNest(x, a, b); }
  }

  /** A change at or below `b` is not seen at or below a path apart from it. */
  lemma ViewOff(s: Stack, v: Layer, x: Path, b: Path)
    requires Named(x) && Named(b) && !AtOrBelow(x, b)
    requires NoOpaque(s.upper) && NoOpaque(v) && SameOff(s.upper, v, b)
    ensures View(s.(upper := v), x) == View(s, x)
  {
    WhPathFacts(x, x);
    UnseenChange(s, v, x);
  }

  /** What is reached depends only on the views at or below the start. */
  lemma {:induction false} ReachSame(s: Stack, t: Stack, a: Path, rel: Path)
    requires Named(a)
    requires forall x :: Named(x) && AtOrBelow(x, a) ==> View(t, x) == View(s, x)
    ensures Reach(t, a, rel) == Reach(s, a, rel)
    ensures Reach(s, a, rel) ==> View(t, Graft(a, rel)) == View(s, Graft(a, rel)) && Named(Graft(a, rel))
  {
    GraftBelow(a, rel);
    if rel.Child? {
      GraftBelow(a, rel.dir);
      ReachSame(s, t, a, rel.dir);
    }
  }

  lemma CopiedSame(s: Stack, t: Stack, a: Path, b: Path, v: Layer)
    requires Named(a) && Copied(t, a, b, v)
    requires forall x :: Named(x) && AtOrBelow(x, a) ==> View(t, x) == View(s, x)
    ensures Copied(s, a, b, v)
  {
    forall rel
      ensures (Graft(b, rel) in v <==> Reach(s, a, rel))
           && (Graft(b, rel) in v ==> View(s, Graft(a, rel)) == Some(v[Graft(b, rel)]))
    {
      ReachSame(s, t, a, rel);
    }
  }

  /** A copy is not disturbed by changes elsewhere. */
  lemma CopiedOff(s: Stack, a: Path, b: Path, v: Layer, w: Layer)
    requires Copied(s, a, b, v)
    requires forall q :: AtOrBelow(q, b) ==> (q in w <==> q in v) && (q in w ==> w[q] == v[q])
    ensures Copied(s, a, b, w)
  {
    forall rel
      ensures Graft(b, rel) in w <==> Graft(b, rel) in v
      ensures Graft(b, rel) in w ==> w[Graft(b, rel)] == v[Graft(b, rel)]
    {
      GraftBelow(b, rel);
    }
  }

  // ── Reaching through the first step ───────────────────────────────────────

  lemma {:induction false} FirstStep(rel: Path) returns (n: Name, rest: Path)
    requires rel.Child?
    ensures rel == Graft(Child(Root, n), rest)
  {
    if rel.dir == Root {
      n, rest := rel.name, Root;
    } else {
      var r;
      n, r := FirstStep(rel.dir);
      rest := Child(r, rel.name);
    }
  }

  lemma {:induction false} ReachStep(s: Stack, a: Path, n: Name, rest: Path)
    requires View(s, a) == Some(Dir)
    ensures Reach(s, a, Graft(Child(Root, n), rest))
       <==> !IsMarker(n) && View(s, Child(a, n)).Some? && Reach(s, Child(a, n), rest)
  {
    GraftStep(a, n, rest);
    if rest == Root {
      assert Graft(Child(Root, n), rest) == Child(Root, n);
      assert Graft(a, Child(Root, n)) == Child(a, n);
    } else {
      GraftStep(a, n, rest.dir);
      ReachStep(s, a, n, rest.dir);
    }
  }

  lemma SiblingsApart(d: Path, n: Name, m: Name)
    requires n != m
    ensures Apart(Child(d, n), Child(d, m))
  {
    if AtOrBelow(Child(d, n), Child(d, m)) { AtOrBelowDepth(d, Child(d, m)); }
    if AtOrBelow(Child(d, m), Child(d, n)) { AtOrBelowDepth(d, Child(d, n)); }
  }

  lemma ChildrenApart(src: Path, dest: Path, n: Name, m: Name)
    requires Apart(src, dest)
    ensures Apart(Child(src, n), Child(dest, m)) && Apart(Child(src, n), dest) && Apart(src, Child(dest, m))
  {
    if AtOrBelow(Child(src, n), dest) {
      assert AtOrBelow(src, dest) || Child(src, n) == dest;
      assert AtOrBelow(Child(src, n), src);
    }
    if AtOrBelow(dest, Child(src, n)) { AtOrBelowTransitive(dest, Child(src, n), src); }
    if AtOrBelow(src, Child(dest, m)) { AtOrBelowTransitive(src, Child(dest, m), dest); }
    if AtOrBelow(Child(src, n), Child(dest, m)) { AtOrBelowTransitive(Child(src, n), Child(dest, m), dest); }
    if AtOrBelow(Child(dest, m), Child(src, n)) { AtOrBelowTransitive(Child(dest, m), Child(src, n), src); }
  }

  // ── Regularity is kept ────────────────────────────────────────────────────

  /** The new content at or below `b` has ordinary names only. */
  ghost predicate OrdinaryAt(v: Layer, b: Path) {
    forall q :: q in v && AtOrBelow(q, b) ==> Ordinary(q)
  }

  lemma CopiedOrdinary(s: Stack, a: Path, b: Path, v: Layer)
    requires Copied(s, a, b, v) && Ordinary(b)
    ensures OrdinaryAt(v, b)
  {
    forall q | q in v && AtOrBelow(q, b)
      ensures Ordinary(q)
    {
      var rel := BelowIsGraft(q, b);
      ReachOrdinary(s, a, rel);
      GraftOrdinary(b, rel);
    }
  }

  lemma {:induction false} ReachOrdinary(s: Stack, a: Path, rel: Path)
    requires Reach(s, a, rel)
    ensures Ordinary(rel)
  {
    if rel.Child? { ReachOrdinary(s, a, rel.dir); }
  }

  lemma NotInLowersBelow(s: Stack, b: Path, q: Path, k: nat)
    requires !InSomeLower(s.lowers, b) && k < |s.lowers| && WellFormed(s.lowers[k]) && AtOrBelow(q, b)
    ensures q !in s.lowers[k]
  {
    if q in s.lowers[k] { AncestorsAreDirs(s.lowers[k], q, b); }
  }

  /** Content no lower knows, put at a free path, keeps the stack regular. */
  lemma RegularAfter(s: Stack, v: Layer, b: Path)
    requires Regular(s) && Named(b) && !InSomeLower(s.lowers, b) && WhPath(b) !in s.upper
    requires WellFormed(v) && SameOff(s.upper, v, b) && OrdinaryAt(v, b)
    ensures Regular(s.(upper := v))
  {
    var u, t := s.upper, s.(upper := v);
    WhPathFacts(b, b);
    forall q | q in v && Named(q)
      ensures WhPath(q) !in v
    {
      WhPathFacts(q, q);
    }
    forall d
      ensures OpaqueMarker(d) !in v
    {
      OpaqueNotOrdinary(d);
    }
    forall k | 0 <= k < |s.lowers|
      ensures Agree(v, s.lowers[k])
    {
      forall q | q in v && q in s.lowers[k] && Named(q)
        ensures v[q] == Dir <==> s.lowers[k][q] == Dir
      {
        if AtOrBelow(q, b) {
          NotInLowersBelow(s, b, q, k);
        } else {
          assert Agree(u, s.lowers[k]);
        }
      }
    }
  }

  lemma {:induction false} NoOpaqueFrom(l: Layer, d: Path)
    requires NoOpaque(l)
    ensures !OpaqueFrom(l, d)
  {
    assert OpaqueMarker(d) !in l;
    if d.Child? { NoOpaqueFrom(l, d.dir); }
  }

  /** What is seen as a directory is one in every layer that holds it. */
  lemma DirEverywhere(s: Stack, d: Path)
    requires Consistent(s) && Named(d) && View(s, d) == Some(Dir)
    ensures d in s.upper ==> s.upper[d] == Dir
    ensures forall j :: 0 <= j < |s.lowers| && d in s.lowers[j] ==> s.lowers[j][d] == Dir
  {
    ResolveIsView(s, d);
    var k := Resolve(s, d).value;
    forall j | 0 <= j < |s.lowers| && d in s.lowers[j]
      ensures s.lowers[j][d] == Dir
    {
      if k == 0 { assert Agree(s.upper, s.lowers[j]); } else { assert Agree(s.lowers[k - 1], s.lowers[j]); }
    }
  }

  /** A directory of a regular stack can be listed, and listing it finds what resolves. */
  lemma RegularListing(s: Stack, d: Path)
    requires Regular(s) && Named(d) && View(s, d) == Some(Dir)
    ensures ReadDir(s, d).Some? && StrictlySorted(ReadDir(s, d).value)
    ensures forall n :: n in ReadDir(s, d).value <==> !IsMarker(n) && View(s, Child(d, n)).Some?
  {
    DirEverywhere(s, d);
    NoOpaqueFrom(s.upper, d.dir);
    forall j | 0 <= j < |s.lowers|
      ensures !OpaqueFrom(s.lowers[j], d)
    {
      NoOpaqueFrom(s.lowers[j], d);
    }
    ListingAgrees(s, d);
  }

  // ── The copy ──────────────────────────────────────────────────────────────

  lemma {:induction false} EnsureExisting(u: Layer, d: Path)
    requires WellFormed(u) && d in u
    ensures EnsureDir(u, d) == Step(u, Done)
  {
    if d.Child? { EnsureExisting(u, d.dir); }
  }

  /** A place to copy to: free in every layer, not whited out in the upper, its parent there. */
  ghost predicate Free(s: Stack, b: Path) {
    && Named(b) && b !in s.upper && !InSomeLower(s.lowers, b)
    && WhPath(b) !in s.upper && IsDir(s.upper, b.dir)
  }

  lemma PrepareFree(s: Stack, b: Path)
    requires Regular(s) && Free(s, b)
    ensures Prepare(s.upper, b) == Step(s.upper, Done)
  {
    EnsureExisting(s.upper, b.dir);
  }

  lemma NothingBelowFree(u: Layer, b: Path, q: Path)
    requires WellFormed(u) && b !in u && AtOrBelow(q, b)
    ensures q !in u
  {
    if q in u { AncestorsAreDirs(u, q, b); }
  }

  lemma CopyOneFile(s: Stack, a: Path, b: Path)
    requires Regular(s) && Free(s, b) && View(s, a).Some? && View(s, a).value.File?
    ensures var t := CopyFile(s, a, b);
      t.status == Done && WellFormed(t.upper) && SameOff(s.upper, t.upper, b) && Copied(s, a, b, t.upper)
  {
    PrepareFree(s, b);
    var data := View(s, a).value.data;
    StepsKeepWellFormed(s.upper, b, data);
    var v := CopyFile(s, a, b).upper;
    forall rel
      ensures (Graft(b, rel) in v <==> Reach(s, a, rel))
           && (Graft(b, rel) in v ==> View(s, Graft(a, rel)) == Some(v[Graft(b, rel)]))
    {
      if rel.Child? {
        GraftBelow(b, rel);
        NothingBelowFree(s.upper, b, Graft(b, rel));
        OnlyStart(s, a, rel);
      }
    }
  }

  lemma {:induction false} OnlyStart(s: Stack, a: Path, rel: Path)
    requires View(s, a) != Some(Dir) && rel.Child?
    ensures !Reach(s, a, rel)
  {
    if rel.dir.Child? { OnlyStart(s, a, rel.dir); }
  }

  /** Outside the listed children of `dest` nothing changed. */
  ghost predicate SameOffAll(u: Layer, v: Layer, dest: Path, names: seq<Name>) {
    forall q :: (forall n :: n in names ==> !AtOrBelow(q, Child(dest, n))) ==> (q in v <==> q in u) && (q in v ==> v[q] == u[q])
  }

  /** What copying the children of `src` one after the other needs. */
  ghost predicate ReadyToCopy(s: Stack, src: Path, dest: Path, names: seq<Name>, stack: nat) {
    && Regular(s) && Named(src) && Named(dest) && Apart(src, dest) && IsDir(s.upper, dest)
    && StrictlySorted(names)
    && forall n :: n in names ==>
         !IsMarker(n) && View(s, Child(src, n)).Some? && Free(s, Child(dest, n)) && FitsStack(s, Child(src, n), stack)
  }

  lemma {:induction false} CopyDirTree(s: Stack, src: Path, dest: Path, stack: nat)
    requires Regular(s) && Named(src) && Free(s, dest) && Apart(src, dest)
    requires View(s, src) == Some(Dir) && FitsStack(s, src, stack)
    ensures var t := CopyDir(s, src, dest, stack);
      t.status == Done && WellFormed(t.upper) && SameOff(s.upper, t.upper, dest) && Copied(s, src, dest, t.upper)
    decreases stack, 0
  {
    hide Regular, Copied, FitsStack, SameOffAll, ReadDir, Reach;
    HeldFits(s, src, stack);
    PrepareFree(s, dest);
    var m := s.(upper := s.upper[dest := Dir]);
    DirMade(s, src, dest, stack);
    ReadyChildren(s, src, dest, stack);
    var names := ReadDir(m, src).value;
    CopyEntriesTree(m, src, dest, names, stack - 1);
    Assemble(s, src, dest, names, CopyEntries(m, src, dest, names, stack - 1).upper);
  }

  lemma ReadyChildren(s: Stack, src: Path, dest: Path, stack: nat)
    requires Regular(s) && Named(src) && Free(s, dest) && Apart(src, dest) && stack > 0
    requires var m := s.(upper := s.upper[dest := Dir]);
      Regular(m) && FitsStack(m, src, stack) && View(m, src) == Some(Dir)
    ensures var m := s.(upper := s.upper[dest := Dir]);
      && ReadDir(m, src).Some?
      && ReadyToCopy(m, src, dest, ReadDir(m, src).value, stack - 1)
      && forall n :: n in ReadDir(m, src).value <==> !IsMarker(n) && View(m, Child(src, n)).Some?
  {
    var m := s.(upper := s.upper[dest := Dir]);
    RegularListing(m, src);
    hide Regular, FitsStack, ReadDir;
    forall n | n in ReadDir(m, src).value
      ensures Free(m, Child(dest, n)) && FitsStack(m, Child(src, n), stack - 1)
    {
      ChildFits(m, src, n, stack);
      FreeChild(s, dest, n);
    }
  }

  lemma DirMade(s: Stack, src: Path, dest: Path, stack: nat)
    requires Regular(s) && Named(src) && Free(s, dest) && Apart(src, dest) && FitsStack(s, src, stack)
    ensures var m := s.(upper := s.upper[dest := Dir]);
      && Regular(m) && FitsStack(m, src, stack)
      && (forall x :: Named(x) && AtOrBelow(x, src) ==> View(m, x) == View(s, x))
  {
    var v := s.upper[dest := Dir];
    StepsKeepWellFormed(s.upper, dest, []);
    forall q | q in v && AtOrBelow(q, dest)
      ensures Ordinary(q)
    {
      if q != dest { NothingBelowFree(s.upper, dest, q); }
    }
    RegularAfter(s, v, dest);
    forall x | Named(x) && AtOrBelow(x, src)
      ensures View(s.(upper := v), x) == View(s, x)
    {
      NotBelowOther(x, src, dest);
      ViewOff(s, v, x, dest);
    }
  }

  lemma FreeChild(s: Stack, dest: Path, n: Name)
    requires Regular(s) && Free(s, dest) && !IsMarker(n)
    ensures Free(s.(upper := s.upper[dest := Dir]), Child(dest, n))
  {
    var c := Child(dest, n);
    WhNameFacts(n, n);
    NothingBelowFree(s.upper, dest, c);
    NothingBelowFree(s.upper, dest, WhPath(c));
    forall k | 0 <= k < |s.lowers|
      ensures c !in s.lowers[k]
    {
      NotInLowersBelow(s, dest, c, k);
    }
  }

  /** One child: its subtree appears at its place, nothing else changes. */
  lemma {:induction false} CopyEntryTree(s: Stack, a: Path, b: Path, stack: nat)
    requires Regular(s) && Named(a) && Free(s, b) && Apart(a, b) && View(s, a).Some? && FitsStack(s, a, stack)
    ensures var t := CopyEntry(s, a, b, stack);
      && t.status == Done && WellFormed(t.upper) && SameOff(s.upper, t.upper, b) && Copied(s, a, b, t.upper)
      && Regular(s.(upper := t.upper))
    decreases stack, 1
  {
    if View(s, a) == Some(Dir) {
      CopyDirTree(s, a, b, stack);
    } else {
      CopyOneFile(s, a, b);
    }
    var v := CopyEntry(s, a, b, stack).upper;
    CopiedOrdinary(s, a, b, v);
    RegularAfter(s, v, b);
  }

  lemma {:induction false} CopyEntriesTree(s: Stack, src: Path, dest: Path, names: seq<Name>, stack: nat)
    requires ReadyToCopy(s, src, dest, names, stack)
    ensures var t := CopyEntries(s, src, dest, names, stack);
      && t.status == Done && WellFormed(t.upper) && SameOffAll(s.upper, t.upper, dest, names)
      && Regular(s.(upper := t.upper))
      && forall n :: n in names ==> Copied(s, Child(src, n), Child(dest, n), t.upper)
    decreases stack, 1 + |names|
  {
    if names != [] {
      var n, rest := names[0], names[1..];
      var a, b := Child(src, n), Child(dest, n);
      ChildrenApart(src, dest, n, n);
      CopyEntryTree(s, a, b, stack);
      var v := CopyEntry(s, a, b, stack).upper;
      StillReady(s, src, dest, names, stack, v);
      CopyEntriesTree(s.(upper := v), src, dest, rest, stack);
      var w := CopyEntries(s.(upper := v), src, dest, rest, stack).upper;
      JoinCopies(s, src, dest, names, v, w);
    }
  }

  lemma TailDistinct(names: seq<Name>)
    requires StrictlySorted(names) && names != []
    ensures names[0] !in names[1..] && StrictlySorted(names[1..])
  {
    forall i | 1 <= i < |names|
      ensures names[i] != names[0]
    {
      if names[i] == names[0] { SortedDistinct(names, 0, i); }
    }
  }

  lemma ViewOfSource(s: Stack, v: Layer, src: Path, dest: Path, x: Path, b: Path)
    requires Regular(s) && NoOpaque(v) && Named(b) && AtOrBelow(b, dest) && SameOff(s.upper, v, b)
    requires Apart(src, dest) && Named(x) && AtOrBelow(x, src)
    ensures View(s.(upper := v), x) == View(s, x) && !AtOrBelow(x, b)
  {
    NotBelowOther(x, src, dest);
    if AtOrBelow(x, b) { AtOrBelowTransitive(x, b, dest); }
    ViewOff(s, v, x, b);
  }

  lemma StillReady(s: Stack, src: Path, dest: Path, names: seq<Name>, stack: nat, v: Layer)
    requires ReadyToCopy(s, src, dest, names, stack) && names != []
    requires SameOff(s.upper, v, Child(dest, names[0])) && Regular(s.(upper := v))
    ensures ReadyToCopy(s.(upper := v), src, dest, names[1..], stack)
  {
    var t, b := s.(upper := v), Child(dest, names[0]);
    TailDistinct(names);
    assert names[0] in names;
    assert AtOrBelow(b, dest);
    if AtOrBelow(dest, b) { AtOrBelowDepth(dest, b); }
    forall m | m in names[1..]
      ensures !IsMarker(m) && View(t, Child(src, m)).Some? && Free(t, Child(dest, m)) && FitsStack(t, Child(src, m), stack)
    {
      assert m in names;
      ViewOfSource(s, v, src, dest, Child(src, m), b);
      WhNameFacts(m, m);
      SiblingsApart(dest, m, names[0]);
      SiblingsApart(dest, WhName(m), names[0]);
      forall q | q in v && AtOrBelow(q, Child(src, m))
        ensures Depth(q) < Depth(Child(src, m)) + stack
      {
        ChildrenApart(src, dest, m, names[0]);
        NotBelowOther(q, Child(src, m), b);
      }
    }
  }

  lemma JoinCopies(s: Stack, src: Path, dest: Path, names: seq<Name>, v: Layer, w: Layer)
    requires Regular(s) && Named(src) && Named(dest) && Apart(src, dest) && StrictlySorted(names) && names != []
    requires forall n :: n in names ==> !IsMarker(n)
    requires SameOff(s.upper, v, Child(dest, names[0])) && Regular(s.(upper := v))
    requires Copied(s, Child(src, names[0]), Child(dest, names[0]), v)
    requires SameOffAll(v, w, dest, names[1..])
    requires forall n :: n in names[1..] ==> Copied(s.(upper := v), Child(src, n), Child(dest, n), w)
    ensures SameOffAll(s.upper, w, dest, names)
    ensures forall n :: n in names ==> Copied(s, Child(src, n), Child(dest, n), w)
  {
    var t, b := s.(upper := v), Child(dest, names[0]);
    TailDistinct(names);
    assert names[0] in names && (forall m :: m in names[1..] ==> m in names);
    forall q | forall n :: n in names ==> !AtOrBelow(q, Child(dest, n))
      ensures (q in w <==> q in s.upper) && (q in w ==> w[q] == s.upper[q])
    {
      assert !AtOrBelow(q, b);
    }
    forall n | n in names
      ensures Copied(s, Child(src, n), Child(dest, n), w)
    {
      if n == names[0] {
        forall q | AtOrBelow(q, b)
          ensures (q in w <==> q in v) && (q in w ==> w[q] == v[q])
        {
          forall m | m in names[1..]
            ensures !AtOrBelow(q, Child(dest, m))
          {
            SiblingsApart(dest, n, m);
            NotBelowOther(q, b, Child(dest, m));
          }
        }
        CopiedOff(s, Child(src, n), b, v, w);
      } else {
        forall x | Named(x) && AtOrBelow(x, Child(src, n))
          ensures View(t, x) == View(s, x)
        {
          AtOrBelowTransitive(x, Child(src, n), src);
          ViewOfSource(s, v, src, dest, x, b);
        }
        CopiedSame(s, t, Child(src, n), Child(dest, n), w);
      }
    }
  }

  /** The directory and the copies of its listed children make the copy of the tree. */
  lemma Assemble(s: Stack, src: Path, dest: Path, names: seq<Name>, w: Layer)
    requires Regular(s) && Named(src) && Free(s, dest) && Apart(src, dest) && View(s, src) == Some(Dir)
    requires var m := s.(upper := s.upper[dest := Dir]);
      && (forall x :: Named(x) && AtOrBelow(x, src) ==> View(m, x) == View(s, x))
      && (forall n :: n in names <==> !IsMarker(n) && View(m, Child(src, n)).Some?)
      && SameOffAll(m.upper, w, dest, names)
      && (forall n :: n in names ==> Copied(m, Child(src, n), Child(dest, n), w))
    ensures SameOff(s.upper, w, dest) && Copied(s, src, dest, w)
  {
    var m := s.(upper := s.upper[dest := Dir]);
    forall q | !AtOrBelow(q, dest)
      ensures (q in w <==> q in s.upper) && (q in w ==> w[q] == s.upper[q])
    {
      forall n | n in names
        ensures !AtOrBelow(q, Child(dest, n))
      {
        if AtOrBelow(q, Child(dest, n)) { AtOrBelowTransitive(q, Child(dest, n), dest); }
      }
    }
    forall rel
      ensures (Graft(dest, rel) in w <==> Reach(s, src, rel))
           && (Graft(dest, rel) in w ==> View(s, Graft(src, rel)) == Some(w[Graft(dest, rel)]))
    {
      AssembleAt(s, m, src, dest, names, w, rel);
      ReachSame(s, m, src, rel);
    }
  }

  lemma AssembleAt(s: Stack, m: Stack, src: Path, dest: Path, names: seq<Name>, w: Layer, rel: Path)
    requires WellFormed(s.upper) && dest !in s.upper && m == s.(upper := s.upper[dest := Dir])
    requires View(m, src) == Some(Dir)
    requires forall n :: n in names <==> !IsMarker(n) && View(m, Child(src, n)).Some?
    requires SameOffAll(m.upper, w, dest, names)
    requires forall n :: n in names ==> Copied(m, Child(src, n), Child(dest, n), w)
    ensures Graft(dest, rel) in w <==> Reach(m, src, rel)
    ensures Graft(dest, rel) in w ==> View(m, Graft(src, rel)) == Some(w[Graft(dest, rel)])
  {
    if rel == Root {
      forall n | n in names
        ensures !AtOrBelow(dest, Child(dest, n))
      {
        if AtOrBelow(dest, Child(dest, n)) { AtOrBelowDepth(dest, Child(dest, n)); }
      }
    } else {
      var n, rest := FirstStep(rel);
      GraftStep(dest, n, rest);
      GraftStep(src, n, rest);
      ReachStep(m, src, n, rest);
      if n in names {
        assert Copied(m, Child(src, n), Child(dest, n), w);
      } else {
        var q := Graft(dest, rel);
        GraftBelow(Child(dest, n), rest);
        forall k | k in names
          ensures !AtOrBelow(q, Child(dest, k))
        {
          SiblingsApart(dest, n, k);
          NotBelowOther(q, Child(dest, n), Child(dest, k));
        }
        AtOrBelowTransitive(q, Child(dest, n), dest);
        NothingBelowFree(s.upper, dest, q);
        AtOrBelowDepth(q, Child(dest, n));
      }
    }
  }
}
