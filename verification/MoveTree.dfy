/** `move_dir` of layer.rs: the tree that listing reaches at `src` is afterwards the tree at `dest`. */
module MoveTree {
  import opened Base
  import opened Paths
  import opened Layers
  import opened Overlay
  import opened FlatView
  import opened Listing
  import opened TreeOps
  import opened CopyTree
  import opened RemoveTreeProof

  /** A directory to move and a place no layer knows. */
  ghost predicate CanAsk(s: Stack, src: Path, dest: Path) {
    && Regular(s) && Named(src) && Named(dest)
    && View(s, src) == Some(Dir) && VisibleParents(s, src) && VisibleParents(s, dest)
    && AbsentBelow(s, dest)
  }

  /** Neither lies inside the other. */
  ghost predicate CanMove(s: Stack, src: Path, dest: Path) {
    CanAsk(s, src, dest) && Apart(src, dest)
  }

  /** The tree seen at `b` in `t` is what listing reached at `a` in `s`: same paths, types and bytes. */
  ghost predicate SameTree(s: Stack, a: Path, t: Stack, b: Path) {
    forall rel ::
      && Reach(t, b, rel) == Reach(s, a, rel)
      && (Ordinary(rel) ==> View(t, Graft(b, rel)) == if Reach(s, a, rel) then View(s, Graft(a, rel)) else None)
  }

  // ── Preparing the destination ─────────────────────────────────────────────

  /** Making room at `dest` is a matter of missing parents and of its own whiteout. */
  lemma PrepareDest(s: Stack, src: Path, dest: Path)
    requires CanMove(s, src, dest)
    ensures var t := Prepare(s.upper, dest); var m := s.(upper := t.upper);
      && t.status == Done && Regular(m) && Free(m, dest) && SameViewBut(s, m, dest)
      && (forall q :: q in t.upper && AtOrBelow(q, src) ==> q in s.upper)
  {
    var u := s.upper;
    ParentsUnseen(s, dest);
    PrepareEffect(s, dest);
    WhPathFacts(dest, dest);
    var a := EnsureParents(u, dest).upper;
    var v := Prepare(u, dest).upper;
    assert WhPath(dest) in a ==> WhPath(dest) in u && u[WhPath(dest)].File?;
    forall q | q in v && q !in u
      ensures AtOrBelow(dest.dir, q) && v[q] == Dir && Named(q) && View(s, q) == Some(Dir)
    {
      AncestorOrdinary(dest.dir, q);
      VisibleAncestor(s, dest.dir, q);
    }
    forall q | q in v && AtOrBelow(q, src)
      ensures q in u
    {
      if q !in u { AtOrBelowTransitive(dest.dir, q, src); }
    }
    RegularWithParents(s, v);
  }

  /** Directories that were visible already keep the stack regular. */
  lemma RegularWithParents(s: Stack, v: Layer)
    requires Regular(s) && Inv(s.(upper := v))
    requires forall q :: q in v && q in s.upper ==> v[q] == s.upper[q]
    requires forall q :: q in v && q !in s.upper ==> v[q] == Dir && Named(q) && View(s, q) == Some(Dir)
    ensures Regular(s.(upper := v))
  {
    forall d
      ensures OpaqueMarker(d) !in v
    {
      OpaqueNotOrdinary(d);
    }
    forall k | 0 <= k < |s.lowers|
      ensures Agree(v, s.lowers[k])
    {
      assert Agree(s.upper, s.lowers[k]);
      forall q | q in v && q in s.lowers[k] && Named(q)
        ensures v[q] == Dir <==> s.lowers[k][q] == Dir
      {
        if q !in s.upper { DirEverywhere(s, q); }
      }
    }
  }

  /** A copy into a prepared place starts with nothing to prepare. */
  lemma CopyFromPrepared(s: Stack, src: Path, dest: Path, stack: nat)
    requires stack > 0
    requires var t := Prepare(s.upper, dest); t.status == Done && Prepare(t.upper, dest) == t
    ensures CopyDir(s, src, dest, stack) == CopyDir(s.(upper := Prepare(s.upper, dest).upper), src, dest, stack)
  {
  }

  // ── The move ──────────────────────────────────────────────────────────────

  lemma CopyPart(s: Stack, src: Path, dest: Path, stack: nat)
    requires CanMove(s, src, dest) && FitsStack(s, src, stack)
    ensures var t := CopyDir(s, src, dest, stack); var m := s.(upper := t.upper);
      && t.status == Done && Regular(m) && Copied(s, src, dest, t.upper)
      && SameViewOff(s, m, dest) && FitsStack(m, src, stack)
  {
    hide Regular, Copied, ReadDir, Reach;
    PrepareDest(s, src, dest);
    var m := s.(upper := Prepare(s.upper, dest).upper);
    PrepareFree(m, dest);
    HeldFits(s, src, stack);
    CopyFromPrepared(s, src, dest, stack);
    if AtOrBelow(src, dest) { AtOrBelowDepth(src, dest); }
    assert AtOrBelow(dest, dest) && src != dest;
    CopyDirTree(m, src, dest, stack);
    var v := CopyDir(m, src, dest, stack).upper;
    CopyLeavesRest(s, m, src, dest, stack, v);
  }

  lemma CopyLeavesRest(s: Stack, m: Stack, src: Path, dest: Path, stack: nat, v: Layer)
    requires CanMove(s, src, dest) && FitsStack(s, src, stack) && m.lowers == s.lowers
    requires Regular(m) && Free(m, dest) && SameViewBut(s, m, dest)
    requires forall q :: q in m.upper && AtOrBelow(q, src) ==> q in s.upper
    requires WellFormed(v) && SameOff(m.upper, v, dest) && Copied(m, src, dest, v)
    ensures var t := s.(upper := v);
      Regular(t) && Copied(s, src, dest, v) && SameViewOff(s, t, dest) && FitsStack(t, src, stack)
  {
    hide Reach;
    CopiedOrdinary(m, src, dest, v);
    RegularAfter(m, v, dest);
    forall x | Named(x) && !AtOrBelow(x, dest)
      ensures View(s.(upper := v), x) == View(s, x)
    {
      assert x != dest;
      ViewOff(m, v, x, dest);
      assert m.(upper := v) == s.(upper := v);
    }
    forall x | Named(x) && AtOrBelow(x, src)
      ensures View(m, x) == View(s, x)
    {
      NotBelowOther(x, src, dest);
      assert AtOrBelow(dest, dest);
    }
    CopiedSame(s, m, src, dest, v);
    forall q | q in v && AtOrBelow(q, src)
      ensures q in s.upper
    {
      NotBelowOther(q, src, dest);
    }
  }

  /** What a whole copied tree at a place no lower knows looks like. */
  lemma CopiedIsSeen(s: Stack, src: Path, dest: Path, t: Stack)
    requires Named(src) && Named(dest) && View(s, src) == Some(Dir)
    requires Inv(t) && NoOpaque(t.upper) && !InSomeLower(t.lowers, dest)
    requires Copied(s, src, dest, t.upper)
    ensures SameTree(s, src, t, dest)
  {
    forall rel
      ensures Ordinary(rel) ==> View(t, Graft(dest, rel)) == if Reach(s, src, rel) then View(s, Graft(src, rel)) else None
    {
      if Ordinary(rel) {
        var q := Graft(dest, rel);
        GraftOrdinary(dest, rel);
        GraftBelow(dest, rel);
        if q !in t.upper {
          forall k | 0 <= k < |t.lowers|
            ensures q !in t.lowers[k]
          {
            NotInLowersBelow(t, dest, q, k);
          }
          NotInLowers(t.lowers, q);
        }
      }
    }
    forall rel
      ensures Reach(t, dest, rel) == Reach(s, src, rel)
    {
      SameReach(s, src, t, dest, rel);
    }
  }

  lemma {:induction false} SameReach(s: Stack, src: Path, t: Stack, dest: Path, rel: Path)
    requires forall r :: Ordinary(r) ==>
               View(t, Graft(dest, r)) == if Reach(s, src, r) then View(s, Graft(src, r)) else None
    ensures Reach(t, dest, rel) == Reach(s, src, rel)
    ensures Reach(s, src, rel) ==> Ordinary(rel)
  {
    if rel.Child? {
      SameReach(s, src, t, dest, rel.dir);
      if Reach(s, src, rel.dir) && !IsMarker(rel.name) {
        assert Ordinary(rel);
      }
    }
  }

  /**
   `move_dir` preserves the tree. With enough stack it succeeds; then the destination shows
   exactly the subtree listing reached at the source, with the same types and bytes; the source
   is gone and the upper holds nothing at or below it; every other ordinary path is as before.
   */
  lemma MoveDirPreservesTree(s: Stack, src: Path, dest: Path, stack: nat)
    requires CanMove(s, src, dest) && FitsStack(s, src, stack)
    ensures var r := MoveDir(s, src, dest, stack); var s' := s.(upper := r.upper);
      && r.status == Done
      && SameTree(s, src, s', dest)
      && View(s', src) == None
      && (forall q :: AtOrBelow(q, src) ==> q !in s'.upper)
      && (forall x :: Named(x) && !AtOrBelow(x, src) && !AtOrBelow(x, dest) ==> View(s', x) == View(s, x))
      && Regular(s')
  {
    hide Regular, Copied, FitsStack, Reach;
    CopyPart(s, src, dest, stack);
    var m := s.(upper := CopyDir(s, src, dest, stack).upper);
    assert !AtOrBelow(src.dir, dest) && !AtOrBelow(src, dest);
    VisibleOff(s, m, src.dir, dest);
    RemoveTreeDone(m, src, stack);
    var z := RemoveTree(m, src, stack).upper;
    TreeSurvives(s, m, src, dest, z);
  }

  lemma TreeSurvives(s: Stack, m: Stack, src: Path, dest: Path, z: Layer)
    requires CanMove(s, src, dest) && m.lowers == s.lowers
    requires Copied(s, src, dest, m.upper) && Cleared(m.upper, z, src) && Regular(m.(upper := z))
    ensures SameTree(s, src, s.(upper := z), dest)
  {
    hide Reach;
    forall q | AtOrBelow(q, dest)
      ensures (q in z <==> q in m.upper) && (q in z ==> z[q] == m.upper[q])
    {
      NotBelowOther(q, dest, src);
      if AtOrBelow(src.dir, q) {
        AtOrBelowTransitive(src.dir, q, dest);
      }
      if AtOrBelow(WhPath(src), dest) {
        WhPathFacts(src, src);
      }
    }
    CopiedOff(s, src, dest, m.upper, z);
    CopiedIsSeen(s, src, dest, s.(upper := z));
  }

  /** Some call stack is deep enough, so the recursion ends. */
  lemma MoveDirTerminates(s: Stack, src: Path, dest: Path) returns (stack: nat)
    requires CanMove(s, src, dest)
    ensures FitsStack(s, src, stack) && MoveDir(s, src, dest, stack).status == Done
  {
    stack := SomeStackFits(s, src);
    MoveDirPreservesTree(s, src, dest, stack);
  }
}
