/**
 What each write leaves in the upper and when it succeeds, said outright: which entries are there
 afterwards and with what content. The upper need only be a tree; nothing is assumed of the lowers.
 */
module UpperEffects {
  import opened Base
  import opened Paths
  import opened Layers
  import opened Overlay

  // ── Parents ───────────────────────────────────────────────────────────────

  /** A directory that `p` needs is a file in the upper. */
  ghost predicate FileAbove(u: Layer, p: Path) {
    exists a :: p.Child? && AtOrBelow(p.dir, a) && a in u && u[a].File?
  }

  /** `v` is `u` with the missing directories at and above `d`. */
  ghost predicate DirsMade(u: Layer, v: Layer, d: Path) {
    forall q ::
      && (q in v <==> q in u || AtOrBelow(d, q))
      && (q in v ==> v[q] == if q in u then u[q] else Dir)
  }

  lemma {:induction false} EnsureDirIs(u: Layer, d: Path)
    requires WellFormed(u)
    ensures var t := EnsureDir(u, d);
      && (t.status == Done <==> !FileAbove(u, d))
      && (FileAbove(u, d) ==> t.upper == u)
      && (!FileAbove(u, d) ==> DirsMade(u, t.upper, d))
  {
    if d.Child? {
      EnsureDirIs(u, d.dir);
      AboveStep(u, d);
      var t := EnsureDir(u, d.dir);
      if FileAbove(u, d) && !FileAbove(u, d.dir) {
        assert d.dir in u && u[d.dir].File?;
        assert d !in u;
        HeldHasDirs(u, t.upper, d.dir);
      } else if !FileAbove(u, d) {
        NotBelowParent(d);
      }
    }
  }

  lemma AboveStep(u: Layer, d: Path)
    requires d.Child?
    ensures FileAbove(u, d) <==> (d.dir in u && u[d.dir].File?) || FileAbove(u, d.dir)
  {
    if d.dir in u && u[d.dir].File? {
      assert AtOrBelow(d.dir, d.dir);
    }
    if FileAbove(u, d.dir) {
      var a :| d.dir.Child? && AtOrBelow(d.dir.dir, a) && a in u && u[a].File?;
      assert AtOrBelow(d.dir, a);
    }
  }

  lemma NotBelowParent(d: Path)
    requires d.Child?
    ensures !AtOrBelow(d.dir, d)
  {
    if AtOrBelow(d.dir, d) { AtOrBelowDepth(d.dir, d); }
  }

  /** Everything above what the layer holds is there already. */
  lemma HeldHasDirs(u: Layer, v: Layer, d: Path)
    requires WellFormed(u) && d in u && DirsMade(u, v, d)
    ensures v == u
  {
    forall q | AtOrBelow(d, q)
      ensures q in u
    {
      AncestorsAreDirs(u, d, q);
    }
    assert forall q :: q in v <==> q in u;
  }

  lemma EnsureParentsIs(u: Layer, p: Path)
    requires WellFormed(u) && p.Child?
    ensures var t := EnsureParents(u, p);
      && (FileAbove(u, p) ==> t.upper == u && (t.status == Done ==> p.dir in u && u[p.dir].File?))
      && (!FileAbove(u, p) ==> t.status == Done && DirsMade(u, t.upper, p.dir) && IsDir(t.upper, p.dir))
      && (p in t.upper <==> p in u) && (WhPath(p) in t.upper <==> WhPath(p) in u)
      && (p in u || WhPath(p) in u ==> t == Step(u, Done))
  {
    EnsureDirIs(u, p.dir);
    AboveStep(u, p);
    NotBelowParent(p);
    NotBelowParent(WhPath(p));
    var t := EnsureParents(u, p);
    if p.dir in u {
      if FileAbove(u, p.dir) {
        var a :| p.dir.Child? && AtOrBelow(p.dir.dir, a) && a in u && u[a].File?;
        AncestorsAreDirs(u, p.dir, a);
        AtOrBelowDepth(p.dir.dir, a);
      }
      HeldHasDirs(u, t.upper, p.dir);
    }
  }

  /** Beside something the layer holds nothing is in the way above. */
  lemma HeldHasNoFileAbove(u: Layer, p: Path)
    requires WellFormed(u) && p.Child? && (p in u || WhPath(p) in u)
    ensures !FileAbove(u, p) && DirsMade(u, u, p.dir)
  {
    forall a | AtOrBelow(p.dir, a)
      ensures a in u && u[a] == Dir
    {
      var held := if p in u then p else WhPath(p);
      assert held.dir == p.dir;
      NotBelowParent(held);
      AncestorsAreDirs(u, held, a);
    }
  }

  // ── Creating ──────────────────────────────────────────────────────────────

  predicate IsFile(u: Layer, p: Path) {
    p in u && u[p].File?
  }

  /** `v` is `u` with the parents of `p`, without its whiteout, and with `node` at `p`. */
  ghost predicate Created(u: Layer, v: Layer, p: Path, node: Node) {
    forall q ::
      && (q in v <==> q == p || (q != WhPath(p) && (q in u || Above(q, p))))
      && (q in v ==> v[q] == if q == p then node else if q in u then u[q] else Dir)
  }

  /** What making room leaves when the creation then fails. */
  function RoomMade(u: Layer, p: Path): Layer {
    if p in u && IsFile(u, WhPath(p)) then u - {WhPath(p)} else u
  }

  lemma CreateFileIs(u: Layer, p: Path, data: Bytes)
    requires WellFormed(u) && p.Child?
    ensures var t := CreateFile(u, p, data);
      && (t.status == Done <==> !FileAbove(u, p) && !IsDir(u, p) && !IsDir(u, WhPath(p)))
      && (if t.status == Done then Created(u, t.upper, p, File(data)) else t.upper == RoomMade(u, p))
  {
    EnsureParentsIs(u, p);
    NotItsOwnWhiteout(p);
    if p in u || WhPath(p) in u { HeldHasNoFileAbove(u, p); }
  }

  lemma CreateDirIs(u: Layer, p: Path)
    requires WellFormed(u) && p.Child?
    ensures var t := CreateDir(u, p);
      && (t.status == Done <==> !FileAbove(u, p) && p !in u && !IsDir(u, WhPath(p)))
      && (if t.status == Done then Created(u, t.upper, p, Dir) else t.upper == RoomMade(u, p))
  {
    EnsureParentsIs(u, p);
    NotItsOwnWhiteout(p);
    if p in u || WhPath(p) in u { HeldHasNoFileAbove(u, p); }
  }

  // ── Copying up and appending ──────────────────────────────────────────────

  /** `v` is `u` with the parents of `p` and with `node` at `p`. */
  ghost predicate Put(u: Layer, v: Layer, p: Path, node: Node) {
    forall q ::
      && (q in v <==> q == p || q in u || Above(q, p))
      && (q in v ==> v[q] == if q == p then node else if q in u then u[q] else Dir)
  }

  lemma CopyUpIs(s: Stack, p: Path)
    requires WellFormed(s.upper) && p.Child?
    ensures var t, node := CopyUp(s, p), View(s, p);
      && (t.status == Done <==> node.Some? && !FileAbove(s.upper, p) && !IsDir(s.upper, p) && (p in s.upper ==> node.value.File?))
      && (if t.status == Done then Put(s.upper, t.upper, p, node.value) else t.upper == s.upper)
  {
    EnsureParentsIs(s.upper, p);
    if p in s.upper { HeldHasNoFileAbove(s.upper, p); }
  }

  /** A visible directory is copied up before the append to it fails. */
  lemma AppendFileIs(s: Stack, p: Path, data: Bytes)
    requires WellFormed(s.upper) && p.Child?
    ensures var u, t, node := s.upper, AppendFile(s, p, data), View(s, p);
      && (t.status == Done <==> IsFile(u, p) || (p !in u && node.Some? && node.value.File? && !FileAbove(u, p)))
      && (t.status == Done ==> Put(u, t.upper, p, File((if p in u then u[p].data else node.value.data) + data)))
      && (t.status == Failed ==>
            if p !in u && node == Some(Dir) && !FileAbove(u, p) then Put(u, t.upper, p, Dir) else t.upper == u)
  {
    CopyUpIs(s, p);
    if p in s.upper { HeldHasNoFileAbove(s.upper, p); }
  }

  // ── Removing ──────────────────────────────────────────────────────────────

  /** `v` is `u` without `p`; if `marked`, with its whiteout and the directories above. */
  ghost predicate Gone(u: Layer, v: Layer, p: Path, marked: bool) {
    forall q ::
      && (q in v <==> q != p && (q in u || (marked && (q == WhPath(p) || Above(q, p)))))
      && (q in v ==> v[q] == if q in u then u[q] else if q == WhPath(p) then File([]) else Dir)
  }

  lemma HideLowerIs(lowers: seq<Layer>, u: Layer, p: Path)
    requires WellFormed(u) && p.Child? && p !in u
    ensures var t := HideLower(lowers, u, p);
      && (t.status == Done <==> !(InSomeLower(lowers, p) && FileAbove(u, p)))
      && (if t.status == Done then Gone(u, t.upper, p, InSomeLower(lowers, p)) else t.upper == u)
  {
    EnsureParentsIs(u, p);
    NotItsOwnWhiteout(p);
    NotBelowParent(WhPath(p));
    NotBelowParent(p);
    assert EnsureParents(u, WhPath(p)) == EnsureParents(u, p);
    if WhPath(p) in u { HeldHasNoFileAbove(u, p); }
  }

  /** Taking out an entry leaves what is above and beside it. */
  lemma WithoutEntry(u: Layer, p: Path)
    requires WellFormed(u) && p.Child?
    ensures FileAbove(u - {p}, p) == FileAbove(u, p) && WhPath(p) != p
  {
    NotItsOwnWhiteout(p);
    NotBelowParent(p);
    if FileAbove(u, p) {
      var a :| AtOrBelow(p.dir, a) && a in u && u[a].File?;
      assert a in u - {p};
    }
  }

  lemma GoneAfter(u: Layer, v: Layer, p: Path, h: bool)
    requires p.Child? && Gone(u - {p}, v, p, h)
    ensures Gone(u, v, p, h)
  {
    forall q
      ensures q in v <==> q != p && (q in u || (h && (q == WhPath(p) || Above(q, p))))
      ensures q in v ==> v[q] == if q in u then u[q] else if q == WhPath(p) then File([]) else Dir
    {
      assert q != p ==> (q in u <==> q in u - {p});
    }
  }

  lemma RemoveFileIs(s: Stack, p: Path)
    requires WellFormed(s.upper) && p.Child?
    ensures var u, t, below := s.upper, RemoveFile(s, p), InSomeLower(s.lowers, p);
      && (t.status == Done <==> !IsDir(u, p) && !(below && FileAbove(u, p)))
      && (if t.status == Done then Gone(u, t.upper, p, below) else t.upper == u)
  {
    StepsKeepWellFormed(s.upper, p, []);
    assert p !in s.upper ==> s.upper - {p} == s.upper;
    RemovalIs(s, p, RemoveFile(s, p), IsFile(s.upper, p));
  }

  lemma RemoveDirIs(s: Stack, p: Path)
    requires WellFormed(s.upper) && p.Child?
    ensures var u, t, below := s.upper, RemoveDir(s, p), InSomeLower(s.lowers, p);
      && (t.status == Done <==> (p in u ==> u[p] == Dir && forall n :: Child(p, n) !in u) && !(below && FileAbove(u, p)))
      && (if t.status == Done then Gone(u, t.upper, p, below) else t.upper == u)
  {
    forall n
      ensures n in Names(s.upper, p) <==> Child(p, n) in s.upper
    {
      NamesAre(s.upper, p, n);
    }
    StepsKeepWellFormed(s.upper, p, []);
    assert p !in s.upper ==> s.upper - {p} == s.upper;
    RemovalIs(s, p, RemoveDir(s, p), IsDir(s.upper, p) && Names(s.upper, p) == {});
  }

  /** Both removals: the upper's entry goes if it may, then the lowers' entry is hidden. */
  lemma RemovalIs(s: Stack, p: Path, t: Step, mayGo: bool)
    requires WellFormed(s.upper) && p.Child?
    requires mayGo ==> p in s.upper && WellFormed(s.upper - {p})
    requires t == if p in s.upper && !mayGo then Step(s.upper, Failed) else HideLower(s.lowers, s.upper - {p}, p)
    ensures var u, below := s.upper, InSomeLower(s.lowers, p);
      && (t.status == Done <==> (p in u ==> mayGo) && !(below && FileAbove(u, p)))
      && (if t.status == Done then Gone(u, t.upper, p, below) else t.upper == u)
  {
    var u := s.upper;
    WithoutEntry(u, p);
    if p !in u {
      assert u - {p} == u;
    }
    if p in u ==> mayGo {
      HideLowerIs(s.lowers, u - {p}, p);
      if t.status == Done {
        GoneAfter(u, t.upper, p, InSomeLower(s.lowers, p));
      } else if p in u {
        HeldHasNoFileAbove(u, p);
      }
    }
  }

  // ── Copying and moving ────────────────────────────────────────────────────

  /** A file can be created at `p`. */
  ghost predicate CanCreate(u: Layer, p: Path) {
    !FileAbove(u, p) && !IsDir(u, p) && !IsDir(u, WhPath(p))
  }

  predicate SeesFile(s: Stack, p: Path) {
    View(s, p).Some? && View(s, p).value.File?
  }

  lemma CopyFileIs(s: Stack, src: Path, dest: Path)
    requires WellFormed(s.upper) && dest.Child?
    ensures var t := CopyFile(s, src, dest);
      && (t.status == Done <==> SeesFile(s, src) && CanCreate(s.upper, dest))
      && (if t.status == Done then Created(s.upper, t.upper, dest, View(s, src).value)
          else t.upper == if SeesFile(s, src) then RoomMade(s.upper, dest) else s.upper)
  {
    if SeesFile(s, src) { CreateFileIs(s.upper, dest, View(s, src).value.data); }
  }

  /**
   A move succeeds exactly when its copy does, its source has not just become a directory above the
   copy, and the whiteout of a lower's source has room, which the copy itself may take.
   */
  lemma MoveFileIs(s: Stack, src: Path, dest: Path)
    requires WellFormed(s.upper) && src.Child? && dest.Child?
    ensures MoveFile(s, src, dest).status == Done <==>
              && SeesFile(s, src) && CanCreate(s.upper, dest) && !Above(src, dest)
              && !(InSomeLower(s.lowers, src) && (FileAbove(s.upper - {WhPath(dest)}, src) || Above(dest, src)))
  {
    var u, t := s.upper, CopyFile(s, src, dest);
    CopyFileIs(s, src, dest);
    if t.status == Done {
      CreatedWellFormed(u, t.upper, dest, View(s, src).value);
      RemoveFileIs(s.(upper := t.upper), src);
      SourceAfterCopy(s, t.upper, src, dest);
    }
  }

  lemma CreatedWellFormed(u: Layer, v: Layer, p: Path, node: Node)
    requires WellFormed(u) && p.Child? && Created(u, v, p, node) && node.File? && CanCreate(u, p)
    ensures WellFormed(v)
  {
    RootAboveAll(p.dir);
    NotItsOwnWhiteout(p);
    forall q | q in v && q.Child?
      ensures q.dir in v && v[q.dir] == Dir
    {
      ParentStays(u, v, p, node, q);
    }
  }

  lemma ParentStays(u: Layer, v: Layer, p: Path, node: Node, q: Path)
    requires WellFormed(u) && p.Child? && Created(u, v, p, node) && CanCreate(u, p) && q in v && q.Child?
    ensures q.dir in v && v[q.dir] == Dir
  {
    var d := q.dir;
    NotBelowParent(p);
    if q in u && q != p {
      assert d in u && u[d] == Dir;
      assert d != p && d != WhPath(p);
    } else {
      assert q == p || AtOrBelow(p.dir, q);
      AboveParent(p, q);
      assert AtOrBelow(p.dir, d);
      assert d in u ==> u[d] == Dir;
      if d == WhPath(p) { NotBelowParent(WhPath(p)); }
      assert d != p;
    }
  }

  lemma {:induction false} AboveParent(p: Path, q: Path)
    requires p.Child? && q.Child? && (q == p || AtOrBelow(p.dir, q))
    ensures AtOrBelow(p.dir, q.dir)
  {
    if q != p && q != p.dir { AboveParent(p.dir, q); }
    if q == p.dir { assert AtOrBelow(p.dir, q.dir); }
  }

  /** What stands in the way of removing the source, once the copy is there. */
  lemma SourceAfterCopy(s: Stack, v: Layer, src: Path, dest: Path)
    requires WellFormed(s.upper) && src.Child? && dest.Child? && SeesFile(s, src) && CanCreate(s.upper, dest)
    requires Created(s.upper, v, dest, View(s, src).value)
    ensures IsDir(v, src) <==> Above(src, dest)
    ensures !Above(src, dest) && InSomeLower(s.lowers, src) ==>
              (FileAbove(v, src) <==> FileAbove(s.upper - {WhPath(dest)}, src) || Above(dest, src))
  {
    var u := s.upper;
    NotBelowParent(dest);
    NotBelowParent(WhPath(dest));
    NotItsOwnWhiteout(dest);
    assert src in u ==> u[src].File? by {
      if src in u { assert View(s, src) == Some(u[src]); }
    }
    if FileAbove(v, src) {
      var a :| AtOrBelow(src.dir, a) && a in v && v[a].File?;
      if a != dest { assert a in u - {WhPath(dest)} && u[a].File?; }
    }
    if FileAbove(u - {WhPath(dest)}, src) {
      var a :| AtOrBelow(src.dir, a) && a in u - {WhPath(dest)} && u[a].File?;
      assert a in v && v[a].File?;
    }
    if Above(dest, src) {
      assert dest in v && v[dest].File?;
    }
  }
}
