/**
 The merged view of one upper layer over a stack of lower layers (crates/rspacefs-core/src/layer.rs):
 which layer a path resolves to, what is seen there, and what each write does to the upper.
 A write that fails half way keeps the steps it has made.
 */
module Overlay {
  import opened Base
  import opened Paths
  import opened Layers

  datatype Stack = Stack(upper: Layer, lowers: seq<Layer>)

  // ── Lookup ────────────────────────────────────────────────────────────────

  /** An opaque marker in `d` or in one of its ancestors. */
  predicate OpaqueFrom(l: Layer, d: Path) {
    OpaqueMarker(d) in l || (d.Child? && OpaqueFrom(l, d.dir))
  }

  /** `is_opaque_above`: the walk starts at the parent; the root counts as its own parent. */
  predicate OpaqueAbove(l: Layer, p: Path) {
    OpaqueFrom(l, if p.Child? then p.dir else Root)
  }

  predicate WhitedOut(l: Layer, p: Path) {
    WhPath(p) in l
  }

  /** The cached probe of a lower layer, which leaves the opaque marker out of its name set. */
  predicate LowerWhitedOut(l: Layer, p: Path) {
    WhPath(p).name != OPAQUE_WHITEOUT && WhPath(p) in l
  }

  function ResolveLowers(lowers: seq<Layer>, p: Path): Option<nat> {
    if lowers == [] then None
    else if LowerWhitedOut(lowers[0], p) then None
    else if p in lowers[0] then Some(0)
    else if OpaqueAbove(lowers[0], p) then None
    else match ResolveLowers(lowers[1..], p)
      case None => None
      case Some(k) => Some(k + 1)
  }

  /** `resolve`: the index of the layer that answers for `p`, the upper being 0. */
  function Resolve(s: Stack, p: Path): Option<nat> {
    if WhitedOut(s.upper, p) then None
    else if p in s.upper then Some(0)
    else if OpaqueAbove(s.upper, p) then None
    else match ResolveLowers(s.lowers, p)
      case None => None
      case Some(k) => Some(k + 1)
  }

  function LayerAt(s: Stack, k: nat): Layer
    requires k <= |s.lowers|
  {
    if k == 0 then s.upper else s.lowers[k - 1]
  }

  /** What is seen at a path: nothing, a directory, or a file's bytes. */
  function ViewLowers(lowers: seq<Layer>, p: Path): Option<Node> {
    if lowers == [] then None
    else if LowerWhitedOut(lowers[0], p) then None
    else if p in lowers[0] then Some(lowers[0][p])
    else if OpaqueAbove(lowers[0], p) then None
    else ViewLowers(lowers[1..], p)
  }

  function View(s: Stack, p: Path): Option<Node> {
    if WhitedOut(s.upper, p) then None
    else if p in s.upper then Some(s.upper[p])
    else if OpaqueAbove(s.upper, p) then None
    else ViewLowers(s.lowers, p)
  }

  lemma {:induction false} ResolveLowersView(lowers: seq<Layer>, p: Path)
    ensures match ResolveLowers(lowers, p)
      case None => ViewLowers(lowers, p) == None
      case Some(k) => k < |lowers| && p in lowers[k] && ViewLowers(lowers, p) == Some(lowers[k][p])
    decreases |lowers|
  {
    if lowers != [] { ResolveLowersView(lowers[1..], p); }
  }

  /** The view is the entry of the layer that `resolve` names. */
  lemma ResolveIsView(s: Stack, p: Path)
    ensures match Resolve(s, p)
      case None => View(s, p) == None
      case Some(k) => k <= |s.lowers| && p in LayerAt(s, k) && View(s, p) == Some(LayerAt(s, k)[p])
  {
    ResolveLowersView(s.lowers, p);
  }

  // ── Lookup, without the walk ──────────────────────────────────────────────

  /** `a` lies strictly above `p`; the root's parent is the root. */
  predicate Above(a: Path, p: Path) {
    if p.Child? then AtOrBelow(p.dir, a) else a == Root
  }

  /** Some directory strictly above `p` holds the opaque marker. */
  ghost predicate MarkerAbove(l: Layer, p: Path) {
    exists a :: Above(a, p) && Child(a, OPAQUE_WHITEOUT) in l
  }

  /** The walk upwards finds a marker exactly when the directory or one of its ancestors holds it. */
  lemma {:induction false} OpaqueFromIff(l: Layer, d: Path)
    ensures OpaqueFrom(l, d) <==> exists a :: AtOrBelow(d, a) && Child(a, OPAQUE_WHITEOUT) in l
  {
    if d.Child? {
      OpaqueFromIff(l, d.dir);
      if OpaqueFrom(l, d.dir) {
        var a :| AtOrBelow(d.dir, a) && Child(a, OPAQUE_WHITEOUT) in l;
        assert AtOrBelow(d, a);
      }
    }
    assert AtOrBelow(d, d);
  }

  lemma OpaqueAboveIff(l: Layer, p: Path)
    ensures OpaqueAbove(l, p) <==> MarkerAbove(l, p)
  {
    OpaqueFromIff(l, if p.Child? then p.dir else Root);
  }

  /** The whiteout of `p` in layer k, as lookup asks for it: in a lower, the opaque marker's name does not count. */
  predicate HiddenIn(s: Stack, k: nat, p: Path)
    requires k <= |s.lowers|
  {
    WhPath(p) in LayerAt(s, k) && (k == 0 || WhPath(p).name != OPAQUE_WHITEOUT)
  }

  /** Layer k is the first that holds `p`; neither it nor any above hides `p`, and none above is opaque over it. */
  ghost predicate Answers(s: Stack, p: Path, k: nat) {
    && k <= |s.lowers| && p in LayerAt(s, k)
    && (forall j: nat :: j <= k ==> !HiddenIn(s, j, p))
    && (forall j: nat :: j < k ==> p !in LayerAt(s, j) && !MarkerAbove(LayerAt(s, j), p))
  }

  ghost predicate AnswersBelow(lowers: seq<Layer>, p: Path, k: nat) {
    && k < |lowers| && p in lowers[k]
    && (forall j: nat :: j <= k ==> !LowerWhitedOut(lowers[j], p))
    && (forall j: nat :: j < k ==> p !in lowers[j] && !MarkerAbove(lowers[j], p))
  }

  lemma {:induction false} ResolveLowersIff(lowers: seq<Layer>, p: Path, k: nat)
    ensures ResolveLowers(lowers, p) == Some(k) <==> AnswersBelow(lowers, p, k)
    decreases |lowers|
  {
    hide MarkerAbove, OpaqueAbove;
    if lowers != [] {
      OpaqueAboveIff(lowers[0], p);
      if k > 0 {
        ResolveLowersIff(lowers[1..], p, k - 1);
        BelowStep(lowers, p, k);
      }
    }
  }

  lemma BelowStep(lowers: seq<Layer>, p: Path, k: nat)
    requires lowers != [] && k > 0
    ensures AnswersBelow(lowers, p, k) <==>
              !LowerWhitedOut(lowers[0], p) && p !in lowers[0] && !MarkerAbove(lowers[0], p) && AnswersBelow(lowers[1..], p, k - 1)
  {
    hide MarkerAbove, LowerWhitedOut;
    var tail := lowers[1..];
    if AnswersBelow(tail, p, k - 1) && !LowerWhitedOut(lowers[0], p) && p !in lowers[0] && !MarkerAbove(lowers[0], p) {
      forall j: nat | j <= k
        ensures !LowerWhitedOut(lowers[j], p)
        ensures j < k ==> p !in lowers[j] && !MarkerAbove(lowers[j], p)
      {
        if j > 0 { assert lowers[j] == tail[j - 1]; }
      }
    }
    if AnswersBelow(lowers, p, k) {
      forall j: nat | j <= k - 1
        ensures !LowerWhitedOut(tail[j], p)
        ensures j < k - 1 ==> p !in tail[j] && !MarkerAbove(tail[j], p)
      {
        assert tail[j] == lowers[j + 1];
      }
    }
  }

  /** `resolve` selects layer k exactly when that layer answers. */
  lemma ResolveIff(s: Stack, p: Path, k: nat)
    ensures Resolve(s, p) == Some(k) <==> Answers(s, p, k)
  {
    hide MarkerAbove, OpaqueAbove, OpaqueFrom;
    OpaqueAboveIff(s.upper, p);
    if k > 0 {
      ResolveLowersIff(s.lowers, p, k - 1);
      AnswersStep(s, p, k);
    } else {
      AnswersFirst(s, p);
    }
  }

  lemma AnswersFirst(s: Stack, p: Path)
    ensures Answers(s, p, 0) <==> WhPath(p) !in s.upper && p in s.upper
  {
    hide MarkerAbove;
    assert HiddenIn(s, 0, p) <==> WhPath(p) in s.upper;
  }

  lemma AnswersStep(s: Stack, p: Path, k: nat)
    requires k > 0
    ensures Answers(s, p, k) <==>
              WhPath(p) !in s.upper && p !in s.upper && !MarkerAbove(s.upper, p) && AnswersBelow(s.lowers, p, k - 1)
  {
    hide MarkerAbove;
    if AnswersBelow(s.lowers, p, k - 1) && WhPath(p) !in s.upper && p !in s.upper && !MarkerAbove(s.upper, p) {
      forall j: nat | j <= k
        ensures !HiddenIn(s, j, p)
        ensures j < k ==> p !in LayerAt(s, j) && !MarkerAbove(LayerAt(s, j), p)
      {
        if j > 0 { assert !LowerWhitedOut(s.lowers[j - 1], p); }
      }
    }
    if Answers(s, p, k) {
      assert !HiddenIn(s, 0, p) && LayerAt(s, 0) == s.upper;
      forall j: nat | j <= k - 1
        ensures !LowerWhitedOut(s.lowers[j], p)
        ensures j < k - 1 ==> p !in s.lowers[j] && !MarkerAbove(s.lowers[j], p)
      {
        assert !HiddenIn(s, j + 1, p) && LayerAt(s, j + 1) == s.lowers[j];
      }
    }
  }

  /** A layer that does not hold `p` and is opaque anywhere above it keeps every layer below from answering. */
  lemma OpaqueCutsOff(s: Stack, p: Path, j: nat, a: Path, k: nat)
    requires j <= |s.lowers| && p !in LayerAt(s, j) && Above(a, p) && Child(a, OPAQUE_WHITEOUT) in LayerAt(s, j)
    requires Resolve(s, p) == Some(k)
    ensures k < j
  {
    ResolveIff(s, p, k);
    assert MarkerAbove(LayerAt(s, j), p);
  }

  predicate InSomeLower(lowers: seq<Layer>, p: Path) {
    exists k :: 0 <= k < |lowers| && p in lowers[k]
  }

  lemma {:induction false} NotInLowers(lowers: seq<Layer>, p: Path)
    requires !InSomeLower(lowers, p)
    ensures ViewLowers(lowers, p) == None
    decreases |lowers|
  {
    if lowers != [] {
      assert p !in lowers[0];
      forall k | 0 <= k < |lowers[1..]|
        ensures p !in lowers[1..][k]
      {
        assert lowers[1..][k] == lowers[k + 1];
      }
      NotInLowers(lowers[1..], p);
    }
  }

  // ── Cached probes against direct probes ───────────────────────────────────

  /** Lookup in the lowers that probes each layer for the whiteout file itself. */
  function ResolveDirect(lowers: seq<Layer>, p: Path): Option<nat> {
    if lowers == [] then None
    else if WhitedOut(lowers[0], p) then None
    else if p in lowers[0] then Some(0)
    else if OpaqueAbove(lowers[0], p) then None
    else match ResolveDirect(lowers[1..], p)
      case None => None
      case Some(k) => Some(k + 1)
  }

  /** The first lower that decides `p` has an opaque marker next to it and also holds `p`. */
  predicate HeldBesideMarker(lowers: seq<Layer>, p: Path) {
    lowers != [] &&
    if WhitedOut(lowers[0], p) then p in lowers[0]
    else p !in lowers[0] && !OpaqueAbove(lowers[0], p) && HeldBesideMarker(lowers[1..], p)
  }

  /**
   The cached name sets answer like direct probes for every name but `.wh..opq`, whose whiteout
   is the opaque marker; for that name they differ exactly when the deciding lower holds both.
   */
  lemma {:induction false} CachedIffDirect(lowers: seq<Layer>, p: Path)
    ensures ResolveLowers(lowers, p) == ResolveDirect(lowers, p)
       <==> !(p.Child? && p.name == ".wh..opq" && HeldBesideMarker(lowers, p))
    decreases |lowers|
  {
    WhNameFacts(if p.Child? then p.name else "", "");
    if lowers != [] {
      CachedIffDirect(lowers[1..], p);
    }
  }

  /** A lower holding the file `.wh..opq` beside an opaque marker: the cached probe finds the file, the direct one does not. */
  lemma CachedDiffersFromDirect() returns (lower: Layer, p: Path)
    ensures p == Child(Root, ".wh..opq") && WellFormed(lower)
    ensures ResolveLowers([lower], p) == Some(0) && ResolveDirect([lower], p) == None
  {
    p := Child(Root, ".wh..opq");
    lower := map[Root := Dir, OpaqueMarker(Root) := File([]), p := File([])];
    WhNameFacts(p.name, "");
    CachedIffDirect([lower], p);
  }

  // ── Steps on the upper layer ──────────────────────────────────────────────

  /** Create the missing directories down to and including `d`. */
  function EnsureDir(u: Layer, d: Path): Step {
    if d.Root? then Step(u, Done)
    else
      var s := EnsureDir(u, d.dir);
      if s.status == Failed || d in s.upper then s else MakeDir(s.upper, d)
  }

  function EnsureParents(u: Layer, p: Path): Step {
    if p.Root? then Step(u, Done) else EnsureDir(u, p.dir)
  }

  function RemoveWhiteout(u: Layer, p: Path): Step {
    if WhPath(p) in u then DeleteFile(u, WhPath(p)) else Step(u, Done)
  }

  function CreateWhiteout(u: Layer, p: Path): Step {
    var s := EnsureParents(u, WhPath(p));
    if s.status == Failed || WhPath(p) in s.upper then s else WriteFile(s.upper, WhPath(p), [])
  }

  /** The opening both creating operations share. */
  function Prepare(u: Layer, p: Path): Step {
    var s := EnsureParents(u, p);
    if s.status == Failed then s else RemoveWhiteout(s.upper, p)
  }

  function CreateFile(u: Layer, p: Path, data: Bytes): Step {
    var s := Prepare(u, p);
    if s.status == Failed then s else WriteFile(s.upper, p, data)
  }

  function CreateDir(u: Layer, p: Path): Step {
    var s := Prepare(u, p);
    if s.status == Failed then s else MakeDir(s.upper, p)
  }

  function CopyUp(s: Stack, p: Path): Step {
    var source := View(s, p);
    if source == None then Step(s.upper, Failed)
    else
      var t := EnsureParents(s.upper, p);
      if t.status == Failed then t
      else match source.value
        case Dir => MakeDir(t.upper, p)
        case File(data) => WriteFile(t.upper, p, data)
  }

  function AppendFile(s: Stack, p: Path, data: Bytes): Step {
    if p in s.upper then ExtendFile(s.upper, p, data)
    else if View(s, p) == None then Step(s.upper, Failed)
    else
      var t := CopyUp(s, p);
      if t.status == Failed then t else ExtendFile(t.upper, p, data)
  }

  /** After the upper's own entry is gone, hide whatever a lower holds at the path. */
  function HideLower(lowers: seq<Layer>, u: Layer, p: Path): Step {
    if InSomeLower(lowers, p) then CreateWhiteout(u, p) else Step(u, Done)
  }

  function RemoveFile(s: Stack, p: Path): Step {
    var t := if p in s.upper then DeleteFile(s.upper, p) else Step(s.upper, Done);
    if t.status == Failed then t else HideLower(s.lowers, t.upper, p)
  }

  function RemoveDir(s: Stack, p: Path): Step {
    var t := if p in s.upper then DeleteDir(s.upper, p) else Step(s.upper, Done);
    if t.status == Failed then t else HideLower(s.lowers, t.upper, p)
  }

  function CopyFile(s: Stack, src: Path, dest: Path): Step {
    match View(s, src)
    case Some(File(data)) => CreateFile(s.upper, dest, data)
    case _ => Step(s.upper, Failed)
  }

  function MoveFile(s: Stack, src: Path, dest: Path): Step {
    var t := CopyFile(s, src, dest);
    if t.status == Failed then t else RemoveFile(s.(upper := t.upper), src)
  }
}
