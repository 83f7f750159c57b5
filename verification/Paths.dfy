/**
 Paths inside a layer, and the marker names of the OCI Image Format Specification, Image
 Layer Filesystem Changeset ("Whiteouts", "Opaque Whiteout"): `.wh.<name>` hides <name>,
 `.wh..wh..opq` hides everything below its directory that comes from lower layers.

 The program keeps a path as a string with `/` between names; here it is the list of names,
 last one outermost. SplitOfRender and RenderInjective tie the two forms together.
 */
module Paths {
  type Name = string

  datatype Path = Root | Child(dir: Path, name: Name)

  const WHITEOUT_PREFIX: Name := ".wh."
  const OPAQUE_WHITEOUT: Name := ".wh..wh..opq"

  predicate IsMarker(n: Name) {
    WHITEOUT_PREFIX <= n
  }

  function WhName(n: Name): Name {
    WHITEOUT_PREFIX + n
  }

  /** Where `is_whiteout` looks for the marker of a path; the root has the empty name. */
  function WhPath(p: Path): Path {
    match p
    case Root => Child(Root, WhName(""))
    case Child(d, n) => Child(d, WhName(n))
  }

  function OpaqueMarker(d: Path): Path {
    Child(d, OPAQUE_WHITEOUT)
  }

  /** No component is a marker name. */
  predicate Ordinary(p: Path) {
    p.Child? ==> !IsMarker(p.name) && Ordinary(p.dir)
  }

  lemma WhNameFacts(n: Name, m: Name)
    ensures IsMarker(WhName(n)) && IsMarker(OPAQUE_WHITEOUT)
    ensures WhName(n) == WhName(m) ==> n == m
    ensures WhName(n) == OPAQUE_WHITEOUT <==> n == ".wh..opq"
    ensures !IsMarker(n) ==> WhName(n) != OPAQUE_WHITEOUT
  {
    assert WhName(n)[..4] == WHITEOUT_PREFIX && WhName(n)[4..] == n && WhName(m)[4..] == m;
    assert OPAQUE_WHITEOUT == WhName(".wh..opq");
    assert WhName(".wh..opq")[4..] == ".wh..opq";
    assert IsMarker(".wh..opq");
  }

  /** Markers are never ordinary, differ from the opaque marker, and belong to one path. */
  lemma WhPathFacts(p: Path, q: Path)
    requires p.Child? && q.Child?
    ensures !Ordinary(WhPath(p))
    ensures WhPath(p) == WhPath(q) ==> p == q
    ensures Ordinary(p) ==> WhPath(p) != OpaqueMarker(q.dir)
  {
    WhNameFacts(p.name, q.name);
  }

  lemma NotItsOwnWhiteout(p: Path)
    ensures WhPath(p) != p
  {
    var n := if p.Child? then p.name else "";
    assert |WhName(n)| == 4 + |n|;
  }

  lemma OpaqueNotOrdinary(d: Path)
    ensures !Ordinary(OpaqueMarker(d))
  {
    WhNameFacts("", "");
  }

  // ── Ancestry ──────────────────────────────────────────────────────────────

  /** `a` is `p` or one of its ancestors. */
  predicate AtOrBelow(p: Path, a: Path) {
    p == a || (p.Child? && AtOrBelow(p.dir, a))
  }

  function Depth(p: Path): nat {
    if p == Root then 0 else 1 + Depth(p.dir)
  }

  /** The path `rel` taken relative to `base`. */
  function Graft(base: Path, rel: Path): Path {
    if rel == Root then base else Child(Graft(base, rel.dir), rel.name)
  }

  lemma {:induction false} AtOrBelowDepth(p: Path, a: Path)
    requires AtOrBelow(p, a)
    ensures Depth(a) <= Depth(p) && (p != a ==> Depth(a) < Depth(p))
  {
    if p != a { AtOrBelowDepth(p.dir, a); }
  }

  lemma {:induction false} AtOrBelowTransitive(p: Path, a: Path, b: Path)
    requires AtOrBelow(p, a) && AtOrBelow(a, b)
    ensures AtOrBelow(p, b)
  {
    if p != a { AtOrBelowTransitive(p.dir, a, b); }
  }

  /** Two ancestors of one path are comparable. */
  lemma {:induction false} AncestorsNest(p: Path, a: Path, b: Path)
    requires AtOrBelow(p, a) && AtOrBelow(p, b)
    ensures AtOrBelow(a, b) || AtOrBelow(b, a)
  {
    if p != a && p != b { AncestorsNest(p.dir, a, b); }
  }

  lemma {:induction false} AncestorOrdinary(p: Path, a: Path)
    requires Ordinary(p) && AtOrBelow(p, a)
    ensures Ordinary(a)
  {
    if p != a { AncestorOrdinary(p.dir, a); }
  }

  lemma {:induction false} RootAboveAll(p: Path)
    ensures AtOrBelow(p, Root)
  {
    if p.Child? { RootAboveAll(p.dir); }
  }

  lemma {:induction false} GraftBelow(base: Path, rel: Path)
    ensures AtOrBelow(Graft(base, rel), base)
    ensures Depth(Graft(base, rel)) == Depth(base) + Depth(rel)
  {
    if rel.Child? { GraftBelow(base, rel.dir); }
  }

  lemma {:induction false} GraftOrdinary(base: Path, rel: Path)
    ensures Ordinary(Graft(base, rel)) <==> Ordinary(base) && Ordinary(rel)
  {
    if rel.Child? { GraftOrdinary(base, rel.dir); }
  }

  lemma {:induction false} GraftInjective(base: Path, r1: Path, r2: Path)
    requires Graft(base, r1) == Graft(base, r2)
    ensures r1 == r2
  {
    GraftBelow(base, r1);
    GraftBelow(base, r2);
    if r1.Child? && r2.Child? { GraftInjective(base, r1.dir, r2.dir); }
  }

  /** Everything below a path is a graft onto it. */
  lemma {:induction false} BelowIsGraft(p: Path, base: Path) returns (rel: Path)
    requires AtOrBelow(p, base)
    ensures p == Graft(base, rel)
  {
    if p == base {
      rel := Root;
    } else {
      var r := BelowIsGraft(p.dir, base);
      rel := Child(r, p.name);
    }
  }

  /** A graft through a child is a graft onto the child. */
  lemma {:induction false} GraftStep(base: Path, n: Name, rel: Path)
    ensures Graft(base, Graft(Child(Root, n), rel)) == Graft(Child(base, n), rel)
  {
    if rel.Child? { GraftStep(base, n, rel.dir); }
  }

  // ── The string form ───────────────────────────────────────────────────────

  /** A name is a non-empty string without a slash. */
  predicate ValidName(n: Name) {
    n != "" && '/' !in n
  }

  predicate ValidPath(p: Path) {
    p.Child? ==> ValidName(p.name) && ValidPath(p.dir)
  }

  function Render(p: Path): string {
    match p
    case Root => ""
    case Child(d, n) => if d == Root then n else Render(d) + "/" + n
  }

  /** The index of the last slash, or -1. */
  function LastSlash(s: string): int {
    if s == "" then -1
    else if s[|s| - 1] == '/' then |s| - 1
    else LastSlash(s[..|s| - 1])
  }

  lemma {:induction false} LastSlashBounds(s: string)
    ensures -1 <= LastSlash(s) < |s|
    decreases |s|
  {
    if s != "" && s[|s| - 1] != '/' { LastSlashBounds(s[..|s| - 1]); }
  }

  /** `split_path`: everything before the last slash, and everything after it. */
  function SplitPath(s: string): (string, string) {
    LastSlashBounds(s);
    var i := LastSlash(s);
    if i >= 0 then (s[..i], s[i + 1..]) else ("", s)
  }

  lemma {:induction false} LastSlashOf(prefix: string, n: string)
    requires '/' !in n
    ensures LastSlash(prefix + "/" + n) == |prefix|
    decreases |n|
  {
    var s := prefix + "/" + n;
    if n != "" {
      var m := n[..|n| - 1];
      LastSlashOf(prefix, m);
      assert s[..|s| - 1] == prefix + "/" + m;
      assert s[|s| - 1] == n[|n| - 1];
    }
  }

  lemma {:induction false} NoSlash(n: string)
    requires '/' !in n
    ensures LastSlash(n) == -1
    decreases |n|
  {
    if n != "" { NoSlash(n[..|n| - 1]); }
  }

  /** Splitting the string of a path gives the strings of its directory and its last name. */
  lemma SplitOfRender(p: Path)
    requires p.Child? && ValidPath(p)
    ensures SplitPath(Render(p)) == (Render(p.dir), p.name)
  {
    if p.dir == Root {
      NoSlash(p.name);
    } else {
      var prefix := Render(p.dir);
      LastSlashOf(prefix, p.name);
      assert Render(p) == prefix + "/" + p.name;
      assert Render(p)[..|prefix|] == prefix && Render(p)[|prefix| + 1..] == p.name;
    }
  }

  /** The string determines the path, so a map keyed by the string is a map keyed by the path. */
  lemma {:induction false} RenderInjective(p: Path, q: Path)
    requires ValidPath(p) && ValidPath(q) && Render(p) == Render(q)
    ensures p == q
  {
    if p.Child? && q.Child? {
      SplitOfRender(p);
      SplitOfRender(q);
      RenderInjective(p.dir, q.dir);
    } else if p.Child? || q.Child? {
      RenderNonEmpty(if p.Child? then p else q);
    }
  }

  lemma RenderNonEmpty(p: Path)
    requires p.Child? && ValidPath(p)
    ensures Render(p) != ""
  {
  }
}
