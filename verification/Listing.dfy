/**
 `read_dir` of layer.rs, and when it agrees with `resolve`. Listing merges names layer by layer
 and consults whiteouts and the upper's opaque marker in that one directory; lookup also
 honours opaque markers of lower layers and of directories further up.
 */
module Listing {
  import opened Base
  import opened NameOrder
  import opened Paths
  import opened Layers
  import opened Overlay
  import opened FlatView

  // ── What is listed ────────────────────────────────────────────────────────

  /** Walking down, the first lower that holds the name or its whiteout decides. */
  predicate ListedBelow(lowers: seq<Layer>, d: Path, n: Name) {
    lowers != [] &&
    if Child(d, WhName(n)) in lowers[0] then false
    else if Child(d, n) in lowers[0] then true
    else ListedBelow(lowers[1..], d, n)
  }

  predicate Listed(s: Stack, d: Path, n: Name) {
    !IsMarker(n) &&
    (Child(d, n) in s.upper ||
     (OpaqueMarker(d) !in s.upper && Child(d, WhName(n)) !in s.upper && ListedBelow(s.lowers, d, n)))
  }

  /** Some lower holds the name, and neither it nor a lower above has its whiteout. */
  ghost predicate HeldUnhidden(lowers: seq<Layer>, d: Path, n: Name) {
    exists k: nat :: k < |lowers| && Child(d, n) in lowers[k] && forall j: nat :: j <= k ==> Child(d, WhName(n)) !in lowers[j]
  }

  lemma {:induction false} ListedBelowIff(lowers: seq<Layer>, d: Path, n: Name)
    ensures ListedBelow(lowers, d, n) <==> HeldUnhidden(lowers, d, n)
    decreases |lowers|
  {
    if lowers != [] {
      var tail := lowers[1..];
      ListedBelowIff(tail, d, n);
      if Child(d, WhName(n)) !in lowers[0] {
        if HeldUnhidden(tail, d, n) {
          var k: nat :| k < |tail| && Child(d, n) in tail[k] && forall j: nat :: j <= k ==> Child(d, WhName(n)) !in tail[j];
          assert Child(d, n) in lowers[k + 1];
          assert forall j: nat :: 0 < j <= k + 1 ==> lowers[j] == tail[j - 1];
        }
        if HeldUnhidden(lowers, d, n) && Child(d, n) !in lowers[0] {
          var k: nat :| k < |lowers| && Child(d, n) in lowers[k] && forall j: nat :: j <= k ==> Child(d, WhName(n)) !in lowers[j];
          assert Child(d, n) in tail[k - 1];
          assert forall j: nat :: j <= k - 1 ==> tail[j] == lowers[j + 1];
        }
        if Child(d, n) in lowers[0] {
          assert forall j: nat :: j <= 0 ==> Child(d, WhName(n)) !in lowers[j];
        }
      }
    }
  }

  /**
   A name is listed exactly when it is ordinary and the upper holds it, or the upper neither hides it nor
   is opaque right there and some lower holds it with no whiteout of it at or above that lower.
   */
  lemma ListedIff(s: Stack, d: Path, n: Name)
    ensures Listed(s, d, n) <==>
              && !IsMarker(n)
              && (|| Child(d, n) in s.upper
                  || (Child(d, OPAQUE_WHITEOUT) !in s.upper && Child(d, WhName(n)) !in s.upper && HeldUnhidden(s.lowers, d, n)))
  {
    ListedBelowIff(s.lowers, d, n);
  }

  function LowerNames(lowers: seq<Layer>, d: Path): set<Name> {
    if lowers == [] then {} else Names(lowers[0], d) + LowerNames(lowers[1..], d)
  }

  function ListedNames(s: Stack, d: Path): set<Name> {
    set n | n in Names(s.upper, d) + LowerNames(s.lowers, d) && Listed(s, d, n)
  }

  lemma {:induction false} ListedBelowIsHeld(lowers: seq<Layer>, d: Path, n: Name)
    requires ListedBelow(lowers, d, n)
    ensures n in LowerNames(lowers, d)
    decreases |lowers|
  {
    NamesAre(lowers[0], d, n);
    if Child(d, n) !in lowers[0] { ListedBelowIsHeld(lowers[1..], d, n); }
  }

  lemma ListedNamesAre(s: Stack, d: Path, n: Name)
    ensures n in ListedNames(s, d) <==> Listed(s, d, n)
  {
    NamesAre(s.upper, d, n);
    if Listed(s, d, n) && Child(d, n) !in s.upper { ListedBelowIsHeld(s.lowers, d, n); }
  }

  /** A plain file where a directory is listed makes the backing listing fail. */
  predicate ListingFails(s: Stack, d: Path) {
    || (d in s.upper && s.upper[d].File?)
    || (OpaqueMarker(d) !in s.upper && exists k :: 0 <= k < |s.lowers| && d in s.lowers[k] && s.lowers[k][d].File?)
  }

  /** `read_dir` over clean layers: the listed names in ascending order. */
  ghost function ReadDir(s: Stack, d: Path): Option<seq<Name>> {
    if ListingFails(s, d) then None else Some(Sorted(ListedNames(s, d)))
  }

  // ── What the merging loop may list when a layer is not clean ──────────────

  /** As ListedBelow, but a name next to its own whiteout may come first. */
  predicate MaybeListedBelow(lowers: seq<Layer>, d: Path, n: Name) {
    lowers != [] &&
    (Child(d, n) in lowers[0] || (Child(d, WhName(n)) !in lowers[0] && MaybeListedBelow(lowers[1..], d, n)))
  }

  predicate MaybeListed(s: Stack, d: Path, n: Name) {
    !IsMarker(n) &&
    (Child(d, n) in s.upper ||
     (OpaqueMarker(d) !in s.upper && Child(d, WhName(n)) !in s.upper && MaybeListedBelow(s.lowers, d, n)))
  }

  /** No name of the directory lies next to its own whiteout. */
  predicate CleanAt(l: Layer, d: Path) {
    forall n :: n in Names(l, d) && !IsMarker(n) ==> Child(d, WhName(n)) !in l
  }

  lemma CleanIsCleanAt(l: Layer, d: Path)
    requires Clean(l) && Ordinary(d)
    ensures CleanAt(l, d)
  {
    forall n | n in Names(l, d) && !IsMarker(n)
      ensures Child(d, WhName(n)) !in l
    {
      NamesAre(l, d, n);
      assert WhPath(Child(d, n)) == Child(d, WhName(n));
    }
  }

  lemma {:induction false} CleanListing(lowers: seq<Layer>, d: Path, n: Name)
    requires !IsMarker(n) && forall k :: 0 <= k < |lowers| ==> CleanAt(lowers[k], d)
    ensures MaybeListedBelow(lowers, d, n) == ListedBelow(lowers, d, n)
    decreases |lowers|
  {
    if lowers != [] {
      assert CleanAt(lowers[0], d);
      NamesAre(lowers[0], d, n);
      forall k | 0 <= k < |lowers[1..]|
        ensures CleanAt(lowers[1..][k], d)
      {
        assert lowers[1..][k] == lowers[k + 1];
      }
      CleanListing(lowers[1..], d, n);
    }
  }

  // ── Listing against lookup ────────────────────────────────────────────────

  ghost predicate CleanStack(s: Stack) {
    Inv(s) && forall k :: 0 <= k < |s.lowers| ==> Clean(s.lowers[k])
  }

  /** A lower above the first holder of the child has an opaque marker at `d` or higher. */
  predicate OpaqueBefore(lowers: seq<Layer>, d: Path, n: Name) {
    lowers != [] && Child(d, n) !in lowers[0] && (OpaqueFrom(lowers[0], d) || OpaqueBefore(lowers[1..], d, n))
  }

  /** The name is listed out of a lower that lookup does not reach. */
  predicate CutOff(s: Stack, d: Path, n: Name) {
    Child(d, n) !in s.upper && (OpaqueFrom(s.upper, d) || OpaqueBefore(s.lowers, d, n))
  }

  lemma {:induction false} LowersAgree(lowers: seq<Layer>, d: Path, n: Name)
    requires forall k :: 0 <= k < |lowers| ==> Clean(lowers[k])
    requires Named(Child(d, n))
    ensures ViewLowers(lowers, Child(d, n)).Some? <==> ListedBelow(lowers, d, n) && !OpaqueBefore(lowers, d, n)
    decreases |lowers|
  {
    if lowers != [] {
      WhNameFacts(n, n);
      assert Clean(lowers[0]);
      forall k | 0 <= k < |lowers[1..]|
        ensures Clean(lowers[1..][k])
      {
        assert lowers[1..][k] == lowers[k + 1];
      }
      LowersAgree(lowers[1..], d, n);
    }
  }

  /** Over clean layers a child resolves exactly when it is listed and not cut off by an opaque marker. */
  lemma ResolvesIffListed(s: Stack, d: Path, n: Name)
    requires CleanStack(s) && Named(Child(d, n))
    ensures View(s, Child(d, n)).Some? <==> Listed(s, d, n) && !CutOff(s, d, n)
  {
    LowersAgree(s.lowers, d, n);
  }

  /** No opaque marker where only lookup would honour it. */
  predicate NoStrayOpaque(s: Stack, d: Path) {
    && (d.Child? ==> !OpaqueFrom(s.upper, d.dir))
    && forall k :: 0 <= k < |s.lowers| ==> !OpaqueFrom(s.lowers[k], d)
  }

  lemma {:induction false} NoOpaqueBefore(lowers: seq<Layer>, d: Path, n: Name)
    requires forall k :: 0 <= k < |lowers| ==> !OpaqueFrom(lowers[k], d)
    ensures !OpaqueBefore(lowers, d, n)
    decreases |lowers|
  {
    if lowers != [] {
      forall k | 0 <= k < |lowers[1..]|
        ensures !OpaqueFrom(lowers[1..][k], d)
      {
        assert lowers[1..][k] == lowers[k + 1];
      }
      NoOpaqueBefore(lowers[1..], d, n);
    }
  }

  /** Without stray opaque markers a successful listing is exactly the ordinary names that resolve, in order. */
  lemma ListingAgrees(s: Stack, d: Path)
    requires CleanStack(s) && Ordinary(d) && NoStrayOpaque(s, d) && ReadDir(s, d).Some?
    ensures StrictlySorted(ReadDir(s, d).value)
    ensures forall n :: n in ReadDir(s, d).value <==> !IsMarker(n) && View(s, Child(d, n)).Some?
  {
    var names := ReadDir(s, d).value;
    forall n
      ensures n in names <==> !IsMarker(n) && View(s, Child(d, n)).Some?
    {
      assert n in names <==> n in Elements(names);
      ListedNamesAre(s, d, n);
      if !IsMarker(n) {
        ResolvesIffListed(s, d, n);
        NoOpaqueBefore(s.lowers, d, n);
      }
    }
  }

  /** With one, a listed name need not resolve. */
  lemma ListedButNotFound() returns (s: Stack, n: Name)
    ensures CleanStack(s) && ReadDir(s, Root) == Some([n]) && View(s, Child(Root, n)) == None
  {
    n := "a";
    var p := Child(Root, n);
    var marker := OpaqueMarker(Root);
    var hiding: Layer := map[Root := Dir, marker := File([])];
    var holding: Layer := map[Root := Dir, p := File([])];
    s := Stack(EmptyLayer, [hiding, holding]);
    WhNameFacts(n, n);
    assert !IsMarker(n);
    EmptyLayerFacts(p);
    OpaqueNotOrdinary(Root);
    assert forall q :: q in hiding && q.Child? ==> !Ordinary(q);
    forall q | q in holding && q.Child? && Ordinary(q)
      ensures WhPath(q) !in holding
    {
      WhPathFacts(q, q);
    }
    assert s.lowers[1..] == [holding] && s.lowers[1..][1..] == [];
    assert Listed(s, Root, n);
    forall m
      ensures m in ListedNames(s, Root) <==> m == n
    {
      ListedNamesAre(s, Root, m);
      WhNameFacts(m, n);
      assert !ListedBelow(s.lowers[1..][1..], Root, m);
      assert ListedBelow(s.lowers[1..], Root, m) ==> m == n;
    }
    assert ListedNames(s, Root) == {n};
    SortedIs([n]);
    assert Elements([n]) == {n};
  }
}
