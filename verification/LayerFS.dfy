/**
 The `LayerFS` object of layer.rs: a mutable upper, fixed lowers, and two lazily filled caches
 over the lowers. Every method leaves the upper as the Overlay function of the same name says,
 and every fill leaves each cached answer equal to a direct probe of its layer.
 */
module LayerFSObject {
  import opened Base
  import opened NameOrder
  import opened Paths
  import opened Layers
  import opened Overlay
  import opened FlatView
  import opened Listing
  import opened TreeOps

  /** What the slow path collects: every name hidden by a marker in `d`, the opaque marker aside. */
  function HiddenNames(l: Layer, d: Path): set<Name> {
    set p | p in l && p.Child? && p.dir == d && IsMarker(p.name) && p.name != OPAQUE_WHITEOUT :: p.name[4..]
  }

  lemma HiddenNamesAre(l: Layer, d: Path, n: Name)
    ensures n in HiddenNames(l, d) <==> WhName(n) != OPAQUE_WHITEOUT && Child(d, WhName(n)) in l
  {
    WhNameFacts(n, n);
    var c := Child(d, WhName(n));
    assert c.name[4..] == n;
    if n in HiddenNames(l, d) {
      var p :| p in l && p.Child? && p.dir == d && IsMarker(p.name) && p.name != OPAQUE_WHITEOUT && p.name[4..] == n;
      assert p.name == WhName(p.name[4..]);
    }
  }

  /** The ancestor of `d` at depth i. */
  function Prefix(d: Path, i: nat): Path
    requires i <= Depth(d)
  {
    if Depth(d) == i then d else Prefix(d.dir, i)
  }

  /** The names of a path, outermost first: `path.split('/')`. */
  function Components(p: Path): (r: seq<Name>)
    ensures |r| == Depth(p)
  {
    if p == Root then [] else Components(p.dir) + [p.name]
  }

  lemma {:induction false} PrefixStep(d: Path, i: nat)
    requires i < Depth(d)
    ensures Prefix(d, i + 1) == Child(Prefix(d, i), Components(d)[i])
    ensures AtOrBelow(d, Prefix(d, i + 1))
  {
    if i + 1 < Depth(d) {
      PrefixStep(d.dir, i);
    } else {
      assert Prefix(d.dir, i) == d.dir;
    }
  }

  lemma {:induction false} PrefixZero(d: Path)
    ensures Prefix(d, 0) == Root
  {
    if d.Child? { PrefixZero(d.dir); }
  }

  /** Parent creation that fails at an ancestor stops there. */
  lemma {:induction false} EnsureStops(u: Layer, d: Path, a: Path)
    requires AtOrBelow(d, a) && EnsureDir(u, a).status == Failed
    ensures EnsureDir(u, d) == EnsureDir(u, a)
  {
    if d != a { EnsureStops(u, d.dir, a); }
  }

  // ── The merging loop of read_dir ──────────────────────────────────────────

  /** Is the name neither listed nor hidden so far? */
  predicate Open(seen: set<Name>, whiteouts: set<Name>, n: Name) {
    n !in seen && n !in whiteouts
  }

  /** The state after some layers have been merged; `below` are the lowers still to come. */
  ghost predicate Merging(s: Stack, d: Path, seen: set<Name>, whiteouts: set<Name>, below: seq<Layer>) {
    && (forall n :: n in seen ==> MaybeListed(s, d, n))
    && (forall n :: Listed(s, d, n) && n !in seen ==> n !in whiteouts && ListedBelow(below, d, n))
    && (forall n :: !IsMarker(n) && Open(seen, whiteouts, n) && MaybeListedBelow(below, d, n) ==> MaybeListed(s, d, n))
  }

  /** The state inside one lower layer, after the names in `met` have gone by. */
  ghost predicate MergingLayer(l: Layer, d: Path, met: set<Name>, seen: set<Name>, whiteouts: set<Name>, seen': set<Name>, whiteouts': set<Name>) {
    && met <= Names(l, d)
    && seen <= seen' && whiteouts <= whiteouts'
    && (forall n :: n in whiteouts' && n !in whiteouts ==> WhName(n) in met && WhName(n) != OPAQUE_WHITEOUT)
    && (forall n :: WhName(n) in met && WhName(n) != OPAQUE_WHITEOUT ==> n in whiteouts')
    && (forall n :: n in seen' && n !in seen ==> n in met && !IsMarker(n) && n !in whiteouts)
    && (forall n :: n in met && !IsMarker(n) && n !in whiteouts && WhName(n) !in Names(l, d) ==> n in seen')
  }

  lemma LayerMerged(s: Stack, d: Path, seen: set<Name>, whiteouts: set<Name>, below: seq<Layer>, seen': set<Name>, whiteouts': set<Name>)
    requires below != [] && Merging(s, d, seen, whiteouts, below)
    requires MergingLayer(below[0], d, Names(below[0], d), seen, whiteouts, seen', whiteouts')
    ensures Merging(s, d, seen', whiteouts', below[1..])
  {
    var l := below[0];
    forall n
      ensures n in seen' ==> MaybeListed(s, d, n)
      ensures Listed(s, d, n) && n !in seen' ==> n !in whiteouts' && ListedBelow(below[1..], d, n)
      ensures !IsMarker(n) && Open(seen', whiteouts', n) && MaybeListedBelow(below[1..], d, n) ==> MaybeListed(s, d, n)
    {
      NamesAre(l, d, n);
      NamesAre(l, d, WhName(n));
      WhNameFacts(n, n);
    }
  }

  class LayerFS {
    var upper: Layer
    const lowers: seq<Layer>
    var lowerWhiteouts: map<(nat, Path), set<Name>>
    var lowerOpaque: map<(nat, Path), bool>

    function Current(): Stack
      reads this`upper
    {
      Stack(upper, lowers)
    }

    /** Every cached answer is what a direct probe of that lower gives. */
    ghost predicate CachesTrue()
      reads this`lowerWhiteouts, this`lowerOpaque
    {
      && (forall k :: k in lowerWhiteouts ==> k.0 < |lowers| && lowerWhiteouts[k] == HiddenNames(lowers[k.0], k.1))
      && (forall k :: k in lowerOpaque ==> k.0 < |lowers| && lowerOpaque[k] == (OpaqueMarker(k.1) in lowers[k.0]))
    }

    constructor (upper: Layer, lowers: seq<Layer>)
      ensures Current() == Stack(upper, lowers)
      ensures CachesTrue() && lowerWhiteouts == map[] && lowerOpaque == map[]
    {
      this.upper, this.lowers := upper, lowers;
      lowerWhiteouts, lowerOpaque := map[], map[];
    }

    // ── Lookup ──────────────────────────────────────────────────────────────

    method LowerHasWhiteout(i: nat, parent: Path, name: Name) returns (r: bool)
      requires CachesTrue() && i < |lowers|
      modifies this`lowerWhiteouts
      ensures CachesTrue()
      ensures r == (WhName(name) != OPAQUE_WHITEOUT && Child(parent, WhName(name)) in lowers[i])
    {
      HiddenNamesAre(lowers[i], parent, name);
      var key := (i, parent);
      if key in lowerWhiteouts {
        return name in lowerWhiteouts[key];
      }
      var whiteouts := HiddenNames(lowers[i], parent);
      lowerWhiteouts := lowerWhiteouts[key := whiteouts];
      r := name in whiteouts;
    }

    method LowerIsOpaqueAbove(i: nat, parent: Path) returns (r: bool)
      requires CachesTrue() && i < |lowers|
      modifies this`lowerOpaque
      ensures CachesTrue()
      ensures r == OpaqueFrom(lowers[i], parent)
    {
      var current := parent;
      while true
        invariant CachesTrue()
        invariant OpaqueFrom(lowers[i], parent) == OpaqueFrom(lowers[i], current)
        decreases current
      {
        var key := (i, current);
        if key !in lowerOpaque {
          lowerOpaque := lowerOpaque[key := OpaqueMarker(current) in lowers[i]];
        }
        if lowerOpaque[key] {
          return true;
        }
        if current == Root {
          return false;
        }
        current := current.dir;
      }
    }

    /** The upper changes at run time, so its opaque markers are probed each time. */
    method IsOpaqueAbove(p: Path) returns (r: bool)
      ensures r == OpaqueAbove(upper, p)
    {
      var current := p;
      while true
        invariant OpaqueAbove(upper, p) == OpaqueAbove(upper, current)
        decreases current
      {
        var parent := if current.Child? then current.dir else Root;
        if parent == Root {
          return OpaqueMarker(Root) in upper;
        }
        if OpaqueMarker(parent) in upper {
          return true;
        }
        current := parent;
      }
    }

    method ResolvePath(p: Path) returns (r: Option<nat>)
      requires CachesTrue()
      modifies this`lowerWhiteouts, this`lowerOpaque
      ensures CachesTrue()
      ensures r == Resolve(Current(), p)
    {
      hide OpaqueFrom, ResolveLowers, OpaqueMarker;
      if WhPath(p) in upper {
        return None;
      }
      if p in upper {
        return Some(0);
      }
      var opaqueAbove := IsOpaqueAbove(p);
      if opaqueAbove {
        return None;
      }
      var parent, name := if p.Child? then p.dir else Root, if p.Child? then p.name else "";
      for i := 0 to |lowers|
        invariant CachesTrue()
        invariant Shifted(ResolveLowers(lowers, p), 0) == Shifted(ResolveLowers(lowers[i..], p), i)
      {
        ResolveOneMore(lowers, i, p);
        var whiteout := LowerHasWhiteout(i, parent, name);
        if whiteout {
          return None;
        }
        if p in lowers[i] {
          return Some(i + 1);
        }
        var opq := LowerIsOpaqueAbove(i, parent);
        if opq {
          return None;
        }
      }
      NoneLeft(lowers, p);
      r := None;
    }

    static function Shifted(r: Option<nat>, i: nat): Option<nat> {
      match r
      case None => None
      case Some(k) => Some(k + i)
    }

    static lemma ResolveOneMore(lowers: seq<Layer>, i: nat, p: Path)
      requires i < |lowers|
      ensures Shifted(ResolveLowers(lowers[i..], p), i) ==
                if LowerWhitedOut(lowers[i], p) then None
                else if p in lowers[i] then Some(i)
                else if OpaqueAbove(lowers[i], p) then None
                else Shifted(ResolveLowers(lowers[i + 1..], p), i + 1)
    {
      assert lowers[i..][0] == lowers[i] && lowers[i..][1..] == lowers[i + 1..];
    }

    static lemma NoneLeft(lowers: seq<Layer>, p: Path)
      ensures ResolveLowers(lowers[|lowers|..], p) == None
    {
    }

    /** The entry a resolved path has. */
    method Lookup(p: Path) returns (node: Option<Node>)
      requires CachesTrue()
      modifies this`lowerWhiteouts, this`lowerOpaque
      ensures CachesTrue()
      ensures node == View(Current(), p)
    {
      ResolveIsView(Current(), p);
      var k := ResolvePath(p);
      if k == None {
        return None;
      }
      node := Some(if k.value == 0 then upper[p] else lowers[k.value - 1][p]);
    }

    // ── Steps on the upper ──────────────────────────────────────────────────

    method EnsureUpperParents(p: Path) returns (status: Status)
      modifies this`upper
      ensures Step(upper, status) == EnsureParents(old(upper), p)
    {
      if p == Root {
        return Done;
      }
      var parts := Components(p);
      ghost var d := p.dir;
      var current := Root;
      PrefixZero(d);
      for i := 0 to |parts| - 1
        invariant current == Prefix(d, i)
        invariant EnsureDir(old(upper), current) == Step(upper, Done)
      {
        PrefixStep(d, i);
        assert parts[i] == Components(d)[i];
        current := Child(current, parts[i]);
        if current !in upper {
          var t := MakeDir(upper, current);
          upper := t.upper;
          if t.status == Failed {
            EnsureStops(old(upper), d, current);
            return Failed;
          }
        }
      }
      status := Done;
    }

    method RemoveWhiteoutOf(p: Path) returns (status: Status)
      modifies this`upper
      ensures Step(upper, status) == RemoveWhiteout(old(upper), p)
    {
      status := Done;
      if WhPath(p) in upper {
        var t := DeleteFile(upper, WhPath(p));
        upper, status := t.upper, t.status;
      }
    }

    method CreateWhiteoutOf(p: Path) returns (status: Status)
      modifies this`upper
      ensures Step(upper, status) == CreateWhiteout(old(upper), p)
    {
      status := EnsureUpperParents(WhPath(p));
      if status == Failed {
        return;
      }
      if WhPath(p) !in upper {
        var t := WriteFile(upper, WhPath(p), []);
        upper, status := t.upper, t.status;
      }
    }

    method PrepareFor(p: Path) returns (status: Status)
      modifies this`upper
      ensures Step(upper, status) == Prepare(old(upper), p)
    {
      status := EnsureUpperParents(p);
      if status == Done {
        status := RemoveWhiteoutOf(p);
      }
    }

    // ── The FileSystem operations ───────────────────────────────────────────

    method Create(p: Path, data: Bytes) returns (status: Status)
      modifies this`upper
      ensures Step(upper, status) == CreateFile(old(upper), p, data)
    {
      status := PrepareFor(p);
      if status == Done {
        var t := WriteFile(upper, p, data);
        upper, status := t.upper, t.status;
      }
    }

    method Mkdir(p: Path) returns (status: Status)
      modifies this`upper
      ensures Step(upper, status) == CreateDir(old(upper), p)
    {
      status := PrepareFor(p);
      if status == Done {
        var t := MakeDir(upper, p);
        upper, status := t.upper, t.status;
      }
    }

    method CopyUpPath(p: Path) returns (status: Status)
      requires CachesTrue()
      modifies this
      ensures CachesTrue()
      ensures Step(upper, status) == CopyUp(old(Current()), p)
    {
      var source := Lookup(p);
      if source == None {
        return Failed;
      }
      status := EnsureUpperParents(p);
      if status == Done {
        var t := match source.value
          case Dir => MakeDir(upper, p)
          case File(data) => WriteFile(upper, p, data);
        upper, status := t.upper, t.status;
      }
    }

    method Append(p: Path, data: Bytes) returns (status: Status)
      requires CachesTrue()
      modifies this
      ensures CachesTrue()
      ensures Step(upper, status) == AppendFile(old(Current()), p, data)
    {
      if p !in upper {
        var resolved := Lookup(p);
        if resolved == None {
          return Failed;
        }
        status := CopyUpPath(p);
        if status == Failed {
          return;
        }
      }
      var t := ExtendFile(upper, p, data);
      upper, status := t.upper, t.status;
    }

    method HideLowerEntry(p: Path) returns (status: Status)
      modifies this`upper
      ensures Step(upper, status) == HideLower(lowers, old(upper), p)
    {
      var existsInLower := exists k :: 0 <= k < |lowers| && p in lowers[k];
      status := Done;
      if existsInLower {
        status := CreateWhiteoutOf(p);
      }
    }

    method Unlink(p: Path) returns (status: Status)
      modifies this`upper
      ensures Step(upper, status) == RemoveFile(old(Current()), p)
    {
      if p in upper {
        var t := DeleteFile(upper, p);
        upper := t.upper;
        if t.status == Failed {
          return Failed;
        }
      }
      status := HideLowerEntry(p);
    }

    method Rmdir(p: Path) returns (status: Status)
      modifies this`upper
      ensures Step(upper, status) == RemoveDir(old(Current()), p)
    {
      if p in upper {
        var t := DeleteDir(upper, p);
        upper := t.upper;
        if t.status == Failed {
          return Failed;
        }
      }
      status := HideLowerEntry(p);
    }

    method Copy(src: Path, dest: Path) returns (status: Status)
      requires CachesTrue()
      modifies this
      ensures CachesTrue()
      ensures Step(upper, status) == CopyFile(old(Current()), src, dest)
    {
      var source := Lookup(src);
      if source == None || source.value == Dir {
        return Failed;
      }
      status := Create(dest, source.value.data);
    }

    method Move(src: Path, dest: Path) returns (status: Status)
      requires CachesTrue()
      modifies this
      ensures CachesTrue()
      ensures Step(upper, status) == MoveFile(old(Current()), src, dest)
    {
      status := Copy(src, dest);
      if status == Done {
        status := Unlink(src);
      }
    }

    // ── Listing ─────────────────────────────────────────────────────────────

    /** One entry of a lower met by the merging loop. */
    static function MergeName(acc: (set<Name>, set<Name>), name: Name): (set<Name>, set<Name>) {
      var (seen, whiteouts) := acc;
      if IsMarker(name) then (seen, if name != OPAQUE_WHITEOUT then whiteouts + {name[4..]} else whiteouts)
      else (if name !in seen && name !in whiteouts then seen + {name} else seen, whiteouts)
    }

    static function MergeNames(acc: (set<Name>, set<Name>), names: seq<Name>): (set<Name>, set<Name>)
      decreases |names|
    {
      if names == [] then acc else MergeNames(MergeName(acc, names[0]), names[1..])
    }

    /**
     In a directory that is not clean the order of its entries decides: the name `a` met before its
     whiteout is listed, met after it it is not.
     */
    static lemma EntryOrderDecides() returns (l: Layer)
      ensures WellFormed(l) && Names(l, Root) == {"a", ".wh.a"}
      ensures MergeNames(({}, {}), ["a", ".wh.a"]).0 == {"a"} && MergeNames(({}, {}), [".wh.a", "a"]).0 == {}
    {
      l := map[Root := Dir, Child(Root, "a") := File([]), Child(Root, ".wh.a") := File([])];
      assert IsMarker(".wh.a") && !IsMarker("a") && ".wh.a"[4..] == "a";
      assert |".wh.a"| != |OPAQUE_WHITEOUT|;
      assert ["a", ".wh.a"][1..] == [".wh.a"] && [".wh.a", "a"][1..] == ["a"];
      var none: set<Name> := {};
      assert none + {"a"} == {"a"};
      assert MergeName((none, none), "a") == ({"a"}, none);
      assert MergeName((none, none), ".wh.a") == (none, {"a"});
    }

    /**
     Merge one lower's entries of `d`, met in whatever order its filesystem returns them. The
     source keeps a vector beside the set `seen`; the two hold the same names.
     */
    static method MergeLayer(l: Layer, d: Path, seen: set<Name>, whiteouts: set<Name>) returns (seen': set<Name>, whiteouts': set<Name>, ghost order: seq<Name>)
      ensures MergingLayer(l, d, Names(l, d), seen, whiteouts, seen', whiteouts')
      ensures |order| == |Names(l, d)| && Elements(order) == Names(l, d)
      ensures (seen', whiteouts') == MergeNames((seen, whiteouts), order)
    {
      hide MergingLayer, MergeNames;
      seen', whiteouts' := seen, whiteouts;
      order := [];
      var todo := Names(l, d);
      NothingMerged(l, d, seen, whiteouts);
      while todo != {}
        invariant todo <= Names(l, d)
        invariant MergingLayer(l, d, Names(l, d) - todo, seen, whiteouts, seen', whiteouts')
        invariant |order| + |todo| == |Names(l, d)| && Elements(order) == Names(l, d) - todo
        invariant (seen', whiteouts') == MergeNames((seen, whiteouts), order)
        decreases |todo|
      {
        var name :| name in todo;
        ghost var met := Names(l, d) - todo;
        ghost var seen0, whiteouts0 := seen', whiteouts';
        todo := todo - {name};
        assert Names(l, d) - todo == met + {name};
        if IsMarker(name) {
          if name != OPAQUE_WHITEOUT {
            assert name == WhName(name[4..]);
            whiteouts' := whiteouts' + {name[4..]};
          }
        } else if name !in seen' && name !in whiteouts' {
          seen' := seen' + {name};
        }
        NameMerged(l, d, met, seen, whiteouts, seen0, whiteouts0, name, seen', whiteouts');
        MergeOneMore((seen, whiteouts), order, name);
        order := order + [name];
      }
      assert Names(l, d) - todo == Names(l, d);
    }

    static lemma NothingMerged(l: Layer, d: Path, seen: set<Name>, whiteouts: set<Name>)
      ensures MergingLayer(l, d, Names(l, d) - Names(l, d), seen, whiteouts, seen, whiteouts)
      ensures MergeNames((seen, whiteouts), []) == (seen, whiteouts)
    {
      assert Names(l, d) - Names(l, d) == {};
    }

    static lemma {:induction false} MergeOneMore(acc: (set<Name>, set<Name>), names: seq<Name>, name: Name)
      ensures MergeNames(acc, names + [name]) == MergeName(MergeNames(acc, names), name)
      decreases |names|
    {
      if names == [] {
        assert names + [name] == [name] && [name][1..] == [];
      } else {
        assert (names + [name])[1..] == names[1..] + [name];
        MergeOneMore(MergeName(acc, names[0]), names[1..], name);
      }
    }

    static lemma NameMerged(l: Layer, d: Path, met: set<Name>, seen: set<Name>, whiteouts: set<Name>,
                            seen0: set<Name>, whiteouts0: set<Name>, name: Name, seen': set<Name>, whiteouts': set<Name>)
      requires MergingLayer(l, d, met, seen, whiteouts, seen0, whiteouts0)
      requires name in Names(l, d)
      requires whiteouts' == if IsMarker(name) && name != OPAQUE_WHITEOUT then whiteouts0 + {name[4..]} else whiteouts0
      requires seen' == if !IsMarker(name) && name !in seen0 && name !in whiteouts0 then seen0 + {name} else seen0
      ensures MergingLayer(l, d, met + {name}, seen, whiteouts, seen', whiteouts')
    {
      forall n
        ensures WhName(n) == name <==> IsMarker(name) && name[4..] == n
      {
        WhNameFacts(n, n);
        assert WhName(n)[4..] == n;
        assert IsMarker(name) ==> name == WhName(name[4..]);
      }
    }

    /** The upper's entries: every ordinary name is listed, markers only hide. */
    method ListUpper(d: Path) returns (seen: set<Name>, whiteouts: set<Name>)
      ensures seen == set n | n in Names(upper, d) && !IsMarker(n)
      ensures forall n :: n in whiteouts <==> WhName(n) != OPAQUE_WHITEOUT && Child(d, WhName(n)) in upper
    {
      seen := set n | n in Names(upper, d) && !IsMarker(n);
      whiteouts := HiddenNames(upper, d);
      forall n
        ensures n in whiteouts <==> WhName(n) != OPAQUE_WHITEOUT && Child(d, WhName(n)) in upper
      {
        HiddenNamesAre(upper, d, n);
      }
    }

    /** `read_dir`; None when a layer holds a plain file where a directory is listed. */
    method List(d: Path) returns (r: Option<seq<Name>>)
      ensures r == None <==>
                || (d in upper && upper[d].File?)
                || (OpaqueMarker(d) !in upper && exists k :: 0 <= k < |lowers| && d in lowers[k] && lowers[k][d].File?)
      ensures r.Some? ==> StrictlySorted(r.value)
      ensures r.Some? ==> forall n :: (Listed(Current(), d, n) ==> n in r.value) && (n in r.value ==> MaybeListed(Current(), d, n))
      ensures (forall k :: 0 <= k < |lowers| ==> CleanAt(lowers[k], d)) ==> r == ReadDir(Current(), d)
    {
      hide ListedBelow, MaybeListedBelow, CleanAt, Merging;
      var isOpaque := OpaqueMarker(d) in upper;
      if d in upper && upper[d].File? {
        return None;
      }
      var seen, whiteouts := ListUpper(d);
      UpperListed(Current(), d, seen, whiteouts);
      if !isOpaque {
        for i := 0 to |lowers|
          invariant Merging(Current(), d, seen, whiteouts, lowers[i..])
          invariant forall k :: 0 <= k < i && d in lowers[k] ==> lowers[k][d] == Dir
        {
          if d in lowers[i] && lowers[i][d].File? {
            return None;
          }
          var seen', whiteouts', _ := MergeLayer(lowers[i], d, seen, whiteouts);
          assert lowers[i..][0] == lowers[i] && lowers[i..][1..] == lowers[i + 1..];
          LayerMerged(Current(), d, seen, whiteouts, lowers[i..], seen', whiteouts');
          seen, whiteouts := seen', whiteouts';
        }
      }
      AllMerged(Current(), d, seen, whiteouts, if isOpaque then lowers else lowers[|lowers|..]);
      var entries := Sort(seen);
      assert forall n :: n in entries <==> n in Elements(entries);
      r := Some(entries);
    }

    static lemma UpperListed(s: Stack, d: Path, seen: set<Name>, whiteouts: set<Name>)
      requires seen == set n | n in Names(s.upper, d) && !IsMarker(n)
      requires forall n :: n in whiteouts <==> WhName(n) != OPAQUE_WHITEOUT && Child(d, WhName(n)) in s.upper
      ensures OpaqueMarker(d) !in s.upper ==> Merging(s, d, seen, whiteouts, s.lowers)
      ensures forall n :: n in seen ==> MaybeListed(s, d, n)
      ensures OpaqueMarker(d) in s.upper ==> forall n :: Listed(s, d, n) ==> n in seen
    {
      forall n
        ensures n in Names(s.upper, d) <==> Child(d, n) in s.upper
        ensures !IsMarker(n) ==> WhName(n) != OPAQUE_WHITEOUT
      {
        NamesAre(s.upper, d, n);
        WhNameFacts(n, n);
      }
    }

    static lemma AllMerged(s: Stack, d: Path, seen: set<Name>, whiteouts: set<Name>, below: seq<Layer>)
      requires OpaqueMarker(d) !in s.upper ==> below == [] && Merging(s, d, seen, whiteouts, below)
      requires OpaqueMarker(d) in s.upper ==>
                 (forall n :: n in seen ==> MaybeListed(s, d, n)) && (forall n :: Listed(s, d, n) ==> n in seen)
      ensures forall n :: (Listed(s, d, n) ==> n in seen) && (n in seen ==> MaybeListed(s, d, n))
      ensures (forall k :: 0 <= k < |s.lowers| ==> CleanAt(s.lowers[k], d)) ==> seen == ListedNames(s, d)
    {
      if forall k :: 0 <= k < |s.lowers| ==> CleanAt(s.lowers[k], d) {
        forall n
          ensures n in ListedNames(s, d) <==> n in seen
        {
          ListedNamesAre(s, d, n);
          if !IsMarker(n) { CleanListing(s.lowers, d, n); }
        }
      }
    }

    // ── The recursive walks ─────────────────────────────────────────────────

    /** Lowers whose listings do not depend on the order of their entries. */
    ghost predicate CleanLowers() {
      forall k :: 0 <= k < |lowers| ==> Clean(lowers[k])
    }

    /** Listing an ordinary directory over clean lowers. */
    method ListClean(d: Path) returns (r: Option<seq<Name>>)
      requires CleanLowers() && Ordinary(d)
      ensures r == ReadDir(Current(), d)
      ensures r.Some? ==> forall i :: 0 <= i < |r.value| ==> Ordinary(Child(d, r.value[i]))
    {
      forall k | 0 <= k < |lowers|
        ensures CleanAt(lowers[k], d)
      {
        CleanIsCleanAt(lowers[k], d);
      }
      r := List(d);
      if r.Some? {
        forall i | 0 <= i < |r.value|
          ensures Ordinary(Child(d, r.value[i]))
        {
          assert r.value[i] in r.value;
          assert MaybeListed(Current(), d, r.value[i]);
        }
      }
    }

    /** One turn of the copy loop. */
    method CopyChild(a: Path, b: Path, stack: nat) returns (status: Status)
      requires CachesTrue() && CleanLowers() && Ordinary(a)
      modifies this
      ensures CachesTrue()
      ensures status == CopyEntry(old(Current()), a, b, stack).status
      ensures status == Done ==> upper == CopyEntry(old(Current()), a, b, stack).upper
      decreases stack, 1
    {
      hide CopyDir, CopyFile, View;
      var resolved := Lookup(a);
      status := Done;
      if resolved == Some(Dir) {
        status := CopyDirRecursive(a, b, stack);
      } else if resolved != None {
        status := Copy(a, b);
      }
    }

    method CopyDirRecursive(src: Path, dest: Path, stack: nat) returns (status: Status)
      requires CachesTrue() && CleanLowers() && Ordinary(src)
      modifies this
      ensures CachesTrue()
      ensures status == CopyDir(old(Current()), src, dest, stack).status
      ensures status == Done ==> upper == CopyDir(old(Current()), src, dest, stack).upper
      decreases stack, 0
    {
      hide Prepare, MakeDir, ReadDir, CopyEntry, Clean, HiddenNames, OpaqueMarker;
      if stack == 0 {
        return Failed;
      }
      status := PrepareFor(dest);
      if status == Failed {
        return;
      }
      if dest !in upper {
        var t := MakeDir(upper, dest);
        upper := t.upper;
        if t.status == Failed {
          return Failed;
        }
      }
      var listed := ListClean(src);
      if listed == None {
        return Failed;
      }
      var entries := listed.value;
      ghost var start := Current();
      for i := 0 to |entries|
        invariant CachesTrue()
        invariant CopyEntries(start, src, dest, entries, stack - 1) == CopyEntries(Current(), src, dest, entries[i..], stack - 1)
      {
        assert entries[i..][0] == entries[i] && entries[i..][1..] == entries[i + 1..];
        status := CopyChild(Child(src, entries[i]), Child(dest, entries[i]), stack - 1);
        if status == Failed {
          return;
        }
      }
      assert entries[|entries|..] == [];
      status := Done;
    }

    /** Delete some entries of the upper one by one, in any order. */
    method DeleteEach(entries: set<Path>) returns (status: Status)
      requires entries <= upper.Keys
      modifies this`upper
      ensures status == Failed <==> exists q :: q in entries && old(upper)[q] == Dir
      ensures status == Done ==> upper == old(upper) - entries
    {
      ghost var before := upper;
      var todo := entries;
      while todo != {}
        invariant todo <= entries <= before.Keys
        invariant upper == before - (entries - todo)
        invariant forall q :: q in entries && q !in todo ==> before[q] != Dir
        decreases |todo|
      {
        var entry :| entry in todo;
        var t := DeleteFile(upper, entry);
        if t.status == Failed {
          assert before[entry] == Dir;
          return Failed;
        }
        assert entries - (todo - {entry}) == (entries - todo) + {entry};
        upper := t.upper;
        todo := todo - {entry};
      }
      assert entries - todo == entries;
      status := Done;
    }

    method SweepMarkersOf(p: Path) returns (status: Status)
      modifies this`upper
      ensures status == SweepMarkers(old(upper), p).status
      ensures status == Done ==> upper == SweepMarkers(old(upper), p).upper
    {
      if p !in upper {
        return Done;
      }
      if upper[p].File? {
        return Failed;
      }
      status := DeleteEach(MarkersIn(upper, p));
    }

    /** One turn of the removal loop. */
    method RemoveChild(a: Path, stack: nat) returns (status: Status)
      requires CachesTrue() && CleanLowers() && Ordinary(a)
      modifies this
      ensures CachesTrue()
      ensures status == RemoveEntry(old(Current()), a, stack).status
      ensures status == Done ==> upper == RemoveEntry(old(Current()), a, stack).upper
      decreases stack, 1
    {
      hide RemoveTree, RemoveFile, View;
      var resolved := Lookup(a);
      status := Done;
      if resolved == Some(Dir) {
        status := RemoveDirRecursive(a, stack);
      } else if resolved != None {
        status := Unlink(a);
      }
    }

    method RemoveDirRecursive(p: Path, stack: nat) returns (status: Status)
      requires CachesTrue() && CleanLowers() && Ordinary(p)
      modifies this
      ensures CachesTrue()
      ensures status == RemoveTree(old(Current()), p, stack).status
      ensures status == Done ==> upper == RemoveTree(old(Current()), p, stack).upper
      decreases stack, 0
    {
      hide ReadDir, RemoveEntry, SweepMarkers, RemoveDir, Clean, HiddenNames, OpaqueMarker;
      if stack == 0 {
        return Failed;
      }
      var listed := ListClean(p);
      if listed == None {
        return Failed;
      }
      var entries := listed.value;
      ghost var start := Current();
      for i := 0 to |entries|
        invariant CachesTrue()
        invariant RemoveEntries(start, p, entries, stack - 1) == RemoveEntries(Current(), p, entries[i..], stack - 1)
      {
        assert entries[i..][0] == entries[i] && entries[i..][1..] == entries[i + 1..];
        status := RemoveChild(Child(p, entries[i]), stack - 1);
        if status == Failed {
          return;
        }
      }
      assert entries[|entries|..] == [];
      status := SweepMarkersOf(p);
      if status == Failed {
        return;
      }
      status := Rmdir(p);
    }

    method MoveDirectory(src: Path, dest: Path, stack: nat) returns (status: Status)
      requires CachesTrue() && CleanLowers() && Ordinary(src)
      modifies this
      ensures CachesTrue()
      ensures status == MoveDir(old(Current()), src, dest, stack).status
      ensures status == Done ==> upper == MoveDir(old(Current()), src, dest, stack).upper
    {
      status := CopyDirRecursive(src, dest, stack);
      if status == Done {
        status := RemoveDirRecursive(src, stack);
      }
    }
  }
}
