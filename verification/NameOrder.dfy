/**
 The order of names: Rust compares strings by their UTF-8 bytes, which is the order of
 their code points. `BTreeMap` iteration and `Vec::sort` list a set of names in this order.
 */
module NameOrder {

  predicate Less(a: string, b: string) {
    b != [] && (a == [] || a[0] < b[0] || (a[0] == b[0] && Less(a[1..], b[1..])))
  }

  /** The name that is smaller at the first difference comes first, or the one that ends there. */
  lemma {:induction false} LessIff(a: string, b: string)
    ensures Less(a, b) <==> exists i :: 0 <= i <= |a| && i < |b| && a[..i] == b[..i] && (i == |a| || a[i] < b[i])
    decreases |a|
  {
    if b != [] {
      if a == [] || a[0] != b[0] {
        assert a[..0] == b[..0];
      } else {
        LessIff(a[1..], b[1..]);
        forall i | 1 <= i <= |a| && i < |b|
          ensures a[..i] == b[..i] <==> a[1..][..i - 1] == b[1..][..i - 1]
        {
          assert a[..i] == [a[0]] + a[1..][..i - 1] && b[..i] == [b[0]] + b[1..][..i - 1];
        }
        if Less(a[1..], b[1..]) {
          var i :| 0 <= i <= |a[1..]| && i < |b[1..]| && a[1..][..i] == b[1..][..i] && (i == |a[1..]| || a[1..][i] < b[1..][i]);
          assert a[..i + 1] == b[..i + 1];
        }
        if i :| 0 <= i <= |a| && i < |b| && a[..i] == b[..i] && (i == |a| || a[i] < b[i]) {
          assert i > 0;
          assert a[1..][..i - 1] == b[1..][..i - 1];
        }
      }
    }
  }

  predicate StrictlySorted(s: seq<string>) {
    forall i, j :: 0 <= i < j < |s| ==> Less(s[i], s[j])
  }

  function Elements(s: seq<string>): set<string> {
    set x | x in s
  }

  lemma {:induction false} LessTrichotomy(a: string, b: string)
    ensures Less(a, b) || a == b || Less(b, a)
    decreases |a|
  {
    if a != [] && b != [] && a[0] == b[0] {
      LessTrichotomy(a[1..], b[1..]);
      assert a == [a[0]] + a[1..] && b == [b[0]] + b[1..];
    }
  }

  lemma {:induction false} LessIrreflexive(a: string)
    ensures !Less(a, a)
    decreases |a|
  {
    if a != [] { LessIrreflexive(a[1..]); }
  }

  lemma {:induction false} LessTransitive(a: string, b: string, c: string)
    requires Less(a, b) && Less(b, c)
    ensures Less(a, c)
    decreases |a|
  {
    if a != [] && a[0] == b[0] && b[0] == c[0] {
      LessTransitive(a[1..], b[1..], c[1..]);
    }
  }

  // ── Sorting a set of names ────────────────────────────────────────────────

  /** The position at which `x` belongs in a sorted sequence. */
  method FindSlot(s: seq<string>, x: string) returns (k: nat)
    requires StrictlySorted(s) && x !in s
    ensures k <= |s|
    ensures forall i :: 0 <= i < k ==> Less(s[i], x)
    ensures forall i :: k <= i < |s| ==> Less(x, s[i])
  {
    k := 0;
    while k < |s| && Less(s[k], x)
      invariant k <= |s|
      invariant forall i :: 0 <= i < k ==> Less(s[i], x)
    {
      k := k + 1;
    }
    if k < |s| {
      LessTrichotomy(s[k], x);
      forall i | k <= i < |s|
        ensures Less(x, s[i])
      {
        if i > k { LessTransitive(x, s[k], s[i]); }
      }
    }
  }

  lemma InsertSorted(s: seq<string>, x: string, k: nat)
    requires StrictlySorted(s) && k <= |s|
    requires forall i :: 0 <= i < k ==> Less(s[i], x)
    requires forall i :: k <= i < |s| ==> Less(x, s[i])
    ensures StrictlySorted(s[..k] + [x] + s[k..])
    ensures Elements(s[..k] + [x] + s[k..]) == Elements(s) + {x}
  {
    var r := s[..k] + [x] + s[k..];
    forall i, j | 0 <= i < j < |r|
      ensures Less(r[i], r[j])
    {
      if j < k {
      } else if j > k && i < k {
        assert r[j] == s[j - 1];
      }
    }
    forall y
      ensures y in Elements(r) <==> y in Elements(s) + {x}
    {
      assert s == s[..k] + s[k..];
    }
  }

  method Sort(names: set<string>) returns (s: seq<string>)
    ensures StrictlySorted(s) && Elements(s) == names
    ensures s == Sorted(names)
  {
    s := [];
    var rest := names;
    while rest != {}
      invariant rest <= names
      invariant StrictlySorted(s) && Elements(s) == names - rest
      decreases rest
    {
      var x :| x in rest;
      assert x !in Elements(s);
      var k := FindSlot(s, x);
      InsertSorted(s, x, k);
      s := s[..k] + [x] + s[k..];
      rest := rest - {x};
    }
    SortedIs(s);
  }

  ghost predicate IsLeast(m: string, names: set<string>) {
    m in names && forall x :: x in names && x != m ==> Less(m, x)
  }

  /** A finite non-empty set of names has a least one. */
  lemma {:induction false} LeastExists(names: set<string>)
    requires names != {}
    ensures exists m :: IsLeast(m, names)
    decreases |names|
  {
    var x :| x in names;
    var rest := names - {x};
    if rest == {} {
      assert names == {x};
      assert IsLeast(x, names);
    } else {
      LeastExists(rest);
      var y :| IsLeast(y, rest);
      LessTrichotomy(x, y);
      if Less(x, y) {
        forall z | z in names && z != x
          ensures Less(x, z)
        {
          if z != y { LessTransitive(x, y, z); }
        }
        assert IsLeast(x, names);
      } else {
        assert IsLeast(y, names);
      }
    }
  }

  /** The names in ascending order. */
  ghost function Sorted(names: set<string>): (s: seq<string>)
    ensures StrictlySorted(s) && Elements(s) == names
    decreases |names|
  {
    if names == {} then [] else
    LeastExists(names);
    var m :| IsLeast(m, names);
    var tail := Sorted(names - {m});
    ConsSorted(m, tail);
    [m] + tail
  }

  lemma ConsSorted(m: string, tail: seq<string>)
    requires StrictlySorted(tail) && forall x :: x in Elements(tail) ==> Less(m, x)
    ensures StrictlySorted([m] + tail) && Elements([m] + tail) == Elements(tail) + {m}
  {
    forall i | 0 <= i < |tail|
      ensures Less(m, tail[i])
    {
      assert tail[i] in Elements(tail);
    }
    forall x | x in Elements(tail) + {m}
      ensures x in Elements([m] + tail)
    {
      if x == m { assert ([m] + tail)[0] == x; }
    }
  }

  /** A strictly sorted sequence is determined by its elements. */
  lemma {:induction false} SortedUnique(s: seq<string>, t: seq<string>)
    requires StrictlySorted(s) && StrictlySorted(t) && Elements(s) == Elements(t)
    ensures s == t
    decreases |s|
  {
    NoElements(s);
    NoElements(t);
    if s != [] {
      assert s[0] in Elements(t) && |t| > 0;
      assert t[0] in Elements(s);
      var i :| 0 <= i < |s| && s[i] == t[0];
      var j :| 0 <= j < |t| && t[j] == s[0];
      if i > 0 && j > 0 {
        LessTransitive(s[0], t[0], s[0]);
        LessIrreflexive(s[0]);
      }
      assert s[0] == t[0];
      TailElements(s);
      TailElements(t);
      SortedUnique(s[1..], t[1..]);
      assert s == [s[0]] + s[1..] && t == [t[0]] + t[1..];
    }
  }

  lemma NoElements(s: seq<string>)
    ensures Elements(s) == {} <==> s == []
  {
    assert s == [] || s[0] in Elements(s);
  }

  lemma TailElements(s: seq<string>)
    requires s != [] && StrictlySorted(s)
    ensures StrictlySorted(s[1..]) && Elements(s[1..]) == Elements(s) - {s[0]}
  {
    LessIrreflexive(s[0]);
    forall x | x in Elements(s) && x != s[0]
      ensures x in Elements(s[1..])
    {
      var i :| 0 <= i < |s| && s[i] == x;
      assert s[1..][i - 1] == x;
    }
    forall i | 1 <= i < |s|
      ensures s[i] != s[0]
    {
      assert Less(s[0], s[i]);
    }
  }

  lemma SortedIs(s: seq<string>)
    requires StrictlySorted(s)
    ensures s == Sorted(Elements(s))
  {
    SortedUnique(s, Sorted(Elements(s)));
  }

  /** A strictly sorted sequence has no duplicates. */
  lemma SortedDistinct(s: seq<string>, i: nat, j: nat)
    requires StrictlySorted(s) && i < |s| && j < |s| && s[i] == s[j]
    ensures i == j
  {
    LessIrreflexive(s[i]);
  }
}
