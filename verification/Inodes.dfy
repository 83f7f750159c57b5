/**
 The inode table of crates/rspacefs-fuse/src/fs.rs: `inodes` (number to path), `paths` (path to
 number) and `next_ino`, changed by `intern_path`, by unlink and rmdir, and by rename.
 */
module Inodes {
  import opened Paths

  const ROOT_INO: nat := 1

  datatype Table = Table(inodes: map<nat, Path>, paths: map<Path, nat>, next: nat)

  const Initial := Table(map[ROOT_INO := Root], map[Root := ROOT_INO], ROOT_INO + 1)

  function Intern(t: Table, p: Path): Table {
    if p in t.paths then t
    else Table(t.inodes[t.next := p], t.paths[p := t.next], t.next + 1)
  }

  /** The update unlink and rmdir make. */
  function Forget(t: Table, p: Path): Table {
    if p in t.paths then t.(paths := t.paths - {p}, inodes := t.inodes - {t.paths[p]}) else t
  }

  function Rename(t: Table, src: Path, dst: Path): Table {
    if src in t.paths then
      var ino := t.paths[src];
      t.(paths := (t.paths - {src})[dst := ino], inodes := t.inodes[ino := dst])
    else t
  }

  class InodeTable {
    var inodes: map<nat, Path>
    var paths: map<Path, nat>
    var nextIno: nat

    ghost function Current(): Table
      reads this
    {
      Table(inodes, paths, nextIno)
    }

    constructor ()
      ensures Current() == Initial
    {
      inodes, paths, nextIno := map[ROOT_INO := Root], map[Root := ROOT_INO], ROOT_INO + 1;
    }

    method InternPath(p: Path) returns (ino: nat)
      modifies this
      ensures Current() == Intern(old(Current()), p)
      ensures p in paths && paths[p] == ino
    {
      if p in paths {
        return paths[p];
      }
      ino := nextIno;
      nextIno := nextIno + 1;
      paths := paths[p := ino];
      inodes := inodes[ino := p];
    }

    method ForgetPath(p: Path)
      modifies this
      ensures Current() == Forget(old(Current()), p)
    {
      if p in paths {
        var ino := paths[p];
        paths := paths - {p};
        inodes := inodes - {ino};
      }
    }

    method RenamePath(src: Path, dst: Path)
      modifies this
      ensures Current() == Rename(old(Current()), src, dst)
    {
      if src in paths {
        var ino := paths[src];
        paths := paths - {src};
        inodes := inodes[ino := dst];
        paths := paths[dst := ino];
      }
    }
  }

  // ── What every run keeps ──────────────────────────────────────────────────

  ghost predicate Valid(t: Table) {
    && Root in t.paths && t.paths[Root] == ROOT_INO
    && (forall p :: p in t.paths ==> t.paths[p] in t.inodes && t.inodes[t.paths[p]] == p)
    && (forall i :: i in t.inodes ==> i < t.next)
  }

  /** The two maps are inverse to each other. */
  ghost predicate Inverse(t: Table) {
    forall i :: i in t.inodes ==> t.inodes[i] in t.paths && t.paths[t.inodes[i]] == i
  }

  /** Unlink, rmdir and rename always name a child of a directory, never the root. */
  datatype Op = InternOp(p: Path) | ForgetOp(dir: Path, name: Name) | RenameOp(dir: Path, name: Name, newDir: Path, newName: Name)

  function Apply(t: Table, op: Op): Table {
    match op
    case InternOp(p) => Intern(t, p)
    case ForgetOp(d, n) => Forget(t, Child(d, n))
    case RenameOp(d, n, d', n') => Rename(t, Child(d, n), Child(d', n'))
  }

  /** A rename of an interned path onto another interned path. */
  predicate Lands(t: Table, op: Op) {
    op.RenameOp? &&
    var src, dst := Child(op.dir, op.name), Child(op.newDir, op.newName);
    src in t.paths && dst in t.paths && src != dst
  }

  lemma ApplyKeepsValid(t: Table, op: Op)
    requires Valid(t)
    ensures Valid(Apply(t, op)) && t.next <= Apply(t, op).next
  {
  }

  /** The maps stay inverse exactly when no rename lands on an interned path. */
  lemma InverseStep(t: Table, op: Op)
    requires Valid(t)
    ensures Inverse(Apply(t, op)) <==> Inverse(t) && !Lands(t, op)
  {
    var t' := Apply(t, op);
    if !Inverse(t) {
      var i :| i in t.inodes && !(t.inodes[i] in t.paths && t.paths[t.inodes[i]] == i);
      StaleStays(t, op, i);
    } else if Lands(t, op) {
      var src, dst := Child(op.dir, op.name), Child(op.newDir, op.newName);
      var i := t.paths[dst];
      assert t.inodes[i] == dst && t.paths[src] != i;
      assert i in t'.inodes && t'.inodes[i] == dst && t'.paths[dst] != i;
    }
  }

  /** A number no path leads back to keeps its binding for good. */
  lemma StaleStays(t: Table, op: Op, i: nat)
    requires Valid(t) && i in t.inodes && !(t.inodes[i] in t.paths && t.paths[t.inodes[i]] == i)
    ensures var t' := Apply(t, op); i in t'.inodes && !(t'.inodes[i] in t'.paths && t'.paths[t'.inodes[i]] == i)
  {
    forall p | p in t.paths
      ensures t.paths[p] != i
    {
    }
  }

  // ── What each call does to the bindings ───────────────────────────────────

  /** Both maps agree on everything but the paths in `ps` and the numbers in `nums`. */
  ghost predicate SameBut(t: Table, u: Table, ps: set<Path>, nums: set<nat>) {
    && (forall q :: q !in ps ==> (q in u.paths <==> q in t.paths) && (q in u.paths ==> u.paths[q] == t.paths[q]))
    && (forall i :: i !in nums ==> (i in u.inodes <==> i in t.inodes) && (i in u.inodes ==> u.inodes[i] == t.inodes[i]))
  }

  /** Interning binds an unknown path and a number above all others to each other, and nothing else. */
  lemma InternEffect(t: Table, p: Path)
    requires Valid(t)
    ensures var u := Intern(t, p);
      && p in u.paths && u.paths[p] in u.inodes && u.inodes[u.paths[p]] == p
      && (p in t.paths ==> u == t)
      && (p !in t.paths ==> u.paths[p] == t.next && u.next == t.next + 1)
      && (p !in t.paths ==> (forall i :: i in t.inodes ==> i < u.paths[p] < u.next) && SameBut(t, u, {p}, {u.paths[p]}))
  {
  }

  /** Unlinking drops the path and its number, and nothing else; no number becomes free for reuse. */
  lemma ForgetEffect(t: Table, p: Path)
    requires Valid(t)
    ensures var u := Forget(t, p);
      && p !in u.paths && u.next == t.next
      && (p in t.paths ==> t.paths[p] !in u.inodes && SameBut(t, u, {p}, {t.paths[p]}))
      && (p !in t.paths ==> u == t)
  {
  }

  /** Renaming an interned path moves its number to the new path, and changes nothing else. */
  lemma RenameEffect(t: Table, src: Path, dst: Path)
    requires Valid(t)
    ensures var u := Rename(t, src, dst);
      && u.next == t.next && (src !in t.paths ==> u == t)
      && (src in t.paths ==>
            && dst in u.paths && u.paths[dst] == t.paths[src] && u.inodes[t.paths[src]] == dst
            && (src != dst ==> src !in u.paths)
            && SameBut(t, u, {src, dst}, {t.paths[src]}))
  {
  }

  /** Said over the history alone: the last call that bound or unbound the path bound it. */
  predicate Interned(ops: seq<Op>, p: Path)
    decreases |ops|
  {
    if ops == [] then p == Root
    else
      var front, op := ops[..|ops| - 1], ops[|ops| - 1];
      match op
      case InternOp(q) => p == q || Interned(front, p)
      case ForgetOp(d, n) => p != Child(d, n) && Interned(front, p)
      case RenameOp(d, n, d', n') =>
        if Interned(front, Child(d, n)) then p == Child(d', n') || (p != Child(d, n) && Interned(front, p))
        else Interned(front, p)
  }

  lemma {:induction false} RunLast(t: Table, ops: seq<Op>)
    requires ops != []
    ensures Run(t, ops) == Apply(Run(t, ops[..|ops| - 1]), ops[|ops| - 1])
    decreases |ops|
  {
    var n := |ops| - 1;
    if n > 0 {
      RunLast(Apply(t, ops[0]), ops[1..]);
      assert ops[1..][..n - 1] == ops[..n][1..];
    }
  }

  /** A path is in the table exactly when its history says so. */
  lemma {:induction false} InternedIff(ops: seq<Op>, p: Path)
    ensures Valid(Run(Initial, ops))
    ensures p in Run(Initial, ops).paths <==> Interned(ops, p)
    decreases |ops|
  {
    InitialValid();
    RunInvariant(Initial, ops);
    if ops != [] {
      var front, op := ops[..|ops| - 1], ops[|ops| - 1];
      RunLast(Initial, ops);
      InternedIff(front, p);
      var t := Run(Initial, front);
      match op
      case InternOp(q) => InternEffect(t, q);
      case ForgetOp(d, n) => ForgetEffect(t, Child(d, n));
      case RenameOp(d, n, d', n') =>
        InternedIff(front, Child(d, n));
        RenameEffect(t, Child(d, n), Child(d', n'));
    }
  }

  /** A path interned again gets a number that no path, at any earlier time, ever had. */
  lemma InternedAgain(ops: seq<Op>, more: seq<Op>, p: Path)
    requires !Interned(ops + more, p)
    ensures var t, u := Run(Initial, ops), Intern(Run(Initial, ops + more), p);
      && p in u.paths
      && (forall i :: i in t.inodes ==> i < u.paths[p])
      && (forall q :: q in t.paths ==> t.paths[q] < u.paths[p])
  {
    InternedIff(ops, p);
    InternedIff(ops + more, p);
    RunAppend(Initial, ops, more);
    NeverReissued(Run(Initial, ops), more);
    InternEffect(Run(Initial, ops + more), p);
  }

  lemma {:induction false} RunAppend(t: Table, a: seq<Op>, b: seq<Op>)
    ensures Run(t, a + b) == Run(Run(t, a), b)
    decreases |a|
  {
    if a == [] {
      assert a + b == b;
    } else {
      assert (a + b)[1..] == a[1..] + b;
      RunAppend(Apply(t, a[0]), a[1..], b);
    }
  }

  // ── Runs ──────────────────────────────────────────────────────────────────

  function Run(t: Table, ops: seq<Op>): Table
    decreases |ops|
  {
    if ops == [] then t else Run(Apply(t, ops[0]), ops[1..])
  }

  predicate NeverLands(t: Table, ops: seq<Op>)
    decreases |ops|
  {
    ops == [] || (!Lands(t, ops[0]) && NeverLands(Apply(t, ops[0]), ops[1..]))
  }

  /** The new numbers a run hands out, in order. */
  function Issued(t: Table, ops: seq<Op>): seq<nat>
    decreases |ops|
  {
    if ops == [] then []
    else (if ops[0].InternOp? && ops[0].p !in t.paths then [t.next] else []) + Issued(Apply(t, ops[0]), ops[1..])
  }

  /**
   From the initial table every run keeps each interned path's number mapped back to that path
   and the root at 1, and the maps are inverse exactly when no rename landed on an interned path.
   */
  lemma {:induction false} RunInvariant(t: Table, ops: seq<Op>)
    requires Valid(t)
    ensures Valid(Run(t, ops))
    ensures Inverse(Run(t, ops)) <==> Inverse(t) && NeverLands(t, ops)
    decreases |ops|
  {
    if ops != [] {
      ApplyKeepsValid(t, ops[0]);
      InverseStep(t, ops[0]);
      RunInvariant(Apply(t, ops[0]), ops[1..]);
    }
  }

  /** Different paths never share a number. */
  lemma NumbersInjective(t: Table, p: Path, q: Path)
    requires Valid(t) && p in t.paths && q in t.paths && t.paths[p] == t.paths[q]
    ensures p == q
  {
  }

  lemma {:induction false} NeverReissued(t: Table, ops: seq<Op>)
    requires Valid(t)
    ensures forall i, j :: 0 <= i < j < |Issued(t, ops)| ==> Issued(t, ops)[i] < Issued(t, ops)[j]
    ensures forall i :: 0 <= i < |Issued(t, ops)| ==> t.next <= Issued(t, ops)[i] < Run(t, ops).next
    ensures t.next <= Run(t, ops).next
    decreases |ops|
  {
    if ops != [] {
      ApplyKeepsValid(t, ops[0]);
      NeverReissued(Apply(t, ops[0]), ops[1..]);
    }
  }

  lemma InitialValid()
    ensures Valid(Initial) && Inverse(Initial)
  {
  }
}
