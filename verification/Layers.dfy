/**
 One layer, and the operations its backing filesystem offers: a finite tree of directories
 and files. A failed operation changes nothing.
 */
module Layers {
  import opened Base
  import opened Paths

  datatype Node = Dir | File(data: Bytes)

  type Layer = map<Path, Node>

  const EmptyLayer: Layer := map[Root := Dir]

  /** The root is a directory and every other entry lies in a directory. */
  ghost predicate WellFormed(l: Layer) {
    && Root in l && l[Root] == Dir
    && forall p :: p in l && p.Child? ==> p.dir in l && l[p.dir] == Dir
  }

  predicate IsDir(l: Layer, p: Path) {
    p in l && l[p] == Dir
  }

  datatype Status = Done | Failed

  datatype Step = Step(upper: Layer, status: Status)

  function MakeDir(l: Layer, p: Path): Step {
    if p.Root? || p in l || !IsDir(l, p.dir) then Step(l, Failed) else Step(l[p := Dir], Done)
  }

  /** Create or truncate, and write. */
  function WriteFile(l: Layer, p: Path, data: Bytes): Step {
    if p.Root? || IsDir(l, p) || !IsDir(l, p.dir) then Step(l, Failed) else Step(l[p := File(data)], Done)
  }

  function ExtendFile(l: Layer, p: Path, data: Bytes): Step {
    if p !in l || l[p] == Dir then Step(l, Failed) else Step(l[p := File(l[p].data + data)], Done)
  }

  function DeleteFile(l: Layer, p: Path): Step {
    if p !in l || l[p] == Dir then Step(l, Failed) else Step(l - {p}, Done)
  }

  /** The names in a directory. */
  function Names(l: Layer, d: Path): set<Name> {
    set p | p in l && p.Child? && p.dir == d :: p.name
  }

  function DeleteDir(l: Layer, p: Path): Step {
    if p.Root? || !IsDir(l, p) || Names(l, p) != {} then Step(l, Failed) else Step(l - {p}, Done)
  }

  lemma NamesAre(l: Layer, d: Path, n: Name)
    ensures n in Names(l, d) <==> Child(d, n) in l
  {
  }

  /** Every backing operation keeps the layer well formed. */
  lemma StepsKeepWellFormed(l: Layer, p: Path, data: Bytes)
    requires WellFormed(l)
    ensures WellFormed(MakeDir(l, p).upper) && WellFormed(WriteFile(l, p, data).upper)
    ensures WellFormed(ExtendFile(l, p, data).upper)
    ensures WellFormed(DeleteFile(l, p).upper) && WellFormed(DeleteDir(l, p).upper)
  {
    forall q | q in l && q.Child?
      ensures q.dir == p ==> q.name in Names(l, p)
    {
    }
  }

  /** In a well-formed layer every ancestor of an entry is a directory. */
  lemma {:induction false} AncestorsAreDirs(l: Layer, p: Path, a: Path)
    requires WellFormed(l) && p in l && AtOrBelow(p, a)
    ensures a in l && (p != a ==> l[a] == Dir)
  {
    if p != a { AncestorsAreDirs(l, p.dir, a); }
  }
}
