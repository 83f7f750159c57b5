/** `pivot_upper` of crates/rspacefs-pvc/src/pivot.rs: swap the upper layer of a live volume. */
module Pivot {
  import opened Base
  import opened Paths
  import opened Layers
  import opened Overlay
  import opened LayerFSObject

  datatype AccessMode = Empty | ReadOnly | ReadWriteOnce | ReadWriteMany

  datatype Lifecycle = Persistent | Ephemeral | EphemeralThenPersistent

  datatype PivotError = InvalidArgument | Vfs

  const PROBE: Path := Child(Root, ".rspacefs-pvc-pivot-probe")

  class PvcMount {
    const accessMode: AccessMode
    const lifecycle: Lifecycle
    const lowers: seq<Layer>
    /** The filesystem every clone of the merged root reads through. */
    var root: LayerFS

    ghost predicate Valid()
      reads this, root
    {
      root.lowers == lowers && root.CachesTrue()
    }

    constructor (accessMode: AccessMode, lifecycle: Lifecycle, upper: Layer, lowers: seq<Layer>)
      ensures Valid() && fresh(root) && root.Current() == Stack(upper, lowers)
      ensures this.accessMode == accessMode && this.lifecycle == lifecycle
    {
      this.accessMode, this.lifecycle, this.lowers := accessMode, lifecycle, lowers;
      root := new LayerFS(upper, lowers);
    }

    /**
     Success re-roots the volume on the new upper over the same lowers, with empty caches, and
     leaves the old filesystem object to the handles still open on it. Any refusal changes nothing.
     */
    method PivotUpper(newUpper: Layer) returns (error: Option<PivotError>)
      requires Valid() && WellFormed(newUpper)
      modifies this`root
      ensures Valid()
      ensures error == None <==> accessMode != ReadOnly && lifecycle == EphemeralThenPersistent && PROBE !in newUpper
      ensures error != None ==> root == old(root)
      ensures error == None ==> fresh(root) && root.Current() == Stack(newUpper, lowers)
      ensures error == None && newUpper == old(root.upper) ==> forall p :: View(root.Current(), p) == View(old(root.Current()), p)
    {
      if accessMode == ReadOnly {
        return Some(InvalidArgument);
      }
      if lifecycle != EphemeralThenPersistent {
        return Some(InvalidArgument);
      }
      var made := MakeDir(newUpper, PROBE);
      if made.status == Failed {
        return Some(Vfs);
      }
      var gone := DeleteDir(made.upper, PROBE);
      ProbeLeavesNoTrace(newUpper);
      if gone.status == Failed {
        return Some(Vfs);
      }
      root := new LayerFS(gone.upper, lowers);
      error := None;
    }
  }

  /** Making and deleting the probe directory puts the upper back as it was. */
  lemma ProbeLeavesNoTrace(u: Layer)
    requires WellFormed(u) && PROBE !in u
    ensures MakeDir(u, PROBE).status == Done
    ensures DeleteDir(MakeDir(u, PROBE).upper, PROBE) == Step(u, Done)
  {
    var v := MakeDir(u, PROBE).upper;
    forall n
      ensures n !in Names(v, PROBE)
    {
      NamesAre(v, PROBE, n);
    }
    assert v - {PROBE} == u;
  }
}
