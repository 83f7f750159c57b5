/**
 `VerifiedBlockCache` of verity.rs: one bit a block, eight blocks a byte. A mark is one atomic
 `fetch_or`, so an interleaving of concurrent marks is a sequence of marks.
 */
module BlockCache {
  import opened Merkle

  /** The mask `1 << k`. */
  function Mask(k: nat): bv8
    requires k < 8
  {
    (1 as bv8) << k
  }

  /** The test `(b >> k) & 1 == 1`. */
  predicate BitSet(b: bv8, k: nat)
    requires k < 8
  {
    (b >> k) & 1 == 1
  }

  /** Or-ing a mask sets its own bit and no other. */
  lemma OrMask(b: bv8, j: nat, k: nat)
    requires j < 8 && k < 8
    ensures BitSet(b | Mask(j), k) <==> k == j || BitSet(b, k)
  {
  }

  /** The blocks whose bit is set. */
  function Denotes(bits: seq<bv8>, blockCount: nat): set<nat>
    requires |bits| == (blockCount + 7) / 8
  {
    set i: nat | i < blockCount && BitSet(bits[i / 8], i % 8)
  }

  /** One `fetch_or`; an index past the end is ignored. */
  function MarkOne(bits: seq<bv8>, blockCount: nat, i: nat): (r: seq<bv8>)
    requires |bits| == (blockCount + 7) / 8
    ensures |r| == |bits|
  {
    if i >= blockCount then bits else bits[i / 8 := bits[i / 8] | Mask(i % 8)]
  }

  /** A mark adds its own block and changes no neighbour. */
  lemma MarkOneDenotes(bits: seq<bv8>, blockCount: nat, i: nat)
    requires |bits| == (blockCount + 7) / 8
    ensures Denotes(MarkOne(bits, blockCount, i), blockCount)
         == if i < blockCount then Denotes(bits, blockCount) + {i} else Denotes(bits, blockCount)
  {
    var r := MarkOne(bits, blockCount, i);
    if i < blockCount {
      forall k: nat | k < blockCount
        ensures BitSet(r[k / 8], k % 8) <==> k == i || BitSet(bits[k / 8], k % 8)
      {
        OrMask(bits[i / 8], i % 8, k % 8);
      }
    }
  }

  function MarkAll(bits: seq<bv8>, blockCount: nat, marks: seq<nat>): (r: seq<bv8>)
    requires |bits| == (blockCount + 7) / 8
    ensures |r| == |bits|
  {
    if marks == [] then bits
    else MarkOne(MarkAll(bits, blockCount, marks[..|marks| - 1]), blockCount, marks[|marks| - 1])
  }

  /** Whatever the order in which concurrent marks take effect, the bits are exactly the marked blocks. */
  lemma {:induction false} MarkAllDenotes(bits: seq<bv8>, blockCount: nat, marks: seq<nat>)
    requires |bits| == (blockCount + 7) / 8
    ensures Denotes(MarkAll(bits, blockCount, marks), blockCount)
         == Denotes(bits, blockCount) + set i | i in marks && i < blockCount
    decreases |marks|
  {
    if marks != [] {
      var front, last := marks[..|marks| - 1], marks[|marks| - 1];
      MarkAllDenotes(bits, blockCount, front);
      MarkOneDenotes(MarkAll(bits, blockCount, front), blockCount, last);
      assert marks == front + [last];
    }
  }

  class VerifiedBlockCache {
    const bits: array<bv8>
    const blockCount: nat
    const rootHash: Hash

    ghost predicate Valid() {
      bits.Length == (blockCount + 7) / 8
    }

    ghost function Marked(): set<nat>
      requires Valid()
      reads bits
    {
      Denotes(bits[..], blockCount)
    }

    constructor (blockCount: nat, rootHash: Hash)
      ensures Valid() && Marked() == {} && fresh(bits)
      ensures this.blockCount == blockCount && this.rootHash == rootHash
    {
      var n := (blockCount + 7) / 8;
      bits := new bv8[n](_ => 0);
      this.blockCount := blockCount;
      this.rootHash := rootHash;
    }

    method IsVerified(i: nat) returns (r: bool)
      requires Valid()
      ensures r == (i in Marked())
    {
      if i >= blockCount {
        return false;
      }
      r := (bits[i / 8] >> (i % 8)) & 1 == 1;
    }

    method MarkVerified(i: nat)
      requires Valid()
      modifies bits
      ensures Marked() == if i < blockCount then old(Marked()) + {i} else old(Marked())
    {
      MarkOneDenotes(bits[..], blockCount, i);
      if i >= blockCount {
        return;
      }
      bits[i / 8] := bits[i / 8] | Mask(i % 8);
      assert bits[..] == MarkOne(old(bits[..]), blockCount, i);
    }

    method VerifiedCount() returns (count: nat)
      requires Valid()
      ensures count == |Marked()|
    {
      count := 0;
      ghost var seen: set<nat> := {};
      for i := 0 to blockCount
        invariant seen == set k: nat | k < i && k in Marked()
        invariant count == |seen|
      {
        var v := IsVerified(i);
        if v {
          count := count + 1;
          seen := seen + {i};
        }
      }
      assert seen == Marked();
    }
  }
}
