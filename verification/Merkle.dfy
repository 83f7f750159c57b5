/**
 The Merkle tree of crates/rspacefs-verity/src/verity.rs: hashing of 4096-byte blocks,
 the level-order node array, bottom-up construction, the leaf-to-root walk of
 `verify_block`, and authentication paths.

 SHA-256 is a parameter `sha` of every definition, so each theorem holds for every
 function from byte strings to 32-byte digests.
 */
module Merkle {
  import opened Base

  const BLOCK_SIZE: nat := 4096
  const HASH_SIZE: nat := 32

  type Hash = h: Bytes | |h| == HASH_SIZE witness Zeros(HASH_SIZE)
  type Sha = Bytes -> Hash

  const ZERO_HASH: Hash := Zeros(HASH_SIZE)

  // ── Hash helpers ──────────────────────────────────────────────────────────

  /** What `hash_block` feeds the hasher: the data, zero-filled up to one block. */
  function Pad(d: Bytes): Bytes {
    if |d| < BLOCK_SIZE then d + Zeros(BLOCK_SIZE - |d|) else d
  }

  function HashBlock(sha: Sha, d: Bytes): Hash {
    sha(Pad(d))
  }

  /** The 64-byte message of an interior node. */
  function Pair(left: Hash, right: Hash): (m: Bytes)
    ensures |m| == 64 && m[..32] == left && m[32..] == right
  {
    var l: Bytes, r: Bytes := left, right;
    l + r
  }

  function HashPair(sha: Sha, left: Hash, right: Hash): Hash {
    sha(Pair(left, right))
  }

  /** Padding loses nothing between blocks of one length. */
  lemma PadInjective(a: Bytes, b: Bytes)
    requires |a| == |b| && Pad(a) == Pad(b)
    ensures a == b
  {
    assert a == Pad(a)[..|a|];
    assert b == Pad(b)[..|a|];
  }

  lemma PairInjective(a: Hash, b: Hash, c: Hash, d: Hash)
    requires Pair(a, b) == Pair(c, d)
    ensures a == c && b == d
  {
    assert a == Pair(a, b)[..HASH_SIZE] && c == Pair(c, d)[..HASH_SIZE];
    assert b == Pair(a, b)[HASH_SIZE..] && d == Pair(c, d)[HASH_SIZE..];
  }

  // ── Powers of two ─────────────────────────────────────────────────────────

  function Pow2(e: nat): nat {
    if e == 0 then 1 else 2 * Pow2(e - 1)
  }

  lemma {:induction false} Pow2Positive(e: nat)
    ensures Pow2(e) >= 1
  {
    if e > 0 { Pow2Positive(e - 1); }
  }

  lemma {:induction false} Pow2Monotone(a: nat, b: nat)
    requires a <= b
    ensures Pow2(a) <= Pow2(b)
    decreases b
  {
    Pow2Positive(a);
    if a < b { Pow2Monotone(a, b - 1); }
  }

  /** The exponent of `usize::next_power_of_two`, found by doubling. */
  function Log2Ceil(n: nat, e: nat): nat
    decreases n - Pow2(e)
  {
    Pow2Positive(e);
    if Pow2(e) >= n then e else Log2Ceil(n, e + 1)
  }

  function NextPowerOfTwo(n: nat): nat {
    Pow2(Log2Ceil(n, 0))
  }

  lemma {:induction false} Log2CeilFrom(n: nat, e: nat)
    requires e > 0 ==> Pow2(e - 1) < n
    ensures var r := Log2Ceil(n, e);
      r >= e && Pow2(r) >= n && (r > 0 ==> Pow2(r - 1) < n)
    decreases n - Pow2(e)
  {
    Pow2Positive(e);
    if Pow2(e) < n { Log2CeilFrom(n, e + 1); }
  }

  /** The padded leaf count is the least power of two that holds every leaf. */
  lemma NextPowerOfTwoIsLeast(n: nat, e: nat)
    ensures NextPowerOfTwo(n) >= n
    ensures Pow2(e) >= n ==> NextPowerOfTwo(n) <= Pow2(e)
  {
    Log2CeilFrom(n, 0);
    var r := Log2Ceil(n, 0);
    if Pow2(e) >= n && e < r {
      Pow2Monotone(e, r - 1);
    } else if Pow2(e) >= n {
      Pow2Monotone(r, e);
    }
  }

  // ── Blocks and leaves ─────────────────────────────────────────────────────

  /** Byte offset of block i. */
  function BlockStart(i: nat): nat {
    4096 * i
  }

  /** Number of blocks that n bytes occupy, the last one perhaps partly. */
  function BlocksFor(n: nat): nat {
    (n + 4095) / 4096
  }

  function LeafCount(data: Bytes): nat {
    if data == [] then 1 else BlocksFor(|data|)
  }

  function Height(data: Bytes): nat {
    Log2Ceil(LeafCount(data), 0)
  }

  function Block(data: Bytes, i: nat): Bytes
    requires i < LeafCount(data)
  {
    data[BlockStart(i)..Min(BlockStart(i + 1), |data|)]
  }

  /** The first n blocks, joined. */
  function Joined(data: Bytes, n: nat): Bytes
    requires n <= LeafCount(data)
  {
    if n == 0 then [] else Joined(data, n - 1) + Block(data, n - 1)
  }

  lemma {:induction false} JoinedIsPrefix(data: Bytes, n: nat)
    requires n <= LeafCount(data)
    ensures Joined(data, n) == data[..Min(BlockStart(n), |data|)]
  {
    if n > 0 { JoinedIsPrefix(data, n - 1); }
  }

  /** The blocks are the data cut every 4096 bytes: joined they are the data, and only the last may be short. */
  lemma BlocksAreData(data: Bytes)
    ensures Joined(data, LeafCount(data)) == data
    ensures forall i: nat :: i < LeafCount(data) ==> |Block(data, i)| <= 4096
    ensures forall i: nat :: i + 1 < LeafCount(data) ==> |Block(data, i)| == 4096
    ensures data != [] ==> forall i: nat :: i < LeafCount(data) ==> Block(data, i) != []
  {
    JoinedIsPrefix(data, LeafCount(data));
  }

  function Leaf(sha: Sha, data: Bytes, i: nat): Hash {
    if i < LeafCount(data) then HashBlock(sha, Block(data, i)) else ZERO_HASH
  }

  /** The leaf row: one hash a block, then zero hashes up to a power of two. */
  function Leaves(sha: Sha, data: Bytes): seq<Hash> {
    seq(NextPowerOfTwo(LeafCount(data)), i requires 0 <= i => Leaf(sha, data, i))
  }

  // ── The recursive reference tree ──────────────────────────────────────────

  /** The Merkle hash of a row of 2^h leaves: a leaf alone, else the hash of the two halves. */
  function Root(sha: Sha, row: seq<Hash>, h: nat): Hash
    requires |row| == Pow2(h)
    decreases h
  {
    if h == 0 then row[0]
    else HashPair(sha, Root(sha, row[..Pow2(h - 1)], h - 1), Root(sha, row[Pow2(h - 1)..], h - 1))
  }

  // ── The level-order array ─────────────────────────────────────────────────

  datatype MerkleTree = MerkleTree(nodes: seq<Hash>, leafCount: nat, paddedLeafCount: nat)

  /** Every slot the walk may touch exists. `from_bytes` admits any padded count with this shape. */
  predicate Shaped(t: MerkleTree) {
    t.paddedLeafCount >= 1 && |t.nodes| == 2 * t.paddedLeafCount - 1
  }

  predicate SlotHashed(sha: Sha, nodes: seq<Hash>, i: nat)
    requires 2 * i + 2 < |nodes|
  {
    nodes[i] == HashPair(sha, nodes[2 * i + 1], nodes[2 * i + 2])
  }

  /** Every interior slot holds the hash of its two children. */
  predicate HeapHashed(sha: Sha, nodes: seq<Hash>, padded: nat)
    requires padded >= 1 && |nodes| == 2 * padded - 1
  {
    forall i :: 0 <= i < padded - 1 ==> SlotHashed(sha, nodes, i)
  }

  /** `t` is the tree that `build` makes of `data`. */
  predicate IsTreeOf(sha: Sha, data: Bytes, t: MerkleTree) {
    && Shaped(t)
    && t.leafCount == LeafCount(data)
    && t.paddedLeafCount == NextPowerOfTwo(LeafCount(data))
    && (forall i :: 0 <= i < t.paddedLeafCount ==> t.nodes[t.paddedLeafCount - 1 + i] == Leaf(sha, data, i))
    && HeapHashed(sha, t.nodes, t.paddedLeafCount)
  }

  function RootHash(t: MerkleTree): Hash
    requires Shaped(t)
  {
    t.nodes[0]
  }

  // ── build ─────────────────────────────────────────────────────────────────

  method HashLeaves(sha: Sha, data: Bytes, padded: nat) returns (leaves: seq<Hash>)
    requires padded == NextPowerOfTwo(LeafCount(data))
    ensures leaves == Leaves(sha, data)
  {
    var leafCount := LeafCount(data);
    NextPowerOfTwoIsLeast(leafCount, 0);
    leaves := [];
    for i := 0 to leafCount
      invariant |leaves| == i
      invariant forall k :: 0 <= k < i ==> leaves[k] == Leaf(sha, data, k)
    {
      leaves := leaves + [HashBlock(sha, Block(data, i))];
    }
    leaves := leaves + seq(padded - leafCount, _ => ZERO_HASH);
  }

  method FillNodes(sha: Sha, leaves: seq<Hash>) returns (nodes: array<Hash>)
    requires |leaves| >= 1
    ensures nodes.Length == 2 * |leaves| - 1
    ensures nodes[|leaves| - 1..] == leaves
    ensures HeapHashed(sha, nodes[..], |leaves|)
  {
    var padded := |leaves|;
    var total := 2 * padded - 1;
    var leafStart := padded - 1;
    nodes := new Hash[total](_ => ZERO_HASH);
    for i := 0 to padded
      invariant nodes[leafStart..leafStart + i] == leaves[..i]
    {
      nodes[leafStart + i] := leaves[i];
    }
    assert nodes[leafStart..] == nodes[leafStart..leafStart + padded] && leaves[..padded] == leaves;
    var i := leafStart;
    while i > 0
      invariant 0 <= i <= leafStart
      invariant nodes[leafStart..] == leaves
      invariant forall k :: i <= k < leafStart ==> SlotHashed(sha, nodes[..], k)
    {
      i := i - 1;
      ghost var before := nodes[..];
      nodes[i] := HashPair(sha, nodes[2 * i + 1], nodes[2 * i + 2]);
      forall k | i < k < leafStart
        ensures SlotHashed(sha, nodes[..], k)
      {
        assert SlotHashed(sha, before, k);
      }
    }
  }

  method Build(sha: Sha, data: Bytes) returns (t: MerkleTree)
    ensures IsTreeOf(sha, data, t)
  {
    var leafCount := LeafCount(data);
    var padded := NextPowerOfTwo(leafCount);
    NextPowerOfTwoIsLeast(leafCount, 0);
    var leaves := HashLeaves(sha, data, padded);
    var nodes := FillNodes(sha, leaves);
    t := MerkleTree(nodes[..], leafCount, padded);
    forall i | 0 <= i < padded
      ensures t.nodes[padded - 1 + i] == Leaf(sha, data, i)
    {
      assert nodes[padded - 1..][i] == leaves[i];
    }
  }

  // ── Array tree equals recursive tree ──────────────────────────────────────

  /** Slot of the k-th node of the row that lies `d` levels below the root. */
  function Slot(d: nat, k: nat): nat {
    Pow2Positive(d);
    Pow2(d) - 1 + k
  }

  /** k * 2^h, the first leaf under the k-th node of height h. */
  function FirstLeaf(h: nat, k: nat): nat {
    if h == 0 then k else FirstLeaf(h - 1, 2 * k)
  }

  lemma {:induction false} FirstLeafIsProduct(h: nat, k: nat)
    ensures FirstLeaf(h, k) == k * Pow2(h)
  {
    if h > 0 {
      FirstLeafIsProduct(h - 1, 2 * k);
      DoubleEitherFactor(k, Pow2(h - 1));
    }
  }

  lemma DoubleEitherFactor(k: int, w: int)
    ensures (2 * k) * w == k * (2 * w)
  {
  }

  lemma {:induction false} FirstLeafNext(h: nat, k: nat)
    ensures FirstLeaf(h, k + 1) == FirstLeaf(h, k) + Pow2(h)
  {
    if h > 0 {
      FirstLeafNext(h - 1, 2 * k);
      FirstLeafNext(h - 1, 2 * k + 1);
    }
  }

  lemma {:induction false} SpanInRange(d: nat, h: nat, k: nat)
    requires k < Pow2(d)
    ensures FirstLeaf(h, k) + Pow2(h) <= Pow2(d + h)
    decreases h
  {
    if h > 0 {
      SpanInRange(d + 1, h - 1, 2 * k + 1);
      assert (d + 1) + (h - 1) == d + h;
      FirstLeafNext(h - 1, 2 * k);
    }
  }

  /** The leaves under the k-th node of height h. */
  function Span(row: seq<Hash>, h: nat, k: nat): seq<Hash>
    requires FirstLeaf(h, k) + Pow2(h) <= |row|
  {
    row[FirstLeaf(h, k)..FirstLeaf(h, k) + Pow2(h)]
  }

  /** A complete tree of height H: its array, its leaf row, and hashed interior slots. */
  predicate IsHeapOver(sha: Sha, nodes: seq<Hash>, row: seq<Hash>, H: nat) {
    && |row| == Pow2(H) >= 1 && |nodes| == 2 * Pow2(H) - 1
    && (forall j :: 0 <= j < |row| ==> nodes[Pow2(H) - 1 + j] == row[j])
    && HeapHashed(sha, nodes, Pow2(H))
  }

  /**
   In a tree of height d + h, the node d levels below the root that is k-th in its row
   holds the recursive Merkle hash of exactly the leaves k*2^h .. (k+1)*2^h.
   */
  lemma {:induction false} SubtreeIsRecursiveHash(sha: Sha, nodes: seq<Hash>, row: seq<Hash>, d: nat, h: nat, k: nat)
    requires IsHeapOver(sha, nodes, row, d + h) && k < Pow2(d)
    ensures FirstLeaf(h, k) + Pow2(h) <= |row| && Slot(d, k) < |nodes|
    ensures nodes[Slot(d, k)] == Root(sha, Span(row, h, k), h)
    decreases h
  {
    hide Root, HeapHashed;
    SpanInRange(d, h, k);
    if h == 0 {
      LeafSubtree(sha, nodes, row, d, k);
    } else {
      assert (d + 1) + (h - 1) == d + h;
      SubtreeIsRecursiveHash(sha, nodes, row, d + 1, h - 1, 2 * k);
      SubtreeIsRecursiveHash(sha, nodes, row, d + 1, h - 1, 2 * k + 1);
      SubtreeStep(sha, nodes, row, d, h, k);
    }
  }

  lemma LeafSubtree(sha: Sha, nodes: seq<Hash>, row: seq<Hash>, d: nat, k: nat)
    requires IsHeapOver(sha, nodes, row, d) && k < Pow2(d)
    ensures FirstLeaf(0, k) + Pow2(0) <= |row| && Slot(d, k) < |nodes|
    ensures nodes[Slot(d, k)] == Root(sha, Span(row, 0, k), 0)
  {
    assert Span(row, 0, k)[0] == row[k];
  }

  lemma SubtreeStep(sha: Sha, nodes: seq<Hash>, row: seq<Hash>, d: nat, h: nat, k: nat)
    requires IsHeapOver(sha, nodes, row, d + h) && k < Pow2(d) && h > 0
    requires FirstLeaf(h, k) + Pow2(h) <= |row| && Slot(d + 1, 2 * k + 1) < |nodes|
    requires FirstLeaf(h - 1, 2 * k + 1) + Pow2(h - 1) <= |row|
    requires FirstLeaf(h - 1, 2 * k) + Pow2(h - 1) <= |row|
    requires nodes[Slot(d + 1, 2 * k)] == Root(sha, Span(row, h - 1, 2 * k), h - 1)
    requires nodes[Slot(d + 1, 2 * k + 1)] == Root(sha, Span(row, h - 1, 2 * k + 1), h - 1)
    ensures Slot(d, k) < |nodes| && nodes[Slot(d, k)] == Root(sha, Span(row, h, k), h)
  {
    ChildSlots(d, h, k);
    HalvesOfSpan(row, h, k);
    assert SlotHashed(sha, nodes, Slot(d, k));
  }

  lemma ChildSlots(d: nat, h: nat, k: nat)
    requires k < Pow2(d) && h > 0
    ensures Slot(d + 1, 2 * k) == 2 * Slot(d, k) + 1
    ensures Slot(d + 1, 2 * k + 1) == 2 * Slot(d, k) + 2
    ensures Slot(d, k) < Pow2(d + h) - 1
  {
    Pow2Positive(d);
    assert Pow2(d + 1) == 2 * Pow2(d);
    Pow2Monotone(d + 1, d + h);
  }

  lemma HalvesOfSpan(row: seq<Hash>, h: nat, k: nat)
    requires h > 0 && FirstLeaf(h, k) + Pow2(h) <= |row|
    ensures FirstLeaf(h - 1, 2 * k + 1) + Pow2(h - 1) <= |row|
    ensures Span(row, h, k)[..Pow2(h - 1)] == Span(row, h - 1, 2 * k)
    ensures Span(row, h, k)[Pow2(h - 1)..] == Span(row, h - 1, 2 * k + 1)
  {
    FirstLeafNext(h - 1, 2 * k);
  }

  /** Every node of the array `build` returns is the recursive Merkle hash of its leaf range. */
  lemma BuiltSubtrees(sha: Sha, data: Bytes, t: MerkleTree, d: nat, k: nat)
    requires IsTreeOf(sha, data, t) && d <= Height(data) && k < Pow2(d)
    ensures var row, h := Leaves(sha, data), Height(data) - d;
      && |row| == Pow2(Height(data)) && FirstLeaf(h, k) + Pow2(h) <= |row| && Slot(d, k) < |t.nodes|
      && t.nodes[Slot(d, k)] == Root(sha, Span(row, h, k), h)
  {
    var row, h := Leaves(sha, data), Height(data) - d;
    assert IsHeapOver(sha, t.nodes, row, d + h);
    SubtreeIsRecursiveHash(sha, t.nodes, row, d, h, k);
  }

  /** The stored root is the recursive Merkle hash of the padded leaf row. */
  lemma RootIsRecursiveHash(sha: Sha, data: Bytes, t: MerkleTree)
    requires IsTreeOf(sha, data, t)
    ensures |Leaves(sha, data)| == Pow2(Height(data))
    ensures RootHash(t) == Root(sha, Leaves(sha, data), Height(data))
  {
    BuiltSubtrees(sha, data, t, 0, 0);
    FirstLeafIsProduct(Height(data), 0);
    assert Span(Leaves(sha, data), Height(data), 0) == Leaves(sha, data);
  }

  // ── verify_block and auth_path ────────────────────────────────────────────

  function Parent(idx: nat): nat
    requires idx > 0
  {
    (idx - 1) / 2
  }

  function Sibling(idx: nat): nat
    requires idx > 0
  {
    if idx % 2 == 1 then idx + 1 else idx - 1
  }

  /** The message the walk hashes when it leaves slot `idx` holding `current`. */
  function WalkMessage(nodes: seq<Hash>, idx: nat, current: Hash): Bytes
    requires 0 < idx && Sibling(idx) < |nodes|
  {
    if idx % 2 == 1 then Pair(current, nodes[Sibling(idx)]) else Pair(nodes[Sibling(idx)], current)
  }

  /** The hash the walk arrives at in slot 0. */
  function Climb(sha: Sha, nodes: seq<Hash>, padded: nat, idx: nat, current: Hash): Hash
    requires idx < |nodes| == 2 * padded - 1
    decreases idx
  {
    if idx == 0 then current
    else Climb(sha, nodes, padded, Parent(idx), sha(WalkMessage(nodes, idx, current)))
  }

  predicate Verifies(sha: Sha, t: MerkleTree, i: nat, d: Bytes, root: Hash)
    requires Shaped(t)
  {
    i < t.paddedLeafCount && Climb(sha, t.nodes, t.paddedLeafCount, t.paddedLeafCount - 1 + i, HashBlock(sha, d)) == root
  }

  function PathFrom(nodes: seq<Hash>, padded: nat, idx: nat): seq<Hash>
    requires idx < |nodes| == 2 * padded - 1
    decreases idx
  {
    if idx == 0 then [] else [nodes[Sibling(idx)]] + PathFrom(nodes, padded, Parent(idx))
  }

  // The program's own walk: 64-bit indices, and a panic where a slot does not exist. `from_bytes`
  // lets trees through for which both happen.

  /** No vector is longer than isize::MAX bytes. */
  predicate InMemory(t: MerkleTree) {
    t.paddedLeafCount < U64 && 32 * |t.nodes| <= ISIZE_MAX
  }

  /** The slot the walk starts in. */
  function StartSlot(t: MerkleTree, i: nat): nat {
    Wrap(t.paddedLeafCount - 1 + i)
  }

  function SiblingSlot(idx: nat): nat
    requires idx > 0
  {
    if idx % 2 == 1 then Wrap(idx + 1) else idx - 1
  }

  function WalkUp(sha: Sha, nodes: seq<Hash>, idx: nat, current: Hash): Outcome<Hash>
    decreases idx
  {
    if idx == 0 then Returned(current)
    else if SiblingSlot(idx) >= |nodes| then Panicked
    else
      var sibling := nodes[SiblingSlot(idx)];
      WalkUp(sha, nodes, Parent(idx), if idx % 2 == 1 then HashPair(sha, current, sibling) else HashPair(sha, sibling, current))
  }

  function PathUp(nodes: seq<Hash>, idx: nat): Outcome<seq<Hash>>
    decreases idx
  {
    if idx == 0 then Returned([])
    else if SiblingSlot(idx) >= |nodes| then Panicked
    else match PathUp(nodes, Parent(idx))
      case Panicked => Panicked
      case Returned(rest) => Returned([nodes[SiblingSlot(idx)]] + rest)
  }

  function BlockVerdict(sha: Sha, t: MerkleTree, i: nat, d: Bytes, root: Hash): Outcome<bool> {
    if i >= t.paddedLeafCount then Returned(false)
    else match WalkUp(sha, t.nodes, StartSlot(t, i), HashBlock(sha, d))
      case Panicked => Panicked
      case Returned(h) => Returned(h == root)
  }

  function BlockPath(t: MerkleTree, i: nat): Outcome<seq<Hash>> {
    if i >= t.paddedLeafCount then Returned([]) else PathUp(t.nodes, StartSlot(t, i))
  }

  method VerifyBlock(sha: Sha, t: MerkleTree, i: nat, d: Bytes, root: Hash) returns (r: Outcome<bool>)
    requires InMemory(t)
    ensures r == BlockVerdict(sha, t, i, d, root)
  {
    if i >= t.paddedLeafCount {
      return Returned(false);
    }
    var current: Hash := HashBlock(sha, d);
    var idx := StartSlot(t, i);
    while idx > 0
      invariant WalkUp(sha, t.nodes, idx, current) == WalkUp(sha, t.nodes, StartSlot(t, i), HashBlock(sha, d))
    {
      var slot := if idx % 2 == 1 then Wrap(idx + 1) else idx - 1;
      if slot >= |t.nodes| {
        return Panicked;
      }
      var sibling := t.nodes[slot];
      current := if idx % 2 == 1 then HashPair(sha, current, sibling) else HashPair(sha, sibling, current);
      idx := (idx - 1) / 2;
    }
    r := Returned(current == root);
  }

  method AuthPath(t: MerkleTree, i: nat) returns (r: Outcome<seq<Hash>>)
    requires InMemory(t)
    ensures r == BlockPath(t, i)
  {
    if i >= t.paddedLeafCount {
      return Returned([]);
    }
    var path: seq<Hash> := [];
    var idx := StartSlot(t, i);
    PathPrefixedNothing(PathUp(t.nodes, idx));
    while idx > 0
      invariant PathUp(t.nodes, StartSlot(t, i)) == PathPrefixed(path, PathUp(t.nodes, idx))
    {
      var sibling := if idx % 2 == 1 then Wrap(idx + 1) else idx - 1;
      if sibling >= |t.nodes| {
        return Panicked;
      }
      PathPrefixedOneMore(path, t.nodes[sibling], PathUp(t.nodes, Parent(idx)));
      path := path + [t.nodes[sibling]];
      idx := Parent(idx);
    }
    assert path + [] == path;
    r := Returned(path);
  }

  function PathPrefixed(path: seq<Hash>, r: Outcome<seq<Hash>>): Outcome<seq<Hash>> {
    match r
    case Panicked => Panicked
    case Returned(rest) => Returned(path + rest)
  }

  lemma PathPrefixedNothing(r: Outcome<seq<Hash>>)
    ensures PathPrefixed([], r) == r
  {
    if r.Returned? {
      assert [] + r.value == r.value;
    }
  }

  lemma PathPrefixedOneMore(path: seq<Hash>, h: Hash, r: Outcome<seq<Hash>>)
    ensures PathPrefixed(path, PathPrefixed([h], r)) == PathPrefixed(path + [h], r)
  {
    if r.Returned? {
      assert path + ([h] + r.value) == path + [h] + r.value;
    }
  }

  /** From a slot of a complete tree nothing is out of range. */
  lemma {:induction false} WalkInRange(sha: Sha, nodes: seq<Hash>, padded: nat, idx: nat, current: Hash)
    requires idx < |nodes| == 2 * padded - 1 && |nodes| < U64
    ensures WalkUp(sha, nodes, idx, current) == Returned(Climb(sha, nodes, padded, idx, current))
    ensures PathUp(nodes, idx) == Returned(PathFrom(nodes, padded, idx))
    decreases idx
  {
    if idx > 0 {
      WalkInRange(sha, nodes, padded, Parent(idx), sha(WalkMessage(nodes, idx, current)));
    }
  }

  /** From a slot that does not exist the walk panics, also where the sibling's index wraps to 0. */
  lemma {:induction false} WalkOutOfRange(sha: Sha, nodes: seq<Hash>, idx: nat, current: Hash)
    requires |nodes| <= idx < U64 && |nodes| % 2 == 1 && 32 * |nodes| <= ISIZE_MAX
    ensures WalkUp(sha, nodes, idx, current) == Panicked && PathUp(nodes, idx) == Panicked
    decreases idx
  {
    if SiblingSlot(idx) < |nodes| {
      assert idx == U64 - 1;
      WalkOutOfRange(sha, nodes, Parent(idx), HashPair(sha, current, nodes[0]));
    }
  }

  /** On a complete tree `verify_block` and `auth_path` never panic, and answer as the unbounded walk does. */
  lemma CompleteNeverPanics(sha: Sha, t: MerkleTree, i: nat, d: Bytes, root: Hash)
    requires InMemory(t) && Shaped(t)
    ensures BlockVerdict(sha, t, i, d, root) == Returned(Verifies(sha, t, i, d, root))
    ensures BlockPath(t, i) ==
              Returned(if i < t.paddedLeafCount then PathFrom(t.nodes, t.paddedLeafCount, t.paddedLeafCount - 1 + i) else [])
  {
    hide WalkUp, PathUp, Climb, PathFrom;
    if i < t.paddedLeafCount {
      WalkInRange(sha, t.nodes, t.paddedLeafCount, t.paddedLeafCount - 1 + i, HashBlock(sha, d));
    }
  }

  /**
   For every tree that passes the size test of `from_bytes`, the two calls panic exactly when the
   block is below the padded count and the slot it starts in, in 64 bits, does not exist.
   */
  lemma PanicsIffSlotMissing(sha: Sha, t: MerkleTree, i: nat, d: Bytes, root: Hash)
    requires InMemory(t) && |t.nodes| == Wrap(2 * t.paddedLeafCount - 1)
    ensures BlockVerdict(sha, t, i, d, root) == Panicked <==> i < t.paddedLeafCount && StartSlot(t, i) >= |t.nodes|
    ensures BlockPath(t, i) == Panicked <==> i < t.paddedLeafCount && StartSlot(t, i) >= |t.nodes|
  {
    hide WalkUp, PathUp, Climb, PathFrom;
    var idx := StartSlot(t, i);
    if idx < |t.nodes| {
      WalkInRange(sha, t.nodes, (|t.nodes| + 1) / 2, idx, HashBlock(sha, d));
    } else if i < t.paddedLeafCount {
      WalkOutOfRange(sha, t.nodes, idx, HashBlock(sha, d));
    }
  }

  lemma PathEnd(nodes: seq<Hash>, padded: nat)
    requires 0 < |nodes| == 2 * padded - 1
    ensures PathFrom(nodes, padded, 0) == []
  {
  }

  /**
   The textbook check of an authentication path: no array, only the block number. At each
   level the running hash goes left when the number is even, right when it is odd.
   */
  function FoldPath(sha: Sha, i: nat, current: Hash, path: seq<Hash>): Hash
    decreases |path|
  {
    if path == [] then current
    else FoldPath(sha, i / 2,
                  if i % 2 == 0 then HashPair(sha, current, path[0]) else HashPair(sha, path[0], current),
                  path[1..])
  }

  /** Walking the array and folding the path by the parity of the block number agree. */
  lemma {:induction false} FoldEqualsClimb(sha: Sha, nodes: seq<Hash>, padded: nat, h: nat, i: nat, current: Hash)
    requires i < Pow2(h) && Pow2(h) - 1 + i < |nodes| == 2 * padded - 1
    ensures FoldPath(sha, i, current, PathFrom(nodes, padded, Pow2(h) - 1 + i))
         == Climb(sha, nodes, padded, Pow2(h) - 1 + i, current)
    decreases h
  {
    hide FoldPath, PathFrom, Climb, NextHash, Parent, Pow2;
    var idx := Pow2(h) - 1 + i;
    if h == 0 {
      OnlySlot(i);
      FoldNothing(sha, nodes, padded, i, current);
    } else {
      LeafSlotStep(h, i);
      ParentBelow(idx);
      FoldEqualsClimb(sha, nodes, padded, h - 1, i / 2, NextHash(sha, nodes, padded, idx, current));
      FoldRound(sha, nodes, padded, idx, i, current);
    }
  }

  /** What the walk holds one level up. */
  function NextHash(sha: Sha, nodes: seq<Hash>, padded: nat, idx: nat, current: Hash): Hash
    requires 0 < idx < |nodes| == 2 * padded - 1
  {
    sha(WalkMessage(nodes, idx, current))
  }

  lemma ParentBelow(idx: nat)
    requires idx > 0
    ensures Parent(idx) < idx
  {
  }

  /** If walk and fold agree from the parent on, they agree from here on. */
  lemma FoldRound(sha: Sha, nodes: seq<Hash>, padded: nat, idx: nat, i: nat, current: Hash)
    requires 0 < idx < |nodes| == 2 * padded - 1 && (idx % 2 == 1 <==> i % 2 == 0) && Parent(idx) < |nodes|
    requires var next := NextHash(sha, nodes, padded, idx, current);
      FoldPath(sha, i / 2, next, PathFrom(nodes, padded, Parent(idx))) == Climb(sha, nodes, padded, Parent(idx), next)
    ensures FoldPath(sha, i, current, PathFrom(nodes, padded, idx)) == Climb(sha, nodes, padded, idx, current)
  {
    hide FoldPath, PathFrom, Climb;
    FoldStep(sha, nodes, padded, idx, i, current);
    ClimbStep(sha, nodes, padded, idx, current);
  }

  lemma OnlySlot(i: nat)
    requires i < Pow2(0)
    ensures Pow2(0) - 1 + i == 0
  {
  }

  lemma FoldNothing(sha: Sha, nodes: seq<Hash>, padded: nat, i: nat, current: Hash)
    requires 0 < |nodes| == 2 * padded - 1
    ensures FoldPath(sha, i, current, PathFrom(nodes, padded, 0)) == Climb(sha, nodes, padded, 0, current)
  {
    PathEnd(nodes, padded);
  }

  lemma ClimbStep(sha: Sha, nodes: seq<Hash>, padded: nat, idx: nat, current: Hash)
    requires 0 < idx < |nodes| == 2 * padded - 1
    ensures Climb(sha, nodes, padded, idx, current)
         == Climb(sha, nodes, padded, Parent(idx), sha(WalkMessage(nodes, idx, current)))
  {
  }

  lemma {:induction false} PathLength(nodes: seq<Hash>, padded: nat, h: nat, i: nat)
    requires i < Pow2(h) && Pow2(h) - 1 + i < |nodes| == 2 * padded - 1
    ensures |PathFrom(nodes, padded, Pow2(h) - 1 + i)| == h
    decreases h
  {
    if h > 0 {
      LeafSlotStep(h, i);
      PathLength(nodes, padded, h - 1, i / 2);
    }
  }

  lemma LeafSlotStep(h: nat, i: nat)
    requires h > 0 && i < Pow2(h)
    ensures var idx := Pow2(h) - 1 + i;
      idx > 0 && Parent(idx) == Pow2(h - 1) - 1 + i / 2 && (idx % 2 == 1 <==> i % 2 == 0) && i / 2 < Pow2(h - 1)
  {
    Pow2Positive(h - 1);
    HalveSlot(Pow2(h - 1), i);
  }

  lemma HalveSlot(w: nat, i: nat)
    requires w >= 1 && i < 2 * w
    ensures var idx := 2 * w - 1 + i;
      idx > 0 && (idx - 1) / 2 == w - 1 + i / 2 && (idx % 2 == 1 <==> i % 2 == 0) && i / 2 < w
  {
    var half, odd := i / 2, i % 2;
    assert i == 2 * half + odd;
    assert 2 * w - 1 + i - 1 == 2 * (w - 1 + half) + odd;
  }

  lemma FoldStep(sha: Sha, nodes: seq<Hash>, padded: nat, idx: nat, i: nat, current: Hash)
    requires 0 < idx < |nodes| == 2 * padded - 1
    requires idx % 2 == 1 <==> i % 2 == 0
    ensures FoldPath(sha, i, current, PathFrom(nodes, padded, idx))
         == FoldPath(sha, i / 2, sha(WalkMessage(nodes, idx, current)), PathFrom(nodes, padded, Parent(idx)))
  {
    assert PathFrom(nodes, padded, idx)[1..] == PathFrom(nodes, padded, Parent(idx));
  }

  /** `verify_block` accepts exactly when the `auth_path` of the block folds to the root. */
  lemma VerifiesIffPathFolds(sha: Sha, data: Bytes, t: MerkleTree, i: nat, d: Bytes, root: Hash)
    requires Shaped(t) && t.paddedLeafCount == NextPowerOfTwo(LeafCount(data))
    requires i < t.paddedLeafCount
    ensures Verifies(sha, t, i, d, root)
       <==> FoldPath(sha, i, HashBlock(sha, d), PathFrom(t.nodes, t.paddedLeafCount, t.paddedLeafCount - 1 + i)) == root
    ensures |PathFrom(t.nodes, t.paddedLeafCount, t.paddedLeafCount - 1 + i)| == Height(data)
  {
    hide Climb, FoldPath, PathFrom, Pow2, Log2Ceil;
    PathLength(t.nodes, t.paddedLeafCount, Height(data), i);
    FoldEqualsClimb(sha, t.nodes, t.paddedLeafCount, Height(data), i, HashBlock(sha, d));
  }

  lemma LeafSlot(sha: Sha, data: Bytes, t: MerkleTree, i: nat)
    requires IsTreeOf(sha, data, t) && i < LeafCount(data)
    ensures i < t.paddedLeafCount
    ensures t.nodes[t.paddedLeafCount - 1 + i] == HashBlock(sha, Block(data, i))
  {
    NextPowerOfTwoIsLeast(LeafCount(data), 0);
    assert t.nodes[t.paddedLeafCount - 1 + i] == Leaf(sha, data, i);
  }

  // ── Completeness ──────────────────────────────────────────────────────────

  lemma {:induction false} ClimbFromGenuine(sha: Sha, nodes: seq<Hash>, padded: nat, idx: nat)
    requires padded >= 1 && |nodes| == 2 * padded - 1 && HeapHashed(sha, nodes, padded)
    requires idx < |nodes|
    ensures Climb(sha, nodes, padded, idx, nodes[idx]) == nodes[0]
    decreases idx
  {
    hide Climb, HeapHashed, WalkMessage, GenuineMessage;
    if idx == 0 {
      ClimbEnd(sha, nodes, padded, nodes[0]);
    } else {
      GenuineParent(sha, nodes, padded, idx);
      ClimbStep(sha, nodes, padded, idx, nodes[idx]);
      ClimbFromGenuine(sha, nodes, padded, Parent(idx));
    }
  }

  /** Every block of the data verifies against its own tree. */
  lemma GenuineBlockVerifies(sha: Sha, data: Bytes, t: MerkleTree, i: nat, d: Bytes)
    requires IsTreeOf(sha, data, t) && i < LeafCount(data) && Pad(d) == Pad(Block(data, i))
    ensures Verifies(sha, t, i, d, RootHash(t))
  {
    LeafSlot(sha, data, t, i);
    ClimbFromGenuine(sha, t.nodes, t.paddedLeafCount, t.paddedLeafCount - 1 + i);
  }

  // ── Soundness with untrusted siblings ─────────────────────────────────────

  ghost predicate Collides(sha: Sha, pair: (Bytes, Bytes)) {
    pair.0 != pair.1 && sha(pair.0) == sha(pair.1)
  }

  function GenuineMessage(genuine: seq<Hash>, idx: nat): Bytes
    requires 0 < idx && 2 * Parent(idx) + 2 < |genuine|
  {
    Pair(genuine[2 * Parent(idx) + 1], genuine[2 * Parent(idx) + 2])
  }

  /**
   The first pair of messages on the way up that differ and hash alike: what the walk hashed
   over the presented siblings, and what the genuine tree hashed at the same parent.
   */
  function ExtractAbove(sha: Sha, genuine: seq<Hash>, presented: seq<Hash>, padded: nat, idx: nat, current: Hash): (Bytes, Bytes)
    requires idx < |genuine| == |presented| == 2 * padded - 1
    decreases idx
  {
    if idx == 0 then ([], [])
    else
      var m, g := WalkMessage(presented, idx, current), GenuineMessage(genuine, idx);
      if m != g && sha(m) == sha(g) then (m, g)
      else ExtractAbove(sha, genuine, presented, padded, Parent(idx), sha(m))
  }

  /** As ExtractAbove, starting one step lower with the leaf messages `m` (presented) and `g` (genuine). */
  function ExtractFrom(sha: Sha, genuine: seq<Hash>, presented: seq<Hash>, padded: nat, idx: nat, m: Bytes, g: Bytes): (Bytes, Bytes)
    requires idx < |genuine| == |presented| == 2 * padded - 1
  {
    if m != g && sha(m) == sha(g) then (m, g)
    else ExtractAbove(sha, genuine, presented, padded, idx, sha(m))
  }

  /** The two colliding messages, computed from a block `d` accepted in place of the genuine block `b`. */
  function ExtractCollision(sha: Sha, b: Bytes, genuine: MerkleTree, presented: MerkleTree, i: nat, d: Bytes): (Bytes, Bytes)
    requires Shaped(genuine) && Shaped(presented)
    requires i < genuine.paddedLeafCount == presented.paddedLeafCount
  {
    ExtractFrom(sha, genuine.nodes, presented.nodes, genuine.paddedLeafCount, genuine.paddedLeafCount - 1 + i, Pad(d), Pad(b))
  }

  /** A walk that reaches the genuine root started from the genuine hash, or crossed a collision. */
  lemma {:induction false} ClimbSound(sha: Sha, genuine: seq<Hash>, presented: seq<Hash>, padded: nat, idx: nat, current: Hash)
    requires padded >= 1 && |genuine| == |presented| == 2 * padded - 1
    requires HeapHashed(sha, genuine, padded) && idx < |genuine|
    requires Climb(sha, presented, padded, idx, current) == genuine[0]
    ensures current == genuine[idx] || Collides(sha, ExtractAbove(sha, genuine, presented, padded, idx, current))
    decreases idx
  {
    hide HeapHashed, Climb, WalkMessage, GenuineMessage;
    if idx == 0 {
      ClimbEnd(sha, presented, padded, current);
    } else {
      var m, g := WalkMessage(presented, idx, current), GenuineMessage(genuine, idx);
      ClimbStep(sha, presented, padded, idx, current);
      GenuineParent(sha, genuine, padded, idx);
      ClimbSound(sha, genuine, presented, padded, Parent(idx), sha(m));
      if m == g {
        SameMessage(genuine, presented, idx, current);
      }
    }
  }

  lemma ClimbEnd(sha: Sha, nodes: seq<Hash>, padded: nat, current: Hash)
    requires 0 < |nodes| == 2 * padded - 1
    ensures Climb(sha, nodes, padded, 0, current) == current
  {
  }

  /** In a hashed tree the parent's slot holds the hash of the message over its children. */
  lemma GenuineParent(sha: Sha, nodes: seq<Hash>, padded: nat, idx: nat)
    requires 0 < idx < |nodes| == 2 * padded - 1 && HeapHashed(sha, nodes, padded)
    ensures nodes[Parent(idx)] == sha(GenuineMessage(nodes, idx))
    ensures WalkMessage(nodes, idx, nodes[idx]) == GenuineMessage(nodes, idx)
  {
    assert SlotHashed(sha, nodes, Parent(idx));
  }

  lemma SameMessage(genuine: seq<Hash>, presented: seq<Hash>, idx: nat, current: Hash)
    requires 0 < idx < |genuine| == |presented| && |genuine| % 2 == 1
    requires WalkMessage(presented, idx, current) == GenuineMessage(genuine, idx)
    ensures current == genuine[idx]
  {
    var p := Parent(idx);
    if idx % 2 == 1 {
      PairInjective(current, presented[Sibling(idx)], genuine[2 * p + 1], genuine[2 * p + 2]);
    } else {
      PairInjective(presented[Sibling(idx)], current, genuine[2 * p + 1], genuine[2 * p + 2]);
    }
  }

  /**
   Soundness: against the genuine root, with any node array of the genuine padded count, an
   accepted block is the genuine block up to zero padding, or the extractor returns two
   different messages with one hash.
   */
  lemma VerifySound(sha: Sha, data: Bytes, genuine: MerkleTree, presented: MerkleTree, i: nat, d: Bytes)
    requires IsTreeOf(sha, data, genuine) && Shaped(presented)
    requires presented.paddedLeafCount == genuine.paddedLeafCount
    requires i < LeafCount(data)
    requires Verifies(sha, presented, i, d, RootHash(genuine))
    ensures Pad(d) == Pad(Block(data, i))
         || Collides(sha, ExtractCollision(sha, Block(data, i), genuine, presented, i, d))
  {
    LeafSlot(sha, data, genuine, i);
    BlockSound(sha, genuine, presented, i, Block(data, i), d);
  }

  lemma BlockSound(sha: Sha, genuine: MerkleTree, presented: MerkleTree, i: nat, b: Bytes, d: Bytes)
    requires Shaped(genuine) && Shaped(presented) && presented.paddedLeafCount == genuine.paddedLeafCount
    requires HeapHashed(sha, genuine.nodes, genuine.paddedLeafCount)
    requires i < genuine.paddedLeafCount && genuine.nodes[genuine.paddedLeafCount - 1 + i] == HashBlock(sha, b)
    requires Verifies(sha, presented, i, d, RootHash(genuine))
    ensures Pad(d) == Pad(b) || Collides(sha, ExtractCollision(sha, b, genuine, presented, i, d))
  {
    var padded := genuine.paddedLeafCount;
    MessageSound(sha, genuine.nodes, presented.nodes, padded, padded - 1 + i, Pad(d), Pad(b));
  }

  lemma MessageSound(sha: Sha, genuine: seq<Hash>, presented: seq<Hash>, padded: nat, idx: nat, m: Bytes, g: Bytes)
    requires padded >= 1 && idx < |genuine| == |presented| == 2 * padded - 1
    requires HeapHashed(sha, genuine, padded) && genuine[idx] == sha(g)
    requires Climb(sha, presented, padded, idx, sha(m)) == genuine[0]
    ensures m == g || Collides(sha, ExtractFrom(sha, genuine, presented, padded, idx, m, g))
  {
    ClimbSound(sha, genuine, presented, padded, idx, sha(m));
  }

  // ── When the padded counts differ ─────────────────────────────────────────

  /** The same tree under a padded count one larger, with two zero nodes at its end. */
  function Grown(t: MerkleTree): MerkleTree {
    MerkleTree(t.nodes + [ZERO_HASH, ZERO_HASH], t.leafCount, t.paddedLeafCount + 1)
  }

  /** Walks over an array and over a longer one that starts with it agree. */
  lemma {:induction false} ClimbPrefix(sha: Sha, a: seq<Hash>, pa: nat, b: seq<Hash>, pb: nat, idx: nat, current: Hash)
    requires idx < |a| == 2 * pa - 1 && |b| == 2 * pb - 1 && a <= b
    ensures Climb(sha, a, pa, idx, current) == Climb(sha, b, pb, idx, current)
    decreases idx
  {
    if idx > 0 {
      assert WalkMessage(a, idx, current) == WalkMessage(b, idx, current);
      ClimbPrefix(sha, a, pa, b, pb, Parent(idx), sha(WalkMessage(a, idx, current)));
    }
  }

  /**
   The root does not fix the padded count: a grown tree has the same root, and accepts as block i
   exactly what the tree itself accepts as block i + 1.
   */
  lemma GrownShiftsBlocks(sha: Sha, t: MerkleTree, i: nat, d: Bytes, root: Hash)
    requires Shaped(t) && i + 1 < t.paddedLeafCount
    ensures Shaped(Grown(t)) && RootHash(Grown(t)) == RootHash(t)
    ensures Verifies(sha, Grown(t), i, d, root) <==> Verifies(sha, t, i + 1, d, root)
  {
    ClimbPrefix(sha, t.nodes, t.paddedLeafCount, Grown(t).nodes, t.paddedLeafCount + 1, t.paddedLeafCount + i, HashBlock(sha, d));
  }

  /** The tree cut or zero-filled to another padded count. */
  function Fitted(t: MerkleTree, padded: nat): MerkleTree
    requires padded >= 1
  {
    var n := 2 * padded - 1;
    MerkleTree(if |t.nodes| >= n then t.nodes[..n] else t.nodes + seq(n - |t.nodes|, _ => ZERO_HASH), t.leafCount, padded)
  }

  /** Below the end of both arrays, walks over the tree and over the fitted one agree. */
  lemma FittedClimb(sha: Sha, t: MerkleTree, padded: nat, idx: nat, current: Hash)
    requires Shaped(t) && padded >= 1 && idx < |t.nodes| && idx < 2 * padded - 1
    ensures Shaped(Fitted(t, padded))
    ensures Climb(sha, t.nodes, t.paddedLeafCount, idx, current) == Climb(sha, Fitted(t, padded).nodes, padded, idx, current)
  {
    hide Climb;
    if t.paddedLeafCount >= padded {
      ClimbPrefix(sha, Fitted(t, padded).nodes, padded, t.nodes, t.paddedLeafCount, idx, current);
    } else {
      ClimbPrefix(sha, t.nodes, t.paddedLeafCount, Fitted(t, padded).nodes, padded, idx, current);
    }
  }

  /** Where a walk holding the hash of `m` enters the first `limit` slots, and the message whose hash it holds there. */
  function Entry(sha: Sha, nodes: seq<Hash>, limit: nat, idx: nat, m: Bytes): (r: (nat, Bytes))
    requires idx < |nodes| && |nodes| % 2 == 1 && limit >= 1
    ensures r.0 < limit && r.0 < |nodes|
    decreases idx
  {
    if idx < limit then (idx, m)
    else Entry(sha, nodes, limit, Parent(idx), WalkMessage(nodes, idx, sha(m)))
  }

  lemma {:induction false} EntryClimbs(sha: Sha, nodes: seq<Hash>, padded: nat, limit: nat, idx: nat, m: Bytes)
    requires idx < |nodes| == 2 * padded - 1 && limit >= 1
    ensures var e := Entry(sha, nodes, limit, idx, m);
      Climb(sha, nodes, padded, idx, sha(m)) == Climb(sha, nodes, padded, e.0, sha(e.1))
    decreases idx
  {
    hide Climb, WalkMessage;
    if idx >= limit {
      ClimbStep(sha, nodes, padded, idx, sha(m));
      EntryClimbs(sha, nodes, padded, limit, Parent(idx), WalkMessage(nodes, idx, sha(m)));
    }
  }

  /** A walk from further out enters at the last row, with a message of two hashes. */
  lemma {:induction false} EntryFromBeyond(sha: Sha, nodes: seq<Hash>, padded: nat, idx: nat, m: Bytes)
    requires 2 * padded - 1 <= idx < |nodes| && |nodes| % 2 == 1 && padded >= 1
    ensures var e := Entry(sha, nodes, 2 * padded - 1, idx, m); e.0 >= padded - 1 && |e.1| == 64
    decreases idx
  {
    var next := WalkMessage(nodes, idx, sha(m));
    assert |next| == 64;
    if Parent(idx) >= 2 * padded - 1 {
      EntryFromBeyond(sha, nodes, padded, Parent(idx), next);
    }
  }

  /** The message the genuine tree hashed in a slot: two hashes, or a padded block. */
  function GenuineAt(data: Bytes, t: MerkleTree, idx: nat): Bytes
    requires Shaped(t) && idx < t.paddedLeafCount - 1 + LeafCount(data)
  {
    if idx < t.paddedLeafCount - 1 then Pair(t.nodes[2 * idx + 1], t.nodes[2 * idx + 2])
    else Pad(Block(data, idx - (t.paddedLeafCount - 1)))
  }

  lemma GenuineAtHashes(sha: Sha, data: Bytes, t: MerkleTree, idx: nat)
    requires IsTreeOf(sha, data, t) && idx < t.paddedLeafCount - 1 + LeafCount(data)
    ensures idx < |t.nodes| && t.nodes[idx] == sha(GenuineAt(data, t, idx))
    ensures if idx < t.paddedLeafCount - 1 then |GenuineAt(data, t, idx)| == 64 else |GenuineAt(data, t, idx)| >= 4096
  {
    if idx < t.paddedLeafCount - 1 {
      assert SlotHashed(sha, t.nodes, idx);
    } else {
      LeafSlot(sha, data, t, idx - (t.paddedLeafCount - 1));
    }
  }

  /** Where the walk of block i enters the genuine array, and the message it holds the hash of. */
  function BlockEntry(sha: Sha, genuine: MerkleTree, presented: MerkleTree, i: nat, d: Bytes): (r: (nat, Bytes))
    requires Shaped(genuine) && Shaped(presented) && i < presented.paddedLeafCount
    ensures r.0 < |genuine.nodes| && r.0 < |presented.nodes|
  {
    Entry(sha, presented.nodes, 2 * genuine.paddedLeafCount - 1, presented.paddedLeafCount - 1 + i, Pad(d))
  }

  /** The colliding messages, when block i is accepted under another padded count. */
  function ExtractShifted(sha: Sha, data: Bytes, genuine: MerkleTree, presented: MerkleTree, i: nat, d: Bytes): (Bytes, Bytes)
    requires Shaped(genuine) && Shaped(presented) && i < presented.paddedLeafCount
  {
    var p := genuine.paddedLeafCount;
    var (idx, m) := BlockEntry(sha, genuine, presented, i, d);
    var fitted := Fitted(presented, p).nodes;
    if idx < p - 1 + LeafCount(data) then ExtractFrom(sha, genuine.nodes, fitted, p, idx, m, GenuineAt(data, genuine, idx))
    else ExtractAbove(sha, genuine.nodes, fitted, p, idx, sha(m))
  }

  /** The walk of block i enters the genuine array in a zero leaf with a message that hashes to zero. */
  ghost predicate ZeroPreimage(sha: Sha, data: Bytes, genuine: MerkleTree, presented: MerkleTree, i: nat, d: Bytes)
    requires Shaped(genuine) && Shaped(presented) && i < presented.paddedLeafCount
  {
    var (idx, m) := BlockEntry(sha, genuine, presented, i, d);
    idx >= genuine.paddedLeafCount - 1 + LeafCount(data) && sha(m) == ZERO_HASH
  }

  /** The slot of block i is the slot of genuine block g. */
  predicate SameSlot(genuine: MerkleTree, presented: MerkleTree, i: nat, g: nat) {
    presented.paddedLeafCount + i == genuine.paddedLeafCount + g
  }

  /** Some block of the data, in the slot of block i, is `d` up to zero padding. */
  ghost predicate IsBlockInSlot(data: Bytes, genuine: MerkleTree, presented: MerkleTree, i: nat, d: Bytes) {
    exists g: nat :: g < LeafCount(data) && SameSlot(genuine, presented, i, g) && Pad(d) == Pad(Block(data, g))
  }

  /**
   Soundness whatever the presented padded count, for every block number: an accepted block is the
   genuine block whose slot it was looked up in, up to zero padding, or two colliding messages are
   extracted, or a message that hashes to the zero hash. It is block i itself exactly when the
   counts agree.
   */
  lemma VerifySoundShifted(sha: Sha, data: Bytes, genuine: MerkleTree, presented: MerkleTree, i: nat, d: Bytes)
    requires IsTreeOf(sha, data, genuine) && Shaped(presented)
    requires Verifies(sha, presented, i, d, RootHash(genuine))
    ensures || IsBlockInSlot(data, genuine, presented, i, d)
            || Collides(sha, ExtractShifted(sha, data, genuine, presented, i, d))
            || ZeroPreimage(sha, data, genuine, presented, i, d)
    ensures forall g: nat :: SameSlot(genuine, presented, i, g) ==>
              (g == i <==> presented.paddedLeafCount == genuine.paddedLeafCount)
  {
    hide HeapHashed, Leaf, NextPowerOfTwo, ExtractFrom, ExtractAbove, Climb, Entry, Block, LeafCount;
    var p, q := genuine.paddedLeafCount, presented.paddedLeafCount;
    var slot := q - 1 + i;
    var (idx, m) := BlockEntry(sha, genuine, presented, i, d);
    EntryClimbs(sha, presented.nodes, q, 2 * p - 1, slot, Pad(d));
    FittedClimb(sha, presented, p, idx, sha(m));
    EntryKinds(sha, genuine, presented, i, d);
    EnteredSound(sha, data, genuine, Fitted(presented, p).nodes, idx, m);
    if slot < 2 * p - 1 && p - 1 <= slot < p - 1 + LeafCount(data) && m == GenuineAt(data, genuine, idx) {
      assert SameSlot(genuine, presented, i, slot - (p - 1));
    }
  }

  /** Started inside the genuine array, the walk enters where it starts, with the block; else in the last row, with two hashes. */
  lemma EntryKinds(sha: Sha, genuine: MerkleTree, presented: MerkleTree, i: nat, d: Bytes)
    requires Shaped(genuine) && Shaped(presented) && i < presented.paddedLeafCount
    ensures var p, slot := genuine.paddedLeafCount, presented.paddedLeafCount - 1 + i;
      var (idx, m) := BlockEntry(sha, genuine, presented, i, d);
      if slot < 2 * p - 1 then idx == slot && m == Pad(d) && |m| >= 4096 else idx >= p - 1 && |m| == 64
  {
    var p, slot := genuine.paddedLeafCount, presented.paddedLeafCount - 1 + i;
    if slot >= 2 * p - 1 {
      EntryFromBeyond(sha, presented.nodes, p, slot, Pad(d));
    }
  }

  /** From where the walk entered: the genuine message, a collision, or a zero preimage. */
  lemma EnteredSound(sha: Sha, data: Bytes, genuine: MerkleTree, fitted: seq<Hash>, idx: nat, m: Bytes)
    requires IsTreeOf(sha, data, genuine) && idx < |genuine.nodes| == |fitted|
    requires Climb(sha, fitted, genuine.paddedLeafCount, idx, sha(m)) == RootHash(genuine)
    ensures var p := genuine.paddedLeafCount;
      if idx < p - 1 + LeafCount(data) then
        var g := GenuineAt(data, genuine, idx);
        && (m == g || Collides(sha, ExtractFrom(sha, genuine.nodes, fitted, p, idx, m, g)))
        && (if idx < p - 1 then |g| == 64 else |g| >= 4096)
      else
        sha(m) == ZERO_HASH || Collides(sha, ExtractAbove(sha, genuine.nodes, fitted, p, idx, sha(m)))
  {
    hide HeapHashed, NextPowerOfTwo, ExtractFrom, ExtractAbove, Climb, GenuineAt, LeafCount;
    var p := genuine.paddedLeafCount;
    if idx < p - 1 + LeafCount(data) {
      GenuineAtHashes(sha, data, genuine, idx);
      MessageSound(sha, genuine.nodes, fitted, p, idx, m, GenuineAt(data, genuine, idx));
    } else {
      assert genuine.nodes[p - 1 + (idx - (p - 1))] == Leaf(sha, data, idx - (p - 1));
      ClimbSound(sha, genuine.nodes, fitted, p, idx, sha(m));
    }
  }
}
