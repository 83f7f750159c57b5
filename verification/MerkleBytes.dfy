/**
 The binary form of a tree (`to_bytes` / `from_bytes` of verity.rs): three little-endian
 64-bit counts, then the nodes. `usize` is 64 bits wide and its arithmetic wraps, as in the
 release profile; a vector of more than isize::MAX bytes is a capacity-overflow panic.
 */
module MerkleBytes {
  import opened Base
  import opened Merkle

  const WORD: nat := 8
  const HEADER: nat := 24

  // ── Little-endian numbers ─────────────────────────────────────────────────

  function Pow256(k: nat): nat {
    if k == 0 then 1 else 256 * Pow256(k - 1)
  }

  function ToLE(n: nat, k: nat): (r: Bytes)
    ensures |r| == k
    decreases k
  {
    if k == 0 then [] else [(n % 256) as byte] + ToLE(n / 256, k - 1)
  }

  function FromLE(s: Bytes): nat {
    if s == [] then 0 else s[0] as nat + 256 * FromLE(s[1..])
  }

  lemma {:induction false} FromToLE(n: nat, k: nat)
    requires n < Pow256(k)
    ensures FromLE(ToLE(n, k)) == n
    decreases k
  {
    if k > 0 {
      FromToLE(n / 256, k - 1);
      assert ToLE(n, k)[1..] == ToLE(n / 256, k - 1);
    }
  }

  lemma {:induction false} ToFromLE(s: Bytes)
    ensures FromLE(s) < Pow256(|s|)
    ensures ToLE(FromLE(s), |s|) == s
    decreases |s|
  {
    if s != [] {
      ToFromLE(s[1..]);
      assert FromLE(s) / 256 == FromLE(s[1..]);
    }
  }

  lemma Pow256OfWord()
    ensures Pow256(WORD) == U64
  {
    assert Pow256(8) == U64;
  }

  lemma WordRoundTrip(n: nat)
    requires n < U64
    ensures FromLE(ToLE(n, WORD)) == n
  {
    Pow256OfWord();
    FromToLE(n, WORD);
  }

  lemma WordRoundTripBack(s: Bytes)
    requires |s| == WORD
    ensures FromLE(s) < U64 && ToLE(FromLE(s), WORD) == s
  {
    Pow256OfWord();
    ToFromLE(s);
  }

  // ── The node area ─────────────────────────────────────────────────────────

  function Flatten(nodes: seq<Hash>): Bytes {
    if nodes == [] then [] else nodes[0] + Flatten(nodes[1..])
  }

  function Chunks(b: Bytes): seq<Hash> {
    if |b| < HASH_SIZE then [] else [b[..HASH_SIZE]] + Chunks(b[HASH_SIZE..])
  }

  lemma {:induction false} ChunksOfFlatten(nodes: seq<Hash>)
    ensures |Flatten(nodes)| == 32 * |nodes|
    ensures Chunks(Flatten(nodes)) == nodes
    decreases |nodes|
  {
    if nodes != [] {
      ChunksOfFlatten(nodes[1..]);
      var b := Flatten(nodes);
      assert b[..HASH_SIZE] == nodes[0];
      assert b[HASH_SIZE..] == Flatten(nodes[1..]);
    }
  }

  lemma {:induction false} FlattenOfChunks(b: Bytes, n: nat)
    requires |b| == 32 * n
    ensures |Chunks(b)| == n && Flatten(Chunks(b)) == b
    decreases n
  {
    if n > 0 {
      FlattenOfChunks(b[HASH_SIZE..], n - 1);
      assert Chunks(b)[1..] == Chunks(b[HASH_SIZE..]);
      assert b == b[..HASH_SIZE] + b[HASH_SIZE..];
    }
  }

  lemma {:induction false} FlattenAppend(nodes: seq<Hash>, h: Hash)
    ensures Flatten(nodes + [h]) == Flatten(nodes) + h
    decreases |nodes|
  {
    if nodes == [] {
      assert ([h])[1..] == [];
      assert nodes + [h] == [h];
    } else {
      FlattenAppend(nodes[1..], h);
      assert (nodes + [h])[1..] == nodes[1..] + [h];
    }
  }

  // ── to_bytes ──────────────────────────────────────────────────────────────

  /** Fits a 64-bit address space, with the node count of a complete tree modulo 2^64. */
  predicate Storable(t: MerkleTree) {
    && t.leafCount < U64 && t.paddedLeafCount < U64
    && |t.nodes| == Wrap(2 * t.paddedLeafCount - 1)
    && HEADER + 32 * |t.nodes| <= ISIZE_MAX
  }

  /** The count test lets a wrapped count through: a storable tree is complete exactly below 2^63 leaves. */
  lemma StorableShape(t: MerkleTree)
    requires Storable(t)
    ensures Shaped(t) <==> t.paddedLeafCount < 0x8000_0000_0000_0000
  {
  }

  function Header(leafCount: nat, padded: nat, nodeCount: nat): (r: Bytes)
    ensures |r| == HEADER
  {
    ToLE(leafCount, WORD) + ToLE(padded, WORD) + ToLE(nodeCount, WORD)
  }

  function Encoding(t: MerkleTree): Bytes {
    Header(t.leafCount, t.paddedLeafCount, |t.nodes|) + Flatten(t.nodes)
  }

  /** Byte k of a little-endian number is its k-th digit to base 256, the least first. */
  lemma {:induction false} ToLEDigit(n: nat, len: nat, k: nat)
    requires k < len
    ensures ToLE(n, len)[k] as nat == Shifted(n, k) % 256
    decreases k
  {
    if k > 0 {
      ToLEDigit(n / 256, len - 1, k - 1);
      assert ToLE(n, len)[k] == ToLE(n / 256, len - 1)[k - 1];
    }
  }

  /** n divided by 256, k times. */
  function Shifted(n: nat, k: nat): nat {
    if k == 0 then n else Shifted(n / 256, k - 1)
  }

  /** Where everything lies in the binary form: the three counts, then 32 bytes a node. */
  lemma EncodingLayout(t: MerkleTree)
    ensures var e := Encoding(t);
      && |e| == 24 + 32 * |t.nodes|
      && e[0..8] == ToLE(t.leafCount, 8) && e[8..16] == ToLE(t.paddedLeafCount, 8) && e[16..24] == ToLE(|t.nodes|, 8)
      && forall k: nat :: k < |t.nodes| ==> e[24 + 32 * k..56 + 32 * k] == t.nodes[k]
  {
    hide ToLE, Flatten;
    ChunksOfFlatten(t.nodes);
    Fields(ToLE(t.leafCount, 8), ToLE(t.paddedLeafCount, 8), ToLE(|t.nodes|, 8), Flatten(t.nodes));
    var e := Encoding(t);
    forall k: nat | k < |t.nodes|
      ensures e[24 + 32 * k..56 + 32 * k] == t.nodes[k]
    {
      NodeAt(t.nodes, k);
      assert e[24..][32 * k..32 * k + 32] == e[24 + 32 * k..56 + 32 * k];
    }
  }

  lemma {:induction false} NodeAt(nodes: seq<Hash>, k: nat)
    requires k < |nodes|
    ensures |Flatten(nodes)| == 32 * |nodes| && Flatten(nodes)[32 * k..32 * k + 32] == nodes[k]
    decreases k
  {
    ChunksOfFlatten(nodes);
    if k > 0 {
      NodeAt(nodes[1..], k - 1);
      assert Flatten(nodes)[32..] == Flatten(nodes[1..]);
      assert Flatten(nodes)[32..][32 * (k - 1)..32 * (k - 1) + 32] == Flatten(nodes)[32 * k..32 * k + 32];
    }
  }

  method ToBytes(t: MerkleTree) returns (out: Bytes)
    ensures out == Encoding(t)
  {
    out := Header(t.leafCount, t.paddedLeafCount, |t.nodes|);
    ghost var header := out;
    for i := 0 to |t.nodes|
      invariant out == header + Flatten(t.nodes[..i])
    {
      FlattenStep(header, t.nodes, i);
      out := out + t.nodes[i];
    }
    assert t.nodes[..|t.nodes|] == t.nodes;
  }

  lemma FlattenStep(header: Bytes, nodes: seq<Hash>, i: nat)
    requires i < |nodes|
    ensures header + Flatten(nodes[..i]) + nodes[i] == header + Flatten(nodes[..i + 1])
  {
    FlattenAppend(nodes[..i], nodes[i]);
    assert nodes[..i] + [nodes[i]] == nodes[..i + 1];
  }

  // ── from_bytes ────────────────────────────────────────────────────────────

  datatype Decoded = Rejected | Overflow | Tree(t: MerkleTree)

  lemma ChunksOfNothing()
    ensures Chunks([]) == []
  {
  }

  lemma ChunkStep(data: Bytes, start: nat)
    requires start + HASH_SIZE <= |data|
    ensures Chunks(data[start..]) == [data[start..start + HASH_SIZE]] + Chunks(data[start + 32..])
  {
    assert data[start..][..HASH_SIZE] == data[start..start + HASH_SIZE];
    assert data[start..][HASH_SIZE..] == data[start + 32..];
  }

  datatype Check = Bad | TooLarge | Good

  /** The two size tests and the allocation, in wrapping arithmetic. */
  function CheckCounts(len: nat, padded: nat, nodeCount: nat): Check {
    if len != Wrap(24 + nodeCount * 32) then Bad
    else if nodeCount != Wrap(2 * padded - 1) then Bad
    else if nodeCount * 32 > ISIZE_MAX then TooLarge
    else Good
  }

  lemma GoodCounts(len: nat, padded: nat, nodeCount: nat)
    requires len <= ISIZE_MAX && padded < U64 && nodeCount < U64
    ensures CheckCounts(len, padded, nodeCount) == Good
       <==> nodeCount == Wrap(2 * padded - 1) && len == 24 + 32 * nodeCount
  {
  }

  lemma CountsOfHeader(data: Bytes)
    requires HEADER <= |data| <= ISIZE_MAX
    requires CheckCounts(|data|, FromLE(data[8..16]), FromLE(data[16..24])) == Good
    ensures |data| == 24 + 32 * FromLE(data[16..24])
  {
    WordRoundTripBack(data[8..16]);
    WordRoundTripBack(data[16..24]);
    GoodCounts(|data|, FromLE(data[8..16]), FromLE(data[16..24]));
  }

  function Decoding(data: Bytes): Decoded {
    if |data| < HEADER then Rejected else
    var leafCount, padded, nodeCount := FromLE(data[0..8]), FromLE(data[8..16]), FromLE(data[16..24]);
    match CheckCounts(|data|, padded, nodeCount)
    case Bad => Rejected
    case TooLarge => Overflow
    case Good => Tree(MerkleTree(Chunks(data[24..]), leafCount, padded))
  }

  method ReadNodes(data: Bytes, nodeCount: nat) returns (nodes: seq<Hash>)
    requires |data| == 24 + 32 * nodeCount
    ensures nodes == Chunks(data[24..])
  {
    hide Chunks;
    nodes := [];
    assert data[24 + 32 * nodeCount..] == [];
    assert Chunks([]) == [] by { ChunksOfNothing(); }
    for i := 0 to nodeCount
      invariant nodes + Chunks(data[24 + 32 * i..]) == Chunks(data[24..])
    {
      var start := 24 + 32 * i;
      ChunkStep(data, start);
      nodes := nodes + [data[start..start + HASH_SIZE]];
    }
  }

  /** No slice in memory is longer than isize::MAX bytes. */
  method FromBytes(data: Bytes) returns (r: Decoded)
    requires |data| <= ISIZE_MAX
    ensures r == Decoding(data)
  {
    if |data| < HEADER {
      return Rejected;
    }
    var leafCount, padded, nodeCount := FromLE(data[0..8]), FromLE(data[8..16]), FromLE(data[16..24]);
    if CheckCounts(|data|, padded, nodeCount) == Bad {
      return Rejected;
    }
    if CheckCounts(|data|, padded, nodeCount) == TooLarge {
      return Overflow;
    }
    CountsOfHeader(data);
    var nodes := ReadNodes(data, nodeCount);
    r := Tree(MerkleTree(nodes, leafCount, padded));
  }

  // ── Round trips ───────────────────────────────────────────────────────────

  lemma HeaderFields(leafCount: nat, padded: nat, nodeCount: nat, body: Bytes)
    requires leafCount < U64 && padded < U64 && nodeCount < U64
    ensures var e := Header(leafCount, padded, nodeCount) + body;
      FromLE(e[0..8]) == leafCount && FromLE(e[8..16]) == padded && FromLE(e[16..24]) == nodeCount && e[24..] == body
  {
    var a, b, c := ToLE(leafCount, WORD), ToLE(padded, WORD), ToLE(nodeCount, WORD);
    Fields(a, b, c, body);
    WordRoundTrip(leafCount);
    WordRoundTrip(padded);
    WordRoundTrip(nodeCount);
  }

  lemma Fields(a: Bytes, b: Bytes, c: Bytes, body: Bytes)
    requires |a| == |b| == |c| == 8
    ensures var e := a + b + c + body;
      e[0..8] == a && e[8..16] == b && e[16..24] == c && e[24..] == body
  {
  }

  lemma HeaderOfFields(data: Bytes)
    requires |data| >= 24
    ensures var l, p, n := FromLE(data[0..8]), FromLE(data[8..16]), FromLE(data[16..24]);
      l < U64 && p < U64 && n < U64 && data == Header(l, p, n) + data[24..]
  {
    WordRoundTripBack(data[0..8]);
    WordRoundTripBack(data[8..16]);
    WordRoundTripBack(data[16..24]);
    assert data == data[0..8] + data[8..16] + data[16..24] + data[24..];
  }

  /** Every tree survives the trip through its bytes. */
  lemma DecodeEncode(t: MerkleTree)
    requires Storable(t)
    ensures Decoding(Encoding(t)) == Tree(t)
  {
    hide FromLE, Flatten, Chunks, Header, CheckCounts, Decoding;
    HeaderFields(t.leafCount, t.paddedLeafCount, |t.nodes|, Flatten(t.nodes));
    ChunksOfFlatten(t.nodes);
    GoodCounts(|Encoding(t)|, t.paddedLeafCount, |t.nodes|);
    DecodeFields(Encoding(t), t);
  }

  lemma DecodeFields(e: Bytes, t: MerkleTree)
    requires |e| >= 24 && FromLE(e[0..8]) == t.leafCount && FromLE(e[8..16]) == t.paddedLeafCount
    requires FromLE(e[16..24]) == |t.nodes| && Chunks(e[24..]) == t.nodes
    requires CheckCounts(|e|, t.paddedLeafCount, |t.nodes|) == Good
    ensures Decoding(e) == Tree(t)
  {
  }

  /** Whatever is accepted is storable and is reproduced byte for byte. */
  lemma EncodeDecode(data: Bytes)
    requires |data| <= ISIZE_MAX && Decoding(data).Tree?
    ensures Storable(Decoding(data).t) && Encoding(Decoding(data).t) == data
  {
    hide FromLE, Flatten, Chunks, Header;
    HeaderOfFields(data);
    var l, p, n := FromLE(data[0..8]), FromLE(data[8..16]), FromLE(data[16..24]);
    GoodCounts(|data|, p, n);
    FlattenOfChunks(data[24..], n);
    assert Decoding(data) == Tree(MerkleTree(Chunks(data[24..]), l, p));
    FieldsStorable(MerkleTree(Chunks(data[24..]), l, p), n, |data|);
  }

  lemma FieldsStorable(t: MerkleTree, n: nat, len: nat)
    requires t.leafCount < U64 && t.paddedLeafCount < U64 && |t.nodes| == n
    requires n == Wrap(2 * t.paddedLeafCount - 1) && len == 24 + 32 * n && len <= ISIZE_MAX
    ensures Storable(t)
  {
  }

  /** The accepted byte strings are exactly the encodings of the storable trees. */
  lemma DecodesIffEncoding(data: Bytes, t: MerkleTree)
    requires |data| <= ISIZE_MAX
    ensures Decoding(data) == Tree(t) <==> Storable(t) && data == Encoding(t)
  {
    if Decoding(data) == Tree(t) {
      EncodeDecode(data);
    }
    if Storable(t) && data == Encoding(t) {
      DecodeEncode(t);
    }
  }

  // ── What the wrapping size tests let through ──────────────────────────────

  /**
   The parser panics exactly when both size tests hold only modulo 2^64: the length is not the one
   the node count calls for, but the wrapped product hides it.
   */
  lemma OverflowsIff(data: Bytes)
    requires |data| <= ISIZE_MAX
    ensures Decoding(data) == Overflow <==>
              && |data| >= HEADER
              && var padded, nodeCount := FromLE(data[8..16]), FromLE(data[16..24]);
                 && nodeCount == Wrap(2 * padded - 1)
                 && |data| != 24 + 32 * nodeCount && |data| == Wrap(24 + 32 * nodeCount)
  {
    if |data| >= HEADER {
      CountsBelow2To64(data);
      OverflowCounts(|data|, FromLE(data[8..16]), FromLE(data[16..24]));
    }
  }

  lemma CountsBelow2To64(data: Bytes)
    requires |data| >= HEADER
    ensures FromLE(data[8..16]) < U64 && FromLE(data[16..24]) < U64
  {
    WordRoundTripBack(data[8..16]);
    WordRoundTripBack(data[16..24]);
  }

  lemma OverflowCounts(len: nat, padded: nat, nodeCount: nat)
    requires len <= ISIZE_MAX && padded < U64 && nodeCount < U64
    ensures CheckCounts(len, padded, nodeCount) == TooLarge
       <==> nodeCount == Wrap(2 * padded - 1) && len != 24 + 32 * nodeCount && len == Wrap(24 + 32 * nodeCount)
  {
  }

  /** 56 bytes that announce 2^59 + 1 nodes pass both tests and overflow. */
  lemma OverflowingInput() returns (data: Bytes)
    ensures |data| == 56 && Decoding(data) == Overflow
  {
    hide FromLE, Header, ToLE;
    var padded, nodeCount := 0x400_0000_0000_0001, 0x800_0000_0000_0001;
    data := Header(1, padded, nodeCount) + Zeros(32);
    HeaderFields(1, padded, nodeCount, Zeros(32));
    OverflowsIff(data);
  }

  /**
   A tree of one node under a padded count of 2^63 + 1 is accepted from 56 bytes and is no complete
   tree. Verifying its block 0 panics, and its block 2^63 is compared with the root as it stands.
   */
  lemma WrappedTreeAccepted(sha: Sha, d: Bytes, root: Hash) returns (t: MerkleTree)
    ensures |Encoding(t)| == 56 && Decoding(Encoding(t)) == Tree(t) && Storable(t) && !Shaped(t)
    ensures BlockVerdict(sha, t, 0, d, root) == Panicked
    ensures BlockVerdict(sha, t, 0x8000_0000_0000_0000, d, root) == Returned(HashBlock(sha, d) == root)
  {
    hide FromLE, ToLE, Decoding;
    t := MerkleTree([ZERO_HASH], 1, 0x8000_0000_0000_0001);
    DecodeEncode(t);
    ChunksOfFlatten(t.nodes);
    PanicsIffSlotMissing(sha, t, 0, d, root);
  }

  /** A call on a tree that `from_bytes` accepted panics exactly where the start slot is missing; below 2^63 leaves never. */
  lemma DecodedTreePanicsIff(sha: Sha, data: Bytes, i: nat, d: Bytes, root: Hash)
    requires |data| <= ISIZE_MAX && Decoding(data).Tree?
    ensures var t := Decoding(data).t; var missing := i < t.paddedLeafCount && StartSlot(t, i) >= |t.nodes|;
      && (BlockVerdict(sha, t, i, d, root) == Panicked <==> missing)
      && (BlockPath(t, i) == Panicked <==> missing)
      && (missing ==> t.paddedLeafCount >= 0x8000_0000_0000_0000)
  {
    hide BlockVerdict, BlockPath, Decoding;
    EncodeDecode(data);
    StorableShape(Decoding(data).t);
    PanicsIffSlotMissing(sha, Decoding(data).t, i, d, root);
  }
}
