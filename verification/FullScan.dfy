/**
 What `full_check` of verity.rs examines: for each manifest entry the blocks of the file as it
 is now, then one empty block for each index the file no longer reaches.
 */
module FullScan {
  import opened Base
  import opened Merkle
  import opened Layout
  import opened Reader

  datatype Probe = Probe(block: nat, data: Bytes)

  /** The first n blocks of a file's present content, at consecutive tree indices. */
  function ContentProbes(first: nat, content: Bytes, n: nat): seq<Probe>
    requires n <= BlocksFor(|content|)
  {
    if n == 0 then [] else ContentProbes(first, content, n - 1) + [Probe(first + n - 1, FileBlock(content, n - 1))]
  }

  function PaddingProbes(from: nat, to: nat): seq<Probe>
    decreases to - from
  {
    if from >= to then [] else PaddingProbes(from, to - 1) + [Probe(to - 1, [])]
  }

  function EntryProbes(e: FileEntry, content: Bytes): seq<Probe> {
    var n := BlocksFor(|content|);
    ContentProbes(e.first, content, n) + PaddingProbes(e.first + n, e.end)
  }

  function ScanProbes(entries: seq<FileEntry>, contents: seq<Bytes>): seq<Probe>
    requires |contents| == |entries|
  {
    if entries == [] then []
    else
      var n := |entries| - 1;
      ScanProbes(entries[..n], contents[..n]) + EntryProbes(entries[n], contents[n])
  }

  /** How many of the probes the tree rejects. */
  function Failures(sha: Sha, tree: MerkleTree, root: Hash, probes: seq<Probe>): nat
    requires Shaped(tree)
  {
    if probes == [] then 0
    else
      var n := |probes| - 1;
      Failures(sha, tree, root, probes[..n])
      + (if Verifies(sha, tree, probes[n].block, probes[n].data, root) then 0 else 1)
  }

  /** The blocks the accepted probes mark. */
  function Accepted(sha: Sha, tree: MerkleTree, root: Hash, probes: seq<Probe>): set<nat>
    requires Shaped(tree)
  {
    set k | 0 <= k < |probes| && Verifies(sha, tree, probes[k].block, probes[k].data, root) && probes[k].block < tree.leafCount
      :: probes[k].block
  }

  lemma FailuresAppend(sha: Sha, tree: MerkleTree, root: Hash, probes: seq<Probe>, p: Probe)
    requires Shaped(tree)
    ensures Failures(sha, tree, root, probes + [p])
         == Failures(sha, tree, root, probes) + (if Verifies(sha, tree, p.block, p.data, root) then 0 else 1)
  {
    assert (probes + [p])[..|probes|] == probes;
  }

  lemma {:induction false} FailuresConcat(sha: Sha, tree: MerkleTree, root: Hash, a: seq<Probe>, b: seq<Probe>)
    requires Shaped(tree)
    ensures Failures(sha, tree, root, a + b) == Failures(sha, tree, root, a) + Failures(sha, tree, root, b)
    decreases |b|
  {
    if b == [] {
      assert a + b == a;
    } else {
      var n := |b| - 1;
      FailuresConcat(sha, tree, root, a, b[..n]);
      assert (a + b)[..|a| + n] == a + b[..n];
    }
  }

  lemma AcceptedConcat(sha: Sha, tree: MerkleTree, root: Hash, a: seq<Probe>, b: seq<Probe>)
    requires Shaped(tree)
    ensures Accepted(sha, tree, root, a + b) == Accepted(sha, tree, root, a) + Accepted(sha, tree, root, b)
  {
    hide Verifies;
    var ab := a + b;
    forall i | i in Accepted(sha, tree, root, b)
      ensures i in Accepted(sha, tree, root, ab)
    {
      var k :| 0 <= k < |b| && Verifies(sha, tree, b[k].block, b[k].data, root) && b[k].block < tree.leafCount && b[k].block == i;
      assert ab[|a| + k] == b[k];
    }
    forall i | i in Accepted(sha, tree, root, a)
      ensures i in Accepted(sha, tree, root, ab)
    {
      var k :| 0 <= k < |a| && Verifies(sha, tree, a[k].block, a[k].data, root) && a[k].block < tree.leafCount && a[k].block == i;
      assert ab[k] == a[k];
    }
    forall i | i in Accepted(sha, tree, root, ab)
      ensures i in Accepted(sha, tree, root, a) + Accepted(sha, tree, root, b)
    {
      var k :| 0 <= k < |ab| && Verifies(sha, tree, ab[k].block, ab[k].data, root) && ab[k].block < tree.leafCount && ab[k].block == i;
      assert if k < |a| then ab[k] == a[k] else ab[k] == b[k - |a|];
    }
  }

  // ── What the counts mean ──────────────────────────────────────────────────

  /** Among the first n blocks of a file, how many are not what they were when the tree was built. */
  function ChangedBlocks(before: Bytes, now: Bytes, n: nat): nat
    requires n <= BlocksFor(|before|) && n <= BlocksFor(|now|)
  {
    if n == 0 then 0
    else ChangedBlocks(before, now, n - 1) + (if FileBlock(now, n - 1) == FileBlock(before, n - 1) then 0 else 1)
  }

  /** Every file still has its build-time length. */
  predicate SizesKept(files: Files, entries: seq<FileEntry>, contents: seq<Bytes>) {
    && |contents| == |entries|
    && forall k :: 0 <= k < |entries| ==> entries[k].path in files && |contents[k]| == |files[entries[k].path]|
  }

  function TotalChanged(files: Files, entries: seq<FileEntry>, contents: seq<Bytes>): nat
    requires SizesKept(files, entries, contents)
  {
    if entries == [] then 0
    else
      var n := |entries| - 1;
      TotalChanged(files, entries[..n], contents[..n])
      + ChangedBlocks(files[entries[n].path], contents[n], BlocksFor(|contents[n]|))
  }

  lemma {:induction false} ContentProbesLength(first: nat, content: Bytes, n: nat)
    requires n <= BlocksFor(|content|)
    ensures |ContentProbes(first, content, n)| == n
  {
    if n > 0 { ContentProbesLength(first, content, n - 1); }
  }

  /** With sizes kept, the scan examines every block of the layout once. */
  lemma {:induction false} ScanCoversLayout(sha: Sha, files: Files, entries: seq<FileEntry>, contents: seq<Bytes>, data: Bytes)
    requires SizesKept(files, entries, contents) && Contiguous(entries)
    requires forall k :: 0 <= k < |entries| ==> Places(sha, files, entries[k], data)
    ensures |ScanProbes(entries, contents)| == Total(entries)
    decreases |entries|
  {
    hide Aligned, BlocksFor, EntryProbes;
    if entries != [] {
      var n := |entries| - 1;
      ScanCoversLayout(sha, files, entries[..n], contents[..n], data);
      assert Places(sha, files, entries[n], data);
      EntryProbesLength(entries[n], contents[n]);
    }
  }

  lemma EntryProbesLength(e: FileEntry, content: Bytes)
    requires e.end == e.first + BlocksFor(|content|)
    ensures |EntryProbes(e, content)| == e.end - e.first
  {
    ContentProbesLength(e.first, content, BlocksFor(|content|));
    assert PaddingProbes(e.end, e.end) == [];
  }

  /** Some block of some file, as it is now, is accepted in place of a different genuine block. */
  ghost predicate ScanCollision(c: Context, data: Bytes, genuine: MerkleTree, entries: seq<FileEntry>, contents: seq<Bytes>)
    requires Shaped(c.tree) && Shaped(genuine) && c.tree.paddedLeafCount == genuine.paddedLeafCount
    requires |contents| == |entries|
  {
    exists k, j: nat :: 0 <= k < |entries| && j < BlocksFor(|contents[k]|)
      && BlockCollision(c.(entry := entries[k]), data, genuine, j, FileBlock(contents[k], j))
  }

  /** The tree under check accepts every genuine block of every file, as the build's own tree does. */
  ghost predicate AcceptsLayer(c: Context, files: Files, entries: seq<FileEntry>)
    requires Shaped(c.tree)
  {
    forall k :: 0 <= k < |entries| ==> entries[k].path in files && AcceptsFile(c.(entry := entries[k]), files[entries[k].path])
  }

  lemma {:induction false} FileFailures(c: Context, files: Files, data: Bytes, genuine: MerkleTree, now: Bytes, n: nat)
    requires Shaped(c.tree) && Anchored(c, files, data, genuine) && AcceptsFile(c, files[c.entry.path])
    requires |now| == c.entry.size && n <= BlocksFor(|now|)
    ensures Failures(c.sha, c.tree, c.root, ContentProbes(c.entry.first, now, n))
         == ChangedBlocks(files[c.entry.path], now, n)
      || exists j: nat :: j < BlocksFor(|now|) && BlockCollision(c, data, genuine, j, FileBlock(now, j))
    decreases n
  {
    hide BlockCollision, FileBlock, Anchored, AcceptsFile, BlocksFor, Failures, Verifies;
    if n == 0 {
      NoFailures(c.sha, c.tree, c.root);
    } else {
      FileFailures(c, files, data, genuine, now, n - 1);
      OneBlock(c, files, data, genuine, now, n - 1);
      FailuresAppend(c.sha, c.tree, c.root, ContentProbes(c.entry.first, now, n - 1),
                     Probe(c.entry.first + n - 1, FileBlock(now, n - 1)));
    }
  }

  /** A scanned block is accepted exactly when it is unchanged, absent a collision. */
  lemma OneBlock(c: Context, files: Files, data: Bytes, genuine: MerkleTree, now: Bytes, j: nat)
    requires Anchored(c, files, data, genuine) && AcceptsFile(c, files[c.entry.path])
    requires |now| == c.entry.size && j < BlocksFor(|now|)
    ensures (Passes(c, j, FileBlock(now, j)) <==> FileBlock(now, j) == FileBlock(files[c.entry.path], j))
         || BlockCollision(c, data, genuine, j, FileBlock(now, j))
  {
    hide Verifies, BlockCollision, FileBlock, IsTreeOf, Aligned, BlocksFor;
    FileBlockLen(now, j);
    assert Passes(c, j, FileBlock(files[c.entry.path], j));
    if Passes(c, j, FileBlock(now, j)) {
      BlockIntegrity(c, files, data, genuine, j, FileBlock(now, j));
    }
  }

  /**
   For files of unchanged size, the scan's failure count is the exact number of blocks that
   differ from build time, unless a scanned block exhibits a hash collision.
   */
  lemma {:induction false} ScanCountsChanges(c: Context, files: Files, data: Bytes, genuine: MerkleTree,
                                             entries: seq<FileEntry>, contents: seq<Bytes>)
    requires Shaped(c.tree) && Shaped(genuine) && c.tree.paddedLeafCount == genuine.paddedLeafCount
    requires SizesKept(files, entries, contents) && AcceptsLayer(c, files, entries)
    requires forall k :: 0 <= k < |entries| ==> Anchored(c.(entry := entries[k]), files, data, genuine)
    ensures Failures(c.sha, c.tree, c.root, ScanProbes(entries, contents)) == TotalChanged(files, entries, contents)
         || ScanCollision(c, data, genuine, entries, contents)
    decreases |entries|
  {
    hide Failures, BlockCollision, FileBlock, BlocksFor, AcceptsFile, ContentProbes, PaddingProbes;
    if entries == [] {
      NoFailures(c.sha, c.tree, c.root);
    } else if !ScanCollision(c, data, genuine, entries, contents) {
      var n := |entries| - 1;
      var e, now := entries[n], contents[n];
      ScanCountsChanges(c, files, data, genuine, entries[..n], contents[..n]);
      CollisionInPrefix(c, data, genuine, entries, contents);
      EntryFailures(c.(entry := e), files, data, genuine, now);
      FailuresConcat(c.sha, c.tree, c.root, ScanProbes(entries[..n], contents[..n]), EntryProbes(e, now));
    }
  }

  lemma NoFailures(sha: Sha, tree: MerkleTree, root: Hash)
    requires Shaped(tree)
    ensures Failures(sha, tree, root, []) == 0
  {
  }

  lemma CollisionInPrefix(c: Context, data: Bytes, genuine: MerkleTree, entries: seq<FileEntry>, contents: seq<Bytes>)
    requires Shaped(c.tree) && Shaped(genuine) && c.tree.paddedLeafCount == genuine.paddedLeafCount
    requires |contents| == |entries| > 0
    ensures var n := |entries| - 1;
      ScanCollision(c, data, genuine, entries[..n], contents[..n]) ==> ScanCollision(c, data, genuine, entries, contents)
  {
    hide BlockCollision, FileBlock;
    var n := |entries| - 1;
    if ScanCollision(c, data, genuine, entries[..n], contents[..n]) {
      var k, j: nat :| 0 <= k < n && j < BlocksFor(|contents[..n][k]|)
        && BlockCollision(c.(entry := entries[..n][k]), data, genuine, j, FileBlock(contents[..n][k], j));
      assert BlockCollision(c.(entry := entries[k]), data, genuine, j, FileBlock(contents[k], j));
    }
  }

  lemma EntryFailures(c: Context, files: Files, data: Bytes, genuine: MerkleTree, now: Bytes)
    requires Anchored(c, files, data, genuine) && AcceptsFile(c, files[c.entry.path])
    requires |now| == c.entry.size
    ensures Failures(c.sha, c.tree, c.root, EntryProbes(c.entry, now))
         == ChangedBlocks(files[c.entry.path], now, BlocksFor(|now|))
      || exists j: nat :: j < BlocksFor(|now|) && BlockCollision(c, data, genuine, j, FileBlock(now, j))
  {
    hide Failures, BlockCollision, FileBlock, IsTreeOf, ChangedBlocks, ContentProbes;
    FileFailures(c, files, data, genuine, now, BlocksFor(|now|));
    var n := BlocksFor(|now|);
    assert PaddingProbes(c.entry.first + n, c.entry.end) == [];
    assert EntryProbes(c.entry, now) == ContentProbes(c.entry.first, now, n);
  }

  /**
   Scanning a layer right after its build, or any time the file sizes are unchanged: every block
   of the layout is examined, and exactly the changed ones fail, unless one exhibits a collision.
   */
  lemma ScanOfBuild(c: Context, files: Files, data: Bytes, entries: seq<FileEntry>, contents: seq<Bytes>)
    requires LaysOut(c.sha, files, entries, data) && IsTreeOf(c.sha, data, c.tree) && c.root == RootHash(c.tree)
    requires SizesKept(files, entries, contents)
    ensures var probes := ScanProbes(entries, contents);
      && BlockStart(|probes|) == |data|
      && (Failures(c.sha, c.tree, c.root, probes) == TotalChanged(files, entries, contents)
          || ScanCollision(c, data, c.tree, entries, contents))
  {
    hide IsTreeOf, Places, ScanCollision, Failures, AcceptsFile;
    ScanCoversLayout(c.sha, files, entries, contents, data);
    forall k | 0 <= k < |entries|
      ensures Anchored(c.(entry := entries[k]), files, data, c.tree)
      ensures AcceptsFile(c.(entry := entries[k]), files[entries[k].path])
    {
      TreeIsShaped(c.sha, data, c.tree);
      assert Places(c.sha, files, entries[k], data);
      BuildAcceptsFile(c.(entry := entries[k]), files, data);
    }
    TreeIsShaped(c.sha, data, c.tree);
    ScanCountsChanges(c, files, data, c.tree, entries, contents);
  }

  lemma TreeIsShaped(sha: Sha, data: Bytes, t: MerkleTree)
    requires IsTreeOf(sha, data, t)
    ensures Shaped(t)
  {
  }

  // ── Files of any length ───────────────────────────────────────────────────

  /** What a file holds now in its block t: short at the end of the file, empty past it. */
  function NowBlock(now: Bytes, t: nat): Bytes {
    now[Min(BlockStart(t), |now|)..Min(BlockStart(t + 1), |now|)]
  }

  lemma NowBlockIs(now: Bytes, t: nat)
    ensures NowBlock(now, t) == if t < BlocksFor(|now|) then FileBlock(now, t) else []
    ensures |NowBlock(now, t)| <= 4096
  {
  }

  function Max(a: int, b: int): int {
    if a >= b then a else b
  }

  lemma {:induction false} ContentProbesAre(first: nat, now: Bytes, n: nat)
    requires n <= BlocksFor(|now|)
    ensures |ContentProbes(first, now, n)| == n
    ensures forall t: nat :: t < n ==> ContentProbes(first, now, n)[t] == Probe(first + t, NowBlock(now, t))
  {
    hide BlocksFor, FileBlock, NowBlock;
    if n > 0 {
      ContentProbesAre(first, now, n - 1);
      NowBlockIs(now, n - 1);
    }
  }

  lemma {:induction false} PaddingProbesAre(from: nat, to: nat)
    ensures |PaddingProbes(from, to)| == Max(0, to - from)
    ensures forall t: nat :: t < |PaddingProbes(from, to)| ==> PaddingProbes(from, to)[t] == Probe(from + t, [])
    decreases (to - from)
  {
    if from < to { PaddingProbesAre(from, to - 1); }
  }

  /**
   Whatever the file's length is now, the scan of its entry examines consecutive indices from the
   first on, to the end of the entry's range and to the end of the file, each with what the file
   holds there.
   */
  lemma EntryProbesAre(e: FileEntry, now: Bytes)
    ensures |EntryProbes(e, now)| == Max(BlocksFor(|now|), e.end - e.first)
    ensures forall t: nat :: t < |EntryProbes(e, now)| ==> EntryProbes(e, now)[t] == Probe(e.first + t, NowBlock(now, t))
  {
    hide BlocksFor, FileBlock, NowBlock, ContentProbes, PaddingProbes;
    var n := BlocksFor(|now|);
    ContentProbesAre(e.first, now, n);
    PaddingProbesAre(e.first + n, e.end);
    forall t: nat | n <= t < |EntryProbes(e, now)|
      ensures EntryProbes(e, now)[t] == Probe(e.first + t, NowBlock(now, t))
    {
      NowBlockIs(now, t);
    }
  }

  function ScanLength(entries: seq<FileEntry>, contents: seq<Bytes>): nat
    requires |contents| == |entries|
  {
    if entries == [] then 0
    else
      var n := |entries| - 1;
      ScanLength(entries[..n], contents[..n]) + Max(BlocksFor(|contents[n]|), entries[n].end - entries[n].first)
  }

  /** The scan is as long as its entries' scans together, and each of their probes is among its own. */
  lemma {:induction false} ScanHasProbe(entries: seq<FileEntry>, contents: seq<Bytes>, k: nat, t: nat)
    requires |contents| == |entries| && k < |entries| && t < |EntryProbes(entries[k], contents[k])|
    ensures EntryProbes(entries[k], contents[k])[t] in ScanProbes(entries, contents)
    decreases |entries|
  {
    var n := |entries| - 1;
    var front, last := ScanProbes(entries[..n], contents[..n]), EntryProbes(entries[n], contents[n]);
    if k < n {
      ScanHasProbe(entries[..n], contents[..n], k, t);
    } else {
      assert (front + last)[|front| + t] == last[t];
    }
  }

  lemma {:induction false} ScanLengthIs(entries: seq<FileEntry>, contents: seq<Bytes>)
    requires |contents| == |entries|
    ensures |ScanProbes(entries, contents)| == ScanLength(entries, contents)
    decreases |entries|
  {
    hide EntryProbes;
    if entries != [] {
      var n := |entries| - 1;
      ScanLengthIs(entries[..n], contents[..n]);
      EntryProbesAre(entries[n], contents[n]);
    }
  }

  // ── What a probe's verdict means ──────────────────────────────────────────

  /** The probe's data, up to zero padding, is not the block of that number. */
  predicate Differs(data: Bytes, p: Probe) {
    !(p.block < LeafCount(data) && Pad(p.data) == Pad(Block(data, p.block)))
  }

  /** Accepting the probe exhibits a collision, or a message that hashes to the zero hash. */
  ghost predicate Forged(sha: Sha, data: Bytes, genuine: MerkleTree, tree: MerkleTree, p: Probe)
    requires Shaped(genuine) && Shaped(tree)
  {
    p.block < tree.paddedLeafCount &&
    (Collides(sha, ExtractShifted(sha, data, genuine, tree, p.block, p.data))
     || ZeroPreimage(sha, data, genuine, tree, p.block, p.data))
  }

  /** An accepted probe holds the genuine block of its number, or is forged. */
  lemma AcceptedProbe(sha: Sha, data: Bytes, genuine: MerkleTree, tree: MerkleTree, p: Probe)
    requires IsTreeOf(sha, data, genuine) && Shaped(tree) && tree.paddedLeafCount == genuine.paddedLeafCount
    requires Verifies(sha, tree, p.block, p.data, RootHash(genuine))
    ensures !Differs(data, p) || Forged(sha, data, genuine, tree, p)
  {
    hide IsTreeOf, Climb, Pad, Block, LeafCount, ExtractShifted, BlockEntry;
    VerifySoundShifted(sha, data, genuine, tree, p.block, p.data);
  }

  /** How many probes are not the block of their number. */
  function Differing(data: Bytes, probes: seq<Probe>): nat {
    if probes == [] then 0
    else
      var n := |probes| - 1;
      Differing(data, probes[..n]) + (if Differs(data, probes[n]) then 1 else 0)
  }

  /** Against the tree as built, any sequence of probes fails exactly where it differs, unless one is forged. */
  lemma {:induction false} FailuresAreDiffering(sha: Sha, data: Bytes, tree: MerkleTree, probes: seq<Probe>)
    requires IsTreeOf(sha, data, tree) && Shaped(tree)
    ensures Failures(sha, tree, RootHash(tree), probes) == Differing(data, probes)
         || exists k :: 0 <= k < |probes| && Forged(sha, data, tree, tree, probes[k])
    decreases |probes|
  {
    hide IsTreeOf, Verifies, Differs, Forged;
    if probes != [] {
      var n := |probes| - 1;
      FailuresAreDiffering(sha, data, tree, probes[..n]);
      VerdictOfProbe(sha, data, tree, probes[n]);
      if k :| 0 <= k < |probes[..n]| && Forged(sha, data, tree, tree, probes[..n][k]) {
        assert Forged(sha, data, tree, tree, probes[k]);
      }
    }
  }

  lemma VerdictOfProbe(sha: Sha, data: Bytes, tree: MerkleTree, p: Probe)
    requires IsTreeOf(sha, data, tree) && Shaped(tree)
    ensures (Verifies(sha, tree, p.block, p.data, RootHash(tree)) <==> !Differs(data, p)) || Forged(sha, data, tree, tree, p)
  {
    hide IsTreeOf, Verifies, Forged, Pad, Block, LeafCount;
    if Verifies(sha, tree, p.block, p.data, RootHash(tree)) {
      AcceptedProbe(sha, data, tree, tree, p);
    } else if !Differs(data, p) {
      GenuineBlockVerifies(sha, data, tree, p.block, p.data);
    }
  }

  /**
   Within an entry's range a probe differs exactly when the file's block, zero-padded, is not what it
   was; an index the file no longer reaches, exactly when its build-time block was not all zeros.
   */
  lemma EntryProbeDiffers(sha: Sha, files: Files, data: Bytes, e: FileEntry, now: Bytes, t: nat)
    requires Places(sha, files, e, data) && t < BlocksFor(e.size)
    ensures Differs(data, Probe(e.first + t, NowBlock(now, t))) <==> Pad(NowBlock(now, t)) != Pad(FileBlock(files[e.path], t))
    ensures t >= BlocksFor(|now|) ==>
              (Differs(data, Probe(e.first + t, NowBlock(now, t)))
               <==> exists i :: 0 <= i < |FileBlock(files[e.path], t)| && FileBlock(files[e.path], t)[i] != 0)
  {
    hide Pad, Block, FileBlock, Aligned, NowBlock, BlocksFor, BlockStart, LeafCount;
    FileBlockInData(sha, files, e, data, t);
    if t >= BlocksFor(|now|) {
      NowBlockIs(now, t);
      FileBlockLen(files[e.path], t);
      ShortBlock(e.size, t);
      PadIsZeros(FileBlock(files[e.path], t));
    }
  }

  lemma ShortBlock(size: nat, t: nat)
    ensures BlockLen(size, t) <= 4096
  {
  }

  lemma PadIsZeros(d: Bytes)
    requires |d| <= 4096
    ensures Pad([]) == Pad(d) <==> forall i :: 0 <= i < |d| ==> d[i] == 0
  {
    assert |Pad([])| == |Pad(d)| == 4096;
    if Pad([]) == Pad(d) {
      forall i | 0 <= i < |d|
        ensures d[i] == 0
      {
        assert Pad(d)[i] == d[i] && Pad([])[i] == 0;
      }
    }
  }

  /**
   The full scan of a layer as built, whatever its files hold now: the failures are exactly the
   probes that are not the block of their number, unless one is forged.
   */
  lemma ScanOfAnyContents(sha: Sha, files: Files, data: Bytes, tree: MerkleTree, entries: seq<FileEntry>, contents: seq<Bytes>)
    requires LaysOut(sha, files, entries, data) && IsTreeOf(sha, data, tree) && |contents| == |entries|
    ensures Shaped(tree)
    ensures var probes := ScanProbes(entries, contents);
      && |probes| == ScanLength(entries, contents)
      && (|| Failures(sha, tree, RootHash(tree), probes) == Differing(data, probes)
          || exists k :: 0 <= k < |probes| && Forged(sha, data, tree, tree, probes[k]))
  {
    TreeIsShaped(sha, data, tree);
    hide *;
    ScanLengthIs(entries, contents);
    FailuresAreDiffering(sha, data, tree, ScanProbes(entries, contents));
  }

  lemma {:induction false} NoFailureMeansVerified(sha: Sha, tree: MerkleTree, root: Hash, probes: seq<Probe>, p: Probe)
    requires Shaped(tree) && Failures(sha, tree, root, probes) == 0 && p in probes
    ensures Verifies(sha, tree, p.block, p.data, root)
    decreases |probes|
  {
    hide Verifies;
    var n := |probes| - 1;
    if p != probes[n] {
      assert p in probes[..n];
      NoFailureMeansVerified(sha, tree, root, probes[..n], p);
    }
  }

  /**
   A scan without failures, over any nodes of the build's padded count: every block of every file,
   zero-padded, is what it was when the tree was built, or its probe is forged.
   */
  lemma CleanScanMeansIntact(sha: Sha, files: Files, data: Bytes, genuine: MerkleTree, tree: MerkleTree,
                             entries: seq<FileEntry>, contents: seq<Bytes>, k: nat, t: nat)
    requires LaysOut(sha, files, entries, data) && IsTreeOf(sha, data, genuine)
    requires Shaped(tree) && tree.paddedLeafCount == genuine.paddedLeafCount && |contents| == |entries|
    requires Failures(sha, tree, RootHash(genuine), ScanProbes(entries, contents)) == 0
    requires k < |entries| && t < BlocksFor(entries[k].size)
    ensures entries[k].path in files && t < BlocksFor(|files[entries[k].path]|)
    ensures || Pad(NowBlock(contents[k], t)) == Pad(FileBlock(files[entries[k].path], t))
            || Forged(sha, data, genuine, tree, Probe(entries[k].first + t, NowBlock(contents[k], t)))
  {
    hide *;
    var e, now := entries[k], contents[k];
    var p := Probe(e.first + t, NowBlock(now, t));
    PlacedEntry(sha, files, entries, data, k);
    TreeIsShaped(sha, data, genuine);
    ProbedInScan(entries, contents, k, t);
    NoFailureMeansVerified(sha, tree, RootHash(genuine), ScanProbes(entries, contents), p);
    AcceptedProbe(sha, data, genuine, tree, p);
    EntryProbeDiffers(sha, files, data, e, now, t);
  }

  lemma PlacedEntry(sha: Sha, files: Files, entries: seq<FileEntry>, data: Bytes, k: nat)
    requires LaysOut(sha, files, entries, data) && k < |entries|
    ensures Places(sha, files, entries[k], data) && entries[k].path in files
    ensures entries[k].size == |files[entries[k].path]| && entries[k].end == entries[k].first + BlocksFor(entries[k].size)
  {
    hide Aligned, BlocksFor;
    assert Places(sha, files, entries[k], data);
  }

  /** Each index of an entry's range is probed with what the file holds there now. */
  lemma ProbedInScan(entries: seq<FileEntry>, contents: seq<Bytes>, k: nat, t: nat)
    requires |contents| == |entries| && k < |entries| && entries[k].first + t < entries[k].end
    ensures Probe(entries[k].first + t, NowBlock(contents[k], t)) in ScanProbes(entries, contents)
  {
    hide EntryProbes, ScanProbes, NowBlock, BlocksFor;
    EntryProbesAre(entries[k], contents[k]);
    ScanHasProbe(entries, contents, k, t);
  }
}
