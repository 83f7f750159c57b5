# Verified model of rspacefs

rspacefs replaces kernel overlayfs for container images: a writable upper layer is merged over
read-only lower layers in user space, lower layers can be protected by a SHA-256 Merkle tree, and
a FUSE daemon serves the merged view. This project models the parts where a mistake would lose or
forge data, and proves what they guarantee. `dafny verify dfyconfig.toml` checks everything.

| file | contents |
|---|---|
| `Base.dfy`, `NameOrder.dfy` | bytes, options; the order in which names are listed |
| `Merkle.dfy`, `MerkleBytes.dfy` | the hash tree: build, verify, authentication paths, soundness; its binary form |
| `Layout.dfy`, `Manifest.dfy` | layout of a layer's files in blocks; what the manifest's aggregate hash tells |
| `Reader.dfy`, `FullScan.dfy` | what a verified read returns; what a full scan counts |
| `BlockCache.dfy`, `VerifiedLayer.dfy` | the packed bit set; the verified layer and its streaming reader as objects |
| `Paths.dfy`, `Layers.dfy`, `Overlay.dfy` | paths and markers; one layer; lookup and the writes of the merged filesystem |
| `UpperEffects.dfy` | what each write leaves in the upper and when it succeeds, said outright |
| `FlatView.dfy`, `Listing.dfy` | the overlay against a flat map, over whole runs with captures; listing against lookup |
| `CleanUpper.dfy` | which calls leave an entry beside its own whiteout |
| `TreeOps.dfy`, `CopyTree.dfy`, `RemoveTreeProof.dfy`, `MoveTree.dfy`, `NestedMove.dfy`, `WalkCases.dfy` | the recursive walks and `move_dir`, also into itself and into what exists |
| `LayerFS.dfy`, `Pivot.dfy` | the `LayerFS` object with its two caches; the live swap of its upper |
| `Inodes.dfy`, `OpenFiles.dfy`, `Pool.dfy` | the FUSE adapter's inode table, open files, and worker pool |

## How the system is represented

* SHA-256 is a parameter `sha`, any function from byte strings to 32 bytes. No collision resistance
  is assumed. Where a forged block would be accepted, `ExtractCollision` computes, from the genuine
  data, the presented nodes and the presented block, two messages that differ and hash alike. A bare
  "some collision exists" would be true of every hash function and is never used.
* The backing store is adversarial in the integrity theorems: each read call gets an arbitrary
  function from (offset, length) to bytes or an error.
* A path is its list of names; `SplitOfRender` and `RenderInjective` tie it to the slash-separated
  strings of the source. A layer is a finite tree of directories and files whose primitive
  operations behave as a local directory does and change nothing when they fail.
* Methods on objects (`LayerFS`, `VerifiedLayerVfs`, `VerifiedReader`, `VerifiedBlockCache`,
  `InodeTable`, `BufferedFile`, `PvcMount`) change fields step by step as the source does and are
  proved equal to functions on values; the theorems are about those functions.
* A call's `stack` argument is the number of nested calls there is room for. Theorems hold for every
  stack deeper than the tree, and `MoveDirTerminates` gives one.
* Inputs from outside (file contents, I/O results, the order in which a directory lists its entries,
  whether the kernel accepts a backing file) are parameters or arbitrary choices.

Terms used below: an ordinary name does not start with `.wh.`; a layer is clean when no ordinary path
lies next to its own whiteout; a path has visible parents when every directory above it, below the root,
resolves to a directory.

## Where the code and its comments differ

The model follows the code in each case. Each difference that has an input to show it names the
lemma that gives one.

* `verity.rs:66` says empty data gets a zero-hash leaf; the code hashes one zero-filled block.
* `verity.rs:49` says a tree over n leaves has 2n - 1 nodes; n is the padded count.
* `verity.rs:400` computes 2 * padded - 1 in wrapping arithmetic, so a stored tree whose padded count is
  2^63 or more passes the size test with a wrapped node count (`StorableShape`); verifying one of its
  blocks panics exactly when the slot it starts in is missing (`DecodedTreePanicsIff`, `WrappedTreeAccepted`).
* `verity.rs:397` multiplies in wrapping arithmetic too, so some headers get past both size tests and
  `from_bytes`, which otherwise answers None, panics with a capacity overflow (`OverflowsIff`, `OverflowingInput`).
* `verity.rs:1038` compares roots and nothing else. The root does not fix the padded count, and a tree with
  another count has the same root with its blocks shifted (`GrownShiftsBlocks`, `VerifySoundShifted`). Read
  integrity is therefore stated for the padded count that the manifest's block ranges call for.
* `layer.rs:80` says lookup respects whiteouts; it asks only for the whiteout of the path itself. What a
  lower layer holds inside a removed directory still resolves (`RemovedDirKeepsChildren`): after a removal
  nothing below resolves exactly when nothing did before (`RemovedDirEmptyIff`). A successful creation,
  append, copy-up, removal or move leaves the upper unclean exactly when it creates again a whited-out
  directory above a path it writes or hides (`CallKeepsCleanIff`, `WorkBelowWhiteout`).
* Removing or moving a directory that the upper marks opaque deletes the marker, and what it hid in a lower
  resolves again (`MovedOpaqueUnhides`).
* `read_dir` lists names that lookup cuts off behind an opaque marker (`ResolvesIffListed`, `ListedButNotFound`).
* `layer.rs:131-168` leaves the opaque marker out of a cached name set, so the cached answer for the one
  name `.wh..opq` is not the direct probe's (`CachedIffDirect`, `CachedDiffersFromDirect`).
* `fs.rs:1142` calls `create` on an existing file an open; its buffer starts empty all the same, and differs
  from what the path shows exactly when the entry was kept and is not an empty file (`CreateOpen`, `CreateOverKeptFile`).
* `fs.rs:865-884` reuses an inode's live passthrough registration without asking what the path resolves to by
  now, so after a write to the path an open may still be backed by the lower's file (`PassthroughResolvesIff`,
  `StaleRegistration`).
* Moving a file onto one of its own ancestors writes the copy before it fails (`MoveOntoAncestorFails`,
  `MoveOntoParent`, `MoveOntoRemovedParent`); no other move fails once its copy is made (`MoveFileWrites`).
* Moving a directory to a place inside itself never succeeds: the copy walk finds its own copy and goes down
  it, so the move fails with every call stack, however deep (`NestedMoveFails`, `MoveDirEndsIff`).

## Model

| member | source | states |
|---|---|---|
| Merkle.NextPowerOfTwoIsLeast | crates/rspacefs-verity/src/verity.rs:71-72 | the padded leaf count is the least power of two that holds every leaf |
| Merkle.BlocksAreData | crates/rspacefs-verity/src/verity.rs:74-80 | the blocks joined are the data; only the last may be short |
| Merkle.HashLeaves | crates/rspacefs-verity/src/verity.rs:74-83 | the leaf row is one hash a block, zero hashes up to the padded count |
| Merkle.FillNodes | crates/rspacefs-verity/src/verity.rs:85-101 | filling the array bottom-up leaves the row at its end and every interior slot the hash of its children |
| Merkle.Build | crates/rspacefs-verity/src/verity.rs:64-108 | for all data the result is the genuine tree of that data |
| Merkle.SubtreeIsRecursiveHash | crates/rspacefs-verity/src/verity.rs:95-101 | in any correctly hashed heap each node is the recursive Merkle hash of exactly its leaf range |
| Merkle.BuiltSubtrees | crates/rspacefs-verity/src/verity.rs:64-108 | so is each node of a built tree, over the padded leaf row |
| Merkle.RootIsRecursiveHash | crates/rspacefs-verity/src/verity.rs:298-300 | the root hash is the recursive Merkle hash of the padded leaf row |
| Merkle.VerifyBlock | crates/rspacefs-verity/src/verity.rs:316-352 | for any tree in memory the loop returns the verdict of the 64-bit walk, or panics where that walk meets a missing slot |
| Merkle.AuthPath | crates/rspacefs-verity/src/verity.rs:356-371 | for any tree in memory the loop collects the siblings from leaf level to below the root, or panics likewise |
| Merkle.CompleteNeverPanics | crates/rspacefs-verity/src/verity.rs:316-371 | on a complete tree neither call panics, and both answer as the unbounded walk does |
| Merkle.PanicsIffSlotMissing | crates/rspacefs-verity/src/verity.rs:316-371 | on any tree of the size `from_bytes` asks for, both calls panic exactly when the start slot, in 64 bits, does not exist |
| Merkle.FoldEqualsClimb | crates/rspacefs-verity/src/verity.rs:332-349 | walking the array equals folding the path by the parity of the block number |
| Merkle.VerifiesIffPathFolds | crates/rspacefs-verity/src/verity.rs:316-371 | `verify_block` accepts exactly when the block's `auth_path` folds to the root, and the path has one hash a level |
| Merkle.GenuineBlockVerifies | crates/rspacefs-verity/src/verity.rs:316-352 | completeness: every block of the data is accepted against its own tree |
| Merkle.ClimbSound | crates/rspacefs-verity/src/verity.rs:332-351 | a walk over untrusted siblings that ends in the genuine root began at the genuine hash or crossed an extracted collision |
| Merkle.VerifySound | crates/rspacefs-verity/src/verity.rs:316-352 | soundness: with any nodes of the genuine padded count an accepted block is the genuine one up to zero padding, or two colliding messages are extracted |
| Merkle.GrownShiftsBlocks | crates/rspacefs-verity/src/verity.rs:1025-1051 | the root does not fix the padded count: with two zero nodes more the root stays and block i is accepted exactly as block i + 1 was |
| Merkle.VerifySoundShifted | crates/rspacefs-verity/src/verity.rs:316-352 | soundness for any padded count and any block number: an accepted block is the genuine block whose slot it was looked up in, or two colliding messages or a preimage of the zero hash are extracted |
| Merkle.PadInjective | crates/rspacefs-verity/src/verity.rs:1147-1156 | blocks of one length with equal padded forms are equal |
| MerkleBytes.ToBytes | crates/rspacefs-verity/src/verity.rs:376-385 | the bytes are the three little-endian counts and the nodes in order |
| MerkleBytes.EncodingLayout | crates/rspacefs-verity/src/verity.rs:376-385 | where each count and each node lies in the bytes |
| MerkleBytes.ToLEDigit | crates/rspacefs-verity/src/verity.rs:378-380 | byte k of a count is its k-th digit to base 256, the least first |
| MerkleBytes.FromBytes | crates/rspacefs-verity/src/verity.rs:388-415 | the parser decides as the decoding function does, wrapping arithmetic and capacity overflow included |
| MerkleBytes.DecodeEncode | crates/rspacefs-verity/src/verity.rs:376-415 | every tree that fits memory is read back from its bytes |
| MerkleBytes.EncodeDecode | crates/rspacefs-verity/src/verity.rs:376-415 | every accepted byte string is reproduced exactly |
| MerkleBytes.DecodesIffEncoding | crates/rspacefs-verity/src/verity.rs:376-415 | the accepted strings are exactly the encodings of the storable trees |
| MerkleBytes.StorableShape | crates/rspacefs-verity/src/verity.rs:397-400 | an accepted tree is a complete one exactly when its padded count is below 2^63 |
| MerkleBytes.OverflowsIff | crates/rspacefs-verity/src/verity.rs:397-402 | the parser panics exactly when both size tests hold only because the product wraps |
| MerkleBytes.OverflowingInput | crates/rspacefs-verity/src/verity.rs:397-402 | 56 bytes do so: a concrete input |
| MerkleBytes.WrappedTreeAccepted | crates/rspacefs-verity/src/verity.rs:397-400 | 56 bytes decode to a tree that is not complete, on which verifying block 0 panics |
| MerkleBytes.DecodedTreePanicsIff | crates/rspacefs-verity/src/verity.rs:316-415 | a call on a decoded tree panics exactly when its start slot is missing, never below 2^63 padded leaves |
| NameOrder.Sort | crates/rspacefs-core/src/layer.rs:434 | sorting a set of names gives the one strictly ascending sequence of its elements |
| NameOrder.SortedUnique | crates/rspacefs-core/src/layer.rs:434 | a strictly ascending sequence is determined by its elements |
| NameOrder.LessIff | crates/rspacefs-verity/src/verity.rs:121-122 | the order is by the smaller character at the first difference, a name before its continuations |
| Layout.AppendFile | crates/rspacefs-verity/src/verity.rs:126-143 | one file occupies ceil(size/4096) fresh blocks holding its bytes and zeros |
| Layout.BuildFromVfs | crates/rspacefs-verity/src/verity.rs:114-182 | the manifest lists the files in path order, tiles the data without gap or overlap, and carries content, metadata and aggregate hashes and the root of the tree over the data |
| Layout.RangesDisjoint | crates/rspacefs-verity/src/verity.rs:121-164 | block ranges of different files are disjoint and in path order |
| Layout.EveryFileHasEntry | crates/rspacefs-verity/src/verity.rs:121-164 | a path has an entry exactly when it is a file of the layer, and only one |
| Layout.FileBlockInData | crates/rspacefs-verity/src/verity.rs:126-143 | block j of a file, padded, is tree block first + j |
| Layout.HashEntries | crates/rspacefs-verity/src/verity.rs:165-172 | the loop hashes every content hash and metadata hash in order |
| Layout.DecimalReads | crates/rspacefs-verity/src/verity.rs:147 | a size is written as digits that read back to it, without a leading zero |
| Manifest.MessageLayout | crates/rspacefs-verity/src/verity.rs:165-172 | where each hash of each entry lies in the hashed message |
| Manifest.MessageIsHashes | crates/rspacefs-verity/src/verity.rs:165-172 | the hashed message determines the entries' hashes and their number |
| Manifest.ManifestHashBinds | crates/rspacefs-verity/src/verity.rs:470-475 | two builds have equal aggregate hashes exactly when their layers hold the same files and bytes, unless two hashed messages collide |
| BlockCache.OrMask | crates/rspacefs-verity/src/verity.rs:548-559 | or-ing a mask sets its own bit and no other |
| BlockCache.MarkOneDenotes | crates/rspacefs-verity/src/verity.rs:553-560 | a mark adds its in-range block and changes no neighbour |
| BlockCache.MarkAllDenotes | crates/rspacefs-verity/src/verity.rs:553-560 | after any order of marks the bits denote exactly the marked in-range blocks |
| BlockCache.VerifiedBlockCache.constructor | crates/rspacefs-verity/src/verity.rs:532-540 | a new cache denotes no block |
| BlockCache.VerifiedBlockCache.IsVerified | crates/rspacefs-verity/src/verity.rs:543-550 | the bit test is membership in the denoted set |
| BlockCache.VerifiedBlockCache.MarkVerified | crates/rspacefs-verity/src/verity.rs:553-560 | a mark adds exactly its in-range block to the denoted set |
| BlockCache.VerifiedBlockCache.VerifiedCount | crates/rspacefs-verity/src/verity.rs:563-571 | the count is the cardinality of the denoted set |
| Reader.ReadProgress | crates/rspacefs-verity/src/verity.rs:941-963 | an Ok read stores min(length, size - position) bytes, the position moves by the bytes stored, and the resident block stays a verified one |
| Reader.BlockIntegrity | crates/rspacefs-verity/src/verity.rs:884-937 | a block of the right length that passes is the file's build-time block, or a collision is extracted |
| Reader.ReadIntegrity | crates/rspacefs-verity/src/verity.rs:884-963 | in Reject mode every stored byte, also before an error, is the build-time byte at its position, or a block that supplied stored bytes exhibits a collision |
| Reader.SessionIntegrity | crates/rspacefs-verity/src/verity.rs:884-982 | the same for any Ok read after any session of seeks and reads over arbitrary backings and nodes |
| Reader.BuiltLayerIntegrity | crates/rspacefs-verity/src/verity.rs:64-182 | the same from the manifest and root that the build produced, over any nodes of the padded count the manifest's block ranges call for |
| Reader.BuildAcceptsFile | crates/rspacefs-verity/src/verity.rs:652-656 | the build's own tree accepts every block of every file it covers |
| Reader.ReadIsSlice | crates/rspacefs-verity/src/verity.rs:941-963 | over a backing of which every block is served - genuine content, or in Warn mode any of the right size - a read succeeds and is the slice at the position |
| Reader.ReadStopsWhereRefused | crates/rspacefs-verity/src/verity.rs:884-963 | over a backing that holds any content of the right size, a read stores that content and fails exactly if it spans a block that does not pass, at the first one; in Warn mode it never fails |
| Reader.ResidentAnswers | crates/rspacefs-verity/src/verity.rs:886-888 | a read inside the resident block never asks the backing |
| Reader.SeekLandsOnTarget | crates/rspacefs-verity/src/verity.rs:967-982 | a seek lands exactly on its target and fails exactly when that is negative or beyond i64 |
| Reader.SessionIsCursor | crates/rspacefs-verity/src/verity.rs:941-982 | over such backings any session behaves like a cursor over the whole content |
| FullScan.ScanCoversLayout | crates/rspacefs-verity/src/verity.rs:777-828 | with sizes kept the scan examines as many blocks as the layout has |
| FullScan.OneBlock | crates/rspacefs-verity/src/verity.rs:800-811 | a scanned block is accepted exactly when it is unchanged, absent a collision |
| FullScan.ScanCountsChanges | crates/rspacefs-verity/src/verity.rs:777-828 | the failure count is the exact number of changed blocks, absent a collision |
| FullScan.ScanOfBuild | crates/rspacefs-verity/src/verity.rs:777-828 | both statements for a layer as built |
| FullScan.EntryProbesAre | crates/rspacefs-verity/src/verity.rs:781-825 | whatever a file's length is now, its scan examines consecutive indices to the end of its range and of the file, each with what the file holds there |
| FullScan.ScanOfAnyContents | crates/rspacefs-verity/src/verity.rs:777-828 | whatever the files hold now, the failure count is the number of probes that are not the block of their number, unless a probe is forged |
| FullScan.EntryProbeDiffers | crates/rspacefs-verity/src/verity.rs:813-824 | within a range a probe differs exactly when the padded block changed; at an index the file lost, exactly when its block was not all zeros |
| FullScan.CleanScanMeansIntact | crates/rspacefs-verity/src/verity.rs:777-828 | a scan without failures means every padded block of every file is the build-time one, or its probe is forged |
| VerifiedLayer.VerifiedLayerVfs.constructor | crates/rspacefs-verity/src/verity.rs:623-640 | a new layer has marked nothing |
| VerifiedLayer.VerifiedLayerVfs.CheckAndMark | crates/rspacefs-verity/src/verity.rs:714-718 | a block is marked only after it passed against the pinned root |
| VerifiedLayer.VerifiedLayerVfs.VerifyFileBlocks | crates/rspacefs-verity/src/verity.rs:684-744 | Ok exactly when the path has no entry or every spanned block is trusted, passes or is tolerated; exactly the passing blocks examined up to the first refused one are marked |
| VerifiedLayer.VerifiedLayerVfs.FindFile | crates/rspacefs-verity/src/verity.rs:674-677 | the first entry of the path, a leading slash dropped |
| VerifiedLayer.FirstEntryFinds | crates/rspacefs-verity/src/verity.rs:674-677 | the entry found has the path and no earlier one has; none is found exactly when none has |
| VerifiedLayer.NormalizedIs | crates/rspacefs-verity/src/verity.rs:675 | a path is looked up the same with and without a slash before it |
| VerifiedLayer.BuiltEntryFound | crates/rspacefs-verity/src/verity.rs:674-677 | over a built manifest the lookup finds an entry exactly for the layer's files, and it is the file's own |
| VerifiedLayer.VerifiedLayerVfs.AdmittedIsGenuine | crates/rspacefs-verity/src/verity.rs:684-744 | with marks not trusted and in Reject mode, each whole block that did not stop the call is the build-time block or exhibits a collision |
| VerifiedLayer.VerifiedLayerVfs.SkippedWasGenuine | crates/rspacefs-verity/src/verity.rs:702-707 | with marks trusted, a skipped block was checked before and was then the build-time block up to zero padding, or exhibits a collision |
| VerifiedLayer.VerifiedLayerVfs.CheckEntry | crates/rspacefs-verity/src/verity.rs:781-825 | one entry's blocks, then the indices it no longer reaches, are checked, counted and marked |
| VerifiedLayer.VerifiedLayerVfs.FullCheck | crates/rspacefs-verity/src/verity.rs:777-828 | the result is the number of probes and of rejected ones, and exactly the accepted in-range blocks are added to the cache |
| VerifiedLayer.VerifiedReader.LoadBlock | crates/rspacefs-verity/src/verity.rs:884-937 | the block is the resident one, or a fetched one that passed or is tolerated; a failure leaves the resident block |
| VerifiedLayer.VerifiedReader.Turn | crates/rspacefs-verity/src/verity.rs:946-961 | one turn of the loop is one round of the read function and writes its chunk in place |
| VerifiedLayer.VerifiedReader.Read | crates/rspacefs-verity/src/verity.rs:941-963 | the caller's buffer, the verdict and the reader's fields are what the read function says |
| VerifiedLayer.VerifiedReader.Seek | crates/rspacefs-verity/src/verity.rs:967-982 | the reader's position is what the seek function says |
| Paths.WhPathFacts | crates/rspacefs-core/src/layer.rs:118-127 | a whiteout names one path, is never ordinary, and for an ordinary path is not the opaque marker |
| Paths.SplitOfRender | crates/rspacefs-core/src/layer.rs:560-565 | splitting a path's string gives its directory's string and its last name |
| Paths.RenderInjective | crates/rspacefs-core/src/layer.rs:133 | the string keys of the caches determine the path |
| Overlay.ResolveIsView | crates/rspacefs-core/src/layer.rs:83-113 | what is seen at a path is the entry of the layer `resolve` names, which holds it |
| Overlay.ResolveIff | crates/rspacefs-core/src/layer.rs:83-113 | `resolve` selects a layer exactly when it is the first to hold the path, neither it nor a layer above hides the path, and none above has an opaque marker in any directory above the path |
| Overlay.OpaqueFromIff | crates/rspacefs-core/src/layer.rs:172-187 | the upward walk finds a marker exactly when the directory or an ancestor holds one |
| Overlay.OpaqueCutsOff | crates/rspacefs-core/src/layer.rs:192-229 | a layer without the path and with such a marker keeps every layer below it from answering |
| UpperEffects.EnsureDirIs | crates/rspacefs-core/src/layer.rs:232-247 | fails, changing nothing, exactly when a needed directory is a file in the upper; else adds exactly the missing directories |
| UpperEffects.CreateFileIs | crates/rspacefs-core/src/layer.rs:451-455 | exact success condition, every entry of the upper after success, and what is left after failure |
| UpperEffects.CreateDirIs | crates/rspacefs-core/src/layer.rs:438-442 | the same for a directory |
| UpperEffects.CopyUpIs | crates/rspacefs-core/src/layer.rs:250-271 | the same for copy-up; a failure changes nothing |
| UpperEffects.AppendFileIs | crates/rspacefs-core/src/layer.rs:457-470 | the same for an append, which copies a visible directory up before it fails |
| UpperEffects.HideLowerIs | crates/rspacefs-core/src/layer.rs:290-304 | the whiteout appears with the directories above it exactly when a lower holds the path |
| UpperEffects.RemoveFileIs | crates/rspacefs-core/src/layer.rs:486-504 | exact success condition and every entry afterwards; a failure changes nothing |
| UpperEffects.RemoveDirIs | crates/rspacefs-core/src/layer.rs:506-524 | the same for a directory |
| UpperEffects.CopyFileIs | crates/rspacefs-core/src/layer.rs:526-543 | the same for a copy |
| UpperEffects.MoveFileIs | crates/rspacefs-core/src/layer.rs:545-549 | exact success condition of a move in any stack |
| Overlay.CachedIffDirect | crates/rspacefs-core/src/layer.rs:131-168 | cached lookup equals direct probing except, exactly, for `.wh..opq` next to an opaque marker in the deciding lower |
| Overlay.CachedDiffersFromDirect | crates/rspacefs-core/src/layer.rs:151-157 | a concrete lower on which they differ |
| FlatView.CreateFileWrites | crates/rspacefs-core/src/layer.rs:451-455 | succeeds exactly when the upper has no directory at the path or its whiteout; then shows the new file and changes no other view; failure changes none; the upper stays clean |
| FlatView.CreateDirWrites | crates/rspacefs-core/src/layer.rs:438-442 | succeeds exactly when the upper does not hold the path, nor a directory at its whiteout; the same for a new directory |
| FlatView.CopyUpUnseen | crates/rspacefs-core/src/layer.rs:250-271 | succeeds exactly on a path that is seen and is no directory of the upper, changes no view, and brings exactly the seen entry into the upper |
| FlatView.AppendFileWrites | crates/rspacefs-core/src/layer.rs:457-470 | succeeds exactly on a visible file, extends what was seen there, changes no other view |
| FlatView.RemoveFileWrites | crates/rspacefs-core/src/layer.rs:486-504 | succeeds unless the upper holds a directory there; the path is gone, no other view changes |
| FlatView.RemoveDirWrites | crates/rspacefs-core/src/layer.rs:506-524 | succeeds unless the upper holds a file or a non-empty directory there; the path is gone, no other view changes |
| FlatView.CopyFileWrites | crates/rspacefs-core/src/layer.rs:526-543 | succeeds exactly on a visible source file and a destination where a file can be created; the destination shows the source's bytes, no other view changes |
| FlatView.MoveFileWrites | crates/rspacefs-core/src/layer.rs:545-549 | succeeds exactly when the copy does and the destination is no ancestor of the source; then the destination shows the source's bytes and the source is gone; a failure leaves the view as it was, or with the copy made |
| FlatView.MoveOntoAncestorFails | crates/rspacefs-core/src/layer.rs:545-549 | moving a file onto its own ancestor fails after writing the copy |
| FlatView.MoveOntoParent | crates/rspacefs-core/src/layer.rs:545-549 | such a move: `a/b` onto the lower directory `a` leaves a file there |
| FlatView.MoveOntoRemovedParent | crates/rspacefs-core/src/layer.rs:545-549 | such a move to a destination that does not exist: a whited-out `a` over the lower's `a/b` |
| FlatView.CaptureUnseen | crates/rspacefs-pvc/src/capture.rs:92-119 | over any upper and lowers, the upper's raw tree stacked as first lower under an empty upper changes no read |
| FlatView.GenerationsUnseen | crates/rspacefs-pvc/src/capture.rs:92-119 | nor does any number of capture generations |
| FlatView.ApplyRefines | crates/rspacefs-core/src/layer.rs:438-549 | each call, refused or not, is one step of a flat map, when it is performed, refused or half done is stated exactly, and lowers change only by capture |
| FlatView.RunRefines | crates/rspacefs-core/src/layer.rs:232-304 | any run of legal calls, refused ones, copy-ups and captures among them, shows what the flat map holds after the same calls with the same endings |
| FlatView.RunKeepsInv | crates/rspacefs-core/src/layer.rs:232-304 | whatever fails on the way, the upper stays clean and no lower is touched |
| CleanUpper.CallKeepsCleanIff | crates/rspacefs-core/src/layer.rs:232-304 | for every write, copy-up and move: a successful call keeps the upper clean exactly when it creates again no whited-out directory above the path it writes or hides |
| CleanUpper.ParentsCleanIff | crates/rspacefs-core/src/layer.rs:232-247 | creating missing parents keeps the upper clean exactly when none of them is whited out |
| CleanUpper.MoveFileCleanIff | crates/rspacefs-core/src/layer.rs:545-549 | a move, whose copy and removal may each do so, exactly when neither does |
| CleanUpper.WorkBelowWhiteout | crates/rspacefs-core/src/layer.rs:232-304 | a concrete stack where a creation, a removal and an append each leave the upper unclean |
| FlatView.RemovedDirKeepsChildren | crates/rspacefs-core/src/layer.rs:98-106 | a removed directory's lower contents still resolve: a concrete stack |
| FlatView.RemovedDirEmptyIff | crates/rspacefs-core/src/layer.rs:506-524 | after a removal nothing named below resolves exactly when nothing did before; each path below keeps its view |
| Listing.ResolvesIffListed | crates/rspacefs-core/src/layer.rs:378-436 | over clean layers a child resolves exactly when it is listed and not cut off by an opaque marker |
| Listing.ListedIff | crates/rspacefs-core/src/layer.rs:378-436 | which names are listed, said over the layers without walking them |
| Listing.ListingAgrees | crates/rspacefs-core/src/layer.rs:378-436 | without stray opaque markers the listing is exactly the ordinary names that resolve, strictly ascending |
| Listing.ListedButNotFound | crates/rspacefs-core/src/layer.rs:411-431 | with one a listed name need not resolve: a concrete stack |
| CopyTree.RegularListing | crates/rspacefs-core/src/layer.rs:316 | in a regular stack every visible directory can be listed, and listing finds what resolves |
| CopyTree.CopyDirTree | crates/rspacefs-core/src/layer.rs:307-339 | the copy succeeds, holds exactly the subtree listing reaches, and changes nothing elsewhere |
| CopyTree.CopyEntriesTree | crates/rspacefs-core/src/layer.rs:317-336 | copying the listed children one after the other puts each subtree in its place |
| WalkCases.CopyIntoExisting | crates/rspacefs-core/src/layer.rs:307-339 | a copy into a directory the upper holds merges: each child appears whole in its free place, nothing else changes |
| WalkCases.MoveIntoExisting | crates/rspacefs-core/src/layer.rs:551-555 | so does a move: the children stand beside what the directory held, the source is gone from the upper |
| WalkCases.MovedOpaqueUnhides | crates/rspacefs-core/src/layer.rs:342-374 | moving an opaque directory brings what it hid back into view at the old place: a concrete stack |
| WalkCases.UnresolvedSkipped | crates/rspacefs-core/src/layer.rs:328-336 | a listed name that does not resolve is passed over by both walks |
| RemoveTreeProof.RemoveEntriesDone | crates/rspacefs-core/src/layer.rs:343-358 | removing the listed children clears them from the upper and leaves only markers and directories |
| RemoveTreeProof.RemoveTreeDone | crates/rspacefs-core/src/layer.rs:342-374 | the removal succeeds; the upper holds nothing at or below the directory, which no longer resolves; views elsewhere are unchanged |
| TreeOps.SweepIs | crates/rspacefs-core/src/layer.rs:360-370 | the sweep removes exactly the markers of the directory, opaque ones included, and fails exactly on a file or on a marker directory |
| MoveTree.MoveDirPreservesTree | crates/rspacefs-core/src/layer.rs:551-555 | the destination shows exactly the subtree listing reached at the source, types and bytes; the source is gone, the upper holds nothing at or below it, every other path is as before |
| MoveTree.MoveDirTerminates | crates/rspacefs-core/src/layer.rs:307-374 | neither directory inside the other, a deep enough call stack exists, so both recursions end |
| NestedMove.CopyDirKeeps | crates/rspacefs-core/src/layer.rs:307-339 | under an existing parent the copy walk loses no directory of the upper and keeps it clean, whatever the stack |
| NestedMove.NestedCopyFails | crates/rspacefs-core/src/layer.rs:307-339 | a copy to a place inside the copied directory fails with every stack: the walk finds its own copy |
| NestedMove.NestedMoveFails | crates/rspacefs-core/src/layer.rs:551-555 | so does the move, before it removes anything |
| NestedMove.MoveDirEndsIff | crates/rspacefs-core/src/layer.rs:551-555 | a move to a free place ends well with some stack exactly when the place is not inside the moved directory |
| LayerFSObject.LayerFS.constructor | crates/rspacefs-core/src/layer.rs:70-77 | a new filesystem has empty caches |
| LayerFSObject.LayerFS.LowerHasWhiteout | crates/rspacefs-core/src/layer.rs:131-168 | hit or miss, the answer is the probe of the fixed lower and the caches stay true |
| LayerFSObject.LayerFS.LowerIsOpaqueAbove | crates/rspacefs-core/src/layer.rs:192-229 | hit or miss at each level, the answer is whether an opaque marker lies at or above the directory |
| LayerFSObject.LayerFS.IsOpaqueAbove | crates/rspacefs-core/src/layer.rs:172-187 | the upward walk decides whether a proper ancestor in the upper is opaque |
| LayerFSObject.LayerFS.ResolvePath | crates/rspacefs-core/src/layer.rs:83-113 | with any true caches the loop answers as uncached `resolve` and fills them truthfully |
| LayerFSObject.LayerFS.EnsureUpperParents | crates/rspacefs-core/src/layer.rs:232-247 | the loop over components creates the missing parents, or stops where one fails |
| LayerFSObject.LayerFS.RemoveWhiteoutOf | crates/rspacefs-core/src/layer.rs:274-287 | deletes the whiteout file if there is one |
| LayerFSObject.LayerFS.CreateWhiteoutOf | crates/rspacefs-core/src/layer.rs:290-304 | creates the whiteout, and its parents, if there is none |
| LayerFSObject.LayerFS.CopyUpPath | crates/rspacefs-core/src/layer.rs:250-271 | the upper afterwards, on success and on failure |
| LayerFSObject.LayerFS.Create | crates/rspacefs-core/src/layer.rs:451-455 | the upper afterwards, on success and on failure |
| LayerFSObject.LayerFS.Mkdir | crates/rspacefs-core/src/layer.rs:438-442 | the upper afterwards, on success and on failure |
| LayerFSObject.LayerFS.Append | crates/rspacefs-core/src/layer.rs:457-470 | the upper afterwards, on success and on failure |
| LayerFSObject.LayerFS.Unlink | crates/rspacefs-core/src/layer.rs:486-504 | the upper afterwards, on success and on failure |
| LayerFSObject.LayerFS.Rmdir | crates/rspacefs-core/src/layer.rs:506-524 | the upper afterwards, on success and on failure |
| LayerFSObject.LayerFS.Copy | crates/rspacefs-core/src/layer.rs:526-543 | the upper afterwards, on success and on failure |
| LayerFSObject.LayerFS.Move | crates/rspacefs-core/src/layer.rs:545-549 | the upper afterwards, on success and on failure |
| LayerFSObject.LayerFS.MergeLayer | crates/rspacefs-core/src/layer.rs:413-429 | merging one lower's names in any order is the fold over that order and keeps the merging invariant |
| LayerFSObject.LayerFS.EntryOrderDecides | crates/rspacefs-core/src/layer.rs:413-429 | over a directory that is not clean two orders list different names: a concrete layer |
| LayerFSObject.LayerFS.List | crates/rspacefs-core/src/layer.rs:378-436 | fails exactly on a file among the listed directories; over any layers and entry orders it lies between two bounds, which meet over clean layers |
| LayerFSObject.LayerFS.CopyDirRecursive | crates/rspacefs-core/src/layer.rs:307-339 | the verdict, and on success the upper, of the copy walk |
| LayerFSObject.LayerFS.SweepMarkersOf | crates/rspacefs-core/src/layer.rs:360-370 | deleting the markers one by one, in any order, removes all or fails on a directory |
| LayerFSObject.LayerFS.RemoveDirRecursive | crates/rspacefs-core/src/layer.rs:342-374 | the verdict, and on success the upper, of the removal walk |
| LayerFSObject.LayerFS.MoveDirectory | crates/rspacefs-core/src/layer.rs:551-555 | the verdict, and on success the upper, of the two walks in a row |
| Pivot.PvcMount.PivotUpper | crates/rspacefs-pvc/src/pivot.rs:45-106 | succeeds exactly for a writable volume of the promotable kind whose new upper takes the probe; then reads go to the new upper over the same lowers, unchanged if its content is; a refusal changes nothing |
| Pivot.ProbeLeavesNoTrace | crates/rspacefs-pvc/src/pivot.rs:74-81 | making and removing the probe directory leaves the new upper as it was |
| Inodes.InodeTable.InternPath | crates/rspacefs-fuse/src/fs.rs:210-219 | a known path keeps its number, a new one gets the next |
| Inodes.InodeTable.ForgetPath | crates/rspacefs-fuse/src/fs.rs:1195-1197 | unlink and rmdir drop both bindings of an interned path |
| Inodes.InodeTable.RenamePath | crates/rspacefs-fuse/src/fs.rs:1252-1257 | rename rebinds the source's number to the destination |
| Inodes.InternEffect | crates/rspacefs-fuse/src/fs.rs:210-219 | a new path is bound to a number above all others, a known one keeps its number, nothing else changes |
| Inodes.ForgetEffect | crates/rspacefs-fuse/src/fs.rs:1195-1197 | the path and its number are gone, every other binding is as before |
| Inodes.RenameEffect | crates/rspacefs-fuse/src/fs.rs:1252-1257 | the source's number leads to the destination and back, the source is gone, every other binding is as before |
| Inodes.InternedIff | crates/rspacefs-fuse/src/fs.rs:799-801 | over every run a path is in the table exactly when the last call that bound or unbound it bound it |
| Inodes.InternedAgain | crates/rspacefs-fuse/src/fs.rs:210-219 | a path interned again gets a number that no path at any earlier time had |
| Inodes.InverseStep | crates/rspacefs-fuse/src/fs.rs:1252-1257 | the two maps stay inverse exactly when no rename lands on another interned path |
| Inodes.RunInvariant | crates/rspacefs-fuse/src/fs.rs:171-219 | over every run each interned path's number leads back to it, the root stays at 1, and the maps are inverse exactly when no rename landed |
| Inodes.NeverReissued | crates/rspacefs-fuse/src/fs.rs:214-216 | the new numbers of a run are strictly ascending |
| Inodes.NumbersInjective | crates/rspacefs-fuse/src/fs.rs:171-181 | different paths never share a number |
| Inodes.InitialValid | crates/rspacefs-fuse/src/fs.rs:171-175 | the invariant and the inverse maps hold at the start |
| OpenFiles.PhysicalForWithLayer | crates/rspacefs-fuse/src/fs.rs:241-260 | the search finds the first holder unless the upper whites the path out |
| OpenFiles.PhysicalIff | crates/rspacefs-fuse/src/fs.rs:241-260 | the search selects exactly the first layer that holds the path, unless the upper whites it out |
| OpenFiles.ResolvedIsPhysical | crates/rspacefs-fuse/src/fs.rs:241-260 | whenever `resolve` selects a layer the physical lookup selects the same one |
| OpenFiles.PhysicalAgainstResolve | crates/rspacefs-fuse/src/fs.rs:241-260 | `resolve` is the physical lookup cut by the markers it does not consult |
| OpenFiles.ReadOnlyOpens.Open | crates/rspacefs-fuse/src/fs.rs:858-933 | content resolved out of a verity-protected layer is never served by passthrough, no registration ever comes from such a layer, when passthrough is chosen is stated exactly, and so is the answer otherwise, directories included |
| OpenFiles.ReadOnlyOpens.constructor | crates/rspacefs-fuse/src/fs.rs:171-184 | no registration at the start |
| OpenFiles.ReadOnlyOpens.Reclaim | crates/rspacefs-fuse/src/fs.rs:1090-1091 | dropping an inode's last passthrough handle ends its registration |
| OpenFiles.PassthroughResolvesIff | crates/rspacefs-fuse/src/fs.rs:858-905 | a passthrough handle is backed by what the path resolves to exactly when no ignored marker hides the path and a live registration is of that layer and path; then it serves what the path shows |
| OpenFiles.StaleRegistration | crates/rspacefs-fuse/src/fs.rs:865-884 | a registration outlives a write to its path: the next open of the inode still gets the lower's file |
| OpenFiles.OpenWritable | crates/rspacefs-fuse/src/fs.rs:822-856 | missing exactly when nothing is visible, unreadable exactly on a directory that opens but cannot be read; the buffer is the file's content, or empty if truncating |
| OpenFiles.CreateOpen | crates/rspacefs-fuse/src/fs.rs:1136-1170 | exclusive creation refuses exactly an existing path; otherwise the file is made, truncated or kept, and the empty buffer is what the path shows exactly when it was absent, truncated or an empty file |
| OpenFiles.CreateOverKeptFile | crates/rspacefs-fuse/src/fs.rs:1136-1170 | an open over a kept file that holds a byte: the buffer is empty and the path is not |
| OpenFiles.BufferIsOverlay | crates/rspacefs-fuse/src/fs.rs:1053-1058 | the buffer is the opening content overlaid last-writer-wins with zero-filled gaps, byte by byte |
| OpenFiles.BufferedFile.Put | crates/rspacefs-fuse/src/fs.rs:1043-1061 | a write grows and overwrites the buffer in place and makes it dirty |
| OpenFiles.BufferedFile.Get | crates/rspacefs-fuse/src/fs.rs:994-1003 | a read is the clipped slice of the overlay, byte by byte |
| OpenFiles.BufferedFile.Fsync | crates/rspacefs-fuse/src/fs.rs:1496-1515 | a dirty buffer replaces the file and becomes clean on success; a clean one does nothing |
| OpenFiles.BufferedFile.Release | crates/rspacefs-fuse/src/fs.rs:1093-1110 | a dirty buffer replaces the file; a clean one does nothing |
| OpenFiles.SessionShows | crates/rspacefs-fuse/src/fs.rs:1043-1061 | after any session of writes, reads and fsyncs a written and clean handle's path shows its buffer, other paths never change, an unwritten handle changes nothing |
| OpenFiles.FsyncSucceeds | crates/rspacefs-fuse/src/fs.rs:1496-1515 | where the upper has no directory in the way, an fsync after any session succeeds, the handle is clean and its writes are seen |
| OpenFiles.ReleasePublishes | crates/rspacefs-fuse/src/fs.rs:1093-1110 | releasing after any session shows every write at the path, or fails and changes nothing more; it succeeds where the upper has no directory in the way |
| Pool.StepKeepsInv | crates/rspacefs-fuse/src/pool.rs:67-84 | no step of any worker loses, duplicates or reorders a job, and the lock has one holder |
| Pool.EveryJobOnce | crates/rspacefs-fuse/src/pool.rs:29-84 | in every interleaving each job offered while the channel is open is queued, running or finished, once; those queued are the last offered, in order |
| Pool.SubmittedIsOffered | crates/rspacefs-fuse/src/pool.rs:48-55 | a pool accepts exactly the jobs offered before the channel closes |
| Pool.FullyParallel | crates/rspacefs-fuse/src/pool.rs:67-84 | every worker can run a job at the same time: the lock is not held across one |
| Pool.SomeWorkerMoves | crates/rspacefs-fuse/src/pool.rs:67-84 | with a job queued or the channel closed the pool is never stuck, though the lock is held across a blocking receive |
| Pool.ShutdownFinishes | crates/rspacefs-fuse/src/pool.rs:87-97 | after any life in which the channel closed every run of the workers is bounded, and the full ones end with all workers exited and every job offered before the close finished once |
| Pool.ClosedRunFinishes | crates/rspacefs-fuse/src/pool.rs:67-84 | the same from any closed state of the pool |
| Pool.ShutdownContinues | crates/rspacefs-fuse/src/pool.rs:87-97 | a shutdown run that has not ended can be continued |

## Left out

- LayerFSObject.LayerFS.CopyDirRecursive: over lowers that are not clean the result depends on the order in which a directory lists its entries (`EntryOrderDecides`), so the walks are stated over clean lowers and ordinary sources; after a failure only the verdict is stated, since the markers already swept depend on that order too.
- MoveTree.MoveDirPreservesTree: the destination is not inside the source; such a move fails with every stack (`NestedMoveFails`).
- OpenFiles.PhysicalAgainstResolve: the root is left out; the daemon never asks for the root's whiteout.
- Symlinks, and `build_from_dir`, which records them; a layer here holds directories and files.
- The manifest's JSON form, and `load_pinned` as an operation: read integrity is stated for any tree whose padded count is the one its block ranges call for.
- VerifiedLayer.VerifiedLayerVfs.constructor: takes complete trees; on the other trees `from_bytes` accepts only `verify_block` and `auth_path` are modelled.
- Short reads of the backing file in the full scan and in `read_raw_block`: each read fills a block unless the file ends.
- The caller's string parsing in the `vfs` crate: paths reach the model already split into names, without `.`, `..` or empty components.
- Names created through the merged filesystem that themselves start with `.wh.`: the operations are modelled for them, the view theorems speak of ordinary names.
- The error kinds of the merged filesystem: every failure is `Failed`.
- Relations between threads inside `LayerFS`: cache fills are methods that keep every cached answer true, whatever order they come in.
- Kernel side of passthrough: a registration is the layer and path it was opened from, whether a new one is accepted is an input, and an entry deleted and made again in its layer counts as the same file.
- Poisoned locks and unwinding jobs in the worker pool: a job, once running, finishes.
- Attributes, ownership, timestamps, extended attributes, reflink copies and directory handles of the FUSE adapter: foreign calls.
- Archive and compression encoding of a capture: a capture is the upper's raw tree.
- Session setup, control socket, metrics, logging and the command-line tools: input and output only.
