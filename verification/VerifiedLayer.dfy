/**
 The stateful side of verity.rs: a verified layer with its cache of checked blocks, the
 streaming reader over it, and the proactive full scan.
 */
module VerifiedLayer {
  import opened Base
  import opened Merkle
  import opened Layout
  import opened BlockCache
  import opened Reader
  import opened FullScan

  class VerifiedLayerVfs {
    const sha: Sha
    const tree: MerkleTree
    const entries: seq<FileEntry>
    const rootHash: Hash
    const cache: VerifiedBlockCache
    const onFailure: OnFailure
    const cacheEnabled: bool
    /** Every block check that succeeded, in order. */
    ghost var passed: seq<Probe>

    ghost predicate Valid()
      reads this, cache.bits
    {
      && Shaped(tree) && InMemory(tree) && cache.Valid()
      && cache.blockCount == tree.leafCount && cache.rootHash == rootHash
      && (forall k :: 0 <= k < |passed| ==> Verifies(sha, tree, passed[k].block, passed[k].data, rootHash))
      && (forall i :: i in cache.Marked() ==> exists k :: 0 <= k < |passed| && passed[k].block == i)
    }

    constructor (sha: Sha, tree: MerkleTree, manifest: LayerManifest, rootHash: Hash, onFailure: OnFailure, cacheEnabled: bool)
      requires Shaped(tree) && InMemory(tree)
      ensures Valid() && cache.Marked() == {} && passed == []
      ensures fresh(cache.bits)
      ensures this.sha == sha && this.tree == tree && this.entries == manifest.files && this.rootHash == rootHash
      ensures this.onFailure == onFailure && this.cacheEnabled == cacheEnabled
    {
      this.sha, this.tree, this.entries, this.rootHash := sha, tree, manifest.files, rootHash;
      this.onFailure, this.cacheEnabled := onFailure, cacheEnabled;
      cache := new VerifiedBlockCache(tree.leafCount, rootHash);
      passed := [];
    }

    /** `verify_block`, and the mark on success: the one way a bit gets set. */
    method CheckAndMark(i: nat, d: Bytes) returns (ok: bool)
      requires Valid()
      modifies this`passed, cache.bits
      ensures Valid()
      ensures ok == Verifies(sha, tree, i, d, rootHash)
      ensures passed == if ok then old(passed) + [Probe(i, d)] else old(passed)
      ensures cache.Marked() == if ok && i < tree.leafCount then old(cache.Marked()) + {i} else old(cache.Marked())
    {
      hide Verifies, BlockVerdict;
      CompleteNeverPanics(sha, tree, i, d, rootHash);
      var r := VerifyBlock(sha, tree, i, d, rootHash);
      ok := r.value;
      if ok {
        cache.MarkVerified(i);
        passed := passed + [Probe(i, d)];
        assert passed[|passed| - 1].block == i;
        assert forall k :: 0 <= k < |old(passed)| ==> passed[k] == old(passed)[k];
      }
    }

    /** Block j of the file is marked and marks are trusted. */
    predicate Skipped(marked: set<nat>, entry: FileEntry, j: nat) {
      cacheEnabled && entry.first + j in marked
    }

    /** What `raw` delivers for block j of the file passes. */
    predicate RawPasses(entry: FileEntry, raw: nat -> Option<Bytes>, j: nat)
      requires Shaped(tree)
    {
      raw(j).Some? && Verifies(sha, tree, entry.first + j, raw(j).value, rootHash)
    }

    /** Block j stops no read: it is skipped, or it is read and passes (or is tolerated). */
    predicate Admitted(marked: set<nat>, entry: FileEntry, raw: nat -> Option<Bytes>, j: nat)
      requires Shaped(tree)
    {
      Skipped(marked, entry, j) || RawPasses(entry, raw, j) || (onFailure == Warn && raw(j).Some?)
    }

    /** The blocks of a stretch of the file that get marked: those examined that pass. */
    ghost function NewMarks(marked: set<nat>, entry: FileEntry, raw: nat -> Option<Bytes>, from: nat, to: nat): set<nat>
      requires Shaped(tree)
    {
      set j: nat | from <= j < to && RawPasses(entry, raw, j) && !Skipped(marked, entry, j) && entry.first + j < tree.leafCount
        :: entry.first + j
    }

    /** One turn of the loop, for a block none of the earlier turns examined. */
    method CheckCovered(entry: FileEntry, j: nat, raw: nat -> Option<Bytes>, ghost marked: set<nat>, ghost from: nat) returns (ok: bool)
      requires Valid() && from <= j && cache.Marked() == marked + NewMarks(marked, entry, raw, from, j)
      modifies this`passed, cache.bits
      ensures Valid()
      ensures ok == Admitted(marked, entry, raw, j)
      ensures cache.Marked() == marked + if ok then NewMarks(marked, entry, raw, from, j + 1) else NewMarks(marked, entry, raw, from, j)
    {
      hide Verifies, NewMarks;
      NewMarksStep(marked, entry, raw, from, j);
      var seen := cache.IsVerified(entry.first + j);
      if cacheEnabled && seen {
        return true;
      }
      var d := raw(j);
      if d == None {
        return false;
      }
      var good := CheckAndMark(entry.first + j, d.value);
      ok := good || onFailure == Warn;
    }

    lemma NewMarksStep(marked: set<nat>, entry: FileEntry, raw: nat -> Option<Bytes>, from: nat, j: nat)
      requires Shaped(tree) && from <= j
      ensures entry.first + j !in NewMarks(marked, entry, raw, from, j)
      ensures NewMarks(marked, entry, raw, from, j + 1)
           == NewMarks(marked, entry, raw, from, j)
              + if RawPasses(entry, raw, j) && !Skipped(marked, entry, j) && entry.first + j < tree.leafCount then {entry.first + j} else {}
    {
      hide Verifies;
    }

    /** `find_file`: the first entry for the path, a leading slash dropped. */
    method FindFile(path: string) returns (e: Option<FileEntry>)
      ensures e == FirstEntry(entries, Normalized(path))
    {
      var wanted := Normalized(path);
      for k := 0 to |entries|
        invariant FirstEntry(entries, wanted) == FirstEntry(entries[k..], wanted)
      {
        assert entries[k..][0] == entries[k] && entries[k..][1..] == entries[k + 1..];
        if entries[k].path == wanted {
          return Some(entries[k]);
        }
      }
      e := None;
    }

    /** Check `count` blocks from `first` on; the first `good` of them were admitted. */
    method CoverBlocks(entry: FileEntry, first: nat, count: nat, raw: nat -> Option<Bytes>) returns (ok: bool, ghost good: nat)
      requires Valid()
      modifies this`passed, cache.bits
      ensures Valid() && good <= count && ok == (good == count)
      ensures forall j: nat :: first <= j < first + good ==> Admitted(old(cache.Marked()), entry, raw, j)
      ensures !ok ==> !Admitted(old(cache.Marked()), entry, raw, first + good)
      ensures cache.Marked() == old(cache.Marked()) + NewMarks(old(cache.Marked()), entry, raw, first, first + good)
    {
      hide Admitted, NewMarks, Verifies;
      ghost var marked := cache.Marked();
      NoNewMarks(marked, entry, raw, first);
      for i := 0 to count
        invariant Valid() && cache.Marked() == marked + NewMarks(marked, entry, raw, first, first + i)
        invariant forall j: nat :: first <= j < first + i ==> Admitted(marked, entry, raw, j)
      {
        ok := CheckCovered(entry, first + i, raw, marked, first);
        if !ok {
          return false, i;
        }
      }
      ok, good := true, count;
    }

    /**
     `verify_file_blocks`: check every block under `len` bytes at `offset`. `raw` is what
     `read_raw_block` delivers for each block of the file, None for an I/O error. A path without an
     entry is Ok and nothing is examined; else the first `good` blocks were admitted and marked if
     they pass, and Ok means that they were all admitted.
     */
    method VerifyFileBlocks(path: string, len: nat, offset: nat, raw: nat -> Option<Bytes>) returns (ok: bool, ghost good: nat)
      requires Valid()
      modifies this`passed, cache.bits
      ensures Valid()
      ensures match FirstEntry(entries, Normalized(path))
        case None => ok && cache.Marked() == old(cache.Marked())
        case Some(entry) =>
          var first, count := BlockOf(offset), BlocksFor(OffsetIn(offset) + len);
          && good <= count && ok == (good == count)
          && (forall j: nat :: first <= j < first + good ==> Admitted(old(cache.Marked()), entry, raw, j))
          && (!ok ==> !Admitted(old(cache.Marked()), entry, raw, first + good))
          && cache.Marked() == old(cache.Marked()) + NewMarks(old(cache.Marked()), entry, raw, first, first + good)
    {
      hide BlockOf, OffsetIn, BlocksFor, Admitted, NewMarks, Verifies;
      var found := FindFile(path);
      if found == None {
        return true, 0;
      }
      var first := BlockOf(offset);
      var count := BlocksFor(OffsetIn(offset) + len);
      ok, good := CoverBlocks(found.value, first, count, raw);
    }

    lemma NoNewMarks(marked: set<nat>, entry: FileEntry, raw: nat -> Option<Bytes>, from: nat)
      requires Shaped(tree)
      ensures marked + NewMarks(marked, entry, raw, from, from) == marked
    {
    }

    function ContextOf(entry: FileEntry): Context {
      Context(sha, tree, rootHash, onFailure, entry)
    }

    /**
     With marks not trusted, as for a pinned manifest, an Ok in Reject mode means that every whole
     block the backing delivered is the file's own from build time, or exhibits a collision.
     */
    lemma AdmittedIsGenuine(marked: set<nat>, entry: FileEntry, raw: nat -> Option<Bytes>, j: nat,
                            files: Files, data: Bytes, genuine: MerkleTree)
      requires Anchored(ContextOf(entry), files, data, genuine)
      requires !cacheEnabled && onFailure == Reject && Admitted(marked, entry, raw, j)
      requires j < BlocksFor(entry.size)
      ensures raw(j).Some?
      ensures |raw(j).value| == BlockLen(entry.size, j) ==>
                raw(j).value == FileBlock(files[entry.path], j) || BlockCollision(ContextOf(entry), data, genuine, j, raw(j).value)
    {
      hide Verifies, IsTreeOf, BlockCollision, FileBlock, Aligned, BlocksFor;
      if |raw(j).value| == BlockLen(entry.size, j) {
        BlockIntegrity(ContextOf(entry), files, data, genuine, j, raw(j).value);
      }
    }

    /**
     With marks trusted, a block that is skipped was checked before, and what was checked then was the
     file's own block up to zero padding, or exhibits a collision.
     */
    lemma SkippedWasGenuine(entry: FileEntry, j: nat, files: Files, data: Bytes, genuine: MerkleTree) returns (k: nat)
      requires Valid() && Skipped(cache.Marked(), entry, j)
      requires Anchored(ContextOf(entry), files, data, genuine) && j < BlocksFor(entry.size)
      ensures k < |passed| && passed[k].block == entry.first + j
      ensures Verifies(sha, tree, entry.first + j, passed[k].data, rootHash)
      ensures Pad(passed[k].data) == Pad(FileBlock(files[entry.path], j))
           || BlockCollision(ContextOf(entry), data, genuine, j, passed[k].data)
    {
      hide Verifies, HeapHashed, Leaf, NextPowerOfTwo, Aligned, FileBlock, Pad, Block, LeafCount, ExtractFrom;
      k :| 0 <= k < |passed| && passed[k].block == entry.first + j;
      FileBlockInData(sha, files, entry, data, j);
      LeafSlot(sha, data, genuine, entry.first + j);
      VerifySound(sha, data, genuine, tree, entry.first + j, passed[k].data);
    }

    /** The scan so far: `done` were probed since the marks were `before`, and `failed` of them rejected. */
    ghost predicate Scanned(before: set<nat>, done: seq<Probe>, checked: nat, failed: nat)
      requires Valid()
      reads this, cache.bits
    {
      && checked == |done|
      && failed == Failures(sha, tree, rootHash, done)
      && cache.Marked() == before + Accepted(sha, tree, rootHash, done)
    }

    /** Check one block of the scan and count a failure. */
    method CheckNext(i: nat, d: Bytes, checked: nat, failed: nat, ghost before: set<nat>, ghost done: seq<Probe>)
      returns (checked': nat, failed': nat)
      requires Valid() && Scanned(before, done, checked, failed)
      modifies this`passed, cache.bits
      ensures Valid() && Scanned(before, done + [Probe(i, d)], checked', failed')
    {
      hide Verifies, Failures, Accepted;
      var ok := CheckAndMark(i, d);
      ScanStep(sha, tree, rootHash, done, Probe(i, d));
      failed' := if ok then failed else failed + 1;
      checked' := checked + 1;
    }

    /** One manifest entry: the file's present blocks, then the indices it no longer reaches. */
    method CheckEntry(entry: FileEntry, content: Bytes, checked: nat, failed: nat, ghost before: set<nat>, ghost done: seq<Probe>)
      returns (checked': nat, failed': nat)
      requires Valid() && Scanned(before, done, checked, failed)
      modifies this`passed, cache.bits
      ensures Valid() && Scanned(before, done + EntryProbes(entry, content), checked', failed')
    {
      hide BlocksFor, FileBlock, Scanned;
      checked', failed' := checked, failed;
      var blockIdx := entry.first;
      ghost var n := BlocksFor(|content|);
      ghost var probes: seq<Probe> := [];
      assert done + probes == done;
      var k := 0;
      while k < BlocksFor(|content|)
        invariant k <= n && blockIdx == entry.first + k
        invariant probes == ContentProbes(entry.first, content, k)
        invariant Valid() && Scanned(before, done + probes, checked', failed')
      {
        var buf := FileBlock(content, k);
        checked', failed' := CheckNext(blockIdx, buf, checked', failed', before, done + probes);
        assert done + probes + [Probe(blockIdx, buf)] == done + (probes + [Probe(blockIdx, buf)]);
        probes := probes + [Probe(blockIdx, buf)];
        blockIdx := blockIdx + 1;
        k := k + 1;
      }
      ghost var head := probes;
      while blockIdx < entry.end
        invariant entry.first + n <= blockIdx
        invariant blockIdx > entry.first + n ==> blockIdx <= entry.end
        invariant probes == head + PaddingProbes(entry.first + n, blockIdx)
        invariant Valid() && Scanned(before, done + probes, checked', failed')
      {
        checked', failed' := CheckNext(blockIdx, [], checked', failed', before, done + probes);
        assert done + probes + [Probe(blockIdx, [])] == done + (probes + [Probe(blockIdx, [])]);
        probes := probes + [Probe(blockIdx, [])];
        blockIdx := blockIdx + 1;
      }
      assert PaddingProbes(entry.first + n, blockIdx) == PaddingProbes(entry.first + n, entry.end);
    }

    /**
     `full_check`. `contents` is what each manifest file holds now, None when it cannot be
     opened. The scan stops at the first such file; otherwise it reports how many blocks it
     examined and how many the tree rejected, and marks exactly the accepted ones.
     */
    method FullCheck(contents: seq<Option<Bytes>>) returns (r: Option<(nat, nat)>)
      requires Valid() && |contents| == |entries|
      modifies this`passed, cache.bits
      ensures Valid()
      ensures r.Some? <==> forall k :: 0 <= k < |contents| ==> contents[k].Some?
      ensures r.Some? ==>
                var probes := ScanProbes(entries, Present(contents));
                && r.value == (|probes|, Failures(sha, tree, rootHash, probes))
                && cache.Marked() == old(cache.Marked()) + Accepted(sha, tree, rootHash, probes)
    {
      hide EntryProbes, Verifies;
      ghost var before := cache.Marked();
      ghost var present: seq<Bytes> := [];
      var checked, failed := 0, 0;
      assert Scanned(before, [], 0, 0);
      for k := 0 to |entries|
        invariant forall j :: 0 <= j < k ==> contents[j].Some?
        invariant |present| == k && forall j :: 0 <= j < k ==> present[j] == contents[j].value
        invariant Valid() && Scanned(before, ScanProbes(entries[..k], present), checked, failed)
      {
        if contents[k] == None {
          return None;
        }
        checked, failed := CheckEntry(entries[k], contents[k].value, checked, failed, before, ScanProbes(entries[..k], present));
        ghost var longer := present + [contents[k].value];
        assert entries[..k + 1][..k] == entries[..k] && longer[..k] == present;
        present := longer;
      }
      assert entries[..|entries|] == entries;
      assert present == Present(contents);
      r := Some((checked, failed));
    }
  }

  class VerifiedReader {
    const layer: VerifiedLayerVfs
    const entry: FileEntry
    var position: nat
    var current: Option<Resident>

    function Ctx(): Context {
      Context(layer.sha, layer.tree, layer.rootHash, layer.onFailure, entry)
    }

    ghost function State(): ReaderState
      reads this
    {
      ReaderState(position, current)
    }

    ghost predicate Valid()
      reads this, layer, layer.cache.bits
    {
      layer.Valid() && StateOk(Ctx(), State())
    }

    constructor (layer: VerifiedLayerVfs, entry: FileEntry)
      requires layer.Valid()
      ensures Valid() && this.layer == layer && this.entry == entry
      ensures State() == Fresh
    {
      this.layer, this.entry := layer, entry;
      position, current := 0, None;
    }

    /** `load_block`, with the block it leaves resident. */
    method LoadBlock(j: nat, b: Backing) returns (r: Option<Bytes>)
      requires Valid()
      modifies this`current, layer`passed, layer.cache.bits
      ensures Valid()
      ensures r == Load(Ctx(), old(current), b, j)
      ensures current == if r.Some? then Some(Resident(j, r.value)) else old(current)
    {
      hide Verifies, BlockLen;
      if current.Some? && current.value.block == j {
        return Some(current.value.data);
      }
      r := Fetch(Ctx(), b, j);
      if r == None {
        return;
      }
      var trusted := layer.CheckAndMark(entry.first + j, r.value);
      if !trusted && layer.onFailure == Reject {
        return None;
      }
      current := Some(Resident(j, r.value));
    }

    /** `Seek::seek`; None is the error for a position before the start. */
    method Seek(pos: SeekFrom) returns (r: Option<nat>)
      requires Valid()
      modifies this`position
      ensures Valid()
      ensures var t := Reader.Seek(Ctx(), old(State()), pos);
        && State() == (if t.Some? then t.value else old(State()))
        && r == (if t.Some? then Some(position) else None)
    {
      var newPos := match pos
        case Start(p) => AsI64(p)
        case End(d) => AsI64(AsI64(entry.size) + d)
        case Current(d) => AsI64(AsI64(position) + d);
      if newPos < 0 {
        return None;
      }
      ghost var before := State();
      position := newPos;
      SamePosition(Ctx(), before, State());
      r := Some(position);
    }

    /** One turn of the read loop: bytes copied, None for an error. */
    method Turn(out: array<byte>, written: nat, b: Backing) returns (r: Option<nat>)
      requires Valid() && out as object != layer.cache.bits
      requires written < out.Length && position < entry.size
      modifies this, out, layer`passed, layer.cache.bits
      ensures Valid()
      ensures r.Some? ==> written + r.value <= out.Length
      ensures out[..written] == old(out[..written])
      ensures var n := if r.Some? then written + r.value else written; out[n..] == old(out[n..])
      ensures Reader.Read(Ctx(), old(State()), out.Length - written, b) ==
                match r
                case None => ReadOutcome([], false, State())
                case Some(copy) =>
                  if copy == 0 then ReadOutcome([], true, State())
                  else Prefixed(out[written..written + copy], Reader.Read(Ctx(), State(), out.Length - written - copy, b))
    {
      hide BlockOf, OffsetIn, Load, Reader.Read, StateOk;
      ReadRound(Ctx(), State(), out.Length - written, b);
      var offset := OffsetIn(position);
      var block := LoadBlock(BlockOf(position), b);
      if block == None {
        return None;
      }
      var avail := if |block.value| >= offset then |block.value| - offset else 0;
      var copy := Min(avail, out.Length - written);
      if copy > 0 {
        forall k | 0 <= k < copy {
          out[written + k] := block.value[offset + k];
        }
        assert out[written..written + copy] == block.value[offset..offset + copy];
        ghost var loaded := State();
        position := position + copy;
        SamePosition(Ctx(), loaded, State());
      }
      r := Some(copy);
    }

    /** `Read::read` into `out`; None is an error, after which `out` may hold a verified prefix. */
    method Read(out: array<byte>, b: Backing) returns (r: Option<nat>)
      requires Valid() && out as object != layer.cache.bits
      modifies this, out, layer`passed, layer.cache.bits
      ensures Valid()
      ensures var o := Reader.Read(Ctx(), old(State()), out.Length, b);
        && State() == o.state
        && r == (if o.ok then Some(|o.bytes|) else None)
        && |o.bytes| <= out.Length
        && out[..] == o.bytes + old(out[..])[|o.bytes|..]
    {
      hide Reader.Read, StateOk, Shaped, Prefixed;
      ghost var before, start := out[..], State();
      var written := 0;
      PrefixedNothing(Reader.Read(Ctx(), start, out.Length, b));
      assert out[..0] == [];
      while written < out.Length && position < entry.size
        invariant Valid() && written <= out.Length
        invariant out[written..] == before[written..]
        invariant Reader.Read(Ctx(), start, out.Length, b)
               == Prefixed(out[..written], Reader.Read(Ctx(), State(), out.Length - written, b))
      {
        ghost var done, rest := out[..written], out[written..];
        var n := Turn(out, written, b);
        assert out[..written] == done;
        if n == None || n == Some(0) {
          assert out[..] == done + rest;
          LoopLeft(Reader.Read(Ctx(), start, out.Length, b), done, before, out[..], n.Some?, State());
          return if n == None then None else Some(written);
        }
        ghost var more := out[written..written + n.value];
        PrefixedTwice(done, more, Reader.Read(Ctx(), State(), out.Length - written - n.value, b));
        assert out[..written + n.value] == done + more;
        written := written + n.value;
      }
      ReadNothing(Ctx(), State(), out.Length - written, b);
      assert out[..] == out[..written] + before[written..];
      LoopLeft(Reader.Read(Ctx(), start, out.Length, b), out[..written], before, out[..], true, State());
      r := Some(written);
    }
  }

  lemma SamePosition(c: Context, s: ReaderState, t: ReaderState)
    requires Shaped(c.tree) && StateOk(c, s) && t.current == s.current
    ensures StateOk(c, t)
  {
  }

  function Present(contents: seq<Option<Bytes>>): seq<Bytes>
    requires forall k :: 0 <= k < |contents| ==> contents[k].Some?
  {
    seq(|contents|, k requires 0 <= k < |contents| => contents[k].value)
  }

  lemma ScanStep(sha: Sha, tree: MerkleTree, root: Hash, probes: seq<Probe>, p: Probe)
    requires Shaped(tree)
    ensures Failures(sha, tree, root, probes + [p])
         == Failures(sha, tree, root, probes) + (if Verifies(sha, tree, p.block, p.data, root) then 0 else 1)
    ensures Accepted(sha, tree, root, probes + [p])
         == Accepted(sha, tree, root, probes)
            + (if Verifies(sha, tree, p.block, p.data, root) && p.block < tree.leafCount then {p.block} else {})
  {
    hide Verifies, Failures;
    FailuresAppend(sha, tree, root, probes, p);
    AcceptedConcat(sha, tree, root, probes, [p]);
    assert [p][0] == p;
    var accepted := Verifies(sha, tree, p.block, p.data, root) && p.block < tree.leafCount;
    assert Accepted(sha, tree, root, [p]) == if accepted then {p.block} else {};
  }

  function Normalized(path: string): string {
    if path != "" && path[0] == '/' then path[1..] else path
  }

  /** A manifest path, which has no leading slash, is looked up by itself and with a slash before it. */
  lemma NormalizedIs(path: string)
    ensures Normalized("/" + path) == path
    ensures !("/" <= path) ==> Normalized(path) == path
  {
  }

  function FirstEntry(entries: seq<FileEntry>, path: string): Option<FileEntry> {
    if entries == [] then None
    else if entries[0].path == path then Some(entries[0])
    else FirstEntry(entries[1..], path)
  }

  /** The entry found is the first with the path; none is found exactly when no entry has it. */
  lemma {:induction false} FirstEntryFinds(entries: seq<FileEntry>, path: string)
    ensures match FirstEntry(entries, path)
      case None => forall k :: 0 <= k < |entries| ==> entries[k].path != path
      case Some(e) =>
        && e.path == path
        && exists k :: 0 <= k < |entries| && entries[k] == e && forall j :: 0 <= j < k ==> entries[j].path != path
    decreases |entries|
  {
    if entries != [] && entries[0].path != path {
      var tail := entries[1..];
      FirstEntryFinds(tail, path);
      if FirstEntry(tail, path).Some? {
        var e := FirstEntry(tail, path).value;
        var k :| 0 <= k < |tail| && tail[k] == e && forall j :: 0 <= j < k ==> tail[j].path != path;
        assert entries[k + 1] == e;
        assert forall j :: 0 < j < k + 1 ==> entries[j] == tail[j - 1];
      }
    }
  }

  /** Over a built manifest the lookup finds an entry exactly for the layer's files, and it is the file's own. */
  lemma BuiltEntryFound(sha: Sha, files: Files, entries: seq<FileEntry>, data: Bytes, path: string)
    requires LaysOut(sha, files, entries, data)
    ensures match FirstEntry(entries, path)
      case None => path !in files
      case Some(e) => path in files && e.path == path && Places(sha, files, e, data)
  {
    hide Places, Contiguous, Total;
    FirstEntryFinds(entries, path);
    EveryFileHasEntry(sha, files, entries, data, path);
  }
}
