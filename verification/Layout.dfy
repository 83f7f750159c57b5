/**
 `MerkleTree::build_from_vfs` of verity.rs: the files of a layer, in path order, are laid
 out one after the other, each starting on a fresh block, and one tree covers them all.
 */
module Layout {
  import opened Base
  import opened Merkle
  import opened NameOrder

  type Files = map<string, Bytes>

  datatype FileEntry = FileEntry(path: string, size: nat, contentHash: Hash, metadataHash: Hash, first: nat, end: nat)

  datatype LayerManifest = LayerManifest(files: seq<FileEntry>, manifestHash: Hash, rootHash: Hash)

  /** The UTF-8 form of a string. */
  type Utf8 = string -> Bytes

  function Decimal(n: nat): (r: string)
    ensures ':' !in r
  {
    var digit := ('0' as int + n % 10) as char;
    if n < 10 then [digit] else Decimal(n / 10) + [digit]
  }

  /** The number a string of digits writes. */
  function ReadDecimal(s: string): int {
    if s == "" then 0 else 10 * ReadDecimal(s[..|s| - 1]) + (s[|s| - 1] as int - '0' as int)
  }

  predicate AllDigits(s: string) {
    forall i :: 0 <= i < |s| ==> '0' <= s[i] <= '9'
  }

  /** The decimal form is made of digits, does not begin with a zero it can do without, and reads back. */
  lemma {:induction false} DecimalReads(n: nat)
    ensures var s := Decimal(n); s != "" && AllDigits(s) && ReadDecimal(s) == n && (n > 0 ==> s[0] != '0')
    decreases n
  {
    if n >= 10 {
      DecimalReads(n / 10);
      assert Decimal(n)[..|Decimal(n)| - 1] == Decimal(n / 10);
    } else {
      assert Decimal(n)[..0] == "";
    }
  }

  /** Path, size and type of a plain file, as the metadata hash reads them. */
  function Description(path: string, size: nat): string {
    path + ":" + Decimal(size) + ":0"
  }

  /** What the aggregate hash is taken over: every content hash and metadata hash, in order. */
  function ManifestMessage(entries: seq<FileEntry>): Bytes {
    if entries == [] then []
    else
      var e := entries[|entries| - 1];
      ManifestMessage(entries[..|entries| - 1]) + e.contentHash + e.metadataHash
  }

  /** The entry's metadata hash is that of its path and size. */
  predicate Describes(sha: Sha, utf8: Utf8, e: FileEntry) {
    e.metadataHash == sha(utf8(Description(e.path, e.size)))
  }

  predicate Described(sha: Sha, utf8: Utf8, m: LayerManifest) {
    && m.manifestHash == sha(ManifestMessage(m.files))
    && forall k :: 0 <= k < |m.files| ==> Describes(sha, utf8, m.files[k])
  }

  /** A file's bytes, zero-filled to a whole number of blocks. */
  function Aligned(content: Bytes): Bytes {
    content + Zeros(BlockStart(BlocksFor(|content|)) - |content|)
  }

  /** Block j of a file that stands alone; the last one may be short. */
  function FileBlock(content: Bytes, j: nat): Bytes
    requires j < BlocksFor(|content|)
  {
    content[BlockStart(j)..Min(BlockStart(j + 1), |content|)]
  }

  /** The entry gives the file's true size and the blocks of `data` that hold exactly its bytes. */
  predicate Places(sha: Sha, files: Files, e: FileEntry, data: Bytes) {
    && e.path in files
    && e.size == |files[e.path]| && e.contentHash == sha(files[e.path])
    && e.end == e.first + BlocksFor(e.size)
    && BlockStart(e.end) <= |data|
    && data[BlockStart(e.first)..BlockStart(e.end)] == Aligned(files[e.path])
  }

  predicate Contiguous(entries: seq<FileEntry>) {
    && (entries != [] ==> entries[0].first == 0)
    && forall k :: 0 < k < |entries| ==> entries[k].first == entries[k - 1].end
  }

  function Total(entries: seq<FileEntry>): nat {
    if entries == [] then 0 else entries[|entries| - 1].end
  }

  /** The entries list the layer's files in path order and tile the data without gap or overlap. */
  ghost predicate LaysOut(sha: Sha, files: Files, entries: seq<FileEntry>, data: Bytes) {
    && |entries| == |Sorted(files.Keys)|
    && (forall k :: 0 <= k < |entries| ==> entries[k].path == Sorted(files.Keys)[k])
    && (forall k :: 0 <= k < |entries| ==> Places(sha, files, entries[k], data))
    && Contiguous(entries)
    && |data| == BlockStart(Total(entries))
  }

  /** The loop state after the first |entries| paths. */
  ghost predicate LaidSoFar(sha: Sha, files: Files, paths: seq<string>, entries: seq<FileEntry>, all: Bytes) {
    && |entries| <= |paths|
    && (forall k :: 0 <= k < |entries| ==> entries[k].path == paths[k])
    && (forall k :: 0 <= k < |entries| ==> Places(sha, files, entries[k], all))
    && Contiguous(entries)
    && |all| == BlockStart(Total(entries))
  }

  /** Append one file and pad to the next block boundary. */
  method AppendFile(sha: Sha, utf8: Utf8, path: string, buf: Bytes, all: Bytes, ghost first: nat) returns (all': Bytes, e: FileEntry)
    requires |all| == BlockStart(first)
    ensures e == FileEntry(path, |buf|, sha(buf), sha(utf8(Description(path, |buf|))), first, first + BlocksFor(|buf|))
    ensures all <= all' && |all'| == BlockStart(e.end)
    ensures all'[BlockStart(first)..BlockStart(e.end)] == Aligned(buf)
  {
    var blockStart := |all| / 4096;
    all' := all + buf;
    var remainder := |all'| % 4096;
    if remainder != 0 {
      all' := all' + Zeros(4096 - remainder);
    }
    AppendAligned(all, buf, all', blockStart);
    var blockEnd := |all'| / 4096;
    e := FileEntry(path, |buf|, sha(buf), sha(utf8(Description(path, |buf|))), blockStart, blockEnd);
  }

  method HashEntries(sha: Sha, entries: seq<FileEntry>) returns (h: Hash)
    ensures h == sha(ManifestMessage(entries))
  {
    var message: Bytes := [];
    for k := 0 to |entries|
      invariant message == ManifestMessage(entries[..k])
    {
      assert entries[..k + 1][..k] == entries[..k];
      message := message + entries[k].contentHash + entries[k].metadataHash;
    }
    assert entries[..|entries|] == entries;
    h := sha(message);
  }

  /** The loop over the sorted paths. */
  method LayOutFiles(sha: Sha, utf8: Utf8, files: Files) returns (entries: seq<FileEntry>, all: Bytes)
    ensures LaysOut(sha, files, entries, all)
    ensures forall k :: 0 <= k < |entries| ==> Describes(sha, utf8, entries[k])
  {
    hide Places, Describes, Description, Contiguous, Total, Aligned, BlocksFor;
    var paths := Sort(files.Keys);
    all, entries := [], [];
    NothingLaid(sha, files, paths);
    for i := 0 to |paths|
      invariant |entries| == i && LaidSoFar(sha, files, paths, entries, all)
      invariant forall k :: 0 <= k < i ==> Describes(sha, utf8, entries[k])
    {
      assert paths[i] in Elements(paths);
      var all', e := AppendFile(sha, utf8, paths[i], files[paths[i]], all, Total(entries));
      EntryPlaced(sha, utf8, files, paths[i], e, all');
      LayOneMore(sha, files, paths, entries, all, all', e);
      all, entries := all', entries + [e];
    }
  }

  method BuildFromVfs(sha: Sha, utf8: Utf8, files: Files) returns (t: MerkleTree, m: LayerManifest, ghost data: Bytes)
    ensures LaysOut(sha, files, m.files, data)
    ensures IsTreeOf(sha, data, t) && m.rootHash == RootHash(t) && Described(sha, utf8, m)
  {
    hide LaysOut, Describes;
    var entries, all := LayOutFiles(sha, utf8, files);
    t := Build(sha, all);
    var manifestHash := HashEntries(sha, entries);
    m := LayerManifest(entries, manifestHash, RootHash(t));
    data := all;
  }

  lemma NothingLaid(sha: Sha, files: Files, paths: seq<string>)
    ensures LaidSoFar(sha, files, paths, [], [])
  {
  }

  /** What AppendFile returns for a file of the layer is its entry. */
  lemma EntryPlaced(sha: Sha, utf8: Utf8, files: Files, path: string, e: FileEntry, all: Bytes)
    requires path in files
    requires e == FileEntry(path, |files[path]|, sha(files[path]), sha(utf8(Description(path, |files[path]|))),
                            e.first, e.first + BlocksFor(|files[path]|))
    requires BlockStart(e.first) <= BlockStart(e.end) <= |all|
    requires all[BlockStart(e.first)..BlockStart(e.end)] == Aligned(files[path])
    ensures Places(sha, files, e, all) && Describes(sha, utf8, e)
  {
  }

  lemma LayOneMore(sha: Sha, files: Files, paths: seq<string>, entries: seq<FileEntry>, all: Bytes, all': Bytes, e: FileEntry)
    requires LaidSoFar(sha, files, paths, entries, all) && |entries| < |paths|
    requires e.path == paths[|entries|] && e.first == Total(entries)
    requires all <= all' && |all'| == BlockStart(e.end) && Places(sha, files, e, all')
    ensures LaidSoFar(sha, files, paths, entries + [e], all')
  {
    hide Places;
    forall k | 0 <= k < |entries|
      ensures Places(sha, files, entries[k], all')
    {
      PlacesInLonger(sha, files, entries[k], all, all');
    }
  }

  lemma AppendAligned(before: Bytes, buf: Bytes, after: Bytes, first: nat)
    requires |before| == BlockStart(first)
    requires var r := |before + buf| % 4096;
      after == if r == 0 then before + buf else before + buf + Zeros(4096 - r)
    ensures after == before + Aligned(buf)
    ensures |after| == BlockStart(first + BlocksFor(|buf|))
    ensures |after| / 4096 == first + BlocksFor(|buf|)
    ensures after[BlockStart(first)..BlockStart(first + BlocksFor(|buf|))] == Aligned(buf)
  {
    var n := |buf|;
    assert |before + buf| % 4096 == n % 4096;
    if n % 4096 == 0 {
      assert Aligned(buf) == buf;
    } else {
      assert Aligned(buf) == buf + Zeros(4096 - n % 4096);
    }
    assert after == before + Aligned(buf);
  }

  lemma PlacesInLonger(sha: Sha, files: Files, e: FileEntry, before: Bytes, after: Bytes)
    requires Places(sha, files, e, before) && before <= after
    ensures Places(sha, files, e, after)
  {
    assert after[BlockStart(e.first)..BlockStart(e.end)] == before[BlockStart(e.first)..BlockStart(e.end)];
  }

  /** The block ranges of different files never overlap, and follow the path order. */
  lemma {:induction false} RangesDisjoint(sha: Sha, files: Files, entries: seq<FileEntry>, data: Bytes, i: nat, k: nat)
    requires LaysOut(sha, files, entries, data) && i < k < |entries|
    ensures entries[i].first <= entries[i].end <= entries[k].first
    ensures Less(entries[i].path, entries[k].path)
    decreases k
  {
    assert Places(sha, files, entries[i], data) && Places(sha, files, entries[k - 1], data);
    if i < k - 1 {
      RangesDisjoint(sha, files, entries, data, i, k - 1);
    }
    assert Less(Sorted(files.Keys)[i], Sorted(files.Keys)[k]);
  }

  /** Every file has exactly one entry. */
  lemma EveryFileHasEntry(sha: Sha, files: Files, entries: seq<FileEntry>, data: Bytes, path: string)
    requires LaysOut(sha, files, entries, data)
    ensures path in files <==> exists k :: 0 <= k < |entries| && entries[k].path == path
    ensures forall i, k :: 0 <= i < k < |entries| ==> entries[i].path != entries[k].path
  {
    var s := Sorted(files.Keys);
    if path in files {
      assert path in Elements(s);
      var k :| 0 <= k < |s| && s[k] == path;
      assert entries[k].path == path;
    }
    forall i, k | 0 <= i < k < |entries|
      ensures entries[i].path != entries[k].path
    {
      RangesDisjoint(sha, files, entries, data, i, k);
      LessIrreflexive(entries[i].path);
    }
  }

  /** A file's block j, padded, is the tree's block first + j, padded. */
  lemma FileBlockInData(sha: Sha, files: Files, e: FileEntry, data: Bytes, j: nat)
    requires Places(sha, files, e, data) && j < BlocksFor(e.size)
    ensures e.first + j < LeafCount(data)
    ensures Pad(Block(data, e.first + j)) == Pad(FileBlock(files[e.path], j))
  {
    var content := files[e.path];
    var g := e.first + j;
    assert BlockStart(g + 1) <= BlockStart(e.end) <= |data|;
    assert Block(data, g) == data[BlockStart(g)..BlockStart(g + 1)];
    AlignedBlock(content, j);
    SliceOfSlice(data, BlockStart(e.first), BlockStart(e.end), BlockStart(j), BlockStart(j + 1));
  }

  lemma SliceOfSlice(s: Bytes, a: nat, b: nat, c: nat, d: nat)
    requires a <= b <= |s| && c <= d <= b - a
    ensures s[a..b][c..d] == s[a + c..a + d]
  {
    var inner := s[a..b];
    forall i | 0 <= i < d - c
      ensures inner[c..d][i] == s[a + c..a + d][i]
    {
      assert inner[c + i] == s[a + c + i];
    }
  }

  lemma AlignedBlock(content: Bytes, j: nat)
    requires j < BlocksFor(|content|)
    ensures BlockStart(j + 1) <= |Aligned(content)|
    ensures Aligned(content)[BlockStart(j)..BlockStart(j + 1)] == Pad(FileBlock(content, j))
  {
  }
}
