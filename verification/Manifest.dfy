/**
 What the aggregate hash of a manifest (verity.rs) is for: telling, before any tree is walked,
 whether two manifests describe the same files.
 */
module Manifest {
  import opened Base
  import opened Merkle
  import opened Layout

  /** The colon of `a:x` is its last one. */
  lemma LastColon(a: string, x: string)
    requires ':' !in x
    ensures var s := a + ":" + x; s[|a|] == ':' && forall k :: |a| < k < |s| ==> s[k] != ':'
  {
    var s := a + ":" + x;
    forall k | |a| < k < |s|
      ensures s[k] != ':'
    {
      assert s[k] == x[k - |a| - 1];
    }
  }

  /** Two strings joined with a colon split again at the last one. */
  lemma JoinInjective(a: string, x: string, b: string, y: string)
    requires ':' !in x && ':' !in y && a + ":" + x == b + ":" + y
    ensures a == b
  {
    var s, t := a + ":" + x, b + ":" + y;
    LastColon(a, x);
    LastColon(b, y);
    assert a == s[..|a|] && b == t[..|b|];
  }

  /** A description names one path. */
  lemma DescriptionNamesPath(p: string, m: nat, q: string, n: nat)
    requires Description(p, m) == Description(q, n)
    ensures p == q
  {
    var s, t := p + ":" + Decimal(m), q + ":" + Decimal(n);
    assert Description(p, m) == s + ":0" && Description(q, n) == t + ":0";
    assert s == (s + ":0")[..|s|] && t == (t + ":0")[..|t|];
    JoinInjective(p, Decimal(m), q, Decimal(n));
  }

  /** Two entries carry the same two hashes. */
  predicate SameHashes(e: FileEntry, f: FileEntry) {
    e.contentHash == f.contentHash && e.metadataHash == f.metadataHash
  }

  lemma {:induction false} MessageLength(entries: seq<FileEntry>)
    ensures |ManifestMessage(entries)| == 64 * |entries|
    decreases |entries|
  {
    if entries != [] { MessageLength(entries[..|entries| - 1]); }
  }

  /** The message is the sequence of the hashes, and nothing less. */
  lemma {:induction false} MessageIsHashes(a: seq<FileEntry>, b: seq<FileEntry>)
    ensures ManifestMessage(a) == ManifestMessage(b)
       <==> |a| == |b| && forall k :: 0 <= k < |a| ==> SameHashes(a[k], b[k])
    decreases |a|
  {
    MessageLength(a);
    MessageLength(b);
    if |a| == |b| > 0 {
      hide ManifestMessage;
      var n := |a| - 1;
      MessageIsHashes(a[..n], b[..n]);
      MessageSplit(a);
      MessageSplit(b);
    }
  }

  lemma MessageSplit(a: seq<FileEntry>)
    requires a != []
    ensures var n := |a| - 1; var m, at: nat := ManifestMessage(a), 64 * n;
      && |m| == at + 64
      && m[..at] == ManifestMessage(a[..n]) && m[at..at + 32] == a[n].contentHash && m[at + 32..] == a[n].metadataHash
      && m == m[..at] + m[at..at + 32] + m[at + 32..]
  {
    MessageLength(a);
    MessageLength(a[..|a| - 1]);
  }

  /** Entry k has bytes 64k to 64k + 64 of the message: its content hash, then its metadata hash. */
  lemma {:induction false} MessageLayout(a: seq<FileEntry>, k: nat)
    requires k < |a|
    ensures var m := ManifestMessage(a);
      |m| == 64 * |a| && m[64 * k..64 * k + 32] == a[k].contentHash && m[64 * k + 32..64 * k + 64] == a[k].metadataHash
    decreases |a|
  {
    hide ManifestMessage;
    MessageLength(a);
    MessageSplit(a);
    var n := |a| - 1;
    if k < n {
      MessageLayout(a[..n], k);
      var m, front := ManifestMessage(a), ManifestMessage(a[..n]);
      assert m[..64 * n][64 * k..64 * k + 32] == m[64 * k..64 * k + 32];
      assert m[..64 * n][64 * k + 32..64 * k + 64] == m[64 * k + 32..64 * k + 64];
    }
  }

  ghost predicate Injective(utf8: Utf8) {
    forall a, b :: utf8(a) == utf8(b) ==> a == b
  }

  /** Hashes taken in building the two manifests that agree on different messages. */
  ghost predicate ManifestCollision(sha: Sha, utf8: Utf8, a: Files, m: LayerManifest, b: Files, n: LayerManifest)
  {
    || Collides(sha, (ManifestMessage(m.files), ManifestMessage(n.files)))
    || exists k :: 0 <= k < |m.files| && k < |n.files| && EntryCollision(sha, utf8, a, m.files[k], b, n.files[k])
  }

  ghost predicate EntryCollision(sha: Sha, utf8: Utf8, a: Files, e: FileEntry, b: Files, f: FileEntry) {
    && e.path in a && f.path in b
    && (|| Collides(sha, (a[e.path], b[f.path]))
        || Collides(sha, (utf8(Description(e.path, e.size)), utf8(Description(f.path, f.size)))))
  }

  /** Entries with the same hashes have the same path and content, absent a collision. */
  lemma SameEntry(sha: Sha, utf8: Utf8, a: Files, e: FileEntry, d: Bytes, b: Files, f: FileEntry, d': Bytes)
    requires Places(sha, a, e, d) && Places(sha, b, f, d') && Describes(sha, utf8, e) && Describes(sha, utf8, f)
    requires Injective(utf8) && SameHashes(e, f)
    ensures (e.path == f.path && a[e.path] == b[f.path]) || EntryCollision(sha, utf8, a, e, b, f)
  {
    hide Description, Aligned;
    if utf8(Description(e.path, e.size)) == utf8(Description(f.path, f.size)) {
      DescriptionNamesPath(e.path, e.size, f.path, f.size);
    }
  }

  /**
   The aggregate hashes of two built manifests are equal exactly when the two layers hold the same
   files with the same bytes, unless two messages hashed in building them collide.
   */
  lemma ManifestHashBinds(sha: Sha, utf8: Utf8, a: Files, m: LayerManifest, d: Bytes, b: Files, n: LayerManifest, d': Bytes)
    requires LaysOut(sha, a, m.files, d) && Described(sha, utf8, m)
    requires LaysOut(sha, b, n.files, d') && Described(sha, utf8, n)
    requires Injective(utf8)
    ensures (m.manifestHash == n.manifestHash <==> a == b) || ManifestCollision(sha, utf8, a, m, b, n)
  {
    hide LaysOut, EntryCollision, Injective, Describes;
    MessageIsHashes(m.files, n.files);
    if a == b {
      SameFilesSameHashes(sha, utf8, a, m, d, n, d');
    }
    if m.manifestHash == n.manifestHash && !ManifestCollision(sha, utf8, a, m, b, n) {
      SameHashesSameFiles(sha, utf8, a, m, d, b, n, d');
    }
  }

  lemma SameFilesSameHashes(sha: Sha, utf8: Utf8, files: Files, m: LayerManifest, d: Bytes, n: LayerManifest, d': Bytes)
    requires LaysOut(sha, files, m.files, d) && Described(sha, utf8, m)
    requires LaysOut(sha, files, n.files, d') && Described(sha, utf8, n)
    ensures |m.files| == |n.files| && forall k :: 0 <= k < |m.files| ==> SameHashes(m.files[k], n.files[k])
  {
    hide Places, Describes, Contiguous, Total, ManifestMessage;
    forall k | 0 <= k < |m.files|
      ensures SameHashes(m.files[k], n.files[k])
    {
      SameFileSameHashes(sha, utf8, files, m.files[k], d, n.files[k], d');
    }
  }

  lemma SameHashesSameFiles(sha: Sha, utf8: Utf8, a: Files, m: LayerManifest, d: Bytes, b: Files, n: LayerManifest, d': Bytes)
    requires LaysOut(sha, a, m.files, d) && Described(sha, utf8, m)
    requires LaysOut(sha, b, n.files, d') && Described(sha, utf8, n)
    requires Injective(utf8)
    requires |m.files| == |n.files| && forall k :: 0 <= k < |m.files| ==> SameHashes(m.files[k], n.files[k])
    requires !ManifestCollision(sha, utf8, a, m, b, n)
    ensures a == b
  {
    hide Places, Describes, Contiguous, Total, EntryCollision, Injective, ManifestMessage, SameHashes;
    forall k | 0 <= k < |m.files|
      ensures m.files[k].path in a && n.files[k].path in b
      ensures m.files[k].path == n.files[k].path && a[m.files[k].path] == b[n.files[k].path]
    {
      PlacesPath(sha, a, m.files[k], d);
      PlacesPath(sha, b, n.files[k], d');
      SameEntry(sha, utf8, a, m.files[k], d, b, n.files[k], d');
    }
    forall p
      ensures (p in a <==> p in b) && (p in a && p in b ==> a[p] == b[p])
    {
      EveryFileHasEntry(sha, a, m.files, d, p);
      EveryFileHasEntry(sha, b, n.files, d', p);
    }
    assert a == b;
  }

  lemma PlacesPath(sha: Sha, files: Files, e: FileEntry, d: Bytes)
    requires Places(sha, files, e, d)
    ensures e.path in files
  {
  }

  lemma SameFileSameHashes(sha: Sha, utf8: Utf8, files: Files, e: FileEntry, d: Bytes, f: FileEntry, d': Bytes)
    requires Places(sha, files, e, d) && Places(sha, files, f, d') && Describes(sha, utf8, e) && Describes(sha, utf8, f)
    requires e.path == f.path
    ensures SameHashes(e, f)
  {
  }
}
