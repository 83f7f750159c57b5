/**
 What a verified read returns (`VerifiedReader` of verity.rs), as functions of the reader's two
 fields. The backing reader is an arbitrary function from (offset, length) to what `seek` and
 `read_exact` deliver, and may differ from one call to the next.
 */
module Reader {
  import opened Base
  import opened Merkle
  import opened Layout

  datatype OnFailure = Reject | Warn

  /** What stays fixed while a file is open. */
  datatype Context = Context(sha: Sha, tree: MerkleTree, root: Hash, onFailure: OnFailure, entry: FileEntry)

  datatype Resident = Resident(block: nat, data: Bytes)

  datatype ReaderState = ReaderState(position: nat, current: Option<Resident>)

  const Fresh := ReaderState(0, None)

  type Backing = (nat, nat) -> Option<Bytes>

  function BlockLen(size: nat, j: nat): nat {
    if BlockStart(j) >= size then 0 else Min(size - BlockStart(j), 4096)
  }

  function BlockOf(position: nat): nat {
    position / 4096
  }

  function OffsetIn(position: nat): nat {
    position % 4096
  }

  /** Below the end of the file, the block of a position reaches past it and not past the end. */
  lemma Available(size: nat, position: nat)
    requires position < size
    ensures OffsetIn(position) < BlockLen(size, BlockOf(position))
    ensures position - OffsetIn(position) + BlockLen(size, BlockOf(position)) <= size
    ensures BlockOf(position) < BlocksFor(size)
  {
  }

  /** `read_exact` fills the whole buffer or fails. */
  function Fetch(c: Context, b: Backing, j: nat): Option<Bytes> {
    var n := BlockLen(c.entry.size, j);
    var r := b(BlockStart(j), n);
    if r.Some? && |r.value| == n then r else None
  }

  predicate Passes(c: Context, j: nat, d: Bytes)
    requires Shaped(c.tree)
  {
    Verifies(c.sha, c.tree, c.entry.first + j, d, c.root)
  }

  /** `load_block`: the resident block, or a fetched one that passed (or is tolerated). */
  function Load(c: Context, current: Option<Resident>, b: Backing, j: nat): Option<Bytes>
    requires Shaped(c.tree)
  {
    if current.Some? && current.value.block == j then Some(current.value.data)
    else
      var r := Fetch(c, b, j);
      if r.Some? && (Passes(c, j, r.value) || c.onFailure == Warn) then r else None
  }

  datatype ReadOutcome = ReadOutcome(bytes: Bytes, ok: bool, state: ReaderState)

  /** One `read` into a buffer of `len` bytes: the bytes stored, the verdict, the state left behind. */
  function Read(c: Context, s: ReaderState, len: nat, b: Backing): ReadOutcome
    requires Shaped(c.tree)
    decreases len
  {
    if len == 0 || s.position >= c.entry.size then ReadOutcome([], true, s)
    else
      var j, offset := BlockOf(s.position), OffsetIn(s.position);
      var block := Load(c, s.current, b, j);
      if block == None then ReadOutcome([], false, s)
      else
        var loaded := s.(current := Some(Resident(j, block.value)));
        var avail := if |block.value| >= offset then |block.value| - offset else 0;
        var copy := Min(avail, len);
        if copy == 0 then ReadOutcome([], true, loaded)
        else
          var rest := Read(c, loaded.(position := s.position + copy), len - copy, b);
          ReadOutcome(block.value[offset..offset + copy] + rest.bytes, rest.ok, rest.state)
  }

  function Prefixed(bytes: Bytes, o: ReadOutcome): ReadOutcome {
    ReadOutcome(bytes + o.bytes, o.ok, o.state)
  }

  lemma PrefixedNothing(o: ReadOutcome)
    ensures Prefixed([], o) == o
  {
    assert [] + o.bytes == o.bytes;
  }

  lemma PrefixedTwice(a: Bytes, b: Bytes, o: ReadOutcome)
    ensures Prefixed(a, Prefixed(b, o)) == Prefixed(a + b, o)
  {
    assert a + (b + o.bytes) == a + b + o.bytes;
  }

  /** When the loop is left, the stored bytes are a prefix of the caller's buffer. */
  lemma LoopLeft(o: ReadOutcome, done: Bytes, before: Bytes, out: Bytes, ok: bool, s: ReaderState)
    requires o == Prefixed(done, ReadOutcome([], ok, s))
    requires |done| <= |before| && out == done + before[|done|..]
    ensures o == ReadOutcome(done, ok, s) && |o.bytes| <= |before| == |out| && out == o.bytes + before[|o.bytes|..]
  {
    assert done + [] == done;
  }

  /** How much of a block one turn of the loop copies. */
  function CopyLen(s: ReaderState, len: nat, block: Bytes): nat {
    if |block| <= OffsetIn(s.position) then 0 else Min(|block| - OffsetIn(s.position), len)
  }

  function Advance(s: ReaderState, len: nat, block: Bytes): ReaderState {
    ReaderState(s.position + CopyLen(s, len, block), Some(Resident(BlockOf(s.position), block)))
  }

  /** One turn of the read loop, in the terms the loop uses. */
  lemma ReadRound(c: Context, s: ReaderState, len: nat, b: Backing)
    requires Shaped(c.tree) && len > 0 && s.position < c.entry.size
    ensures var block, offset := Load(c, s.current, b, BlockOf(s.position)), OffsetIn(s.position);
      Read(c, s, len, b) ==
        if block == None then ReadOutcome([], false, s)
        else
          var copy, next := CopyLen(s, len, block.value), Advance(s, len, block.value);
          if copy == 0 then ReadOutcome([], true, next)
          else Prefixed(block.value[offset..offset + copy], Read(c, next, len - copy, b))
  {
    hide BlockOf, OffsetIn, Load;
  }

  lemma ReadNothing(c: Context, s: ReaderState, len: nat, b: Backing)
    requires Shaped(c.tree) && (len == 0 || s.position >= c.entry.size)
    ensures Read(c, s, len, b) == ReadOutcome([], true, s)
  {
  }

  // ── Seek ──────────────────────────────────────────────────────────────────

  datatype SeekFrom = Start(p: nat) | End(d: int) | Current(d: int)

  /** Two's complement reading of the low 64 bits: `as i64`, and `+` on i64 without overflow checks. */
  function AsI64(n: int): int {
    (n + 0x8000_0000_0000_0000) % 0x1_0000_0000_0000_0000 - 0x8000_0000_0000_0000
  }

  function Seek(c: Context, s: ReaderState, pos: SeekFrom): Option<ReaderState> {
    var newPos := match pos
      case Start(p) => AsI64(p)
      case End(d) => AsI64(AsI64(c.entry.size) + d)
      case Current(d) => AsI64(AsI64(s.position) + d);
    if newPos < 0 then None else Some(s.(position := newPos))
  }

  /** Where the call asks to go, on unbounded integers. */
  function Target(c: Context, s: ReaderState, pos: SeekFrom): int {
    match pos
    case Start(p) => p
    case End(d) => c.entry.size + d
    case Current(d) => s.position + d
  }

  predicate I64(d: int) { -0x8000_0000_0000_0000 <= d < 0x8000_0000_0000_0000 }

  predicate SeekArgs(pos: SeekFrom) {
    match pos
    case Start(p) => p < 0x1_0000_0000_0000_0000
    case End(d) => I64(d)
    case Current(d) => I64(d)
  }

  /** A seek lands exactly where asked, and fails exactly when that is negative or past the i64 range. */
  lemma SeekLandsOnTarget(c: Context, s: ReaderState, pos: SeekFrom)
    requires c.entry.size < 0x8000_0000_0000_0000 && s.position < 0x8000_0000_0000_0000 && SeekArgs(pos)
    ensures var t := Target(c, s, pos);
      Seek(c, s, pos) == if 0 <= t < 0x8000_0000_0000_0000 then Some(s.(position := t)) else None
  {
    hide AsI64;
    AsI64Value(c.entry.size);
    AsI64Value(s.position);
    AsI64Value(Target(c, s, pos));
  }

  lemma AsI64Value(n: int)
    requires -0x8000_0000_0000_0000 <= n < 0x1_0000_0000_0000_0000
    ensures AsI64(n) == if n < 0x8000_0000_0000_0000 then n else n - 0x1_0000_0000_0000_0000
  {
  }

  // ── What every read keeps ─────────────────────────────────────────────────

  /** The resident block has its block's length and, in Reject mode, has passed verification. */
  predicate StateOk(c: Context, s: ReaderState)
    requires Shaped(c.tree)
  {
    s.current.Some? ==>
      && |s.current.value.data| == BlockLen(c.entry.size, s.current.value.block)
      && (c.onFailure == Reject ==> Passes(c, s.current.value.block, s.current.value.data))
  }

  /** The file's bytes left at a position, at most `len` of them. */
  function Remaining(size: nat, position: nat, len: nat): nat {
    if position >= size then 0 else Min(len, size - position)
  }

  lemma LoadedBlock(c: Context, s: ReaderState, b: Backing, j: nat)
    requires Shaped(c.tree) && StateOk(c, s) && Load(c, s.current, b, j).Some?
    ensures |Load(c, s.current, b, j).value| == BlockLen(c.entry.size, j)
    ensures c.onFailure == Reject ==> Passes(c, j, Load(c, s.current, b, j).value)
  {
  }

  /**
   No short reads: an Ok read stores min(len, size - position) bytes, whatever the backing
   does. Ok or not, the position moves by exactly the bytes stored.
   */
  lemma {:induction false} ReadProgress(c: Context, s: ReaderState, len: nat, b: Backing)
    requires Shaped(c.tree) && StateOk(c, s)
    ensures var r := Read(c, s, len, b);
      && StateOk(c, r.state)
      && r.state.position == s.position + |r.bytes|
      && |r.bytes| <= Remaining(c.entry.size, s.position, len)
      && (r.ok ==> |r.bytes| == Remaining(c.entry.size, s.position, len))
    decreases len
  {
    hide Read, Load, StateOk, BlockOf, OffsetIn, CopyLen, BlockLen;
    if len == 0 || s.position >= c.entry.size {
      ReadNothing(c, s, len, b);
    } else {
      ReadRound(c, s, len, b);
      var l := Load(c, s.current, b, BlockOf(s.position));
      if l.Some? {
        TurnAdvances(c, s, len, b, l.value);
        ReadProgress(c, Advance(s, len, l.value), len - CopyLen(s, len, l.value), b);
      }
    }
  }

  // ── End-to-end integrity ──────────────────────────────────────────────────

  /**
   The entry and the root come from the build over `files`; the node array is any of the
   build's padded count.
   */
  ghost predicate Anchored(c: Context, files: Files, data: Bytes, genuine: MerkleTree) {
    && IsTreeOf(c.sha, data, genuine) && c.root == RootHash(genuine)
    && Places(c.sha, files, c.entry, data)
    && Shaped(c.tree) && c.tree.paddedLeafCount == genuine.paddedLeafCount
  }

  lemma AnchoredCount(c: Context, files: Files, data: Bytes, genuine: MerkleTree)
    requires Anchored(c, files, data, genuine)
    ensures Shaped(c.tree) && Shaped(genuine) && c.tree.paddedLeafCount == genuine.paddedLeafCount
  {
  }

  /** Accepting `d` as block j of the file exhibits two messages with one hash. */
  ghost predicate BlockCollision(c: Context, data: Bytes, genuine: MerkleTree, j: nat, d: Bytes)
    requires Shaped(c.tree) && Shaped(genuine) && c.tree.paddedLeafCount == genuine.paddedLeafCount
  {
    var g := c.entry.first + j;
    && g < LeafCount(data) && g < genuine.paddedLeafCount
    && Collides(c.sha, ExtractCollision(c.sha, Block(data, g), genuine, c.tree, g, d))
  }

  lemma BlockIntegrity(c: Context, files: Files, data: Bytes, genuine: MerkleTree, j: nat, d: Bytes)
    requires Anchored(c, files, data, genuine)
    requires j < BlocksFor(c.entry.size) && |d| == BlockLen(c.entry.size, j) && Passes(c, j, d)
    ensures d == FileBlock(files[c.entry.path], j) || BlockCollision(c, data, genuine, j, d)
  {
    hide Climb, ExtractFrom, HeapHashed, Leaf, NextPowerOfTwo, Aligned;
    var content := files[c.entry.path];
    FileBlockInData(c.sha, files, c.entry, data, j);
    VerifySound(c.sha, data, genuine, c.tree, c.entry.first + j, d);
    if Pad(d) == Pad(FileBlock(content, j)) {
      PadInjective(d, FileBlock(content, j));
    }
  }

  /** The bytes a read starting in state `s` uses as block j. */
  function Served(c: Context, s: ReaderState, b: Backing, j: nat): Option<Bytes> {
    if j == BlockOf(s.position) && s.current.Some? && s.current.value.block == j then Some(s.current.value.data)
    else Fetch(c, b, j)
  }

  /** Among the blocks that supplied the `stored` bytes of this read, one collides with the genuine one. */
  ghost predicate ReadCollision(c: Context, data: Bytes, genuine: MerkleTree, s: ReaderState, stored: nat, b: Backing)
    requires Shaped(c.tree) && Shaped(genuine) && c.tree.paddedLeafCount == genuine.paddedLeafCount
  {
    stored > 0 &&
    exists j :: BlockOf(s.position) <= j < BlocksFor(c.entry.size) && BlockStart(j) < s.position + stored
             && Served(c, s, b, j).Some? && BlockCollision(c, data, genuine, j, Served(c, s, b, j).value)
  }

  /** The bytes are the content's own at the position. */
  predicate BytesAt(content: Bytes, position: nat, bytes: Bytes) {
    position + |bytes| <= |content| && bytes == content[position..position + |bytes|]
  }

  /** A stretch of a file's block lies in the file where the block says. */
  lemma BytesOfBlock(content: Bytes, position: nat, copy: nat)
    requires position < |content| && copy <= BlockLen(|content|, BlockOf(position)) - OffsetIn(position)
    ensures BlockOf(position) < BlocksFor(|content|)
    ensures OffsetIn(position) + copy <= |FileBlock(content, BlockOf(position))|
    ensures BytesAt(content, position, FileBlock(content, BlockOf(position))[OffsetIn(position)..OffsetIn(position) + copy])
  {
    var j, offset := BlockOf(position), OffsetIn(position);
    SliceOfSlice(content, BlockStart(j), Min(BlockStart(j + 1), |content|), offset, offset + copy);
  }

  lemma BytesJoin(content: Bytes, position: nat, a: Bytes, b: Bytes)
    requires BytesAt(content, position, a) && BytesAt(content, position + |a|, b)
    ensures BytesAt(content, position, a + b)
  {
    assert content[position..position + |a|] + content[position + |a|..position + |a| + |b|]
        == content[position..position + |a| + |b|];
  }

  /**
   In Reject mode every byte a read stores, Ok or not, is the byte the file had at that position
   when the tree was built, unless a block that supplied stored bytes exhibits a collision.
   */
  lemma {:induction false} ReadIntegrity(c: Context, files: Files, data: Bytes, genuine: MerkleTree,
                                         s: ReaderState, len: nat, b: Backing)
    requires Anchored(c, files, data, genuine) && c.onFailure == Reject && StateOk(c, s)
    ensures var r := Read(c, s, len, b);
      || r.bytes == [] || BytesAt(files[c.entry.path], s.position, r.bytes)
      || ReadCollision(c, data, genuine, s, |r.bytes|, b)
    decreases len
  {
    hide Anchored, StateOk, Read, Load, Remaining, BlockOf, OffsetIn, CopyLen, BytesAt, ReadCollision;
    AnchoredCount(c, files, data, genuine);
    if len == 0 || s.position >= c.entry.size {
      ReadNothing(c, s, len, b);
    } else {
      ReadRound(c, s, len, b);
      var l := Load(c, s.current, b, BlockOf(s.position));
      if l.Some? {
        TurnAdvances(c, s, len, b, l.value);
        var copy, next := CopyLen(s, len, l.value), Advance(s, len, l.value);
        ReadIntegrity(c, files, data, genuine, next, len - copy, b);
        ReadProgress(c, next, len - copy, b);
        TurnIntegrity(c, files, data, genuine, s, len, b, l.value, Read(c, next, len - copy, b).bytes);
      }
    }
  }

  /** A turn with its block in hand copies something and keeps the state good. */
  lemma TurnAdvances(c: Context, s: ReaderState, len: nat, b: Backing, block: Bytes)
    requires Shaped(c.tree) && StateOk(c, s) && len > 0 && s.position < c.entry.size
    requires Load(c, s.current, b, BlockOf(s.position)) == Some(block)
    ensures 0 < CopyLen(s, len, block) <= len && OffsetIn(s.position) + CopyLen(s, len, block) <= |block|
    ensures StateOk(c, Advance(s, len, block)) && s.position + CopyLen(s, len, block) <= c.entry.size
    ensures |block| == BlockLen(c.entry.size, BlockOf(s.position))
  {
    hide BlockOf, OffsetIn, BlockLen, Passes;
    LoadedBlock(c, s, b, BlockOf(s.position));
    Available(c.entry.size, s.position);
  }

  /** If the rest of the read keeps integrity, so does the read. */
  lemma TurnIntegrity(c: Context, files: Files, data: Bytes, genuine: MerkleTree, s: ReaderState, len: nat, b: Backing,
                      block: Bytes, rest: Bytes)
    requires Anchored(c, files, data, genuine) && c.onFailure == Reject && StateOk(c, s)
    requires len > 0 && s.position < c.entry.size && Load(c, s.current, b, BlockOf(s.position)) == Some(block)
    requires 0 < CopyLen(s, len, block) <= len && OffsetIn(s.position) + CopyLen(s, len, block) <= |block|
    requires |rest| <= Remaining(c.entry.size, s.position + CopyLen(s, len, block), len - CopyLen(s, len, block))
    requires var next := Advance(s, len, block);
      || rest == [] || BytesAt(files[c.entry.path], next.position, rest) || ReadCollision(c, data, genuine, next, |rest|, b)
    ensures var bytes := block[OffsetIn(s.position)..OffsetIn(s.position) + CopyLen(s, len, block)] + rest;
      BytesAt(files[c.entry.path], s.position, bytes) || ReadCollision(c, data, genuine, s, |bytes|, b)
  {
    hide BlockOf, OffsetIn, BlockLen, ReadCollision, FileBlock, BytesAt, IsTreeOf, Load, StateOk;
    AnchoredCount(c, files, data, genuine);
    var content, copy, next := files[c.entry.path], CopyLen(s, len, block), Advance(s, len, block);
    var chunk := block[OffsetIn(s.position)..OffsetIn(s.position) + copy];
    FirstBlock(c, files, data, genuine, s, b, block, |chunk + rest|);
    if ReadCollision(c, data, genuine, next, |rest|, b) && rest != [] {
      LaterCollision(c, data, genuine, s, len, b, block, |rest|);
    }
    if !ReadCollision(c, data, genuine, s, |chunk + rest|, b) {
      TurnAdvances(c, s, len, b, block);
      BytesOfBlock(content, s.position, copy);
      if rest == [] {
        assert chunk + rest == chunk;
      } else {
        BytesJoin(content, s.position, chunk, rest);
      }
    }
  }

  lemma StartOfBlock(position: nat)
    ensures BlockStart(BlockOf(position)) <= position
  {
  }

  /** The first block a read uses is the file's own, or collides. */
  lemma FirstBlock(c: Context, files: Files, data: Bytes, genuine: MerkleTree, s: ReaderState, b: Backing, block: Bytes, stored: nat)
    requires Anchored(c, files, data, genuine) && c.onFailure == Reject && StateOk(c, s)
    requires s.position < c.entry.size && Load(c, s.current, b, BlockOf(s.position)) == Some(block) && stored > 0
    ensures BlockOf(s.position) < BlocksFor(|files[c.entry.path]|)
    ensures block == FileBlock(files[c.entry.path], BlockOf(s.position)) || ReadCollision(c, data, genuine, s, stored, b)
  {
    hide IsTreeOf, Passes, BlockCollision, FileBlock, BlockOf, BlockLen, Aligned;
    LoadedBlock(c, s, b, BlockOf(s.position));
    Available(c.entry.size, s.position);
    BlockIntegrity(c, files, data, genuine, BlockOf(s.position), block);
    StartOfBlock(s.position);
    assert Served(c, s, b, BlockOf(s.position)) == Some(block);
  }

  /** A read that outlasts a block goes on in a later block. */
  lemma NextBlock(size: nat, position: nat)
    requires position < size
    ensures var next := position - OffsetIn(position) + BlockLen(size, BlockOf(position));
      next == size || BlockOf(next) > BlockOf(position)
  {
  }

  /** A collision met by the rest of a read is a collision of this read. */
  lemma LaterCollision(c: Context, data: Bytes, genuine: MerkleTree, s: ReaderState, len: nat, b: Backing, block: Bytes, more: nat)
    requires Shaped(c.tree) && Shaped(genuine) && c.tree.paddedLeafCount == genuine.paddedLeafCount
    requires s.position < c.entry.size && StateOk(c, s) && Load(c, s.current, b, BlockOf(s.position)) == Some(block)
    requires 0 < CopyLen(s, len, block) <= len
    requires 0 < more <= Remaining(c.entry.size, s.position + CopyLen(s, len, block), len - CopyLen(s, len, block))
    requires ReadCollision(c, data, genuine, Advance(s, len, block), more, b)
    ensures ReadCollision(c, data, genuine, s, CopyLen(s, len, block) + more, b)
  {
    hide BlockCollision, BlockOf, OffsetIn, BlockLen, Passes;
    var next := Advance(s, len, block);
    LoadedBlock(c, s, b, BlockOf(s.position));
    Available(c.entry.size, s.position);
    NextBlock(c.entry.size, s.position);
    var j :| BlockOf(next.position) <= j < BlocksFor(c.entry.size) && BlockStart(j) < next.position + more
          && Served(c, next, b, j).Some? && BlockCollision(c, data, genuine, j, Served(c, next, b, j).value);
    assert Served(c, next, b, j) == Served(c, s, b, j);
  }

  // ── Whole sessions ────────────────────────────────────────────────────────

  /** A call on an open file; every read may meet a different backing. */
  datatype Call = SeekCall(pos: SeekFrom) | ReadCall(len: nat, backing: Backing)

  function After(c: Context, s: ReaderState, call: Call): ReaderState
    requires Shaped(c.tree)
  {
    match call
    case SeekCall(pos) => (match Seek(c, s, pos) case Some(s') => s' case None => s)
    case ReadCall(len, b) => Read(c, s, len, b).state
  }

  function Run(c: Context, s: ReaderState, calls: seq<Call>): ReaderState
    requires Shaped(c.tree)
    decreases |calls|
  {
    if calls == [] then s
    else After(c, Run(c, s, calls[..|calls| - 1]), calls[|calls| - 1])
  }

  lemma {:induction false} RunKeepsStateOk(c: Context, calls: seq<Call>)
    requires Shaped(c.tree)
    ensures StateOk(c, Run(c, Fresh, calls))
    decreases |calls|
  {
    if calls != [] {
      var s, call := Run(c, Fresh, calls[..|calls| - 1]), calls[|calls| - 1];
      RunKeepsStateOk(c, calls[..|calls| - 1]);
      if call.ReadCall? {
        ReadProgress(c, s, call.len, call.backing);
      }
    }
  }

  /**
   End-to-end integrity. In any session on a file opened in Reject mode, over any node array
   of the build's padded count and any backing bytes, each Ok read returns exactly the
   build-time bytes at its position, as many as fit and remain, unless a block that read used
   exhibits a hash collision.
   */
  lemma SessionIntegrity(c: Context, files: Files, data: Bytes, genuine: MerkleTree, calls: seq<Call>, len: nat, b: Backing)
    requires Anchored(c, files, data, genuine) && c.onFailure == Reject
    ensures var s := Run(c, Fresh, calls);
      var content, r := files[c.entry.path], Read(c, s, len, b);
      r.ok ==>
        || r.bytes == (if s.position >= |content| then [] else content[s.position..Min(s.position + len, |content|)])
        || ReadCollision(c, data, genuine, s, |r.bytes|, b)
  {
    hide IsTreeOf, Read, ReadCollision, StateOk, Run;
    var s := Run(c, Fresh, calls);
    RunKeepsStateOk(c, calls);
    ReadProgress(c, s, len, b);
    ReadIntegrity(c, files, data, genuine, s, len, b);
  }

  /** How many leaves the build's tree has under these entries; a caller can read it off the manifest. */
  function ManifestLeaves(entries: seq<FileEntry>): nat {
    if Total(entries) == 0 then 1 else Total(entries)
  }

  /** Entry k of a built manifest is anchored in the build's tree. */
  lemma BuiltAnchored(sha: Sha, files: Files, m: LayerManifest, data: Bytes, genuine: MerkleTree, presented: MerkleTree, k: nat)
    requires LaysOut(sha, files, m.files, data) && IsTreeOf(sha, data, genuine) && m.rootHash == RootHash(genuine)
    requires Shaped(presented) && presented.paddedLeafCount == NextPowerOfTwo(ManifestLeaves(m.files))
    requires k < |m.files|
    ensures Anchored(Context(sha, presented, m.rootHash, Reject, m.files[k]), files, data, genuine)
    ensures m.files[k].path in files
  {
    hide HeapHashed, Aligned, Contiguous, NextPowerOfTwo;
    assert Places(sha, files, m.files[k], data);
    assert LeafCount(data) == ManifestLeaves(m.files);
  }

  /**
   The same from the build's own outputs: entry k of the manifest, the manifest's root, and any
   node array whose padded count is the one the manifest's block ranges call for.
   */
  lemma BuiltLayerIntegrity(sha: Sha, files: Files, m: LayerManifest, data: Bytes, genuine: MerkleTree,
                            presented: MerkleTree, k: nat, calls: seq<Call>, len: nat, b: Backing)
    requires LaysOut(sha, files, m.files, data) && IsTreeOf(sha, data, genuine) && m.rootHash == RootHash(genuine)
    requires Shaped(presented) && presented.paddedLeafCount == NextPowerOfTwo(ManifestLeaves(m.files))
    requires k < |m.files|
    ensures m.files[k].path in files && presented.paddedLeafCount == genuine.paddedLeafCount
    ensures var c := Context(sha, presented, m.rootHash, Reject, m.files[k]);
      var s := Run(c, Fresh, calls);
      var content, r := files[m.files[k].path], Read(c, s, len, b);
      r.ok ==>
        || r.bytes == (if s.position >= |content| then [] else content[s.position..Min(s.position + len, |content|)])
        || ReadCollision(c, data, genuine, s, |r.bytes|, b)
  {
    hide *;
    BuiltAnchored(sha, files, m, data, genuine, presented, k);
    var c := Context(sha, presented, m.rootHash, Reject, m.files[k]);
    AnchoredCount(c, files, data, genuine);
    SessionIntegrity(c, files, data, genuine, calls, len, b);
  }

  // ── A faithful backing: the reader is a cursor ────────────────────────────

  /** The backing still holds the build-time bytes. */
  ghost predicate Faithful(b: Backing, content: Bytes) {
    forall at: nat, n: nat :: at + n <= |content| ==> b(at, n) == Some(content[at..at + n])
  }

  ghost predicate CallFaithful(call: Call, content: Bytes) {
    call.ReadCall? ==> Faithful(call.backing, content)
  }

  /** The resident block is the file's own. */
  predicate ResidentFaithful(s: ReaderState, content: Bytes) {
    s.current.Some? ==>
      && s.current.value.block < BlocksFor(|content|)
      && s.current.value.data == FileBlock(content, s.current.value.block)
  }

  /** The tree accepts every genuine block of the file. */
  ghost predicate AcceptsFile(c: Context, content: Bytes)
    requires Shaped(c.tree)
  {
    && c.entry.size == |content|
    && forall j: nat :: j < BlocksFor(|content|) ==> Passes(c, j, FileBlock(content, j))
  }

  /** The tree the build returned accepts every block of every file it covers. */
  lemma BuildAcceptsFile(c: Context, files: Files, data: Bytes)
    requires IsTreeOf(c.sha, data, c.tree) && c.root == RootHash(c.tree)
    requires Places(c.sha, files, c.entry, data)
    ensures AcceptsFile(c, files[c.entry.path])
  {
    hide Verifies, Aligned, Pad, FileBlock;
    var content := files[c.entry.path];
    forall j: nat | j < BlocksFor(|content|)
      ensures Passes(c, j, FileBlock(content, j))
    {
      FileBlockInData(c.sha, files, c.entry, data, j);
      GenuineBlockVerifies(c.sha, data, c.tree, c.entry.first + j, FileBlock(content, j));
    }
  }

  /** Block j of what the backing holds passes, or is tolerated. */
  predicate Serves(c: Context, content: Bytes, j: nat)
    requires Shaped(c.tree) && j < BlocksFor(|content|)
  {
    c.onFailure == Warn || Passes(c, j, FileBlock(content, j))
  }

  /** Content of the entry's size, each block of which is served: genuine content, or any content in Warn mode. */
  ghost predicate Admits(c: Context, content: Bytes)
    requires Shaped(c.tree)
  {
    && c.entry.size == |content|
    && forall j: nat :: j < BlocksFor(|content|) ==> Serves(c, content, j)
  }

  lemma AdmitsGenuine(c: Context, content: Bytes)
    requires Shaped(c.tree) && c.entry.size == |content|
    requires AcceptsFile(c, content) || c.onFailure == Warn
    ensures Admits(c, content)
  {
    hide Passes;
  }

  lemma LoadFaithful(c: Context, s: ReaderState, content: Bytes, b: Backing)
    requires Shaped(c.tree) && Admits(c, content) && Faithful(b, content)
    requires ResidentFaithful(s, content) && s.position < |content|
    ensures BlockOf(s.position) < BlocksFor(|content|)
    ensures Load(c, s.current, b, BlockOf(s.position)) == Some(FileBlock(content, BlockOf(s.position)))
  {
    hide Verifies;
    var j := BlockOf(s.position);
    Available(|content|, s.position);
    var n := BlockLen(|content|, j);
    assert BlockStart(j) + n <= |content|;
    assert b(BlockStart(j), n) == Some(content[BlockStart(j)..BlockStart(j) + n]);
    assert Serves(c, content, j);
  }

  lemma AcceptedSize(c: Context, content: Bytes)
    requires Shaped(c.tree) && Admits(c, content)
    ensures c.entry.size == |content|
  {
  }

  lemma FileBlockLen(content: Bytes, j: nat)
    requires j < BlocksFor(|content|)
    ensures |FileBlock(content, j)| == BlockLen(|content|, j)
  {
  }

  lemma SlicesJoin(content: Bytes, at: nat, k: nat, n: nat)
    requires k <= n && at + n <= |content|
    ensures content[at..at + k] + content[at + k..at + n] == content[at..at + n]
    ensures k == n ==> content[at..at + k] + [] == content[at..at + n]
  {
  }

  /** Over a faithful backing a read succeeds and is a slice of the file. */
  lemma {:induction false} ReadIsSlice(c: Context, s: ReaderState, content: Bytes, len: nat, b: Backing)
    requires Shaped(c.tree) && Admits(c, content) && Faithful(b, content) && ResidentFaithful(s, content)
    ensures var r, n := Read(c, s, len, b), Remaining(|content|, s.position, len);
      && r.ok && ResidentFaithful(r.state, content) && r.state.position == s.position + n
      && r.bytes == if n == 0 then [] else content[s.position..s.position + n]
    decreases len
  {
    hide BlockOf, OffsetIn, BlockLen, FileBlock, CopyLen, Admits, Faithful, Read, Load, ResidentFaithful;
    AcceptedSize(c, content);
    if len == 0 || s.position >= |content| {
      ReadNothing(c, s, len, b);
    } else {
      var block := FaithfulTurn(c, s, content, len, b);
      ReadRound(c, s, len, b);
      ReadIsSlice(c, Advance(s, len, block), content, len - CopyLen(s, len, block), b);
      SlicesJoin(content, s.position, CopyLen(s, len, block), Remaining(|content|, s.position, len));
    }
  }

  /** Over a faithful backing one turn copies the file's next bytes. */
  lemma FaithfulTurn(c: Context, s: ReaderState, content: Bytes, len: nat, b: Backing) returns (block: Bytes)
    requires Shaped(c.tree) && Admits(c, content) && Faithful(b, content) && ResidentFaithful(s, content)
    requires len > 0 && s.position < |content|
    ensures Load(c, s.current, b, BlockOf(s.position)) == Some(block)
    ensures 0 < CopyLen(s, len, block) <= len && s.position + CopyLen(s, len, block) <= |content|
    ensures OffsetIn(s.position) + CopyLen(s, len, block) <= |block|
    ensures block[OffsetIn(s.position)..OffsetIn(s.position) + CopyLen(s, len, block)]
         == content[s.position..s.position + CopyLen(s, len, block)]
    ensures ResidentFaithful(Advance(s, len, block), content)
  {
    hide BlockOf, OffsetIn, BlockLen, FileBlock, Passes, Admits, Faithful, Load;
    Available(|content|, s.position);
    LoadFaithful(c, s, content, b);
    block := FileBlock(content, BlockOf(s.position));
    FileBlockLen(content, BlockOf(s.position));
    BytesOfBlock(content, s.position, CopyLen(s, len, block));
  }

  /**
   Over a backing that holds any content of the entry's size, a read stores that content up to the
   first block that is not served, and fails exactly if it meets one: in Warn mode never, in Reject
   mode at the first block that does not pass.
   */
  lemma {:induction false} ReadStopsWhereRefused(c: Context, s: ReaderState, content: Bytes, len: nat, b: Backing)
    requires Shaped(c.tree) && c.entry.size == |content| && Faithful(b, content) && ResidentFaithful(s, content) && StateOk(c, s)
    ensures var r := Read(c, s, len, b);
      && (r.bytes == [] || BytesAt(content, s.position, r.bytes))
      && ResidentFaithful(r.state, content)
      && (!r.ok ==> Spanned(|content|, s.position, len, BlockOf(r.state.position)) && !Serves(c, content, BlockOf(r.state.position)))
      && (r.ok ==> forall j :: Spanned(|content|, s.position, len, j) ==> Serves(c, content, j))
    decreases len
  {
    hide Read, Load, StateOk, ResidentFaithful, CopyLen, OffsetIn, Faithful, BlockOf, BlockLen, Serves, BytesAt, FileBlock, Spanned;
    NothingSpanned(|content|, s.position, len);
    if len == 0 || s.position >= |content| {
      ReadNothing(c, s, len, b);
    } else {
      ReadRound(c, s, len, b);
      LoadHeld(c, s, content, b);
      var l := Load(c, s.current, b, BlockOf(s.position));
      FirstSpanned(|content|, s.position, len);
      if l.Some? {
        TurnAdvances(c, s, len, b, l.value);
        var next, left := Advance(s, len, l.value), len - CopyLen(s, len, l.value);
        HeldTurn(c, s, content, len, b, l.value);
        ReadStopsWhereRefused(c, next, content, left, b);
        ReadProgress(c, next, left, b);
        var rest := Read(c, next, left, b);
        if rest.bytes == [] {
          assert l.value[OffsetIn(s.position)..OffsetIn(s.position) + CopyLen(s, len, l.value)] + []
              == l.value[OffsetIn(s.position)..OffsetIn(s.position) + CopyLen(s, len, l.value)];
        } else {
          BytesJoin(content, s.position, l.value[OffsetIn(s.position)..OffsetIn(s.position) + CopyLen(s, len, l.value)], rest.bytes);
        }
        forall j
          ensures Spanned(|content|, s.position, len, j) && j != BlockOf(s.position) ==> Spanned(|content|, next.position, left, j)
          ensures Spanned(|content|, next.position, left, j) ==> Spanned(|content|, s.position, len, j)
        {
          LaterBlock(c, s, content, len, l.value, j);
        }
      }
    }
  }

  /** What is loaded is the block the backing holds, and it is served; nothing is loaded if it is not. */
  lemma LoadHeld(c: Context, s: ReaderState, content: Bytes, b: Backing)
    requires Shaped(c.tree) && c.entry.size == |content| && Faithful(b, content) && ResidentFaithful(s, content) && StateOk(c, s)
    requires s.position < |content|
    ensures BlockOf(s.position) < BlocksFor(|content|)
    ensures Load(c, s.current, b, BlockOf(s.position)) ==
              if Serves(c, content, BlockOf(s.position)) then Some(FileBlock(content, BlockOf(s.position))) else None
  {
    hide Verifies;
    var j := BlockOf(s.position);
    Available(|content|, s.position);
    var n := BlockLen(|content|, j);
    assert b(BlockStart(j), n) == Some(content[BlockStart(j)..BlockStart(j) + n]);
  }

  /** One turn over what the backing holds. */
  lemma HeldTurn(c: Context, s: ReaderState, content: Bytes, len: nat, b: Backing, block: Bytes)
    requires Shaped(c.tree) && c.entry.size == |content| && len > 0 && s.position < |content|
    requires BlockOf(s.position) < BlocksFor(|content|) && block == FileBlock(content, BlockOf(s.position))
    ensures ResidentFaithful(Advance(s, len, block), content)
    ensures OffsetIn(s.position) + CopyLen(s, len, block) <= |block|
    ensures BytesAt(content, s.position, block[OffsetIn(s.position)..OffsetIn(s.position) + CopyLen(s, len, block)])
  {
    hide OffsetIn, BlockOf, FileBlock, BytesAt, BlockLen;
    FileBlockLen(content, BlockOf(s.position));
    Available(|content|, s.position);
    BytesOfBlock(content, s.position, CopyLen(s, len, block));
  }

  /** Block j holds bytes that a read of `len` bytes at the position asks for. */
  predicate Spanned(size: nat, position: nat, len: nat, j: nat) {
    && position < size && len > 0
    && BlockOf(position) <= j < BlocksFor(size) && BlockStart(j) < position + Remaining(size, position, len)
  }

  lemma NothingSpanned(size: nat, position: nat, len: nat)
    ensures len == 0 || position >= size ==> forall j :: !Spanned(size, position, len, j)
  {
  }

  lemma FirstSpanned(size: nat, position: nat, len: nat)
    requires position < size && len > 0
    ensures Spanned(size, position, len, BlockOf(position))
  {
    Available(size, position);
    StartOfBlock(position);
  }

  /** The blocks a read spans are its first one and those the rest of it spans. */
  lemma LaterBlock(c: Context, s: ReaderState, content: Bytes, len: nat, block: Bytes, j: nat)
    requires Shaped(c.tree) && c.entry.size == |content| && len > 0 && s.position < |content|
    requires |block| == BlockLen(|content|, BlockOf(s.position))
    ensures var next, left := Advance(s, len, block), len - CopyLen(s, len, block);
      && left >= 0
      && (Spanned(|content|, s.position, len, j) && j != BlockOf(s.position) ==> Spanned(|content|, next.position, left, j))
      && (Spanned(|content|, next.position, left, j) ==> Spanned(|content|, s.position, len, j))
  {
  }

  /** A read that stays inside the resident block never asks the backing. */
  lemma ResidentAnswers(c: Context, s: ReaderState, d: Bytes, len: nat, b: Backing)
    requires Shaped(c.tree) && s.current == Some(Resident(BlockOf(s.position), d))
    requires 0 < len && OffsetIn(s.position) + len <= |d| && s.position + len <= c.entry.size
    ensures var r := Read(c, s, len, b);
      r.ok && r.bytes == d[OffsetIn(s.position)..OffsetIn(s.position) + len] && r.state == ReaderState(s.position + len, s.current)
  {
    hide Read, OffsetIn, BlockOf;
    ReadRound(c, s, len, b);
    ReadNothing(c, Advance(s, len, d), 0, b);
    assert d[OffsetIn(s.position)..OffsetIn(s.position) + len] + [] == d[OffsetIn(s.position)..OffsetIn(s.position) + len];
  }

  /** The reference: a cursor over the whole file, kept as one number. */
  function CursorAfter(c: Context, content: Bytes, at: nat, call: Call): nat {
    match call
    case SeekCall(pos) =>
      var t := Target(c, ReaderState(at, None), pos);
      if 0 <= t < 0x8000_0000_0000_0000 then t else at
    case ReadCall(len, _) => at + Remaining(|content|, at, len)
  }

  function CursorRun(c: Context, content: Bytes, calls: seq<Call>): nat
    decreases |calls|
  {
    if calls == [] then 0
    else CursorAfter(c, content, CursorRun(c, content, calls[..|calls| - 1]), calls[|calls| - 1])
  }

  ghost predicate Session(content: Bytes, calls: seq<Call>) {
    && |content| < 0x8000_0000_0000_0000
    && forall k :: 0 <= k < |calls| ==>
         CallFaithful(calls[k], content) && (calls[k].SeekCall? ==> SeekArgs(calls[k].pos))
  }

  /**
   Over faithful backings any session moves exactly like the cursor, and the next read returns
   the slice of the file at the cursor.
   */
  lemma {:induction false} SessionIsCursor(c: Context, content: Bytes, calls: seq<Call>)
    requires Shaped(c.tree) && Admits(c, content) && Session(content, calls)
    ensures var s := Run(c, Fresh, calls);
      && s.position == CursorRun(c, content, calls) < 0x8000_0000_0000_0000
      && ResidentFaithful(s, content)
      && forall len: nat, b: Backing :: Faithful(b, content) ==>
           var r := Read(c, s, len, b);
           r.ok && r.bytes == content[Min(s.position, |content|)..Min(s.position + len, |content|)]
    decreases |calls|
  {
    hide Admits, Faithful, Read, FileBlock, Seek;
    AcceptedSize(c, content);
    if calls != [] {
      var before, call := calls[..|calls| - 1], calls[|calls| - 1];
      SessionIsCursor(c, content, before);
      assert CallFaithful(call, content);
      SessionStep(c, content, Run(c, Fresh, before), call);
    }
    var s := Run(c, Fresh, calls);
    forall len: nat, b: Backing | Faithful(b, content)
      ensures var r := Read(c, s, len, b);
        r.ok && r.bytes == content[Min(s.position, |content|)..Min(s.position + len, |content|)]
    {
      ReadIsSlice(c, s, content, len, b);
    }
  }

  lemma SessionStep(c: Context, content: Bytes, s: ReaderState, call: Call)
    requires Shaped(c.tree) && Admits(c, content) && |content| < 0x8000_0000_0000_0000
    requires s.position < 0x8000_0000_0000_0000 && ResidentFaithful(s, content)
    requires CallFaithful(call, content) && (call.SeekCall? ==> SeekArgs(call.pos))
    ensures var t := After(c, s, call);
      && t.position == CursorAfter(c, content, s.position, call) < 0x8000_0000_0000_0000
      && ResidentFaithful(t, content)
  {
    hide Admits, Faithful, Read, FileBlock, Seek;
    AcceptedSize(c, content);
    match call
    case SeekCall(pos) => SeekLandsOnTarget(c, s, pos);
    case ReadCall(len, b) => ReadIsSlice(c, s, content, len, b);
  }
}
