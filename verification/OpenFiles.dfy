/**
 Open files of crates/rspacefs-fuse/src/fs.rs: the choice between passthrough and streaming, and
 the buffered handle of a writable open. Layer 0 is the upper, layers 1.. are the lowers.
 */
module OpenFiles {
  import opened Base
  import opened Paths
  import opened Layers
  import opened Overlay
  import opened UpperEffects
  import opened FlatView
  import opened LayerFSObject

  // ── Passthrough ───────────────────────────────────────────────────────────

  /** The first layer that holds the path. */
  function FirstHolder(lowers: seq<Layer>, p: Path): Option<nat> {
    if lowers == [] then None
    else if p in lowers[0] then Some(0)
    else match FirstHolder(lowers[1..], p)
      case None => None
      case Some(k) => Some(k + 1)
  }

  /** `physical_for_with_layer`: only the upper's whiteout of the path itself is looked at. */
  function Physical(s: Stack, p: Path): Option<nat> {
    if p.Child? && WhitedOut(s.upper, p) then None
    else FirstHolder([s.upper] + s.lowers, p)
  }

  /** The physical lookup selects the first holder, unless the upper has the path's whiteout. */
  lemma PhysicalIff(s: Stack, p: Path, k: nat)
    ensures Physical(s, p) == Some(k) <==>
              && !(p.Child? && WhPath(p) in s.upper)
              && k <= |s.lowers| && p in LayerAt(s, k)
              && forall j: nat :: j < k ==> p !in LayerAt(s, j)
  {
    var layers := [s.upper] + s.lowers;
    FirstHolderIff(layers, p, k);
    assert forall j: nat :: j <= |s.lowers| ==> layers[j] == LayerAt(s, j);
  }

  lemma {:induction false} FirstHolderIff(lowers: seq<Layer>, p: Path, k: nat)
    ensures FirstHolder(lowers, p) == Some(k) <==>
              k < |lowers| && p in lowers[k] && forall j: nat :: j < k ==> p !in lowers[j]
    decreases |lowers|
  {
    if lowers != [] {
      if k > 0 { FirstHolderIff(lowers[1..], p, k - 1); }
      assert forall j: nat :: 0 < j < |lowers| ==> lowers[j] == lowers[1..][j - 1];
      if k > 0 && k < |lowers| && p in lowers[k] && forall j: nat :: j < k ==> p !in lowers[j] {
        assert p !in lowers[0];
        assert forall j: nat :: j < k - 1 ==> lowers[1..][j] == lowers[j + 1];
      }
    }
  }

  method PhysicalForWithLayer(s: Stack, p: Path) returns (r: Option<nat>)
    ensures r == Physical(s, p)
  {
    if p.Child? && WhPath(p) in s.upper {
      return None;
    }
    var layers := [s.upper] + s.lowers;
    for i := 0 to |layers|
      invariant FirstHolder(layers, p) == (match FirstHolder(layers[i..], p) case None => None case Some(k) => Some(k + i))
    {
      assert layers[i..][0] == layers[i] && layers[i..][1..] == layers[i + 1..];
      if p in layers[i] {
        return Some(i);
      }
    }
    r := None;
  }

  /** A marker of a lower, met before or at the first holder, that `resolve` honours. */
  predicate Masked(lowers: seq<Layer>, p: Path) {
    lowers != [] &&
    (LowerWhitedOut(lowers[0], p) || (p !in lowers[0] && (OpaqueAbove(lowers[0], p) || Masked(lowers[1..], p))))
  }

  lemma {:induction false} LowersMasked(lowers: seq<Layer>, p: Path)
    ensures ResolveLowers(lowers, p) == if Masked(lowers, p) then None else FirstHolder(lowers, p)
    decreases |lowers|
  {
    if lowers != [] { LowersMasked(lowers[1..], p); }
  }

  /** Markers below the upper, or the upper's opaque markers, keep `resolve` from the holder. */
  predicate Hidden(s: Stack, p: Path) {
    p !in s.upper && (OpaqueAbove(s.upper, p) || Masked(s.lowers, p))
  }

  /**
   The physical lookup ignores exactly the opaque markers and the lowers' whiteouts: for every
   path but the root it is `resolve` with those left out.
   */
  lemma PhysicalAgainstResolve(s: Stack, p: Path)
    requires p.Child?
    ensures Resolve(s, p) == if Hidden(s, p) then None else Physical(s, p)
  {
    LowersMasked(s.lowers, p);
    assert ([s.upper] + s.lowers)[1..] == s.lowers;
  }

  /** Whenever `resolve` selects a layer, so does the physical lookup, and it is the same one. */
  lemma ResolvedIsPhysical(s: Stack, p: Path)
    requires Resolve(s, p).Some?
    ensures Physical(s, p) == Resolve(s, p)
  {
    assert ([s.upper] + s.lowers)[1..] == s.lowers;
    LowersMasked(s.lowers, p);
  }

  datatype Handle = Passthrough(backing: Backing) | Streaming | NotFound | IoError

  /** A backing file registered with the kernel: the layer and path it was opened from. */
  datatype Backing = Backing(layer: nat, path: Path)

  predicate IsVerified(verified: seq<bool>, k: nat) {
    k < |verified| && verified[k]
  }

  /** The backing a passthrough open hands out: the inode's live registration, else a new one. */
  function Chosen(backings: map<nat, Backing>, s: Stack, ino: nat, p: Path): Backing
    requires Physical(s, p).Some?
  {
    if ino in backings then backings[ino] else Backing(Physical(s, p).value, p)
  }

  /** What a backing serves, while its entry is still the one it was opened from. */
  function Served(s: Stack, b: Backing): Option<Node> {
    if b.layer <= |s.lowers| && b.path in LayerAt(s, b.layer) then Some(LayerAt(s, b.layer)[b.path]) else None
  }

  /** The backing is the entry that `resolve` selects for the path. */
  predicate IsResolved(s: Stack, p: Path, b: Backing) {
    Resolve(s, p) == Some(b.layer) && b.path == p
  }

  /**
   A passthrough handle is backed by what the path resolves to exactly when no marker the physical
   lookup ignores hides the path, and a registration already there is of that very layer and path.
   */
  lemma PassthroughResolvesIff(s: Stack, backings: map<nat, Backing>, ino: nat, p: Path)
    requires p.Child? && Physical(s, p).Some?
    ensures IsResolved(s, p, Chosen(backings, s, ino, p))
       <==> !Hidden(s, p) && (ino in backings ==> backings[ino] == Backing(Physical(s, p).value, p))
    ensures IsResolved(s, p, Chosen(backings, s, ino, p)) ==>
              View(s, p).Some? && Served(s, Chosen(backings, s, ino, p)) == View(s, p)
    ensures Hidden(s, p) ==> View(s, p) == None
  {
    hide Hidden, Physical, View;
    PhysicalAgainstResolve(s, p);
    ResolveIsView(s, p);
  }

  /** The live registrations by inode number; `opens` is whether a new registration succeeds. */
  class ReadOnlyOpens {
    const verified: seq<bool>
    var backings: map<nat, Backing>

    /** Nothing was ever registered out of a verity-protected layer. */
    ghost predicate Valid()
      reads this
    {
      forall i :: i in backings ==> !IsVerified(verified, backings[i].layer)
    }

    constructor (verified: seq<bool>)
      ensures Valid() && this.verified == verified && backings == map[]
    {
      this.verified := verified;
      backings := map[];
    }

    /**
     The read-only part of `open`. `dirsOpen` is whether the resolved layer's backing opens a
     directory as a file, as a local directory does; reads of the handle then fail.
     */
    method Open(s: Stack, ino: nat, p: Path, opens: bool, dirsOpen: bool) returns (h: Handle)
      requires Valid()
      modifies this`backings
      ensures Valid()
      ensures Resolve(s, p).Some? && IsVerified(verified, Resolve(s, p).value) ==> !h.Passthrough?
      ensures h.Passthrough? <==>
                var k := Physical(s, p);
                k.Some? && !IsVerified(verified, k.value) && (ino in old(backings) || opens)
      ensures h.Passthrough? ==>
                && !IsVerified(verified, h.backing.layer)
                && h.backing == Chosen(old(backings), s, ino, p)
      ensures backings == if h.Passthrough? then old(backings)[ino := h.backing] else old(backings)
      ensures !h.Passthrough? ==>
                h == match View(s, p)
                  case None => NotFound
                  case Some(Dir) => if dirsOpen then Streaming else IoError
                  case Some(File(_)) => Streaming
    {
      ResolveIsView(s, p);
      if Resolve(s, p).Some? {
        ResolvedIsPhysical(s, p);
      }
      var phys := PhysicalForWithLayer(s, p);
      if phys.Some? && !IsVerified(verified, phys.value) {
        if ino in backings {
          return Passthrough(backings[ino]);
        }
        if opens {
          var backing := Backing(phys.value, p);
          backings := backings[ino := backing];
          return Passthrough(backing);
        }
      }
      match View(s, p) {
        case None => h := NotFound;
        case Some(Dir) => h := if dirsOpen then Streaming else IoError;
        case Some(File(_)) => h := Streaming;
      }
    }

    /** The last handle of an inode closed: its registration is gone. */
    method Reclaim(ino: nat)
      requires Valid()
      modifies this`backings
      ensures Valid() && backings == old(backings) - {ino}
    {
      backings := backings - {ino};
    }
  }

  const StalePath := Child(Root, "f")

  const BeforeWrite := Stack(EmptyLayer, [map[Root := Dir, StalePath := File([1])]])

  lemma WriteBackOverLower()
    ensures View(BeforeWrite, StalePath) == Some(File([1])) && Physical(BeforeWrite, StalePath) == Some(1)
    ensures var t := CreateFile(BeforeWrite.upper, StalePath, [9]); var s := BeforeWrite.(upper := t.upper);
      t.status == Done && View(s, StalePath) == Some(File([9])) && Physical(s, StalePath) == Some(0) && s.lowers == BeforeWrite.lowers
  {
    assert !IsMarker("f");
    WhNameFacts("f", "f");
    EmptyLayerFacts(StalePath);
    NotItsOwnWhiteout(StalePath);
    assert ([EmptyLayer] + BeforeWrite.lowers)[1..] == BeforeWrite.lowers;
    assert StalePath in BeforeWrite.lowers[0];
    assert FirstHolder(BeforeWrite.lowers, StalePath) == Some(0);
    CreatedIsSeen(BeforeWrite, StalePath, [9]);
    assert Prepare(EmptyLayer, StalePath) == Step(EmptyLayer, Done);
  }

  /**
   A registration outlives a write: a file of the first lower is opened, `[9]` is written to its
   path, and an open of the same inode is still backed by the lower's file.
   */
  method StaleRegistration() returns (s: Stack, h: Handle)
    ensures View(s, StalePath) == Some(File([9]))
    ensures h == Passthrough(Backing(1, StalePath)) && Served(s, h.backing) == Some(File([1]))
  {
    WriteBackOverLower();
    var files := new ReadOnlyOpens([false, false]);
    var first := files.Open(BeforeWrite, 2, StalePath, true, true);
    s := BeforeWrite.(upper := CreateFile(BeforeWrite.upper, StalePath, [9]).upper);
    h := files.Open(s, 2, StalePath, true, true);
  }

  // ── Buffered handles ──────────────────────────────────────────────────────

  datatype Write = Write(offset: nat, data: Bytes)

  /** The buffer after one write: grown with zeros to reach the end, then overwritten. */
  function Overwrite(buf: Bytes, w: Write): Bytes {
    var end := w.offset + |w.data|;
    var grown := if end > |buf| then buf + Zeros(end - |buf|) else buf;
    grown[..w.offset] + w.data + grown[end..]
  }

  function OverwriteAll(buf: Bytes, ws: seq<Write>): Bytes
    decreases |ws|
  {
    if ws == [] then buf else Overwrite(OverwriteAll(buf, ws[..|ws| - 1]), ws[|ws| - 1])
  }

  /** The reference: the last write that covers byte i decides it, else the opening content, else zero. */
  function ByteAt(opening: Bytes, ws: seq<Write>, i: nat): byte
    decreases |ws|
  {
    if ws == [] then (if i < |opening| then opening[i] else 0)
    else
      var w := ws[|ws| - 1];
      if w.offset <= i < w.offset + |w.data| then w.data[i - w.offset] else ByteAt(opening, ws[..|ws| - 1], i)
  }

  /** The furthest end reached by the opening content or any write. */
  function Extent(opening: Bytes, ws: seq<Write>): nat
    decreases |ws|
  {
    if ws == [] then |opening|
    else
      var w, before := ws[|ws| - 1], Extent(opening, ws[..|ws| - 1]);
      if w.offset + |w.data| > before then w.offset + |w.data| else before
  }

  lemma OverwriteByte(buf: Bytes, w: Write)
    ensures |Overwrite(buf, w)| == if w.offset + |w.data| > |buf| then w.offset + |w.data| else |buf|
    ensures forall i: nat :: i < |Overwrite(buf, w)| ==>
              Overwrite(buf, w)[i] ==
                if w.offset <= i < w.offset + |w.data| then w.data[i - w.offset]
                else if i < |buf| then buf[i] else 0
  {
  }

  /** Past the extent nothing was written. */
  lemma {:induction false} BeyondExtent(opening: Bytes, ws: seq<Write>, i: nat)
    requires i >= Extent(opening, ws)
    ensures ByteAt(opening, ws, i) == 0
    decreases |ws|
  {
    if ws != [] { BeyondExtent(opening, ws[..|ws| - 1], i); }
  }

  /** The buffer is the opening content overlaid last-writer-wins, with zero-filled gaps. */
  lemma {:induction false} BufferIsOverlay(opening: Bytes, ws: seq<Write>)
    ensures |OverwriteAll(opening, ws)| == Extent(opening, ws)
    ensures forall i: nat :: i < Extent(opening, ws) ==> OverwriteAll(opening, ws)[i] == ByteAt(opening, ws, i)
    decreases |ws|
  {
    if ws != [] {
      var front, w := ws[..|ws| - 1], ws[|ws| - 1];
      BufferIsOverlay(opening, front);
      OverwriteByte(OverwriteAll(opening, front), w);
      forall i: nat | i < Extent(opening, ws)
        ensures OverwriteAll(opening, ws)[i] == ByteAt(opening, ws, i)
      {
        if i >= Extent(opening, front) { BeyondExtent(opening, front, i); }
      }
    }
  }

  /** The slice of a buffer that a read returns. */
  function Slice(buf: Bytes, offset: nat, size: nat): Bytes {
    if offset >= |buf| then [] else buf[offset..Min(offset + size, |buf|)]
  }

  /** How many of `size` bytes at `offset` lie below the end. */
  function Clip(end: nat, offset: nat, size: nat): nat {
    if offset >= end then 0 else Min(size, end - offset)
  }

  class BufferedFile {
    const path: Path
    var data: Bytes
    var dirty: bool
    /** The content the handle opened with and the writes it took since. */
    ghost const opening: Bytes
    ghost var writes: seq<Write>

    ghost predicate Valid()
      reads this
    {
      data == OverwriteAll(opening, writes)
    }

    /** The handle as a value. */
    ghost function Current(): HandleState
      reads this
    {
      HandleState(path, data, dirty)
    }

    constructor (path: Path, data: Bytes)
      ensures Valid() && this.path == path && opening == data && this.data == data
      ensures writes == [] && !dirty
    {
      this.path, this.data, this.dirty := path, data, false;
      opening, writes := data, [];
    }

    method Put(offset: nat, bytes: Bytes)
      requires Valid()
      modifies this
      ensures Valid() && dirty && writes == old(writes) + [Write(offset, bytes)]
      ensures forall s :: HandleStep(s, old(Current()), PutOp(Write(offset, bytes))) == (s, Current())
    {
      var end := offset + |bytes|;
      var buf := data;
      if end > |buf| {
        buf := buf + Zeros(end - |buf|);
      }
      data := buf[..offset] + bytes + buf[end..];
      dirty := true;
      writes := writes + [Write(offset, bytes)];
      assert writes[..|writes| - 1] == old(writes);
    }

    method Get(offset: nat, size: nat) returns (r: Bytes)
      requires Valid()
      ensures r == Slice(OverwriteAll(opening, writes), offset, size)
      ensures |r| == Clip(Extent(opening, writes), offset, size)
      ensures forall i: nat :: i < |r| ==> r[i] == ByteAt(opening, writes, offset + i)
    {
      BufferIsOverlay(opening, writes);
      if offset >= |data| {
        return [];
      }
      var end := Min(offset + size, |data|);
      r := data[offset..end];
    }

    /** `fsync`: a dirty buffer replaces the file through the merged filesystem. */
    method Fsync(fs: LayerFS) returns (status: Status)
      requires Valid()
      modifies this`dirty, fs`upper
      ensures Valid() && data == old(data)
      ensures Step(fs.upper, status) == if old(dirty) then CreateFile(old(fs.upper), path, data) else Step(old(fs.upper), Done)
      ensures dirty == (old(dirty) && status == Failed)
      ensures HandleStep(old(fs.Current()), old(Current()), FsyncOp) == (fs.Current(), Current())
    {
      if !dirty {
        return Done;
      }
      status := fs.Create(path, data);
      if status == Done {
        dirty := false;
      }
    }

    /** `release` writes back the same way; the handle is gone afterwards. */
    method Release(fs: LayerFS) returns (status: Status)
      requires Valid()
      modifies fs`upper
      ensures Step(fs.upper, status) == if dirty then CreateFile(old(fs.upper), path, data) else Step(old(fs.upper), Done)
    {
      status := Done;
      if dirty {
        status := fs.Create(path, data);
      }
    }
  }

  datatype WritableOpen = Opened(file: BufferedFile) | Missing | Unreadable

  /**
   The writable part of `open`: the buffer starts as the file's content unless it is to be
   truncated. A directory that the backing opens (`dirsOpen`) cannot be read; one it does not open
   gives an empty buffer.
   */
  method OpenWritable(fs: LayerFS, p: Path, trunc: bool, dirsOpen: bool) returns (h: WritableOpen)
    requires fs.CachesTrue()
    modifies fs`lowerWhiteouts, fs`lowerOpaque
    ensures fs.CachesTrue()
    ensures h == Missing <==> View(fs.Current(), p) == None
    ensures h == Unreadable <==> View(fs.Current(), p) == Some(Dir) && !trunc && dirsOpen
    ensures h.Opened? ==>
              && fresh(h.file) && h.file.Valid() && h.file.path == p && h.file.writes == [] && !h.file.dirty
              && h.file.data == match View(fs.Current(), p)
                   case Some(File(content)) => if trunc then [] else content
                   case _ => []
  {
    var node := fs.Lookup(p);
    if node == None {
      return Missing;
    }
    if !trunc && node.value == Dir && dirsOpen {
      return Unreadable;
    }
    var file := new BufferedFile(p, if !trunc && node.value.File? then node.value.data else []);
    h := Opened(file);
  }

  datatype CreatedOpen = Created(handle: BufferedFile) | Exists | CreateFailed

  /**
   `create`: refuses an existing path under O_EXCL, makes or truncates the file when asked to, and
   hands out an empty buffer in every case. The buffer is what the path shows exactly when the path
   was absent, was truncated, or was an empty file.
   */
  method CreateOpen(fs: LayerFS, p: Path, excl: bool, trunc: bool) returns (h: CreatedOpen)
    requires fs.CachesTrue()
    modifies fs
    ensures fs.CachesTrue()
    ensures h == Exists <==> View(old(fs.Current()), p).Some? && excl
    ensures var before, step := View(old(fs.Current()), p), CreateFile(old(fs.upper), p, []);
      var writes := before == None || (!excl && trunc);
      && fs.upper == (if writes then step.upper else old(fs.upper))
      && (h == CreateFailed <==> writes && step.status == Failed)
    ensures h.Created? ==>
              && fresh(h.handle) && h.handle.Valid() && h.handle.path == p && h.handle.data == [] && !h.handle.dirty
              && var before := View(old(fs.Current()), p);
                 View(old(fs.Current()).(upper := fs.upper), p) == Some(File(h.handle.data))
                 <==> before == None || trunc || before == Some(File([]))
  {
    var node := fs.Lookup(p);
    if node.Some? && excl {
      return Exists;
    }
    if node == None || trunc {
      CreatedIsSeen(fs.Current(), p, []);
      var status := fs.Create(p, []);
      if status == Failed {
        return CreateFailed;
      }
    }
    var file := new BufferedFile(p, []);
    h := Created(file);
  }

  /** A created file is seen at once, in any stack. */
  lemma CreatedIsSeen(s: Stack, p: Path, data: Bytes)
    ensures var t := CreateFile(s.upper, p, data);
      t.status == Done ==> View(s.(upper := t.upper), p) == Some(File(data))
  {
    NotItsOwnWhiteout(p);
  }

  /** Such an open exists: `create` without truncation over a file holding `[1]` gives an empty buffer. */
  method CreateOverKeptFile() returns (s: Stack, h: BufferedFile)
    ensures View(s, h.path) == Some(File([1])) && h.data == [] && !h.dirty
  {
    var p := Child(Root, "f");
    WhNameFacts("f", "f");
    NotItsOwnWhiteout(p);
    var fs := new LayerFS(map[Root := Dir, p := File([1])], []);
    assert View(fs.Current(), p) == Some(File([1]));
    var r := CreateOpen(fs, p, false, false);
    s := fs.Current();
    h := r.handle;
  }

  // ── What a whole session on a handle leaves behind ────────────────────────

  datatype HandleState = HandleState(path: Path, data: Bytes, dirty: bool)

  datatype HandleOp = PutOp(w: Write) | GetOp(offset: nat, size: nat) | FsyncOp

  function WriteBack(s: Stack, h: HandleState): Step {
    if h.dirty then CreateFile(s.upper, h.path, h.data) else Step(s.upper, Done)
  }

  function HandleStep(s: Stack, h: HandleState, op: HandleOp): (Stack, HandleState) {
    match op
    case PutOp(w) => (s, h.(data := Overwrite(h.data, w), dirty := true))
    case GetOp(_, _) => (s, h)
    case FsyncOp =>
      var t := WriteBack(s, h);
      (s.(upper := t.upper), h.(dirty := h.dirty && t.status == Failed))
  }

  function HandleRun(s: Stack, h: HandleState, ops: seq<HandleOp>): (Stack, HandleState)
    decreases |ops|
  {
    if ops == [] then (s, h)
    else
      var (s', h') := HandleRun(s, h, ops[..|ops| - 1]);
      HandleStep(s', h', ops[|ops| - 1])
  }

  function WritesOf(ops: seq<HandleOp>): seq<Write>
    decreases |ops|
  {
    if ops == [] then []
    else WritesOf(ops[..|ops| - 1]) + (match ops[|ops| - 1] case PutOp(w) => [w] case _ => [])
  }

  /** Writing back shows the buffer at the handle's path, and changes nothing else; or fails and changes nothing. */
  lemma WriteBackShows(s: Stack, h: HandleState)
    requires Inv(s) && Named(h.path) && VisibleParents(s, h.path)
    ensures var t := WriteBack(s, h); var s' := s.(upper := t.upper);
      && Inv(s') && SameViewBut(s, s', h.path) && VisibleParents(s', h.path)
      && (h.dirty && t.status == Done ==> View(s', h.path) == Some(File(h.data)))
      && (!h.dirty ==> s' == s)
  {
    if h.dirty {
      CreateFileWrites(s, h.path, h.data);
    }
    ParentsKept(s, s.(upper := WriteBack(s, h).upper), h.path);
  }

  /**
   After any session the buffer is the opening content under the session's writes; whenever the
   handle has been written and is clean, the merged view at its path is the buffer; other paths
   never change, and a handle never written changes nothing at all.
   */
  lemma {:induction false} SessionShows(s: Stack, path: Path, opening: Bytes, ops: seq<HandleOp>)
    requires Inv(s) && Named(path) && VisibleParents(s, path)
    ensures var (t, h) := HandleRun(s, HandleState(path, opening, false), ops);
      && Inv(t) && VisibleParents(t, path) && SameViewBut(s, t, path)
      && h.path == path && h.data == OverwriteAll(opening, WritesOf(ops))
      && (WritesOf(ops) != [] && !h.dirty ==> View(t, path) == Some(File(h.data)))
      && (WritesOf(ops) == [] ==> t == s && !h.dirty)
    decreases |ops|
  {
    if ops != [] {
      var front, op := ops[..|ops| - 1], ops[|ops| - 1];
      SessionShows(s, path, opening, front);
      var (t, h) := HandleRun(s, HandleState(path, opening, false), front);
      match op
      case PutOp(w) =>
        assert (WritesOf(front) + [w])[..|WritesOf(front)|] == WritesOf(front);
      case GetOp(_, _) =>
        assert WritesOf(ops) == WritesOf(front);
      case FsyncOp =>
        assert WritesOf(ops) == WritesOf(front);
        WriteBackShows(t, h);
    }
  }

  /** The upper has no directory where the handle's file or its whiteout would be. */
  predicate NoDirThere(u: Layer, path: Path) {
    !IsDir(u, path) && !IsDir(u, WhPath(path))
  }

  /** Where the upper has no directory in the way an fsync always succeeds: the handle is clean and its writes are seen. */
  lemma {:induction false} FsyncSucceeds(s: Stack, path: Path, opening: Bytes, ops: seq<HandleOp>)
    requires Inv(s) && Named(path) && VisibleParents(s, path) && NoDirThere(s.upper, path)
    ensures var (t, h) := HandleRun(s, HandleState(path, opening, false), ops);
      && NoDirThere(t.upper, path)
      && (ops != [] && ops[|ops| - 1] == FsyncOp ==>
            !h.dirty && (WritesOf(ops) != [] ==> View(t, path) == Some(File(OverwriteAll(opening, WritesOf(ops))))))
    decreases |ops|
  {
    hide Inv, View;
    SessionShows(s, path, opening, ops);
    if ops != [] {
      var front := ops[..|ops| - 1];
      FsyncSucceeds(s, path, opening, front);
      SessionShows(s, path, opening, front);
      var (t, h) := HandleRun(s, HandleState(path, opening, false), front);
      CreateFileWrites(t, path, h.data);
      RoomStays(t, path, h.data);
    }
  }

  lemma RoomStays(s: Stack, path: Path, data: Bytes)
    requires Inv(s) && path.Child? && NoDirThere(s.upper, path)
    ensures NoDirThere(CreateFile(s.upper, path, data).upper, path)
  {
    CreateFileIs(s.upper, path, data);
    NotItsOwnWhiteout(path);
  }

  /** Releasing after any session publishes every write, or reports the failure. */
  lemma ReleasePublishes(s: Stack, path: Path, opening: Bytes, ops: seq<HandleOp>)
    requires Inv(s) && Named(path) && VisibleParents(s, path)
    ensures NoDirThere(s.upper, path) ==>
              var (t, h) := HandleRun(s, HandleState(path, opening, false), ops); WriteBack(t, h).status == Done
    ensures var (t, h) := HandleRun(s, HandleState(path, opening, false), ops);
      var r := WriteBack(t, h); var t' := t.(upper := r.upper);
      && Inv(t') && SameViewBut(s, t', path)
      && (r.status == Done && WritesOf(ops) != [] ==> View(t', path) == Some(File(OverwriteAll(opening, WritesOf(ops)))))
      && (WritesOf(ops) == [] ==> t' == s)
  {
    SessionShows(s, path, opening, ops);
    var (t, h) := HandleRun(s, HandleState(path, opening, false), ops);
    WriteBackShows(t, h);
    if NoDirThere(s.upper, path) {
      FsyncSucceeds(s, path, opening, ops);
      CreateFileWrites(t, path, h.data);
    }
  }
}
