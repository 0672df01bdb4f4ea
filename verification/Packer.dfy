/** writeDNAR (internal/cmd/dnar-pack/dnar.go): from the database rows of the new store paths
    to NARs of descriptors, the payload stream and the path trailer. */
module Packer {
  import opened Prelude
  import opened Tree
  import opened DirectorySkip
  import opened Chunking
  import opened DeltaHash
  import opened Delta
  import opened DeltaIndex
  import opened Database
  import opened LocalIndex
  import opened DeltaWorkers
  import opened Dnar
  import opened Emission
  import opened Tables
  import opened Descriptors
  import opened SameTree

  // ---------------------------------------------------------------------------
  // Whole-entry matches
  // ---------------------------------------------------------------------------

  // The lookup by hash asks for no type and a directory digest leaves things out, so this is
  // what it takes for a match to be right: a file matches files only, unless nothing is to be
  // read; a directory matches the same tree, whatever the sizes of its directories.
  ghost predicate MatchRight(w: World, e: Entry, g: FileRow) {
    match e.node
    case Regular(content, _) => WholeRight(g, content)
    case Directory(_, _) => InputPath(w, g) in w.sender && Bare(w.sender[InputPath(w, g)]) == Bare(e.node)
    case Symlink(_) => true
  }

  predicate WholeRight(g: FileRow, content: Bytes) {
    g.kind == RegularKind || (g.size == 0 && content == [])
  }

  predicate SameHash(w: World, e: Entry, g: FileRow) {
    w.IsLocal(g) && !e.node.Symlink? && g.hash == Some(NodeDigest(w.hash, RelPath(e.path), e.node))
  }

  // Any match that SQL may return for the entry is right.
  ghost predicate MatchesRight(w: World, e: Entry) {
    forall g :: g in w.db.files && SameHash(w, e, g) ==> MatchRight(w, e, g)
  }

  // So it is for every entry of a store path that the packer looks up.
  ghost predicate RightMatches(w: World, storePath: Str)
    requires w.Lists(storePath)
  {
    forall k :: 0 <= k < |Listing(w.sender[storePath])| ==> RightIfKept(w, Listing(w.sender[storePath]), k)
  }

  ghost predicate RightIfKept(w: World, l: seq<Entry>, k: nat)
    requires k < |l|
  {
    !Skips(RecursiveDir(l, KnownDirs(w, l), k), l[k].path) ==> MatchesRight(w, l[k])
  }

  // The target has something with the entry's hash.
  ghost predicate HasMatch(w: World, e: Entry) {
    !e.node.Symlink? && w.Known(NodeDigest(w.hash, RelPath(e.path), e.node))
  }

  // The paths of the directories whose hash the target knows.
  ghost function KnownDirs(w: World, l: seq<Entry>): set<Str> {
    set k | 0 <= k < |l| && KnownDir(w, l[k]) :: l[k].path
  }

  ghost predicate KnownDir(w: World, e: Entry) {
    e.node.Directory? && w.Known(NodeDigest(w.hash, RelPath(e.path), e.node))
  }

  lemma MatchedIffKnown(w: World, l: seq<Entry>, k: nat)
    requires Blocks(l) && k < |l|
    ensures Matched(l[k], KnownDirs(w, l)) <==> KnownDir(w, l[k])
  {
    if Matched(l[k], KnownDirs(w, l)) {
      var j :| 0 <= j < |l| && KnownDir(w, l[j]) && l[j].path == l[k].path;
      assert j <= k <= j;
    }
  }

  // ---------------------------------------------------------------------------
  // One file
  // ---------------------------------------------------------------------------

  // How much a row may add to any table.
  ghost function Cost(w: World, f: FileRow): nat {
    1 + 2 * |ChunksOf(w.db.chunks, f.id)|
  }

  // How many payload bytes a file may cost: nothing if it matches as a whole, else the sizes
  // of the chunks the target lacks.
  ghost function FileBudget(w: World, f: FileRow): nat {
    if f.kind != RegularKind || f.hash.None? || w.Known(f.hash.value) then 0
    else UnmatchedSize(w, ChunksOf(w.db.chunks, f.id))
  }

  lemma WholeMatch(w: World, target: map<Str, Node>, f: FileRow, content: Bytes, g: FileRow)
    requires Sound(w, target) && w.HasContent(f, content) && f.hash == Some(w.hash(content))
    requires g in w.db.files && w.IsLocal(g) && g.hash == f.hash && g.kind == RegularKind
    ensures g.size == |content| <= MAX_ALLOC
    ensures ReadRange(target, InputPath(w, g), g.size, 0) == Ok(content)
  {
    hide World.Indexed, InputPath, ReadRange;
    var other := RegularRow(w, g);
    assert other == content;
    LocalRead(w, target, g, content, |content|, 0);
    assert content[0..|content|] == content;
  }

  /** The lookup by hash alone is not enough: the descriptor of a whole-file match gives back
      the file if and only if what matched is a file, or an empty file met a directory whose
      recorded size is zero. */
  lemma WholeMatchIff(w: World, target: map<Str, Node>, f: FileRow, content: Bytes, g: FileRow, t: Target,
                      index: uint64)
    requires Sound(w, target) && w.HasContent(f, content) && f.hash == Some(w.hash(content))
    requires g in w.db.files && w.IsLocal(g) && g.hash == f.hash
    requires t.store == target && index < |t.inputs| && t.inputs[index] == InputPath(w, g)
    ensures g.size < TWO_63
    ensures Decode(FdChunk(index, g.size, 0, w.hash(content)), t) == Ok(content) <==> WholeRight(g, content)
  {
    hide Sound, World.HasContent, World.IsLocal, InputPath, ReadRange;
    MatchSize(w, target, g);
    if g.kind == RegularKind {
      WholeMatch(w, target, f, content, g);
    } else {
      DirectoryRead(w, target, g);
    }
  }

  // What is no file can be read only if nothing is asked for.
  lemma DirectoryRead(w: World, target: map<Str, Node>, g: FileRow)
    requires Sound(w, target) && g in w.db.files && w.IsLocal(g)
    requires g.hash.Some? && g.kind != RegularKind && g.size < TWO_63
    ensures ReadRange(target, InputPath(w, g), g.size, 0) ==
      if g.size == 0 then Ok([]) else if g.size > MAX_ALLOC then Panic else Err
  {
    hide World.CollisionFree;
    assert HeldBy(w, target, g) && w.SoundRow(g);
  }

  // What matches by hash is a file or a directory, and its size is an int64.
  lemma MatchSize(w: World, target: map<Str, Node>, g: FileRow)
    requires Sound(w, target) && g in w.db.files && g.hash.Some?
    ensures g.size < TWO_63
  {
    hide World.CollisionFree;
    assert w.SoundRow(g);
  }

  lemma DecodeAllOne(d: ChunkDescriptor, t: Target)
    ensures DecodeAll([d], t) == Decode(d, t)
  {
    hide Decode;
    assert [d][..0] == [] && DecodeAll([], t) == Ok([]);
    if Decode(d, t).Ok? {
      assert [] + Decode(d, t).value == Decode(d, t).value;
    }
  }

  method PackWhole(tb: Tables, f: FileRow, g: FileRow, ghost content: Bytes) returns (ds: seq<ChunkDescriptor>)
    requires tb.Valid() && tb.load < MAX_ALLOC
    requires tb.w.HasContent(f, content) && f.hash == Some(tb.w.hash(content))
    requires g in tb.w.db.files && tb.w.IsLocal(g) && g.hash == f.hash
    modifies tb
    ensures tb.Valid() && tb.Grew() && tb.load == old(tb.load) + 1 && tb.chunkDeps == old(tb.chunkDeps)
    ensures DecodeAll(ds, tb.AsTarget()) == Ok(content) <==> WholeRight(g, content)
    ensures |ds| == 1 && ds[0].FdChunk? && ds[0].index < |tb.inputStoreFiles| && tb.inputStoreFiles[ds[0].index] == g
    ensures g.size < TWO_63 && ds[0] == FdChunk(ds[0].index, g.size, 0, f.hash.value)
  {
    hide Sound, World.HasContent, World.IsLocal, ReadRange, Decode, Tables.AsTarget, Tables.ValidFiles,
      Tables.ValidChunks, Tables.ValidPathIDs, WholeRight;
    MatchSize(tb.w, tb.target, g);
    var index := tb.AddInputStoreFile(g);
    tb.TargetAt();
    WholeMatchIff(tb.w, tb.target, f, content, g, tb.AsTarget(), index);
    ds := [FdChunk(index, g.size, 0, g.hash.value)];
    DecodeAllOne(ds[0], tb.AsTarget());
  }

  // The deltas of a file's missing chunks, if a reference was found.
  method PackDeltas(w: World, chunks: seq<MatchedChunk>, content: Bytes, ref: Option<FileRow>, ix: Index?)
    returns (results: seq<Option<Bytes>>, ghost base: Bytes, ghost table: Table)
    requires |content| <= MAX_ALLOC && forall k :: 0 <= k < |chunks| ==> chunks[k].offset + chunks[k].size <= |content|
    requires ix != null <==> ref.Some?
    requires ref.Some? ==> ix.Valid() && w.HasContent(ref.value, ix.base) && |ix.base| <= MAX_ALLOC
    ensures |results| == |chunks| && DeltasFor(w, content, chunks, results, base, table)
    ensures ref.None? ==> forall k :: 0 <= k < |results| ==> results[k] == None
    ensures ref.Some? ==>
      && base == ix.base && table == ix.AsTable() && Jobs(w.codec, base, table, chunks, content).Valid()
      && (forall k :: 0 <= k < |results| ==> SlotIs(Jobs(w.codec, base, table, chunks, content), results[k], k))
      && forall k :: 0 <= k < |results| ==> results[k] == Jobs(w.codec, base, table, chunks, content).Result(k)
    ensures (exists k :: 0 <= k < |results| && results[k].Some?) ==> ref.Some? && w.HasContent(ref.value, base)
  {
    hide DiffOps, World.HasContent, Pow2;
    if ix == null {
      results := seq(|chunks|, i => None);
      base, table := [], Table([0], HASH_BITS);
      assert table.Valid() by {
        TrivialTable();
      }
    } else {
      base, table := ix.base, ix.AsTable();
      var jobs := Jobs(w.codec, ix.base, Table(ix.head[..], ix.shift), chunks, content);
      results := ComputeDeltas(jobs, ix);
      assert forall k :: 0 <= k < |results| ==> SlotIs(jobs, results[k], k);
      forall k | 0 <= k < |chunks| && results[k].Some?
        ensures DeltaFor(w, content, chunks[k], results[k].value, base, table)
      {
        assert results[k] == jobs.Result(k);
      }
    }
  }

  lemma TrivialTable()
    ensures Table([0], HASH_BITS).Valid()
  {
    assert Pow2(0) == 1;
  }

  lemma ChunksInFile(w: World, f: FileRow, content: Bytes, rows: seq<ChunkRow>, chunks: seq<MatchedChunk>)
    requires FileChunks(w, f, content, rows, chunks)
    ensures |rows| == |chunks|
    ensures forall k :: 0 <= k < |chunks| ==> chunks[k].offset + chunks[k].size <= |content|
    ensures forall k :: 0 <= k < |rows| ==> RowFor(w, chunks[k], rows[k])
  {
    hide World.HasContent, World.TilesRows, RowFor, ChunksOf;
    forall k | 0 <= k < |chunks|
      ensures chunks[k].offset + chunks[k].size <= |content|
    {
      ChunkStands(w, f, content, rows, chunks, k);
    }
  }

  lemma BaseSize(w: World, g: FileRow, base: Bytes)
    requires w.Indexed() && w.HasContent(g, base)
    ensures |base| <= MAX_ALLOC
  {
    var content := RegularRow(w, g);
  }

  // results are what the workers find against the reference, whatever their schedule.
  ghost predicate WorkedOut(w: World, content: Bytes, chunks: seq<MatchedChunk>, ref: Option<FileRow>,
                            results: seq<Option<Bytes>>)
  {
    && |results| == |chunks|
    && (ref.None? ==> forall k :: 0 <= k < |results| ==> results[k] == None)
    && (ref.Some? ==> exists base, table :: Against(w, content, chunks, ref.value, results, base, table))
  }

  ghost predicate Against(w: World, content: Bytes, chunks: seq<MatchedChunk>, ref: FileRow,
                          results: seq<Option<Bytes>>,
                          base: Bytes, table: Table)
  {
    var j := Jobs(w.codec, base, table, chunks, content);
    && w.HasContent(ref, base) && Built(base, table) && j.Valid()
    && |results| == |chunks| && forall k :: 0 <= k < |chunks| ==> SlotIs(j, results[k], k)
  }

  // A file the target does not have as a whole, chunk by chunk: whatever was matched and
  // whichever reference was chosen, those choices alone determine descriptors and tables.
  method PackChunkwise(tb: Tables, li: LocalIndex, cache: RefIndexCache, f: FileRow, content: Bytes)
    returns (ds: seq<ChunkDescriptor>, ghost chunks: seq<MatchedChunk>, ghost ref: Option<FileRow>,
             ghost results: seq<Option<Bytes>>)
    requires tb.Valid() && li.Valid() && li.w == tb.w && cache.Valid(tb.w) && tb.load + Cost(tb.w, f) <= MAX_ALLOC
    requires tb.w.HasContent(f, content) && f.size == |content| <= MAX_ALLOC
    requires tb.w.TilesRows(ChunksOf(tb.w.db.chunks, f.id), content)
    modifies tb, li, cache
    ensures tb.Valid() && li.Valid() && cache.Valid(tb.w) && tb.Grew() && tb.load <= old(tb.load) + Cost(tb.w, f)
    ensures DecodeAll(ds, tb.AsTarget()) == Ok(content)
    ensures FileChunks(tb.w, f, content, ChunksOf(tb.w.db.chunks, f.id), chunks)
    ensures WorkedOut(tb.w, content, chunks, ref, results)
    ensures |ds| == |chunks| == |results| == |ChunksOf(tb.w.db.chunks, f.id)|
    ensures forall k :: 0 <= k < |ds| ==> RightRoute(ds[k], chunks[k], results[k], ref)
    ensures Emission(tb.Now(), ds) == Emit(tb.w.db.files, f.id, chunks, results, ref, old(tb.Now()), |chunks|)
    ensures PayloadTotal(tb.w, tb.chunkDeps) <=
      PayloadTotal(tb.w, old(tb.chunkDeps)) + UnmatchedSize(tb.w, ChunksOf(tb.w.db.chunks, f.id))
  {
    hide World.HasContent, World.TilesRows, RowFor, Tables.AsTarget, PayloadTotal, UnmatchedSize, ChunksOf,
      World.Indexed, World.CollisionFree, Tables.ValidFiles, Tables.ValidChunks, Tables.ValidPathIDs,
      RefIndexCache.Valid, LocalIndex.Valid, Voted, Voters, DeltasFor, World.IsLocal, Emit, Jobs.Result, Jobs.Valid,
      SlotIs,
      Built;
    ghost var rows := ChunksOf(tb.w.db.chunks, f.id);
    var matches := li.FileChunks(f.id);
    chunks := matches;
    assert FileChunks(tb.w, f, content, rows, matches);
    ChunksInFile(tb.w, f, content, rows, matches);
    var g, ix := Reference(li, cache, tb.w, f, matches, rows);
    ref := g;
    if g.Some? {
      BaseSize(tb.w, g.value, ix.base);
    }
    var deltas, base, table := PackDeltas(tb.w, matches, content, g, ix);
    results := deltas;
    assert g.Some? ==> forall k :: 0 <= k < |matches| ==>
      SlotIs(Jobs(tb.w.codec, base, table, matches, content), deltas[k], k);
    assert g.Some? ==> Against(tb.w, content, matches, g.value, deltas, base, table);
    ds := DescribeChunks(tb, li, f, matches, deltas, g, content, rows, base, table);
    EmitLength(tb.w.db.files, f.id, matches, deltas, g, old(tb.Now()), |matches|);
  }

  // A match by hash is used for the whole file, right or not; without one the file goes chunk
  // by chunk. found is the match.
  method PackRegular(tb: Tables, li: LocalIndex, cache: RefIndexCache, f: FileRow, ghost e: Entry)
    returns (ds: seq<ChunkDescriptor>, ghost found: Option<FileRow>)
    requires tb.Valid() && li.Valid() && li.w == tb.w && cache.Valid(tb.w) && tb.load + Cost(tb.w, f) <= MAX_ALLOC
    requires f in tb.w.db.files && tb.w.Describes(f, e) && e.node.Regular?
    modifies tb, li, cache
    ensures tb.Valid() && li.Valid() && cache.Valid(tb.w) && tb.Grew() && tb.load <= old(tb.load) + Cost(tb.w, f)
    ensures found.Some? <==> tb.w.Known(f.hash.value)
    ensures found.Some? ==> found.value in tb.w.db.files && SameHash(tb.w, e, found.value)
    ensures DecodeAll(ds, tb.AsTarget()) == Ok(e.node.content) <==> found.None? || MatchRight(tb.w, e, found.value)
    ensures AllInRange(ds, tb.AsTarget())
    ensures found.Some? ==> |ds| == 1 && ds[0].FdChunk? && tb.chunkDeps == old(tb.chunkDeps)
    ensures found.Some? ==>
      && ds[0].index < |tb.AsTarget().inputs|
      && tb.AsTarget().inputs[ds[0].index] == InputPath(tb.w, found.value)
    ensures found.None? ==> |ds| == |ChunksOf(tb.w.db.chunks, f.id)|
    ensures PayloadTotal(tb.w, tb.chunkDeps) <= PayloadTotal(tb.w, old(tb.chunkDeps)) + FileBudget(tb.w, f)
  {
    hide Tables.Valid, Tables.AsTarget, PayloadTotal, UnmatchedSize, ChunksOf, RefIndexCache.Valid, LocalIndex.Valid,
      DecodeAll, WholeRight;
    var content := tb.w.sender[tb.w.RowPath(f)].content;
    assert tb.w.HasContent(f, content);
    var existingFile := li.FileByHash(f.hash.value);
    found := existingFile;
    if existingFile.Some? {
      ds := PackWhole(tb, f, existingFile.value, content);
      tb.TargetAt();
    } else {
      ghost var chunks, ref, results;
      ds, chunks, ref, results := PackChunkwise(tb, li, cache, f, content);
      AllDecodedInRange(ds, tb.AsTarget());
    }
  }

  // ---------------------------------------------------------------------------
  // One entry
  // ---------------------------------------------------------------------------

  // What the unpacker should write for a kept entry.
  ghost function Written(w: World, e: Entry): seq<Item> {
    if KnownDir(w, e) then Items(List(e.path, e.node)) else Items([e])
  }

  lemma ItemsOne(e: Entry)
    ensures Items([e]) == [ItemOf(e)]
  {
    ItemsSnoc([], e);
    assert [] + [e] == [e] && [] + [ItemOf(e)] == [ItemOf(e)];
  }

  // A matched directory, walked on the target.
  lemma WalkedDir(w: World, target: map<Str, Node>, f: FileRow, e: Entry, g: FileRow, t: Target, index: nat)
    requires Sound(w, target) && f in w.db.files && w.Describes(f, e) && e.node.Directory?
    requires g in w.db.files && w.IsLocal(g)
    requires t.store == target && index < |t.inputs| && t.inputs[index] == InputPath(w, g)
    ensures UnpackFile(NarFile(e.path, DirectoryFile(index)), t) == Ok(Items(List(e.path, e.node))) <==>
      MatchRight(w, e, g)
  {
    hide World.CollisionFree, Items, List, UnpackFile;
    assert HeldBy(w, target, g) && w.SoundRow(g) && w.SoundRow(f);
    hide World.SoundRow, World.Describes, World.Indexed;
    var local := target[InputPath(w, g)];
    BareValid(local);
    BareValid(w.sender[InputPath(w, g)]);
    DirectoryMatchIff(e.path, e.node, index, t);
  }

  // The file has the entry's path and names a directory to copy only for a known one.
  ghost predicate ForEntry(w: World, file: NarFile, e: Entry) {
    && file.path == e.path && !file.fileType.NoFileType?
    && (file.fileType.DirectoryFile? && file.fileType.from > -1 ==> KnownDir(w, e))
  }

  // found is the match by hash, if the entry is not a symlink and there is one.
  method PackEntry(tb: Tables, li: LocalIndex, cache: RefIndexCache, f: FileRow, ghost e: Entry)
    returns (file: NarFile, fullMatch: bool, ghost found: Option<FileRow>)
    requires tb.Valid() && li.Valid() && li.w == tb.w && cache.Valid(tb.w) && tb.load + Cost(tb.w, f) <= MAX_ALLOC
    requires f in tb.w.db.files && tb.w.Describes(f, e)
    modifies tb, li, cache
    ensures tb.Valid() && li.Valid() && cache.Valid(tb.w) && tb.Grew() && tb.load <= old(tb.load) + Cost(tb.w, f)
    ensures found.Some? <==> HasMatch(tb.w, e)
    ensures found.Some? ==>
      && found.value in tb.w.db.files && SameHash(tb.w, e, found.value)
      && Names(tb.w, file, found.value, tb.AsTarget())
    ensures UnpackFile(file, tb.AsTarget()) == Ok(Written(tb.w, e)) <==> found.None? || MatchRight(tb.w, e, found.value)
    ensures fullMatch <==> KnownDir(tb.w, e)
    ensures FileInRange(file, tb.AsTarget()) && ForEntry(tb.w, file, e)
    ensures PayloadTotal(tb.w, tb.chunkDeps) <= PayloadTotal(tb.w, old(tb.chunkDeps)) + FileBudget(tb.w, f)
  {
    hide Tables.ValidFiles, Tables.ValidChunks, Tables.ValidPathIDs, Sound, Tables.AsTarget, PayloadTotal,
      UnmatchedSize, ChunksOf, RefIndexCache.Valid, LocalIndex.Valid, DecodeAll, World.Known, World.TilesRows, List,
      Items, MatchRight, AllInRange;
    ItemsOne(e);
    fullMatch, found := false, None;
    match f.kind {
      case RegularKind =>
        var chunks;
        chunks, found := PackRegular(tb, li, cache, f, e);
        file := NarFile(f.path, RegularFile(f.size, chunks, f.executable));
      case DirectoryKind =>
        var from: int := -1;
        var existingDir := li.FileByHash(f.hash.value);
        found := existingDir;
        if existingDir.Some? {
          fullMatch := true;
          var index := tb.AddInputStoreFile(existingDir.value);
          from := index;
          tb.TargetAt();
          WalkedDir(tb.w, tb.target, f, e, existingDir.value, tb.AsTarget(), index);
        }
        file := NarFile(f.path, DirectoryFile(from));
      case SymlinkKind =>
        file := NarFile(f.path, SymlinkFile(f.linkTarget));
    }
  }

  // ---------------------------------------------------------------------------
  // One store path
  // ---------------------------------------------------------------------------

  ghost function RowsCost(w: World, rows: seq<FileRow>): nat {
    if rows == [] then 0 else RowsCost(w, rows[..|rows| - 1]) + Cost(w, rows[|rows| - 1])
  }

  lemma {:induction false} RowsCostMonotone(w: World, rows: seq<FileRow>, k: nat)
    requires k <= |rows|
    ensures RowsCost(w, rows[..k]) <= RowsCost(w, rows)
  {
    if k == |rows| {
      assert rows[..k] == rows;
    } else {
      var init := rows[..|rows| - 1];
      RowsCostMonotone(w, init, k);
      assert init[..k] == rows[..k];
    }
  }

  // The payload bytes that the kept files among the first i rows may cost.
  ghost function RowsBudget(w: World, rows: seq<FileRow>, l: seq<Entry>, matched: set<Str>, i: nat): nat
    requires i <= |l| && i <= |rows|
  {
    if i == 0 then 0 else
      RowsBudget(w, rows, l, matched, i - 1) +
      (if Skips(RecursiveDir(l, matched, i - 1), l[i - 1].path) then 0 else FileBudget(w, rows[i - 1]))
  }

  // What a row of a store path may cost: nothing if it is skipped, is no file, or has its hash
  // on the target, and otherwise the sizes of its missing chunks.
  ghost function RowCost(w: World, rows: seq<FileRow>, l: seq<Entry>, k: nat): nat
    requires k < |l| && k < |rows|
  {
    if Skips(RecursiveDir(l, KnownDirs(w, l), k), l[k].path) || rows[k].kind != RegularKind || rows[k].hash.None?
      || w.Known(rows[k].hash.value)
    then 0
    else Sum(ChunkCosts(w, ChunksOf(w.db.chunks, rows[k].id)))
  }

  ghost function RowCosts(w: World, rows: seq<FileRow>, l: seq<Entry>, i: nat): seq<nat>
    requires i <= |l| && i <= |rows|
  {
    seq(i, k requires 0 <= k < i => RowCost(w, rows, l, k))
  }

  /** The bound on a store path's payload is the sum of these. */
  lemma {:induction false} RowsBudgetIs(w: World, rows: seq<FileRow>, l: seq<Entry>, i: nat)
    requires i <= |l| && i <= |rows|
    ensures RowsBudget(w, rows, l, KnownDirs(w, l), i) == Sum(RowCosts(w, rows, l, i))
  {
    hide KnownDirs, RowCost, RowCosts, RowsBudget, Sum;
    if i == 0 {
      NoRowCosts(w, rows, l);
    } else {
      RowsBudgetIs(w, rows, l, i - 1);
      LastRowCost(w, rows, l, i);
      SumSnoc(RowCosts(w, rows, l, i - 1), RowCost(w, rows, l, i - 1));
    }
  }

  lemma NoRowCosts(w: World, rows: seq<FileRow>, l: seq<Entry>)
    ensures RowsBudget(w, rows, l, KnownDirs(w, l), 0) == 0 && Sum(RowCosts(w, rows, l, 0)) == 0
  {
  }

  lemma LastRowCost(w: World, rows: seq<FileRow>, l: seq<Entry>, i: nat)
    requires 0 < i <= |l| && i <= |rows|
    ensures RowCosts(w, rows, l, i) == RowCosts(w, rows, l, i - 1) + [RowCost(w, rows, l, i - 1)]
    ensures RowsBudget(w, rows, l, KnownDirs(w, l), i) ==
      RowsBudget(w, rows, l, KnownDirs(w, l), i - 1) + RowCost(w, rows, l, i - 1)
  {
    hide KnownDirs, RecursiveDir, Skips, World.Known, ChunksOf, ChunkCosts, UnmatchedSize, Sum;
    UnmatchedIs(w, ChunksOf(w.db.chunks, rows[i - 1].id));
  }

  // The entries the unpacker is to write for a store path.
  ghost function Unfolded(w: World, l: seq<Entry>, i: nat): seq<Entry>
    requires i <= |l|
  {
    UnfoldAll(Kept(l, KnownDirs(w, l), i), KnownDirs(w, l))
  }

  lemma UnfoldedKeeps(w: World, l: seq<Entry>, i: nat)
    requires i < |l| && Blocks(l) && !Skips(RecursiveDir(l, KnownDirs(w, l), i), l[i].path)
    ensures Items(Unfolded(w, l, i + 1)) == Items(Unfolded(w, l, i)) + Written(w, l[i])
  {
    hide Items, List, RecursiveDir, Blocks;
    var m := KnownDirs(w, l);
    var kept, e := Kept(l, m, i), l[i];
    assert (kept + [e])[..|kept|] == kept;
    MatchedIffKnown(w, l, i);
    ItemsConcat(UnfoldAll(kept, m), Unfold(e, m));
  }

  ghost function PathCost(w: World, storePath: Str): nat {
    RowsCost(w, FilesOf(w.db.storePaths, w.db.files, storePath))
  }

  ghost function PathBudget(w: World, storePath: Str): nat
    requires w.Lists(storePath)
  {
    var l := Listing(w.sender[storePath]);
    RowsBudget(w, FilesOf(w.db.storePaths, w.db.files, storePath), l, KnownDirs(w, l), |l|)
  }

  ghost function PathItems(w: World, storePath: Str): seq<Item>
    requires w.Lists(storePath)
  {
    var l := Listing(w.sender[storePath]);
    Items(Unfolded(w, l, |l|))
  }

  // ---------------------------------------------------------------------------
  // The matches that were used
  // ---------------------------------------------------------------------------

  // A kept entry and the row that was used for it.
  datatype Use = Use(entry: Entry, row: FileRow)

  ghost predicate UsedRight(w: World, used: seq<Use>) {
    forall k :: 0 <= k < |used| ==> MatchRight(w, used[k].entry, used[k].row)
  }

  // The kept ones among the first i entries whose hash the target knows, in order.
  ghost function Looked(w: World, l: seq<Entry>, i: nat): seq<Entry>
    requires i <= |l|
  {
    if i == 0 then [] else
      Looked(w, l, i - 1) + (if KeptAt(w, l, i - 1) && HasMatch(w, l[i - 1]) then [l[i - 1]] else [])
  }

  ghost predicate KeptAt(w: World, l: seq<Entry>, k: nat)
    requires k < |l|
  {
    !Skips(RecursiveDir(l, KnownDirs(w, l), k), l[k].path)
  }

  lemma {:induction false} LookedKept(w: World, l: seq<Entry>, i: nat, m: nat) returns (k: nat)
    requires i <= |l| && m < |Looked(w, l, i)|
    ensures k < i && l[k] == Looked(w, l, i)[m] && KeptAt(w, l, k)
  {
    hide KeptAt, HasMatch;
    if m < |Looked(w, l, i - 1)| {
      k := LookedKept(w, l, i - 1, m);
    } else {
      k := i - 1;
    }
  }

  // One match by hash for each of them.
  ghost predicate UsedSound(w: World, l: seq<Entry>, i: nat, used: seq<Use>)
    requires i <= |l|
  {
    |used| == |Looked(w, l, i)| && forall k :: 0 <= k < |used| ==> UsedFor(w, used[k], Looked(w, l, i)[k])
  }

  ghost predicate UsedFor(w: World, u: Use, e: Entry) {
    u.entry == e && u.row in w.db.files && SameHash(w, e, u.row)
  }

  // The file names what was used for its entry.
  ghost predicate Names(w: World, f: NarFile, row: FileRow, t: Target) {
    match f.fileType
    case RegularFile(_, chunks, _) =>
      && |chunks| == 1 && chunks[0].FdChunk? && chunks[0].index < |t.inputs|
      && t.inputs[chunks[0].index] == InputPath(w, row)
    case DirectoryFile(from) => 0 <= from < |t.inputs| && t.inputs[from] == InputPath(w, row)
    case SymlinkFile(_) => false
    case NoFileType => false
  }

  ghost predicate UsedNamed(w: World, files: seq<NarFile>, used: seq<Use>, t: Target) {
    forall k :: 0 <= k < |used| ==> NamedIn(w, files, used[k], t)
  }

  ghost predicate NamedIn(w: World, files: seq<NarFile>, u: Use, t: Target) {
    exists i :: 0 <= i < |files| && NamedBy(w, files[i], u, t)
  }

  ghost predicate NamedBy(w: World, f: NarFile, u: Use, t: Target) {
    f.path == u.entry.path && Names(w, f, u.row, t)
  }

  // The files stand for kept ones among the first i entries.
  ghost predicate Anchored(w: World, l: seq<Entry>, i: nat, files: seq<NarFile>)
    requires i <= |l|
  {
    forall f :: f in files ==> exists k :: 0 <= k < i && ForEntry(w, f, l[k])
  }

  // After i entries: the files unpack to what is wanted if and only if every match used is
  // right.
  ghost predicate Packed(w: World, l: seq<Entry>, i: nat, files: seq<NarFile>, used: seq<Use>, t: Target)
    requires i <= |l|
  {
    && FilesInRange(files, t) && Anchored(w, l, i, files) && UsedSound(w, l, i, used) && UsedNamed(w, files, used, t)
    && (Unpack(files, t) == Ok(Items(Unfolded(w, l, i))) <==> UsedRight(w, used))
  }

  lemma WantedPathsNew(w: World, l: seq<Entry>, i: nat)
    requires Blocks(l) && NoEmptyPath(l) && i < |l| && !Skips(RecursiveDir(l, KnownDirs(w, l), i), l[i].path)
    ensures forall x :: x in Items(Unfolded(w, l, i)) ==> x.path != l[i].path
  {
    hide Blocks, NoEmptyPath, RecursiveDir, Skips, KnownDirs, From, Kept, UnfoldAll;
    KeptPathIsNew(l, KnownDirs(w, l), i);
    var u := Unfolded(w, l, i);
    forall x | x in Items(u)
      ensures x.path != l[i].path
    {
      var k :| 0 <= k < |Items(u)| && Items(u)[k] == x;
      assert u[k] in u;
      UnfoldedFrom(l, KnownDirs(w, l), i, u[k]);
    }
  }

  lemma WrittenPathsNew(w: World, l: seq<Entry>, i: nat, files: seq<NarFile>, t: Target)
    requires Blocks(l) && NoEmptyPath(l) && i < |l| && !Skips(RecursiveDir(l, KnownDirs(w, l), i), l[i].path)
    requires Anchored(w, l, i, files) && Unpack(files, t).Ok?
    ensures forall x :: x in Unpack(files, t).value ==> x.path != l[i].path
  {
    hide NoEmptyPath, RecursiveDir, Skips, KnownDirs, KnownDir, Unpack, UnpackFile;
    KeptPathIsNew(l, KnownDirs(w, l), i);
    forall x | x in Unpack(files, t).value
      ensures x.path != l[i].path
    {
      var f := UnpackedFrom(files, t, x);
      var k :| 0 <= k < i && ForEntry(w, f, l[k]);
      FileItemPaths(f, t, x);
      MatchedIffKnown(w, l, k);
      assert FromEntry(l, KnownDirs(w, l), k, x.path);
    }
  }

  lemma WrittenFirst(w: World, e: Entry)
    ensures Written(w, e) != [] && Written(w, e)[0].path == e.path
  {
    ItemsOne(e);
    assert List(e.path, e.node)[0] == e;
  }

  lemma NothingPacked(w: World, l: seq<Entry>, t: Target)
    ensures Packed(w, l, 0, [], [], t)
  {
    hide Items;
    NothingUnpacked(t);
    NothingUnfolded(w, l);
  }

  lemma PackedSkips(w: World, l: seq<Entry>, i: nat, files: seq<NarFile>, used: seq<Use>, t: Target)
    requires i < |l| && Packed(w, l, i, files, used, t) && Skips(RecursiveDir(l, KnownDirs(w, l), i), l[i].path)
    ensures Packed(w, l, i + 1, files, used, t)
  {
    hide RecursiveDir, Skips, KnownDirs, KnownDir, Unpack, Unfolded, Items, FilesInRange, UsedRight, UsedFor, UsedNamed,
      ForEntry, HasMatch;
    UnfoldedSkips(w, l, i);
    assert Looked(w, l, i + 1) == Looked(w, l, i) + [] == Looked(w, l, i);
    forall f | f in files
      ensures exists k :: 0 <= k < i + 1 && ForEntry(w, f, l[k])
    {
      var k :| 0 <= k < i && ForEntry(w, f, l[k]);
      assert ForEntry(w, f, l[k]);
    }
  }

  // With the match found for the next entry, if any.
  ghost function WithMatch(used: seq<Use>, e: Entry, found: Option<FileRow>): seq<Use> {
    if found.Some? then used + [Use(e, found.value)] else used
  }

  lemma WithMatchSound(w: World, l: seq<Entry>, i: nat, used: seq<Use>, found: Option<FileRow>)
    requires i < |l| && UsedSound(w, l, i, used) && KeptAt(w, l, i) && (found.Some? <==> HasMatch(w, l[i]))
    requires found.Some? ==> found.value in w.db.files && SameHash(w, l[i], found.value)
    ensures
      var more := WithMatch(used, l[i], found);
      && UsedSound(w, l, i + 1, more)
      && (UsedRight(w, more) <==> UsedRight(w, used) && (found.None? || MatchRight(w, l[i], found.value)))
  {
    hide KeptAt, SameHash, MatchRight, HasMatch;
    var more := WithMatch(used, l[i], found);
    if found.Some? {
      assert Looked(w, l, i + 1) == Looked(w, l, i) + [l[i]];
      assert more[|used|] == Use(l[i], found.value);
      assert forall k :: 0 <= k < |used| ==> more[k] == used[k];
    } else {
      assert Looked(w, l, i + 1) == Looked(w, l, i) + [] == Looked(w, l, i);
    }
  }

  lemma WithMatchNamed(w: World, files: seq<NarFile>, used: seq<Use>, t: Target, file: NarFile, e: Entry,
                       found: Option<FileRow>, t': Target)
    requires UsedNamed(w, files, used, t) && Grows(t, t') && file.path == e.path
    requires found.Some? ==> Names(w, file, found.value, t')
    ensures UsedNamed(w, files + [file], WithMatch(used, e, found), t')
  {
    var more := WithMatch(used, e, found);
    forall k | 0 <= k < |more|
      ensures NamedIn(w, files + [file], more[k], t')
    {
      if k < |used| {
        assert NamedIn(w, files, used[k], t);
        var i :| 0 <= i < |files| && NamedBy(w, files[i], used[k], t);
        NamesStill(w, files[i], used[k].row, t, t');
        assert NamedBy(w, (files + [file])[i], more[k], t');
      } else {
        assert NamedBy(w, (files + [file])[|files|], more[k], t');
      }
    }
  }

  lemma NamesStill(w: World, f: NarFile, row: FileRow, t: Target, t': Target)
    requires Names(w, f, row, t) && Grows(t, t')
    ensures Names(w, f, row, t')
  {
  }

  lemma UsedNamedStill(w: World, files: seq<NarFile>, used: seq<Use>, t: Target, t': Target)
    requires UsedNamed(w, files, used, t) && Grows(t, t')
    ensures UsedNamed(w, files, used, t')
  {
    hide Names, Grows;
    forall k | 0 <= k < |used|
      ensures NamedIn(w, files, used[k], t')
    {
      assert NamedIn(w, files, used[k], t);
      var i :| 0 <= i < |files| && NamedBy(w, files[i], used[k], t);
      NamesStill(w, files[i], used[k].row, t, t');
      assert NamedBy(w, files[i], used[k], t');
    }
  }

  lemma AnchoredMore(w: World, l: seq<Entry>, i: nat, files: seq<NarFile>, file: NarFile)
    requires i < |l| && Anchored(w, l, i, files) && ForEntry(w, file, l[i])
    ensures Anchored(w, l, i + 1, files + [file])
  {
    hide ForEntry;
    forall f | f in files + [file]
      ensures exists k :: 0 <= k < i + 1 && ForEntry(w, f, l[k])
    {
      if f in files {
        var k :| 0 <= k < i && ForEntry(w, f, l[k]);
        assert ForEntry(w, f, l[k]);
      }
    }
  }

  // One more file, against tables that have only grown.
  lemma PackedMore(w: World, l: seq<Entry>, i: nat, files: seq<NarFile>, used: seq<Use>, t: Target,
                   file: NarFile, found: Option<FileRow>, t': Target)
    requires i < |l| && Packed(w, l, i, files, used, t) && Grows(t, t')
    requires Blocks(l) && NoEmptyPath(l) && !Skips(RecursiveDir(l, KnownDirs(w, l), i), l[i].path)
    requires FileInRange(file, t') && ForEntry(w, file, l[i])
    requires found.Some? <==> HasMatch(w, l[i])
    requires found.Some? ==>
      found.value in w.db.files && SameHash(w, l[i], found.value) && Names(w, file, found.value, t')
    requires UnpackFile(file, t') == Ok(Written(w, l[i])) <==> found.None? || MatchRight(w, l[i], found.value)
    ensures Packed(w, l, i + 1, files + [file], WithMatch(used, l[i], found), t')
  {
    hide Blocks, NoEmptyPath, RecursiveDir, Skips, KnownDirs, KnownDir, Unpack, UnpackFile, Unfolded, Items, Written,
      FileInRange, UsedRight, UsedSound, UsedNamed, Names, Anchored, SameHash, MatchRight, HasMatch, Grows, WithMatch;
    UnpackStable(files, t, t');
    StillInRange(files, t, t');
    AnchoredMore(w, l, i, files, file);
    WithMatchSound(w, l, i, used, found);
    WithMatchNamed(w, files, used, t, file, l[i], found, t');
    WantedPathsNew(w, l, i);
    if Unpack(files, t').Ok? {
      WrittenPathsNew(w, l, i, files, t');
    }
    WrittenFirst(w, l[i]);
    UnpackMore(files, file, t', Items(Unfolded(w, l, i)), Written(w, l[i]));
    UnfoldedKeeps(w, l, i);
  }

  // If any match that may be returned for a kept entry is right, those used are.
  lemma AllRightUsed(w: World, storePath: Str, used: seq<Use>)
    requires w.Lists(storePath) && RightMatches(w, storePath) && UsedOf(w, storePath, used)
    ensures UsedRight(w, used)
  {
    hide SameHash, MatchRight, Listing, KeptAt;
    var l := Listing(w.sender[storePath]);
    forall m | 0 <= m < |used|
      ensures MatchRight(w, used[m].entry, used[m].row)
    {
      assert UsedFor(w, used[m], Looked(w, l, |l|)[m]);
      var k := LookedKept(w, l, |l|, m);
      KeptIsRight(w, l, k);
    }
  }

  lemma KeptIsRight(w: World, l: seq<Entry>, k: nat)
    requires k < |l| && KeptAt(w, l, k) && RightIfKept(w, l, k)
    ensures MatchesRight(w, l[k])
  {
  }

  // The body of the loop, for an entry that is not skipped.
  method PackKept(tb: Tables, li: LocalIndex, cache: RefIndexCache, storeFile: FileRow, before: seq<NarFile>,
                  ghost l: seq<Entry>, ghost i: nat, ghost usedBefore: seq<Use>)
    returns (files: seq<NarFile>, fullMatch: bool, ghost used: seq<Use>)
    requires tb.Valid() && li.Valid() && li.w == tb.w && cache.Valid(tb.w)
    requires tb.load + Cost(tb.w, storeFile) <= MAX_ALLOC
    requires i < |l| && storeFile in tb.w.db.files && tb.w.Describes(storeFile, l[i]) && Blocks(l) && NoEmptyPath(l)
    requires !Skips(RecursiveDir(l, KnownDirs(tb.w, l), i), l[i].path)
    requires Packed(tb.w, l, i, before, usedBefore, tb.AsTarget())
    modifies tb, li, cache
    ensures tb.Valid() && li.Valid() && cache.Valid(tb.w) && tb.Grew()
    ensures tb.load <= old(tb.load) + Cost(tb.w, storeFile)
    ensures Packed(tb.w, l, i + 1, files, used, tb.AsTarget())
    ensures |files| == |before| + 1 && (fullMatch <==> Matched(l[i], KnownDirs(tb.w, l)))
    ensures PayloadTotal(tb.w, tb.chunkDeps) <= PayloadTotal(tb.w, old(tb.chunkDeps)) + FileBudget(tb.w, storeFile)
  {
    hide Tables.Valid, Tables.AsTarget, PayloadTotal, RefIndexCache.Valid, LocalIndex.Valid, Cost, FileBudget,
      World.Describes, MatchRight, SameHash, HasMatch, Names, Items, Written, Unfolded, KnownDirs, KnownDir, UnpackFile,
      Unpack, World.IsLocal, Blocks, NoEmptyPath, RecursiveDir, Packed, ForEntry, FileInRange;
    var file;
    ghost var found;
    file, fullMatch, found := PackEntry(tb, li, cache, storeFile, l[i]);
    files := before + [file];
    used := WithMatch(usedBefore, l[i], found);
    MatchedIffKnown(tb.w, l, i);
    tb.GrewMeansGrows();
    PackedMore(tb.w, l, i, before, usedBefore, old(tb.AsTarget()), file, found, tb.AsTarget());
  }

  // used are the whole-entry matches that SQL returned for the kept entries.
  method PackFiles(tb: Tables, li: LocalIndex, cache: RefIndexCache, storePath: Str)
    returns (files: seq<NarFile>, ghost used: seq<Use>)
    requires tb.Valid() && li.Valid() && li.w == tb.w && cache.Valid(tb.w)
    requires tb.w.Lists(storePath) && tb.load + PathCost(tb.w, storePath) <= MAX_ALLOC
    modifies tb, li, cache
    ensures tb.Valid() && li.Valid() && cache.Valid(tb.w) && tb.Grew()
    ensures tb.load <= old(tb.load) + PathCost(tb.w, storePath)
    ensures FilesInRange(files, tb.AsTarget()) && UsedNamed(tb.w, files, used, tb.AsTarget())
    ensures Unpack(files, tb.AsTarget()) == Ok(PathItems(tb.w, storePath)) <==> UsedRight(tb.w, used)
    ensures UsedOf(tb.w, storePath, used)
    ensures var l := Listing(tb.w.sender[storePath]); |files| == |Kept(l, KnownDirs(tb.w, l), |l|)|
    ensures PayloadTotal(tb.w, tb.chunkDeps) <= PayloadTotal(tb.w, old(tb.chunkDeps)) + PathBudget(tb.w, storePath)
  {
    hide Tables.Valid, Tables.AsTarget, PayloadTotal, RefIndexCache.Valid, LocalIndex.Valid, Cost, FileBudget,
      World.Describes, Items, Written, Unfolded, KnownDirs, KnownDir, Unpack, World.IsLocal, Blocks, NoEmptyPath,
      Packed, UsedRight, UsedOf, UsedNamed, FilesInRange, FilesOf, Listing, RowsCost, RowsBudget, RecursiveDir,
      Kept, Matched, PathCost, PathBudget, PathItems;
    var rows := FilesOf(tb.w.db.storePaths, tb.w.db.files, storePath);
    ghost var l := Listing(tb.w.sender[storePath]);
    assert |rows| == |l|;
    ghost var matched := KnownDirs(tb.w, l);
    ListingBlocks(tb.w.sender[storePath]);
    ListingNoEmptyPath(tb.w.sender[storePath]);
    files, used := [], [];
    assert PathCost(tb.w, storePath) == RowsCost(tb.w, rows) by {
      CostOfRows(tb.w, storePath);
    }
    RowsNone(tb.w, rows, l, matched);
    NothingPacked(tb.w, l, tb.AsTarget());
    var recursiveDir: Str := [];
    for i := 0 to |rows|
      invariant tb.Valid() && li.Valid() && cache.Valid(tb.w) && tb.Grew()
      invariant tb.load <= old(tb.load) + RowsCost(tb.w, rows[..i])
      invariant recursiveDir == RecursiveDir(l, matched, i) && |files| == |Kept(l, matched, i)|
      invariant Packed(tb.w, l, i, files, used, tb.AsTarget())
      invariant PayloadTotal(tb.w, tb.chunkDeps) <=
        PayloadTotal(tb.w, old(tb.chunkDeps)) + RowsBudget(tb.w, rows, l, matched, i)
    {
      var storeFile := rows[i];
      RowAt(tb.w, storePath, i);
      RowsStep(tb.w, rows, l, matched, i);
      StateStep(l, matched, i);
      if recursiveDir != [] && recursiveDir <= storeFile.path {
        PackedSkips(tb.w, l, i, files, used, tb.AsTarget());
        continue;
      }
      var fullMatch;
      files, fullMatch, used := PackKept(tb, li, cache, storeFile, files, l, i, used);
      if fullMatch {
        recursiveDir := storeFile.path;
      }
    }
    assert rows[..|rows|] == rows;
    WholeListing(tb.w, storePath);
    WholePacked(tb.w, storePath, files, used, tb.AsTarget());
  }

  // The matches used for a store path.
  ghost predicate UsedOf(w: World, storePath: Str, used: seq<Use>)
    requires w.Lists(storePath)
  {
    UsedSound(w, Listing(w.sender[storePath]), |Listing(w.sender[storePath])|, used)
  }

  lemma WholePacked(w: World, storePath: Str, files: seq<NarFile>, used: seq<Use>, t: Target)
    requires w.Lists(storePath)
    requires
      var l := Listing(w.sender[storePath]);
      Packed(w, l, |l|, files, used, t)
    ensures FilesInRange(files, t) && UsedOf(w, storePath, used) && UsedNamed(w, files, used, t)
    ensures Unpack(files, t) == Ok(PathItems(w, storePath)) <==> UsedRight(w, used)
  {
    hide FilesInRange, UsedSound, UsedNamed, UsedRight, Unpack, Items, Unfolded, Anchored, Listing, World.Lists;
  }

  lemma CostOfRows(w: World, storePath: Str)
    ensures PathCost(w, storePath) == RowsCost(w, FilesOf(w.db.storePaths, w.db.files, storePath))
  {
  }

  lemma WholeListing(w: World, storePath: Str)
    requires w.Lists(storePath)
    ensures
      var l := Listing(w.sender[storePath]);
      && PathItems(w, storePath) == Items(Unfolded(w, l, |l|))
      && PathBudget(w, storePath) ==
        RowsBudget(w, FilesOf(w.db.storePaths, w.db.files, storePath), l, KnownDirs(w, l), |l|)
  {
    hide Unfolded, RowsBudget, KnownDirs;
  }

  lemma RowAt(w: World, storePath: Str, i: nat)
    requires w.Lists(storePath) && i < |FilesOf(w.db.storePaths, w.db.files, storePath)|
    ensures
      var f, e := FilesOf(w.db.storePaths, w.db.files, storePath)[i], Listing(w.sender[storePath])[i];
      f in w.db.files && w.Describes(f, e) && f.path == e.path
  {
    hide FilesOf;
    var f := FilesOf(w.db.storePaths, w.db.files, storePath)[i];
    assert f in FilesOf(w.db.storePaths, w.db.files, storePath);
  }

  lemma RowsNone(w: World, rows: seq<FileRow>, l: seq<Entry>, matched: set<Str>)
    ensures RecursiveDir(l, matched, 0) == [] && Kept(l, matched, 0) == []
    ensures RowsCost(w, rows[..0]) == 0 && RowsBudget(w, rows, l, matched, 0) == 0
  {
  }

  lemma RowsStep(w: World, rows: seq<FileRow>, l: seq<Entry>, matched: set<Str>, i: nat)
    requires i < |rows| && i < |l|
    ensures RowsCost(w, rows[..i + 1]) == RowsCost(w, rows[..i]) + Cost(w, rows[i]) <= RowsCost(w, rows)
    ensures RowsBudget(w, rows, l, matched, i + 1) == RowsBudget(w, rows, l, matched, i) +
      (if Skips(RecursiveDir(l, matched, i), l[i].path) then 0 else FileBudget(w, rows[i]))
  {
    hide Cost, FileBudget;
    RowsCostMonotone(w, rows, i + 1);
    assert rows[..i + 1][..i] == rows[..i];
  }

  lemma NothingUnpacked(t: Target)
    ensures Unpack([], t) == Ok([])
  {
  }

  lemma NothingUnfolded(w: World, l: seq<Entry>)
    ensures Items(Unfolded(w, l, 0)) == []
  {
  }

  lemma UnfoldedSkips(w: World, l: seq<Entry>, i: nat)
    requires i < |l| && Skips(RecursiveDir(l, KnownDirs(w, l), i), l[i].path)
    ensures Unfolded(w, l, i + 1) == Unfolded(w, l, i)
  {
  }
}
