/** The tables that writeDNAR grows while it already streams indices into them
    (internal/cmd/dnar-pack/dnar.go). */
module Tables {
  import opened Prelude
  import opened Tree
  import opened Chunking
  import opened Database
  import opened Dnar
  import opened TableLists

  // ---------------------------------------------------------------------------
  // What the tables denote
  // ---------------------------------------------------------------------------

  ghost function ContentById(w: World, id: int): Bytes {
    if exists f, content :: w.HasContent(f, content) && f.id == id then
      var f, content :| w.HasContent(f, content) && f.id == id; content
    else []
  }

  lemma ContentByIdIs(w: World, f: FileRow, content: Bytes)
    requires w.Indexed() && w.HasContent(f, content)
    ensures ContentById(w, f.id) == content
  {
  }

  // The bytes that the stream carries for a payload.
  ghost function PayloadData(w: World, p: BulkPayload): Bytes {
    match p
    case Computed(data) => data
    case Verbatim(c) =>
      var content := ContentById(w, c.fileId);
      if c.offset + c.size <= |content| then content[c.offset..c.offset + c.size] else []
  }

  ghost function Payloads(w: World, deps: seq<BulkPayload>): (data: seq<Bytes>)
    ensures |data| == |deps| && forall i :: 0 <= i < |deps| ==> data[i] == PayloadData(w, deps[i])
  {
    if deps == [] then [] else Payloads(w, deps[..|deps| - 1]) + [PayloadData(w, deps[|deps| - 1])]
  }

  ghost function PayloadTotal(w: World, deps: seq<BulkPayload>): nat {
    if deps == [] then 0 else PayloadTotal(w, deps[..|deps| - 1]) + |PayloadData(w, deps[|deps| - 1])|
  }

  /** The payload bytes are those of the stream. */
  lemma {:induction false} PayloadTotalIs(w: World, deps: seq<BulkPayload>)
    ensures PayloadTotal(w, deps) == |Concat(Payloads(w, deps))|
  {
    if deps != [] {
      hide PayloadData;
      var init, last := deps[..|deps| - 1], deps[|deps| - 1];
      PayloadTotalIs(w, init);
      ConcatAppend(Payloads(w, init), PayloadData(w, last));
    }
  }

  lemma PayloadTotalSnoc(w: World, deps: seq<BulkPayload>, p: BulkPayload)
    ensures PayloadTotal(w, deps + [p]) == PayloadTotal(w, deps) + |PayloadData(w, p)|
  {
    assert (deps + [p])[..|deps|] == deps;
  }

  function InputPath(w: World, f: FileRow): Str {
    if f.storePathId in w.db.storePaths then w.RowPath(f) else []
  }

  function InputPaths(w: World, files: seq<FileRow>): seq<Str> {
    seq(|files|, i requires 0 <= i < |files| => InputPath(w, files[i]))
  }

  lemma VerbatimData(w: World, c: ChunkRow, data: Bytes)
    requires w.Indexed() && w.ChunkBytes(c, data)
    ensures PayloadData(w, Verbatim(c)) == data
  {
    hide World.HasContent, World.Indexed, ContentById;
    var f, content :| w.HasContent(f, content) && w.ChunkIn(c, f, content, data);
    ContentByIdIs(w, f, content);
  }

  // What the packer may assume of its inputs, and of the target: it holds the local store
  // paths as the sender has them, but for the sizes of directories.
  ghost predicate Sound(w: World, target: map<Str, Node>) {
    && w.Indexed() && w.CollisionFree() && w.codec.Faithful()
    && forall f :: f in w.db.files && w.IsLocal(f) ==> HeldBy(w, target, f)
  }

  ghost predicate HeldBy(w: World, target: map<Str, Node>, f: FileRow) {
    && InputPath(w, f) in w.sender && InputPath(w, f) in target
    && Bare(target[InputPath(w, f)]) == Bare(w.sender[InputPath(w, f)])
  }

  lemma SoundCodec(w: World, target: map<Str, Node>)
    requires Sound(w, target)
    ensures w.codec.Faithful()
  {
  }

  lemma SameId(w: World, target: map<Str, Node>, f: FileRow, g: FileRow)
    requires Sound(w, target) && f in w.db.files && g in w.db.files && f.id == g.id
    ensures f == g
  {
  }

  // Two chunk rows with one digest carry the same bytes.
  lemma SameDigestSameData(w: World, target: map<Str, Node>, c: ChunkRow, d: ChunkRow, data: Bytes)
    requires Sound(w, target) && c in w.db.chunks && c.hash == d.hash
    requires w.ChunkBytes(d, data) && d.hash == w.hash(data)
    ensures PayloadData(w, Verbatim(c)) == data
  {
    hide World.Indexed, World.ChunkBytes, PayloadData;
    var f, content := AnyChunkRow(w, c);
    VerbatimData(w, c, content[c.offset..c.offset + c.size]);
  }

  lemma NewPayload(w: World, target: map<Str, Node>, c: ChunkRow, data: Bytes)
    requires Sound(w, target) && w.ChunkBytes(c, data)
    ensures PayloadData(w, Verbatim(c)) == data && c in w.db.chunks
  {
    VerbatimData(w, c, data);
  }

  // slices.Index: the first position of x, or -1.
  method IndexOf(s: seq<int>, x: int) returns (i: int)
    ensures i == -1 <==> x !in s
    ensures i != -1 ==> 0 <= i < |s| && s[i] == x && x !in s[..i]
  {
    for k := 0 to |s|
      invariant x !in s[..k]
    {
      if s[k] == x {
        return k;
      }
    }
    return -1;
  }

  class Tables {
    const w: World
    ghost const target: map<Str, Node>

    var inputStorePathIDs: seq<int>
    var inputStoreFiles: seq<FileRow>
    var inputStoreFilesMap: map<int, nat>
    var chunkDeps: seq<BulkPayload>
    var chunkDepsMap: map<Digest, nat>

    // An upper bound on the length of every table.
    ghost var load: nat

    // The maps are the exact inverses of the lists, so that nothing is listed twice; every
    // file is local and its store path is listed.
    ghost predicate Valid()
      reads this
    {
      && Sound(w, target)
      && |inputStorePathIDs| <= load && |inputStoreFiles| <= load && |chunkDeps| <= load <= MAX_ALLOC
      && ValidPathIDs() && ValidFiles() && ValidChunks()
    }

    ghost predicate ValidPathIDs()
      reads `inputStorePathIDs
    {
      && (forall i, j :: 0 <= i < j < |inputStorePathIDs| ==> inputStorePathIDs[i] != inputStorePathIDs[j])
      && (forall i :: 0 <= i < |inputStorePathIDs| ==> inputStorePathIDs[i] in w.db.storePaths)
    }

    ghost predicate ValidFiles()
      reads `inputStorePathIDs, `inputStoreFiles, `inputStoreFilesMap
    {
      && (forall i :: 0 <= i < |inputStoreFiles| ==>
        var f := inputStoreFiles[i];
        && f in w.db.files && w.IsLocal(f) && f.storePathId in inputStorePathIDs
        && f.id in inputStoreFilesMap && inputStoreFilesMap[f.id] == i)
      && (forall id :: id in inputStoreFilesMap ==>
        inputStoreFilesMap[id] < |inputStoreFiles| && inputStoreFiles[inputStoreFilesMap[id]].id == id)
    }

    ghost predicate ValidChunks()
      reads `chunkDeps, `chunkDepsMap
    {
      && (forall i :: 0 <= i < |chunkDeps| && chunkDeps[i].Verbatim? ==>
        var c := chunkDeps[i].chunk;
        c in w.db.chunks && c.hash in chunkDepsMap && chunkDepsMap[c.hash] == i)
      && (forall hash :: hash in chunkDepsMap ==>
        var i := chunkDepsMap[hash];
        i < |chunkDeps| && chunkDeps[i].Verbatim? && chunkDeps[i].chunk.hash == hash)
    }

    // What descriptors are resolved against if packing stopped here.
    ghost function AsTarget(): Target
      reads this
    {
      Target(target, InputPaths(w, inputStoreFiles), Payloads(w, chunkDeps), w.codec)
    }

    ghost function Now(): Snapshot
      reads this
    {
      Snapshot(inputStorePathIDs, inputStoreFiles, chunkDeps)
    }

    // Nothing that was handed out has changed.
    twostate predicate Grew()
      reads this
    {
      && old(inputStorePathIDs) <= inputStorePathIDs
      && old(inputStoreFiles) <= inputStoreFiles
      && old(chunkDeps) <= chunkDeps
    }

    lemma IsSound()
      requires Valid()
      ensures Sound(w, target)
    {
    }

    lemma TargetAt()
      requires Valid()
      ensures var t := AsTarget();
        && t.store == target && t.codec == w.codec
        && |t.inputs| == |inputStoreFiles| && |t.payloads| == |chunkDeps| <= MAX_ALLOC
        && (forall i :: 0 <= i < |inputStoreFiles| ==> t.inputs[i] == InputPath(w, inputStoreFiles[i]))
        && (forall i :: 0 <= i < |chunkDeps| ==> t.payloads[i] == PayloadData(w, chunkDeps[i]))
    {
    }

    twostate lemma GrewMeansGrows()
      requires Grew()
      ensures Grows(old(AsTarget()), AsTarget())
    {
    }

    constructor (w: World, ghost target: map<Str, Node>)
      requires Sound(w, target)
      ensures Valid() && this.w == w && this.target == target
      ensures inputStorePathIDs == [] && inputStoreFiles == [] && chunkDeps == [] && load == 0
    {
      this.w, this.target := w, target;
      inputStorePathIDs, inputStoreFiles, inputStoreFilesMap := [], [], map[];
      chunkDeps, chunkDepsMap := [], map[];
      load := 0;
    }

    // The maps find what searching the lists would.
    lemma ListedAt(id: int)
      requires ValidFiles()
      ensures id in inputStoreFilesMap <==> FileIndex(inputStoreFiles, id) < |inputStoreFiles|
      ensures id in inputStoreFilesMap ==> inputStoreFilesMap[id] == FileIndex(inputStoreFiles, id)
    {
      var k := FileIndex(inputStoreFiles, id);
      if id in inputStoreFilesMap {
        assert inputStoreFiles[inputStoreFilesMap[id]].id == id;
      }
      if k < |inputStoreFiles| {
        assert inputStoreFilesMap[inputStoreFiles[k].id] == k;
      }
    }

    lemma SentAt(hash: Digest)
      requires ValidChunks()
      ensures hash in chunkDepsMap <==> ChunkIndex(chunkDeps, hash) < |chunkDeps|
      ensures hash in chunkDepsMap ==> chunkDepsMap[hash] == ChunkIndex(chunkDeps, hash)
    {
      var k := ChunkIndex(chunkDeps, hash);
      if hash in chunkDepsMap {
        assert chunkDeps[chunkDepsMap[hash]].chunk.hash == hash;
      }
      if k < |chunkDeps| {
        assert chunkDepsMap[chunkDeps[k].chunk.hash] == k;
      }
    }

    // The tables never list anything twice.
    lemma NothingTwice()
      requires Valid()
      ensures Now().Distinct()
    {
      hide Sound;
    }

    method AddInputStorePathID(storeID: int) returns (i: nat)
      requires ValidPathIDs() && storeID in w.db.storePaths
      modifies this`inputStorePathIDs
      ensures ValidPathIDs()
      ensures inputStorePathIDs ==
        if storeID in old(inputStorePathIDs) then old(inputStorePathIDs) else old(inputStorePathIDs) + [storeID]
      ensures i < |inputStorePathIDs| && inputStorePathIDs[i] == storeID
    {
      var k := IndexOf(inputStorePathIDs, storeID);
      if k > -1 {
        return k;
      }
      i := |inputStorePathIDs|;
      inputStorePathIDs := inputStorePathIDs + [storeID];
    }

    // The index denotes the file from now on; asking again for the same file gives it again.
    method AddInputStoreFile(file: FileRow) returns (i: uint64)
      requires Valid() && load < MAX_ALLOC && file in w.db.files && w.IsLocal(file)
      modifies this
      ensures Valid() && Grew() && load == old(load) + 1 && chunkDeps == old(chunkDeps)
      ensures i < |inputStoreFiles| && inputStoreFiles[i] == file
      ensures Now() == old(Now()).AddFile(file) && i == FileIndex(old(inputStoreFiles), file.id)
    {
      hide Sound, ValidChunks, ValidPathIDs, FirstIndex, FileIndex, PathIndex;
      PathAt(inputStorePathIDs, file.storePathId);
      ListedAt(file.id);
      load := load + 1;
      if file.id in inputStoreFilesMap {
        SameId(w, target, file, inputStoreFiles[inputStoreFilesMap[file.id]]);
        return inputStoreFilesMap[file.id];
      }
      var _ := AddInputStorePathID(file.storePathId);
      i := |inputStoreFiles|;
      inputStoreFiles := inputStoreFiles + [file];
      inputStoreFilesMap := inputStoreFilesMap[file.id := i];
    }

    // A chunk whose digest was listed before is not listed again.
    method AddChunkDep(chunk: ChunkRow, ghost data: Bytes) returns (i: uint64)
      requires Valid() && load < MAX_ALLOC && w.ChunkBytes(chunk, data) && chunk.hash == w.hash(data)
      modifies this
      ensures Valid() && Grew() && load == old(load) + 1
      ensures inputStoreFiles == old(inputStoreFiles) && inputStorePathIDs == old(inputStorePathIDs)
      ensures i < |chunkDeps| && PayloadData(w, chunkDeps[i]) == data
      ensures PayloadTotal(w, chunkDeps) <= PayloadTotal(w, old(chunkDeps)) + |data|
      ensures Now() == old(Now()).AddChunk(chunk) && i == ChunkIndex(old(chunkDeps), chunk.hash)
      ensures Sent(old(chunkDeps), chunk.hash) ==> chunkDeps == old(chunkDeps)
      ensures !Sent(old(chunkDeps), chunk.hash) ==>
        && chunkDeps == old(chunkDeps) + [Verbatim(chunk)]
        && PayloadTotal(w, chunkDeps) == PayloadTotal(w, old(chunkDeps)) + |data|
    {
      hide Sound, ValidFiles, ValidPathIDs, PayloadData, PayloadTotal, World.ChunkBytes, FirstIndex, ChunkIndex, Sent;
      SentIndex(chunkDeps, chunk.hash);
      SentAt(chunk.hash);
      load := load + 1;
      if chunk.hash in chunkDepsMap {
        i := chunkDepsMap[chunk.hash];
        SameDigestSameData(w, target, chunkDeps[i].chunk, chunk, data);
        return;
      }
      NewPayload(w, target, chunk, data);
      PayloadTotalSnoc(w, chunkDeps, Verbatim(chunk));
      i := |chunkDeps|;
      chunkDeps := chunkDeps + [Verbatim(chunk)];
      chunkDepsMap := chunkDepsMap[chunk.hash := i];
    }

    method AddDeltaPayload(data: Bytes) returns (i: uint64)
      requires Valid() && load < MAX_ALLOC
      modifies this
      ensures Valid() && Grew() && load == old(load) + 1
      ensures inputStoreFiles == old(inputStoreFiles) && inputStorePathIDs == old(inputStorePathIDs)
      ensures i == |old(chunkDeps)| && Now() == old(Now()).AddDelta(data)
      ensures PayloadTotal(w, chunkDeps) == PayloadTotal(w, old(chunkDeps)) + |data|
    {
      hide Sound, ValidFiles, ValidPathIDs, PayloadTotal;
      load := load + 1;
      PayloadTotalSnoc(w, chunkDeps, Computed(data));
      i := |chunkDeps|;
      chunkDeps := chunkDeps + [Computed(data)];
    }
  }
}
