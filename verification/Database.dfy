/** The index database as the packer queries it (internal/database/query.sql), and what it
    says about the sender's store. Queries that leave a choice to SQL leave it open here. */
module Database {
  import opened Prelude
  import opened Tree
  import opened Chunking
  import opened Delta

  datatype FileRow = FileRow(id: int, storePathId: int, path: Str, size: nat, kind: Kind, linkTarget: Str,
                             executable: bool, hash: Option<Digest>)

  datatype ChunkRow = ChunkRow(fileId: int, hash: Digest, size: nat, offset: nat)

  // Rows are in id order.
  datatype Db = Db(storePaths: map<int, Str>, files: seq<FileRow>, chunks: seq<ChunkRow>)

  // GetStoreFiles: the files of a store path, in id order.
  function FilesOf(storePaths: map<int, Str>, files: seq<FileRow>, storePath: Str): (rows: seq<FileRow>)
    ensures forall f :: f in rows <==>
      f in files && f.storePathId in storePaths && storePaths[f.storePathId] == storePath
  {
    if files == [] then [] else
      var f := files[|files| - 1];
      FilesOf(storePaths, files[..|files| - 1], storePath) +
      (if f.storePathId in storePaths && storePaths[f.storePathId] == storePath then [f] else [])
  }

  // The chunks of a file, in id order.
  function ChunksOf(chunks: seq<ChunkRow>, fileId: int): (rows: seq<ChunkRow>)
    ensures forall c :: c in rows <==> c in chunks && c.fileId == fileId
  {
    if chunks == [] then [] else
      var c := chunks[|chunks| - 1];
      ChunksOf(chunks[..|chunks| - 1], fileId) + (if c.fileId == fileId then [c] else [])
  }

  // storeFileAbsPath.
  function AbsPath(storePath: Str, filePath: Str): Str {
    if filePath == [SLASH] then storePath else storePath + filePath
  }

  // The path a tree entry had inside its store path before the root was renamed to "/".
  function RelPath(path: Str): Str {
    if path == [SLASH] then [] else path
  }

  // The digest as Go holds it: nil for NULL.
  function HashBytes(f: FileRow): Digest {
    if f.hash.Some? then f.hash.value else []
  }

  // Everything the packer can consult: the database, the store paths on the target, the
  // sender's store as it was indexed, the digest function and the delta encoding.
  datatype World = World(db: Db, local: set<Str>, hash: Hash, codec: Codec, sender: map<Str, Node>)
  {
    function RowPath(f: FileRow): Str
      requires f.storePathId in db.storePaths
    {
      AbsPath(db.storePaths[f.storePathId], f.path)
    }

    // The row belongs to a store path that the target has.
    predicate IsLocal(f: FileRow) {
      f in db.files && f.storePathId in db.storePaths && db.storePaths[f.storePathId] in local
    }

    // Some local entry, of whatever type, carries this hash.
    ghost predicate Known(hash: Digest) {
      exists f :: f in db.files && IsLocal(f) && f.hash == Some(hash)
    }

    // Some local chunk carries this hash.
    ghost predicate KnownChunk(hash: Digest) {
      exists c :: c in db.chunks && LocalChunk(c) && c.hash == hash
    }

    ghost predicate LocalChunk(c: ChunkRow) {
      exists f :: f in db.files && IsLocal(f) && f.id == c.fileId
    }

    // The row describes the entry e as the sender has it: it holds what reading the entry for
    // the index finds, under the path that the root "/" has in the database.
    ghost predicate Describes(f: FileRow, e: Entry) {
      && f.storePathId in db.storePaths && RowPath(f) in sender && sender[RowPath(f)] == e.node && f.path == e.path
      && (f.hash.None? <==> e.node.Symlink?) && f.size < TWO_63 && (e.node.Regular? ==> f.size <= MAX_ALLOC)
      && Chunking.Describes(hash, RecordOf(f), Entry(RelPath(e.path), e.node))
    }

    // The row and its chunks as the record they were inserted from.
    function RecordOf(f: FileRow): StoreFile {
      StoreFile(RelPath(f.path), f.kind, f.size, f.linkTarget, f.executable, AsChunks(ChunksOf(db.chunks, f.id)),
                HashBytes(f))
    }

    ghost predicate TilesRows(rows: seq<ChunkRow>, content: Bytes) {
      Tiles(hash, AsChunks(rows), content, |content|)
    }

    // The content of the regular file behind a row.
    ghost predicate HasContent(f: FileRow, content: Bytes) {
      && f in db.files && f.storePathId in db.storePaths && RowPath(f) in sender && f.kind == RegularKind
      && sender[RowPath(f)].Regular? && sender[RowPath(f)].content == content
    }

    // The database is keyed, and is what indexing the sender's store produced.
    ghost predicate Indexed() {
      && IdOrder() && (forall f, g :: f in db.files && g in db.files && f.id == g.id ==> f == g)
      && (forall f :: f in db.files ==> SoundRow(f))
      && (forall c :: c in db.chunks ==> exists f :: f in db.files && f.id == c.fileId && f.kind == RegularKind)
    }

    // Rows are in id order.
    ghost predicate IdOrder() {
      forall i, j :: 0 <= i < j < |db.files| ==> db.files[i].id < db.files[j].id
    }

    ghost predicate SoundRow(f: FileRow) {
      && f.id > 0 && f.storePathId in db.storePaths && RowPath(f) in sender && ValidNode(sender[RowPath(f)])
      && Describes(f, Entry(f.path, sender[RowPath(f)]))
    }

    // The listing of a store path is in the database, in order.
    ghost predicate Lists(storePath: Str) {
      && storePath in sender && ValidNode(sender[storePath])
      && var rows, l := FilesOf(db.storePaths, db.files, storePath), Listing(sender[storePath]);
         |rows| == |l| && forall k :: 0 <= k < |l| ==> Describes(rows[k], l[k])
    }

    // Contents and chunks that meet in a comparison of digests do not collide.
    ghost predicate CollisionFree() {
      && (forall f, g, a, b :: HasContent(f, a) && HasContent(g, b) && hash(a) == hash(b) ==> a == b)
      && (forall c, d, a, b :: ChunkBytes(c, a) && ChunkBytes(d, b) && hash(a) == hash(b) ==> a == b)
    }

    // The bytes a chunk row stands for.
    ghost predicate ChunkBytes(c: ChunkRow, data: Bytes) {
      c in db.chunks && exists f, content :: HasContent(f, content) && ChunkIn(c, f, content, data)
    }

    ghost predicate ChunkIn(c: ChunkRow, f: FileRow, content: Bytes, data: Bytes) {
      f.id == c.fileId && c.offset + c.size <= |content| && data == content[c.offset..c.offset + c.size]
    }
  }

  function AsChunks(rows: seq<ChunkRow>): seq<FileChunk> {
    seq(|rows|, i requires 0 <= i < |rows| => FileChunk(rows[i].offset, rows[i].size, rows[i].hash))
  }

  // ---------------------------------------------------------------------------
  // What the queries return
  // ---------------------------------------------------------------------------

  function OfPath(storePaths: map<int, Str>, storePath: Str): FileRow -> bool {
    (f: FileRow) => f.storePathId in storePaths && storePaths[f.storePathId] == storePath
  }

  function OfFile(fileId: int): ChunkRow -> bool {
    (c: ChunkRow) => c.fileId == fileId
  }

  /** The files of a store path are all its rows, in table order. */
  lemma {:induction false} FilesSelected(storePaths: map<int, Str>, files: seq<FileRow>, storePath: Str)
    returns (pos: seq<nat>)
    ensures Selected(files, OfPath(storePaths, storePath), FilesOf(storePaths, files, storePath), pos)
  {
    if files == [] {
      pos := [];
    } else {
      var init, last := files[..|files| - 1], files[|files| - 1];
      pos := FilesSelected(storePaths, init, storePath);
      var rows := FilesOf(storePaths, init, storePath);
      assert init + [last] == files;
      if OfPath(storePaths, storePath)(last) {
        SelectedKeep(init, OfPath(storePaths, storePath), rows, pos, last);
        pos := pos + [|init|];
      } else {
        SelectedSkip(init, OfPath(storePaths, storePath), rows, pos, last);
        assert rows + [] == rows;
      }
    }
  }

  /** The chunks of a file are all its rows, in table order. */
  lemma {:induction false} ChunksSelected(chunks: seq<ChunkRow>, fileId: int) returns (pos: seq<nat>)
    ensures Selected(chunks, OfFile(fileId), ChunksOf(chunks, fileId), pos)
  {
    if chunks == [] {
      pos := [];
    } else {
      var init, last := chunks[..|chunks| - 1], chunks[|chunks| - 1];
      pos := ChunksSelected(init, fileId);
      var rows := ChunksOf(init, fileId);
      assert init + [last] == chunks;
      if last.fileId == fileId {
        SelectedKeep(init, OfFile(fileId), rows, pos, last);
        pos := pos + [|init|];
      } else {
        SelectedSkip(init, OfFile(fileId), rows, pos, last);
        assert rows + [] == rows;
      }
    }
  }

  /** So the files of a store path come in id order. */
  lemma FilesInIdOrder(w: World, storePath: Str, i: nat, j: nat)
    requires w.IdOrder() && i < j < |FilesOf(w.db.storePaths, w.db.files, storePath)|
    ensures
      var rows := FilesOf(w.db.storePaths, w.db.files, storePath);
      rows[i].id < rows[j].id
  {
    hide FilesOf;
    var pos := FilesSelected(w.db.storePaths, w.db.files, storePath);
    assert pos[i] < pos[j];
  }

  /** What the target knows, in the tables' own columns: the hash of any row of a store path it
      has, and of any chunk of such a row. */
  lemma KnownMeans(w: World, hash: Digest)
    ensures w.Known(hash) <==> exists f ::
      && f in w.db.files && f.hash == Some(hash)
      && f.storePathId in w.db.storePaths && w.db.storePaths[f.storePathId] in w.local
    ensures w.KnownChunk(hash) <==> exists lc, f ::
      && lc in w.db.chunks && f in w.db.files && lc.hash == hash && f.id == lc.fileId
      && f.storePathId in w.db.storePaths && w.db.storePaths[f.storePathId] in w.local
  {
    if w.KnownChunk(hash) {
      var c :| c in w.db.chunks && w.LocalChunk(c) && c.hash == hash;
      var f :| f in w.db.files && w.IsLocal(f) && f.id == c.fileId;
    }
    forall lc, f | lc in w.db.chunks && f in w.db.files && w.IsLocal(f) && lc.hash == hash && f.id == lc.fileId
      ensures w.KnownChunk(hash)
    {
      assert w.LocalChunk(lc);
    }
  }

  // ---------------------------------------------------------------------------
  // Consequences
  // ---------------------------------------------------------------------------

  lemma RegularRow(w: World, f: FileRow) returns (content: Bytes)
    requires w.Indexed() && f in w.db.files && f.kind == RegularKind
    ensures w.HasContent(f, content) && f.size == |content| <= MAX_ALLOC && f.hash == Some(w.hash(content))
    ensures w.TilesRows(ChunksOf(w.db.chunks, f.id), content)
  {
    content := w.sender[w.RowPath(f)].content;
  }

  lemma TileRow(h: Hash, rows: seq<ChunkRow>, content: Bytes, end: nat, k: nat)
    requires Tiles(h, AsChunks(rows), content, end) && k < |rows|
    ensures
      var c := rows[k];
      && c.offset == Extent(AsChunks(rows[..k])) && c.offset + c.size <= |content|
      && Extent(AsChunks(rows[..k + 1])) == c.offset + c.size
      && c.hash == h(content[c.offset..c.offset + c.size])
  {
    var chunks := AsChunks(rows);
    assert TileAt(h, chunks, content, k);
    assert chunks[..k] == AsChunks(rows[..k]);
    assert chunks[..k + 1] == AsChunks(rows[..k + 1]);
    assert chunks[..k + 1][..k] == chunks[..k];
  }

  // Row k of a file's chunks is a slice of the file, right after the earlier ones.
  lemma ChunkRowFacts(w: World, f: FileRow, content: Bytes, k: nat)
    requires w.HasContent(f, content) && w.TilesRows(ChunksOf(w.db.chunks, f.id), content)
    requires k < |ChunksOf(w.db.chunks, f.id)|
    ensures
      var rows := ChunksOf(w.db.chunks, f.id);
      var c := rows[k];
      && c.offset == Extent(AsChunks(rows[..k])) && c.offset + c.size <= |content|
      && Extent(AsChunks(rows[..k + 1])) == c.offset + c.size
      && c.hash == w.hash(content[c.offset..c.offset + c.size])
      && c in w.db.chunks && w.ChunkBytes(c, content[c.offset..c.offset + c.size])
  {
    hide ChunksOf, World.HasContent, AsChunks, Tiles;
    var rows := ChunksOf(w.db.chunks, f.id);
    var c := rows[k];
    assert c in rows;
    TileRow(w.hash, rows, content, |content|, k);
    assert w.ChunkIn(c, f, content, content[c.offset..c.offset + c.size]);
  }

  // A chunk row of an indexed database, wherever it comes from.
  lemma AnyChunkRow(w: World, c: ChunkRow) returns (f: FileRow, content: Bytes)
    requires w.Indexed() && c in w.db.chunks
    ensures w.HasContent(f, content) && f.id == c.fileId && c.offset + c.size <= |content| <= MAX_ALLOC
    ensures var data := content[c.offset..c.offset + c.size]; c.hash == w.hash(data) && w.ChunkBytes(c, data)
  {
    hide World.SoundRow, ChunksOf, World.HasContent, World.TilesRows, World.ChunkBytes;
    f :| f in w.db.files && f.id == c.fileId && f.kind == RegularKind;
    content := RegularRow(w, f);
    var rows := ChunksOf(w.db.chunks, f.id);
    assert c in rows;
    var k :| 0 <= k < |rows| && rows[k] == c;
    ChunkRowFacts(w, f, content, k);
  }
}
