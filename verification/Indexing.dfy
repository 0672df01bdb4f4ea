/** Indexing a store path (internal/cmd/dnar-pack/index.go): the records read from a tree become
    rows, and the database then describes that tree as packing needs it to. */
module Indexing {
  import opened Prelude
  import opened Tree
  import opened DirectorySkip
  import opened Chunking
  import opened Database

  // The path a record gets in the database: the root's is empty in the record.
  function DbPath(path: Str): Str {
    if path == [] then [SLASH] else path
  }

  function ToRow(id: int, storePathId: int, f: StoreFile): FileRow {
    FileRow(id, storePathId, DbPath(f.path), f.size, f.kind, f.linkTarget, f.executable,
            if f.kind.SymlinkKind? then None else Some(f.digest))
  }

  function ToChunkRows(id: int, chunks: seq<FileChunk>): seq<ChunkRow> {
    seq(|chunks|, i requires 0 <= i < |chunks| => ChunkRow(id, chunks[i].digest, chunks[i].len, chunks[i].offset))
  }

  // The id of the next row.
  function NextId(files: seq<FileRow>): int {
    if files == [] then 1 else files[|files| - 1].id + 1
  }

  function Insert(db: Db, storePathId: int, f: StoreFile): Db {
    var id := NextId(db.files);
    Db(db.storePaths, db.files + [ToRow(id, storePathId, f)], db.chunks + ToChunkRows(id, f.chunks))
  }

  function InsertAll(db: Db, storePathId: int, files: seq<StoreFile>): Db {
    if files == [] then db else
      Insert(InsertAll(db, storePathId, files[..|files| - 1]), storePathId, files[|files| - 1])
  }

  // One store path with its files and their chunks.
  function IndexPath(db: Db, storePathId: int, storePath: Str, files: seq<StoreFile>): Db {
    InsertAll(db.(storePaths := db.storePaths[storePathId := storePath]), storePathId, files)
  }

  // The loops over the files of a store path and over their chunks.
  method Index(db: Db, storePathId: int, storePath: Str, storeFiles: seq<StoreFile>) returns (r: Db)
    ensures r == IndexPath(db, storePathId, storePath, storeFiles)
  {
    r := db.(storePaths := db.storePaths[storePathId := storePath]);
    ghost var start := r;
    for k := 0 to |storeFiles|
      invariant r == InsertAll(start, storePathId, storeFiles[..k])
    {
      assert storeFiles[..k + 1][..k] == storeFiles[..k];
      var file := storeFiles[k];
      var id := NextId(r.files);
      ghost var before := r;
      r := r.(files := r.files + [ToRow(id, storePathId, file)]);
      for i := 0 to |file.chunks|
        invariant r == Db(before.storePaths, before.files + [ToRow(id, storePathId, file)],
                          before.chunks + ToChunkRows(id, file.chunks)[..i])
      {
        var c := file.chunks[i];
        var row := ChunkRow(id, c.digest, c.len, c.offset);
        assert ToChunkRows(id, file.chunks)[..i + 1] == ToChunkRows(id, file.chunks)[..i] + [row];
        r := r.(chunks := r.chunks + [row]);
      }
      assert ToChunkRows(id, file.chunks)[..|file.chunks|] == ToChunkRows(id, file.chunks);
    }
    assert storeFiles[..|storeFiles|] == storeFiles;
  }

  // ---------------------------------------------------------------------------
  // Queries after an insertion
  // ---------------------------------------------------------------------------

  lemma ChunksOfSnoc(s: seq<ChunkRow>, c: ChunkRow, id: int)
    ensures ChunksOf(s + [c], id) == ChunksOf(s, id) + (if c.fileId == id then [c] else [])
  {
    assert (s + [c])[..|s|] == s;
  }

  lemma {:induction false} ChunksOfConcat(a: seq<ChunkRow>, b: seq<ChunkRow>, id: int)
    ensures ChunksOf(a + b, id) == ChunksOf(a, id) + ChunksOf(b, id)
  {
    if b == [] {
      assert a + b == a && ChunksOf(b, id) == [];
    } else {
      hide ChunksOf;
      var init, last := b[..|b| - 1], b[|b| - 1];
      assert init + [last] == b && (a + init) + [last] == a + b;
      var tail := if last.fileId == id then [last] else [];
      ChunksOfConcat(a, init, id);
      ChunksOfSnoc(init, last, id);
      ChunksOfSnoc(a + init, last, id);
      Associates(ChunksOf(a, id), ChunksOf(init, id), tail);
    }
  }

  lemma {:induction false} ChunksOfNone(s: seq<ChunkRow>, id: int)
    requires forall c :: c in s ==> c.fileId != id
    ensures ChunksOf(s, id) == []
  {
    if s != [] {
      ChunksOfNone(s[..|s| - 1], id);
    }
  }

  lemma {:induction false} ChunksOfAll(s: seq<ChunkRow>, id: int)
    requires forall c :: c in s ==> c.fileId == id
    ensures ChunksOf(s, id) == s
  {
    if s != [] {
      hide ChunksOf;
      var init, last := s[..|s| - 1], s[|s| - 1];
      assert init + [last] == s && last in s;
      ChunksOfAll(init, id);
      ChunksOfSnoc(init, last, id);
    }
  }

  // A file's chunks are those it was inserted with; other files keep theirs.
  lemma ChunksAfterInsert(db: Db, storePathId: int, f: StoreFile, id: int)
    requires forall c :: c in db.chunks ==> c.fileId != NextId(db.files)
    ensures ChunksOf(Insert(db, storePathId, f).chunks, id) ==
      if id == NextId(db.files) then ToChunkRows(id, f.chunks) else ChunksOf(db.chunks, id)
  {
    hide ChunksOf;
    var rows := ToChunkRows(NextId(db.files), f.chunks);
    ChunksOfConcat(db.chunks, rows, id);
    if id == NextId(db.files) {
      ChunksOfNone(db.chunks, id);
      ChunksOfAll(rows, id);
      assert [] + rows == rows;
    } else {
      ChunksOfNone(rows, id);
      assert ChunksOf(db.chunks, id) + [] == ChunksOf(db.chunks, id);
    }
  }

  lemma FilesAfterInsert(db: Db, storePathId: int, f: StoreFile, storePath: Str)
    requires storePathId in db.storePaths
    ensures
      var rows := FilesOf(db.storePaths, db.files, storePath);
      FilesOf(db.storePaths, Insert(db, storePathId, f).files, storePath) ==
        if db.storePaths[storePathId] == storePath then rows + [ToRow(NextId(db.files), storePathId, f)] else rows
  {
    var files := Insert(db, storePathId, f).files;
    assert files[..|files| - 1] == db.files;
  }

  // A new store path has no files yet, and the others are not affected.
  lemma {:induction false} FilesOfNewPath(storePaths: map<int, Str>, files: seq<FileRow>, id: int, added: Str,
                                          storePath: Str)
    requires id !in storePaths && forall f :: f in files ==> f.storePathId in storePaths
    requires forall i :: i in storePaths ==> storePaths[i] != added
    ensures FilesOf(storePaths[id := added], files, storePath) ==
      if storePath == added then [] else FilesOf(storePaths, files, storePath)
  {
    if files != [] {
      FilesOfNewPath(storePaths, files[..|files| - 1], id, added, storePath);
      assert files[|files| - 1] in files;
    }
  }

  // ---------------------------------------------------------------------------
  // What an insertion keeps and adds
  // ---------------------------------------------------------------------------

  function Inserted(w: World, storePathId: int, f: StoreFile): World {
    w.(db := Insert(w.db, storePathId, f))
  }

  lemma NextIdIsNew(w: World)
    requires w.Indexed()
    ensures NextId(w.db.files) > 0
    ensures forall f :: f in w.db.files ==> f.id < NextId(w.db.files)
    ensures forall c :: c in w.db.chunks ==> c.fileId != NextId(w.db.files)
  {
    hide World.Describes;
    var files := w.db.files;
    forall f | f in files
      ensures f.id < NextId(files)
    {
      var i :| 0 <= i < |files| && files[i] == f;
      assert w.SoundRow(files[|files| - 1]);
      if i < |files| - 1 {
        assert files[i].id < files[|files| - 1].id;
      }
    }
    if files != [] {
      assert w.SoundRow(files[|files| - 1]);
    }
  }

  // Rows that were described stay so.
  lemma DescribedStill(w: World, storePathId: int, f: StoreFile, g: FileRow, e: Entry)
    requires w.Indexed() && g in w.db.files && w.Describes(g, e)
    ensures Inserted(w, storePathId, f).Describes(g, e)
  {
    hide World.Indexed, ChunksOf;
    NextIdIsNew(w);
    ChunksAfterInsert(w.db, storePathId, f, g.id);
  }

  // The entry that a record was read from, and that it fits the machine's integers.
  ghost predicate ReadFrom(w: World, storePathId: int, f: StoreFile, e: Entry) {
    && Chunking.Describes(w.hash, f, e) && e.path != [SLASH] && ValidNode(e.node)
    && f.size < TWO_63 && (e.node.Regular? ==> f.size <= MAX_ALLOC)
    && storePathId in w.db.storePaths && w.db.storePaths[storePathId] + e.path in w.sender
    && w.sender[w.db.storePaths[storePathId] + e.path] == e.node
  }

  lemma AsChunksOfRows(id: int, chunks: seq<FileChunk>)
    ensures AsChunks(ToChunkRows(id, chunks)) == chunks
  {
  }

  lemma NewRowDescribed(w: World, storePathId: int, f: StoreFile, e: Entry)
    requires w.Indexed() && ReadFrom(w, storePathId, f, e)
    ensures
      var row := ToRow(NextId(w.db.files), storePathId, f);
      && Inserted(w, storePathId, f).Describes(row, Entry(DbPath(e.path), e.node))
      && Inserted(w, storePathId, f).SoundRow(row)
  {
    hide World.Indexed, ChunksOf;
    NextIdIsNew(w);
    var id := NextId(w.db.files);
    ChunksAfterInsert(w.db, storePathId, f, id);
    AsChunksOfRows(id, f.chunks);
    assert w.db.storePaths[storePathId] + [] == w.db.storePaths[storePathId];
  }

  lemma UniqueIds(w: World)
    requires w.IdOrder()
    ensures forall f, g :: f in w.db.files && g in w.db.files && f.id == g.id ==> f == g
  {
    forall f, g | f in w.db.files && g in w.db.files && f.id == g.id
      ensures f == g
    {
      var i :| 0 <= i < |w.db.files| && w.db.files[i] == f;
      var j :| 0 <= j < |w.db.files| && w.db.files[j] == g;
      assert i == j;
    }
  }

  lemma StillIndexed(w: World, storePathId: int, f: StoreFile, e: Entry)
    requires w.Indexed() && ReadFrom(w, storePathId, f, e)
    ensures Inserted(w, storePathId, f).Indexed()
  {
    hide World.SoundRow, ReadFrom, World.IdOrder;
    var v := Inserted(w, storePathId, f);
    StillSound(w, storePathId, f, e);
    StillOrdered(w, storePathId, f);
    UniqueIds(v);
    forall c | c in v.db.chunks
      ensures exists g :: g in v.db.files && g.id == c.fileId && g.kind == RegularKind
    {
      StillOwned(w, storePathId, f, e, c);
    }
  }

  lemma StillSound(w: World, storePathId: int, f: StoreFile, e: Entry)
    requires w.Indexed() && ReadFrom(w, storePathId, f, e)
    ensures
      var v := Inserted(w, storePathId, f);
      forall g :: g in v.db.files ==> v.SoundRow(g)
  {
    hide World.Describes, Chunking.Describes, World.IdOrder, ReadFrom;
    var v := Inserted(w, storePathId, f);
    NewRowDescribed(w, storePathId, f, e);
    forall g | g in v.db.files
      ensures v.SoundRow(g)
    {
      if g in w.db.files {
        assert w.SoundRow(g);
        DescribedStill(w, storePathId, f, g, Entry(g.path, w.sender[w.RowPath(g)]));
      }
    }
  }

  lemma StillOrdered(w: World, storePathId: int, f: StoreFile)
    requires w.Indexed()
    ensures Inserted(w, storePathId, f).IdOrder()
  {
    hide World.SoundRow;
    var files, more := w.db.files, Inserted(w, storePathId, f).db.files;
    NextIdIsNew(w);
    forall i, j | 0 <= i < j < |more|
      ensures more[i].id < more[j].id
    {
      assert more[i] == files[i] && files[i] in files;
    }
  }

  // Every chunk row has its file.
  lemma StillOwned(w: World, storePathId: int, f: StoreFile, e: Entry, c: ChunkRow)
    requires w.Indexed() && ReadFrom(w, storePathId, f, e) && c in Inserted(w, storePathId, f).db.chunks
    ensures exists g :: g in Inserted(w, storePathId, f).db.files && g.id == c.fileId && g.kind == RegularKind
  {
    hide World.SoundRow, ReadFrom, World.IdOrder;
    var v := Inserted(w, storePathId, f);
    if c in w.db.chunks {
      var g :| g in w.db.files && g.id == c.fileId && g.kind == RegularKind;
      assert g in v.db.files;
    } else {
      NewChunkRow(w, storePathId, f, e, c);
      assert ToRow(NextId(w.db.files), storePathId, f) in v.db.files;
    }
  }

  lemma NewChunkRow(w: World, storePathId: int, f: StoreFile, e: Entry, c: ChunkRow)
    requires ReadFrom(w, storePathId, f, e) && c in ToChunkRows(NextId(w.db.files), f.chunks)
    ensures c.fileId == NextId(w.db.files) && f.kind == RegularKind
  {
  }

  // ---------------------------------------------------------------------------
  // A whole store path
  // ---------------------------------------------------------------------------

  ghost predicate AllReadFrom(w: World, storePathId: int, files: seq<StoreFile>, l: seq<Entry>) {
    |files| == |l| && forall k :: 0 <= k < |l| ==> ReadFrom(w, storePathId, files[k], l[k])
  }

  // The rows describe the entries, under their paths in the database.
  ghost predicate RowsDescribe(w: World, rows: seq<FileRow>, l: seq<Entry>) {
    |rows| == |l| && forall k :: 0 <= k < |l| ==> w.Describes(rows[k], Entry(DbPath(l[k].path), l[k].node))
  }

  lemma RowsDescribeStill(w: World, storePathId: int, f: StoreFile, rows: seq<FileRow>, l: seq<Entry>)
    requires w.Indexed() && RowsDescribe(w, rows, l) && forall r :: r in rows ==> r in w.db.files
    ensures RowsDescribe(Inserted(w, storePathId, f), rows, l)
  {
    hide World.Indexed, World.Describes;
    forall k | 0 <= k < |l|
      ensures Inserted(w, storePathId, f).Describes(rows[k], Entry(DbPath(l[k].path), l[k].node))
    {
      assert rows[k] in rows;
      DescribedStill(w, storePathId, f, rows[k], Entry(DbPath(l[k].path), l[k].node));
    }
  }

  function InsertedAll(w: World, storePathId: int, files: seq<StoreFile>): World {
    w.(db := InsertAll(w.db, storePathId, files))
  }

  // One more record: its row is described, and so are all rows already there.
  lemma InsertStep(w: World, storePathId: int, storePath: Str, f: StoreFile, e: Entry, l: seq<Entry>)
    requires w.Indexed() && ReadFrom(w, storePathId, f, e) && w.db.storePaths[storePathId] == storePath
    requires RowsDescribe(w, FilesOf(w.db.storePaths, w.db.files, storePath), l)
    ensures
      var v := Inserted(w, storePathId, f);
      v.Indexed() && RowsDescribe(v, FilesOf(v.db.storePaths, v.db.files, storePath), l + [e])
  {
    hide World.Indexed, World.Describes, ReadFrom, FilesOf;
    assert storePathId in w.db.storePaths by {
      ReadFromPath(w, storePathId, f, e);
    }
    StillIndexed(w, storePathId, f, e);
    FilesAfterInsert(w.db, storePathId, f, storePath);
    RowsDescribeStill(w, storePathId, f, FilesOf(w.db.storePaths, w.db.files, storePath), l);
    NewRowDescribed(w, storePathId, f, e);
  }

  lemma ReadFromPath(w: World, storePathId: int, f: StoreFile, e: Entry)
    requires ReadFrom(w, storePathId, f, e)
    ensures storePathId in w.db.storePaths
  {
  }

  lemma ReadInit(w: World, storePathId: int, files: seq<StoreFile>, l: seq<Entry>)
    requires AllReadFrom(w, storePathId, files, l) && files != []
    ensures |files| == |l| && AllReadFrom(w, storePathId, files[..|files| - 1], l[..|l| - 1])
    ensures l[..|l| - 1] + [l[|l| - 1]] == l
    ensures ReadFrom(w, storePathId, files[|files| - 1], l[|l| - 1])
  {
    hide ReadFrom;
  }

  // What was read does not depend on the rows.
  lemma ReadFromSame(w: World, v: World, storePathId: int, f: StoreFile, e: Entry)
    requires ReadFrom(w, storePathId, f, e) && v == w.(db := v.db) && v.db.storePaths == w.db.storePaths
    ensures ReadFrom(v, storePathId, f, e)
  {
  }

  lemma NothingDescribed(w: World, storePathId: int, l: seq<Entry>)
    requires AllReadFrom(w, storePathId, [], l)
    ensures RowsDescribe(w, [], l)
  {
  }

  lemma {:induction false} InsertAllDescribes(w: World, storePathId: int, storePath: Str, files: seq<StoreFile>,
                                              l: seq<Entry>)
    requires w.Indexed() && AllReadFrom(w, storePathId, files, l)
    requires storePathId in w.db.storePaths && w.db.storePaths[storePathId] == storePath
    requires FilesOf(w.db.storePaths, w.db.files, storePath) == []
    ensures
      var v := InsertedAll(w, storePathId, files);
      && v.Indexed() && v.db.storePaths == w.db.storePaths
      && RowsDescribe(v, FilesOf(v.db.storePaths, v.db.files, storePath), l)
  {
    hide World.Indexed, World.Describes, FilesOf, ReadFrom, AllReadFrom, RowsDescribe;
    if files == [] {
      NothingDescribed(w, storePathId, l);
    } else {
      var n := |files| - 1;
      ReadInit(w, storePathId, files, l);
      var f, e := files[n], l[n];
      InsertAllDescribes(w, storePathId, storePath, files[..n], l[..n]);
      ReadFromSame(w, InsertedAll(w, storePathId, files[..n]), storePathId, f, e);
      InsertStep(InsertedAll(w, storePathId, files[..n]), storePathId, storePath, f, e, l[..n]);
    }
  }

  // Other store paths keep their rows and what these describe.
  lemma {:induction false} InsertAllKeeps(w: World, storePathId: int, files: seq<StoreFile>, l: seq<Entry>, other: Str)
    requires w.Indexed() && AllReadFrom(w, storePathId, files, l)
    requires storePathId in w.db.storePaths && w.db.storePaths[storePathId] != other && w.Lists(other)
    ensures InsertedAll(w, storePathId, files).Lists(other) && InsertedAll(w, storePathId, files).Indexed()
    ensures InsertedAll(w, storePathId, files).db.storePaths == w.db.storePaths
  {
    if files != [] {
      var n := |files| - 1;
      assert ReadFrom(w, storePathId, files[n], l[n]);
      InsertAllKeeps(w, storePathId, files[..n], l[..n], other);
      ListsStill(InsertedAll(w, storePathId, files[..n]), storePathId, files[n], l[n], other);
    }
  }

  lemma ListsStill(w: World, storePathId: int, f: StoreFile, e: Entry, other: Str)
    requires w.Indexed() && ReadFrom(w, storePathId, f, e) && w.db.storePaths[storePathId] != other && w.Lists(other)
    ensures Inserted(w, storePathId, f).Lists(other) && Inserted(w, storePathId, f).Indexed()
  {
    hide World.Indexed, World.Describes, FilesOf, Listing;
    StillIndexed(w, storePathId, f, e);
    FilesAfterInsert(w.db, storePathId, f, other);
    var rows, l := FilesOf(w.db.storePaths, w.db.files, other), Listing(w.sender[other]);
    forall k | 0 <= k < |l|
      ensures Inserted(w, storePathId, f).Describes(rows[k], l[k])
    {
      assert rows[k] in rows;
      DescribedStill(w, storePathId, f, rows[k], l[k]);
    }
  }

  // ---------------------------------------------------------------------------
  // From a tree in the store to its listing in the database
  // ---------------------------------------------------------------------------

  // The sender has the tree at the path.
  ghost predicate Mounted(sender: map<Str, Node>, storePath: Str, root: Node) {
    forall k :: 0 <= k < |List([], root)| ==> MountedAt(sender, storePath, List([], root)[k])
  }

  predicate MountedAt(sender: map<Str, Node>, storePath: Str, e: Entry) {
    storePath + e.path in sender && sender[storePath + e.path] == e.node
  }

  // Sizes are int64, and contents fit memory.
  ghost predicate SizesFit(root: Node) {
    forall k :: 0 <= k < |List([], root)| ==> EntryFits(List([], root)[k])
  }

  predicate EntryFits(e: Entry) {
    match e.node
    case Regular(content, _) => |content| <= MAX_ALLOC
    case Symlink(target) => |target| < TWO_63
    case Directory(size, _) => size < TWO_63
  }

  // Every tree below a valid one is valid, and no path is just a slash.
  lemma {:induction false} ListValid(p: Str, n: Node, k: nat)
    requires ValidNode(n) && k < |List(p, n)| && p != [SLASH]
    ensures ValidNode(List(p, n)[k].node) && List(p, n)[k].path != [SLASH]
    decreases n, 1
  {
    if k > 0 {
      ListAllValid(p, n.entries, k - 1);
    }
  }

  lemma {:induction false} ListAllValid(p: Str, es: seq<DirEntry>, k: nat)
    requires ValidEntries(es) && k < |ListAll(p, es)|
    ensures ValidNode(ListAll(p, es)[k].node) && ListAll(p, es)[k].path != [SLASH]
    decreases es, 0
  {
    var c := Child(p, es[0].name);
    var first := List(c, es[0].node);
    if k < |first| {
      assert |c| > 1;
      ListValid(c, es[0].node, k);
    } else {
      ListAllValid(p, es[1..], k - |first|);
    }
  }

  // The listing is the flattened tree with the root's path renamed.
  lemma ListingRenames(root: Node, k: nat)
    requires k < |List([], root)|
    ensures |Listing(root)| == |List([], root)|
    ensures Listing(root)[k] == Entry(DbPath(List([], root)[k].path), List([], root)[k].node)
  {
    if k > 0 {
      ListingPathsNonempty(root, k);
      assert List([], root)[k] == Below([], root)[k - 1] == Listing(root)[k];
    }
  }

  function WithPath(w: World, storePathId: int, storePath: Str): World {
    w.(db := w.db.(storePaths := w.db.storePaths[storePathId := storePath]))
  }

  ghost predicate NewPath(w: World, storePathId: int, storePath: Str) {
    storePathId !in w.db.storePaths && forall i :: i in w.db.storePaths ==> w.db.storePaths[i] != storePath
  }

  lemma PathAdded(w: World, storePathId: int, storePath: Str)
    requires w.Indexed() && NewPath(w, storePathId, storePath)
    ensures
      var v := WithPath(w, storePathId, storePath);
      && v.Indexed() && FilesOf(v.db.storePaths, v.db.files, storePath) == []
      && forall p :: p != storePath && w.Lists(p) ==> v.Lists(p)
  {
    hide World.Describes, FilesOf, Listing;
    var v := WithPath(w, storePathId, storePath);
    forall f | f in w.db.files
      ensures f.storePathId in w.db.storePaths && v.SoundRow(f)
    {
      assert w.SoundRow(f);
      SameRow(w, storePathId, storePath, f, Entry(f.path, w.sender[w.RowPath(f)]));
    }
    FilesOfNewPath(w.db.storePaths, w.db.files, storePathId, storePath, storePath);
    forall p | p != storePath && w.Lists(p)
      ensures v.Lists(p)
    {
      FilesOfNewPath(w.db.storePaths, w.db.files, storePathId, storePath, p);
      var rows, l := FilesOf(w.db.storePaths, w.db.files, p), Listing(w.sender[p]);
      forall k | 0 <= k < |l|
        ensures v.Describes(rows[k], l[k])
      {
        assert rows[k] in rows;
        SameRow(w, storePathId, storePath, rows[k], l[k]);
      }
    }
  }

  lemma SameRow(w: World, storePathId: int, storePath: Str, f: FileRow, e: Entry)
    requires storePathId !in w.db.storePaths && w.Describes(f, e)
    ensures WithPath(w, storePathId, storePath).Describes(f, e)
  {
  }

  lemma TreeReadFrom(w: World, storePathId: int, storePath: Str, root: Node, files: seq<StoreFile>)
    requires storePathId in w.db.storePaths && w.db.storePaths[storePathId] == storePath
    requires ValidNode(root) && Mounted(w.sender, storePath, root) && SizesFit(root)
    requires DescribesAll(w.hash, files, List([], root))
    ensures AllReadFrom(w, storePathId, files, List([], root))
  {
    hide ValidNode, NodeDigest, Tiles;
    var l := List([], root);
    forall k | 0 <= k < |l|
      ensures ReadFrom(w, storePathId, files[k], l[k])
    {
      ListValid([], root, k);
      assert Chunking.Describes(w.hash, files[k], l[k]) && MountedAt(w.sender, storePath, l[k]) && EntryFits(l[k]);
    }
  }

  lemma RowsList(v: World, storePath: Str, root: Node)
    requires ValidNode(root) && Mounted(v.sender, storePath, root)
    requires RowsDescribe(v, FilesOf(v.db.storePaths, v.db.files, storePath), List([], root))
    ensures v.Lists(storePath)
  {
    hide World.Describes, FilesOf, ValidNode;
    assert MountedAt(v.sender, storePath, List([], root)[0]) && storePath + [] == storePath;
    forall k | 0 <= k < |List([], root)|
      ensures |Listing(root)| == |List([], root)|
      ensures Listing(root)[k] == Entry(DbPath(List([], root)[k].path), List([], root)[k].node)
    {
      ListingRenames(root, k);
    }
    assert |Listing(root)| == |List([], root)|;
  }

  /** Indexing what ReadPath returns for a store path keeps the database as packing needs it
      and lists the store path's own tree, next to all that were listed before. */
  lemma IndexingLists(w: World, storePathId: int, storePath: Str, root: Node, files: seq<StoreFile>)
    requires w.Indexed() && NewPath(w, storePathId, storePath)
    requires ValidNode(root) && Mounted(w.sender, storePath, root) && SizesFit(root)
    requires DescribesAll(w.hash, files, List([], root))
    ensures
      var v := w.(db := IndexPath(w.db, storePathId, storePath, files));
      && v.Indexed() && v.db.storePaths == w.db.storePaths[storePathId := storePath]
      && v.Lists(storePath) && forall p :: w.Lists(p) && p != storePath ==> v.Lists(p)
  {
    hide World.Indexed, World.Lists, FilesOf, Mounted, DescribesAll, ValidNode, AllReadFrom, RowsDescribe, SizesFit;
    PathAdded(w, storePathId, storePath);
    var u := WithPath(w, storePathId, storePath);
    TreeReadFrom(u, storePathId, storePath, root, files);
    InsertAllDescribes(u, storePathId, storePath, files, List([], root));
    RowsList(InsertedAll(u, storePathId, files), storePath, root);
    forall p | w.Lists(p) && p != storePath
      ensures InsertedAll(u, storePathId, files).Lists(p)
    {
      InsertAllKeeps(u, storePathId, files, List([], root), p);
    }
  }

  /** Reading a store path and inserting what was read does that, for every chunker. */
  method IndexStorePath(w: World, cdc: Chunker, storePathId: int, storePath: Str, root: Node) returns (db: Db)
    requires w.Indexed() && NewPath(w, storePathId, storePath) && CutsPrefix(cdc)
    requires ValidNode(root) && Mounted(w.sender, storePath, root) && SizesFit(root)
    ensures
      var v := w.(db := db);
      && v.Indexed() && v.db.storePaths == w.db.storePaths[storePathId := storePath]
      && v.Lists(storePath) && forall p :: w.Lists(p) && p != storePath ==> v.Lists(p)
  {
    hide World.Indexed, World.Lists, Mounted, SizesFit, DescribesAll, ValidNode, NewPath, IndexPath;
    assert storePath + [] == storePath;
    var files := ReadPath(w.hash, cdc, storePath, storePath, root, []);
    IndexingLists(w, storePathId, storePath, root, files);
    db := Index(w.db, storePathId, storePath, files);
  }

  // ---------------------------------------------------------------------------
  // All store paths
  // ---------------------------------------------------------------------------

  ghost predicate Stored(db: Db, storePath: Str) {
    exists id :: id in db.storePaths && db.storePaths[id] == storePath
  }

  // The database is as packing needs it, and every store path in it is listed.
  ghost predicate Complete(w: World) {
    w.Indexed() && forall p :: Stored(w.db, p) ==> w.Lists(p)
  }

  // A store path that can be indexed: its tree is in the store.
  ghost predicate Readable(sender: map<Str, Node>, storePath: Str) {
    && storePath in sender && ValidNode(sender[storePath])
    && Mounted(sender, storePath, sender[storePath]) && SizesFit(sender[storePath])
  }

  ghost predicate AllReadable(sender: map<Str, Node>, storePaths: seq<Str>) {
    forall p :: p in storePaths ==> Readable(sender, p)
  }

  ghost predicate NoneTwice(s: seq<Str>) {
    forall i, j :: 0 <= i < j < |s| ==> s[i] != s[j]
  }

  // The row id of the next store path: above all others.
  method NextPathId(storePaths: map<int, Str>) returns (id: int)
    ensures id > 0 && forall i :: i in storePaths ==> i < id
  {
    id := 1;
    var ids := storePaths.Keys;
    while ids != {}
      invariant id > 0 && ids <= storePaths.Keys
      invariant forall i :: i in storePaths && i !in ids ==> i < id
      decreases ids
    {
      SomeMember(ids);
      var i :| i in ids;
      if i >= id {
        id := i + 1;
      }
      ids := ids - {i};
    }
  }

  // GetStorePath.
  method HasPath(storePaths: map<int, Str>, storePath: Str) returns (found: bool)
    ensures found <==> exists id :: id in storePaths && storePaths[id] == storePath
  {
    var rows := set id | id in storePaths && storePaths[id] == storePath;
    SomeMember(rows);
    found := rows != {};
    assert forall id :: id in storePaths && storePaths[id] == storePath ==> id in rows;
  }

  // The requisites that the database does not have yet.
  method Unindexed(db: Db, requisites: seq<Str>) returns (newRequisites: seq<Str>)
    requires NoneTwice(requisites)
    ensures NoneTwice(newRequisites) && forall p :: p in newRequisites <==> p in requisites && !Stored(db, p)
  {
    newRequisites := [];
    for k := 0 to |requisites|
      invariant NoneTwice(newRequisites)
      invariant forall p :: p in newRequisites <==> p in requisites[..k] && !Stored(db, p)
    {
      assert requisites[..k + 1] == requisites[..k] + [requisites[k]];
      assert requisites[k] !in requisites[..k];
      var found := HasPath(db.storePaths, requisites[k]);
      if !found {
        newRequisites := newRequisites + [requisites[k]];
      }
    }
    assert requisites[..|requisites|] == requisites;
  }

  lemma OnePathMore(w: World, db: Db, id: int, storePath: Str)
    requires Complete(w) && NewPath(w, id, storePath) && db.storePaths == w.db.storePaths[id := storePath]
    requires
      var v := w.(db := db);
      v.Indexed() && v.Lists(storePath) && forall p :: w.Lists(p) && p != storePath ==> v.Lists(p)
    ensures Complete(w.(db := db))
    ensures forall p :: Stored(db, p) <==> p == storePath || Stored(w.db, p)
  {
    hide World.Indexed, World.Lists;
    forall p
      ensures Stored(db, p) <==> p == storePath || Stored(w.db, p)
    {
      if Stored(w.db, p) {
        var i :| i in w.db.storePaths && w.db.storePaths[i] == p;
        assert i in db.storePaths && db.storePaths[i] == p;
      }
      assert id in db.storePaths && db.storePaths[id] == storePath;
    }
  }

  /** Indexing keeps the database complete: whatever was in it, afterwards it holds exactly
      the requisites besides, and lists the tree of every store path it holds. */
  method IndexPaths(w: World, cdc: Chunker, requisites: seq<Str>) returns (db: Db)
    requires Complete(w) && CutsPrefix(cdc) && NoneTwice(requisites) && AllReadable(w.sender, requisites)
    ensures Complete(w.(db := db))
    ensures forall p :: Stored(db, p) <==> p in requisites || Stored(w.db, p)
  {
    hide World.Indexed, World.Lists, Mounted, SizesFit, ValidNode, Complete, Stored;
    var newRequisites := Unindexed(w.db, requisites);
    db := w.db;
    for k := 0 to |newRequisites|
      invariant Complete(w.(db := db))
      invariant forall p :: Stored(db, p) <==> p in newRequisites[..k] || Stored(w.db, p)
    {
      var path := newRequisites[k];
      var v := w.(db := db);
      assert newRequisites[..k + 1] == newRequisites[..k] + [path];
      assert path in newRequisites && Readable(w.sender, path);
      var id := NextPathId(db.storePaths);
      assert v.Indexed() && NewPath(v, id, path) by {
        NotStored(v, id, path);
      }
      var more := IndexStorePath(v, cdc, id, path, w.sender[path]);
      OnePathMore(v, more, id, path);
      db := more;
    }
    assert newRequisites[..|newRequisites|] == newRequisites;
  }

  lemma NotStored(w: World, id: int, storePath: Str)
    requires Complete(w) && !Stored(w.db, storePath) && forall i :: i in w.db.storePaths ==> i < id
    ensures w.Indexed() && NewPath(w, id, storePath)
  {
  }

  /** A new database is complete. */
  lemma EmptyComplete(w: World)
    requires w.db == Db(map[], [], [])
    ensures Complete(w)
  {
  }

  // So, from a new database on, every store path that was ever indexed is listed.
  method IndexAll(w: World, cdc: Chunker, requisites: seq<Str>) returns (v: World)
    requires CutsPrefix(cdc) && NoneTwice(requisites) && AllReadable(w.sender, requisites)
    ensures v == w.(db := v.db) && v.Indexed() && forall p :: p in requisites ==> v.Lists(p)
  {
    hide AllReadable, World.Indexed, World.Lists;
    var empty := w.(db := Db(map[], [], []));
    EmptyComplete(empty);
    var db := IndexPaths(empty, cdc, requisites);
    v := w.(db := db);
  }
}
