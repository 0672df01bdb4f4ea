/** The hypotheses of the end-to-end theorem can be met: two store paths, each a regular file
    of one chunk with any contents, of which the target has the first and gets the second. */
module Example {
  import opened Prelude
  import opened Tree
  import opened DeltaWire
  import opened Chunking
  import opened Database
  import opened Dnar
  import opened Tables
  import opened Packer
  import opened WriteDnar
  import opened Pipeline

  const OLD: Str := [SLASH, 97]
  const NEW: Str := [SLASH, 98]

  // With digests that are the contents themselves, nothing collides.
  function Row(id: int, content: Bytes): FileRow {
    FileRow(id, id, [SLASH], |content|, RegularKind, [], false, Some(content))
  }

  function Chunk(id: int, content: Bytes): ChunkRow {
    ChunkRow(id, content, |content|, 0)
  }

  function TwoPaths(a: Bytes, b: Bytes): World {
    World(Db(map[1 := OLD, 2 := NEW], [Row(1, a), Row(2, b)], [Chunk(1, a), Chunk(2, b)]), {OLD}, (x: Bytes) => x,
          WireCodec(), map[OLD := Regular(a, false), NEW := Regular(b, false)])
  }

  function Held(a: Bytes): map<Str, Node> {
    map[OLD := Regular(a, false)]
  }

  lemma OneTile(h: Hash, content: Bytes, c: ChunkRow)
    requires c.hash == h(content) && c.size == |content| && c.offset == 0
    ensures Tiles(h, AsChunks([c]), content, |content|)
  {
    var chunks := AsChunks([c]);
    assert chunks[..0] == [] && content[0..|content|] == content;
    assert Extent(chunks) == |content|;
    assert TileAt(h, chunks, content, 0);
  }

  lemma ChunksOfPair(c: ChunkRow, d: ChunkRow)
    requires c.fileId != d.fileId
    ensures ChunksOf([c, d], c.fileId) == [c] && ChunksOf([c, d], d.fileId) == [d]
  {
    assert [c, d][..1] == [c] && [c][..0] == [];
    assert ChunksOf([c], c.fileId) == [] + [c] == [c];
    assert ChunksOf([c], d.fileId) == [] + [] == [];
  }

  lemma FilesOfPair(storePaths: map<int, Str>, f: FileRow, g: FileRow)
    requires f.storePathId in storePaths && g.storePathId in storePaths
    requires storePaths[f.storePathId] != storePaths[g.storePathId]
    ensures FilesOf(storePaths, [f, g], storePaths[g.storePathId]) == [g]
  {
    assert [f, g][..1] == [f] && [f][..0] == [];
    assert FilesOf(storePaths, [f], storePaths[g.storePathId]) == [] + [] == [];
  }

  lemma QueryRows(a: Bytes, b: Bytes)
    ensures
      var db := TwoPaths(a, b).db;
      && ChunksOf(db.chunks, 1) == [Chunk(1, a)] && ChunksOf(db.chunks, 2) == [Chunk(2, b)]
      && FilesOf(db.storePaths, db.files, NEW) == [Row(2, b)]
  {
    hide ChunksOf, FilesOf;
    ChunksOfPair(Chunk(1, a), Chunk(2, b));
    assert NEW[1] != OLD[1];
    FilesOfPair(TwoPaths(a, b).db.storePaths, Row(1, a), Row(2, b));
  }

  lemma RowsDescribe(a: Bytes, b: Bytes)
    requires |a| <= MAX_ALLOC && |b| <= MAX_ALLOC
    ensures var w := TwoPaths(a, b);
      && w.Describes(Row(1, a), Entry([SLASH], Regular(a, false)))
      && w.Describes(Row(2, b), Entry([SLASH], Regular(b, false)))
  {
    QueryRows(a, b);
    var w := TwoPaths(a, b);
    OneTile(w.hash, a, Chunk(1, a));
    OneTile(w.hash, b, Chunk(2, b));
    assert NEW[1] != OLD[1];
    assert w.RowPath(Row(1, a)) == OLD && w.RowPath(Row(2, b)) == NEW;
  }

  lemma ExampleIndexed(a: Bytes, b: Bytes)
    requires |a| <= MAX_ALLOC && |b| <= MAX_ALLOC
    ensures TwoPaths(a, b).Indexed()
  {
    var w := TwoPaths(a, b);
    RowsDescribe(a, b);
    hide World.Describes;
    assert NEW[1] != OLD[1];
    assert w.RowPath(Row(1, a)) == OLD && w.RowPath(Row(2, b)) == NEW;
    assert w.SoundRow(Row(1, a)) && w.SoundRow(Row(2, b));
    assert w.db.files[0] == Row(1, a) && w.db.files[1] == Row(2, b);
  }

  lemma ExampleSound(a: Bytes, b: Bytes)
    requires |a| <= MAX_ALLOC && |b| <= MAX_ALLOC
    ensures Sound(TwoPaths(a, b), Held(a))
  {
    var w := TwoPaths(a, b);
    hide World.HasContent, World.ChunkBytes, World.Describes;
    ExampleIndexed(a, b);
    WireCodecFaithful();
    forall f | f in w.db.files && w.IsLocal(f)
      ensures HeldBy(w, Held(a), f)
    {
      assert NEW[1] != OLD[1];
      assert f == Row(1, a);
      assert w.RowPath(f) == OLD;
    }
  }

  lemma ExampleListed(a: Bytes, b: Bytes)
    requires |a| <= MAX_ALLOC && |b| <= MAX_ALLOC
    ensures Listing(Regular(b, false)) == [Entry([SLASH], Regular(b, false))] && TwoPaths(a, b).Lists(NEW)
  {
    hide World.Describes, ChunksOf, FilesOf;
    RowsDescribe(a, b);
    QueryRows(a, b);
    assert Below([], Regular(b, false)) == [];
    assert NEW[1] != OLD[1];
  }

  lemma ExampleMatches(a: Bytes, b: Bytes)
    requires |a| <= MAX_ALLOC && |b| <= MAX_ALLOC
    ensures TwoPaths(a, b).Lists(NEW) && RightMatches(TwoPaths(a, b), NEW) && NothingLost(TwoPaths(a, b), NEW)
  {
    hide World.Lists, ChunksOf, FilesOf, Listing;
    var w, e := TwoPaths(a, b), Entry([SLASH], Regular(b, false));
    ExampleListed(a, b);
    assert w.sender[NEW] == Regular(b, false);
    assert MatchesRight(w, e);
    assert Listing(w.sender[NEW]) == [e];
  }

  lemma OneCost(w: World, storePath: Str, f: FileRow, c: ChunkRow)
    requires FilesOf(w.db.storePaths, w.db.files, storePath) == [f] && ChunksOf(w.db.chunks, f.id) == [c]
    ensures PathsCost(w, [storePath]) == 3
  {
    hide ChunksOf, FilesOf;
    assert [f][..0] == [] && [storePath][..0] == [];
    assert RowsCost(w, [f]) == 0 + Cost(w, f);
  }

  /** What Deploy asks of its inputs is consistent, for any two contents. */
  lemma PackingIsPossible(a: Bytes, b: Bytes)
    requires |a| <= MAX_ALLOC && |b| <= MAX_ALLOC
    ensures
      var w := TwoPaths(a, b);
      CanPack(w, Held(a), [NEW]) && AllRight(w, [NEW]) && NothingLost(w, NEW)
  {
    hide Sound, RightMatches, World.Lists, NothingLost, PathsCost;
    ExampleSound(a, b);
    ExampleListed(a, b);
    ExampleMatches(a, b);
    QueryRows(a, b);
    OneCost(TwoPaths(a, b), NEW, Row(2, b), Chunk(2, b));
  }

  // ---------------------------------------------------------------------------
  // A match of the wrong type
  // ---------------------------------------------------------------------------

  // The target has an empty directory and gets an empty file; both have the digest of nothing.
  function EmptyRow(h: Hash): FileRow {
    FileRow(2, 2, [SLASH], 0, RegularKind, [], false, Some(h([])))
  }

  function DirectoryRow(h: Hash, size: nat): FileRow {
    FileRow(1, 1, [SLASH], size, DirectoryKind, [], false, Some(h([])))
  }

  function Clash(h: Hash, size: nat): World {
    World(Db(map[1 := OLD, 2 := NEW], [DirectoryRow(h, size), EmptyRow(h)], []), {OLD}, h, WireCodec(),
          map[OLD := Directory(size, []), NEW := Regular([], false)])
  }

  lemma ClashDescribed(h: Hash, size: nat)
    requires size <= MAX_ALLOC
    ensures Clash(h, size).Describes(DirectoryRow(h, size), Entry([SLASH], Directory(size, [])))
    ensures Clash(h, size).Describes(EmptyRow(h), Entry([SLASH], Regular([], false)))
    ensures Clash(h, size).RowPath(DirectoryRow(h, size)) == OLD && Clash(h, size).RowPath(EmptyRow(h)) == NEW
  {
    var w := Clash(h, size);
    assert NEW[1] != OLD[1];
    EmptyDirectoryAsFile(h, [], [], size, false);
    assert ChunksOf(w.db.chunks, 2) == [] && AsChunks([]) == [];
    NoTiles(h, []);
  }

  lemma ClashSound(h: Hash, size: nat)
    requires size <= MAX_ALLOC
    ensures Sound(Clash(h, size), map[OLD := Directory(size, [])])
  {
    var w := Clash(h, size);
    hide World.Describes, Bare;
    ClashDescribed(h, size);
    WireCodecFaithful();
    assert NEW[1] != OLD[1];
    assert ValidNode(Directory(size, [])) && ValidNode(Regular([], false)) by {
      assert ValidEntries([]);
    }
    assert w.db.files[0] == DirectoryRow(h, size) && w.db.files[1] == EmptyRow(h);
    assert w.SoundRow(DirectoryRow(h, size)) && w.SoundRow(EmptyRow(h));
    forall f | f in w.db.files && w.IsLocal(f)
      ensures HeldBy(w, map[OLD := Directory(size, [])], f)
    {
      assert f == DirectoryRow(h, size);
    }
  }

  lemma ClashListed(h: Hash, size: nat)
    requires size <= MAX_ALLOC
    ensures FilesOf(Clash(h, size).db.storePaths, Clash(h, size).db.files, NEW) == [EmptyRow(h)]
    ensures Listing(Regular([], false)) == [Entry([SLASH], Regular([], false))] && Clash(h, size).Lists(NEW)
  {
    hide World.Describes, FilesOf;
    ClashDescribed(h, size);
    assert NEW[1] != OLD[1];
    FilesOfPair(Clash(h, size).db.storePaths, DirectoryRow(h, size), EmptyRow(h));
    assert Below([], Regular([], false)) == [];
  }

  lemma NoChunksCost(w: World, storePath: Str, f: FileRow)
    requires FilesOf(w.db.storePaths, w.db.files, storePath) == [f] && ChunksOf(w.db.chunks, f.id) == []
    ensures PathsCost(w, [storePath]) == 1
  {
    hide ChunksOf, FilesOf;
    assert [f][..0] == [] && [storePath][..0] == [];
    assert RowsCost(w, [f]) == 0 + Cost(w, f);
  }

  /** With any hash function: the only match for the empty file is the directory, reading the
      directory as a file fails as its recorded size is not zero, and so no unpacking
      restores the file, although all else is in order. */
  lemma EmptyFileIsLost(h: Hash, size: nat, t: Target, index: uint64)
    requires 0 < size <= MAX_ALLOC
    requires t.store == map[OLD := Directory(size, [])] && index < |t.inputs| && t.inputs[index] == OLD
    ensures
      var w, e := Clash(h, size), Entry([SLASH], Regular([], false));
      && CanPack(w, map[OLD := Directory(size, [])], [NEW]) && !AllRight(w, [NEW])
      && w.Known(h([])) && (forall g :: g in w.db.files && SameHash(w, e, g) ==> g == DirectoryRow(h, size))
      && Decode(FdChunk(index, size, 0, h([])), t) == Err
  {
    var w, e := Clash(h, size), Entry([SLASH], Regular([], false));
    hide Sound, World.Lists, FilesOf, World.Describes, PathsCost, Listing;
    ClashSound(h, size);
    ClashListed(h, size);
    NoChunksCost(w, NEW, EmptyRow(h));
    assert NEW[1] != OLD[1];
    var g := DirectoryRow(h, size);
    assert w.db.files[0] == g && w.IsLocal(g);
    ClashWrong(h, size, g);
  }

  lemma ClashWrong(h: Hash, size: nat, g: FileRow)
    requires 0 < size <= MAX_ALLOC && Clash(h, size).Lists(NEW) && g == DirectoryRow(h, size)
    requires Listing(Regular([], false)) == [Entry([SLASH], Regular([], false))]
    requires SameHash(Clash(h, size), Entry([SLASH], Regular([], false)), g)
    ensures !AllRight(Clash(h, size), [NEW])
  {
    hide World.Lists, Listing;
    var w, e := Clash(h, size), Entry([SLASH], Regular([], false));
    assert w.sender[NEW] == e.node by {
      assert NEW[1] != OLD[1];
    }
    assert g == w.db.files[0] && !MatchRight(w, e, g);
    var l := Listing(w.sender[NEW]);
    assert l[0] == e;
    assert !RightIfKept(w, l, 0);
    assert NEW in [NEW];
  }
}
