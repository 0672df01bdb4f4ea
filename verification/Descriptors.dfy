/** One regular file as chunk descriptors (internal/cmd/dnar-pack/dnar.go): each descriptor,
    read against the tables of the moment, denotes its own slice of the file. */
module Descriptors {
  import opened Prelude
  import opened Tree
  import opened Chunking
  import opened Delta
  import opened DeltaIndex
  import opened Patcher
  import opened Database
  import opened LocalIndex
  import opened DeltaWorkers
  import opened Dnar
  import opened TableLists
  import opened Emission
  import opened Tables

  const REF_SIZE_FACTOR := 4
  const REF_SIZE_FLOOR := 0x100_0000  // 16 MiB

  // ---------------------------------------------------------------------------
  // A single chunk
  // ---------------------------------------------------------------------------

  // data is what the chunk row c stands for.
  ghost predicate Stands(w: World, c: ChunkRow, data: Bytes) {
    w.ChunkBytes(c, data) && c.hash == w.hash(data) && |data| == c.size <= MAX_ALLOC
  }

  lemma LocalRead(w: World, target: map<Str, Node>, g: FileRow, content: Bytes, size: nat, offset: nat)
    requires Sound(w, target) && w.HasContent(g, content) && offset + size <= |content| <= MAX_ALLOC
    ensures w.IsLocal(g) ==> ReadRange(target, InputPath(w, g), size, offset) == Ok(content[offset..offset + size])
    ensures w.IsLocal(g) ==> ReadWhole(target, InputPath(w, g)) == Ok(content)
  {
    hide World.Indexed, World.CollisionFree;
    if w.IsLocal(g) {
      assert HeldBy(w, target, g);
      assert size == 0 ==> content[offset..offset + size] == [];
    }
  }

  // Reading the local chunk on the target gives the bytes of the chunk it matched.
  lemma LocalChunkRead(w: World, target: map<Str, Node>, m: MatchedChunk, lc: ChunkRow, g: FileRow, c: ChunkRow,
                       data: Bytes)
    requires Sound(w, target) && RowFor(w, m, c) && IsMatch(w, m, lc) && Stands(w, c, data)
    requires g in w.db.files && g.id == lc.fileId
    ensures w.IsLocal(g) && m.localSize < TWO_64 && m.localOffset < TWO_64
    ensures ReadRange(target, InputPath(w, g), m.localSize, m.localOffset) == Ok(data)
  {
    hide World.Indexed, InputPath;
    var f, content := AnyChunkRow(w, lc);
    SameId(w, target, f, g);
    LocalRead(w, target, g, content, m.localSize, m.localOffset);
    var l :| l in w.db.files && w.IsLocal(l) && l.id == lc.fileId;
    SameId(w, target, l, g);
    var slice := content[lc.offset..lc.offset + lc.size];
    assert w.ChunkBytes(lc, slice) && w.hash(slice) == w.hash(data);
    assert slice == data;
  }

  lemma DecodeFd(t: Target, index: uint64, size: uint64, offset: uint64, digest: Digest, data: Bytes)
    requires index < |t.inputs| && ReadRange(t.store, t.inputs[index], size, offset) == Ok(data)
    ensures Decode(FdChunk(index, size, offset, digest), t) == Ok(data)
  {
  }

  lemma DecodeCa(t: Target, index: uint64, data: Bytes)
    requires index < |t.payloads| <= MAX_ALLOC && t.payloads[index] == data
    ensures Decode(CaChunk(index), t) == Ok(data)
  {
  }

  lemma DecodeDelta(t: Target, index: uint64, digest: Digest, deltaIndex: uint64, base: Bytes, delta: Bytes,
                    data: Bytes)
    requires index < |t.inputs| && ReadWhole(t.store, t.inputs[index]) == Ok(base) && |base| <= MAX_ALLOC
    requires deltaIndex < |t.payloads| <= MAX_ALLOC && t.payloads[deltaIndex] == delta && |data| <= MAX_ALLOC
    requires Slice(base, |base|, 0) == Ok(base)
    requires PatchBytes(t.codec, base, delta, ToInt64(|data|)) == Ok(data)
    ensures Decode(DeltaChunk(index, |base|, 0, digest, deltaIndex, |data|), t) == Ok(data)
  {
    hide ReadWhole, Slice, PatchBytes;
  }

  method DescribeMatched(tb: Tables, li: LocalIndex, m: MatchedChunk, c: ChunkRow, ghost data: Bytes)
    returns (d: ChunkDescriptor)
    requires tb.Valid() && li.Valid() && li.w == tb.w && tb.load < MAX_ALLOC
    requires RowFor(tb.w, m, c) && m.matched && Stands(tb.w, c, data)
    modifies tb, li
    ensures tb.Valid() && li.Valid() && tb.Grew() && tb.load == old(tb.load) + 1 && tb.chunkDeps == old(tb.chunkDeps)
    ensures Decode(d, tb.AsTarget()) == Ok(data)
    ensures d.FdChunk? && d.size == m.localSize && d.offset == m.localOffset && d.digest == m.hash
    ensures d.index < |tb.inputStoreFiles| && tb.inputStoreFiles[d.index].id == m.localFileID
    ensures d == DescriptorOf(m, None, None, old(tb.Now()))
    ensures tb.Now() == TablesAfter(tb.w.db.files, c.fileId, m, None, None, old(tb.Now()))
  {
    hide Sound, IsMatch, RowFor, Stands, World.IsLocal, World.KnownChunk, ReadRange, Decode, Tables.AsTarget,
      Tables.ValidFiles, Tables.ValidChunks, Tables.ValidPathIDs, FileIndex, Snapshot.AddFile, RowById;
    ghost var local := MatchedRow(tb.w, tb.target, m, c);
    MatchedRead(tb.w, tb.target, m, c, local, data);
    var localStoreFile := li.StoreFileByID(m.localFileID);
    SameId(tb.w, tb.target, localStoreFile.value, local);
    var index := tb.AddInputStoreFile(localStoreFile.value);
    tb.TargetAt();
    DecodeFd(tb.AsTarget(), index, m.localSize, m.localOffset, m.hash, data);
    d := FdChunk(index, m.localSize, m.localOffset, m.hash);
  }

  lemma MatchedRow(w: World, target: map<Str, Node>, m: MatchedChunk, c: ChunkRow) returns (g: FileRow)
    requires Sound(w, target) && RowFor(w, m, c) && m.matched
    ensures g in w.db.files && g.id == m.localFileID && RowById(w.db.files, m.localFileID) == Some(g)
  {
    hide World.CollisionFree, World.SoundRow;
    var lc :| IsMatch(w, m, lc);
    g :| g in w.db.files && w.IsLocal(g) && g.id == lc.fileId;
    RowByIdIs(w, g);
  }

  lemma MatchedRead(w: World, target: map<Str, Node>, m: MatchedChunk, c: ChunkRow, g: FileRow, data: Bytes)
    requires Sound(w, target) && RowFor(w, m, c) && m.matched && Stands(w, c, data)
    requires g in w.db.files && g.id == m.localFileID
    ensures w.IsLocal(g) && m.localSize < TWO_64 && m.localOffset < TWO_64 && m.hash == c.hash
    ensures ReadRange(target, InputPath(w, g), m.localSize, m.localOffset) == Ok(data)
  {
    hide Sound, Stands, World.IsLocal, ReadRange;
    var lc :| IsMatch(w, m, lc);
    LocalChunkRead(w, target, m, lc, g, c, data);
  }

  lemma ReferenceRow(w: World, target: map<Str, Node>, ref: FileRow, base: Bytes)
    requires Sound(w, target) && w.HasContent(ref, base)
    ensures ref.size == |base| <= MAX_ALLOC && ref.hash.Some?
  {
    hide World.CollisionFree;
    var content := RegularRow(w, ref);
  }

  lemma ReferenceRead(w: World, target: map<Str, Node>, ref: FileRow, base: Bytes)
    requires Sound(w, target) && w.IsLocal(ref) && w.HasContent(ref, base)
    ensures ref.size == |base| <= MAX_ALLOC && ref.hash.Some?
    ensures ReadWhole(target, InputPath(w, ref)) == Ok(base)
    ensures Slice(base, |base|, 0) == Ok(base)
  {
    hide Sound, World.HasContent, InputPath, ReadWhole;
    ReferenceRow(w, target, ref, base);
    LocalRead(w, target, ref, base, 0, 0);
    assert base[0..|base|] == base;
  }

  // A delta patches back to the chunk it was computed from.
  lemma DeltaRead(codec: Codec, base: Bytes, table: Table, data: Bytes)
    requires codec.Faithful() && table.Valid() && |base| <= MAX_ALLOC && |data| <= MAX_ALLOC
    ensures PatchBytes(codec, base, codec.marshal(DiffOps(base, table, data)), ToInt64(|data|)) == Ok(data)
  {
    hide DiffOps, PatchSpec;
    DiffThenPatch(base, table, data, |data|);
  }

  // The reference on the target, and what patching it with the delta gives.
  lemma ReferencePatches(w: World, target: map<Str, Node>, ref: FileRow, base: Bytes, table: Table, data: Bytes)
    requires Sound(w, target) && w.IsLocal(ref) && w.HasContent(ref, base) && table.Valid()
    requires |base| <= MAX_ALLOC && |data| <= MAX_ALLOC
    ensures ref in w.db.files && ref.size == |base| && ref.hash.Some?
    ensures ReadWhole(target, InputPath(w, ref)) == Ok(base) && Slice(base, |base|, 0) == Ok(base)
    ensures PatchBytes(w.codec, base, w.codec.marshal(DiffOps(base, table, data)), ToInt64(|data|)) == Ok(data)
  {
    hide Sound, ReadWhole, Slice, PatchBytes, DiffOps;
    ReferenceRead(w, target, ref, base);
    SoundCodec(w, target);
    DeltaRead(w.codec, base, table, data);
  }

  method DescribeDelta(tb: Tables, ref: FileRow, delta: Bytes, resultSize: nat,
                       ghost base: Bytes, ghost table: Table, ghost data: Bytes) returns (d: ChunkDescriptor)
    requires tb.Valid() && tb.load + 2 <= MAX_ALLOC
    requires tb.w.IsLocal(ref) && tb.w.HasContent(ref, base) && table.Valid()
    requires resultSize == |data| <= MAX_ALLOC && |base| <= MAX_ALLOC
    requires delta == tb.w.codec.marshal(DiffOps(base, table, data))
    modifies tb
    ensures tb.Valid() && tb.Grew() && tb.load == old(tb.load) + 2
    ensures tb.chunkDeps == old(tb.chunkDeps) + [Computed(delta)]
    ensures PayloadTotal(tb.w, tb.chunkDeps) == PayloadTotal(tb.w, old(tb.chunkDeps)) + |delta|
    ensures Decode(d, tb.AsTarget()) == Ok(data)
    ensures d.DeltaChunk? && d.size == ref.size && d.offset == 0
    ensures Some(d.digest) == ref.hash && d.resultSize == resultSize
    ensures d.index < |tb.inputStoreFiles| && tb.inputStoreFiles[d.index] == ref && d.deltaIndex == |old(tb.chunkDeps)|
    ensures d == DeltaChunk(ToUint64(FileIndex(old(tb.inputStoreFiles), ref.id)), ToUint64(ref.size), 0, HashBytes(ref),
                            ToUint64(|old(tb.chunkDeps)|), ToUint64(resultSize))
    ensures tb.Now() == old(tb.Now()).AddFile(ref).AddDelta(delta)
  {
    hide Sound, ReadWhole, Slice, PatchBytes, DiffOps, Decode, Tables.Valid, Tables.AsTarget, World.HasContent,
      PayloadTotal, FileIndex, PathIndex, Snapshot.AddFile, Payloads, World.IsLocal;
    tb.IsSound();
    ReferencePatches(tb.w, tb.target, ref, base, table, data);
    var index := tb.AddInputStoreFile(ref);
    var deltaIndex := tb.AddDeltaPayload(delta);
    tb.TargetAt();
    DecodeDelta(tb.AsTarget(), index, ref.hash.value, deltaIndex, base, delta, data);
    d := DeltaChunk(index, ref.size, 0, ref.hash.value, deltaIndex, resultSize);
  }

  method DescribeVerbatim(tb: Tables, c: ChunkRow, ghost data: Bytes) returns (d: ChunkDescriptor)
    requires tb.Valid() && tb.load < MAX_ALLOC && Stands(tb.w, c, data)
    modifies tb
    ensures tb.Valid() && tb.Grew() && tb.load == old(tb.load) + 1
    ensures PayloadTotal(tb.w, tb.chunkDeps) <= PayloadTotal(tb.w, old(tb.chunkDeps)) + |data|
    ensures Decode(d, tb.AsTarget()) == Ok(data)
    ensures d == CaChunk(ToUint64(ChunkIndex(old(tb.chunkDeps), c.hash))) && tb.Now() == old(tb.Now()).AddChunk(c)
    ensures Sent(old(tb.chunkDeps), c.hash) ==> tb.chunkDeps == old(tb.chunkDeps)
    ensures !Sent(old(tb.chunkDeps), c.hash) ==>
      && tb.chunkDeps == old(tb.chunkDeps) + [Verbatim(c)]
      && PayloadTotal(tb.w, tb.chunkDeps) == PayloadTotal(tb.w, old(tb.chunkDeps)) + |data|
  {
    hide Sound, Tables.ValidFiles, Tables.ValidChunks, Tables.ValidPathIDs, PayloadTotal, PayloadData, Decode,
      Tables.AsTarget, World.ChunkBytes, ChunkIndex, Sent, Snapshot.AddChunk;
    var index := tb.AddChunkDep(c, data);
    tb.TargetAt();
    DecodeCa(tb.AsTarget(), index, data);
    d := CaChunk(index);
  }

  // ---------------------------------------------------------------------------
  // The reference file
  // ---------------------------------------------------------------------------

  // The chunks that a local file provides.
  ghost function Voters(chunks: seq<MatchedChunk>, id: int): set<nat> {
    set k: nat | k < |chunks| && chunks[k].matched && chunks[k].localFileID == id
  }

  ghost predicate Voted(chunks: seq<MatchedChunk>, id: int) {
    exists k :: 0 <= k < |chunks| && chunks[k].matched && chunks[k].localFileID == id
  }

  // No file contributed more matched chunks.
  ghost predicate Popular(chunks: seq<MatchedChunk>, id: int) {
    Voted(chunks, id) && forall other :: Voted(chunks, other) ==> |Voters(chunks, other)| <= |Voters(chunks, id)|
  }

  lemma VotersSnoc(chunks: seq<MatchedChunk>, k: nat, id: int)
    requires k < |chunks|
    ensures |Voters(chunks[..k + 1], id)| ==
      |Voters(chunks[..k], id)| + (if chunks[k].matched && chunks[k].localFileID == id then 1 else 0)
  {
    var a, b := Voters(chunks[..k], id), Voters(chunks[..k + 1], id);
    assert forall i: nat :: i < k ==> chunks[..k][i] == chunks[i] == chunks[..k + 1][i];
    assert chunks[..k + 1][k] == chunks[k];
    if chunks[k].matched && chunks[k].localFileID == id {
      assert b == a + {k};
    } else {
      assert b == a;
    }
  }

  method CountVotes(chunks: seq<MatchedChunk>) returns (votes: map<int, nat>)
    ensures forall id :: id in votes <==> Voted(chunks, id)
    ensures forall k :: 0 <= k < |chunks| && chunks[k].matched ==> chunks[k].localFileID in votes
    ensures forall id :: id in votes ==>
      exists k :: 0 <= k < |chunks| && chunks[k].matched && chunks[k].localFileID == id
    ensures forall id :: id in votes ==>
      votes[id] == |set k: nat | k < |chunks| && chunks[k].matched && chunks[k].localFileID == id|
  {
    votes := map[];
    for k := 0 to |chunks|
      invariant forall id :: id in votes <==> Voted(chunks[..k], id)
      invariant forall id :: |Voters(chunks[..k], id)| == if id in votes then votes[id] else 0
    {
      var m := chunks[k];
      VotedSnoc(chunks, k);
      forall id
        ensures |Voters(chunks[..k + 1], id)| ==
          |Voters(chunks[..k], id)| + (if m.matched && m.localFileID == id then 1 else 0)
      {
        VotersSnoc(chunks, k, id);
      }
      if m.matched {
        votes := votes[m.localFileID := (if m.localFileID in votes then votes[m.localFileID] else 0) + 1];
      }
    }
    assert chunks[..|chunks|] == chunks;
  }

  lemma VotedSnoc(chunks: seq<MatchedChunk>, k: nat)
    requires k < |chunks|
    ensures forall id :: Voted(chunks[..k + 1], id) <==>
      Voted(chunks[..k], id) || (chunks[k].matched && chunks[k].localFileID == id)
  {
    var a, b := chunks[..k], chunks[..k + 1];
    forall id | Voted(a, id)
      ensures Voted(b, id)
    {
      var i :| 0 <= i < |a| && a[i].matched && a[i].localFileID == id;
      assert b[i] == a[i];
    }
    forall id | Voted(b, id)
      ensures Voted(a, id) || (chunks[k].matched && chunks[k].localFileID == id)
    {
      var i :| 0 <= i < |b| && b[i].matched && b[i].localFileID == id;
      if i < k {
        assert a[i] == b[i];
      }
    }
    assert chunks[k].matched ==> b[k] == chunks[k];
  }

  // The map is ranged over in an arbitrary order, so any of the most popular files may win.
  method MostPopular(votes: map<int, nat>) returns (ref: int)
    requires |votes| > 0
    ensures ref in votes && forall id :: id in votes ==> votes[id] <= votes[ref]
  {
    var ids := votes.Keys;
    var best: int := -1;
    ref := 0;
    while ids != {}
      invariant ids <= votes.Keys
      invariant best == -1 ==> ids == votes.Keys
      invariant best != -1 ==> ref in votes && votes[ref] == best
      invariant forall id :: id in votes && id !in ids ==> votes[id] <= best
      decreases ids
    {
      SomeMember(ids);
      var id :| id in ids;
      if votes[id] > best {
        ref, best := id, votes[id];
      }
      ids := ids - {id};
    }
  }

  // A file that got votes is a regular file on the target.
  lemma VotedRow(w: World, chunks: seq<MatchedChunk>, rows: seq<ChunkRow>, id: int) returns (g: FileRow)
    requires w.Indexed() && Voted(chunks, id)
    requires |rows| == |chunks| && forall k :: 0 <= k < |rows| ==> RowFor(w, chunks[k], rows[k])
    ensures g in w.db.files && g.id == id && w.IsLocal(g) && g.kind == RegularKind
  {
    hide World.SoundRow;
    var k :| 0 <= k < |chunks| && chunks[k].matched && chunks[k].localFileID == id;
    assert RowFor(w, chunks[k], rows[k]);
    var lc :| IsMatch(w, chunks[k], lc);
    g :| g in w.db.files && w.IsLocal(g) && g.id == lc.fileId;
    var f :| f in w.db.files && f.id == lc.fileId && f.kind == RegularKind;
    assert f == g;
  }

  lemma UniqueRow(w: World, f: FileRow)
    requires w.Indexed() && f in w.db.files
    ensures forall g :: g in w.db.files && g.id == f.id ==> g == f
  {
  }

  lemma VotersAre(chunks: seq<MatchedChunk>, id: int)
    ensures Voters(chunks, id) == set k: nat | k < |chunks| && chunks[k].matched && chunks[k].localFileID == id
  {
  }

  // The counts are the numbers of voters.
  lemma MostVoters(chunks: seq<MatchedChunk>, votes: map<int, nat>, ref: int)
    requires forall id :: id in votes <==> Voted(chunks, id)
    requires forall id :: id in votes ==>
      votes[id] == |set k: nat | k < |chunks| && chunks[k].matched && chunks[k].localFileID == id|
    requires ref in votes && forall id :: id in votes ==> votes[id] <= votes[ref]
    ensures Popular(chunks, ref)
    ensures forall j :: 0 <= j < |chunks| && chunks[j].matched ==>
      |set k: nat | k < |chunks| && chunks[k].matched && chunks[k].localFileID == chunks[j].localFileID| <=
      |set k: nat | k < |chunks| && chunks[k].matched && chunks[k].localFileID == ref|
  {
    forall id | id in votes
      ensures |Voters(chunks, id)| == votes[id]
    {
      VotersAre(chunks, id);
    }
    forall j | 0 <= j < |chunks| && chunks[j].matched
      ensures |set k: nat | k < |chunks| && chunks[k].matched && chunks[k].localFileID == chunks[j].localFileID| <=
        |set k: nat | k < |chunks| && chunks[k].matched && chunks[k].localFileID == ref|
    {
      assert Voted(chunks, chunks[j].localFileID);
      VotersAre(chunks, chunks[j].localFileID);
      VotersAre(chunks, ref);
    }
  }

  method Reference(li: LocalIndex, cache: RefIndexCache, w: World, f: FileRow, chunks: seq<MatchedChunk>,
                   ghost rows: seq<ChunkRow>)
    returns (ref: Option<FileRow>, ix: Index?)
    requires li.Valid() && li.w == w && cache.Valid(w) && w.Indexed()
    requires |rows| == |chunks| && forall k :: 0 <= k < |rows| ==> RowFor(w, chunks[k], rows[k])
    modifies li, cache
    ensures li.Valid() && cache.Valid(w)
    ensures ix != null <==> ref.Some?
    ensures ref.Some? ==> w.IsLocal(ref.value) && ix.Valid() && w.HasContent(ref.value, ix.base)
    ensures ref.Some? ==> exists k :: 0 <= k < |chunks| && chunks[k].matched && chunks[k].localFileID == ref.value.id
    ensures ref.Some? ==> Popular(chunks, ref.value.id) && Built(ix.base, ix.AsTable())
    ensures ref.Some? ==> forall j :: 0 <= j < |chunks| && chunks[j].matched ==>
      |set k: nat | k < |chunks| && chunks[k].matched && chunks[k].localFileID == chunks[j].localFileID| <=
      |set k: nat | k < |chunks| && chunks[k].matched && chunks[k].localFileID == ref.value.id|
    ensures ref.Some? ==> 0 < ref.value.size && (ref.value.size <= 4 * f.size || ref.value.size <= 0x100_0000)
    ensures ref.None? ==>
      || (forall k :: 0 <= k < |chunks| ==> !chunks[k].matched)
      || exists g ::
        && g in w.db.files && Popular(chunks, g.id)
        && (g.size == 0 || (g.size > 4 * f.size && g.size > 0x100_0000))
  {
    hide World.Indexed, Voters, World.HasContent, RowFor, Voted, RefIndexCache.Valid, World.IsLocal;
    ref, ix := None, null;
    var refFileVotes := CountVotes(chunks);
    if |refFileVotes| > 0 {
      var refFileID := MostPopular(refFileVotes);
      var sizeCap := f.size * REF_SIZE_FACTOR;
      if sizeCap < REF_SIZE_FLOOR {
        sizeCap := REF_SIZE_FLOOR;
      }
      var g := li.StoreFileByID(refFileID);
      ghost var l := VotedRow(w, chunks, rows, refFileID);
      assert g == Some(l) by {
        UniqueRow(w, l);
      }
      MostVoters(chunks, refFileVotes, refFileID);
      if g.Some? && g.value.size > 0 && g.value.size <= sizeCap {
        ix := cache.Get(w, g.value);
        MapsContent(w, g.value, if ix != null then ix.base else []);
        if ix != null {
          ref := g;
        }
      }
    }
  }

  // ---------------------------------------------------------------------------
  // A whole file
  // ---------------------------------------------------------------------------

  // The sizes of the chunks that the target lacks.
  ghost function UnmatchedSize(w: World, rows: seq<ChunkRow>): nat {
    if rows == [] then 0 else
      var last := rows[|rows| - 1];
      UnmatchedSize(w, rows[..|rows| - 1]) + (if w.KnownChunk(last.hash) then 0 else last.size)
  }

  // The chunks of a file together with what each one stands for.
  ghost predicate FileChunks(w: World, f: FileRow, content: Bytes, rows: seq<ChunkRow>, chunks: seq<MatchedChunk>) {
    && w.HasContent(f, content) && f.size == |content| <= MAX_ALLOC
    && rows == ChunksOf(w.db.chunks, f.id) && w.TilesRows(rows, content)
    && |chunks| == |rows| && forall k :: 0 <= k < |rows| ==> RowFor(w, chunks[k], rows[k])
  }

  ghost function SliceOf(content: Bytes, c: ChunkRow): Bytes {
    if c.offset + c.size <= |content| then content[c.offset..c.offset + c.size] else []
  }

  lemma ChunkStands(w: World, f: FileRow, content: Bytes, rows: seq<ChunkRow>, chunks: seq<MatchedChunk>, k: nat)
    requires FileChunks(w, f, content, rows, chunks) && k < |rows|
    ensures Stands(w, rows[k], SliceOf(content, rows[k])) && RowFor(w, chunks[k], rows[k])
    ensures rows[k].fileId == f.id && chunks[k].offset + chunks[k].size <= |content|
    ensures content[chunks[k].offset..chunks[k].offset + chunks[k].size] == SliceOf(content, rows[k])
    ensures Extent(AsChunks(rows[..k])) + rows[k].size == Extent(AsChunks(rows[..k + 1])) <= |content|
    ensures content[..Extent(AsChunks(rows[..k + 1]))] ==
      content[..Extent(AsChunks(rows[..k]))] + SliceOf(content, rows[k])
  {
    hide World.HasContent, World.TilesRows, World.ChunkBytes, ChunksOf, AsChunks, Extent;
    ChunkRowFacts(w, f, content, k);
    assert rows[k] in rows;
  }

  lemma ExtentWhole(w: World, f: FileRow, content: Bytes, rows: seq<ChunkRow>, chunks: seq<MatchedChunk>)
    requires FileChunks(w, f, content, rows, chunks)
    ensures Extent(AsChunks(rows[..|rows|])) == |content| && Extent(AsChunks(rows[..0])) == 0
  {
    assert rows[..|rows|] == rows && AsChunks(rows[..0]) == [];
  }

  // The jobs of a file whose reference has the given content and index.
  ghost predicate DeltasFor(w: World, content: Bytes, chunks: seq<MatchedChunk>, results: seq<Option<Bytes>>,
                            base: Bytes, table: Table)
  {
    && table.Valid() && |base| <= MAX_ALLOC && |results| == |chunks|
    && forall k :: 0 <= k < |chunks| && results[k].Some? ==>
      DeltaFor(w, content, chunks[k], results[k].value, base, table)
  }

  ghost predicate DeltaFor(w: World, content: Bytes, m: MatchedChunk, delta: Bytes, base: Bytes, table: Table)
    requires table.Valid() && |base| <= MAX_ALLOC
  {
    && m.offset + m.size <= |content| <= MAX_ALLOC && !m.matched && |delta| < m.size
    && delta == w.codec.marshal(DiffOps(base, table, content[m.offset..m.offset + m.size]))
  }

  lemma StandsSize(w: World, c: ChunkRow, data: Bytes)
    requires Stands(w, c, data)
    ensures |data| == c.size <= MAX_ALLOC
  {
  }

  // What the routes need to know of a chunk.
  ghost predicate Describable(w: World, m: MatchedChunk, c: ChunkRow, delta: Option<Bytes>, ref: Option<FileRow>,
                              content: Bytes, base: Bytes, table: Table)
    requires table.Valid() && |base| <= MAX_ALLOC
  {
    && RowFor(w, m, c) && Stands(w, c, SliceOf(content, c)) && m.offset + m.size <= |content|
    && (delta.Some? ==> ref.Some? && w.IsLocal(ref.value) && w.HasContent(ref.value, base))
    && (delta.Some? ==> DeltaFor(w, content, m, delta.value, base, table))
  }

  // A matched chunk goes by its local range, a missing one by its delta if that paid off, and
  // verbatim otherwise.
  predicate RightRoute(d: ChunkDescriptor, m: MatchedChunk, delta: Option<Bytes>, ref: Option<FileRow>) {
    && (m.matched ==> d.FdChunk? && d.size == m.localSize && d.offset == m.localOffset && d.digest == m.hash)
    && (!m.matched && delta.Some? ==>
      && d.DeltaChunk? && ref.Some? && d.size == ref.value.size && d.offset == 0
      && Some(d.digest) == ref.value.hash && d.resultSize == m.size)
    && (!m.matched && delta.None? ==> d.CaChunk?)
  }

  // One chunk, by whichever route applies: a local range, a delta, or verbatim.
  method DescribeChunk(tb: Tables, li: LocalIndex, m: MatchedChunk, c: ChunkRow, delta: Option<Bytes>,
                       ref: Option<FileRow>, ghost content: Bytes, ghost base: Bytes, ghost table: Table)
    returns (d: ChunkDescriptor)
    requires tb.Valid() && li.Valid() && li.w == tb.w && tb.load + 2 <= MAX_ALLOC
    requires table.Valid() && |base| <= MAX_ALLOC && Describable(tb.w, m, c, delta, ref, content, base, table)
    modifies tb, li
    ensures tb.Valid() && li.Valid() && tb.Grew() && tb.load <= old(tb.load) + 2
    ensures Decode(d, tb.AsTarget()) == Ok(SliceOf(content, c))
    ensures PayloadTotal(tb.w, tb.chunkDeps) <=
      PayloadTotal(tb.w, old(tb.chunkDeps)) + (if tb.w.KnownChunk(c.hash) then 0 else c.size)
    ensures RightRoute(d, m, delta, ref)
    ensures m.matched ==> tb.chunkDeps == old(tb.chunkDeps)
    ensures !m.matched && delta.Some? ==>
      && tb.chunkDeps == old(tb.chunkDeps) + [Computed(delta.value)]
      && PayloadTotal(tb.w, tb.chunkDeps) == PayloadTotal(tb.w, old(tb.chunkDeps)) + |delta.value|
    ensures !m.matched && delta.None? && Sent(old(tb.chunkDeps), c.hash) ==> tb.chunkDeps == old(tb.chunkDeps)
    ensures !m.matched && delta.None? && !Sent(old(tb.chunkDeps), c.hash) ==>
      && tb.chunkDeps == old(tb.chunkDeps) + [Verbatim(c)]
      && PayloadTotal(tb.w, tb.chunkDeps) == PayloadTotal(tb.w, old(tb.chunkDeps)) + c.size
    ensures d == DescriptorOf(m, delta, ref, old(tb.Now()))
    ensures tb.Now() == TablesAfter(tb.w.db.files, c.fileId, m, delta, ref, old(tb.Now()))
  {
    hide Stands, PayloadTotal, Decode, Tables.Valid, LocalIndex.Valid, World.HasContent, World.IsLocal,
      World.KnownChunk, DiffOps, Tables.AsTarget, IsMatch, FileIndex, ChunkIndex, Sent, Snapshot.AddFile,
      Snapshot.AddChunk;
    StandsSize(tb.w, c, SliceOf(content, c));
    if m.matched {
      d := DescribeMatched(tb, li, m, c, SliceOf(content, c));
    } else if delta.Some? {
      d := DescribeDelta(tb, ref.value, delta.value, m.size, base, table, SliceOf(content, c));
    } else {
      d := DescribeVerbatim(tb, c, SliceOf(content, c));
    }
  }

  // What is true of the descriptors of the first i chunks.
  ghost predicate Described(tb: Tables, content: Bytes, rows: seq<ChunkRow>, i: nat, ds: seq<ChunkDescriptor>)
    requires i <= |rows|
    reads tb
  {
    var end := Extent(AsChunks(rows[..i]));
    end <= |content| && DecodeAll(ds, tb.AsTarget()) == Ok(content[..end])
  }

  // The body of the loop over the chunks.
  method DescribeNext(tb: Tables, li: LocalIndex, f: FileRow, m: MatchedChunk, delta: Option<Bytes>,
                      ref: Option<FileRow>, before: seq<ChunkDescriptor>, ghost content: Bytes,
                      ghost rows: seq<ChunkRow>, ghost chunks: seq<MatchedChunk>, ghost i: nat, ghost base: Bytes,
                      ghost table: Table)
    returns (ds: seq<ChunkDescriptor>)
    requires tb.Valid() && li.Valid() && li.w == tb.w && tb.load + 2 <= MAX_ALLOC
    requires FileChunks(tb.w, f, content, rows, chunks) && i < |rows| && |rows| == |chunks| && m == chunks[i]
    requires table.Valid() && |base| <= MAX_ALLOC
    requires delta.Some? ==> ref.Some? && tb.w.IsLocal(ref.value) && tb.w.HasContent(ref.value, base)
    requires delta.Some? ==> DeltaFor(tb.w, content, m, delta.value, base, table)
    requires Described(tb, content, rows, i, before)
    modifies tb, li
    ensures tb.Valid() && li.Valid() && tb.Grew() && tb.load <= old(tb.load) + 2
    ensures Described(tb, content, rows, i + 1, ds)
    ensures PayloadTotal(tb.w, tb.chunkDeps) <=
      PayloadTotal(tb.w, old(tb.chunkDeps)) + (if tb.w.KnownChunk(rows[i].hash) then 0 else rows[i].size)
    ensures |ds| == |before| + 1 && ds[..|before|] == before && RightRoute(ds[|before|], m, delta, ref)
    ensures ds == before + [DescriptorOf(m, delta, ref, old(tb.Now()))]
    ensures tb.Now() == TablesAfter(tb.w.db.files, f.id, m, delta, ref, old(tb.Now()))
  {
    hide PayloadTotal, Decode, Tables.Valid, LocalIndex.Valid, Tables.AsTarget, FileChunks, SliceOf, Stands, RowFor,
      Extent, AsChunks, DeltaFor, World.HasContent, World.IsLocal, World.KnownChunk, DescriptorOf, TablesAfter,
      RightRoute, Sent;
    ChunkStands(tb.w, f, content, rows, chunks, i);
    var c := ChunkRow(f.id, m.hash, m.size, m.offset);
    RowIs(tb.w, m, rows[i], f.id);
    var d := DescribeChunk(tb, li, m, c, delta, ref, content, base, table);
    tb.GrewMeansGrows();
    AllDecodedInRange(before, old(tb.AsTarget()));
    DecodeAllStable(before, old(tb.AsTarget()), tb.AsTarget());
    DecodeAllSnoc(before, d, tb.AsTarget(), content[..Extent(AsChunks(rows[..i]))], SliceOf(content, c));
    ds := before + [d];
  }

  predicate AllRouted(ds: seq<ChunkDescriptor>, chunks: seq<MatchedChunk>, results: seq<Option<Bytes>>,
                      ref: Option<FileRow>)
  {
    && |ds| <= |chunks| == |results|
    && forall k :: 0 <= k < |ds| ==> RightRoute(ds[k], chunks[k], results[k], ref)
  }

  lemma NoneRouted(chunks: seq<MatchedChunk>, results: seq<Option<Bytes>>, ref: Option<FileRow>)
    requires |chunks| == |results|
    ensures AllRouted([], chunks, results, ref)
  {
  }

  lemma RoutedOn(ds: seq<ChunkDescriptor>, chunks: seq<MatchedChunk>, results: seq<Option<Bytes>>, ref: Option<FileRow>)
    requires 0 < |ds| <= |chunks| == |results| && AllRouted(ds[..|ds| - 1], chunks, results, ref)
    requires RightRoute(ds[|ds| - 1], chunks[|ds| - 1], results[|ds| - 1], ref)
    ensures AllRouted(ds, chunks, results, ref)
  {
    hide RightRoute;
    assert forall k :: 0 <= k < |ds| - 1 ==> ds[k] == ds[..|ds| - 1][k];
  }

  lemma AllRoutedMeans(ds: seq<ChunkDescriptor>, chunks: seq<MatchedChunk>, results: seq<Option<Bytes>>,
                       ref: Option<FileRow>)
    requires AllRouted(ds, chunks, results, ref)
    ensures |chunks| == |results| && forall k :: 0 <= k < |ds| ==> RightRoute(ds[k], chunks[k], results[k], ref)
  {
    hide RightRoute;
  }

  // What each chunk may cost: its size, unless a chunk of some file on a local store path has
  // its hash.
  ghost function ChunkCosts(w: World, rows: seq<ChunkRow>): seq<nat> {
    seq(|rows|, k requires 0 <= k < |rows| => if Provided(w, rows[k].hash) then 0 else rows[k].size)
  }

  /** The bound on a file's payload is the sum of the sizes of the chunks that the target lacks. */
  lemma {:induction false} UnmatchedIs(w: World, rows: seq<ChunkRow>)
    ensures UnmatchedSize(w, rows) == Sum(ChunkCosts(w, rows))
  {
    if rows == [] {
      assert ChunkCosts(w, rows) == [];
    } else {
      hide World.KnownChunk, Provided;
      var init, last := rows[..|rows| - 1], rows[|rows| - 1];
      UnmatchedIs(w, init);
      ProvidedIsKnown(w, last.hash);
      assert ChunkCosts(w, rows) == ChunkCosts(w, init) + [if Provided(w, last.hash) then 0 else last.size];
      SumSnoc(ChunkCosts(w, init), if Provided(w, last.hash) then 0 else last.size);
    }
  }

  lemma ProvidedIsKnown(w: World, hash: Digest)
    ensures Provided(w, hash) <==> w.KnownChunk(hash)
  {
    KnownMeans(w, hash);
  }

  lemma NoneUnmatched(w: World, rows: seq<ChunkRow>)
    ensures UnmatchedSize(w, rows[..0]) == 0
  {
  }

  lemma UnmatchedStep(w: World, rows: seq<ChunkRow>, i: nat)
    requires i < |rows|
    ensures UnmatchedSize(w, rows[..i + 1]) ==
      UnmatchedSize(w, rows[..i]) + (if w.KnownChunk(rows[i].hash) then 0 else rows[i].size)
  {
    hide World.KnownChunk;
    assert rows[..i + 1][..i] == rows[..i];
  }

  // The file's chunks in order; their descriptors decode to the whole content.
  method DescribeChunks(tb: Tables, li: LocalIndex, f: FileRow, chunks: seq<MatchedChunk>,
                        results: seq<Option<Bytes>>, ref: Option<FileRow>, ghost content: Bytes,
                        ghost rows: seq<ChunkRow>, ghost base: Bytes, ghost table: Table)
    returns (ds: seq<ChunkDescriptor>)
    requires tb.Valid() && li.Valid() && li.w == tb.w && tb.load + 2 * |chunks| <= MAX_ALLOC
    requires FileChunks(tb.w, f, content, rows, chunks)
    requires DeltasFor(tb.w, content, chunks, results, base, table)
    requires (exists k :: 0 <= k < |results| && results[k].Some?) ==>
      ref.Some? && tb.w.IsLocal(ref.value) && tb.w.HasContent(ref.value, base)
    modifies tb, li
    ensures tb.Valid() && li.Valid() && tb.Grew() && tb.load <= old(tb.load) + 2 * |chunks|
    ensures DecodeAll(ds, tb.AsTarget()) == Ok(content)
    ensures |ds| == |chunks| && forall k :: 0 <= k < |ds| ==> RightRoute(ds[k], chunks[k], results[k], ref)
    ensures Emission(tb.Now(), ds) == Emit(tb.w.db.files, f.id, chunks, results, ref, old(tb.Now()), |chunks|)
    ensures PayloadTotal(tb.w, tb.chunkDeps) <= PayloadTotal(tb.w, old(tb.chunkDeps)) + UnmatchedSize(tb.w, rows)
  {
    hide PayloadTotal, Tables.Valid, LocalIndex.Valid, Tables.AsTarget, FileChunks, DeltaFor, World.HasContent,
      World.IsLocal, World.KnownChunk, Described, DescriptorOf, TablesAfter, AllRouted, Emit, UnmatchedSize;
    FileChunksLength(tb.w, f, content, rows, chunks);
    NothingEmitted(tb.w.db.files, f.id, chunks, results, ref, tb.Now());
    NoneDescribed(tb, content, rows);
    NoneUnmatched(tb.w, rows);
    ds := [];
    assert AllRouted(ds, chunks, results, ref) by {
      NoneRouted(chunks, results, ref);
    }
    for i := 0 to |chunks|
      invariant tb.Valid() && li.Valid() && tb.Grew() && tb.load <= old(tb.load) + 2 * i
      invariant Described(tb, content, rows, i, ds)
      invariant |ds| == i && AllRouted(ds, chunks, results, ref)
      invariant Emission(tb.Now(), ds) == Emit(tb.w.db.files, f.id, chunks, results, ref, old(tb.Now()), i)
      invariant PayloadTotal(tb.w, tb.chunkDeps) <=
        PayloadTotal(tb.w, old(tb.chunkDeps)) + UnmatchedSize(tb.w, rows[..i])
    {
      UnmatchedStep(tb.w, rows, i);
      EmitStep(tb.w.db.files, f.id, chunks, results, ref, old(tb.Now()), i + 1);
      ds := DescribeNext(tb, li, f, chunks[i], results[i], ref, ds, content, rows, chunks, i, base, table);
      RoutedOn(ds, chunks, results, ref);
    }
    AllDescribed(tb, f, content, rows, chunks, ds);
    AllRoutedMeans(ds, chunks, results, ref);
    assert rows[..|rows|] == rows;
  }

  lemma NoneDescribed(tb: Tables, content: Bytes, rows: seq<ChunkRow>)
    ensures Described(tb, content, rows, 0, [])
  {
    assert AsChunks(rows[..0]) == [];
  }

  lemma AllDescribed(tb: Tables, f: FileRow, content: Bytes, rows: seq<ChunkRow>, chunks: seq<MatchedChunk>,
                     ds: seq<ChunkDescriptor>)
    requires FileChunks(tb.w, f, content, rows, chunks) && Described(tb, content, rows, |rows|, ds)
    ensures DecodeAll(ds, tb.AsTarget()) == Ok(content)
  {
    hide FileChunks, DecodeAll, Extent, AsChunks;
    ExtentWhole(tb.w, f, content, rows, chunks);
    assert content[..|content|] == content;
  }

  lemma FileChunksLength(w: World, f: FileRow, content: Bytes, rows: seq<ChunkRow>, chunks: seq<MatchedChunk>)
    requires FileChunks(w, f, content, rows, chunks)
    ensures |rows| == |chunks|
  {
  }

  lemma RowIs(w: World, m: MatchedChunk, c: ChunkRow, fileId: int)
    requires RowFor(w, m, c) && c.fileId == fileId
    ensures c == ChunkRow(fileId, m.hash, m.size, m.offset)
  {
  }
}
