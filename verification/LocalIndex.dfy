/** What the target already has (internal/cmd/dnar-pack/localindex.go). Where SQL may return
    any of several matching rows, so may these methods. */
module LocalIndex {
  import opened Prelude
  import opened Chunking
  import opened Database

  datatype MatchedChunk = MatchedChunk(size: nat, offset: nat, hash: Digest,
                                       matched: bool, localFileID: int, localSize: nat, localOffset: nat)

  // lc is a chunk on the target with the content of c.
  ghost predicate IsMatch(w: World, m: MatchedChunk, lc: ChunkRow) {
    && lc in w.db.chunks && w.LocalChunk(lc) && lc.hash == m.hash
    && m.localFileID == lc.fileId && m.localSize == lc.size && m.localOffset == lc.offset
  }

  // One row of GetStoreChunksWithLocalMatch for the chunk row c.
  ghost predicate RowFor(w: World, m: MatchedChunk, c: ChunkRow) {
    && m.size == c.size && m.offset == c.offset && m.hash == c.hash
    && (m.matched <==> w.KnownChunk(c.hash))
    && (m.matched ==> exists lc :: IsMatch(w, m, lc))
  }

  // Some chunk with this hash is one of a file on a local store path.
  ghost predicate Provided(w: World, hash: Digest) {
    exists lc, f ::
      && lc in w.db.chunks && f in w.db.files && lc.hash == hash && f.id == lc.fileId
      && f.storePathId in w.db.storePaths && w.db.storePaths[f.storePathId] in w.local
  }

  class LocalIndex {
    const w: World
    var fileCache: map<int, FileRow>  // resolved store files

    ghost predicate Valid()
      reads this
    {
      forall id :: id in fileCache ==> fileCache[id] in w.db.files && fileCache[id].id == id
    }

    constructor (w: World)
      ensures Valid() && this.w == w
    {
      this.w := w;
      fileCache := map[];
    }

    method FileByHash(hash: Digest) returns (f: Option<FileRow>)
      ensures f.None? <==> !w.Known(hash)
      ensures f.None? <==> forall g :: g in w.db.files ==>
        !(g.hash == Some(hash) && g.storePathId in w.db.storePaths && w.db.storePaths[g.storePathId] in w.local)
      ensures f.Some? ==>
        && f.value in w.db.files && f.value.hash == Some(hash)
        && f.value.storePathId in w.db.storePaths && w.db.storePaths[f.value.storePathId] in w.local
      ensures f.Some? ==> f.value in w.db.files && w.IsLocal(f.value) && f.value.hash == Some(hash)
    {
      var rows := set g | g in w.db.files && w.IsLocal(g) && g.hash == Some(hash);
      if rows == {} {
        assert forall g :: g in w.db.files && w.IsLocal(g) && g.hash == Some(hash) ==> g in rows;
        return None;
      }
      var g :| g in rows;
      return Some(g);
    }

    method StoreFileByID(id: int) returns (f: Option<FileRow>)
      requires Valid()
      modifies this
      ensures Valid()
      ensures f.Some? ==> f.value in w.db.files && f.value.id == id
      ensures f.None? ==> forall g :: g in w.db.files ==> g.id != id
    {
      if id in fileCache {
        return Some(fileCache[id]);
      }
      var rows := set g | g in w.db.files && g.id == id;
      if rows == {} {
        assert forall g :: g in w.db.files && g.id == id ==> g in rows;
        return None;
      }
      var g :| g in rows;
      fileCache := fileCache[id := g];
      return Some(g);
    }

    method FileChunks(fileID: int) returns (out: seq<MatchedChunk>)
      requires w.Indexed()
      ensures var rows := ChunksOf(w.db.chunks, fileID);
        |out| == |rows| && forall k :: 0 <= k < |rows| ==> RowFor(w, out[k], rows[k])
      ensures forall k :: 0 <= k < |out| ==> (out[k].matched <==> Provided(w, out[k].hash))
    {
      hide World.Indexed, ChunksOf, World.KnownChunk, IsMatch;
      var rows := ChunksOf(w.db.chunks, fileID);
      out := [];
      for i := 0 to |rows|
        invariant |out| == i && forall k :: 0 <= k < i ==> RowFor(w, out[k], rows[k])
        invariant forall k :: 0 <= k < i ==> (out[k].matched <==> Provided(w, out[k].hash))
      {
        var m := JoinLocal(rows[i]);
        out := out + [m];
      }
    }

    // The left join: zeros when no local chunk has the hash, else any one that does.
    method JoinLocal(c: ChunkRow) returns (m: MatchedChunk)
      requires w.Indexed()
      ensures RowFor(w, m, c)
      ensures m.matched <==> exists lc, f ::
        && lc in w.db.chunks && f in w.db.files && lc.hash == c.hash && f.id == lc.fileId
        && f.storePathId in w.db.storePaths && w.db.storePaths[f.storePathId] in w.local
    {
      hide World.Indexed, World.IsLocal, World.KnownChunk, IsMatch;
      var localFileID, localSize, localOffset := 0, 0, 0;
      var matches := set lc | lc in w.db.chunks && lc.hash == c.hash
        && exists f :: f in w.db.files && w.IsLocal(f) && f.id == lc.fileId;
      if matches != {} {
        var lc :| lc in matches;
        localFileID, localSize, localOffset := lc.fileId, lc.size, lc.offset;
        LocalMatch(w, c, lc);
      } else {
        assert forall lc :: lc in w.db.chunks && lc.hash == c.hash && w.LocalChunk(lc) ==> lc in matches;
        NoLocalMatch(w, c.hash);
      }
      m := MatchedChunk(c.size, c.offset, c.hash, localFileID != 0, localFileID, localSize, localOffset);
      KnownMeans(w, c.hash);
    }
  }

  lemma LocalMatch(w: World, c: ChunkRow, lc: ChunkRow)
    requires w.Indexed() && lc in w.db.chunks && lc.hash == c.hash && w.LocalChunk(lc)
    ensures lc.fileId != 0 && w.KnownChunk(c.hash)
    ensures IsMatch(w, MatchedChunk(c.size, c.offset, c.hash, true, lc.fileId, lc.size, lc.offset), lc)
  {
    var f :| f in w.db.files && w.IsLocal(f) && f.id == lc.fileId;
    assert w.SoundRow(f);
  }

  lemma NoLocalMatch(w: World, hash: Digest)
    requires forall lc :: lc in w.db.chunks && lc.hash == hash ==> !w.LocalChunk(lc)
    ensures !w.KnownChunk(hash)
  {
  }
}
