/** The packer's three tables as values: what each addition makes of them, and at which
    indices (internal/cmd/dnar-pack/dnar.go). Deduplication by search, where the program keeps
    a map beside each list. */
module TableLists {
  import opened Prelude
  import opened Chunking
  import opened Database

  // An entry of the payload stream: a chunk of a sender's file, or a computed delta.
  datatype BulkPayload = Verbatim(chunk: ChunkRow) | Computed(data: Bytes)

  // The first position whose element satisfies p, or the length.
  function FirstIndex<T>(s: seq<T>, p: T -> bool): (i: nat)
    ensures i <= |s| && (i < |s| ==> p(s[i]))
    ensures forall k :: 0 <= k < i ==> !p(s[k])
  {
    if s == [] then 0 else
      var i := FirstIndex(s[..|s| - 1], p);
      if i < |s| - 1 || p(s[|s| - 1]) then i else |s|
  }

  function PathIndex(paths: seq<int>, id: int): (i: nat)
    ensures i <= |paths|
  {
    FirstIndex(paths, x => x == id)
  }

  function FileIndex(files: seq<FileRow>, id: int): (i: nat)
    ensures i <= |files|
  {
    FirstIndex(files, (f: FileRow) => f.id == id)
  }

  function ChunkIndex(payloads: seq<BulkPayload>, hash: Digest): (i: nat)
    ensures i <= |payloads|
  {
    FirstIndex(payloads, (p: BulkPayload) => p.Verbatim? && p.chunk.hash == hash)
  }

  // A chunk with this digest is on the list.
  ghost predicate Sent(payloads: seq<BulkPayload>, hash: Digest) {
    exists i :: 0 <= i < |payloads| && payloads[i].Verbatim? && payloads[i].chunk.hash == hash
  }

  lemma SentIndex(payloads: seq<BulkPayload>, hash: Digest)
    ensures Sent(payloads, hash) <==> ChunkIndex(payloads, hash) < |payloads|
  {
  }

  // A digest that is sent verbatim is sent once.
  ghost predicate SentOnce(payloads: seq<BulkPayload>) {
    forall i, j :: 0 <= i < j < |payloads| && payloads[i].Verbatim? && payloads[j].Verbatim? ==>
      payloads[i].chunk.hash != payloads[j].chunk.hash
  }

  // The lists at some moment.
  datatype Snapshot = Snapshot(paths: seq<int>, files: seq<FileRow>, payloads: seq<BulkPayload>)
  {
    function AddFile(f: FileRow): Snapshot {
      if FileIndex(files, f.id) < |files| then this
      else if PathIndex(paths, f.storePathId) < |paths| then this.(files := files + [f])
      else this.(paths := paths + [f.storePathId], files := files + [f])
    }

    function AddChunk(c: ChunkRow): Snapshot {
      if ChunkIndex(payloads, c.hash) < |payloads| then this else this.(payloads := payloads + [Verbatim(c)])
    }

    function AddDelta(data: Bytes): Snapshot {
      this.(payloads := payloads + [Computed(data)])
    }

    // The lists no file, digest or path appears in twice.
    ghost predicate Distinct() {
      && (forall i, j :: 0 <= i < j < |paths| ==> paths[i] != paths[j])
      && (forall i, j :: 0 <= i < j < |files| ==> files[i].id != files[j].id)
      && SentOnce(payloads)
    }
  }

  lemma PathAt(paths: seq<int>, id: int)
    ensures PathIndex(paths, id) < |paths| <==> id in paths
  {
  }

  /** Additions keep every list free of duplicates, leave what was handed out in place, and put
      the new element where its index says. */
  lemma AddFileKeeps(s: Snapshot, f: FileRow)
    requires s.Distinct()
    ensures
      var t := s.AddFile(f);
      && t.Distinct() && s.paths <= t.paths && s.files <= t.files && t.payloads == s.payloads
      && FileIndex(s.files, f.id) < |t.files| && t.files[FileIndex(s.files, f.id)].id == f.id
      && FileIndex(t.files, f.id) == FileIndex(s.files, f.id)
  {
    var k, t := FileIndex(s.files, f.id), s.AddFile(f);
    if k == |s.files| {
      assert t.files[..k] == s.files;
    }
  }

  lemma AddChunkKeeps(s: Snapshot, c: ChunkRow)
    requires s.Distinct()
    ensures
      var t := s.AddChunk(c);
      && t.Distinct() && s.payloads <= t.payloads && t.files == s.files && t.paths == s.paths
      && ChunkIndex(s.payloads, c.hash) < |t.payloads|
      && ChunkIndex(t.payloads, c.hash) == ChunkIndex(s.payloads, c.hash)
  {
    var k, t := ChunkIndex(s.payloads, c.hash), s.AddChunk(c);
    if k == |s.payloads| {
      assert t.payloads[..k] == s.payloads;
    }
  }

  lemma AddDeltaKeeps(s: Snapshot, data: Bytes)
    requires s.Distinct()
    ensures
      var t := s.AddDelta(data);
      t.Distinct() && s.payloads <= t.payloads && t.files == s.files && t.paths == s.paths
  {
  }
}
