/** Which descriptors a file gets and what they add to the tables, as a function of its
    chunks, the chosen matches, the deltas and the reference (internal/cmd/dnar-pack/dnar.go). */
module Emission {
  import opened Prelude
  import opened Database
  import opened LocalIndex
  import opened DeltaWorkers
  import opened Dnar
  import opened TableLists

  // Conversion of a non-negative int to uint64.
  function ToUint64(x: nat): uint64 {
    x % TWO_64
  }

  // GetStoreFileByID.
  function RowById(files: seq<FileRow>, id: int): (row: Option<FileRow>)
    ensures row.Some? ==> row.value in files && row.value.id == id
    ensures row.None? ==> forall f :: f in files ==> f.id != id
  {
    if files == [] then None
    else if files[|files| - 1].id == id then Some(files[|files| - 1])
    else RowById(files[..|files| - 1], id)
  }

  lemma RowByIdIs(w: World, f: FileRow)
    requires w.Indexed() && f in w.db.files
    ensures RowById(w.db.files, f.id) == Some(f)
  {
    hide RowById;
  }

  // The tables after some descriptors, and the descriptors.
  datatype Emission = Emission(tables: Snapshot, ds: seq<ChunkDescriptor>)

  // A chunk goes by a local range if it was matched, else by its delta if that paid off, else
  // verbatim.
  function DescriptorOf(m: MatchedChunk, delta: Option<Bytes>, ref: Option<FileRow>, s: Snapshot): ChunkDescriptor {
    if m.matched then
      FdChunk(ToUint64(FileIndex(s.files, m.localFileID)), ToUint64(m.localSize), ToUint64(m.localOffset), m.hash)
    else if delta.Some? && ref.Some? then
      var g := ref.value;
      DeltaChunk(ToUint64(FileIndex(s.files, g.id)), ToUint64(g.size), 0, HashBytes(g), ToUint64(|s.payloads|),
                 ToUint64(m.size))
    else
      CaChunk(ToUint64(ChunkIndex(s.payloads, m.hash)))
  }

  function TablesAfter(files: seq<FileRow>, fileId: int, m: MatchedChunk, delta: Option<Bytes>, ref: Option<FileRow>,
                       s: Snapshot): Snapshot
  {
    if m.matched then
      var local := RowById(files, m.localFileID);
      if local.Some? then s.AddFile(local.value) else s
    else if delta.Some? && ref.Some? then
      s.AddFile(ref.value).AddDelta(delta.value)
    else
      s.AddChunk(ChunkRow(fileId, m.hash, m.size, m.offset))
  }

  // The first n chunks in order.
  function Emit(files: seq<FileRow>, fileId: int, chunks: seq<MatchedChunk>, results: seq<Option<Bytes>>,
                ref: Option<FileRow>, s: Snapshot, n: nat): Emission
    requires n <= |chunks| == |results|
  {
    if n == 0 then Emission(s, []) else
      var before := Emit(files, fileId, chunks, results, ref, s, n - 1);
      Emission(TablesAfter(files, fileId, chunks[n - 1], results[n - 1], ref, before.tables),
               before.ds + [DescriptorOf(chunks[n - 1], results[n - 1], ref, before.tables)])
  }

  /** However the workers were interleaved, the file's descriptors and the numbering of files
      and payloads are those of the sequential results. */
  lemma EmissionScheduleIndependent(j: Jobs, run: seq<Pool>, files: seq<FileRow>, fileId: int, ref: Option<FileRow>,
                                    s: Snapshot)
    requires j.Valid() && Run(j, run) && Finished(run[|run| - 1])
    ensures
      var results := run[|run| - 1].results;
      && |results| == |j.chunks|
      && Emit(files, fileId, j.chunks, results, ref, s, |j.chunks|) ==
        Emit(files, fileId, j.chunks, seq(|j.chunks|, i requires 0 <= i < |j.chunks| => j.Result(i)), ref, s,
             |j.chunks|)
  {
    ScheduleIndependent(j, run);
  }

  ghost predicate Extends(s: Snapshot, t: Snapshot) {
    s.paths <= t.paths && s.files <= t.files && s.payloads <= t.payloads
  }

  lemma ExtendsItself(s: Snapshot)
    ensures Extends(s, s)
  {
  }

  lemma ExtendsOn(s: Snapshot, t: Snapshot, u: Snapshot)
    requires Extends(s, t) && Extends(t, u)
    ensures Extends(s, u)
  {
  }

  lemma StepKeeps(files: seq<FileRow>, fileId: int, m: MatchedChunk, delta: Option<Bytes>, ref: Option<FileRow>,
                  s: Snapshot)
    requires s.Distinct()
    ensures
      var t := TablesAfter(files, fileId, m, delta, ref, s);
      t.Distinct() && Extends(s, t)
  {
    hide FileIndex, ChunkIndex, PathIndex, Snapshot.Distinct, Snapshot.AddFile, Snapshot.AddChunk, Snapshot.AddDelta;
    if m.matched {
      var local := RowById(files, m.localFileID);
      if local.Some? {
        AddFileKeeps(s, local.value);
      }
    } else if delta.Some? && ref.Some? {
      AddFileKeeps(s, ref.value);
      AddDeltaKeeps(s.AddFile(ref.value), delta.value);
    } else {
      AddChunkKeeps(s, ChunkRow(fileId, m.hash, m.size, m.offset));
    }
  }

  lemma EmitStep(files: seq<FileRow>, fileId: int, chunks: seq<MatchedChunk>, results: seq<Option<Bytes>>,
                 ref: Option<FileRow>, s: Snapshot, n: nat)
    requires 0 < n <= |chunks| == |results|
    ensures
      var before := Emit(files, fileId, chunks, results, ref, s, n - 1);
      Emit(files, fileId, chunks, results, ref, s, n) ==
        Emission(TablesAfter(files, fileId, chunks[n - 1], results[n - 1], ref, before.tables),
                 before.ds + [DescriptorOf(chunks[n - 1], results[n - 1], ref, before.tables)])
  {
    hide TablesAfter, DescriptorOf;
  }

  lemma NothingEmitted(files: seq<FileRow>, fileId: int, chunks: seq<MatchedChunk>, results: seq<Option<Bytes>>,
                       ref: Option<FileRow>, s: Snapshot)
    requires |chunks| == |results|
    ensures Emit(files, fileId, chunks, results, ref, s, 0) == Emission(s, [])
  {
  }

  lemma {:induction false} EmitLength(files: seq<FileRow>, fileId: int, chunks: seq<MatchedChunk>,
                                      results: seq<Option<Bytes>>, ref: Option<FileRow>, s: Snapshot, n: nat)
    requires n <= |chunks| == |results|
    ensures |Emit(files, fileId, chunks, results, ref, s, n).ds| == n
  {
    hide TablesAfter, DescriptorOf, Emit;
    if n == 0 {
      NothingEmitted(files, fileId, chunks, results, ref, s);
    } else {
      EmitLength(files, fileId, chunks, results, ref, s, n - 1);
      EmitStep(files, fileId, chunks, results, ref, s, n);
    }
  }

  /** Emission never renumbers: it extends all three tables and keeps them free of
      duplicates. */
  lemma {:induction false} EmitKeeps(files: seq<FileRow>, fileId: int, chunks: seq<MatchedChunk>,
                                     results: seq<Option<Bytes>>, ref: Option<FileRow>, s: Snapshot, n: nat)
    requires n <= |chunks| == |results| && s.Distinct()
    ensures
      var t := Emit(files, fileId, chunks, results, ref, s, n);
      t.tables.Distinct() && Extends(s, t.tables)
  {
    hide TablesAfter, DescriptorOf, Snapshot.Distinct, Emit, Extends;
    if n == 0 {
      NothingEmitted(files, fileId, chunks, results, ref, s);
      ExtendsItself(s);
    } else {
      EmitKeeps(files, fileId, chunks, results, ref, s, n - 1);
      EmitStep(files, fileId, chunks, results, ref, s, n);
      var before := Emit(files, fileId, chunks, results, ref, s, n - 1).tables;
      StepKeeps(files, fileId, chunks[n - 1], results[n - 1], ref, before);
      ExtendsOn(s, before, Emit(files, fileId, chunks, results, ref, s, n).tables);
    }
  }
}
