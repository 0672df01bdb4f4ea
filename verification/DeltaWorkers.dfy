/** The reference index cache (internal/cmd/dnar-pack/delta.go) and the parallel deltas over
    the missing chunks of one file (internal/cmd/dnar-pack/dnar.go). */
module DeltaWorkers {
  import opened Prelude
  import opened Chunking
  import opened Delta
  import opened DeltaIndex
  import opened Database
  import opened Dnar
  import opened LocalIndex

  // ---------------------------------------------------------------------------
  // One reference at a time
  // ---------------------------------------------------------------------------

  // Mapping the file of a row gives these bytes.
  ghost predicate Maps(w: World, f: FileRow, data: Bytes) {
    f.storePathId in w.db.storePaths && w.RowPath(f) in w.sender && MapFile(w.sender[w.RowPath(f)]) == Some(data)
  }

  lemma MappedSize(w: World, f: FileRow)
    requires w.Indexed() && f in w.db.files
    ensures w.RowPath(f) in w.sender
    ensures forall data :: MapFile(w.sender[w.RowPath(f)]) == Some(data) ==> |data| <= MAX_ALLOC
  {
    assert w.SoundRow(f);
  }

  lemma MapsContent(w: World, f: FileRow, data: Bytes)
    requires w.Indexed() && f in w.db.files && f.kind == RegularKind
    ensures MapFile(w.sender[w.RowPath(f)]).Some? && (Maps(w, f, data) ==> w.HasContent(f, data))
  {
    assert w.SoundRow(f);
  }

  class RefIndexCache {
    var fileID: int
    var index: Index?
    var mapped: bool  // a mapping is held, with its unmap function

    // The cached index, if any, is over the content of the file with the cached id.
    ghost predicate Valid(w: World)
      reads this, if index == null then {} else {index.head}
    {
      && (index != null <==> mapped)
      && (index == null ==> fileID == -1)
      && (index != null ==>
        && index.Valid() && Built(index.base, index.AsTable())
        && forall f :: f in w.db.files && f.id == fileID ==> Maps(w, f, index.base))
    }

    constructor (w: World)
      ensures Valid(w) && index == null
    {
      fileID, index, mapped := -1, null, false;
    }

    // The sender's file at the row's path is mapped and indexed, or the cached index is
    // returned; null stands for an error, which leaves the cache as it was.
    method Get(w: World, f: FileRow) returns (r: Index?)
      requires Valid(w) && w.Indexed() && f in w.db.files
      modifies this
      ensures Valid(w)
      ensures r != null ==>
        r == index && fileID == f.id && r.Valid() && Maps(w, f, r.base) && Built(r.base, r.AsTable())
      ensures old(index) != null && old(fileID) == f.id ==> r == old(index)
      ensures r != null ==> r == old(index) || fresh(r.head)
      ensures r == null <==> MapFile(w.sender[w.RowPath(f)]).None?
      ensures r == null ==> index == old(index) && fileID == old(fileID)
    {
      if index != null && fileID == f.id {
        return index;
      }
      assert w.SoundRow(f);
      var data := MapFile(w.sender[w.RowPath(f)]);
      if data.None? {
        return null;
      }
      MappedSize(w, f);
      Close(w);
      var ix := new Index(data.value);
      mapped, fileID, index := true, f.id, ix;
      return ix;
    }

    method Close(w: World)
      modifies this
      ensures Valid(w) && index == null
    {
      mapped := false;
      index, fileID := null, -1;
    }
  }

  // ---------------------------------------------------------------------------
  // What a worker computes
  // ---------------------------------------------------------------------------

  // The missing chunks of a file, against one reference.
  datatype Jobs = Jobs(codec: Codec, base: Bytes, table: Table, chunks: seq<MatchedChunk>, content: Bytes)
  {
    ghost predicate Valid() {
      && table.Valid() && |base| <= MAX_ALLOC && |content| <= MAX_ALLOC
      && forall i :: 0 <= i < |chunks| ==> chunks[i].offset + chunks[i].size <= |content|
    }

    predicate Skipped(i: nat)
      requires i < |chunks|
    {
      chunks[i].matched || chunks[i].size == 0
    }

    function ChunkData(i: nat): Bytes
      requires i < |chunks| && chunks[i].offset + chunks[i].size <= |content|
    {
      content[chunks[i].offset..chunks[i].offset + chunks[i].size]
    }

    function Encoded(i: nat): Bytes
      requires Valid() && i < |chunks|
    {
      codec.marshal(DiffOps(base, table, ChunkData(i)))
    }

    // Slot i of the results: the delta, if it is missing on the target and pays off.
    function Result(i: nat): Option<Bytes>
      requires Valid() && i < |chunks|
    {
      if !Skipped(i) && |Encoded(i)| < chunks[i].size then Some(Encoded(i)) else None
    }
  }

  // Jobs are taken up in any order; each writes its own slot.
  method ComputeDeltas(j: Jobs, ix: Index) returns (results: seq<Option<Bytes>>)
    requires j.Valid() && ix.Valid() && ix.base == j.base && ix.AsTable() == j.table
    ensures |results| == |j.chunks| && forall i :: 0 <= i < |j.chunks| ==> results[i] == j.Result(i)
    ensures forall i :: 0 <= i < |j.chunks| ==>
      var c := j.chunks[i];
      var delta := j.codec.marshal(DiffOps(j.base, j.table, j.content[c.offset..c.offset + c.size]));
      results[i] == if c.matched || c.size == 0 || c.size <= |delta| then None else Some(delta)
  {
    hide DiffOps, Pow2;
    var slots := new Option<Bytes>[|j.chunks|](_ => None);
    var pending := set i | 0 <= i < |j.chunks| && !j.Skipped(i);
    while pending != {}
      invariant ix.Valid() && ix.AsTable() == j.table
      invariant forall i :: i in pending ==> 0 <= i < |j.chunks| && !j.Skipped(i)
      invariant forall i :: 0 <= i < |j.chunks| ==> slots[i] == if i in pending then None else j.Result(i)
      decreases pending
    {
      var i :| i in pending;
      var chunkData := j.ChunkData(i);
      var d := ix.Diff(j.codec, chunkData);
      if |d| < |chunkData| {
        slots[i] := Some(d);
      }
      pending := pending - {i};
    }
    results := slots[..];
    forall i | 0 <= i < |j.chunks|
      ensures SlotIs(j, results[i], i)
    {
      ResultMeans(j, i);
    }
  }

  // What a slot should hold, in the chunk's own fields.
  ghost predicate SlotIs(j: Jobs, slot: Option<Bytes>, i: nat)
    requires j.Valid() && i < |j.chunks|
  {
    var c := j.chunks[i];
    var delta := j.codec.marshal(DiffOps(j.base, j.table, j.content[c.offset..c.offset + c.size]));
    slot == if c.matched || c.size == 0 || c.size <= |delta| then None else Some(delta)
  }

  lemma ResultMeans(j: Jobs, i: nat)
    requires j.Valid() && i < |j.chunks|
    ensures SlotIs(j, j.Result(i), i)
  {
    hide DiffOps;
  }

  // ---------------------------------------------------------------------------
  // Every interleaving
  // ---------------------------------------------------------------------------

  // A worker reads its chunk, encodes it, and stores the outcome.
  datatype Phase = Waiting | Loaded(data: Bytes) | Encoded(delta: Bytes) | Done

  datatype Pool = Pool(phases: seq<Phase>, results: seq<Option<Bytes>>)

  ghost predicate Started(j: Jobs, s: Pool) {
    && |s.phases| == |s.results| == |j.chunks|
    && forall i :: 0 <= i < |j.chunks| ==> s.results[i] == None && s.phases[i] == if j.Skipped(i) then Done else Waiting
  }

  // One step of worker i, with everything else unchanged.
  ghost predicate WorkerStep(j: Jobs, s: Pool, s': Pool, i: nat)
    requires j.Valid()
  {
    && i < |j.chunks| && i < |s.phases| && i < |s.results|
    && match s.phases[i]
       case Waiting => s' == s.(phases := s.phases[i := Loaded(j.ChunkData(i))])
       case Loaded(data) =>
         && |data| <= MAX_ALLOC
         && s' == s.(phases := s.phases[i := Encoded(j.codec.marshal(DiffOps(j.base, j.table, data)))])
       case Encoded(delta) =>
         s' == s.(phases := s.phases[i := Done],
                  results := if |delta| < j.chunks[i].size then s.results[i := Some(delta)] else s.results)
       case Done => false
  }

  ghost predicate SomeStep(j: Jobs, s: Pool, s': Pool)
    requires j.Valid()
  {
    exists i: nat :: WorkerStep(j, s, s', i)
  }

  ghost predicate Run(j: Jobs, run: seq<Pool>)
    requires j.Valid()
  {
    && run != [] && Started(j, run[0])
    && forall k :: 0 <= k < |run| - 1 ==> AnyStep(j, run, k)
  }

  ghost predicate AnyStep(j: Jobs, run: seq<Pool>, k: nat)
    requires j.Valid() && k + 1 < |run|
  {
    SomeStep(j, run[k], run[k + 1])
  }

  ghost predicate Finished(s: Pool) {
    forall i :: 0 <= i < |s.phases| ==> s.phases[i] == Done
  }

  ghost predicate WorkerSound(j: Jobs, s: Pool, i: nat)
    requires j.Valid() && i < |j.chunks| && i < |s.phases| && i < |s.results|
  {
    match s.phases[i]
    case Waiting => s.results[i] == None && !j.Skipped(i)
    case Loaded(data) => s.results[i] == None && !j.Skipped(i) && data == j.ChunkData(i)
    case Encoded(delta) => s.results[i] == None && !j.Skipped(i) && delta == j.Encoded(i)
    case Done => s.results[i] == j.Result(i)
  }

  ghost predicate PoolSound(j: Jobs, s: Pool)
    requires j.Valid()
  {
    && |s.phases| == |s.results| == |j.chunks|
    && forall i :: 0 <= i < |j.chunks| ==> WorkerSound(j, s, i)
  }

  lemma StepSound(j: Jobs, s: Pool, s': Pool, i: nat)
    requires j.Valid() && PoolSound(j, s) && WorkerStep(j, s, s', i)
    ensures PoolSound(j, s')
  {
    hide DiffOps;
    assert WorkerSound(j, s, i);
    forall k | 0 <= k < |j.chunks|
      ensures WorkerSound(j, s', k)
    {
      assert WorkerSound(j, s, k);
    }
  }

  // How many steps a worker has left.
  function StepsLeft(p: Phase): nat {
    match p
    case Waiting => 3
    case Loaded(_) => 2
    case Encoded(_) => 1
    case Done => 0
  }

  function Remaining(phases: seq<Phase>): nat {
    if phases == [] then 0 else Remaining(phases[..|phases| - 1]) + StepsLeft(phases[|phases| - 1])
  }

  lemma {:induction false} RemainingUpdate(phases: seq<Phase>, i: nat, p: Phase)
    requires i < |phases|
    ensures Remaining(phases[i := p]) == Remaining(phases) - StepsLeft(phases[i]) + StepsLeft(p)
  {
    var n := |phases| - 1;
    if i < n {
      RemainingUpdate(phases[..n], i, p);
      assert phases[i := p][..n] == phases[..n][i := p];
    } else {
      assert phases[i := p][..n] == phases[..n];
    }
  }

  /** The workers cannot get stuck: as long as one is not done, a step is possible, and every
      step takes them closer to the end. */
  lemma AlwaysProgress(j: Jobs, s: Pool) returns (s': Pool)
    requires j.Valid() && PoolSound(j, s)
    ensures !Finished(s) ==> SomeStep(j, s, s')
  {
    hide DiffOps;
    s' := s;
    if !Finished(s) {
      var i: nat :| i < |s.phases| && s.phases[i] != Done;
      assert WorkerSound(j, s, i);
      match s.phases[i] {
        case Waiting =>
          s' := s.(phases := s.phases[i := Loaded(j.ChunkData(i))]);
        case Loaded(data) =>
          s' := s.(phases := s.phases[i := Encoded(j.codec.marshal(DiffOps(j.base, j.table, data)))]);
        case Encoded(delta) =>
          s' := s.(phases := s.phases[i := Done],
                   results := if |delta| < j.chunks[i].size then s.results[i := Some(delta)] else s.results);
      }
      assert WorkerStep(j, s, s', i);
    }
  }

  lemma StepsEnd(j: Jobs, s: Pool, s': Pool)
    requires j.Valid() && SomeStep(j, s, s')
    ensures Remaining(s'.phases) < Remaining(s.phases)
  {
    hide DiffOps;
    var i: nat :| WorkerStep(j, s, s', i);
    RemainingUpdate(s.phases, i, s'.phases[i]);
  }

  lemma {:induction false} RunSound(j: Jobs, run: seq<Pool>, k: nat)
    requires j.Valid() && Run(j, run) && k < |run|
    ensures PoolSound(j, run[k])
  {
    if k > 0 {
      RunSound(j, run, k - 1);
      assert AnyStep(j, run, k - 1);
      var i: nat :| WorkerStep(j, run[k - 1], run[k - 1 + 1], i);
      StepSound(j, run[k - 1], run[k], i);
    } else {
      hide DiffOps;
      forall i | 0 <= i < |j.chunks|
        ensures WorkerSound(j, run[0], i)
      {
      }
    }
  }

  /** Schedule independence: whatever the interleaving of the workers' steps, once all are done
      the results are those of computing the chunks one after the other. */
  lemma ScheduleIndependent(j: Jobs, run: seq<Pool>)
    requires j.Valid() && Run(j, run) && Finished(run[|run| - 1])
    ensures run[|run| - 1].results == seq(|j.chunks|, i requires 0 <= i < |j.chunks| => j.Result(i))
    ensures forall i :: 0 <= i < |j.chunks| ==>
      var c := j.chunks[i];
      var delta := j.codec.marshal(DiffOps(j.base, j.table, j.content[c.offset..c.offset + c.size]));
      run[|run| - 1].results[i] == if c.matched || c.size == 0 || c.size <= |delta| then None else Some(delta)
  {
    var s := run[|run| - 1];
    RunSound(j, run, |run| - 1);
    forall i | 0 <= i < |j.chunks|
      ensures s.results[i] == j.Result(i)
    {
      assert WorkerSound(j, s, i);
    }
    forall i | 0 <= i < |j.chunks|
      ensures SlotIs(j, s.results[i], i)
    {
      ResultMeans(j, i);
    }
  }
}
