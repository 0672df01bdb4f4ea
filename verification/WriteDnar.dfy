/** writeDNAR as a whole (internal/cmd/dnar-pack/dnar.go): NARs streamed while the tables
    grow, then the payloads, then the trailer that resolves every index. */
module WriteDnar {
  import opened Prelude
  import opened Tree
  import opened Database
  import opened LocalIndex
  import opened DeltaWorkers
  import opened Dnar
  import opened TableLists
  import opened Tables
  import opened Packer
  import opened Stream

  // What `nix path-info` reports for a store path.
  datatype PathInfo = PathInfo(narHash: Str, narSize: uint64, references: seq<Str>)

  ghost function PathsCost(w: World, storePaths: seq<Str>): nat {
    if storePaths == [] then 0 else
      PathsCost(w, storePaths[..|storePaths| - 1]) + PathCost(w, storePaths[|storePaths| - 1])
  }

  ghost function PathsBudget(w: World, storePaths: seq<Str>): nat
    requires forall p :: p in storePaths ==> w.Lists(p)
  {
    if storePaths == [] then 0 else
      PathsBudget(w, storePaths[..|storePaths| - 1]) + PathBudget(w, storePaths[|storePaths| - 1])
  }

  // What a store path may cost.
  ghost function PathSum(w: World, storePath: Str): nat
    requires w.Lists(storePath)
  {
    var l := Listing(w.sender[storePath]);
    Sum(RowCosts(w, FilesOf(w.db.storePaths, w.db.files, storePath), l, |l|))
  }

  ghost function PathSums(w: World, storePaths: seq<Str>): seq<nat>
    requires forall p :: p in storePaths ==> w.Lists(p)
  {
    seq(|storePaths|, k requires 0 <= k < |storePaths| && w.Lists(storePaths[k]) => PathSum(w, storePaths[k]))
  }

  /** The bound on the payload of an archive is the sum of the sizes of the chunks that the
      target lacks, of the files that it lacks, in the directories that it lacks. */
  lemma {:induction false} PathsBudgetIs(w: World, storePaths: seq<Str>)
    requires forall p :: p in storePaths ==> w.Lists(p)
    ensures PathsBudget(w, storePaths) == Sum(PathSums(w, storePaths))
  {
    hide World.Lists, PathBudget, PathSum, PathSums, PathsBudget, Sum;
    if storePaths == [] {
      NoPathSums(w);
    } else {
      var init, p := storePaths[..|storePaths| - 1], storePaths[|storePaths| - 1];
      PathsBudgetIs(w, init);
      PathBudgetIs(w, p);
      LastPathSum(w, storePaths);
      SumSnoc(PathSums(w, init), PathSum(w, p));
    }
  }

  lemma NoPathSums(w: World)
    ensures PathsBudget(w, []) == 0 && Sum(PathSums(w, [])) == 0
  {
  }

  lemma LastPathSum(w: World, storePaths: seq<Str>)
    requires storePaths != [] && forall p :: p in storePaths ==> w.Lists(p)
    ensures
      var init, p := storePaths[..|storePaths| - 1], storePaths[|storePaths| - 1];
      && PathSums(w, storePaths) == PathSums(w, init) + [PathSum(w, p)]
      && PathsBudget(w, storePaths) == PathsBudget(w, init) + PathBudget(w, p)
  {
    hide World.Lists, PathBudget, PathSum;
  }

  lemma PathBudgetIs(w: World, storePath: Str)
    requires w.Lists(storePath)
    ensures PathBudget(w, storePath) == PathSum(w, storePath)
  {
    hide RowsBudget, RowCosts;
    var l := Listing(w.sender[storePath]);
    RowsBudgetIs(w, FilesOf(w.db.storePaths, w.db.files, storePath), l, |l|);
  }

  lemma {:induction false} PathsCostMonotone(w: World, storePaths: seq<Str>, k: nat)
    requires k <= |storePaths|
    ensures PathsCost(w, storePaths[..k]) <= PathsCost(w, storePaths)
  {
    hide PathCost;
    if k == |storePaths| {
      assert storePaths[..k] == storePaths;
    } else {
      var init := storePaths[..|storePaths| - 1];
      PathsCostMonotone(w, init, k);
      assert init[..k] == storePaths[..k];
    }
  }

  // The NAR of a store path: against the given target it unpacks to the items of its path if
  // and only if every match that was used for it is right.
  ghost predicate NarPacked(w: World, nar: NAR, storePath: Str, infos: map<Str, PathInfo>, t: Target, used: seq<Use>) {
    && nar.path == storePath && storePath in infos
    && nar.narHash == infos[storePath].narHash && nar.narSize == infos[storePath].narSize
    && nar.references == infos[storePath].references
    && w.Lists(storePath) && FilesInRange(nar.files, t) && UsedOf(w, storePath, used)
    && UsedNamed(w, nar.files, used, t)
    && (Unpack(nar.files, t) == Ok(PathItems(w, storePath)) <==> UsedRight(w, used))
  }

  ghost predicate NarsPacked(w: World, nars: seq<NAR>, storePaths: seq<Str>, infos: map<Str, PathInfo>, t: Target,
                             uses: seq<seq<Use>>)
  {
    && |nars| == |uses| <= |storePaths|
    && forall k :: 0 <= k < |nars| ==> NarPacked(w, nars[k], storePaths[k], infos, t, uses[k])
  }

  // Every match that was used, for any of the store paths, is right.
  ghost predicate AllUsedRight(w: World, uses: seq<seq<Use>>) {
    forall k :: 0 <= k < |uses| ==> UsedRight(w, uses[k])
  }

  lemma NarsStable(w: World, nars: seq<NAR>, storePaths: seq<Str>, infos: map<Str, PathInfo>, t: Target,
                   uses: seq<seq<Use>>, t': Target)
    requires NarsPacked(w, nars, storePaths, infos, t, uses) && Grows(t, t')
    ensures NarsPacked(w, nars, storePaths, infos, t', uses)
  {
    hide Grows, Unpack, PathItems, FilesInRange, UsedOf, UsedNamed, UsedRight;
    forall k | 0 <= k < |nars|
      ensures NarPacked(w, nars[k], storePaths[k], infos, t', uses[k])
    {
      assert NarPacked(w, nars[k], storePaths[k], infos, t, uses[k]);
      UnpackStable(nars[k].files, t, t');
      StillInRange(nars[k].files, t, t');
      UsedNamedStill(w, nars[k].files, uses[k], t, t');
    }
  }

  // Every entry that the packer looks up has right matches only.
  ghost predicate AllRight(w: World, storePaths: seq<Str>)
    requires forall p :: p in storePaths ==> w.Lists(p)
  {
    forall p :: p in storePaths ==> RightMatches(w, p)
  }

  // The loop over the new store paths.
  method PackPaths(tb: Tables, li: LocalIndex, cache: RefIndexCache, storePaths: seq<Str>, infos: map<Str, PathInfo>)
    returns (ok: bool, nars: seq<NAR>, ghost uses: seq<seq<Use>>)
    requires tb.Valid() && li.Valid() && li.w == tb.w && cache.Valid(tb.w)
    requires tb.load == 0 && tb.chunkDeps == [] && PathsCost(tb.w, storePaths) <= MAX_ALLOC
    requires forall p :: p in storePaths ==> tb.w.Lists(p)
    modifies tb, li, cache
    ensures tb.Valid() && li.Valid()
    ensures ok <==> forall p :: p in storePaths ==> p in infos
    ensures ok ==> |nars| == |storePaths|
    ensures ok ==> NarsPacked(tb.w, nars, storePaths, infos, tb.AsTarget(), uses)
    ensures ok ==> PayloadTotal(tb.w, tb.chunkDeps) <= PathsBudget(tb.w, storePaths)
  {
    hide Tables.Valid, Tables.AsTarget, PayloadTotal, RefIndexCache.Valid, LocalIndex.Valid, PathCost, PathItems,
      World.Lists, NarPacked, NarsPacked, PathsCost, PathsBudget, PathBudget, Unpack, FilesInRange, UsedOf, UsedNamed,
      UsedRight;
    nars, uses := [], [];
    NothingYet(tb.w, storePaths, infos, tb.AsTarget());
    for k := 0 to |storePaths|
      invariant tb.Valid() && li.Valid() && cache.Valid(tb.w) && |nars| == k
      invariant tb.load <= PathsCost(tb.w, storePaths[..k])
      invariant forall p :: p in storePaths[..k] ==> p in infos
      invariant NarsPacked(tb.w, nars, storePaths, infos, tb.AsTarget(), uses)
      invariant PayloadTotal(tb.w, tb.chunkDeps) <= PathsBudget(tb.w, storePaths[..k])
    {
      var storePath := storePaths[k];
      if storePath !in infos {
        return false, nars, uses;
      }
      PathsStep(tb.w, storePaths, k);
      label Before:
      var files;
      ghost var used;
      files, used := PackFiles(tb, li, cache, storePath);
      var info := infos[storePath];
      var nar := NAR(storePath, files, info.narHash, info.narSize, info.references);
      tb.GrewMeansGrows@Before();
      NarsStable(tb.w, nars, storePaths, infos, old@Before(tb.AsTarget()), uses, tb.AsTarget());
      NarPackedNow(tb.w, nar, storePath, infos, tb.AsTarget(), used);
      NarsAppend(tb.w, nars, nar, storePaths, infos, tb.AsTarget(), uses, used);
      nars, uses := nars + [nar], uses + [used];
    }
    assert storePaths[..|storePaths|] == storePaths;
    ok := true;
  }

  lemma NothingYet(w: World, storePaths: seq<Str>, infos: map<Str, PathInfo>, t: Target)
    ensures PayloadTotal(w, []) == 0 && PathsCost(w, storePaths[..0]) == 0 && PathsBudget(w, storePaths[..0]) == 0
    ensures NarsPacked(w, [], storePaths, infos, t, [])
  {
  }

  lemma PathsStep(w: World, storePaths: seq<Str>, k: nat)
    requires k < |storePaths| && forall p :: p in storePaths ==> w.Lists(p)
    ensures PathsCost(w, storePaths[..k + 1]) == PathsCost(w, storePaths[..k]) + PathCost(w, storePaths[k])
    ensures PathsCost(w, storePaths[..k + 1]) <= PathsCost(w, storePaths)
    ensures PathsBudget(w, storePaths[..k + 1]) == PathsBudget(w, storePaths[..k]) + PathBudget(w, storePaths[k])
  {
    hide PathCost, PathBudget, World.Lists;
    assert storePaths[..k + 1][..k] == storePaths[..k];
    PathsCostMonotone(w, storePaths, k + 1);
  }

  lemma NarsAppend(w: World, nars: seq<NAR>, nar: NAR, storePaths: seq<Str>, infos: map<Str, PathInfo>, t: Target,
                   uses: seq<seq<Use>>, used: seq<Use>)
    requires NarsPacked(w, nars, storePaths, infos, t, uses) && |nars| < |storePaths|
    requires NarPacked(w, nar, storePaths[|nars|], infos, t, used)
    ensures NarsPacked(w, nars + [nar], storePaths, infos, t, uses + [used])
  {
    hide NarPacked;
  }

  lemma NarPackedNow(w: World, nar: NAR, storePath: Str, infos: map<Str, PathInfo>, t: Target, used: seq<Use>)
    requires nar.path == storePath && storePath in infos
    requires nar.narHash == infos[storePath].narHash && nar.narSize == infos[storePath].narSize
    requires nar.references == infos[storePath].references
    requires w.Lists(storePath) && FilesInRange(nar.files, t) && UsedOf(w, storePath, used)
    requires UsedNamed(w, nar.files, used, t)
    requires Unpack(nar.files, t) == Ok(PathItems(w, storePath)) <==> UsedRight(w, used)
    ensures NarPacked(w, nar, storePath, infos, t, used)
  {
    hide World.Lists, FilesInRange, UsedOf, UsedNamed, Unpack, PathItems, UsedRight;
  }

  // ---------------------------------------------------------------------------
  // The payload stream
  // ---------------------------------------------------------------------------

  // Open files by file id, as far as they have been needed.
  ghost predicate OpenFiles(w: World, fds: map<int, Bytes>) {
    forall id :: id in fds ==> exists f: FileRow :: f.id == id && w.HasContent(f, fds[id])
  }

  method WritePayloads(w: World, deps: seq<BulkPayload>) returns (out: seq<Message>)
    requires w.Indexed() && forall i :: 0 <= i < |deps| && deps[i].Verbatim? ==> deps[i].chunk in w.db.chunks
    ensures out == ChunkMessages(Payloads(w, deps))
  {
    hide World.Indexed, World.HasContent, Payloads, PayloadData;
    var fds: map<int, Bytes> := map[];
    out := [];
    for k := 0 to |deps|
      invariant OpenFiles(w, fds)
      invariant |out| == k && forall i :: 0 <= i < k ==> out[i] == CAChunkMessage(PayloadData(w, deps[i]))
    {
      match deps[k] {
        case Computed(data) =>
          ComputedData(w, data);
          out := out + [CAChunkMessage(data)];
        case Verbatim(chunk) =>
          ghost var f, content := AnyChunkRow(w, chunk);
          if chunk.fileId !in fds {
            var file := OpenById(w, chunk.fileId, f, content);
            fds := fds[chunk.fileId := file];
          }
          SameOpenFile(w, fds, chunk, f, content);
          var data := fds[chunk.fileId][chunk.offset..chunk.offset + chunk.size];
          VerbatimData(w, chunk, data);
          out := out + [CAChunkMessage(data)];
      }
    }
  }

  lemma ComputedData(w: World, data: Bytes)
    ensures PayloadData(w, Computed(data)) == data
  {
  }

  lemma SameOpenFile(w: World, fds: map<int, Bytes>, c: ChunkRow, f: FileRow, content: Bytes)
    requires w.Indexed() && OpenFiles(w, fds) && c.fileId in fds && f.id == c.fileId && w.HasContent(f, content)
    ensures fds[c.fileId] == content
  {
    var g: FileRow :| g.id == c.fileId && w.HasContent(g, fds[c.fileId]);
    assert f == g;
  }

  method OpenById(w: World, id: int, ghost f: FileRow, ghost content: Bytes) returns (file: Bytes)
    requires w.Indexed() && w.HasContent(f, content) && f.id == id
    ensures file == content
  {
    var rows := set g | g in w.db.files && g.id == id;
    assert f in rows;
    var g :| g in rows;
    assert g == f;
    file := w.sender[w.RowPath(g)].content;
  }

  // ---------------------------------------------------------------------------
  // The trailer
  // ---------------------------------------------------------------------------

  lemma {:induction false} DistinctBound(s: seq<int>, keys: set<int>)
    requires forall i, j :: 0 <= i < j < |s| ==> s[i] != s[j]
    requires forall i :: 0 <= i < |s| ==> s[i] in keys
    ensures |s| <= |keys|
  {
    if s != [] {
      var n := |s| - 1;
      DistinctBound(s[..n], keys - {s[n]});
    }
  }

  // Every path index fits the trailer's uint32, so the trailer resolves every file index to
  // the file's absolute path.
  method WriteTrailer(tb: Tables) returns (t: PathTrailer)
    requires tb.Valid() && |tb.w.db.storePaths| <= TWO_32
    ensures Resolves(t, InputPaths(tb.w, tb.inputStoreFiles))
    ensures |t.paths| == |tb.inputStorePathIDs|
    ensures forall i :: 0 <= i < |t.paths| ==>
      && tb.inputStorePathIDs[i] in tb.w.db.storePaths
      && t.paths[i] == tb.w.db.storePaths[tb.inputStorePathIDs[i]]
  {
    hide Sound, Tables.ValidChunks, Resolves, ResolvesTo;
    DistinctBound(tb.inputStorePathIDs, tb.w.db.storePaths.Keys);
    var ids, names := tb.inputStorePathIDs, tb.w.db.storePaths;
    var paths: seq<Str> := seq(|ids|, i requires 0 <= i < |ids| && ids[i] in names => names[ids[i]]);
    var files: seq<FileDescriptor> := [];
    NoneResolved(paths);
    assert InputPaths(tb.w, tb.inputStoreFiles[..0]) == [];
    for i := 0 to |tb.inputStoreFiles|
      invariant Resolves(PathTrailer(paths, files), InputPaths(tb.w, tb.inputStoreFiles[..i]))
    {
      var f := tb.inputStoreFiles[i];
      var path := f.path;
      if path == [SLASH] {
        path := [];
      }
      var index := IndexOf(ids, f.storePathId);
      var d := FileDescriptor(index % TWO_32, path);
      assert paths[index] + path == InputPath(tb.w, f) by {
        assert paths[index] + [] == paths[index];
      }
      OneMoreResolved(paths, files, InputPaths(tb.w, tb.inputStoreFiles[..i]), d);
      assert InputPaths(tb.w, tb.inputStoreFiles[..i + 1]) ==
        InputPaths(tb.w, tb.inputStoreFiles[..i]) + [InputPath(tb.w, f)];
      files := files + [d];
    }
    assert tb.inputStoreFiles[..|tb.inputStoreFiles|] == tb.inputStoreFiles;
    t := PathTrailer(paths, files);
  }

  lemma NoneResolved(paths: seq<Str>)
    ensures Resolves(PathTrailer(paths, []), [])
  {
  }

  lemma OneMoreResolved(paths: seq<Str>, files: seq<FileDescriptor>, inputs: seq<Str>, d: FileDescriptor)
    requires Resolves(PathTrailer(paths, files), inputs) && 0 <= d.storePath < |paths|
    ensures Resolves(PathTrailer(paths, files + [d]), inputs + [paths[d.storePath] + d.path])
  {
    var before, after := PathTrailer(paths, files), PathTrailer(paths, files + [d]);
    forall i | 0 <= i < |after.files|
      ensures ResolvesTo(after, after.files[i], (inputs + [paths[d.storePath] + d.path])[i])
    {
      assert i < |files| ==> ResolvesTo(before, before.files[i], inputs[i]);
    }
  }

  // ---------------------------------------------------------------------------
  // The archive
  // ---------------------------------------------------------------------------

  // The new store paths are in the database and everything fits the machine's integers.
  ghost predicate CanPack(w: World, target: map<Str, Node>, storePaths: seq<Str>) {
    && Sound(w, target) && |w.db.storePaths| <= TWO_32
    && 8 * |storePaths| <= MAX_ALLOC && PathsCost(w, storePaths) <= MAX_ALLOC
    && forall p :: p in storePaths ==> w.Lists(p)
  }

  /** Whatever matches SQL returns, whatever reference file wins and in whatever order the
      deltas finish: every streamed NAR unpacks, against the final payload stream and trailer
      and the target's own store, to the items of its store path if and only if the matches
      used for it are right; no digest is sent twice and the payloads cost no more than the
      chunks the target lacks. */
  method WriteDNAR(w: World, storePaths: seq<Str>, infos: map<Str, PathInfo>, ghost target: map<Str, Node>)
    returns (ok: bool, out: seq<Message>, ghost a: Archive, ghost inputs: seq<Str>, ghost deps: seq<BulkPayload>,
             ghost uses: seq<seq<Use>>)
    requires CanPack(w, target, storePaths)
    ensures ok <==> forall p :: p in storePaths ==> p in infos
    ensures ok ==> out == Serialize(a)
    ensures ok ==> |a.nars| == |storePaths|
    ensures ok ==> NarsPacked(w, a.nars, storePaths, infos, Target(target, inputs, a.payloads, w.codec), uses)
    ensures ok ==> Resolves(a.trailer, inputs) && |a.payloads| <= MAX_ALLOC
    ensures ok ==> a.payloads == Payloads(w, deps) && SentOnce(deps)
    ensures ok ==> PayloadTotal(w, deps) <= PathsBudget(w, storePaths)
  {
    hide Tables.Valid, Sound, World.Lists, PathsCost, PathsBudget, PathCost, NarsPacked, RefIndexCache.Valid,
      LocalIndex.Valid, PayloadTotal, Payloads, InputPaths, SentOnce, Resolves, Tables.AsTarget;
    a, inputs, deps := Archive([], [], PathTrailer([], [])), [], [];
    var tb := new Tables(w, target);
    var li := new LocalIndex(w);
    var cache := new RefIndexCache(w);
    out := [StreamHeader(|storePaths|)];
    var nars;
    ok, nars, uses := PackPaths(tb, li, cache, storePaths, infos);
    if !ok {
      return;
    }
    var tail, trailer := WriteTables(tb);
    out := out + NarMessages(nars) + tail;
    a := Archive(nars, Payloads(w, tb.chunkDeps), trailer);
    inputs, deps := InputPaths(w, tb.inputStoreFiles), tb.chunkDeps;
    assert tb.AsTarget() == Target(target, inputs, a.payloads, w.codec) by {
      TargetOf(tb);
    }
  }

  lemma TargetOf(tb: Tables)
    ensures tb.AsTarget() ==
      Target(tb.target, InputPaths(tb.w, tb.inputStoreFiles), Payloads(tb.w, tb.chunkDeps), tb.w.codec)
  {
  }

  // Verbatim payloads are chunks of the database.
  lemma SentFromDb(tb: Tables)
    requires tb.ValidChunks()
    ensures forall i :: 0 <= i < |tb.chunkDeps| && tb.chunkDeps[i].Verbatim? ==> tb.chunkDeps[i].chunk in tb.w.db.chunks
  {
  }

  // What follows the NARs: the payloads behind their own header, then the trailer.
  method WriteTables(tb: Tables) returns (out: seq<Message>, trailer: PathTrailer)
    requires tb.Valid() && |tb.w.db.storePaths| <= TWO_32
    ensures out ==
      [StreamHeader(|tb.chunkDeps| % TWO_64)] + ChunkMessages(Payloads(tb.w, tb.chunkDeps)) + [TrailerMessage(trailer)]
    ensures Resolves(trailer, InputPaths(tb.w, tb.inputStoreFiles))
    ensures SentOnce(tb.chunkDeps) && |tb.chunkDeps| <= MAX_ALLOC
  {
    hide World.Indexed, World.CollisionFree, Tables.ValidFiles, Tables.ValidPathIDs, Tables.ValidChunks, Resolves,
      Payloads, SentOnce;
    tb.NothingTwice();
    SentFromDb(tb);
    var messages := WritePayloads(tb.w, tb.chunkDeps);
    trailer := WriteTrailer(tb);
    out := [StreamHeader(|tb.chunkDeps|)] + messages + [TrailerMessage(trailer)];
  }
}
