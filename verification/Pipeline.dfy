/** The two programs end to end: dnar-pack on the sender, dnar-unpack nix-store-export on the
    target (internal/cmd/dnar-pack/main.go, internal/cmd/dnar-unpack/nix-store-export.go). */
module Pipeline {
  import opened Prelude
  import opened Paths
  import opened Tree
  import opened DirectorySkip
  import opened SiblingNames
  import opened Delta
  import opened Database
  import opened Dnar
  import opened ChunkStore
  import opened TableLists
  import opened Tables
  import opened Packer
  import opened Stream
  import opened WriteDnar
  import opened Unpacker
  import opened ExportFormat
  import opened ImportStream
  import opened ClosureDiff

  // storepath.StoreDir, "/nix/store".
  const STORE_DIR: Str := [47, 110, 105, 120, 47, 115, 116, 111, 114, 101]

  function FullRefs(references: seq<Str>): seq<Str> {
    seq(|references|, i requires 0 <= i < |references| => STORE_DIR + [SLASH] + references[i])
  }

  function PathParts(path: Str, references: seq<Str>, items: seq<Item>): seq<Part> {
    [Raw(Word(1)), Nar(items), Raw(Trailer(path, FullRefs(references), []))]
  }

  // All NARs with their framing, if every one unpacks.
  ghost function NarsParts(nars: seq<NAR>, t: Target): Option<seq<Part>> {
    if nars == [] then Some([]) else
      var last := nars[|nars| - 1];
      var before, items := NarsParts(nars[..|nars| - 1], t), Unpack(last.files, t);
      if before.Some? && items.Ok? then
        Some(before.value + PathParts(last.path, last.references, items.value))
      else None
  }

  // One NAR with its framing: the word 1, the NAR, the trailer.
  method ExportNAR(nar: NAR, chunks: TempChunkStore, inputs: seq<Str>, store: map<Str, Node>, codec: Codec)
    returns (r: Outcome<seq<Part>>)
    requires chunks.Mapped()
    requires forall p :: p in store && store[p].Regular? ==> |store[p].content| <= MAX_ALLOC
    ensures var items := Unpack(nar.files, Target(store, inputs, chunks.written, codec));
      && (r.Ok? <==> items.Ok?) && (r.Ok? ==> r.value == PathParts(nar.path, nar.references, items.value))
  {
    hide TempChunkStore.Valid, Unpack, Word, Trailer;
    var count := new ByteWriter();
    var w := new NarWriter();
    var trailer := new ByteWriter();
    WriteUint64LE(count, 1);
    var done := WriteNAR(w, nar, chunks, inputs, store, codec);
    if !done.Ok? {
      return if done.Panic? then Panic else Err;
    }
    var refs := FullRefs(nar.references);
    WriteExportTrailer(trailer, nar.path, refs, []);
    assert count.out == Word(1) && trailer.out == Trailer(nar.path, refs, []);
    assert w.items == Unpack(nar.files, Target(store, inputs, chunks.written, codec)).value;
    r := Ok([Raw(count.out), Nar(w.items), Raw(trailer.out)]);
  }

  // nixStoreExportMain: everything is read before anything is written, and the first NAR that
  // does not unpack ends the program.
  method Export(messages: seq<Message>, store: map<Str, Node>, codec: Codec, ghost a: Archive, ghost inputs: seq<Str>)
    returns (ok: bool, parts: seq<Part>)
    requires forall p :: p in store && store[p].Regular? ==> |store[p].content| <= MAX_ALLOC
    requires messages == Serialize(a) && 8 * |a.nars| <= MAX_ALLOC && |a.payloads| <= MAX_ALLOC
    requires Resolves(a.trailer, inputs)
    ensures ok <==> NarsParts(a.nars, Target(store, inputs, a.payloads, codec)).Some?
    ensures ok ==> parts == NarsParts(a.nars, Target(store, inputs, a.payloads, codec)).value + [Raw(Word(0))]
  {
    hide TempChunkStore.Valid, Resolves, Accepts, Serialize, Unpack, Word, PathParts, NarsParts;
    var chunks := new TempChunkStore();
    var nars, files;
    ghost var t := Target(store, inputs, a.payloads, codec);
    ok, nars, files := ReadArchive(messages, chunks);
    SerializeAccepted(a, inputs, a.nars, a.payloads, inputs);
    SerializeAccepted(a, inputs, nars, chunks.written, files);
    parts := [];
    NoParts(t);
    for k := 0 to |nars|
      invariant chunks.Mapped() && chunks.written == a.payloads
      invariant NarsParts(nars[..k], t) == Some(parts)
    {
      PartsStep(nars, t, k);
      var exported := ExportNAR(nars[k], chunks, files, store, codec);
      if !exported.Ok? {
        PartsFail(nars, t, k + 1);
        return false, parts;
      }
      parts := parts + exported.value;
    }
    assert nars[..|nars|] == nars;
    var end := new ByteWriter();
    WriteUint64LE(end, 0);
    assert end.out == Word(0);
    parts := parts + [Raw(end.out)];
  }

  lemma NoParts(t: Target)
    ensures forall nars: seq<NAR> :: NarsParts(nars[..0], t) == Some([])
  {
  }

  lemma PartsStep(nars: seq<NAR>, t: Target, k: nat)
    requires k < |nars|
    ensures
      var before, items := NarsParts(nars[..k], t), Unpack(nars[k].files, t);
      NarsParts(nars[..k + 1], t) ==
        if before.Some? && items.Ok? then
          Some(before.value + PathParts(nars[k].path, nars[k].references, items.value))
        else None
  {
    hide Unpack, PathParts;
    assert nars[..k + 1][..k] == nars[..k];
  }

  lemma {:induction false} PartsFail(nars: seq<NAR>, t: Target, k: nat)
    requires k <= |nars| && NarsParts(nars[..k], t).None?
    ensures NarsParts(nars, t).None?
    decreases |nars| - k
  {
    hide Unpack, PathParts, NarsParts;
    if k == |nars| {
      assert nars[..k] == nars;
    } else {
      PartsStep(nars, t, k);
      PartsFail(nars, t, k + 1);
    }
  }

  // ---------------------------------------------------------------------------
  // What arrives
  // ---------------------------------------------------------------------------

  // The export stream of store paths whose NARs hold the given items.
  ghost function Exported(w: World, storePaths: seq<Str>, infos: map<Str, PathInfo>): seq<Part>
    requires forall p :: p in storePaths ==> p in infos && w.Lists(p)
  {
    if storePaths == [] then [] else
      var p := storePaths[|storePaths| - 1];
      Exported(w, storePaths[..|storePaths| - 1], infos) + PathParts(p, infos[p].references, PathItems(w, p))
  }

  ghost function OriginalItems(w: World, storePath: Str): seq<Item>
    requires w.Lists(storePath)
  {
    Items(Listing(w.sender[storePath]))
  }

  // The root was not matched, unless empty, and no kept directory whose hash the target knows
  // has a later sibling whose name extends its own.
  ghost predicate NothingLost(w: World, storePath: Str)
    requires w.Lists(storePath)
  {
    SiblingsApart(w.sender[storePath], KnownDirs(w, Listing(w.sender[storePath])))
  }

  // The same, with the sender's own trees.
  ghost function Originals(w: World, storePaths: seq<Str>, infos: map<Str, PathInfo>): seq<Part>
    requires forall p :: p in storePaths ==> p in infos && w.Lists(p)
  {
    if storePaths == [] then [] else
      var p := storePaths[|storePaths| - 1];
      Originals(w, storePaths[..|storePaths| - 1], infos) + PathParts(p, infos[p].references, OriginalItems(w, p))
  }

  // Framing has a fixed number of parts, so equal streams have equal NARs.
  lemma SameParts(a: seq<Part>, b: seq<Part>, path: Str, references: seq<Str>, x: seq<Item>, y: seq<Item>)
    ensures a + PathParts(path, references, x) == b + PathParts(path, references, y) <==> a == b && x == y
  {
    hide Trailer, Word;
    var p, q := PathParts(path, references, x), PathParts(path, references, y);
    if a + p == b + q {
      assert a == (a + p)[..|a|] && b == (b + q)[..|b|];
      assert p == (a + p)[|a|..] && q == (b + q)[|b|..];
      assert p[1] == Nar(x) && q[1] == Nar(y);
    }
  }

  lemma UsesSnoc(w: World, uses: seq<seq<Use>>, k: nat)
    requires k < |uses|
    ensures AllUsedRight(w, uses[..k + 1]) <==> AllUsedRight(w, uses[..k]) && UsedRight(w, uses[k])
  {
    hide UsedRight;
    assert uses[..k + 1][k] == uses[k];
    assert forall i :: 0 <= i < k ==> uses[..k + 1][i] == uses[..k][i];
  }

  // What the first k NARs are exported as is what it should be if and only if the matches
  // used for them are right.
  lemma {:induction false} NarsExportedIff(w: World, nars: seq<NAR>, storePaths: seq<Str>, infos: map<Str, PathInfo>,
                                           t: Target, uses: seq<seq<Use>>, k: nat)
    requires NarsPacked(w, nars, storePaths, infos, t, uses) && |nars| == |storePaths| && k <= |nars|
    requires forall p :: p in storePaths ==> p in infos && w.Lists(p)
    ensures NarsParts(nars[..k], t) == Some(Exported(w, storePaths[..k], infos)) <==> AllUsedRight(w, uses[..k])
  {
    hide Unpack, PathItems, PathParts, World.Lists, NarsParts, AllUsedRight, UsedRight, UsedOf, UsedNamed,
      FilesInRange, Exported;
    if k == 0 {
      NothingExported(w, nars, storePaths, infos, t, uses);
    } else {
      var n := k - 1;
      NarsExportedIff(w, nars, storePaths, infos, t, uses, n);
      assert NarPacked(w, nars[n], storePaths[n], infos, t, uses[n]);
      PartsStep(nars, t, n);
      ExportedStep(w, storePaths, infos, n);
      UsesSnoc(w, uses, n);
      var before, items := NarsParts(nars[..n], t), Unpack(nars[n].files, t);
      if before.Some? && items.Ok? {
        SameParts(before.value, Exported(w, storePaths[..n], infos), storePaths[n], infos[storePaths[n]].references,
                  items.value, PathItems(w, storePaths[n]));
      }
    }
  }

  lemma NothingExported(w: World, nars: seq<NAR>, storePaths: seq<Str>, infos: map<Str, PathInfo>, t: Target,
                        uses: seq<seq<Use>>)
    ensures NarsParts(nars[..0], t) == Some(Exported(w, storePaths[..0], infos)) && AllUsedRight(w, uses[..0])
  {
  }

  lemma ExportedStep(w: World, storePaths: seq<Str>, infos: map<Str, PathInfo>, k: nat)
    requires k < |storePaths| && forall p :: p in storePaths ==> p in infos && w.Lists(p)
    ensures Exported(w, storePaths[..k + 1], infos) == Exported(w, storePaths[..k], infos)
      + PathParts(storePaths[k], infos[storePaths[k]].references, PathItems(w, storePaths[k]))
  {
    hide PathParts, PathItems, World.Lists;
    assert storePaths[..k + 1][..k] == storePaths[..k];
  }

  // The matches used are those of the store paths' kept entries.
  ghost predicate UsesOf(w: World, storePaths: seq<Str>, uses: seq<seq<Use>>)
    requires forall p :: p in storePaths ==> w.Lists(p)
  {
    |uses| == |storePaths| && forall k :: 0 <= k < |uses| ==> UsedOf(w, storePaths[k], uses[k])
  }

  lemma UsesPacked(w: World, nars: seq<NAR>, storePaths: seq<Str>, infos: map<Str, PathInfo>, t: Target,
                   uses: seq<seq<Use>>)
    requires NarsPacked(w, nars, storePaths, infos, t, uses) && |nars| == |storePaths|
    requires forall p :: p in storePaths ==> w.Lists(p)
    ensures UsesOf(w, storePaths, uses)
  {
    hide Unpack, PathItems, World.Lists, UsedRight, UsedOf, UsedNamed, FilesInRange;
    forall k | 0 <= k < |uses|
      ensures UsedOf(w, storePaths[k], uses[k])
    {
      assert NarPacked(w, nars[k], storePaths[k], infos, t, uses[k]);
    }
  }

  /** If any match that SQL may return for an entry that is looked up is right, then so are all
      that were used. */
  lemma AllRightMeansUsed(w: World, storePaths: seq<Str>, uses: seq<seq<Use>>)
    requires (forall p :: p in storePaths ==> w.Lists(p)) && UsesOf(w, storePaths, uses) && AllRight(w, storePaths)
    ensures AllUsedRight(w, uses)
  {
    hide World.Lists, UsedRight, UsedOf, RightMatches;
    forall k | 0 <= k < |uses|
      ensures UsedRight(w, uses[k])
    {
      assert storePaths[k] in storePaths;
      AllRightUsed(w, storePaths[k], uses[k]);
    }
  }

  /** Unpack undoes pack: whatever matches, reference files and schedules the packer met, the
      unpacker, with only the packer's stream and what the target holds, exports the missing
      store paths in deployment order, each with its references and with the items its listing
      unfolds to, if and only if every whole-entry match that was used is right. */
  method Deploy(w: World, local: seq<Str>, deploy: seq<Str>, infos: map<Str, PathInfo>, target: map<Str, Node>)
    returns (ok: bool, parts: seq<Part>, ghost uses: seq<seq<Use>>)
    requires w.local == Members(local) && CanPack(w, target, Missing(deploy, w.local))
    requires forall p :: p in Missing(deploy, w.local) ==> p in infos
    requires forall p :: p in target && target[p].Regular? ==> |target[p].content| <= MAX_ALLOC
    ensures UsesOf(w, Missing(deploy, w.local), uses)
    ensures ok && parts == Exported(w, Missing(deploy, w.local), infos) + [Raw(Word(0))] <==> AllUsedRight(w, uses)
    ensures AllUsedRight(w, uses) && (forall p :: p in Missing(deploy, w.local) ==> InfoFits(p, infos[p])) ==>
      ok && ReadExport(parts).Some? && ReadAs(w, ReadExport(parts).value, Missing(deploy, w.local), infos)
  {
    hide Sound, World.Lists, PathsCost, PathsBudget, Missing, NarsPacked, Resolves, Serialize, Unpack, Word, PathParts,
      Payloads, PayloadTotal, SentOnce, UsesOf, AllUsedRight, NarsParts, Exported, ReadExport, ReadAs, InfoFits;
    var newStorePaths := NewStorePaths(local, deploy);
    ghost var a, inputs, deps;
    var out;
    ok, out, a, inputs, deps, uses := WriteDNAR(w, newStorePaths, infos, target);
    ghost var t := Target(target, inputs, a.payloads, w.codec);
    UsesPacked(w, a.nars, newStorePaths, infos, t, uses);
    NarsExportedIff(w, a.nars, newStorePaths, infos, t, uses, |a.nars|);
    assert a.nars[..|a.nars|] == a.nars && newStorePaths[..|newStorePaths|] == newStorePaths;
    UsesLength(w, a.nars, newStorePaths, infos, t, uses);
    assert uses[..|a.nars|] == uses;
    ok, parts := Export(out, target, w.codec, a, inputs);
    if ok {
      EndCut(NarsParts(a.nars, t).value, Exported(w, newStorePaths, infos), Raw(Word(0)));
    }
    if AllUsedRight(w, uses) && forall p :: p in newStorePaths ==> InfoFits(p, infos[p]) {
      ExportedReads(w, newStorePaths, infos);
    }
  }

  lemma UsesLength(w: World, nars: seq<NAR>, storePaths: seq<Str>, infos: map<Str, PathInfo>, t: Target,
                   uses: seq<seq<Use>>)
    requires NarsPacked(w, nars, storePaths, infos, t, uses)
    ensures |uses| == |nars|
  {
  }

  lemma EndCut(a: seq<Part>, b: seq<Part>, end: Part)
    ensures a + [end] == b + [end] <==> a == b
  {
    if a + [end] == b + [end] {
      assert a == (a + [end])[..|a|] && b == (b + [end])[..|b|];
    }
  }

  /** When the k-th exported path is imported, every reference its trailer names is a local
      path, an earlier exported path, or the path itself. */
  lemma ImportsFindReferences(deploy: seq<Str>, local: set<Str>, infos: map<Str, PathInfo>, refs: References, k: nat)
    requires Closed(local, refs) && ReferencesFirst(deploy, refs) && k < |Missing(deploy, local)|
    requires forall p :: p in Missing(deploy, local) ==> p in infos && refs(p) == Members(FullRefs(infos[p].references))
    ensures Members(FullRefs(infos[Missing(deploy, local)[k]].references)) <=
      local + Members(Missing(deploy, local)[..k + 1])
  {
    var missing := Missing(deploy, local);
    ImportSafe(deploy, local, refs, k + 1);
    assert missing[..k + 1][k] == missing[k];
    assert missing[k] in Members(missing[..k + 1]);
  }

  // ---------------------------------------------------------------------------
  // What the importer reads
  // ---------------------------------------------------------------------------

  // The lengths that a trailer can carry.
  predicate InfoFits(p: Str, info: PathInfo) {
    |p| < TWO_63 && |info.references| < TWO_63 && forall r :: r in info.references ==> |r| < TWO_63
  }

  // An imported path is the store path with its items, no deriver, and its references with
  // "/nix/store/" in front.
  ghost predicate ImportedAs(x: Imported, p: Str, items: seq<Item>, references: seq<Str>) {
    && x.path == p && x.items == items && x.deriver == []
    && |x.references| == |references|
    && forall i :: 0 <= i < |references| ==>
      x.references[i] == [47, 110, 105, 120, 47, 115, 116, 111, 114, 101, 47] + references[i]
  }

  ghost predicate ReadAs(w: World, read: seq<Imported>, storePaths: seq<Str>, infos: map<Str, PathInfo>)
    requires forall p :: p in storePaths ==> p in infos && w.Lists(p)
  {
    && |read| == |storePaths|
    && forall k :: 0 <= k < |storePaths| ==>
      ImportedAs(read[k], storePaths[k], PathItems(w, storePaths[k]), infos[storePaths[k]].references)
  }

  lemma FullRefsFit(p: Str, info: PathInfo, items: seq<Item>, rest: seq<Part>)
    requires InfoFits(p, info) && ReadExport(rest).Some?
    ensures
      var read := ReadExport(PathParts(p, info.references, items) + rest);
      && read.Some? && |read.value| == 1 + |ReadExport(rest).value|
      && ImportedAs(read.value[0], p, items, info.references) && read.value[1..] == ReadExport(rest).value
  {
    hide Encode, Word, ReadExport;
    var t := ExportTrailer(p, FullRefs(info.references), []);
    assert Trailer(p, FullRefs(info.references), []) == Encode(t) by {
      EncodeIs(t);
    }
    forall i | 0 <= i < |t.refs|
      ensures t.refs[i] == [47, 110, 105, 120, 47, 115, 116, 111, 114, 101, 47] + info.references[i]
    {
      assert info.references[i] in info.references;
      assert STORE_DIR + [SLASH] == [47, 110, 105, 120, 47, 115, 116, 111, 114, 101, 47];
    }
    PathRead(items, t, rest);
  }

  lemma EncodeIs(t: ExportTrailer)
    ensures Encode(t) == Trailer(t.storePath, t.refs, t.deriver)
  {
  }

  // Streams are built at the end and read from the front.
  lemma {:induction false} ExportedReadsOn(w: World, storePaths: seq<Str>, infos: map<Str, PathInfo>, rest: seq<Part>)
    requires forall p :: p in storePaths ==> p in infos && w.Lists(p) && InfoFits(p, infos[p])
    requires ReadExport(rest).Some?
    ensures
      var read := ReadExport(Exported(w, storePaths, infos) + rest);
      && read.Some? && |read.value| == |storePaths| + |ReadExport(rest).value|
      && read.value[|storePaths|..] == ReadExport(rest).value
      && ReadAs(w, read.value[..|storePaths|], storePaths, infos)
  {
    hide World.Lists, PathItems, PathParts, ReadExport, ImportedAs, InfoFits;
    if storePaths == [] {
      assert Exported(w, storePaths, infos) + rest == rest;
    } else {
      var n := |storePaths| - 1;
      var init, p := storePaths[..n], storePaths[n];
      var more := PathParts(p, infos[p].references, PathItems(w, p)) + rest;
      FullRefsFit(p, infos[p], PathItems(w, p), rest);
      ExportedReadsOn(w, init, infos, more);
      Associates(Exported(w, init, infos), PathParts(p, infos[p].references, PathItems(w, p)), rest);
      var read := ReadExport(Exported(w, init, infos) + more).value;
      assert read[n] == read[n..][0];
      assert read[n + 1..] == read[n..][1..];
      assert forall k :: 0 <= k < n ==> read[..n + 1][k] == read[..n][k] && init[k] == storePaths[k];
    }
  }

  /** The importer of the exported stream reads, to its end, one path for each missing store
      path, in order, with its items and its references in the store. */
  lemma ExportedReads(w: World, storePaths: seq<Str>, infos: map<Str, PathInfo>)
    requires forall p :: p in storePaths ==> p in infos && w.Lists(p) && InfoFits(p, infos[p])
    ensures
      var read := ReadExport(Exported(w, storePaths, infos) + [Raw(Word(0))]);
      read.Some? && ReadAs(w, read.value, storePaths, infos)
  {
    hide World.Lists, ReadExport, ReadAs, Word;
    EndRead();
    ExportedReadsOn(w, storePaths, infos, [Raw(Word(0))]);
    var read := ReadExport(Exported(w, storePaths, infos) + [Raw(Word(0))]).value;
    assert read[..|storePaths|] == read;
  }

  /** If nothing is lost in a path, what the importer reads for it is the sender's own tree. */
  lemma ReadsOriginals(w: World, read: seq<Imported>, storePaths: seq<Str>, infos: map<Str, PathInfo>, k: nat)
    requires forall p :: p in storePaths ==> p in infos && w.Lists(p)
    requires ReadAs(w, read, storePaths, infos) && k < |storePaths|
    ensures read[k].path == storePaths[k]
    ensures read[k].items == Items(Listing(w.sender[storePaths[k]])) <==> NothingLost(w, storePaths[k])
  {
    hide World.Lists, PathItems, NothingLost;
    assert ImportedAs(read[k], storePaths[k], PathItems(w, storePaths[k]), infos[storePaths[k]].references);
    PathRestoredIff(w, storePaths[k]);
  }

  // ---------------------------------------------------------------------------
  // When that is the original
  // ---------------------------------------------------------------------------

  /** What the unpacker writes for a store path is its original NAR content, item for item, if
      and only if the root was not matched, unless empty, and no kept matched directory has a
      later sibling whose name extends its own. */
  lemma PathRestoredIff(w: World, storePath: Str)
    requires w.Lists(storePath)
    ensures PathItems(w, storePath) == OriginalItems(w, storePath) <==> NothingLost(w, storePath)
  {
    hide KnownDirs, Items, Listing, SiblingsApart;
    var root := w.sender[storePath];
    ItemsRestoredIff(root, KnownDirs(w, Listing(root)));
  }

  // At the level of items, which keep every path.
  lemma ItemsRestoredIff(root: Node, m: set<Str>)
    requires ValidNode(root)
    ensures
      var l := Listing(root);
      Items(UnfoldAll(Kept(l, m, |l|), m)) == Items(l) <==> SiblingsApart(root, m)
  {
    hide Items, Listing, ValidNode, UnfoldAll, Kept, SiblingsApart;
    var l := Listing(root);
    ApartIff(root, m);
    TreeRoundTripIff(root, m);
    if !OnlyDescendants(l, m) {
      var k, i :| 0 <= k < |l| && 0 <= i < |l| && KeptMatch(l, m, k) && ProperPrefix(l[k].path, l[i].path)
        && !(l[k].path + [SLASH] <= l[i].path);
      var u := UnfoldAll(Kept(l, m, |l|), m);
      SkipIsExact(root, m);
      if |u| == |l| {
        assert u[i] in Rebuilt(l, m, l);
        LostEntry(l, m, k, i, u[i]);
        SameItemSamePath(u[i], l[i]);
        assert Items(u)[i] != Items(l)[i];
      }
    }
  }

  lemma SameItemSamePath(a: Entry, b: Entry)
    ensures ItemOf(a) == ItemOf(b) ==> a.path == b.path
  {
  }

  /** If no such entry is lost in any of the paths, the export stream is that of the sender's
      own trees. */
  lemma {:induction false} DeployedExactly(w: World, storePaths: seq<Str>, infos: map<Str, PathInfo>)
    requires forall p :: p in storePaths ==> p in infos && w.Lists(p)
    requires forall p :: p in storePaths ==> NothingLost(w, p)
    ensures Exported(w, storePaths, infos) == Originals(w, storePaths, infos)
  {
    hide NothingLost, PathParts, World.Lists, PathItems, OriginalItems;
    if storePaths != [] {
      var init, p := storePaths[..|storePaths| - 1], storePaths[|storePaths| - 1];
      DeployedExactly(w, init, infos);
      PathRestoredIff(w, p);
    }
  }
}
