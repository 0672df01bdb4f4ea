/** writeNAR (internal/cmd/dnar-unpack/write.go): descriptors become headers and bytes. */
module Unpacker {
  import opened Prelude
  import opened Tree
  import opened Delta
  import opened Patcher
  import opened Chunking
  import opened Dnar
  import opened ChunkStore

  // The NAR writer, as the sequence of headers it was given with the bytes after each.
  class NarWriter {
    var items: seq<Item>

    constructor ()
      ensures items == []
    {
      items := [];
    }

    method WriteHeader(header: Item)
      modifies this
      ensures items == old(items) + [header]
    {
      items := items + [header];
    }

    // Bytes go to the regular file whose header came last.
    method Write(data: Bytes)
      requires items != [] && items[|items| - 1].RegularItem?
      modifies this
      ensures items == var last := old(items)[|old(items)| - 1];
        old(items)[..|old(items)| - 1] + [last.(content := last.content + data)]
    {
      var last := items[|items| - 1];
      items := items[..|items| - 1] + [last.(content := last.content + data)];
    }
  }

  // Input files kept open, and input files kept mapped, for the length of one NAR.
  class InputCache {
    const store: map<Str, Node>
    var inputFDs: map<Str, Node>
    var inputData: map<Str, Bytes>

    ghost predicate Valid()
      reads this
    {
      && (forall p :: p in inputFDs ==> p in store && !store[p].Symlink? && inputFDs[p] == store[p])
      && (forall p :: p in inputData ==> ReadWhole(store, p) == Ok(inputData[p]))
    }

    constructor (store: map<Str, Node>)
      ensures Valid() && this.store == store
    {
      this.store := store;
      inputFDs, inputData := map[], map[];
    }

    method ReadAt(path: Str, size: uint64, offset: uint64) returns (r: Outcome<Bytes>)
      requires Valid()
      modifies this
      ensures Valid() && r == ReadRange(store, path, size, offset)
    {
      if path !in inputFDs {
        if path !in store || store[path].Symlink? {
          return Err;
        }
        inputFDs := inputFDs[path := store[path]];
      }
      var fp := inputFDs[path];
      if ToInt64(offset) < 0 {
        return Err;
      }
      if size > MAX_ALLOC {
        return Panic;
      }
      if size == 0 {
        return Ok([]);
      }
      if !fp.Regular? || offset + size > |fp.content| {
        return Err;
      }
      return Ok(fp.content[offset..offset + size]);
    }

    method ReadInputData(path: Str) returns (r: Outcome<Bytes>)
      requires Valid()
      modifies this
      ensures Valid() && r == ReadWhole(store, path)
    {
      if path in inputData {
        return Ok(inputData[path]);
      }
      if path !in store {
        return Err;
      }
      var data := MapFile(store[path]);
      if data.None? {
        return Err;
      }
      inputData := inputData[path := data.value];
      return Ok(data.value);
    }
  }

  // ReadChunk at an index from the wire.
  method ReadStored(chunks: TempChunkStore, index: uint64) returns (r: Outcome<Bytes>)
    requires chunks.Mapped()
    ensures r == ReadPayload(chunks.written, index)
  {
    r := chunks.ReadChunk(ToInt64(index));
  }

  method WriteDelta(cache: InputCache, chunks: TempChunkStore, inputs: seq<Str>, codec: Codec, d: ChunkDescriptor)
    returns (r: Outcome<Bytes>)
    requires cache.Valid() && chunks.Mapped() && d.DeltaChunk?
    requires forall p :: p in cache.store && cache.store[p].Regular? ==> |cache.store[p].content| <= MAX_ALLOC
    modifies cache
    ensures cache.Valid() && chunks.Mapped()
    ensures r == Decode(d, Target(cache.store, inputs, chunks.written, codec))
  {
    hide PatchSpec, ReadPayload, ToInt64, TempChunkStore.EntryAt;
    if d.index >= |inputs| {
      return Panic;
    }
    var refData := cache.ReadInputData(inputs[d.index]);
    if !refData.Ok? {
      return refData;
    }
    var end := (d.offset + d.size) % TWO_64;
    if end > |refData.value| {
      return Err;
    }
    if d.offset > end {
      return Panic;
    }
    var base := refData.value[d.offset..end];
    var deltaData := ReadStored(chunks, d.deltaIndex);
    if !deltaData.Ok? {
      return deltaData;
    }
    IntRange(d.resultSize);
    r := Patch(codec, base, deltaData.value, ToInt64(d.resultSize));
  }

  lemma IntRange(x: uint64)
    ensures -TWO_63 <= ToInt64(x) < TWO_63
  {
  }

  method DecodeChunk(cache: InputCache, chunks: TempChunkStore, inputs: seq<Str>, codec: Codec, d: ChunkDescriptor)
    returns (r: Outcome<Bytes>)
    requires cache.Valid() && chunks.Mapped()
    requires forall p :: p in cache.store && cache.store[p].Regular? ==> |cache.store[p].content| <= MAX_ALLOC
    modifies cache
    ensures cache.Valid() && chunks.Mapped()
    ensures r == Decode(d, Target(cache.store, inputs, chunks.written, codec))
  {
    hide PatchBytes, ReadPayload, ReadRange, TempChunkStore.Valid, InputCache.Valid;
    match d {
      case CaChunk(index) =>
        r := ReadStored(chunks, index);
      case FdChunk(index, size, offset, _) =>
        if index >= |inputs| {
          return Panic;
        }
        r := cache.ReadAt(inputs[index], size, offset);
      case DeltaChunk(_, _, _, _, _, _) =>
        r := WriteDelta(cache, chunks, inputs, codec, d);
      case NoChunk =>
        r := Ok([]);
    }
  }

  // The chunks of a regular file, written one by one after its header.
  method WriteRegular(w: NarWriter, cache: InputCache, chunks: TempChunkStore, inputs: seq<Str>, codec: Codec,
                      path: Str, meta: FileType)
    returns (r: Outcome<()>)
    requires cache.Valid() && chunks.Mapped() && meta.RegularFile?
    requires forall p :: p in cache.store && cache.store[p].Regular? ==> |cache.store[p].content| <= MAX_ALLOC
    modifies w, cache
    ensures cache.Valid() && chunks.Mapped()
    ensures var content := DecodeAll(meta.chunks, Target(cache.store, inputs, chunks.written, codec));
      && (r.Ok? <==> content.Ok?) && (r.Panic? <==> content.Panic?)
      && (r.Ok? ==> w.items == old(w.items) + [RegularItem(path, ToInt64(meta.size), meta.executable, content.value)])
  {
    hide Decode, TempChunkStore.Valid, InputCache.Valid, ToInt64;
    ghost var t := Target(cache.store, inputs, chunks.written, codec);
    var ds := meta.chunks;
    w.WriteHeader(RegularItem(path, ToInt64(meta.size), meta.executable, []));
    for k := 0 to |ds|
      invariant cache.Valid() && chunks.Mapped() && chunks.written == old(chunks.written)
      invariant DecodeAll(ds[..k], t).Ok?
      invariant w.items ==
        old(w.items) + [RegularItem(path, ToInt64(meta.size), meta.executable, DecodeAll(ds[..k], t).value)]
    {
      assert ds[..k + 1][..k] == ds[..k];
      var data := DecodeChunk(cache, chunks, inputs, codec, ds[k]);
      if !data.Ok? {
        DecodeAllFails(ds, k, t);
        return if data.Panic? then Panic else Err;
      }
      w.Write(data.value);
    }
    assert ds[..|ds|] == ds;
    return Ok(());
  }

  // The first descriptor that fails decides how the whole fails.
  lemma {:induction false} DecodeAllFails(ds: seq<ChunkDescriptor>, k: nat, t: Target)
    requires k < |ds| && DecodeAll(ds[..k], t).Ok? && !Decode(ds[k], t).Ok?
    ensures DecodeAll(ds, t) == Decode(ds[k], t)
    decreases |ds|
  {
    var init := ds[..|ds| - 1];
    if k == |ds| - 1 {
      assert ds[..k] == init;
    } else {
      assert init[..k] == ds[..k];
      DecodeAllFails(init, k, t);
    }
  }

  /** filepath.WalkDir over a directory of the target, with paths moved under the entry's. */
  method WalkDir(w: NarWriter, n: Node, path: Str, inputDir: Str, filePath: Str, ghost rel: Str)
    requires path == inputDir + rel
    modifies w
    ensures w.items == old(w.items) + Items(List(filePath + rel, n))
    decreases n
  {
    hide Items, List, ListAll;
    var relPath := filePath + TrimPrefix(path, inputDir);
    assert relPath == filePath + rel;
    ItemsUnder(relPath, n);
    match n {
      case Symlink(target) =>
        w.WriteHeader(SymlinkItem(relPath, target));
      case Regular(content, executable) =>
        w.WriteHeader(RegularItem(relPath, |content|, executable, []));
        w.Write(content);
        assert [] + content == content;
      case Directory(_, entries) =>
        w.WriteHeader(DirectoryItem(relPath));
        NoItems(relPath, entries);
        for i := 0 to |entries|
          invariant w.items == old(w.items) + [DirectoryItem(relPath)] + Items(ListAll(relPath, entries[..i]))
        {
          var name := entries[i].name;
          assert path + [SLASH] + name == inputDir + Child(rel, name);
          assert filePath + Child(rel, name) == Child(relPath, name);
          WalkDir(w, entries[i].node, path + [SLASH] + name, inputDir, filePath, Child(rel, name));
          ListAllSnoc(relPath, entries, i);
          ItemsConcat(ListAll(relPath, entries[..i]), List(Child(relPath, name), entries[i].node));
        }
        assert entries[..|entries|] == entries;
    }
  }

  lemma NoItems(p: Str, es: seq<DirEntry>)
    ensures Items(ListAll(p, es[..0])) == []
  {
  }

  method WriteFile(w: NarWriter, cache: InputCache, chunks: TempChunkStore, inputs: seq<Str>, codec: Codec,
                   file: NarFile)
    returns (r: Outcome<()>)
    requires cache.Valid() && chunks.Mapped()
    requires forall p :: p in cache.store && cache.store[p].Regular? ==> |cache.store[p].content| <= MAX_ALLOC
    modifies w, cache
    ensures cache.Valid() && chunks.Mapped()
    ensures var items := UnpackFile(file, Target(cache.store, inputs, chunks.written, codec));
      && (r.Ok? <==> items.Ok?) && (r.Panic? <==> items.Panic?)
      && (r.Ok? ==> w.items == old(w.items) + items.value)
  {
    hide TempChunkStore.Valid, InputCache.Valid, DecodeAll, Items, List;
    match file.fileType {
      case RegularFile(_, _, _) =>
        r := WriteRegular(w, cache, chunks, inputs, codec, file.path, file.fileType);
      case DirectoryFile(from) =>
        if from > -1 {
          if from >= |inputs| {
            return Panic;
          }
          var inputDir := inputs[from];
          if inputDir !in cache.store {
            return Err;
          }
          assert inputDir + [] == inputDir && file.path + [] == file.path;
          WalkDir(w, cache.store[inputDir], inputDir, inputDir, file.path, []);
        } else {
          w.WriteHeader(DirectoryItem(file.path));
        }
        r := Ok(());
      case SymlinkFile(target) =>
        w.WriteHeader(SymlinkItem(file.path, target));
        r := Ok(());
      case NoFileType =>
        r := Ok(());
    }
  }

  /** writeNAR writes exactly the items that the NAR's files denote, and fails or panics
      exactly when they denote nothing. */
  method WriteNAR(w: NarWriter, nar: NAR, chunks: TempChunkStore, inputs: seq<Str>, store: map<Str, Node>,
                  codec: Codec)
    returns (r: Outcome<()>)
    requires chunks.Mapped()
    requires forall p :: p in store && store[p].Regular? ==> |store[p].content| <= MAX_ALLOC
    modifies w
    ensures var items := Unpack(nar.files, Target(store, inputs, chunks.written, codec));
      && (r.Ok? <==> items.Ok?) && (r.Panic? <==> items.Panic?)
      && (r.Ok? ==> w.items == old(w.items) + items.value)
  {
    hide TempChunkStore.Valid, InputCache.Valid, UnpackFile;
    ghost var t := Target(store, inputs, chunks.written, codec);
    var cache := new InputCache(store);
    var files := nar.files;
    for k := 0 to |files|
      invariant fresh(cache) && cache.Valid() && chunks.Mapped()
      invariant Unpack(files[..k], t).Ok? && w.items == old(w.items) + Unpack(files[..k], t).value
    {
      assert files[..k + 1][..k] == files[..k];
      var done := WriteFile(w, cache, chunks, inputs, codec, files[k]);
      if !done.Ok? {
        UnpackFails(files, k, t);
        return done;
      }
    }
    assert files[..|files|] == files;
    return Ok(());
  }

  lemma {:induction false} UnpackFails(files: seq<NarFile>, k: nat, t: Target)
    requires k < |files| && Unpack(files[..k], t).Ok? && !UnpackFile(files[k], t).Ok?
    ensures Unpack(files, t) == UnpackFile(files[k], t)
    decreases |files|
  {
    hide UnpackFile;
    var init := files[..|files| - 1];
    if k == |files| - 1 {
      assert files[..k] == init;
    } else {
      assert init[..k] == files[..k];
      UnpackFails(init, k, t);
    }
  }
}
