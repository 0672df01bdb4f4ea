/** The DNAR messages (internal/dnar/dnar.proto) and what the unpacker makes of them
    (internal/cmd/dnar-unpack/write.go): every descriptor denotes bytes, given the payload
    stream, the trailer's files and the target's store. */
module Dnar {
  import opened Prelude
  import opened Tree
  import opened Chunking
  import opened Delta
  import opened Patcher

  datatype ChunkDescriptor =
    | CaChunk(index: uint64)
    | FdChunk(index: uint64, size: uint64, offset: uint64, digest: Digest)
    | DeltaChunk(index: uint64, size: uint64, offset: uint64, digest: Digest, deltaIndex: uint64, resultSize: uint64)
    | NoChunk  // the oneof is unset

  datatype FileType =
    | RegularFile(size: uint64, chunks: seq<ChunkDescriptor>, executable: bool)
    | DirectoryFile(from: int)
    | SymlinkFile(target: Str)
    | NoFileType

  datatype NarFile = NarFile(path: Str, fileType: FileType)

  datatype NAR = NAR(path: Str, files: seq<NarFile>, narHash: Str, narSize: uint64, references: seq<Str>)

  // storePath is a uint32 on the wire.
  datatype FileDescriptor = FileDescriptor(storePath: int, path: Str)

  datatype PathTrailer = PathTrailer(paths: seq<Str>, files: seq<FileDescriptor>)

  // ---------------------------------------------------------------------------
  // What the NAR writer receives
  // ---------------------------------------------------------------------------

  // A header and the bytes written after it.
  datatype Item =
    | RegularItem(path: Str, size: int, executable: bool, content: Bytes)
    | DirectoryItem(path: Str)
    | SymlinkItem(path: Str, target: Str)

  function ItemOf(e: Entry): Item {
    match e.node
    case Regular(content, executable) => RegularItem(e.path, |content|, executable, content)
    case Directory(_, _) => DirectoryItem(e.path)
    case Symlink(target) => SymlinkItem(e.path, target)
  }

  function Items(l: seq<Entry>): (items: seq<Item>)
    ensures |items| == |l| && forall i :: 0 <= i < |l| ==> items[i] == ItemOf(l[i])
  {
    if l == [] then [] else Items(l[..|l| - 1]) + [ItemOf(l[|l| - 1])]
  }

  lemma ItemsSnoc(l: seq<Entry>, e: Entry)
    ensures Items(l + [e]) == Items(l) + [ItemOf(e)]
  {
    assert (l + [e])[..|l|] == l;
  }

  lemma ItemsNone()
    ensures Items([]) == []
  {
  }

  lemma {:induction false} ItemsConcat(a: seq<Entry>, b: seq<Entry>)
    ensures Items(a + b) == Items(a) + Items(b)
  {
    hide Items, ItemOf;
    if b == [] {
      ItemsNone();
      assert a + b == a;
    } else {
      var init, last := b[..|b| - 1], b[|b| - 1];
      ItemsConcat(a, init);
      ItemsSnoc(init, last);
      ItemsSnoc(a + init, last);
      assert init + [last] == b && (a + init) + [last] == a + b;
    }
  }

  // A directory's entry with its trees below it, as items.
  lemma ItemsUnder(p: Str, n: Node)
    ensures Items(List(p, n)) == [ItemOf(Entry(p, n))] + Items(Below(p, n))
  {
    hide ItemOf;
    ItemsConcat([Entry(p, n)], Below(p, n));
  }

  // ---------------------------------------------------------------------------
  // What descriptors denote
  // ---------------------------------------------------------------------------

  // Everything the unpacker resolves descriptors against.
  datatype Target = Target(store: map<Str, Node>, inputs: seq<Str>, payloads: seq<Bytes>, codec: Codec)

  // Open, seek, and read exactly `size` bytes.
  function ReadRange(store: map<Str, Node>, path: Str, size: uint64, offset: uint64): Outcome<Bytes> {
    if path !in store || store[path].Symlink? || ToInt64(offset) < 0 then Err
    else if size > MAX_ALLOC then Panic
    else if size == 0 then Ok([])
    else if store[path].Regular? && offset + size <= |store[path].content| then
      Ok(store[path].content[offset..offset + size])
    else Err
  }

  // mmapfile.Open: whatever has size zero is empty, and only a file can be mapped otherwise.
  function MapFile(n: Node): Option<Bytes> {
    match n
    case Regular(content, _) => Some(content)
    case Directory(size, _) => if size == 0 then Some([]) else None
    case Symlink(_) => None
  }

  function ReadWhole(store: map<Str, Node>, path: Str): Outcome<Bytes> {
    if path in store && MapFile(store[path]).Some? then Ok(MapFile(store[path]).value) else Err
  }

  function ReadPayload(payloads: seq<Bytes>, index: uint64): Outcome<Bytes> {
    var i := ToInt64(index);
    if |payloads| <= i then Err else if i < 0 then Panic else Ok(payloads[i])
  }

  function Slice(data: Bytes, size: uint64, offset: uint64): Outcome<Bytes> {
    var end := (offset + size) % TWO_64;
    if end > |data| then Err else if offset > end then Panic else Ok(data[offset..end])
  }

  ghost function PatchBytes(codec: Codec, base: Bytes, delta: Bytes, size: int): Outcome<Bytes> {
    if size < 0 || codec.unmarshal(delta).None? then Err
    else PatchSpec(base, codec.unmarshal(delta).value, size)
  }

  ghost function Decode(d: ChunkDescriptor, t: Target): Outcome<Bytes> {
    match d
    case CaChunk(index) => ReadPayload(t.payloads, index)
    case FdChunk(index, size, offset, _) =>
      if index >= |t.inputs| then Panic else ReadRange(t.store, t.inputs[index], size, offset)
    case DeltaChunk(index, size, offset, _, deltaIndex, resultSize) =>
      if index >= |t.inputs| then Panic else
        var whole := ReadWhole(t.store, t.inputs[index]);
        if !whole.Ok? then whole else
          var base := Slice(whole.value, size, offset);
          if !base.Ok? then base else
            var delta := ReadPayload(t.payloads, deltaIndex);
            if !delta.Ok? then delta else
              PatchBytes(t.codec, base.value, delta.value, ToInt64(resultSize))
    case NoChunk => Ok([])
  }

  ghost function DecodeAll(ds: seq<ChunkDescriptor>, t: Target): Outcome<Bytes> {
    if ds == [] then Ok([]) else
      var init := DecodeAll(ds[..|ds| - 1], t);
      if !init.Ok? then init else
        var last := Decode(ds[|ds| - 1], t);
        if !last.Ok? then last else Ok(init.value + last.value)
  }

  ghost function UnpackFile(f: NarFile, t: Target): Outcome<seq<Item>> {
    match f.fileType
    case RegularFile(size, chunks, executable) =>
      var content := DecodeAll(chunks, t);
      (match content
       case Ok(bytes) => Ok([RegularItem(f.path, ToInt64(size), executable, bytes)])
       case Err => Err
       case Panic => Panic)
    case DirectoryFile(from) =>
      if from <= -1 then Ok([DirectoryItem(f.path)])
      else if from >= |t.inputs| then Panic
      else if t.inputs[from] !in t.store then Err
      else Ok(Items(List(f.path, t.store[t.inputs[from]])))
    case SymlinkFile(target) => Ok([SymlinkItem(f.path, target)])
    case NoFileType => Ok([])
  }

  ghost function Unpack(files: seq<NarFile>, t: Target): Outcome<seq<Item>> {
    if files == [] then Ok([]) else
      var init := Unpack(files[..|files| - 1], t);
      if !init.Ok? then init else
        var last := UnpackFile(files[|files| - 1], t);
        if !last.Ok? then last else Ok(init.value + last.value)
  }

  // ---------------------------------------------------------------------------
  // The same in unbounded arithmetic
  // ---------------------------------------------------------------------------

  /** Reading a payload succeeds for exactly the indices of the stream; an index beyond the int
      range panics. */
  lemma ReadPayloadMeans(payloads: seq<Bytes>, index: uint64)
    requires |payloads| <= 0x1_0000_0000_0000
    ensures ReadPayload(payloads, index) ==
      if index < |payloads| then Ok(payloads[index]) else if index < 0x8000_0000_0000_0000 then Err else Panic
  {
  }

  /** Slicing the reference succeeds for exactly the ranges inside it; a range that wraps
      around to an end inside it panics. */
  lemma SliceMeans(data: Bytes, size: uint64, offset: uint64)
    requires |data| <= 0x1_0000_0000_0000
    ensures Slice(data, size, offset) ==
      if offset + size <= |data| then Ok(data[offset..offset + size])
      else if 0x1_0000_0000_0000_0000 <= offset + size <= 0x1_0000_0000_0000_0000 + |data| then Panic
      else Err
  {
  }

  /** Reading a range succeeds for exactly the ranges inside a file and for nothing at all of a
      file or directory; an absent file, or an offset that is negative as an int, is an error. */
  lemma ReadRangeMeans(store: map<Str, Node>, path: Str, size: uint64, offset: uint64)
    ensures ReadRange(store, path, size, offset) ==
      if path !in store || store[path].Symlink? || offset >= 0x8000_0000_0000_0000 then Err
      else if size > 0x1_0000_0000_0000 then Panic
      else if size == 0 then Ok([])
      else if store[path].Directory? || offset + size > |store[path].content| then Err
      else Ok(store[path].content[offset..offset + size])
  {
  }

  /** Mapping a file gives its content, and nothing else can be mapped but what has size zero. */
  lemma ReadWholeMeans(store: map<Str, Node>, path: Str)
    ensures ReadWhole(store, path) ==
      if path in store && store[path].Regular? then Ok(store[path].content)
      else if path in store && store[path].Directory? && store[path].size == 0 then Ok([])
      else Err
  {
  }

  /** Descriptors and files of no known type write nothing, a directory that is not copied and
      a symlink one header, and a file one header and what its descriptors decode to. */
  lemma FileWrites(path: Str, size: uint64, executable: bool, chunks: seq<ChunkDescriptor>, from: int, target: Str,
                   t: Target)
    ensures Decode(NoChunk, t) == Ok([]) && UnpackFile(NarFile(path, NoFileType), t) == Ok([])
    ensures from < 0 ==> UnpackFile(NarFile(path, DirectoryFile(from)), t) == Ok([DirectoryItem(path)])
    ensures UnpackFile(NarFile(path, SymlinkFile(target)), t) == Ok([SymlinkItem(path, target)])
    ensures DecodeAll(chunks, t).Ok? ==>
      UnpackFile(NarFile(path, RegularFile(size, chunks, executable)), t) ==
        Ok([RegularItem(path, if size < 0x8000_0000_0000_0000 then size else size - 0x1_0000_0000_0000_0000, executable,
                        DecodeAll(chunks, t).value)])
  {
  }

  /** The items of a listing are the headers of its entries, with the content of files. */
  lemma ItemMeans(l: seq<Entry>, k: nat)
    requires k < |l|
    ensures |Items(l)| == |l| && Items(l)[k] ==
      match l[k].node
      case Regular(content, executable) => RegularItem(l[k].path, |content|, executable, content)
      case Directory(_, _) => DirectoryItem(l[k].path)
      case Symlink(target) => SymlinkItem(l[k].path, target)
  {
  }

  // ---------------------------------------------------------------------------
  // Stability: what a descriptor denotes does not change while the tables grow
  // ---------------------------------------------------------------------------

  ghost predicate Grows(t: Target, t': Target) {
    t.store == t'.store && t.codec == t'.codec && t.inputs <= t'.inputs && t.payloads <= t'.payloads
  }

  // The indices of a descriptor denote entries of the tables.
  predicate InRange(d: ChunkDescriptor, t: Target) {
    match d
    case CaChunk(index) => index < |t.payloads|
    case FdChunk(index, _, _, _) => index < |t.inputs|
    case DeltaChunk(index, _, _, _, deltaIndex, _) => index < |t.inputs| && deltaIndex < |t.payloads|
    case NoChunk => true
  }

  ghost predicate AllInRange(ds: seq<ChunkDescriptor>, t: Target) {
    forall k :: 0 <= k < |ds| ==> InRange(ds[k], t)
  }

  ghost predicate FileInRange(f: NarFile, t: Target) {
    match f.fileType
    case RegularFile(_, chunks, _) => AllInRange(chunks, t)
    case DirectoryFile(from) => from < |t.inputs|
    case SymlinkFile(_) => true
    case NoFileType => true
  }

  ghost predicate FilesInRange(files: seq<NarFile>, t: Target) {
    forall k :: 0 <= k < |files| ==> FileInRange(files[k], t)
  }

  lemma DecodeStable(d: ChunkDescriptor, t: Target, t': Target)
    requires Grows(t, t') && InRange(d, t)
    ensures Decode(d, t') == Decode(d, t)
  {
    hide PatchBytes, ReadRange, ReadWhole, Slice;
  }

  lemma DecodedInRange(d: ChunkDescriptor, t: Target)
    requires Decode(d, t).Ok?
    ensures InRange(d, t)
  {
    hide PatchBytes, ReadRange, ReadWhole, Slice;
  }

  lemma {:induction false} AllDecodedInRange(ds: seq<ChunkDescriptor>, t: Target)
    requires DecodeAll(ds, t).Ok?
    ensures AllInRange(ds, t)
  {
    if ds != [] {
      hide Decode, InRange;
      var init := ds[..|ds| - 1];
      AllDecodedInRange(init, t);
      DecodedInRange(ds[|ds| - 1], t);
      assert forall k :: 0 <= k < |init| ==> ds[k] == init[k];
    }
  }

  lemma {:induction false} DecodeAllStable(ds: seq<ChunkDescriptor>, t: Target, t': Target)
    requires Grows(t, t') && AllInRange(ds, t)
    ensures DecodeAll(ds, t') == DecodeAll(ds, t)
  {
    if ds != [] {
      hide Decode, Grows, InRange;
      var init := ds[..|ds| - 1];
      assert AllInRange(init, t);
      DecodeAllStable(init, t, t');
      DecodeStable(ds[|ds| - 1], t, t');
    }
  }

  lemma UnpackFileStable(f: NarFile, t: Target, t': Target)
    requires Grows(t, t') && FileInRange(f, t)
    ensures UnpackFile(f, t') == UnpackFile(f, t)
  {
    hide DecodeAll, Items, AllInRange;
    if f.fileType.RegularFile? {
      DecodeAllStable(f.fileType.chunks, t, t');
    }
  }

  /** An index handed out while packing keeps its meaning: files whose indices denote entries
      of the tables at some moment unpack alike, or fail alike, against every later state. */
  lemma {:induction false} UnpackStable(files: seq<NarFile>, t: Target, t': Target)
    requires Grows(t, t') && FilesInRange(files, t)
    ensures Unpack(files, t') == Unpack(files, t)
  {
    if files != [] {
      hide UnpackFile, Grows, FileInRange;
      var init := files[..|files| - 1];
      assert FilesInRange(init, t);
      UnpackStable(init, t, t');
      UnpackFileStable(files[|files| - 1], t, t');
    }
  }

  lemma StillInRange(files: seq<NarFile>, t: Target, t': Target)
    requires Grows(t, t') && FilesInRange(files, t)
    ensures FilesInRange(files, t')
  {
    forall k | 0 <= k < |files|
      ensures FileInRange(files[k], t')
    {
      assert FileInRange(files[k], t);
    }
  }

  lemma DecodeAllSnoc(ds: seq<ChunkDescriptor>, d: ChunkDescriptor, t: Target, a: Bytes, b: Bytes)
    requires DecodeAll(ds, t) == Ok(a) && Decode(d, t) == Ok(b)
    ensures DecodeAll(ds + [d], t) == Ok(a + b)
  {
    assert (ds + [d])[..|ds|] == ds;
  }

  // ---------------------------------------------------------------------------
  // Which paths are written
  // ---------------------------------------------------------------------------

  lemma FileItemPaths(f: NarFile, t: Target, x: Item)
    requires UnpackFile(f, t).Ok? && x in UnpackFile(f, t).value
    ensures x.path == f.path ||
      (f.fileType.DirectoryFile? && f.fileType.from > -1 && f.path + [SLASH] <= x.path)
  {
    hide DecodeAll, List;
    if f.fileType.DirectoryFile? && f.fileType.from > -1 {
      var n := t.store[t.inputs[f.fileType.from]];
      var k :| 0 <= k < |List(f.path, n)| && Items(List(f.path, n))[k] == x;
      ListWithin(f.path, n, k);
    }
  }

  // A file's items start with its own.
  lemma FileFirstPath(f: NarFile, t: Target)
    requires UnpackFile(f, t).Ok? && !f.fileType.NoFileType?
    ensures UnpackFile(f, t).value != [] && UnpackFile(f, t).value[0].path == f.path
  {
    hide DecodeAll;
    if f.fileType.DirectoryFile? && f.fileType.from > -1 {
      var n := t.store[t.inputs[f.fileType.from]];
      assert List(f.path, n)[0] == Entry(f.path, n);
    }
  }

  lemma {:induction false} UnpackedFrom(files: seq<NarFile>, t: Target, x: Item) returns (f: NarFile)
    requires Unpack(files, t).Ok? && x in Unpack(files, t).value
    ensures f in files && UnpackFile(f, t).Ok? && x in UnpackFile(f, t).value
  {
    hide UnpackFile;
    var init := files[..|files| - 1];
    if x in Unpack(init, t).value {
      f := UnpackedFrom(init, t, x);
    } else {
      f := files[|files| - 1];
    }
  }

  // One more file, when its path occurs neither in the items before nor in those wanted.
  lemma UnpackMore(files: seq<NarFile>, f: NarFile, t: Target, a: seq<Item>, b: seq<Item>)
    requires !f.fileType.NoFileType? && b != [] && b[0].path == f.path
    requires forall x :: x in a ==> x.path != f.path
    requires Unpack(files, t).Ok? ==> forall x :: x in Unpack(files, t).value ==> x.path != f.path
    ensures Unpack(files + [f], t) == Ok(a + b) <==> Unpack(files, t) == Ok(a) && UnpackFile(f, t) == Ok(b)
  {
    hide UnpackFile;
    assert (files + [f])[..|files|] == files;
    if Unpack(files + [f], t) == Ok(a + b) {
      FileFirstPath(f, t);
      SplitByPath(Unpack(files, t).value, UnpackFile(f, t).value, a, b, f.path);
    }
  }

  lemma SplitByPath(x: seq<Item>, y: seq<Item>, a: seq<Item>, b: seq<Item>, path: Str)
    requires x + y == a + b && y != [] && b != [] && y[0].path == path && b[0].path == path
    requires (forall e :: e in x ==> e.path != path) && (forall e :: e in a ==> e.path != path)
    ensures x == a && y == b
  {
    NotShorter(x, y, a, b, path);
    NotShorter(a, b, x, y, path);
    assert x == (x + y)[..|x|] && a == (a + b)[..|a|];
    assert y == (x + y)[|x|..] && b == (a + b)[|a|..];
  }

  lemma NotShorter(x: seq<Item>, y: seq<Item>, a: seq<Item>, b: seq<Item>, path: Str)
    requires x + y == a + b && y != [] && y[0].path == path
    requires forall e :: e in a ==> e.path != path
    ensures |x| >= |a|
  {
    assert (x + y)[|x|] == y[0];
    assert forall k :: 0 <= k < |a| ==> (a + b)[k] == a[k] && a[k] in a;
  }
}
