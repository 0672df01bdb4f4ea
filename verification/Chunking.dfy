/** Reading a store path for the index (internal/store/chunk.go): chunk tables, digests and
    the recursion that flattens a tree into the listing of module Tree. */
module Chunking {
  import opened Prelude
  import opened Paths
  import opened Tree

  type Digest = Bytes
  type Hash = Bytes -> Digest

  // The content-defined chunker: the pieces it hands out are consecutive and start the file.
  type Chunker = Bytes -> seq<Bytes>

  ghost predicate CutsPrefix(cdc: Chunker) {
    forall content :: Concat(cdc(content)) <= content
  }

  datatype FileChunk = FileChunk(offset: nat, len: nat, digest: Digest)

  datatype ChunkedFile = ChunkedFile(chunks: seq<FileChunk>, digest: Digest)

  function Extent(chunks: seq<FileChunk>): nat {
    if chunks == [] then 0 else Extent(chunks[..|chunks| - 1]) + chunks[|chunks| - 1].len
  }

  // The chunks cover the first `end` bytes of content without gap or overlap, and each
  // carries the digest of its own slice.
  ghost predicate Tiles(h: Hash, chunks: seq<FileChunk>, content: Bytes, end: nat) {
    && Extent(chunks) == end <= |content|
    && forall k :: 0 <= k < |chunks| ==> TileAt(h, chunks, content, k)
  }

  ghost predicate TileAt(h: Hash, chunks: seq<FileChunk>, content: Bytes, k: nat)
    requires k < |chunks|
  {
    var c := chunks[k];
    && c.offset == Extent(chunks[..k])
    && c.offset + c.len <= |content|
    && c.digest == h(content[c.offset..c.offset + c.len])
  }

  lemma TilesAppend(h: Hash, chunks: seq<FileChunk>, content: Bytes, end: nat, len: nat)
    requires Tiles(h, chunks, content, end) && end + len <= |content|
    ensures Tiles(h, chunks + [FileChunk(end, len, h(content[end..end + len]))], content, end + len)
  {
    var more := chunks + [FileChunk(end, len, h(content[end..end + len]))];
    assert more[..|chunks|] == chunks;
    forall k | 0 <= k < |more|
      ensures TileAt(h, more, content, k)
    {
      if k < |chunks| {
        assert TileAt(h, chunks, content, k);
        assert more[..k] == chunks[..k];
      }
    }
  }

  lemma NoTiles(h: Hash, content: Bytes)
    ensures Tiles(h, [], content, 0)
  {
  }

  lemma NoPieces()
    ensures Concat([]) == []
  {
  }

  // The next piece is the next stretch of the content.
  lemma NextPiece(pieces: seq<Bytes>, content: Bytes, k: nat)
    requires Concat(pieces) <= content && k < |pieces|
    ensures Concat(pieces[..k + 1]) == Concat(pieces[..k]) + pieces[k] <= content
    ensures var o := |Concat(pieces[..k])|; content[o..o + |pieces[k]|] == pieces[k]
  {
    assert pieces[..k + 1] == pieces[..k] + [pieces[k]];
    ConcatAppend(pieces[..k], pieces[k]);
    ConcatPrefix(pieces, k + 1);
    var o := |Concat(pieces[..k])|;
    assert Concat(pieces[..k + 1])[o..] == pieces[k];
  }

  /** For every chunker, the chunk table tiles the whole file, the pieces are its first chunks
      and what the chunker leaves over is one more; the file digest is of the whole content. */
  method ChunkFile(h: Hash, pieces: seq<Bytes>, content: Bytes) returns (f: ChunkedFile)
    requires Concat(pieces) <= content
    ensures Tiles(h, f.chunks, content, |content|) && f.digest == h(content)
    ensures |f.chunks| == |pieces| + (if Concat(pieces) == content then 0 else 1)
    ensures forall k :: 0 <= k < |pieces| ==> f.chunks[k].len == |pieces[k]|
  {
    hide Concat, Tiles;
    var chunks: seq<FileChunk> := [];
    assert Tiles(h, chunks, content, 0) by {
      NoTiles(h, content);
    }
    assert Concat(pieces[..0]) == [] by {
      NoPieces();
    }
    var hashed: Bytes := [];  // what the file hasher has been fed
    var bytesChunked, offset: nat := 0, 0;
    for k := 0 to |pieces|
      invariant |chunks| == k && bytesChunked == offset == |hashed|
      invariant hashed == Concat(pieces[..k]) <= content
      invariant Tiles(h, chunks, content, offset)
      invariant forall m :: 0 <= m < k ==> chunks[m].len == |pieces[m]|
    {
      var chunk := pieces[k];
      NextPiece(pieces, content, k);
      TilesAppend(h, chunks, content, offset, |chunk|);
      hashed := hashed + chunk;
      bytesChunked := bytesChunked + |chunk|;
      chunks := chunks + [FileChunk(offset, |chunk|, h(chunk))];
      offset := offset + |chunk|;
    }
    assert pieces[..|pieces|] == pieces;
    if bytesChunked < |content| {
      var buf := content[offset..];
      assert content[offset..offset + |buf|] == buf;
      TilesAppend(h, chunks, content, offset, |buf|);
      hashed := hashed + buf;
      chunks := chunks + [FileChunk(offset, |buf|, h(buf))];
    }
    assert hashed == content;
    f := ChunkedFile(chunks, h(hashed));
  }

  lemma {:induction false} ConcatPrefix(parts: seq<Bytes>, k: nat)
    requires k <= |parts|
    ensures Concat(parts[..k]) <= Concat(parts)
  {
    if k == |parts| {
      assert parts[..k] == parts;
    } else {
      var init := parts[..|parts| - 1];
      ConcatPrefix(init, k);
      assert init[..k] == parts[..k];
    }
  }

  // ---------------------------------------------------------------------------
  // Digests of trees
  // ---------------------------------------------------------------------------

  // The digest stored for a node: of the content, of the listing below a directory, and
  // empty for a symlink.
  function NodeDigest(h: Hash, p: Str, n: Node): Digest
    decreases n, 0
  {
    match n
    case Regular(content, _) => h(content)
    case Symlink(_) => []
    case Directory(_, entries) => h(Preimage(h, p, entries))
  }

  // What is fed to the hasher of the directory at p.
  function Preimage(h: Hash, p: Str, es: seq<DirEntry>): Bytes
    decreases es, 1
  {
    if es == [] then [] else
      var c := Child(p, es[0].name);
      var sub := if es[0].node.Directory? then Preimage(h, c, es[0].node.entries) else [];
      (c + NodeDigest(h, c, es[0].node) + sub) + Preimage(h, p, es[1..])
  }

  // For each entry of a listing, its path and its digest.
  function Listed(h: Hash, l: seq<Entry>): seq<Bytes> {
    seq(|l|, k requires 0 <= k < |l| => l[k].path + NodeDigest(h, l[k].path, l[k].node))
  }

  /** A directory's digest is that of the paths and digests of everything below it, in the
      order of the listing, one after the other. */
  lemma DirectoryDigestIs(h: Hash, p: Str, n: Node)
    requires n.Directory?
    ensures NodeDigest(h, p, n) == h(Concat(Listed(h, Below(p, n))))
  {
    PreimageIs(h, p, n.entries);
  }

  lemma {:induction false} PreimageIs(h: Hash, p: Str, es: seq<DirEntry>)
    ensures Preimage(h, p, es) == Concat(Listed(h, ListAll(p, es)))
    decreases es
  {
    if es == [] {
      assert Listed(h, ListAll(p, es)) == [];
    } else {
      hide Concat, NodeDigest, Listed;
      var c, n := Child(p, es[0].name), es[0].node;
      PreimageIs(h, p, es[1..]);
      if n.Directory? {
        PreimageIs(h, c, n.entries);
      } else {
        assert Below(c, n) == [];
        NothingListed(h);
      }
      ListedConcat(h, [Entry(c, n)], Below(c, n));
      ListedConcat(h, List(c, n), ListAll(p, es[1..]));
      OneListed(h, Entry(c, n));
    }
  }

  lemma NothingListed(h: Hash)
    ensures Concat(Listed(h, [])) == []
  {
  }

  lemma OneListed(h: Hash, e: Entry)
    ensures Concat(Listed(h, [e])) == e.path + NodeDigest(h, e.path, e.node)
  {
    hide NodeDigest;
    var x := e.path + NodeDigest(h, e.path, e.node);
    var one: seq<Bytes> := [x];
    assert Listed(h, [e]) == one;
    assert one[..0] == [];
    assert Concat(one) == [] + x == x;
  }

  lemma ListedConcat(h: Hash, a: seq<Entry>, b: seq<Entry>)
    ensures Concat(Listed(h, a + b)) == Concat(Listed(h, a)) + Concat(Listed(h, b))
  {
    hide NodeDigest, Concat;
    assert Listed(h, a + b) == Listed(h, a) + Listed(h, b);
    ConcatJoins(Listed(h, a), Listed(h, b));
  }

  lemma {:induction false} ConcatJoins(a: seq<Bytes>, b: seq<Bytes>)
    ensures Concat(a + b) == Concat(a) + Concat(b)
  {
    hide Concat;
    if b == [] {
      assert a + b == a;
      NoPieces();
    } else {
      var init, last := b[..|b| - 1], b[|b| - 1];
      assert init + [last] == b && (a + init) + [last] == a + b;
      ConcatJoins(a, init);
      ConcatAppend(init, last);
      ConcatAppend(a + init, last);
      Associates(Concat(a), Concat(init), last);
    }
  }

  // A tree without what its digests leave out: symlink targets, executable bits and the
  // recorded sizes of directories.
  function Erase(n: Node): Node {
    match n
    case Regular(content, _) => Regular(content, false)
    case Symlink(_) => Symlink([])
    case Directory(_, entries) => Directory(0, EraseAll(entries))
  }

  function EraseAll(es: seq<DirEntry>): seq<DirEntry> {
    if es == [] then [] else [DirEntry(es[0].name, Erase(es[0].node))] + EraseAll(es[1..])
  }

  lemma {:induction false} DigestOfErased(h: Hash, p: Str, n: Node)
    ensures NodeDigest(h, p, Erase(n)) == NodeDigest(h, p, n)
    ensures n.Directory? ==> Preimage(h, p, EraseAll(n.entries)) == Preimage(h, p, n.entries)
    decreases n, 0
  {
    if n.Directory? {
      PreimageOfErased(h, p, n.entries);
    }
  }

  lemma {:induction false} PreimageOfErased(h: Hash, p: Str, es: seq<DirEntry>)
    ensures Preimage(h, p, EraseAll(es)) == Preimage(h, p, es)
    decreases es, 1
  {
    if es != [] {
      var erased := EraseAll(es);
      assert erased[1..] == EraseAll(es[1..]);
      DigestOfErased(h, Child(p, es[0].name), es[0].node);
      PreimageOfErased(h, p, es[1..]);
    }
  }

  /** Two trees that differ only in symlink targets and executable bits, at any depth, have
      one digest, whatever the hash function. */
  lemma DigestIgnoresTargetsAndModes(h: Hash, p: Str, a: Node, b: Node)
    requires Erase(a) == Erase(b)
    ensures NodeDigest(h, p, a) == NodeDigest(h, p, b)
  {
    DigestOfErased(h, p, a);
    DigestOfErased(h, p, b);
  }

  /** Nor does it tell a file from a symlink: paths and digests are hashed without separators,
      so a symlink whose name ends in the digest of a file's content stands for that file.
      Both directories can exist unless the digest happens to contain a slash. */
  lemma DigestConfusesKinds(h: Hash, p: Str, name: Str, content: Bytes, target: Str)
    ensures
      var a := Directory(0, [DirEntry(name, Regular(content, false))]);
      var b := Directory(0, [DirEntry(name + h(content), Symlink(target))]);
      && NodeDigest(h, p, a) == NodeDigest(h, p, b) && Bare(a) != Bare(b)
      && (ValidName(name) && SLASH !in h(content) ==> ValidNode(a) && ValidNode(b))
  {
    var x, y := DirEntry(name, Regular(content, false)), DirEntry(name + h(content), Symlink(target));
    OneEntryDigest(h, p, name, x.node);
    OneEntryDigest(h, p, y.name, y.node);
    assert Child(p, y.name) + [] == Child(p, name) + h(content);
    assert BareAll([x])[0] == x && BareAll([y])[0] == y;
    assert [x][1..] == [] && [y][1..] == [];
    assert ValidEntries([]);
  }

  /** A file and a directory may share a digest too: an empty one of each does. */
  lemma EmptyDirectoryAsFile(h: Hash, p: Str, q: Str, size: nat, executable: bool)
    ensures NodeDigest(h, p, Directory(size, [])) == NodeDigest(h, q, Regular([], executable))
  {
  }

  lemma OneEntryDigest(h: Hash, p: Str, name: Str, n: Node)
    requires !n.Directory?
    ensures NodeDigest(h, p, Directory(0, [DirEntry(name, n)])) == h(Child(p, name) + NodeDigest(h, Child(p, name), n))
  {
    var d := [DirEntry(name, n)];
    assert Preimage(h, p, d[1..]) == [];
    assert Preimage(h, p, d) == Child(p, name) + NodeDigest(h, Child(p, name), n);
  }

  // ---------------------------------------------------------------------------
  // The listing
  // ---------------------------------------------------------------------------

  datatype Kind = RegularKind | DirectoryKind | SymlinkKind

  function KindOf(n: Node): Kind {
    match n
    case Regular(_, _) => RegularKind
    case Symlink(_) => SymlinkKind
    case Directory(_, _) => DirectoryKind
  }

  datatype StoreFile = StoreFile(path: Str, kind: Kind, size: nat, linkTarget: Str, executable: bool,
                                 chunks: seq<FileChunk>, digest: Digest)

  // f describes the entry e of a listing.
  ghost predicate Describes(h: Hash, f: StoreFile, e: Entry) {
    && f.path == e.path && f.kind == KindOf(e.node) && f.digest == NodeDigest(h, e.path, e.node)
    && match e.node
       case Regular(content, executable) =>
         f.size == |content| && f.executable == executable && Tiles(h, f.chunks, content, |content|)
       case Symlink(target) => f.size == |target| && f.linkTarget == target && f.chunks == []
       case Directory(size, _) => f.size == size && f.chunks == []
  }

  ghost predicate DescribesAll(h: Hash, files: seq<StoreFile>, l: seq<Entry>) {
    |files| == |l| && forall k :: 0 <= k < |l| ==> Describes(h, files[k], l[k])
  }

  function Fed(files: seq<StoreFile>): Bytes {
    if files == [] then [] else
      Fed(files[..|files| - 1]) + (files[|files| - 1].path + files[|files| - 1].digest)
  }

  lemma FedSnoc(s: seq<StoreFile>, f: StoreFile)
    ensures Fed(s + [f]) == Fed(s) + (f.path + f.digest)
  {
    assert (s + [f])[..|s|] == s;
  }

  lemma {:induction false} FedConcat(a: seq<StoreFile>, b: seq<StoreFile>)
    ensures Fed(a + b) == Fed(a) + Fed(b)
  {
    hide Fed;
    if b == [] {
      assert a + b == a;
      FedNone();
    } else {
      var init, last := b[..|b| - 1], b[|b| - 1];
      FedConcat(a, init);
      FedSnoc(init, last);
      FedSnoc(a + init, last);
      assert init + [last] == b && (a + init) + [last] == a + b;
      assert (Fed(a) + Fed(init)) + (last.path + last.digest) == Fed(a) + (Fed(init) + (last.path + last.digest));
    }
  }

  lemma FedOne(f: StoreFile)
    ensures Fed([f]) == f.path + f.digest
  {
    assert [f][..0] == [];
  }

  lemma DescribesSlice(h: Hash, files: seq<StoreFile>, l: seq<Entry>, i: nat, j: nat)
    requires DescribesAll(h, files, l) && i <= j <= |l|
    ensures DescribesAll(h, files[i..j], l[i..j])
  {
  }

  lemma DescribesConcat(h: Hash, a: seq<StoreFile>, la: seq<Entry>, b: seq<StoreFile>, lb: seq<Entry>)
    requires DescribesAll(h, a, la) && DescribesAll(h, b, lb)
    ensures DescribesAll(h, a + b, la + lb)
  {
  }

  lemma FedCut(files: seq<StoreFile>, k: nat)
    requires k <= |files|
    ensures Fed(files) == Fed(files[..k]) + Fed(files[k..])
  {
    hide Fed;
    FedConcat(files[..k], files[k..]);
    assert files == files[..k] + files[k..];
  }

  lemma FedSplit(files: seq<StoreFile>, k: nat)
    requires 1 <= k <= |files|
    ensures Fed(files) == (files[0].path + files[0].digest + Fed(files[1..k])) + Fed(files[k..])
  {
    hide Fed;
    var front := files[..k];
    FedCut(files, k);
    FedCut(front, 1);
    FedOne(files[0]);
    assert front[..1] == [files[0]];
    assert front[1..] == files[1..k];
  }

  // Feeding the hasher file by file amounts to the preimage of the tree.
  lemma {:induction false} FedIsPreimage(h: Hash, p: Str, es: seq<DirEntry>, files: seq<StoreFile>)
    requires DescribesAll(h, files, ListAll(p, es))
    ensures Fed(files) == Preimage(h, p, es)
    decreases es
  {
    hide DescribesAll, Fed, Tiles;
    if es == [] {
      assert files == [] by {
        DescribesLength(h, files, ListAll(p, es));
      }
      FedNone();
    } else {
      var c, n, l := Child(p, es[0].name), es[0].node, ListAll(p, es);
      var k := 1 + |Below(c, n)|;
      DescribesLength(h, files, l);
      assert l == [Entry(c, n)] + Below(c, n) + ListAll(p, es[1..]);
      assert l[1..k] == Below(c, n) && l[k..|l|] == ListAll(p, es[1..]) && files[k..|l|] == files[k..];
      FedSplit(files, k);
      DescribesFirst(h, files, l);
      DescribesSlice(h, files, l, k, |l|);
      FedIsPreimage(h, p, es[1..], files[k..]);
      DescribesSlice(h, files, l, 1, k);
      if n.Directory? {
        FedIsPreimage(h, c, n.entries, files[1..k]);
      } else {
        FedNone();
      }
    }
  }

  lemma FedNone()
    ensures Fed([]) == []
  {
  }

  lemma DescribesLength(h: Hash, files: seq<StoreFile>, l: seq<Entry>)
    requires DescribesAll(h, files, l)
    ensures |files| == |l|
  {
  }

  lemma DescribesFirst(h: Hash, files: seq<StoreFile>, l: seq<Entry>)
    requires DescribesAll(h, files, l) && l != []
    ensures files[0].path == l[0].path && files[0].digest == NodeDigest(h, l[0].path, l[0].node)
  {
  }

  lemma {:induction false} ListAllConcat(p: Str, a: seq<DirEntry>, b: seq<DirEntry>)
    ensures ListAll(p, a + b) == ListAll(p, a) + ListAll(p, b)
    decreases |a|
  {
    if a == [] {
      assert a + b == b;
    } else {
      ListAllConcat(p, a[1..], b);
      assert (a + b)[1..] == a[1..] + b;
      var x, y, z := List(Child(p, a[0].name), a[0].node), ListAll(p, a[1..]), ListAll(p, b);
      assert ListAll(p, a + b) == x + (y + z);
      hide List, ListAll;
      assert x + (y + z) == (x + y) + z;
    }
  }

  lemma ListAllSnoc(p: Str, es: seq<DirEntry>, i: nat)
    requires i < |es|
    ensures ListAll(p, es[..i + 1]) == ListAll(p, es[..i]) + List(Child(p, es[i].name), es[i].node)
  {
    assert es[..i + 1] == es[..i] + [es[i]];
    ListAllConcat(p, es[..i], [es[i]]);
    assert ListAll(p, [es[i]]) == List(Child(p, es[i].name), es[i].node);
  }

  // strings.TrimPrefix.
  function TrimPrefix(s: Str, prefix: Str): Str {
    if prefix <= s then s[|prefix|..] else s
  }

  lemma DescribesNone(h: Hash)
    ensures DescribesAll(h, [], [])
  {
  }

  lemma DescribesOne(h: Hash, f: StoreFile, e: Entry)
    requires Describes(h, f, e)
    ensures DescribesAll(h, [f], [e])
  {
  }

  /** The recursion of ReadStorePath yields one record per entry of the pre-order listing, in
      its order, with the digests of NodeDigest. */
  method ReadPath(h: Hash, cdc: Chunker, storePath: Str, path: Str, n: Node, ghost rel: Str)
    returns (files: seq<StoreFile>)
    requires CutsPrefix(cdc) && path == storePath + rel
    ensures DescribesAll(h, files, List(rel, n))
    decreases n
  {
    hide DescribesAll, Tiles, Fed;
    var dirStoreFiles: seq<StoreFile> := [];
    DescribesNone(h);
    var f := StoreFile(TrimPrefix(path, storePath), KindOf(n), 0, [], true, [], []);
    match n {
      case Symlink(target) =>
        f := f.(linkTarget := target, size := |target|);
      case Directory(size, entries) =>
        for i := 0 to |entries|
          invariant DescribesAll(h, dirStoreFiles, ListAll(rel, entries[..i]))
        {
          var sub := storePath + Child(rel, entries[i].name);
          assert path + [SLASH] + entries[i].name == sub;
          var entry := entries[i];
          var ss := ReadPath(h, cdc, storePath, path + [SLASH] + entry.name, entry.node, Child(rel, entry.name));
          ListAllSnoc(rel, entries, i);
          DescribesConcat(h, dirStoreFiles, ListAll(rel, entries[..i]), ss, List(Child(rel, entry.name), entry.node));
          dirStoreFiles := dirStoreFiles + ss;
        }
        assert entries[..|entries|] == entries;
        FedIsPreimage(h, rel, entries, dirStoreFiles);
        f := f.(size := size, digest := h(Fed(dirStoreFiles)));
      case Regular(content, executable) =>
        var chunked := ChunkFile(h, cdc(content), content);
        f := f.(size := |content|, executable := executable, chunks := chunked.chunks, digest := chunked.digest);
    }
    assert f.path == rel;
    DescribesOne(h, f, Entry(rel, n));
    files := [f] + dirStoreFiles;
    DescribesConcat(h, [f], [Entry(rel, n)], dirStoreFiles, Below(rel, n));
  }
}
