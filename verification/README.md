# DeltaNAR, modelled and verified

DeltaNAR ships a Nix closure as a delta. `dnar-pack` compares the closure with what the target
already has and writes NARs of descriptors, a payload stream and a path trailer; `dnar-unpack`
rebuilds every file from those and from the target's own store. This project models both ends and
proves that unpacking undoes packing, for every tree, every local content and every choice the
programs leave open: which local match SQL returns, which reference file wins the vote, which delta
worker finishes first, what the differ's hash table holds.

Code that changes things step by step is modelled by classes, loops and arrays, each proved against
a specification function; the laws are lemmas about those functions.

## How it is built

- `DeltaHash`, `Delta`, `DeltaIndex`, `Patcher`, `DeltaWire`: the hash, the differ, its index, the checked
  patcher over the whole `uint64` range (including the panics), and one concrete Protobuf encoding of a delta.
- `Paths`, `Tree`, `Chunking`: component-wise path order, trees and their pre-order listing, chunk
  tables and digests.
- `Database`, `Indexing`, `LocalIndex`, `DeltaWorkers`: the packer's inputs, from the tree in the store to
  the rows of the database, with SQL's free choices left open, and the delta workers, sequentially and as
  interleaved steps.
- `TableLists`, `Tables`, `Emission`, `Descriptors`, `Packer`, `WriteDnar`: the packer; `Emission` gives
  a file's descriptors and its additions to the tables as a function of the choices made.
- `DirectorySkip`, `SiblingNames`: skipping matched directories, on the flat listing and on the tree.
- `Dnar`, `SameTree`, `Stream`, `ChunkStore`, `Unpacker`: what descriptors denote, when two trees are
  written alike, and the unpacker.
- `ExportFormat`, `ImportStream`, `ClosureDiff`, `Pipeline`: the export stream and its reader, the closure
  difference, and the two programs end to end. `Pipeline.Deploy` is the main theorem, with
  `Pipeline.PathRestoredIff` and `Pipeline.DeployedExactly` saying when what arrives is the original.
- `Example`: what `Pipeline.Deploy` asks of its inputs can be met, for any two file contents, and a closure
  with a match of the wrong type.

`Outcome` distinguishes a returned error from a panic. The end-to-end results assume what the design
assumes: the database describes the sender's store, which `Indexing.IndexPaths` establishes from an empty
database on, for all store paths ever indexed; contents and chunks that occur in the database do not
collide under the hash; the target holds its local store paths unchanged, but for directory sizes; and
Protobuf decodes what it encoded. That the whole-entry matches SQL returned are right is not assumed:
`Pipeline.Deploy` is an equivalence between that and exporting what should be exported. The next section
says when a match is right.

## Where the code does less than its documentation says

- The table of the differ is exact precisely for bases with fewer than 2^31 keys, because positions are
  narrowed to `int32` (`Delta.TableExactIff`). The round trip does not depend on it.
- `Patch` checks `off+length` in machine arithmetic. A copy whose end wraps to a negative number passes
  the bounds check and panics (`Patcher.WrappedCopyPanics`); when no such sum leaves the `int` range it
  cannot (`Patcher.BoundedOperandsDoNotPanic`).
- The directory skip is a raw string-prefix test. A matched directory takes along a later sibling whose
  name extends its own, and a match on `/` loses every child (`DirectorySkip.ExtendingSiblingIsLost`,
  `DirectorySkip.RootMatchLoses`). `Pipeline.PathRestoredIff` gives the exact condition under which
  nothing is lost, read off the tree: the root was not matched, unless it is empty, and no kept matched
  directory has a later sibling whose name extends its own.
- `fileByHash` asks for no file type (`internal/database/query.sql:25-31`), so a regular file may match a
  directory with the same digest. `Packer.WholeMatchIff` says exactly when that is harmless, and
  `Example.EmptyFileIsLost` shows a closure in which an empty file cannot be restored.
- `doc/src/method/dedup.md:19` promises reuse of directories that are "fully identical", but the
  directory digest covers neither symlink targets nor executable bits (`Chunking.DigestIgnoresTargetsAndModes`),
  and it hashes paths and digests without separators, so it does not even tell a file from a symlink
  (`SameTree.SameDigestOtherItems`). A directory match restores the directory if and only if both are the
  same tree but for directory sizes (`SameTree.DirectoryMatchIff`), and that is what makes it right.

## Model

| member | source | states |
|---|---|---|
| Delta.MatchLen | internal/delta/delta.go:164-170 | the match stays inside both slices and cannot be one byte longer |
| Delta.MatchLenAgrees | internal/delta/delta.go:164-170 | the bytes it counts are equal |
| Delta.BackLen | internal/delta/delta.go:86-93 | a match grows back as far as base start, the pending literals and the bytes allow, and no less |
| Delta.BackLenAgrees | internal/delta/delta.go:86-93 | the bytes taken from the pending literals equal those of the base |
| DeltaHash.BucketInTable | internal/delta/delta.go:60-63 | the multiplicative hash modulo 2^32, shifted, is always a valid slot of a table of 2^(32-shift) slots |
| DeltaHash.BucketMeans | internal/delta/delta.go:60-63 | a bucket is the top 32-shift bits of the product, modulo 2^32, of four bytes read least significant first with 2654435761 |
| DeltaHash.SameKeyIff | internal/delta/delta.go:62 | two positions have one key if and only if their four bytes are equal |
| DeltaHash.ProductInjective | internal/delta/delta.go:61-62 | different keys have different products, as the multiplier is invertible modulo 2^32 |
| DeltaHash.BucketHoldsFew | internal/delta/delta.go:60-63 | at most 2^shift different keys share a bucket |
| DeltaHash.SameBytesSameBucket | internal/delta/delta.go:60-63 | equal bytes share a bucket, and without a shift only they do |
| Delta.LastPosIsGreatest | internal/delta/delta.go:54-56 | last-writer-wins leaves the greatest position of each bucket, or none |
| Delta.TableExactIff | internal/delta/delta.go:47-58 | a built table holds one plus the greatest position of every bucket if and only if the base is shorter than 2^31+3 bytes, that is, has fewer than 2^31 keys |
| Delta.ExactIff | internal/delta/delta.go:34 | what such a table is, in terms of the products' top bits |
| Delta.DiffRoundTrip | internal/delta/delta.go:66-111 | for every base, target and arbitrary head table, the operations are valid for the base and rebuild exactly the target |
| Delta.DiffCanonical | internal/delta/delta.go:66-111 | literals are non-empty and never adjacent, copies are at least 16 bytes and can grow neither way, operations spell out the target in order, and there are at most 2*(len/16)+1 of them |
| Delta.NoMissedMatch | internal/delta/delta.go:80-107 | if 16 bytes of the target equal 16 bytes of the base, and no later word of the base has a product with the same top bits, a copy covers the target position |
| DeltaIndex.IndexBits | internal/delta/delta.go:38-44 | the least number of bits in 12..23 whose table has a slot per byte, or 23 |
| DeltaIndex.CommonPrefix | internal/delta/delta.go:164-170 | the loop computes MatchLen |
| DeltaIndex.Index.constructor | internal/delta/delta.go:46-58 | every slot holds the int32 of the last position of its bucket plus one, for a base of any length; between 2^12 and 2^23 slots, at least one but fewer than two per byte within that |
| DeltaIndex.Index.Fill | internal/delta/delta.go:54-56 | the overwriting loop leaves the last position per bucket, zero where there is none |
| DeltaIndex.Index.Anchor | internal/delta/delta.go:82-84 | the candidate of the table at a position and the length of the match there |
| DeltaIndex.Index.ExtendBack | internal/delta/delta.go:86-93 | all three variables move by the backward length |
| DeltaIndex.Index.CopyOps | internal/delta/delta.go:94-100 | the pending literal that is left over, if any, then the extended copy |
| DeltaIndex.Index.Diff | internal/delta/delta.go:65-111 | the encoding of the scan's operations for the table as it is |
| DeltaIndex.Diff | internal/delta/delta.go:113-116 | what is returned decodes to canonical operations that rebuild the target from the base, and comes from a table built for the base |
| Patcher.CopyStep | internal/delta/delta.go:138-150 | in machine arithmetic, a copy is carried out if and only if it is positive, inside the base and within the size; it panics if and only if its end wraps past all checks |
| Patcher.RefusedAt | internal/delta/delta.go:130-155 | the first refused operation alone decides between error and panic |
| Patcher.Patch | internal/delta/delta.go:118-162 | success if and only if the delta decodes, every operation is valid and lengths sum to the result size, with the concatenation as result; otherwise an error, or a panic exactly in the named cases |
| Patcher.PatchSucceedsIff | internal/delta/delta.go:130-161 | patching succeeds if and only if every operation is an insertion or a copy of at least one byte inside the base, and together they produce the wanted size |
| Patcher.PatchedByte | internal/delta/delta.go:136-150 | every operation then writes its own bytes right after those before it |
| Patcher.PatchPanicsIff | internal/delta/delta.go:129-150 | it panics if and only if the size cannot be allocated or a copy, all before it being fine, has operands inside and an end beyond the int range and is not seen to be too long |
| Patcher.BoundedOperandsDoNotPanic | internal/delta/delta.go:139-150 | without a sum beyond the int range Patch does not panic |
| Patcher.WrappedCopyPanics | internal/delta/delta.go:144-150 | a copy of one byte at 2^63-1 panics for every base |
| Patcher.DiffThenPatch | internal/delta/delta.go:66-162 | a diff made with any table patches to the target at its own size and is an error at every other size |
| DeltaWire.UnmarshalOf | internal/delta/delta.proto:8-22 | decoding the encoded operations, with their tags, varints and lengths, returns them |
| DeltaWire.WireCodecFaithful | internal/delta/delta.proto:8-22 | the encoding meets the round-trip assumption made of marshalling |
| DeltaWire.WireExample | internal/delta/delta.proto:8-22 | the exact bytes of a delta with a copy and an insertion |
| Chunking.ChunkFile | internal/store/chunk.go:50-156 | for every chunker the chunks tile the whole file, with prefix-sum offsets, digests of their own slices, one residual chunk exactly when bytes are left over, and the digest of the whole content |
| Chunking.ReadPath | internal/store/chunk.go:158-254 | the recursion yields one record per entry of the pre-order listing, in order, with its digest |
| Chunking.FedIsPreimage | internal/store/chunk.go:201-213 | what the loop feeds the directory hasher is a function of the tree alone |
| Chunking.DirectoryDigestIs | internal/store/chunk.go:201-221 | a directory's digest is that of the paths and digests of all entries below it, in listing order, with nothing between them |
| Chunking.DigestOfErased | internal/store/chunk.go:201-221 | a tree's digest is that of the tree with link targets, executable bits and directory sizes erased |
| Chunking.DigestIgnoresTargetsAndModes | internal/store/chunk.go:201-221 | trees that differ only in symlink targets and executable bits, at any depth, share a digest |
| Chunking.DigestConfusesKinds | internal/store/chunk.go:205-213 | a directory with a file and a different one with a suitably named symlink share a digest; both are possible directories if the name is and the digest contains no slash |
| Chunking.EmptyDirectoryAsFile | internal/store/chunk.go:147-150 | an empty directory and an empty file share a digest, whatever the hash function |
| SameTree.SameItemsIff | internal/cmd/dnar-unpack/write.go:188-224 | two valid trees are written alike, at whatever path, if and only if they are equal but for directory sizes |
| SameTree.DirectoryMatchIff | internal/cmd/dnar-unpack/write.go:171-231 | a directory message restores a tree if and only if the directory it names is there and is that tree but for directory sizes |
| SameTree.SameDigestOtherItems | internal/store/chunk.go:205-213 | two possible directories with one digest are written differently at every path |
| Tree.ListingBlocks | internal/store/chunk.go:188-199 | in every listing the entries whose path extends a given path form one block right after it, and paths are distinct |
| Tree.LaterBlock | internal/store/chunk.go:188-199 | among later siblings the extensions of a name come first |
| DirectorySkip.SkipsIffDropped | internal/cmd/dnar-pack/dnar.go:182-185 | the one-variable test skips an entry if and only if its path properly extends some matched directory's path |
| DirectorySkip.SkipIsExact | internal/cmd/dnar-pack/dnar.go:179-185 | over every listing the loop keeps, in order, exactly the entries that extend no matched directory's path |
| DirectorySkip.KeptPathIsNew | internal/cmd/dnar-pack/dnar.go:182-185 | no earlier entry, walked or not, writes the path of an entry that is not skipped |
| DirectorySkip.TreeRoundTripIff | internal/cmd/dnar-pack/dnar.go:346-363 | kept entries plus the walks of matched directories give the original listing if and only if every entry a kept matched directory drops lies below it |
| DirectorySkip.LostEntry | internal/cmd/dnar-pack/dnar.go:183-185 | an entry dropped without lying below what drops it never comes back |
| DirectorySkip.RootMatchLoses | internal/cmd/dnar-unpack/write.go:189 | a match on a non-empty root violates that condition |
| DirectorySkip.ExtendingSiblingIsLost | internal/cmd/dnar-pack/dnar.go:183-185 | with "a" matched, a later sibling "ab" violates it |
| SiblingNames.ApartIff | internal/cmd/dnar-pack/dnar.go:183-185 | every entry a kept matched directory drops lies below it if and only if the root was not matched, unless empty, and no kept matched directory has a later sibling whose name extends its own |
| SiblingNames.TreeRestoredIff | internal/cmd/dnar-pack/dnar.go:346-363 | kept entries plus the walks of matched directories give the original listing if and only if that holds of the tree |
| Database.FilesSelected | internal/database/query.sql:19-20 | the files of a store path are all of its rows, once each, in table order |
| Database.FilesInIdOrder | internal/database/query.sql:20 | they come in id order |
| Database.ChunksSelected | internal/database/query.sql:50-53 | the chunks of a file are all of its rows, once each, in table order |
| Database.ChunkRowFacts | internal/store/chunk.go:76-150 | a file's k-th chunk row is the slice right after the earlier ones, with its digest |
| Database.AnyChunkRow | internal/store/chunk.go:76-150 | every chunk row of an indexed database stands for bytes of some file with its digest |
| Database.KnownMeans | internal/database/query.sql:28-31 | a hash is known if any row of a local store path has it, a chunk if any file of one has it |
| Indexing.Index | internal/cmd/dnar-pack/index.go:65-101 | the nested loops insert a row per record, under "/" for the root, and its chunks |
| Indexing.StillIndexed | internal/cmd/dnar-pack/index.go:71-100 | inserting what was read from an entry keeps rows in id order, every row true of its entry and every chunk with its file |
| Indexing.IndexingLists | internal/cmd/dnar-pack/index.go:65-101 | after indexing a store path its own tree is listed, entry by entry, next to all that was listed before, and the path is added to the others |
| Indexing.IndexStorePath | internal/cmd/dnar-pack/index.go:45-101 | reading a store path and inserting what was read does so, for every tree and every chunker |
| Indexing.Unindexed | internal/cmd/dnar-pack/index.go:28-37 | exactly the requisites that the database lacks, each once |
| Indexing.IndexPaths | internal/cmd/dnar-pack/index.go:16-108 | a database that lists the tree of every store path it holds does so afterwards, and holds the requisites besides |
| Indexing.EmptyComplete | internal/cmd/dnar-pack/index.go:16-108 | a new database is such a database |
| Indexing.IndexAll | internal/cmd/dnar-pack/index.go:16-108 | so, from a new database on, every requisite is listed |
| LocalIndex.LocalIndex.FileByHash | internal/cmd/dnar-pack/localindex.go:63-76 | nothing if and only if no row of a local store path, whatever its path or type, has the hash; otherwise any such row |
| LocalIndex.LocalIndex.StoreFileByID | internal/cmd/dnar-pack/localindex.go:78-88 | the row with that id, cached or not; nothing only if there is none |
| LocalIndex.LocalIndex.FileChunks | internal/cmd/dnar-pack/localindex.go:39-61 | every chunk in order, matched if and only if the target knows its digest, then with any local chunk that has it |
| LocalIndex.LocalIndex.JoinLocal | internal/database/query.sql:33-53 | a chunk is matched if and only if some chunk with its hash is one of a file on a local store path, and then with any such chunk |
| DeltaWorkers.RefIndexCache.Get | internal/cmd/dnar-pack/delta.go:28-41 | an index built over what mapping the requested file gives, reused while the id is unchanged; null exactly when it cannot be mapped, with the old one kept |
| DeltaWorkers.RefIndexCache.Close | internal/cmd/dnar-pack/delta.go:43-49 | nothing stays cached |
| DeltaWorkers.ComputeDeltas | internal/cmd/dnar-pack/dnar.go:265-297 | whichever job is taken next, a slot is empty if and only if its chunk is matched, is empty, or has a delta no shorter than itself, and otherwise holds that delta |
| DeltaWorkers.ScheduleIndependent | internal/cmd/dnar-pack/dnar.go:273-296 | the same after every complete interleaving of the workers' reads, diffs and writes |
| DeltaWorkers.AlwaysProgress | internal/cmd/dnar-pack/dnar.go:273-296 | as long as a worker is not done some step is possible |
| DeltaWorkers.StepsEnd | internal/cmd/dnar-pack/dnar.go:273-296 | and every step brings the end closer, so every run ends |
| Emission.EmissionScheduleIndependent | internal/cmd/dnar-pack/dnar.go:265-344 | every complete interleaving leads to the same descriptors, files and payload numbering |
| Emission.EmitKeeps | internal/cmd/dnar-pack/dnar.go:299-344 | a file's descriptors never renumber what the tables hold and list nothing twice |
| Emission.RowByIdIs | internal/database/query.sql:22-23 | looking up a row's id finds that row |
| TableLists.AddFileKeeps | internal/cmd/dnar-pack/dnar.go:50-63 | a file is listed once, where its index says, and nothing else moves |
| TableLists.AddChunkKeeps | internal/cmd/dnar-pack/dnar.go:74-85 | a digest is sent once, where its index says, and nothing else moves |
| Tables.IndexOf | internal/cmd/dnar-pack/dnar.go:36 | the first position of the id, or -1 |
| Tables.Tables.AddInputStorePathID | internal/cmd/dnar-pack/dnar.go:35-45 | the id is at the returned index and listed once |
| Tables.Tables.AddInputStoreFile | internal/cmd/dnar-pack/dnar.go:50-63 | the file is at the returned index, which is the first of its id; the lists become those of TableLists, and the map stays the exact inverse |
| Tables.Tables.AddChunkDep | internal/cmd/dnar-pack/dnar.go:74-85 | the returned payload carries the chunk's bytes, also when another file's chunk was listed first; the list grows by the chunk, and the total by its bytes, if and only if its digest was not on it |
| Tables.Tables.AddDeltaPayload | internal/cmd/dnar-pack/dnar.go:86-90 | the delta is appended and its index returned |
| Tables.PayloadTotalIs | internal/cmd/dnar-pack/dnar.go:391-446 | the payload total is the number of bytes streamed |
| Tables.Tables.ListedAt | internal/cmd/dnar-pack/dnar.go:51-54 | the map beside the files finds what searching the list would |
| Tables.Tables.SentAt | internal/cmd/dnar-pack/dnar.go:75-78 | the map beside the payloads finds what searching the list would |
| Tables.Tables.NothingTwice | internal/cmd/dnar-pack/dnar.go:34-90 | the tables never list anything twice |
| Tables.Tables.GrewMeansGrows | internal/cmd/dnar-pack/dnar.go:47-90 | when tables only grow, so does everything descriptors are resolved against |
| Tables.VerbatimData | internal/cmd/dnar-pack/dnar.go:400-441 | the stream carries the chunk's bytes for a verbatim payload |
| Tables.SameDigestSameData | internal/cmd/dnar-pack/dnar.go:75-78 | a deduplicated payload carries the bytes of every chunk with its digest |
| Descriptors.CountVotes | internal/cmd/dnar-pack/dnar.go:231-236 | a local file's votes are the number of matched chunks it provides; files that provide none are absent |
| Descriptors.MostPopular | internal/cmd/dnar-pack/dnar.go:244-250 | over any iteration order, a file with a maximal vote |
| Descriptors.Reference | internal/cmd/dnar-pack/dnar.go:238-261 | a reference provides at least as many matched chunks as any other file, is neither empty nor larger than four times the file or 16 MiB, and is indexed over its own content; there is none only without matched chunks or when a most popular file is not of such a size |
| Descriptors.LocalChunkRead | internal/cmd/dnar-pack/dnar.go:305-318 | the range of any matching local chunk, read on the target, is the wanted chunk |
| Descriptors.DeltaRead | internal/cmd/dnar-unpack/write.go:140-164 | patching the reference with the sent delta gives the chunk |
| Descriptors.DescribeMatched | internal/cmd/dnar-pack/dnar.go:305-318 | the range descriptor decodes to the chunk; all its fields and the tables are determined by the match |
| Descriptors.DescribeDelta | internal/cmd/dnar-pack/dnar.go:320-330 | the delta descriptor decodes to the chunk; all its fields and the tables are determined by reference and delta |
| Descriptors.DescribeVerbatim | internal/cmd/dnar-pack/dnar.go:332-342 | the verbatim descriptor decodes to the chunk, costs at most its bytes, and its index is the first of the digest |
| Descriptors.DescribeChunk | internal/cmd/dnar-pack/dnar.go:304-343 | a matched chunk goes by its local range, a missing one by its delta if there is one and verbatim otherwise; the descriptor decodes to the chunk, and payload grows by nothing, by the delta, or by the chunk if its digest is new |
| Descriptors.DescribeChunks | internal/cmd/dnar-pack/dnar.go:299-344 | every chunk goes by its right route, and the descriptors decode together to the whole file; they and the tables are those of Emission; payload growth is bounded by the missing chunks' sizes |
| Descriptors.UnmatchedIs | internal/cmd/dnar-pack/dnar.go:300-344 | that bound is the sum of the sizes of the chunks no file of a local store path has |
| Packer.WholeMatchIff | internal/cmd/dnar-pack/dnar.go:203-220 | a whole-file match restores the file if and only if what matched is a file, or the file is empty and the recorded size zero |
| Packer.PackWhole | internal/cmd/dnar-pack/dnar.go:208-220 | the single range descriptor, at the match's own index, decodes to the file if and only if the match is a file, or an empty file met a directory of recorded size zero; no payload |
| Packer.WalkedDir | internal/cmd/dnar-pack/dnar.go:349-363 | a matched directory unpacks to the entry's own tree if and only if both are the same tree but for directory sizes |
| Packer.PackDeltas | internal/cmd/dnar-pack/dnar.go:265-297 | without a reference no deltas; with one, each result is the worker's, strictly shorter than its chunk |
| Packer.PackChunkwise | internal/cmd/dnar-pack/dnar.go:221-345 | the file's descriptors decode to its bytes, whatever was matched and whichever reference was chosen, and those choices alone determine descriptors and tables |
| Packer.PackRegular | internal/cmd/dnar-pack/dnar.go:194-345 | a regular file goes by one range if and only if the target knows its hash; its descriptors decode to its bytes if and only if that match, if any, is right |
| Packer.PackEntry | internal/cmd/dnar-pack/dnar.go:187-373 | the message unpacks to the entry's own item, or to those of its whole directory if that was matched, if and only if the match used, if any, is right |
| Packer.PackFiles | internal/cmd/dnar-pack/dnar.go:179-374 | a store path's messages unpack to the kept entries with matched directories unfolded if and only if every match used is right; there is one use for each kept entry whose hash the target knows, and its message names the row; payload within budget |
| Packer.RowsBudgetIs | internal/cmd/dnar-pack/dnar.go:182-345 | the budget of a store path is the sum over its kept files that the target lacks |
| Packer.PackedMore | internal/cmd/dnar-pack/dnar.go:182-373 | one kept entry more: the equivalence between right matches and right items carries over to the grown tables |
| Packer.AllRightUsed | internal/cmd/dnar-pack/dnar.go:203-207 | if any match that SQL may return for a kept entry is right, those used are |
| WriteDnar.PackPaths | internal/cmd/dnar-pack/dnar.go:155-379 | after every path each NAR so far unpacks, against the tables as they now are, to its store path's items if and only if the matches used for it are right; it fails if and only if path info is missing |
| WriteDnar.NarsStable | internal/cmd/dnar-pack/dnar.go:376-378 | NARs already streamed, right or wrong, keep their meaning while the tables grow |
| WriteDnar.WritePayloads | internal/cmd/dnar-pack/dnar.go:386-449 | one message per table entry, in order, with the bytes it stands for, reusing open files |
| WriteDnar.WriteTrailer | internal/cmd/dnar-pack/dnar.go:454-487 | the trailer resolves every file index to that file's absolute path, and its path indices fit uint32 |
| WriteDnar.WriteTables | internal/cmd/dnar-pack/dnar.go:381-487 | header, payloads and trailer for the final tables; no digest is sent verbatim twice |
| WriteDnar.WriteDNAR | internal/cmd/dnar-pack/dnar.go:21-490 | the stream is the serialization of NARs each of which unpacks, against the final payloads and trailer and the target's store, to its store path's items if and only if the matches used for it are right; payloads are sent once and within budget |
| WriteDnar.PathsBudgetIs | internal/cmd/dnar-pack/dnar.go:156-379 | the budget of an archive is the sum over its store paths |
| Dnar.ReadPayloadMeans | internal/chunk_store/store.go:74-80 | an index from the wire yields its payload, an error past the end, a panic beyond the int range |
| Dnar.SliceMeans | internal/cmd/dnar-unpack/write.go:150-154 | the reference range is a slice if it lies inside, a panic if its end wraps around into the file, an error otherwise |
| Dnar.ReadRangeMeans | internal/cmd/dnar-unpack/write.go:116-138 | which ranges of which entries can be read, and what fails how |
| Dnar.ReadWholeMeans | internal/mmapfile/mmapfile.go:8-30 | files, and whatever has size zero, can be mapped |
| Dnar.FileWrites | internal/cmd/dnar-unpack/write.go:88-252 | what each type of file message writes |
| Dnar.ItemMeans | internal/cmd/dnar-unpack/write.go:191-224 | what the entries of a tree are written as |
| Dnar.DecodeAllStable | internal/cmd/dnar-unpack/write.go:103-168 | descriptors whose indices denote table entries decode alike, or fail alike, against every later state |
| Dnar.UnpackStable | internal/cmd/dnar-unpack/write.go:88-252 | the same for the files of a whole NAR |
| Dnar.UnpackMore | internal/cmd/dnar-unpack/write.go:88-252 | with a path that is new on both sides, a file more unpacks to the items wanted if and only if the files before and the file itself do |
| Dnar.FileItemPaths | internal/cmd/dnar-unpack/write.go:88-252 | a file writes its own path, and only a copied directory writes others, below it |
| Stream.ReadNARs | internal/cmd/dnar-unpack/read.go:14-36 | returns the NARs of the section and the rest of the stream, and fails only where there is no such section |
| Stream.ReadChunks | internal/cmd/dnar-unpack/read.go:38-70 | stores and maps the payloads of the section, and fails only where there is none |
| Stream.ReadInputStoreFiles | internal/cmd/dnar-unpack/read.go:72-86 | joins each file to its store path; an index outside the paths panics |
| Stream.ReadEOF | internal/cmd/dnar-unpack/read.go:88-94 | succeeds if and only if nothing is left |
| Stream.ReadArchive | internal/cmd/dnar-unpack/nix-store-export.go:58-84 | succeeds if and only if the stream is the three sections and nothing more, with their content |
| Stream.SerializeAccepted | internal/dnar/dnar.proto:29-36 | a serialized archive is accepted as its own NARs, payloads and resolved paths, and as nothing else |
| Stream.AcceptsIff | internal/cmd/dnar-unpack/read.go:14-94 | the accepted streams, message by message |
| ChunkStore.TempChunkStore.WriteChunk | internal/chunk_store/store.go:40-53 | the chunk is added after the earlier ones, which stay where they are |
| ChunkStore.TempChunkStore.Map | internal/chunk_store/store.go:55-72 | everything written becomes readable, also when that is nothing |
| ChunkStore.TempChunkStore.ReadChunk | internal/chunk_store/store.go:74-80 | once mapped, the i-th chunk byte for byte; an error past the end and a panic below zero |
| Unpacker.InputCache.ReadAt | internal/cmd/dnar-unpack/write.go:116-138 | the file range of the target's store, with the cache of open files never changing what is read |
| Unpacker.InputCache.ReadInputData | internal/cmd/dnar-unpack/write.go:75-86 | the whole file, mapped once |
| Unpacker.WriteDelta | internal/cmd/dnar-unpack/write.go:140-164 | the outcome the descriptor denotes, with the base range checked in uint64 arithmetic |
| Unpacker.DecodeChunk | internal/cmd/dnar-unpack/write.go:103-168 | every chunk type yields the outcome its descriptor denotes |
| Unpacker.WriteRegular | internal/cmd/dnar-unpack/write.go:91-169 | the file's header, then exactly the decoded bytes, or the failure of the first descriptor that fails |
| Unpacker.WalkDir | internal/cmd/dnar-unpack/write.go:174-231 | the walk writes the directory's pre-order listing under the file's own path |
| Unpacker.WriteFile | internal/cmd/dnar-unpack/write.go:88-252 | every file type writes the items its message denotes |
| Unpacker.WriteNAR | internal/cmd/dnar-unpack/write.go:45-259 | a NAR writes the items its files denote, or fails as they do |
| ExportFormat.PutUint64 | internal/cmd/dnar-unpack/write.go:20-25 | the buffer holds the little-endian word |
| ExportFormat.WriteNixString | internal/cmd/dnar-unpack/write.go:27-43 | length, bytes and zero padding are appended |
| ExportFormat.WriteExportTrailer | internal/cmd/dnar-unpack/nix-store-export.go:17-36 | the trailer is appended, references in order |
| ExportFormat.WordBytes | internal/cmd/dnar-unpack/write.go:20-25 | a word read least significant byte first is the number |
| ExportFormat.StringLayout | internal/cmd/dnar-unpack/write.go:27-43 | a string is its length, its bytes and fewer than 8 zeros up to a multiple of 8 |
| ExportFormat.TrailerRoundTrip | internal/cmd/dnar-unpack/nix-store-export.go:17-36 | parsing a trailer followed by anything returns its path, references, deriver and exactly what follows |
| ExportFormat.UniquelyDecodable | internal/cmd/dnar-unpack/nix-store-export.go:17-36 | two trailers with equal continuations are equal, so none is a proper prefix of another |
| ExportFormat.TrailerAligned | internal/cmd/dnar-unpack/write.go:35-41 | every string and every trailer is a multiple of 8 bytes long |
| ClosureDiff.SortInPlace | internal/cmd/dnar-pack/main.go:82 | the clone becomes the sorted sequence of its own elements |
| ClosureDiff.SortedOrdered | internal/cmd/dnar-pack/main.go:82 | that sequence is ordered |
| ClosureDiff.SortedMembers | internal/cmd/dnar-pack/main.go:82 | and has the same members |
| ClosureDiff.SortedPermutes | internal/cmd/dnar-pack/main.go:82 | each as often |
| Paths.LessMeans | internal/cmd/dnar-pack/main.go:82-85 | the order is that of the first byte that differs, an end coming first |
| ClosureDiff.BinarySearch | internal/cmd/dnar-pack/main.go:85 | on an ordered array, found if and only if present, at the first position not below the target |
| ClosureDiff.NewStorePaths | internal/cmd/dnar-pack/main.go:78-90 | exactly the deployed paths that are not local, in deployment order |
| ClosureDiff.MissingSelected | internal/cmd/dnar-pack/main.go:84-89 | what is missing stands at exactly the positions whose paths are not local |
| ClosureDiff.ImportSafe | internal/cmd/dnar-unpack/nix-store-export.go:86-114 | if requisites come references-first and the local set is closed, it stays closed after every prefix of the exported paths |
| ClosureDiff.ImportComplete | internal/cmd/dnar-pack/main.go:84-89 | nothing local is sent and the whole closure is there at the end |
| Pipeline.ExportNAR | internal/cmd/dnar-unpack/nix-store-export.go:86-114 | the count word, the NAR's items and the trailer with full reference paths, or the NAR's own failure |
| Pipeline.Export | internal/cmd/dnar-unpack/nix-store-export.go:58-119 | a serialized archive is exported NAR by NAR, ending in the zero word, if and only if every NAR unpacks |
| ImportStream.PathRead | internal/cmd/dnar-unpack/nix-store-export.go:86-114 | a reader of the stream takes the word 1, a NAR and a trailer for a path |
| ImportStream.EndRead | internal/cmd/dnar-unpack/nix-store-export.go:116-119 | and ends at the word 0 |
| Pipeline.Deploy | internal/cmd/dnar-pack/dnar.go:194-345 | unpack undoes pack: for every match, reference and schedule, the target exports the missing paths in order, each with its references and the items its listing unfolds to, if and only if every match that was used is right; a reader of that stream then gets just these |
| Pipeline.ExportedReads | internal/cmd/dnar-unpack/nix-store-export.go:86-119 | a reader of the exported stream gets, to its end, one path for each missing one, in order, with its items, no deriver, and every reference with "/nix/store/" in front |
| Pipeline.ReadsOriginals | internal/cmd/dnar-unpack/nix-store-export.go:86-114 | what it gets for a path is the sender's own tree if and only if nothing is lost in it |
| Pipeline.NarsExportedIff | internal/cmd/dnar-unpack/nix-store-export.go:86-114 | after every prefix of the NARs the export is what it should be if and only if the matches used so far are right |
| Pipeline.AllRightMeansUsed | internal/cmd/dnar-pack/dnar.go:203-207 | if any match that may be returned for an entry that is looked up is right, Deploy's condition holds |
| Pipeline.PathRestoredIff | internal/cmd/dnar-pack/dnar.go:179-185 | a store path arrives item for item if and only if its root was not matched, unless empty, and no kept matched directory has a later sibling whose name extends its own |
| Pipeline.ItemsRestoredIff | internal/cmd/dnar-unpack/write.go:171-240 | the same for any tree and any set of matched directories |
| Pipeline.DeployedExactly | internal/cmd/dnar-unpack/nix-store-export.go:86-114 | if that holds for all paths the export stream is that of the sender's own trees |
| Pipeline.ImportsFindReferences | internal/cmd/dnar-unpack/nix-store-export.go:101-113 | when a path is imported every reference in its trailer is local, imported before, or the path itself |
| Example.PackingIsPossible | internal/cmd/dnar-pack/dnar.go:21-490 | what packing and unpacking ask of their inputs can be met, for any two file contents |
| Example.EmptyFileIsLost | internal/cmd/dnar-pack/dnar.go:203-220 | with any hash function, a closure in which an empty file's only match is an empty directory and its descriptor is an error |

## Left out

- Unpacker.InputCache.ReadAt: does not follow a symlink that an archive names as an input; no packer
  names one, as symlinks have no hash to match.
- Unpacker.InputCache.ReadInputData: the same.
- Chunking.DigestConfusesKinds: names are free of slashes; the zero byte, which file systems also exclude
  from names, is not modelled.
- Patcher.Patch: the base is at most 2^48 bytes, the largest slice the Go runtime allocates; a result
  size beyond that panics in the model as `make` does.
- WriteDnar.WriteDNAR: the tables' lengths are bounded by the same limit and the database by 2^32 store
  paths, so that no index is truncated; the bound is a sum over the rows, known before packing.
- DeltaWire.WireCodecFaithful: covers the encodings a marshaller produces; the other encodings that a
  Protobuf parser accepts (repeated fields in any order, unknown fields, long varints) are not parsed.
- SQLite, migrations and generated queries: tables are sequences in id order, joins with `LIMIT 1` or
  `GROUP BY` pick any matching row.
- Protobuf framing of the stream: messages are datatypes; truncated or malformed messages are not modelled,
  nor is the size limit (4 MiB by default) above which `protodelim.UnmarshalFrom` refuses a message that
  `MarshalTo` has written.
- Rows of store paths that were collected after they were indexed: the sender's store is taken as it was
  when its paths were indexed.
- FastCDC and BLAKE3: any chunker whose pieces are a prefix of the file, any function as hash; freedom
  from collisions is assumed only among the contents and chunks in the database.
- The go-nix NAR writer: its input, headers and bytes, is modelled; its own checks and output are not.
- Files, descriptors, memory maps, short reads and other I/O errors.
- The binary-cache output with its narinfo text, and the parsing of `nix path-info`.
- Reading store paths in parallel and transactions in `internal/cmd/dnar-pack/index.go`.
- Slice aliasing between `localStorePaths` and `allStorePaths` in `internal/cmd/dnar-pack/main.go:69-70`:
  `strings.Fields` returns slices without spare capacity, so the append copies.
- Dropping duplicate local paths or roots before packing, and garbage-collector roots.
