/** The temporary chunk store of internal/chunk_store/store.go: chunks appended to one file,
    which is later mapped and read back by index. */
module ChunkStore {
  import opened Prelude

  datatype ChunkStoreEntry = ChunkStoreEntry(size: nat, offset: nat)

  lemma SliceOfPrefix(a: Bytes, b: Bytes, lo: nat, hi: nat)
    requires lo <= hi <= |a|
    ensures (a + b)[lo..hi] == a[lo..hi]
  {
  }

  class TempChunkStore {
    var file: Bytes                    // what has been written to the temporary file
    var buf: Bytes                     // the mapping; empty until Map
    var size: nat                      // current offset into the file while writing
    var chunks: seq<ChunkStoreEntry>
    ghost var written: seq<Bytes>      // every chunk written, in order

    ghost predicate Valid()
      reads this
    {
      && size == |file| && buf <= file
      && |chunks| == |written| && file == Concat(written)
      && forall k :: 0 <= k < |chunks| ==> EntryAt(k)
    }

    ghost predicate EntryAt(k: nat)
      requires k < |chunks| && k < |written|
      reads this`chunks, this`written, this`file
    {
      var e := chunks[k];
      && e.size == |written[k]|
      && e.offset + e.size <= |file|
      && file[e.offset..e.offset + e.size] == written[k]
    }

    // Every chunk can be read back.
    ghost predicate Mapped()
      reads this
    {
      Valid() && buf == file
    }

    constructor ()
      ensures Valid() && written == [] && buf == []
    {
      file, buf, size, chunks, written := [], [], 0, [], [];
    }

    method WriteChunk(data: Bytes)
      requires Valid()
      modifies this
      ensures Valid() && written == old(written) + [data] && buf == old(buf)
    {
      var entry := ChunkStoreEntry(|data|, size);
      size := size + entry.size;
      chunks := chunks + [entry];
      ConcatAppend(written, data);
      file := file + data;
      written := written + [data];
      forall k | 0 <= k < |chunks|
        ensures EntryAt(k)
      {
        if k < |old(chunks)| {
          assert old(EntryAt(k));
          SliceOfPrefix(old(file), data, chunks[k].offset, chunks[k].offset + chunks[k].size);
        }
      }
    }

    method Map()
      requires Valid()
      modifies this`buf
      ensures Mapped() && written == old(written)
    {
      if size == 0 {
        buf := [];
        return;
      }
      buf := file;
    }

    // An index past the last chunk is an error; a negative one, or a chunk beyond what has
    // been mapped, panics.
    method ReadChunk(i: int) returns (r: Outcome<Bytes>)
      requires Valid()
      ensures i >= |written| ==> r == Err
      ensures i < 0 ==> r == Panic
      ensures 0 <= i < |written| && Mapped() ==> r == Ok(written[i])
      ensures r.Ok? ==> 0 <= i < |written| && r.value == written[i]
    {
      if |chunks| <= i {
        return Err;
      }
      if i < 0 {
        return Panic;
      }
      var entry := chunks[i];
      assert EntryAt(i);
      if entry.offset + entry.size > |buf| {
        return Panic;
      }
      assert buf[entry.offset..entry.offset + entry.size] == file[entry.offset..entry.offset + entry.size];
      return Ok(buf[entry.offset..entry.offset + entry.size]);
    }
  }
}
