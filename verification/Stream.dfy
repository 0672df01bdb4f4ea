/** The DNAR stream (internal/dnar/dnar.proto) as messages, and the readers of
    internal/cmd/dnar-unpack/read.go, which accept what the writer emits and nothing else. */
module Stream {
  import opened Prelude
  import opened Dnar
  import opened ChunkStore

  datatype Message =
    | StreamHeader(length: uint64)
    | NarMessage(nar: NAR)
    | CAChunkMessage(data: Bytes)
    | TrailerMessage(trailer: PathTrailer)

  function NarMessages(nars: seq<NAR>): (m: seq<Message>)
    ensures |m| == |nars| && forall i :: 0 <= i < |m| ==> m[i] == NarMessage(nars[i])
  {
    seq(|nars|, i requires 0 <= i < |nars| => NarMessage(nars[i]))
  }

  function ChunkMessages(payloads: seq<Bytes>): (m: seq<Message>)
    ensures |m| == |payloads| && forall i :: 0 <= i < |m| ==> m[i] == CAChunkMessage(payloads[i])
  {
    seq(|payloads|, i requires 0 <= i < |payloads| => CAChunkMessage(payloads[i]))
  }

  // A header followed by as many NARs as it says; make panics on a larger count.
  ghost predicate NarSection(m: seq<Message>, nars: seq<NAR>, rest: seq<Message>) {
    8 * |nars| <= MAX_ALLOC && m == [StreamHeader(|nars|)] + NarMessages(nars) + rest
  }

  // A header followed by as many chunks as it says, where a count that is negative as an
  // int stands for none.
  ghost predicate ChunkSection(m: seq<Message>, payloads: seq<Bytes>, rest: seq<Message>) {
    && m != [] && m[0].StreamHeader? && m[1..] == ChunkMessages(payloads) + rest
    && |payloads| == if ToInt64(m[0].length) < 0 then 0 else ToInt64(m[0].length)
  }

  // The files of a trailer as paths; an index outside the trailer's paths panics.
  ghost predicate Resolves(t: PathTrailer, inputs: seq<Str>) {
    && |inputs| == |t.files|
    && forall i :: 0 <= i < |t.files| ==> ResolvesTo(t, t.files[i], inputs[i])
  }

  ghost predicate ResolvesTo(t: PathTrailer, f: FileDescriptor, input: Str) {
    0 <= f.storePath < |t.paths| && input == t.paths[f.storePath] + f.path
  }

  class Reader {
    const messages: seq<Message>
    var pos: nat

    ghost predicate Valid()
      reads this
    {
      pos <= |messages|
    }

    ghost function Rest(): seq<Message>
      requires Valid()
      reads this
    {
      messages[pos..]
    }

    constructor (messages: seq<Message>)
      ensures Valid() && Rest() == messages
    {
      this.messages := messages;
      pos := 0;
    }

    // protodelim.UnmarshalFrom; None is an error at the end of the stream.
    method Next() returns (m: Option<Message>)
      requires Valid()
      modifies this
      ensures Valid()
      ensures m.None? <==> old(Rest()) == []
      ensures m.None? ==> Rest() == []
      ensures m.Some? ==> old(Rest()) == [m.value] + Rest()
    {
      if pos == |messages| {
        return None;
      }
      pos := pos + 1;
      return Some(messages[pos - 1]);
    }
  }

  // Where a section's body has more messages than were read, its next message stands.
  lemma AtSection(m: seq<Message>, head: Message, body: seq<Message>, rest: seq<Message>, done: seq<Message>,
                  left: seq<Message>)
    requires m == [head] + body + rest && m == [head] + done + left && |done| < |body|
    ensures left != [] && left[0] == body[|done|]
  {
    assert m[1 + |done|] == body[|done|];
    assert |left| == |m| - 1 - |done|;
    assert left[0] == m[1 + |done|];
  }

  ghost predicate NoNars(m: seq<Message>) {
    forall ns, rest :: !NarSection(m, ns, rest)
  }

  ghost predicate NoChunks(m: seq<Message>) {
    forall ps, rest :: !ChunkSection(m, ps, rest)
  }

  lemma NoHeader(m: seq<Message>)
    requires m == [] || !m[0].StreamHeader?
    ensures NoNars(m) && NoChunks(m)
  {
  }

  lemma TooManyNars(m: seq<Message>)
    requires m != [] && m[0].StreamHeader? && 8 * m[0].length > MAX_ALLOC
    ensures NoNars(m)
  {
  }

  // A message missing from the section, or of another kind, rules the section out.
  lemma NarsBroken(m: seq<Message>, length: uint64, done: seq<NAR>, left: seq<Message>)
    requires m == [StreamHeader(length)] + NarMessages(done) + left && |done| < length
    requires left == [] || !left[0].NarMessage?
    ensures NoNars(m)
  {
    forall ns, rest
      ensures !NarSection(m, ns, rest)
    {
      if NarSection(m, ns, rest) {
        HeaderOf(m, StreamHeader(length), NarMessages(done) + left, StreamHeader(|ns|), NarMessages(ns) + rest);
        AtSection(m, StreamHeader(length), NarMessages(ns), rest, NarMessages(done), left);
      }
    }
  }

  lemma ChunksBroken(m: seq<Message>, length: uint64, done: seq<Bytes>, left: seq<Message>)
    requires m == [StreamHeader(length)] + ChunkMessages(done) + left && |done| < ToInt64(length)
    requires left == [] || !left[0].CAChunkMessage?
    ensures NoChunks(m)
  {
    forall ps, rest
      ensures !ChunkSection(m, ps, rest)
    {
      if ChunkSection(m, ps, rest) {
        assert m[0] == StreamHeader(length);
        assert m == [m[0]] + m[1..];
        AtSection(m, StreamHeader(length), ChunkMessages(ps), rest, ChunkMessages(done), left);
      }
    }
  }

  lemma HeaderOf(m: seq<Message>, a: Message, x: seq<Message>, b: Message, y: seq<Message>)
    requires m == [a] + x && m == [b] + y
    ensures a == b
  {
    assert m[0] == a && m[0] == b;
  }

  method ReadNARs(r: Reader) returns (nars: Outcome<seq<NAR>>)
    requires r.Valid()
    modifies r
    ensures r.Valid()
    ensures nars.Ok? ==> NarSection(old(r.Rest()), nars.value, r.Rest())
    ensures !nars.Ok? ==> NoNars(old(r.Rest()))
  {
    hide NoNars;
    ghost var m := r.Rest();
    var header := r.Next();
    if header.None? || !header.value.StreamHeader? {
      NoHeader(m);
      return Err;
    }
    var length := header.value.length;
    if 8 * length > MAX_ALLOC {
      TooManyNars(m);
      return Panic;
    }
    var read: seq<NAR> := [];
    while |read| < length
      invariant r.Valid() && |read| <= length
      invariant m == [header.value] + NarMessages(read) + r.Rest()
    {
      ghost var left := r.Rest();
      var nar := r.Next();
      if nar.None? || !nar.value.NarMessage? {
        NarsBroken(m, length, read, left);
        return Err;
      }
      assert NarMessages(read + [nar.value.nar]) == NarMessages(read) + [nar.value];
      read := read + [nar.value.nar];
    }
    return Ok(read);
  }

  lemma ChunkTaken(m: seq<Message>, head: Message, ws: seq<Bytes>, data: Bytes, left: seq<Message>, rest: seq<Message>)
    requires m == [head] + ChunkMessages(ws) + left && left == [CAChunkMessage(data)] + rest
    ensures m == [head] + ChunkMessages(ws + [data]) + rest
  {
    assert ChunkMessages(ws + [data]) == ChunkMessages(ws) + [CAChunkMessage(data)];
  }

  lemma ChunksTaken(m: seq<Message>, head: Message, ws: seq<Bytes>, rest: seq<Message>)
    requires m == [head] + ChunkMessages(ws) + rest && head.StreamHeader?
    requires |ws| == if ToInt64(head.length) < 0 then 0 else ToInt64(head.length)
    ensures ChunkSection(m, ws, rest)
  {
    hide ToInt64;
    assert m[1..] == ChunkMessages(ws) + rest;
  }

  lemma NoneTaken(m: seq<Message>, head: Message, rest: seq<Message>)
    requires m == [head] + rest
    ensures m == [head] + ChunkMessages([]) + rest
  {
  }

  method ReadChunks(r: Reader, store: TempChunkStore) returns (ok: bool)
    requires r.Valid() && store.Valid() && store.written == []
    modifies r, store
    ensures r.Valid() && store.Valid()
    ensures ok ==> store.Mapped() && ChunkSection(old(r.Rest()), store.written, r.Rest())
    ensures !ok ==> NoChunks(old(r.Rest()))
  {
    hide NoChunks, ToInt64, TempChunkStore.Valid, ChunkSection, ChunkMessages;
    ghost var m := r.Rest();
    var header := r.Next();
    if header.None? || !header.value.StreamHeader? {
      NoHeader(m);
      return false;
    }
    var i, length := 0, ToInt64(header.value.length);
    NoneTaken(m, header.value, r.Rest());
    while i < length
      invariant r.Valid() && store.Valid() && 0 <= i == |store.written| && (i <= length || i == 0)
      invariant m == [header.value] + ChunkMessages(store.written) + r.Rest()
    {
      ghost var left, written := r.Rest(), store.written;
      var chunk := r.Next();
      if chunk.None? || !chunk.value.CAChunkMessage? {
        ChunksBroken(m, header.value.length, store.written, left);
        return false;
      }
      store.WriteChunk(chunk.value.data);
      ChunkTaken(m, header.value, written, chunk.value.data, left, r.Rest());
      i := i + 1;
    }
    ChunksTaken(m, header.value, store.written, r.Rest());
    store.Map();
    return true;
  }

  lemma Unresolved(t: PathTrailer, i: nat)
    requires i < |t.files| && !(0 <= t.files[i].storePath < |t.paths|)
    ensures forall inputs :: !Resolves(t, inputs)
  {
    forall inputs
      ensures !Resolves(t, inputs)
    {
      assert |inputs| == |t.files| ==> !ResolvesTo(t, t.files[i], inputs[i]);
    }
  }

  method ReadInputStoreFiles(r: Reader) returns (files: Outcome<seq<Str>>)
    requires r.Valid()
    modifies r
    ensures r.Valid()
    ensures files.Ok? ==>
      && old(r.Rest()) != [] && old(r.Rest())[0].TrailerMessage?
      && Resolves(old(r.Rest())[0].trailer, files.value) && r.Rest() == old(r.Rest())[1..]
    ensures files.Err? <==> old(r.Rest()) == [] || !old(r.Rest())[0].TrailerMessage?
    ensures files.Panic? ==> forall inputs :: !Resolves(old(r.Rest())[0].trailer, inputs)
  {
    var m := r.Next();
    if m.None? || !m.value.TrailerMessage? {
      return Err;
    }
    var t := m.value.trailer;
    var inputs: seq<Str> := [];
    for i := 0 to |t.files|
      invariant |inputs| == i
      invariant forall k :: 0 <= k < i ==> ResolvesTo(t, t.files[k], inputs[k])
    {
      var f := t.files[i];
      if !(0 <= f.storePath < |t.paths|) {
        Unresolved(t, i);
        return Panic;
      }
      inputs := inputs + [t.paths[f.storePath] + f.path];
    }
    return Ok(inputs);
  }

  method ReadEOF(r: Reader) returns (ok: bool)
    requires r.Valid()
    modifies r
    ensures ok <==> old(r.Rest()) == []
  {
    var m := r.Next();
    return m.None?;
  }

  // ---------------------------------------------------------------------------
  // A whole archive
  // ---------------------------------------------------------------------------

  datatype Archive = Archive(nars: seq<NAR>, payloads: seq<Bytes>, trailer: PathTrailer)

  function Serialize(a: Archive): seq<Message> {
    [StreamHeader(|a.nars| % TWO_64)] + NarMessages(a.nars) +
    ([StreamHeader(|a.payloads| % TWO_64)] + ChunkMessages(a.payloads) + [TrailerMessage(a.trailer)])
  }

  // The stream is made of the three sections and nothing more.
  ghost predicate Accepts(m: seq<Message>, nars: seq<NAR>, payloads: seq<Bytes>, inputs: seq<Str>) {
    exists rest, trailer ::
      NarSection(m, nars, rest) && ChunkSection(rest, payloads, [TrailerMessage(trailer)]) && Resolves(trailer, inputs)
  }

  // The four reads both unpackers perform.
  method ReadArchive(messages: seq<Message>, store: TempChunkStore) returns (ok: bool, nars: seq<NAR>, inputs: seq<Str>)
    requires store.Valid() && store.written == []
    modifies store
    ensures store.Valid()
    ensures ok ==> store.Mapped() && Accepts(messages, nars, store.written, inputs)
    ensures !ok ==> forall ns, ps, ins :: !Accepts(messages, ns, ps, ins)
  {
    hide NarSection, ChunkSection, Resolves;
    ok, nars, inputs := false, [], [];
    var r := new Reader(messages);
    var narsRead := ReadNARs(r);
    if !narsRead.Ok? {
      return;
    }
    ghost var rest := r.Rest();
    var chunksRead := ReadChunks(r, store);
    if !chunksRead {
      forall ns, ps, ins | Accepts(messages, ns, ps, ins)
        ensures false
      {
        NarSectionUnique(messages, ns, narsRead.value, rest);
      }
      return;
    }
    ghost var last, payloads := r.Rest(), store.written;
    var filesRead := ReadInputStoreFiles(r);
    var atEnd := false;
    if filesRead.Ok? {
      atEnd := ReadEOF(r);
    }
    if !filesRead.Ok? || !atEnd {
      forall ns, ps, ins | Accepts(messages, ns, ps, ins)
        ensures false
      {
        NarSectionUnique(messages, ns, narsRead.value, rest);
        ChunkSectionUnique(rest, ps, payloads, last);
      }
      return;
    }
    ok, nars, inputs := true, narsRead.value, filesRead.value;
    assert last == [TrailerMessage(last[0].trailer)];
  }

  lemma NarSectionUnique(m: seq<Message>, a: seq<NAR>, b: seq<NAR>, rest: seq<Message>)
    requires NarSection(m, b, rest)
    ensures forall other :: NarSection(m, a, other) ==> a == b && other == rest
  {
    forall other | NarSection(m, a, other)
      ensures a == b && other == rest
    {
      HeaderOf(m, StreamHeader(|a|), NarMessages(a) + other, StreamHeader(|b|), NarMessages(b) + rest);
      SplitSame(m, StreamHeader(|a|), NarMessages(a), other, NarMessages(b), rest);
      assert forall i :: 0 <= i < |a| ==> NarMessages(a)[i] == NarMessages(b)[i];
    }
  }

  lemma SplitSame(m: seq<Message>, head: Message, x: seq<Message>, y: seq<Message>, x': seq<Message>, y': seq<Message>)
    requires m == [head] + x + y && m == [head] + x' + y' && |x| == |x'|
    ensures x == x' && y == y'
  {
    assert x == m[1..1 + |x|] == x';
    assert y == m[1 + |x|..] == y';
  }

  lemma ChunkSectionUnique(m: seq<Message>, a: seq<Bytes>, b: seq<Bytes>, rest: seq<Message>)
    requires ChunkSection(m, b, rest)
    ensures forall other :: ChunkSection(m, a, other) ==> a == b && other == rest
  {
    forall other | ChunkSection(m, a, other)
      ensures a == b && other == rest
    {
      assert forall i :: 0 <= i < |a| ==> ChunkMessages(a)[i] == m[1..][i] == ChunkMessages(b)[i];
      assert other == m[1..][|a|..] == rest;
    }
  }

  lemma ResolvesUnique(t: PathTrailer, a: seq<Str>, b: seq<Str>)
    requires Resolves(t, a) && Resolves(t, b)
    ensures a == b
  {
    forall i | 0 <= i < |a|
      ensures a[i] == b[i]
    {
      assert ResolvesTo(t, t.files[i], a[i]) && ResolvesTo(t, t.files[i], b[i]);
    }
  }

  /** The readers understand the writer: a serialized archive is accepted, to the last message,
      as its own NARs, payloads and resolved paths, and as nothing else. */
  lemma SerializeAccepted(a: Archive, inputs: seq<Str>, nars: seq<NAR>, payloads: seq<Bytes>, ins: seq<Str>)
    requires 8 * |a.nars| <= MAX_ALLOC && |a.payloads| <= MAX_ALLOC && Resolves(a.trailer, inputs)
    ensures Accepts(Serialize(a), nars, payloads, ins) <==> nars == a.nars && payloads == a.payloads && ins == inputs
  {
    hide Resolves;
    var m := Serialize(a);
    var last := [TrailerMessage(a.trailer)];
    var rest := [StreamHeader(|a.payloads|)] + ChunkMessages(a.payloads) + last;
    assert NarSection(m, a.nars, rest);
    assert rest[1..] == ChunkMessages(a.payloads) + last;
    assert ChunkSection(rest, a.payloads, last);
    assert Accepts(m, a.nars, a.payloads, inputs);
    if Accepts(m, nars, payloads, ins) {
      hide NarSection, ChunkSection;
      NarSectionUnique(m, nars, a.nars, rest);
      ChunkSectionUnique(rest, payloads, a.payloads, last);
      var rest', trailer :| NarSection(m, nars, rest')
        && ChunkSection(rest', payloads, [TrailerMessage(trailer)]) && Resolves(trailer, ins);
      assert trailer == a.trailer;
      ResolvesUnique(trailer, inputs, ins);
    }
  }

  // The messages of an archive, one by one.
  ghost predicate Laid(m: seq<Message>, nars: seq<NAR>, payloads: seq<Bytes>, inputs: seq<Str>) {
    && |m| == |nars| + |payloads| + 3
    && m[0] == StreamHeader(|nars| % 0x1_0000_0000_0000_0000) && 8 * |nars| <= 0x1_0000_0000_0000
    && (forall i :: 0 <= i < |nars| ==> m[1 + i] == NarMessage(nars[i]))
    && m[1 + |nars|].StreamHeader?
    && |payloads| == (if m[1 + |nars|].length < 0x8000_0000_0000_0000 then m[1 + |nars|].length else 0)
    && (forall i :: 0 <= i < |payloads| ==> m[2 + |nars| + i] == CAChunkMessage(payloads[i]))
    && m[|m| - 1].TrailerMessage?
    && var t := m[|m| - 1].trailer;
       && |inputs| == |t.files|
       && forall i :: 0 <= i < |inputs| ==>
         0 <= t.files[i].storePath < |t.paths| && inputs[i] == t.paths[t.files[i].storePath] + t.files[i].path
  }

  /** What the readers accept: a header and its NARs, a header and its payloads, where a count
      that is negative as an int stands for none, a trailer, and nothing more. */
  lemma AcceptsIff(m: seq<Message>, nars: seq<NAR>, payloads: seq<Bytes>, inputs: seq<Str>)
    ensures Accepts(m, nars, payloads, inputs) <==> Laid(m, nars, payloads, inputs)
  {
    if Accepts(m, nars, payloads, inputs) {
      var rest, t :| NarSection(m, nars, rest) && ChunkSection(rest, payloads, [TrailerMessage(t)])
        && Resolves(t, inputs);
      SectionsLaid(m, nars, payloads, inputs, rest, t);
    }
    if Laid(m, nars, payloads, inputs) {
      LaidSections(m, nars, payloads, inputs);
    }
  }

  lemma HeaderInt(length: uint64)
    ensures (if ToInt64(length) < 0 then 0 else ToInt64(length)) == if length < TWO_63 then length else 0
  {
  }

  lemma NarSectionLaid(m: seq<Message>, nars: seq<NAR>, rest: seq<Message>)
    requires NarSection(m, nars, rest)
    ensures |m| == 1 + |nars| + |rest| && m[0] == StreamHeader(|nars|)
    ensures forall i :: 0 <= i < |nars| ==> m[1 + i] == NarMessage(nars[i])
    ensures forall i :: 0 <= i < |rest| ==> m[1 + |nars| + i] == rest[i]
  {
    var head, body := [StreamHeader(|nars|)], NarMessages(nars);
    forall i | 0 <= i < |nars|
      ensures m[1 + i] == NarMessage(nars[i])
    {
      MiddleAt(head, body, rest, i);
    }
    forall i | 0 <= i < |rest|
      ensures m[1 + |nars| + i] == rest[i]
    {
      LastAt(head, body, rest, i);
    }
  }

  lemma MiddleAt<T>(head: seq<T>, body: seq<T>, rest: seq<T>, i: nat)
    requires i < |body|
    ensures (head + body + rest)[|head| + i] == body[i]
  {
  }

  lemma LastAt<T>(head: seq<T>, body: seq<T>, rest: seq<T>, i: nat)
    requires i < |rest|
    ensures (head + body + rest)[|head| + |body| + i] == rest[i]
  {
  }

  lemma ChunkSectionLaid(rest: seq<Message>, payloads: seq<Bytes>, t: PathTrailer)
    requires ChunkSection(rest, payloads, [TrailerMessage(t)])
    ensures |rest| == |payloads| + 2 && rest[0].StreamHeader? && rest[|rest| - 1] == TrailerMessage(t)
    ensures |payloads| == if rest[0].length < 0x8000_0000_0000_0000 then rest[0].length else 0
    ensures forall i :: 0 <= i < |payloads| ==> rest[1 + i] == CAChunkMessage(payloads[i])
  {
    hide ToInt64;
    HeaderInt(rest[0].length);
    assert forall i :: 0 <= i < |payloads| ==> rest[1 + i] == rest[1..][i] == ChunkMessages(payloads)[i];
    assert rest[|rest| - 1] == rest[1..][|payloads|];
  }

  lemma SectionsLaid(m: seq<Message>, nars: seq<NAR>, payloads: seq<Bytes>, inputs: seq<Str>, rest: seq<Message>,
                     t: PathTrailer)
    requires NarSection(m, nars, rest) && ChunkSection(rest, payloads, [TrailerMessage(t)]) && Resolves(t, inputs)
    ensures Laid(m, nars, payloads, inputs)
  {
    NarSectionLaid(m, nars, rest);
    ChunkSectionLaid(rest, payloads, t);
    assert 8 * |nars| <= MAX_ALLOC;
    hide NarSection, ChunkSection, ToInt64, NarMessages, ChunkMessages;
    assert forall i :: 0 <= i < |inputs| ==> ResolvesTo(t, t.files[i], inputs[i]);
    forall i | 0 <= i < |payloads|
      ensures m[2 + |nars| + i] == CAChunkMessage(payloads[i])
    {
      assert m[1 + |nars| + (1 + i)] == rest[1 + i];
    }
    assert m[1 + |nars|] == rest[0] && m[|m| - 1] == rest[|rest| - 1];
  }

  lemma LaidSections(m: seq<Message>, nars: seq<NAR>, payloads: seq<Bytes>, inputs: seq<Str>)
    requires Laid(m, nars, payloads, inputs)
    ensures Accepts(m, nars, payloads, inputs)
  {
    hide ToInt64;
    var n := |nars|;
    var rest, t := m[1 + n..], m[|m| - 1].trailer;
    HeaderInt(rest[0].length);
    assert m[1..1 + n] == NarMessages(nars);
    assert m == [m[0]] + m[1..1 + n] + rest;
    assert NarSection(m, nars, rest);
    assert rest[1..] == ChunkMessages(payloads) + [TrailerMessage(t)];
    assert ChunkSection(rest, payloads, [TrailerMessage(t)]);
    assert Resolves(t, inputs);
  }
}
