/** The reading side of the export stream (internal/cmd/dnar-unpack/nix-store-export.go): what
    `nix-store --import` takes from it, path by path, until the zero word. */
module ImportStream {
  import opened Prelude
  import opened Dnar
  import opened ExportFormat

  // The export stream: framing bytes, and NARs as what their writer receives.
  datatype Part = Raw(bytes: Bytes) | Nar(items: seq<Item>)

  // One imported store path.
  datatype Imported = Imported(path: Str, items: seq<Item>, references: seq<Str>, deriver: Str)

  // A word 1, a NAR and a trailer for each path; a word 0, and nothing after it, at the end.
  function ReadExport(parts: seq<Part>): Option<seq<Imported>> {
    if parts == [] || !parts[0].Raw? then None
    else if parts[0].bytes == [0, 0, 0, 0, 0, 0, 0, 0] then
      if |parts| == 1 then Some([]) else None
    else if parts[0].bytes == [1, 0, 0, 0, 0, 0, 0, 0] && |parts| >= 3 && parts[1].Nar? && parts[2].Raw? then
      var trailer, others := ParseTrailer(parts[2].bytes), ReadExport(parts[3..]);
      if trailer.None? || trailer.value.rest != [] || others.None? then None else
        var t := trailer.value.value;
        Some([Imported(t.storePath, parts[1].items, t.refs, t.deriver)] + others.value)
    else None
  }

  lemma CountWords()
    ensures Word(0) == [0, 0, 0, 0, 0, 0, 0, 0] && Word(1) == [1, 0, 0, 0, 0, 0, 0, 0]
  {
    assert LittleEndian(0, 1) == [0];
    assert LittleEndian(0, 2) == [0, 0];
    assert LittleEndian(0, 4) == [0, 0, 0, 0];
    assert LittleEndian(0, 6) == [0, 0, 0, 0, 0, 0];
    assert LittleEndian(0, 7) == [0, 0, 0, 0, 0, 0, 0];
    assert LittleEndian(1, 8) == [1] + LittleEndian(0, 7);
  }

  lemma EndRead()
    ensures ReadExport([Raw(Word(0))]) == Some([])
  {
    CountWords();
  }

  // A path in front of a stream.
  lemma PathRead(items: seq<Item>, t: ExportTrailer, rest: seq<Part>)
    requires Encodable(t) && ReadExport(rest).Some?
    ensures ReadExport([Raw(Word(1)), Nar(items), Raw(Encode(t))] + rest) ==
      Some([Imported(t.storePath, items, t.refs, t.deriver)] + ReadExport(rest).value)
  {
    hide Encode, ParseTrailer;
    CountWords();
    TrailerRoundTrip(t, []);
    assert Encode(t) + [] == Encode(t);
    var parts := [Raw(Word(1)), Nar(items), Raw(Encode(t))] + rest;
    assert parts[3..] == rest;
  }
}
