/** The nix-store --export framing (internal/cmd/dnar-unpack/write.go,
    internal/cmd/dnar-unpack/nix-store-export.go): little-endian words, padded strings and the
    trailer after each NAR, with a decoder that inverts them. */
module ExportFormat {
  import opened Prelude

  const EXPORT_MAGIC := 0x4558494e

  // ---------------------------------------------------------------------------
  // Encoding
  // ---------------------------------------------------------------------------

  // The low `width` bytes of n, least significant first.
  function LittleEndian(n: nat, width: nat): (b: Bytes)
    ensures |b| == width
  {
    if width == 0 then [] else [n % 0x100] + LittleEndian(n / 0x100, width - 1)
  }

  function Word(n: nat): (b: Bytes)
    ensures |b| == 8
  {
    LittleEndian(n % TWO_64, 8)
  }

  function Padding(length: nat): nat {
    (8 - length % 8) % 8
  }

  function Zeros(n: nat): (b: Bytes)
    ensures |b| == n
  {
    seq(n, _ => 0)
  }

  function NixString(s: Str): Bytes {
    Word(|s|) + s + Zeros(Padding(|s|))
  }

  function NixStrings(refs: seq<Str>): Bytes {
    if refs == [] then [] else NixString(refs[0]) + NixStrings(refs[1..])
  }

  function Trailer(storePath: Str, refs: seq<Str>, deriver: Str): Bytes {
    Word(EXPORT_MAGIC) + (NixString(storePath) + (Word(|refs|) + (NixStrings(refs) + (NixString(deriver) + Word(0)))))
  }

  // ---------------------------------------------------------------------------
  // The writers
  // ---------------------------------------------------------------------------

  class ByteWriter {
    var out: Bytes

    constructor ()
      ensures out == []
    {
      out := [];
    }

    method Write(b: Bytes)
      modifies this
      ensures out == old(out) + b
    {
      out := out + b;
    }
  }

  // binary.LittleEndian.PutUint64 into a fixed buffer.
  method PutUint64(buf: array<byte>, n: uint64)
    requires buf.Length == 8
    modifies buf
    ensures buf[..] == Word(n)
  {
    hide LittleEndian;
    var rest: nat := n;
    assert Word(n) == LittleEndian(n, 8);
    for i := 0 to 8
      invariant buf[..i] + LittleEndian(rest, 8 - i) == LittleEndian(n, 8)
    {
      LowByteFirst(rest, 8 - i);
      ghost var before := buf[..i];
      buf[i] := rest % 0x100;
      assert buf[..i + 1] == before + [rest % 0x100];
      Associates(before, [rest % 0x100], LittleEndian(rest / 0x100, 7 - i));
      rest := rest / 0x100;
    }
    LowByteLast(rest);
    assert buf[..8] == buf[..];
  }

  lemma LowByteFirst(n: nat, width: nat)
    requires width > 0
    ensures LittleEndian(n, width) == [n % 0x100] + LittleEndian(n / 0x100, width - 1)
  {
  }

  lemma LowByteLast(n: nat)
    ensures LittleEndian(n, 0) == []
  {
  }

  method WriteUint64LE(w: ByteWriter, n: uint64)
    modifies w
    ensures w.out == old(w.out) + Word(n)
  {
    var buf := new byte[8](_ => 0);
    PutUint64(buf, n);
    w.Write(buf[..]);
  }

  method WriteNixString(w: ByteWriter, s: Str)
    modifies w
    ensures w.out == old(w.out) + NixString(s)
  {
    hide Word;
    WriteUint64LE(w, |s| % TWO_64);
    WordWraps(|s|);
    w.Write(s);
    var pad := (8 - |s| % 8) % 8;
    if pad > 0 {
      var zeros := Zeros(8);
      assert zeros[..pad] == Zeros(pad);
      w.Write(zeros[..pad]);
    }
    assert w.out == old(w.out) + NixString(s);
  }

  lemma WordWraps(n: nat)
    ensures Word(n % TWO_64) == Word(n)
  {
  }

  method WriteExportTrailer(w: ByteWriter, storePath: Str, refs: seq<Str>, deriver: Str)
    modifies w
    ensures w.out == old(w.out) + Trailer(storePath, refs, deriver)
  {
    hide Word, NixString;
    WriteUint64LE(w, EXPORT_MAGIC);
    WriteNixString(w, storePath);
    WriteUint64LE(w, |refs| % TWO_64);
    WordWraps(|refs|);
    ghost var front := w.out;
    for i := 0 to |refs|
      invariant w.out + NixStrings(refs[i..]) == front + NixStrings(refs)
    {
      ghost var before := w.out;
      assert refs[i..][1..] == refs[i + 1..];
      WriteNixString(w, refs[i]);
      Associates(before, NixString(refs[i]), NixStrings(refs[i + 1..]));
    }
    assert w.out == front + NixStrings(refs);
    WriteNixString(w, deriver);
    WriteUint64LE(w, 0);
    assert w.out == old(w.out) + Trailer(storePath, refs, deriver);
  }

  // ---------------------------------------------------------------------------
  // Decoding
  // ---------------------------------------------------------------------------

  function Value(b: Bytes): nat {
    if b == [] then 0 else b[0] + 0x100 * Value(b[1..])
  }

  function ParseWord(b: Bytes): Option<Parsed<nat>> {
    if |b| < 8 then None else Some(Parsed(Value(b[..8]), b[8..]))
  }

  function ParseString(b: Bytes): Option<Parsed<Str>> {
    var n := ParseWord(b);
    if n.None? then None else
      var length, rest := n.value.value, n.value.rest;
      if |rest| < length + Padding(length) then None
      else Some(Parsed(rest[..length], rest[length + Padding(length)..]))
  }

  function ParseStrings(b: Bytes, count: nat): Option<Parsed<seq<Str>>> {
    if count == 0 then Some(Parsed([], b)) else
      var first := ParseString(b);
      if first.None? then None else
        var others := ParseStrings(first.value.rest, count - 1);
        if others.None? then None else Some(Parsed([first.value.value] + others.value.value, others.value.rest))
  }

  datatype ExportTrailer = ExportTrailer(storePath: Str, refs: seq<Str>, deriver: Str)

  function ParseTrailer(b: Bytes): Option<Parsed<ExportTrailer>> {
    var magic := ParseWord(b);
    if magic.None? || magic.value.value != 0x4558494e then None else
      var storePath := ParseString(magic.value.rest);
      if storePath.None? then None else
        var count := ParseWord(storePath.value.rest);
        if count.None? then None else
          var refs := ParseStrings(count.value.rest, count.value.value);
          if refs.None? then None else
            var deriver := ParseString(refs.value.rest);
            if deriver.None? then None else
              var flag := ParseWord(deriver.value.rest);
              if flag.None? || flag.value.value != 0 then None
              else
                Some(Parsed(ExportTrailer(storePath.value.value, refs.value.value, deriver.value.value),
                            flag.value.rest))
  }

  // ---------------------------------------------------------------------------
  // Decoding inverts encoding
  // ---------------------------------------------------------------------------

  function Bound(width: nat): nat {
    if width == 0 then 1 else 0x100 * Bound(width - 1)
  }

  lemma {:induction false} ValueOfLittleEndian(n: nat, width: nat)
    requires n < Bound(width)
    ensures Value(LittleEndian(n, width)) == n
  {
    if width > 0 {
      ValueOfLittleEndian(n / 0x100, width - 1);
      assert LittleEndian(n, width)[1..] == LittleEndian(n / 0x100, width - 1);
    }
  }

  lemma BoundOf8()
    ensures Bound(8) == TWO_64
  {
    assert Bound(2) == 0x1_0000;
    assert Bound(4) == 0x1_0000_0000;
    assert Bound(6) == 0x1_0000_0000_0000;
  }

  lemma ParseWordOf(n: nat, suffix: Bytes)
    requires n < TWO_64
    ensures ParseWord(Word(n) + suffix) == Some(Parsed(n, suffix))
  {
    hide LittleEndian, Value, Bound;
    BoundOf8();
    ValueOfLittleEndian(n, 8);
    assert (Word(n) + suffix)[..8] == Word(n) && (Word(n) + suffix)[8..] == suffix;
  }

  lemma ParseStringOf(s: Str, suffix: Bytes)
    requires |s| < TWO_64
    ensures ParseString(NixString(s) + suffix) == Some(Parsed(s, suffix))
  {
    hide Word, ParseWord;
    var rest := s + Zeros(Padding(|s|)) + suffix;
    assert NixString(s) + suffix == Word(|s|) + rest;
    ParseWordOf(|s|, rest);
    assert rest[..|s|] == s && rest[|s| + Padding(|s|)..] == suffix;
  }

  lemma {:induction false} ParseStringsOf(refs: seq<Str>, suffix: Bytes)
    requires forall r :: r in refs ==> |r| < TWO_64
    ensures ParseStrings(NixStrings(refs) + suffix, |refs|) == Some(Parsed(refs, suffix))
  {
    hide NixString, ParseString;
    if refs == [] {
      assert NixStrings(refs) + suffix == suffix;
    } else {
      var more := NixStrings(refs[1..]);
      Associates(NixString(refs[0]), more, suffix);
      ParseStringOf(refs[0], more + suffix);
      ParseStringsOf(refs[1..], suffix);
      assert [refs[0]] + refs[1..] == refs;
    }
  }

  // The lengths a trailer can carry; every Go string and slice is within them.
  predicate Encodable(t: ExportTrailer) {
    |t.storePath| < TWO_64 && |t.refs| < TWO_64 && |t.deriver| < TWO_64 && forall r :: r in t.refs ==> |r| < TWO_64
  }

  function Encode(t: ExportTrailer): Bytes {
    Trailer(t.storePath, t.refs, t.deriver)
  }

  /** Decoding a trailer, whatever follows it, returns its path, references and deriver, and
      exactly what follows. */
  lemma TrailerRoundTrip(t: ExportTrailer, suffix: Bytes)
    requires Encodable(t)
    ensures ParseTrailer(Encode(t) + suffix) == Some(Parsed(t, suffix))
  {
    hide Word, NixString, ParseWord, ParseString, NixStrings, ParseStrings;
    var s5 := Word(0);
    var s4 := NixString(t.deriver) + s5;
    var s3 := NixStrings(t.refs) + s4;
    var s2 := Word(|t.refs|) + s3;
    var s1 := NixString(t.storePath) + s2;
    Associates(Word(EXPORT_MAGIC), s1, suffix);
    Associates(NixString(t.storePath), s2, suffix);
    Associates(Word(|t.refs|), s3, suffix);
    Associates(NixStrings(t.refs), s4, suffix);
    Associates(NixString(t.deriver), s5, suffix);
    ParseWordOf(EXPORT_MAGIC, s1 + suffix);
    ParseStringOf(t.storePath, s2 + suffix);
    ParseWordOf(|t.refs|, s3 + suffix);
    ParseStringsOf(t.refs, s4 + suffix);
    ParseStringOf(t.deriver, s5 + suffix);
    ParseWordOf(0, suffix);
  }

  /** The encoding is uniquely decodable: trailers that start one stream are equal, and so no
      trailer is a proper prefix of another. */
  lemma UniquelyDecodable(a: ExportTrailer, x: Bytes, b: ExportTrailer, y: Bytes)
    requires Encodable(a) && Encodable(b) && Encode(a) + x == Encode(b) + y
    ensures a == b && x == y
  {
    TrailerRoundTrip(a, x);
    TrailerRoundTrip(b, y);
  }

  // A word, byte by byte.
  lemma WordBytes(n: nat)
    requires n < TWO_64
    ensures
      var w: seq<int> := Word(n);
      n == w[0] + 0x100 * w[1] + 0x1_0000 * w[2] + 0x100_0000 * w[3] + 0x1_0000_0000 * w[4] + 0x100_0000_0000 * w[5]
        + 0x1_0000_0000_0000 * w[6] + 0x100_0000_0000_0000 * w[7]
  {
    hide Word, LittleEndian, Value;
    ParseWordOf(n, []);
    var w := Word(n);
    assert (w + [])[..8] == w;
    assert Value(w) == n;
    ValueOfHalf(w);
    ValueOfHalf(w[4..]);
    assert w[4..][4..] == [];
    assert Value([]) == 0 by {
      NoValue();
    }
  }

  lemma NoValue()
    ensures Value([]) == 0
  {
  }

  lemma ValueOfHalf(b: Bytes)
    requires |b| >= 4
    ensures Value(b) == b[0] + 0x100 * b[1] + 0x1_0000 * b[2] + 0x100_0000 * b[3] + 0x1_0000_0000 * Value(b[4..])
  {
    assert b[1..][1..] == b[2..] && b[2..][1..] == b[3..] && b[3..][1..] == b[4..];
    assert Value(b) == b[0] + 0x100 * Value(b[1..]);
    assert Value(b[1..]) == b[1] + 0x100 * Value(b[2..]);
    assert Value(b[2..]) == b[2] + 0x100 * Value(b[3..]);
    assert Value(b[3..]) == b[3] + 0x100 * Value(b[4..]);
  }

  /** A string is its length as a word, its bytes, and fewer than 8 zero bytes up to a multiple
      of 8. */
  lemma StringLayout(s: Str)
    requires |s| < TWO_64
    ensures
      var e := NixString(s);
      && |e| % 8 == 0 && 8 + |s| <= |e| < 8 + |s| + 8
      && e[..8] == Word(|s|) && e[8..8 + |s|] == s && forall i :: 8 + |s| <= i < |e| ==> e[i] == 0
  {
    hide Word;
    StringAligned(s);
    assert (Word(|s|) + s)[8..] == s;
  }

  lemma StringAligned(s: Str)
    ensures |NixString(s)| % 8 == 0
  {
    hide Word, Zeros;
    PaddingAligns(|s|);
    hide Padding;
    assert |NixString(s)| == 8 + |s| + Padding(|s|);
  }

  lemma PaddingAligns(n: nat)
    ensures (8 + n + Padding(n)) % 8 == 0
  {
  }

  lemma {:induction false} WholeWords(refs: seq<Str>)
    ensures |NixStrings(refs)| % 8 == 0
  {
    hide NixString;
    if refs != [] {
      StringAligned(refs[0]);
      WholeWords(refs[1..]);
    }
  }

  /** Every string, and so every trailer, takes a whole number of 8-byte words. */
  lemma TrailerAligned(t: ExportTrailer)
    ensures |NixString(t.storePath)| % 8 == 0 && |Encode(t)| % 8 == 0
  {
    hide NixString, NixStrings, Word;
    StringAligned(t.storePath);
    StringAligned(t.deriver);
    WholeWords(t.refs);
    var a, b, c := |NixString(t.storePath)|, |NixStrings(t.refs)|, |NixString(t.deriver)|;
    assert |Encode(t)| == 8 + a + 8 + b + c + 8;
  }
}
