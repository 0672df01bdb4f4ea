/** The protobuf encoding of a Delta message (internal/delta/delta.proto): one encoding that
    meets what the other modules ask of the codec. */
module DeltaWire {
  import opened Prelude
  import opened Delta

  const OPS_TAG: byte := 0x0A     // Delta.ops, length-delimited
  const COPY_TAG: byte := 0x0A    // Op.copy, length-delimited
  const INSERT_TAG: byte := 0x12  // Op.insert, length-delimited
  const OFFSET_TAG: byte := 0x08  // Copy.offset, varint
  const LENGTH_TAG: byte := 0x10  // Copy.length, varint

  function Varint(n: nat): (b: Bytes)
    ensures b != []
  {
    if n < 0x80 then [n] else [n % 0x80 + 0x80] + Varint(n / 0x80)
  }

  // A tag, a length and that many bytes.
  function Field(tag: byte, data: Bytes): Bytes {
    [tag] + Varint(|data|) + data
  }

  // proto3 leaves zero fields out.
  function VarintField(tag: byte, n: nat): Bytes {
    if n == 0 then [] else [tag] + Varint(n)
  }

  function MarshalOp(op: Op): Bytes {
    match op
    case Copy(offset, length) => Field(COPY_TAG, VarintField(OFFSET_TAG, offset) + VarintField(LENGTH_TAG, length))
    case Insert(data) => Field(INSERT_TAG, data)
    case Unknown => []
  }

  function Marshal(ops: seq<Op>): Bytes {
    if ops == [] then [] else Field(OPS_TAG, MarshalOp(ops[0])) + Marshal(ops[1..])
  }

  // ---------------------------------------------------------------------------
  // Parsing, of fields in the order in which they are marshalled
  // ---------------------------------------------------------------------------

  function ParseVarint(b: Bytes): (r: Option<Parsed<nat>>)
    ensures r.Some? ==> |r.value.rest| < |b|
  {
    if b == [] then None
    else if b[0] < 0x80 then Some(Parsed(b[0], b[1..]))
    else
      var high := ParseVarint(b[1..]);
      if high.None? then None else Some(Parsed(b[0] - 0x80 + 0x80 * high.value.value, high.value.rest))
  }

  function ParseField(tag: byte, b: Bytes): (r: Option<Parsed<Bytes>>)
    ensures r.Some? ==> |r.value.rest| < |b|
  {
    if b == [] || b[0] != tag then None else
      var length := ParseVarint(b[1..]);
      if length.None? || |length.value.rest| < length.value.value then None
      else Some(Parsed(length.value.rest[..length.value.value], length.value.rest[length.value.value..]))
  }

  // An absent field is zero.
  function ParseVarintField(tag: byte, b: Bytes): Option<Parsed<nat>> {
    if b != [] && b[0] == tag then ParseVarint(b[1..]) else Some(Parsed(0, b))
  }

  function UnmarshalCopy(b: Bytes): Option<Op> {
    var offset := ParseVarintField(OFFSET_TAG, b);
    if offset.None? then None else
      var length := ParseVarintField(LENGTH_TAG, offset.value.rest);
      if length.None? || length.value.rest != [] then None
      else if offset.value.value >= TWO_64 || length.value.value >= TWO_64 then None
      else Some(Copy(offset.value.value, length.value.value))
  }

  function UnmarshalOp(b: Bytes): Option<Op> {
    if b == [] then Some(Unknown) else
      var copy, insert := ParseField(COPY_TAG, b), ParseField(INSERT_TAG, b);
      if copy.Some? && copy.value.rest == [] then UnmarshalCopy(copy.value.value)
      else if insert.Some? && insert.value.rest == [] then Some(Insert(insert.value.value))
      else None
  }

  function Unmarshal(b: Bytes): Option<seq<Op>>
    decreases |b|
  {
    if b == [] then Some([]) else
      var field := ParseField(OPS_TAG, b);
      if field.None? then None else
        var op, others := UnmarshalOp(field.value.value), Unmarshal(field.value.rest);
        if op.None? || others.None? then None else Some([op.value] + others.value)
  }

  // ---------------------------------------------------------------------------
  // The round trip
  // ---------------------------------------------------------------------------

  lemma {:induction false} ParseVarintOf(n: nat, suffix: Bytes)
    ensures ParseVarint(Varint(n) + suffix) == Some(Parsed(n, suffix))
  {
    var b := Varint(n) + suffix;
    if n < 0x80 {
      assert b[1..] == suffix;
    } else {
      ParseVarintOf(n / 0x80, suffix);
      assert b[1..] == Varint(n / 0x80) + suffix;
    }
  }

  lemma ParseFieldOf(tag: byte, data: Bytes, suffix: Bytes)
    ensures ParseField(tag, Field(tag, data) + suffix) == Some(Parsed(data, suffix))
  {
    hide Varint, ParseVarint;
    var b := Field(tag, data) + suffix;
    assert b[1..] == Varint(|data|) + (data + suffix);
    ParseVarintOf(|data|, data + suffix);
    assert (data + suffix)[..|data|] == data && (data + suffix)[|data|..] == suffix;
  }

  lemma ParseVarintFieldOf(tag: byte, n: nat, suffix: Bytes)
    requires suffix == [] || suffix[0] != tag
    ensures ParseVarintField(tag, VarintField(tag, n) + suffix) == Some(Parsed(n, suffix))
  {
    hide Varint, ParseVarint;
    var b := VarintField(tag, n) + suffix;
    if n == 0 {
      assert b == suffix;
    } else {
      assert b[1..] == Varint(n) + suffix;
      ParseVarintOf(n, suffix);
    }
  }

  lemma UnmarshalCopyOf(offset: uint64, length: uint64)
    ensures UnmarshalCopy(VarintField(OFFSET_TAG, offset) + VarintField(LENGTH_TAG, length)) ==
      Some(Copy(offset, length))
  {
    hide Varint, ParseVarint, ParseVarintField;
    var second := VarintField(LENGTH_TAG, length);
    ParseVarintFieldOf(OFFSET_TAG, offset, second);
    ParseVarintFieldOf(LENGTH_TAG, length, []);
    assert second + [] == second;
  }

  lemma UnmarshalOpOf(op: Op)
    ensures UnmarshalOp(MarshalOp(op)) == Some(op)
  {
    hide Varint, ParseVarint, UnmarshalCopy, VarintField;
    match op {
      case Copy(offset, length) =>
        var body := VarintField(OFFSET_TAG, offset) + VarintField(LENGTH_TAG, length);
        ParseFieldOf(COPY_TAG, body, []);
        assert Field(COPY_TAG, body) + [] == Field(COPY_TAG, body);
        UnmarshalCopyOf(offset, length);
      case Insert(data) =>
        ParseFieldOf(INSERT_TAG, data, []);
        assert Field(INSERT_TAG, data) + [] == Field(INSERT_TAG, data);
      case Unknown =>
    }
  }

  /** Unmarshalling inverts marshalling, for every list of operations. */
  lemma {:induction false} UnmarshalOf(ops: seq<Op>)
    ensures Unmarshal(Marshal(ops)) == Some(ops)
  {
    hide MarshalOp, UnmarshalOp, ParseField;
    if ops != [] {
      UnmarshalOpOf(ops[0]);
      ParseFieldOf(OPS_TAG, MarshalOp(ops[0]), Marshal(ops[1..]));
      UnmarshalOf(ops[1..]);
      assert [ops[0]] + ops[1..] == ops;
    }
  }

  /** The encoding on the wire of a copy of two bytes at 300 and of an insertion of one. */
  lemma WireExample()
    ensures Marshal([Copy(300, 2), Insert([7])]) == [0x0A, 7, 0x0A, 5, 0x08, 0xAC, 2, 0x10, 2, 0x0A, 3, 0x12, 1, 7]
  {
    var a, b := Copy(300, 2), Insert([7]);
    assert Varint(300) == [0xAC] + Varint(2) == [0xAC, 2];
    assert VarintField(OFFSET_TAG, 300) + VarintField(LENGTH_TAG, 2) == [0x08, 0xAC, 2, 0x10, 2];
    assert MarshalOp(a) == [0x0A, 5, 0x08, 0xAC, 2, 0x10, 2];
    assert MarshalOp(b) == [0x12, 1, 7];
    assert [a, b][1..] == [b] && [b][1..] == [];
    assert Marshal([b]) == Field(OPS_TAG, MarshalOp(b)) + [];
  }

  function WireCodec(): Codec {
    Codec(Marshal, Unmarshal)
  }

  lemma WireCodecFaithful()
    ensures WireCodec().Faithful()
  {
    forall ops: seq<Op>
      ensures WireCodec().unmarshal(WireCodec().marshal(ops)) == Some(ops)
    {
      UnmarshalOf(ops);
    }
  }
}
