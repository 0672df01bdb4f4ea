/** Patch (internal/delta/delta.go): what applying a delta to a base may do, for operands
    anywhere in the uint64 range. */
module Patcher {
  import opened Prelude
  import opened Delta

  // The operations so far were carried out within the size limit.
  ghost predicate Accepted(base: Bytes, ops: seq<Op>, size: int) {
    ValidOps(base, ops) && Total(ops) <= size
  }

  // A copy whose end wraps to a negative int passes the bounds check; unless the size check
  // then stops it, slicing base with that end panics.
  predicate Wraps(op: Op, out: nat, size: int) {
    && op.Copy?
    && 0 < ToInt64(op.length) && 0 <= ToInt64(op.offset)
    && op.offset + op.length >= TWO_63
    && ToInt64(out + op.length) <= size
  }

  ghost predicate PanicsAt(base: Bytes, ops: seq<Op>, size: int, k: nat)
    requires k < |ops|
  {
    Accepted(base, ops[..k], size) && Wraps(ops[k], Total(ops[..k]), size)
  }

  ghost predicate CanPanic(base: Bytes, ops: seq<Op>, size: int) {
    exists k :: 0 <= k < |ops| && PanicsAt(base, ops, size, k)
  }

  // The complete behaviour of Patch on decoded operations.
  ghost function PatchSpec(base: Bytes, ops: seq<Op>, size: int): Outcome<Bytes> {
    if size > MAX_ALLOC then Panic
    else if ValidOps(base, ops) && Total(ops) == size then Ok(Expand(base, ops))
    else if CanPanic(base, ops, size) then Panic
    else Err
  }

  // Once an operation is refused, neither the whole list nor a later operation counts.
  lemma {:induction false} RefusedAt(base: Bytes, ops: seq<Op>, size: int, k: nat)
    requires |base| <= MAX_ALLOC && k < |ops|
    requires Accepted(base, ops[..k], size)
    requires !ValidOp(base, ops[k]) || Total(ops[..k]) + OpLen(ops[k]) > size
    ensures !(ValidOps(base, ops) && Total(ops) == size)
    ensures CanPanic(base, ops, size) <==> PanicsAt(base, ops, size, k)
  {
    assert ops[..k + 1][..k] == ops[..k];
    TotalMonotone(ops, k + 1);
    forall j | 0 <= j < |ops| && j != k
      ensures !PanicsAt(base, ops, size, j)
    {
      if j < k {
        assert ValidOp(base, ops[..k][j]);
      } else {
        assert ops[..j][..k + 1] == ops[..k + 1];
        TotalMonotone(ops[..j], k + 1);
        assert ops[..j][k] == ops[k];
      }
    }
  }

  lemma NothingPanics(base: Bytes, ops: seq<Op>, size: int)
    requires |base| <= MAX_ALLOC && ValidOps(base, ops)
    ensures !CanPanic(base, ops, size)
  {
  }

  lemma IntOfUint64(x: int)
    requires 0 <= x < TWO_64
    ensures ToInt64(x) == if x < TWO_63 then x else x - TWO_64
  {
  }

  // The copy case of the loop: the checks, in machine arithmetic, then the slice of base.
  method CopyStep(base: Bytes, out: nat, op: Op, resultSize: nat) returns (r: Outcome<Bytes>)
    requires op.Copy? && |base| <= MAX_ALLOC && out <= resultSize <= MAX_ALLOC
    ensures r.Ok? <==> ValidOp(base, op) && out + op.length <= resultSize
    ensures r.Ok? ==> r.value == OpBytes(base, op)
    ensures r.Panic? <==> Wraps(op, out, resultSize)
  {
    hide ToInt64;
    IntOfUint64(op.length);
    IntOfUint64(op.offset);
    var length := ToInt64(op.length);
    if length <= 0 {
      return Err;
    }
    var off := ToInt64(op.offset);
    if off >= 0 {
      IntOfUint64(off + length);
    }
    IntOfUint64(out + length);
    var end := ToInt64(off + length);
    if off < 0 || end > |base| {
      return Err;
    }
    if ToInt64(out + length) > resultSize {
      return Err;
    }
    if end < off {
      return Panic;
    }
    return Ok(base[off..end]);
  }

  lemma AcceptedMeans(base: Bytes, ops: seq<Op>, size: int)
    requires Accepted(base, ops, size)
    ensures ValidOps(base, ops) && Total(ops) <= size
  {
  }

  lemma NothingDone(base: Bytes, ops: seq<Op>, size: nat)
    ensures Accepted(base, ops[..0], size) && Expand(base, ops[..0]) == []
  {
  }

  lemma OneMoreDone(base: Bytes, ops: seq<Op>, size: nat, k: nat)
    requires k < |ops| && Accepted(base, ops[..k], size)
    requires ValidOp(base, ops[k]) && Total(ops[..k]) + OpLen(ops[k]) <= size
    ensures Accepted(base, ops[..k + 1], size)
    ensures Expand(base, ops[..k + 1]) == Expand(base, ops[..k]) + OpBytes(base, ops[k])
  {
    hide OpBytes, OpLen, ValidOp, Expand, Total;
    assert ops[..k + 1][..k] == ops[..k];
    ExpandLast(base, ops[..k + 1]);
  }

  // All operations done, or one refused: what Patch is to return.
  lemma AllDone(base: Bytes, ops: seq<Op>, size: nat)
    requires size <= MAX_ALLOC && ValidOps(base, ops) && !CanPanic(base, ops, size)
    ensures PatchSpec(base, ops, size) == if Total(ops) == size then Ok(Expand(base, ops)) else Err
  {
    hide CanPanic;
  }

  lemma RefusedMeans(base: Bytes, ops: seq<Op>, size: nat)
    requires size <= MAX_ALLOC && !(ValidOps(base, ops) && Total(ops) == size)
    ensures PatchSpec(base, ops, size) == if CanPanic(base, ops, size) then Panic else Err
  {
    hide CanPanic, Total;
  }

  method Patch(codec: Codec, base: Bytes, delta: Bytes, resultSize: int) returns (r: Outcome<Bytes>)
    requires |base| <= MAX_ALLOC && -TWO_63 <= resultSize < TWO_63
    ensures resultSize < 0 || codec.unmarshal(delta).None? ==> r == Err
    ensures resultSize >= 0 && codec.unmarshal(delta).Some? ==>
      r == PatchSpec(base, codec.unmarshal(delta).value, resultSize)
    ensures resultSize > 0x1_0000_0000_0000 && codec.unmarshal(delta).Some? ==> r == Panic
  {
    if resultSize < 0 {
      return Err;
    }
    var d := codec.unmarshal(delta);
    if d.None? {
      return Err;
    }
    var ops := d.value;
    if resultSize > MAX_ALLOC {
      assert PatchSpec(base, ops, resultSize) == Panic;
      return Panic;
    }
    var out: Bytes := [];
    hide CanPanic, PanicsAt, Wraps, Accepted, Expand, Total, PatchSpec;
    assert Accepted(base, ops[..0], resultSize) && out == Expand(base, ops[..0]) by {
      NothingDone(base, ops, resultSize);
    }
    for k := 0 to |ops|
      invariant Accepted(base, ops[..k], resultSize) && out == Expand(base, ops[..k])
    {
      AcceptedMeans(base, ops[..k], resultSize);
      if ValidOp(base, ops[k]) && Total(ops[..k]) + OpLen(ops[k]) <= resultSize {
        OneMoreDone(base, ops, resultSize, k);
      }
      match ops[k] {
        case Insert(data) =>
          if |out| + |data| > resultSize {
            RefusedAt(base, ops, resultSize, k);
            RefusedMeans(base, ops, resultSize);
            return Err;
          }
          out := out + data;
        case Copy(_, _) =>
          var step := CopyStep(base, |out|, ops[k], resultSize);
          if !step.Ok? {
            RefusedAt(base, ops, resultSize, k);
            RefusedMeans(base, ops, resultSize);
            return step;
          }
          out := out + step.value;
        case Unknown =>
          RefusedAt(base, ops, resultSize, k);
          RefusedMeans(base, ops, resultSize);
          return Err;
      }
    }
    assert ops[..|ops|] == ops;
    AcceptedMeans(base, ops, resultSize);
    NothingPanics(base, ops, resultSize);
    AllDone(base, ops, resultSize);
    if |out| != resultSize {
      return Err;
    }
    return Ok(out);
  }

  // ---------------------------------------------------------------------------
  // What success means, byte by byte
  // ---------------------------------------------------------------------------

  function Produces(op: Op): nat {
    match op
    case Copy(_, length) => length
    case Insert(data) => |data|
    case Unknown => 0
  }

  // starts[k] is where operation k writes; the last one is the end.
  ghost predicate Starts(ops: seq<Op>, starts: seq<nat>) {
    && |starts| == |ops| + 1 && starts[0] == 0
    && forall k :: 0 <= k < |ops| ==> starts[k + 1] == starts[k] + Produces(ops[k])
  }

  lemma {:induction false} StartsTotal(ops: seq<Op>, starts: seq<nat>, k: nat)
    requires Starts(ops, starts) && k <= |ops|
    ensures starts[k] == Total(ops[..k])
  {
    if k > 0 {
      StartsTotal(ops, starts, k - 1);
      assert ops[..k] == ops[..k - 1] + [ops[k - 1]];
      TotalAppend(ops[..k - 1], ops[k - 1]);
    }
  }

  lemma {:induction false} ExpandedAt(base: Bytes, ops: seq<Op>, k: nat)
    requires ValidOps(base, ops) && k < |ops|
    ensures Total(ops[..k]) + OpLen(ops[k]) <= |Expand(base, ops)|
    ensures Expand(base, ops)[Total(ops[..k])..Total(ops[..k]) + OpLen(ops[k])] == OpBytes(base, ops[k])
  {
    hide OpBytes, OpLen, ValidOp;
    var n := |ops| - 1;
    var init := ops[..n];
    assert forall i :: 0 <= i < |init| ==> init[i] == ops[i];
    ExpandLast(base, ops);
    OpBytesLength(base, ops[n]);
    if k < n {
      ExpandedAt(base, init, k);
      assert init[..k] == ops[..k];
    }
  }

  lemma OpBytesLength(base: Bytes, op: Op)
    requires ValidOp(base, op)
    ensures |OpBytes(base, op)| == OpLen(op)
  {
  }

  /** Patch succeeds if and only if every operation is an insertion or a copy of at least one
      byte inside the base, and together they produce the wanted size. */
  lemma PatchSucceedsIff(base: Bytes, ops: seq<Op>, size: nat, starts: seq<nat>)
    requires size <= 0x1_0000_0000_0000 && Starts(ops, starts)
    ensures PatchSpec(base, ops, size).Ok? <==>
      && starts[|ops|] == size
      && forall k :: 0 <= k < |ops| ==>
        ops[k].Insert? || (ops[k].Copy? && 1 <= ops[k].length && ops[k].offset + ops[k].length <= |base|)
  {
    hide CanPanic;
    StartsTotal(ops, starts, |ops|);
    assert ops[..|ops|] == ops;
  }

  /** Then every operation has written its own bytes at its own place. */
  lemma PatchedByte(base: Bytes, ops: seq<Op>, size: nat, starts: seq<nat>, k: nat, j: nat)
    requires PatchSpec(base, ops, size).Ok? && Starts(ops, starts) && k < |ops| && j < Produces(ops[k])
    ensures
      var out := PatchSpec(base, ops, size).value;
      && |out| == size && starts[k] + j < size
      && match ops[k]
         case Copy(offset, _) => offset + j < |base| && out[starts[k] + j] == base[offset + j]
         case Insert(data) => out[starts[k] + j] == data[j]
         case Unknown => false
  {
    hide CanPanic, Expand, Total;
    StartsTotal(ops, starts, k);
    ExpandedAt(base, ops, k);
    SliceAt(Expand(base, ops), starts[k], OpLen(ops[k]), j);
  }

  lemma SliceAt(s: Bytes, p: nat, n: nat, j: nat)
    requires p + n <= |s| && j < n
    ensures s[p..p + n][j] == s[p + j]
  {
  }

  /** It panics if and only if the size cannot be allocated, or all is well up to a copy whose
      end is beyond the int range while neither operand is, and whose result is not seen to be
      too long, because it is not or because its end is beyond that range too. */
  lemma PatchPanicsIff(base: Bytes, ops: seq<Op>, size: nat, starts: seq<nat>)
    requires |base| <= 0x1_0000_0000_0000 && Starts(ops, starts)
    ensures PatchSpec(base, ops, size) == Panic <==>
      size > 0x1_0000_0000_0000 || exists k :: 0 <= k < |ops| && PanicAt(base, ops, size, starts, k)
  {
    hide ValidOp, PanicAt, PanicsAt;
    if size <= MAX_ALLOC {
      forall k | 0 <= k < |ops|
        ensures PanicsAt(base, ops, size, k) <==> PanicAt(base, ops, size, starts, k)
      {
        SamePanic(base, ops, size, starts, k);
      }
      if ValidOps(base, ops) {
        NothingPanics(base, ops, size);
      }
    }
  }

  ghost predicate PanicAt(base: Bytes, ops: seq<Op>, size: nat, starts: seq<nat>, k: nat)
    requires k < |ops| < |starts|
  {
    && (forall j :: 0 <= j < k ==> Fine(base, ops[j])) && starts[k] <= size
    && ops[k].Copy? && 0 < ops[k].length < 0x8000_0000_0000_0000 && ops[k].offset < 0x8000_0000_0000_0000
    && ops[k].offset + ops[k].length >= 0x8000_0000_0000_0000
    && (starts[k] + ops[k].length <= size || starts[k] + ops[k].length >= 0x8000_0000_0000_0000)
  }

  predicate Fine(base: Bytes, op: Op) {
    op.Insert? || (op.Copy? && 1 <= op.length && op.offset + op.length <= |base|)
  }

  lemma SamePanic(base: Bytes, ops: seq<Op>, size: nat, starts: seq<nat>, k: nat)
    requires |base| <= MAX_ALLOC && size <= MAX_ALLOC && Starts(ops, starts) && k < |ops|
    ensures PanicsAt(base, ops, size, k) <==> PanicAt(base, ops, size, starts, k)
  {
    StartsTotal(ops, starts, k);
    assert forall j :: 0 <= j < k ==> ops[..k][j] == ops[j];
    assert ValidOps(base, ops[..k]) <==> forall j :: 0 <= j < k ==> Fine(base, ops[j]);
    if ops[k].Copy? && starts[k] <= size {
      SameWrap(ops[k], starts[k], size);
    }
  }

  lemma SameWrap(op: Op, out: nat, size: nat)
    requires op.Copy? && out <= size <= MAX_ALLOC
    ensures Wraps(op, out, size) <==>
      && 0 < op.length < 0x8000_0000_0000_0000 && op.offset < 0x8000_0000_0000_0000
      && op.offset + op.length >= 0x8000_0000_0000_0000
      && (out + op.length <= size || out + op.length >= 0x8000_0000_0000_0000)
  {
    hide ToInt64;
    IntOfUint64(op.length);
    IntOfUint64(op.offset);
    if op.length < TWO_63 {
      IntOfUint64(out + op.length);
    }
  }

  // Only an operand pair whose sum leaves the int range can make Patch panic.
  lemma BoundedOperandsDoNotPanic(base: Bytes, ops: seq<Op>, size: int)
    requires size <= MAX_ALLOC
    requires forall k :: 0 <= k < |ops| && ops[k].Copy? ==> ops[k].offset + ops[k].length < TWO_63
    ensures PatchSpec(base, ops, size) != Panic
  {
  }

  /** The bounds check does let a wrapped end through: one copy, one byte wanted. */
  lemma WrappedCopyPanics(base: Bytes)
    requires |base| <= MAX_ALLOC
    ensures PatchSpec(base, [Copy(0x7fff_ffff_ffff_ffff, 1)], 1) == Panic
  {
    var ops := [Copy(TWO_63 - 1, 1)];
    assert ops[..0] == [] && !ValidOp(base, ops[0]);
    assert PanicsAt(base, ops, 1, 0);
  }

  /** A diff, made with any table, patches back to the target at the target's size and is
      refused at every other size. */
  lemma DiffThenPatch(base: Bytes, t: Table, target: Bytes, size: int)
    requires t.Valid() && |base| <= MAX_ALLOC && |target| <= MAX_ALLOC && size <= MAX_ALLOC
    ensures PatchSpec(base, DiffOps(base, t, target), size) == if size == |target| then Ok(target) else Err
  {
    DiffRoundTrip(base, t, target);
    NothingPanics(base, DiffOps(base, t, target), size);
  }
}
