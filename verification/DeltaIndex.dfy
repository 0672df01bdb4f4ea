/** The match index of internal/delta/delta.go as the object the program builds and scans. */
module DeltaIndex {
  import opened Prelude
  import opened DeltaHash
  import opened Delta

  method IndexBits(n: nat) returns (bits: nat)
    ensures 12 <= bits <= 23
    ensures n <= Pow2(bits) || bits == 23
    ensures bits == 12 || Pow2(bits - 1) < n
  {
    bits := MIN_INDEX_BITS;
    while Pow2(bits) < n && bits < MAX_INDEX_BITS
      invariant MIN_INDEX_BITS <= bits <= MAX_INDEX_BITS
      invariant bits == MIN_INDEX_BITS || Pow2(bits - 1) < n
      decreases MAX_INDEX_BITS - bits
    {
      bits := bits + 1;
    }
  }

  method CommonPrefix(a: Bytes, ai: nat, b: Bytes, bi: nat) returns (n: nat)
    ensures n == MatchLen(a, ai, b, bi)
  {
    n := 0;
    while ai + n < |a| && bi + n < |b| && a[ai + n] == b[bi + n]
      invariant MatchLen(a, ai, b, bi) == n + MatchLen(a, ai + n, b, bi + n)
      decreases |a| - (ai + n)
    {
      n := n + 1;
    }
  }

  // Diff: an index made for one use. What it returns decodes to operations that rebuild the
  // target, in canonical form.
  method Diff(codec: Codec, base: Bytes, target: Bytes) returns (d: Bytes)
    requires |base| < TWO_63 && |target| < TWO_63
    ensures exists t :: Built(base, t) && d == codec.marshal(DiffOps(base, t, target))
    ensures codec.Faithful() ==>
      && codec.unmarshal(d).Some? && ValidOps(base, codec.unmarshal(d).value)
      && Expand(base, codec.unmarshal(d).value) == target && Canonical(base, target, codec.unmarshal(d).value)
  {
    hide DiffOps, ValidOps, Canonical, Expand;
    var ix := new Index(base);
    ghost var t := ix.AsTable();
    d := ix.Diff(codec, target);
    DiffRoundTrip(base, t, target);
    DiffCanonical(base, t, target);
  }

  class Index {
    const base: Bytes
    const head: array<int>  // one slot per bucket: 0, or 1 + the last position with that hash
    const shift: nat

    ghost function AsTable(): Table
      reads head
    {
      Table(head[..], shift)
    }

    ghost predicate Valid()
      reads head
    {
      |base| < TWO_63 && AsTable().Valid()
    }

    // NewIndex.
    constructor (base: Bytes)
      requires |base| < TWO_63
      ensures Valid() && fresh(head)
      ensures this.base == base && Built(base, AsTable())
      ensures 9 <= shift <= 20 && head.Length == Pow2(32 - shift)
      ensures (|base| <= head.Length || shift == 9) && (head.Length < 2 * |base| || shift == 20)
    {
      hide Bucket, Pow2, LastPos;
      var bits := IndexBits(|base|);
      Pow2Doubles(bits);
      this.base := base;
      this.shift := HASH_BITS - bits;
      this.head := new int[Pow2(bits)](_ => 0);
      new;
      Fill(base, head, shift);
    }

    // The loop of NewIndex: later positions overwrite earlier ones in their bucket.
    static method Fill(base: Bytes, head: array<int>, shift: nat)
      requires shift <= HASH_BITS && head.Length == Pow2(HASH_BITS - shift)
      requires forall h :: 0 <= h < head.Length ==> head[h] == 0
      modifies head
      ensures forall h :: 0 <= h < head.Length ==> head[h] == ToInt32(LastPos(base, shift, h, Keys(base)) + 1)
    {
      hide Bucket, Pow2;
      var i := 0;
      while i + HASH_LEN <= |base|
        invariant i <= Keys(base)
        invariant forall h :: 0 <= h < head.Length ==> head[h] == ToInt32(LastPos(base, shift, h, i) + 1)
      {
        BucketInTable(base, i, shift);
        head[Bucket(base, i, shift)] := ToInt32(i + 1);
        i := i + 1;
      }
    }

    method Diff(codec: Codec, target: Bytes) returns (d: Bytes)
      requires Valid() && |target| < TWO_63
      ensures d == codec.marshal(DiffOps(base, AsTable(), target))
    {
      hide Bucket, BackLen, Forward, MatchLen, Pow2, Found;
      ghost var t := AsTable();
      var ops: seq<Op> := [];
      var litStart: nat, i: nat := 0, 0;
      while i + HASH_LEN <= |target|
        invariant litStart <= i <= |target|
        invariant AsTable() == t
        invariant Scan(base, t, target, i, litStart, ops) == DiffOps(base, t, target)
        decreases |target| - i
      {
        var cand, fwd := Anchor(target, i);
        if fwd >= MIN_MATCH {
          var more := CopyOps(cand, target, i, litStart, fwd);
          ops := ops + more;
          i := i + fwd;
          litStart := i;
        } else {
          i := i + 1;
        }
      }
      var lit := if |target| > litStart then [Insert(target[litStart..|target|])] else [];
      assert lit == Literal(target, litStart, |target|);
      d := codec.marshal(ops + lit);
    }

    // The table lookup of Diff and the match found there; 0 when there is no candidate.
    method Anchor(target: Bytes, i: nat) returns (cand: int, fwd: nat)
      requires Valid() && i + HASH_LEN <= |target|
      ensures cand == AsTable().Candidate(target, i)
      ensures fwd == Forward(base, AsTable(), target, i)
    {
      BucketInTable(target, i, shift);
      cand := head[Bucket(target, i, shift)] - 1;
      fwd := 0;
      if cand >= 0 {
        fwd := CommonPrefix(base, cand, target, i);
      }
    }

    // The two operations of a match: the literal before it, if any, and the copy.
    method CopyOps(cand: nat, target: Bytes, i: nat, litStart: nat, fwd: nat) returns (more: seq<Op>)
      requires Valid() && |target| < TWO_63
      requires litStart <= i && i + HASH_LEN <= |target| && cand == AsTable().Candidate(target, i)
      requires fwd == Forward(base, AsTable(), target, i) >= MIN_MATCH
      ensures more == Found(base, AsTable(), target, i, litStart)
    {
      hide Bucket, BackLen, Forward, MatchLen, Pow2;
      var bpos, tpos, length := ExtendBack(cand, target, i, litStart, fwd);
      more := [Copy(bpos, length)];
      if tpos > litStart {
        more := [Insert(target[litStart..tpos])] + more;
      }
    }

    // The inner loop of Diff, growing a match back into the pending literals.
    method ExtendBack(cand: nat, target: Bytes, i: nat, litStart: nat, fwd: nat)
      returns (bpos: nat, tpos: nat, length: nat)
      requires cand <= |base| && litStart <= i <= |target|
      ensures bpos == cand - BackLen(base, cand, target, i, litStart)
      ensures tpos == i - BackLen(base, cand, target, i, litStart)
      ensures length == fwd + BackLen(base, cand, target, i, litStart)
    {
      bpos, tpos, length := cand, i, fwd;
      while tpos > litStart && bpos > 0 && base[bpos - 1] == target[tpos - 1]
        invariant bpos <= |base| && litStart <= tpos <= |target|
        invariant cand - bpos == i - tpos == length - fwd
        invariant BackLen(base, cand, target, i, litStart) ==
          (length - fwd) + BackLen(base, bpos, target, tpos, litStart)
        decreases tpos
      {
        bpos, tpos, length := bpos - 1, tpos - 1, length + 1;
      }
    }
  }
}
