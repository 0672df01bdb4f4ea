/** The binary differ of internal/delta/delta.go: a hash index over a base, a greedy
    scan that turns a target into copies and literals, and the checked patcher. */
module Delta {
  import opened Prelude
  import opened DeltaHash

  const MIN_MATCH := 16
  const MIN_INDEX_BITS := 12
  const MAX_INDEX_BITS := 23

  // One operation of a Delta message; Unknown is an Op message whose oneof is unset.
  datatype Op = Copy(offset: uint64, length: uint64) | Insert(data: Bytes) | Unknown

  // Protobuf marshalling of a Delta message, kept abstract.
  datatype Codec = Codec(marshal: seq<Op> -> Bytes, unmarshal: Bytes -> Option<seq<Op>>)
  {
    ghost predicate Faithful() {
      forall ops :: unmarshal(marshal(ops)) == Some(ops)
    }
  }

  // ---------------------------------------------------------------------------
  // What a list of operations denotes
  // ---------------------------------------------------------------------------

  function OpLen(op: Op): nat {
    match op
    case Copy(_, length) => length
    case Insert(data) => |data|
    case Unknown => 0
  }

  // An operation the patcher can carry out, judged in unbounded arithmetic.
  predicate ValidOp(base: Bytes, op: Op) {
    match op
    case Copy(offset, length) => 0 < length && offset + length <= |base|
    case Insert(_) => true
    case Unknown => false
  }

  ghost predicate ValidOps(base: Bytes, ops: seq<Op>) {
    forall k :: 0 <= k < |ops| ==> ValidOp(base, ops[k])
  }

  function OpBytes(base: Bytes, op: Op): Bytes
    requires ValidOp(base, op)
  {
    match op
    case Copy(offset, length) => base[offset..offset + length]
    case Insert(data) => data
  }

  function Total(ops: seq<Op>): nat {
    if ops == [] then 0 else Total(ops[..|ops| - 1]) + OpLen(ops[|ops| - 1])
  }

  ghost function Expand(base: Bytes, ops: seq<Op>): (out: Bytes)
    requires ValidOps(base, ops)
    ensures |out| == Total(ops)
  {
    if ops == [] then [] else
      Expand(base, ops[..|ops| - 1]) + OpBytes(base, ops[|ops| - 1])
  }

  lemma TotalAppend(ops: seq<Op>, op: Op)
    ensures Total(ops + [op]) == Total(ops) + OpLen(op)
  {
    assert (ops + [op])[..|ops|] == ops;
  }

  lemma {:induction false} TotalMonotone(ops: seq<Op>, k: nat)
    requires k <= |ops|
    ensures Total(ops[..k]) <= Total(ops)
  {
    if k == |ops| {
      assert ops[..k] == ops;
    } else {
      var init := ops[..|ops| - 1];
      TotalMonotone(init, k);
      assert init[..k] == ops[..k];
    }
  }

  // ---------------------------------------------------------------------------
  // The hash index
  // ---------------------------------------------------------------------------

  // A match index as a value. Nothing is assumed about what the slots hold.
  datatype Table = Table(head: seq<int>, shift: nat)
  {
    ghost predicate Valid() {
      shift <= HASH_BITS && |head| == Pow2(HASH_BITS - shift)
    }

    // The base position the table proposes for target position i; negative for none.
    function Candidate(target: Bytes, i: nat): int
      requires Valid() && i + HASH_LEN <= |target|
    {
      BucketInTable(target, i, shift);
      head[Bucket(target, i, shift)] - 1
    }
  }

  // The greatest position below n whose 4-byte key falls in bucket h, or -1.
  function LastPos(base: Bytes, shift: nat, h: nat, n: nat): int
    requires n == 0 || n + HASH_LEN - 1 <= |base|
  {
    if n == 0 then -1
    else if Bucket(base, n - 1, shift) == h then n - 1
    else LastPos(base, shift, h, n - 1)
  }

  // The number of positions of base that carry a full key.
  function Keys(base: Bytes): nat {
    if |base| < HASH_LEN then 0 else |base| - HASH_LEN + 1
  }

  ghost predicate IsGreatestInBucket(base: Bytes, shift: nat, h: nat, n: nat, q: int)
    requires n <= Keys(base)
  {
    && -1 <= q < n
    && (q >= 0 ==> Bucket(base, q, shift) == h)
    && forall j: nat :: q < j < n ==> Bucket(base, j, shift) != h
  }

  lemma {:induction false} LastPosIsGreatest(base: Bytes, shift: nat, h: nat, n: nat)
    requires n <= Keys(base)
    ensures IsGreatestInBucket(base, shift, h, n, LastPos(base, shift, h, n))
  {
    if n > 0 && Bucket(base, n - 1, shift) != h {
      LastPosIsGreatest(base, shift, h, n - 1);
    }
  }

  // What NewIndex leaves in the table, for a base of any length.
  ghost predicate Built(base: Bytes, t: Table) {
    && t.Valid()
    && forall h :: 0 <= h < |t.head| ==> t.head[h] == ToInt32(LastPos(base, t.shift, h, Keys(base)) + 1)
  }

  // The documented content of a slot: latest base position + 1, or 0 for an empty bucket.
  ghost predicate Exact(base: Bytes, t: Table) {
    && t.Valid()
    && forall h :: 0 <= h < |t.head| ==>
      IsGreatestInBucket(base, t.shift, h, Keys(base), t.head[h] - 1)
  }

  lemma SmallTableExact(base: Bytes, t: Table)
    requires Built(base, t) && Keys(base) < TWO_31
    ensures Exact(base, t)
  {
    hide LastPos, IsGreatestInBucket, Bucket, Pow2;
    forall h | 0 <= h < |t.head|
      ensures IsGreatestInBucket(base, t.shift, h, Keys(base), t.head[h] - 1)
    {
      LastPosIsGreatest(base, t.shift, h, Keys(base));
    }
  }

  // The bucket of the last key position cannot hold that position plus one.
  lemma LargeTableInexact(base: Bytes, t: Table)
    requires Built(base, t) && Keys(base) >= TWO_31
    ensures !Exact(base, t)
  {
    hide Bucket, Pow2;
    var q := Keys(base) - 1;
    var h := Bucket(base, q, t.shift);
    BucketInTable(base, q, t.shift);
    assert t.head[h] == ToInt32(LastPos(base, t.shift, h, Keys(base)) + 1) == ToInt32(q + 1);
    assert t.head[h] < TWO_31;
    assert !IsGreatestInBucket(base, t.shift, h, Keys(base), t.head[h] - 1);
  }

  /** Positions are narrowed to int32, so the table is exact precisely for the bases whose
      last key position plus one still fits. */
  lemma TableExactIff(base: Bytes, t: Table)
    requires Built(base, t)
    ensures Exact(base, t) <==> |base| < 0x8000_0003
  {
    if Keys(base) < TWO_31 {
      SmallTableExact(base, t);
    } else {
      LargeTableInexact(base, t);
    }
  }

  // ---------------------------------------------------------------------------
  // The greedy scan, as a function of the table
  // ---------------------------------------------------------------------------

  // The length of the common prefix of a[ai..] and b[bi..].
  function MatchLen(a: Bytes, ai: nat, b: Bytes, bi: nat): (n: nat)
    ensures n > 0 ==> ai + n <= |a| && bi + n <= |b|
    ensures !(ai + n < |a| && bi + n < |b| && a[ai + n] == b[bi + n])
    decreases |a| - ai
  {
    if ai < |a| && bi < |b| && a[ai] == b[bi] then 1 + MatchLen(a, ai + 1, b, bi + 1) else 0
  }

  lemma {:induction false} MatchLenAgrees(a: Bytes, ai: nat, b: Bytes, bi: nat)
    ensures var n := MatchLen(a, ai, b, bi);
      n > 0 ==> a[ai..ai + n] == b[bi..bi + n]
    decreases |a| - ai
  {
    var n := MatchLen(a, ai, b, bi);
    if n > 0 {
      MatchLenAgrees(a, ai + 1, b, bi + 1);
      assert a[ai..ai + n] == [a[ai]] + a[ai + 1..ai + n];
      assert b[bi..bi + n] == [b[bi]] + b[bi + 1..bi + n];
    }
  }

  // How far a match at (bpos, tpos) grows backwards into the pending literals.
  function BackLen(base: Bytes, bpos: nat, target: Bytes, tpos: nat, litStart: nat): (n: nat)
    requires bpos <= |base| && litStart <= tpos <= |target|
    ensures n <= bpos && n <= tpos - litStart
    ensures bpos == n || tpos - n == litStart || base[bpos - n - 1] != target[tpos - n - 1]
    decreases tpos
  {
    if tpos > litStart && bpos > 0 && base[bpos - 1] == target[tpos - 1] then
      1 + BackLen(base, bpos - 1, target, tpos - 1, litStart)
    else 0
  }

  lemma {:induction false} BackLenAgrees(base: Bytes, bpos: nat, target: Bytes, tpos: nat, litStart: nat)
    requires bpos <= |base| && litStart <= tpos <= |target|
    ensures var n := BackLen(base, bpos, target, tpos, litStart);
      base[bpos - n..bpos] == target[tpos - n..tpos]
    decreases tpos
  {
    var n := BackLen(base, bpos, target, tpos, litStart);
    if n > 0 {
      BackLenAgrees(base, bpos - 1, target, tpos - 1, litStart);
      LastByte(base, bpos - n, bpos);
      LastByte(target, tpos - n, tpos);
    }
  }

  lemma LastByte(s: Bytes, i: nat, j: nat)
    requires i < j <= |s|
    ensures s[i..j] == s[i..j - 1] + [s[j - 1]]
  {
  }

  function Literal(target: Bytes, start: nat, end: nat): seq<Op>
    requires end <= |target|
  {
    if end <= start then [] else [Insert(target[start..end])]
  }

  function Forward(base: Bytes, t: Table, target: Bytes, i: nat): (n: nat)
    requires t.Valid() && i + HASH_LEN <= |target|
    ensures n > 0 ==>
      var cand := t.Candidate(target, i);
      && 0 <= cand && cand + n <= |base| && i + n <= |target|
      && base[cand..cand + n] == target[i..i + n]
      && !(cand + n < |base| && i + n < |target| && base[cand + n] == target[i + n])
  {
    var cand := t.Candidate(target, i);
    if cand < 0 then 0 else
      MatchLenAgrees(base, cand, target, i);
      MatchLen(base, cand, target, i)
  }

  // The rest of the scan from position i, with target[litStart..i] still pending as a
  // literal and ops already emitted.
  function Scan(base: Bytes, t: Table, target: Bytes, i: nat, litStart: nat, ops: seq<Op>): seq<Op>
    requires t.Valid() && litStart <= i <= |target|
    requires |base| < TWO_63 && |target| < TWO_63
    decreases |target| - i
  {
    if i + HASH_LEN > |target| then
      ops + Literal(target, litStart, |target|)
    else if Forward(base, t, target, i) >= MIN_MATCH then
      var fwd := Forward(base, t, target, i);
      Scan(base, t, target, i + fwd, i + fwd, ops + Found(base, t, target, i, litStart))
    else
      Scan(base, t, target, i + 1, litStart, ops)
  }

  // What a match anchored at i adds: the literals it leaves over, then the copy.
  function Found(base: Bytes, t: Table, target: Bytes, i: nat, litStart: nat): seq<Op>
    requires t.Valid() && litStart <= i && i + HASH_LEN <= |target|
    requires |base| < TWO_63 && |target| < TWO_63
    requires Forward(base, t, target, i) >= MIN_MATCH
  {
    var cand := t.Candidate(target, i);
    var back := BackLen(base, cand, target, i, litStart);
    Literal(target, litStart, i - back) + [Copy(cand - back, Forward(base, t, target, i) + back)]
  }

  function DiffOps(base: Bytes, t: Table, target: Bytes): seq<Op>
    requires t.Valid() && |base| < TWO_63 && |target| < TWO_63
  {
    Scan(base, t, target, 0, 0, [])
  }

  // ---------------------------------------------------------------------------
  // Canonical form, maximality and the round trip
  // ---------------------------------------------------------------------------

  // Operation k of ops spells out its own stretch of target in the one form the scan
  // allows: literals are non-empty and follow only copies; copies are at least 16 bytes,
  // and can grow neither forward nor backward (backward up to the previous copy).
  ghost predicate CanonicalAt(base: Bytes, target: Bytes, ops: seq<Op>, k: nat)
    requires k < |ops|
  {
    var p := Total(ops[..k]);
    && p + OpLen(ops[k]) <= |target|
    && match ops[k]
       case Unknown => false
       case Insert(data) =>
         && data == target[p..p + |data|]
         && data != []
         && (k > 0 ==> ops[k - 1].Copy?)
       case Copy(offset, length) =>
         && 16 <= length && offset + length <= |base|
         && base[offset..offset + length] == target[p..p + length]
         && !(offset + length < |base| && p + length < |target| && base[offset + length] == target[p + length])
         && !(k > 0 && ops[k - 1].Insert? && offset > 0 && p > 0 && base[offset - 1] == target[p - 1])
  }

  ghost predicate Canonical(base: Bytes, target: Bytes, ops: seq<Op>) {
    forall k :: 0 <= k < |ops| ==> CanonicalAt(base, target, ops, k)
  }

  // An op at the end of a prefix sees the same history as in the whole list.
  lemma CanonicalAppend(base: Bytes, target: Bytes, ops: seq<Op>, op: Op)
    requires Canonical(base, target, ops)
    requires CanonicalAt(base, target, ops + [op], |ops|)
    ensures Canonical(base, target, ops + [op])
  {
    var ops' := ops + [op];
    forall k | 0 <= k < |ops'|
      ensures CanonicalAt(base, target, ops', k)
    {
      if k < |ops| {
        assert CanonicalAt(base, target, ops, k);
        assert ops'[..k] == ops[..k];
      }
    }
  }

  lemma CanonicalInit(base: Bytes, target: Bytes, ops: seq<Op>)
    requires ops != [] && Canonical(base, target, ops)
    ensures Canonical(base, target, ops[..|ops| - 1])
  {
    var init := ops[..|ops| - 1];
    forall k | 0 <= k < |init|
      ensures CanonicalAt(base, target, init, k)
    {
      assert CanonicalAt(base, target, ops, k);
      assert init[..k] == ops[..k];
    }
  }

  ghost predicate EndsInCopy(ops: seq<Op>) {
    ops == [] || ops[|ops| - 1].Copy?
  }

  lemma LiteralCanonical(base: Bytes, target: Bytes, ops: seq<Op>, end: nat)
    requires Canonical(base, target, ops) && EndsInCopy(ops)
    requires Total(ops) <= end <= |target|
    ensures Canonical(base, target, ops + Literal(target, Total(ops), end))
    ensures Total(ops + Literal(target, Total(ops), end)) == end
  {
    var lit := Literal(target, Total(ops), end);
    if lit == [] {
      assert ops + lit == ops;
    } else {
      var op := Insert(target[Total(ops)..end]);
      assert lit == [op];
      assert (ops + [op])[..|ops|] == ops;
      TotalAppend(ops, op);
      CanonicalAppend(base, target, ops, op);
    }
  }

  // A found match, opened up: a leftover literal, then a copy that agrees with the target
  // and cannot grow in either direction.
  lemma FoundShape(base: Bytes, t: Table, target: Bytes, i: nat, litStart: nat) returns (start: nat, off: nat, len: nat)
    requires t.Valid() && |base| < TWO_63 && |target| < TWO_63
    requires litStart <= i && i + HASH_LEN <= |target| && Forward(base, t, target, i) >= MIN_MATCH
    ensures litStart <= start <= i && start + len == i + Forward(base, t, target, i) <= |target|
    ensures MIN_MATCH <= len && off + len <= |base|
    ensures Found(base, t, target, i, litStart) == Literal(target, litStart, start) + [Copy(off, len)]
    ensures base[off..off + len] == target[start..start + len]
    ensures !(off + len < |base| && start + len < |target| && base[off + len] == target[start + len])
    ensures !(start > litStart && off > 0 && base[off - 1] == target[start - 1])
  {
    hide Forward, BackLen, Bucket, Key, MatchLen, Found, Literal, Table.Candidate, Table.Valid;
    var cand, fwd := t.Candidate(target, i), Forward(base, t, target, i);
    var back := BackLen(base, cand, target, i, litStart);
    FoundIs(base, t, target, i, litStart);
    BackLenAgrees(base, cand, target, i, litStart);
    start, off, len := i - back, cand - back, fwd + back;
    CutAt(base, off, cand, off + len);
    CutAt(target, start, i, start + len);
  }

  lemma FoundIs(base: Bytes, t: Table, target: Bytes, i: nat, litStart: nat)
    requires t.Valid() && |base| < TWO_63 && |target| < TWO_63
    requires litStart <= i && i + HASH_LEN <= |target| && Forward(base, t, target, i) >= MIN_MATCH
    ensures
      var cand, fwd := t.Candidate(target, i), Forward(base, t, target, i);
      var back := BackLen(base, cand, target, i, litStart);
      Found(base, t, target, i, litStart) == Literal(target, litStart, i - back) + [Copy(cand - back, fwd + back)]
  {
    hide Forward, BackLen, Bucket, Literal;
  }

  lemma CutAt(s: Bytes, i: nat, j: nat, k: nat)
    requires i <= j <= k <= |s|
    ensures s[i..k] == s[i..j] + s[j..k]
  {
  }

  lemma CopyCanonical(base: Bytes, target: Bytes, ops: seq<Op>, off: nat, len: nat)
    requires |base| < TWO_63 && Canonical(base, target, ops)
    requires Total(ops) + len <= |target|
    requires MIN_MATCH <= len && off + len <= |base|
    requires base[off..off + len] == target[Total(ops)..Total(ops) + len]
    requires !(off + len < |base| && Total(ops) + len < |target| && base[off + len] == target[Total(ops) + len])
    requires !EndsInCopy(ops) && off > 0 && Total(ops) > 0 ==> base[off - 1] != target[Total(ops) - 1]
    ensures Canonical(base, target, ops + [Copy(off, len)])
    ensures Total(ops + [Copy(off, len)]) == Total(ops) + len
  {
    var op := Copy(off, len);
    assert (ops + [op])[..|ops|] == ops;
    TotalAppend(ops, op);
    assert CanonicalAt(base, target, ops + [op], |ops|);
    CanonicalAppend(base, target, ops, op);
  }

  lemma LiteralShows(target: Bytes, ops: seq<Op>, end: nat)
    requires EndsInCopy(ops) && end <= |target|
    ensures !EndsInCopy(ops + Literal(target, Total(ops), end)) ==> Total(ops) < end
  {
    assert end <= Total(ops) ==> ops + [] == ops;
  }

  lemma CopyShows(ops: seq<Op>, off: uint64, len: uint64)
    ensures EndsInCopy(ops + [Copy(off, len)])
  {
  }

  lemma FoundCanonical(base: Bytes, t: Table, target: Bytes, i: nat, ops: seq<Op>)
    requires t.Valid() && |base| < TWO_63 && |target| < TWO_63
    requires Canonical(base, target, ops) && EndsInCopy(ops) && Total(ops) <= i
    requires i + HASH_LEN <= |target| && Forward(base, t, target, i) >= MIN_MATCH
    ensures
      var ops' := ops + Found(base, t, target, i, Total(ops));
      && Canonical(base, target, ops') && EndsInCopy(ops')
      && Total(ops') == i + Forward(base, t, target, i)
  {
    hide Literal, EndsInCopy, Found, Canonical, Forward;
    var start, off, len := FoundShape(base, t, target, i, Total(ops));
    var pre := ops + Literal(target, Total(ops), start);
    LiteralCanonical(base, target, ops, start);
    LiteralShows(target, ops, start);
    CopyCanonical(base, target, pre, off, len);
    CopyShows(pre, off, len);
    assert pre + [Copy(off, len)] == ops + Found(base, t, target, i, Total(ops));
  }

  lemma {:induction false} ScanCanonical(base: Bytes, t: Table, target: Bytes, i: nat, ops: seq<Op>)
    requires t.Valid() && |base| < TWO_63 && |target| < TWO_63
    requires Canonical(base, target, ops) && EndsInCopy(ops) && Total(ops) <= i <= |target|
    ensures
      var r := Scan(base, t, target, i, Total(ops), ops);
      Canonical(base, target, r) && Total(r) == |target|
    decreases |target| - i
  {
    hide Canonical, Found, Literal, EndsInCopy;
    if i + HASH_LEN > |target| {
      LiteralCanonical(base, target, ops, |target|);
    } else if Forward(base, t, target, i) >= MIN_MATCH {
      FoundCanonical(base, t, target, i, ops);
      ScanCanonical(base, t, target, i + Forward(base, t, target, i), ops + Found(base, t, target, i, Total(ops)));
    } else {
      ScanCanonical(base, t, target, i + 1, ops);
    }
  }

  lemma CanonicalSpells(base: Bytes, target: Bytes, ops: seq<Op>, k: nat)
    requires k < |ops| && CanonicalAt(base, target, ops, k)
    ensures ValidOp(base, ops[k]) && Total(ops[..k]) + OpLen(ops[k]) <= |target|
    ensures OpBytes(base, ops[k]) == target[Total(ops[..k])..Total(ops[..k]) + OpLen(ops[k])]
  {
  }

  // Canonical operations are valid and spell out the target they were read from.
  lemma {:induction false} CanonicalExpands(base: Bytes, target: Bytes, ops: seq<Op>)
    requires Canonical(base, target, ops)
    ensures ValidOps(base, ops) && Total(ops) <= |target| && Expand(base, ops) == target[..Total(ops)]
  {
    hide CanonicalAt;
    if ops != [] {
      var n := |ops| - 1;
      CanonicalInit(base, target, ops);
      CanonicalExpands(base, target, ops[..n]);
      CanonicalSpells(base, target, ops, n);
      hide Canonical, CanonicalAt, OpBytes, OpLen, Expand, Total;
      ExpandLast(base, ops);
      JoinSlices(target, Total(ops[..n]), Total(ops));
    } else {
      ExpandNone(base);
    }
  }

  lemma ExpandLast(base: Bytes, ops: seq<Op>)
    requires ops != [] && ValidOps(base, ops[..|ops| - 1]) && ValidOp(base, ops[|ops| - 1])
    ensures ValidOps(base, ops) && Total(ops) == Total(ops[..|ops| - 1]) + OpLen(ops[|ops| - 1])
    ensures Expand(base, ops) == Expand(base, ops[..|ops| - 1]) + OpBytes(base, ops[|ops| - 1])
  {
    hide OpBytes, OpLen, ValidOp;
    var init := ops[..|ops| - 1];
    assert forall k :: 0 <= k < |init| ==> init[k] == ops[k];
  }

  lemma ExpandNone(base: Bytes)
    ensures Total([]) == 0 && Expand(base, []) == []
  {
  }

  lemma JoinSlices(s: Bytes, i: nat, j: nat)
    requires i <= j <= |s|
    ensures s[..i] + s[i..j] == s[..j]
  {
  }

  lemma {:induction false} CanonicalCount(base: Bytes, target: Bytes, ops: seq<Op>)
    requires Canonical(base, target, ops)
    ensures |ops| <= 2 * (Total(ops) / MIN_MATCH) + 1
    ensures EndsInCopy(ops) ==> |ops| <= 2 * (Total(ops) / MIN_MATCH)
  {
    if ops != [] {
      var n := |ops| - 1;
      CanonicalInit(base, target, ops);
      CanonicalCount(base, target, ops[..n]);
      assert CanonicalAt(base, target, ops, n);
    }
  }

  /** Whatever the table holds, the operations rebuild the target from the base. */
  lemma DiffRoundTrip(base: Bytes, t: Table, target: Bytes)
    requires t.Valid() && |base| < TWO_63 && |target| < TWO_63
    ensures
      var ops := DiffOps(base, t, target);
      ValidOps(base, ops) && Expand(base, ops) == target && Total(ops) == |target|
  {
    ScanCanonical(base, t, target, 0, []);
    CanonicalExpands(base, target, DiffOps(base, t, target));
  }

  /** The output is canonical, its copies are maximal, and there are few operations. */
  lemma DiffCanonical(base: Bytes, t: Table, target: Bytes)
    requires t.Valid() && |base| < TWO_63 && |target| < TWO_63
    ensures Canonical(base, target, DiffOps(base, t, target))
    ensures |DiffOps(base, t, target)| <= 2 * (|target| / 16) + 1
  {
    ScanCanonical(base, t, target, 0, []);
    CanonicalCount(base, target, DiffOps(base, t, target));
  }

  // ---------------------------------------------------------------------------
  // No missed match
  // ---------------------------------------------------------------------------

  // Position p of the target lies inside some copy.
  ghost predicate Covered(ops: seq<Op>, p: nat) {
    exists k :: 0 <= k < |ops| && CoveredBy(ops, p, k)
  }

  ghost predicate CoveredBy(ops: seq<Op>, p: nat, k: nat)
    requires k < |ops|
  {
    ops[k].Copy? && Total(ops[..k]) <= p < Total(ops[..k + 1])
  }

  lemma CoveredExtends(ops: seq<Op>, more: seq<Op>, p: nat)
    requires Covered(ops, p)
    ensures Covered(ops + more, p)
  {
    var k :| 0 <= k < |ops| && CoveredBy(ops, p, k);
    assert (ops + more)[..k] == ops[..k] && (ops + more)[..k + 1] == ops[..k + 1];
    assert CoveredBy(ops + more, p, k);
  }

  // The table proposes, for target position p, a base position where 16 bytes agree.
  ghost predicate Hit(base: Bytes, t: Table, target: Bytes, p: nat)
    requires t.Valid()
  {
    && p + MIN_MATCH <= |target|
    && var q := t.Candidate(target, p);
       0 <= q && q + MIN_MATCH <= |base| && base[q..q + MIN_MATCH] == target[p..p + MIN_MATCH]
  }

  lemma EqualSlices(a: Bytes, q: nat, b: Bytes, p: nat, n: nat)
    requires q + MIN_MATCH <= |a| && p + MIN_MATCH <= |b|
    requires a[q..q + MIN_MATCH] == b[p..p + MIN_MATCH]
    ensures n < MIN_MATCH ==> a[q + n] == b[p + n]
  {
    assert n < MIN_MATCH ==> a[q..q + MIN_MATCH][n] == b[p..p + MIN_MATCH][n];
  }

  lemma HitIsLong(base: Bytes, t: Table, target: Bytes, p: nat)
    requires t.Valid() && Hit(base, t, target, p)
    ensures Forward(base, t, target, p) >= MIN_MATCH
  {
    var q := t.Candidate(target, p);
    EqualSlices(base, q, target, p, Forward(base, t, target, p));
  }

  lemma FoundCovers(base: Bytes, t: Table, target: Bytes, i: nat, ops: seq<Op>, p: nat)
    requires t.Valid() && |base| < TWO_63 && |target| < TWO_63
    requires Canonical(base, target, ops) && EndsInCopy(ops) && Total(ops) <= i
    requires i + HASH_LEN <= |target| && Forward(base, t, target, i) >= MIN_MATCH
    requires i <= p < i + Forward(base, t, target, i)
    ensures Covered(ops + Found(base, t, target, i, Total(ops)), p)
  {
    hide Found, Canonical, Forward, Literal, EndsInCopy, Covered, Total;
    var start, off, len := FoundShape(base, t, target, i, Total(ops));
    var pre := ops + Literal(target, Total(ops), start);
    LiteralCanonical(base, target, ops, start);
    CopyCovers(pre, off, len, p);
    assert ops + Found(base, t, target, i, Total(ops)) == pre + [Copy(off, len)];
  }

  lemma CopyCovers(ops: seq<Op>, off: uint64, len: uint64, p: nat)
    requires Total(ops) <= p < Total(ops) + len
    ensures Covered(ops + [Copy(off, len)], p)
  {
    var more := ops + [Copy(off, len)];
    TotalAppend(ops, Copy(off, len));
    assert more[..|ops|] == ops && more[..|ops| + 1] == more;
    assert CoveredBy(more, p, |ops|);
  }

  lemma {:induction false} ScanCovers(base: Bytes, t: Table, target: Bytes, i: nat, ops: seq<Op>, p: nat)
    requires t.Valid() && |base| < TWO_63 && |target| < TWO_63
    requires Canonical(base, target, ops) && EndsInCopy(ops) && Total(ops) <= i <= |target|
    requires Hit(base, t, target, p)
    requires p < Total(ops) ==> Covered(ops, p)
    requires p < Total(ops) || i <= p
    ensures Covered(Scan(base, t, target, i, Total(ops), ops), p)
    decreases |target| - i
  {
    hide Total, Forward, Canonical, Found, Literal, EndsInCopy, Covered;
    if i + HASH_LEN > |target| {
      CoveredExtends(ops, Literal(target, Total(ops), |target|), p);
    } else if Forward(base, t, target, i) >= MIN_MATCH {
      var more := Found(base, t, target, i, Total(ops));
      FoundCanonical(base, t, target, i, ops);
      if p < Total(ops) {
        CoveredExtends(ops, more, p);
      } else if p < i + Forward(base, t, target, i) {
        FoundCovers(base, t, target, i, ops, p);
      }
      ScanCovers(base, t, target, i + Forward(base, t, target, i), ops + more, p);
    } else {
      if p == i {
        HitIsLong(base, t, target, p);
      }
      ScanCovers(base, t, target, i + 1, ops, p);
    }
  }

  /** No indexed match is missed: if 16 bytes of the target at p equal 16 bytes of the base
      at q, and no later word of the base has a product with the same top bits, then a copy
      covers p. */
  lemma NoMissedMatch(base: Bytes, t: Table, target: Bytes, p: nat, q: nat)
    requires Exact(base, t) && |base| < TWO_63 && |target| < TWO_63
    requires p + 16 <= |target| && q + 16 <= |base| && base[q..q + 16] == target[p..p + 16]
    requires forall j: nat :: q < j && j + 4 <= |base| ==> TopBits(base, j, t.shift) != TopBits(base, q, t.shift)
    ensures
      var ops := DiffOps(base, t, target);
      exists k :: 0 <= k < |ops| && ops[k].Copy? && Total(ops[..k]) <= p < Total(ops[..k]) + ops[k].length
  {
    hide Bucket, TopBits, DiffOps;
    assert Bucket(target, p, t.shift) == Bucket(base, q, t.shift) by {
      FirstBytes(base, q, target, p);
      SameBytesSameBucket(target, p, base, q, t.shift);
    }
    forall j: nat | q < j < Keys(base)
      ensures Bucket(base, j, t.shift) != Bucket(base, q, t.shift)
    {
      BucketMeans(base, j, t.shift);
      BucketMeans(base, q, t.shift);
    }
    HitCovered(base, t, target, p, q);
    var ops := DiffOps(base, t, target);
    var k :| 0 <= k < |ops| && CoveredBy(ops, p, k);
    CoverStarts(ops, p, k);
  }

  lemma FirstBytes(a: Bytes, i: nat, b: Bytes, j: nat)
    requires i + 16 <= |a| && j + 16 <= |b| && a[i..i + 16] == b[j..j + 16]
    ensures a[i..i + 4] == b[j..j + 4]
  {
    assert a[i..i + 4] == a[i..i + 16][..4] && b[j..j + 4] == b[j..j + 16][..4];
  }

  lemma CoverStarts(ops: seq<Op>, p: nat, k: nat)
    requires k < |ops| && CoveredBy(ops, p, k)
    ensures ops[k].Copy? && Total(ops[..k]) <= p < Total(ops[..k]) + ops[k].length
  {
    assert ops[..k + 1][..k] == ops[..k];
  }

  lemma HitCovered(base: Bytes, t: Table, target: Bytes, p: nat, q: nat)
    requires Exact(base, t) && |base| < TWO_63 && |target| < TWO_63
    requires p + MIN_MATCH <= |target| && q + MIN_MATCH <= |base|
    requires base[q..q + MIN_MATCH] == target[p..p + MIN_MATCH]
    requires Bucket(target, p, t.shift) == Bucket(base, q, t.shift)
    requires forall j: nat :: q < j < Keys(base) ==> Bucket(base, j, t.shift) != Bucket(base, q, t.shift)
    ensures Covered(DiffOps(base, t, target), p)
  {
    BucketInTable(base, q, t.shift);
    assert t.Candidate(target, p) == q;
    ScanCovers(base, t, target, 0, [], p);
  }

  /** What an exact table is: one plus the greatest position of base whose word has the slot's
      number as its top bits, or zero if there is none. */
  lemma ExactIff(base: Bytes, t: Table)
    requires t.Valid()
    ensures Exact(base, t) <==> forall h :: 0 <= h < |t.head| ==> SlotExact(base, t, h)
  {
    hide Bucket, TopBits, Pow2;
    forall h | 0 <= h < |t.head|
      ensures SlotExact(base, t, h) <==> IsGreatestInBucket(base, t.shift, h, Keys(base), t.head[h] - 1)
    {
      forall j: nat | j + 4 <= |base|
        ensures Bucket(base, j, t.shift) == TopBits(base, j, t.shift)
      {
        BucketMeans(base, j, t.shift);
      }
    }
  }

  ghost predicate SlotExact(base: Bytes, t: Table, h: nat)
    requires h < |t.head|
  {
    var q := t.head[h] - 1;
    && -1 <= q && (q >= 0 ==> q + 4 <= |base| && TopBits(base, q, t.shift) == h)
    && forall j: nat :: q < j && j + 4 <= |base| ==> TopBits(base, j, t.shift) != h
  }
}
