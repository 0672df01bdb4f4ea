/** Types shared by every module: bytes, partial results, and the two's-complement
    conversions that Go's integer conversions perform. */
module Prelude {

  type byte = x: int | 0 <= x < 256

  // Go's []byte, and Go's string, which is also a sequence of bytes.
  type Bytes = seq<byte>
  type Str = seq<byte>

  const SLASH: byte := 47

  const TWO_31 := 0x8000_0000
  const TWO_32 := 0x1_0000_0000
  const TWO_63 := 0x8000_0000_0000_0000
  const TWO_64 := 0x1_0000_0000_0000_0000

  // The largest slice the Go runtime allocates on a 64-bit machine; make panics beyond it.
  const MAX_ALLOC := 0x1_0000_0000_0000

  type uint64 = x: int | 0 <= x < 0x1_0000_0000_0000_0000

  datatype Option<+T> = None | Some(value: T)

  // A decoded value and the bytes that follow it.
  datatype Parsed<T> = Parsed(value: T, rest: Bytes)

  // What a Go call can do: return a value, return a non-nil error, or panic.
  datatype Outcome<+T> = Ok(value: T) | Err | Panic

  // Conversion of a mathematical integer to int32 and to int (64 bits).
  function ToInt32(x: int): int {
    var r := x % TWO_32;
    if r < TWO_31 then r else r - TWO_32
  }

  function ToInt64(x: int): int {
    var r := x % TWO_64;
    if r < TWO_63 then r else r - TWO_64
  }

  lemma SomeMember(ids: set<int>)
    ensures ids == {} || exists id :: id in ids
  {
    if forall id :: id !in ids {
      assert ids == {};
    }
  }

  function Pow2(n: nat): (p: nat)
    ensures p > 0
  {
    if n == 0 then 1 else 2 * Pow2(n - 1)
  }

  lemma Pow2Doubles(n: nat)
    requires n > 0
    ensures Pow2(n) == 2 * Pow2(n - 1)
  {
  }

  // The concatenation of a sequence of byte strings.
  function Concat(parts: seq<Bytes>): Bytes {
    if parts == [] then [] else Concat(parts[..|parts| - 1]) + parts[|parts| - 1]
  }

  lemma Associates<T>(a: seq<T>, b: seq<T>, c: seq<T>)
    ensures (a + b) + c == a + (b + c)
  {
  }

  lemma ConcatAppend(parts: seq<Bytes>, part: Bytes)
    ensures Concat(parts + [part]) == Concat(parts) + part
  {
    assert (parts + [part])[..|parts|] == parts;
  }

  function Sum(s: seq<nat>): nat {
    if s == [] then 0 else Sum(s[..|s| - 1]) + s[|s| - 1]
  }

  lemma SumSnoc(s: seq<nat>, n: nat)
    ensures Sum(s + [n]) == Sum(s) + n
  {
    assert (s + [n])[..|s|] == s;
  }

  ghost predicate Increasing(pos: seq<nat>) {
    forall i, j :: 0 <= i < j < |pos| ==> pos[i] < pos[j]
  }

  // rows is what s holds at exactly the positions where `at` says so, in order.
  ghost predicate Selected<T>(s: seq<T>, at: T -> bool, rows: seq<T>, pos: seq<nat>) {
    && |pos| == |rows| && Increasing(pos)
    && (forall i :: 0 <= i < |pos| ==> pos[i] < |s| && s[pos[i]] == rows[i] && at(rows[i]))
    && (forall k: nat :: k < |s| && at(s[k]) ==> k in pos)
  }

  lemma SelectedSkip<T>(s: seq<T>, at: T -> bool, rows: seq<T>, pos: seq<nat>, x: T)
    requires Selected(s, at, rows, pos) && !at(x)
    ensures Selected(s + [x], at, rows, pos)
  {
  }

  lemma SelectedKeep<T>(s: seq<T>, at: T -> bool, rows: seq<T>, pos: seq<nat>, x: T)
    requires Selected(s, at, rows, pos) && at(x)
    ensures Selected(s + [x], at, rows + [x], pos + [|s|])
  {
    var more := pos + [|s|];
    forall k: nat | k < |s + [x]| && at((s + [x])[k])
      ensures k in more
    {
      if k == |s| {
        assert more[|pos|] == k;
      } else {
        assert at(s[k]);
      }
    }
  }
}
