/** The hash of the differ's index (internal/delta/delta.go): which positions share a bucket. */
module DeltaHash {
  import opened Prelude

  const HASH_LEN := 4
  const HASH_BITS := 32
  const KNUTH_PRIME := 2654435761

  // The little-endian 32-bit word at position i.
  function Key(b: Bytes, i: nat): (k: nat)
    requires i + HASH_LEN <= |b|
    ensures k < TWO_32
  {
    var b0: int, b1: int, b2: int, b3: int := b[i], b[i + 1], b[i + 2], b[i + 3];
    b0 + b1 * 0x100 + b2 * 0x1_0000 + b3 * 0x100_0000
  }

  function ShiftRight(x: nat, n: nat): nat {
    if n == 0 then x else ShiftRight(x / 2, n - 1)
  }

  // Index.hash: a multiplication modulo 2^32, then a right shift.
  function Bucket(b: Bytes, i: nat, shift: nat): nat
    requires i + HASH_LEN <= |b|
  {
    ShiftRight(Key(b, i) * KNUTH_PRIME % TWO_32, shift)
  }

  lemma {:induction false} ShiftRightBelow(x: nat, n: nat, bits: nat)
    requires x < Pow2(n + bits)
    ensures ShiftRight(x, n) < Pow2(bits)
  {
    if n > 0 {
      ShiftRightBelow(x / 2, n - 1, bits);
    }
  }

  lemma Pow2Of32()
    ensures Pow2(32) == TWO_32
  {
    assert Pow2(4) == 0x10;
    assert Pow2(8) == 0x100;
    assert Pow2(12) == 0x1000;
    assert Pow2(16) == 0x1_0000;
    assert Pow2(20) == 0x10_0000;
    assert Pow2(24) == 0x100_0000;
    assert Pow2(28) == 0x1000_0000;
  }

  /** The hash always falls inside a table of 2^(32-shift) slots. */
  lemma BucketInTable(b: Bytes, i: nat, shift: nat)
    requires i + HASH_LEN <= |b| && shift <= HASH_BITS
    ensures Bucket(b, i, shift) < Pow2(HASH_BITS - shift)
  {
    Pow2Of32();
    ShiftRightBelow(Key(b, i) * KNUTH_PRIME % TWO_32, shift, HASH_BITS - shift);
  }

  // ---------------------------------------------------------------------------
  // What the hash is, in numbers
  // ---------------------------------------------------------------------------

  lemma TwiceScaled(d: nat, m: nat, q: nat)
    requires m == 2 * d
    ensures m * q == 2 * (d * q)
  {
  }

  lemma QuotientIs(x: nat, d: nat, q: nat, r: nat)
    requires d > 0 && x == d * q + r && r < d
    ensures x / d == q
  {
    var p := x / d;
    if p < q {
      ScaleMore(d, p, q);
    } else if q < p {
      ScaleMore(d, q, p);
    }
  }

  lemma ScaleMore(d: nat, p: nat, q: nat)
    requires p < q
    ensures d * p + d <= d * q
  {
    assert d * (p + 1) <= d * q;
  }

  lemma {:induction false} ShiftRemainder(x: nat, n: nat) returns (r: nat)
    ensures x == Pow2(n) * ShiftRight(x, n) + r && r < Pow2(n)
  {
    if n == 0 {
      r := 0;
    } else {
      r := ShiftRemainder(x / 2, n - 1);
      TwiceScaled(Pow2(n - 1), Pow2(n), ShiftRight(x, n));
      r := 2 * r + x % 2;
    }
  }

  lemma ShiftIsDivision(x: nat, n: nat)
    ensures ShiftRight(x, n) == x / Pow2(n)
  {
    hide Pow2, ShiftRight;
    var r := ShiftRemainder(x, n);
    QuotientIs(x, Pow2(n), ShiftRight(x, n), r);
  }

  function Quotient(x: nat, d: nat): nat
    requires d > 0
  {
    x / d
  }

  // The top 32 - shift bits of the product of the four bytes at i, least significant first,
  // with 2654435761 modulo 2^32.
  function TopBits(b: Bytes, i: nat, shift: nat): nat
    requires i + 4 <= |b|
  {
    var b0: int, b1: int, b2: int, b3: int := b[i], b[i + 1], b[i + 2], b[i + 3];
    Quotient((b0 + 0x100 * b1 + 0x1_0000 * b2 + 0x100_0000 * b3) * 2654435761 % 0x1_0000_0000, Pow2(shift))
  }

  /** The bucket of a position is just that. */
  lemma BucketMeans(b: Bytes, i: nat, shift: nat)
    requires i + 4 <= |b|
    ensures Bucket(b, i, shift) == TopBits(b, i, shift)
  {
    hide ShiftRight, Pow2;
    ShiftIsDivision(Key(b, i) * KNUTH_PRIME % TWO_32, shift);
  }

  /** Two positions have the same key if and only if their four bytes are the same. */
  lemma SameKeyIff(a: Bytes, i: nat, b: Bytes, j: nat)
    requires i + 4 <= |a| && j + 4 <= |b|
    ensures Key(a, i) == Key(b, j) <==> a[i..i + 4] == b[j..j + 4]
  {
    var x, y := a[i..i + 4], b[j..j + 4];
    assert x[0] == a[i] && x[1] == a[i + 1] && x[2] == a[i + 2] && x[3] == a[i + 3];
    assert y[0] == b[j] && y[1] == b[j + 1] && y[2] == b[j + 2] && y[3] == b[j + 3];
    if Key(a, i) == Key(b, j) {
      SameDigits(x[0], x[1], x[2], x[3], y[0], y[1], y[2], y[3]);
    }
  }

  lemma SameDigits(a0: int, a1: int, a2: int, a3: int, b0: int, b1: int, b2: int, b3: int)
    requires 0 <= a0 < 0x100 && 0 <= a1 < 0x100 && 0 <= a2 < 0x100 && 0 <= a3 < 0x100
    requires 0 <= b0 < 0x100 && 0 <= b1 < 0x100 && 0 <= b2 < 0x100 && 0 <= b3 < 0x100
    requires a0 + a1 * 0x100 + a2 * 0x1_0000 + a3 * 0x100_0000 == b0 + b1 * 0x100 + b2 * 0x1_0000 + b3 * 0x100_0000
    ensures a0 == b0 && a1 == b1 && a2 == b2 && a3 == b3
  {
    var a, b := a1 + a2 * 0x100 + a3 * 0x1_0000, b1 + b2 * 0x100 + b3 * 0x1_0000;
    assert a0 + 0x100 * a == b0 + 0x100 * b;
    assert a == b;
    var c, d := a2 + a3 * 0x100, b2 + b3 * 0x100;
    assert a1 + 0x100 * c == b1 + 0x100 * d;
    assert c == d;
  }

  // The multiplier has the inverse 244002641 modulo 2^32.
  lemma MultiplierInvertible(d: int, e: int)
    requires -0x1_0000_0000 < d < 0x1_0000_0000 && d * 2654435761 == 0x1_0000_0000 * e
    ensures d == 0
  {
    var t := 244002641 * e - 150801925 * d;
    assert d == 0x1_0000_0000 * t;
  }

  /** Different 32-bit words have different products. */
  lemma ProductInjective(x: nat, y: nat)
    requires x < 0x1_0000_0000 && y < 0x1_0000_0000
    requires x * 2654435761 % 0x1_0000_0000 == y * 2654435761 % 0x1_0000_0000
    ensures x == y
  {
    var a, b := x * 2654435761 / 0x1_0000_0000, y * 2654435761 / 0x1_0000_0000;
    MultiplierInvertible(x - y, a - b);
  }

  /** Different keys have different products, so at most 2^shift keys share a bucket. */
  lemma BucketHoldsFew(b: Bytes, positions: seq<nat>, shift: nat)
    requires forall k :: 0 <= k < |positions| ==> positions[k] + 4 <= |b|
    requires forall k, m :: 0 <= k < m < |positions| ==> Key(b, positions[k]) != Key(b, positions[m])
    requires forall k, m :: 0 <= k < m < |positions| ==>
      Bucket(b, positions[k], shift) == Bucket(b, positions[m], shift)
    ensures |positions| <= Pow2(shift)
  {
    hide Key, Bucket, Pow2;
    var d := Pow2(shift);
    var offsets := seq(|positions|, k requires 0 <= k < |positions| => Product(b, positions, k) % d);
    forall k | 0 <= k < |positions|
      ensures Product(b, positions, k) / d == Bucket(b, positions[k], shift)
    {
      BucketOfProduct(b, positions, k, shift);
    }
    forall k, m | 0 <= k < m < |offsets|
      ensures offsets[k] != offsets[m]
    {
      assert Product(b, positions, k) / d == Product(b, positions, m) / d;
      if offsets[k] == offsets[m] {
        SameProduct(b, positions, k, m, d);
      }
    }
    DistinctBelow(offsets, d);
  }

  function Product(b: Bytes, positions: seq<nat>, k: nat): nat
    requires k < |positions| && positions[k] + 4 <= |b|
  {
    Key(b, positions[k]) * 2654435761 % 0x1_0000_0000
  }

  lemma BucketOfProduct(b: Bytes, positions: seq<nat>, k: nat, shift: nat)
    requires k < |positions| && positions[k] + 4 <= |b|
    ensures Product(b, positions, k) / Pow2(shift) == Bucket(b, positions[k], shift)
  {
    hide Key, ShiftRight, Pow2;
    ShiftIsDivision(Product(b, positions, k), shift);
  }

  lemma SameProduct(b: Bytes, positions: seq<nat>, k: nat, m: nat, d: nat)
    requires k < m < |positions| && positions[k] + 4 <= |b| && positions[m] + 4 <= |b| && d > 0
    requires Product(b, positions, k) / d == Product(b, positions, m) / d
    requires Product(b, positions, k) % d == Product(b, positions, m) % d
    ensures Key(b, positions[k]) == Key(b, positions[m])
  {
    hide Key;
    var x, y := Product(b, positions, k), Product(b, positions, m);
    assert x == d * (x / d) + x % d && y == d * (y / d) + y % d;
    ProductInjective(Key(b, positions[k]), Key(b, positions[m]));
  }

  lemma {:induction false} DistinctBelow(s: seq<nat>, n: nat)
    requires forall k :: 0 <= k < |s| ==> s[k] < n
    requires forall k, m :: 0 <= k < m < |s| ==> s[k] != s[m]
    ensures |s| <= n
  {
    DistinctCount(s);
    SubsetCount(set k | 0 <= k < |s| :: s[k], Below(n));
  }

  ghost function Below(n: nat): (below: set<nat>)
    ensures |below| == n && forall x: nat :: x in below <==> x < n
  {
    if n == 0 then {} else Below(n - 1) + {n - 1}
  }

  lemma {:induction false} DistinctCount(s: seq<nat>)
    requires forall k, m :: 0 <= k < m < |s| ==> s[k] != s[m]
    ensures |set k | 0 <= k < |s| :: s[k]| == |s|
  {
    if s != [] {
      var init, last := s[..|s| - 1], s[|s| - 1];
      DistinctCount(init);
      assert forall k :: 0 <= k < |init| ==> init[k] == s[k];
      assert (set k | 0 <= k < |s| :: s[k]) == (set k | 0 <= k < |init| :: init[k]) + {last};
    }
  }

  lemma SubsetCount<T>(a: set<T>, b: set<T>)
    requires a <= b
    ensures |a| <= |b|
  {
    assert b == a + (b - a);
  }

  /** Without a shift, positions share a bucket only if their four bytes agree; in general,
      equal bytes share a bucket. */
  lemma SameBytesSameBucket(a: Bytes, i: nat, b: Bytes, j: nat, shift: nat)
    requires i + 4 <= |a| && j + 4 <= |b|
    ensures a[i..i + 4] == b[j..j + 4] ==> Bucket(a, i, shift) == Bucket(b, j, shift)
    ensures Bucket(a, i, 0) == Bucket(b, j, 0) ==> a[i..i + 4] == b[j..j + 4]
  {
    hide Key;
    SameKeyIff(a, i, b, j);
    if Bucket(a, i, 0) == Bucket(b, j, 0) {
      ProductInjective(Key(a, i), Key(b, j));
    }
  }
}
