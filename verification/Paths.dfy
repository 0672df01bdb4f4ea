/** Byte strings as file names and paths: the order of directory entries, and how string
    prefixes behave when names contain no slash. */
module Paths {
  import opened Prelude

  // A file name inside a directory.
  predicate ValidName(name: Str) {
    name != [] && SLASH !in name
  }

  predicate ProperPrefix(a: Str, b: Str) {
    a <= b && |a| < |b|
  }

  // Go's < on strings.
  predicate Less(a: Str, b: Str) {
    b != [] && (a == [] || a[0] < b[0] || (a[0] == b[0] && Less(a[1..], b[1..])))
  }

  // a and b agree on their first k bytes, where a ends or has the smaller byte.
  predicate FirstDiffersAt(a: Str, b: Str, k: nat) {
    k <= |a| && k < |b| && a[..k] == b[..k] && (k == |a| || a[k] < b[k])
  }

  lemma AgreeFirst(a: Str, b: Str, k: nat)
    requires k > 0 && FirstDiffersAt(a, b, k)
    ensures a[0] == b[0]
  {
    assert a[..k][0] == a[0] && b[..k][0] == b[0];
  }

  /** The order is that of the first byte that differs, an end coming first. */
  lemma {:induction false} LessMeans(a: Str, b: Str)
    ensures Less(a, b) <==> exists k: nat :: FirstDiffersAt(a, b, k)
  {
    if a == [] {
      assert b != [] ==> FirstDiffersAt(a, b, 0);
    } else if b != [] {
      LessMeans(a[1..], b[1..]);
      if a[0] == b[0] {
        forall k: nat | FirstDiffersAt(a[1..], b[1..], k)
          ensures FirstDiffersAt(a, b, k + 1)
        {
          assert a[..k + 1] == [a[0]] + a[1..][..k] && b[..k + 1] == [b[0]] + b[1..][..k];
        }
        forall k: nat | FirstDiffersAt(a, b, k)
          ensures k > 0 && FirstDiffersAt(a[1..], b[1..], k - 1)
        {
          assert a[1..][..k - 1] == a[..k][1..] && b[1..][..k - 1] == b[..k][1..];
        }
      } else {
        assert a[0] < b[0] ==> FirstDiffersAt(a, b, 0);
        forall k: nat | FirstDiffersAt(a, b, k)
          ensures k == 0
        {
          if k > 0 {
            AgreeFirst(a, b, k);
          }
        }
      }
    }
  }

  lemma {:induction false} LessTransitive(a: Str, b: Str, c: Str)
    requires Less(a, b) && Less(b, c)
    ensures Less(a, c)
  {
    if a != [] && a[0] == b[0] && b[0] == c[0] {
      LessTransitive(a[1..], b[1..], c[1..]);
    }
  }

  lemma {:induction false} LessIrreflexive(a: Str)
    ensures !Less(a, a)
  {
    if a != [] {
      LessIrreflexive(a[1..]);
    }
  }

  lemma {:induction false} LessTotal(a: Str, b: Str)
    ensures Less(a, b) || a == b || Less(b, a)
  {
    if a != [] && b != [] && a[0] == b[0] {
      LessTotal(a[1..], b[1..]);
      assert a == [a[0]] + a[1..] && b == [b[0]] + b[1..];
    }
  }

  lemma {:induction false} PrefixNotGreater(a: Str, b: Str)
    requires a <= b
    ensures !Less(b, a)
  {
    if a != [] {
      PrefixNotGreater(a[1..], b[1..]);
    }
  }

  // Strings that extend a form one interval of the order.
  lemma {:induction false} PrefixBetween(a: Str, b: Str, c: Str)
    requires a <= c && Less(a, b) && Less(b, c)
    ensures a <= b
  {
    if a != [] {
      assert a[0] == b[0] == c[0];
      PrefixBetween(a[1..], b[1..], c[1..]);
    }
  }

  // A path either ends where the name m ends or continues with a slash.
  predicate EndsComponent(s: Str) {
    s == [] || s[0] == SLASH
  }

  // Where p/n reaches beyond p/m it shows what follows p/m.
  lemma NextByte(p: Str, n: Str, m: Str, s: Str)
    requires p + [SLASH] + n <= p + [SLASH] + m + s && |n| > |m|
    ensures s != [] && n[|m|] == s[0]
  {
    var k := |p| + 1;
    var x, y := p + [SLASH] + n, p + [SLASH] + m + s;
    assert x[k + |m|] == n[|m|] && y[k + |m|] == s[0];
  }

  lemma NameBytes(p: Str, n: Str, m: Str, s: Str)
    requires p + [SLASH] + n <= p + [SLASH] + m + s && |n| <= |m|
    ensures n <= m
  {
    var k := |p| + 1;
    var x, y := p + [SLASH] + n, p + [SLASH] + m + s;
    assert forall i :: 0 <= i < |n| ==> n[i] == x[k + i] == y[k + i] == m[i];
  }

  // If p/n starts p/m... and n has no slash, then n starts m.
  lemma NamePrefix(p: Str, n: Str, m: Str, s: Str)
    requires SLASH !in n && EndsComponent(s)
    requires p + [SLASH] + n <= p + [SLASH] + m + s
    ensures n <= m
  {
    if |n| > |m| {
      NextByte(p, n, m, s);
    } else {
      NameBytes(p, n, m, s);
    }
  }

  // If p/n/ starts p/m..., the names are the same.
  lemma NameEqual(p: Str, n: Str, m: Str, s: Str)
    requires SLASH !in n && SLASH !in m && EndsComponent(s)
    requires p + [SLASH] + n + [SLASH] <= p + [SLASH] + m + s
    ensures n == m
  {
    NamePrefix(p, n, m, s);
    assert (n + [SLASH])[..|n|] == n;
    assert p + [SLASH] + (n + [SLASH]) == p + [SLASH] + n + [SLASH];
    if |n| < |m| {
      NameBytes(p, n + [SLASH], m, s);
      SlashInside(n, m);
    }
  }

  lemma SlashInside(n: Str, m: Str)
    requires n + [SLASH] <= m
    ensures SLASH in m
  {
    assert m[|n|] == (n + [SLASH])[|n|];
  }

  // Whatever p/n has as a parent directory is p or starts p.
  lemma UnderChild(p: Str, n: Str, x: Str)
    requires SLASH !in n && x + [SLASH] <= p + [SLASH] + n && x != []
    ensures x == p || ProperPrefix(x, p)
  {
    if |x| > |p| {
      SlashInName(p, n, x);
    } else {
      var y := p + [SLASH] + n;
      assert forall i :: 0 <= i < |x| ==> x[i] == (x + [SLASH])[i] == y[i] == p[i];
    }
  }

  lemma SlashInName(p: Str, n: Str, x: Str)
    requires x + [SLASH] <= p + [SLASH] + n && |x| > |p|
    ensures SLASH in n
  {
    var k := |x| - |p| - 1;
    assert n[k] == (p + [SLASH] + n)[|x|] == (x + [SLASH])[|x|];
  }
}
