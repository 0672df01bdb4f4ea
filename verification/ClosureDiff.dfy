/** Which store paths are sent (internal/cmd/dnar-pack/main.go), and why importing them in
    order never leaves a dangling reference. */
module ClosureDiff {
  import opened Prelude
  import opened Paths

  // ---------------------------------------------------------------------------
  // Sorting and searching
  // ---------------------------------------------------------------------------

  ghost predicate Ordered(s: seq<Str>) {
    forall i, j :: 0 <= i < j < |s| ==> !Less(s[j], s[i])
  }

  function Insert(x: Str, s: seq<Str>): seq<Str> {
    if s == [] || !Less(s[0], x) then [x] + s else [s[0]] + Insert(x, s[1..])
  }

  // slices.Sort; equal strings are indistinguishable, so its result is this one.
  function Sorted(s: seq<Str>): seq<Str> {
    if s == [] then [] else Insert(s[0], Sorted(s[1..]))
  }

  lemma {:induction false} InsertMembers(x: Str, s: seq<Str>)
    ensures forall y :: y in Insert(x, s) <==> y == x || y in s
  {
    if s != [] && Less(s[0], x) {
      InsertMembers(x, s[1..]);
      assert s == [s[0]] + s[1..];
    }
  }

  lemma {:induction false} SortedMembers(s: seq<Str>)
    ensures forall y :: y in Sorted(s) <==> y in s
  {
    if s != [] {
      SortedMembers(s[1..]);
      InsertMembers(s[0], Sorted(s[1..]));
      assert s == [s[0]] + s[1..];
    }
  }

  // Nothing in s is below x.
  /** Sorting is a permutation. */
  lemma {:induction false} SortedPermutes(s: seq<Str>)
    ensures multiset(Sorted(s)) == multiset(s)
  {
    if s != [] {
      SortedPermutes(s[1..]);
      InsertPermutes(s[0], Sorted(s[1..]));
      assert s == [s[0]] + s[1..];
    }
  }

  lemma {:induction false} InsertPermutes(x: Str, s: seq<Str>)
    ensures multiset(Insert(x, s)) == multiset(s) + multiset{x}
  {
    if s != [] {
      assert s == [s[0]] + s[1..];
      InsertPermutes(x, s[1..]);
    }
  }

  ghost predicate NotBelow(x: Str, s: seq<Str>) {
    forall y :: y in s ==> !Less(y, x)
  }

  lemma OrderedCons(x: Str, s: seq<Str>)
    requires Ordered(s) && NotBelow(x, s)
    ensures Ordered([x] + s)
  {
    var t := [x] + s;
    forall i, j | 0 <= i < j < |t|
      ensures !Less(t[j], t[i])
    {
      assert t[j] == s[j - 1];
      if i > 0 {
        assert t[i] == s[i - 1];
      }
    }
  }

  lemma OrderedTail(s: seq<Str>)
    requires s != [] && Ordered(s)
    ensures Ordered(s[1..]) && NotBelow(s[0], s[1..])
  {
    forall y | y in s[1..]
      ensures !Less(y, s[0])
    {
      var k :| 0 <= k < |s[1..]| && s[1..][k] == y;
      assert s[k + 1] == y;
    }
  }

  // !Less is transitive, since Less is a total order.
  lemma NotLessTransitive(x: Str, y: Str, z: Str)
    requires !Less(y, x) && !Less(z, y)
    ensures !Less(z, x)
  {
    LessTotal(y, z);
    if Less(z, x) {
      if y != z {
        LessTransitive(y, z, x);
      }
    }
  }

  lemma {:induction false} InsertOrdered(x: Str, s: seq<Str>)
    requires Ordered(s)
    ensures Ordered(Insert(x, s))
  {
    if s == [] {
    } else if !Less(s[0], x) {
      OrderedTail(s);
      forall y | y in s
        ensures !Less(y, x)
      {
        if y != s[0] {
          assert y in s[1..];
          NotLessTransitive(x, s[0], y);
        }
      }
      OrderedCons(x, s);
    } else {
      OrderedTail(s);
      InsertOrdered(x, s[1..]);
      InsertMembers(x, s[1..]);
      LessTotal(s[0], x);
      LessAsymmetric(s[0], x);
      OrderedCons(s[0], Insert(x, s[1..]));
    }
  }

  lemma LessAsymmetric(a: Str, b: Str)
    requires Less(a, b)
    ensures !Less(b, a)
  {
    if Less(b, a) {
      LessTransitive(a, b, a);
      LessIrreflexive(a);
    }
  }

  lemma {:induction false} SortedOrdered(s: seq<Str>)
    ensures Ordered(Sorted(s))
  {
    if s != [] {
      SortedOrdered(s[1..]);
      InsertOrdered(s[0], Sorted(s[1..]));
    }
  }

  // slices.BinarySearch.
  method BinarySearch(s: array<Str>, target: Str) returns (pos: nat, found: bool)
    requires Ordered(s[..])
    ensures pos <= s.Length && found == (pos < s.Length && s[pos] == target)
    ensures found <==> target in s[..]
    ensures forall k :: 0 <= k < s.Length ==> (Less(s[k], target) <==> k < pos)
  {
    var i, j := 0, s.Length;
    while i < j
      invariant 0 <= i <= j <= s.Length
      invariant forall k :: 0 <= k < i ==> Less(s[k], target)
      invariant forall k :: j <= k < s.Length ==> !Less(s[k], target)
    {
      var h := (i + j) / 2;
      if Less(s[h], target) {
        forall k | 0 <= k <= h
          ensures Less(s[k], target)
        {
          BelowPivot(s[..], k, h, target);
        }
        i := h + 1;
      } else {
        forall k | h <= k < s.Length
          ensures !Less(s[k], target)
        {
          AbovePivot(s[..], h, k, target);
        }
        j := h;
      }
    }
    pos, found := i, i < s.Length && s[i] == target;
    if target in s[..] {
      var k :| 0 <= k < s.Length && s[k] == target;
      LessIrreflexive(target);
      assert i <= k;
      assert !Less(s[..][k], s[..][i]) || i == k;
      LessTotal(s[i], target);
    }
  }

  lemma BelowPivot(s: seq<Str>, k: nat, h: nat, target: Str)
    requires Ordered(s) && k <= h < |s| && Less(s[h], target)
    ensures Less(s[k], target)
  {
    if k < h {
      LessTotal(s[k], s[h]);
      if s[k] != s[h] {
        LessTransitive(s[k], s[h], target);
      }
    }
  }

  lemma AbovePivot(s: seq<Str>, h: nat, k: nat, target: Str)
    requires Ordered(s) && h <= k < |s| && !Less(s[h], target)
    ensures !Less(s[k], target)
  {
    if h < k {
      NotLessTransitive(target, s[h], s[k]);
    }
  }

  method SortInPlace(a: array<Str>)
    modifies a
    ensures a[..] == Sorted(old(a[..]))
  {
    var s := Sorted(a[..]);
    SortedLength(a[..]);
    for i := 0 to a.Length
      invariant a[..i] == s[..i]
    {
      a[i] := s[i];
    }
    assert a[..a.Length] == a[..] && s[..a.Length] == s;
  }

  lemma {:induction false} InsertLength(x: Str, s: seq<Str>)
    ensures |Insert(x, s)| == |s| + 1
  {
    if s != [] && Less(s[0], x) {
      InsertLength(x, s[1..]);
    }
  }

  lemma {:induction false} SortedLength(s: seq<Str>)
    ensures |Sorted(s)| == |s|
  {
    if s != [] {
      SortedLength(s[1..]);
      InsertLength(s[0], Sorted(s[1..]));
    }
  }

  // ---------------------------------------------------------------------------
  // The difference
  // ---------------------------------------------------------------------------

  // The paths of deploy, in their order, that are not in local.
  function Missing(deploy: seq<Str>, local: set<Str>): seq<Str> {
    if deploy == [] then [] else
      var last := deploy[|deploy| - 1];
      Missing(deploy[..|deploy| - 1], local) + (if last in local then [] else [last])
  }

  function NotIn(local: set<Str>): Str -> bool {
    (p: Str) => p !in local
  }

  /** What is missing stands at exactly the positions of deploy whose paths are not local, in
      their order. */
  lemma {:induction false} MissingSelected(deploy: seq<Str>, local: set<Str>) returns (pos: seq<nat>)
    ensures Selected(deploy, NotIn(local), Missing(deploy, local), pos)
  {
    if deploy == [] {
      pos := [];
    } else {
      var init, last := deploy[..|deploy| - 1], deploy[|deploy| - 1];
      pos := MissingSelected(init, local);
      var rows := Missing(init, local);
      assert init + [last] == deploy;
      if last in local {
        SelectedSkip(init, NotIn(local), rows, pos, last);
        assert rows + [] == rows;
      } else {
        SelectedKeep(init, NotIn(local), rows, pos, last);
        pos := pos + [|init|];
      }
    }
  }

  /** Sorting a copy and searching it is an order-preserving set difference. */
  method NewStorePaths(local: seq<Str>, deploy: seq<Str>) returns (newStorePaths: seq<Str>)
    ensures newStorePaths == Missing(deploy, set p | p in local)
  {
    var existing := new Str[|local|](i requires 0 <= i < |local| => local[i]);
    assert existing[..] == local;
    SortInPlace(existing);
    SortedOrdered(local);
    SortedMembers(local);
    newStorePaths := [];
    for k := 0 to |deploy|
      invariant existing[..] == Sorted(local)
      invariant newStorePaths == Missing(deploy[..k], set p | p in local)
    {
      assert deploy[..k + 1][..k] == deploy[..k];
      var _, found := BinarySearch(existing, deploy[k]);
      if !found {
        newStorePaths := newStorePaths + [deploy[k]];
      }
    }
    assert deploy[..|deploy|] == deploy;
  }

  // ---------------------------------------------------------------------------
  // Import safety
  // ---------------------------------------------------------------------------

  // What each store path refers to.
  type References = Str -> set<Str>

  ghost predicate Closed(paths: set<Str>, refs: References) {
    forall p :: p in paths ==> refs(p) <= paths
  }

  // nix-store --query --requisites lists every path after what it refers to, itself aside.
  ghost predicate ReferencesFirst(deploy: seq<Str>, refs: References) {
    forall i, r :: 0 <= i < |deploy| && r in refs(deploy[i]) ==> r == deploy[i] || r in deploy[..i]
  }

  function Members(s: seq<Str>): set<Str> {
    set p | p in s
  }

  lemma {:induction false} MissingMembers(deploy: seq<Str>, local: set<Str>)
    ensures forall p :: p in Missing(deploy, local) <==> p in deploy && p !in local
  {
    if deploy != [] {
      var init, last := deploy[..|deploy| - 1], deploy[|deploy| - 1];
      MissingMembers(init, local);
      assert deploy == init + [last];
    }
  }

  // Every prefix of the difference is the difference of a prefix.
  lemma {:induction false} MissingPrefix(deploy: seq<Str>, local: set<Str>, k: nat) returns (m: nat)
    requires k <= |Missing(deploy, local)|
    ensures m <= |deploy| && Missing(deploy[..m], local) == Missing(deploy, local)[..k]
  {
    if k == |Missing(deploy, local)| {
      m := |deploy|;
      assert deploy[..m] == deploy;
      assert Missing(deploy, local)[..k] == Missing(deploy, local);
    } else {
      var init := deploy[..|deploy| - 1];
      m := MissingPrefix(init, local, k);
      assert init[..m] == deploy[..m];
    }
  }

  lemma PrefixClosed(deploy: seq<Str>, local: set<Str>, refs: References, m: nat)
    requires Closed(local, refs) && ReferencesFirst(deploy, refs) && m <= |deploy|
    ensures Closed(local + Members(Missing(deploy[..m], local)), refs)
  {
    var all := local + Members(Missing(deploy[..m], local));
    MissingMembers(deploy[..m], local);
    forall p, r | p in all && r in refs(p)
      ensures r in all
    {
      if p !in local {
        var i :| 0 <= i < m && deploy[i] == p;
        if r != p {
          assert r in deploy[..i];
          var j :| 0 <= j < i && deploy[j] == r;
          assert deploy[..m][j] == r;
        }
      }
    }
  }

  /** Import safety: after every prefix of the exported paths, the paths on the target refer
      only to paths on the target. */
  lemma ImportSafe(deploy: seq<Str>, local: set<Str>, refs: References, k: nat)
    requires Closed(local, refs) && ReferencesFirst(deploy, refs) && k <= |Missing(deploy, local)|
    ensures Closed(local + Members(Missing(deploy, local)[..k]), refs)
    ensures forall p, r :: (p in local || p in Missing(deploy, local)[..k]) && r in refs(p) ==>
      r in local || r in Missing(deploy, local)[..k]
  {
    var m := MissingPrefix(deploy, local, k);
    PrefixClosed(deploy, local, refs, m);
  }

  /** And in the end everything that was to be deployed is there. */
  lemma ImportComplete(deploy: seq<Str>, local: set<Str>)
    ensures Members(deploy) <= local + Members(Missing(deploy, local))
    ensures Members(Missing(deploy, local)) == Members(deploy) - local
  {
    MissingMembers(deploy, local);
  }
}
