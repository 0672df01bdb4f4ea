/** The packer skips what lies in a directory that was matched in full, with one variable
    and a string-prefix test (internal/cmd/dnar-pack/dnar.go), and the unpacker walks the
    matched directory instead (internal/cmd/dnar-unpack/write.go). What the test drops, and
    exactly when walking brings the whole listing back. */
module DirectorySkip {
  import opened Prelude
  import opened Paths
  import opened Tree

  // A directory whose hash was found on the target; matched holds such paths.
  predicate Matched(e: Entry, matched: set<Str>) {
    e.node.Directory? && e.path in matched
  }

  // ---------------------------------------------------------------------------
  // The state machine
  // ---------------------------------------------------------------------------

  predicate Skips(recursiveDir: Str, path: Str) {
    recursiveDir != [] && recursiveDir <= path
  }

  // recursiveDir after the first i entries.
  function RecursiveDir(l: seq<Entry>, matched: set<Str>, i: nat): Str
    requires i <= |l|
  {
    if i == 0 then [] else
      var dir := RecursiveDir(l, matched, i - 1);
      if !Skips(dir, l[i - 1].path) && Matched(l[i - 1], matched) then l[i - 1].path else dir
  }

  // The entries among the first i that the loop does not skip.
  function Kept(l: seq<Entry>, matched: set<Str>, i: nat): seq<Entry>
    requires i <= |l|
  {
    if i == 0 then []
    else if Skips(RecursiveDir(l, matched, i - 1), l[i - 1].path) then Kept(l, matched, i - 1)
    else Kept(l, matched, i - 1) + [l[i - 1]]
  }

  lemma StateStep(l: seq<Entry>, matched: set<Str>, i: nat)
    requires i < |l|
    ensures
      var dir := RecursiveDir(l, matched, i);
      if Skips(dir, l[i].path) then
        RecursiveDir(l, matched, i + 1) == dir && Kept(l, matched, i + 1) == Kept(l, matched, i)
      else
        && RecursiveDir(l, matched, i + 1) == (if Matched(l[i], matched) then l[i].path else dir)
        && Kept(l, matched, i + 1) == Kept(l, matched, i) + [l[i]]
  {
  }

  // ---------------------------------------------------------------------------
  // What it drops, without the state
  // ---------------------------------------------------------------------------

  ghost predicate DroppedBy(l: seq<Entry>, matched: set<Str>, path: Str, k: nat)
    requires k < |l|
  {
    Matched(l[k], matched) && ProperPrefix(l[k].path, path)
  }

  // path properly extends the path of some matched directory.
  ghost predicate Dropped(l: seq<Entry>, matched: set<Str>, path: Str) {
    exists k :: 0 <= k < |l| && DroppedBy(l, matched, path, k)
  }

  // The entries of s that extend no matched directory of l.
  ghost function Survivors(l: seq<Entry>, matched: set<Str>, s: seq<Entry>): seq<Entry> {
    if s == [] then [] else
      var init, last := s[..|s| - 1], s[|s| - 1];
      Survivors(l, matched, init) + (if Dropped(l, matched, last.path) then [] else [last])
  }

  ghost predicate NoEmptyPath(l: seq<Entry>) {
    forall k :: 0 <= k < |l| ==> l[k].path != []
  }

  // The variable always names a matched directory seen before.
  lemma {:induction false} RecursiveDirSource(l: seq<Entry>, matched: set<Str>, i: nat) returns (j: nat)
    requires i <= |l| && RecursiveDir(l, matched, i) != []
    ensures j < i && Matched(l[j], matched) && l[j].path == RecursiveDir(l, matched, i)
  {
    if RecursiveDir(l, matched, i) == RecursiveDir(l, matched, i - 1) {
      j := RecursiveDirSource(l, matched, i - 1);
    } else {
      j := i - 1;
    }
  }

  // Inside the block after a matched directory the variable holds a prefix of its path.
  lemma {:induction false} RecursiveDirInBlock(l: seq<Entry>, matched: set<Str>, k: nat, i: nat)
    requires k < i <= |l| && Matched(l[k], matched) && l[k].path != []
    requires forall m :: k <= m < i ==> l[k].path <= l[m].path
    ensures Skips(RecursiveDir(l, matched, i), l[k].path)
  {
    if k + 1 < i {
      RecursiveDirInBlock(l, matched, k, i - 1);
      assert l[k].path <= l[i - 1].path;
    }
  }

  lemma SkipsIffDropped(l: seq<Entry>, matched: set<Str>, i: nat)
    requires Blocks(l) && i < |l| && NoEmptyPath(l)
    ensures Skips(RecursiveDir(l, matched, i), l[i].path) <==> Dropped(l, matched, l[i].path)
  {
    if Skips(RecursiveDir(l, matched, i), l[i].path) {
      var j := RecursiveDirSource(l, matched, i);
      assert l[j].path <= l[i].path && !(l[i].path <= l[j].path);
      assert DroppedBy(l, matched, l[i].path, j);
    }
    if Dropped(l, matched, l[i].path) {
      var k :| 0 <= k < |l| && DroppedBy(l, matched, l[i].path, k);
      assert l[k].path <= l[i].path;
      assert forall m :: k <= m < i ==> l[k].path <= l[m].path;
      RecursiveDirInBlock(l, matched, k, i);
    }
  }

  lemma SurvivorsSnoc(l: seq<Entry>, matched: set<Str>, s: seq<Entry>, e: Entry)
    ensures Survivors(l, matched, s + [e]) ==
      if Dropped(l, matched, e.path) then Survivors(l, matched, s) else Survivors(l, matched, s) + [e]
  {
    hide Dropped;
    assert (s + [e])[..|s|] == s;
    assert Survivors(l, matched, s) + [] == Survivors(l, matched, s);
  }

  lemma NothingKept(l: seq<Entry>, matched: set<Str>)
    ensures Kept(l, matched, 0) == Survivors(l, matched, l[..0])
  {
  }

  lemma {:induction false} KeptIsSurvivors(l: seq<Entry>, matched: set<Str>, i: nat)
    requires Blocks(l) && i <= |l| && NoEmptyPath(l)
    ensures Kept(l, matched, i) == Survivors(l, matched, l[..i])
  {
    hide Skips, Dropped, Blocks, RecursiveDir, NoEmptyPath, Kept, Survivors;
    if i == 0 {
      NothingKept(l, matched);
    } else {
      KeptIsSurvivors(l, matched, i - 1);
      SkipsIffDropped(l, matched, i - 1);
      StateStep(l, matched, i - 1);
      SurvivorsSnoc(l, matched, l[..i - 1], l[i - 1]);
      assert l[..i] == l[..i - 1] + [l[i - 1]];
    }
  }

  lemma {:induction false} ListingPathsNonempty(root: Node, k: nat)
    requires k < |Listing(root)|
    ensures Listing(root)[k].path != []
  {
    if k > 0 {
      var j := ListAllWithin([], root.entries, k - 1);
      var s := WithinChild([], root.entries[j].name, Listing(root)[k].path);
    }
  }

  lemma ListingNoEmptyPath(root: Node)
    ensures NoEmptyPath(Listing(root))
  {
    forall k | 0 <= k < |Listing(root)|
      ensures Listing(root)[k].path != []
    {
      ListingPathsNonempty(root, k);
    }
  }

  /** Over the listing of every tree, whatever was matched, the one-variable skip keeps, in
      order, exactly the entries whose path properly extends no matched directory's path. */
  lemma SkipIsExact(root: Node, matched: set<Str>)
    requires ValidNode(root)
    ensures
      var l := Listing(root);
      Kept(l, matched, |l|) == Survivors(l, matched, l)
  {
    var l := Listing(root);
    ListingBlocks(root);
    ListingNoEmptyPath(root);
    KeptIsSurvivors(l, matched, |l|);
    assert l[..|l|] == l;
  }

  // ---------------------------------------------------------------------------
  // Walking the matched directories
  // ---------------------------------------------------------------------------

  // What the unpacker writes for a kept entry whose directory, if matched, is the same on
  // the target: the walk of that directory, with its paths put under the entry's path.
  function Unfold(e: Entry, matched: set<Str>): seq<Entry> {
    if Matched(e, matched) then List(e.path, e.node) else [e]
  }

  function UnfoldAll(s: seq<Entry>, matched: set<Str>): seq<Entry> {
    if s == [] then [] else UnfoldAll(s[..|s| - 1], matched) + Unfold(s[|s| - 1], matched)
  }

  // Unfolding the k-th entry writes this path.
  ghost predicate FromEntry(l: seq<Entry>, matched: set<Str>, k: nat, path: Str)
    requires k < |l|
  {
    path == l[k].path || (Matched(l[k], matched) && l[k].path + [SLASH] <= path)
  }

  // Unfolding some of the first i entries does.
  ghost predicate From(l: seq<Entry>, matched: set<Str>, i: nat, path: Str)
    requires i <= |l|
  {
    exists k :: 0 <= k < i && FromEntry(l, matched, k, path)
  }

  // An entry that is not skipped has a path that no entry before it can have written.
  lemma KeptPathIsNew(l: seq<Entry>, matched: set<Str>, i: nat)
    requires Blocks(l) && NoEmptyPath(l) && i < |l| && !Skips(RecursiveDir(l, matched, i), l[i].path)
    ensures !From(l, matched, i, l[i].path)
  {
    hide RecursiveDir, Skips, Dropped, NoEmptyPath;
    SkipsIffDropped(l, matched, i);
    if From(l, matched, i, l[i].path) {
      var k :| 0 <= k < i && FromEntry(l, matched, k, l[i].path);
      KeptApart(l, matched, i, k);
    }
  }

  lemma KeptApart(l: seq<Entry>, matched: set<Str>, i: nat, k: nat)
    requires Blocks(l) && k < i < |l| && !Dropped(l, matched, l[i].path)
    ensures !FromEntry(l, matched, k, l[i].path)
  {
    assert !DroppedBy(l, matched, l[i].path, k);
    assert l[i].path <= l[k].path ==> i <= k;
  }

  lemma {:induction false} UnfoldedFrom(l: seq<Entry>, matched: set<Str>, i: nat, x: Entry)
    requires i <= |l| && x in UnfoldAll(Kept(l, matched, i), matched)
    ensures From(l, matched, i, x.path)
  {
    hide RecursiveDir, Skips, Unfold;
    StateStep(l, matched, i - 1);
    var before := Kept(l, matched, i - 1);
    assert (before + [l[i - 1]])[..|before|] == before;
    if x in UnfoldAll(before, matched) {
      UnfoldedFrom(l, matched, i - 1, x);
      var k :| 0 <= k < i - 1 && FromEntry(l, matched, k, x.path);
      assert FromEntry(l, matched, k, x.path);
    } else {
      UnfoldPaths(l, matched, i - 1, x);
    }
  }

  lemma UnfoldPaths(l: seq<Entry>, matched: set<Str>, k: nat, x: Entry)
    requires k < |l| && x in Unfold(l[k], matched)
    ensures FromEntry(l, matched, k, x.path)
  {
    if Matched(l[k], matched) {
      var m :| 0 <= m < |List(l[k].path, l[k].node)| && List(l[k].path, l[k].node)[m] == x;
      ListWithin(l[k].path, l[k].node, m);
    }
  }

  // Everything a kept matched directory drops really lies below it. This is what a sibling
  // whose name extends the directory's name breaks, and what a match on "/" breaks.
  ghost predicate OnlyDescendants(l: seq<Entry>, matched: set<Str>) {
    forall k, i :: 0 <= k < |l| && 0 <= i < |l| && KeptMatch(l, matched, k) && ProperPrefix(l[k].path, l[i].path) ==>
      l[k].path + [SLASH] <= l[i].path
  }

  // A matched directory that no other one drops.
  ghost predicate KeptMatch(l: seq<Entry>, matched: set<Str>, k: nat)
    requires k < |l|
  {
    Matched(l[k], matched) && !Dropped(l, matched, l[k].path)
  }

  ghost function Rebuilt(l: seq<Entry>, matched: set<Str>, s: seq<Entry>): seq<Entry> {
    UnfoldAll(Survivors(l, matched, s), matched)
  }

  lemma RebuiltEmpty(l: seq<Entry>, matched: set<Str>)
    ensures Rebuilt(l, matched, []) == []
  {
  }

  lemma RebuiltSnoc(l: seq<Entry>, matched: set<Str>, s: seq<Entry>, e: Entry)
    ensures Rebuilt(l, matched, s + [e]) ==
      Rebuilt(l, matched, s) + (if Dropped(l, matched, e.path) then [] else Unfold(e, matched))
  {
    SurvivorsSnoc(l, matched, s, e);
    var v := Survivors(l, matched, s);
    assert (v + [e])[..|v|] == v;
  }

  lemma {:induction false} RebuiltConcat(l: seq<Entry>, matched: set<Str>, a: seq<Entry>, b: seq<Entry>)
    ensures Rebuilt(l, matched, a + b) == Rebuilt(l, matched, a) + Rebuilt(l, matched, b)
  {
    hide Rebuilt, Unfold, Dropped;
    if b == [] {
      assert a + b == a;
      RebuiltEmpty(l, matched);
    } else {
      var init, last := b[..|b| - 1], b[|b| - 1];
      RebuiltConcat(l, matched, a, init);
      RebuiltSnoc(l, matched, init, last);
      RebuiltSnoc(l, matched, a + init, last);
      assert init + [last] == b && (a + init) + [last] == a + b;
    }
  }

  lemma RebuiltOne(l: seq<Entry>, matched: set<Str>, e: Entry)
    requires !Dropped(l, matched, e.path)
    ensures Rebuilt(l, matched, [e]) == Unfold(e, matched)
  {
    RebuiltEmpty(l, matched);
    RebuiltSnoc(l, matched, [], e);
    assert [] + [e] == [e];
  }

  lemma {:induction false} AllDropped(l: seq<Entry>, matched: set<Str>, s: seq<Entry>)
    requires forall k :: 0 <= k < |s| ==> Dropped(l, matched, s[k].path)
    ensures Rebuilt(l, matched, s) == []
  {
    if s != [] {
      AllDropped(l, matched, s[..|s| - 1]);
      RebuiltSnoc(l, matched, s[..|s| - 1], s[|s| - 1]);
      assert s[..|s| - 1] + [s[|s| - 1]] == s;
    }
  }

  // Among the directories that drop a path, the outermost one is itself kept.
  lemma {:induction false} Outermost(l: seq<Entry>, matched: set<Str>, path: Str, k: nat) returns (o: nat)
    requires k < |l| && DroppedBy(l, matched, path, k)
    ensures o < |l| && DroppedBy(l, matched, path, o) && !Dropped(l, matched, l[o].path)
    decreases |l[k].path|
  {
    if Dropped(l, matched, l[k].path) {
      var j :| 0 <= j < |l| && DroppedBy(l, matched, l[k].path, j);
      o := Outermost(l, matched, path, j);
    } else {
      o := k;
    }
  }

  ghost predicate Includes(l: seq<Entry>, s: seq<Entry>) {
    forall k :: 0 <= k < |s| ==> s[k] in l
  }

  lemma IncludedAt(l: seq<Entry>, s: seq<Entry>, k: nat) returns (i: nat)
    requires Includes(l, s) && k < |s|
    ensures i < |l| && l[i] == s[k]
  {
    assert s[k] in l;
    i :| 0 <= i < |l| && l[i] == s[k];
  }

  lemma IncludesParts(l: seq<Entry>, a: seq<Entry>, b: seq<Entry>)
    requires Includes(l, a + b)
    ensures Includes(l, a) && Includes(l, b)
  {
    assert forall k :: 0 <= k < |a| ==> a[k] == (a + b)[k];
    assert forall k :: 0 <= k < |b| ==> b[k] == (a + b)[|a| + k];
  }

  ghost predicate NoMatchAt(l: seq<Entry>, matched: set<Str>, p: Str) {
    forall k :: 0 <= k < |l| && l[k].path == p ==> !Matched(l[k], matched)
  }

  // Paths are distinct.
  lemma OnlyMatchAt(l: seq<Entry>, matched: set<Str>, i: nat)
    requires Blocks(l) && i < |l| && !Matched(l[i], matched)
    ensures NoMatchAt(l, matched, l[i].path)
  {
    assert forall k :: 0 <= k < |l| && l[k].path == l[i].path ==> k <= i && i <= k;
  }

  // Whatever drops a child of p is p itself or drops p too.
  lemma ChildDropper(l: seq<Entry>, matched: set<Str>, p: Str, name: Str, i: nat, k: nat)
    requires OnlyDescendants(l, matched) && ValidName(name)
    requires i < |l| && l[i].path == Child(p, name)
    requires k < |l| && DroppedBy(l, matched, Child(p, name), k) && l[k].path != []
    requires !Dropped(l, matched, l[k].path)
    ensures l[k].path == p || DroppedBy(l, matched, p, k)
  {
    assert KeptMatch(l, matched, k);
    UnderChild(p, name, l[k].path);
  }

  // The children of a kept directory that was not matched are kept.
  lemma ChildKept(l: seq<Entry>, matched: set<Str>, p: Str, name: Str, i: nat)
    requires OnlyDescendants(l, matched) && ValidName(name)
    requires NoEmptyPath(l)
    requires i < |l| && l[i].path == Child(p, name)
    requires !Dropped(l, matched, p)
    requires NoMatchAt(l, matched, p)
    ensures !Dropped(l, matched, Child(p, name))
  {
    if Dropped(l, matched, Child(p, name)) {
      var k :| 0 <= k < |l| && DroppedBy(l, matched, Child(p, name), k);
      var o := Outermost(l, matched, Child(p, name), k);
      ChildDropper(l, matched, p, name, i, o);
    }
  }

  // Everything below a matched directory is dropped.
  lemma BelowDropped(l: seq<Entry>, matched: set<Str>, i: nat, p: Str, n: Node, k: nat)
    requires i < |l| && Matched(l[i], matched) && n.Directory? && k < |Below(p, n)|
    requires ValidEntries(n.entries)
    requires l[i].path == p || (p == [] && l[i].path == [SLASH])
    ensures Dropped(l, matched, Below(p, n)[k].path)
  {
    var j := ListAllWithin(p, n.entries, k);
    var s := WithinChild(p, n.entries[j].name, Below(p, n)[k].path);
    NamesFollow(n.entries, j);
    assert DroppedBy(l, matched, Below(p, n)[k].path, i);
  }

  lemma MatchedRebuilt(l: seq<Entry>, matched: set<Str>, i: nat, p: Str, n: Node)
    requires i < |l| && Matched(l[i], matched) && !Dropped(l, matched, l[i].path) && l[i].node == n
    requires ValidNode(n) && (l[i].path == p || (p == [] && l[i].path == [SLASH]))
    ensures Rebuilt(l, matched, [l[i]] + Below(p, n)) == List(l[i].path, n)
  {
    hide Rebuilt, Dropped;
    forall k | 0 <= k < |Below(p, n)|
      ensures Dropped(l, matched, Below(p, n)[k].path)
    {
      BelowDropped(l, matched, i, p, n, k);
    }
    AllDropped(l, matched, Below(p, n));
    RebuiltConcat(l, matched, [l[i]], Below(p, n));
    RebuiltOne(l, matched, l[i]);
  }

  lemma {:induction false} RebuiltList(l: seq<Entry>, matched: set<Str>, p: Str, n: Node)
    requires Blocks(l) && OnlyDescendants(l, matched) && ValidNode(n)
    requires NoEmptyPath(l)
    requires Includes(l, List(p, n)) && !Dropped(l, matched, p)
    ensures Rebuilt(l, matched, List(p, n)) == List(p, n)
    decreases n, 1
  {
    hide Rebuilt, Dropped, OnlyDescendants, UnfoldAll, Blocks, Includes, NoMatchAt, NoEmptyPath;
    var e, below := Entry(p, n), Below(p, n);
    var i := IncludedAt(l, List(p, n), 0);
    if Matched(e, matched) {
      MatchedRebuilt(l, matched, i, p, n);
    } else {
      RebuiltConcat(l, matched, [e], below);
      RebuiltOne(l, matched, e);
      if n.Directory? {
        IncludesParts(l, [e], below);
        OnlyMatchAt(l, matched, i);
        RebuiltAll(l, matched, p, n.entries);
      } else {
        RebuiltEmpty(l, matched);
      }
    }
  }

  lemma {:induction false} RebuiltAll(l: seq<Entry>, matched: set<Str>, p: Str, es: seq<DirEntry>)
    requires Blocks(l) && OnlyDescendants(l, matched) && ValidEntries(es)
    requires NoEmptyPath(l)
    requires Includes(l, ListAll(p, es)) && !Dropped(l, matched, p)
    requires NoMatchAt(l, matched, p)
    ensures Rebuilt(l, matched, ListAll(p, es)) == ListAll(p, es)
    decreases es, 0
  {
    hide Rebuilt, Dropped, OnlyDescendants, UnfoldAll, Blocks, Includes, NoMatchAt, NoEmptyPath;
    if es == [] {
      RebuiltEmpty(l, matched);
    } else {
      var c := Child(p, es[0].name);
      var first, rest := List(c, es[0].node), ListAll(p, es[1..]);
      var i := IncludedAt(l, ListAll(p, es), 0);
      IncludesParts(l, first, rest);
      ChildKept(l, matched, p, es[0].name, i);
      RebuiltList(l, matched, c, es[0].node);
      RebuiltAll(l, matched, p, es[1..]);
      RebuiltConcat(l, matched, first, rest);
    }
  }

  lemma FirstChild(p: Str, n: Node)
    requires n.Directory? && n.entries != []
    ensures Below(p, n) != [] && Below(p, n)[0].path == Child(p, n.entries[0].name)
  {
    var first := List(Child(p, n.entries[0].name), n.entries[0].node);
    assert ListAll(p, n.entries) == first + ListAll(p, n.entries[1..]);
  }

  // A match on "/" drops every other entry, and none of them starts with "//".
  lemma RootMatchLoses(root: Node, matched: set<Str>)
    requires ValidNode(root) && Matched(Entry([SLASH], root), matched)
    requires !Dropped(Listing(root), matched, [SLASH]) && root.entries != []
    ensures !OnlyDescendants(Listing(root), matched)
  {
    var l := Listing(root);
    FirstChild([], root);
    assert l[1] == Below([], root)[0];
    assert KeptMatch(l, matched, 0) && ProperPrefix(l[0].path, l[1].path);
    var x := [SLASH] + [SLASH];
    assert l[0].path + [SLASH] == x && x[1] == SLASH && l[1].path[1] == root.entries[0].name[0];
    assert !(x <= l[1].path);
  }

  lemma RootKept(root: Node, matched: set<Str>)
    requires ValidNode(root)
    ensures !Dropped(Listing(root), matched, [SLASH])
  {
    var l := Listing(root);
    forall k | 0 <= k < |l|
      ensures !ProperPrefix(l[k].path, [SLASH])
    {
      ListingPathsNonempty(root, k);
    }
  }

  lemma LeafListing(p: Str, n: Node)
    requires n.Directory? ==> n.entries == []
    ensures List(p, n) == [Entry(p, n)]
  {
    assert Below(p, n) == [];
    assert [Entry(p, n)] + [] == [Entry(p, n)];
  }

  lemma TwoLeaves(a: DirEntry, b: DirEntry)
    requires a.node.Directory? ==> a.node.entries == []
    requires b.node.Directory? ==> b.node.entries == []
    ensures ListAll([], [a, b]) == [Entry(Child([], a.name), a.node), Entry(Child([], b.name), b.node)]
  {
    LeafListing(Child([], a.name), a.node);
    LeafListing(Child([], b.name), b.node);
    assert [a, b][1..] == [b] && [b][1..] == [];
    assert ListAll([], [b]) == List(Child([], b.name), b.node) + ListAll([], []);
    assert ListAll([], [a, b]) == List(Child([], a.name), a.node) + ListAll([], [b]);
  }

  /** A matched directory takes a later sibling whose name extends its own with it: with "a"
      matched, the file "ab" is lost. */
  lemma ExtendingSiblingIsLost(content: Bytes)
    ensures
      var root := Directory(0, [DirEntry([97], Directory(0, [])), DirEntry([97, 98], Regular(content, false))]);
      ValidNode(root) && !OnlyDescendants(Listing(root), {[SLASH, 97]})
  {
    var a, b := DirEntry([97], Directory(0, [])), DirEntry([97, 98], Regular(content, false));
    var root, matched := Directory(0, [a, b]), {[SLASH, 97]};
    assert [a, b][1..] == [b] && [b][1..] == [] && Less([97], [97, 98]);
    assert ValidEntries([]) && ValidNode(a.node) && ValidNode(b.node) && ValidEntries([b]);
    var l := Listing(root);
    TwoLeaves(a, b);
    assert Child([], a.name) == [SLASH, 97] && Child([], b.name) == [SLASH, 97, 98];
    assert l == [Entry([SLASH], root), Entry([SLASH, 97], a.node), Entry([SLASH, 97, 98], b.node)];
    assert forall k :: 0 <= k < |l| ==> !DroppedBy(l, matched, [SLASH, 97], k);
    assert KeptMatch(l, matched, 1);
    assert ProperPrefix(l[1].path, l[2].path);
    assert (l[1].path + [SLASH])[2] != l[2].path[2];
  }

  // If every drop is a real descendant, walking brings everything back.
  lemma RebuiltWhole(root: Node, matched: set<Str>)
    requires ValidNode(root) && OnlyDescendants(Listing(root), matched)
    ensures Rebuilt(Listing(root), matched, Listing(root)) == Listing(root)
  {
    hide Rebuilt, Dropped, OnlyDescendants, UnfoldAll;
    var l := Listing(root);
    var e, below := Entry([SLASH], root), Below([], root);
    RootKept(root, matched);
    assert l[0] == e;
    if Matched(e, matched) {
      MatchedRebuilt(l, matched, 0, [], root);
      if root.entries != [] {
        RootMatchLoses(root, matched);
      } else {
        assert Below([], root) == [] == Below([SLASH], root);
      }
    } else {
      RebuiltConcat(l, matched, [e], below);
      RebuiltOne(l, matched, e);
      if root.Directory? {
        RebuiltChildren(root, matched);
      } else {
        RebuiltEmpty(l, matched);
      }
    }
  }

  lemma RebuiltChildren(root: Node, matched: set<Str>)
    requires ValidNode(root) && root.Directory? && OnlyDescendants(Listing(root), matched)
    ensures Rebuilt(Listing(root), matched, Below([], root)) == Below([], root)
  {
    hide Rebuilt, OnlyDescendants, UnfoldAll;
    var l := Listing(root);
    ListingBlocks(root);
    ListingNoEmptyPath(root);
    assert forall k :: 0 <= k < |Below([], root)| ==> Below([], root)[k] == l[k + 1];
    RebuiltAll(l, matched, [], root.entries);
  }

  lemma {:induction false} RebuiltSource(l: seq<Entry>, matched: set<Str>, s: seq<Entry>, x: Entry) returns (e: Entry)
    requires x in Rebuilt(l, matched, s)
    ensures e in s && !Dropped(l, matched, e.path) && x in Unfold(e, matched)
  {
    hide Rebuilt, Dropped, Unfold;
    if s == [] {
      RebuiltEmpty(l, matched);
    }
    var init, last := s[..|s| - 1], s[|s| - 1];
    RebuiltSnoc(l, matched, init, last);
    assert init + [last] == s;
    if x in Rebuilt(l, matched, init) {
      e := RebuiltSource(l, matched, init, x);
    } else {
      e := last;
    }
  }

  // Two kept matched directories that extend to one path are the same path.
  lemma KeptPrefixesAgree(l: seq<Entry>, matched: set<Str>, path: Str, j: nat, k: nat)
    requires j < |l| && k < |l| && KeptMatch(l, matched, j) && KeptMatch(l, matched, k)
    requires l[j].path <= path && l[k].path <= path
    ensures l[j].path == l[k].path
  {
    assert !DroppedBy(l, matched, l[k].path, j);
    assert !DroppedBy(l, matched, l[j].path, k);
  }

  // A path dropped without lying below what drops it never comes back.
  lemma LostEntry(l: seq<Entry>, matched: set<Str>, k: nat, i: nat, x: Entry)
    requires k < |l| && i < |l| && KeptMatch(l, matched, k)
    requires ProperPrefix(l[k].path, l[i].path) && !(l[k].path + [SLASH] <= l[i].path)
    requires x in Rebuilt(l, matched, l)
    ensures x.path != l[i].path
  {
    assert DroppedBy(l, matched, l[i].path, k);
    if x.path == l[i].path {
      var e := RebuiltSource(l, matched, l, x);
      var j :| 0 <= j < |l| && l[j] == e;
      var m :| 0 <= m < |List(e.path, e.node)| && List(e.path, e.node)[m] == x;
      ListWithin(e.path, e.node, m);
      KeptPrefixesAgree(l, matched, l[i].path, j, k);
    }
  }

  /** Tree round trip: the kept entries, with the walks of the matched directories in place,
      give back the original pre-order listing, nothing lost or repeated, if and only if every
      entry a kept matched directory drops really lies below it. */
  lemma TreeRoundTripIff(root: Node, matched: set<Str>)
    requires ValidNode(root)
    ensures
      var l := Listing(root);
      UnfoldAll(Kept(l, matched, |l|), matched) == l <==> OnlyDescendants(l, matched)
  {
    var l := Listing(root);
    SkipIsExact(root, matched);
    if OnlyDescendants(l, matched) {
      RebuiltWhole(root, matched);
    } else {
      var k, i :| 0 <= k < |l| && 0 <= i < |l| && KeptMatch(l, matched, k)
        && ProperPrefix(l[k].path, l[i].path) && !(l[k].path + [SLASH] <= l[i].path);
      if l[i] in Rebuilt(l, matched, l) {
        LostEntry(l, matched, k, i, l[i]);
      }
    }
  }
}
