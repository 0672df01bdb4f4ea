/** When two trees have one NAR content: the items written for a valid tree, at any path,
    determine the tree up to the recorded sizes of its directories. */
module SameTree {
  import opened Prelude
  import opened Paths
  import opened Tree
  import opened Chunking
  import opened Dnar

  lemma ItemsFirstChild(p: Str, es: seq<DirEntry>)
    requires es != []
    ensures Items(ListAll(p, es)) ==
      Items(List(Child(p, es[0].name), es[0].node)) + Items(ListAll(p, es[1..]))
  {
    ItemsConcat(List(Child(p, es[0].name), es[0].node), ListAll(p, es[1..]));
  }

  // Directory sizes are not written.
  lemma {:induction false} ItemsOfBare(p: Str, n: Node)
    ensures Items(List(p, Bare(n))) == Items(List(p, n))
    decreases n, 1
  {
    hide Items;
    ItemsUnder(p, n);
    ItemsUnder(p, Bare(n));
    if n.Directory? {
      ItemsOfBareAll(p, n.entries);
    }
  }

  lemma {:induction false} ItemsOfBareAll(p: Str, es: seq<DirEntry>)
    ensures Items(ListAll(p, BareAll(es))) == Items(ListAll(p, es))
    decreases es, 0
  {
    hide Items;
    if es != [] {
      var bare := BareAll(es);
      assert bare[0] == DirEntry(es[0].name, Bare(es[0].node)) && bare[1..] == BareAll(es[1..]);
      ItemsFirstChild(p, es);
      ItemsFirstChild(p, bare);
      ItemsOfBare(Child(p, es[0].name), es[0].node);
      ItemsOfBareAll(p, es[1..]);
    }
  }

  // The first entry after a child's listing lies outside that child.
  lemma NextChildOutside(p: Str, es: seq<DirEntry>)
    requires ValidEntries(es) && |es| > 1
    ensures !Within(Child(p, es[0].name), Child(p, es[1].name))
  {
    NamesFollow(es, 1);
    var a, b := es[0].name, es[1].name;
    if Child(p, b) == Child(p, a) {
      assert a == Child(p, a)[|p| + 1..] == Child(p, b)[|p| + 1..] == b;
      LessIrreflexive(a);
    }
    if Child(p, a) + [SLASH] <= Child(p, b) {
      SlashInName(p, b, Child(p, a));
    }
  }

  // A child's listing ends where the items leave the child, so it cannot be longer than the
  // listing of a child of that name elsewhere.
  lemma ChildNotLonger(p: Str, a: seq<DirEntry>, b: seq<DirEntry>)
    requires a != [] && b != [] && ValidEntries(a) && a[0].name == b[0].name
    requires Items(ListAll(p, a)) == Items(ListAll(p, b))
    ensures
      var c := Child(p, a[0].name);
      |List(c, a[0].node)| >= |List(c, b[0].node)|
  {
    var c := Child(p, a[0].name);
    var la, lb := ListAll(p, a), ListAll(p, b);
    var n := |List(c, a[0].node)|;
    if n < |List(c, b[0].node)| {
      assert |la| == |lb|;
      assert a[1..] != [];
      assert a[1..][0] == a[1];
      assert la[n] == ListAll(p, a[1..])[0];
      assert la[n].path == Child(p, a[1].name);
      assert lb[n] == List(c, b[0].node)[n];
      ListWithin(c, b[0].node, n);
      SamePath(la, lb, n);
      NextChildOutside(p, a);
    }
  }

  // Items keep the path of their entry.
  lemma SamePath(a: seq<Entry>, b: seq<Entry>, k: nat)
    requires k < |a| && Items(a) == Items(b)
    ensures k < |b| && a[k].path == b[k].path
  {
    assert |Items(a)| == |a| && |Items(b)| == |b|;
    assert Items(a)[k] == ItemOf(a[k]) && Items(b)[k] == ItemOf(b[k]);
  }

  lemma {:induction false} SameItemsSameTree(p: Str, a: Node, b: Node)
    requires ValidNode(a) && ValidNode(b) && Items(List(p, a)) == Items(List(p, b))
    ensures Bare(a) == Bare(b)
    decreases a, 1
  {
    hide Items;
    ItemsUnder(p, a);
    ItemsUnder(p, b);
    assert Items(List(p, a))[0] == ItemOf(Entry(p, a));
    assert Items(List(p, b))[0] == ItemOf(Entry(p, b));
    if a.Directory? {
      assert Items(List(p, a))[1..] == Items(Below(p, a));
      assert Items(List(p, b))[1..] == Items(Below(p, b));
      SameItemsSameEntries(p, a.entries, b.entries);
    }
  }

  lemma {:induction false} SameItemsSameEntries(p: Str, a: seq<DirEntry>, b: seq<DirEntry>)
    requires ValidEntries(a) && ValidEntries(b) && Items(ListAll(p, a)) == Items(ListAll(p, b))
    ensures BareAll(a) == BareAll(b)
    decreases a, 0
  {
    hide Items;
    assert |Items(ListAll(p, a))| == |ListAll(p, a)| && |Items(ListAll(p, b))| == |ListAll(p, b)|;
    if a != [] && b != [] {
      var c := Child(p, a[0].name);
      SamePath(ListAll(p, a), ListAll(p, b), 0);
      assert Child(p, b[0].name)[|p| + 1..] == b[0].name && c[|p| + 1..] == a[0].name;
      ChildNotLonger(p, a, b);
      ChildNotLonger(p, b, a);
      ItemsFirstChild(p, a);
      ItemsFirstChild(p, b);
      CutSame(Items(List(c, a[0].node)), Items(ListAll(p, a[1..])),
              Items(List(c, b[0].node)), Items(ListAll(p, b[1..])));
      SameItemsSameTree(c, a[0].node, b[0].node);
      SameItemsSameEntries(p, a[1..], b[1..]);
    }
  }

  lemma CutSame<T>(a: seq<T>, b: seq<T>, c: seq<T>, d: seq<T>)
    requires a + b == c + d && |a| == |c|
    ensures a == c && b == d
  {
    assert (a + b)[..|a|] == a && (c + d)[..|a|] == c;
    assert (a + b)[|a|..] == b && (c + d)[|a|..] == d;
  }

  lemma {:induction false} BareValid(n: Node)
    ensures ValidNode(Bare(n)) <==> ValidNode(n)
    decreases n, 1
  {
    if n.Directory? {
      BareValidAll(n.entries);
    }
  }

  lemma {:induction false} BareValidAll(es: seq<DirEntry>)
    ensures ValidEntries(BareAll(es)) <==> ValidEntries(es)
    ensures |BareAll(es)| == |es| && forall j :: 0 <= j < |es| ==> BareAll(es)[j].name == es[j].name
    decreases es, 0
  {
    if es != [] {
      var bare := BareAll(es);
      assert bare[1..] == BareAll(es[1..]);
      BareValid(es[0].node);
      BareValidAll(es[1..]);
      assert forall j :: 1 <= j < |es| ==> bare[j] == bare[1..][j - 1] && es[j] == es[1..][j - 1];
    }
  }

  /** Two valid trees are written alike, at whatever path, if and only if they are equal but
      for directory sizes. */
  lemma SameItemsIff(p: Str, a: Node, b: Node)
    requires ValidNode(a) && ValidNode(b)
    ensures Items(List(p, a)) == Items(List(p, b)) <==> Bare(a) == Bare(b)
  {
    hide Items;
    ItemsOfBare(p, a);
    ItemsOfBare(p, b);
    if Items(List(p, a)) == Items(List(p, b)) {
      SameItemsSameTree(p, a, b);
    }
  }

  /** A directory message restores a tree if and only if the directory it names exists on the
      target and is that tree, but for directory sizes. */
  lemma DirectoryMatchIff(path: Str, n: Node, index: nat, t: Target)
    requires ValidNode(n) && index < |t.inputs|
    requires t.inputs[index] in t.store ==> ValidNode(t.store[t.inputs[index]])
    ensures UnpackFile(NarFile(path, DirectoryFile(index)), t) == Ok(Items(List(path, n))) <==>
      t.inputs[index] in t.store && Bare(t.store[t.inputs[index]]) == Bare(n)
  {
    hide Items;
    if t.inputs[index] in t.store {
      SameItemsIff(path, t.store[t.inputs[index]], n);
    }
  }

  /** So a directory digest does not determine what is written: these two can exist side by
      side, share a digest and are written differently at every path. */
  lemma SameDigestOtherItems(h: Hash, p: Str, q: Str, name: Str, content: Bytes, target: Str)
    requires ValidName(name) && SLASH !in h(content)
    ensures
      var a := Directory(0, [DirEntry(name, Regular(content, false))]);
      var b := Directory(0, [DirEntry(name + h(content), Symlink(target))]);
      && ValidNode(a) && ValidNode(b)
      && NodeDigest(h, p, a) == NodeDigest(h, p, b) && Items(List(q, a)) != Items(List(q, b))
  {
    hide Items, NodeDigest, ValidNode, Bare;
    DigestConfusesKinds(h, p, name, content, target);
    var a := Directory(0, [DirEntry(name, Regular(content, false))]);
    var b := Directory(0, [DirEntry(name + h(content), Symlink(target))]);
    SameItemsIff(q, a, b);
  }
}
