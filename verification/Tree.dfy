/** File trees and their flat pre-order listing (internal/store/chunk.go), and the fact
    about listings that the packer's directory skip relies on: entries whose path extends a
    given one form a single block right after it. */
module Tree {
  import opened Prelude
  import opened Paths

  datatype Node =
    | Regular(content: Bytes, executable: bool)
    | Symlink(target: Str)
    | Directory(size: nat, entries: seq<DirEntry>)

  datatype DirEntry = DirEntry(name: Str, node: Node)

  // Directories list distinct names in increasing order, as os.ReadDir returns them.
  ghost predicate ValidNode(n: Node) {
    n.Directory? ==> ValidEntries(n.entries)
  }

  ghost predicate ValidEntries(es: seq<DirEntry>) {
    es != [] ==>
      && ValidName(es[0].name) && ValidNode(es[0].node) && ValidEntries(es[1..])
      && forall j :: 1 <= j < |es| ==> Less(es[0].name, es[j].name)
  }

  // A tree without the recorded sizes of its directories, which no NAR contains and which
  // differ from one file system to another.
  function Bare(n: Node): Node {
    if n.Directory? then Directory(0, BareAll(n.entries)) else n
  }

  function BareAll(es: seq<DirEntry>): seq<DirEntry> {
    if es == [] then [] else [DirEntry(es[0].name, Bare(es[0].node))] + BareAll(es[1..])
  }

  datatype Entry = Entry(path: Str, node: Node)

  function Child(p: Str, name: Str): Str {
    p + [SLASH] + name
  }

  function List(p: Str, n: Node): seq<Entry>
    decreases n, 1
  {
    [Entry(p, n)] + Below(p, n)
  }

  function Below(p: Str, n: Node): seq<Entry>
    decreases n, 0
  {
    if n.Directory? then ListAll(p, n.entries) else []
  }

  function ListAll(p: Str, es: seq<DirEntry>): seq<Entry>
    decreases es, 0
  {
    if es == [] then [] else List(Child(p, es[0].name), es[0].node) + ListAll(p, es[1..])
  }

  // The listing of a whole store path, with the paths the database holds: the root, whose
  // relative path is empty, is stored as "/".
  function Listing(root: Node): seq<Entry> {
    [Entry([SLASH], root)] + Below([], root)
  }

  // ---------------------------------------------------------------------------
  // Where the listed paths lie
  // ---------------------------------------------------------------------------

  // path is p itself or lies below it.
  predicate Within(p: Str, path: Str) {
    path == p || p + [SLASH] <= path
  }

  lemma WithinChild(p: Str, name: Str, path: Str) returns (s: Str)
    requires Within(Child(p, name), path)
    ensures EndsComponent(s) && path == p + [SLASH] + name + s
    ensures p + [SLASH] <= path
  {
    s := path[|Child(p, name)|..];
    assert path == Child(p, name) + s;
    if s != [] {
      assert path[|Child(p, name)|] == (Child(p, name) + [SLASH])[|Child(p, name)|];
    }
  }

  lemma {:induction false} ListWithin(p: Str, n: Node, k: nat)
    requires k < |List(p, n)|
    ensures Within(p, List(p, n)[k].path)
    decreases n, 1
  {
    if k > 0 && n.Directory? {
      var j := ListAllWithin(p, n.entries, k - 1);
      var s := WithinChild(p, n.entries[j].name, ListAll(p, n.entries)[k - 1].path);
    }
  }

  // Every entry below p lies within one of p's children.
  lemma {:induction false} ListAllWithin(p: Str, es: seq<DirEntry>, k: nat) returns (j: nat)
    requires k < |ListAll(p, es)|
    ensures j < |es| && Within(Child(p, es[j].name), ListAll(p, es)[k].path)
    decreases es, 0
  {
    var first := List(Child(p, es[0].name), es[0].node);
    if k < |first| {
      j := 0;
      ListWithin(Child(p, es[0].name), es[0].node, k);
    } else {
      j := ListAllWithin(p, es[1..], k - |first|);
      j := j + 1;
    }
  }

  lemma {:induction false} NamesFollow(es: seq<DirEntry>, j: nat)
    requires ValidEntries(es) && j < |es|
    ensures ValidName(es[j].name)
    ensures j > 0 ==> Less(es[0].name, es[j].name)
  {
    if j > 0 {
      NamesFollow(es[1..], j - 1);
    }
  }

  // ---------------------------------------------------------------------------
  // Extensions of a path form one block
  // ---------------------------------------------------------------------------

  // No entry's path starts an earlier entry's path (so paths are distinct), and the entries
  // that extend a path follow it without interruption.
  ghost predicate Blocks(l: seq<Entry>) {
    && (forall k, i :: 0 <= k < |l| && 0 <= i < |l| && l[k].path <= l[i].path ==> k <= i)
    && (forall k, m, i :: 0 <= k <= m <= i < |l| && l[k].path <= l[i].path ==> l[k].path <= l[m].path)
  }

  lemma BlocksConcat(a: seq<Entry>, b: seq<Entry>)
    requires Blocks(a) && Blocks(b)
    requires forall i, j :: 0 <= i < |a| && 0 <= j < |b| ==> !(b[j].path <= a[i].path)
    requires forall i, i', j :: 0 <= i <= i' < |a| && 0 <= j < |b| && a[i].path <= b[j].path ==> a[i].path <= a[i'].path
    requires forall i, j', j :: 0 <= i < |a| && 0 <= j' <= j < |b| && a[i].path <= b[j].path ==> a[i].path <= b[j'].path
    ensures Blocks(a + b)
  {
    var l := a + b;
    forall k, m, i | 0 <= k <= m <= i < |l| && l[k].path <= l[i].path
      ensures l[k].path <= l[m].path
    {
      if k < |a| && |a| <= i {
        var j := i - |a|;
        assert l[i] == b[j];
        if m >= |a| {
          var j' := m - |a|;
          assert l[m] == b[j'];
        }
      } else if |a| <= k {
        assert l[k] == b[k - |a|] && l[m] == b[m - |a|] && l[i] == b[i - |a|];
      }
    }
    forall k, i | 0 <= k < |l| && 0 <= i < |l| && l[k].path <= l[i].path
      ensures k <= i
    {
      if |a| <= k {
        assert l[k] == b[k - |a|];
        if |a| <= i {
          assert l[i] == b[i - |a|];
        }
      }
    }
  }

  // Among the later children, the entries that extend p/name come first.
  lemma {:induction false} LaterBlock(p: Str, name: Str, es: seq<DirEntry>, j': nat, j: nat)
    requires ValidName(name) && ValidEntries(es)
    requires forall e | e in es :: Less(name, e.name)
    requires j' <= j < |ListAll(p, es)| && Child(p, name) <= ListAll(p, es)[j].path
    ensures Child(p, name) <= ListAll(p, es)[j'].path
    decreases es
  {
    var all := ListAll(p, es);
    var first := List(Child(p, es[0].name), es[0].node);
    var c := ListAllWithin(p, es, j);
    NamesFollow(es, c);
    var s := WithinChild(p, es[c].name, all[j].path);
    NamePrefix(p, name, es[c].name, s);
    if j' < |first| {
      if c > 0 {
        PrefixBetween(name, es[0].name, es[c].name);
      }
      ListWithin(Child(p, es[0].name), es[0].node, j');
      var s' := WithinChild(p, es[0].name, all[j'].path);
      assert Child(p, name) <= Child(p, es[0].name);
    } else {
      assert all[j] == ListAll(p, es[1..])[j - |first|];
      LaterBlock(p, name, es[1..], j' - |first|, j - |first|);
    }
  }

  // An entry of the first child, against an entry of a later one.
  lemma FirstAgainstLater(p: Str, es: seq<DirEntry>, i: nat, j: nat)
    requires es != [] && ValidEntries(es)
    requires i < |List(Child(p, es[0].name), es[0].node)| && j < |ListAll(p, es[1..])|
    ensures
      var a, b := List(Child(p, es[0].name), es[0].node)[i].path, ListAll(p, es[1..])[j].path;
      !(b <= a) && (a <= b ==> a == Child(p, es[0].name))
  {
    var name := es[0].name;
    var a, b := List(Child(p, name), es[0].node)[i].path, ListAll(p, es[1..])[j].path;
    ListWithin(Child(p, name), es[0].node, i);
    var sa := WithinChild(p, name, a);
    var c := ListAllWithin(p, es[1..], j);
    var m := es[1..][c].name;
    assert m == es[c + 1].name;
    NamesFollow(es, c + 1);
    var sb := WithinChild(p, m, b);
    if b <= a {
      assert p + [SLASH] + m <= b;
      NamePrefix(p, m, name, sa);
      PrefixNotGreater(m, name);
      assert false;
    }
    if a <= b && sa != [] {
      assert p + [SLASH] + name + [SLASH] <= a;
      NameEqual(p, name, m, sb);
      LessIrreflexive(m);
      assert false;
    }
  }

  lemma {:induction false} ListBlocks(p: Str, n: Node)
    requires ValidNode(n)
    ensures Blocks(List(p, n))
    decreases n, 1
  {
    if n.Directory? {
      ListAllBlocks(p, n.entries);
      BlocksUnder(p, Entry(p, n), n.entries);
    }
  }

  // A directory's path starts every path below it.
  lemma UnderPath(p: Str, e: Entry, es: seq<DirEntry>, j: nat)
    requires ValidEntries(es) && j < |ListAll(p, es)|
    requires e.path == p || (p == [] && e.path == [SLASH])
    ensures e.path <= ListAll(p, es)[j].path && !(ListAll(p, es)[j].path <= e.path)
  {
    var c := ListAllWithin(p, es, j);
    var s := WithinChild(p, es[c].name, ListAll(p, es)[j].path);
    NamesFollow(es, c);
  }

  // A directory in front of what lies below it.
  lemma BlocksUnder(p: Str, e: Entry, es: seq<DirEntry>)
    requires ValidEntries(es) && Blocks(ListAll(p, es))
    requires e.path == p || (p == [] && e.path == [SLASH])
    ensures Blocks([e] + ListAll(p, es))
  {
    var b := ListAll(p, es);
    forall j | 0 <= j < |b|
      ensures e.path <= b[j].path && !(b[j].path <= e.path)
    {
      UnderPath(p, e, es, j);
    }
    BlocksConcat([e], b);
  }

  // The first child's listing in front of the later ones' meets the needs of BlocksConcat.
  lemma FirstInFront(p: Str, es: seq<DirEntry>, a: seq<Entry>, b: seq<Entry>)
    requires ValidEntries(es) && es != []
    requires a == List(Child(p, es[0].name), es[0].node) && b == ListAll(p, es[1..])
    ensures forall i, j :: 0 <= i < |a| && 0 <= j < |b| ==> !(b[j].path <= a[i].path)
    ensures forall i, i', j :: 0 <= i <= i' < |a| && 0 <= j < |b| && a[i].path <= b[j].path ==> a[i].path <= a[i'].path
    ensures forall i, j', j :: 0 <= i < |a| && 0 <= j' <= j < |b| && a[i].path <= b[j].path ==> a[i].path <= b[j'].path
  {
    var name := es[0].name;
    forall i, j | 0 <= i < |a| && 0 <= j < |b|
      ensures !(b[j].path <= a[i].path)
      ensures a[i].path <= b[j].path ==> a[i].path == Child(p, name)
    {
      FirstAgainstLater(p, es, i, j);
    }
    forall i, i', j | 0 <= i <= i' < |a| && 0 <= j < |b| && a[i].path <= b[j].path
      ensures a[i].path <= a[i'].path
    {
      ListWithin(Child(p, name), es[0].node, i');
    }
    forall i, j', j | 0 <= i < |a| && 0 <= j' <= j < |b| && a[i].path <= b[j].path
      ensures a[i].path <= b[j'].path
    {
      LaterBlock(p, name, es[1..], j', j);
    }
  }

  lemma {:induction false} ListAllBlocks(p: Str, es: seq<DirEntry>)
    requires ValidEntries(es)
    ensures Blocks(ListAll(p, es))
    decreases es, 0
  {
    if es != [] {
      var a, b := List(Child(p, es[0].name), es[0].node), ListAll(p, es[1..]);
      ListBlocks(Child(p, es[0].name), es[0].node);
      ListAllBlocks(p, es[1..]);
      FirstInFront(p, es, a, b);
      BlocksConcat(a, b);
    }
  }

  /** In the listing of every tree, the entries whose path extends a given entry's path form
      one contiguous block that starts right after it. */
  lemma ListingBlocks(root: Node)
    requires ValidNode(root)
    ensures Blocks(Listing(root))
  {
    if root.Directory? {
      ListAllBlocks([], root.entries);
      BlocksUnder([], Entry([SLASH], root), root.entries);
    }
  }
}
