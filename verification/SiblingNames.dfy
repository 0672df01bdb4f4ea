/** When the packer's directory skip is right, read off the tree instead of its flat listing:
    no kept matched directory may have a later sibling whose name extends its own. */
module SiblingNames {
  import opened Prelude
  import opened Paths
  import opened Tree
  import opened DirectorySkip

  // No matched directory among es has a later sibling whose name extends its own, and so
  // below those that are not matched. What lies in a matched one does not matter.
  predicate Apart(p: Str, es: seq<DirEntry>, matched: set<Str>)
    decreases es
  {
    es != [] ==>
      var c := Child(p, es[0].name);
      && (if Matched(Entry(c, es[0].node), matched) then forall j :: 1 <= j < |es| ==> !(es[0].name <= es[j].name)
          else es[0].node.Directory? ==> Apart(c, es[0].node.entries, matched))
      && Apart(p, es[1..], matched)
  }

  // Nor was the root itself matched, unless nothing lies below it.
  predicate SiblingsApart(root: Node, matched: set<Str>) {
    root.Directory? ==> if [SLASH] in matched then root.entries == [] else Apart([], root.entries, matched)
  }

  // What lies strictly inside one part of a listing, or is dropped inside it.
  ghost predicate BelowOrDropped(l: seq<Entry>, matched: set<Str>, k: nat, i: nat)
    requires k < |l| && i < |l|
  {
    l[k].path + [SLASH] <= l[i].path || Dropped(l, matched, l[k].path)
  }

  lemma InFront(a: seq<Entry>, b: seq<Entry>, matched: set<Str>, k: nat, i: nat)
    requires k < |a| && i < |a| && BelowOrDropped(a, matched, k, i)
    ensures BelowOrDropped(a + b, matched, k, i)
  {
    var l := a + b;
    if Dropped(a, matched, a[k].path) {
      var d :| 0 <= d < |a| && DroppedBy(a, matched, a[k].path, d);
      assert l[d] == a[d];
      assert DroppedBy(l, matched, l[k].path, d);
    }
  }

  lemma InBack(a: seq<Entry>, b: seq<Entry>, matched: set<Str>, k: nat, i: nat)
    requires k < |b| && i < |b| && BelowOrDropped(b, matched, k, i)
    ensures BelowOrDropped(a + b, matched, |a| + k, |a| + i)
  {
    var l := a + b;
    assert l[|a| + k] == b[k] && l[|a| + i] == b[i];
    if Dropped(b, matched, b[k].path) {
      var d :| 0 <= d < |b| && DroppedBy(b, matched, b[k].path, d);
      assert l[|a| + d] == b[d];
      assert DroppedBy(l, matched, b[k].path, |a| + d);
    }
  }

  lemma FirstThenRest(p: Str, es: seq<DirEntry>)
    requires es != []
    ensures
      var c := Child(p, es[0].name);
      ListAll(p, es) == ([Entry(c, es[0].node)] + Below(c, es[0].node)) + ListAll(p, es[1..])
  {
  }

  // In the first child's listing: what a matched entry starts there lies below it, unless
  // the entry is dropped.
  lemma FirstChildApart(p: Str, es: seq<DirEntry>, matched: set<Str>, k: nat, i: nat)
    requires ValidEntries(es) && es != [] && Matched(Entry(Child(p, es[0].name), es[0].node), matched)
    requires Apart(p, es, matched)
    requires k < |List(Child(p, es[0].name), es[0].node)| && i < |ListAll(p, es)|
    requires ProperPrefix(ListAll(p, es)[k].path, ListAll(p, es)[i].path)
    ensures BelowOrDropped(ListAll(p, es), matched, k, i)
  {
    var l, c := ListAll(p, es), Child(p, es[0].name);
    assert l[0] == Entry(c, es[0].node);
    ListWithin(c, es[0].node, k);
    if l[k].path != c {
      assert c <= c + [SLASH];
      assert DroppedBy(l, matched, l[k].path, 0);
    } else {
      var j := ListAllWithin(p, es, i);
      if j > 0 {
        NamesFollow(es, j);
        var s := WithinChild(p, es[j].name, l[i].path);
        NamesFollow(es, 0);
        NamePrefix(p, es[0].name, es[j].name, s);
      }
    }
  }

  // Only the first entry of a listing has the listing's own path.
  lemma BelowNotItself(p: Str, n: Node, k: nat)
    requires k < |List(p, n)| && List(p, n)[k].path == p
    ensures k == 0
  {
    if k > 0 {
      var j := ListAllWithin(p, n.entries, k - 1);
      var s := WithinChild(p, n.entries[j].name, List(p, n)[k].path);
    }
  }

  // What a path below an unmatched first child starts lies there too.
  lemma StaysInFirst(p: Str, es: seq<DirEntry>, matched: set<Str>, k: nat, i: nat)
    requires ValidEntries(es) && es != [] && !Matched(Entry(Child(p, es[0].name), es[0].node), matched)
    requires k < |List(Child(p, es[0].name), es[0].node)| && i < |ListAll(p, es)|
    requires Matched(ListAll(p, es)[k], matched) && ProperPrefix(ListAll(p, es)[k].path, ListAll(p, es)[i].path)
    ensures 0 < k && 0 < i && es[0].node.Directory?
    ensures
      var below := Below(Child(p, es[0].name), es[0].node);
      && k - 1 < |below| && i - 1 < |below|
      && below[k - 1] == ListAll(p, es)[k] && below[i - 1] == ListAll(p, es)[i]
  {
    var c, n := Child(p, es[0].name), es[0].node;
    var first := List(c, n);
    assert first[0] == Entry(c, n);
    ListWithin(c, n, k);
    if i >= |first| {
      FirstAgainstLater(p, es, k, i - |first|);
      BelowNotItself(c, n, k);
    }
  }

  lemma StaysInRest(p: Str, es: seq<DirEntry>, k: nat, i: nat)
    requires ValidEntries(es) && es != [] && k < |ListAll(p, es)| && i < |ListAll(p, es)|
    requires k >= |List(Child(p, es[0].name), es[0].node)|
    requires ProperPrefix(ListAll(p, es)[k].path, ListAll(p, es)[i].path)
    ensures
      var first := |List(Child(p, es[0].name), es[0].node)|;
      && i >= first && ListAll(p, es[1..])[k - first] == ListAll(p, es)[k]
      && ListAll(p, es[1..])[i - first] == ListAll(p, es)[i]
  {
    var first := List(Child(p, es[0].name), es[0].node);
    if i < |first| {
      FirstAgainstLater(p, es, i, k - |first|);
    }
  }

  lemma InFirst(p: Str, es: seq<DirEntry>, matched: set<Str>, k: nat, i: nat)
    requires es != []
    requires
      var below := Below(Child(p, es[0].name), es[0].node);
      k < |below| && i < |below| && BelowOrDropped(below, matched, k, i)
    ensures k + 1 < |ListAll(p, es)| && i + 1 < |ListAll(p, es)|
    ensures BelowOrDropped(ListAll(p, es), matched, k + 1, i + 1)
  {
    hide BelowOrDropped, ListAll, Below;
    var c := Child(p, es[0].name);
    FirstThenRest(p, es);
    InBack([Entry(c, es[0].node)], Below(c, es[0].node), matched, k, i);
    InFront([Entry(c, es[0].node)] + Below(c, es[0].node), ListAll(p, es[1..]), matched, k + 1, i + 1);
  }

  lemma InRest(p: Str, es: seq<DirEntry>, matched: set<Str>, k: nat, i: nat)
    requires es != [] && k < |ListAll(p, es[1..])| && i < |ListAll(p, es[1..])|
    requires BelowOrDropped(ListAll(p, es[1..]), matched, k, i)
    ensures
      var first := |List(Child(p, es[0].name), es[0].node)|;
      && first + k < |ListAll(p, es)| && first + i < |ListAll(p, es)|
      && BelowOrDropped(ListAll(p, es), matched, first + k, first + i)
  {
    hide BelowOrDropped, ListAll, Below;
    FirstThenRest(p, es);
    InBack(List(Child(p, es[0].name), es[0].node), ListAll(p, es[1..]), matched, k, i);
  }

  // If siblings are apart, what a matched entry's path starts lies below it, or the matched
  // entry is itself dropped.
  lemma {:induction false} ApartSuffices(p: Str, es: seq<DirEntry>, matched: set<Str>, k: nat, i: nat)
    requires ValidEntries(es) && Apart(p, es, matched)
    requires k < |ListAll(p, es)| && i < |ListAll(p, es)| && Matched(ListAll(p, es)[k], matched)
    requires ProperPrefix(ListAll(p, es)[k].path, ListAll(p, es)[i].path)
    ensures BelowOrDropped(ListAll(p, es), matched, k, i)
    decreases es
  {
    hide BelowOrDropped, List;
    var c := Child(p, es[0].name);
    var first := |List(c, es[0].node)|;
    if k >= first {
      StaysInRest(p, es, k, i);
      ApartSuffices(p, es[1..], matched, k - first, i - first);
      InRest(p, es, matched, k - first, i - first);
    } else if Matched(Entry(c, es[0].node), matched) {
      FirstChildApart(p, es, matched, k, i);
    } else {
      StaysInFirst(p, es, matched, k, i);
      assert ListAll(c, es[0].node.entries) == Below(c, es[0].node);
      ApartSuffices(c, es[0].node.entries, matched, k - 1, i - 1);
      InFirst(p, es, matched, k - 1, i - 1);
    }
  }

  lemma {:induction false} ApartNeeded(l: seq<Entry>, matched: set<Str>, p: Str, es: seq<DirEntry>)
    requires Blocks(l) && OnlyDescendants(l, matched) && ValidEntries(es)
    requires NoEmptyPath(l)
    requires Includes(l, ListAll(p, es)) && !Dropped(l, matched, p)
    requires NoMatchAt(l, matched, p)
    ensures Apart(p, es, matched)
    decreases es
  {
    hide Dropped, OnlyDescendants, Blocks, Includes, NoMatchAt, NoEmptyPath;
    if es != [] {
      var c, n := Child(p, es[0].name), es[0].node;
      var i := IncludedAt(l, ListAll(p, es), 0);
      IncludesParts(l, List(c, n), ListAll(p, es[1..]));
      ChildKept(l, matched, p, es[0].name, i);
      if Matched(Entry(c, n), matched) {
        forall j | 1 <= j < |es|
          ensures !(es[0].name <= es[j].name)
        {
          SiblingKept(l, matched, p, es, i, j);
        }
      } else if n.Directory? {
        IncludesParts(l, [Entry(c, n)], Below(c, n));
        OnlyMatchAt(l, matched, i);
        ApartNeeded(l, matched, c, n.entries);
      }
      ApartNeeded(l, matched, p, es[1..]);
    }
  }

  // Every child has its entry in the listing.
  lemma {:induction false} ChildListed(p: Str, es: seq<DirEntry>, j: nat) returns (k: nat)
    requires j < |es|
    ensures k < |ListAll(p, es)| && ListAll(p, es)[k] == Entry(Child(p, es[j].name), es[j].node)
    decreases es
  {
    if j == 0 {
      k := 0;
    } else {
      k := ChildListed(p, es[1..], j - 1);
      k := k + |List(Child(p, es[0].name), es[0].node)|;
    }
  }

  lemma SiblingKept(l: seq<Entry>, matched: set<Str>, p: Str, es: seq<DirEntry>, i: nat, j: nat)
    requires OnlyDescendants(l, matched) && ValidEntries(es) && Includes(l, ListAll(p, es))
    requires i < |l| && 1 <= j < |es| && l[i].path == Child(p, es[0].name) && KeptMatch(l, matched, i)
    ensures !(es[0].name <= es[j].name)
  {
    var a, b := es[0].name, es[j].name;
    if a <= b {
      NamesFollow(es, j);
      LessNotEqual(a, b);
      var k := ChildListed(p, es, j);
      var m := IncludedAt(l, ListAll(p, es), k);
      assert ProperPrefix(l[i].path, l[m].path);
      SlashInName(p, b, Child(p, a));
    }
  }

  lemma LessNotEqual(a: Str, b: Str)
    requires Less(a, b)
    ensures a != b
  {
    LessIrreflexive(a);
  }

  /** The condition on the flat listing is one on the tree: the root was not matched, unless
      empty, and no kept matched directory has a later sibling whose name extends its own. */
  lemma ApartIff(root: Node, matched: set<Str>)
    requires ValidNode(root)
    ensures OnlyDescendants(Listing(root), matched) <==> SiblingsApart(root, matched)
  {
    hide Dropped, OnlyDescendants, Blocks, Includes, NoMatchAt, NoEmptyPath;
    var l := Listing(root);
    if Below([], root) == [] {
      RootAlone(root, matched);
    } else if [SLASH] in matched {
      RootKept(root, matched);
      assert ListAll([], []) == [];
      RootMatchLoses(root, matched);
    } else {
      if OnlyDescendants(l, matched) {
        ListingBlocks(root);
        ListingNoEmptyPath(root);
        IncludesSelf(l);
        IncludesParts(l, [l[0]], Below([], root));
        EmptyKept(l, matched);
        ApartNeeded(l, matched, [], root.entries);
      }
      if SiblingsApart(root, matched) {
        RootApartSuffices(root, matched);
      }
    }
  }

  lemma RootAlone(root: Node, matched: set<Str>)
    requires Below([], root) == []
    ensures OnlyDescendants(Listing(root), matched) && SiblingsApart(root, matched)
  {
    assert Listing(root) == [Entry([SLASH], root)];
    if root.Directory? && root.entries != [] {
      FirstChild([], root);
    }
  }

  lemma IncludesSelf(l: seq<Entry>)
    ensures Includes(l, l)
  {
  }

  lemma EmptyKept(l: seq<Entry>, matched: set<Str>)
    ensures !Dropped(l, matched, [])
    ensures NoEmptyPath(l) ==> NoMatchAt(l, matched, [])
  {
  }

  lemma RootApartSuffices(root: Node, matched: set<Str>)
    requires ValidNode(root) && root.Directory? && [SLASH] !in matched && Apart([], root.entries, matched)
    ensures OnlyDescendants(Listing(root), matched)
  {
    hide Dropped;
    var l, below := Listing(root), Below([], root);
    assert l == [l[0]] + below;
    forall k, i | 0 <= k < |l| && 0 <= i < |l| && KeptMatch(l, matched, k) && ProperPrefix(l[k].path, l[i].path)
      ensures l[k].path + [SLASH] <= l[i].path
    {
      ListingPathsNonempty(root, k);
      assert k > 0 && i > 0;
      assert l[k] == below[k - 1] && l[i] == below[i - 1];
      ApartSuffices([], root.entries, matched, k - 1, i - 1);
      InBack([l[0]], below, matched, k - 1, i - 1);
    }
  }

  /** Tree round trip: kept entries plus the walks of matched directories give back the
      listing if and only if siblings are apart. */
  lemma TreeRestoredIff(root: Node, matched: set<Str>)
    requires ValidNode(root)
    ensures
      var l := Listing(root);
      UnfoldAll(Kept(l, matched, |l|), matched) == l <==> SiblingsApart(root, matched)
  {
    TreeRoundTripIff(root, matched);
    ApartIff(root, matched);
  }
}
