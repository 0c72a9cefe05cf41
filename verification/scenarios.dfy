/** A worked document: a `bookmark_bar` holding a link `A` and a folder `F`
    that holds a link `B`. */
module Scenarios {
  import opened Wrappers
  import opened Json
  import opened Bookmarks
  import opened Chromium
  import opened TreeBuilder
  import opened TreeRender

  const LinkA: JValue := JObject(map["type" := JString("url"), "name" := JString("A"), "url" := JString("http://a")])
  const LinkB: JValue := JObject(map["type" := JString("url"), "name" := JString("B"), "url" := JString("http://b")])
  const FolderF: JValue := JObject(map["type" := JString("folder"), "name" := JString("F"), "children" := JArray([LinkB])])
  const Document: JValue :=
    JObject(map["roots" := JObject(map["bookmark_bar" := JObject(map["children" := JArray([LinkA, FolderF])])])])

  /** The records the walk yields for `Document`. */
  const RecordA: Bookmark := Bookmark("", "A", "http://a", "bookmark_bar")
  const RecordB: Bookmark := Bookmark("", "B", "http://b", "F")

  /** The walk yields the two links, each with its closest folder as parent;
      the folder itself yields no record. */
  lemma {:induction false} DocumentRecords()
    ensures ExtractBookmarks(Document) == Success([RecordA, RecordB])
  {
    var items := [LinkA, FolderF];
    var roots := Roots(Document).value;
    assert roots == map["bookmark_bar" := JObject(map["children" := JArray(items)])];
    WalkRootsUnfold(roots);
    assert RootSection(roots, "bookmark_bar") == Success([RecordA, RecordB]) by {
      var bar := roots["bookmark_bar"].fields;
      assert HasChildren(bar) && bar["children"].items == items;
      BarParsed();
    }
    assert RootSection(roots, "other") == Success([]);
    assert RootSection(roots, "synced") == Success([]);
    assert [RecordA, RecordB] + ([] + []) == [RecordA, RecordB];
  }

  lemma {:induction false} BarParsed()
    ensures ParseChildren([LinkA, FolderF], "bookmark_bar") == Success([RecordA, RecordB])
  {
    var items := [LinkA, FolderF];
    LinkAParsed();
    FolderFParsed();
    ParseChildrenCons(items, "bookmark_bar");
    ParseChildrenCons(items[1..], "bookmark_bar");
    assert items[1..] == [FolderF];
    assert items[1..][1..] == [];
    assert [RecordB] + [] == [RecordB];
    assert [RecordA] + [RecordB] == [RecordA, RecordB];
  }

  lemma {:induction false} LinkAParsed()
    ensures ParseChild(LinkA, "bookmark_bar") == Success([RecordA])
  {
    assert HasString(LinkA.fields, "type") && StringOf(LinkA.fields, "type") == "url";
    assert HasString(LinkA.fields, "name") && StringOf(LinkA.fields, "name") == "A";
    assert HasString(LinkA.fields, "url") && StringOf(LinkA.fields, "url") == "http://a";
  }

  lemma {:induction false} FolderFParsed()
    ensures ParseChild(FolderF, "bookmark_bar") == Success([RecordB])
  {
    assert ParseChild(LinkB, "F") == Success([RecordB]) by {
      assert HasString(LinkB.fields, "type") && StringOf(LinkB.fields, "type") == "url";
      assert HasString(LinkB.fields, "name") && StringOf(LinkB.fields, "name") == "B";
      assert HasString(LinkB.fields, "url") && StringOf(LinkB.fields, "url") == "http://b";
    }
    assert ParseChildren([LinkB], "F") == Success([RecordB]) by {
      ParseChildrenCons([LinkB], "F");
      assert [LinkB][1..] == [];
      assert [RecordB] + [] == [RecordB];
    }
    assert HasString(FolderF.fields, "type") && StringOf(FolderF.fields, "type") == "folder";
    assert HasString(FolderF.fields, "name") && StringOf(FolderF.fields, "name") == "F";
    assert HasChildren(FolderF.fields) && FolderF.fields["children"].items == [LinkB];
  }

  /** Since the walk emits no folder records, the tree built from the
      document's records has the buckets `bookmark_bar` = [A] and `F` = [B],
      and rendering `bookmark_bar` prints the link A alone: the folder F is
      never printed beneath it. */
  lemma {:induction false} DocumentRendering(fuel: nat)
    requires fuel > 0
    ensures RenderLines(BuildTree([RecordA, RecordB]), "bookmark_bar", 1, fuel) == [LinkLine(1, "A", "http://a")]
  {
    var bs := [RecordA, RecordB];
    assert WithParent(bs, "bookmark_bar") == [RecordA] by {
      assert RecordA.parent == "bookmark_bar" && RecordB.parent == "F";
      assert bs[1..] == [RecordB];
      assert WithParent([RecordB], "bookmark_bar") == [] + WithParent([], "bookmark_bar");
    }
    SingleEntryBucket(bs, "bookmark_bar", RecordA);
    SingleLinkRendering(BuildTree(bs), "bookmark_bar", RecordA, 1, fuel);
  }

  /** A bucket holding a single link renders as that one link line. */
  lemma {:induction false} SingleLinkRendering(tree: Tree, key: string, x: Bookmark, depth: nat, fuel: nat)
    requires fuel > 0
    requires key in tree && tree[key] == [x] && x.url != ""
    ensures RenderLines(tree, key, depth, fuel) == [LinkLine(depth, x.name, x.url)]
  {
    var cs := Children(tree, key);
    assert cs == [x];
    RenderLinksOnly(tree, key, depth, fuel);
    assert LinkLines([x], depth) == [LinkLine(depth, x.name, x.url)];
  }

  /** A parent with a single record gets a bucket holding just that record. */
  lemma {:induction false} SingleEntryBucket(bs: seq<Bookmark>, key: string, x: Bookmark)
    requires WithParent(bs, key) == [x]
    ensures key in BuildTree(bs) && BuildTree(bs)[key] == [x]
  {
    var m := Buckets(bs);
    assert key in m;
    var tree := BuildTree(bs);
    assert key in tree;
    var t := tree[key];
    assert multiset(t) == multiset{x};
    assert |t| == |multiset(t)| == 1;
    assert t[0] in multiset(t);
    assert t == [t[0]];
  }
}
