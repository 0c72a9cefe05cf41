/** The Chromium `Bookmarks` walker used by the tree and JSON modes:
    `parseBookmarks` and the root loop of `extractBookmarks`. */
module Chromium {
  import opened Wrappers
  import opened Json
  import opened Bookmarks

  /** The roots walked, in this order. */
  const RootNames: seq<string> := ["bookmark_bar", "other", "synced"]

  /** Concatenates two partial results, keeping the first failure; this is
      the `append(results, ...)` of the source together with its panics. */
  function Join(x: Result<seq<Bookmark>, Error>, y: Result<seq<Bookmark>, Error>): Result<seq<Bookmark>, Error> {
    if x.Failure? then x else if y.Failure? then y else Success(x.value + y.value)
  }

  /** `parseBookmarks(data, parent)`: the records found under a folder node.
      A node without a `children` array yields nothing. */
  function ParseBookmarks(node: map<string, JValue>, parent: string): (r: Result<seq<Bookmark>, Error>)
    ensures r.Success? ==> forall b <- r.value :: b.id == ""
    decreases JObject(node), 0
  {
    if HasChildren(node) then ParseChildren(node["children"].items, parent) else Success([])
  }

  /** The loop over `children`: child results are concatenated in order, and
      the first failing child fails the whole walk. */
  function ParseChildren(items: seq<JValue>, parent: string): (r: Result<seq<Bookmark>, Error>)
    ensures r.Success? ==> forall b <- r.value :: b.id == ""
    decreases items
  {
    if items == [] then Success([])
    else
      var first :- ParseChild(items[0], parent);
      var rest :- ParseChildren(items[1..], parent);
      Success(first + rest)
  }

  /** One iteration of the loop: the unchecked assertions on the child, its
      `type` and its `name` come first; a `url` child becomes one record, a
      `folder` child is walked with its own name as parent, anything else is
      skipped. */
  function ParseChild(child: JValue, parent: string): (r: Result<seq<Bookmark>, Error>)
    ensures r.Success? ==> forall b <- r.value :: b.id == ""
    decreases child, 1
  {
    if !child.JObject? then Failure(NotAnObject)
    else if !HasString(child.fields, "type") then Failure(NotAString("type"))
    else if !HasString(child.fields, "name") then Failure(NotAString("name"))
    else
      var kind := StringOf(child.fields, "type");
      var name := StringOf(child.fields, "name");
      if kind == "url" then
        if HasString(child.fields, "url")
        then Success([Bookmark("", name, StringOf(child.fields, "url"), parent)])
        else Failure(NotAString("url"))
      else if kind == "folder" then ParseBookmarks(child.fields, name)
      else Success([])
  }

  /** `roots[key].(map[string]interface{})` with the comma-ok form. */
  predicate RootPresent(roots: map<string, JValue>, key: string) {
    key in roots && roots[key].JObject?
  }

  /** The records of one root; an absent or non-object root yields nothing. */
  function RootSection(roots: map<string, JValue>, key: string): (r: Result<seq<Bookmark>, Error>)
    ensures r.Success? ==> forall b <- r.value :: b.id == ""
  {
    if RootPresent(roots, key) then ParseBookmarks(roots[key].fields, key) else Success([])
  }

  function WalkRoots(roots: map<string, JValue>, keys: seq<string>): (r: Result<seq<Bookmark>, Error>)
    ensures r.Success? ==> forall b <- r.value :: b.id == ""
  {
    if keys == [] then Success([])
    else Join(RootSection(roots, keys[0]), WalkRoots(roots, keys[1..]))
  }

  /** The `roots` object of a decoded document. `json.Unmarshal` into a map
      accepts only an object or `null` (a nil map); anything else is a decode
      error. */
  function Roots(doc: JValue): Result<map<string, JValue>, Error> {
    var top := if doc.JObject? then doc.fields else map[];
    if !(doc.JObject? || doc.JNull?) then Failure(NotAnObject)
    else if "roots" in top && top["roots"].JObject? then Success(top["roots"].fields)
    else Failure(NoRoots)
  }

  /** `extractBookmarks` after the file has been read and decoded. */
  function ExtractBookmarks(doc: JValue): (r: Result<seq<Bookmark>, Error>)
    ensures r.Success? ==> forall b <- r.value :: b.id == ""
  {
    var roots :- Roots(doc);
    WalkRoots(roots, RootNames)
  }

  // ---------------------------------------------------------------------
  // Reference definitions

  /** A node every unchecked assertion of the walk succeeds on. */
  predicate WellFormedNode(node: map<string, JValue>)
    decreases JObject(node), 0
  {
    HasChildren(node) ==> WellFormedChildren(node["children"].items)
  }

  predicate WellFormedChildren(items: seq<JValue>)
    decreases items
  {
    forall i | 0 <= i < |items| :: WellFormedChild(items[i])
  }

  predicate WellFormedChild(child: JValue)
    decreases child, 1
  {
    && child.JObject?
    && HasString(child.fields, "type")
    && HasString(child.fields, "name")
    && (StringOf(child.fields, "type") == "url" ==> HasString(child.fields, "url"))
    && (StringOf(child.fields, "type") == "folder" ==> WellFormedNode(child.fields))
  }

  /** Number of `url` nodes reachable from `items` through `folder` nodes. */
  function LinkCount(items: seq<JValue>): nat
    decreases items
  {
    if items == [] then 0 else ChildLinkCount(items[0]) + LinkCount(items[1..])
  }

  function ChildLinkCount(child: JValue): nat
    decreases child, 1
  {
    if !(child.JObject? && HasString(child.fields, "type")) then 0
    else if StringOf(child.fields, "type") == "url" then 1
    else if StringOf(child.fields, "type") == "folder" && HasChildren(child.fields)
    then LinkCount(child.fields["children"].items)
    else 0
  }

  /** `b` is the record of some `url` node reachable from `items` through a
      chain of `folder` nodes, whose closest folder is named `parent`. */
  ghost predicate Reaches(items: seq<JValue>, parent: string, b: Bookmark)
    decreases items
  {
    exists i | 0 <= i < |items| :: ChildReaches(items[i], parent, b)
  }

  ghost predicate ChildReaches(child: JValue, parent: string, b: Bookmark)
    decreases child, 1
  {
    && child.JObject?
    && HasString(child.fields, "type")
    && HasString(child.fields, "name")
    && var kind := StringOf(child.fields, "type");
       var name := StringOf(child.fields, "name");
       || (kind == "url" && HasString(child.fields, "url")
           && b == Bookmark("", name, StringOf(child.fields, "url"), parent))
       || (kind == "folder" && HasChildren(child.fields)
           && Reaches(child.fields["children"].items, name, b))
  }

  // ---------------------------------------------------------------------
  // Properties of the walk

  /** The walk of a folder node succeeds exactly on well-formed nodes: there
      is no partial result. */
  lemma {:induction false} ParseBookmarksSucceedsIff(node: map<string, JValue>, parent: string)
    ensures ParseBookmarks(node, parent).Success? <==> WellFormedNode(node)
    decreases JObject(node), 0
  {
    if HasChildren(node) {
      ParseChildrenSucceedsIff(node["children"].items, parent);
    }
  }

  lemma {:induction false} ParseChildrenSucceedsIff(items: seq<JValue>, parent: string)
    ensures ParseChildren(items, parent).Success? <==> WellFormedChildren(items)
    decreases items
  {
    if items != [] {
      ParseChildSucceedsIff(items[0], parent);
      ParseChildrenSucceedsIff(items[1..], parent);
      WellFormedChildrenCons(items);
    }
  }

  lemma {:induction false} ParseChildSucceedsIff(child: JValue, parent: string)
    ensures ParseChild(child, parent).Success? <==> WellFormedChild(child)
    decreases child, 1
  {
    if child.JObject? && HasString(child.fields, "type") && HasString(child.fields, "name")
       && StringOf(child.fields, "type") == "folder"
    {
      ParseBookmarksSucceedsIff(child.fields, StringOf(child.fields, "name"));
    }
  }

  lemma {:induction false} WellFormedChildrenCons(items: seq<JValue>)
    requires items != []
    ensures WellFormedChildren(items) <==> WellFormedChild(items[0]) && WellFormedChildren(items[1..])
  {
    if WellFormedChild(items[0]) && WellFormedChildren(items[1..]) {
      forall i | 0 <= i < |items| ensures WellFormedChild(items[i]) {
        if i > 0 {
          assert items[i] == items[1..][i - 1];
        }
      }
    }
  }

  /** A successful walk emits one record per `url` node reachable through
      `folder` nodes. */
  lemma {:induction false} ParseBookmarksCount(node: map<string, JValue>, parent: string)
    ensures ParseBookmarks(node, parent).Success? ==>
      |ParseBookmarks(node, parent).value| == (if HasChildren(node) then LinkCount(node["children"].items) else 0)
    decreases JObject(node), 0
  {
    if HasChildren(node) {
      ParseChildrenCount(node["children"].items, parent);
    }
  }

  lemma {:induction false} ParseChildrenCount(items: seq<JValue>, parent: string)
    ensures ParseChildren(items, parent).Success? ==> |ParseChildren(items, parent).value| == LinkCount(items)
    decreases items
  {
    if items != [] {
      ParseChildCount(items[0], parent);
      ParseChildrenCount(items[1..], parent);
    }
  }

  lemma {:induction false} ParseChildCount(child: JValue, parent: string)
    ensures ParseChild(child, parent).Success? ==> |ParseChild(child, parent).value| == ChildLinkCount(child)
    decreases child, 1
  {
    if child.JObject? && HasString(child.fields, "type") && HasString(child.fields, "name")
       && StringOf(child.fields, "type") == "folder"
    {
      ParseBookmarksCount(child.fields, StringOf(child.fields, "name"));
    }
  }

  /** A successful walk emits exactly the records of the reachable `url`
      nodes, each with the name of its closest folder as parent. */
  lemma {:induction false} ParseChildrenMembers(items: seq<JValue>, parent: string, b: Bookmark)
    ensures ParseChildren(items, parent).Success? ==>
      (b in ParseChildren(items, parent).value <==> Reaches(items, parent, b))
    decreases items
  {
    if items != [] && ParseChildren(items, parent).Success? {
      ParseChildMembers(items[0], parent, b);
      ParseChildrenMembers(items[1..], parent, b);
      if Reaches(items, parent, b) {
        var i :| 0 <= i < |items| && ChildReaches(items[i], parent, b);
        if i > 0 {
          assert items[1..][i - 1] == items[i];
        }
      }
      if Reaches(items[1..], parent, b) {
        var i :| 0 <= i < |items[1..]| && ChildReaches(items[1..][i], parent, b);
        assert items[i + 1] == items[1..][i];
      }
    }
  }

  lemma {:induction false} ParseChildMembers(child: JValue, parent: string, b: Bookmark)
    ensures ParseChild(child, parent).Success? ==>
      (b in ParseChild(child, parent).value <==> ChildReaches(child, parent, b))
    decreases child, 1
  {
    if child.JObject? && HasString(child.fields, "type") && HasString(child.fields, "name")
       && StringOf(child.fields, "type") == "folder" && HasChildren(child.fields)
    {
      ParseChildrenMembers(child.fields["children"].items, StringOf(child.fields, "name"), b);
    }
  }

  /** Pre-order: the records of a sibling list are those of its first part
      followed by those of the rest, and a failure in the first part hides
      everything after it. */
  lemma {:induction false} ParseChildrenAppend(a: seq<JValue>, c: seq<JValue>, parent: string)
    ensures ParseChildren(a + c, parent) == Join(ParseChildren(a, parent), ParseChildren(c, parent))
  {
    if a == [] {
      assert a + c == c;
      if ParseChildren(c, parent).Success? {
        assert [] + ParseChildren(c, parent).value == ParseChildren(c, parent).value;
      }
    } else {
      assert (a + c)[0] == a[0];
      assert (a + c)[1..] == a[1..] + c;
      ParseChildrenAppend(a[1..], c, parent);
      ParseChildrenCons(a + c, parent);
      ParseChildrenCons(a, parent);
      JoinAssociative(ParseChild(a[0], parent), ParseChildren(a[1..], parent), ParseChildren(c, parent));
    }
  }

  lemma {:induction false} ParseChildrenCons(items: seq<JValue>, parent: string)
    requires items != []
    ensures ParseChildren(items, parent) == Join(ParseChild(items[0], parent), ParseChildren(items[1..], parent))
  {
  }

  lemma {:induction false} JoinAssociative(x: Result<seq<Bookmark>, Error>, y: Result<seq<Bookmark>, Error>, z: Result<seq<Bookmark>, Error>)
    ensures Join(x, Join(y, z)) == Join(Join(x, y), z)
  {
    if x.Success? && y.Success? && z.Success? {
      assert x.value + (y.value + z.value) == (x.value + y.value) + z.value;
    }
  }

  /** The document walk succeeds exactly when `roots` is an object and every
      present object root is well formed. */
  lemma {:induction false} ExtractBookmarksSucceedsIff(doc: JValue)
    ensures ExtractBookmarks(doc).Success? <==>
      Roots(doc).Success? &&
      forall k <- RootNames :: RootPresent(Roots(doc).value, k) ==> WellFormedNode(Roots(doc).value[k].fields)
  {
    if Roots(doc).Success? {
      var roots := Roots(doc).value;
      WalkRootsUnfold(roots);
      forall k <- RootNames | RootPresent(roots, k) {
        ParseBookmarksSucceedsIff(roots[k].fields, k);
      }
    }
  }

  /** The roots are concatenated in the fixed order bookmark_bar, other,
      synced; each contributes its own walk, or nothing when absent. */
  lemma {:induction false} ExtractBookmarksOrder(doc: JValue)
    ensures ExtractBookmarks(doc).Success? ==>
      var roots := Roots(doc).value;
      && RootSection(roots, "bookmark_bar").Success?
      && RootSection(roots, "other").Success?
      && RootSection(roots, "synced").Success?
      && ExtractBookmarks(doc).value ==
         RootSection(roots, "bookmark_bar").value
         + RootSection(roots, "other").value
         + RootSection(roots, "synced").value
  {
    if ExtractBookmarks(doc).Success? {
      WalkRootsUnfold(Roots(doc).value);
    }
  }

  lemma {:induction false} WalkRootsUnfold(roots: map<string, JValue>)
    ensures WalkRoots(roots, RootNames) ==
      Join(RootSection(roots, "bookmark_bar"), Join(RootSection(roots, "other"), RootSection(roots, "synced")))
  {
    assert RootNames[1..] == ["other", "synced"];
    assert RootNames[1..][1..] == ["synced"];
    assert WalkRoots(roots, ["synced"]) == RootSection(roots, "synced") by {
      assert WalkRoots(roots, ["synced"][1..]) == Success([]);
      if RootSection(roots, "synced").Success? {
        assert RootSection(roots, "synced").value + [] == RootSection(roots, "synced").value;
      }
    }
  }

  /** A record is extracted exactly when it belongs to a reachable `url` node
      of a present root; top-level records carry the root key as parent. */
  lemma {:induction false} ExtractBookmarksMembers(doc: JValue, b: Bookmark)
    ensures ExtractBookmarks(doc).Success? ==>
      (b in ExtractBookmarks(doc).value <==>
        exists k <- RootNames ::
          && RootPresent(Roots(doc).value, k)
          && HasChildren(Roots(doc).value[k].fields)
          && Reaches(Roots(doc).value[k].fields["children"].items, k, b))
  {
    if ExtractBookmarks(doc).Success? {
      var roots := Roots(doc).value;
      ExtractBookmarksOrder(doc);
      forall k <- RootNames | RootPresent(roots, k) && HasChildren(roots[k].fields) {
        ParseChildrenMembers(roots[k].fields["children"].items, k, b);
      }
    }
  }
}
