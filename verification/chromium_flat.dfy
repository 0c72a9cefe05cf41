/** The older flat listing of Chromium bookmarks, `extractChromiumBookmarks`.
    It prints every leaf as soon as it meets it, so when a later node makes
    the walk panic, the lines already printed stay printed. */
module ChromiumFlat {
  import opened Wrappers
  import opened Json
  import opened Bookmarks
  import Chromium

  /** One printed line: a leaf's `id`, `name` and `url`. */
  datatype Listed = Listed(id: string, name: string, url: string)

  /** The lines printed, and the failure that ended the walk, if any. */
  datatype Listing = Listing(listed: seq<Listed>, failure: Option<Error>)

  /** Runs `y` after `x` unless `x` already failed. */
  function Then(x: Listing, y: Listing): Listing {
    if x.failure.Some? then x else Listing(x.listed + y.listed, y.failure)
  }

  /** `extractBookmarksFromSection`: a non-object section, or one without a
      `children` array, prints nothing. */
  function ListSection(section: JValue): Listing
    decreases section, 0
  {
    if section.JObject? && HasChildren(section.fields)
    then ListItems(section.fields["children"].items)
    else Listing([], None)
  }

  function ListItems(items: seq<JValue>): Listing
    decreases items
  {
    if items == [] then Listing([], None)
    else Then(ListItem(items[0]), ListItems(items[1..]))
  }

  /** One child: the unchecked assertions on the child, its `id` and its
      `name`; a child with a string `url` is a leaf whatever its `type`, any
      other child is walked as a folder. */
  function ListItem(item: JValue): Listing
    decreases item, 1
  {
    if !item.JObject? then Listing([], Some(NotAnObject))
    else if !HasString(item.fields, "id") then Listing([], Some(NotAString("id")))
    else if !HasString(item.fields, "name") then Listing([], Some(NotAString("name")))
    else if HasString(item.fields, "url")
    then Listing([Listed(StringOf(item.fields, "id"), StringOf(item.fields, "name"), StringOf(item.fields, "url"))], None)
    else ListSection(item)
  }

  /** One iteration of the section loop: a root is walked whenever its key is
      present, whatever its value. */
  function RootListing(roots: map<string, JValue>, key: string): Listing {
    if key in roots then ListSection(roots[key]) else Listing([], None)
  }

  function ListRoots(roots: map<string, JValue>, keys: seq<string>): Listing {
    if keys == [] then Listing([], None)
    else Then(RootListing(roots, keys[0]), ListRoots(roots, keys[1..]))
  }

  /** `extractChromiumBookmarks` after the file has been decoded; a missing
      `roots` object is fatal before anything is printed. */
  function ExtractChromiumFlat(doc: JValue): Listing {
    match Chromium.Roots(doc)
    case Failure(e) => Listing([], Some(e))
    case Success(roots) => ListRoots(roots, Chromium.RootNames)
  }

  // ---------------------------------------------------------------------
  // Reference definitions

  /** A subtree every unchecked assertion of the flat walk succeeds on. */
  predicate ListableChildren(items: seq<JValue>)
    decreases items
  {
    forall i | 0 <= i < |items| :: ListableChild(items[i])
  }

  predicate ListableChild(item: JValue)
    decreases item, 1
  {
    && item.JObject?
    && HasString(item.fields, "id")
    && HasString(item.fields, "name")
    && (!HasString(item.fields, "url") ==> ListableSection(item))
  }

  predicate ListableSection(section: JValue)
    decreases section, 0
  {
    section.JObject? && HasChildren(section.fields) ==> ListableChildren(section.fields["children"].items)
  }

  /** `l` is the line of some node with a string `url` reachable from `items`
      through nodes without one. */
  ghost predicate ListsFrom(items: seq<JValue>, l: Listed)
    decreases items
  {
    exists i | 0 <= i < |items| :: ListsFromChild(items[i], l)
  }

  ghost predicate ListsFromChild(item: JValue, l: Listed)
    decreases item, 1
  {
    && item.JObject?
    && HasString(item.fields, "id")
    && HasString(item.fields, "name")
    && if HasString(item.fields, "url")
       then l == Listed(StringOf(item.fields, "id"), StringOf(item.fields, "name"), StringOf(item.fields, "url"))
       else ListsFromSection(item, l)
  }

  ghost predicate ListsFromSection(section: JValue, l: Listed)
    decreases section, 0
  {
    section.JObject? && HasChildren(section.fields) && ListsFrom(section.fields["children"].items, l)
  }

  /** A node as Chromium itself writes it: string `id`, `name` and `type`,
      the type is `url` or `folder`, and a string `url` is present exactly on
      `url` nodes. */
  predicate CanonicalChildren(items: seq<JValue>)
    decreases items
  {
    forall i | 0 <= i < |items| :: CanonicalChild(items[i])
  }

  predicate CanonicalChild(item: JValue)
    decreases item, 1
  {
    && item.JObject?
    && HasString(item.fields, "id")
    && HasString(item.fields, "name")
    && HasString(item.fields, "type")
    && (StringOf(item.fields, "type") == "url" || StringOf(item.fields, "type") == "folder")
    && (StringOf(item.fields, "type") == "url" <==> HasString(item.fields, "url"))
    && (StringOf(item.fields, "type") == "folder" ==> CanonicalNode(item.fields))
  }

  predicate CanonicalNode(node: map<string, JValue>)
    decreases JObject(node), 0
  {
    HasChildren(node) ==> CanonicalChildren(node["children"].items)
  }

  /** The (name, url) pairs of printed lines and of records. */
  function ListedPairs(ls: seq<Listed>): seq<(string, string)> {
    if ls == [] then [] else [(ls[0].name, ls[0].url)] + ListedPairs(ls[1..])
  }

  function RecordPairs(bs: seq<Bookmark>): seq<(string, string)> {
    if bs == [] then [] else [(bs[0].name, bs[0].url)] + RecordPairs(bs[1..])
  }

  // ---------------------------------------------------------------------
  // Properties of the flat walk

  /** Pre-order over siblings; a failure hides every later sibling, and the
      lines printed before it remain. */
  lemma {:induction false} ListItemsAppend(a: seq<JValue>, c: seq<JValue>)
    ensures ListItems(a + c) == Then(ListItems(a), ListItems(c))
    ensures ListItems(a).failure.Some? ==> ListItems(a + c) == ListItems(a)
  {
    if a == [] {
      assert a + c == c;
      assert [] + ListItems(c).listed == ListItems(c).listed;
    } else {
      assert (a + c)[0] == a[0];
      assert (a + c)[1..] == a[1..] + c;
      ListItemsAppend(a[1..], c);
      ThenAssociative(ListItem(a[0]), ListItems(a[1..]), ListItems(c));
    }
  }

  lemma {:induction false} ThenAssociative(x: Listing, y: Listing, z: Listing)
    ensures Then(x, Then(y, z)) == Then(Then(x, y), z)
  {
    if x.failure.None? && y.failure.None? {
      assert x.listed + (y.listed + z.listed) == (x.listed + y.listed) + z.listed;
    }
  }

  /** The walk of a sibling list ends without failure exactly when every
      unchecked assertion on it succeeds. */
  lemma {:induction false} ListItemsSucceedsIff(items: seq<JValue>)
    ensures ListItems(items).failure.None? <==> ListableChildren(items)
    decreases items
  {
    if items != [] {
      ListItemSucceedsIff(items[0]);
      ListItemsSucceedsIff(items[1..]);
      if ListableChild(items[0]) && ListableChildren(items[1..]) {
        forall i | 0 <= i < |items| ensures ListableChild(items[i]) {
          if i > 0 {
            assert items[i] == items[1..][i - 1];
          }
        }
      }
    }
  }

  lemma {:induction false} ListItemSucceedsIff(item: JValue)
    ensures ListItem(item).failure.None? <==> ListableChild(item)
    decreases item, 1
  {
    if item.JObject? && !HasString(item.fields, "url") {
      ListSectionSucceedsIff(item);
    }
  }

  lemma {:induction false} ListSectionSucceedsIff(section: JValue)
    ensures ListSection(section).failure.None? <==> ListableSection(section)
    decreases section, 0
  {
    if section.JObject? && HasChildren(section.fields) {
      ListItemsSucceedsIff(section.fields["children"].items);
    }
  }

  /** A completed walk prints exactly the lines of the reachable nodes that
      carry a string `url`. */
  lemma {:induction false} ListItemsMembers(items: seq<JValue>, l: Listed)
    ensures ListItems(items).failure.None? ==> (l in ListItems(items).listed <==> ListsFrom(items, l))
    decreases items
  {
    if items != [] && ListItems(items).failure.None? {
      ListItemMembers(items[0], l);
      ListItemsMembers(items[1..], l);
      if ListsFrom(items, l) {
        var i :| 0 <= i < |items| && ListsFromChild(items[i], l);
        if i > 0 {
          assert items[1..][i - 1] == items[i];
        }
      }
      if ListsFrom(items[1..], l) {
        var i :| 0 <= i < |items[1..]| && ListsFromChild(items[1..][i], l);
        assert items[i + 1] == items[1..][i];
      }
    }
  }

  lemma {:induction false} ListItemMembers(item: JValue, l: Listed)
    ensures ListItem(item).failure.None? ==> (l in ListItem(item).listed <==> ListsFromChild(item, l))
    decreases item, 1
  {
    if item.JObject? && !HasString(item.fields, "url") {
      ListSectionMembers(item, l);
    }
  }

  lemma {:induction false} ListSectionMembers(section: JValue, l: Listed)
    ensures ListSection(section).failure.None? ==> (l in ListSection(section).listed <==> ListsFromSection(section, l))
    decreases section, 0
  {
    if section.JObject? && HasChildren(section.fields) {
      ListItemsMembers(section.fields["children"].items, l);
    }
  }

  /** The number of nodes with a string `url` reachable from `items` through
      nodes without one. */
  function FlatLeaves(items: seq<JValue>): nat
    decreases items
  {
    if items == [] then 0 else FlatLeavesChild(items[0]) + FlatLeaves(items[1..])
  }

  function FlatLeavesChild(item: JValue): nat
    decreases item, 1
  {
    if !item.JObject? then 0
    else if HasString(item.fields, "url") then 1
    else FlatLeavesSection(item)
  }

  function FlatLeavesSection(section: JValue): nat
    decreases section, 0
  {
    if section.JObject? && HasChildren(section.fields) then FlatLeaves(section.fields["children"].items) else 0
  }

  /** A completed walk prints one line per reachable node with a string
      `url`: duplicates are printed as often as they occur. */
  lemma {:induction false} ListItemsCount(items: seq<JValue>)
    ensures ListItems(items).failure.None? ==> |ListItems(items).listed| == FlatLeaves(items)
    decreases items
  {
    if items != [] && ListItems(items).failure.None? {
      ListItemCount(items[0]);
      ListItemsCount(items[1..]);
    }
  }

  lemma {:induction false} ListItemCount(item: JValue)
    ensures ListItem(item).failure.None? ==> |ListItem(item).listed| == FlatLeavesChild(item)
    decreases item, 1
  {
    if item.JObject? && !HasString(item.fields, "url") {
      ListSectionCount(item);
    }
  }

  lemma {:induction false} ListSectionCount(section: JValue)
    ensures ListSection(section).failure.None? ==> |ListSection(section).listed| == FlatLeavesSection(section)
    decreases section, 0
  {
    if section.JObject? && HasChildren(section.fields) {
      ListItemsCount(section.fields["children"].items);
    }
  }

  // ---------------------------------------------------------------------
  // Properties of the document listing

  lemma {:induction false} ListRootsUnfold(roots: map<string, JValue>)
    ensures ListRoots(roots, Chromium.RootNames) ==
      Then(RootListing(roots, "bookmark_bar"), Then(RootListing(roots, "other"), RootListing(roots, "synced")))
  {
    var names := Chromium.RootNames;
    assert names[0] == "bookmark_bar";
    assert names[1..] == ["other", "synced"];
    assert names[1..][1..] == ["synced"];
    assert ListRoots(roots, ["synced"]) == RootListing(roots, "synced") by {
      assert ListRoots(roots, ["synced"][1..]) == Listing([], None);
      assert RootListing(roots, "synced").listed + [] == RootListing(roots, "synced").listed;
    }
  }

  /** A missing or non-object `roots` is fatal before any line is printed;
      otherwise the sections are listed in the order bookmark_bar, other,
      synced, and a present section that is not an object prints nothing. */
  lemma {:induction false} ExtractChromiumFlatOrder(doc: JValue)
    ensures Chromium.Roots(doc).Failure? ==>
      ExtractChromiumFlat(doc).listed == [] && ExtractChromiumFlat(doc).failure == Some(Chromium.Roots(doc).error)
    ensures Chromium.Roots(doc).Success? ==>
      var roots := Chromium.Roots(doc).value;
      ExtractChromiumFlat(doc) ==
        Then(RootListing(roots, "bookmark_bar"), Then(RootListing(roots, "other"), RootListing(roots, "synced")))
    ensures Chromium.Roots(doc).Success? ==>
      forall k | k in Chromium.Roots(doc).value && !Chromium.Roots(doc).value[k].JObject? ::
        RootListing(Chromium.Roots(doc).value, k) == Listing([], None)
  {
    if Chromium.Roots(doc).Success? {
      ListRootsUnfold(Chromium.Roots(doc).value);
    }
  }

  /** The flat listing completes exactly when `roots` is an object and every
      present section is walkable. */
  lemma {:induction false} ExtractChromiumFlatSucceedsIff(doc: JValue)
    ensures ExtractChromiumFlat(doc).failure.None? <==>
      Chromium.Roots(doc).Success? &&
      forall k <- Chromium.RootNames :: k in Chromium.Roots(doc).value ==> ListableSection(Chromium.Roots(doc).value[k])
  {
    if Chromium.Roots(doc).Success? {
      var roots := Chromium.Roots(doc).value;
      ListRootsUnfold(roots);
      forall k <- Chromium.RootNames | k in roots {
        ListSectionSucceedsIff(roots[k]);
      }
    }
  }

  /** The lines reachable from a present root, and how many there are. */
  ghost predicate ListsFromRoot(roots: map<string, JValue>, key: string, l: Listed) {
    key in roots && ListsFromSection(roots[key], l)
  }

  function RootLeaves(roots: map<string, JValue>, key: string): nat {
    if key in roots then FlatLeavesSection(roots[key]) else 0
  }

  /** A completed listing prints exactly the lines reachable from the three
      sections, one per reachable node with a string `url`. */
  lemma {:induction false} ExtractChromiumFlatMembers(doc: JValue, l: Listed)
    ensures ExtractChromiumFlat(doc).failure.None? ==>
      (l in ExtractChromiumFlat(doc).listed <==> exists k <- Chromium.RootNames :: ListsFromRoot(Chromium.Roots(doc).value, k, l))
    ensures ExtractChromiumFlat(doc).failure.None? ==>
      var roots := Chromium.Roots(doc).value;
      |ExtractChromiumFlat(doc).listed| ==
        RootLeaves(roots, "bookmark_bar") + RootLeaves(roots, "other") + RootLeaves(roots, "synced")
  {
    if ExtractChromiumFlat(doc).failure.None? {
      var roots := Chromium.Roots(doc).value;
      ListRootsUnfold(roots);
      RootMembers(roots, "bookmark_bar", l);
      RootMembers(roots, "other", l);
      RootMembers(roots, "synced", l);
      assert Chromium.RootNames == ["bookmark_bar", "other", "synced"];
    }
  }

  lemma {:induction false} RootMembers(roots: map<string, JValue>, key: string, l: Listed)
    ensures RootListing(roots, key).failure.None? ==>
      (l in RootListing(roots, key).listed <==> ListsFromRoot(roots, key, l))
    ensures RootListing(roots, key).failure.None? ==>
      |RootListing(roots, key).listed| == RootLeaves(roots, key)
  {
    if key in roots {
      ListSectionMembers(roots[key], l);
      ListSectionCount(roots[key]);
    }
  }

  /** On one root of a file shaped as Chromium writes it, the flat listing and
      the record walk agree. */
  lemma {:induction false} RootAgrees(roots: map<string, JValue>, key: string)
    requires Chromium.RootPresent(roots, key) ==> CanonicalNode(roots[key].fields)
    ensures RootListing(roots, key).failure.None?
    ensures Chromium.RootSection(roots, key).Success?
    ensures ListedPairs(RootListing(roots, key).listed) == RecordPairs(Chromium.RootSection(roots, key).value)
  {
    if Chromium.RootPresent(roots, key) && HasChildren(roots[key].fields) {
      ListItemsAgrees(roots[key].fields["children"].items, key);
    }
  }

  /** On files shaped as Chromium writes them, the flat listing of the whole
      document fails exactly when `extractBookmarks` does, and otherwise both
      produce the same names and urls in the same order. */
  lemma {:induction false} ExtractChromiumFlatAgrees(doc: JValue)
    requires Chromium.Roots(doc).Success? ==>
      forall k <- Chromium.RootNames :: Chromium.RootPresent(Chromium.Roots(doc).value, k) ==> CanonicalNode(Chromium.Roots(doc).value[k].fields)
    ensures ExtractChromiumFlat(doc).failure.None? <==> Chromium.Roots(doc).Success?
    ensures Chromium.ExtractBookmarks(doc).Success? <==> Chromium.Roots(doc).Success?
    ensures Chromium.ExtractBookmarks(doc).Success? ==>
      ListedPairs(ExtractChromiumFlat(doc).listed) == RecordPairs(Chromium.ExtractBookmarks(doc).value)
  {
    if Chromium.Roots(doc).Success? {
      var roots := Chromium.Roots(doc).value;
      ListRootsUnfold(roots);
      Chromium.WalkRootsUnfold(roots);
      RootAgrees(roots, "bookmark_bar");
      RootAgrees(roots, "other");
      RootAgrees(roots, "synced");
      var a, b, c := RootListing(roots, "bookmark_bar").listed, RootListing(roots, "other").listed, RootListing(roots, "synced").listed;
      ListedPairsAppend(b, c);
      ListedPairsAppend(a, b + c);
      var x, y, z := Chromium.RootSection(roots, "bookmark_bar").value, Chromium.RootSection(roots, "other").value, Chromium.RootSection(roots, "synced").value;
      RecordPairsAppend(y, z);
      RecordPairsAppend(x, y + z);
    }
  }

  /** On files shaped as Chromium writes them, the flat listing and the
      record walk agree: neither fails, and they produce the same names and
      urls in the same order. */
  lemma {:induction false} ListItemsAgrees(items: seq<JValue>, parent: string)
    requires CanonicalChildren(items)
    ensures ListItems(items).failure.None?
    ensures Chromium.ParseChildren(items, parent).Success?
    ensures ListedPairs(ListItems(items).listed) == RecordPairs(Chromium.ParseChildren(items, parent).value)
    decreases items
  {
    if items != [] {
      assert CanonicalChildren(items[1..]) by {
        forall i | 0 <= i < |items[1..]| ensures CanonicalChild(items[1..][i]) {
          assert items[1..][i] == items[i + 1];
        }
      }
      ListItemAgrees(items[0], parent);
      ListItemsAgrees(items[1..], parent);
      Chromium.ParseChildrenCons(items, parent);
      ListedPairsAppend(ListItem(items[0]).listed, ListItems(items[1..]).listed);
      RecordPairsAppend(Chromium.ParseChild(items[0], parent).value, Chromium.ParseChildren(items[1..], parent).value);
    }
  }

  lemma {:induction false} ListItemAgrees(item: JValue, parent: string)
    requires CanonicalChild(item)
    ensures ListItem(item).failure.None?
    ensures Chromium.ParseChild(item, parent).Success?
    ensures ListedPairs(ListItem(item).listed) == RecordPairs(Chromium.ParseChild(item, parent).value)
    decreases item, 1
  {
    var f := item.fields;
    if StringOf(f, "type") == "folder" && HasChildren(f) {
      ListItemsAgrees(f["children"].items, StringOf(f, "name"));
    }
  }

  lemma {:induction false} ListedPairsAppend(a: seq<Listed>, c: seq<Listed>)
    ensures ListedPairs(a + c) == ListedPairs(a) + ListedPairs(c)
  {
    if a == [] {
      assert a + c == c;
    } else {
      assert (a + c)[1..] == a[1..] + c;
      ListedPairsAppend(a[1..], c);
    }
  }

  lemma {:induction false} RecordPairsAppend(a: seq<Bookmark>, c: seq<Bookmark>)
    ensures RecordPairs(a + c) == RecordPairs(a) + RecordPairs(c)
  {
    if a == [] {
      assert a + c == c;
    } else {
      assert (a + c)[1..] == a[1..] + c;
      RecordPairsAppend(a[1..], c);
    }
  }
}
