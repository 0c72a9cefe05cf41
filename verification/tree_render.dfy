/** `printBookmarkTree`: the depth-first rendering of a bucketed tree. At
    each level the folders come first, each followed at once by its own
    subtree, found by looking up the bucket keyed by the folder's name; the
    links of the level come after all of them. */
module TreeRender {
  import opened Bookmarks
  import opened TreeBuilder

  /** A rendered line before formatting. */
  datatype Line =
    | FolderLine(depth: nat, name: string)
    | LinkLine(depth: nat, name: string, url: string)

  /** The glyphs of the source's format strings (folder, shooting star,
      arrow); their exact code points do not matter to the properties. */
  const FolderMark: string := "|-\U{1F4C1} "
  const LinkMark: string := "|-\U{1F320} "
  const Arrow: string := " \U{2192} "

  /** Two spaces per level. */
  function Indent(depth: nat): string {
    if depth == 0 then "" else Indent(depth - 1) + "  "
  }

  /** The text `printBookmarkTree` prints for a line, without the newline. */
  function Format(l: Line): string {
    match l
    case FolderLine(d, name) => Indent(d) + FolderMark + name
    case LinkLine(d, name, url) => Indent(d) + LinkMark + name + Arrow + url
  }

  /** Number of spaces a string starts with. */
  function LeadingSpaces(s: string): nat {
    if s != [] && s[0] == ' ' then 1 + LeadingSpaces(s[1..]) else 0
  }

  /** `tree[parent]`: Go's nil slice for a missing key. */
  function Children(tree: Tree, parent: string): seq<Bookmark> {
    if parent in tree then tree[parent] else []
  }

  /** The folder entries (empty url) of a bucket, in bucket order. */
  function FoldersOf(cs: seq<Bookmark>): seq<Bookmark> {
    if cs == [] then [] else (if cs[0].url == "" then [cs[0]] else []) + FoldersOf(cs[1..])
  }

  /** The link entries (non-empty url) of a bucket, in bucket order. */
  function LinksOf(cs: seq<Bookmark>): seq<Bookmark> {
    if cs == [] then [] else (if cs[0].url != "" then [cs[0]] else []) + LinksOf(cs[1..])
  }

  /** One folder line per folder. */
  function FolderHeads(fs: seq<Bookmark>, depth: nat): seq<Line> {
    seq(|fs|, i requires 0 <= i < |fs| => FolderLine(depth, fs[i].name))
  }

  /** One link line per link. */
  function LinkLines(ls: seq<Bookmark>, depth: nat): seq<Line> {
    seq(|ls|, i requires 0 <= i < |ls| => LinkLine(depth, ls[i].name, ls[i].url))
  }

  /** The lines at exactly `depth`, in order. */
  function AtDepth(lines: seq<Line>, depth: nat): seq<Line> {
    if lines == [] then [] else (if lines[0].depth == depth then [lines[0]] else []) + AtDepth(lines[1..], depth)
  }

  /** Once a link line of this level appears, only link lines of this level
      follow: every folder and its subtree come before the level's links. */
  predicate FoldersFirst(lines: seq<Line>, depth: nat) {
    forall i, j | 0 <= i < j < |lines| && lines[i].LinkLine? && lines[i].depth == depth ::
      lines[j].LinkLine? && lines[j].depth == depth
  }

  /** `printBookmarkTree(tree, parent, depth)` as structured lines. The
      source recurses on folder names and does not terminate on a cycle of
      names; `fuel` bounds the number of levels rendered. */
  function RenderLines(tree: Tree, parent: string, depth: nat, fuel: nat): seq<Line>
    decreases fuel, 0
  {
    if fuel == 0 then []
    else
      var cs := Children(tree, parent);
      FolderBlocks(tree, cs, depth, fuel - 1) + LinkLines(LinksOf(cs), depth)
  }

  /** The first loop of `printBookmarkTree`: each folder's line followed by
      its subtree one level deeper. */
  function FolderBlocks(tree: Tree, cs: seq<Bookmark>, depth: nat, fuel: nat): seq<Line>
    decreases fuel, 1, |cs|
  {
    if cs == [] then []
    else
      var rest := FolderBlocks(tree, cs[1..], depth, fuel);
      if cs[0].url == ""
      then [FolderLine(depth, cs[0].name)] + RenderLines(tree, cs[0].name, depth + 1, fuel) + rest
      else rest
  }

  /** No rendered line is shallower than the starting depth, and all folder
      blocks of the level come before the level's links. */
  lemma {:induction false} RenderLinesShape(tree: Tree, parent: string, depth: nat, fuel: nat)
    ensures forall i | 0 <= i < |RenderLines(tree, parent, depth, fuel)| ::
      RenderLines(tree, parent, depth, fuel)[i].depth >= depth
    ensures FoldersFirst(RenderLines(tree, parent, depth, fuel), depth)
    decreases fuel, 0
  {
    if fuel > 0 {
      var cs := Children(tree, parent);
      var blocks := FolderBlocks(tree, cs, depth, fuel - 1);
      var links := LinkLines(LinksOf(cs), depth);
      var r := blocks + links;
      assert r == RenderLines(tree, parent, depth, fuel);
      FolderBlocksShape(tree, cs, depth, fuel - 1);
      forall i | 0 <= i < |r| ensures r[i].depth >= depth {
        if i < |blocks| {
          assert r[i] == blocks[i];
        } else {
          assert r[i] == links[i - |blocks|];
        }
      }
      forall i, j | 0 <= i < j < |r| && r[i].LinkLine? && r[i].depth == depth
        ensures r[j].LinkLine? && r[j].depth == depth
      {
        assert r[j] == links[j - |blocks|];
      }
    }
  }

  /** The folder blocks of a level: no line shallower than the level, and
      every line at the level itself is a folder line. */
  lemma {:induction false} FolderBlocksShape(tree: Tree, cs: seq<Bookmark>, depth: nat, fuel: nat)
    ensures forall i | 0 <= i < |FolderBlocks(tree, cs, depth, fuel)| ::
      FolderBlocks(tree, cs, depth, fuel)[i].depth >= depth
    ensures forall i | 0 <= i < |FolderBlocks(tree, cs, depth, fuel)| && FolderBlocks(tree, cs, depth, fuel)[i].depth == depth ::
      FolderBlocks(tree, cs, depth, fuel)[i].FolderLine?
    decreases fuel, 1, |cs|
  {
    if cs != [] {
      var rest := FolderBlocks(tree, cs[1..], depth, fuel);
      FolderBlocksShape(tree, cs[1..], depth, fuel);
      if cs[0].url == "" {
        var sub := RenderLines(tree, cs[0].name, depth + 1, fuel);
        RenderLinesShape(tree, cs[0].name, depth + 1, fuel);
        var r := [FolderLine(depth, cs[0].name)] + sub + rest;
        assert r == FolderBlocks(tree, cs, depth, fuel);
        forall i | 0 <= i < |r| ensures r[i].depth >= depth && (r[i].depth == depth ==> r[i].FolderLine?) {
          if i == 0 {
          } else if i <= |sub| {
            assert r[i] == sub[i - 1];
          } else {
            assert r[i] == rest[i - 1 - |sub|];
          }
        }
      }
    }
  }

  /** The printed text of `printBookmarkTree`, one string per line. Every
      line starts with exactly two spaces per level of its own depth, and
      never fewer than the starting depth's. */
  function PrintBookmarkTree(tree: Tree, parent: string, depth: nat, fuel: nat): (out: seq<string>)
    ensures |out| == |RenderLines(tree, parent, depth, fuel)|
    ensures forall i | 0 <= i < |out| ::
      LeadingSpaces(out[i]) == 2 * RenderLines(tree, parent, depth, fuel)[i].depth >= 2 * depth
  {
    var lines := RenderLines(tree, parent, depth, fuel);
    RenderLinesShape(tree, parent, depth, fuel);
    FormatIndentation();
    seq(|lines|, i requires 0 <= i < |lines| => Format(lines[i]))
  }

  // ---------------------------------------------------------------------
  // Properties

  lemma {:induction false} FormatIndentation()
    ensures forall l :: LeadingSpaces(Format(l)) == 2 * l.depth
  {
    forall l: Line ensures LeadingSpaces(Format(l)) == 2 * l.depth {
      match l
      case FolderLine(d, name) =>
        assert Format(l) == Indent(d) + (FolderMark + name);
        IndentSpaces(d, FolderMark + name);
      case LinkLine(d, name, url) =>
        assert Format(l) == Indent(d) + (LinkMark + name + Arrow + url);
        IndentSpaces(d, LinkMark + name + Arrow + url);
    }
  }

  lemma {:induction false} IndentSpaces(d: nat, s: string)
    requires s != [] && s[0] == '|'
    ensures LeadingSpaces(Indent(d) + s) == 2 * d
  {
    IndentIsSpaces(d);
    LeadingSpacesAppend(Indent(d), s);
  }

  lemma {:induction false} LeadingSpacesAppend(a: string, s: string)
    requires forall i | 0 <= i < |a| :: a[i] == ' '
    ensures LeadingSpaces(a + s) == |a| + LeadingSpaces(s)
  {
    if a != [] {
      assert (a + s)[1..] == a[1..] + s;
      LeadingSpacesAppend(a[1..], s);
    } else {
      assert a + s == s;
    }
  }

  lemma {:induction false} IndentIsSpaces(d: nat)
    ensures |Indent(d)| == 2 * d
    ensures forall i | 0 <= i < |Indent(d)| :: Indent(d)[i] == ' '
  {
    if d > 0 {
      IndentIsSpaces(d - 1);
    }
  }

  lemma {:induction false} AtDepthAppend(a: seq<Line>, b: seq<Line>, depth: nat)
    ensures AtDepth(a + b, depth) == AtDepth(a, depth) + AtDepth(b, depth)
  {
    if a == [] {
      assert a + b == b;
    } else {
      var head := if a[0].depth == depth then [a[0]] else [];
      assert (a + b)[0] == a[0];
      assert (a + b)[1..] == a[1..] + b;
      AtDepthAppend(a[1..], b, depth);
      calc {
        AtDepth(a + b, depth);
        head + AtDepth(a[1..] + b, depth);
        head + (AtDepth(a[1..], depth) + AtDepth(b, depth));
        (head + AtDepth(a[1..], depth)) + AtDepth(b, depth);
        AtDepth(a, depth) + AtDepth(b, depth);
      }
    }
  }

  lemma {:induction false} AtDepthDeeper(lines: seq<Line>, depth: nat)
    requires forall i | 0 <= i < |lines| :: lines[i].depth > depth
    ensures AtDepth(lines, depth) == []
  {
    if lines != [] {
      AtDepthDeeper(lines[1..], depth);
    }
  }

  lemma {:induction false} AtDepthLinks(ls: seq<Bookmark>, depth: nat)
    ensures AtDepth(LinkLines(ls, depth), depth) == LinkLines(ls, depth)
  {
    if ls != [] {
      AtDepthLinks(ls[1..], depth);
      assert LinkLines(ls, depth)[1..] == LinkLines(ls[1..], depth);
    }
  }

  /** A folder's block shows only its own line at the folder's level. */
  lemma {:induction false} AtDepthFolderBlock(tree: Tree, f: Bookmark, depth: nat, fuel: nat)
    ensures AtDepth([FolderLine(depth, f.name)] + RenderLines(tree, f.name, depth + 1, fuel), depth) ==
      [FolderLine(depth, f.name)]
  {
    var head := [FolderLine(depth, f.name)];
    var sub := RenderLines(tree, f.name, depth + 1, fuel);
    AtDepthAppend(head, sub, depth);
    RenderLinesShape(tree, f.name, depth + 1, fuel);
    AtDepthDeeper(sub, depth);
    assert AtDepth(head, depth) == head by {
      assert head[1..] == [];
    }
  }

  lemma {:induction false} FolderHeadsCons(f: Bookmark, fs: seq<Bookmark>, depth: nat)
    ensures FolderHeads([f] + fs, depth) == [FolderLine(depth, f.name)] + FolderHeads(fs, depth)
  {
    var l := FolderHeads([f] + fs, depth);
    var r := [FolderLine(depth, f.name)] + FolderHeads(fs, depth);
    assert |l| == |r|;
    forall i | 0 <= i < |l| ensures l[i] == r[i] {
      if i > 0 {
        assert ([f] + fs)[i] == fs[i - 1];
      }
    }
  }

  lemma {:induction false} FolderBlocksAtDepth(tree: Tree, cs: seq<Bookmark>, depth: nat, fuel: nat)
    ensures AtDepth(FolderBlocks(tree, cs, depth, fuel), depth) == FolderHeads(FoldersOf(cs), depth)
  {
    if cs != [] {
      FolderBlocksAtDepth(tree, cs[1..], depth, fuel);
      var rest := FolderBlocks(tree, cs[1..], depth, fuel);
      if cs[0].url == "" {
        var block := [FolderLine(depth, cs[0].name)] + RenderLines(tree, cs[0].name, depth + 1, fuel);
        assert FolderBlocks(tree, cs, depth, fuel) == block + rest;
        AtDepthAppend(block, rest, depth);
        AtDepthFolderBlock(tree, cs[0], depth, fuel);
        assert FoldersOf(cs) == [cs[0]] + FoldersOf(cs[1..]);
        FolderHeadsCons(cs[0], FoldersOf(cs[1..]), depth);
      } else {
        assert FoldersOf(cs) == FoldersOf(cs[1..]);
      }
    }
  }

  /** The lines of the starting level are the bucket's folders, in bucket
      order, then its links, in bucket order: one line per entry. A missing
      key renders nothing. */
  lemma {:induction false} RenderLevel(tree: Tree, parent: string, depth: nat, fuel: nat)
    requires fuel > 0
    ensures AtDepth(RenderLines(tree, parent, depth, fuel), depth) ==
      FolderHeads(FoldersOf(Children(tree, parent)), depth) + LinkLines(LinksOf(Children(tree, parent)), depth)
    ensures parent !in tree ==> RenderLines(tree, parent, depth, fuel) == []
  {
    var cs := Children(tree, parent);
    var blocks := FolderBlocks(tree, cs, depth, fuel - 1);
    var links := LinkLines(LinksOf(cs), depth);
    assert RenderLines(tree, parent, depth, fuel) == blocks + links;
    AtDepthAppend(blocks, links, depth);
    FolderBlocksAtDepth(tree, cs, depth, fuel - 1);
    AtDepthLinks(LinksOf(cs), depth);
    if parent !in tree {
      assert cs == [];
    }
  }

  lemma {:induction false} FolderBlocksAppend(tree: Tree, a: seq<Bookmark>, b: seq<Bookmark>, depth: nat, fuel: nat)
    ensures FolderBlocks(tree, a + b, depth, fuel) == FolderBlocks(tree, a, depth, fuel) + FolderBlocks(tree, b, depth, fuel)
  {
    if a == [] {
      assert a + b == b;
    } else {
      assert (a + b)[0] == a[0];
      assert (a + b)[1..] == a[1..] + b;
      FolderBlocksAppend(tree, a[1..], b, depth, fuel);
    }
  }

  /** Each folder of the bucket is printed and immediately followed by the
      rendering of the bucket keyed by its name, one level deeper. */
  lemma {:induction false} RenderFolderSubtree(tree: Tree, parent: string, depth: nat, fuel: nat, i: nat)
    requires fuel > 0
    requires parent in tree && i < |tree[parent]| && tree[parent][i].url == ""
    ensures var lines := RenderLines(tree, parent, depth, fuel);
      var k := |FolderBlocks(tree, tree[parent][..i], depth, fuel - 1)|;
      var sub := RenderLines(tree, tree[parent][i].name, depth + 1, fuel - 1);
      && k + 1 + |sub| <= |lines|
      && lines[k] == FolderLine(depth, tree[parent][i].name)
      && lines[k + 1..k + 1 + |sub|] == sub
  {
    var cs := tree[parent];
    var f := cs[i];
    assert cs == cs[..i] + ([f] + cs[i + 1..]);
    FolderBlocksAppend(tree, cs[..i], [f] + cs[i + 1..], depth, fuel - 1);
    assert ([f] + cs[i + 1..])[1..] == cs[i + 1..];
    var sub := RenderLines(tree, f.name, depth + 1, fuel - 1);
    var before := FolderBlocks(tree, cs[..i], depth, fuel - 1);
    var after := FolderBlocks(tree, cs[i + 1..], depth, fuel - 1) + LinkLines(LinksOf(cs), depth);
    var lines := RenderLines(tree, parent, depth, fuel);
    assert lines == before + [FolderLine(depth, f.name)] + sub + after;
    assert lines[|before| + 1..|before| + 1 + |sub|] == sub;
  }

  lemma {:induction false} FolderBlocksOfLinks(tree: Tree, cs: seq<Bookmark>, depth: nat, fuel: nat)
    requires forall i | 0 <= i < |cs| :: cs[i].url != ""
    ensures FolderBlocks(tree, cs, depth, fuel) == []
  {
    if cs != [] {
      FolderBlocksOfLinks(tree, cs[1..], depth, fuel);
    }
  }

  lemma {:induction false} LinksOfLinks(cs: seq<Bookmark>)
    requires forall i | 0 <= i < |cs| :: cs[i].url != ""
    ensures LinksOf(cs) == cs
  {
    if cs != [] {
      LinksOfLinks(cs[1..]);
      assert cs == [cs[0]] + cs[1..];
    }
  }

  /** A bucket without folder entries renders as its links alone, one line
      each in bucket order; nothing is looked up under any other key. */
  lemma {:induction false} RenderLinksOnly(tree: Tree, parent: string, depth: nat, fuel: nat)
    requires fuel > 0
    requires forall i | 0 <= i < |Children(tree, parent)| :: Children(tree, parent)[i].url != ""
    ensures RenderLines(tree, parent, depth, fuel) == LinkLines(Children(tree, parent), depth)
  {
    FolderBlocksOfLinks(tree, Children(tree, parent), depth, fuel - 1);
    LinksOfLinks(Children(tree, parent));
  }
}
