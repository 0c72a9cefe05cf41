# meteor-shower bookmark core, modelled in Dafny

meteor-shower finds Chromium-family and Firefox profiles, pulls out their
bookmarks, and prints them as a tree, a flat list or JSON. This project models
the pure core of that pipeline and proves properties of it:

- **Chromium walker** (`chromium.dfy`, module `Chromium`): `parseBookmarks`
  and the root loop of `extractBookmarks`. The input is an already-decoded
  JSON value (`Json.JValue`). The output is a sequence of `Bookmark` records
  in pre-order. Go's unchecked type assertions become `Failure` results.
- **Flat Chromium listing** (`chromium_flat.dfy`, module `ChromiumFlat`): the
  older walker in `extractChromiumBookmarks`. It classifies a child as a leaf
  when the child has a string `url`. It prints as it goes, so the model keeps
  the printed lines together with the failure that ended the walk.
- **Firefox row mapper** (`firefox.dfy`, module `Firefox`; `decimal.dfy`,
  module `Decimal` for `strconv.Atoi`). This is the body of
  `extractFirefoxBookmarks` after its two queries. The inputs are the
  id/title rows and the ordered bookmark rows.
- **Tree builder** (`tree_builder.dfy`, module `TreeBuilder`; `name_order.dfy`,
  module `NameOrder`). This is the loop in `main` that buckets records by
  their `Parent` string and then stable-sorts each bucket by `Name`.
- **Tree renderer** (`tree_render.dfy`, module `TreeRender`):
  `printBookmarkTree`, as structured lines (`RenderLines`) and as text
  (`PrintBookmarkTree`).
- **Worked example** (`scenarios.dfy`, module `Scenarios`): a small document
  pushed through the walker, the builder and the renderer.

`Bookmark` (`bookmark.dfy`) has the four string fields `id`, `name`, `url` and
`parent`, as the source fills them in. `Wrappers` and `Json` are support
modules.

Strings are `seq<char>`. Go compares strings byte by byte in UTF-8. For
Unicode scalar values, that order is the same as comparing code points, so
`NameOrder.Less` compares characters.

## Behaviour worth knowing

These points follow the code as written.

- `parseBookmarks` picks leaves by `type == "url"`, not by whether a `url` is
  present. A `url` child without a string `url` is fatal. Children whose type
  is neither `url` nor `folder` are skipped. Only the flat walker picks leaves
  by the presence of `url`.
- Neither walker emits a record for a folder. The Firefox query also selects
  only URL bookmarks. So a bucket holds a folder entry (empty `url`) only when
  some bookmark's url is itself the empty string. In practice the folder
  branch of `printBookmarkTree` never runs. In the worked example, rendering
  `bookmark_bar` prints the link `A` alone, not the folder `F` with `B` inside
  it (`Scenarios.DocumentRendering`).
- The Firefox loop scans the title into a plain Go `string`. A NULL title
  therefore makes `Scan` fail, which is fatal; it never becomes
  `"[No Title]"`. Only an empty title is replaced.
- When a parent id does not parse, the Firefox loop is not fatal. The
  function returns the records built so far.
- The parent map keeps titles as stored. NULL becomes `""`, and titles are
  not normalised, so an untitled parent folder resolves to `""`, the same as
  an unknown parent id.
- Bucketing followed by a stable sort does not give the same tree for every
  order of the input. Records with equal names keep their input order. Each
  bucket's multiset and its order of names are the same for every input
  order, but the records are not.

## Model

| member | source | states |
|---|---|---|
| Chromium.ParseChildren | meteor-shower/chromium.go:166-180 | every record of a successful walk has an empty `ID`; the record literal never sets it |
| Chromium.ParseBookmarksCount | meteor-shower/chromium.go:162-183 | a folder node with no `children` array yields no records; otherwise the walk yields one record per `url` node reachable through `folder` nodes |
| Chromium.ParseChildrenCount | meteor-shower/chromium.go:166-180 | a successful walk of a child list yields exactly as many records as there are `url` nodes reachable through chains of `folder` nodes |
| Chromium.ParseChildrenSucceedsIff | meteor-shower/chromium.go:165-178 | the walk succeeds exactly when every child is an object with string `type` and `name`, every `url` child has a string `url`, and every `folder` child is well formed in turn; otherwise it fails with no partial result |
| Chromium.ParseBookmarksSucceedsIff | meteor-shower/chromium.go:162-165 | a node without a `children` array always succeeds; otherwise the walk of a node succeeds exactly when its children are well formed |
| Chromium.ParseChildSucceedsIff | meteor-shower/chromium.go:167-178 | the walk of one child succeeds exactly when that child passes every unchecked assertion, recursively through folders |
| Chromium.ParseChildrenMembers | meteor-shower/chromium.go:171-179 | a record is emitted exactly when it belongs to a `url` node reached through `folder` nodes: empty ID, the node's `name` and `url`, and the name of its closest folder as `Parent`; nodes of other types contribute nothing |
| Chromium.ParseChildMembers | meteor-shower/chromium.go:171-178 | one child contributes exactly its own record if it is a `url` node, and the records under it, with its own name as parent, if it is a `folder` node |
| Chromium.ParseChildrenAppend | meteor-shower/chromium.go:166-180 | pre-order: the records of `a + c` are those of `a` followed by those of `c`, and a failure in `a` hides everything after it |
| Chromium.ExtractBookmarksSucceedsIff | meteor-shower/chromium.go:146-157 | extraction fails when the document is not an object or `roots` is missing or not an object; otherwise it succeeds exactly when every present object root is well formed |
| Chromium.ExtractBookmarksOrder | meteor-shower/chromium.go:153-157 | the roots contribute in the fixed order `bookmark_bar`, `other`, `synced`; an absent or non-object root contributes nothing |
| Chromium.ExtractBookmarksMembers | meteor-shower/chromium.go:153-156 | a record is extracted exactly when it comes from a reachable `url` node of a present root; top-level records carry the root key as `Parent` |
| ChromiumFlat.ListItemsAppend | meteor-shower/chromium.go:42-54 | the flat walk lists siblings in pre-order; once a child fails, later siblings are never visited, and lines printed before the failure remain |
| ChromiumFlat.ListItemsSucceedsIff | meteor-shower/chromium.go:39-54 | the flat walk completes exactly when every child is an object with string `id` and `name`, and every child without a string `url` is in turn walkable |
| ChromiumFlat.ListItemSucceedsIff | meteor-shower/chromium.go:43-53 | one child is listed without failure exactly when it is an object with string `id` and `name` whose subtree, if it has no string `url`, is walkable |
| ChromiumFlat.ListSectionSucceedsIff | meteor-shower/chromium.go:39-40 | a non-object section, or one without a `children` array, never fails; otherwise the section completes exactly when its children are walkable |
| ChromiumFlat.ListItemsMembers | meteor-shower/chromium.go:42-54 | the set of lines a completed flat walk prints is the set of lines of reachable nodes with a string `url`, whatever their `type`; every other child is walked as a folder |
| ChromiumFlat.ListItemMembers | meteor-shower/chromium.go:48-53 | the set of lines one child prints is its own line when it has a string `url`, and otherwise the set its subtree prints |
| ChromiumFlat.ListItemsCount | meteor-shower/chromium.go:42-54 | a completed flat walk prints exactly as many lines as there are reachable nodes with a string `url` (the independent `FlatLeaves`), so repeated nodes print repeated lines |
| ChromiumFlat.ListItemCount | meteor-shower/chromium.go:48-53 | a child with a string `url` prints exactly one line; any other child prints as many lines as its subtree has reachable url nodes |
| ChromiumFlat.ListSectionCount | meteor-shower/chromium.go:39-42 | a section prints as many lines as its `children` have reachable url nodes, and none when it is not an object or has no `children` array |
| ChromiumFlat.ExtractChromiumFlatOrder | meteor-shower/chromium.go:31-34 | a missing or non-object `roots` stops the listing before any line is printed; otherwise the sections are listed in the order bookmark_bar, other, synced, and a present section that is not an object prints nothing |
| ChromiumFlat.ExtractChromiumFlatSucceedsIff | meteor-shower/chromium.go:62-66 | the whole flat listing completes exactly when `roots` is an object and every present section is walkable (the independent `ListableSection`) |
| ChromiumFlat.ExtractChromiumFlatMembers | meteor-shower/chromium.go:62-66 | a completed listing prints exactly the lines reachable from the present sections, and as many as the sections' reachable url nodes added up |
| ChromiumFlat.ExtractChromiumFlatAgrees | meteor-shower/chromium.go:62-66 | on documents whose present object roots are shaped as Chromium writes them, the flat listing completes exactly when `extractBookmarks` succeeds, and both give the same names and urls in the same order |
| ChromiumFlat.ListSectionMembers | meteor-shower/chromium.go:39-42 | a section prints exactly the lines reachable through its `children` array, and nothing when it has none |
| ChromiumFlat.ListItemsAgrees | meteor-shower/chromium.go:42-54 | on nodes shaped as Chromium writes them, the flat walk and `parseBookmarks` both succeed and yield the same names and urls in the same order |
| ChromiumFlat.ListItemAgrees | meteor-shower/chromium.go:43-53 | on one such node, the flat walk and `parseBookmarks` agree on the names and urls produced |
| Decimal.Atoi | meteor-shower/firefox.go:145 | a parsed parent id always lies in the 64-bit signed range |
| Decimal.AtoiFormatInt | meteor-shower/firefox.go:145-149 | parsing the decimal text of any 64-bit integer gives that integer back |
| Firefox.ParentMap | meteor-shower/firefox.go:97-110 | the keys are exactly the row ids; each id maps to the title of its last row, and a NULL title maps to "" |
| Firefox.Normalize | meteor-shower/firefox.go:141-143 | an empty title becomes "[No Title]", a non-empty title is kept, and a name is never empty |
| Firefox.PassingPrefix | meteor-shower/firefox.go:135-149 | counts the leading rows whose title scans and whose parent id parses; the row right after them, if any, fails one of the two |
| Firefox.MapRowsRecords | meteor-shower/firefox.go:135-160 | one record per passing row, in row order: `ID` and `URL` copied, the name normalised, and `Parent` the parent map's entry for the parsed id or "" |
| Firefox.MapRowsStop | meteor-shower/firefox.go:137-149 | the loop runs to the end exactly when every row passes; it stops fatally exactly when the first failing row has a NULL title, and otherwise stops early |
| Firefox.MapRowsPrinted | meteor-shower/firefox.go:151-153 | in flat mode one line with id, title, url and raw parent id is printed per record; otherwise nothing is printed |
| Firefox.ExtractFirefoxOutcome | meteor-shower/firefox.go:135-166 | a NULL title is fatal; an unparsable parent id returns exactly the records of the preceding rows; a cursor error after a full pass is fatal; every returned record matches its row |
| Firefox.FlatOnlyPrints | meteor-shower/firefox.go:151-159 | the flat flag changes only what is printed, never the returned records |
| Firefox.MapRowsFlagIndependent | meteor-shower/firefox.go:151-159 | the records built and the way the loop ends do not depend on the flat flag |
| Firefox.ScannedRowsAllMapped | meteor-shower/firefox.go:145-158 | when parent ids are decimal texts of integers, as the driver scans them, no row stops the loop, and each parent is the title mapped to that id, or "" |
| NameOrder.LessIsLexicographic | meteor-shower/main.go:77 | string `<` holds exactly when the first string is a proper prefix of the second, or has the smaller character at the first difference |
| NameOrder.LessTotal | meteor-shower/main.go:77 | any two distinct names are ordered one way or the other |
| NameOrder.LessTransitive | meteor-shower/main.go:77 | string `<` is transitive |
| TreeBuilder.Buckets | meteor-shower/main.go:68-72 | every parent of the input is a key and no other string is; each bucket is exactly the subsequence of records with that parent, in input order |
| TreeBuilder.SortByName | meteor-shower/main.go:75-79 | the sorted bucket is non-decreasing by name, a permutation of the bucket, and stable: records with equal names keep their relative order |
| TreeBuilder.BuildTree | meteor-shower/main.go:68-79 | each bucket is sorted by name, is a permutation of the input records with that parent, and keeps equal-named records in input order |
| TreeBuilder.BuildTreeCovers | meteor-shower/main.go:70-72 | every input record lands in the bucket keyed by its `Parent` |
| TreeBuilder.BuildTreeSeparates | meteor-shower/main.go:70-72 | a bucket holds only input records whose `Parent` is its key |
| TreeBuilder.BucketMembers | meteor-shower/main.go:70-72 | a record is in bucket `k` exactly when it is an input record with parent `k` |
| TreeBuilder.BucketSizesSum | meteor-shower/main.go:68-72 | however the keys are enumerated, the bucket sizes add up to the number of input records |
| TreeBuilder.InsertSorted | meteor-shower/main.go:76-78 | inserting one record into a name-sorted bucket keeps it sorted |
| TreeBuilder.InsertWithName | meteor-shower/main.go:76 | the inserted record goes ahead of every record with the same name |
| TreeRender.RenderLinesShape | meteor-shower/main.go:159-172 | no line is shallower than the starting depth, and every folder line of the level, with its whole subtree, comes before every link line of the level |
| TreeRender.FolderBlocksShape | meteor-shower/main.go:160-165 | the first loop prints no link line at its own depth, and nothing shallower |
| TreeRender.PrintBookmarkTree | meteor-shower/main.go:154-157 | each printed line starts with exactly two spaces per level of its depth, which is never less than the starting depth |
| TreeRender.RenderLevel | meteor-shower/main.go:160-172 | the lines at the starting depth are the bucket's folders, then its links, each in bucket order and one per entry; an absent key renders nothing |
| TreeRender.RenderFolderSubtree | meteor-shower/main.go:161-164 | each folder line is followed at once by the rendering of the bucket keyed by the folder's name, one level deeper |
| TreeRender.RenderLinksOnly | meteor-shower/main.go:159-172 | a bucket with no folder entries renders as its links alone, in bucket order |
| Scenarios.DocumentRecords | meteor-shower/chromium.go:153-178 | the example document yields link A under `bookmark_bar` and then link B under folder F, and no record for F itself |
| Scenarios.DocumentRendering | meteor-shower/main.go:153-173 | in the tree built from the example's records, rendering the `bookmark_bar` bucket prints link A alone; folder F never appears under it |
| Scenarios.SingleLinkRendering | meteor-shower/main.go:159-172 | a bucket holding a single link renders as exactly that link's line |

## Left out

- Banner, flag parsing, the per-profile loops and the choice between flat, JSON and tree output (meteor-shower/main.go:16-66, 92-123): command-line glue.
- The top-level loop that prints each bucket with a header (meteor-shower/main.go:81-86, 137-142): it ranges over a Go map, whose order is unspecified, so no order of top-level buckets is modelled.
- Profile discovery (`findBookmarkFiles`, `findFirefoxProfile`): they run `find` and scan OS directories.
- Reading and decoding files (`os.Open`, `ioutil.ReadFile`, `json.Unmarshal`, `json.Decoder`): the decoded JSON value is the input. JSON numbers are never inspected, so they are kept as opaque reals and floating point is not modelled.
- SQLite access (`sql.Open`, both queries, the `ORDER BY dateAdded DESC`): the id/title rows and the ordered result rows are inputs. Only a NULL title is modelled as a scan failure, since the query excludes NULL urls and ids and parents are integers. A failing `Open` or `Query` is not modelled.
- `outputBookmarksJSON` (meteor-shower/main.go:175-183): a thin wrapper over `json.MarshalIndent`.
- meteor-shower/utils.go (`fileExists`, `copyFile`), and creating and removing the temporary database copy: filesystem I/O.
- Panics and `log.Fatal`/`log.Fatalf` become `Failure` results or a `Fatal` stop. Message texts are not modelled, and neither is the "Error:" line printed when a parent id does not parse.
- TreeRender.RenderLines: renders at most `fuel` levels. The source recurses on folder names without a bound, so when names form a cycle it never terminates. By the definition, `fuel` only cuts off a subtree `fuel` folder levels below the start; no lemma states when a given `fuel` is enough.
- The folder, shooting-star and arrow glyphs are opaque string constants.
- The header line `extractChromiumBookmarks` prints once `roots` is found (meteor-shower/chromium.go:61): it is constant text, so `Listing.listed` holds only the bookmark lines.
- Decimal.Atoi: models `strconv.Atoi` on a 64-bit platform; a 32-bit `int` range is not modelled.
