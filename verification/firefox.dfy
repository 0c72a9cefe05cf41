/** The part of `extractFirefoxBookmarks` that runs after the queries: the
    id-to-title parent map and the mapping of result rows to records. The
    database itself is not modelled; its rows are given, already ordered. */
module Firefox {
  import opened Wrappers
  import opened Bookmarks
  import opened Decimal

  /** A row of `SELECT id, title FROM moz_bookmarks`; a NULL title is `None`. */
  datatype TitleRow = TitleRow(id: int, title: Option<string>)

  /** A row of the bookmark query, in query order. Every column is scanned
      into a Go string; only the title can be NULL (the query keeps non-NULL
      urls, and ids and parents are integers). */
  datatype PlaceRow = PlaceRow(id: string, title: Option<string>, url: string, parentId: string)

  /** How the row loop ended. */
  datatype Stop =
    | Exhausted            // every row was consumed
    | Early                // a parent id failed to parse: `return` with what was built
    | Fatal(error: Error)  // `log.Fatalf`: the process ends

  /** The lines printed in flat mode, the records built, and how the loop ended. */
  datatype RowsRun = RowsRun(printed: seq<string>, records: seq<Bookmark>, stop: Stop)

  /** What one call of the extraction prints and returns. */
  datatype FirefoxRun = FirefoxRun(printed: seq<string>, outcome: Result<seq<Bookmark>, Error>)

  const NoTitle: string := "[No Title]"

  /** `sql.NullString.String`: the empty string for NULL. */
  function TitleText(t: Option<string>): string {
    if t.Some? then t.value else ""
  }

  /** No later row has the same id, so this row's title is the one kept. */
  ghost predicate LastWithId(rows: seq<TitleRow>, i: int)
    requires 0 <= i < |rows|
  {
    forall j | i < j < |rows| :: rows[j].id != rows[i].id
  }

  /** Some row has id `k`. */
  predicate HasId(rows: seq<TitleRow>, k: int) {
    exists i | 0 <= i < |rows| :: rows[i].id == k
  }

  /** The parent map: every row id is a key, and it maps to the title of the
      last row with that id, NULL read as "". */
  function ParentMap(rows: seq<TitleRow>): (m: map<int, string>)
    ensures forall k :: k in m <==> HasId(rows, k)
    ensures forall i | 0 <= i < |rows| && LastWithId(rows, i) :: rows[i].id in m && m[rows[i].id] == TitleText(rows[i].title)
  {
    if rows == [] then map[]
    else
      var init := rows[..|rows| - 1];
      var last := rows[|rows| - 1];
      var m := ParentMap(init);
      assert rows == init + [last];
      ParentMapStep(init, last, m);
      m[last.id := TitleText(last.title)]
  }

  /** One iteration of the loop filling the parent map keeps its invariant. */
  lemma {:induction false} ParentMapStep(init: seq<TitleRow>, last: TitleRow, m: map<int, string>)
    requires forall k :: k in m <==> HasId(init, k)
    requires forall i | 0 <= i < |init| && LastWithId(init, i) :: init[i].id in m && m[init[i].id] == TitleText(init[i].title)
    ensures var m' := m[last.id := TitleText(last.title)];
      && (forall k :: k in m' <==> HasId(init + [last], k))
      && (forall i | 0 <= i < |init + [last]| && LastWithId(init + [last], i) ::
            (init + [last])[i].id in m' && m'[(init + [last])[i].id] == TitleText((init + [last])[i].title))
  {
    var rows := init + [last];
    assert rows[|init|] == last;
    forall k | HasId(init, k) ensures HasId(rows, k) {
      var i :| 0 <= i < |init| && init[i].id == k;
      assert rows[i] == init[i];
    }
    forall i | 0 <= i < |init| && LastWithId(rows, i) ensures LastWithId(init, i) {
      assert rows[i] == init[i];
      forall j | i < j < |init| ensures init[j].id != init[i].id {
        assert rows[j] == init[j];
      }
    }
  }

  /** The display name: an empty title becomes "[No Title]". */
  function Normalize(title: string): (name: string)
    ensures name != ""
    ensures title != "" ==> name == title
    ensures title == "" ==> name == NoTitle
  {
    if title == "" then NoTitle else title
  }

  /** `parentMap[parent]`: Go's zero value "" for a missing key. */
  function ResolveParent(parentMap: map<int, string>, id: int): string {
    if id in parentMap then parentMap[id] else ""
  }

  /** The flat-mode line: id, title, url and raw parent id. */
  function FlatLine(row: PlaceRow, name: string): string {
    "\U{1F320} - " + row.id + ", " + name + ": " + row.url + "  " + row.parentId
  }

  /** The row loop. A NULL title makes `Scan` fail (fatal); an unparsable
      parent id ends the loop early. */
  function MapRows(parentMap: map<int, string>, rows: seq<PlaceRow>, flat: bool): RowsRun {
    if rows == [] then RowsRun([], [], Exhausted)
    else
      var row := rows[0];
      if row.title.None? then RowsRun([], [], Fatal(RowUnreadable))
      else
        var name := Normalize(row.title.value);
        match Atoi(row.parentId)
        case None => RowsRun([], [], Early)
        case Some(p) =>
          var rest := MapRows(parentMap, rows[1..], flat);
          RowsRun((if flat then [FlatLine(row, name)] else []) + rest.printed,
                  [Bookmark(row.id, name, row.url, ResolveParent(parentMap, p))] + rest.records,
                  rest.stop)
  }

  /** `extractFirefoxBookmarks` given the rows of its two queries and whether
      the cursor reported an error after its last row. */
  function ExtractFirefox(titleRows: seq<TitleRow>, rows: seq<PlaceRow>, cursorFailed: bool, flat: bool): FirefoxRun {
    var run := MapRows(ParentMap(titleRows), rows, flat);
    match run.stop
    case Fatal(e) => FirefoxRun(run.printed, Failure(e))
    case Early => FirefoxRun(run.printed, Success(run.records))
    case Exhausted =>
      FirefoxRun(run.printed, if cursorFailed then Failure(RowIteration) else Success(run.records))
  }

  // ---------------------------------------------------------------------
  // Reference definitions

  /** A row the loop gets past: its title scans and its parent id parses. */
  predicate Passes(row: PlaceRow) {
    row.title.Some? && Atoi(row.parentId).Some?
  }

  /** The number of rows before the first one the loop does not get past. */
  function PassingPrefix(rows: seq<PlaceRow>): (k: nat)
    ensures k <= |rows|
    ensures forall i | 0 <= i < k :: Passes(rows[i])
    ensures k < |rows| ==> !Passes(rows[k])
  {
    if rows == [] || !Passes(rows[0]) then 0
    else
      var k := PassingPrefix(rows[1..]);
      assert forall i | 0 <= i < |rows| - 1 :: rows[1..][i] == rows[i + 1];
      1 + k
  }

  /** The record a passing row becomes. */
  predicate RecordOfRow(parentMap: map<int, string>, row: PlaceRow, b: Bookmark)
    requires Passes(row)
  {
    && b.id == row.id
    && b.url == row.url
    && (row.title.value == "" ==> b.name == NoTitle)
    && (row.title.value != "" ==> b.name == row.title.value)
    && b.parent == (if Atoi(row.parentId).value in parentMap then parentMap[Atoi(row.parentId).value] else "")
  }

  // ---------------------------------------------------------------------
  // Properties of the row mapping

  /** One passing row: its line and record, then the rest of the loop. */
  lemma {:induction false} MapRowsCons(parentMap: map<int, string>, rows: seq<PlaceRow>, flat: bool)
    requires rows != [] && Passes(rows[0])
    ensures var rest := MapRows(parentMap, rows[1..], flat);
      var name := Normalize(rows[0].title.value);
      MapRows(parentMap, rows, flat) ==
        RowsRun((if flat then [FlatLine(rows[0], name)] else []) + rest.printed,
                [Bookmark(rows[0].id, name, rows[0].url, ResolveParent(parentMap, Atoi(rows[0].parentId).value))] + rest.records,
                rest.stop)
  {
  }

  /** The loop builds one record per passing row, in row order. */
  lemma {:induction false} MapRowsRecords(parentMap: map<int, string>, rows: seq<PlaceRow>, flat: bool)
    ensures |MapRows(parentMap, rows, flat).records| == PassingPrefix(rows)
    ensures forall i | 0 <= i < |MapRows(parentMap, rows, flat).records| ::
      RecordOfRow(parentMap, rows[i], MapRows(parentMap, rows, flat).records[i])
    decreases rows
  {
    if rows != [] && Passes(rows[0]) {
      MapRowsRecords(parentMap, rows[1..], flat);
      MapRowsCons(parentMap, rows, flat);
      var run := MapRows(parentMap, rows, flat);
      var rest := MapRows(parentMap, rows[1..], flat);
      assert run.records == [run.records[0]] + rest.records;
      forall i | 0 <= i < |run.records| ensures RecordOfRow(parentMap, rows[i], run.records[i]) {
        if i > 0 {
          assert run.records[i] == rest.records[i - 1];
          assert rows[i] == rows[1..][i - 1];
        }
      }
    }
  }

  /** In flat mode one line is printed per record, before the next row is
      read; otherwise nothing is printed. */
  lemma {:induction false} MapRowsPrinted(parentMap: map<int, string>, rows: seq<PlaceRow>, flat: bool)
    ensures flat ==> |MapRows(parentMap, rows, flat).printed| == PassingPrefix(rows)
    ensures flat ==> forall i | 0 <= i < |MapRows(parentMap, rows, flat).printed| ::
      Passes(rows[i]) &&
      MapRows(parentMap, rows, flat).printed[i] == FlatLine(rows[i], Normalize(rows[i].title.value))
    ensures !flat ==> MapRows(parentMap, rows, flat).printed == []
    decreases rows
  {
    if rows != [] && Passes(rows[0]) {
      MapRowsPrinted(parentMap, rows[1..], flat);
      MapRowsCons(parentMap, rows, flat);
      var run := MapRows(parentMap, rows, flat);
      var rest := MapRows(parentMap, rows[1..], flat);
      if flat {
        forall i | 0 <= i < |run.printed|
          ensures Passes(rows[i]) && run.printed[i] == FlatLine(rows[i], Normalize(rows[i].title.value))
        {
          if i > 0 {
            assert run.printed[i] == rest.printed[i - 1];
            assert rows[i] == rows[1..][i - 1];
          }
        }
      }
    }
  }

  /** The loop stops at the first row that does not pass: fatally when its
      title is NULL, early when its parent id does not parse; it runs to the
      end only when every row passes. */
  lemma {:induction false} MapRowsStop(parentMap: map<int, string>, rows: seq<PlaceRow>, flat: bool)
    ensures MapRows(parentMap, rows, flat).stop == Exhausted <==> PassingPrefix(rows) == |rows|
    ensures MapRows(parentMap, rows, flat).stop.Fatal? <==>
      PassingPrefix(rows) < |rows| && rows[PassingPrefix(rows)].title.None?
    ensures MapRows(parentMap, rows, flat).stop.Fatal? ==> MapRows(parentMap, rows, flat).stop.error == RowUnreadable
    decreases rows
  {
    if rows != [] && Passes(rows[0]) {
      MapRowsStop(parentMap, rows[1..], flat);
      MapRowsCons(parentMap, rows, flat);
      if PassingPrefix(rows) < |rows| {
        assert rows[1..][PassingPrefix(rows) - 1] == rows[PassingPrefix(rows)];
      }
    }
  }

  /** The outcome of an extraction: a NULL title before any unparsable parent
      id is fatal; otherwise the records of the passing rows are returned,
      unless every row passed and the cursor then reported an error. */
  lemma {:induction false} ExtractFirefoxOutcome(titleRows: seq<TitleRow>, rows: seq<PlaceRow>, cursorFailed: bool, flat: bool)
    ensures var out := ExtractFirefox(titleRows, rows, cursorFailed, flat).outcome;
      var k := PassingPrefix(rows);
      && (k < |rows| && rows[k].title.None? ==> out == Failure(RowUnreadable))
      && (k < |rows| && rows[k].title.Some? ==> out.Success? && |out.value| == k)
      && (k == |rows| && cursorFailed ==> out == Failure(RowIteration))
      && (k == |rows| && !cursorFailed ==> out.Success? && |out.value| == |rows|)
      && (out.Success? ==> forall i | 0 <= i < |out.value| ::
            RecordOfRow(ParentMap(titleRows), rows[i], out.value[i]))
  {
    MapRowsRecords(ParentMap(titleRows), rows, flat);
    MapRowsStop(ParentMap(titleRows), rows, flat);
  }

  /** The flat flag only adds printing: the returned records are the same
      with and without it, and without it nothing is printed. */
  lemma {:induction false} FlatOnlyPrints(titleRows: seq<TitleRow>, rows: seq<PlaceRow>, cursorFailed: bool)
    ensures ExtractFirefox(titleRows, rows, cursorFailed, true).outcome
         == ExtractFirefox(titleRows, rows, cursorFailed, false).outcome
    ensures ExtractFirefox(titleRows, rows, cursorFailed, false).printed == []
  {
    var pm := ParentMap(titleRows);
    MapRowsPrinted(pm, rows, false);
    MapRowsFlagIndependent(pm, rows);
  }

  lemma {:induction false} MapRowsFlagIndependent(parentMap: map<int, string>, rows: seq<PlaceRow>)
    ensures MapRows(parentMap, rows, true).records == MapRows(parentMap, rows, false).records
    ensures MapRows(parentMap, rows, true).stop == MapRows(parentMap, rows, false).stop
    decreases rows
  {
    if rows != [] {
      MapRowsFlagIndependent(parentMap, rows[1..]);
    }
  }

  /** With titles present and parent ids as the driver scans integer
      columns, the loop never stops early: every row yields a record, whose
      parent is the title the parent map holds for that id, or "". */
  lemma {:induction false} ScannedRowsAllMapped(titleRows: seq<TitleRow>, rows: seq<PlaceRow>, parents: seq<int>)
    requires |parents| == |rows|
    requires forall i | 0 <= i < |rows| :: rows[i].title.Some?
    requires forall i | 0 <= i < |rows| :: MinInt64 <= parents[i] <= MaxInt64 && rows[i].parentId == FormatInt(parents[i])
    ensures var out := ExtractFirefox(titleRows, rows, false, false).outcome;
      && out.Success?
      && |out.value| == |rows|
      && forall i | 0 <= i < |rows| ::
           out.value[i].parent == ResolveParent(ParentMap(titleRows), parents[i])
  {
    forall i | 0 <= i < |rows| ensures Passes(rows[i]) && Atoi(rows[i].parentId) == Some(parents[i]) {
      AtoiFormatInt(parents[i]);
    }
    ExtractFirefoxOutcome(titleRows, rows, false, false);
  }
}
