/**
 * One polling cycle of sheets_to_owrx after the sheet has been fetched
 * (main.py:88-112): the fetched rows become bookmarks, a row whose constructor
 * raises is dropped, and the document is written only when at least one bookmark
 * survived. A row with fewer than nine fields makes the unguarded indexing of the
 * log call at main.py:97 raise IndexError, which nothing in the cycle catches.
 */
module Cycle {
  import opened Wrappers
  import opened OptionLists
  import opened Bookmarks
  import Frequency
  import Modulation
  import Json
  import Serializer
  import JsonReader

  /** A row of the sheet: its cells, as strings, in column order. */
  type Row = seq<string>

  const FrequencyColumn: nat := 0
  const NameColumn: nat := 7
  const ModulationColumn: nat := 8

  /** The fewest cells a row needs for row[7], row[0] and row[8] to exist. */
  const RequiredCells: nat := 9

  /** What a cycle does after the fetch. */
  datatype Outcome =
    | NoDataFound              // no rows: warn and return, nothing written
    | NothingToWrite           // rows, but no bookmark survived: nothing written
    | Write(document: string)  // ./output/bookmarks.json is replaced by this text
    | IndexError(row: nat)     // this row is too short: the exception ends the cycle and the process

  predicate IsFull(row: Row) { |row| >= RequiredCells }

  /** The bookmark of a full row: Bookmark(row[7], row[0], row[8]), or None when the constructor raises. */
  function RowBookmark(row: Row): (r: Option<Bookmark>)
    requires IsFull(row)
    ensures r.Some? <==> Frequency.WellFormed(Frequency.ReplaceCommas(row[FrequencyColumn]))
    ensures r.Some? ==> r.value.name == row[NameColumn] && r.value.modulation == Modulation.Canonical(row[ModulationColumn])
  {
    NewBookmark(row[NameColumn], row[FrequencyColumn], row[ModulationColumn])
  }

  predicate AllFull(rows: seq<Row>) { forall i :: 0 <= i < |rows| ==> IsFull(rows[i]) }

  /** What constructing a bookmark from each row gives, row by row. */
  function Attempts(rows: seq<Row>): (r: seq<Option<Bookmark>>)
    requires AllFull(rows)
    ensures |r| == |rows| && forall i :: 0 <= i < |rows| ==> r[i] == RowBookmark(rows[i])
  {
    seq(|rows|, i requires 0 <= i < |rows| => RowBookmark(rows[i]))
  }

  /** The bookmarks of the rows, in row order, leaving out every row whose constructor raises. */
  function Survivors(rows: seq<Row>): (bookmarks: seq<Bookmark>)
    requires AllFull(rows)
    ensures |bookmarks| <= |rows|
  {
    Present(Attempts(rows))
  }

  lemma SurvivorsStep(rows: seq<Row>, i: nat)
    requires i < |rows| && AllFull(rows[..i]) && IsFull(rows[i])
    ensures AllFull(rows[..i + 1])
    ensures Survivors(rows[..i + 1]) == Survivors(rows[..i]) + (if RowBookmark(rows[i]).Some? then [RowBookmark(rows[i]).value] else [])
  {
    AttemptsStep(rows, i);
    PresentAppend(Attempts(rows[..i]), [RowBookmark(rows[i])]);
    PresentSingle(RowBookmark(rows[i]));
  }

  lemma AttemptsStep(rows: seq<Row>, i: nat)
    requires i < |rows| && AllFull(rows[..i]) && IsFull(rows[i])
    ensures AllFull(rows[..i + 1])
    ensures Attempts(rows[..i + 1]) == Attempts(rows[..i]) + [RowBookmark(rows[i])]
  {
    assert rows[..i + 1] == rows[..i] + [rows[i]];
  }

  /** The index of the first row with too few cells, if there is one. */
  function FirstShortRow(rows: seq<Row>): (r: Option<nat>)
    ensures r.None? <==> AllFull(rows)
    ensures r.Some? ==> r.value < |rows| && !IsFull(rows[r.value]) && AllFull(rows[..r.value])
  {
    if rows == [] then None
    else if !IsFull(rows[0]) then Some(0)
    else
      match FirstShortRow(rows[1..])
      case None => None
      case Some(k) => Some(k + 1)
  }

  /** What the cycle does with the fetched rows. */
  function CycleOutcome(rows: seq<Row>): (r: Outcome)
    ensures r == NoDataFound <==> rows == []
    ensures r.IndexError? ==> r.row < |rows| && !IsFull(rows[r.row]) && AllFull(rows[..r.row])
    ensures r.NothingToWrite? ==> AllFull(rows) && Survivors(rows) == []
    ensures r.Write? ==> AllFull(rows) && |Survivors(rows)| > 0
  {
    if rows == [] then NoDataFound
    else
      match FirstShortRow(rows)
      case Some(i) => IndexError(i)
      case None =>
        var bookmarks := Survivors(rows);
        if |bookmarks| > 0 then Write(Json.Dumps(Serializer.Document(bookmarks))) else NothingToWrite
  }

  /** The row loop of sheets_to_owrx and its decision to write, given the fetched rows. */
  method SheetsToOwrx(values: seq<Row>) returns (outcome: Outcome)
    ensures outcome == CycleOutcome(values)
  {
    if |values| == 0 {
      return NoDataFound;
    }
    var bookmarks: seq<Bookmark> := [];
    for i := 0 to |values|
      invariant AllFull(values[..i])
      invariant bookmarks == Survivors(values[..i])
    {
      var row := values[i];
      if |row| < RequiredCells {
        ShortRowAborts(values, i, []);
        return IndexError(i);
      }
      bookmarks := AppendRowBookmark(values, i, bookmarks);
    }
    assert values[..|values|] == values;
    FullRowsOutcome(values);
    if |bookmarks| > 0 {
      var jsonData := Serializer.BookmarksListToJson(bookmarks);
      outcome := Write(jsonData);
    } else {
      outcome := NothingToWrite;
    }
  }

  /**
   * The try block of the row loop: the bookmark of the full row values[i] is appended
   * to the survivors of the rows before it, or the row is dropped when the constructor raises.
   */
  method AppendRowBookmark(values: seq<Row>, i: nat, bookmarks: seq<Bookmark>) returns (next: seq<Bookmark>)
    requires i < |values| && AllFull(values[..i]) && IsFull(values[i])
    requires bookmarks == Survivors(values[..i])
    ensures AllFull(values[..i + 1])
    ensures next == Survivors(values[..i + 1])
  {
    var row := values[i];
    var bookmark := NewBookmark(row[NameColumn], row[FrequencyColumn], row[ModulationColumn]);
    SurvivorsStep(values, i);
    next := bookmarks;
    if bookmark.Some? {
      next := next + [bookmark.value];
    }
  }

  /** With rows, all of them full, the cycle writes the survivors' document when there are any. */
  lemma FullRowsOutcome(rows: seq<Row>)
    requires rows != [] && AllFull(rows)
    ensures CycleOutcome(rows) == if |Survivors(rows)| > 0 then Write(Json.Dumps(Serializer.Document(Survivors(rows)))) else NothingToWrite
  {
  }

  lemma {:induction false} FirstShortRowAt(rows: seq<Row>, i: nat)
    requires i < |rows| && AllFull(rows[..i]) && !IsFull(rows[i])
    ensures FirstShortRow(rows) == Some(i)
  {
    if i > 0 {
      assert rows[..i][0] == rows[0];
      assert rows[1..][..i - 1] == rows[..i][1..];
      assert rows[1..][i - 1] == rows[i];
      FirstShortRowAt(rows[1..], i - 1);
    }
  }

  // ---------------------------------------------------------------------------
  // Which bookmarks survive
  // ---------------------------------------------------------------------------

  lemma AllFullAppend(a: seq<Row>, b: seq<Row>)
    ensures AllFull(a + b) <==> AllFull(a) && AllFull(b)
  {
    assert forall i :: 0 <= i < |a| ==> (a + b)[i] == a[i];
    assert forall i :: 0 <= i < |b| ==> (a + b)[|a| + i] == b[i];
  }

  /** The survivors of two batches of rows are those of the first followed by those of the second. */
  lemma SurvivorsAppend(a: seq<Row>, b: seq<Row>)
    requires AllFull(a) && AllFull(b)
    ensures AllFull(a + b)
    ensures Survivors(a + b) == Survivors(a) + Survivors(b)
  {
    AttemptsAppend(a, b);
    PresentAppend(Attempts(a), Attempts(b));
  }

  lemma AttemptsAppend(a: seq<Row>, b: seq<Row>)
    requires AllFull(a) && AllFull(b)
    ensures AllFull(a + b)
    ensures Attempts(a + b) == Attempts(a) + Attempts(b)
  {
    AllFullAppend(a, b);
    var x, y := Attempts(a + b), Attempts(a) + Attempts(b);
    forall i | 0 <= i < |x|
      ensures x[i] == y[i]
    {
      if i < |a| {
        assert (a + b)[i] == a[i];
      } else {
        assert (a + b)[i] == b[i - |a|];
      }
    }
  }

  /** A row whose constructor raises is dropped, and the rows after it are still processed. */
  lemma DroppedRowSkipped(before: seq<Row>, row: Row, after: seq<Row>)
    requires AllFull(before) && IsFull(row) && AllFull(after)
    requires RowBookmark(row).None?
    ensures AllFull(before + [row] + after) && AllFull(before + after)
    ensures Survivors(before + [row] + after) == Survivors(before + after)
  {
    assert AllFull([row]);
    assert Survivors([row]) == [] by {
      assert Attempts([row]) == [None];
      PresentSingle(RowBookmark(row));
    }
    SurvivorsAppend(before, [row]);
    var front := before + [row];
    assert Survivors(front) == Survivors(before);
    SurvivorsAppend(front, after);
    SurvivorsAppend(before, after);
  }

  /** Every bookmark in the output is the bookmark of one of the rows. */
  lemma SurvivorsComeFromRows(rows: seq<Row>)
    requires AllFull(rows)
    ensures forall b :: b in Survivors(rows) ==> exists i :: 0 <= i < |rows| && RowBookmark(rows[i]) == Some(b)
  {
    PresentMembers(Attempts(rows));
  }

  /** When every row gives a bookmark, nothing is dropped and the bookmarks keep the row order. */
  lemma SurvivorsWhenAllParse(rows: seq<Row>)
    requires AllFull(rows)
    requires forall i :: 0 <= i < |rows| ==> RowBookmark(rows[i]).Some?
    ensures Survivors(rows) == seq(|rows|, i requires 0 <= i < |rows| => RowBookmark(rows[i]).value)
  {
    PresentAllSome(Attempts(rows));
  }

  /** Some bookmark survives exactly when some row gives one. */
  lemma SurvivorsNonEmpty(rows: seq<Row>)
    requires AllFull(rows)
    ensures |Survivors(rows)| > 0 <==> exists i :: 0 <= i < |rows| && RowBookmark(rows[i]).Some?
  {
    PresentNonEmpty(Attempts(rows));
  }

  /** The bookmark of row i sits in the output right after the survivors of the rows before it. */
  lemma SurvivorPosition(rows: seq<Row>, i: nat)
    requires AllFull(rows) && i < |rows| && RowBookmark(rows[i]).Some?
    ensures AllFull(rows[..i])
    ensures |Survivors(rows[..i])| < |Survivors(rows)|
    ensures Survivors(rows)[|Survivors(rows[..i])|] == RowBookmark(rows[i]).value
  {
    assert Attempts(rows)[..i] == Attempts(rows[..i]);
    PresentPosition(Attempts(rows), i);
  }

  // ---------------------------------------------------------------------------
  // The decision to write
  // ---------------------------------------------------------------------------

  /** The document is written exactly when there are rows, all of them full, and at least one gives a bookmark. */
  lemma WritesExactlyWhen(rows: seq<Row>)
    ensures CycleOutcome(rows).Write? <==>
      rows != [] && AllFull(rows) && exists i :: 0 <= i < |rows| && RowBookmark(rows[i]).Some?
  {
    if AllFull(rows) {
      SurvivorsNonEmpty(rows);
    }
  }

  /** No rows: nothing is written; all rows dropped: nothing is written either. */
  lemma NoWriteCases(rows: seq<Row>)
    ensures rows == [] ==> CycleOutcome(rows) == NoDataFound
    ensures rows != [] && AllFull(rows) && (forall i :: 0 <= i < |rows| ==> RowBookmark(rows[i]).None?)
            ==> CycleOutcome(rows) == NothingToWrite
  {
    if rows != [] && AllFull(rows) && (forall i :: 0 <= i < |rows| ==> RowBookmark(rows[i]).None?) {
      SurvivorsNonEmpty(rows);
    }
  }

  /**
   * The first row with fewer than nine cells ends the cycle with IndexError, whatever
   * came before it (bookmarks already built are not written) and whatever follows it.
   */
  lemma ShortRowAborts(rows: seq<Row>, i: nat, more: seq<Row>)
    requires i < |rows| && AllFull(rows[..i]) && !IsFull(rows[i])
    ensures CycleOutcome(rows) == IndexError(i)
    ensures CycleOutcome(rows[..i + 1] + more) == IndexError(i)
  {
    FirstShortRowAt(rows, i);
    var cut := rows[..i + 1] + more;
    assert cut[..i] == rows[..i] && cut[i] == rows[i];
    FirstShortRowAt(cut, i);
  }

  /**
   * The file a cycle writes reads back, as JSON, to exactly the bookmarks of the rows
   * that survived, in row order.
   */
  lemma WrittenFileReadsBack(rows: seq<Row>)
    requires CycleOutcome(rows).Write?
    ensures AllFull(rows)
    ensures JsonReader.Parse(CycleOutcome(rows).document).Some?
    ensures Serializer.ReadDocument(JsonReader.Parse(CycleOutcome(rows).document).value) == Some(Survivors(rows))
  {
    var bookmarks := Survivors(rows);
    JsonReader.ParseDumps(Serializer.Document(bookmarks));
  }

  // ---------------------------------------------------------------------------
  // Examples
  // ---------------------------------------------------------------------------

  /** One full row with frequency "100.500", name "VHF Tower" and modulation "AM" writes that one bookmark. */
  lemma ExampleOneRow()
    ensures CycleOutcome([["100.500", "", "", "", "", "", "", "VHF Tower", "AM"]])
            == Write(Json.Dumps(Serializer.Document([Bookmark("VHF Tower", 100500000, "am")])))
  {
    var row: Row := ["100.500", "", "", "", "", "", "", "VHF Tower", "AM"];
    assert IsFull(row);
    ExampleAmBookmark();
    assert RowBookmark(row) == Some(Bookmark("VHF Tower", 100500000, "am"));
    OneRowOutcome(row);
  }

  /** A single full row that gives a bookmark writes a document of that bookmark alone. */
  lemma OneRowOutcome(row: Row)
    requires IsFull(row) && RowBookmark(row).Some?
    ensures CycleOutcome([row]) == Write(Json.Dumps(Serializer.Document([RowBookmark(row).value])))
  {
    assert FirstShortRow([row]) == None;
    assert Attempts([row]) == [RowBookmark(row)];
    PresentSingle(RowBookmark(row));
  }

  /** A row holding only a frequency ends the cycle at that row, even after a good row. */
  lemma ExampleShortRow()
    ensures CycleOutcome([["100.500", "", "", "", "", "", "", "VHF Tower", "AM"], ["145.5"]]) == IndexError(1)
  {
    var rows: seq<Row> := [["100.500", "", "", "", "", "", "", "VHF Tower", "AM"], ["145.5"]];
    ShortRowAborts(rows, 1, []);
  }
}
