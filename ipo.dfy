/** `get_ipo` of stock.py: read the body rows of the first table of the IPO
    summary page, collapse newlines in every cell, and normalise the rows into
    the IPO table. Fetching and HTML parsing are not modelled: the status and
    what the parser finds in the page are inputs, and so is the lenient date
    parse behind `errors='coerce'`. */
module Ipo {
  import opened Outcomes
  import opened Strings
  import opened Dates
  import opened Frame

  /** Name of Company, Application Opened, Application Closed, Issue Price,
      Public Issue, Offer for Sale, Private Placement, Issue House,
      List Sought, Date of Listing. */
  const IPO_WIDTH := 10

  /** What the HTML parser finds in the page: no `<table>`, a first table with
      no `<tbody>`, or the stripped text of each `<td>` of each `<tr>` of it. */
  datatype IpoPage =
    | WithoutTable
    | TableWithoutBody
    | TableBody(rows: seq<seq<string>>)

  /** One row of the returned table; `index` is the DataFrame index label. A
      text field is `None` where the source row was padded. */
  datatype IpoRecord = IpoRecord(
    index: nat,
    company: Option<string>,
    applicationOpened: Option<Date>,
    applicationClosed: Option<Date>,
    issuePrice: Option<string>,
    publicIssue: Option<string>,
    offerForSale: Option<string>,
    privatePlacement: Option<string>,
    issueHouse: Option<string>,
    listSought: Option<string>,
    dateOfListing: Option<Date>)

  // -------------------------------------------------------- collecting the rows

  /** `rows` is `trs` with `.replace('\n', ' ')` applied to every cell, row by
      row and cell by cell in source order. */
  ghost predicate RowsCleaned(trs: seq<seq<string>>, rows: seq<seq<string>>)
  {
    && |rows| == |trs|
    && forall i :: 0 <= i < |trs| ==>
         && |rows[i]| == |trs[i]|
         && forall j :: 0 <= j < |trs[i]| ==> rows[i][j] == NewlinesToSpaces(trs[i][j])
  }

  /** The loop of stock.py lines 67-71: one cleaned row appended per `<tr>`. */
  method CollectRows(trs: seq<seq<string>>) returns (rows: seq<seq<string>>)
    ensures RowsCleaned(trs, rows)
  {
    rows := [];
    for n := 0 to |trs|
      invariant RowsCleaned(trs[..n], rows)
    {
      var cells := trs[n];
      var row := seq(|cells|, j requires 0 <= j < |cells| => NewlinesToSpaces(cells[j]));
      rows := rows + [row];
    }
    assert trs[..|trs|] == trs;
  }

  /** The cleaned rows are determined by the page, and no cell of them holds a
      newline. */
  lemma RowsCleanedUnique(trs: seq<seq<string>>, rows: seq<seq<string>>, other: seq<seq<string>>)
    requires RowsCleaned(trs, rows) && RowsCleaned(trs, other)
    ensures rows == other
    ensures forall i, j :: 0 <= i < |rows| && 0 <= j < |rows[i]| ==>
      '\n' !in rows[i][j] && |rows[i][j]| == |trs[i][j]|
  {
    forall i | 0 <= i < |rows| ensures rows[i] == other[i] {
      assert |rows[i]| == |other[i]|;
    }
  }

  // ------------------------------------------------------------ the normaliser

  /** `Application Closed`: padding and the placeholder `-` are absent (line
      77); every other value goes to the lenient parse, which yields absent for
      what it cannot read (line 78). */
  function ClosedDate(c: Option<string>, lenient: string -> Option<Date>): Option<Date>
  {
    match c
    case None => None
    case Some(t) => if t == "-" then None else lenient(t)
  }

  /** The record of one padded row of 10 cells, in the fixed column order. */
  function IpoRecordOf(index: nat, cells: seq<Option<string>>, lenient: string -> Option<Date>): IpoRecord
    requires |cells| == IPO_WIDTH
  {
    IpoRecord(
      index,
      cells[0],
      CellValue(CellDate(cells[1], SpaceFormat)),
      ClosedDate(cells[2], lenient),
      cells[3], cells[4], cells[5], cells[6], cells[7], cells[8],
      CellValue(CellDate(cells[9], SpaceFormat)))
  }

  /** The records of rows that fit the schema, padded, labelled 1..N. */
  function IpoTable(rows: seq<seq<string>>, lenient: string -> Option<Date>): (t: seq<IpoRecord>)
    requires FitsColumns(rows, IPO_WIDTH)
    ensures |t| == |rows| && forall i :: 0 <= i < |rows| ==> t[i].index == i + 1
  {
    seq(|rows|, i requires 0 <= i < |rows| => IpoRecordOf(i + 1, Pad(rows[i], IPO_WIDTH), lenient))
  }

  /** stock.py lines 73-79 on the cleaned rows: build the 10-column frame,
      label the rows 1..N, parse `Application Opened` strictly, `Application
      Closed` leniently, `Date of Listing` strictly, each over the whole column. */
  function NormalizeIpo(rows: seq<seq<string>>, lenient: string -> Option<Date>): (r: Outcome<IpoRecord>)
    ensures !r.Nothing?
    ensures r.Raised? ==> r.error.ColumnCountMismatch? || r.error.DateFormatError?
    ensures r.Table? <==>
      FitsColumns(rows, IPO_WIDTH) && DatesWellFormed(rows, 1, SpaceFormat) && DatesWellFormed(rows, 9, SpaceFormat)
    ensures r.Table? ==> |r.rows| == |rows| && forall i :: 0 <= i < |rows| ==> r.rows[i].index == i + 1
    ensures r.Raised? && r.error.ColumnCountMismatch? ==>
      && r.error.columns == IPO_WIDTH && r.error.had != IPO_WIDTH
      && (forall i :: 0 <= i < |rows| ==> |rows[i]| <= r.error.had)
      && exists i :: 0 <= i < |rows| && |rows[i]| == r.error.had
    ensures r.Raised? && r.error.DateFormatError? ==>
      && FitsColumns(rows, IPO_WIDTH) && r.error.row < |rows|
      && (|| (r.error.column == "Application Opened" && 1 < |rows[r.error.row]|
              && StrictDate(rows[r.error.row][1], SpaceFormat).Malformed?
              && DatesWellFormed(rows[..r.error.row], 1, SpaceFormat))
          || (r.error.column == "Date of Listing" && DatesWellFormed(rows, 1, SpaceFormat)
              && 9 < |rows[r.error.row]| && StrictDate(rows[r.error.row][9], SpaceFormat).Malformed?
              && DatesWellFormed(rows[..r.error.row], 9, SpaceFormat)))
  {
    match WidthMismatch(rows, IPO_WIDTH)
    case Some(w) => Raised(ColumnCountMismatch(IPO_WIDTH, w))
    case None =>
      match FirstBadDate(rows, 1, SpaceFormat)
      case Some(i) => Raised(DateFormatError("Application Opened", i))
      case None =>
        match FirstBadDate(rows, 9, SpaceFormat)
        case Some(i) => Raised(DateFormatError("Date of Listing", i))
        case None => Table(IpoTable(rows, lenient))
  }

  lemma NormalizeIpoTable(rows: seq<seq<string>>, lenient: string -> Option<Date>)
    requires NormalizeIpo(rows, lenient).Table?
    ensures FitsColumns(rows, IPO_WIDTH)
    ensures DatesWellFormed(rows, 1, SpaceFormat) && DatesWellFormed(rows, 9, SpaceFormat)
    ensures NormalizeIpo(rows, lenient).rows == IpoTable(rows, lenient)
  {
    assert WidthMismatch(rows, IPO_WIDTH).None?;
    assert FirstBadDate(rows, 1, SpaceFormat).None?;
    assert FirstBadDate(rows, 9, SpaceFormat).None?;
  }

  lemma IpoTableAt(rows: seq<seq<string>>, lenient: string -> Option<Date>, i: nat)
    requires FitsColumns(rows, IPO_WIDTH) && i < |rows|
    ensures IpoTable(rows, lenient)[i] == IpoRecordOf(i + 1, Pad(rows[i], IPO_WIDTH), lenient)
  {
  }

  /** Record `rec`, the `i`-th of the table, keeps the cells of its source row
      (at most 10 cells, the rest padding) in the fixed column order; each
      strict date is exactly the one its text spells (absent only for padding
      and missing-value spellings); the closing date is absent for padding and
      for `-`, and otherwise what the lenient parse gives. */
  ghost predicate RecordOfRow(rec: IpoRecord, i: nat, row: seq<string>, lenient: string -> Option<Date>)
  {
    && |row| <= IPO_WIDTH
    && rec.index == i + 1
    && rec.company == Cell(row, 0) && rec.issuePrice == Cell(row, 3) && rec.publicIssue == Cell(row, 4)
    && rec.offerForSale == Cell(row, 5) && rec.privatePlacement == Cell(row, 6)
    && rec.issueHouse == Cell(row, 7) && rec.listSought == Cell(row, 8)
    && DateOfCell(rec.applicationOpened, Cell(row, 1), SpaceFormat)
    && ((|row| <= 2 || row[2] == "-") ==> rec.applicationClosed.None?)
    && (2 < |row| && row[2] != "-" ==> rec.applicationClosed == lenient(row[2]))
    && DateOfCell(rec.dateOfListing, Cell(row, 9), SpaceFormat)
  }

  lemma IpoTableRow(rows: seq<seq<string>>, lenient: string -> Option<Date>, i: nat)
    requires FitsColumns(rows, IPO_WIDTH) && i < |rows|
    requires !CellDate(Cell(rows[i], 1), SpaceFormat).Malformed?
    requires !CellDate(Cell(rows[i], 9), SpaceFormat).Malformed?
    ensures RecordOfRow(IpoTable(rows, lenient)[i], i, rows[i], lenient)
  {
    IpoTableAt(rows, lenient, i);
    CellDateCorrect(Cell(rows[i], 1), SpaceFormat);
    CellDateCorrect(Cell(rows[i], 9), SpaceFormat);
  }

  /** Every record of a returned table is the record of its source row. */
  lemma IpoRecordsFromRows(rows: seq<seq<string>>, lenient: string -> Option<Date>, i: nat)
    requires NormalizeIpo(rows, lenient).Table? && i < |rows|
    ensures RecordOfRow(NormalizeIpo(rows, lenient).rows[i], i, rows[i], lenient)
  {
    NormalizeIpoTable(rows, lenient);
    IpoTableRow(rows, lenient, i);
  }

  /** Rows that differ at most in the `Application Closed` column. */
  ghost predicate SameButClosed(rows: seq<seq<string>>, other: seq<seq<string>>)
  {
    && |rows| == |other|
    && (forall i :: 0 <= i < |rows| ==> |rows[i]| == |other[i]|)
    && forall i, j :: 0 <= i < |rows| && 0 <= j < |rows[i]| && j != 2 ==> rows[i][j] == other[i][j]
  }

  /** `Application Closed` never decides whether the call fails: whatever that
      column holds and however the lenient parse reads it, the outcome is a
      table for both or the same error for both. */
  lemma ClosedColumnNeverFails(
    rows: seq<seq<string>>, other: seq<seq<string>>,
    lenient: string -> Option<Date>, otherLenient: string -> Option<Date>)
    requires SameButClosed(rows, other)
    ensures NormalizeIpo(rows, lenient).Table? == NormalizeIpo(other, otherLenient).Table?
    ensures NormalizeIpo(rows, lenient).Raised? ==> NormalizeIpo(rows, lenient) == NormalizeIpo(other, otherLenient)
  {
    WidthMismatchAgree(rows, other, IPO_WIDTH);
    FirstBadDateAgree(rows, other, 1, SpaceFormat);
    FirstBadDateAgree(rows, other, 9, SpaceFormat);
  }

  // -------------------------------------------------------------- the routine

  /** `get_ipo()`: a non-200 status prints a notice and returns nothing; a page
      without a table or without a table body raises (lines 63 and 68);
      otherwise the rows are collected and normalised. */
  method GetIpo(status: int, page: IpoPage, lenient: string -> Option<Date>) returns (r: Outcome<IpoRecord>)
    ensures status != 200 ==> r == Nothing(BadStatus(status))
    ensures status == 200 && page.WithoutTable? ==> r == Raised(NoTable)
    ensures status == 200 && page.TableWithoutBody? ==> r == Raised(NoBody)
    ensures status == 200 && page.TableBody? ==>
      exists rows :: RowsCleaned(page.rows, rows) && r == NormalizeIpo(rows, lenient)
  {
    if status != 200 {
      return Nothing(BadStatus(status));
    }
    match page
    case WithoutTable =>
      r := Raised(NoTable);
    case TableWithoutBody =>
      r := Raised(NoBody);
    case TableBody(trs) =>
      var rows := CollectRows(trs);
      r := NormalizeIpo(rows, lenient);
  }
}
