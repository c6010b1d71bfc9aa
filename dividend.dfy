/** `get_dividend` of stock.py: locate the `var dtdata = [...]` array literal in
    the page text, repair it, and normalise the decoded rows into the dividend
    table. Fetching the page and decoding JSON are not modelled: the status,
    the text and the decoder are inputs. */
module Dividend {
  import opened Outcomes
  import opened Strings
  import opened Dates
  import opened Frame

  // --------------------------------------------------------------- the locator

  /** The literal text in front of the payload in `var dtdata = (\[.*?\])\];`. */
  const MARKER := "var dtdata = ["
  /** The text that ends the match: the group's closing `]`, then `];`. */
  const TERMINATOR := "]];"

  /** The pattern matches `text` from index `p`, with the first `]` of the
      terminator at index `q`. */
  ghost predicate IsMatch(text: string, p: nat, q: nat)
  {
    OccursAt(text, MARKER, p) && p + |MARKER| <= q && OccursAt(text, TERMINATOR, q)
  }

  /** The match `re.search` reports: the leftmost start and, for it, the
      shortest body (the `.*?` is non-greedy and, under DOTALL, takes any
      character). */
  ghost predicate IsFirstMatch(text: string, p: nat, q: nat)
  {
    && IsMatch(text, p, q)
    && forall p': nat, q': nat :: IsMatch(text, p', q') ==> p < p' || (p == p' && q <= q')
  }

  /** `match.group(1) + ']'`, or None where `re.search` finds no match. */
  function ExtractPayload(text: string): Option<string>
  {
    match IndexOf(text, MARKER, 0)
    case None => None
    case Some(p) =>
      match IndexOf(text, TERMINATOR, p + |MARKER|)
      case None => None
      case Some(q) => Some(text[p + |MARKER| - 1..q + 1] + "]")
  }

  /** Without the marker the pattern cannot match. */
  lemma NoMarkerNoMatch(text: string)
    requires IndexOf(text, MARKER, 0).None?
    ensures forall p: nat, q: nat :: !IsMatch(text, p, q)
  {
  }

  /** Without a terminator after the leftmost marker the pattern cannot match:
      any later marker is followed by less text still. */
  lemma NoTerminatorNoMatch(text: string, p: nat)
    requires IndexOf(text, MARKER, 0) == Some(p)
    requires IndexOf(text, TERMINATOR, p + |MARKER|).None?
    ensures forall p': nat, q': nat :: !IsMatch(text, p', q')
  {
    forall p': nat, q': nat ensures !IsMatch(text, p', q') {
      assert OccursAt(text, MARKER, p') ==> p <= p';
    }
  }

  /** A slice that opens with `[` and closes with `]`, plus one more `]`. */
  lemma Bracketed(text: string, a: nat, q: nat)
    requires a < q < |text| && text[a] == '[' && text[q] == ']'
    ensures text[a..q + 1] + "]" == "[" + text[a + 1..q] + "]]"
  {
    assert text[a..q + 1] == [text[a]] + text[a + 1..q] + [text[q]];
  }

  /** The two scans find the leftmost start and, for it, the shortest body. */
  lemma ScanFindsFirstMatch(text: string, p: nat, q: nat)
    requires IndexOf(text, MARKER, 0) == Some(p)
    requires IndexOf(text, TERMINATOR, p + |MARKER|) == Some(q)
    ensures IsFirstMatch(text, p, q)
  {
  }

  /** The leftmost marker and the first terminator after it are the match, and
      the group plus `]` is `[`, the text between them, and `]]`. */
  lemma FoundMatch(text: string, p: nat, q: nat)
    requires IndexOf(text, MARKER, 0) == Some(p)
    requires IndexOf(text, TERMINATOR, p + |MARKER|) == Some(q)
    ensures IsFirstMatch(text, p, q)
    ensures ExtractPayload(text) == Some("[" + text[p + |MARKER|..q] + "]]")
  {
    ScanFindsFirstMatch(text, p, q);
    var a := p + |MARKER| - 1;
    assert text[a] == '[' by {
      assert text[p..p + |MARKER|][|MARKER| - 1] == text[a];
    }
    assert text[q] == ']' by {
      assert text[q..q + |TERMINATOR|][0] == text[q];
    }
    assert ExtractPayload(text) == Some(text[a..q + 1] + "]");
    Bracketed(text, a, q);
  }

  /** The payload is found exactly when the pattern matches somewhere; it is
      then `[`, the text after the leftmost marker up to the first terminator
      after it, and `]]`. */
  lemma ExtractPayloadCorrect(text: string)
    ensures ExtractPayload(text).Some? <==> exists p: nat, q: nat :: IsMatch(text, p, q)
    ensures ExtractPayload(text).Some? ==>
      exists p: nat, q: nat :: IsFirstMatch(text, p, q)
        && ExtractPayload(text).value == "[" + text[p + |MARKER|..q] + "]]"
  {
    match IndexOf(text, MARKER, 0)
    case None =>
      NoMarkerNoMatch(text);
    case Some(p) =>
      match IndexOf(text, TERMINATOR, p + |MARKER|)
      case None =>
        NoTerminatorNoMatch(text, p);
      case Some(q) =>
        FoundMatch(text, p, q);
  }

  /** Conversely, the first match fixes the payload. */
  lemma ExtractPayloadOfFirstMatch(text: string, p: nat, q: nat)
    requires IsFirstMatch(text, p, q)
    ensures ExtractPayload(text) == Some("[" + text[p + |MARKER|..q] + "]]")
  {
    ExtractPayloadCorrect(text);
    var p': nat, q': nat :| IsFirstMatch(text, p', q')
      && ExtractPayload(text).value == "[" + text[p' + |MARKER|..q'] + "]]";
    assert p == p' && q == q';
  }

  /** The shape of the repaired payload: it opens with `[`, closes with `]]`,
      and what lies between is copied from the page and holds no terminator. */
  lemma ExtractPayloadShape(text: string)
    requires ExtractPayload(text).Some?
    ensures var r := ExtractPayload(text).value;
      && |r| >= 3 && r[0] == '[' && r[|r| - 2..] == "]]"
      && (exists p: nat, q: nat :: IsMatch(text, p, q) && r[1..|r| - 2] == text[p + |MARKER|..q]
            && forall x: nat :: p + |MARKER| <= x < q ==> !OccursAt(text, TERMINATOR, x))
  {
    ExtractPayloadCorrect(text);
    var r := ExtractPayload(text).value;
    var p: nat, q: nat :| IsFirstMatch(text, p, q) && r == "[" + text[p + |MARKER|..q] + "]]";
    assert r[1..|r| - 2] == text[p + |MARKER|..q];
    forall x: nat | p + |MARKER| <= x < q ensures !OccursAt(text, TERMINATOR, x) {
      assert IsMatch(text, p, x) ==> q <= x;
    }
  }

  lemma PageMarker(body: string, rest: string)
    ensures IndexOf(MARKER + body + TERMINATOR + rest, MARKER, 0) == Some(0)
  {
    var text := MARKER + body + TERMINATOR + rest;
    OccursBetween([], MARKER, body + TERMINATOR + rest);
    assert [] + MARKER + (body + TERMINATOR + rest) == text;
    IndexOfAt(text, MARKER, 0, 0);
  }

  lemma PageTerminator(body: string, rest: string)
    requires forall x: nat :: x < |body| ==> !OccursAt(body + TERMINATOR, TERMINATOR, x)
    ensures IndexOf(MARKER + body + TERMINATOR + rest, TERMINATOR, |MARKER|) == Some(|MARKER| + |body|)
  {
    var closed := body + TERMINATOR;
    var text := MARKER + closed + rest;
    assert MARKER + body + TERMINATOR + rest == text;
    OccursBetween(MARKER + body, TERMINATOR, rest);
    forall j: nat | |MARKER| <= j < |MARKER| + |body| ensures !OccursAt(text, TERMINATOR, j) {
      var x := j - |MARKER|;
      assert text[j..j + |TERMINATOR|] == closed[x..x + |TERMINATOR|] by {
        assert text[|MARKER|..|MARKER| + |closed|] == closed;
      }
      assert !OccursAt(closed, TERMINATOR, x);
    }
    IndexOfAt(text, TERMINATOR, |MARKER|, |MARKER| + |body|);
  }

  /** A page that opens with the marker, then a body in which no terminator
      begins, then the terminator: the payload is that body in brackets. */
  lemma PayloadOfPage(body: string, rest: string)
    requires forall x: nat :: x < |body| ==> !OccursAt(body + TERMINATOR, TERMINATOR, x)
    ensures ExtractPayload(MARKER + body + TERMINATOR + rest) == Some("[" + body + "]]")
  {
    var text := MARKER + body + TERMINATOR + rest;
    PageMarker(body, rest);
    PageTerminator(body, rest);
    FoundMatch(text, 0, |MARKER| + |body|);
    assert text[|MARKER|..|MARKER| + |body|] == body;
  }

  // ------------------------------------------------------------ the normaliser

  /** The decoded rows are read under these 9 column names; `Blank` is dropped. */
  const RAW_WIDTH := 9
  const BLANK := 7
  const ENTITLEMENT_PATH := "/web/stock/entitlement/"
  const SITE_BASE := "https://klse.i3investor.com/"

  /** One row of the returned table; `index` is the DataFrame index label. A
      text field is `None` where the source row was padded. Prices and the
      dividend stay the raw values of the payload. */
  datatype DividendRecord = DividendRecord(
    index: nat,
    announcementDate: Option<Date>,
    stockName: Option<string>,
    openingPrice: Option<string>,
    currentPrice: Option<string>,
    dividend: Option<string>,
    exDate: Option<Date>,
    stockCode: Option<string>,
    url: Option<string>)

  /** `df.drop(columns=[...])` on one row: the cell at `k` goes, the others keep
      their order. */
  function DropColumn<T>(row: seq<T>, k: nat): (r: seq<T>)
    requires k < |row|
    ensures |r| == |row| - 1
    ensures forall j :: 0 <= j < k ==> r[j] == row[j]
    ensures forall j :: k <= j < |r| ==> r[j] == row[j + 1]
  {
    row[..k] + row[k + 1..]
  }

  /** `.str.replace(ENTITLEMENT_PATH, '')` on one cell; padding stays missing. */
  function StockCodeOf(c: Option<string>): Option<string>
  {
    match c
    case None => None
    case Some(t) => Some(DeleteAll(t, ENTITLEMENT_PATH))
  }

  /** `SITE_BASE + cell`; padding stays missing. */
  function UrlOf(c: Option<string>): Option<string>
  {
    match c
    case None => None
    case Some(t) => Some(SITE_BASE + t)
  }

  /** The record for the cells left after the drop, in the order
      Announcement Date, Stock Name, Opening Price, Current Price, Dividend,
      Ex Date, Stock Code, URL. */
  function DividendRecordOf(index: nat, cells: seq<Option<string>>): DividendRecord
    requires |cells| == RAW_WIDTH - 1
  {
    DividendRecord(
      index,
      CellValue(CellDate(cells[0], DashFormat)),
      cells[1], cells[2], cells[3], cells[4],
      CellValue(CellDate(cells[5], DashFormat)),
      StockCodeOf(cells[6]),
      UrlOf(cells[7]))
  }

  /** stock.py lines 32-38 on the decoded rows: build the 9-column frame, drop
      `Blank`, rewrite `Stock Code` and `URL`, label the rows 1..N, then parse
      `Announcement Date` and `Ex Date` strictly, each over the whole column. */
  function NormalizeDividends(rows: seq<seq<string>>): (r: Outcome<DividendRecord>)
    ensures !r.Nothing?
    ensures r.Raised? ==> r.error.ColumnCountMismatch? || r.error.DateFormatError?
    ensures r.Table? <==>
      FitsColumns(rows, RAW_WIDTH) && DatesWellFormed(rows, 0, DashFormat) && DatesWellFormed(rows, 5, DashFormat)
    ensures r.Table? ==> |r.rows| == |rows| && forall i :: 0 <= i < |rows| ==> r.rows[i].index == i + 1
    ensures r.Raised? && r.error.ColumnCountMismatch? ==>
      && r.error.columns == RAW_WIDTH && r.error.had != RAW_WIDTH
      && (forall i :: 0 <= i < |rows| ==> |rows[i]| <= r.error.had)
      && exists i :: 0 <= i < |rows| && |rows[i]| == r.error.had
    ensures r.Raised? && r.error.DateFormatError? ==>
      && FitsColumns(rows, RAW_WIDTH) && r.error.row < |rows|
      && (|| (r.error.column == "Announcement Date" && 0 < |rows[r.error.row]|
              && StrictDate(rows[r.error.row][0], DashFormat).Malformed?
              && DatesWellFormed(rows[..r.error.row], 0, DashFormat))
          || (r.error.column == "Ex Date" && DatesWellFormed(rows, 0, DashFormat)
              && 5 < |rows[r.error.row]| && StrictDate(rows[r.error.row][5], DashFormat).Malformed?
              && DatesWellFormed(rows[..r.error.row], 5, DashFormat)))
  {
    match WidthMismatch(rows, RAW_WIDTH)
    case Some(w) => Raised(ColumnCountMismatch(RAW_WIDTH, w))
    case None =>
      match FirstBadDate(rows, 0, DashFormat)
      case Some(i) => Raised(DateFormatError("Announcement Date", i))
      case None =>
        match FirstBadDate(rows, 5, DashFormat)
        case Some(i) => Raised(DateFormatError("Ex Date", i))
        case None => Table(DividendTable(rows))
  }

  /** The records of rows that fit the schema, padded, labelled 1..N. */
  function DividendTable(rows: seq<seq<string>>): (t: seq<DividendRecord>)
    requires FitsColumns(rows, RAW_WIDTH)
    ensures |t| == |rows| && forall i :: 0 <= i < |rows| ==> t[i].index == i + 1
  {
    seq(|rows|, i requires 0 <= i < |rows| =>
      DividendRecordOf(i + 1, DropColumn(Pad(rows[i], RAW_WIDTH), BLANK)))
  }

  lemma PrefixAndSuffix(a: string, b: string)
    ensures (a + b)[..|a|] == a && (a + b)[|a|..] == b
  {
  }

  lemma NormalizeDividendsTable(rows: seq<seq<string>>)
    requires NormalizeDividends(rows).Table?
    ensures FitsColumns(rows, RAW_WIDTH)
    ensures DatesWellFormed(rows, 0, DashFormat) && DatesWellFormed(rows, 5, DashFormat)
    ensures NormalizeDividends(rows).rows == DividendTable(rows)
  {
    assert WidthMismatch(rows, RAW_WIDTH).None?;
    assert FirstBadDate(rows, 0, DashFormat).None?;
    assert FirstBadDate(rows, 5, DashFormat).None?;
  }

  /** Record `rec`, the `i`-th of the table, keeps the cells of its source row
      (at most 9 cells, the rest padding) at their source columns: the four
      text columns as they are, `Stock Code` with the entitlement path deleted,
      `URL` behind the site base, and each date exactly the one its text
      spells (absent only for padding and missing-value spellings). */
  ghost predicate RecordOfRow(rec: DividendRecord, i: nat, row: seq<string>)
  {
    && |row| <= RAW_WIDTH
    && rec.index == i + 1
    && rec.stockName == Cell(row, 1) && rec.openingPrice == Cell(row, 2)
    && rec.currentPrice == Cell(row, 3) && rec.dividend == Cell(row, 4)
    && (rec.stockCode.Some? <==> 6 < |row|)
    && (6 < |row| ==> rec.stockCode.value == DeleteAll(row[6], ENTITLEMENT_PATH))
    && (rec.url.Some? <==> 8 < |row|)
    && (8 < |row| ==>
          var u := rec.url.value;
          |u| >= |SITE_BASE| && u[..|SITE_BASE|] == SITE_BASE && u[|SITE_BASE|..] == row[8])
    && DateOfCell(rec.announcementDate, Cell(row, 0), DashFormat)
    && DateOfCell(rec.exDate, Cell(row, 5), DashFormat)
  }

  lemma DividendTableAt(rows: seq<seq<string>>, i: nat)
    requires FitsColumns(rows, RAW_WIDTH) && i < |rows|
    ensures DividendTable(rows)[i] == DividendRecordOf(i + 1, DropColumn(Pad(rows[i], RAW_WIDTH), BLANK))
  {
  }

  lemma DividendTableRow(rows: seq<seq<string>>, i: nat)
    requires FitsColumns(rows, RAW_WIDTH) && i < |rows|
    requires !CellDate(Cell(rows[i], 0), DashFormat).Malformed?
    requires !CellDate(Cell(rows[i], 5), DashFormat).Malformed?
    ensures RecordOfRow(DividendTable(rows)[i], i, rows[i])
  {
    var row := rows[i];
    var cells := DropColumn(Pad(row, RAW_WIDTH), BLANK);
    DividendTableAt(rows, i);
    assert cells[0] == Cell(row, 0) && cells[5] == Cell(row, 5);
    assert cells[6] == Cell(row, 6) && cells[7] == Cell(row, 8);
    if 8 < |row| {
      PrefixAndSuffix(SITE_BASE, row[8]);
    }
    CellDateCorrect(Cell(row, 0), DashFormat);
    CellDateCorrect(Cell(row, 5), DashFormat);
  }

  /** Every record of a returned table is the record of its source row. */
  lemma DividendRecordsFromRows(rows: seq<seq<string>>, i: nat)
    requires NormalizeDividends(rows).Table? && i < |rows|
    ensures RecordOfRow(NormalizeDividends(rows).rows[i], i, rows[i])
  {
    NormalizeDividendsTable(rows);
    DividendTableRow(rows, i);
  }

  /** Rows that differ at most in the `Blank` column. */
  ghost predicate SameButBlank(rows: seq<seq<string>>, other: seq<seq<string>>)
  {
    && |rows| == |other|
    && (forall i :: 0 <= i < |rows| ==> |rows[i]| == |other[i]|)
    && forall i, j :: 0 <= i < |rows| && 0 <= j < |rows[i]| && j != BLANK ==> rows[i][j] == other[i][j]
  }

  lemma SameButBlankChecks(rows: seq<seq<string>>, other: seq<seq<string>>)
    requires SameButBlank(rows, other)
    ensures WidthMismatch(rows, RAW_WIDTH) == WidthMismatch(other, RAW_WIDTH)
    ensures FirstBadDate(rows, 0, DashFormat) == FirstBadDate(other, 0, DashFormat)
    ensures FirstBadDate(rows, 5, DashFormat) == FirstBadDate(other, 5, DashFormat)
  {
    WidthMismatchAgree(rows, other, RAW_WIDTH);
    FirstBadDateAgree(rows, other, 0, DashFormat);
    FirstBadDateAgree(rows, other, 5, DashFormat);
  }

  lemma SameButBlankTables(rows: seq<seq<string>>, other: seq<seq<string>>)
    requires SameButBlank(rows, other) && FitsColumns(rows, RAW_WIDTH) && FitsColumns(other, RAW_WIDTH)
    ensures DividendTable(rows) == DividendTable(other)
  {
    forall i | 0 <= i < |rows| ensures DividendTable(rows)[i] == DividendTable(other)[i] {
      DividendTableAt(rows, i);
      DividendTableAt(other, i);
      var a, b := Pad(rows[i], RAW_WIDTH), Pad(other[i], RAW_WIDTH);
      assert forall j :: 0 <= j < RAW_WIDTH && j != BLANK ==> a[j] == b[j];
      assert DropColumn(a, BLANK) == DropColumn(b, BLANK);
    }
  }

  /** The `Blank` column never matters: rows that differ only there give the
      same outcome. */
  lemma BlankColumnIgnored(rows: seq<seq<string>>, other: seq<seq<string>>)
    requires SameButBlank(rows, other)
    ensures NormalizeDividends(rows) == NormalizeDividends(other)
  {
    SameButBlankChecks(rows, other);
    if WidthMismatch(rows, RAW_WIDTH).None? {
      SameButBlankTables(rows, other);
    }
  }

  /** An example payload row in the site's 9-column layout. */
  const PUBLISHED_ROW: seq<string> := [
    "02-Jan-2024", "ABC Bhd", "1.20", "1.25", "0.05", "15-Jan-2024", "1234", "",
    "/web/stock/entitlement/1234"]

  lemma YearOf2024()
    ensures AllDigits("2024") && NumeralValue("2024") == 2024
  {
    assert "2024"[..3] == "202";
    assert "202"[..2] == "20";
    NumeralTwo("20");
  }

  /** A day in January 2024 written `DD-Jan-2024` is read as that date. */
  lemma JanuaryDate(t: string, day: int)
    requires |t| == 11 && t[2] == '-' && t[3..6] == "Jan" && t[6] == '-' && t[7..] == "2024"
    requires IsDigit(t[0]) && IsDigit(t[1]) && 10 * DigitValue(t[0]) + DigitValue(t[1]) == day
    requires 1 <= day <= 31
    ensures StrictDate(t, DashFormat) == Present(Date(2024, 1, day))
  {
    assert t[..2] == [t[0], t[1]];
    NumeralTwo(t[..2]);
    assert ParseDay(t) == Some((day, 2));
    assert SkipSeparator(t, 2, DashFormat) == Some(3);
    assert LowerAscii("Jan") == "jan";
    assert MonthNumber("Jan") == Some(1);
    assert SkipSeparator(t, 6, DashFormat) == Some(7);
    YearOf2024();
    assert ParseYearOn(t, DashFormat, day, 1, 6) == Some(Date(2024, 1, day));
    LongTextNotMissing(t);
  }

  lemma PublishedAnnouncementDate()
    ensures StrictDate(PUBLISHED_ROW[0], DashFormat) == Present(Date(2024, 1, 2))
  {
    var t := PUBLISHED_ROW[0];
    assert t == "02-Jan-2024";
    assert t[3..6] == "Jan" && t[7..] == "2024";
    JanuaryDate(t, 2);
  }

  lemma PublishedExDate()
    ensures StrictDate(PUBLISHED_ROW[5], DashFormat) == Present(Date(2024, 1, 15))
  {
    var t := PUBLISHED_ROW[5];
    assert t == "15-Jan-2024";
    assert t[3..6] == "Jan" && t[7..] == "2024";
    JanuaryDate(t, 15);
  }

  /** The cells a full row leaves after padding and the drop. */
  lemma FullRowCells(row: seq<string>)
    requires |row| == RAW_WIDTH
    ensures var cells := DropColumn(Pad(row, RAW_WIDTH), BLANK);
      && cells[0] == Some(row[0]) && cells[1] == Some(row[1]) && cells[2] == Some(row[2])
      && cells[3] == Some(row[3]) && cells[4] == Some(row[4]) && cells[5] == Some(row[5])
      && cells[6] == Some(row[6]) && cells[7] == Some(row[8])
  {
  }

  /** A batch of one full row gives one fully populated record. */
  lemma SingleRowRecord(row: seq<string>)
    requires |row| == RAW_WIDTH
    requires !StrictDate(row[0], DashFormat).Malformed? && !StrictDate(row[5], DashFormat).Malformed?
    ensures NormalizeDividends([row]) == Table([DividendRecord(
      1, CellValue(StrictDate(row[0], DashFormat)), Some(row[1]), Some(row[2]), Some(row[3]), Some(row[4]),
      CellValue(StrictDate(row[5], DashFormat)), Some(DeleteAll(row[6], ENTITLEMENT_PATH)),
      Some(SITE_BASE + row[8]))])
  {
    var rows := [row];
    assert FitsColumns(rows, RAW_WIDTH) by {
      assert |rows[0]| == RAW_WIDTH;
    }
    assert DatesWellFormed(rows, 0, DashFormat) && DatesWellFormed(rows, 5, DashFormat);
    NormalizeDividendsTable(rows);
    DividendTableAt(rows, 0);
    FullRowCells(row);
    assert DividendTable(rows) == [DividendTable(rows)[0]];
  }

  /** The example row becomes one fully populated record: the code stays as
      it is, the page's relative path goes behind the site base (so the URL
      holds a double slash), and both dates are read. */
  lemma PublishedRowRecord()
    ensures NormalizeDividends([PUBLISHED_ROW])
      == Table([DividendRecord(
           1, Some(Date(2024, 1, 2)), Some("ABC Bhd"), Some("1.20"), Some("1.25"), Some("0.05"),
           Some(Date(2024, 1, 15)), Some("1234"),
           Some(SITE_BASE + "/web/stock/entitlement/1234"))])
  {
    PublishedAnnouncementDate();
    PublishedExDate();
    SingleRowRecord(PUBLISHED_ROW);
    assert DeleteAll("1234", ENTITLEMENT_PATH) == "1234";
  }

  /** A row shorter than the schema is padded, not rejected, as long as some
      row of the batch fills all 9 columns: its missing trailing cells become
      absent. */
  lemma ShortRowPadded()
    ensures var rows := [
              ["", "A", "1", "1", "0", "", "1", "", "u"],
              ["", "B", "1", "1", "0", "", "2", ""]];
      && NormalizeDividends(rows).Table?
      && NormalizeDividends(rows).rows[1].url == None
      && NormalizeDividends(rows).rows[1].stockCode == Some("2")
  {
    var rows := [
      ["", "A", "1", "1", "0", "", "1", "", "u"],
      ["", "B", "1", "1", "0", "", "2", ""]];
    assert "" in MISSING_SPELLINGS;
    assert FitsColumns(rows, RAW_WIDTH) by {
      assert |rows[0]| == RAW_WIDTH;
    }
    assert DatesWellFormed(rows, 0, DashFormat) && DatesWellFormed(rows, 5, DashFormat);
    DividendTableAt(rows, 1);
  }

  /** A row longer than the schema always makes the call raise. */
  lemma LongRowRaises(rows: seq<seq<string>>, i: nat)
    requires i < |rows| && |rows[i]| > RAW_WIDTH
    ensures NormalizeDividends(rows).Raised?
    ensures NormalizeDividends(rows).error.ColumnCountMismatch?
  {
  }

  // -------------------------------------------------------------- the routine

  /** `get_dividend()`: a non-200 status or a page without the payload prints a
      notice and returns nothing; a payload the decoder rejects raises; anything
      else is the normalised table or the error normalising raised. */
  function GetDividend(status: int, text: string, decode: string -> Option<seq<seq<string>>>)
    : (r: Outcome<DividendRecord>)
    ensures status != 200 ==> r == Nothing(BadStatus(status))
    ensures status == 200 && ExtractPayload(text).None? ==> r == Nothing(NoMatch)
    ensures status == 200 && ExtractPayload(text).Some? && decode(ExtractPayload(text).value).None?
      ==> r == Raised(JsonDecodeError)
    ensures r.Table? ==>
      && status == 200 && ExtractPayload(text).Some?
      && decode(ExtractPayload(text).value).Some?
      && |r.rows| == |decode(ExtractPayload(text).value).value|
    ensures status == 200 && ExtractPayload(text).Some? && decode(ExtractPayload(text).value).Some?
      ==> r == NormalizeDividends(decode(ExtractPayload(text).value).value)
  {
    if status != 200 then Nothing(BadStatus(status))
    else match ExtractPayload(text)
      case None => Nothing(NoMatch)
      case Some(payload) =>
        match decode(payload)
        case None => Raised(JsonDecodeError)
        case Some(rows) => NormalizeDividends(rows)
  }

  /** A table comes back only from a 200 response whose text matches the
      pattern; every other path returns no table, not even an empty one. */
  lemma GetDividendTableNeedsMatch(status: int, text: string, decode: string -> Option<seq<seq<string>>>)
    requires GetDividend(status, text, decode).Table?
    ensures status == 200 && exists p: nat, q: nat :: IsMatch(text, p, q)
  {
    ExtractPayloadCorrect(text);
  }

  /** End to end: a 200 response whose page carries the marker, a payload and
      the terminator, and whose payload decodes to the example row, returns
      the one record of that row. */
  lemma PublishedPageTable(body: string, rest: string, decode: string -> Option<seq<seq<string>>>)
    requires forall x: nat :: x < |body| ==> !OccursAt(body + TERMINATOR, TERMINATOR, x)
    requires decode("[" + body + "]]") == Some([PUBLISHED_ROW])
    ensures GetDividend(200, MARKER + body + TERMINATOR + rest, decode)
      == Table([DividendRecord(
           1, Some(Date(2024, 1, 2)), Some("ABC Bhd"), Some("1.20"), Some("1.25"), Some("0.05"),
           Some(Date(2024, 1, 15)), Some("1234"),
           Some(SITE_BASE + "/web/stock/entitlement/1234"))])
  {
    PayloadOfPage(body, rest);
    PublishedRowRecord();
  }
}
