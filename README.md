# Stock scrapers of `stock.py`, modelled in Dafny

`stock.py` holds two scraping routines behind a Streamlit dashboard.

- **`get_dividend`** reads the dividend listing page of i3investor. It finds the JavaScript literal `var dtdata = [...]];` with a non-greedy, dot-all regular expression and repairs the captured group by appending `]`. It decodes that group as JSON rows and loads them into a pandas frame under 9 fixed column names. Then it:
  - drops the `Blank` column;
  - deletes the path `/web/stock/entitlement/` from `Stock Code`;
  - puts `https://klse.i3investor.com/` in front of `URL`;
  - labels the rows 1..N;
  - parses `Announcement Date` and `Ex Date` strictly, in the format `%d-%b-%Y`.
- **`get_ipo`** reads the IPO summary page of Bursa Malaysia. It takes the first `<table>` and collects the text of every `<td>` of every body row, turning each newline into a space. It loads the rows under 10 fixed column names and labels them 1..N. Then it:
  - parses `Application Opened` and `Date of Listing` strictly, in the format `%d %b %Y`;
  - maps the placeholder `-` in `Application Closed` to absent;
  - parses the rest of `Application Closed` leniently, so a value it cannot read becomes absent.

Each routine ends in one of three ways (module `Outcomes`):
- it returns a table;
- it prints a notice and returns nothing (a status other than 200, or no regular-expression match);
- it raises.

The modules:

- `Strings`: substring search (the regular-expression scan), Python's `str.replace(p, '')` as a single left-to-right pass, and the newline-to-space rewrite.
- `Dates`: the proleptic Gregorian calendar, and the strict day-month-year parser that pandas' `strptime` path applies.
  - `%d` is one or two digits, or a space and a digit.
  - `%b` is a month abbreviation in any letter case.
  - `%Y` is exactly four digits.
  - A space in the format matches any run of white space, and the whole text must match.
  - The parser is proved equal to a grammar (`Spells`) plus a calendar check, and formatting a date and parsing it back is proved to give the same date.
  - A strict cell holding `""`, `NaT`, `nat`, `NAT`, `nan`, `NaN` or `NAN` is missing, not an error, as in pandas 2.x (2.0 to 2.2), whose `array_strptime` reads these before trying the format.
- `Frame`: the rules of a pandas frame build with fixed column names.
  - The frame is as wide as its widest row, and shorter rows are padded with `None`.
  - The build raises when that width is not the number of names; an empty batch gives an empty frame.
  - A strict date column fails at the first row whose cell does not match.
- `Dividend`: the locator, the dividend normaliser and `GetDividend`.
- `Ipo`: the row collection loop (a method), the IPO normaliser and the `GetIpo` method.

Two behaviours of the code are easy to miss; the model follows the code both times:

- **Short rows are accepted.** A row with fewer cells than the schema does not fail the call when another row of the batch is full width. pandas pads the short row, and its missing cells read as absent. `Dividend.ShortRowPadded` shows this. Only a widest row of the wrong width fails the call (`Dividend.LongRowRaises`).
- **The path can survive the delete.** `.str.replace` deletes occurrences of the entitlement path in a single pass, so a stock code can still contain the path afterwards. `Strings.DeleteAllCanLeaveOccurrence` exhibits such a text.

## Model

| member | source | states |
|---|---|---|
| Strings.IndexOf | stock.py:27-28 | the first index at or after `from` where the pattern text occurs, with no earlier occurrence; or None, with no occurrence at all |
| Strings.DeleteAllAbsent | stock.py:34 | `replace(p, '')` leaves a text in which `p` does not occur unchanged |
| Strings.DeleteAllLeading | stock.py:34 | one leading copy of the path before a path-free code is deleted, leaving exactly the code |
| Strings.DeleteAllCanLeaveOccurrence | stock.py:34 | a single deletion pass can create a new occurrence, so the result is not always free of the path |
| Strings.NewlinesToSpaces | stock.py:70 | same length, every newline becomes one space, every other character is unchanged, and no newline remains |
| Dates.DaysInMonth | stock.py:37-38 | 28 to 31 days; 31 exactly for the long months; 29 exactly for February of a leap year |
| Dates.ParseDateSound | stock.py:37-38 | a parsed date is a valid calendar date and the text spells it, field by field, in the format |
| Dates.ParseDateComplete | stock.py:76 | every text that spells a valid date in the format parses to exactly that date |
| Dates.ParseDateCharacterized | stock.py:79 | the parse yields `d` if and only if the text spells `d` and `d` is a valid date |
| Dates.MonthNumberComplete | stock.py:37 | an abbreviation in any letter case gives its month number |
| Dates.FormatDateRoundTrip | stock.py:37-38 | the canonical text of a date in either format parses back to that date |
| Dates.StrictDateCorrect | stock.py:37-38 | a strict cell is missing exactly for the missing-value spellings, a date only when the text spells a valid one, and malformed exactly when neither holds |
| Dates.StrictDateOfFormatted | stock.py:76 | the canonical text of a date is read as that date by the strict column parse |
| Dates.SeparatorBetweenFields | stock.py:76 | in `%d %b %Y`, an information separator (U+001C to U+001F) between day and month counts as white space, so `1`, separator, `Jan 2024` is read as 1 January 2024 |
| Frame.MaxWidth | stock.py:32 | the widest row: no row is longer, some row reaches it, and an empty batch has width 0 |
| Frame.WidthMismatch | stock.py:73-74 | None exactly when no row is longer than the schema and some row fills it (or there are no rows); otherwise the width the build reports |
| Frame.WidthMismatchAgree | stock.py:32 | batches with the same row widths fit or fail alike |
| Frame.Pad | stock.py:32 | a padded row has the schema width, keeps its cells, and holds `None` after them |
| Frame.CellDateCorrect | stock.py:37-38 | a cell that is not malformed yields the date its text spells, and is absent exactly for padding and missing-value spellings |
| Frame.FirstBadDate | stock.py:37-38 | None exactly when every cell of the column is a date or missing; otherwise the first malformed row, with all earlier rows well formed |
| Frame.FirstBadDateAgree | stock.py:76 | batches that agree on a column agree on its first bad date |
| Dividend.ExtractPayloadCorrect | stock.py:27-30 | a payload exists exactly when the pattern matches, and it is `[`, the body of the leftmost and shortest match, and `]]` |
| Dividend.ExtractPayloadOfFirstMatch | stock.py:27-30 | the first match determines the payload |
| Dividend.ExtractPayloadShape | stock.py:30 | the payload opens with `[`, closes with `]]`, and its body is copied from the page and holds no terminator |
| Dividend.NoMarkerNoMatch | stock.py:27-28 | without the marker the pattern cannot match |
| Dividend.NoTerminatorNoMatch | stock.py:27-28 | without a terminator after the leftmost marker the pattern cannot match |
| Dividend.FoundMatch | stock.py:28-30 | the two scans give the first match, and the payload is its body in brackets |
| Dividend.PayloadOfPage | stock.py:27-30 | a page that opens with the marker, a terminator-free body and the terminator gives that body in brackets |
| Dividend.DropColumn | stock.py:33 | one fewer cell: the cells before `Blank` stay where they are, and the cells after it move up by one |
| Dividend.NormalizeDividends | stock.py:32-38 | never "nothing"; a failing batch raises only the width error or the date error; a table exactly when the rows fit the 9 names and both date columns are well formed; the table has one record per row, labelled 1..N; a width error carries the widest row's width; a date error names the first bad column and the first malformed row of it (every earlier row of that column is well formed), `Announcement Date` before `Ex Date` |
| Dividend.DividendTable | stock.py:36 | one record per row, labelled `i + 1` |
| Dividend.NormalizeDividendsTable | stock.py:32-38 | a returned table means the rows fit and both date columns are well formed, and the table is the records of the rows |
| Dividend.DividendTableRow | stock.py:32-38 | each record keeps the cells of its row at their source columns, with the code rewritten, the URL prefixed and the dates read |
| Dividend.DividendRecordsFromRows | stock.py:32-38 | every record of a returned table is the record of its source row |
| Dividend.BlankColumnIgnored | stock.py:33 | rows that differ only in `Blank` give the same outcome |
| Dividend.SingleRowRecord | stock.py:32-38 | a batch of one full row with readable dates gives one fully populated record |
| Dividend.PublishedRowRecord | stock.py:32-38 | the example payload row (in the site's 9-column layout) gives code `1234`, URL `https://klse.i3investor.com//web/stock/entitlement/1234`, and the dates 2024-01-02 and 2024-01-15 |
| Dividend.ShortRowPadded | stock.py:32 | a row one cell short, next to a full row, is padded, and its URL is absent |
| Dividend.LongRowRaises | stock.py:32 | a row longer than 9 cells makes the call raise a width error |
| Dividend.GetDividend | stock.py:25-43 | a status other than 200 and a missing match print and return nothing; a payload the decoder rejects raises; a table comes back only from a 200 response with a match and a decoded payload, with one record per decoded row; on that path the result is the normalisation of the decoded rows |
| Dividend.GetDividendTableNeedsMatch | stock.py:25-30 | a returned table implies status 200 and a pattern match |
| Dividend.PublishedPageTable | stock.py:24-39 | a 200 response whose page carries the example payload row returns exactly its record |
| Ipo.CollectRows | stock.py:67-71 | the collected rows are the `<tr>` rows in order, with every cell cleaned of newlines (loop invariant over the rows seen so far) |
| Ipo.RowsCleanedUnique | stock.py:70 | the cleaned rows are determined by the page, and no cell holds a newline |
| Ipo.IpoTable | stock.py:75 | one record per row, labelled `i + 1` |
| Ipo.NormalizeIpo | stock.py:73-79 | never "nothing"; a failing batch raises only the width error or the date error; a table exactly when the rows fit the 10 names and both strict date columns are well formed; a width error carries the widest row's width; a date error names the first bad column and the first malformed row of it (every earlier row of that column is well formed), `Application Opened` before `Date of Listing` |
| Ipo.NormalizeIpoTable | stock.py:73-79 | a returned table means the rows fit and the strict columns are well formed, and the table is the records of the rows |
| Ipo.IpoTableRow | stock.py:73-79 | each record keeps its row's cells in column order; the strict dates are the ones their text spells; `Application Closed` is absent for padding and `-`, and otherwise what the lenient parse gives |
| Ipo.IpoRecordsFromRows | stock.py:73-79 | every record of a returned table is the record of its source row |
| Ipo.ClosedColumnNeverFails | stock.py:77-78 | whatever `Application Closed` holds, and however the lenient parse reads it, the outcome is a table for both rows or the same error for both |
| Ipo.GetIpo | stock.py:55-82 | status other than 200 returns nothing; a page without a table or without a body raises; otherwise the normalised collected rows |

## Left out

- HTTP is outside the model: the request, its User-Agent header and network failures. The status code and the response text are inputs.
- `json.loads` is a parameter `decode` that yields rows of strings, or None for text that is not JSON. JSON numbers, `null` and nesting inside a cell are not modelled.
- BeautifulSoup is a datatype `IpoPage`. It is either no table, a table without a body, or the stripped text of each cell of each body row. HTML parsing and `get_text(strip=True)` are not modelled.
- The `<th>` header loop of `get_ipo` (stock.py:61-64) is left out: its result is never used. A page without a table raises there, and that is modelled as `Raised(NoTable)`.
- `Ipo.GetIpo`, lenient parse: `pd.to_datetime(..., errors='coerce')` is an uninterpreted parameter `lenient`, applied cell by cell. Inferring one format from the whole column is not modelled, and neither is the set of formats dateutil accepts.
- The strict date parse is limited to pandas' range of nanosecond timestamps (years 1677 to 2262). The model accepts any year from 1, which is the range of `strptime` itself.
- `\d`, `\s` and case folding are modelled on ASCII only. `\s` covers the ASCII white space and the separators U+001C to U+001F; Unicode digits, the non-ASCII spaces (such as U+0085 and U+00A0) and non-ASCII letters are not modelled.
- Prices and the dividend stay their raw payload text. pandas keeps them unconverted as well.
- `print` and the Streamlit user interface (the menu and the pages) are not modelled. The notices that are printed become `Nothing(notice)`.
- pandas' own internals (dtypes, `.dt.date` objects, index objects) are not modelled. A date is a `Date` value, and the index is the `index` field of each record.
