/** What building a pandas DataFrame from rows with fixed column names, and
    converting one column with `pd.to_datetime(..., format=...)`, decide about a
    whole batch. The frame is as wide as its widest row, shorter rows are padded
    with `None`, and the build fails when that width is not the number of
    column names; a strict date column fails at the first row, in source order,
    whose cell does not match the format. */
module Frame {
  import opened Outcomes
  import opened Dates

  /** The first position whose element satisfies `p`. */
  function FirstWhere<T>(s: seq<T>, p: T -> bool): (r: Option<nat>)
    ensures r.Some? ==> r.value < |s| && p(s[r.value])
    ensures r.Some? ==> forall j :: 0 <= j < r.value ==> !p(s[j])
    ensures r.None? ==> forall j :: 0 <= j < |s| ==> !p(s[j])
  {
    if s == [] then None
    else if p(s[0]) then Some(0)
    else match FirstWhere(s[1..], p)
      case None => None
      case Some(n) => Some(n + 1)
  }

  // ------------------------------------------------------------- the frame width

  /** The number of cells of the widest row. */
  function MaxWidth(rows: seq<seq<string>>): (w: nat)
    ensures forall i :: 0 <= i < |rows| ==> |rows[i]| <= w
    ensures rows == [] ==> w == 0
    ensures rows != [] ==> exists i :: 0 <= i < |rows| && |rows[i]| == w
  {
    if rows == [] then 0
    else
      var w := MaxWidth(rows[1..]);
      if w <= |rows[0]| then |rows[0]|
      else
        assert exists i :: 0 <= i < |rows[1..]| && |rows[1..][i]| == w;
        var i :| 0 <= i < |rows[1..]| && |rows[1..][i]| == w;
        assert |rows[i + 1]| == w;
        w
  }

  /** The rows fit `width` column names: no row is longer, and unless there are
      no rows at all, some row has exactly that many cells. */
  ghost predicate FitsColumns(rows: seq<seq<string>>, width: nat)
  {
    && (forall i :: 0 <= i < |rows| ==> |rows[i]| <= width)
    && (rows != [] ==> exists i :: 0 <= i < |rows| && |rows[i]| == width)
  }

  /** The data width the frame build complains about, or None when the rows
      fit the column names. An empty batch gives an empty frame. */
  function WidthMismatch(rows: seq<seq<string>>, width: nat): (r: Option<nat>)
    ensures r.None? <==> FitsColumns(rows, width)
    ensures r.Some? ==>
      && rows != [] && r.value != width
      && (forall i :: 0 <= i < |rows| ==> |rows[i]| <= r.value)
      && exists i :: 0 <= i < |rows| && |rows[i]| == r.value
  {
    if rows == [] then None
    else
      var w := MaxWidth(rows);
      if w == width then None
      else
        assert !FitsColumns(rows, width) by {
          var i :| 0 <= i < |rows| && |rows[i]| == w;
          if w > width {
            assert |rows[i]| > width;
          } else {
            assert forall j :: 0 <= j < |rows| ==> |rows[j]| != width;
          }
        }
        Some(w)
  }

  /** Two batches whose rows have the same widths fit or fail alike. */
  lemma WidthMismatchAgree(rows: seq<seq<string>>, other: seq<seq<string>>, width: nat)
    requires |rows| == |other| && forall i :: 0 <= i < |rows| ==> |rows[i]| == |other[i]|
    ensures WidthMismatch(rows, width) == WidthMismatch(other, width)
  {
    if rows != [] {
      var a, b := MaxWidth(rows), MaxWidth(other);
      var i :| 0 <= i < |rows| && |rows[i]| == a;
      var j :| 0 <= j < |other| && |other[j]| == b;
      assert a <= b && b <= a by {
        assert |other[i]| == a;
        assert |rows[j]| == b;
      }
    }
  }

  // ------------------------------------------------------------------ the cells

  /** The cell of the frame at column `j` of a row: its value, or `None` where
      the row was padded. */
  function Cell(row: seq<string>, j: nat): Option<string>
  {
    if j < |row| then Some(row[j]) else None
  }

  /** The row as the frame holds it, padded to `width` cells. */
  function Pad(row: seq<string>, width: nat): (r: seq<Option<string>>)
    requires |row| <= width
    ensures |r| == width && forall j :: 0 <= j < width ==> r[j] == Cell(row, j)
  {
    seq(width, j requires 0 <= j < width => Cell(row, j))
  }

  /** A strict date cell: a padded cell is missing, like a missing-value text. */
  function CellDate(c: Option<string>, f: Format): DateCell
  {
    match c
    case None => Missing
    case Some(t) => StrictDate(t, f)
  }

  /** `d` is the date a strict column yields for cell `c`: a valid date exactly
      as the text spells it, absent exactly for padding and missing-value
      spellings. */
  ghost predicate DateOfCell(d: Option<Date>, c: Option<string>, f: Format)
  {
    && (d.Some? ==> c.Some? && ValidDate(d.value) && Spells(c.value, f, d.value))
    && (d.None? <==> c.None? || c.value in MISSING_SPELLINGS)
  }

  lemma CellDateCorrect(c: Option<string>, f: Format)
    requires !CellDate(c, f).Malformed?
    ensures DateOfCell(CellValue(CellDate(c, f)), c, f)
  {
    if c.Some? {
      StrictDateCorrect(c.value, f);
    }
  }

  // ----------------------------------------------------------- strict date columns

  /** Every row's cell in column `col`, if it has one, is a missing value or a
      date in format `f` (padding is missing, never malformed). */
  predicate DatesWellFormed(rows: seq<seq<string>>, col: nat, f: Format)
  {
    forall i :: 0 <= i < |rows| && col < |rows[i]| ==> !StrictDate(rows[i][col], f).Malformed?
  }

  /** The first row whose date in column `col` does not match format `f`: the
      row at which `pd.to_datetime(column, format=f)` raises. */
  function FirstBadDate(rows: seq<seq<string>>, col: nat, f: Format): (r: Option<nat>)
    ensures r.None? <==> DatesWellFormed(rows, col, f)
    ensures r.Some? ==> r.value < |rows| && col < |rows[r.value]|
    ensures r.Some? ==> StrictDate(rows[r.value][col], f).Malformed?
    ensures r.Some? ==> forall j :: 0 <= j < r.value && col < |rows[j]| ==> !StrictDate(rows[j][col], f).Malformed?
  {
    FirstWhere(rows, (row: seq<string>) => col < |row| && StrictDate(row[col], f).Malformed?)
  }

  /** Two batches that agree on column `col` agree on its first bad date. */
  lemma FirstBadDateAgree(rows: seq<seq<string>>, other: seq<seq<string>>, col: nat, f: Format)
    requires |rows| == |other|
    requires forall i :: 0 <= i < |rows| ==> |rows[i]| == |other[i]|
    requires forall i :: 0 <= i < |rows| && col < |rows[i]| ==> rows[i][col] == other[i][col]
    ensures FirstBadDate(rows, col, f) == FirstBadDate(other, col, f)
  {
  }
}
