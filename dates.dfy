/** The day-month-year date parser behind `pd.to_datetime(..., format=...)` as
    stock.py uses it: `%d-%b-%Y` for dividend dates and `%d %b %Y` for IPO
    dates. The field grammar is that of Python's strptime: `%d` is
    `3[01]|[12]\d|0[1-9]|[1-9]| [1-9]`, `%b` an English month abbreviation in
    any letter case, `%Y` four digits, a space in the format one or more
    white-space characters; the whole text must match and the day must exist
    in that month of that year. */
module Dates {
  import opened Outcomes

  datatype Date = Date(year: int, month: int, day: int)

  /** The two formats of stock.py. */
  datatype Format =
    | DashFormat    // '%d-%b-%Y'
    | SpaceFormat   // '%d %b %Y'

  predicate IsLeapYear(y: int)
  {
    y % 4 == 0 && (y % 100 != 0 || y % 400 == 0)
  }

  function DaysInMonth(y: int, m: int): (n: int)
    requires 1 <= m <= 12
    ensures 28 <= n <= 31
    ensures n == 31 <==> m in {1, 3, 5, 7, 8, 10, 12}
    ensures n == 29 <==> m == 2 && IsLeapYear(y)
    ensures n == 28 <==> m == 2 && !IsLeapYear(y)
  {
    if m == 2 then (if IsLeapYear(y) then 29 else 28)
    else if m == 4 || m == 6 || m == 9 || m == 11 then 30
    else 31
  }

  /** A date Python's `datetime.date` accepts. */
  predicate ValidDate(d: Date)
  {
    1 <= d.year && 1 <= d.month <= 12 && 1 <= d.day <= DaysInMonth(d.year, d.month)
  }

  // ---------------------------------------------------------------- characters

  predicate IsDigit(c: char) { '0' <= c <= '9' }

  function DigitValue(c: char): int requires IsDigit(c) { c as int - '0' as int }

  function DigitChar(v: int): char requires 0 <= v < 10 { ('0' as int + v) as char }

  predicate AllDigits(s: string)
  {
    forall x :: 0 <= x < |s| ==> IsDigit(s[x])
  }

  /** The value of a decimal numeral. */
  function NumeralValue(s: string): int
    requires AllDigits(s)
  {
    if s == [] then 0 else 10 * NumeralValue(s[..|s| - 1]) + DigitValue(s[|s| - 1])
  }

  lemma NumeralAppend(s: string, c: char)
    requires AllDigits(s) && IsDigit(c)
    ensures AllDigits(s + [c]) && NumeralValue(s + [c]) == 10 * NumeralValue(s) + DigitValue(c)
  {
    assert (s + [c])[..|s|] == s;
  }

  lemma NumeralTwo(s: string)
    requires |s| == 2 && AllDigits(s)
    ensures NumeralValue(s) == 10 * DigitValue(s[0]) + DigitValue(s[1])
  {
    assert s == [] + [s[0]] + [s[1]];
    NumeralAppend([], s[0]);
    NumeralAppend([s[0]], s[1]);
  }

  /** The ASCII characters `\s` stands for in a `str` pattern: the six usual
      white-space characters and the four separators U+001C to U+001F. */
  predicate IsSpace(c: char)
  {
    || c == ' ' || c == '\t' || c == '\n' || c == '\r' || c == '\U{000B}' || c == '\U{000C}'
    || '\U{001C}' <= c <= '\U{001F}'
  }

  function LowerChar(c: char): char
  {
    if 'A' <= c <= 'Z' then (c as int + 32) as char else c
  }

  function LowerAscii(s: string): (r: string)
    ensures |r| == |s| && forall x :: 0 <= x < |s| ==> r[x] == LowerChar(s[x])
  {
    if s == [] then [] else [LowerChar(s[0])] + LowerAscii(s[1..])
  }

  /** The month abbreviations as `%b` prints them, and in lower case as it matches them. */
  const MONTH_ABBREVIATIONS: seq<string> :=
    ["Jan", "Feb", "Mar", "Apr", "May", "Jun", "Jul", "Aug", "Sep", "Oct", "Nov", "Dec"]
  const MONTH_KEYS: seq<string> :=
    ["jan", "feb", "mar", "apr", "may", "jun", "jul", "aug", "sep", "oct", "nov", "dec"]

  // ------------------------------------------------------- the grammar of a date

  /** `s` is a `%d` field for day `v`. */
  ghost predicate DayToken(s: string, v: int)
  {
    || (|s| == 1 && '1' <= s[0] <= '9' && v == DigitValue(s[0]))
    || (|s| == 2 && AllDigits(s) && v == NumeralValue(s) && 1 <= v <= 31)
    || (|s| == 2 && s[0] == ' ' && '1' <= s[1] <= '9' && v == DigitValue(s[1]))
  }

  /** `s` is what the format puts between two fields. */
  ghost predicate SeparatorToken(s: string, f: Format)
  {
    match f
    case DashFormat => s == "-"
    case SpaceFormat => |s| > 0 && forall x :: 0 <= x < |s| ==> IsSpace(s[x])
  }

  /** `s` is a `%b` field for month `m`. */
  ghost predicate MonthToken(s: string, m: int)
  {
    1 <= m <= 12 && LowerAscii(s) == MONTH_KEYS[m - 1]
  }

  /** `s` is a `%Y` field for year `y`. */
  ghost predicate YearToken(s: string, y: int)
  {
    |s| == 4 && AllDigits(s) && y == NumeralValue(s)
  }

  /** `t` cut at `i`, `j`, `k`, `l` is day, separator, month, separator, year. */
  ghost predicate SplitAs(t: string, f: Format, d: Date, i: nat, j: nat, k: nat, l: nat)
  {
    && i <= j <= k <= l <= |t|
    && DayToken(t[..i], d.day)
    && SeparatorToken(t[i..j], f)
    && MonthToken(t[j..k], d.month)
    && SeparatorToken(t[k..l], f)
    && YearToken(t[l..], d.year)
  }

  /** `t` is the whole text of date `d` in format `f`. */
  ghost predicate Spells(t: string, f: Format, d: Date)
  {
    exists i: nat, j: nat, k: nat, l: nat :: SplitAs(t, f, d, i, j, k, l)
  }

  // ------------------------------------------------------------------ the parser

  /** The `%d` field at the front of `t`: its value and its length. */
  function ParseDay(t: string): (r: Option<(int, nat)>)
    ensures r.Some? ==> r.value.1 <= |t| && DayToken(t[..r.value.1], r.value.0)
  {
    if |t| >= 2 && t[0] == ' ' && '1' <= t[1] <= '9' then Some((DigitValue(t[1]), 2))
    else if |t| >= 2 && IsDigit(t[0]) && IsDigit(t[1]) then
      var v := 10 * DigitValue(t[0]) + DigitValue(t[1]);
      assert NumeralValue(t[..2]) == v by { NumeralTwo(t[..2]); }
      if 1 <= v <= 31 then Some((v, 2)) else None
    else if |t| >= 1 && '1' <= t[0] <= '9' then Some((DigitValue(t[0]), 1))
    else None
  }

  /** The first index at or after `i` that is not white space. */
  function SpanSpaces(t: string, i: nat): (e: nat)
    requires i <= |t|
    ensures i <= e <= |t|
    ensures forall x :: i <= x < e ==> IsSpace(t[x])
    ensures e < |t| ==> !IsSpace(t[e])
    decreases |t| - i
  {
    if i < |t| && IsSpace(t[i]) then SpanSpaces(t, i + 1) else i
  }

  /** Where the field after a separator starting at `i` begins. */
  function SkipSeparator(t: string, i: nat, f: Format): (r: Option<nat>)
    requires i <= |t|
    ensures r.Some? ==> i <= r.value <= |t| && SeparatorToken(t[i..r.value], f)
  {
    match f
    case DashFormat =>
      if i < |t| && t[i] == '-' then Some(i + 1) else None
    case SpaceFormat =>
      var e := SpanSpaces(t, i);
      if e > i then Some(e) else None
  }

  /** The position of `x` in `xs`, if it is there. */
  function Find(xs: seq<string>, x: string): (r: Option<nat>)
    ensures r.Some? ==> r.value < |xs| && xs[r.value] == x
    ensures r.None? ==> x !in xs
  {
    if xs == [] then None
    else if xs[0] == x then Some(0)
    else match Find(xs[1..], x)
      case None => None
      case Some(n) => Some(n + 1)
  }

  /** The month a `%b` field names, in any letter case. */
  function MonthNumber(s: string): (r: Option<int>)
    ensures r.Some? ==> MonthToken(s, r.value)
  {
    match Find(MONTH_KEYS, LowerAscii(s))
    case None => None
    case Some(n) => Some(n + 1)
  }

  /** `pd.to_datetime(text, format=f)` on one value that is not a missing-value
      spelling: the date it denotes, or None where strptime raises. */
  function ParseDate(t: string, f: Format): Option<Date>
  {
    match ParseDay(t)
    case None => None
    case Some((day, i)) =>
      match SkipSeparator(t, i, f)
      case None => None
      case Some(j) => ParseMonthOn(t, f, day, j)
  }

  /** The rest of the parse once the day and its separator are read: the month at `j`. */
  function ParseMonthOn(t: string, f: Format, day: int, j: nat): Option<Date>
  {
    if j + 3 > |t| then None
    else match MonthNumber(t[j..j + 3])
      case None => None
      case Some(m) => ParseYearOn(t, f, day, m, j + 3)
  }

  /** The rest of the parse once the month is read: separator and year at `k`,
      then the calendar check. */
  function ParseYearOn(t: string, f: Format, day: int, m: int, k: nat): Option<Date>
    requires k <= |t| && 1 <= m <= 12
  {
    match SkipSeparator(t, k, f)
    case None => None
    case Some(l) =>
      if l + 4 == |t| && AllDigits(t[l..]) then
        var y := NumeralValue(t[l..]);
        if 1 <= y && day <= DaysInMonth(y, m) then Some(Date(y, m, day)) else None
      else None
  }

  // ------------------------------------------------------- parser versus grammar

  /** The last stage of the parse reads a separator, then a 4-digit year that
      ends the text, and accepts only a calendar date. */
  lemma ParseYearOnSound(t: string, f: Format, day: int, m: int, k: nat)
    requires k <= |t| && 1 <= m <= 12 && ParseYearOn(t, f, day, m, k).Some?
    ensures SkipSeparator(t, k, f).Some?
    ensures var d := ParseYearOn(t, f, day, m, k).value;
      var l := SkipSeparator(t, k, f).value;
      && d.month == m && d.day == day && 1 <= d.year && day <= DaysInMonth(d.year, m)
      && YearToken(t[l..], d.year)
  {
  }

  /** The month stage reads a 3-letter month name at `j` and hands over to the
      last stage. */
  lemma ParseMonthOnSound(t: string, f: Format, day: int, j: nat)
    requires ParseMonthOn(t, f, day, j).Some?
    ensures j + 3 <= |t| && MonthNumber(t[j..j + 3]).Some?
    ensures var m := MonthNumber(t[j..j + 3]).value;
      && MonthToken(t[j..j + 3], m)
      && ParseYearOn(t, f, day, m, j + 3) == ParseMonthOn(t, f, day, j)
  {
  }

  /** The first stage reads the day and its separator and hands over to the
      month stage. */
  lemma ParseDayOnSound(t: string, f: Format)
    requires ParseDate(t, f).Some?
    ensures ParseDay(t).Some? && SkipSeparator(t, ParseDay(t).value.1, f).Some?
    ensures ParseMonthOn(t, f, ParseDay(t).value.0, SkipSeparator(t, ParseDay(t).value.1, f).value)
      == ParseDate(t, f)
  {
  }

  /** Tokens in sequence spell the date. */
  lemma TokensSpell(t: string, f: Format, d: Date, i: nat, j: nat, k: nat, l: nat)
    requires i <= j <= k <= l <= |t|
    requires DayToken(t[..i], d.day) && SeparatorToken(t[i..j], f) && MonthToken(t[j..k], d.month)
    requires SeparatorToken(t[k..l], f) && YearToken(t[l..], d.year)
    ensures Spells(t, f, d)
  {
    assert SplitAs(t, f, d, i, j, k, l);
  }

  /** What the parser returns is a valid date, spelled out by the text. */
  lemma ParseDateSound(t: string, f: Format)
    requires ParseDate(t, f).Some?
    ensures ValidDate(ParseDate(t, f).value)
    ensures Spells(t, f, ParseDate(t, f).value)
  {
    var d := ParseDate(t, f).value;
    ParseDayOnSound(t, f);
    var day, i := ParseDay(t).value.0, ParseDay(t).value.1;
    var j := SkipSeparator(t, i, f).value;
    ParseMonthOnSound(t, f, day, j);
    var m := MonthNumber(t[j..j + 3]).value;
    ParseYearOnSound(t, f, day, m, j + 3);
    var l := SkipSeparator(t, j + 3, f).value;
    TokensSpell(t, f, d, i, j, j + 3, l);
  }

  lemma MonthKeysDistinct(a: nat, b: nat)
    requires a < b < 12
    ensures MONTH_KEYS[a] != MONTH_KEYS[b]
  {
    assert MONTH_KEYS[a][0] != MONTH_KEYS[b][0] || MONTH_KEYS[a][1] != MONTH_KEYS[b][1]
      || MONTH_KEYS[a][2] != MONTH_KEYS[b][2];
  }

  /** In a list without repeats, Find returns the position of each entry. */
  lemma {:induction false} FindDistinct(xs: seq<string>, i: nat)
    requires i < |xs|
    requires forall a, b :: 0 <= a < b < |xs| ==> xs[a] != xs[b]
    ensures Find(xs, xs[i]) == Some(i)
    decreases i
  {
    if i > 0 {
      assert xs[0] != xs[i];
      assert xs[1..][i - 1] == xs[i];
      FindDistinct(xs[1..], i - 1);
    }
  }

  lemma MonthNumberComplete(s: string, m: int)
    requires MonthToken(s, m)
    ensures MonthNumber(s) == Some(m)
  {
    forall a, b | 0 <= a < b < |MONTH_KEYS| ensures MONTH_KEYS[a] != MONTH_KEYS[b] {
      MonthKeysDistinct(a, b);
    }
    FindDistinct(MONTH_KEYS, m - 1);
  }

  lemma {:induction false} SpanSpacesExact(t: string, i: nat, e: nat)
    requires i <= e <= |t|
    requires forall x :: i <= x < e ==> IsSpace(t[x])
    requires e < |t| ==> !IsSpace(t[e])
    ensures SpanSpaces(t, i) == e
    decreases e - i
  {
    if i < e {
      assert IsSpace(t[i]);
      SpanSpacesExact(t, i + 1, e);
    }
  }

  /** A separator token between `i` and `j`, followed by a character that
      cannot begin a separator, is skipped exactly. */
  lemma SkipSeparatorExact(t: string, i: nat, j: nat, f: Format)
    requires i <= j < |t|
    requires SeparatorToken(t[i..j], f)
    requires !IsSpace(t[j]) && t[j] != '-'
    ensures SkipSeparator(t, i, f) == Some(j)
  {
    match f
    case DashFormat =>
      assert t[i..j][0] == t[i];
    case SpaceFormat =>
      forall x | i <= x < j ensures IsSpace(t[x]) {
        assert t[i..j][x - i] == t[x];
      }
      SpanSpacesExact(t, i, j);
  }

  lemma FirstOfMonthToken(s: string, m: int)
    requires MonthToken(s, m)
    ensures |s| == 3 && 'a' <= LowerChar(s[0]) <= 'z'
  {
    assert LowerAscii(s)[0] == MONTH_KEYS[m - 1][0];
  }

  lemma LowerLetter(c: char)
    requires 'a' <= LowerChar(c) <= 'z'
    ensures !IsSpace(c) && c != '-' && !IsDigit(c)
  {
  }

  lemma ParseDayExact(t: string, i: nat, v: int)
    requires i < |t|
    requires DayToken(t[..i], v)
    requires !IsDigit(t[i])
    ensures ParseDay(t) == Some((v, i))
  {
    var s := t[..i];
    assert s[0] == t[0];
    if |s| == 1 {
      assert !IsDigit(t[1]);
    } else if AllDigits(s) {
      assert IsDigit(t[0]) && IsDigit(t[1]);
      NumeralTwo(s);
    } else {
      assert s[1] == t[1];
    }
  }

  /** A separator and a year that ends the text, for a valid date, are read
      by the last stage of the parse. */
  lemma ParseYearOnComplete(t: string, f: Format, d: Date, k: nat, l: nat)
    requires k <= l <= |t| && ValidDate(d)
    requires SeparatorToken(t[k..l], f) && YearToken(t[l..], d.year)
    ensures ParseYearOn(t, f, d.day, d.month, k) == Some(d)
  {
    var year := t[l..];
    assert year[0] == t[l] && IsDigit(t[l]);
    assert k < l by {
      if f.DashFormat? { assert |t[k..l]| == 1; } else { assert |t[k..l]| > 0; }
    }
    SkipSeparatorExact(t, k, l, f);
  }

  /** A month field followed by a separator and a year is read by the month
      stage of the parse. */
  lemma ParseMonthOnComplete(t: string, f: Format, d: Date, j: nat, k: nat, l: nat)
    requires j <= k <= l <= |t| && ValidDate(d)
    requires MonthToken(t[j..k], d.month)
    requires SeparatorToken(t[k..l], f) && YearToken(t[l..], d.year)
    ensures ParseMonthOn(t, f, d.day, j) == Some(d)
  {
    FirstOfMonthToken(t[j..k], d.month);
    assert k == j + 3;
    MonthNumberComplete(t[j..k], d.month);
    ParseYearOnComplete(t, f, d, k, l);
  }

  lemma ParseSplitComplete(t: string, f: Format, d: Date, i: nat, j: nat, k: nat, l: nat)
    requires SplitAs(t, f, d, i, j, k, l) && ValidDate(d)
    ensures ParseDate(t, f) == Some(d)
  {
    var month := t[j..k];
    FirstOfMonthToken(month, d.month);
    assert month[0] == t[j];
    LowerLetter(t[j]);
    assert i < j by {
      if f.DashFormat? { assert |t[i..j]| == 1; } else { assert |t[i..j]| > 0; }
    }
    // the day: its next character begins a separator, never a digit
    assert t[i..j][0] == t[i];
    assert !IsDigit(t[i]) by {
      if f.DashFormat? { assert t[i] == '-'; } else { assert IsSpace(t[i]); }
    }
    ParseDayExact(t, i, d.day);
    SkipSeparatorExact(t, i, j, f);
    ParseMonthOnComplete(t, f, d, j, k, l);
  }

  /** A text that spells a valid date parses to exactly that date. */
  lemma ParseDateComplete(t: string, f: Format, d: Date)
    requires Spells(t, f, d) && ValidDate(d)
    ensures ParseDate(t, f) == Some(d)
  {
    var i: nat, j: nat, k: nat, l: nat :| SplitAs(t, f, d, i, j, k, l);
    ParseSplitComplete(t, f, d, i, j, k, l);
  }

  /** The two lemmas together: the parser accepts exactly the texts that spell a
      valid date, and returns that date. */
  lemma ParseDateCharacterized(t: string, f: Format, d: Date)
    ensures ParseDate(t, f) == Some(d) <==> Spells(t, f, d) && ValidDate(d)
  {
    if ParseDate(t, f) == Some(d) { ParseDateSound(t, f); }
    if Spells(t, f, d) && ValidDate(d) { ParseDateComplete(t, f, d); }
  }

  // ---------------------------------------------------------- printing a date

  function TwoDigits(n: int): (s: string)
    requires 0 <= n < 100
    ensures |s| == 2 && AllDigits(s) && NumeralValue(s) == n
  {
    var s := [DigitChar(n / 10), DigitChar(n % 10)];
    NumeralTwo(s);
    s
  }

  function FourDigits(n: int): (s: string)
    requires 0 <= n < 10000
    ensures |s| == 4 && AllDigits(s) && NumeralValue(s) == n
  {
    var s := TwoDigits(n / 100) + TwoDigits(n % 100);
    assert s[..3][..2] == TwoDigits(n / 100);
    assert s[..3][..2][..1] == [s[0]];
    assert s[..3] == s[..3][..2] + [s[2]];
    s
  }

  function SeparatorText(f: Format): string
  {
    match f
    case DashFormat => "-"
    case SpaceFormat => " "
  }

  /** The canonical text of a date in format `f`: 2-digit day, capitalised
      month abbreviation, 4-digit year (what `strftime(f)` prints for years
      1000 to 9999). */
  function FormatDate(d: Date, f: Format): (t: string)
    requires ValidDate(d) && d.year <= 9999
  {
    TwoDigits(d.day) + SeparatorText(f) + MONTH_ABBREVIATIONS[d.month - 1] + SeparatorText(f)
      + FourDigits(d.year)
  }

  lemma AbbreviationKey(m: int)
    requires 1 <= m <= 12
    ensures |MONTH_ABBREVIATIONS[m - 1]| == 3
    ensures LowerAscii(MONTH_ABBREVIATIONS[m - 1]) == MONTH_KEYS[m - 1]
  {
    var a := MONTH_ABBREVIATIONS[m - 1];
    LowerThree(a);
    match m
    case 1 => assert a == "Jan";
    case 2 => assert a == "Feb";
    case 3 => assert a == "Mar";
    case 4 => assert a == "Apr";
    case 5 => assert a == "May";
    case 6 => assert a == "Jun";
    case 7 => assert a == "Jul";
    case 8 => assert a == "Aug";
    case 9 => assert a == "Sep";
    case 10 => assert a == "Oct";
    case 11 => assert a == "Nov";
    case 12 => assert a == "Dec";
  }

  /** Lower-casing a 3-letter text, character by character. */
  lemma LowerThree(s: string)
    requires |s| == 3
    ensures LowerAscii(s) == [LowerChar(s[0]), LowerChar(s[1]), LowerChar(s[2])]
  {
  }

  /** Printing a valid date and parsing the text back gives the date. */
  lemma FormatDateRoundTrip(d: Date, f: Format)
    requires ValidDate(d) && d.year <= 9999
    ensures ParseDate(FormatDate(d, f), f) == Some(d)
  {
    var t := FormatDate(d, f);
    var sep := SeparatorText(f);
    var mon := MONTH_ABBREVIATIONS[d.month - 1];
    AbbreviationKey(d.month);
    assert t[..2] == TwoDigits(d.day);
    assert t[2..3] == sep;
    assert t[3..6] == mon;
    assert t[6..7] == sep;
    assert t[7..] == FourDigits(d.year);
    assert SplitAs(t, f, d, 2, 3, 6, 7);
    ParseDateComplete(t, f, d);
  }

  // -------------------------------------------------- one cell of a date column

  /** The strings pandas reads as a missing value before any format is tried. */
  const MISSING_SPELLINGS: set<string> := {"", "NaT", "nat", "NAT", "nan", "NaN", "NAN"}

  /** A cell of a strictly parsed date column after `to_datetime(...).dt.date`. */
  datatype DateCell = Present(date: Date) | Missing | Malformed

  function StrictDate(t: string, f: Format): (c: DateCell)
  {
    if t in MISSING_SPELLINGS then Missing
    else match ParseDate(t, f)
      case Some(d) => Present(d)
      case None => Malformed
  }

  /** A strict cell is missing exactly for the missing-value spellings, holds
      the date its text spells when there is one, and is malformed exactly when
      the text is neither. */
  lemma StrictDateCorrect(t: string, f: Format)
    ensures StrictDate(t, f).Missing? <==> t in MISSING_SPELLINGS
    ensures StrictDate(t, f).Present? ==>
      ValidDate(StrictDate(t, f).date) && Spells(t, f, StrictDate(t, f).date)
    ensures StrictDate(t, f).Malformed? <==>
      t !in MISSING_SPELLINGS && forall d :: !(Spells(t, f, d) && ValidDate(d))
  {
    if t !in MISSING_SPELLINGS {
      match ParseDate(t, f)
      case Some(d) =>
        ParseDateSound(t, f);
      case None =>
        forall d ensures !(Spells(t, f, d) && ValidDate(d)) {
          ParseDateCharacterized(t, f, d);
        }
    }
  }

  /** An information separator between two fields is white space to `%d %b %Y`,
      as it is to `\s` in a `str` pattern. */
  lemma SeparatorBetweenFields(sep: char)
    requires '\U{001C}' <= sep <= '\U{001F}'
    ensures ParseDate(['1', sep] + "Jan 2024", SpaceFormat) == Some(Date(2024, 1, 1))
  {
    var t := ['1', sep] + "Jan 2024";
    assert t[..1] == "1" && t[1..2] == [sep] && t[2..5] == "Jan" && t[5..6] == " " && t[6..] == "2024";
    assert LowerAscii("Jan") == "jan";
    assert "2024"[..3] == "202" && "202"[..2] == "20";
    NumeralTwo("20");
    assert SplitAs(t, SpaceFormat, Date(2024, 1, 1), 1, 2, 5, 6);
    ParseDateComplete(t, SpaceFormat, Date(2024, 1, 1));
  }

  /** The canonical text of a date is read back as that date by the strict
      column parse. */
  lemma StrictDateOfFormatted(d: Date, f: Format)
    requires ValidDate(d) && d.year <= 9999
    ensures StrictDate(FormatDate(d, f), f) == Present(d)
  {
    FormatDateLength(d, f);
    LongTextNotMissing(FormatDate(d, f));
    FormatDateRoundTrip(d, f);
  }

  lemma FormatDateLength(d: Date, f: Format)
    requires ValidDate(d) && d.year <= 9999
    ensures |FormatDate(d, f)| == 11
  {
    AbbreviationKey(d.month);
  }

  lemma LongTextNotMissing(t: string)
    requires |t| > 3
    ensures t !in MISSING_SPELLINGS
  {
  }

  /** The value a cell holds in the returned table. */
  function CellValue(c: DateCell): Option<Date>
  {
    if c.Present? then Some(c.date) else None
  }
}
