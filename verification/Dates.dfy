/** The date logic of the content script: the fixed English month table, the
    `DD-Mon-YY` rendering the target input expects, and the parse of the ISO
    `YYYY-MM-DD` request date by `split('-').map(Number)`. */
module Dates {
  import opened Outcomes
  import opened Decimal
  import opened Text

  /** The month table of `getMonthShortName`. */
  const MonthNames: seq<string> :=
    ["Jan", "Feb", "Mar", "Apr", "May", "Jun", "Jul", "Aug", "Sep", "Oct", "Nov", "Dec"]

  /** The separate month table of `formatDateForInput`. */
  const InputMonthNames: seq<string> :=
    ["Jan", "Feb", "Mar", "Apr", "May", "Jun", "Jul", "Aug", "Sep", "Oct", "Nov", "Dec"]

  /** The two tables are written alike, entry for entry. */
  lemma MonthTablesAgree()
    ensures |InputMonthNames| == |MonthNames| == 12
    ensures forall i :: 0 <= i < 12 ==> InputMonthNames[i] == MonthNames[i]
  {
  }

  /** `monthNames[m - 1]`: `undefined` (None) outside 1..12. */
  function MonthShortName(m: int): (r: Option<string>)
    ensures r.Some? <==> 1 <= m <= 12
    ensures r.Some? ==> |r.value| == 3 && r.value in MonthNames
  {
    if 1 <= m <= 12 then Some(MonthNames[m - 1]) else None
  }

  /** The month as a template literal prints it: `undefined` renders as "undefined". */
  function MonthText(m: int): string {
    match MonthShortName(m)
    case Some(name) => name
    case None => "undefined"
  }

  /** Reverse lookup in the month table, searched from January onwards. */
  function MonthNumber(name: string): (r: Option<nat>)
    ensures r.Some? ==> 1 <= r.value <= 12 && MonthNames[r.value - 1] == name
    ensures r.None? <==> name !in MonthNames
  {
    match FindFirst(MonthNames, name)
    case Some(i) => Some(i + 1)
    case None => None
  }

  /** No two months share an abbreviation. */
  lemma MonthNamesDistinct()
    ensures forall i, j :: 0 <= i < j < 12 ==> MonthNames[i] != MonthNames[j]
  {
    forall i, j | 0 <= i < j < 12
      ensures MonthNames[i] != MonthNames[j]
    {
      assert MonthNames[i][0] != MonthNames[j][0] || MonthNames[i][1] != MonthNames[j][1]
          || MonthNames[i][2] != MonthNames[j][2];
    }
  }

  /** `getMonthShortName` is a bijection between 1..12 and the twelve
      abbreviations, inverted by `MonthNumber`. */
  lemma MonthShortNameRoundTrip(m: int, name: string)
    ensures MonthShortName(m) == Some(name) <==> 1 <= m <= 12 && MonthNumber(name) == Some(m)
  {
    MonthNamesDistinct();
    if MonthShortName(m) == Some(name) {
      var k := MonthNumber(name).value;
      assert MonthNames[k - 1] == MonthNames[m - 1];
    }
  }

  /** Two months in range with the same abbreviation are the same month. */
  lemma MonthShortNameInjective(a: int, b: int)
    requires MonthShortName(a).Some?
    requires MonthShortName(a) == MonthShortName(b)
    ensures a == b
  {
    MonthShortNameRoundTrip(a, MonthShortName(a).value);
    MonthShortNameRoundTrip(b, MonthShortName(a).value);
  }

  /** `formatDateForInput(year, month, day)`: the day padded to two digits,
      the month abbreviation and the last two characters of the year. */
  function FormatDateForInput(year: nat, month: int, day: nat): string {
    DaySegment(day) + "-" + MonthSegment(month) + "-" + YearSegment(year)
  }

  /** `monthNames[month-1]` in a template literal, on the formatter's own table. */
  function MonthSegment(month: int): string {
    if 1 <= month <= 12 then InputMonthNames[month - 1] else "undefined"
  }

  /** The formatter's month segment is what `getMonthShortName` gives, printed. */
  lemma MonthSegmentIsMonthText(month: int)
    ensures MonthSegment(month) == MonthText(month)
  {
    MonthTablesAgree();
  }

  /** `day.toString().padStart(2, '0')`. */
  function DaySegment(day: nat): string {
    PadStart(NatToString(day), 2, '0')
  }

  /** `year.toString().slice(-2)`. */
  function YearSegment(year: nat): string {
    SliceLast(NatToString(year), 2)
  }

  /** A day below 100 renders as exactly its two-digit form. */
  lemma DaySegmentTwoDigits(day: nat)
    requires day < 100
    ensures DaySegment(day) == TwoDigits(day)
  {
    if day >= 10 {
      assert NatToString(day) == NatToString(day / 10) + [DigitChar(day % 10)];
    }
  }

  /** A year of two or more digits renders as the two digits of `year % 100`. */
  lemma YearSegmentTwoDigits(year: nat)
    requires year >= 10
    ensures YearSegment(year) == TwoDigits(year % 100)
  {
    LastTwoOfNatToString(year);
  }

  /** For a month in range, a day below 100 and a year of two or more digits,
      the input value is nine characters: two day digits, `-`, the month
      abbreviation, `-`, and the two digits of `year % 100`. */
  lemma FormatDateForInputShape(year: nat, month: int, day: nat)
    requires 1 <= month <= 12 && day < 100 && year >= 10
    ensures |FormatDateForInput(year, month, day)| == 9
    ensures FormatDateForInput(year, month, day)
         == TwoDigits(day) + "-" + MonthShortName(month).value + "-" + TwoDigits(year % 100)
  {
    DaySegmentTwoDigits(day);
    YearSegmentTwoDigits(year);
    MonthSegmentIsMonthText(month);
  }

  /** `padStart` never truncates: a day of two or more digits is rendered in
      full, and a one-digit day gains exactly one leading `0`. */
  lemma DaySegmentNotTruncated(day: nat)
    ensures day >= 10 ==> DaySegment(day) == NatToString(day)
    ensures day < 10 ==> DaySegment(day) == "0" + NatToString(day)
  {
    if day >= 10 {
      NatToStringLength(day, 1);
    }
  }

  /** The input value starts with the day segment and a `-`. */
  lemma FormatStartsWithDay(year: nat, month: int, day: nat)
    ensures var k := |DaySegment(day)|;
      FormatDateForInput(year, month, day)[..k + 1] == DaySegment(day) + "-"
  {
    PiecesAt(DaySegment(day), MonthSegment(month), YearSegment(year), '-');
  }

  /** `slice(-2)` forgets the century: years of two or more digits that differ
      by a multiple of 100 give the same input value. */
  lemma YearCentury(y1: nat, y2: nat, month: int, day: nat)
    requires y1 >= 10 && y2 >= 10 && y1 % 100 == y2 % 100
    ensures FormatDateForInput(y1, month, day) == FormatDateForInput(y2, month, day)
  {
    YearSegmentTwoDigits(y1);
    YearSegmentTwoDigits(y2);
  }

  /** On its domain the rendering determines the day, the month and the year
      modulo 100, and nothing more. */
  lemma FormatDateForInputInjective(y1: nat, m1: int, d1: nat, y2: nat, m2: int, d2: nat)
    requires 1 <= m1 <= 12 && d1 < 100 && y1 >= 10
    requires 1 <= m2 <= 12 && d2 < 100 && y2 >= 10
    ensures FormatDateForInput(y1, m1, d1) == FormatDateForInput(y2, m2, d2)
        <==> d1 == d2 && m1 == m2 && y1 % 100 == y2 % 100
  {
    FormatDateForInputShape(y1, m1, d1);
    FormatDateForInputShape(y2, m2, d2);
    if FormatDateForInput(y1, m1, d1) == FormatDateForInput(y2, m2, d2) {
      var n1, n2 := MonthShortName(m1).value, MonthShortName(m2).value;
      PiecesAt(TwoDigits(d1), n1, TwoDigits(y1 % 100), '-');
      PiecesAt(TwoDigits(d2), n2, TwoDigits(y2 % 100), '-');
      assert TwoDigits(d1) == TwoDigits(d2);
      DigitsToNatOfTwoDigits(d1);
      DigitsToNatOfTwoDigits(d2);
      assert n1 == n2;
      MonthShortNameInjective(m1, m2);
      assert TwoDigits(y1 % 100) == TwoDigits(y2 % 100);
      DigitsToNatOfTwoDigits(y1 % 100);
      DigitsToNatOfTwoDigits(y2 % 100);
    }
  }

  /** The month segment of the input value is the abbreviation `getMonthShortName`
      gives for the same month, whatever the day and year. */
  lemma MonthSegmentIsShortName(year: nat, month: int, day: nat)
    requires 1 <= month <= 12
    ensures var f, k := FormatDateForInput(year, month, day), |DaySegment(day)| + 1;
      k + 4 <= |f| && f[k..k + 4] == MonthShortName(month).value + "-"
  {
    MonthSegmentIsMonthText(month);
    PiecesAt(DaySegment(day), MonthSegment(month), YearSegment(year), '-');
  }

  /** `formatDateForInput(2024, 3, 5)` is `05-Mar-24`. */
  lemma FormatDateExampleMarch(year: nat, month: int, day: nat)
    requires year == 2024 && month == 3 && day == 5
    ensures FormatDateForInput(year, month, day) == "05-Mar-24"
  {
    FormatDateForInputShape(year, month, day);
    assert MonthShortName(month).value == "Mar";
    assert TwoDigits(day) == "05";
    assert TwoDigits(year % 100) == "24";
  }

  /** `formatDateForInput(1999, 12, 31)` is `31-Dec-99`. */
  lemma FormatDateExampleDecember(year: nat, month: int, day: nat)
    requires year == 1999 && month == 12 && day == 31
    ensures FormatDateForInput(year, month, day) == "31-Dec-99"
  {
    FormatDateForInputShape(year, month, day);
    assert MonthShortName(month).value == "Dec";
    assert TwoDigits(day) == "31";
    assert TwoDigits(year % 100) == "99";
  }

  /** A parsed request date: the three numbers of `split('-').map(Number)`. */
  datatype Date = Date(year: nat, month: nat, day: nat)

  /** `const [year, month, day] = dateString.split('-').map(Number)` on inputs
      whose first three pieces are digit strings (an empty piece is `Number("")`,
      which is 0; pieces after the third are ignored). None stands for the
      inputs on which `Number` gives `NaN` or a piece is missing. */
  function ParseIsoDate(s: string): Option<Date> {
    var parts := Split(s, '-');
    if |parts| >= 3 && IsDigits(parts[0]) && IsDigits(parts[1]) && IsDigits(parts[2])
    then Some(Date(DigitsToNat(parts[0]), DigitsToNat(parts[1]), DigitsToNat(parts[2])))
    else None
  }

  lemma DigitsHaveNoDash(s: string)
    requires IsDigits(s)
    ensures '-' !in s
  {
    forall i | 0 <= i < |s|
      ensures s[i] != '-'
    {
      assert IsDigit(s[i]);
    }
  }

  /** Parsing `Y-M-D` for digit strings gives their numeric values. */
  lemma ParseIsoDatePieces(y: string, m: string, d: string)
    requires IsDigits(y) && IsDigits(m) && IsDigits(d)
    ensures ParseIsoDate(y + "-" + m + "-" + d)
         == Some(Date(DigitsToNat(y), DigitsToNat(m), DigitsToNat(d)))
  {
    DigitsHaveNoDash(y);
    DigitsHaveNoDash(m);
    DigitsHaveNoDash(d);
    SplitThree(y, m, d, '-');
  }

  /** The `YYYY-MM-DD` rendering of a date whose month and day are below 100:
      the year as `toString` prints it, month and day on two digits. */
  function IsoText(date: Date): string
    requires date.month < 100 && date.day < 100
  {
    NatToString(date.year) + "-" + TwoDigits(date.month) + "-" + TwoDigits(date.day)
  }

  /** The parse inverts the ISO rendering. */
  lemma ParseIsoDateRoundTrip(date: Date)
    requires date.month < 100 && date.day < 100
    ensures ParseIsoDate(IsoText(date)) == Some(date)
  {
    var y, m, d := NatToString(date.year), TwoDigits(date.month), TwoDigits(date.day);
    DigitsToNatOfNatToString(date.year);
    DigitsToNatOfTwoDigits(date.month);
    DigitsToNatOfTwoDigits(date.day);
    ParseIsoDatePieces(y, m, d);
  }

  /** The last two digits of a digit string without a leading zero and of
      length two or more are the two-digit rendering of its value modulo 100. */
  lemma LastTwoDigitsOfValue(y: string)
    requires IsDigits(y) && |y| >= 2 && y[0] != '0'
    ensures DigitsToNat(y) >= 10
    ensures TwoDigits(DigitsToNat(y) % 100) == y[|y| - 2..]
  {
    AtLeastTwoDigits(y);
    var hi, last := y[..|y| - 2], y[|y| - 2..];
    SplitLastTwo(y, hi, last);
    var h, l := DigitsToNat(hi), DigitsToNat(last);
    TwoDigitsOfDigitsToNat(last);
    ModOfShift(DigitsToNat(y), h, l);
  }

  lemma AtLeastTwoDigits(y: string)
    requires IsDigits(y) && |y| >= 2 && y[0] != '0'
    ensures DigitsToNat(y) >= 10
  {
    LeadingDigitBound(y);
    Pow10Grows(|y| - 1);
  }

  lemma SplitLastTwo(y: string, hi: string, last: string)
    requires IsDigits(y) && |y| >= 2 && hi == y[..|y| - 2] && last == y[|y| - 2..]
    ensures IsDigits(hi) && IsDigits(last)
    ensures DigitsToNat(y) == DigitsToNat(hi) * 100 + DigitsToNat(last)
  {
    assert y == hi + last;
    DigitsToNatAppend(hi, last);
    assert Pow10(2) == 100;
  }

  lemma ModOfShift(n: nat, a: nat, b: nat)
    requires n == a * 100 + b && b < 100
    ensures n % 100 == b
  {
  }

  /** For a well-formed ISO date (a year of two or more digits without a leading
      zero, a two-digit month 01..12, a two-digit day) the input value reuses
      the ISO day digits as written, the month's abbreviation and the last two
      year digits: leading zeros dropped by `Number` are restored by `padStart`. */
  lemma FormatOfIsoDate(y: string, m: string, d: string)
    requires IsDigits(y) && |y| >= 2 && y[0] != '0'
    requires IsDigits(m) && |m| == 2 && 1 <= DigitsToNat(m) <= 12
    requires IsDigits(d) && |d| == 2
    ensures ParseIsoDate(y + "-" + m + "-" + d)
         == Some(Date(DigitsToNat(y), DigitsToNat(m), DigitsToNat(d)))
    ensures FormatDateForInput(DigitsToNat(y), DigitsToNat(m), DigitsToNat(d))
         == d + "-" + MonthNames[DigitsToNat(m) - 1] + "-" + y[|y| - 2..]
  {
    ParseIsoDatePieces(y, m, d);
    LastTwoDigitsOfValue(y);
    TwoDigitsOfDigitsToNat(d);
    FormatDateForInputShape(DigitsToNat(y), DigitsToNat(m), DigitsToNat(d));
  }
}
