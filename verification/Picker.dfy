/** `selectYearMonthDay`: choosing the year, then the month, then the day in the
    open date picker. The picker is abstracted to the trimmed text contents of
    the candidate elements of each kind, in document order, as they stand when
    the wait for that kind of element ends. */
module Picker {
  import opened Outcomes
  import opened Decimal
  import opened Dates
  import opened Text

  const YearSelector := ".year"
  const MonthSelector := ".month"
  const DaySelector := "td.day:not(.old):not(.new)"

  /** `el.textContent.trim()` of the elements each selector matches. */
  datatype PickerTexts = PickerTexts(years: seq<string>, months: seq<string>, days: seq<string>)

  /** The positions of the year, month and day elements that were clicked. */
  datatype Picked = Picked(yearAt: nat, monthAt: nat, dayAt: nat)

  /** One unit of the selection: `waitForElements` times out on an empty list,
      otherwise the first element whose text equals `target` is clicked, and a
      target that is `undefined` never equals any text. */
  function ChooseUnit(xs: seq<string>, target: Option<string>, selector: string, notFound: string)
    : (r: Result<nat>)
    ensures |xs| == 0 ==> r == Err("Timed out waiting for elements: " + selector)
    ensures |xs| > 0 && (target.None? || target.value !in xs) ==> r == Err(notFound)
    ensures r.Ok? <==> |xs| > 0 && target.Some? && target.value in xs
    ensures r.Ok? ==> IsFirstMatch(xs, r.value, target.value)
  {
    if |xs| == 0 then Err("Timed out waiting for elements: " + selector)
    else match target
      case None => Err(notFound)
      case Some(t) =>
        match FindFirst(xs, t)
        case Some(i) => Ok(i)
        case None => Err(notFound)
  }

  function YearNotFound(year: nat): string {
    "Year " + NatToString(year) + " not found in picker"
  }

  function MonthNotFound(month: nat): string {
    "Month " + NatToString(month) + " (" + MonthText(month) + ") not found in picker"
  }

  function DayNotFound(day: nat): string {
    "Day " + NatToString(day) + " not found in picker"
  }

  function ChooseYear(p: PickerTexts, year: nat): Result<nat> {
    ChooseUnit(p.years, Some(NatToString(year)), YearSelector, YearNotFound(year))
  }

  function ChooseMonth(p: PickerTexts, month: nat): Result<nat> {
    ChooseUnit(p.months, MonthShortName(month), MonthSelector, MonthNotFound(month))
  }

  function ChooseDay(p: PickerTexts, day: nat): Result<nat> {
    ChooseUnit(p.days, Some(NatToString(day)), DaySelector, DayNotFound(day))
  }

  /** `selectYearMonthDay(datepicker, year, month, day)`: year, then month,
      then day, stopping at the first unit that fails. It succeeds exactly when
      each list holds the unpadded year, the month abbreviation and the
      unpadded day, and then it clicks the first element of each kind with
      that text; otherwise the error is that of the first unit that fails, a
      timeout when that unit's list is empty and its "not found" message
      otherwise. */
  function SelectYearMonthDay(p: PickerTexts, year: nat, month: nat, day: nat): (r: Result<Picked>)
    ensures r.Ok? <==> (NatToString(year) in p.years
                        && 1 <= month <= 12 && MonthNames[month - 1] in p.months
                        && NatToString(day) in p.days)
    ensures r.Ok? ==> IsFirstMatch(p.years, r.value.yearAt, NatToString(year))
                      && IsFirstMatch(p.months, r.value.monthAt, MonthNames[month - 1])
                      && IsFirstMatch(p.days, r.value.dayAt, NatToString(day))
    ensures NatToString(year) !in p.years ==>
      r == Err(if |p.years| == 0 then "Timed out waiting for elements: " + YearSelector
               else YearNotFound(year))
    ensures NatToString(year) in p.years && !(1 <= month <= 12 && MonthNames[month - 1] in p.months) ==>
      r == Err(if |p.months| == 0 then "Timed out waiting for elements: " + MonthSelector
               else MonthNotFound(month))
    ensures NatToString(year) in p.years && 1 <= month <= 12 && MonthNames[month - 1] in p.months
            && NatToString(day) !in p.days ==>
      r == Err(if |p.days| == 0 then "Timed out waiting for elements: " + DaySelector
               else DayNotFound(day))
  {
    var y :- ChooseYear(p, year);
    var m :- ChooseMonth(p, month);
    var d :- ChooseDay(p, day);
    Ok(Picked(y, m, d))
  }

  /** Units after the failing one are never looked at: a failed year search
      ignores the month and day candidates, and a failed month search ignores
      the day candidates. */
  lemma LaterUnitsNotAttempted(p: PickerTexts, q: PickerTexts, year: nat, month: nat, day: nat)
    requires p.years == q.years
    ensures ChooseYear(p, year).Err? ==>
      SelectYearMonthDay(p, year, month, day) == SelectYearMonthDay(q, year, month, day)
    ensures p.months == q.months && ChooseMonth(p, month).Err? ==>
      SelectYearMonthDay(p, year, month, day) == SelectYearMonthDay(q, year, month, day)
  {
  }

  /** The day is matched by its unpadded text: a day below 10 is never found
      through a cell reading with a leading zero. */
  lemma DayMatchedUnpadded(p: PickerTexts, day: nat)
    requires day < 10
    requires p.days == ["0" + NatToString(day)]
    ensures ChooseDay(p, day) == Err(DayNotFound(day))
  {
    assert |NatToString(day)| == 1;
    assert NatToString(day) != p.days[0];
  }

  /** A picker showing the years 2022 and 2023, the twelve months and the
      days 3, 4 and 5 selects 2023, Jul and 4 at their positions. */
  lemma SelectionScenarioFound(p: PickerTexts)
    requires p.years == ["2022", "2023"] && p.months == MonthNames && p.days == ["3", "4", "5"]
    ensures SelectYearMonthDay(p, 2023, 7, 4) == Ok(Picked(1, 6, 1))
  {
    assert NatToString(2023) == "2023";
    assert NatToString(4) == "4";
    assert IsFirstMatch(p.years, 1, "2023");
    assert IsFirstMatch(p.days, 1, "4");
    MonthNamesDistinct();
    assert IsFirstMatch(p.months, 6, MonthNames[6]);
    var r := SelectYearMonthDay(p, 2023, 7, 4);
    FirstMatchUnique(p.years, r.value.yearAt, 1, "2023");
    FirstMatchUnique(p.months, r.value.monthAt, 6, MonthNames[6]);
    FirstMatchUnique(p.days, r.value.dayAt, 1, "4");
  }

  /** A picker with 2023 and Jul but no day cell reading "4" fails naming day 4
      (see `DayNotFoundExample` for the text). */
  lemma SelectionScenarioMissingDay(p: PickerTexts)
    requires p.years == ["2023"] && p.months == ["Jul"] && p.days == ["3", "04", "5"]
    ensures SelectYearMonthDay(p, 2023, 7, 4) == Err(DayNotFound(4))
  {
    assert NatToString(2023) == "2023";
    assert NatToString(4) == "4";
    assert p.years[0] == "2023";
    assert p.months[0] == MonthNames[6];
    assert "4" !in p.days by {
      assert p.days[0] != "4" && p.days[1] != "4" && p.days[2] != "4";
    }
  }

  /** The text of the day error for day 4. */
  lemma DayNotFoundExample()
    ensures DayNotFound(4) == "Day 4 not found in picker"
  {
    assert NatToString(4) == "4";
    assert "Day " + "4" + " not found in picker" == "Day 4 not found in picker";
  }
}
