/** `openEditorAndUpdateDate` and the message listener: the strictly sequential
    phases of one `updateDate` request, each of which either passes or fails
    with an error message, and the response the listener sends back.

    The page is abstracted to what each phase observes: whether each waited-for
    element appears before its timeout, which input fields exist, the texts of
    the picker's candidates and the successive values of the input. */
module Automator {
  import opened Outcomes
  import opened Decimal
  import opened Dates
  import opened Fields
  import opened Picker
  import opened Verification

  datatype Page = Page(
    editButtonAppears: bool,       // '.mdi-19px' within initialWait
    inputFieldNames: set<string>,  // data-field-name values of the inputs that appear within elementWait
    pickerOpens: bool,             // the date picker wait after focusing the input
    pickerStillOpen: bool,         // the date picker wait at the start of setDateInPicker
    switchAppears: bool,           // '.datepicker-switch, .picker-switch'
    monthsViewAppears: bool,       // '.datepicker-months, .picker-switch' after the first click
    yearsViewAppears: bool,        // '.datepicker-years, .year' after the second click
    picker: PickerTexts,
    inputValues: seq<string>)

  const EditButtonSelector := ".mdi-19px"
  const SwitchSelector := ".datepicker-switch, .picker-switch"
  const MonthsViewSelector := ".datepicker-months, .picker-switch"
  const YearsViewSelector := ".datepicker-years, .year"
  const PickerTimeout := "Date picker not found or not visible within timeout"

  function InputSelector(field: string): string {
    "input[data-field-name=\"" + field + "\"]"
  }

  /** `waitForElement(selector, timeout)`: the element, or a timeout error naming the selector. */
  function WaitForElement(appears: bool, selector: string): Result<()> {
    Need(appears, "Timed out waiting for element: " + selector)
  }

  /** `waitForDatePicker()`. */
  function WaitForDatePicker(visible: bool): Result<()> {
    Need(visible, PickerTimeout)
  }

  /** What a request needs for the model to apply: a date whose first three
      pieces are digit strings of safe integers, an identifier that is not an
      inherited object member and can be quoted in the input selector as it
      is, and enough recorded reads of the input. */
  predicate ValidRequest(page: Page, field: string, dateString: string) {
    && ParseIsoDate(dateString).Some?
    && ExactNumbers(ParseIsoDate(dateString).value)
    && field !in InheritedKeys
    && SelectorSafe(field)
    && |page.inputValues| > MaxRetries
  }

  /** The parsed numbers are exact doubles, so `Number` and `toString` on them
      agree with their decimal values. */
  predicate ExactNumbers(date: Date) {
    date.year <= MaxSafeInteger && date.month <= MaxSafeInteger && date.day <= MaxSafeInteger
  }

  /** The identifier has no character that ends or escapes a CSS string or is
      not allowed in one: no double quote, backslash, line break, form feed
      or NUL. Any other identifier is matched literally by the attribute
      selector. */
  predicate SelectorSafe(field: string) {
    forall i :: 0 <= i < |field| ==> SelectorSafeChar(field[i])
  }

  predicate SelectorSafeChar(c: char) {
    c != '"' && c != '\\' && c != '\n' && c != '\r' && c != '\U{000C}' && c != '\0'
  }

  /** The success message `Updated <label> to <formatted date>`. */
  function SuccessMessage(field: string, date: Date): string
    requires field !in InheritedKeys
  {
    "Updated " + FieldLabel(field) + " to " + FormatDateForInput(date.year, date.month, date.day)
  }

  /** `setDateInPicker(year, month, day)`: the picker wait, the two clicks on
      the switch with their waits, then the selection. */
  function SetDateInPicker(page: Page, date: Date): Result<Picked> {
    var _ :- WaitForDatePicker(page.pickerStillOpen);
    var _ :- WaitForElement(page.switchAppears, SwitchSelector);
    var _ :- WaitForElement(page.monthsViewAppears, MonthsViewSelector);
    var _ :- WaitForElement(page.yearsViewAppears, YearsViewSelector);
    SelectYearMonthDay(page.picker, date.year, date.month, date.day)
  }

  /** `openEditorAndUpdateDate(field, dateString)`. */
  function OpenEditorAndUpdateDate(page: Page, field: string, dateString: string): Result<string>
    requires ValidRequest(page, field, dateString)
  {
    var _ :- WaitForElement(page.editButtonAppears, EditButtonSelector);
    var _ :- WaitForElement(field in page.inputFieldNames, InputSelector(field));
    var _ :- WaitForDatePicker(page.pickerOpens);
    var date := ParseIsoDate(dateString).value;
    var _ :- SetDateInPicker(page, date);
    var _ :- VerifyInputUpdate(page.inputValues, date.year, date.month, date.day);
    Ok(SuccessMessage(field, date))
  }

  /** The phases in order, each judged on its own. Every phase observes a
      different part of the page, so none depends on an earlier one passing. */
  function Phases(page: Page, field: string, date: Date): seq<Result<()>>
    requires |page.inputValues| > MaxRetries
  {
    seq(PhaseCount, k requires 0 <= k < PhaseCount => Phase(page, field, date, k))
  }

  const PhaseCount := 11

  /** Phase `k` of a request, in the order the script runs them. */
  function Phase(page: Page, field: string, date: Date, k: nat): Result<()>
    requires |page.inputValues| > MaxRetries
    requires k < PhaseCount
  {
    match k
    case 0 => WaitForElement(page.editButtonAppears, EditButtonSelector)
    case 1 => WaitForElement(field in page.inputFieldNames, InputSelector(field))
    case 2 => WaitForDatePicker(page.pickerOpens)
    case 3 => WaitForDatePicker(page.pickerStillOpen)
    case 4 => WaitForElement(page.switchAppears, SwitchSelector)
    case 5 => WaitForElement(page.monthsViewAppears, MonthsViewSelector)
    case 6 => WaitForElement(page.yearsViewAppears, YearsViewSelector)
    case 7 => Unit(ChooseYear(page.picker, date.year))
    case 8 => Unit(ChooseMonth(page.picker, date.month))
    case 9 => Unit(ChooseDay(page.picker, date.day))
    case 10 => Unit(VerifyInputUpdate(page.inputValues, date.year, date.month, date.day))
  }

  function Unit<T>(r: Result<T>): Result<()> {
    match r
    case Ok(_) => Ok(())
    case Err(e) => Err(e)
  }

  /** The error of the first failing phase, if any. */
  function FirstFailure(phases: seq<Result<()>>): Option<string> {
    FirstFailureFrom(phases, 0)
  }

  function FirstFailureFrom(phases: seq<Result<()>>, k: nat): Option<string>
    requires k <= |phases|
    decreases |phases| - k
  {
    if k == |phases| then None
    else if phases[k].Err? then Some(phases[k].error)
    else FirstFailureFrom(phases, k + 1)
  }

  /** `FirstFailure` finds nothing exactly when every phase passes, and
      otherwise the error of a failing phase that only passing phases precede. */
  lemma {:induction false} FirstFailureIsFirst(phases: seq<Result<()>>, k: nat)
    requires k <= |phases|
    ensures FirstFailureFrom(phases, k).None? <==> forall i :: k <= i < |phases| ==> phases[i].Ok?
    ensures FirstFailureFrom(phases, k).Some? ==>
      exists i :: k <= i < |phases| && phases[i] == Err(FirstFailureFrom(phases, k).value)
                  && forall j :: k <= j < i ==> phases[j].Ok?
    decreases |phases| - k
  {
    if k < |phases| && phases[k].Ok? {
      FirstFailureIsFirst(phases, k + 1);
      var e := FirstFailureFrom(phases, k + 1);
      if e.Some? {
        var i :| k + 1 <= i < |phases| && phases[i] == Err(e.value)
                 && forall j :: k + 1 <= j < i ==> phases[j].Ok?;
        assert forall j :: k <= j < i ==> phases[j].Ok?;
      }
    }
  }

  /** Phases that all pass can be skipped when looking for the first failure. */
  lemma {:induction false} SkipPassedPhases(phases: seq<Result<()>>, k: nat, m: nat)
    requires k <= m <= |phases|
    requires forall j :: k <= j < m ==> phases[j].Ok?
    ensures FirstFailureFrom(phases, k) == FirstFailureFrom(phases, m)
    decreases m - k
  {
    if k < m {
      SkipPassedPhases(phases, k + 1, m);
    }
  }

  /** Inside `setDateInPicker` the phases short-circuit in the same order. */
  lemma SetDateInPickerShortCircuits(page: Page, field: string, date: Date)
    requires |page.inputValues| > MaxRetries
    ensures var r := SetDateInPicker(page, date);
      r.Err? ==> FirstFailureFrom(Phases(page, field, date), 3) == Some(r.error)
    ensures SetDateInPicker(page, date).Ok? ==>
      FirstFailureFrom(Phases(page, field, date), 3) == FirstFailureFrom(Phases(page, field, date), 10)
    ensures SetDateInPicker(page, date).Ok? <==> forall k :: 3 <= k < 10 ==> Phases(page, field, date)[k].Ok?
  {
    SetDatePhasesPass(page, field, date);
    var ph := Phases(page, field, date);
    if ph[3].Err? || ph[4].Err? || ph[5].Err? || ph[6].Err? {
      WaitPhaseError(page, field, date);
    } else {
      SkipPassedPhases(ph, 3, 7);
      SelectionPhaseError(page, field, date);
    }
  }

  /** `setDateInPicker` succeeds exactly when its seven phases pass. */
  lemma SetDatePhasesPass(page: Page, field: string, date: Date)
    requires |page.inputValues| > MaxRetries
    ensures SetDateInPicker(page, date).Ok? <==> forall k :: 3 <= k < 10 ==> Phases(page, field, date)[k].Ok?
  {
    var ph := Phases(page, field, date);
    var y, m, d := ChooseYear(page.picker, date.year), ChooseMonth(page.picker, date.month), ChooseDay(page.picker, date.day);
    assert ph[7] == Unit(y) && ph[8] == Unit(m) && ph[9] == Unit(d);
    assert ph[3] == WaitForDatePicker(page.pickerStillOpen);
    assert ph[4] == WaitForElement(page.switchAppears, SwitchSelector);
    assert ph[5] == WaitForElement(page.monthsViewAppears, MonthsViewSelector);
    assert ph[6] == WaitForElement(page.yearsViewAppears, YearsViewSelector);
    if SetDateInPicker(page, date).Ok? {
      forall k | 3 <= k < 10
        ensures ph[k].Ok?
      {
      }
    }
  }

  /** A failing wait inside `setDateInPicker` is its error. */
  lemma WaitPhaseError(page: Page, field: string, date: Date)
    requires |page.inputValues| > MaxRetries
    requires var ph := Phases(page, field, date); ph[3].Err? || ph[4].Err? || ph[5].Err? || ph[6].Err?
    ensures SetDateInPicker(page, date).Err?
    ensures FirstFailureFrom(Phases(page, field, date), 3) == Some(SetDateInPicker(page, date).error)
  {
    var ph := Phases(page, field, date);
    if ph[3].Err? {
    } else if ph[4].Err? {
      assert FirstFailureFrom(ph, 3) == FirstFailureFrom(ph, 4);
    } else if ph[5].Err? {
      SkipPassedPhases(ph, 3, 5);
    } else {
      SkipPassedPhases(ph, 3, 6);
    }
  }

  /** Once the waits pass, `setDateInPicker` is the selection, whose units
      short-circuit in order. */
  lemma SelectionPhaseError(page: Page, field: string, date: Date)
    requires |page.inputValues| > MaxRetries
    requires var ph := Phases(page, field, date); ph[3].Ok? && ph[4].Ok? && ph[5].Ok? && ph[6].Ok?
    ensures var r := SetDateInPicker(page, date);
      r.Err? ==> FirstFailureFrom(Phases(page, field, date), 7) == Some(r.error)
    ensures SetDateInPicker(page, date).Ok? ==>
      FirstFailureFrom(Phases(page, field, date), 7) == FirstFailureFrom(Phases(page, field, date), 10)
  {
    var ph := Phases(page, field, date);
    var y, m, d := ChooseYear(page.picker, date.year), ChooseMonth(page.picker, date.month), ChooseDay(page.picker, date.day);
    assert ph[7] == Unit(y) && ph[8] == Unit(m) && ph[9] == Unit(d);
    ThreeUnits(ph, 7, y, m, d);
    assert SetDateInPicker(page, date) == SelectYearMonthDay(page.picker, date.year, date.month, date.day);
  }

  /** Three consecutive phases that stand for three chained results report the
      first of them that fails. */
  lemma ThreeUnits<A, B, C>(ph: seq<Result<()>>, k: nat, a: Result<A>, b: Result<B>, c: Result<C>)
    requires k + 3 <= |ph| && ph[k] == Unit(a) && ph[k + 1] == Unit(b) && ph[k + 2] == Unit(c)
    ensures a.Err? ==> FirstFailureFrom(ph, k) == Some(a.error)
    ensures a.Ok? && b.Err? ==> FirstFailureFrom(ph, k) == Some(b.error)
    ensures a.Ok? && b.Ok? && c.Err? ==> FirstFailureFrom(ph, k) == Some(c.error)
    ensures a.Ok? && b.Ok? && c.Ok? ==> FirstFailureFrom(ph, k) == FirstFailureFrom(ph, k + 3)
  {
    if a.Ok? && b.Ok? {
      SkipPassedPhases(ph, k, k + 2);
    }
  }

  /** The first failing phase short-circuits the rest: the request fails with
      that phase's error, and succeeds with the success message exactly when
      every phase passes. */
  lemma OpenEditorShortCircuits(page: Page, field: string, dateString: string)
    requires ValidRequest(page, field, dateString)
    ensures var date := ParseIsoDate(dateString).value;
      OpenEditorAndUpdateDate(page, field, dateString)
        == match FirstFailure(Phases(page, field, date))
           case None => Ok(SuccessMessage(field, date))
           case Some(e) => Err(e)
  {
    var date := ParseIsoDate(dateString).value;
    var ph := Phases(page, field, date);
    if ph[0].Err? {
    } else if ph[1].Err? {
      assert FirstFailure(ph) == FirstFailureFrom(ph, 1);
    } else if ph[2].Err? {
      SkipPassedPhases(ph, 0, 2);
    } else {
      SkipPassedPhases(ph, 0, 3);
      SetDateInPickerShortCircuits(page, field, date);
      AfterWaits(page, field, dateString);
      VerificationPhase(page, field, date);
    }
  }

  /** Once the picker phases pass, the verification is the last phase. */
  lemma VerificationPhase(page: Page, field: string, date: Date)
    requires |page.inputValues| > MaxRetries
    ensures var ph := Phases(page, field, date);
      var v := VerifyInputUpdate(page.inputValues, date.year, date.month, date.day);
      FirstFailureFrom(ph, 10) == if v.Err? then Some(v.error) else None
  {
    var ph := Phases(page, field, date);
    var v := VerifyInputUpdate(page.inputValues, date.year, date.month, date.day);
    assert ph[10] == Unit(v);
    assert |ph| == 11;
  }

  /** The inbound message `{action, field, date}`. */
  datatype Request = Request(action: string, field: string, date: string)

  /** `{success: true, message}` or `{success: false, error}`. */
  datatype Response = Succeeded(message: string) | Failed(error: string)

  function ToResponse(r: Result<string>): (resp: Response)
    ensures resp.Succeeded? <==> r.Ok?
    ensures r.Ok? ==> resp.message == r.value
    ensures r.Err? ==> resp.error == r.error
  {
    match r
    case Ok(message) => Succeeded(message)
    case Err(error) => Failed(error)
  }

  /** The listener: an `updateDate` request gets exactly one response carrying
      the outcome of the update; any other message gets none. */
  function HandleMessage(page: Page, request: Request): (resp: Option<Response>)
    requires request.action == "updateDate" ==> ValidRequest(page, request.field, request.date)
    ensures resp.Some? <==> request.action == "updateDate"
  {
    if request.action == "updateDate" then
      Some(ToResponse(OpenEditorAndUpdateDate(page, request.field, request.date)))
    else None
  }

  /** A request is answered with success exactly when every phase passes, the
      message then being the success message for the parsed date; otherwise
      the answer carries the first failing phase's error. */
  lemma HandleMessageOutcome(page: Page, request: Request)
    requires request.action == "updateDate"
    requires ValidRequest(page, request.field, request.date)
    ensures var date := ParseIsoDate(request.date).value;
      var phases := Phases(page, request.field, date);
      HandleMessage(page, request)
        == Some(if FirstFailure(phases).None? then Succeeded(SuccessMessage(request.field, date))
                else Failed(FirstFailure(phases).value))
  {
    OpenEditorShortCircuits(page, request.field, request.date);
  }

  /** For a well-formed ISO date the success message reads
      `Updated <label> to DD-Mon-YY` with the ISO day digits, the month's
      abbreviation and the last two year digits. */
  lemma SuccessMessageOfIsoDate(field: string, y: string, m: string, d: string)
    requires field !in InheritedKeys
    requires IsDigits(y) && |y| >= 2 && y[0] != '0'
    requires IsDigits(m) && |m| == 2 && 1 <= DigitsToNat(m) <= 12
    requires IsDigits(d) && |d| == 2
    ensures ParseIsoDate(y + "-" + m + "-" + d).Some?
    ensures SuccessMessage(field, ParseIsoDate(y + "-" + m + "-" + d).value)
         == "Updated " + FieldLabel(field) + " to "
            + (d + "-" + MonthNames[DigitsToNat(m) - 1] + "-" + y[|y| - 2..])
  {
    FormatOfIsoDate(y, m, d);
    var date := Date(DigitsToNat(y), DigitsToNat(m), DigitsToNat(d));
    assert ParseIsoDate(y + "-" + m + "-" + d).value == date;
  }

  /** `FSD_Status_Update__c` with `2023-07-04` reports
      `Updated FSD Status Update to 04-Jul-23`. */
  lemma SuccessMessageExample(field: string, iso: string)
    requires field == "FSD_Status_Update__c" && iso == "2023-07-04"
    ensures ParseIsoDate(iso).Some? && field !in InheritedKeys
    ensures SuccessMessage(field, ParseIsoDate(iso).value) == "Updated FSD Status Update to 04-Jul-23"
  {
    ScenarioDate(iso);
    ScenarioFormat();
    ScenarioField(field);
    FieldLabelExamples();
    ExampleMessageText();
  }

  lemma ExampleMessageText()
    ensures "Updated " + "FSD Status Update" + " to " + "04-Jul-23" == "Updated FSD Status Update to 04-Jul-23"
  {
  }

  /** Every wait for an element succeeds, including the input for `field`. */
  predicate AllWaitsSucceed(page: Page, field: string) {
    && page.editButtonAppears && field in page.inputFieldNames && page.pickerOpens
    && page.pickerStillOpen && page.switchAppears && page.monthsViewAppears && page.yearsViewAppears
  }

  /** Facts shared by the two scenarios below. */
  lemma ScenarioDate(iso: string)
    requires iso == "2023-07-04"
    ensures ParseIsoDate(iso) == Some(Date(2023, 7, 4))
  {
    var y, m, d := "2023", "07", "04";
    assert iso == y + "-" + m + "-" + d;
    ParseIsoDatePieces(y, m, d);
    ScenarioDigits();
  }

  lemma ScenarioFormat()
    ensures FormatDateForInput(2023, 7, 4) == "04-Jul-23"
    ensures NatToString(2023) == "2023" && NatToString(4) == "4"
  {
    FormatDateForInputShape(2023, 7, 4);
    assert TwoDigits(4) == "04" && TwoDigits(23) == "23" && MonthNames[6] == "Jul";
  }

  lemma ScenarioDigits()
    ensures DigitsToNat("2023") == 2023
    ensures DigitsToNat("07") == 7 && DigitsToNat("04") == 4
  {
    TwoDigitsOfDigitsToNat("07");
    TwoDigitsOfDigitsToNat("04");
    TwoDigitsOfDigitsToNat("20");
    TwoDigitsOfDigitsToNat("23");
    assert "2023" == "20" + "23";
    DigitsToNatAppend("20", "23");
    assert Pow10(2) == 100;
  }

  /** On a page where every wait succeeds and the picker offers the date's
      units, the request succeeds as soon as one of the first `maxRetries`
      reads of the input shows the formatted date. */
  lemma UpdateSucceeds(page: Page, field: string, dateString: string, date: Date, i: nat)
    requires ValidRequest(page, field, dateString) && AllWaitsSucceed(page, field)
    requires ParseIsoDate(dateString) == Some(date)
    requires NatToString(date.year) in page.picker.years
    requires 1 <= date.month <= 12 && MonthNames[date.month - 1] in page.picker.months
    requires NatToString(date.day) in page.picker.days
    requires i < MaxRetries && page.inputValues[i] == FormatDateForInput(date.year, date.month, date.day)
    ensures OpenEditorAndUpdateDate(page, field, dateString) == Ok(SuccessMessage(field, date))
  {
    InputShowsDate(page.inputValues, date, i);
    PickerOffersDate(page, date);
    AfterWaits(page, field, dateString);
  }

  lemma InputShowsDate(values: seq<string>, date: Date, i: nat)
    requires i < MaxRetries < |values|
    requires values[i] == FormatDateForInput(date.year, date.month, date.day)
    ensures VerifyInputUpdate(values, date.year, date.month, date.day).Ok?
  {
  }

  lemma PickerOffersDate(page: Page, date: Date)
    requires page.pickerStillOpen && page.switchAppears && page.monthsViewAppears && page.yearsViewAppears
    requires NatToString(date.year) in page.picker.years
    requires 1 <= date.month <= 12 && MonthNames[date.month - 1] in page.picker.months
    requires NatToString(date.day) in page.picker.days
    ensures SetDateInPicker(page, date).Ok?
  {
  }

  /** Once the three waits before the picker pass, the update is the picker
      selection followed by the verification. */
  lemma AfterWaits(page: Page, field: string, dateString: string)
    requires ValidRequest(page, field, dateString)
    requires page.editButtonAppears && field in page.inputFieldNames && page.pickerOpens
    ensures var date := ParseIsoDate(dateString).value;
      var sd := SetDateInPicker(page, date);
      var v := VerifyInputUpdate(page.inputValues, date.year, date.month, date.day);
      OpenEditorAndUpdateDate(page, field, dateString)
        == if sd.Err? then Err(sd.error) else if v.Err? then Err(v.error) else Ok(SuccessMessage(field, date))
  {
  }

  /** On a page where every wait succeeds and the picker offers the year and
      month but its non-empty day list lacks the day, the request fails with
      the day's "not found" error. */
  lemma UpdateFailsAtDay(page: Page, field: string, dateString: string, date: Date)
    requires ValidRequest(page, field, dateString) && AllWaitsSucceed(page, field)
    requires ParseIsoDate(dateString) == Some(date)
    requires NatToString(date.year) in page.picker.years
    requires 1 <= date.month <= 12 && MonthNames[date.month - 1] in page.picker.months
    requires |page.picker.days| > 0 && NatToString(date.day) !in page.picker.days
    ensures OpenEditorAndUpdateDate(page, field, dateString) == Err(DayNotFound(date.day))
  {
    assert SetDateInPicker(page, date) == Err(DayNotFound(date.day));
  }

  /** Updating `FSD_Status_Update__c` to `2023-07-04` on a page whose picker
      offers 2023, Jul and 4, and whose input then reads `04-Jul-23`, answers
      `Updated FSD Status Update to 04-Jul-23`. */
  lemma EndToEndScenario(page: Page, field: string, iso: string)
    requires field == "FSD_Status_Update__c" && iso == "2023-07-04"
    requires AllWaitsSucceed(page, field)
    requires "2023" in page.picker.years && "Jul" in page.picker.months && "4" in page.picker.days
    requires |page.inputValues| > MaxRetries && page.inputValues[0] == "04-Jul-23"
    ensures ValidRequest(page, field, iso)
    ensures HandleMessage(page, Request("updateDate", field, iso))
         == Some(Succeeded("Updated FSD Status Update to 04-Jul-23"))
  {
    ScenarioDate(iso);
    ScenarioFormat();
    ScenarioField(field);
    assert MonthNames[6] == "Jul";
    UpdateSucceeds(page, field, iso, Date(2023, 7, 4), 0);
    SuccessMessageExample(field, iso);
  }

  lemma ScenarioField(field: string)
    requires field == "FSD_Status_Update__c"
    ensures field !in InheritedKeys && SelectorSafe(field)
  {
  }

  /** The same request on a page whose picker offers 2023 and Jul but no day
      cell reading "4" answers with the day's "not found" error,
      `Day 4 not found in picker` (`Picker.DayNotFoundExample`), whatever the
      input shows. */
  lemma MissingDayScenario(page: Page, field: string, iso: string)
    requires field == "FSD_Status_Update__c" && iso == "2023-07-04"
    requires AllWaitsSucceed(page, field)
    requires "2023" in page.picker.years && "Jul" in page.picker.months
    requires |page.picker.days| > 0 && "4" !in page.picker.days
    requires |page.inputValues| > MaxRetries
    ensures ValidRequest(page, field, iso)
    ensures HandleMessage(page, Request("updateDate", field, iso))
         == Some(Failed(DayNotFound(4)))
  {
    ScenarioDate(iso);
    ScenarioFormat();
    ScenarioField(field);
    assert MonthNames[6] == "Jul";
    UpdateFailsAtDay(page, field, iso, Date(2023, 7, 4));
  }
}
