# Date-field automation: a Dafny model

The content script of a browser extension that fills a date field on a record
page. A popup sends it an `updateDate` request: a field identifier and an ISO
date `YYYY-MM-DD`. The script then:

- opens the record editor and waits for the field's input;
- opens the date picker and clicks the year, the month and the day;
- polls the input until it shows the date as `DD-Mon-YY`;
- answers with `Updated <label> to DD-Mon-YY`, or with the error of the first
  step that failed.

This project models that core in Dafny. Each module follows one part of
`content.js`:

| module | models |
|---|---|
| `Outcomes` | the `Ok`/`Err` result every step returns; an error is the JavaScript `Error`'s message |
| `Decimal` | `Number#toString` and `Number` on digit strings, for naturals up to `Number.MAX_SAFE_INTEGER` |
| `Text` | `String#split`, `padStart`, `slice(-k)` and `Array#find` |
| `Dates` | the two month tables, `getMonthShortName`, `formatDateForInput`, and the ISO parse `split('-').map(Number)` |
| `Fields` | `getFieldLabel` |
| `Picker` | `selectYearMonthDay`, a first-match search over the trimmed texts of the picker's candidates |
| `Verification` | `verifyInputUpdate`, a bounded loop over the successive values read from the input |
| `Automator` | `setDateInPicker`, `openEditorAndUpdateDate` as a chain of phases that stops at the first failure, and the message listener's response |

The live page is abstracted into a `Page` record holding what each step
observes:

- whether each waited-for element appears before its timeout;
- which input fields exist;
- the texts of the picker's year, month and day candidates;
- the values `input.value` yields on successive reads.

JavaScript behaviour the code relies on is written out explicitly:

- `toString` prints no leading zero, and `Number("07")` is 7.
- `padStart` never truncates, and `slice(-2)` keeps the whole string when it is shorter.
- `monthNames[m - 1]` is `undefined` outside 1..12. A template literal prints it as `undefined`, and it equals no picker text.
- `waitForElements` on an empty candidate list throws a timeout error, not the "not found" error.
- `fieldLabels[f] || f` falls back to the identifier itself.

## Model

| member | source | states |
|---|---|---|
| Decimal.NatToStringIsCanonical | content.js:212 | `toString` of a natural is a non-empty digit string with no leading zero unless it is `0` |
| Decimal.NatToStringNonZeroLead | content.js:212 | a positive number's rendering does not start with `0` |
| Decimal.NatToStringLength | content.js:212 | the rendering has exactly k characters iff the number has k decimal digits (both directions) |
| Decimal.DigitsToNatOfNatToString | content.js:72 | `Number(n.toString()) == n`: reading a rendering back gives the number |
| Decimal.NatToStringOfDigitsToNat | content.js:72 | `String(Number(s)) == s` for every canonical digit string up to `Number.MAX_SAFE_INTEGER`, the other half of the round trip |
| Decimal.LeadingZeroIgnored | content.js:72 | `Number` drops a leading zero, so `Number("07") == Number("7")` |
| Decimal.DigitsToNatAppend | content.js:72 | the value of a concatenation of digit strings is the first part shifted past the second |
| Decimal.TwoDigitsOfDigitsToNat | content.js:212 | the value of a two-digit string, re-rendered on two digits, is that string |
| Decimal.DigitsToNatOfTwoDigits | content.js:212 | a two-digit rendering reads back to its number, so two-digit renderings are injective |
| Decimal.LastTwoOfNatToString | content.js:212 | the last two characters of a rendering of two or more digits are the two digits of `n % 100` |
| Text.Split | content.js:72 | `split` yields at least one piece; the pieces joined by the separator give back the input; no piece contains the separator |
| Text.SplitThree | content.js:72 | splitting three separator-free pieces joined by the separator returns exactly those three pieces |
| Text.PadStart | content.js:212 | `padStart(n, fill)` has length max(\|s\|, n), ends with `s` unchanged and is `fill` before it |
| Text.SliceLast | content.js:212 | `slice(-k)` is the last k characters, or the whole string when it is shorter, and is a suffix of it |
| Text.FindFirst | content.js:169-170 | `find` returns the first position holding the target, and nothing exactly when the target is absent |
| Dates.MonthShortName | content.js:215-218 | a month in 1..12 gives a three-letter entry of the table; outside that range it is `undefined` |
| Dates.MonthNumber | content.js:215-218 | the reverse lookup gives the month whose abbreviation is the name, and nothing exactly for names outside the table |
| Dates.MonthTablesAgree | content.js:211-216 | the formatter's month table and `getMonthShortName`'s table agree entry for entry |
| Dates.MonthSegmentIsMonthText | content.js:211-217 | the formatter's month segment is the printed result of `getMonthShortName` for every month, `undefined` included |
| Dates.MonthNamesDistinct | content.js:216 | the twelve abbreviations are pairwise distinct |
| Dates.MonthShortNameRoundTrip | content.js:215-218 | `getMonthShortName(m) == name` iff m is in 1..12 and the reverse lookup of `name` is m |
| Dates.MonthShortNameInjective | content.js:215-218 | two months with the same defined abbreviation are equal |
| Dates.DaySegmentTwoDigits | content.js:212 | for a day below 100 the day segment is its two-digit form |
| Dates.DaySegmentNotTruncated | content.js:212 | a day of two or more digits is rendered in full; a one-digit day gains exactly one leading `0` |
| Dates.YearSegmentTwoDigits | content.js:212 | for a year of two or more digits the year segment is the two digits of `year % 100` |
| Dates.FormatDateForInputShape | content.js:210-213 | for months 1..12, days below 100 and years of two or more digits the value is nine characters: the two day digits, `-`, the abbreviation, `-`, the two digits of the year modulo 100 |
| Dates.FormatStartsWithDay | content.js:212 | the value begins with the day segment followed by `-` |
| Dates.MonthSegmentIsShortName | content.js:211-217 | the month segment is what `getMonthShortName` returns for the same month |
| Dates.YearCentury | content.js:212 | years of two or more digits that differ by a multiple of 100 format identically |
| Dates.FormatDateForInputInjective | content.js:210-213 | on that domain two values are equal iff the days, the months and the years modulo 100 are equal |
| Dates.FormatDateExampleMarch | content.js:210-213 | (2024, 3, 5) gives `05-Mar-24` |
| Dates.FormatDateExampleDecember | content.js:210-213 | (1999, 12, 31) gives `31-Dec-99` |
| Dates.ParseIsoDatePieces | content.js:72 | `Y-M-D` with digit strings parses to their numeric values |
| Dates.ParseIsoDateRoundTrip | content.js:72 | parsing the ISO rendering of a date (month and day below 100) gives the date back |
| Dates.LastTwoDigitsOfValue | content.js:212 | the last two characters of a digit string without a leading zero are the two digits of its value modulo 100 |
| Dates.FormatOfIsoDate | content.js:72 | for a well-formed ISO date the input value is the ISO day digits as written, `-`, the month's abbreviation, `-`, and the last two year digits |
| Fields.FieldLabel | content.js:228-234 | a known identifier shows its label and any other identifier shows itself |
| Fields.FieldLabelIdentity | content.js:233 | the label equals the identifier iff the identifier is not in the table (both directions) |
| Fields.FieldLabelExamples | content.js:229-233 | the two known identifiers map to their labels; `Foo__c` maps to itself |
| Picker.ChooseUnit | content.js:169-175 | an empty candidate list is a timeout naming the selector; an `undefined` or absent target is the unit's "not found" error; otherwise the first candidate with the target text is chosen |
| Picker.SelectYearMonthDay | content.js:167-195 | success iff the unpadded year, the month's abbreviation and the unpadded day are all present, each at its first matching position; otherwise the error (timeout or "not found") of the first unit that fails, in the order year, month, day |
| Picker.LaterUnitsNotAttempted | content.js:167-184 | after a failed year search the month and day candidates do not affect the result; after a failed month search the day candidates do not |
| Picker.DayMatchedUnpadded | content.js:188 | a one-digit day is not found in a cell reading it with a leading zero |
| Picker.SelectionScenarioFound | content.js:167-195 | with years 2022 and 2023, the twelve months and days 3, 4, 5, the date 2023-7-4 selects positions 1, 6 and 1 |
| Picker.SelectionScenarioMissingDay | content.js:186-193 | with days 3, 04 and 5, day 4 is not found |
| Picker.DayNotFoundExample | content.js:192 | the day error for day 4 reads `Day 4 not found in picker` |
| Verification.PollFrom | content.js:199-207 | from comparison `retries` on, the loop stops at the first matching read before `maxRetries`; with no match it fails naming the expected value and the read after the last wait |
| Verification.VerifyInputUpdate | content.js:197-207 | success iff one of the first `maxRetries` (15) reads equals the formatted date; otherwise the message names the expected value and the value read after the last wait |
| Verification.PollInputValue | content.js:199-207 | the loop computes what `PollFrom` specifies, performing at most `maxRetries` comparisons, one per read up to the match |
| Verification.FinalValueNotCompared | content.js:207 | the value read after the last wait is never compared: it can equal the expected value while verification fails |
| Verification.AcceptsLateValue | content.js:200-203 | a value first shown at read n < `maxRetries` is accepted at that read |
| Automator.FirstFailureIsFirst | content.js:48-89 | the first failure is absent iff every phase passes; otherwise it is the error of a failing phase preceded only by passing ones |
| Automator.SetDateInPickerShortCircuits | content.js:153-165 | `setDateInPicker` fails with the error of its first failing phase, and succeeds exactly when none of its seven phases fails |
| Automator.SetDatePhasesPass | content.js:153-165 | `setDateInPicker` succeeds iff its picker wait, its three element waits and its three selection units all pass |
| Automator.WaitPhaseError | content.js:155-162 | a failing wait inside `setDateInPicker` is its error |
| Automator.SelectionPhaseError | content.js:164 | once the waits pass, `setDateInPicker` reports the first failing selection unit |
| Automator.OpenEditorShortCircuits | content.js:48-89 | the update fails with the error of the first failing phase, and succeeds with the success message exactly when every phase passes |
| Automator.UpdateSucceeds | content.js:48-84 | if every wait succeeds, the picker offers the date's units and one of the first 15 reads shows the formatted date, the update returns the success message |
| Automator.UpdateFailsAtDay | content.js:76 | if every wait succeeds and the picker has the year and month but a non-empty day list lacks the day, the update fails with the day's "not found" error |
| Automator.AfterWaits | content.js:72-84 | once the first three waits pass, the update is the picker step and then the verification, and the first of them to fail gives the error |
| Automator.SuccessMessageOfIsoDate | content.js:84 | for a well-formed ISO date the message is `Updated <label> to <DD>-<Mon>-<YY>`, built from the ISO digits as written |
| Automator.SuccessMessageExample | content.js:84 | `FSD_Status_Update__c` with `2023-07-04` gives `Updated FSD Status Update to 04-Jul-23` |
| Automator.ToResponse | content.js:36-43 | a result maps to success with its message, or to failure with its error message |
| Automator.HandleMessage | content.js:32-46 | exactly the `updateDate` requests get a response |
| Automator.HandleMessageOutcome | content.js:33-43 | an `updateDate` response is success with the success message iff every phase passes, and otherwise carries the first failing phase's error |
| Automator.EndToEndScenario | content.js:32-84 | updating `FSD_Status_Update__c` to `2023-07-04` on a page that offers the date and then shows `04-Jul-23` answers `Updated FSD Status Update to 04-Jul-23` |
| Automator.MissingDayScenario | content.js:35-43 | the same request on a page whose picker lacks the day 4 answers with the day's "not found" error |

## Left out

- `popup.js` is not part of this model. It is form handling, tab messaging and a wall-clock default date.
- Waiting and the clock are abstracted. `waitForPageLoad`, `waitForElement`, `waitForElements` and `waitForDatePicker` (content.js:91-151) poll the live page against the clock. Each wait is one observed boolean in `Page`. A picker wait counts as one outcome, whichever of its selectors matched.
- `waitForPageLoad` is modelled as always completing. It has no failure path.
- Searches are not scoped to the picker. `setDateInPicker` and `selectYearMonthDay` pass the picker element as a third argument, which the two-parameter wait functions ignore, so their searches cover the whole document. The candidate lists in `Page` are the document-wide matches.
- Side effects are left out:
  - the clicks, scrolling and focus;
  - `highlightField`'s timed colour change;
  - all console logging.
- Time is left out. The configuration's timing constants matter only to real-time waiting. Only `maxRetries` is modelled.
- The listener's registration, its `return true` and the asynchronous `sendResponse` are left out. Only the mapping from a request to its optional response is modelled.
- The branch `if (!input)` (content.js:60-62) is not modelled. `waitForElement` throws rather than returning nothing, so that branch cannot run.
- Field identifiers that cannot be quoted as they are in the input selector are not modelled. These contain a double quote, a backslash, a line break, a form feed or NUL. Some of them make the selector invalid, and `querySelector` then throws a `SyntaxError` whose message the listener would send back. Others give a valid selector that matches a different identifier: NUL, or a backslash followed by hex digits such as `\41`.
- Automator.HandleMessage: the model needs five things before an `updateDate` request applies. `OpenEditorAndUpdateDate` needs the same, and `SuccessMessage` needs the condition on inherited members.
  - The date's first three `-`-separated pieces must be digit strings. A missing piece, or a piece on which `Number` gives `NaN`, is not modelled.
  - Pieces that `Number` accepts but that are not plain digit strings are not modelled either. Examples are `" 7"`, `"+7"`, `"7.5"`, `"1e3"` and `"0x1F"`.
  - Each parsed number must be at most `Number.MAX_SAFE_INTEGER`. JavaScript numbers are doubles and the model's are unbounded naturals. Above that bound `Number` rounds, so `9007199254740993` becomes `9007199254740992`. From 10^21 on, `toString` prints exponent notation, such as `1e+21`. Neither is modelled.
  - The identifier must not be an inherited `Object.prototype` member such as `constructor`.
  - The identifier must be safe to quote in the selector, as described above.
  - At least 16 reads of the input must be recorded.
- Fields.FieldLabel: identifiers that name an inherited `Object.prototype` member are excluded. For those the source would return that member rather than a string.
- Verification.VerifyInputUpdate: it requires at least `maxRetries + 1` recorded reads, one per comparison plus the one in the error message. This describes the observation sequence rather than limiting the source.
- Picker candidate texts are taken as already trimmed. Whitespace trimming itself is not modelled.
