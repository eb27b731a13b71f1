# L2UI core, modelled in Dafny

L2UI is a React component library. This project models the parts of it whose
behaviour can be stated exactly, and proves properties about them:

- **Form** (`form_rules.dfy`, `form_store.dfy`):
  - the rule evaluator `validateValue`: ordered rules, early return, the first
    failing message wins;
  - the form store as a class with its `values`, `errors` and rule-registry maps
    and the operations on them: set one or many values, set or clear an error,
    validate one field, validate all fields, reset to the initial snapshot,
    submit.
- **FormItem** (`form_item.dfy`):
  - how the `required` shortcut is appended to the declared rules;
  - how a change argument is unwrapped to a value;
  - when blur validates, which props are injected into the child, and when the
    label shows the required marker.
- **DatePicker** (`calendar.dfy`, `date_picker.dfy`):
  - JavaScript's `Date` reduced to a (year, 0-based month, day) triple, with the
    constructor's day roll-over, its two-digit-year remapping and its time-value
    range;
  - `formatDate` and `parseDate` with their round trip;
  - `getCalendarDays` as the `while` loop it is, with the shape of the grid it
    builds;
  - the picker's state: controlled versus uncontrolled value, typed text, day
    click, month and year navigation.
- **Select** (`select.dfy`):
  - controlled versus uncontrolled value and the option shown;
  - the open/close and selection handlers and the keyboard.
- **Release script** (`release.dfy`):
  - `calculateVersion` for the six bump kinds;
  - the dist tag and the type check in `main`;
  - the text splicing of `updateChangelog`.
- **Type predicates** (`type_checks.dfy`, over the JavaScript values of
  `js_values.dfy`): `isUndefined` … `isEmpty`.
- **CSS variables** (`css_variables.dfy`):
  - `themeToCSSVariables` fills a JavaScript record group by group; it is
    modelled as an insertion-ordered record;
  - `generateCSSVariables` prints that record one line per entry.
- **Text** (`text.dfy`): the string primitives the sources use.
  - `String(n)`, `padStart(2, '0')`, `parseInt`;
  - `split` on a character class, `indexOf`/`includes`, `join`.

Every rule the sources delegate to code they do not contain is a parameter of
the model. This covers:

- the e-mail regex, `rule.pattern`, `new URL`;
- `Number(value)` and `String(value)`;
- `String(number)` for theme numbers;
- the user's custom validators.

## Model

| member | source | states |
|---|---|---|
| TypeChecks.IsUndefined | packages/utils/src/type/index.ts:4-6 | true exactly for `undefined` |
| TypeChecks.IsNull | packages/utils/src/type/index.ts:11-13 | true exactly for `null` |
| TypeChecks.IsNil | packages/utils/src/type/index.ts:18-20 | true exactly for `undefined` and `null` |
| TypeChecks.IsString | packages/utils/src/type/index.ts:25-27 | true exactly for strings |
| TypeChecks.IsNumber | packages/utils/src/type/index.ts:32-34 | true exactly for numbers other than NaN |
| TypeChecks.IsBoolean | packages/utils/src/type/index.ts:39-41 | true exactly for booleans |
| TypeChecks.IsFunction | packages/utils/src/type/index.ts:46-48 | true exactly for functions |
| TypeChecks.IsArray | packages/utils/src/type/index.ts:60-62 | true exactly for arrays |
| TypeChecks.IsObject | packages/utils/src/type/index.ts:53-55 | true exactly for plain objects: never for `null` or arrays |
| TypeChecks.IsEmpty | packages/utils/src/type/index.ts:67-78 | true exactly for `null`, `undefined`, `''`, `[]` and `{}`; false for every number, boolean and function |
| TypeChecks.NilIsUndefinedOrNull | packages/utils/src/type/index.ts:4-20 | `isNil` is the union of the two exclusive checks |
| TypeChecks.KindsAreDisjoint | packages/utils/src/type/index.ts:18-62 | no value satisfies two of the kind predicates |
| TypeChecks.MatchesTestExpectations | packages/utils/src/type/index.test.ts:16-108 | every expectation of the unit tests, NaN and numeric strings included |
| JsValues.Property | packages/components/src/form/FormItem.tsx:52-53 | reading a property throws exactly on `undefined`/`null`; an own property gives its value |
| Text.NatToText | scripts/release.js:62 | `String(n)`: nonempty digits, one digit exactly below 10, no leading zero |
| Text.IntToText | packages/components/src/datepicker/DatePicker.tsx:26 | `String(i)` of a negative number is a minus sign before the digits |
| Text.Pad2 | packages/components/src/datepicker/DatePicker.tsx:27-28 | `padStart(2, '0')`: at least two digits, a zero added exactly below 10 |
| Text.DigitsValueOfNatToText | scripts/release.js:62 | the decimal text of `n` denotes `n` |
| Text.Pad2Value | packages/components/src/datepicker/DatePicker.tsx:27-28 | padding does not change the number denoted |
| Text.TrimStartSkipsWhiteSpace | packages/components/src/datepicker/DatePicker.tsx:56-64 | `parseInt` drops exactly the leading white space |
| Text.DigitRunIsLongest | packages/components/src/datepicker/DatePicker.tsx:56-64 | `parseInt` reads the longest run of digits |
| Text.ParseIntOfNatToText | scripts/release.js:53 | `parseInt(String(n)) == n` |
| Text.ParseIntOfPad2 | packages/components/src/datepicker/DatePicker.tsx:56-64 | `parseInt` reads a padded month or day back |
| Text.SplitPartsAreFree | scripts/release.js:48 | no part of a split contains a separator |
| Text.SplitFree | scripts/release.js:48 | a text without separators splits into itself |
| Text.SplitAtSeparator | packages/components/src/datepicker/DatePicker.tsx:51 | splitting cuts at the first separator and continues with the rest |
| Text.IndexOf | scripts/release.js:169-178 | `indexOf(needle, from)`: the first occurrence at or after `from`, or none at all |
| Text.IncludesIsContains | scripts/release.js:163 | `includes` holds exactly when `indexOf` finds the needle |
| Text.ContainsInMiddle | scripts/release.js:163 | text placed between two others is found by `includes` |
| Text.JoinEndsWithLast | packages/styles/src/variables.ts:55-57 | a join ends with its last part, so it has no trailing separator |
| Text.SplitJoin | packages/styles/src/variables.ts:55-57 | splitting a join of separator-free lines gives the lines back |
| Text.ParseInt | packages/components/src/datepicker/DatePicker.tsx:56-64 | `parseInt`: white space, one sign, then the longest digit run; NaN without digits (contracts in DigitRunIsLongest, ParseIntOfNatToText, ParseIntOfPad2) |
| Text.Split | scripts/release.js:48 | `split` on a character class: at least one part (contents in SplitFree, SplitAtSeparator, SplitPartsAreFree) |
| Text.Join | packages/styles/src/variables.ts:57 | `join(separator)` (inverted by SplitJoin) |
| Text.IndexOfIsFirst | scripts/release.js:169-178 | `indexOf` returns `i` exactly when `i` is the first occurrence at or after `from` |
| FormRules.MessageOr | packages/components/src/form/Form.tsx:18 | `rule.message \|\| fallback`: an empty message counts as absent |
| FormRules.CheckRule | packages/components/src/form/Form.tsx:15-75 | one pass of the loop: the message of the rule's first failing check, or none (contracts in RequiredRule, BlankValueSkipsChecks, StringTypeChecksNothing, BoundsAreInclusive, ValidatorVerdicts) |
| FormRules.ValidateValue | packages/components/src/form/Form.tsx:9-78 | the loop with early return (contracts in ValidateValueIsFirstFailure, ValidateValueAppend) |
| FormRules.ValidateValueIsFirstFailure | packages/components/src/form/Form.tsx:9-78 | no error exactly when every rule passes; otherwise the error is that of the first failing rule, all earlier ones passing |
| FormRules.ValidateValueAppend | packages/components/src/form/Form.tsx:14-77 | the rules are checked in list order: later rules are consulted only when all earlier ones pass |
| FormRules.RequiredRule | packages/components/src/form/Form.tsx:16-20 | `required` fails exactly on `undefined`, `null` and `''`, with `rule.message` or the default text; otherwise the rest of the rule decides |
| FormRules.BlankValueSkipsChecks | packages/components/src/form/Form.tsx:23-26 | on a blank value a rule with `type` is abandoned entirely; one without `type` is left to its validator |
| FormRules.StringTypeChecksNothing | packages/components/src/form/Form.tsx:27-45 | `type: 'string'` checks nothing |
| FormRules.BoundsAreInclusive | packages/components/src/form/Form.tsx:56-67 | a measure between `min` and `max` inclusive passes; for strings the measure is the length |
| FormRules.ValidatorVerdicts | packages/components/src/form/Form.tsx:70-75 | a validator passes only on `true`; a string is the message; anything else gives `rule.message` or the default text |
| FormRules.EmptyMessageStopsEvaluation | packages/components/src/form/Form.tsx:70-75 | a validator returning `''` stops evaluation with an empty message |
| FormStore.FirstInitialValue | packages/components/src/form/Form.tsx:103-107 | an `initialValue` some field declares for the name, `undefined` exactly when none declares a defined one |
| FormStore.Overlay | packages/components/src/form/Form.tsx:104-106 | one field fills its name only when that key is undefined (contracts in SnapshotValue, SnapshotKeys) |
| FormStore.Snapshot | packages/components/src/form/Form.tsx:101-109 | the initial snapshot, the fields applied in order (contracts in SnapshotValue, SnapshotKeys) |
| FormStore.SnapshotValue | packages/components/src/form/Form.tsx:101-109 | a defined `initialValues` entry wins; an undefined one is filled from the fields |
| FormStore.SnapshotKeys | packages/components/src/form/Form.tsx:101-109 | the snapshot's keys are those of `initialValues` plus the names given an initial value |
| FormStore.GetInitialValues | packages/components/src/form/Form.tsx:101-109 | the loop computes the snapshot |
| FormStore.FailuresStep | packages/components/src/form/Form.tsx:189-196 | one more validated field adds its entry to the error map exactly when it failed |
| FormStore.CollectFailures | packages/components/src/form/Form.tsx:185-198 | the loop over the registry collects exactly the failing fields with their messages |
| FormStore.FormErrorsMatchFieldErrors | packages/components/src/form/Form.tsx:170-198 | a field is in the form's errors exactly when validating it alone fails, with the same message; an unregistered field never fails |
| FormStore.PassingFieldHasNoError | packages/components/src/form/Form.tsx:185-198 | a field all of whose rules pass has no entry |
| FormStore.Form.constructor | packages/components/src/form/Form.tsx:111-115 | the values start as the snapshot, with no errors and no rules |
| FormStore.Form.RegisterField | packages/components/src/form/Form.tsx:124-126 | last write wins for that name; nothing else changes |
| FormStore.Form.GetFieldValue | packages/components/src/form/Form.tsx:208-213 | the stored value, or `undefined` for an unknown name |
| FormStore.Form.GetFieldsValue | packages/components/src/form/Form.tsx:216-218 | a copy of the values, which as a value is the map itself |
| FormStore.Form.GetFieldError | packages/components/src/form/Form.tsx:221-226 | the stored error exactly when there is one |
| FormStore.Form.SetFieldValue | packages/components/src/form/Form.tsx:129-146 | only that key changes; `onValuesChange({name: value}, all)` is reported; that field's error is removed |
| FormStore.Form.SetFieldsValue | packages/components/src/form/Form.tsx:149-155 | right-biased merge, reported once; errors untouched |
| FormStore.Form.SetFieldError | packages/components/src/form/Form.tsx:158-167 | a nonempty message is stored; anything else deletes the key |
| FormStore.Form.ValidateField | packages/components/src/form/Form.tsx:170-182 | throws exactly when the field fails, with its message, and stores it; otherwise returns the value and drops the error |
| FormStore.Form.ValidateFields | packages/components/src/form/Form.tsx:185-205 | the error map becomes exactly the failing fields; throws exactly when it is nonempty, else returns the values |
| FormStore.Form.ClearErrors | packages/components/src/form/Form.tsx:234-244 | a nonempty name removes one entry; no name or `''` removes all |
| FormStore.Form.ResetFields | packages/components/src/form/Form.tsx:247-254 | values back to the snapshot, errors empty, `onReset` reported |
| FormStore.Form.HandleSubmit | packages/components/src/form/Form.tsx:271-279 | validates everything and submits the values exactly when nothing failed |
| FormStore.Form.HandleReset | packages/components/src/form/Form.tsx:282-285 | the same as `resetFields` |
| FormItem.RequiredMessage | packages/components/src/form/FormItem.tsx:34 | the label, else the name, else `该字段`, followed by `为必填项` |
| FormItem.MergedRulesShape | packages/components/src/form/FormItem.tsx:32-35 | the declared rules in order, then exactly one required rule with that message exactly when `required` is set |
| FormItem.MergedRulesValidation | packages/components/src/form/FormItem.tsx:32-35 | with the shortcut, the declared rules decide first; then a blank value fails with the shortcut's message |
| FormItem.MergedRules | packages/components/src/form/FormItem.tsx:32-35 | the declared rules with the shortcut pushed when `required` (contracts in MergedRulesShape, MergedRulesValidation) |
| FormItem.BlurValidates | packages/components/src/form/FormItem.tsx:68 | a name and at least one merged rule (used by HandleBlur's contract) |
| FormItem.LabelShowsRequiredIff | packages/components/src/form/FormItem.tsx:97 | the marker shows exactly when `required` is set or some declared rule is required |
| FormItem.Unwrap | packages/components/src/form/FormItem.tsx:51-54 | an object with a `target` key gives `target.value`, throwing exactly when `target` is `undefined`/`null`; anything else is taken as is |
| FormItem.UnwrapInputEvent | packages/components/src/form/FormItem.tsx:51-54 | an input event gives its text |
| FormItem.Register | packages/components/src/form/FormItem.tsx:38-42 | rules are registered exactly when `name` is nonempty |
| FormItem.HandleChange | packages/components/src/form/FormItem.tsx:49-64 | the store is written (as `setFieldValue`) exactly when `name` is set; the child's `onChange` receives the original argument |
| FormItem.HandleBlur | packages/components/src/form/FormItem.tsx:67-77 | validates only with a name and at least one rule, storing or clearing that field's error; a failure is not propagated |
| FormItem.InjectedProps | packages/components/src/form/FormItem.tsx:80-87 | `value` is injected exactly with a name and a defined stored value; `aria-invalid` exactly with a nonempty error |
| FormItem.InjectedAfterChange | packages/components/src/form/FormItem.tsx:45-87 | after a change the child shows the new value and no error |
| Calendar.DaysInMonth | packages/components/src/datepicker/DatePicker.tsx:85 | 28 to 31 days; February has 29 exactly in leap years |
| Calendar.Weekday | packages/components/src/datepicker/DatePicker.tsx:95 | `getDay()` is between 0 (Sunday) and 6 |
| Calendar.KnownDates | packages/components/src/datepicker/DatePicker.tsx:95 | the day count is anchored at 1 January 1970, a Thursday |
| Calendar.YearStep | packages/components/src/datepicker/DatePicker.tsx:70 | a year lasts 365 or 366 days as counted |
| Calendar.MonthStep | packages/components/src/datepicker/DatePicker.tsx:85 | the 1st of the next month is a month's length after the 1st of this one |
| Calendar.DayOfMonth | packages/components/src/datepicker/DatePicker.tsx:95 | the day of the month is an offset from the 1st |
| Calendar.EpochDayOrder | packages/components/src/datepicker/DatePicker.tsx:102 | the day count is ordered as the dates are |
| Calendar.EpochDayInjective | packages/components/src/datepicker/DatePicker.tsx:102 | two valid dates with the same day count are equal |
| Calendar.RollDay | packages/components/src/datepicker/DatePicker.tsx:70 | an out-of-range day rolls over into the neighbouring months at exactly its distance from the 1st |
| Calendar.MakeDayDay | packages/components/src/datepicker/DatePicker.tsx:70 | `new Date(y, m, d)` is `d - 1` days after the 1st of month `m` (months roll into years) |
| Calendar.MakeDayOfValid | packages/components/src/datepicker/DatePicker.tsx:84 | a valid triple is taken as it is |
| Calendar.MakeDayAt | packages/components/src/datepicker/DatePicker.tsx:85 | the constructed date is the valid date with that day count |
| Calendar.MakeDay | packages/components/src/datepicker/DatePicker.tsx:70 | `new Date(y, m, d)` without the year remap: months roll into years, days into months (contracts in MakeDayDay, MakeDayOfValid, MakeDayAt) |
| Calendar.ConstructorYear | packages/components/src/datepicker/DatePicker.tsx:70 | years 0 to 99 mean 1900 to 1999 |
| Calendar.NewDate | packages/components/src/datepicker/DatePicker.tsx:70-71 | an invalid date (NaN) exactly outside the time-value range |
| Calendar.NewDateOfValid | packages/components/src/datepicker/DatePicker.tsx:70-72 | a valid date from year 100 on is constructed unchanged |
| Calendar.SetDateDay | packages/components/src/datepicker/DatePicker.tsx:104 | `setDate` moves by the difference of days, rolling over months |
| Calendar.SetDate | packages/components/src/datepicker/DatePicker.tsx:95 | `setDate(day)`: the day rolled over from the 1st of the date's month (contract in SetDateDay) |
| Calendar.SetMonth | packages/components/src/datepicker/DatePicker.tsx:277 | `setMonth(m)`: the day kept and rolled over (contracts in SetMonthKeepsDay, SetMonthOverflows) |
| Calendar.SetFullYear | packages/components/src/datepicker/DatePicker.tsx:289 | `setFullYear(y)`: month and day kept and rolled over (contracts in SetFullYearKeepsDay, SetFullYearOverflows) |
| Calendar.SetMonthKeepsDay | packages/components/src/datepicker/DatePicker.tsx:277 | `setMonth` keeps the day when the target month has it |
| Calendar.SetMonthOverflows | packages/components/src/datepicker/DatePicker.tsx:277 | otherwise it lands in the month after, at the excess |
| Calendar.SetFullYearKeepsDay | packages/components/src/datepicker/DatePicker.tsx:289 | `setFullYear` keeps the day when the target month has it |
| Calendar.SetFullYearOverflows | packages/components/src/datepicker/DatePicker.tsx:289 | only 29 February can overflow, to 1 March |
| DatePicker.FormatDate | packages/components/src/datepicker/DatePicker.tsx:24-42 | empty text exactly for no date |
| DatePicker.FormatDateLayout | packages/components/src/datepicker/DatePicker.tsx:24-42 | the four layouts with a padded month and day and an unpadded year; unknown layouts as `YYYY-MM-DD` |
| DatePicker.ParseDate | packages/components/src/datepicker/DatePicker.tsx:47-76 | empty text and unknown layouts give no date; a date only when all three fields are numbers; otherwise `new Date` of the fields in the layout's order |
| DatePicker.DateFields | packages/components/src/datepicker/DatePicker.tsx:53-65 | the three numbers exactly when all three parts parse; the layout decides which part is the year; the month drops by one |
| DatePicker.DateFieldsOfInts | packages/components/src/datepicker/DatePicker.tsx:53-65 | year-first layouts read year, month, day; day-first ones day, month, year; the month is 1-based in the text |
| DatePicker.ParseDateOfInts | packages/components/src/datepicker/DatePicker.tsx:47-72 | three numbers around `-` or `/` give `new Date` of them, whatever the layout's own separator |
| DatePicker.ParseFormatted | packages/components/src/datepicker/DatePicker.tsx:24-76 | parsing formatted text is `new Date` of the date's fields |
| DatePicker.ParseFormatRoundTrip | packages/components/src/datepicker/DatePicker.tsx:24-76 | `parseDate(formatDate(d, F), F) == d` for the four layouts from year 100 on |
| DatePicker.TwoDigitYearsShift | packages/components/src/datepicker/DatePicker.tsx:24-76 | below year 100 the round trip lands 1900 years later |
| DatePicker.NewDateOfTwoDigitYear | packages/components/src/datepicker/DatePicker.tsx:70 | `new Date` of a two-digit year is in the 1900s |
| DatePicker.RecentDatesInRange | packages/components/src/datepicker/DatePicker.tsx:71 | dates of years 0 to 200000 are never NaN |
| DatePicker.EmptyYearDoesNotParse | packages/components/src/datepicker/DatePicker.tsx:56-71 | a missing year component gives no date |
| DatePicker.LeadingMinusDoesNotParse | packages/components/src/datepicker/DatePicker.tsx:51-71 | a leading `-` leaves an empty year component: no date |
| DatePicker.TrailingMinusDoesNotParse | packages/components/src/datepicker/DatePicker.tsx:51-71 | so does a `-` before a trailing year |
| DatePicker.NegativeYearsDoNotParse | packages/components/src/datepicker/DatePicker.tsx:24-76 | a formatted negative year does not parse back |
| DatePicker.NegativeYearFirst | packages/components/src/datepicker/DatePicker.tsx:24-76 | the same for year-first layouts |
| DatePicker.NegativeYearLast | packages/components/src/datepicker/DatePicker.tsx:24-76 | the same for day-first layouts |
| DatePicker.UnknownFormat | packages/components/src/datepicker/DatePicker.tsx:39-40 | an unknown layout formats as `YYYY-MM-DD` and never parses |
| DatePicker.ParseRollsOver | packages/components/src/datepicker/DatePicker.tsx:70-72 | numeric out-of-range fields are rolled over, not rejected |
| DatePicker.NewDateRollsOver | packages/components/src/datepicker/DatePicker.tsx:70 | 30 February 2024 is 1 March |
| DatePicker.MonthBoundsSpan | packages/components/src/datepicker/DatePicker.tsx:81-87 | the bounds are the 1st and the last day of the month |
| DatePicker.MonthBounds | packages/components/src/datepicker/DatePicker.tsx:81-87 | `getMonthBounds`: `new Date(y, m, 1)` and `new Date(y, m + 1, 0)` (contract in MonthBoundsSpan) |
| DatePicker.GridStart | packages/components/src/datepicker/DatePicker.tsx:94-95 | the 1st moved back by its weekday (contracts in GridExtent, GridStartsOnSunday) |
| DatePicker.GridEnd | packages/components/src/datepicker/DatePicker.tsx:99-100 | the last day moved forward to Saturday (contract in GridExtent) |
| DatePicker.CalendarGrid | packages/components/src/datepicker/DatePicker.tsx:92-108 | the cells from GridStart to GridEnd (contracts in GridShape, GridCoversMonth) |
| DatePicker.Cells | packages/components/src/datepicker/DatePicker.tsx:97-105 | cell `i` is `i` days after the start |
| DatePicker.CellsStep | packages/components/src/datepicker/DatePicker.tsx:103-104 | one more pass appends the next cell |
| DatePicker.GridStep | packages/components/src/datepicker/DatePicker.tsx:104 | `setDate(getDate() + 1)` on a cell gives the next cell |
| DatePicker.NextCell | packages/components/src/datepicker/DatePicker.tsx:102-105 | a pass of the loop: the next day, one day later, appended |
| DatePicker.GetCalendarDays | packages/components/src/datepicker/DatePicker.tsx:92-108 | the loop builds the grid from the Sunday-before to the Saturday-after |
| DatePicker.GridExtent | packages/components/src/datepicker/DatePicker.tsx:93-100 | the grid starts `getDay()` days before the 1st and ends on the Saturday after the last day |
| DatePicker.WeekCount | packages/components/src/datepicker/DatePicker.tsx:92-108 | 4 to 6 whole weeks, enough to hold the month |
| DatePicker.CellsShape | packages/components/src/datepicker/DatePicker.tsx:97-105 | from a Sunday, whole weeks of cells run Sunday to Saturday |
| DatePicker.CellsConsecutive | packages/components/src/datepicker/DatePicker.tsx:97-105 | cells are consecutive days |
| DatePicker.GridStartsOnSunday | packages/components/src/datepicker/DatePicker.tsx:94-95 | the first cell is a Sunday |
| DatePicker.GridSpan | packages/components/src/datepicker/DatePicker.tsx:93-100 | the span from start to end is the grid length |
| DatePicker.GridCount | packages/components/src/datepicker/DatePicker.tsx:97-105 | the grid is that many consecutive cells |
| DatePicker.GridShape | packages/components/src/datepicker/DatePicker.tsx:92-108 | whole weeks, 28 to 42 cells |
| DatePicker.CellsCoverMonth | packages/components/src/datepicker/DatePicker.tsx:92-108 | from a start `w` days before the 1st, the month's days follow in order and no other cell is in the month |
| DatePicker.GridCoversMonth | packages/components/src/datepicker/DatePicker.tsx:384 | each day of the month appears once, in order; exactly the other cells are flagged `isOtherMonth` |
| DatePicker.ShiftMonths | packages/components/src/datepicker/DatePicker.tsx:275-285 | one month earlier or later, the day clamped to the target month (corrected navigation) |
| DatePicker.ShiftYears | packages/components/src/datepicker/DatePicker.tsx:287-297 | one year earlier or later, same month, the day clamped (corrected navigation) |
| DatePicker.YearsAreTwelveMonths | packages/components/src/datepicker/DatePicker.tsx:275-297 | a year's shift is twelve months' shift |
| DatePicker.ShiftMonthAsWritten | packages/components/src/datepicker/DatePicker.tsx:275-285 | the navigation as written: `setMonth(getMonth() + step)` (contracts in MonthAsWrittenAgrees, MonthAsWrittenOverflows) |
| DatePicker.ShiftYearAsWritten | packages/components/src/datepicker/DatePicker.tsx:287-297 | the navigation as written: `setFullYear(getFullYear() + step)` (contracts in YearAsWrittenAgrees, YearAsWrittenOverflows) |
| DatePicker.MonthAsWrittenAgrees | packages/components/src/datepicker/DatePicker.tsx:275-285 | the source's `setMonth` navigation is right whenever the day is at most 28 |
| DatePicker.YearAsWrittenAgrees | packages/components/src/datepicker/DatePicker.tsx:287-297 | the source's `setFullYear` navigation is right except on 29 February |
| DatePicker.MonthAsWrittenOverflows | packages/components/src/datepicker/DatePicker.tsx:275-285 | otherwise `setMonth` lands a month too far |
| DatePicker.YearAsWrittenOverflows | packages/components/src/datepicker/DatePicker.tsx:287-297 | 29 February into a common year lands on 1 March |
| DatePicker.PreviousMonthStaysPut | packages/components/src/datepicker/DatePicker.tsx:275-279 | "previous month" from 31 March 2024 stays in March |
| DatePicker.PropDate | packages/components/src/datepicker/DatePicker.tsx:132-149 | an absent prop is no date; a `Date` prop is that date; text props are parsed |
| DatePicker.Picker.CurrentDate | packages/components/src/datepicker/DatePicker.tsx:155-162 | the prop when `value !== undefined`, the inner value otherwise |
| DatePicker.Picker.constructor | packages/components/src/datepicker/DatePicker.tsx:132-149 | inner value from `defaultValue`; calendar month from `value`, else `defaultValue`, else today |
| DatePicker.Picker.HandleInputChange | packages/components/src/datepicker/DatePicker.tsx:230-246 | parsable text selects the date (inner value only when uncontrolled) and reports it; `''` clears and reports; other text changes nothing |
| DatePicker.Picker.RequestOpen | packages/components/src/datepicker/DatePicker.tsx:248-262 | opens unless disabled |
| DatePicker.Picker.HandleDayClick | packages/components/src/datepicker/DatePicker.tsx:264-273 | selects the day (inner value only when uncontrolled), reports it and closes |
| DatePicker.Picker.ShowPreviousMonth | packages/components/src/datepicker/DatePicker.tsx:275-279 | the calendar shows exactly the previous month |
| DatePicker.Picker.ShowNextMonth | packages/components/src/datepicker/DatePicker.tsx:281-285 | the calendar shows exactly the next month |
| DatePicker.Picker.ShowPreviousYear | packages/components/src/datepicker/DatePicker.tsx:287-291 | the same month of the previous year |
| DatePicker.Picker.ShowNextYear | packages/components/src/datepicker/DatePicker.tsx:293-297 | the same month of the next year |
| DatePicker.Picker.SyncCalendarDate | packages/components/src/datepicker/DatePicker.tsx:202-206 | the calendar follows the current date when there is one |
| Select.FindOptionIsFirstMatch | packages/components/src/select/Select.tsx:43-45 | `find` with `===`: the first option equal to the current value, none exactly when no option is |
| Select.NothingMatchesNaN | packages/components/src/select/Select.tsx:44 | no value and NaN select nothing |
| Select.FindOption | packages/components/src/select/Select.tsx:43-45 | `find`: an option found is one of the options and matches (first match in FindOptionIsFirstMatch) |
| Select.Select.constructor | packages/components/src/select/Select.tsx:33-34 | closed, inner value from `defaultValue` |
| Select.Select.CurrentValue | packages/components/src/select/Select.tsx:39-40 | `value` when it is not `undefined`, else the inner value |
| Select.Select.TabIndex | packages/components/src/select/Select.tsx:153 | -1 exactly when disabled, else 0 |
| Select.Select.TriggerText | packages/components/src/select/Select.tsx:155-156 | the selected label or the placeholder (contracts in TriggerShowsFirstMatch, ChosenOptionShown) |
| Select.Select.HandleSelect | packages/components/src/select/Select.tsx:96-104 | a disabled option changes nothing and reports nothing; an enabled one is taken (only when uncontrolled), reported and closes the list |
| Select.Select.HandleToggle | packages/components/src/select/Select.tsx:107-110 | toggles unless disabled |
| Select.Select.HandleKeyDown | packages/components/src/select/Select.tsx:113-128 | Enter and Space toggle, Escape closes, other keys and a disabled select do nothing |
| Select.TriggerShowsFirstMatch | packages/components/src/select/Select.tsx:155-156 | the trigger shows the first matching option's label, or the placeholder |
| Select.SelectedIsMarked | packages/components/src/select/Select.tsx:173-177 | the selected option is marked `aria-selected` |
| Select.ChosenOptionShown | packages/components/src/select/Select.test.tsx:35-48 | after choosing an option with a distinct value, the trigger shows its label |
| Release.CalculateVersion | scripts/release.js:47-77 | throws exactly for a kind outside the six |
| Release.DistTag | scripts/release.js:251 | `alpha`, `beta`, else `latest` |
| Release.CheckReleaseType | scripts/release.js:220-232 | accepts exactly a given type among the six |
| Release.CheckedTypeNeverThrows | scripts/release.js:227-250 | a type `main` accepts never makes `calculateVersion` throw |
| Release.SplitVersion | scripts/release.js:48 | `a.b.c` splits into its three numbers |
| Release.SplitPrerelease | scripts/release.js:48 | `a.b.c-tag.n` splits into five parts |
| Release.IncrementText | scripts/release.js:62 | `parseInt(String(n)) + 1` printed is `n + 1` |
| Release.FromParts | scripts/release.js:48-72 | each kind's result in terms of the first three parts |
| Release.MajorFromParts | scripts/release.js:67-68 | `major` uses the first part only |
| Release.PatchBump | scripts/release.js:61-62 | `a.b.c` becomes `a.b.(c+1)` |
| Release.MinorBump | scripts/release.js:64-65 | `a.b.c` becomes `a.(b+1).0` |
| Release.MajorBump | scripts/release.js:67-68 | `a.b.c` becomes `(a+1).0.0` |
| Release.StableOfPlain | scripts/release.js:70-72 | `stable` leaves a plain version unchanged |
| Release.StableDropsPrerelease | scripts/release.js:70-72 | `stable` drops the prerelease suffix |
| Release.PatchDropsPrerelease | scripts/release.js:61-62 | `patch` drops it too |
| Release.StableIdempotent | scripts/release.js:70-72 | `stable` never throws and applying it twice is applying it once |
| Release.NoCaptureInPlain | scripts/release.js:52 | a plain version has no `alpha.N`/`beta.N` |
| Release.CaptureInPrerelease | scripts/release.js:52-53 | `a.b.c-tag.N` captures `N` |
| Release.NoBetaInAlpha | scripts/release.js:57 | an alpha version has no `beta.N` |
| Release.PrereleaseCapture | scripts/release.js:52 | the `/tag\.(\d+)/` match: the digits after the first `tag.` followed by a digit (contracts in CaptureAt, CaptureSkips, NoCaptureInPlain, CaptureInPrerelease) |
| Release.FirstAlpha | scripts/release.js:51-54 | a plain version gets `-alpha.1` |
| Release.NextAlpha | scripts/release.js:51-54 | `-alpha.N` becomes `-alpha.(N+1)` |
| Release.NextBeta | scripts/release.js:56-59 | `-beta.N` becomes `-beta.(N+1)` |
| Release.NoBetaNumber | scripts/release.js:57-58 | an alpha version's beta number is 1 |
| Release.BetaAfterAlpha | scripts/release.js:56-59 | `-alpha.N` becomes `-beta.1` |
| Release.ChangelogUnchangedWhenPresent | scripts/release.js:163-166 | a changelog that already has `## [version]` is left unchanged |
| Release.EntryHasMarker | scripts/release.js:175-187 | the inserted block carries `## [version]` |
| Release.UpdateChangelog | scripts/release.js:155-188 | the corrected update (contracts in the lemmas below) |
| Release.UpdateChangelogAsWritten | scripts/release.js:155-188 | the update as written (contracts in the lemmas below) |
| Release.ChangelogKeepsText | scripts/release.js:168-188 | otherwise the block is either prepended with a `---` separator, exactly when there is no unreleased heading, or spliced in at one position, the old text kept intact on both sides |
| Release.ChangelogWithoutUnreleased | scripts/release.js:185-188 | without an unreleased heading the block and a `---` line are prepended |
| Release.ChangelogBeforeSeparator | scripts/release.js:169-175 | the block goes just before the first `\n---` at or after the first unreleased heading |
| Release.ChangelogBeforeNextSection | scripts/release.js:176-183 | failing that, just before the first `\n## [` after the heading's start |
| Release.ChangelogAtEnd | scripts/release.js:176-184 | failing both, the corrected update appends the block, and the update as written returns the text unchanged |
| Release.ChangelogRecordsVersion | scripts/release.js:155-188 | afterwards the changelog records the version (corrected) |
| Release.ChangelogIdempotent | scripts/release.js:155-188 | a second update changes nothing (corrected) |
| Release.ChangelogSkipsTrailingUnreleased | scripts/release.js:176-184 | as written, a trailing unreleased section with no later section gets no entry |
| Release.NoMarkerAfterHeading | scripts/release.js:169-183 | such a changelog does not record the version |
| CssVariables.Stringified | packages/styles/src/variables.ts:25-32 | numbers are converted with `String(value)`, key and order kept |
| CssVariables.Put | packages/styles/src/variables.ts:11 | assigning a record key adds at most one entry |
| CssVariables.PutNew | packages/styles/src/variables.ts:11 | a new key is appended |
| CssVariables.PutExisting | packages/styles/src/variables.ts:11 | an existing key is overwritten in its place |
| CssVariables.PutEach | packages/styles/src/variables.ts:10-12 | a group adds at most its own size |
| CssVariables.AssignGroup | packages/styles/src/variables.ts:10-12 | the `forEach` loop assigns the group in order |
| CssVariables.ThemeToCssVariables | packages/styles/src/variables.ts:6-48 | the assignments, in order; for a theme with distinct keys, the prefixed groups one after another with the font family between |
| CssVariables.Assigned | packages/styles/src/variables.ts:6-48 | the record the assignments build (contract in AssignedIsConcatenation) |
| CssVariables.Prefixed | packages/styles/src/variables.ts:10-12 | each key `k` becomes `prefix + k` with its value unchanged |
| CssVariables.CssVariables | packages/styles/src/variables.ts:6-48 | the count is the sum of the group sizes plus one |
| CssVariables.TokenVariables | packages/styles/src/variables.ts:10-32 | the first five groups end where the font family goes |
| CssVariables.GroupsApart | packages/styles/src/variables.ts:11-44 | no group prefix is a prefix of another, so groups never overwrite each other |
| CssVariables.PutEachAppends | packages/styles/src/variables.ts:10-45 | assigning a group with distinct keys appends it, prefixed |
| CssVariables.AssignedTokensConcatenate | packages/styles/src/variables.ts:10-32 | the first five groups are appended in turn |
| CssVariables.FontFamilyAppends | packages/styles/src/variables.ts:35 | the font family is a new key |
| CssVariables.AssignedIsConcatenation | packages/styles/src/variables.ts:6-48 | the record is the concatenation of the groups |
| CssVariables.TokensUnder | packages/styles/src/variables.ts:10-32 | each key of the first five groups has its group's prefix |
| CssVariables.VariablesUnder | packages/styles/src/variables.ts:6-48 | each key has the prefix of its group |
| CssVariables.KeysArePrefixed | packages/styles/src/variables.ts:6-48 | every key starts with `--l2ui-` |
| CssVariables.FontFamilyOnce | packages/styles/src/variables.ts:35 | exactly one `--l2ui-font-family` entry, equal to `typography.fontFamily` |
| CssVariables.LeadingTables | packages/styles/src/variables.ts:10-32 | colour, spacing and font-size entries carry the token value; font weight and line height its `String` |
| CssVariables.TrailingTables | packages/styles/src/variables.ts:38-45 | border radius and breakpoints follow the font family, values unchanged |
| CssVariables.Lines | packages/styles/src/variables.ts:56 | one `  key: value;` line per entry |
| CssVariables.GenerateCssVariables | packages/styles/src/variables.ts:53-58 | the lines joined by newlines (contracts in GeneratedLines, NoTrailingNewline) |
| CssVariables.GeneratedLines | packages/styles/src/variables.ts:53-58 | the output splits at newlines into exactly one line per variable |
| CssVariables.NoTrailingNewline | packages/styles/src/variables.ts:53-58 | the output ends with `;`, not a newline |

## Left out

- JavaScript numbers are modelled as NaN or an exact real. Infinities, rounding and `-0` are not modelled.
- `String(number)` for theme numbers is a parameter, because printing floating point is not modelled.
- These are parameters, because their code is not in the sources:
  - the e-mail regex;
  - `rule.pattern`;
  - `new URL`;
  - `Number(value)`;
  - `String(value)`.
- Custom validators are synchronous functions of the value and all values, returning `true`, a string or anything else. Awaiting them is not modelled.
- Overlapping asynchronous `validateFields` calls are not modelled.
- React state batching is not modelled, and neither are effects or the stale `values` closure read by `validateField`. The store acts on its current state.
- Callbacks (`onChange`, `onValuesChange`, `onSubmit`, `onReset`) are recorded in log fields of the classes, and their effects are not modelled.
- The child's own `onChange`/`onBlur` appear only as the value the handler passes on.
- These are DOM and rendering concerns and are not modelled:
  - dropdown and calendar positioning;
  - scroll, resize and mousedown listeners;
  - portals, refs and focus.
- `GetFieldsValue` returns the values map itself, because a copy of a value is the same value.
- `getFieldsError` only exposes the errors map, which the class holds directly.
- Dates carry no time of day and no time zone. `setHours(0, 0, 0, 0)` has no effect on the model.
- "Today" (the clock) is a parameter of the picker's constructor, and today-highlighting is not modelled.
- The `Date` time-value range is checked by `new Date` (Calendar.NewDate) on the day count (±100 000 000 days), not in milliseconds.
- Calendar.SetMonth, Calendar.SetFullYear, Calendar.SetDate and DatePicker.MonthBounds never give an invalid date. In JavaScript they give NaN past the time-value range, which the model does not check there; dates a calendar shows lie far inside it.
- Release.CalculateVersion: `parseInt` without a radix reads a `0x`/`0X` prefix as hexadecimal. Text.ParseInt always reads decimal, so a version that is not semantic, such as `0x1.2.3`, bumps differently: JavaScript gives `2.0.0` for `major`, the model `1.0.0`. No part of a semantic version starts with `0x`.
- String lengths count characters, not UTF-16 code units. For the `min`/`max` string lengths the two agree on the Basic Multilingual Plane.
- JavaScript records are insertion-ordered sequences of entries. Theme keys are assumed not to be array indices, whose order JavaScript would change.
- CssVariables.ThemeToCssVariables: the ordered-groups result needs distinct keys in each theme table, which a JavaScript object guarantees. Without them the model still states the result as the sequence of assignments.
- The release script's process, `git`, `npm`, file I/O and console output are left out.
- The release date is a parameter of `updateChangelog`.
- DatePicker.Picker.ShowPreviousMonth, ShowNextMonth, ShowPreviousYear and ShowNextYear use the clamped shift of the corrected navigation (see Findings), not the source's `setMonth`/`setFullYear` overflow. The as-written behaviour is modelled by `ShiftMonthAsWritten` and `ShiftYearAsWritten`.
- Release.UpdateChangelog appends the entry at the end where the source leaves the text unchanged (see Findings). The as-written behaviour is `UpdateChangelogAsWritten`.

## Findings

| source | as written | input that shows it | evidently intended | confidence | as-written member | corrected member |
|---|---|---|---|---|---|---|
| packages/components/src/datepicker/DatePicker.tsx:275-297 | month and year navigation call `setMonth(getMonth() ± 1)` / `setFullYear(getFullYear() ± 1)` on the shown date, and the day overflows into the following month | 31 March 2024, "previous month": 31 February rolls to 2 March and the calendar stays on March; 29 February 2024, "next year", shows March 2025 | the previous or next month (year) is shown, the day clamped to the target month | not executed | DatePicker.ShiftMonthAsWritten, DatePicker.PreviousMonthStaysPut, DatePicker.MonthAsWrittenOverflows, DatePicker.YearAsWrittenOverflows | DatePicker.ShiftMonths, DatePicker.ShiftYears, DatePicker.YearsAreTwelveMonths, DatePicker.MonthAsWrittenAgrees, DatePicker.YearAsWrittenAgrees |
| scripts/release.js:176-184 | with an unreleased heading but neither `\n---` nor a later `\n## [` after it, the changelog is written back unchanged | `## [未发布]` followed by one line and nothing else: the new version is not recorded | the entry is added after the unreleased section, at the end of the text | not executed | Release.UpdateChangelogAsWritten, Release.ChangelogSkipsTrailingUnreleased, Release.NoMarkerAfterHeading | Release.UpdateChangelog, Release.ChangelogRecordsVersion, Release.ChangelogIdempotent, Release.ChangelogKeepsText |
