# md2 datepicker: calendar core in Dafny

This project models the calendar and clock core of the md2 `Md2Datepicker` Angular
component (`src/lib/datepicker/datepicker.ts`) and proves properties of it. The model covers:

- the display cursor (`displayDate`) and how its setter clamps a date into the optional
  `[min, max]` window;
- `_isDisabledDate`, the test that greys out a calendar cell;
- `getYears`, the list of selectable years;
- `generateCalendar`, which builds the six-week month grid out of previous-month,
  current-month and next-month cells;
- the sub-panel flags (`_isYearsVisible`, `_isCalendarVisible`, `_isHoursVisible`) and the
  handlers that move between the year list, the calendar, the hour dial and the minute dial;
- the string helpers `_prependZero` and `_formatDate`, the latter characterised for every
  format whose tokens are distinct and whose literal text has no token letter, and in
  particular for the layouts `'DD/MM/YYYY'`, `'HH:mm'` and `'DD/MM/YYYY HH:mm'` that the
  commented-out default of the `format` input names;
- the integer part of the clock dial: which tick `_resetClock` draws a time on, which index
  `_setClockHand` snaps that point to, which hour or minute it computes, and where it stores
  the hand.

The component relies on a date utility service whose code is not part of this model. The
model therefore brings its own proleptic Gregorian arithmetic:
- month lengths;
- day numbers counted from 1 January of year 1;
- weekdays as `getDay` reports them (0 is Sunday);
- whole-month steps;
- the day roll-over that `new Date(y, m, d, h, mi)` performs.

Months count from 0, as in JavaScript.

Modules, one per file:

| file | module | contents |
|---|---|---|
| `wrappers.dfy` | `Wrappers` | `Option` |
| `civil_date.dfy` | `CivilDate` | `DateTime`, month lengths, day numbers, weekdays, `RollDate`, `AddMonths` |
| `date_range.dfy` | `DateRange` | timestamp order, `Bounds`, `IsDisabled`, `Clamp` |
| `text_format.dfy` | `TextFormat` | decimal strings, the used part of `parseInt`, `PrependZero`, first-occurrence replace, `FormatDate`, formats as pieces of text and tokens |
| `clock_dial.dfy` | `ClockDial` | dial ticks, the snapped index as written and as intended, hour and minute from an index |
| `calendar_grid.dfy` | `CalendarGrid` | the cell each grid position must hold, and the grid's counting and ordering lemmas |
| `datepicker.dfy` | `DatepickerComponent` | the `Datepicker` class, with the component's fields and handlers |

`generateCalendar` is proved against a specification. `CalendarGrid.LayoutOf(y, m)` gathers
the three numbers the loop starts from: the weekday of the 1st, the month's length and the
previous month's length. `CalendarGrid.CellAt(L, today, bounds, k)` gives the cell that
position `k` (0..41) of the grid with layout `L` must hold. Position `k` holds:
- a previous-month day while `k` is below the weekday of the 1st;
- a current-month day for the next `DaysInMonth(y, m)` positions;
- a next-month day after that.

The method `Datepicker.GenerateCalendar` runs the source's nested loops with the same `dayNbr`
and `calMonth` counters. Its postcondition says the resulting rows are exactly that
specification. The grid lemmas are proved about the specification:
- the cell counts per tag;
- the days in order;
- the tags in order;
- consecutive days;
- columns as weekdays.

In these places the code does not do what its `min`/`max` inputs and its `value` setter
evidently intend; the model follows the code:
- `_minDate` and `_maxDate` start as `null`, and nothing in `datepicker.ts` assigns them: the `min` and
  `max` inputs write `_min` and `_max`. In the source as written, then, no date is ever
  disabled or clamped. The model takes the two bounds as a constructor parameter so that the
  range logic is stated for any bounds. `Bounds(None, None)` is the source's behaviour.
- The `value` setter's body is commented out, so assigning `value` does nothing:
  - in `'date'` mode, picking a day (`setDate`) and OK on the calendar change no modelled state;
  - `setMinute` and OK on the minute dial commit nothing beyond `_selectedDate` and the cursor.
- `_showYear` sets both `_isYearsVisible` and `_isCalendarVisible`. The year list wins because
  every reader tests it first.

## Model

| member | source | states |
|---|---|---|
| CivilDate.DaysInMonth | src/lib/datepicker/datepicker.ts:718-720 | month lengths lie in 28..31; the length is 29 exactly for February of a leap year and 28 exactly for February of a common year |
| CivilDate.YearLength | src/lib/datepicker/datepicker.ts:718-720 | a year has 366 days when it is a leap year and 365 days otherwise |
| CivilDate.YearStep | src/lib/datepicker/datepicker.ts:718-720 | the closed-form day count of the next year's 1 January equals this year's count plus this year's length |
| CivilDate.WeekdayExamples | src/lib/datepicker/datepicker.ts:717-727 | 1 January 1970 and 1 February 2024 are Thursdays; 1 January 2000 is a Saturday |
| CivilDate.NextMonthOf | src/lib/datepicker/datepicker.ts:760-765 | the month `month + 1` that `new Date` normalises: a valid month index exactly one month after (y, m) |
| CivilDate.PrevMonthOf | src/lib/datepicker/datepicker.ts:729-730 | the month `month - 1` that `new Date` normalises: a valid month index exactly one month before (y, m), and the next month after it is (y, m) |
| CivilDate.MonthStep | src/lib/datepicker/datepicker.ts:755-759 | the next month's 1st comes exactly `DaysInMonth(y, m)` days after this month's 1st |
| CivilDate.FirstWeekdayStep | src/lib/datepicker/datepicker.ts:755-759 | the next month starts on weekday (this month's first weekday + its length) mod 7 |
| CivilDate.RollDate | src/lib/datepicker/datepicker.ts:562-563 | `new Date(y, m, day, h, mi)` for day 1..31 gives a valid date `day - 1` days after the 1st of month m, at the given time |
| CivilDate.ChangeYear | src/lib/datepicker/datepicker.ts:560-566 | replacing the year keeps month, day, hours and minutes and zeroes the seconds, except that 29 February in a common year becomes 1 March |
| CivilDate.AddMonths | src/lib/datepicker/datepicker.ts:660-663 | moving by n months lands exactly n months away; the day is kept or pulled down to the target month's last day; the time of day is kept |
| CivilDate.AddMonthsRoundTrip | src/lib/datepicker/datepicker.ts:660-663 | for days up to the 28th, moving n months forward and then n back returns the same date |
| DateRange.IsDisabled | src/lib/datepicker/datepicker.ts:688-697 | a date is disabled if and only if it is before a set min or after a set max, which is the same as lying outside the window; with no bound set, no date is disabled |
| DateRange.Clamp | src/lib/datepicker/datepicker.ts:386-394 | the stored cursor is the date itself, min or max. It is the date itself when the date is in range, min when the date is before min (bounds not crossed), max when the date is after max, and always in range when min is not after max |
| DateRange.ClampIdempotent | src/lib/datepicker/datepicker.ts:386-394 | with min not after max, clamping an already clamped date changes nothing |
| DateRange.ClampNeverDisabled | src/lib/datepicker/datepicker.ts:386-394 | with min not after max, the clamped cursor is never a disabled date |
| DateRange.ClampCrossed | src/lib/datepicker/datepicker.ts:386-394 | with max before min, every date is clamped to max, because the max test runs last |
| DateRange.BeforeIsStampOrder | src/lib/datepicker/datepicker.ts:688-697 | for valid dates, the lexicographic order of year, month, day, hour, minute and second holds exactly when the first date's timestamp is smaller (`<` on Date objects) |
| DateRange.DayNumberOrder | src/lib/datepicker/datepicker.ts:688-697 | day numbers strictly increase along the (year, month, day) order |
| TextFormat.NatToString | src/lib/datepicker/datepicker.ts:398-401 | `n + ''` is a non-empty digit string without a leading zero; it is one digit exactly when n < 10 |
| TextFormat.ParseDigits | src/lib/datepicker/datepicker.ts:1002-1004 | `parseInt` of a non-empty string of digits is the number the digits denote |
| TextFormat.ParseNegative | src/lib/datepicker/datepicker.ts:1002-1004 | `parseInt` of a minus sign followed by digits is the negated number the digits denote |
| TextFormat.ParseIntToString | src/lib/datepicker/datepicker.ts:1002-1004 | `parseInt(i + '')` gives back i for every integer |
| TextFormat.PadTwoDigits | src/lib/datepicker/datepicker.ts:398-401 | padding a number below 100 gives exactly two digits that parse back to the number; from 10 up the string is unchanged |
| TextFormat.IndexOf | src/lib/datepicker/datepicker.ts:989-994 | the result is the first position at or after `from` where the pattern occurs; None means the pattern does not occur there |
| TextFormat.ReplaceFirst | src/lib/datepicker/datepicker.ts:989-994 | `String.replace` with a string pattern replaces only the first occurrence, and returns the input when there is none |
| TextFormat.FormatWithoutTokens | src/lib/datepicker/datepicker.ts:987-995 | a format containing none of the six tokens is returned unchanged |
| TextFormat.FormatYearOnly | src/lib/datepicker/datepicker.ts:987-995 | the format `YYYY` becomes the decimal year, untouched by the later replacements |
| TextFormat.FormatDayOnly | src/lib/datepicker/datepicker.ts:987-995 | the format `DD` becomes the zero-padded two-character day |
| TextFormat.ReplaceAfter | src/lib/datepicker/datepicker.ts:989-994 | when the text before a pattern holds no copy of the pattern's first letter, `replace` swaps exactly that occurrence and keeps the text around it |
| TextFormat.ReplaceToken | src/lib/datepicker/datepicker.ts:989-994 | in a format whose literal text has no token letter and whose tokens are distinct, replacing a token's first occurrence turns that token, and nothing else, into the replacement text; a token that is absent leaves the format unchanged |
| TextFormat.SubstituteSimple | src/lib/datepicker/datepicker.ts:987-995 | on such a format the six chained replacements put each field's text where its token stands and keep all literal text, whatever the order of the tokens |
| TextFormat.FormatSimple | src/lib/datepicker/datepicker.ts:987-995 | `_formatDate` of such a format is the format with each token replaced by the date's field: the decimal year, and the 1-based month, day, hours, minutes and seconds padded by `_prependZero` |
| TextFormat.FormatDateTimeLayout | src/lib/datepicker/datepicker.ts:987-995 | for a layout `DD<a>MM<b>YYYY<c>HH<e>mm` whose separators hold no token letter, every date formats to padded day, month, the year, padded hours and minutes with the same separators |
| TextFormat.FormatDateLayout | src/lib/datepicker/datepicker.ts:987-995 | the same for a date-only layout `DD<a>MM<b>YYYY` |
| TextFormat.FormatTimeLayout | src/lib/datepicker/datepicker.ts:987-995 | the same for a time-only layout `HH<e>mm` |
| TextFormat.FormatDefaultDateTime | src/lib/datepicker/datepicker.ts:373-375 | the conventional `'DD/MM/YYYY HH:mm'` gives day/month/year hours:minutes for every date |
| TextFormat.FormatDefaultDate | src/lib/datepicker/datepicker.ts:373-375 | the conventional `'DD/MM/YYYY'` gives day/month/year for every date |
| TextFormat.FormatDefaultTime | src/lib/datepicker/datepicker.ts:373-375 | the conventional `'HH:mm'` gives hours:minutes for every date |
| ClockDial.HourFromTick | src/lib/datepicker/datepicker.ts:940-942 | a snapped hour tick 0..12 gives an hour in 0..23. The inner ring gives 1..12 and the outer ring gives 0 or 13..23. The tick is the hour mod 12 |
| ClockDial.MinuteFromTick | src/lib/datepicker/datepicker.ts:943-945 | a snapped minute tick 0..60 gives a minute in 0..59 (tick 60 is minute 0) |
| ClockDial.HandReturnsToTick | src/lib/datepicker/datepicker.ts:910-950 | the hand `_setClockHand` stores for the point `_resetClock` draws on a tick sits on that same tick |
| ClockDial.HourValueMirrored | src/lib/datepicker/datepicker.ts:910-942 | as written, the hour `_setClockHand` computes for the point `_resetClock` draws for an hour equals that hour only for 3, 9, 15 and 21 |
| ClockDial.MinuteValueMirrored | src/lib/datepicker/datepicker.ts:910-945 | as written, the minute computed for a drawn minute equals it only for 15 and 45 |
| ClockDial.TopOfDialAsWritten | src/lib/datepicker/datepicker.ts:910-945 | as written, hour 0 comes back as 18, 12 as 6, 1 as 5, 13 as 17, and minute 0 as 30 |
| ClockDial.HourRoundTrip | src/lib/datepicker/datepicker.ts:910-950 | read from the tick the stored hand sits on (the angle measured clockwise from straight up), every hour 0..23 comes back as itself, ring included |
| ClockDial.MinuteRoundTrip | src/lib/datepicker/datepicker.ts:910-950 | read from the tick the stored hand sits on, every minute 0..59 comes back as itself |
| ClockDial.TickRoundTrip | src/lib/datepicker/datepicker.ts:914-942 | for an index measured from straight up, the hour an index and ring select is drawn on that index (mod 12) and on that ring |
| CalendarGrid.CellDate | src/lib/datepicker/datepicker.ts:727-775 | every cell holds a valid midnight date: the previous month's date for a previous-month cell, this month's for a current-month cell, and the next month's for a next-month cell |
| CalendarGrid.FlattenGrid | src/lib/datepicker/datepicker.ts:724-777 | reading six rows of seven cells one after another gives the 42 specified cells in order |
| CalendarGrid.TagsInOrder | src/lib/datepicker/datepicker.ts:723-758 | tags never go backwards (prev, curr, next). Previous-month cells occur only in week 1. Week 1 holds exactly `getDay(first)` of them, then current-month cells, and no next-month cell |
| CalendarGrid.MonthDaysInOrder | src/lib/datepicker/datepicker.ts:722-775 | the current-month cells read in order are exactly days 1..numberOfDaysInMonth. The counts are `getDay(first)` previous-month cells, numberOfDaysInMonth current-month cells, and the rest from the next month |
| CalendarGrid.GridPrefixDays | src/lib/datepicker/datepicker.ts:742-775 | after the first n cells, the current-month days seen so far are 1, 2, … up to the count reached |
| CalendarGrid.GridPrefixCounts | src/lib/datepicker/datepicker.ts:724-777 | after the first n cells, the count of each tag is the count the loop counters imply |
| CalendarGrid.OverflowDays | src/lib/datepicker/datepicker.ts:727-759 | the leading cells are the previous month's days `numberOfDaysInPrevMonth - dow + 1 .. numberOfDaysInPrevMonth`; the next-month cells restart at day 1 and count up |
| CalendarGrid.CellsAreConsecutive | src/lib/datepicker/datepicker.ts:724-777 | the 42 cells are 42 consecutive days starting on the Sunday on or before the 1st |
| CalendarGrid.CellWeekday | src/lib/datepicker/datepicker.ts:724-777 | the cell in column j falls on weekday j, so the first column is Sunday |
| DatepickerComponent.ViewReadsBack | src/lib/datepicker/datepicker.ts:395-402 | the header shows the year, the month's and weekday's names, and two-character day, hour and minute strings that parse back to the date's fields |
| DatepickerComponent.OkReachesMinutes | src/lib/datepicker/datepicker.ts:604-618 | with a time part, three OK presses from any panel reach the minute dial; in date-only mode OK never leaves the calendar once the year list or calendar is shown |
| DatepickerComponent.AppendRow | src/lib/datepicker/datepicker.ts:776 | pushing the next specified row keeps the rows a prefix of the grid, and the sixth row completes it |
| DatepickerComponent.Datepicker.DisplayDate | src/lib/datepicker/datepicker.ts:379-385 | the getter returns the stored cursor (valid, and in range when the bounds do not cross), or today when none is stored |
| DatepickerComponent.Datepicker.constructor | src/lib/datepicker/datepicker.ts:172-182 | starts with no cursor and no selection, only the hour flag set, and the year list filled as by `getYears` |
| DatepickerComponent.Datepicker.GetYears | src/lib/datepicker/datepicker.ts:539-546 | `_years` is startYear..endYear inclusive and consecutive (empty when start is after end). The defaults are 1900 and today's year + 100 |
| DatepickerComponent.Datepicker.SetDisplayDate | src/lib/datepicker/datepicker.ts:386-403 | a missing or invalid date changes nothing; otherwise the cursor becomes the clamped date and the header is recomputed from it |
| DatepickerComponent.Datepicker.FirstWeek | src/lib/datepicker/datepicker.ts:726-753 | the first row is the specified cells 0..6, and the counters are left at the next cell of the month |
| DatepickerComponent.Datepicker.LaterWeek | src/lib/datepicker/datepicker.ts:754-775 | a later row is the specified cells start..start+6, and the counters (switching to the next month after the last day) are left at cell start+7 |
| DatepickerComponent.Datepicker.GenerateCalendar | src/lib/datepicker/datepicker.ts:711-778 | `_dates` becomes exactly the six-by-seven grid of the displayed month |
| DatepickerComponent.Datepicker.ShowYear | src/lib/datepicker/datepicker.ts:533-537 | the year and calendar flags are set, so the year list shows |
| DatepickerComponent.Datepicker.SetYear | src/lib/datepicker/datepicker.ts:560-566 | the stored cursor becomes the clamped date with the new year (other fields as `ChangeYear` states), the grid is rebuilt for it, and the year list closes |
| DatepickerComponent.Datepicker.ShowCalendar | src/lib/datepicker/datepicker.ts:585-588 | the year list closes and the calendar shows |
| DatepickerComponent.Datepicker.ToggleHours | src/lib/datepicker/datepicker.ts:593-599 | year list and calendar close, and the hour dial (true) or minute dial (false) shows |
| DatepickerComponent.Datepicker.SetDate | src/lib/datepicker/datepicker.ts:643-654 | date-only mode changes nothing; otherwise the date is selected, a valid date is stored as the clamped cursor with the header recomputed from it, and the calendar gives way to the hour dial |
| DatepickerComponent.Datepicker.UpdateMonth | src/lib/datepicker/datepicker.ts:660-663 | the stored cursor moves by the given number of months (then clamped), the header follows it, and the grid is rebuilt for it |
| DatepickerComponent.Datepicker.OnClickOk | src/lib/datepicker/datepicker.ts:604-618 | the visible panel advances by one OK step. From the year list the grid is rebuilt; from the calendar the cursor is picked as in `setDate`; the dials change no date |
| DatepickerComponent.Datepicker.OnClickDate | src/lib/datepicker/datepicker.ts:625-637 | a disabled cell changes nothing. A previous- or next-month cell moves the cursor one month back or forward and rebuilds the grid. A current-month cell selects that day at the cursor's hours and minutes, as `setDate` does |
| DatepickerComponent.Datepicker.SetHour | src/lib/datepicker/datepicker.ts:806-812 | the stored cursor's hour is replaced (seconds zeroed, then clamped), all other fields are kept, and the hour dial closes |
| DatepickerComponent.Datepicker.SetMinute | src/lib/datepicker/datepicker.ts:818-825 | the stored cursor's minute is replaced (seconds zeroed, then clamped), all other fields are kept, and the new cursor is selected |

## Findings

| source | as written | input that shows it | evidently intended | confidence | as-written member | corrected member |
|---|---|---|---|---|---|---|
| src/lib/datepicker/datepicker.ts:930 | `_setClockHand` takes the angle as `atan2(x, y)`, measured from straight down, while `_resetClock` (lines 915-921) and `generateClock` draw tick t clockwise from straight up; the computed hour or minute is the mirror image of the drawn one | the point drawn for hour 0 gives 18 and for hour 1 gives 5; minute 0 gives 30 | the value of the tick the hand is stored on, i.e. the angle `atan2(x, -y)` | medium; not executed; the value is not used after it is computed, so nothing visible changes | ClockDial.HourValueMirrored | ClockDial.HourRoundTrip |

## Left out

- Angular plumbing and the DOM have no behaviour to verify here. This covers:
  - the `ControlValueAccessor` hooks;
  - the event emitters and `_emitChangeEvent`;
  - `open`, `close`, `toggle`, `_onPanelDone`, `_focusHost`, `_getTriggerRect`, `_getWidth`,
    `_isRtl` and `_offset`;
  - host bindings and animations;
  - `_scrollToSelectedYear`, which is a timer plus a DOM scroll.
- `_showDatepicker` and the `value` property are not modelled, because the `value` setter's
  body is commented out. `_onBlur` is a callback into the host.
- `_isBeforeMonth` and `_isAfterMonth` are not modelled. They call the utility service's
  month distance, whose code is not part of this model.
- The clock's floating point is not modelled. This covers the tick positions of
  `generateClock`, the sine and cosine of `_resetClock`, and the `atan2`, square root and
  rounding of `_setClockHand`. Only the integer normalisation of a snapped tick is modelled.
  The normalised value is discarded in the source, and only the hand position is stored, so
  the mirrored value under "Findings" has no visible effect.
- `today` reads the wall clock, so it is a constructor parameter. The `type` input is a
  constructor parameter too.
- The date utility service is replaced by this model's own civil-date functions. The model's
  `AddMonths` clamps the day to the target month's length and keeps the time of day.
- JavaScript `Date` details are not modelled:
  - milliseconds;
  - time zones and daylight-saving gaps (a date is a local civil timestamp);
  - `new Date`'s mapping of years 0..99 to 1900..1999.
- The cell's `dateObj` copy, with its raw month `month - 1` or `month + 1`, is not modelled.
  Each cell keeps only the normalised date, which equals `dateObj` for current-month cells,
  the only cells whose `dateObj` is read.
- TextFormat.ReplaceFirst does not model the `$` patterns of `String.replace`'s replacement
  string. The replacements `_formatDate` passes are digit strings and never contain `$`.
- TextFormat.FormatSimple is stated for formats whose tokens are distinct and whose literal
  text contains none of the letters Y, M, D, H, m and s. Formats that repeat a token, or whose
  literal text contains such a letter (which can be taken for a later token), are not
  characterised beyond `ReplaceFirst` itself.
- `TextFormat.ParseInt` models only the inputs the component gives `parseInt`: an optional
  sign and decimal digits. Leading whitespace, hexadecimal prefixes and `NaN` arithmetic are
  not modelled.
- Commented-out code is not modelled: keyboard handling, mouse dragging on the clock, and the
  body of the `value` setter.
