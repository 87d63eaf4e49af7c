/**
 * The datepicker component's calendar and clock state: the display cursor and its clamp,
 * the month grid built by nested loops, the list of years, and the flags that decide
 * which sub-panel (year list, calendar, hour dial, minute dial) is shown.
 */
module DatepickerComponent {
  import opened Wrappers
  import opened CivilDate
  import opened DateRange
  import opened TextFormat
  import opened CalendarGrid

  /** The `type` input: which parts of a timestamp the picker edits. */
  datatype PickerType = PickDate | PickTime | PickDateTime

  /** The sub-panel the flags select, read in the order `_onClickOk` tests them. */
  datatype SubPanel = Years | Calendar | Hours | Minutes

  /** The header texts of `_viewDay`. */
  datatype ViewDay = ViewDay(year: int, month: string, date: string, day: string, hour: string, minute: string)

  const MonthNames: seq<string> := ["January", "February", "March", "April", "May", "June", "July",
                                    "August", "September", "October", "November", "December"]
  const DayNames: seq<string> := ["Sunday", "Monday", "Tuesday", "Wednesday", "Thursday", "Friday", "Saturday"]

  /** The header texts the `displayDate` setter derives from a date. */
  function ViewOf(d: DateTime): ViewDay
    requires ValidDate(d)
  {
    ViewDay(d.year, MonthNames[d.month], PrependZero(IntToString(d.day)),
            DayNames[Weekday(d.year, d.month, d.day)],
            PrependZero(IntToString(d.hour)), PrependZero(IntToString(d.minute)))
  }

  /**
   * The header names the date's year, month and weekday, and shows its day, hours and
   * minutes as exactly two digits that read back as those numbers.
   */
  lemma ViewReadsBack(d: DateTime)
    requires ValidDate(d)
    ensures var v := ViewOf(d);
            && v.year == d.year && v.month == MonthNames[d.month]
            && v.day == DayNames[Weekday(d.year, d.month, d.day)]
            && |v.date| == 2 && AllDigits(v.date) && ParseInt(v.date) == Some(d.day)
            && |v.hour| == 2 && AllDigits(v.hour) && ParseInt(v.hour) == Some(d.hour)
            && |v.minute| == 2 && AllDigits(v.minute) && ParseInt(v.minute) == Some(d.minute)
  {
    PadTwoDigits(d.day);
    PadTwoDigits(d.hour);
    PadTwoDigits(d.minute);
  }

  /** What the OK button does to the visible sub-panel. */
  function OkStep(p: SubPanel, kind: PickerType): SubPanel
  {
    match p
    case Years => Calendar
    case Calendar => if kind == PickDate then Calendar else Hours
    case Hours => Minutes
    case Minutes => Minutes
  }

  /**
   * With a time component, pressing OK from any sub-panel reaches the minute dial within
   * three presses; in date-only mode OK never leaves the calendar once it is reached.
   */
  lemma OkReachesMinutes(p: SubPanel, kind: PickerType)
    ensures kind != PickDate ==> OkStep(OkStep(OkStep(p, kind), kind), kind) == Minutes
    ensures kind == PickDate && p in {Years, Calendar} ==> OkStep(OkStep(p, kind), kind) == Calendar
  {
  }

  /** `rows` are the first |rows| rows of the grid of layout L, at most six. */
  ghost predicate GridRows(rows: seq<seq<Cell>>, L: Layout, today: DateTime, bounds: Bounds)
    requires Shaped(L) && ValidBounds(bounds)
  {
    && |rows| <= WeeksPerGrid
    && (forall w :: 0 <= w < |rows| ==> |rows[w]| == DaysPerWeek)
    && (forall w, j :: 0 <= w < |rows| && 0 <= j < DaysPerWeek ==>
          rows[w][j] == CellAt(L, today, bounds, DaysPerWeek * w + j))
  }

  /** Appending the next row of the grid keeps a prefix of the grid; six rows make the whole grid. */
  lemma AppendRow(rows: seq<seq<Cell>>, week: seq<Cell>, L: Layout, today: DateTime, bounds: Bounds)
    requires Shaped(L) && ValidBounds(bounds)
    requires GridRows(rows, L, today, bounds) && |rows| < WeeksPerGrid
    requires |week| == DaysPerWeek
    requires forall k :: 0 <= k < DaysPerWeek ==> week[k] == CellAt(L, today, bounds, DaysPerWeek * |rows| + k)
    ensures GridRows(rows + [week], L, today, bounds)
    ensures |rows| + 1 == WeeksPerGrid ==> IsGridOf(rows + [week], L, today, bounds)
  {
  }

  class Datepicker {
    /** The wall-clock time when the component was created (`today`). */
    const today: DateTime
    /** `_minDate` and `_maxDate`. */
    const bounds: Bounds
    var kind: PickerType
    /** `_displayDate`, null until the setter first accepts a date. */
    var displayDate: Option<DateTime>
    var viewDay: ViewDay
    var selectedDate: Option<DateTime>
    var years: seq<int>
    var dates: seq<seq<Cell>>
    var yearsVisible: bool
    var calendarVisible: bool
    var hoursVisible: bool

    /**
     * A stored cursor is a valid date, inside the bounds whenever they do not cross, and the
     * header shows it.
     */
    ghost predicate Valid()
      reads this`displayDate, this`viewDay
    {
      && ValidDate(today)
      && ValidBounds(bounds)
      && (displayDate.Some? ==>
            && ValidDate(displayDate.value)
            && (Ordered(bounds) ==> InRange(bounds, displayDate.value))
            && viewDay == ViewOf(displayDate.value))
    }

    function VisiblePanel(): SubPanel
      reads this`yearsVisible, this`calendarVisible, this`hoursVisible
    {
      if yearsVisible then Years
      else if calendarVisible then Calendar
      else if hoursVisible then Hours
      else Minutes
    }

    /** The `displayDate` getter: the stored cursor, or today while none is stored. */
    function DisplayDate(): (d: DateTime)
      reads this`displayDate, this`viewDay
      requires Valid()
      ensures ValidDate(d)
      ensures displayDate.Some? ==> d == displayDate.value && (Ordered(bounds) ==> InRange(bounds, d))
      ensures displayDate.None? ==> d == today
    {
      if displayDate.Some? then displayDate.value else today
    }

    constructor (today: DateTime, bounds: Bounds, kind: PickerType)
      requires ValidDate(today) && ValidBounds(bounds)
      ensures Valid()
      ensures this.today == today && this.bounds == bounds && this.kind == kind
      ensures displayDate == None && selectedDate == None
      ensures viewDay == ViewDay(0, "", "", "", "", "") && dates == []
      ensures !yearsVisible && !calendarVisible && hoursVisible
      ensures var first := if bounds.min.Some? then bounds.min.value.year else 1900;
              var last := if bounds.max.Some? then bounds.max.value.year else today.year + 100;
              && |years| == (if first <= last then last - first + 1 else 0)
              && forall k :: 0 <= k < |years| ==> years[k] == first + k
    {
      this.today := today;
      this.bounds := bounds;
      this.kind := kind;
      displayDate := None;
      selectedDate := None;
      viewDay := ViewDay(0, "", "", "", "", "");
      dates := [];
      yearsVisible := false;
      calendarVisible := false;
      hoursVisible := true;
      years := [];
      new;
      GetYears();
    }

    /** `getYears`: the consecutive years from min's year (default 1900) to max's year (default today's + 100). */
    method GetYears()
      modifies this`years
      ensures var first := if bounds.min.Some? then bounds.min.value.year else 1900;
              var last := if bounds.max.Some? then bounds.max.value.year else today.year + 100;
              && |years| == (if first <= last then last - first + 1 else 0)
              && forall k :: 0 <= k < |years| ==> years[k] == first + k
    {
      var startYear := if bounds.min.Some? then bounds.min.value.year else 1900;
      var endYear := if bounds.max.Some? then bounds.max.value.year else today.year + 100;
      years := [];
      var i := startYear;
      while i <= endYear
        invariant startYear <= i <= (if startYear <= endYear then endYear + 1 else startYear)
        invariant |years| == i - startYear
        invariant forall k :: 0 <= k < |years| ==> years[k] == startYear + k
      {
        years := years + [i];
        i := i + 1;
      }
    }

    /**
     * The `displayDate` setter: ignores a null or invalid date; otherwise stores it clamped to
     * the bounds and refreshes the header texts (`Valid` says the header shows the cursor).
     */
    method SetDisplayDate(date: Option<DateTime>)
      requires Valid()
      modifies this`displayDate, this`viewDay
      ensures Valid()
      ensures date.Some? && ValidDate(date.value) ==> displayDate == Some(Clamp(bounds, date.value))
      ensures !(date.Some? && ValidDate(date.value)) ==>
                displayDate == old(displayDate) && viewDay == old(viewDay)
    {
      if date.Some? && ValidDate(date.value) {
        var d := date.value;
        if bounds.min.Some? && Before(d, bounds.min.value) {
          d := bounds.min.value;
        }
        if bounds.max.Some? && Before(bounds.max.value, d) {
          d := bounds.max.value;
        }
        displayDate := Some(d);
        viewDay := ViewOf(d);
      }
    }

    /**
     * The day counter and month tag `generateCalendar` carries from one cell to the next,
     * just before cell n of the grid: counting the days of the month from 1, then those of
     * the next month from 1 again once the month is used up.
     */
    ghost predicate CursorAt(L: Layout, n: int, dayNbr: int, calMonth: CalMonth)
    {
      if n <= L.firstDay + L.days then calMonth == Curr && dayNbr == n - L.firstDay + 1
      else calMonth == Next && dayNbr == n - L.firstDay - L.days + 1
    }

    /** The first row of `generateCalendar`: the tail of the previous month, then day 1 onwards. */
    method FirstWeek(layout: Layout) returns (week: seq<Cell>, dayNbr: int, calMonth: CalMonth)
      requires Shaped(layout) && ValidBounds(bounds)
      ensures |week| == DaysPerWeek
      ensures forall k :: 0 <= k < DaysPerWeek ==> week[k] == CellAt(layout, today, bounds, k)
      ensures CursorAt(layout, DaysPerWeek, dayNbr, calMonth)
    {
      var year, month := layout.year, layout.month;
      var firstDay, numberOfDaysInPrevMonth := layout.firstDay, layout.prevDays;
      var (prevYear, prevMonth) := PrevMonthOf(year, month);
      dayNbr := 1;
      calMonth := Prev;
      week := [];
      var prevStart := numberOfDaysInPrevMonth - firstDay + 1;
      for j := prevStart to numberOfDaysInPrevMonth + 1
        invariant |week| == j - prevStart
        invariant forall k :: 0 <= k < |week| ==> week[k] == CellAt(layout, today, bounds, k)
      {
        var date := DateTime(prevYear, prevMonth, j, 0, 0, 0);
        week := week + [NewCell(date, calMonth, today, bounds)];
      }
      calMonth := Curr;
      var daysLeft := DaysPerWeek - |week|;
      for j := 0 to daysLeft
        invariant |week| == firstDay + j && dayNbr == j + 1
        invariant forall k :: 0 <= k < |week| ==> week[k] == CellAt(layout, today, bounds, k)
      {
        var date := DateTime(year, month, dayNbr, 0, 0, 0);
        week := week + [NewCell(date, calMonth, today, bounds)];
        dayNbr := dayNbr + 1;
      }
    }

    /**
     * Rows 2 to 6 of `generateCalendar`: seven cells from cell `start` on, switching to the
     * next month when the day counter passes the length of the month.
     */
    method LaterWeek(layout: Layout, start: int, dayNbr0: int, calMonth0: CalMonth)
      returns (week: seq<Cell>, dayNbr: int, calMonth: CalMonth)
      requires Shaped(layout) && ValidBounds(bounds)
      requires DaysPerWeek <= start <= CellsPerGrid - DaysPerWeek
      requires CursorAt(layout, start, dayNbr0, calMonth0)
      ensures |week| == DaysPerWeek
      ensures forall k :: 0 <= k < DaysPerWeek ==> week[k] == CellAt(layout, today, bounds, start + k)
      ensures CursorAt(layout, start + DaysPerWeek, dayNbr, calMonth)
    {
      var year, month, numberOfDaysInMonth := layout.year, layout.month, layout.days;
      var (nextYear, nextMonth) := NextMonthOf(year, month);
      dayNbr, calMonth := dayNbr0, calMonth0;
      week := [];
      for j := 1 to 8
        invariant |week| == j - 1
        invariant forall k :: 0 <= k < |week| ==> week[k] == CellAt(layout, today, bounds, start + k)
        invariant CursorAt(layout, start + j - 1, dayNbr, calMonth)
      {
        if dayNbr > numberOfDaysInMonth {
          dayNbr := 1;
          calMonth := Next;
        }
        var (cellYear, cellMonth) := if calMonth == Curr then (year, month) else (nextYear, nextMonth);
        var date := DateTime(cellYear, cellMonth, dayNbr, 0, 0, 0);
        week := week + [NewCell(date, calMonth, today, bounds)];
        dayNbr := dayNbr + 1;
      }
    }

    /** The layout of the month the cursor is in. */
    function DisplayLayout(): (L: Layout)
      reads this`displayDate, this`viewDay
      requires Valid()
      ensures Shaped(L) && L.year == DisplayDate().year && L.month == DisplayDate().month
      ensures L.firstDay == Weekday(L.year, L.month, 1)
    {
      LayoutOf(DisplayDate().year, DisplayDate().month)
    }

    /** `generateCalendar`: rebuilds `dates` as the six-week grid of the displayed month. */
    method GenerateCalendar()
      requires Valid()
      modifies this`dates
      ensures IsGridOf(dates, DisplayLayout(), today, bounds)
    {
      var view := DisplayDate();
      var year, month := view.year, view.month;
      dates := [];
      // firstDayOfMonth's weekday, numberOfDaysInMonth and numberOfDaysInPrevMonth
      var layout := LayoutOf(year, month);
      assert layout == DisplayLayout();

      var dayNbr := 1;
      var calMonth := Prev;
      for i := 1 to 7
        invariant GridRows(dates, layout, today, bounds) && |dates| == i - 1
        invariant i > 1 ==> CursorAt(layout, DaysPerWeek * (i - 1), dayNbr, calMonth)
      {
        var week;
        if i == 1 {
          week, dayNbr, calMonth := FirstWeek(layout);
        } else {
          week, dayNbr, calMonth := LaterWeek(layout, DaysPerWeek * (i - 1), dayNbr, calMonth);
        }
        AppendRow(dates, week, layout, today, bounds);
        dates := dates + [week];
      }
    }

    /** `_showYear`: opens the year list over the calendar. */
    method ShowYear()
      modifies this`yearsVisible, this`calendarVisible
      ensures yearsVisible && calendarVisible
      ensures VisiblePanel() == Years
    {
      yearsVisible := true;
      calendarVisible := true;
    }

    /**
     * `_setYear`: moves the cursor to `year`, keeping month, day, hours and minutes (see
     * `ChangeYear`), rebuilds the grid and closes the year list.
     */
    method SetYear(year: int)
      requires Valid()
      modifies this`displayDate, this`viewDay, this`dates, this`yearsVisible
      ensures Valid()
      ensures var was := old(DisplayDate());
              displayDate == Some(Clamp(bounds, RollDate(year, was.month, was.day, was.hour, was.minute, 0)))
      ensures IsGridOf(dates, DisplayLayout(), today, bounds)
      ensures !yearsVisible
      ensures old(calendarVisible) ==> VisiblePanel() == Calendar
    {
      var date := DisplayDate();
      SetDisplayDate(Some(RollDate(year, date.month, date.day, date.hour, date.minute, 0)));
      GenerateCalendar();
      yearsVisible := false;
    }

    /** `_showCalendar`. */
    method ShowCalendar()
      modifies this`yearsVisible, this`calendarVisible
      ensures !yearsVisible && calendarVisible
      ensures VisiblePanel() == Calendar
    {
      yearsVisible := false;
      calendarVisible := true;
    }

    /** `_toggleHours`: leaves the year list and calendar for the hour (true) or minute (false) dial. */
    method ToggleHours(value: bool)
      modifies this`yearsVisible, this`calendarVisible, this`hoursVisible
      ensures !yearsVisible && !calendarVisible && hoursVisible == value
      ensures VisiblePanel() == if value then Hours else Minutes
    {
      yearsVisible := false;
      calendarVisible := false;
      yearsVisible := false;  // `_toggleHours` assigns this flag twice
      hoursVisible := value;
    }

    /**
     * `setDate`: in date-only mode nothing changes (the value setter it calls does nothing);
     * otherwise the date is selected, becomes the cursor, and the hour dial opens.
     */
    method SetDate(date: DateTime)
      requires Valid()
      modifies this`selectedDate, this`displayDate, this`viewDay, this`calendarVisible, this`hoursVisible
      ensures Valid()
      ensures kind == PickDate ==>
                && selectedDate == old(selectedDate) && displayDate == old(displayDate) && viewDay == old(viewDay)
                && calendarVisible == old(calendarVisible) && hoursVisible == old(hoursVisible)
      ensures kind != PickDate ==>
                && selectedDate == Some(date)
                && (ValidDate(date) ==> displayDate == Some(Clamp(bounds, date)))
                && (!ValidDate(date) ==> displayDate == old(displayDate) && viewDay == old(viewDay))
                && !calendarVisible && hoursVisible
    {
      if kind == PickDate {
      } else {
        selectedDate := Some(date);
        SetDisplayDate(Some(date));
        calendarVisible := false;
        hoursVisible := true;
      }
    }

    /** `_updateMonth`: moves the cursor by `months` months and rebuilds the grid. */
    method UpdateMonth(months: int)
      requires Valid()
      modifies this`displayDate, this`viewDay, this`dates
      ensures Valid()
      ensures displayDate == Some(Clamp(bounds, AddMonths(old(DisplayDate()), months)))
      ensures IsGridOf(dates, DisplayLayout(), today, bounds)
    {
      SetDisplayDate(Some(AddMonths(DisplayDate(), months)));
      GenerateCalendar();
    }

    /** `_onClickOk`: advances the visible sub-panel by one step (see `OkStep`). */
    method OnClickOk()
      requires Valid()
      modifies this`selectedDate, this`displayDate, this`viewDay, this`dates
      modifies this`yearsVisible, this`calendarVisible, this`hoursVisible
      ensures Valid()
      ensures VisiblePanel() == OkStep(old(VisiblePanel()), kind)
      ensures old(VisiblePanel()) == Years ==>
                && IsGridOf(dates, DisplayLayout(), today, bounds)
                && displayDate == old(displayDate) && viewDay == old(viewDay) && selectedDate == old(selectedDate)
                && hoursVisible == old(hoursVisible)
      ensures old(VisiblePanel()) == Calendar && kind != PickDate ==>
                && selectedDate == Some(old(DisplayDate()))
                && displayDate == Some(Clamp(bounds, old(DisplayDate())))
                && dates == old(dates)
      ensures old(VisiblePanel()) == Calendar && kind == PickDate ==>
                && selectedDate == old(selectedDate) && displayDate == old(displayDate) && viewDay == old(viewDay)
                && dates == old(dates) && hoursVisible == old(hoursVisible)
      ensures old(VisiblePanel()) in {Hours, Minutes} ==>
                && selectedDate == old(selectedDate) && displayDate == old(displayDate) && viewDay == old(viewDay)
                && dates == old(dates)
    {
      if yearsVisible {
        GenerateCalendar();
        yearsVisible := false;
        calendarVisible := true;
      } else if calendarVisible {
        SetDate(DisplayDate());
      } else if hoursVisible {
        hoursVisible := false;
      } else {
        // The value setter is a no-op and the blur notification goes to the host.
      }
    }

    /**
     * `_onClickDate`: a disabled cell is ignored; a previous- or next-month cell moves the
     * cursor one month back or forward; a current-month cell is passed to `SetDate` with the
     * cursor's hours and minutes.
     */
    method OnClickDate(cell: Cell)
      requires Valid() && ValidDate(cell.date)
      modifies this`selectedDate, this`displayDate, this`viewDay, this`dates
      modifies this`calendarVisible, this`hoursVisible
      ensures Valid()
      ensures cell.disabled ==>
                && selectedDate == old(selectedDate) && displayDate == old(displayDate) && viewDay == old(viewDay)
                && dates == old(dates)
                && calendarVisible == old(calendarVisible) && hoursVisible == old(hoursVisible)
      ensures !cell.disabled && cell.calMonth != Curr ==>
                && displayDate == Some(Clamp(bounds, AddMonths(old(DisplayDate()), if cell.calMonth == Prev then -1 else 1)))
                && IsGridOf(dates, DisplayLayout(), today, bounds)
                && selectedDate == old(selectedDate)
                && calendarVisible == old(calendarVisible) && hoursVisible == old(hoursVisible)
      ensures !cell.disabled && cell.calMonth == Curr && kind == PickDate ==>
                && selectedDate == old(selectedDate) && displayDate == old(displayDate) && viewDay == old(viewDay)
                && dates == old(dates)
                && calendarVisible == old(calendarVisible) && hoursVisible == old(hoursVisible)
      ensures !cell.disabled && cell.calMonth == Curr && kind != PickDate ==>
                var picked := old(DisplayDate()).(year := cell.date.year, month := cell.date.month,
                                                  day := cell.date.day, second := 0);
                && selectedDate == Some(picked)
                && displayDate == Some(Clamp(bounds, picked))
                && dates == old(dates)
                && !calendarVisible && hoursVisible
    {
      if cell.disabled {
        return;
      }
      if cell.calMonth == Prev {
        UpdateMonth(-1);
      } else if cell.calMonth == Curr {
        var cursor := DisplayDate();
        SetDate(DateTime(cell.date.year, cell.date.month, cell.date.day, cursor.hour, cursor.minute, 0));
      } else if cell.calMonth == Next {
        UpdateMonth(1);
      }
    }

    /** `setHour`: sets the cursor's hours (seconds become 0) and leaves the hour dial. */
    method SetHour(hour: int)
      requires Valid() && 0 <= hour < 24
      modifies this`hoursVisible, this`displayDate, this`viewDay
      ensures Valid()
      ensures displayDate == Some(Clamp(bounds, old(DisplayDate()).(hour := hour, second := 0)))
      ensures !hoursVisible
      ensures old(VisiblePanel()) == Hours ==> VisiblePanel() == Minutes
    {
      var date := DisplayDate();
      hoursVisible := false;
      var next := date.(hour := hour, second := 0);
      SetDisplayDate(Some(next));
    }

    /** `setMinute`: sets the cursor's minutes (seconds become 0) and selects the resulting cursor. */
    method SetMinute(minute: int)
      requires Valid() && 0 <= minute < 60
      modifies this`displayDate, this`viewDay, this`selectedDate
      ensures Valid()
      ensures displayDate == Some(Clamp(bounds, old(DisplayDate()).(minute := minute, second := 0)))
      ensures selectedDate == Some(DisplayDate())
    {
      var date := DisplayDate();
      var next := date.(minute := minute, second := 0);
      SetDisplayDate(Some(next));
      selectedDate := Some(DisplayDate());
    }
  }
}
