/**
 The date filter of the changelist: a year, a month of it and a day of that become a half-open range
 of UTC instants. Instants are nanoseconds since the start of 1970.
 */
module DateHierarchy {
  import opened Wrappers
  import opened Calendar

  const DAY: int := 86_400_000_000_000

  // The years the date library holds.
  const MIN_YEAR: int := -262143
  const MAX_YEAR: int := 262142

  /** `Overflow` is the panic of an addition that leaves the representable instants. */
  datatype Error = InvalidYear | InvalidYearMonth | InvalidDay | Overflow

  type Range = (int, int)

  /** `Utc.with_ymd_and_hms(y, m, d, 0, 0, 0).single()`. */
  function Midnight(y: int, m: int, d: int): Option<int> {
    if MIN_YEAR <= y <= MAX_YEAR && Valid(Date(y, m, d)) then Some(DayNumber(Date(y, m, d)) * DAY) else None
  }

  /** `start + Duration::days(1)`. */
  function PlusOneDay(start: int): Option<int> {
    if start + DAY < (DayNumber(Date(MAX_YEAR, 12, 31)) + 1) * DAY then Some(start + DAY) else None
  }

  function DateRange(hierarchy: bool, year: Option<int>, month: Option<nat>, day: Option<nat>)
    : Result<Option<Range>, Error>
  {
    if !hierarchy || year.None? then Ok(None)
    else
      var y := year.value;
      match month
      case None =>
        var start, end := Midnight(y, 1, 1), Midnight(y + 1, 1, 1);
        if start.None? || end.None? then Err(InvalidYear) else Ok(Some((start.value, end.value)))
      case Some(m) =>
        var first := Midnight(y, m, 1);
        if first.None? then Err(InvalidYearMonth)
        else match day
          case Some(d) =>
            var start := Midnight(y, m, d);
            if start.None? then Err(InvalidDay)
            else
              var end := PlusOneDay(start.value);
              if end.None? then Err(Overflow) else Ok(Some((start.value, end.value)))
          case None =>
            var end := if m == 12 then Midnight(y + 1, 1, 1) else Midnight(y, m + 1, 1);
            if end.None? then Err(InvalidYearMonth) else Ok(Some((first.value, end.value)))
  }

  // ---------------------------------------------------------------------------------------------

  /** The calendar date of an instant. */
  function InstantDate(t: int): Date {
    DateOf(t / 86_400_000_000_000)
  }

  /** The fields that are looked at: a day without a month is not. */
  predicate Matches(d: Date, y: int, month: Option<nat>, day: Option<nat>) {
    d.year == y && (month.Some? ==> d.month == month.value && (day.Some? ==> d.day == day.value))
  }

  lemma BetweenDays(t: int, from: int, to: int)
    ensures from * DAY <= t < to * DAY <==> from <= t / DAY < to
  {
  }

  lemma BetweenDates(t: int, from: Date, to: Date)
    requires Valid(from) && Valid(to)
    ensures DayNumber(from) * DAY <= t < DayNumber(to) * DAY
      <==> !Earlier(InstantDate(t), from) && Earlier(InstantDate(t), to)
  {
    BetweenDays(t, DayNumber(from), DayNumber(to));
    NumberOfDateOf(t / DAY);
    NumberOrder(InstantDate(t), from);
    NumberOrder(InstantDate(t), to);
  }

  /** The first and the one-past-last date of a request. */
  function Ends(y: int, month: Option<nat>, day: Option<nat>): (Date, Date) {
    if month.None? then (Date(y, 1, 1), Date(y + 1, 1, 1))
    else if day.None? then
      (Date(y, month.value, 1), if month.value == 12 then Date(y + 1, 1, 1) else Date(y, month.value + 1, 1))
    else (Date(y, month.value, day.value), Succ(Date(y, month.value, day.value)))
  }

  lemma RangeEnds(year: int, month: Option<nat>, day: Option<nat>)
    requires DateRange(true, Some(year), month, day).Ok?
    ensures var (from, to) := Ends(year, month, day);
      && Valid(from) && Valid(to)
      && DateRange(true, Some(year), month, day) == Ok(Some((DayNumber(from) * DAY, DayNumber(to) * DAY)))
  {
    var (from, to) := Ends(year, month, day);
    if month.Some? && day.Some? {
      SuccIsNext(from);
      assert (DayNumber(from) + 1) * DAY == DayNumber(from) * DAY + DAY;
    }
  }

  /** An instant is in the range exactly when its date has the requested year, month and day. */
  lemma RangeExact(hierarchy: bool, year: Option<int>, month: Option<nat>, day: Option<nat>, range: Range, t: int)
    requires DateRange(hierarchy, year, month, day) == Ok(Some(range))
    ensures hierarchy && year.Some?
    ensures range.0 <= t < range.1 <==> Matches(InstantDate(t), year.value, month, day)
  {
    RangeEnds(year.value, month, day);
    var (from, to) := Ends(year.value, month, day);
    BetweenDates(t, from, to);
    if month.Some? && day.Some? {
      var d := InstantDate(t);
      SuccIsNext(from);
      NumberOfDateOf(t / DAY);
      NumberOrder(d, to);
      NumberOrder(d, from);
    }
  }

  /** The date has every field that was given, a day without a month included. */
  predicate HasFields(d: Date, y: int, month: Option<nat>, day: Option<nat>) {
    d.year == y && (month.Some? ==> d.month == month.value) && (day.Some? ==> d.day == day.value)
  }

  /** The range holds the instants whose dates have the given fields, and no others. */
  ghost predicate Selects(range: Range, y: int, month: Option<nat>, day: Option<nat>) {
    forall t :: range.0 <= t < range.1 <==> HasFields(InstantDate(t), y, month, day)
  }

  lemma MidnightDate(d: Date)
    requires Valid(d)
    ensures InstantDate(DayNumber(d) * DAY) == d
  {
    assert DayNumber(d) * DAY / DAY == DayNumber(d);
    DateOfNumber(d);
  }

  /** `?year=Y&day=D`: the range holds instants of other days, the first or the second of January among them. */
  lemma DayAloneIsIgnored(y: int, day: nat, range: Range)
    requires DateRange(true, Some(y), None, Some(day)) == Ok(Some(range))
    ensures var t := DayNumber(Date(y, 1, if day == 1 then 2 else 1)) * DAY;
      range.0 <= t < range.1 && InstantDate(t).day != day
  {
    var d := Date(y, 1, if day == 1 then 2 else 1);
    MidnightDate(d);
    RangeExact(true, Some(y), None, Some(day), range, DayNumber(d) * DAY);
  }

  /** A range is what the given fields ask for, exactly when no day is given without a month. */
  lemma SelectsExactly(y: int, month: Option<nat>, day: Option<nat>, range: Range)
    requires DateRange(true, Some(y), month, day) == Ok(Some(range))
    ensures Selects(range, y, month, day) <==> month.Some? || day.None?
  {
    forall t ensures range.0 <= t < range.1 <==> Matches(InstantDate(t), y, month, day) {
      RangeExact(true, Some(y), month, day, range, t);
    }
    if month.None? && day.Some? {
      DayAloneIsIgnored(y, day.value, range);
    }
  }

  /** Which requests get a range: existing dates whose range ends within the representable years. */
  lemma RangeAccepted(y: int, month: Option<nat>, day: Option<nat>)
    ensures DateRange(true, Some(y), month, day).Ok? <==>
      && -262143 <= y <= 262142
      && (month.Some? ==> 1 <= month.value <= 12)
      && (month.Some? && day.Some? ==> 1 <= day.value <= DaysIn(y, month.value))
      && Ends(y, month, day).1.year <= 262142
    ensures DateRange(true, Some(y), month, day) == Err(Overflow) <==>
      month == Some(12) && day == Some(31) && y == 262142
  {
    if month.Some? && day.Some? && Midnight(y, month.value, day.value).Some? {
      OnlyLastDayOverflows(Date(y, month.value, day.value));
    }
  }

  lemma OnlyLastDayOverflows(d: Date)
    requires Valid(d) && d.year <= MAX_YEAR
    ensures PlusOneDay(DayNumber(d) * DAY).None? <==> d == Date(MAX_YEAR, 12, 31)
  {
    var last := Date(MAX_YEAR, 12, 31);
    NumberOrder(d, last);
    BeforeLastDay(DayNumber(d), DayNumber(last));
  }

  lemma BeforeLastDay(n: int, last: int)
    ensures n * DAY + DAY < (last + 1) * DAY <==> n < last
  {
  }

  predicate Accepted(y: int, month: Option<nat>, day: Option<nat>) {
    DateRange(true, Some(y), month, day).Ok?
  }

  function RangeOf(y: int, month: Option<nat>, day: Option<nat>): Range
    requires Accepted(y, month, day)
  {
    DateRange(true, Some(y), month, day).value.value
  }

  /** Neighbouring months meet, and together they are the year. */
  lemma MonthsTileYear(y: int, m: nat)
    requires MIN_YEAR <= y < MAX_YEAR && 1 <= m <= 12
    ensures Accepted(y, None, None) && Accepted(y, Some(m), None)
    ensures m == 1 ==> RangeOf(y, Some(m), None).0 == RangeOf(y, None, None).0
    ensures m == 12 ==> RangeOf(y, Some(m), None).1 == RangeOf(y, None, None).1
    ensures m < 12 ==> Accepted(y, Some(m + 1), None)
                       && RangeOf(y, Some(m + 1), None).0 == RangeOf(y, Some(m), None).1
  {
    RangeAccepted(y, None, None);
    RangeAccepted(y, Some(m), None);
    RangeEnds(y, None, None);
    RangeEnds(y, Some(m), None);
    if m < 12 {
      RangeAccepted(y, Some(m + 1), None);
      RangeEnds(y, Some(m + 1), None);
    }
  }

  /** Neighbouring days meet, and together they are the month. */
  lemma DaysTileMonth(y: int, m: nat, d: nat)
    requires MIN_YEAR <= y <= MAX_YEAR && 1 <= m <= 12 && 1 <= d <= DaysIn(y, m)
    requires !(y == MAX_YEAR && m == 12)
    ensures Accepted(y, Some(m), None) && Accepted(y, Some(m), Some(d))
    ensures d == 1 ==> RangeOf(y, Some(m), Some(d)).0 == RangeOf(y, Some(m), None).0
    ensures d == DaysIn(y, m) ==> RangeOf(y, Some(m), Some(d)).1 == RangeOf(y, Some(m), None).1
    ensures d < DaysIn(y, m) ==> Accepted(y, Some(m), Some(d + 1))
                                 && RangeOf(y, Some(m), Some(d + 1)).0 == RangeOf(y, Some(m), Some(d)).1
  {
    RangeAccepted(y, Some(m), None);
    RangeAccepted(y, Some(m), Some(d));
    RangeEnds(y, Some(m), None);
    RangeEnds(y, Some(m), Some(d));
    if d < DaysIn(y, m) {
      RangeAccepted(y, Some(m), Some(d + 1));
      RangeEnds(y, Some(m), Some(d + 1));
    }
  }
}
