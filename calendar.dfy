/**
 * The week window of the agenda request (`get_week_date` in src/api.rs).
 * A date is a day number; day 0 is a Monday, so the weekday of a day is its
 * remainder modulo 7 (Dafny's `%` is Euclidean, so this holds for negative
 * days too). The current time is an input instead of a clock reading.
 */
module Calendar {

  datatype Weekday = Mon | Tue | Wed | Thu | Fri | Sat | Sun {

    /** chrono's `num_days_from_monday`. */
    function NumDaysFromMonday(): (n: nat)
      ensures n < 7
    {
      match this
      case Mon => 0
      case Tue => 1
      case Wed => 2
      case Thu => 3
      case Fri => 4
      case Sat => 5
      case Sun => 6
    }

    /** chrono's `succ`: the following weekday, Sunday wrapping to Monday. */
    function Succ(): (w: Weekday)
      ensures w.NumDaysFromMonday() == (NumDaysFromMonday() + 1) % 7
    {
      match this
      case Mon => Tue
      case Tue => Wed
      case Wed => Thu
      case Thu => Fri
      case Fri => Sat
      case Sat => Sun
      case Sun => Mon
    }
  }

  function FromIndex(i: nat): (w: Weekday)
    requires i < 7
    ensures w.NumDaysFromMonday() == i
  {
    [Mon, Tue, Wed, Thu, Fri, Sat, Sun][i]
  }

  /** The weekday of a day number. */
  function WeekdayOf(day: int): (w: Weekday)
    ensures w.NumDaysFromMonday() == day % 7
  {
    FromIndex(day % 7)
  }

  predicate IsWeekend(day: int)
  {
    WeekdayOf(day) == Sat || WeekdayOf(day) == Sun
  }

  /** The Monday of the week a day belongs to. */
  function MondayOf(day: int): int
  {
    day - day % 7
  }

  /**
   * The agenda window: a weekend day first rolls forward to the next Monday,
   * then the window runs to the Friday of that week.
   */
  function WeekWindow(today: int): (w: (int, int))
    ensures WeekdayOf(today) == Sat ==> w.0 == today + 2
    ensures WeekdayOf(today) == Sun ==> w.0 == today + 1
    ensures !IsWeekend(today) ==> w.0 == today
    ensures !IsWeekend(w.0) && WeekdayOf(w.1) == Fri
    ensures w.0 <= w.1 <= w.0 + 4 && MondayOf(w.0) == MondayOf(w.1)
  {
    var d := today % 7;
    var start := if d == 5 then today + 2 else if d == 6 then today + 1 else today;
    (start, start + 4 - start % 7)
  }

  /**
   * The window is the first working week stretch from today: every day skipped
   * before the start is a weekend day, every day of the window is a working day,
   * and the day after the end is a Saturday.
   */
  lemma WeekWindowIsWorkingStretch(today: int)
    ensures var (start, end) := WeekWindow(today);
      && today <= start
      && (forall d :: today <= d < start ==> IsWeekend(d))
      && (forall d :: start <= d <= end ==> !IsWeekend(d))
      && WeekdayOf(end + 1) == Sat
  {
    var (start, end) := WeekWindow(today);
    forall d | today <= d < start ensures IsWeekend(d) {
      assert d == today || d == today + 1;
    }
    forall d | start <= d <= end ensures !IsWeekend(d) {
      assert d % 7 == start % 7 + (d - start);
    }
  }

  /**
   * The source's computation: the weekday is rolled alongside the time with
   * `succ`, and `4 - num_days_from_monday` is an unsigned subtraction, which
   * cannot underflow because the rolled day is never a Saturday or Sunday.
   */
  method GetWeekDate(now: int) returns (currentDay: int, friday: int)
    ensures (currentDay, friday) == WeekWindow(now)
  {
    var currentTime := now;
    var temp := WeekdayOf(currentTime);
    var rolledDay: Weekday;
    match temp {
      case Sun =>
        currentTime := currentTime + 1;
        rolledDay := temp.Succ();
      case Sat =>
        currentTime := currentTime + 2;
        rolledDay := temp.Succ().Succ();
      case _ =>
        rolledDay := temp;
    }
    var daysToFriday: nat := 4 - rolledDay.NumDaysFromMonday();
    currentDay := currentTime;
    friday := currentTime + daysToFriday;
  }
}
