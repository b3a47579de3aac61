/**
 * Weekday names and the "next date on a given weekday" computation of
 * `convert_weekday_to_date`. A calendar date is Python's proleptic Gregorian
 * ordinal (`date.toordinal()`: 0001-01-01 is day 1, and it is a Monday); the
 * clock read that supplies today is a parameter, and ISO formatting is left out.
 */
module Dates {

  /** The accepted weekday names (`PossibleWeekdays`). */
  datatype Weekday = Monday | Tuesday | Wednesday | Thursday | Friday | Saturday | Sunday {

    /** Python's numbering, as in `date.weekday()` and the `weekdays` table: Monday is 0. */
    function Index(): (i: nat)
      ensures i < 7
    {
      match this
      case Monday => 0
      case Tuesday => 1
      case Wednesday => 2
      case Thursday => 3
      case Friday => 4
      case Saturday => 5
      case Sunday => 6
    }

    /** The lower-case English name, as `strftime("%A").lower()` writes it. */
    function Name(): string {
      match this
      case Monday => "monday"
      case Tuesday => "tuesday"
      case Wednesday => "wednesday"
      case Thursday => "thursday"
      case Friday => "friday"
      case Saturday => "saturday"
      case Sunday => "sunday"
    }
  }

  /** The weekday with Python's number `i`; the inverse of `Index`. */
  function FromIndex(i: nat): (w: Weekday)
    requires i < 7
    ensures w.Index() == i
  {
    if i == 0 then Monday
    else if i == 1 then Tuesday
    else if i == 2 then Wednesday
    else if i == 3 then Thursday
    else if i == 4 then Friday
    else if i == 5 then Saturday
    else Sunday
  }

  /** Numbering a weekday and rebuilding it from the number gives it back. */
  lemma FromIndexOfIndex(w: Weekday)
    ensures FromIndex(w.Index()) == w
  {
  }

  /** A date as Python's day ordinal. */
  type Ordinal = n: int | 1 <= n witness 1

  /** The weekday of a date: day 1 is a Monday and the week has seven days. */
  function DayOfWeek(day: Ordinal): Weekday {
    FromIndex((day - 1) % 7)
  }

  /**
   * The next date strictly after `today` that falls on `target`: today's own
   * weekday rolls over to the same weekday of next week.
   */
  function NextDate(today: Ordinal, target: Weekday): (d: Ordinal)
    ensures 1 <= d - today <= 7
    ensures DayOfWeek(d) == target
    ensures DayOfWeek(today) == target ==> d == today + 7
    ensures forall k: Ordinal :: today < k < d ==> DayOfWeek(k) != target
  {
    var daysAhead := target.Index() - DayOfWeek(today).Index();
    today + (if daysAhead <= 0 then daysAhead + 7 else daysAhead)
  }
}
