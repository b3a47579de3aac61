/**
 * The per-user calendar (`tools/calendar.py`): a JSON document mapping a user
 * to a map from ISO date to `{weekday, schedule}`. `CalendarStore` holds the
 * document; each tool call reads it, possibly updates it and writes it back.
 * Each operation is specified by a function of the document before the call,
 * and the lemmas state what the operations promise about that function.
 */
module Calendar {
  import opened Options
  import opened Schedule
  import Dates

  type User = string
  type Date = string

  /** A date's entry `{weekday, schedule}`; either key may be missing from the file. */
  datatype DayEntry = DayEntry(weekday: Option<string>, schedule: Option<seq<Event>>) {

    /** The entry is `{}`, which Python treats as false. */
    predicate IsEmpty() {
      weekday.None? && schedule.None?
    }

    /** `entry.get("schedule", [])` */
    function Events(): seq<Event> {
      schedule.GetOr([])
    }
  }

  /** The whole calendar document: user, then date, then the day's entry. */
  type Calendars = map<User, map<Date, DayEntry>>

  /** Every stored schedule is sorted by time and has no two events at one time. */
  predicate WellFormed(cals: Calendars) {
    forall user, date :: user in cals && date in cals[user] ==>
      SortedByTime(cals[user][date].Events()) && UniqueTimes(cals[user][date].Events())
  }

  datatype AddOutcome = Added | DuplicateTime

  datatype DeleteOutcome = NoCalendar | NoEntryForDate | TitleNotFound | Removed

  /** What `list_events` returns: a "no events" message, or the weekday and the events. */
  datatype Listing = NoEvents | Found(weekday: string, schedule: seq<Event>)

  /** `cals.get(user, {}).get(date, {})` */
  function LookupEntry(cals: Calendars, user: User, date: Date): DayEntry {
    if user in cals && date in cals[user] then cals[user][date] else DayEntry(None, None)
  }

  /**
   * The entry `add_event` works on: the stored one, or a fresh one whose
   * weekday is the date's and whose schedule is empty.
   */
  function EntryForAdd(cals: Calendars, user: User, date: Date, weekday: Dates.Weekday): DayEntry {
    if user in cals && date in cals[user] then cals[user][date]
    else DayEntry(Some(weekday.Name()), Some([]))
  }

  /** `add_event`: the outcome and the document written back (the old one when refused). */
  function AddEventResult(cals: Calendars, user: User, date: Date, time: Time, title: string,
                          weekday: Dates.Weekday): (AddOutcome, Calendars)
  {
    var userCal := if user in cals then cals[user] else map[];
    var entry := EntryForAdd(cals, user, date, weekday);
    var schedule := entry.Events();
    if HasTime(schedule, time) then (DuplicateTime, cals)
    else
      var updated := SortByTime(schedule + [Event(time, title)]);
      (Added, cals[user := userCal[date := entry.(schedule := Some(updated))]])
  }

  /** `delete_event`: the outcome and the document written back (the old one when refused). */
  function DeleteEventResult(cals: Calendars, user: User, date: Date, title: string): (DeleteOutcome, Calendars) {
    if user !in cals || cals[user] == map[] then (NoCalendar, cals)
    else if date !in cals[user] || cals[user][date].IsEmpty() then (NoEntryForDate, cals)
    else
      var entry := cals[user][date];
      var kept := RemoveTitle(entry.Events(), title);
      if |kept| == |entry.Events()| then (TitleNotFound, cals)
      else (Removed, cals[user := cals[user][date := entry.(schedule := Some(kept))]])
  }

  /** `list_events`: a time filter that is absent or empty lists the whole day. */
  function Listed(cals: Calendars, user: User, date: Date, time: Option<Time>): Listing {
    var entry := LookupEntry(cals, user, date);
    var found :=
      if entry.IsEmpty() then []
      else if time.Some? && time.value != "" then AtTime(entry.Events(), time.value)
      else entry.Events();
    if found == [] then NoEvents else Found(entry.weekday.GetOr("unknown"), found)
  }

  class CalendarStore {
    /** The contents of the calendar file. */
    var calendars: Calendars

    constructor (calendars: Calendars)
      ensures this.calendars == calendars
    {
      this.calendars := calendars;
    }

    /** `add_event` for the calling user; `weekday` is the weekday of `date`. */
    method AddEvent(user: User, date: Date, time: Time, title: string, weekday: Dates.Weekday)
      returns (r: AddOutcome)
      modifies this
      ensures (r, calendars) == AddEventResult(old(calendars), user, date, time, title, weekday)
      ensures WellFormed(old(calendars)) ==> WellFormed(calendars)
    {
      if WellFormed(calendars) {
        AddEventKeepsWellFormed(calendars, user, date, time, title, weekday);
      }
      var userCal := if user in calendars then calendars[user] else map[];
      var entry := if date in userCal then userCal[date] else DayEntry(Some(weekday.Name()), Some([]));
      var schedule := entry.Events();
      if HasTime(schedule, time) {
        return DuplicateTime;
      }
      schedule := schedule + [Event(time, title)];
      schedule := SortByTime(schedule);
      calendars := calendars[user := userCal[date := entry.(schedule := Some(schedule))]];
      r := Added;
    }

    /** `delete_event` for the calling user. */
    method DeleteEvent(user: User, date: Date, title: string) returns (r: DeleteOutcome)
      modifies this
      ensures (r, calendars) == DeleteEventResult(old(calendars), user, date, title)
      ensures WellFormed(old(calendars)) ==> WellFormed(calendars)
    {
      if WellFormed(calendars) {
        DeleteEventKeepsWellFormed(calendars, user, date, title);
      }
      if user !in calendars || calendars[user] == map[] {
        return NoCalendar;
      }
      var userCal := calendars[user];
      if date !in userCal || userCal[date].IsEmpty() {
        return NoEntryForDate;
      }
      var entry := userCal[date];
      var originalLength := |entry.Events()|;
      var schedule := RemoveTitle(entry.Events(), title);
      if |schedule| == originalLength {
        return TitleNotFound;
      }
      calendars := calendars[user := userCal[date := entry.(schedule := Some(schedule))]];
      r := Removed;
    }

    /** `list_events` for the calling user. */
    method ListEvents(user: User, date: Date, time: Option<Time>) returns (r: Listing)
      ensures r == Listed(calendars, user, date, time)
    {
      var userCal := if user in calendars then calendars[user] else map[];
      var entry := if date in userCal then userCal[date] else DayEntry(None, None);
      var found: seq<Event> := [];
      if !entry.IsEmpty() {
        if time.Some? && time.value != "" {
          found := FilterAtTime(entry.Events(), time.value);
        } else {
          found := entry.Events();
        }
      }
      if found == [] {
        return NoEvents;
      }
      r := Found(entry.weekday.GetOr("unknown"), found);
    }
  }

  /** The loop of `list_events` that collects the events at exactly `time`. */
  method FilterAtTime(schedule: seq<Event>, time: Time) returns (found: seq<Event>)
    ensures found == AtTime(schedule, time)
  {
    found := [];
    var i := 0;
    while i < |schedule|
      invariant 0 <= i <= |schedule|
      invariant found == AtTime(schedule[..i], time)
    {
      assert schedule[..i + 1] == schedule[..i] + [schedule[i]];
      AtTimeAppend(schedule[..i], schedule[i], time);
      if schedule[i].time == time {
        found := found + [schedule[i]];
      }
      i := i + 1;
    }
    assert schedule[..i] == schedule;
  }

  // ---------------------------------------------------------------------------
  // add_event

  /** A time already on the day's schedule is refused and nothing is written; any other time is added. */
  lemma AddEventRefusesDuplicate(cals: Calendars, user: User, date: Date, time: Time, title: string,
                                 weekday: Dates.Weekday)
    ensures var (r, cals') := AddEventResult(cals, user, date, time, title, weekday);
      && (r == DuplicateTime <==> HasTime(LookupEntry(cals, user, date).Events(), time))
      && (r == DuplicateTime ==> cals' == cals)
      && (r == Added ==> cals' != cals)
  {
    var (r, cals') := AddEventResult(cals, user, date, time, title, weekday);
    if r == Added {
      var updated := cals'[user][date].Events();
      assert Event(time, title) in multiset(updated);
      assert HasTime(updated, time);
    }
  }

  /** After an addition the day's schedule holds the old events and the new one, sorted by time. */
  lemma AddEventInsertsEvent(cals: Calendars, user: User, date: Date, time: Time, title: string,
                             weekday: Dates.Weekday)
    requires AddEventResult(cals, user, date, time, title, weekday).0 == Added
    ensures var cals' := AddEventResult(cals, user, date, time, title, weekday).1;
      var before := LookupEntry(cals, user, date).Events();
      var after := cals'[user][date].Events();
      && user in cals' && date in cals'[user]
      && SortedByTime(after)
      && multiset(after) == multiset(before) + multiset{Event(time, title)}
      && |after| == |before| + 1
  {
    var cals': Calendars := AddEventResult(cals, user, date, time, title, weekday).1;
    var before := LookupEntry(cals, user, date).Events();
    var after := cals'[user][date].Events();
    assert |after| == |multiset(after)|;
  }

  /**
   * An addition creates the user's calendar and the date's entry (with the
   * date's weekday and an empty schedule) when missing, and changes no other
   * user's calendar and no other date's entry.
   */
  lemma AddEventChangesOneSchedule(cals: Calendars, user: User, date: Date, time: Time, title: string,
                                   weekday: Dates.Weekday)
    requires AddEventResult(cals, user, date, time, title, weekday).0 == Added
    ensures var cals' := AddEventResult(cals, user, date, time, title, weekday).1;
      && cals'.Keys == cals.Keys + {user}
      && (forall u :: u in cals && u != user ==> cals'[u] == cals[u])
      && cals'[user].Keys == (if user in cals then cals[user].Keys else {}) + {date}
      && (forall d :: user in cals && d in cals[user] && d != date ==> cals'[user][d] == cals[user][d])
      && (user !in cals || date !in cals[user] ==> cals'[user][date].weekday == Some(weekday.Name()))
      && (user in cals && date in cals[user] ==> cals'[user][date].weekday == cals[user][date].weekday)
  {
  }

  /** Additions keep every schedule sorted with distinct times. */
  lemma AddEventKeepsWellFormed(cals: Calendars, user: User, date: Date, time: Time, title: string,
                                weekday: Dates.Weekday)
    requires WellFormed(cals)
    ensures WellFormed(AddEventResult(cals, user, date, time, title, weekday).1)
  {
    var (r, cals') := AddEventResult(cals, user, date, time, title, weekday);
    if r == Added {
      var before := EntryForAdd(cals, user, date, weekday).Events();
      var e := Event(time, title);
      assert UniqueTimes(before + [e]) by {
        assert UniqueTimes(before);
        forall i | 0 <= i < |before| ensures before[i].time != time {
          assert before[i] in before;
        }
      }
      SortKeepsUnique(before + [e]);
    }
  }

  /** Once added, the event is what listing the day at its time shows. */
  lemma ListAfterAdd(cals: Calendars, user: User, date: Date, time: Time, title: string,
                     weekday: Dates.Weekday)
    requires time != ""
    requires AddEventResult(cals, user, date, time, title, weekday).0 == Added
    ensures var cals' := AddEventResult(cals, user, date, time, title, weekday).1;
      Listed(cals', user, date, Some(time)) == Found(EntryForAdd(cals, user, date, weekday).weekday.GetOr("unknown"), [Event(time, title)])
  {
    var entry := EntryForAdd(cals, user, date, weekday);
    var updated := SortByTime(entry.Events() + [Event(time, title)]);
    AddedEntry(cals, user, date, time, title, weekday);
    OnlyNewAtTime(entry.Events(), Event(time, title));
    assert !entry.(schedule := Some(updated)).IsEmpty();
  }

  /** After an addition, the date's entry is the one added to, holding the sorted schedule. */
  lemma AddedEntry(cals: Calendars, user: User, date: Date, time: Time, title: string,
                   weekday: Dates.Weekday)
    requires AddEventResult(cals, user, date, time, title, weekday).0 == Added
    ensures var entry := EntryForAdd(cals, user, date, weekday);
      && !HasTime(entry.Events(), time)
      && LookupEntry(AddEventResult(cals, user, date, time, title, weekday).1, user, date)
         == entry.(schedule := Some(SortByTime(entry.Events() + [Event(time, title)])))
  {
  }

  /** Sorting in an event at a time the schedule lacks leaves it alone at that time. */
  lemma OnlyNewAtTime(before: seq<Event>, e: Event)
    requires !HasTime(before, e.time)
    ensures AtTime(SortByTime(before + [e]), e.time) == [e]
  {
    AtTimeAppend(before, e, e.time);
    AtTimeAbsent(before, e.time);
    SortIsStable(before + [e], e.time);
  }

  // ---------------------------------------------------------------------------
  // delete_event

  /**
   * A deletion succeeds exactly when the user's calendar and the date's entry
   * are non-empty and some event's title matches ignoring case; otherwise
   * nothing is written.
   */
  lemma DeleteEventRefusals(cals: Calendars, user: User, date: Date, title: string)
    ensures var (r, cals') := DeleteEventResult(cals, user, date, title);
      && (r != Removed ==> cals' == cals)
      && (r == Removed <==>
            user in cals && cals[user] != map[] && date in cals[user] && !cals[user][date].IsEmpty()
            && exists e :: e in cals[user][date].Events() && TitleMatches(e, title))
  {
  }

  /**
   * A deletion removes every event of the day whose title matches, keeps the
   * others in their order, and changes nothing else.
   */
  lemma DeleteEventRemovesMatches(cals: Calendars, user: User, date: Date, title: string)
    requires DeleteEventResult(cals, user, date, title).0 == Removed
    ensures var cals' := DeleteEventResult(cals, user, date, title).1;
      && cals'.Keys == cals.Keys && cals'[user].Keys == cals[user].Keys
      && cals'[user][date].Events() == RemoveTitle(cals[user][date].Events(), title)
      && (forall e :: e in cals'[user][date].Events() ==> !TitleMatches(e, title))
      && cals'[user][date].weekday == cals[user][date].weekday
      && (forall u :: u in cals && u != user ==> cals'[u] == cals[u])
      && (forall d :: d in cals[user] && d != date ==> cals'[user][d] == cals[user][d])
  {
  }

  /** Deletions keep every schedule sorted with distinct times. */
  lemma DeleteEventKeepsWellFormed(cals: Calendars, user: User, date: Date, title: string)
    requires WellFormed(cals)
    ensures WellFormed(DeleteEventResult(cals, user, date, title).1)
  {
    var (r, cals') := DeleteEventResult(cals, user, date, title);
    if r == Removed {
      var before := cals[user][date].Events();
      RemoveTitleKeepsSorted(before, title);
      RemoveTitleKeepsUnique(before, title);
    }
  }

  /** Deleting the same title a second time finds nothing and writes nothing. */
  lemma DeleteEventTwice(cals: Calendars, user: User, date: Date, title: string)
    requires DeleteEventResult(cals, user, date, title).0 == Removed
    ensures var cals' := DeleteEventResult(cals, user, date, title).1;
      DeleteEventResult(cals', user, date, title) == (TitleNotFound, cals')
  {
    var cals': Calendars := DeleteEventResult(cals, user, date, title).1;
    assert cals'[user][date].weekday == cals[user][date].weekday;
    var kept := cals'[user][date].Events();
    assert RemoveTitle(kept, title) == kept by {
      RemoveTitleNoMatch(kept, title);
    }
  }

  /** Removing a title nobody matches changes nothing. */
  lemma {:induction false} RemoveTitleNoMatch(s: seq<Event>, title: string)
    requires forall e :: e in s ==> !TitleMatches(e, title)
    ensures RemoveTitle(s, title) == s
  {
    if s != [] {
      RemoveTitleNoMatch(s[1..], title);
      assert s == [s[0]] + s[1..];
    }
  }

  // ---------------------------------------------------------------------------
  // list_events

  /** On a well-formed calendar, listing at one time shows at most one event. */
  lemma ListedAtOneTime(cals: Calendars, user: User, date: Date, time: Time)
    requires WellFormed(cals) && time != ""
    ensures Listed(cals, user, date, Some(time)).Found? ==>
      |Listed(cals, user, date, Some(time)).schedule| == 1
      && Listed(cals, user, date, Some(time)).schedule[0] in LookupEntry(cals, user, date).Events()
      && Listed(cals, user, date, Some(time)).schedule[0].time == time
  {
    var l := Listed(cals, user, date, Some(time));
    if l.Found? {
      var s := LookupEntry(cals, user, date).Events();
      assert l.schedule[0] in l.schedule;
      AtTimeUnique(s, l.schedule[0]);
    }
  }
}
