# Desk reservations and calendar tools, modelled in Dafny

This project models the core of a small set of agent "tools" that keep two
JSON stores and do one piece of date arithmetic:

- **Desk reservations** (`tools/desk_manager.py`). The reservation table maps
  an ISO date to `{"reservations": {desk ID: {is_free, user}}}`; the desk
  directory maps a desk ID to `{location, description, allowed_users}`.
  `reserve_desk` runs a fixed chain of guards (unknown date, unknown desk,
  slot occupied, caller already holds a desk that day, caller outside a
  non-empty allow-list) and only then marks the slot as the caller's;
  `release_desk` frees a slot the caller holds; `get_all_reserved_desks`
  lists the caller's (date, desk) pairs; `retrieve_desk_general_info` looks up
  a desk's record. The invariant proved preserved is that nobody holds two
  desks on one date.
- **Per-user calendar** (`tools/calendar.py`). The store maps a user to a date
  to `{weekday, schedule}`, a schedule being a list of `{time, title}` events.
  `add_event` refuses a time already on the schedule, otherwise appends and
  stable-sorts by time; `delete_event` drops every event whose title matches
  ignoring case; `list_events` filters by exact time or returns the whole day.
  The invariants proved preserved are "sorted by time" and "no two events at
  one time".
- **Weekday to next date** (`convert_weekday_to_date`, present identically in
  both files and modelled once): the next date strictly after today that falls
  on the requested weekday.

Layout, one module per file:

- `options.dfy` — `Options.Option`, a JSON key that may be missing.
- `dates.dfy` — `Dates`: the weekday enumeration and `NextDate`. Dates are
  Python day ordinals (`date.toordinal()`, day 1 = 0001-01-01, a Monday);
  today is a parameter instead of a clock read.
- `time_order.dfy` — `TimeOrder.Le`: Python's `<=` on strings, which orders
  the `"HH:MM"` times, with its order laws.
- `schedule.dfy` — `Schedule`: events, the stable sort by time, the filter by
  time, the removal by title ignoring case.
- `calendar.dfy` — `Calendar`: the calendar document, the class
  `CalendarStore` whose methods are the three calendar tools, the functions
  that specify them, and the lemmas.
- `desk_manager.dfy` — `DeskManager`: the two desk documents, the class
  `DeskStore` whose methods are the reservation tools, the relation and
  functions that specify them, and the lemmas.

Each tool reads the whole file, possibly changes it and writes it back. The
classes hold the file contents in fields (`DeskStore.reservations`,
`DeskStore.directory`, `CalendarStore.calendars`); a refused call leaves the
field as it was, which models the source not calling `save_json` on refusal.
Results are outcome tags (`DateUnavailable`, `NoSuchDesk`,
`AlreadyReserved(holder)`, `UserHasDesk(desk)`, `NotAllowed`, `Reserved`, …)
instead of the message strings. The caller's identity, which the source reads
from `config["configurable"]["user"]`, is a parameter.

JSON truthiness is modelled where the source tests it: a date entry that is
`{}` is `DeskManager.Blank` and is reported as an unavailable date; a slot
without `is_free` is free; an empty user calendar or an empty day entry is
"not found" for `delete_event`; an empty time filter lists the whole day.

## Model

| member | source | states |
|---|---|---|
| `Dates.NextDate` | tools/desk_manager.py:24-54 | The result is 1 to 7 days after today, falls on the requested weekday, no day in between does, and today's own weekday yields exactly today + 7. |
| `Dates.FromIndex` | tools/desk_manager.py:37-45 | Weekday numbering 0 = Monday … 6 = Sunday is a bijection: the weekday built from a number has that number. |
| `Dates.FromIndexOfIndex` | tools/desk_manager.py:37-45 | The other direction: rebuilding a weekday from its number gives it back. |
| `TimeOrder.LeReflexive` | tools/calendar.py:80 | Every time is `<=` itself under Python's string order. |
| `TimeOrder.LeTotal` | tools/calendar.py:80 | Any two times are comparable under the sort key's order. |
| `TimeOrder.LeTransitive` | tools/calendar.py:80 | The sort key's order is transitive. |
| `TimeOrder.LeAntisymmetric` | tools/calendar.py:80 | Two times each `<=` the other are equal. |
| `Schedule.Insert` | tools/calendar.py:78-80 | Inserting an event yields the old events plus the new one. |
| `Schedule.InsertKeepsSorted` | tools/calendar.py:80 | Inserting into a sorted schedule keeps it sorted. |
| `Schedule.SortByTime` | tools/calendar.py:80 | The sort's result is sorted ascending by time and a permutation of its input. |
| `Schedule.SortIsStable` | tools/calendar.py:80 | Events that share a time keep their relative order through the sort. |
| `Schedule.SortKeepsUnique` | tools/calendar.py:76-80 | Sorting a schedule whose times are distinct keeps them distinct. |
| `Schedule.AtTime` | tools/calendar.py:35-38 | The time filter keeps exactly the events whose time equals the filter, and is empty exactly when no event has that time. |
| `Schedule.AtTimeUnique` | tools/calendar.py:35-38 | On a schedule with distinct times, filtering at an event's time gives exactly that event. |
| `Schedule.RemoveTitle` | tools/calendar.py:111-112 | Removal keeps exactly the events whose lower-cased title differs from the argument's, and leaves the length unchanged exactly when no title matches. |
| `Schedule.RemoveTitleKeepsSorted` | tools/calendar.py:111 | Removal keeps a sorted schedule sorted. |
| `Schedule.RemoveTitleKeepsUnique` | tools/calendar.py:111 | Removal keeps the times of a schedule distinct. |
| `Calendar.CalendarStore.AddEvent` | tools/calendar.py:48-82 | The outcome and the new document are those of `AddEventResult` on the old document, and well-formedness (sorted, distinct times) is preserved. |
| `Calendar.CalendarStore.DeleteEvent` | tools/calendar.py:84-116 | The outcome and the new document are those of `DeleteEventResult` on the old document, and well-formedness is preserved. |
| `Calendar.CalendarStore.ListEvents` | tools/calendar.py:10-46 | The result is `Listed`: "no events" when the filtered day is empty, otherwise the day's weekday (default "unknown") and the events at the filter time, or the whole day without a filter. |
| `Calendar.FilterAtTime` | tools/calendar.py:36-38 | The loop collects exactly the events at the filter time, in schedule order. |
| `Calendar.AddEventRefusesDuplicate` | tools/calendar.py:75-77 | An addition is refused exactly when the day already has an event at that time; a refusal writes nothing and an addition always changes the document. |
| `Calendar.AddEventInsertsEvent` | tools/calendar.py:78-80 | After an addition the day's schedule is sorted and holds the old events plus `{time, title}`: one element more. |
| `Calendar.AddEventChangesOneSchedule` | tools/calendar.py:67-75 | An addition creates the user and the date entry (with the date's weekday) when missing and changes no other user's calendar and no other date's entry. |
| `Calendar.AddEventKeepsWellFormed` | tools/calendar.py:76-80 | Additions keep every schedule sorted by time with distinct times. |
| `Calendar.ListAfterAdd` | tools/calendar.py:34-46 | After an addition, listing the day at the new time returns exactly the new event. |
| `Calendar.OnlyNewAtTime` | tools/calendar.py:76-80 | Appending an event at a time the schedule lacks and sorting leaves that event alone at its time. |
| `Calendar.DeleteEventRefusals` | tools/calendar.py:103-113 | A deletion succeeds exactly when the user's calendar and the day's entry are non-empty and some title matches ignoring case; otherwise nothing is written. |
| `Calendar.DeleteEventRemovesMatches` | tools/calendar.py:109-114 | A deletion replaces the day's schedule by the non-matching events in their order, leaves no matching event, and changes nothing else. |
| `Calendar.DeleteEventKeepsWellFormed` | tools/calendar.py:111-114 | Deletions keep every schedule sorted by time with distinct times. |
| `Calendar.DeleteEventTwice` | tools/calendar.py:111-113 | Deleting the same title again reports "not found" and writes nothing. |
| `Calendar.ListedAtOneTime` | tools/calendar.py:34-38 | On a well-formed calendar a time filter lists at most one event, an event of that day at that time. |
| `DeskManager.DeskStore.ReserveDesk` | tools/desk_manager.py:86-131 | The outcome and the new table satisfy `ReserveStep` (the guard chain in the source's order, then the one-slot update), the directory is unchanged, and the one-desk-per-date invariant is preserved. |
| `DeskManager.DeskStore.ReleaseDesk` | tools/desk_manager.py:133-169 | The outcome and the new table are those of `Release`, and the one-desk-per-date invariant is preserved. |
| `DeskManager.DeskStore.GetAllReservedDesks` | tools/desk_manager.py:171-194 | The listing contains exactly the (date, desk) pairs whose slot is occupied by the caller, each once, and is "no reservations" exactly when there are none. |
| `DeskManager.RetrieveDeskGeneralInfo` | tools/desk_manager.py:57-84 | A missing or empty record gives "no information"; otherwise the record of that desk, with its allow-list when present. |
| `DeskManager.ReserveChangesOnlyOnSuccess` | tools/desk_manager.py:102-130 | Every refusal leaves the table unchanged, and a successful reservation always changes it. |
| `DeskManager.ReserveRefusesTakenDesk` | tools/desk_manager.py:111-113 | Reserving a desk somebody holds is refused, naming the holder, without change. |
| `DeskManager.ReserveRefusesSecondDesk` | tools/desk_manager.py:117-119 | A caller who holds any desk on the date cannot reserve another one then. |
| `DeskManager.ReserveEnforcesAllowList` | tools/desk_manager.py:121-126 | A success implies the allow-list admits the caller; "not allowed" is reported exactly when the slot exists and is free, the caller holds nothing that day and a non-empty allow-list lacks the caller. |
| `DeskManager.ReserveChangesOneSlot` | tools/desk_manager.py:128-130 | On success the slot (date, desk) was free and becomes `{is_free: false, user: caller}`; every other slot of every date, and the dates and desks present, are unchanged. |
| `DeskManager.ReserveKeepsOnePerDay` | tools/desk_manager.py:117-130 | Reservations preserve "nobody holds two desks on one date". |
| `DeskManager.ReserveAddsToListing` | tools/desk_manager.py:128-129 | A successful reservation adds exactly (date, desk) to the caller's held pairs, which did not contain it. |
| `DeskManager.ReleaseOnlyByHolder` | tools/desk_manager.py:159-168 | A release succeeds exactly when the caller holds that desk that day; otherwise nothing changes; on success only that slot changes, to `{is_free: true, user: None}`. |
| `DeskManager.ReleaseKeepsOnePerDay` | tools/desk_manager.py:164-168 | Releases preserve "nobody holds two desks on one date". |
| `DeskManager.ReleaseRemovesFromListing` | tools/desk_manager.py:166-167 | A successful release removes exactly (date, desk) from the caller's held pairs. |
| `DeskManager.ReserveThenRelease` | tools/desk_manager.py:166-167 | Releasing right after one's own reservation succeeds and leaves the slot free with the rest of the table as before; a slot stored as `{is_free: true, user: None}` gives back the original table. |
| `DeskManager.ListingOneDeskPerDate` | tools/desk_manager.py:187-191 | Under the invariant, the caller's held pairs name at most one desk per date. |
| `DeskManager.GeneralInfoShowsAllowList` | tools/desk_manager.py:75-82 | The allow-list the info lookup shows admits the caller exactly when the reservation guard does. |

## Left out

- Reading and writing the JSON files (`load_json`, `save_json` in tools/utils.py): a class field stands for each file, and refused calls leave it unchanged as the source does not write the file then. A missing or unreadable file, which the source lets raise, is not modelled.
- Wall-clock reads (`get_current_date` in both tool files and in tools/utils.py): `NextDate` takes today as a parameter.
- Date formatting and parsing (`strftime`, `strptime`): `Dates` works on day ordinals, and the calendar's and reservation table's date keys are opaque strings. `add_event` derives a new entry's weekday by parsing the date; the model takes that weekday as a parameter, and the exception a malformed date raises is not modelled.
- `Dates.NextDate`: the overflow Python raises past year 9999 is not modelled (ordinals are unbounded).
- `prebuilt_get_current_datetime` (tools/date_and_time.py): time-zone lookup and the clock, both outside the model.
- `utils/stream.py`: console printing only.
- The input schemas of tools/models.py: desk IDs are any string rather than the twenty values `A0`…`B9`; the weekday names are the `Weekday` datatype.
- Calendar.CalendarStore.ListEvents: the output schema's validation of the returned weekday is not modelled; a day entry without a weekday would make the source's default "unknown" fail that validation.
- The message texts: outcomes are tags.
- Schedule.Lower: folds only ASCII letters, where Python's `str.lower` folds all of Unicode.
- Schedule.SortByTime: specifies Python's stable sort by a stable insertion sort; Timsort's steps are not modelled.
- DeskManager.DeskStore.GetAllReservedDesks: states which pairs are listed, not their order, because the model's maps have no insertion order.
- DeskManager.ReserveStep: when the caller holds several desks on the date (only possible in a table that already breaks the invariant), any of them may be named, where the source names the first in the file's order.
- JSON values of unexpected types: a `null` date entry is treated like `{}` (the source's `get_all_reserved_desks` would raise on it), a `null` `is_free` as false, a `null` `allowed_users` as missing (so `DeskManager.RetrieveDeskGeneralInfo` shows an empty list where the source's `', '.join` would raise, and `DeskManager.ReserveStep` admits everyone, as the source does), and keys other than the modelled ones are ignored.
- Concurrent access to the files: the source does nothing about it.
