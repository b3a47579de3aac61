/**
 * One day's schedule of the calendar: an ordered list of `{time, title}`
 * events, and the list operations the calendar tools apply to it (the stable
 * sort by time, the filter by exact time, the removal by title ignoring case).
 */
module Schedule {
  import opened TimeOrder

  type Time = string

  datatype Event = Event(time: Time, title: string)

  /** Ascending by time string, as `schedule.sort(key=lambda e: e["time"])` leaves it. */
  predicate SortedByTime(s: seq<Event>) {
    forall i, j :: 0 <= i < j < |s| ==> Le(s[i].time, s[j].time)
  }

  /** No two events of the schedule share a time. */
  predicate UniqueTimes(s: seq<Event>) {
    forall i, j :: 0 <= i < j < |s| ==> s[i].time != s[j].time
  }

  /** Some event of the schedule is at `time` (the duplicate test of `add_event`). */
  predicate HasTime(s: seq<Event>, time: Time) {
    exists e :: e in s && e.time == time
  }

  // ---------------------------------------------------------------------------
  // Sorting. Python's `list.sort` is a stable sort; it is specified here by a
  // stable insertion sort.

  /** Puts `x` before the first event whose time is not smaller than its own. */
  function Insert(x: Event, s: seq<Event>): (r: seq<Event>)
    ensures multiset(r) == multiset(s) + multiset{x}
  {
    if s == [] || Le(x.time, s[0].time) then [x] + s
    else
      assert s == [s[0]] + s[1..];
      [s[0]] + Insert(x, s[1..])
  }

  /** Inserting into a sorted schedule leaves it sorted. */
  lemma {:induction false} InsertKeepsSorted(x: Event, s: seq<Event>)
    requires SortedByTime(s)
    ensures SortedByTime(Insert(x, s))
  {
    if s == [] || Le(x.time, s[0].time) {
      BelowSorted(x, s);
      SortedCons(x, s);
    } else {
      var rest := Insert(x, s[1..]);
      assert SortedByTime(s[1..]);
      InsertKeepsSorted(x, s[1..]);
      HeadBelowInserted(x, s, rest);
      SortedCons(s[0], rest);
    }
  }

  /** An event no later than every event of a sorted schedule can go in front of it. */
  lemma SortedCons(h: Event, s: seq<Event>)
    requires SortedByTime(s)
    requires forall e :: e in s ==> Le(h.time, e.time)
    ensures SortedByTime([h] + s)
  {
    forall i, j | 0 <= i < j < |[h] + s| ensures Le(([h] + s)[i].time, ([h] + s)[j].time) {
      assert ([h] + s)[j] == s[j - 1];
      if i > 0 {
        assert ([h] + s)[i] == s[i - 1];
      } else {
        assert s[j - 1] in s;
      }
    }
  }

  /** An event no later than the head of a sorted schedule is no later than any of its events. */
  lemma BelowSorted(x: Event, s: seq<Event>)
    requires SortedByTime(s)
    requires s == [] || Le(x.time, s[0].time)
    ensures forall e :: e in s ==> Le(x.time, e.time)
  {
    forall e | e in s ensures Le(x.time, e.time) {
      var k :| 0 <= k < |s| && s[k] == e;
      if k > 0 {
        LeTransitive(x.time, s[0].time, e.time);
      }
    }
  }

  /** When `x` goes after the head, the head is no later than anything in the rest after insertion. */
  lemma HeadBelowInserted(x: Event, s: seq<Event>, rest: seq<Event>)
    requires SortedByTime(s) && s != [] && !Le(x.time, s[0].time)
    requires multiset(rest) == multiset(s[1..]) + multiset{x}
    ensures forall e :: e in rest ==> Le(s[0].time, e.time)
  {
    LeTotal(x.time, s[0].time);
    forall e | e in rest ensures Le(s[0].time, e.time) {
      assert e in multiset(rest);
      if e != x {
        assert e in multiset(s[1..]);
        var k :| 0 <= k < |s[1..]| && s[1..][k] == e;
        assert s[k + 1] == e;
      }
    }
  }

  /** The schedule sorted by time, events with equal times kept in their order. */
  function SortByTime(s: seq<Event>): (r: seq<Event>)
    ensures SortedByTime(r)
    ensures multiset(r) == multiset(s)
  {
    if s == [] then []
    else
      assert s == [s[0]] + s[1..];
      var rest := SortByTime(s[1..]);
      InsertKeepsSorted(s[0], rest);
      Insert(s[0], rest)
  }

  // ---------------------------------------------------------------------------
  // Filtering by exact time (`list_events` with a time filter).

  /** The events whose time is exactly `time`, in schedule order. */
  function AtTime(s: seq<Event>, time: Time): (r: seq<Event>)
    ensures forall e :: e in r <==> e in s && e.time == time
    ensures |r| <= |s|
  {
    if s == [] then []
    else (if s[0].time == time then [s[0]] else []) + AtTime(s[1..], time)
  }

  /** Filtering a schedule extended by one event extends the filter's result by that event or by nothing. */
  lemma {:induction false} AtTimeAppend(s: seq<Event>, e: Event, time: Time)
    ensures AtTime(s + [e], time) == AtTime(s, time) + (if e.time == time then [e] else [])
  {
    if s == [] {
      assert s + [e] == [e];
    } else {
      var head := if s[0].time == time then [s[0]] else [];
      assert (s + [e])[0] == s[0];
      assert (s + [e])[1..] == s[1..] + [e];
      assert AtTime(s + [e], time) == head + AtTime(s[1..] + [e], time);
      AtTimeAppend(s[1..], e, time);
      assert AtTime(s, time) == head + AtTime(s[1..], time);
    }
  }

  /** A time no event has gives an empty filter result. */
  lemma {:induction false} AtTimeAbsent(s: seq<Event>, time: Time)
    requires !HasTime(s, time)
    ensures AtTime(s, time) == []
  {
    if s != [] {
      assert s[0] in s;
      assert !HasTime(s[1..], time) by {
        forall x | x in s[1..] ensures x.time != time {
          assert x in s;
        }
      }
      AtTimeAbsent(s[1..], time);
    }
  }

  /** With distinct times, the events at a time are the one event there, if any. */
  lemma {:induction false} AtTimeUnique(s: seq<Event>, e: Event)
    requires UniqueTimes(s) && e in s
    ensures AtTime(s, e.time) == [e]
  {
    if s[0] == e {
      assert forall x :: x in s[1..] ==> x.time != e.time by {
        forall x | x in s[1..] ensures x.time != e.time {
          var k :| 0 <= k < |s[1..]| && s[1..][k] == x;
          assert s[k + 1] == x;
        }
      }
      AtTimeAbsent(s[1..], e.time);
    } else {
      assert s[0].time != e.time by {
        var k :| 0 <= k < |s| && s[k] == e;
      }
      AtTimeUnique(s[1..], e);
    }
  }

  /** Sorting does not reorder the events that share a time: `list.sort` is stable. */
  lemma {:induction false} SortIsStable(s: seq<Event>, time: Time)
    ensures AtTime(SortByTime(s), time) == AtTime(s, time)
  {
    if s != [] {
      SortIsStable(s[1..], time);
      InsertAtTime(s[0], SortByTime(s[1..]), time);
    }
  }

  /** Insertion puts the new event in front of the events that share its time. */
  lemma {:induction false} InsertAtTime(x: Event, s: seq<Event>, time: Time)
    ensures AtTime(Insert(x, s), time) == (if x.time == time then [x] else []) + AtTime(s, time)
  {
    if s != [] && !Le(x.time, s[0].time) {
      InsertAtTime(x, s[1..], time);
      if s[0].time == time && x.time == time {
        LeReflexive(time);
      }
    }
  }

  // ---------------------------------------------------------------------------
  // Removal by title, ignoring case (`delete_event`).

  /** ASCII lower-casing of one character; other characters are left as they are. */
  function LowerChar(c: char): char {
    if 'A' <= c <= 'Z' then (c as int + 32) as char else c
  }

  /** `str.lower()`, restricted to ASCII letters. */
  function Lower(s: string): (r: string)
    ensures |r| == |s|
  {
    seq(|s|, i requires 0 <= i < |s| => LowerChar(s[i]))
  }

  /** The title of `e` matches `title` ignoring case. */
  predicate TitleMatches(e: Event, title: string) {
    Lower(e.title) == Lower(title)
  }

  /** The schedule without every event whose title matches `title`, the others kept in order. */
  function RemoveTitle(s: seq<Event>, title: string): (r: seq<Event>)
    ensures forall e :: e in r <==> e in s && !TitleMatches(e, title)
    ensures |r| <= |s|
    ensures |r| == |s| <==> forall e :: e in s ==> !TitleMatches(e, title)
  {
    if s == [] then []
    else
      var rest := RemoveTitle(s[1..], title);
      assert forall e :: e in s <==> e == s[0] || e in s[1..] by {
        assert s == [s[0]] + s[1..];
      }
      if TitleMatches(s[0], title) then rest else [s[0]] + rest
  }

  /** Removing events keeps the rest in order, so a sorted schedule stays sorted. */
  lemma {:induction false} RemoveTitleKeepsSorted(s: seq<Event>, title: string)
    requires SortedByTime(s)
    ensures SortedByTime(RemoveTitle(s, title))
  {
    if s != [] {
      assert SortedByTime(s[1..]);
      RemoveTitleKeepsSorted(s[1..], title);
      var rest := RemoveTitle(s[1..], title);
      forall e | e in rest ensures Le(s[0].time, e.time) {
        var k :| 0 <= k < |s[1..]| && s[1..][k] == e;
        assert s[k + 1] == e;
      }
    }
  }

  /** Removing events cannot make two times equal. */
  lemma {:induction false} RemoveTitleKeepsUnique(s: seq<Event>, title: string)
    requires UniqueTimes(s)
    ensures UniqueTimes(RemoveTitle(s, title))
  {
    if s != [] {
      assert UniqueTimes(s[1..]);
      RemoveTitleKeepsUnique(s[1..], title);
      var rest := RemoveTitle(s[1..], title);
      forall e | e in rest ensures s[0].time != e.time {
        var k :| 0 <= k < |s[1..]| && s[1..][k] == e;
        assert s[k + 1] == e;
      }
    }
  }

  /** Inserting an event at a time the schedule does not have keeps the times distinct. */
  lemma {:induction false} InsertKeepsUnique(x: Event, s: seq<Event>)
    requires UniqueTimes(s) && !HasTime(s, x.time)
    ensures UniqueTimes(Insert(x, s))
  {
    if s != [] && !Le(x.time, s[0].time) {
      assert UniqueTimes(s[1..]);
      forall e | e in s[1..] ensures e.time != x.time {
        assert e in s;
      }
      InsertKeepsUnique(x, s[1..]);
      var rest := Insert(x, s[1..]);
      forall e | e in rest ensures s[0].time != e.time {
        assert e in multiset(rest);
        if e != x {
          var k :| 0 <= k < |s[1..]| && s[1..][k] == e;
          assert s[k + 1] == e;
        }
      }
    }
  }

  /** Sorting a schedule of distinct times keeps them distinct. */
  lemma {:induction false} SortKeepsUnique(s: seq<Event>)
    requires UniqueTimes(s)
    ensures UniqueTimes(SortByTime(s))
  {
    if s != [] {
      assert UniqueTimes(s[1..]);
      SortKeepsUnique(s[1..]);
      var sorted := SortByTime(s[1..]);
      forall e | e in sorted ensures e.time != s[0].time {
        assert e in multiset(sorted);
        var k :| 0 <= k < |s[1..]| && s[1..][k] == e;
        assert s[k + 1] == e;
      }
      InsertKeepsUnique(s[0], sorted);
    }
  }
}
