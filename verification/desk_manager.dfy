/**
 * Desk reservations (`tools/desk_manager.py`). Two JSON documents: the
 * reservation table, from ISO date to `{"reservations": {desk ID: slot}}`
 * where a slot is `{is_free, user}`, and the desk directory, from desk ID to
 * `{location, description, allowed_users}`. `DeskStore` holds both; each tool
 * call reads them, possibly updates one slot and writes the table back.
 */
module DeskManager {
  import opened Options

  type User = string
  type Date = string
  type DeskId = string

  /** A slot `{is_free, user}`; a missing `is_free` counts as free. */
  datatype Slot = Slot(isFree: Option<bool>, user: Option<User>)

  /** `slot.get("is_free", True)` */
  predicate IsFree(slot: Slot) {
    slot.isFree.None? || slot.isFree.value
  }

  /** The slot is occupied, and by `user`. */
  predicate Holds(slot: Slot, user: User) {
    !IsFree(slot) && slot.user == Some(user)
  }

  /** What a reservation writes into the slot. */
  function Taken(user: User): (slot: Slot)
    ensures Holds(slot, user)
  {
    Slot(Some(false), Some(user))
  }

  /** What a release writes into the slot. */
  function FreeSlot(): (slot: Slot)
    ensures IsFree(slot) && forall user :: !Holds(slot, user)
  {
    Slot(Some(true), None)
  }

  /**
   * A date's entry: `Blank` is an entry Python treats as false (`{}`); any
   * other entry carries the desks of `entry.get("reservations", {})`.
   */
  datatype DateEntry = Blank | Entry(reservations: map<DeskId, Slot>)

  type Table = map<Date, DateEntry>

  /** `{location, description, allowed_users}`, each key possibly missing. */
  datatype DeskInfo = DeskInfo(location: Option<string>, description: Option<string>, allowedUsers: Option<seq<User>>) {
    /** The record is `{}`, which Python treats as false. */
    predicate IsEmpty() {
      location.None? && description.None? && allowedUsers.None?
    }
  }

  type Directory = map<DeskId, DeskInfo>

  /** The date is in the table with an entry that is not false. */
  predicate DateAvailable(t: Table, date: Date) {
    date in t && t[date].Entry?
  }

  /** `user` holds `desk` on `date`. */
  predicate HoldsAt(t: Table, date: Date, desk: DeskId, user: User) {
    DateAvailable(t, date) && desk in t[date].reservations && Holds(t[date].reservations[desk], user)
  }

  /** The slot of `desk` on `date`, if the table has one. */
  function SlotAt(t: Table, date: Date, desk: DeskId): Option<Slot> {
    if DateAvailable(t, date) && desk in t[date].reservations then Some(t[date].reservations[desk]) else None
  }

  /** The invariant of the table: nobody holds two desks on one date. */
  ghost predicate OnePerDay(t: Table) {
    forall date, d1, d2, user :: HoldsAt(t, date, d1, user) && HoldsAt(t, date, d2, user) ==> d1 == d2
  }

  /** The allow-list of the desk admits `user`: missing metadata or an empty or missing list admits anyone. */
  predicate Admits(directory: Directory, desk: DeskId, user: User) {
    desk !in directory || directory[desk].allowedUsers.None?
    || |directory[desk].allowedUsers.value| == 0 || user in directory[desk].allowedUsers.value
  }

  /** The (date, desk) pairs that `user` holds. */
  function HeldBy(t: Table, user: User): set<(Date, DeskId)> {
    set date, desk | date in t && t[date].Entry? && desk in t[date].reservations
                     && Holds(t[date].reservations[desk], user) :: (date, desk)
  }

  datatype DeskOutcome =
    | DateUnavailable
    | NoSuchDesk
    | AlreadyReserved(holder: Option<User>)
    | UserHasDesk(desk: DeskId)
    | NotAllowed
    | Reserved
    | AlreadyFree
    | HeldByOther(holder: Option<User>)
    | Released

  /**
   * `reserve_desk`: the guards, in the source's order, and the table written
   * back. When the caller already holds a desk that day, the outcome names one
   * such desk; which one depends on the order of the day's desks, so the
   * relation admits any of them.
   */
  predicate ReserveStep(t: Table, directory: Directory, date: Date, desk: DeskId, user: User,
                        r: DeskOutcome, t': Table)
  {
    if !DateAvailable(t, date) then r == DateUnavailable && t' == t
    else
      var day := t[date].reservations;
      if desk !in day then r == NoSuchDesk && t' == t
      else if !IsFree(day[desk]) then r == AlreadyReserved(day[desk].user) && t' == t
      else if exists d :: d in day && Holds(day[d], user) then r.UserHasDesk? && HoldsAt(t, date, r.desk, user) && t' == t
      else if !Admits(directory, desk, user) then r == NotAllowed && t' == t
      else r == Reserved && t' == t[date := Entry(day[desk := Taken(user)])]
  }

  /** `release_desk`: the outcome and the table written back (the old one when refused). */
  function Release(t: Table, date: Date, desk: DeskId, user: User): (DeskOutcome, Table) {
    if !DateAvailable(t, date) then (DateUnavailable, t)
    else
      var day := t[date].reservations;
      if desk !in day then (NoSuchDesk, t)
      else if IsFree(day[desk]) then (AlreadyFree, t)
      else if day[desk].user != Some(user) then (HeldByOther(day[desk].user), t)
      else (Released, t[date := Entry(day[desk := FreeSlot()])])
  }

  /** What `retrieve_desk_general_info` reports. */
  datatype GeneralInfo =
    | NoInformation
    | Info(desk: DeskId, location: string, description: string, allowedUsers: seq<User>)

  /** `retrieve_desk_general_info`: the desk's record, with "N/A" and [] for missing keys. */
  function RetrieveDeskGeneralInfo(directory: Directory, desk: DeskId): (r: GeneralInfo)
    ensures r.NoInformation? <==> desk !in directory || directory[desk].IsEmpty()
    ensures r.Info? ==> r.desk == desk
    ensures r.Info? && directory[desk].allowedUsers.Some? ==> r.allowedUsers == directory[desk].allowedUsers.value
  {
    if desk !in directory || directory[desk].IsEmpty() then NoInformation
    else
      var meta := directory[desk];
      Info(desk, meta.location.GetOr("N/A"), meta.description.GetOr("N/A"), meta.allowedUsers.GetOr([]))
  }

  /** What `get_all_reserved_desks` reports. */
  datatype ReservedListing = NoReservations | Reservations(pairs: seq<(Date, DeskId)>)

  /** No pair is listed twice. */
  predicate NoDuplicates(s: seq<(Date, DeskId)>) {
    forall i, j :: 0 <= i < j < |s| ==> s[i] != s[j]
  }

  class DeskStore {
    /** The contents of the reservation file. */
    var reservations: Table
    /** The contents of the desk directory file. */
    var directory: Directory

    constructor (reservations: Table, directory: Directory)
      ensures this.reservations == reservations && this.directory == directory
    {
      this.reservations := reservations;
      this.directory := directory;
    }

    /** `reserve_desk` for the calling `user`. */
    method ReserveDesk(date: Date, desk: DeskId, user: User) returns (r: DeskOutcome)
      modifies this
      ensures directory == old(directory)
      ensures ReserveStep(old(reservations), directory, date, desk, user, r, reservations)
      ensures OnePerDay(old(reservations)) ==> OnePerDay(reservations)
    {
      if date !in reservations || reservations[date].Blank? {
        return DateUnavailable;
      }
      var day := reservations[date].reservations;
      if desk !in day {
        return NoSuchDesk;
      }
      var slot := day[desk];
      if !IsFree(slot) {
        return AlreadyReserved(slot.user);
      }
      var pending := day.Keys;
      while pending != {}
        invariant pending <= day.Keys
        invariant forall d :: d in day && d !in pending ==> !Holds(day[d], user)
        decreases pending
      {
        var d :| d in pending;
        if Holds(day[d], user) {
          return UserHasDesk(d);
        }
        pending := pending - {d};
      }
      if !Admits(directory, desk, user) {
        return NotAllowed;
      }
      ghost var before := reservations;
      reservations := reservations[date := Entry(day[desk := Taken(user)])];
      if OnePerDay(before) {
        ReserveKeepsOnePerDay(before, directory, date, desk, user, Reserved, reservations);
      }
      r := Reserved;
    }

    /** `release_desk` for the calling `user`. */
    method ReleaseDesk(date: Date, desk: DeskId, user: User) returns (r: DeskOutcome)
      modifies this
      ensures directory == old(directory)
      ensures (r, reservations) == Release(old(reservations), date, desk, user)
      ensures OnePerDay(old(reservations)) ==> OnePerDay(reservations)
    {
      if OnePerDay(reservations) {
        ReleaseKeepsOnePerDay(reservations, date, desk, user);
      }
      if date !in reservations || reservations[date].Blank? {
        return DateUnavailable;
      }
      var day := reservations[date].reservations;
      if desk !in day {
        return NoSuchDesk;
      }
      var slot := day[desk];
      if IsFree(slot) {
        return AlreadyFree;
      }
      if slot.user != Some(user) {
        return HeldByOther(slot.user);
      }
      reservations := reservations[date := Entry(day[desk := FreeSlot()])];
      r := Released;
    }

    /** `get_all_reserved_desks` for the calling `user`. */
    method GetAllReservedDesks(user: User) returns (r: ReservedListing)
      ensures r.NoReservations? <==> HeldBy(reservations, user) == {}
      ensures r.Reservations? ==> NoDuplicates(r.pairs) && forall p :: p in r.pairs <==> p in HeldBy(reservations, user)
    {
      var all: seq<(Date, DeskId)> := [];
      var dates := reservations.Keys;
      while dates != {}
        invariant dates <= reservations.Keys
        invariant NoDuplicates(all)
        invariant forall p :: p in all <==> p in HeldBy(reservations, user) && p.0 !in dates
        decreases dates
      {
        var date :| date in dates;
        var day := if reservations[date].Entry? then reservations[date].reservations else map[];
        var pending := day.Keys;
        while pending != {}
          invariant pending <= day.Keys
          invariant NoDuplicates(all)
          invariant forall p :: p in all <==>
            p in HeldBy(reservations, user) && (p.0 !in dates || (p.0 == date && p.1 !in pending))
          decreases pending
        {
          var desk :| desk in pending;
          if Holds(day[desk], user) {
            all := all + [(date, desk)];
          }
          pending := pending - {desk};
        }
        dates := dates - {date};
      }
      if all == [] {
        assert forall p :: p !in HeldBy(reservations, user);
        return NoReservations;
      }
      assert all[0] in HeldBy(reservations, user);
      r := Reservations(all);
    }
  }

  // ---------------------------------------------------------------------------
  // reserve_desk

  /** A refused reservation writes nothing; a successful one always changes the table. */
  lemma ReserveChangesOnlyOnSuccess(t: Table, directory: Directory, date: Date, desk: DeskId, user: User,
                                    r: DeskOutcome, t': Table)
    requires ReserveStep(t, directory, date, desk, user, r, t')
    ensures r != Reserved <==> t' == t
  {
    if r == Reserved {
      assert SlotAt(t', date, desk) != SlotAt(t, date, desk);
    }
  }

  /** A desk somebody holds cannot be reserved, and the outcome names the holder. */
  lemma ReserveRefusesTakenDesk(t: Table, directory: Directory, date: Date, desk: DeskId, user: User,
                                holder: User, r: DeskOutcome, t': Table)
    requires ReserveStep(t, directory, date, desk, user, r, t')
    requires HoldsAt(t, date, desk, holder)
    ensures r == AlreadyReserved(Some(holder)) && t' == t
  {
  }

  /** A caller who holds a desk on the date cannot reserve a second one then. */
  lemma ReserveRefusesSecondDesk(t: Table, directory: Directory, date: Date, desk: DeskId, user: User,
                                 other: DeskId, r: DeskOutcome, t': Table)
    requires ReserveStep(t, directory, date, desk, user, r, t')
    requires HoldsAt(t, date, other, user)
    ensures r != Reserved && t' == t
  {
  }

  /** A non-empty allow-list without the caller refuses the reservation once the earlier guards pass. */
  lemma ReserveEnforcesAllowList(t: Table, directory: Directory, date: Date, desk: DeskId, user: User,
                                 r: DeskOutcome, t': Table)
    requires ReserveStep(t, directory, date, desk, user, r, t')
    ensures r == Reserved ==> Admits(directory, desk, user)
    ensures r == NotAllowed <==> SlotAt(t, date, desk).Some? && IsFree(SlotAt(t, date, desk).value)
                                 && (forall d :: !HoldsAt(t, date, d, user)) && !Admits(directory, desk, user)
  {
    if r == NotAllowed {
      forall d ensures !HoldsAt(t, date, d, user) {
      }
    }
  }

  /**
   * A successful reservation makes exactly the slot (date, desk) held by the
   * caller; every other slot of every date, and the set of dates and desks,
   * is as before.
   */
  lemma ReserveChangesOneSlot(t: Table, directory: Directory, date: Date, desk: DeskId, user: User,
                              t': Table)
    requires ReserveStep(t, directory, date, desk, user, Reserved, t')
    ensures SlotAt(t', date, desk) == Some(Taken(user))
    ensures SlotAt(t, date, desk).Some? && IsFree(SlotAt(t, date, desk).value)
    ensures t'.Keys == t.Keys
    ensures forall d :: d in t ==> t'[d].Entry? == t[d].Entry?
    ensures forall d :: DateAvailable(t, d) ==> t'[d].reservations.Keys == t[d].reservations.Keys
    ensures forall d, k :: (d, k) != (date, desk) ==> SlotAt(t', d, k) == SlotAt(t, d, k)
  {
  }

  /** Reservations keep the invariant that nobody holds two desks on one date. */
  lemma ReserveKeepsOnePerDay(t: Table, directory: Directory, date: Date, desk: DeskId, user: User,
                              r: DeskOutcome, t': Table)
    requires OnePerDay(t)
    requires ReserveStep(t, directory, date, desk, user, r, t')
    ensures OnePerDay(t')
  {
    if r == Reserved {
      var day := t[date].reservations;
      assert forall d :: d in day ==> !Holds(day[d], user);
      forall dt, d, u | HoldsAt(t', dt, d, u)
        ensures (dt == date && d == desk && u == user) || HoldsAt(t, dt, d, u)
      {
        assert SlotAt(t', dt, d).Some?;
      }
    }
  }

  /** After a successful reservation the caller's listing gains exactly (date, desk). */
  lemma ReserveAddsToListing(t: Table, directory: Directory, date: Date, desk: DeskId, user: User,
                             t': Table)
    requires ReserveStep(t, directory, date, desk, user, Reserved, t')
    ensures HeldBy(t', user) == HeldBy(t, user) + {(date, desk)}
    ensures (date, desk) !in HeldBy(t, user)
  {
    forall p | p in HeldBy(t', user) ensures p in HeldBy(t, user) + {(date, desk)} {
      if p != (date, desk) {
        assert SlotAt(t', p.0, p.1) == SlotAt(t, p.0, p.1);
      }
    }
    forall p | p in HeldBy(t, user) + {(date, desk)} ensures p in HeldBy(t', user) {
      if p != (date, desk) {
        assert p in HeldBy(t, user);
        assert SlotAt(t', p.0, p.1) == SlotAt(t, p.0, p.1);
      }
    }
  }

  // ---------------------------------------------------------------------------
  // release_desk

  /**
   * A release succeeds exactly when the caller holds the desk on that date;
   * otherwise nothing is written. On success only that slot changes, to free.
   */
  lemma ReleaseOnlyByHolder(t: Table, date: Date, desk: DeskId, user: User)
    ensures var (r, t') := Release(t, date, desk, user);
      && (r == Released <==> HoldsAt(t, date, desk, user))
      && (r != Released ==> t' == t)
      && (r == Released ==>
            && SlotAt(t', date, desk) == Some(FreeSlot())
            && t'.Keys == t.Keys
            && (forall d, k :: (d, k) != (date, desk) ==> SlotAt(t', d, k) == SlotAt(t, d, k)))
  {
  }

  /** Releases keep the invariant that nobody holds two desks on one date. */
  lemma ReleaseKeepsOnePerDay(t: Table, date: Date, desk: DeskId, user: User)
    requires OnePerDay(t)
    ensures OnePerDay(Release(t, date, desk, user).1)
  {
    var (r, t') := Release(t, date, desk, user);
    if r == Released {
      forall dt, d1, d2, u | HoldsAt(t', dt, d1, u) && HoldsAt(t', dt, d2, u)
        ensures d1 == d2
      {
        assert SlotAt(t', dt, d1) == SlotAt(t, dt, d1);
        assert SlotAt(t', dt, d2) == SlotAt(t, dt, d2);
        assert HoldsAt(t, dt, d1, u) && HoldsAt(t, dt, d2, u);
      }
    }
  }

  /** After a successful release the caller's listing loses exactly (date, desk). */
  lemma ReleaseRemovesFromListing(t: Table, date: Date, desk: DeskId, user: User)
    requires Release(t, date, desk, user).0 == Released
    ensures HeldBy(Release(t, date, desk, user).1, user) == HeldBy(t, user) - {(date, desk)}
  {
    var t' := Release(t, date, desk, user).1;
    forall p | p in HeldBy(t', user) ensures p in HeldBy(t, user) - {(date, desk)} {
      assert SlotAt(t', p.0, p.1) == SlotAt(t, p.0, p.1);
    }
    forall p | p in HeldBy(t, user) - {(date, desk)} ensures p in HeldBy(t', user) {
      assert SlotAt(t', p.0, p.1) == SlotAt(t, p.0, p.1);
    }
  }

  /**
   * Reserving a desk and then releasing it as the same user succeeds and
   * leaves the slot free, with the rest of the table as it was before the
   * reservation; a slot that was stored as `{is_free: true, user: null}` is
   * back to exactly the original table.
   */
  lemma ReserveThenRelease(t: Table, directory: Directory, date: Date, desk: DeskId, user: User,
                           t1: Table)
    requires ReserveStep(t, directory, date, desk, user, Reserved, t1)
    ensures Release(t1, date, desk, user) == (Released, t[date := Entry(t[date].reservations[desk := FreeSlot()])])
    ensures SlotAt(t, date, desk) == Some(FreeSlot()) ==> Release(t1, date, desk, user).1 == t
  {
    var day := t[date].reservations;
    var day1 := day[desk := Taken(user)];
    assert t1 == t[date := Entry(day1)];
    assert Release(t1, date, desk, user) == (Released, t1[date := Entry(day1[desk := FreeSlot()])]);
    assert day1[desk := FreeSlot()] == day[desk := FreeSlot()];
    assert t1[date := Entry(day[desk := FreeSlot()])] == t[date := Entry(day[desk := FreeSlot()])];
    if SlotAt(t, date, desk) == Some(FreeSlot()) {
      assert day[desk := FreeSlot()] == day;
    }
  }

  // ---------------------------------------------------------------------------
  // get_all_reserved_desks and retrieve_desk_general_info

  /** Under the invariant, the caller's listing has at most one desk per date. */
  lemma ListingOneDeskPerDate(t: Table, user: User, p: (Date, DeskId), q: (Date, DeskId))
    requires OnePerDay(t)
    requires p in HeldBy(t, user) && q in HeldBy(t, user) && p.0 == q.0
    ensures p == q
  {
    assert HoldsAt(t, p.0, p.1, user) && HoldsAt(t, q.0, q.1, user);
  }

  /** The allow-list that `retrieve_desk_general_info` shows is the one `reserve_desk` enforces. */
  lemma GeneralInfoShowsAllowList(directory: Directory, desk: DeskId, user: User)
    ensures var info := RetrieveDeskGeneralInfo(directory, desk);
      Admits(directory, desk, user) <==>
        info.NoInformation? || |info.allowedUsers| == 0 || user in info.allowedUsers
  {
  }
}
