/** A tutor's concrete time slots: creating and moving one (the slot must lie inside one of the
    tutor's windows for that weekday and must not overlap another slot of the tutor on that date),
    and deleting one that is not booked. No two slots of a tutor on a date ever overlap. */
module TutorTimeSlots {
  import opened AppErrors
  import opened TimeArithmetic
  import opened Store
  import opened TutorProfiles
  import opened TutorAvailability

  const InvalidDate := AppError(400, "INVALID_DATE")
  const OutsideAvailability := AppError(400, "OUTSIDE_AVAILABILITY")
  const SlotOverlap := AppError(409, "SLOT_OVERLAP")
  const TimeSlotNotFound := AppError(404, "TimeSlot_Not_Found")
  const TimeSlotAlreadyBooked := AppError(409, "TimeSlot_Already_Booked")

  /** A request's date after `new Date(...)`: an invalid date (getTime() is NaN), or a day count from
      1970-01-01 at midnight UTC. */
  datatype DateInput = Unparseable | Day(day: int)

  /** The tutor's windows on a weekday: availability.findMany on profile and dayOfWeek. */
  function WindowsOn(availabilities: map<Id, Availability>, profileId: Id, day: DayOfWeek): set<Id>
  {
    set a | a in availabilities && availabilities[a].profileId == profileId && availabilities[a].dayOfWeek == day
  }

  /** `slotStart >= availStart && slotEnd <= availEnd` (a stored window is always a valid range, so
      its times always convert). */
  predicate Contains(window: Availability, slotStart: nat, slotEnd: nat) {
    IsValidTimeRange(window.startTime, window.endTime) &&
    Minutes(window.startTime) <= slotStart && slotEnd <= Minutes(window.endTime)
  }

  /** availabilities.some(...): one of the windows holds the slot. */
  predicate FitsSomeWindow(availabilities: map<Id, Availability>, windows: set<Id>, slotStart: nat, slotEnd: nat) {
    exists a :: a in windows && a in availabilities && Contains(availabilities[a], slotStart, slotEnd)
  }

  /** The overlap query as the store runs it on the stored strings:
      NOT (endTime <= start OR startTime >= end). */
  predicate QueryOverlaps(other: TimeSlot, startTime: string, endTime: string) {
    !(LexLe(other.endTime, startTime) || LexLe(endTime, other.startTime))
  }

  /** tutorTimeSlot.findFirst for the overlap check: another slot of the same tutor and date (not the
      slot `except`) that the query reports as overlapping. */
  predicate Clashes(slots: map<Id, TimeSlot>, candidate: TimeSlot, except: Option<Id>) {
    exists s :: s in slots && Some(s) != except && slots[s].profileId == candidate.profileId &&
      slots[s].date == candidate.date && QueryOverlaps(slots[s], candidate.startTime, candidate.endTime)
  }

  /** On well-formed times the string query finds exactly the slots whose minute intervals overlap. */
  lemma QueryAgreesWithOverlap(other: TimeSlot, candidate: TimeSlot)
    requires WellFormedSlot(other) && WellFormedSlot(candidate)
    ensures QueryOverlaps(other, candidate.startTime, candidate.endTime) <==> SlotsOverlap(other, candidate)
  {
    LexLeAgreesWithMinutes(other.endTime, candidate.startTime);
    LexLeAgreesWithMinutes(candidate.endTime, other.startTime);
  }

  /** The checks createTutorTimeSlot and updateTimeSlot share once the date and the slot are known,
      in their order: both times are HH:mm (timeToMinutes raises INVALID_TIME_FORMAT, see
      TimeArithmetic.TimeToMinutes), the start is before the end, the tutor has a window on
      the weekday, one window holds the slot, and no other slot of the tutor clashes with it. None
      means every check passed. */
  function PlacementError(t: Tables, candidate: TimeSlot, except: Option<Id>): Option<AppError>
  {
    if !IsValidTimeFormat(candidate.startTime) || !IsValidTimeFormat(candidate.endTime) then Some(InvalidTimeFormat)
    else
      var slotStart, slotEnd := Minutes(candidate.startTime), Minutes(candidate.endTime);
      if slotStart >= slotEnd then Some(InvalidTimeRange)
      else
        var windows := WindowsOn(t.availabilities, candidate.profileId, GetDayOfWeek(candidate.date));
        if windows == {} then Some(AvailabilityNotFound)
        else if !FitsSomeWindow(t.availabilities, windows, slotStart, slotEnd) then Some(OutsideAvailability)
        else if Clashes(t.slots, candidate, except) then Some(SlotOverlap)
        else None
  }

  /** What PlacementError reports, check by check, and that it reports nothing exactly when the
      slot has valid times, fits a window of the tutor on its weekday and clashes with no slot. */
  lemma PlacementErrorMeaning(t: Tables, candidate: TimeSlot, except: Option<Id>)
    ensures !IsValidTimeFormat(candidate.startTime) || !IsValidTimeFormat(candidate.endTime) ==> PlacementError(t, candidate, except) == Some(InvalidTimeFormat)
    ensures (&& IsValidTimeFormat(candidate.startTime) && IsValidTimeFormat(candidate.endTime)
             && !IsValidTimeRange(candidate.startTime, candidate.endTime)) ==> PlacementError(t, candidate, except) == Some(InvalidTimeRange)
    ensures (&& IsValidTimeRange(candidate.startTime, candidate.endTime)
             && WindowsOn(t.availabilities, candidate.profileId, GetDayOfWeek(candidate.date)) == {}) ==>
      PlacementError(t, candidate, except) == Some(AvailabilityNotFound)
    ensures (&& IsValidTimeRange(candidate.startTime, candidate.endTime)
             && WindowsOn(t.availabilities, candidate.profileId, GetDayOfWeek(candidate.date)) != {}
             && !FitsSomeWindow(t.availabilities, WindowsOn(t.availabilities, candidate.profileId, GetDayOfWeek(candidate.date)),
                                Minutes(candidate.startTime), Minutes(candidate.endTime))) ==>
      PlacementError(t, candidate, except) == Some(OutsideAvailability)
    ensures PlacementError(t, candidate, except).None? <==>
      && IsValidTimeRange(candidate.startTime, candidate.endTime)
      && FitsSomeWindow(t.availabilities, WindowsOn(t.availabilities, candidate.profileId, GetDayOfWeek(candidate.date)),
                        Minutes(candidate.startTime), Minutes(candidate.endTime))
      && !Clashes(t.slots, candidate, except)
    ensures (&& IsValidTimeRange(candidate.startTime, candidate.endTime)
             && FitsSomeWindow(t.availabilities, WindowsOn(t.availabilities, candidate.profileId, GetDayOfWeek(candidate.date)),
                               Minutes(candidate.startTime), Minutes(candidate.endTime))
             && Clashes(t.slots, candidate, except)) ==> PlacementError(t, candidate, except) == Some(SlotOverlap)
  {
  }

  /** Writing a well-formed slot that clashes with no other slot of its tutor and date keeps the slot
      table free of overlaps. */
  lemma WriteKeepsNoOverlap(slots: map<Id, TimeSlot>, id: Id, candidate: TimeSlot)
    requires AllSlotsWellFormed(slots) && NoOverlap(slots) && WellFormedSlot(candidate)
    requires forall s :: s in slots && s != id && slots[s].profileId == candidate.profileId && slots[s].date == candidate.date ==>
      !QueryOverlaps(slots[s], candidate.startTime, candidate.endTime)
    ensures AllSlotsWellFormed(slots[id := candidate]) && NoOverlap(slots[id := candidate])
  {
    var after := slots[id := candidate];
    forall s | s in after
      ensures WellFormedSlot(after[s])
    {
      if s != id {
        assert WellFormedSlot(slots[s]);
      }
    }
    forall s, u | s in after && u in after && s != u && after[s].profileId == after[u].profileId && after[s].date == after[u].date
      ensures !SlotsOverlap(after[s], after[u])
    {
      if s == id {
        assert WellFormedSlot(slots[u]);
        QueryAgreesWithOverlap(slots[u], candidate);
      } else if u == id {
        assert WellFormedSlot(slots[s]);
        QueryAgreesWithOverlap(slots[s], candidate);
      } else {
        assert WellFormedSlot(slots[s]) && WellFormedSlot(slots[u]);
        assert !SlotsOverlap(slots[s], slots[u]);
      }
    }
  }

  /** Writing a slot that keeps the owner and booked flag of the slot it replaces, or that is new
      and unbooked, leaves every booking holding a booked slot of its tutor. */
  lemma SlotWriteKeepsBookings(bookings: seq<Booking>, users: map<Id, User>, profiles: map<Id, TutorProfile>,
                               slots: map<Id, TimeSlot>, id: Id, candidate: TimeSlot)
    requires BookingsOk(bookings, users, profiles, slots)
    requires id in slots ==> slots[id].profileId == candidate.profileId && slots[id].isBooked == candidate.isBooked
    requires id !in slots ==> !candidate.isBooked
    ensures BookingsOk(bookings, users, profiles, slots[id := candidate])
  {
  }

  /** Writing a slot of an existing profile that passed the placement checks keeps the tables
      consistent, when the slot is new and unbooked (the check looked at every slot) or keeps the
      owner and booked flag of the slot it replaces (the check left that slot out). */
  lemma PlacedSlotKeepsConsistent(t: Tables, id: Id, candidate: TimeSlot, except: Option<Id>, next: nat)
    requires Consistent(t)
    requires candidate.profileId in t.profiles && PlacementError(t, candidate, except).None?
    requires except.None? ==> id == t.nextSlotId && next == id + 1 && !candidate.isBooked
    requires except.Some? ==>
      && except == Some(id) && next == t.nextSlotId && id in t.slots
      && t.slots[id].profileId == candidate.profileId && t.slots[id].isBooked == candidate.isBooked
    ensures Consistent(t.(slots := t.slots[id := candidate], nextSlotId := next))
  {
    PlacementErrorMeaning(t, candidate, except);
    WriteKeepsNoOverlap(t.slots, id, candidate);
    SlotWriteKeepsBookings(t.bookings, t.users, t.profiles, t.slots, id, candidate);
  }

  /** The slot updateTimeSlot writes: `payload.x ?? existing.x` for the date and the two times (a
      valid final date is a day); the owner and the booked flag stay. */
  function MovedSlot(existing: TimeSlot, date: Option<DateInput>, startTime: Option<string>, endTime: Option<string>): (m: TimeSlot)
    requires date != Some(Unparseable)
    ensures m.profileId == existing.profileId && m.isBooked == existing.isBooked
    ensures date.None? && startTime.None? && endTime.None? ==> m == existing
  {
    existing.(
      date := if date.Some? then date.value.day else existing.date,
      startTime := if startTime.Some? then startTime.value else existing.startTime,
      endTime := if endTime.Some? then endTime.value else existing.endTime)
  }

  /** The guard of updateTimeSlot and deleteTutorSlot: the slot exists and is the tutor's own. */
  predicate SlotOwnedBy(slots: map<Id, TimeSlot>, id: Id, profileId: Id) {
    id in slots && slots[id].profileId == profileId
  }

  /** createTutorTimeSlot: refuses an invalid date, then an account without a tutor profile, then
      what PlacementError reports for the new slot; otherwise inserts the slot, not booked. The new
      slot lies inside one of the tutor's windows for its weekday. */
  method CreateTimeSlot(db: Db, userId: Id, date: DateInput, startTime: string, endTime: string) returns (r: Result<Id>)
    requires db.Valid()
    modifies db
    ensures db.Valid()
    ensures date.Unparseable? ==> r == Err(InvalidDate)
    ensures date.Day? && ProfileOf(old(db.tables), userId).None? ==> r == Err(TutorProfileNotFound)
    ensures (&& date.Day? && ProfileOf(old(db.tables), userId).Some?
             && var candidate := TimeSlot(ProfileOf(old(db.tables), userId).value, date.day, startTime, endTime, false);
                PlacementError(old(db.tables), candidate, None).Some?) ==>
      r == Err(PlacementError(old(db.tables), TimeSlot(ProfileOf(old(db.tables), userId).value, date.day, startTime, endTime, false), None).value)
    ensures (&& date.Day? && ProfileOf(old(db.tables), userId).Some?
             && PlacementError(old(db.tables), TimeSlot(ProfileOf(old(db.tables), userId).value, date.day, startTime, endTime, false), None).None?) ==>
      r.Ok?
    ensures r.Err? ==> db.tables == old(db.tables)
    ensures r.Ok? ==>
      && date.Day? && ProfileOf(old(db.tables), userId).Some?
      && var p := ProfileOf(old(db.tables), userId).value;
         var candidate := TimeSlot(p, date.day, startTime, endTime, false);
         && PlacementError(old(db.tables), candidate, None).None?
         && r.value == old(db.tables.nextSlotId)
         && db.tables == old(db.tables).(slots := old(db.tables.slots)[r.value := candidate], nextSlotId := r.value + 1)
  {
    var t := db.tables;
    if date.Unparseable? {
      return Err(InvalidDate);
    }
    var profile := ProfileOf(t, userId);
    if profile.None? {
      return Err(TutorProfileNotFound);
    }
    var candidate := TimeSlot(profile.value, date.day, startTime, endTime, false);
    var e := PlacementError(t, candidate, None);
    if e.Some? {
      return Err(e.value);
    }
    var id := t.nextSlotId;
    PlacedSlotKeepsConsistent(t, id, candidate, None, id + 1);
    db.tables := t.(slots := t.slots[id := candidate], nextSlotId := id + 1);
    return Ok(id);
  }

  /** updateTimeSlot: refuses an account without a tutor profile, then a slot that does not exist or
      belongs to another profile, then an invalid final date, then what PlacementError reports for
      the moved slot with the slot itself left out of the overlap query; otherwise writes the final
      date and times and keeps the booked flag. */
  method UpdateTimeSlot(db: Db, userId: Id, slotId: Id, date: Option<DateInput>, startTime: Option<string>, endTime: Option<string>)
    returns (r: Result<TimeSlot>)
    requires db.Valid()
    modifies db
    ensures db.Valid()
    ensures ProfileOf(old(db.tables), userId).None? ==> r == Err(TutorProfileNotFound)
    ensures (&& ProfileOf(old(db.tables), userId).Some?
             && !SlotOwnedBy(old(db.tables.slots), slotId, ProfileOf(old(db.tables), userId).value)) ==>
      r == Err(TimeSlotNotFound)
    ensures (&& ProfileOf(old(db.tables), userId).Some?
             && SlotOwnedBy(old(db.tables.slots), slotId, ProfileOf(old(db.tables), userId).value)
             && date == Some(Unparseable)) ==>
      r == Err(InvalidDate)
    ensures r.Err? ==> db.tables == old(db.tables)
    ensures r.Ok? ==>
      && ProfileOf(old(db.tables), userId).Some?
      && SlotOwnedBy(old(db.tables.slots), slotId, ProfileOf(old(db.tables), userId).value)
      && date != Some(Unparseable)
      && r.value == MovedSlot(old(db.tables.slots[slotId]), date, startTime, endTime)
      && PlacementError(old(db.tables), r.value, Some(slotId)).None?
      && db.tables == old(db.tables).(slots := old(db.tables.slots)[slotId := r.value])
    ensures (&& ProfileOf(old(db.tables), userId).Some?
             && SlotOwnedBy(old(db.tables.slots), slotId, ProfileOf(old(db.tables), userId).value)
             && date != Some(Unparseable)
             && PlacementError(old(db.tables), MovedSlot(old(db.tables.slots[slotId]), date, startTime, endTime), Some(slotId)).Some?) ==>
      r == Err(PlacementError(old(db.tables), MovedSlot(old(db.tables.slots[slotId]), date, startTime, endTime), Some(slotId)).value)
    ensures (&& ProfileOf(old(db.tables), userId).Some?
             && SlotOwnedBy(old(db.tables.slots), slotId, ProfileOf(old(db.tables), userId).value)
             && date != Some(Unparseable)
             && PlacementError(old(db.tables), MovedSlot(old(db.tables.slots[slotId]), date, startTime, endTime), Some(slotId)).None?) ==>
      r.Ok?
  {
    var t := db.tables;
    var profile := ProfileOf(t, userId);
    if profile.None? {
      return Err(TutorProfileNotFound);
    }
    if slotId !in t.slots || t.slots[slotId].profileId != profile.value {
      return Err(TimeSlotNotFound);
    }
    var existing := t.slots[slotId];
    if date == Some(Unparseable) {
      return Err(InvalidDate);
    }
    var moved := MovedSlot(existing, date, startTime, endTime);
    var e := PlacementError(t, moved, Some(slotId));
    if e.Some? {
      return Err(e.value);
    }
    PlacedSlotKeepsConsistent(t, slotId, moved, Some(slotId), t.nextSlotId);
    db.tables := t.(slots := t.slots[slotId := moved]);
    return Ok(moved);
  }

  /** deleteTutorSlot: refuses an account without a tutor profile, then a slot that does not exist
      or belongs to another profile, then a booked slot; otherwise removes the slot and returns it. */
  method DeleteTimeSlot(db: Db, userId: Id, slotId: Id) returns (r: Result<TimeSlot>)
    requires db.Valid()
    modifies db
    ensures db.Valid()
    ensures ProfileOf(old(db.tables), userId).None? ==> r == Err(TutorProfileNotFound)
    ensures (&& ProfileOf(old(db.tables), userId).Some?
             && !SlotOwnedBy(old(db.tables.slots), slotId, ProfileOf(old(db.tables), userId).value)) ==>
      r == Err(TimeSlotNotFound)
    ensures (&& ProfileOf(old(db.tables), userId).Some?
             && SlotOwnedBy(old(db.tables.slots), slotId, ProfileOf(old(db.tables), userId).value)
             && old(db.tables.slots[slotId].isBooked)) ==>
      r == Err(TimeSlotAlreadyBooked)
    ensures (&& ProfileOf(old(db.tables), userId).Some?
             && SlotOwnedBy(old(db.tables.slots), slotId, ProfileOf(old(db.tables), userId).value)
             && !old(db.tables.slots[slotId].isBooked)) ==>
      r.Ok?
    ensures r.Err? ==> db.tables == old(db.tables)
    ensures r.Ok? ==>
      && ProfileOf(old(db.tables), userId).Some?
      && SlotOwnedBy(old(db.tables.slots), slotId, ProfileOf(old(db.tables), userId).value)
      && r.value == old(db.tables.slots[slotId]) && !r.value.isBooked
      && db.tables == old(db.tables).(slots := old(db.tables.slots) - {slotId})
  {
    var t := db.tables;
    var profile := ProfileOf(t, userId);
    if profile.None? {
      return Err(TutorProfileNotFound);
    }
    if slotId !in t.slots || t.slots[slotId].profileId != profile.value {
      return Err(TimeSlotNotFound);
    }
    var removed := t.slots[slotId];
    if removed.isBooked {
      return Err(TimeSlotAlreadyBooked);
    }
    db.tables := t.(slots := t.slots - {slotId});
    return Ok(removed);
  }
}
