/** A tutor's recurring weekly windows: adding one, updating one the tutor owns (the merged times must
    still form a valid range), and deleting one. Every stored window is a valid range. */
module TutorAvailability {
  import opened AppErrors
  import opened TimeArithmetic
  import opened Store
  import opened TutorProfiles

  const InvalidTimeRange := AppError(400, "Invalid_Time_Range")
  const AvailabilityNotFound := AppError(404, "Availability_Not_Found")

  /** Partial<AvailabilityPayload>: each field may be absent. */
  datatype AvailabilityUpdate = AvailabilityUpdate(dayOfWeek: Option<DayOfWeek>, startTime: Option<string>, endTime: Option<string>)

  /** `payload.x ?? availability.x`, field by field: the window updateAvailability checks and writes. */
  function Merge(a: Availability, u: AvailabilityUpdate): (m: Availability)
    ensures m.profileId == a.profileId
    ensures u == AvailabilityUpdate(None, None, None) ==> m == a
  {
    Availability(
      a.profileId,
      if u.dayOfWeek.Some? then u.dayOfWeek.value else a.dayOfWeek,
      if u.startTime.Some? then u.startTime.value else a.startTime,
      if u.endTime.Some? then u.endTime.value else a.endTime)
  }

  /** Only the times reach the range check: changing the day of a valid window alone is always
      accepted. */
  lemma DayChangeKeepsValidRange(a: Availability, day: DayOfWeek)
    requires WellFormedWindow(a)
    ensures WellFormedWindow(Merge(a, AvailabilityUpdate(Some(day), None, None)))
  {
  }

  /** The guard of updateAvailability and deleteAvailability: the window exists and is the tutor's own. */
  predicate AvailabilityOwnedBy(availabilities: map<Id, Availability>, id: Id, profileId: Id) {
    id in availabilities && availabilities[id].profileId == profileId
  }

  /** addAvailability: refuses, in this order, times that are not a valid range (checked before the
      profile is looked up) and an account without a tutor profile; otherwise inserts the window. */
  method AddAvailability(db: Db, userId: Id, dayOfWeek: DayOfWeek, startTime: string, endTime: string) returns (r: Result<Id>)
    requires db.Valid()
    modifies db
    ensures db.Valid()
    ensures !IsValidTimeRange(startTime, endTime) ==> r == Err(InvalidTimeRange)
    ensures IsValidTimeRange(startTime, endTime) && ProfileOf(old(db.tables), userId).None? ==> r == Err(TutorProfileNotFound)
    ensures IsValidTimeRange(startTime, endTime) && ProfileOf(old(db.tables), userId).Some? ==> r.Ok?
    ensures r.Err? ==> db.tables == old(db.tables)
    ensures r.Ok? ==>
      && IsValidTimeRange(startTime, endTime) && ProfileOf(old(db.tables), userId).Some?
      && r.value !in old(db.tables.availabilities)
      && db.tables == old(db.tables).(
           availabilities := old(db.tables.availabilities)[r.value :=
             Availability(ProfileOf(old(db.tables), userId).value, dayOfWeek, startTime, endTime)],
           nextAvailabilityId := r.value + 1)
  {
    var t := db.tables;
    if !IsValidTimeRange(startTime, endTime) {
      return Err(InvalidTimeRange);
    }
    var profile := ProfileOf(t, userId);
    if profile.None? {
      return Err(TutorProfileNotFound);
    }
    var id := t.nextAvailabilityId;
    var window := Availability(profile.value, dayOfWeek, startTime, endTime);
    assert WellFormedWindow(window);
    db.tables := t.(availabilities := t.availabilities[id := window], nextAvailabilityId := id + 1);
    return Ok(id);
  }

  /** updateAvailability: refuses, in this order, an account without a tutor profile, a window that
      does not exist or belongs to another profile, and merged times that are not a valid range;
      otherwise writes the present fields. */
  method UpdateAvailability(db: Db, userId: Id, availabilityId: Id, update: AvailabilityUpdate) returns (r: Result<Availability>)
    requires db.Valid()
    modifies db
    ensures db.Valid()
    ensures ProfileOf(old(db.tables), userId).None? ==> r == Err(TutorProfileNotFound)
    ensures (&& ProfileOf(old(db.tables), userId).Some?
             && !AvailabilityOwnedBy(old(db.tables.availabilities), availabilityId, ProfileOf(old(db.tables), userId).value)) ==>
      r == Err(AvailabilityNotFound)
    ensures (&& ProfileOf(old(db.tables), userId).Some?
             && AvailabilityOwnedBy(old(db.tables.availabilities), availabilityId, ProfileOf(old(db.tables), userId).value)
             && !WellFormedWindow(Merge(old(db.tables.availabilities[availabilityId]), update))) ==>
      r == Err(InvalidTimeRange)
    ensures (&& ProfileOf(old(db.tables), userId).Some?
             && AvailabilityOwnedBy(old(db.tables.availabilities), availabilityId, ProfileOf(old(db.tables), userId).value)
             && WellFormedWindow(Merge(old(db.tables.availabilities[availabilityId]), update))) ==>
      r.Ok?
    ensures r.Err? ==> db.tables == old(db.tables)
    ensures r.Ok? ==>
      && ProfileOf(old(db.tables), userId).Some?
      && AvailabilityOwnedBy(old(db.tables.availabilities), availabilityId, ProfileOf(old(db.tables), userId).value)
      && r.value == Merge(old(db.tables.availabilities[availabilityId]), update)
      && IsValidTimeRange(r.value.startTime, r.value.endTime)
      && db.tables == old(db.tables).(availabilities := old(db.tables.availabilities)[availabilityId := r.value])
  {
    var t := db.tables;
    var profile := ProfileOf(t, userId);
    if profile.None? {
      return Err(TutorProfileNotFound);
    }
    if availabilityId !in t.availabilities || t.availabilities[availabilityId].profileId != profile.value {
      return Err(AvailabilityNotFound);
    }
    var merged := Merge(t.availabilities[availabilityId], update);
    if !IsValidTimeRange(merged.startTime, merged.endTime) {
      return Err(InvalidTimeRange);
    }
    assert WellFormedWindow(merged);
    db.tables := t.(availabilities := t.availabilities[availabilityId := merged]);
    return Ok(merged);
  }

  /** deleteAvailability: the same two refusals as updateAvailability; otherwise removes the window
      and returns it. */
  method DeleteAvailability(db: Db, userId: Id, availabilityId: Id) returns (r: Result<Availability>)
    requires db.Valid()
    modifies db
    ensures db.Valid()
    ensures ProfileOf(old(db.tables), userId).None? ==> r == Err(TutorProfileNotFound)
    ensures (&& ProfileOf(old(db.tables), userId).Some?
             && !AvailabilityOwnedBy(old(db.tables.availabilities), availabilityId, ProfileOf(old(db.tables), userId).value)) ==>
      r == Err(AvailabilityNotFound)
    ensures (&& ProfileOf(old(db.tables), userId).Some?
             && AvailabilityOwnedBy(old(db.tables.availabilities), availabilityId, ProfileOf(old(db.tables), userId).value)) ==>
      r.Ok?
    ensures r.Err? ==> db.tables == old(db.tables)
    ensures r.Ok? ==>
      && ProfileOf(old(db.tables), userId).Some?
      && AvailabilityOwnedBy(old(db.tables.availabilities), availabilityId, ProfileOf(old(db.tables), userId).value)
      && r.value == old(db.tables.availabilities[availabilityId])
      && db.tables == old(db.tables).(availabilities := old(db.tables.availabilities) - {availabilityId})
  {
    var t := db.tables;
    var profile := ProfileOf(t, userId);
    if profile.None? {
      return Err(TutorProfileNotFound);
    }
    if availabilityId !in t.availabilities || t.availabilities[availabilityId].profileId != profile.value {
      return Err(AvailabilityNotFound);
    }
    var removed := t.availabilities[availabilityId];
    db.tables := t.(availabilities := t.availabilities - {availabilityId});
    return Ok(removed);
  }
}
