/** The tutor profile of an account: creating it with a positive hourly rate, changing the rate, and
    the lookup by account every tutor operation starts with. */
module TutorProfiles {
  import opened AppErrors
  import opened Store

  const InvalidHourlyRate := AppError(400, "Invalid_Hourly_Rate")
  const InvalidUserId := AppError(404, "Invalid_User_Id")
  const TutorProfileExists := AppError(409, "Tutor_Profile_Exists")
  const TutorProfileNotExists := AppError(409, "Tutor_Profile_Not_Exists")
  const TutorProfileNotFound := AppError(404, "Tutor_Profile_Not_Found")

  /** findUnique on the profile table by its unique userId column: in consistent tables it finds the
      one profile of the account, if there is one. */
  function ProfileOf(t: Tables, userId: Id): (p: Option<Id>)
    requires ProfilesOk(t.users, t.profiles, t.profileOfUser, t.nextProfileId)
    ensures p.Some? ==> p.value in t.profiles && t.profiles[p.value].userId == userId
    ensures p.None? ==> forall q :: q in t.profiles ==> t.profiles[q].userId != userId
  {
    if userId in t.profileOfUser then Some(t.profileOfUser[userId]) else None
  }

  /** An account has at most one tutor profile. */
  lemma OneProfilePerAccount(t: Tables, p: Id, q: Id)
    requires ProfilesOk(t.users, t.profiles, t.profileOfUser, t.nextProfileId)
    requires p in t.profiles && q in t.profiles && t.profiles[p].userId == t.profiles[q].userId
    ensures p == q
  {
    assert ProfileOf(t, t.profiles[p].userId) == Some(p);
  }

  /** `!rate || rate <= 0`: a missing or non-positive rate is refused. */
  predicate RateAccepted(hourlyRate: Option<real>) {
    hourlyRate.Some? && hourlyRate.value > 0.0
  }

  /** createTutorProfile: refuses, in this order, a missing or non-positive rate, an unknown account
      and an account that already has a profile; otherwise inserts a profile of the account with
      that rate, not featured. */
  method CreateTutorProfile(db: Db, userId: Id, hourlyRate: Option<real>) returns (r: Result<Id>)
    requires db.Valid()
    modifies db
    ensures db.Valid()
    ensures !RateAccepted(hourlyRate) ==> r == Err(InvalidHourlyRate)
    ensures RateAccepted(hourlyRate) && userId !in old(db.tables.users) ==> r == Err(InvalidUserId)
    ensures (&& RateAccepted(hourlyRate) && userId in old(db.tables.users)
             && ProfileOf(old(db.tables), userId).Some?) ==> r == Err(TutorProfileExists)
    ensures (&& RateAccepted(hourlyRate) && userId in old(db.tables.users)
             && ProfileOf(old(db.tables), userId).None?) ==> r.Ok?
    ensures r.Err? ==> db.tables == old(db.tables)
    ensures r.Ok? ==>
      && RateAccepted(hourlyRate) && userId in old(db.tables.users) && ProfileOf(old(db.tables), userId).None?
      && r.value !in old(db.tables.profiles)
      && db.tables == old(db.tables).(
           profiles := old(db.tables.profiles)[r.value := TutorProfile(userId, hourlyRate.value, false)],
           profileOfUser := old(db.tables.profileOfUser)[userId := r.value],
           nextProfileId := r.value + 1)
      && ProfileOf(db.tables, userId) == Some(r.value)
  {
    var t := db.tables;
    if hourlyRate.None? || hourlyRate.value <= 0.0 {
      return Err(InvalidHourlyRate);
    }
    if userId !in t.users {
      return Err(InvalidUserId);
    }
    if userId in t.profileOfUser {
      return Err(TutorProfileExists);
    }
    var id := t.nextProfileId;
    db.tables := t.(
      profiles := t.profiles[id := TutorProfile(userId, hourlyRate.value, false)],
      profileOfUser := t.profileOfUser[userId := id],
      nextProfileId := id + 1);
    return Ok(id);
  }

  /** updateTutorHourlyRate: refuses, in this order, a missing or non-positive rate, an unknown
      account and an account without a profile; otherwise writes the rate of that account's profile
      and nothing else. */
  method UpdateTutorHourlyRate(db: Db, userId: Id, hourlyRate: Option<real>) returns (r: Result<TutorProfile>)
    requires db.Valid()
    modifies db
    ensures db.Valid()
    ensures !RateAccepted(hourlyRate) ==> r == Err(InvalidHourlyRate)
    ensures RateAccepted(hourlyRate) && userId !in old(db.tables.users) ==> r == Err(InvalidUserId)
    ensures (&& RateAccepted(hourlyRate) && userId in old(db.tables.users)
             && ProfileOf(old(db.tables), userId).None?) ==> r == Err(TutorProfileNotExists)
    ensures (&& RateAccepted(hourlyRate) && userId in old(db.tables.users)
             && ProfileOf(old(db.tables), userId).Some?) ==> r.Ok?
    ensures r.Err? ==> db.tables == old(db.tables)
    ensures r.Ok? ==>
      && RateAccepted(hourlyRate) && userId in old(db.tables.users) && ProfileOf(old(db.tables), userId).Some?
      && var p := ProfileOf(old(db.tables), userId).value;
         && r.value == old(db.tables.profiles[p]).(hourlyRate := hourlyRate.value)
         && db.tables == old(db.tables).(profiles := old(db.tables.profiles)[p := r.value])
  {
    var t := db.tables;
    if hourlyRate.None? || hourlyRate.value <= 0.0 {
      return Err(InvalidHourlyRate);
    }
    if userId !in t.users {
      return Err(InvalidUserId);
    }
    var profile := ProfileOf(t, userId);
    if profile.None? {
      return Err(TutorProfileNotExists);
    }
    var p := profile.value;
    var updated := t.profiles[p].(hourlyRate := hourlyRate.value);
    db.tables := t.(profiles := t.profiles[p := updated]);
    return Ok(updated);
  }
}
