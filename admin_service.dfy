/** The admin operations: banning or unbanning an account, and featuring a tutor profile. */
module AdminService {
  import opened AppErrors
  import opened Store

  const MissingUserId := AppError(400, "Missing User id")
  const InvalidUserId := AppError(404, "Invalid_User_Id")
  const UserAlreadyUpdated := AppError(400, "User_already_updated")
  const MissingTutorId := AppError(400, "Missing tutor id")

  /** updateUserStatus: refuses a missing id, an unknown user and an unchanged status; otherwise
      writes the status and nothing else. */
  method UpdateUserStatus(db: Db, id: Option<Id>, status: UserStatus) returns (r: Result<User>)
    requires db.Valid()
    modifies db
    ensures db.Valid()
    ensures id.None? ==> r == Err(MissingUserId)
    ensures id.Some? && id.value !in old(db.tables.users) ==> r == Err(InvalidUserId)
    ensures id.Some? && id.value in old(db.tables.users) && old(db.tables.users[id.value].status) == status ==>
      r == Err(UserAlreadyUpdated)
    ensures id.Some? && id.value in old(db.tables.users) && old(db.tables.users[id.value].status) != status ==> r.Ok?
    ensures r.Err? ==> db.tables == old(db.tables)
    ensures r.Ok? ==>
      && id.Some? && id.value in old(db.tables.users) && old(db.tables.users[id.value].status) != status
      && r.value == old(db.tables.users[id.value]).(status := status)
      && db.tables == old(db.tables).(users := old(db.tables.users)[id.value := r.value])
  {
    var t := db.tables;
    if id.None? {
      return Err(MissingUserId);
    }
    var userId := id.value;
    if userId !in t.users {
      return Err(InvalidUserId);
    }
    var user := t.users[userId];
    if user.status == status {
      return Err(UserAlreadyUpdated);
    }
    var updated := user.(status := status);
    db.tables := t.(users := t.users[userId := updated]);
    return Ok(updated);
  }

  /** featureTutor: refuses a missing id and an unknown profile; otherwise writes isFeatured with no
      same-value check, so a repeated call succeeds again and leaves the tables as they were. */
  method FeatureTutor(db: Db, id: Option<Id>, isFeatured: bool) returns (r: Result<TutorProfile>)
    requires db.Valid()
    modifies db
    ensures db.Valid()
    ensures id.None? ==> r == Err(MissingTutorId)
    ensures id.Some? && id.value !in old(db.tables.profiles) ==> r == Err(InvalidUserId)
    ensures id.Some? && id.value in old(db.tables.profiles) ==> r.Ok?
    ensures r.Err? ==> db.tables == old(db.tables)
    ensures r.Ok? ==>
      && id.Some? && id.value in old(db.tables.profiles)
      && r.value == old(db.tables.profiles[id.value]).(isFeatured := isFeatured)
      && db.tables == old(db.tables).(profiles := old(db.tables.profiles)[id.value := r.value])
    ensures r.Ok? && old(db.tables.profiles[id.value].isFeatured) == isFeatured ==> db.tables == old(db.tables)
  {
    var t := db.tables;
    if id.None? {
      return Err(MissingTutorId);
    }
    var profileId := id.value;
    if profileId !in t.profiles {
      return Err(InvalidUserId);
    }
    var updated := t.profiles[profileId].(isFeatured := isFeatured);
    db.tables := t.(profiles := t.profiles[profileId := updated]);
    return Ok(updated);
  }
}
