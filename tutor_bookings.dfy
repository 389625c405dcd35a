/** The tutor's side of the booking lifecycle: confirming a pending booking and completing a
    confirmed one. Both are refused to anyone but the booking's tutor and while either party is
    banned. */
module TutorBookings {
  import opened AppErrors
  import opened BookingLifecycle
  import opened Store

  const BookingNotFound := AppError(404, "Booking_Not_Found")
  const NotAuthorized := AppError(403, "NOT_AUTHORIZED")
  const AccountBanned := AppError(403, "ACCOUNT_BANNED")

  /** Moving one booking between two statuses that both hold the slot keeps the booking table
      consistent. */
  lemma ActiveStatusChangeKeepsBookings(bookings: seq<Booking>, users: map<Id, User>, profiles: map<Id, TutorProfile>,
                                        slots: map<Id, TimeSlot>, i: nat, status: BookingStatus)
    requires BookingsOk(bookings, users, profiles, slots)
    requires i < |bookings| && IsActive(bookings[i].status) && IsActive(status)
    ensures BookingsOk(bookings[i := bookings[i].(status := status)], users, profiles, slots)
  {
    var after := bookings[i := bookings[i].(status := status)];
    forall j, k | 0 <= j < |after| && 0 <= k < |after| && j != k
      ensures !BothHoldSlot(after[j], after[k])
    {
      assert !BothHoldSlot(bookings[j], bookings[k]);
    }
    forall s | s in slots && slots[s].isBooked
      ensures HasActiveBooking(after, s)
    {
      var j :| 0 <= j < |bookings| && bookings[j].timeSlotId == s && IsActive(bookings[j].status);
      assert after[j].timeSlotId == s && IsActive(after[j].status);
    }
  }

  /** Changing the status of a booking that is not COMPLETE keeps every review valid, since reviews
      only point at COMPLETE bookings. */
  lemma NonCompleteChangeKeepsReviews(reviews: seq<Review>, bookings: seq<Booking>, i: nat, status: BookingStatus)
    requires ReviewsOk(reviews, bookings)
    requires i < |bookings| && bookings[i].status != COMPLETE
    ensures ReviewsOk(reviews, bookings[i := bookings[i].(status := status)])
  {
  }

  /** The checks confirmBooking and completeBooking run, in their order: the booking exists, its
      status admits the request, the caller is the account of the booking's tutor, and neither the
      tutor's account nor the student's is banned. None means the request may be applied. */
  function TutorRequestError(t: Tables, userId: Id, bookingId: Id, action: Action): (e: Option<AppError>)
    requires Consistent(t)
    ensures bookingId >= |t.bookings| ==> e == Some(BookingNotFound)
    ensures bookingId < |t.bookings| && Transition(t.bookings[bookingId].status, action).Err? ==>
      e == Some(Transition(t.bookings[bookingId].status, action).error)
    ensures (&& bookingId < |t.bookings| && Transition(t.bookings[bookingId].status, action).Ok?
             && t.profiles[t.bookings[bookingId].tutorProfileId].userId != userId) ==>
      e == Some(NotAuthorized)
    ensures (&& bookingId < |t.bookings| && Transition(t.bookings[bookingId].status, action).Ok?
             && t.profiles[t.bookings[bookingId].tutorProfileId].userId == userId
             && (t.users[userId].status == BANNED || t.users[t.bookings[bookingId].studentId].status == BANNED)) ==>
      e == Some(AccountBanned)
    ensures e.None? <==>
      && bookingId < |t.bookings|
      && Transition(t.bookings[bookingId].status, action).Ok?
      && var b := t.bookings[bookingId];
         && t.profiles[b.tutorProfileId].userId == userId
         && t.users[userId].status != BANNED
         && t.users[b.studentId].status != BANNED
  {
    if bookingId >= |t.bookings| then Some(BookingNotFound)
    else
      var b := t.bookings[bookingId];
      var next := Transition(b.status, action);
      if next.Err? then Some(next.error)
      else
        var tutorUser := t.profiles[b.tutorProfileId].userId;
        if tutorUser != userId then Some(NotAuthorized)
        else if t.users[tutorUser].status == BANNED then Some(AccountBanned)
        else if t.users[b.studentId].status == BANNED then Some(AccountBanned)
        else None
  }

  /** Only the booking's own tutor gets past the authorisation check. */
  lemma OnlyOwnTutorPasses(t: Tables, userId: Id, bookingId: Id, action: Action)
    requires Consistent(t)
    requires bookingId < |t.bookings| && Transition(t.bookings[bookingId].status, action).Ok?
    requires t.profiles[t.bookings[bookingId].tutorProfileId].userId != userId
    ensures TutorRequestError(t, userId, bookingId, action) == Some(NotAuthorized)
  {
  }

  /** Banning an account changes no table but the status column, so the tables stay consistent;
      afterwards no confirm or complete request on a booking whose tutor or student is that account
      gets through, whoever sends it, and the booking's own tutor asking for a step the status
      admits is told ACCOUNT_BANNED. */
  lemma BanBlocksTutorRequests(t: Tables, banned: Id, userId: Id, bookingId: Id, action: Action)
    requires Consistent(t) && banned in t.users
    requires bookingId < |t.bookings|
    requires banned == t.profiles[t.bookings[bookingId].tutorProfileId].userId || banned == t.bookings[bookingId].studentId
    ensures Consistent(t.(users := t.users[banned := t.users[banned].(status := BANNED)]))
    ensures TutorRequestError(t.(users := t.users[banned := t.users[banned].(status := BANNED)]), userId, bookingId, action).Some?
    ensures (&& Transition(t.bookings[bookingId].status, action).Ok?
             && t.profiles[t.bookings[bookingId].tutorProfileId].userId == userId) ==>
      TutorRequestError(t.(users := t.users[banned := t.users[banned].(status := BANNED)]), userId, bookingId, action) == Some(AccountBanned)
  {
    var after := t.(users := t.users[banned := t.users[banned].(status := BANNED)]);
    assert after.users.Keys == t.users.Keys;
    assert Consistent(after);
  }

  /** confirmBooking (action Confirm, PENDING to CONFIRM) and completeBooking (action Complete,
      CONFIRM to COMPLETE): on success the booking's status is the one Transition gives and nothing
      else in the tables changes; the statuses only move forward. */
  method AdvanceBooking(db: Db, userId: Id, bookingId: Id, action: Action) returns (r: Result<Booking>)
    requires db.Valid()
    requires action == Confirm || action == Complete
    modifies db
    ensures db.Valid()
    ensures TutorRequestError(old(db.tables), userId, bookingId, action).Some? ==>
      r == Err(TutorRequestError(old(db.tables), userId, bookingId, action).value)
    ensures TutorRequestError(old(db.tables), userId, bookingId, action).None? ==> r.Ok?
    ensures r.Err? ==> db.tables == old(db.tables)
    ensures r.Ok? ==>
      && TutorRequestError(old(db.tables), userId, bookingId, action).None?
      && r.value == old(db.tables.bookings[bookingId]).(status := Transition(old(db.tables.bookings[bookingId].status), action).value)
      && r.value.status == (if action == Confirm then CONFIRM else COMPLETE)
      && db.tables == old(db.tables).(bookings := old(db.tables.bookings)[bookingId := r.value])
    ensures StatusesMoveForward(old(db.tables.bookings), db.tables.bookings)
  {
    var t := db.tables;
    var e := TutorRequestError(t, userId, bookingId, action);
    if e.Some? {
      return Err(e.value);
    }
    var b := t.bookings[bookingId];
    var status := Transition(b.status, action).value;
    var updated := b.(status := status);
    TransitionsAreSteps(b.status, status);
    StepMovesForward(t.bookings, bookingId, status);
    ActiveStatusChangeKeepsBookings(t.bookings, t.users, t.profiles, t.slots, bookingId, status);
    NonCompleteChangeKeepsReviews(t.reviews, t.bookings, bookingId, status);
    db.tables := t.(bookings := t.bookings[bookingId := updated]);
    return Ok(updated);
  }
}
