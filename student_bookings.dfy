/** The student's side: booking a free slot for a subject its tutor teaches (at the slot's length
    times the tutor's hourly rate), cancelling a pending booking (which frees the slot again), and
    reviewing a completed one, once. */
module StudentBookings {
  import opened AppErrors
  import opened TimeArithmetic
  import opened BookingLifecycle
  import opened Store
  import opened TutorSubjects
  import TutorBookings

  const TutorTimeSlotNotFound := AppError(404, "Tutor_TimeSlot_Not_Found")
  const TutorTimeSlotAlreadyBooked := AppError(409, "Tutor_TimeSlot_Already_Booked")
  const TutorDoesNotTeachSubject := AppError(400, "Tutor_Does't_Teach_This_Subject")
  const SlotAlreadyBookingProcess := AppError(409, "SLOT_ALREADY_BOOKING_PROCESS")
  const BookingNotFound := AppError(404, "Booking_NOt_Found")
  const Unauthorized := AppError(403, "UNAUTHORIZED")
  const SessionNotCompleted := AppError(400, "SESSION_NOT_COMPLETED")
  const ReviewAlreadyExists := AppError(409, "REVIEW_ALREADY_EXISTS")
  const InvalidRating := AppError(409, "INVALID_RATING")

  /** A length of time in minutes, as hours, times an hourly rate. */
  function PriceOf(minutes: int, hourlyRate: real): real {
    (minutes as real / 60.0) * hourlyRate
  }

  /** The price of a booking: the slot's length in hours, (end - start) / 60, times the hourly rate. */
  function BookingPrice(slot: TimeSlot, hourlyRate: real): real
    requires WellFormedSlot(slot)
  {
    PriceOf(Minutes(slot.endTime) - Minutes(slot.startTime), hourlyRate)
  }

  /** At a positive rate, a positive length of time under a day costs more than nothing and less
      than a day's worth of the rate. */
  lemma PriceOfIsPositive(minutes: int, hourlyRate: real)
    requires 0 < minutes < 24 * 60 && hourlyRate > 0.0
    ensures 0.0 < PriceOf(minutes, hourlyRate) < 24.0 * hourlyRate
  {
    var hours := minutes as real / 60.0;
    assert 0.0 < hours < 24.0;
    assert (24.0 - hours) * hourlyRate > 0.0;
  }

  /** The price of two lengths of time together is the sum of their prices. */
  lemma PriceOfIsAdditive(first: int, second: int, hourlyRate: real)
    ensures PriceOf(first + second, hourlyRate) == PriceOf(first, hourlyRate) + PriceOf(second, hourlyRate)
  {
    assert (first + second) as real / 60.0 == first as real / 60.0 + second as real / 60.0;
  }

  /** A slot is a positive length of time within one day, so at a positive rate every booking has a
      positive price, less than a full day's worth of the rate. */
  lemma PriceIsPositive(slot: TimeSlot, hourlyRate: real)
    requires WellFormedSlot(slot) && hourlyRate > 0.0
    ensures 0.0 < BookingPrice(slot, hourlyRate) < 24.0 * hourlyRate
  {
    PriceOfIsPositive(Minutes(slot.endTime) - Minutes(slot.startTime), hourlyRate);
  }

  /** Splitting a slot at a time between its ends splits its price: the price is additive in time. */
  lemma PriceIsAdditive(slot: TimeSlot, middle: string, hourlyRate: real)
    requires WellFormedSlot(slot) && IsValidTimeFormat(middle)
    requires Minutes(slot.startTime) < Minutes(middle) < Minutes(slot.endTime)
    ensures BookingPrice(slot, hourlyRate) ==
      BookingPrice(slot.(endTime := middle), hourlyRate) + BookingPrice(slot.(startTime := middle), hourlyRate)
  {
    PriceOfIsAdditive(Minutes(middle) - Minutes(slot.startTime), Minutes(slot.endTime) - Minutes(middle), hourlyRate);
  }

  /** A slot that is not booked has no booking holding it: once the isBooked check of createBooking
      has passed, its SLOT_ALREADY_BOOKING_PROCESS check cannot fail. */
  lemma FreeSlotHasNoActiveBooking(bookings: seq<Booking>, users: map<Id, User>, profiles: map<Id, TutorProfile>,
                                   slots: map<Id, TimeSlot>, slotId: Id)
    requires BookingsOk(bookings, users, profiles, slots)
    requires slotId in slots && !slots[slotId].isBooked
    ensures !HasActiveBooking(bookings, slotId)
  {
  }

  /** The booking createBooking inserts: the student, the slot's tutor, the subject and the slot, at
      the slot's price, PENDING. */
  function NewBooking(t: Tables, studentId: Id, slotId: Id, subjectId: Id): (b: Booking)
    requires Consistent(t) && slotId in t.slots
    ensures b.status == PENDING && b.timeSlotId == slotId && b.studentId == studentId && b.subjectId == subjectId
    ensures b.tutorProfileId == t.slots[slotId].profileId
  {
    var slot := t.slots[slotId];
    assert WellFormedSlot(slot);
    Booking(studentId, slot.profileId, subjectId, slotId, PENDING, BookingPrice(slot, t.profiles[slot.profileId].hourlyRate))
  }

  /** Appending a PENDING booking, by an existing account, for a free slot of its tutor, and marking
      the slot booked keeps the booking table consistent. */
  lemma BookingFreeSlotKeepsBookings(bookings: seq<Booking>, users: map<Id, User>, profiles: map<Id, TutorProfile>,
                                     slots: map<Id, TimeSlot>, b: Booking)
    requires BookingsOk(bookings, users, profiles, slots)
    requires b.timeSlotId in slots && !slots[b.timeSlotId].isBooked && b.status == PENDING
    requires b.studentId in users && b.tutorProfileId in profiles && b.tutorProfileId == slots[b.timeSlotId].profileId
    ensures BookingsOk(bookings + [b], users, profiles, slots[b.timeSlotId := slots[b.timeSlotId].(isBooked := true)])
  {
    var after := bookings + [b];
    var flagged := slots[b.timeSlotId := slots[b.timeSlotId].(isBooked := true)];
    var n := |bookings|;
    FreeSlotHasNoActiveBooking(bookings, users, profiles, slots, b.timeSlotId);
    forall i | 0 <= i < |after| && IsActive(after[i].status)
      ensures after[i].timeSlotId in flagged && flagged[after[i].timeSlotId].isBooked
      ensures flagged[after[i].timeSlotId].profileId == after[i].tutorProfileId
    {
      if i < n {
        assert after[i] == bookings[i];
      }
    }
    forall i, j | 0 <= i < |after| && 0 <= j < |after| && i != j
      ensures !BothHoldSlot(after[i], after[j])
    {
      if i < n && j < n {
        assert !BothHoldSlot(bookings[i], bookings[j]);
      } else if i < n {
        assert after[i] == bookings[i] && after[j] == b;
      } else {
        assert after[j] == bookings[j] && after[i] == b;
      }
    }
    forall s | s in flagged && flagged[s].isBooked
      ensures HasActiveBooking(after, s)
    {
      if s == b.timeSlotId {
        assert after[n] == b;
      } else {
        var i :| 0 <= i < n && bookings[i].timeSlotId == s && IsActive(bookings[i].status);
        assert after[i] == bookings[i];
      }
    }
  }

  /** Appending a booking leaves every review pointing at the same booking. */
  lemma AppendKeepsReviews(reviews: seq<Review>, bookings: seq<Booking>, b: Booking)
    requires ReviewsOk(reviews, bookings)
    ensures ReviewsOk(reviews, bookings + [b])
  {
    forall k | 0 <= k < |reviews|
      ensures (bookings + [b])[reviews[k].bookingId] == bookings[reviews[k].bookingId]
    {
    }
  }

  /** The whole step of createBooking keeps the tables consistent. */
  lemma BookingFreeSlotKeepsConsistent(t: Tables, b: Booking)
    requires Consistent(t)
    requires b.timeSlotId in t.slots && !t.slots[b.timeSlotId].isBooked && b.status == PENDING
    requires b.studentId in t.users && b.tutorProfileId == t.slots[b.timeSlotId].profileId
    ensures Consistent(t.(bookings := t.bookings + [b], slots := t.slots[b.timeSlotId := t.slots[b.timeSlotId].(isBooked := true)]))
  {
    BookedFlagKeepsSlotsOk(t.slots, t.nextSlotId, t.profiles, b.timeSlotId, true);
    BookingFreeSlotKeepsBookings(t.bookings, t.users, t.profiles, t.slots, b);
    AppendKeepsReviews(t.reviews, t.bookings, b);
  }

  /** createBooking: refuses, in this order, an unknown slot, a booked slot, a subject the slot's
      tutor does not teach and a slot some booking already holds; otherwise appends a PENDING
      booking at the slot's price and marks the slot booked, in one transaction. */
  method CreateBooking(db: Db, studentId: Id, slotId: Id, subjectId: Id) returns (r: Result<Id>)
    requires db.Valid()
    requires studentId in db.tables.users
    modifies db
    ensures db.Valid()
    ensures slotId !in old(db.tables.slots) ==> r == Err(TutorTimeSlotNotFound)
    ensures slotId in old(db.tables.slots) && old(db.tables.slots[slotId].isBooked) ==> r == Err(TutorTimeSlotAlreadyBooked)
    ensures (&& slotId in old(db.tables.slots) && !old(db.tables.slots[slotId].isBooked)
             && !Teaches(old(db.tables.tutorSubjects), old(db.tables.slots[slotId].profileId), subjectId)) ==>
      r == Err(TutorDoesNotTeachSubject)
    ensures (&& slotId in old(db.tables.slots) && !old(db.tables.slots[slotId].isBooked)
             && Teaches(old(db.tables.tutorSubjects), old(db.tables.slots[slotId].profileId), subjectId)) ==>
      r.Ok?
    ensures r.Err? ==> db.tables == old(db.tables)
    ensures r.Ok? ==>
      && slotId in old(db.tables.slots) && !old(db.tables.slots[slotId].isBooked)
      && r.value == |old(db.tables.bookings)|
      && db.tables == old(db.tables).(
           bookings := old(db.tables.bookings) + [NewBooking(old(db.tables), studentId, slotId, subjectId)],
           slots := old(db.tables.slots)[slotId := old(db.tables.slots[slotId]).(isBooked := true)])
    ensures StatusesMoveForward(old(db.tables.bookings), db.tables.bookings)
  {
    var t := db.tables;
    if slotId !in t.slots {
      return Err(TutorTimeSlotNotFound);
    }
    var slot := t.slots[slotId];
    if slot.isBooked {
      return Err(TutorTimeSlotAlreadyBooked);
    }
    if TutorSubject(slot.profileId, subjectId) !in t.tutorSubjects {
      return Err(TutorDoesNotTeachSubject);
    }
    FreeSlotHasNoActiveBooking(t.bookings, t.users, t.profiles, t.slots, slotId);
    if exists i :: 0 <= i < |t.bookings| && t.bookings[i].timeSlotId == slotId && IsActive(t.bookings[i].status) {
      assert false;
      return Err(SlotAlreadyBookingProcess);
    }
    var booking := NewBooking(t, studentId, slotId, subjectId);
    BookingFreeSlotKeepsConsistent(t, booking);
    AppendMovesForward(t.bookings, booking);
    db.tables := t.(bookings := t.bookings + [booking], slots := t.slots[slotId := slot.(isBooked := true)]);
    return Ok(|t.bookings|);
  }

  /** Cancelling a pending booking and freeing its slot keeps the booking table consistent: the
      booking was the only one holding the slot. */
  lemma CancelKeepsBookings(bookings: seq<Booking>, users: map<Id, User>, profiles: map<Id, TutorProfile>,
                            slots: map<Id, TimeSlot>, i: nat)
    requires BookingsOk(bookings, users, profiles, slots)
    requires i < |bookings| && bookings[i].status == PENDING
    ensures bookings[i].timeSlotId in slots
    ensures var sid := bookings[i].timeSlotId;
      BookingsOk(bookings[i := bookings[i].(status := CANCELLED)], users, profiles, slots[sid := slots[sid].(isBooked := false)])
  {
    var sid := bookings[i].timeSlotId;
    var after := bookings[i := bookings[i].(status := CANCELLED)];
    var freed := slots[sid := slots[sid].(isBooked := false)];
    forall j | 0 <= j < |after| && IsActive(after[j].status)
      ensures after[j].timeSlotId in freed && freed[after[j].timeSlotId].isBooked
      ensures freed[after[j].timeSlotId].profileId == after[j].tutorProfileId
    {
      assert !BothHoldSlot(bookings[i], bookings[j]);
    }
    forall j, k | 0 <= j < |after| && 0 <= k < |after| && j != k
      ensures !BothHoldSlot(after[j], after[k])
    {
      assert !BothHoldSlot(bookings[j], bookings[k]);
    }
    forall s | s in freed && freed[s].isBooked
      ensures HasActiveBooking(after, s)
    {
      var j :| 0 <= j < |bookings| && bookings[j].timeSlotId == s && IsActive(bookings[j].status);
      assert j != i;
      assert after[j] == bookings[j];
    }
  }

  /** The whole step of cancelBooking keeps the tables consistent. */
  lemma CancelKeepsConsistent(t: Tables, i: nat)
    requires Consistent(t)
    requires i < |t.bookings| && t.bookings[i].status == PENDING
    ensures t.bookings[i].timeSlotId in t.slots
    ensures var sid := t.bookings[i].timeSlotId;
      Consistent(t.(bookings := t.bookings[i := t.bookings[i].(status := CANCELLED)], slots := t.slots[sid := t.slots[sid].(isBooked := false)]))
  {
    CancelKeepsBookings(t.bookings, t.users, t.profiles, t.slots, i);
    BookedFlagKeepsSlotsOk(t.slots, t.nextSlotId, t.profiles, t.bookings[i].timeSlotId, false);
    TutorBookings.NonCompleteChangeKeepsReviews(t.reviews, t.bookings, i, CANCELLED);
  }

  /** cancelBooking: refuses, in this order, an unknown booking, a caller who is not the booking's
      student, and a status Transition refuses for Cancel (CANCELLED, CONFIRM, COMPLETE); otherwise
      marks the booking CANCELLED and frees its slot, in one transaction. The slot can then be
      booked again. */
  method CancelBooking(db: Db, userId: Id, bookingId: Id) returns (r: Result<Booking>)
    requires db.Valid()
    modifies db
    ensures db.Valid()
    ensures bookingId >= |old(db.tables.bookings)| ==> r == Err(BookingNotFound)
    ensures bookingId < |old(db.tables.bookings)| && old(db.tables.bookings[bookingId].studentId) != userId ==>
      r == Err(Unauthorized)
    ensures (&& bookingId < |old(db.tables.bookings)| && old(db.tables.bookings[bookingId].studentId) == userId
             && Transition(old(db.tables.bookings[bookingId].status), Cancel).Err?) ==>
      r == Err(Transition(old(db.tables.bookings[bookingId].status), Cancel).error)
    ensures (&& bookingId < |old(db.tables.bookings)| && old(db.tables.bookings[bookingId].studentId) == userId
             && old(db.tables.bookings[bookingId].status) == PENDING) ==>
      r.Ok?
    ensures r.Err? ==> db.tables == old(db.tables)
    ensures r.Ok? ==>
      && bookingId < |old(db.tables.bookings)| && old(db.tables.bookings[bookingId].studentId) == userId
      && old(db.tables.bookings[bookingId].status) == PENDING
      && var sid := old(db.tables.bookings[bookingId].timeSlotId);
         && sid in old(db.tables.slots)
         && r.value == old(db.tables.bookings[bookingId]).(status := CANCELLED)
         && db.tables == old(db.tables).(
              bookings := old(db.tables.bookings)[bookingId := r.value],
              slots := old(db.tables.slots)[sid := old(db.tables.slots[sid]).(isBooked := false)])
         && !db.tables.slots[sid].isBooked
    ensures StatusesMoveForward(old(db.tables.bookings), db.tables.bookings)
  {
    var t := db.tables;
    if bookingId >= |t.bookings| {
      return Err(BookingNotFound);
    }
    var booking := t.bookings[bookingId];
    if booking.studentId != userId {
      return Err(Unauthorized);
    }
    var next := Transition(booking.status, Cancel);
    if next.Err? {
      return Err(next.error);
    }
    var cancelled := booking.(status := CANCELLED);
    var sid := booking.timeSlotId;
    CancelKeepsConsistent(t, bookingId);
    StepMovesForward(t.bookings, bookingId, CANCELLED);
    db.tables := t.(bookings := t.bookings[bookingId := cancelled], slots := t.slots[sid := t.slots[sid].(isBooked := false)]);
    return Ok(cancelled);
  }

  /** Some review is about this booking: the booking's `review` relation is present. */
  predicate HasReview(reviews: seq<Review>, bookingId: Id) {
    exists k :: 0 <= k < |reviews| && reviews[k].bookingId == bookingId
  }

  /** `rating > 5 || rating < 0`. */
  predicate RatingRefused(rating: real) {
    rating > 5.0 || rating < 0.0
  }

  /** Appending a review of a COMPLETE booking that has none, by its student, with a rating in
      range, keeps the review table consistent. */
  lemma ReviewKeepsConsistent(reviews: seq<Review>, bookings: seq<Booking>, review: Review)
    requires ReviewsOk(reviews, bookings)
    requires review.bookingId < |bookings| && bookings[review.bookingId].status == COMPLETE
    requires review.studentId == bookings[review.bookingId].studentId
    requires review.tutorProfileId == bookings[review.bookingId].tutorProfileId
    requires !RatingRefused(review.rating) && !HasReview(reviews, review.bookingId)
    ensures ReviewsOk(reviews + [review], bookings)
  {
    var after := reviews + [review];
    forall k, l | 0 <= k < |after| && 0 <= l < |after| && k != l
      ensures !SameBooking(after[k], after[l])
    {
      if k < |reviews| && l < |reviews| {
        assert !SameBooking(reviews[k], reviews[l]);
      } else if k < |reviews| {
        assert after[k] == reviews[k];
      } else {
        assert after[l] == reviews[l];
      }
    }
  }

  /** createReview: refuses, in this order, an unknown booking, a caller who is not its student, a
      booking that is not COMPLETE, a booking already reviewed and a rating outside [0, 5];
      otherwise appends the review, with the booking's tutor. */
  method CreateReview(db: Db, userId: Id, bookingId: Id, rating: real, comment: Option<string>) returns (r: Result<Review>)
    requires db.Valid()
    modifies db
    ensures db.Valid()
    ensures bookingId >= |old(db.tables.bookings)| ==> r == Err(BookingNotFound)
    ensures bookingId < |old(db.tables.bookings)| && old(db.tables.bookings[bookingId].studentId) != userId ==>
      r == Err(Unauthorized)
    ensures (&& bookingId < |old(db.tables.bookings)| && old(db.tables.bookings[bookingId].studentId) == userId
             && old(db.tables.bookings[bookingId].status) != COMPLETE) ==>
      r == Err(SessionNotCompleted)
    ensures (&& bookingId < |old(db.tables.bookings)| && old(db.tables.bookings[bookingId].studentId) == userId
             && old(db.tables.bookings[bookingId].status) == COMPLETE && HasReview(old(db.tables.reviews), bookingId)) ==>
      r == Err(ReviewAlreadyExists)
    ensures (&& bookingId < |old(db.tables.bookings)| && old(db.tables.bookings[bookingId].studentId) == userId
             && old(db.tables.bookings[bookingId].status) == COMPLETE && !HasReview(old(db.tables.reviews), bookingId)
             && RatingRefused(rating)) ==>
      r == Err(InvalidRating)
    ensures (&& bookingId < |old(db.tables.bookings)| && old(db.tables.bookings[bookingId].studentId) == userId
             && old(db.tables.bookings[bookingId].status) == COMPLETE && !HasReview(old(db.tables.reviews), bookingId)
             && !RatingRefused(rating)) ==>
      r.Ok?
    ensures r.Err? ==> db.tables == old(db.tables)
    ensures r.Ok? ==>
      && bookingId < |old(db.tables.bookings)| && old(db.tables.bookings[bookingId].status) == COMPLETE
      && !HasReview(old(db.tables.reviews), bookingId) && !RatingRefused(rating)
      && r.value == Review(bookingId, userId, old(db.tables.bookings[bookingId].tutorProfileId), rating, comment)
      && db.tables == old(db.tables).(reviews := old(db.tables.reviews) + [r.value])
      && HasReview(db.tables.reviews, bookingId)
  {
    var t := db.tables;
    if bookingId >= |t.bookings| {
      return Err(BookingNotFound);
    }
    var booking := t.bookings[bookingId];
    if booking.studentId != userId {
      return Err(Unauthorized);
    }
    if booking.status != COMPLETE {
      return Err(SessionNotCompleted);
    }
    if exists k :: 0 <= k < |t.reviews| && t.reviews[k].bookingId == bookingId {
      return Err(ReviewAlreadyExists);
    }
    if rating > 5.0 || rating < 0.0 {
      return Err(InvalidRating);
    }
    var review := Review(bookingId, userId, booking.tutorProfileId, rating, comment);
    ReviewKeepsConsistent(t.reviews, t.bookings, review);
    db.tables := t.(reviews := t.reviews + [review]);
    assert db.tables.reviews[|t.reviews|] == review;
    return Ok(review);
  }
}
