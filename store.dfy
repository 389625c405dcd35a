/** The relational store the services read and write: one table per entity, each a map from id to
    row (bookings and reviews, which are never deleted, are sequences whose index is the id, so that
    "the first matching row" is the earliest inserted). Ids of new rows come from per-table counters,
    standing in for the ids the database generates. The tables together are one value, which a
    service replaces in a single step when it succeeds and leaves alone when it fails: this is how
    the model renders each transaction's all-or-nothing commit. */
module Store {
  import opened AppErrors
  import opened TimeArithmetic
  import opened BookingLifecycle
  import opened Text

  type Id = nat

  /** BANNED is the status the booking checks look for. The enum's other values are not named in
      the services; Other stands for each of them by its name, so two distinct non-banned values
      stay distinct. */
  datatype UserStatus = ACTIVE | BANNED | Other(name: string)

  /** The account row kept by the authentication collaborator; the services read and set its status. */
  datatype User = User(status: UserStatus)

  datatype TutorProfile = TutorProfile(userId: Id, hourlyRate: real, isFeatured: bool)

  datatype Category = Category(name: string, description: string)

  datatype Subject = Subject(categoryId: Id, name: string)

  /** A row of the tutorSubject table: the profile teaches the subject. */
  datatype TutorSubject = TutorSubject(profileId: Id, subjectId: Id)

  datatype Education = Education(
    profileId: Id, institute: string, degree: string, fieldOfStudy: string,
    startYear: int, endYear: Option<int>, isCurrent: Option<bool>)

  /** A recurring weekly window of a tutor. */
  datatype Availability = Availability(profileId: Id, dayOfWeek: DayOfWeek, startTime: string, endTime: string)

  /** A concrete slot; date is a day count from 1970-01-01. */
  datatype TimeSlot = TimeSlot(profileId: Id, date: int, startTime: string, endTime: string, isBooked: bool)

  datatype Booking = Booking(
    studentId: Id, tutorProfileId: Id, subjectId: Id, timeSlotId: Id, status: BookingStatus, price: real)

  datatype Review = Review(bookingId: Id, studentId: Id, tutorProfileId: Id, rating: real, comment: Option<string>)

  /** Half-open intervals [s1, e1) and [s2, e2) overlap unless one ends before the other starts. */
  predicate Overlap(s1: int, e1: int, s2: int, e2: int) {
    !(e1 <= s2 || s1 >= e2)
  }

  predicate WellFormedWindow(window: Availability) {
    IsValidTimeRange(window.startTime, window.endTime)
  }

  predicate WellFormedSlot(slot: TimeSlot) {
    IsValidTimeRange(slot.startTime, slot.endTime)
  }

  predicate SlotsOverlap(x: TimeSlot, y: TimeSlot)
    requires WellFormedSlot(x) && WellFormedSlot(y)
  {
    Overlap(Minutes(x.startTime), Minutes(x.endTime), Minutes(y.startTime), Minutes(y.endTime))
  }

  ghost predicate AllSlotsWellFormed(slots: map<Id, TimeSlot>) {
    forall s {:trigger WellFormedSlot(slots[s])} | s in slots :: WellFormedSlot(slots[s])
  }

  /** No two slots of one tutor on one date overlap. */
  ghost predicate NoOverlap(slots: map<Id, TimeSlot>)
    requires AllSlotsWellFormed(slots)
  {
    forall s, t {:trigger SlotsOverlap(slots[s], slots[t])} | s in slots && t in slots && s != t &&
      slots[s].profileId == slots[t].profileId && slots[s].date == slots[t].date ::
      !SlotsOverlap(slots[s], slots[t])
  }

  /** Setting or clearing a slot's booked flag changes neither its owner nor its times, so the slot
      table stays valid. */
  lemma BookedFlagKeepsSlotsOk(slots: map<Id, TimeSlot>, next: nat, profiles: map<Id, TutorProfile>, id: Id, booked: bool)
    requires SlotsOk(slots, next, profiles) && id in slots
    ensures SlotsOk(slots[id := slots[id].(isBooked := booked)], next, profiles)
  {
    var after := slots[id := slots[id].(isBooked := booked)];
    forall s | s in after
      ensures WellFormedSlot(after[s])
    {
      assert WellFormedSlot(slots[s]);
    }
    forall s, u | s in after && u in after && s != u &&
      after[s].profileId == after[u].profileId && after[s].date == after[u].date
      ensures !SlotsOverlap(after[s], after[u])
    {
      assert WellFormedSlot(slots[s]) && WellFormedSlot(slots[u]);
      assert !SlotsOverlap(slots[s], slots[u]);
    }
  }

  /** Some booking of the sequence holds the slot. */
  ghost predicate HasActiveBooking(bookings: seq<Booking>, slotId: Id) {
    exists i :: 0 <= i < |bookings| && bookings[i].timeSlotId == slotId && IsActive(bookings[i].status)
  }

  /** Two bookings that both hold the same slot. */
  predicate BothHoldSlot(a: Booking, b: Booking) {
    IsActive(a.status) && IsActive(b.status) && a.timeSlotId == b.timeSlotId
  }

  /** Every existing booking keeps its fields except the status, and every status that changed made
      an allowed move; bookings are never removed. */
  ghost predicate StatusesMoveForward(before: seq<Booking>, after: seq<Booking>) {
    && |before| <= |after|
    && forall i :: 0 <= i < |before| ==>
         after[i] == before[i].(status := after[i].status) &&
         (after[i].status == before[i].status || Step(before[i].status, after[i].status))
  }

  /** Inserting a booking moves no existing status. */
  lemma AppendMovesForward(bookings: seq<Booking>, b: Booking)
    ensures StatusesMoveForward(bookings, bookings + [b])
  {
    forall i | 0 <= i < |bookings|
      ensures (bookings + [b])[i] == bookings[i]
    {
    }
  }

  /** Changing one booking's status by an allowed move moves the statuses forward. */
  lemma StepMovesForward(bookings: seq<Booking>, i: nat, status: BookingStatus)
    requires i < |bookings| && Step(bookings[i].status, status)
    ensures StatusesMoveForward(bookings, bookings[i := bookings[i].(status := status)])
  {
  }

  /** Two subject rows with the same name in the same category. */
  predicate SameSubject(a: Subject, b: Subject) {
    a.categoryId == b.categoryId && a.name == b.name
  }

  /** Each subject is in an existing category, under a non-empty name in normal form (see
      Text.NormalNamesAreFixedPoints) that no other subject of that category has. */
  ghost predicate SubjectTableValid(categories: map<Id, Category>, subjects: map<Id, Subject>, next: nat) {
    && (forall s :: s in subjects ==>
          s < next && subjects[s].categoryId in categories &&
          subjects[s].name != [] && IsNormalName(subjects[s].name))
    && (forall s, t {:trigger SameSubject(subjects[s], subjects[t])} | s in subjects && t in subjects && s != t ::
          !SameSubject(subjects[s], subjects[t]))
  }

  /** Writing a subject row whose name is normalised and not used by another subject of its category
      keeps the subject table valid. */
  lemma SubjectTableWrite(categories: map<Id, Category>, subjects: map<Id, Subject>, next: nat, id: Id, row: Subject)
    requires SubjectTableValid(categories, subjects, next)
    requires id < next || id == next
    requires id in subjects ==> subjects[id].categoryId == row.categoryId
    requires row.categoryId in categories && row.name != [] && IsNormalName(row.name)
    requires forall s :: s in subjects && s != id && subjects[s].categoryId == row.categoryId ==> subjects[s].name != row.name
    ensures SubjectTableValid(categories, subjects[id := row], if id == next then next + 1 else next)
  {
  }

  /** The whole database. */
  datatype Tables = Tables(
    users: map<Id, User>,
    profiles: map<Id, TutorProfile>, profileOfUser: map<Id, Id>, nextProfileId: nat,
    categories: map<Id, Category>, nextCategoryId: nat,
    subjects: map<Id, Subject>, nextSubjectId: nat,
    tutorSubjects: set<TutorSubject>,
    educations: map<Id, Education>, nextEducationId: nat,
    availabilities: map<Id, Availability>, nextAvailabilityId: nat,
    slots: map<Id, TimeSlot>, nextSlotId: nat,
    bookings: seq<Booking>,
    reviews: seq<Review>)

  /** Each profile belongs to an existing user and has a positive rate; profileOfUser is the unique
      index on userId, the relation a user's tutorProfiles field follows. */
  ghost predicate ProfilesOk(users: map<Id, User>, profiles: map<Id, TutorProfile>, profileOfUser: map<Id, Id>, next: nat) {
    && (forall p :: p in profiles ==>
          p < next && profiles[p].userId in users && profiles[p].hourlyRate > 0.0 &&
          profiles[p].userId in profileOfUser && profileOfUser[profiles[p].userId] == p)
    && (forall u :: u in profileOfUser ==> profileOfUser[u] in profiles && profiles[profileOfUser[u]].userId == u)
  }

  ghost predicate TaxonomyOk(categories: map<Id, Category>, nextCategoryId: nat, subjects: map<Id, Subject>, nextSubjectId: nat) {
    && (forall c :: c in categories ==> c < nextCategoryId)
    && SubjectTableValid(categories, subjects, nextSubjectId)
  }

  ghost predicate TutorSubjectsOk(tutorSubjects: set<TutorSubject>, profiles: map<Id, TutorProfile>, subjects: map<Id, Subject>) {
    forall ts :: ts in tutorSubjects ==> ts.profileId in profiles && ts.subjectId in subjects
  }

  ghost predicate EducationsOk(educations: map<Id, Education>, next: nat, profiles: map<Id, TutorProfile>) {
    forall e :: e in educations ==> e < next && educations[e].profileId in profiles
  }

  /** Every window is a well-formed range of an existing profile. */
  ghost predicate AvailabilitiesOk(availabilities: map<Id, Availability>, next: nat, profiles: map<Id, TutorProfile>) {
    && (forall a :: a in availabilities ==> a < next && availabilities[a].profileId in profiles)
    && (forall a {:trigger WellFormedWindow(availabilities[a])} | a in availabilities ::
          WellFormedWindow(availabilities[a]))
  }

  /** Every slot is a well-formed range of an existing profile, and no two overlap. */
  ghost predicate SlotsOk(slots: map<Id, TimeSlot>, next: nat, profiles: map<Id, TutorProfile>) {
    && (forall s :: s in slots ==> s < next && slots[s].profileId in profiles)
    && AllSlotsWellFormed(slots)
    && NoOverlap(slots)
  }

  /** Bookings refer to existing accounts and profiles; an active booking holds an existing slot of
      its tutor; a slot has at most one active booking, and isBooked holds exactly when it has one. */
  ghost predicate BookingsOk(bookings: seq<Booking>, users: map<Id, User>, profiles: map<Id, TutorProfile>, slots: map<Id, TimeSlot>) {
    && (forall i :: 0 <= i < |bookings| ==>
          bookings[i].studentId in users && bookings[i].tutorProfileId in profiles)
    && (forall i :: 0 <= i < |bookings| && IsActive(bookings[i].status) ==>
          bookings[i].timeSlotId in slots && slots[bookings[i].timeSlotId].isBooked &&
          slots[bookings[i].timeSlotId].profileId == bookings[i].tutorProfileId)
    && (forall i, j {:trigger BothHoldSlot(bookings[i], bookings[j])} | 0 <= i < |bookings| && 0 <= j < |bookings| && i != j ::
          !BothHoldSlot(bookings[i], bookings[j]))
    && (forall s :: s in slots && slots[s].isBooked ==> HasActiveBooking(bookings, s))
  }

  /** Two reviews of the same booking. */
  predicate SameBooking(a: Review, b: Review) {
    a.bookingId == b.bookingId
  }

  /** A review belongs to a COMPLETE booking, by that booking's student, with a rating in [0, 5],
      and no booking has two. */
  ghost predicate ReviewsOk(reviews: seq<Review>, bookings: seq<Booking>) {
    && (forall k :: 0 <= k < |reviews| ==>
          reviews[k].bookingId < |bookings| &&
          bookings[reviews[k].bookingId].status == COMPLETE &&
          reviews[k].studentId == bookings[reviews[k].bookingId].studentId &&
          reviews[k].tutorProfileId == bookings[reviews[k].bookingId].tutorProfileId &&
          0.0 <= reviews[k].rating <= 5.0)
    && (forall k, l {:trigger SameBooking(reviews[k], reviews[l])} | 0 <= k < |reviews| && 0 <= l < |reviews| && k != l ::
          !SameBooking(reviews[k], reviews[l]))
  }

  ghost predicate Consistent(t: Tables) {
    && ProfilesOk(t.users, t.profiles, t.profileOfUser, t.nextProfileId)
    && TaxonomyOk(t.categories, t.nextCategoryId, t.subjects, t.nextSubjectId)
    && TutorSubjectsOk(t.tutorSubjects, t.profiles, t.subjects)
    && EducationsOk(t.educations, t.nextEducationId, t.profiles)
    && AvailabilitiesOk(t.availabilities, t.nextAvailabilityId, t.profiles)
    && SlotsOk(t.slots, t.nextSlotId, t.profiles)
    && BookingsOk(t.bookings, t.users, t.profiles, t.slots)
    && ReviewsOk(t.reviews, t.bookings)
  }

  /** The database the services share. */
  class Db {
    var tables: Tables

    ghost predicate Valid()
      reads this
    {
      Consistent(tables)
    }

    /** An empty store over the accounts the authentication collaborator has registered. */
    constructor (users: map<Id, User>)
      ensures Valid()
      ensures tables == Tables(users, map[], map[], 0, map[], 0, map[], 0, {}, map[], 0, map[], 0, map[], 0, [], [])
    {
      tables := Tables(users, map[], map[], 0, map[], 0, map[], 0, {}, map[], 0, map[], 0, map[], 0, [], []);
    }
  }
}
