/** The subjects a tutor teaches: adding a batch of subject ids, and removing one unless a confirmed
    booking of the tutor uses it. The tutorSubject table is a set of (profile, subject) pairs, since
    createMany runs with skipDuplicates and no pair is ever stored twice. */
module TutorSubjects {
  import opened AppErrors
  import opened BookingLifecycle
  import opened Store
  import opened TutorProfiles

  const MissingTutorProfile := AppError(404, "Missing_tutor_profile")
  const InvalidSubjectId := AppError(400, "Invalid_Subject_Id")
  const DuplicateTutorSubject := AppError(409, "Duplicate_Tutor_Subject")
  const SubjectNotAssigned := AppError(404, "Subject_Not_Assigned")
  const SubjectInUse := AppError(409, "Subject_In_Use")

  predicate Teaches(tutorSubjects: set<TutorSubject>, profileId: Id, subjectId: Id) {
    TutorSubject(profileId, subjectId) in tutorSubjects
  }

  /** The requested ids that are subjects and that the tutor does not teach yet: validSubjectIds
      without existingIds. Repeated ids in the request count once. */
  function NewSubjectIds(subjects: map<Id, Subject>, tutorSubjects: set<TutorSubject>, profileId: Id, subjectIds: seq<Id>): set<Id>
  {
    set s | s in subjectIds && s in subjects && !Teaches(tutorSubjects, profileId, s)
  }

  /** The rows createMany inserts for the new ids. */
  function RowsFor(profileId: Id, subjectIds: set<Id>): set<TutorSubject>
  {
    set s | s in subjectIds :: TutorSubject(profileId, s)
  }

  /** Once the new ids are inserted, the same request has nothing new to add: a repeated
      addTutorSubjects call is refused as a duplicate. */
  lemma RepeatAddsNothing(subjects: map<Id, Subject>, tutorSubjects: set<TutorSubject>, profileId: Id, subjectIds: seq<Id>)
    ensures NewSubjectIds(subjects, tutorSubjects + RowsFor(profileId, NewSubjectIds(subjects, tutorSubjects, profileId, subjectIds)),
                          profileId, subjectIds) == {}
  {
    var added := NewSubjectIds(subjects, tutorSubjects, profileId, subjectIds);
    var after := tutorSubjects + RowsFor(profileId, added);
    forall s | s in subjectIds && s in subjects
      ensures Teaches(after, profileId, s)
    {
      if !Teaches(tutorSubjects, profileId, s) {
        assert s in added;
        assert TutorSubject(profileId, s) in RowsFor(profileId, added);
      }
    }
  }

  /** addTutorSubjects: refuses, in this order, an account without a tutor profile, a request naming
      an id that is not a subject, and a request with nothing new (an empty request included);
      otherwise inserts a row for each new id and returns how many it inserted. */
  method AddTutorSubjects(db: Db, userId: Id, subjectIds: seq<Id>) returns (r: Result<nat>)
    requires db.Valid()
    modifies db
    ensures db.Valid()
    ensures ProfileOf(old(db.tables), userId).None? ==> r == Err(MissingTutorProfile)
    ensures (&& ProfileOf(old(db.tables), userId).Some?
             && exists k :: 0 <= k < |subjectIds| && subjectIds[k] !in old(db.tables.subjects)) ==>
      r == Err(InvalidSubjectId)
    ensures (&& ProfileOf(old(db.tables), userId).Some?
             && (forall k :: 0 <= k < |subjectIds| ==> subjectIds[k] in old(db.tables.subjects))
             && NewSubjectIds(old(db.tables.subjects), old(db.tables.tutorSubjects), ProfileOf(old(db.tables), userId).value, subjectIds) == {}) ==>
      r == Err(DuplicateTutorSubject)
    ensures (&& ProfileOf(old(db.tables), userId).Some?
             && (forall k :: 0 <= k < |subjectIds| ==> subjectIds[k] in old(db.tables.subjects))
             && NewSubjectIds(old(db.tables.subjects), old(db.tables.tutorSubjects), ProfileOf(old(db.tables), userId).value, subjectIds) != {}) ==>
      r.Ok?
    ensures r.Err? ==> db.tables == old(db.tables)
    ensures r.Ok? ==>
      && ProfileOf(old(db.tables), userId).Some?
      && (forall k :: 0 <= k < |subjectIds| ==> subjectIds[k] in old(db.tables.subjects))
      && var p := ProfileOf(old(db.tables), userId).value;
         var added := NewSubjectIds(old(db.tables.subjects), old(db.tables.tutorSubjects), p, subjectIds);
         && added != {}
         && r.value == |added|
         && db.tables == old(db.tables).(tutorSubjects := old(db.tables.tutorSubjects) + RowsFor(p, added))
         && forall k :: 0 <= k < |subjectIds| ==> Teaches(db.tables.tutorSubjects, p, subjectIds[k])
  {
    var t := db.tables;
    var profile := ProfileOf(t, userId);
    if profile.None? {
      return Err(MissingTutorProfile);
    }
    var p := profile.value;
    if exists k :: 0 <= k < |subjectIds| && subjectIds[k] !in t.subjects {
      return Err(InvalidSubjectId);
    }
    var added := NewSubjectIds(t.subjects, t.tutorSubjects, p, subjectIds);
    if added == {} {
      return Err(DuplicateTutorSubject);
    }
    var rows := RowsFor(p, added);
    db.tables := t.(tutorSubjects := t.tutorSubjects + rows);
    forall k | 0 <= k < |subjectIds|
      ensures Teaches(db.tables.tutorSubjects, p, subjectIds[k])
    {
      if !Teaches(t.tutorSubjects, p, subjectIds[k]) {
        assert TutorSubject(p, subjectIds[k]) in rows;
      }
    }
    return Ok(|added|);
  }

  /** The booking matches a tutor and a subject. */
  predicate OfTutorAndSubject(b: Booking, profileId: Id, subjectId: Id) {
    b.tutorProfileId == profileId && b.subjectId == subjectId
  }

  /** bookings.findFirst on tutor and subject: the index of the earliest matching booking. */
  function FirstBookingOf(bookings: seq<Booking>, profileId: Id, subjectId: Id): (f: Option<nat>)
    ensures f.Some? ==> f.value < |bookings| && OfTutorAndSubject(bookings[f.value], profileId, subjectId)
    ensures f.Some? ==> forall i :: 0 <= i < f.value ==> !OfTutorAndSubject(bookings[i], profileId, subjectId)
    ensures f.None? ==> forall i :: 0 <= i < |bookings| ==> !OfTutorAndSubject(bookings[i], profileId, subjectId)
  {
    if bookings == [] then None
    else if OfTutorAndSubject(bookings[0], profileId, subjectId) then Some(0)
    else
      match FirstBookingOf(bookings[1..], profileId, subjectId)
      case None => None
      case Some(j) => Some(j + 1)
  }

  /** The guard removeSubject runs as written: only the first booking of the tutor for the subject
      is looked at, and it blocks the removal when it is CONFIRM. */
  predicate BlocksRemovalAsWritten(bookings: seq<Booking>, profileId: Id, subjectId: Id) {
    var f := FirstBookingOf(bookings, profileId, subjectId);
    f.Some? && bookings[f.value].status == CONFIRM
  }

  /** The guard the error message describes: some CONFIRM booking of the tutor uses the subject. */
  predicate BlocksRemoval(bookings: seq<Booking>, profileId: Id, subjectId: Id) {
    exists i :: 0 <= i < |bookings| && OfTutorAndSubject(bookings[i], profileId, subjectId) && bookings[i].status == CONFIRM
  }

  /** Whatever the written guard blocks, the intended guard blocks too. */
  lemma AsWrittenBlocksLess(bookings: seq<Booking>, profileId: Id, subjectId: Id)
    ensures BlocksRemovalAsWritten(bookings, profileId, subjectId) ==> BlocksRemoval(bookings, profileId, subjectId)
  {
    if BlocksRemovalAsWritten(bookings, profileId, subjectId) {
      var f := FirstBookingOf(bookings, profileId, subjectId).value;
      assert OfTutorAndSubject(bookings[f], profileId, subjectId) && bookings[f].status == CONFIRM;
    }
  }

  /** A cancelled booking followed by a confirmed one for the same tutor and subject: the written
      guard looks only at the cancelled one and lets the subject be removed under the confirmed
      booking. */
  lemma AsWrittenMissesLaterConfirm()
    ensures var bookings := [Booking(1, 0, 0, 0, CANCELLED, 25.0), Booking(2, 0, 0, 1, CONFIRM, 25.0)];
      !BlocksRemovalAsWritten(bookings, 0, 0) && BlocksRemoval(bookings, 0, 0)
  {
    var bookings := [Booking(1, 0, 0, 0, CANCELLED, 25.0), Booking(2, 0, 0, 1, CONFIRM, 25.0)];
    assert FirstBookingOf(bookings, 0, 0) == Some(0);
    assert OfTutorAndSubject(bookings[1], 0, 0) && bookings[1].status == CONFIRM;
  }

  /** removeSubject, with the guard corrected to look at every booking: refuses, in this order, an
      account without a tutor profile, a subject the tutor does not teach and a subject a CONFIRM
      booking of the tutor uses; otherwise deletes the pair. A removal that succeeds leaves no
      confirmed booking of the tutor on that subject. */
  method RemoveSubject(db: Db, userId: Id, subjectId: Id) returns (r: Result<TutorSubject>)
    requires db.Valid()
    modifies db
    ensures db.Valid()
    ensures ProfileOf(old(db.tables), userId).None? ==> r == Err(TutorProfileNotFound)
    ensures (&& ProfileOf(old(db.tables), userId).Some?
             && !Teaches(old(db.tables.tutorSubjects), ProfileOf(old(db.tables), userId).value, subjectId)) ==>
      r == Err(SubjectNotAssigned)
    ensures (&& ProfileOf(old(db.tables), userId).Some?
             && Teaches(old(db.tables.tutorSubjects), ProfileOf(old(db.tables), userId).value, subjectId)
             && BlocksRemoval(old(db.tables.bookings), ProfileOf(old(db.tables), userId).value, subjectId)) ==>
      r == Err(SubjectInUse)
    ensures (&& ProfileOf(old(db.tables), userId).Some?
             && Teaches(old(db.tables.tutorSubjects), ProfileOf(old(db.tables), userId).value, subjectId)
             && !BlocksRemoval(old(db.tables.bookings), ProfileOf(old(db.tables), userId).value, subjectId)) ==>
      r.Ok?
    ensures r.Err? ==> db.tables == old(db.tables)
    ensures r.Ok? ==>
      && ProfileOf(old(db.tables), userId).Some?
      && var p := ProfileOf(old(db.tables), userId).value;
         && Teaches(old(db.tables.tutorSubjects), p, subjectId)
         && r.value == TutorSubject(p, subjectId)
         && db.tables == old(db.tables).(tutorSubjects := old(db.tables.tutorSubjects) - {r.value})
         && forall i :: 0 <= i < |db.tables.bookings| && OfTutorAndSubject(db.tables.bookings[i], p, subjectId) ==>
              db.tables.bookings[i].status != CONFIRM
  {
    var t := db.tables;
    var profile := ProfileOf(t, userId);
    if profile.None? {
      return Err(TutorProfileNotFound);
    }
    var p := profile.value;
    var row := TutorSubject(p, subjectId);
    if row !in t.tutorSubjects {
      return Err(SubjectNotAssigned);
    }
    if exists i :: 0 <= i < |t.bookings| && OfTutorAndSubject(t.bookings[i], p, subjectId) && t.bookings[i].status == CONFIRM {
      return Err(SubjectInUse);
    }
    db.tables := t.(tutorSubjects := t.tutorSubjects - {row});
    return Ok(row);
  }
}
