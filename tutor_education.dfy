/** A tutor's education entries: adding one (with the start/end year check), and updating or deleting
    one the tutor owns. */
module TutorEducation {
  import opened AppErrors
  import opened Store
  import opened TutorProfiles

  const InvalidEducationYears := AppError(400, "Invalid_Education_Years")
  const EducationNotFound := AppError(404, "Education_Not_found")

  /** The body of an addEducation request; an absent and a null endYear are both None. */
  datatype EducationPayload = EducationPayload(
    institute: string, degree: string, fieldOfStudy: string,
    startYear: int, endYear: Option<int>, isCurrent: Option<bool>)

  /** The body of an updateEducation request: every field may be absent (None); endYear may also be
      present and null (Some(None)), which clears it. */
  datatype EducationUpdate = EducationUpdate(
    institute: Option<string>, degree: Option<string>, fieldOfStudy: Option<string>,
    startYear: Option<int>, endYear: Option<Option<int>>, isCurrent: Option<bool>)

  /** `payload.endYear && startYear > endYear`: the check only runs when endYear is truthy, so a null
      end year and an end year of 0 are both let through. */
  predicate YearsRefused(p: EducationPayload) {
    p.endYear.Some? && p.endYear.value != 0 && p.startYear > p.endYear.value
  }

  /** The row education.create writes: the payload spread under the tutor's profile id. */
  function NewEducation(profileId: Id, p: EducationPayload): Education
  {
    Education(profileId, p.institute, p.degree, p.fieldOfStudy, p.startYear, p.endYear, p.isCurrent)
  }

  /** education.update with the payload as data: present fields are written, absent ones kept; the
      owning profile never changes. */
  function ApplyUpdate(e: Education, u: EducationUpdate): (r: Education)
    ensures r.profileId == e.profileId
    ensures u.endYear.Some? ==> r.endYear == u.endYear.value
    ensures u.endYear.None? ==> r.endYear == e.endYear
  {
    Education(
      e.profileId,
      if u.institute.Some? then u.institute.value else e.institute,
      if u.degree.Some? then u.degree.value else e.degree,
      if u.fieldOfStudy.Some? then u.fieldOfStudy.value else e.fieldOfStudy,
      if u.startYear.Some? then u.startYear.value else e.startYear,
      if u.endYear.Some? then u.endYear.value else e.endYear,
      if u.isCurrent.Some? then Some(u.isCurrent.value) else e.isCurrent)
  }

  /** An update with no field present leaves the entry as it is. */
  lemma EmptyUpdateKeepsEntry(e: Education)
    ensures ApplyUpdate(e, EducationUpdate(None, None, None, None, None, None)) == e
  {
  }

  /** Applying the same update twice is the same as applying it once. */
  lemma UpdateIdempotent(e: Education, u: EducationUpdate)
    ensures ApplyUpdate(ApplyUpdate(e, u), u) == ApplyUpdate(e, u)
  {
  }

  /** updateEducation runs no year check: an update can leave an entry whose start year is after its
      end year, which addEducation would have refused. */
  lemma UpdateCanUnorderYears(e: Education)
    requires e.endYear == Some(2000)
    ensures ApplyUpdate(e, EducationUpdate(None, None, None, Some(2010), None, None)).startYear >
            ApplyUpdate(e, EducationUpdate(None, None, None, Some(2010), None, None)).endYear.value
  {
  }

  /** The guard of updateEducation and deleteEducation: the entry exists and is the tutor's own. */
  predicate EducationOwnedBy(educations: map<Id, Education>, id: Id, profileId: Id) {
    id in educations && educations[id].profileId == profileId
  }

  /** addEducation: refuses, in this order, a start year after a truthy end year and an account
      without a tutor profile; otherwise inserts the payload under that profile. */
  method AddEducation(db: Db, userId: Id, payload: EducationPayload) returns (r: Result<Id>)
    requires db.Valid()
    modifies db
    ensures db.Valid()
    ensures YearsRefused(payload) ==> r == Err(InvalidEducationYears)
    ensures !YearsRefused(payload) && ProfileOf(old(db.tables), userId).None? ==> r == Err(TutorProfileNotFound)
    ensures !YearsRefused(payload) && ProfileOf(old(db.tables), userId).Some? ==> r.Ok?
    ensures r.Err? ==> db.tables == old(db.tables)
    ensures r.Ok? ==>
      && !YearsRefused(payload) && ProfileOf(old(db.tables), userId).Some?
      && r.value !in old(db.tables.educations)
      && db.tables == old(db.tables).(
           educations := old(db.tables.educations)[r.value := NewEducation(ProfileOf(old(db.tables), userId).value, payload)],
           nextEducationId := r.value + 1)
  {
    var t := db.tables;
    if payload.endYear.Some? && payload.endYear.value != 0 && payload.startYear > payload.endYear.value {
      return Err(InvalidEducationYears);
    }
    var profile := ProfileOf(t, userId);
    if profile.None? {
      return Err(TutorProfileNotFound);
    }
    var id := t.nextEducationId;
    db.tables := t.(educations := t.educations[id := NewEducation(profile.value, payload)], nextEducationId := id + 1);
    return Ok(id);
  }

  /** updateEducation: refuses an account without a tutor profile, then an entry that does not exist
      or belongs to another profile; otherwise writes the present fields of the update. */
  method UpdateEducation(db: Db, userId: Id, educationId: Id, update: EducationUpdate) returns (r: Result<Education>)
    requires db.Valid()
    modifies db
    ensures db.Valid()
    ensures ProfileOf(old(db.tables), userId).None? ==> r == Err(TutorProfileNotFound)
    ensures (&& ProfileOf(old(db.tables), userId).Some?
             && !EducationOwnedBy(old(db.tables.educations), educationId, ProfileOf(old(db.tables), userId).value)) ==>
      r == Err(EducationNotFound)
    ensures (&& ProfileOf(old(db.tables), userId).Some?
             && EducationOwnedBy(old(db.tables.educations), educationId, ProfileOf(old(db.tables), userId).value)) ==>
      r.Ok?
    ensures r.Err? ==> db.tables == old(db.tables)
    ensures r.Ok? ==>
      && ProfileOf(old(db.tables), userId).Some?
      && EducationOwnedBy(old(db.tables.educations), educationId, ProfileOf(old(db.tables), userId).value)
      && r.value == ApplyUpdate(old(db.tables.educations[educationId]), update)
      && db.tables == old(db.tables).(educations := old(db.tables.educations)[educationId := r.value])
  {
    var t := db.tables;
    var profile := ProfileOf(t, userId);
    if profile.None? {
      return Err(TutorProfileNotFound);
    }
    if educationId !in t.educations || t.educations[educationId].profileId != profile.value {
      return Err(EducationNotFound);
    }
    var updated := ApplyUpdate(t.educations[educationId], update);
    db.tables := t.(educations := t.educations[educationId := updated]);
    return Ok(updated);
  }

  /** deleteEducation: the same two refusals as updateEducation; otherwise removes the entry and
      returns it. */
  method DeleteEducation(db: Db, userId: Id, educationId: Id) returns (r: Result<Education>)
    requires db.Valid()
    modifies db
    ensures db.Valid()
    ensures ProfileOf(old(db.tables), userId).None? ==> r == Err(TutorProfileNotFound)
    ensures (&& ProfileOf(old(db.tables), userId).Some?
             && !EducationOwnedBy(old(db.tables.educations), educationId, ProfileOf(old(db.tables), userId).value)) ==>
      r == Err(EducationNotFound)
    ensures (&& ProfileOf(old(db.tables), userId).Some?
             && EducationOwnedBy(old(db.tables.educations), educationId, ProfileOf(old(db.tables), userId).value)) ==>
      r.Ok?
    ensures r.Err? ==> db.tables == old(db.tables)
    ensures r.Ok? ==>
      && ProfileOf(old(db.tables), userId).Some?
      && EducationOwnedBy(old(db.tables.educations), educationId, ProfileOf(old(db.tables), userId).value)
      && r.value == old(db.tables.educations[educationId])
      && db.tables == old(db.tables).(educations := old(db.tables.educations) - {educationId})
  {
    var t := db.tables;
    var profile := ProfileOf(t, userId);
    if profile.None? {
      return Err(TutorProfileNotFound);
    }
    if educationId !in t.educations || t.educations[educationId].profileId != profile.value {
      return Err(EducationNotFound);
    }
    var removed := t.educations[educationId];
    db.tables := t.(educations := t.educations - {educationId});
    return Ok(removed);
  }
}
