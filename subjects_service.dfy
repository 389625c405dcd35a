/** Subject creation and renaming: names are trimmed and upper-cased, and unique within their category. */
module SubjectsService {
  import opened AppErrors
  import opened Text
  import opened Store

  const MissingCategoryIdForSubject := AppError(400, "Missing_Category_Id")
  const MissingCategory := AppError(400, "Missing_Category")
  const MissingSubjectName := AppError(400, "Missing_Subject_Name")
  const DuplicateSubjectName := AppError(400, "Duplicate_Subject_Name")
  const MissingSubjectId := AppError(400, "Missing Subject id")
  const InvalidSubjectId := AppError(400, "Invalid_Subject_id")

  /** Some subject other than `except` has this name in this category. */
  ghost predicate NameUsedInCategory(subjects: map<Id, Subject>, categoryId: Id, name: string, except: Option<Id>) {
    exists s :: s in subjects && subjects[s].categoryId == categoryId && subjects[s].name == name &&
      (except.None? || s != except.value)
  }

  /** The name check addSubject runs as written: `!payload.name`, which admits a blank name. */
  predicate AddSubjectAcceptsNameAsWritten(name: string) {
    name != []
  }

  /** The evidently intended check, the one updateSubject runs: the trimmed name is not empty. */
  predicate SubjectNameAccepted(name: string) {
    name != [] && Trim(name) != []
  }

  /** As written, a name of blanks passes addSubject's check and is stored as the empty name. */
  lemma BlankNamePassesAddSubject()
    ensures AddSubjectAcceptsNameAsWritten("  ") && Normalise("  ") == []
    ensures !SubjectNameAccepted("  ")
  {
    assert AllWhiteSpace("  ") by {
      forall k | 0 <= k < 2 ensures IsWhiteSpace("  "[k]) {}
    }
  }

  /** A name the intended check accepts normalises to a non-empty name in normal form. */
  lemma AcceptedNameNormalises(name: string)
    requires SubjectNameAccepted(name)
    ensures Normalise(name) != [] && IsNormalName(Normalise(name))
  {
    NormaliseGivesNormalName(name);
  }

  /** In a valid subject table no other subject of a subject's category carries its name, so a
      subject can always be renamed to the name it has. */
  lemma OwnNameIsFree(categories: map<Id, Category>, subjects: map<Id, Subject>, next: nat, id: Id)
    requires SubjectTableValid(categories, subjects, next) && id in subjects
    ensures !NameUsedInCategory(subjects, subjects[id].categoryId, subjects[id].name, Some(id))
  {
    forall s | s in subjects && s != id
      ensures !SameSubject(subjects[s], subjects[id])
    {
    }
  }

  /** addSubject: refuses, in this order, a missing category id, an unknown category, a missing
      (or blank) name and a normalised name the category already uses; otherwise inserts the
      normalised name under the category. The same name in another category is allowed. */
  method AddSubject(db: Db, categoryId: Option<Id>, name: string) returns (r: Result<Id>)
    requires db.Valid()
    modifies db
    ensures db.Valid()
    ensures categoryId.None? ==> r == Err(MissingCategoryIdForSubject)
    ensures categoryId.Some? && categoryId.value !in old(db.tables.categories) ==> r == Err(MissingCategory)
    ensures categoryId.Some? && categoryId.value in old(db.tables.categories) && !SubjectNameAccepted(name) ==>
      r == Err(MissingSubjectName)
    ensures (&& categoryId.Some? && categoryId.value in old(db.tables.categories) && SubjectNameAccepted(name)
             && NameUsedInCategory(old(db.tables.subjects), categoryId.value, Normalise(name), None)) ==>
      r == Err(DuplicateSubjectName)
    ensures (&& categoryId.Some? && categoryId.value in old(db.tables.categories) && SubjectNameAccepted(name)
             && !NameUsedInCategory(old(db.tables.subjects), categoryId.value, Normalise(name), None)) ==>
      r.Ok?
    ensures r.Err? ==> db.tables == old(db.tables)
    ensures r.Ok? ==>
      && categoryId.Some? && categoryId.value in old(db.tables.categories) && SubjectNameAccepted(name)
      && !NameUsedInCategory(old(db.tables.subjects), categoryId.value, Normalise(name), None)
      && r.value !in old(db.tables.subjects)
      && db.tables == old(db.tables).(
           subjects := old(db.tables.subjects)[r.value := Subject(categoryId.value, Normalise(name))],
           nextSubjectId := r.value + 1)
  {
    var t := db.tables;
    if categoryId.None? {
      return Err(MissingCategoryIdForSubject);
    }
    var category := categoryId.value;
    if category !in t.categories {
      return Err(MissingCategory);
    }
    if name == [] || Trim(name) == [] {
      return Err(MissingSubjectName);
    }
    var normalised := Normalise(name);
    if exists s :: s in t.subjects && t.subjects[s].categoryId == category && t.subjects[s].name == normalised {
      return Err(DuplicateSubjectName);
    }
    AcceptedNameNormalises(name);
    var id := t.nextSubjectId;
    SubjectTableWrite(t.categories, t.subjects, id, id, Subject(category, normalised));
    db.tables := t.(subjects := t.subjects[id := Subject(category, normalised)], nextSubjectId := id + 1);
    return Ok(id);
  }

  /** updateSubject: refuses a missing id, an unknown id, an empty or blank name, and a normalised
      name another subject of the same category has; otherwise writes the normalised name and
      keeps the category. Renaming a subject to its own name succeeds. */
  method UpdateSubject(db: Db, id: Option<Id>, name: string) returns (r: Result<Subject>)
    requires db.Valid()
    modifies db
    ensures db.Valid()
    ensures id.None? ==> r == Err(MissingSubjectId)
    ensures id.Some? && id.value !in old(db.tables.subjects) ==> r == Err(InvalidSubjectId)
    ensures id.Some? && id.value in old(db.tables.subjects) && !SubjectNameAccepted(name) ==> r == Err(MissingSubjectName)
    ensures (&& id.Some? && id.value in old(db.tables.subjects) && SubjectNameAccepted(name)
             && NameUsedInCategory(old(db.tables.subjects), old(db.tables.subjects[id.value].categoryId), Normalise(name), id)) ==>
      r == Err(DuplicateSubjectName)
    ensures (&& id.Some? && id.value in old(db.tables.subjects) && SubjectNameAccepted(name)
             && !NameUsedInCategory(old(db.tables.subjects), old(db.tables.subjects[id.value].categoryId), Normalise(name), id)) ==>
      r.Ok?
    ensures r.Err? ==> db.tables == old(db.tables)
    ensures r.Ok? ==>
      && id.Some? && id.value in old(db.tables.subjects) && SubjectNameAccepted(name)
      && !NameUsedInCategory(old(db.tables.subjects), old(db.tables.subjects[id.value].categoryId), Normalise(name), id)
      && r.value == old(db.tables.subjects[id.value]).(name := Normalise(name))
      && db.tables == old(db.tables).(subjects := old(db.tables.subjects)[id.value := r.value])
    ensures (&& id.Some? && id.value in old(db.tables.subjects) && SubjectNameAccepted(name)
             && Normalise(name) == old(db.tables.subjects[id.value].name)) ==> r.Ok?
  {
    var t := db.tables;
    if id.None? {
      return Err(MissingSubjectId);
    }
    var subjectId := id.value;
    if subjectId !in t.subjects {
      return Err(InvalidSubjectId);
    }
    if name == [] || Trim(name) == [] {
      return Err(MissingSubjectName);
    }
    var updateName := Normalise(name);
    var category := t.subjects[subjectId].categoryId;
    OwnNameIsFree(t.categories, t.subjects, t.nextSubjectId, subjectId);
    if exists s :: s in t.subjects && t.subjects[s].name == updateName && t.subjects[s].categoryId == category && s != subjectId {
      return Err(DuplicateSubjectName);
    }
    AcceptedNameNormalises(name);
    var updated := t.subjects[subjectId].(name := updateName);
    SubjectTableWrite(t.categories, t.subjects, t.nextSubjectId, subjectId, updated);
    db.tables := t.(subjects := t.subjects[subjectId := updated]);
    return Ok(updated);
  }
}
