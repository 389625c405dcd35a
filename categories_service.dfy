/** Category creation (upper-cased, globally unique name) and the verbatim category update. */
module CategoriesService {
  import opened AppErrors
  import opened Text
  import opened Store

  const MissingCategoryName := AppError(400, "Missing category name")
  const DuplicateCategoryName := AppError(400, "Duplicate category name.")
  const MissingCategoryId := AppError(400, "Missing category id")
  const InvalidCategoryId := AppError(400, "Invalid_Category_id")

  ghost predicate NameTaken(categories: map<Id, Category>, name: string) {
    exists c :: c in categories && categories[c].name == name
  }

  ghost predicate CategoryNamesUnique(categories: map<Id, Category>) {
    forall c, d :: c in categories && d in categories && categories[c].name == categories[d].name ==> c == d
  }

  /** createCategory: refuses an empty name and a name whose upper-cased form some category already
      has; otherwise inserts the upper-cased name (not trimmed) with the description as given, so
      creation keeps category names unique. */
  method CreateCategory(db: Db, name: string, description: string) returns (r: Result<Id>)
    requires db.Valid()
    modifies db
    ensures db.Valid()
    ensures name == [] ==> r == Err(MissingCategoryName)
    ensures name != [] && NameTaken(old(db.tables.categories), ToUpper(name)) ==> r == Err(DuplicateCategoryName)
    ensures name != [] && !NameTaken(old(db.tables.categories), ToUpper(name)) ==> r.Ok?
    ensures r.Err? ==> db.tables == old(db.tables)
    ensures r.Ok? ==>
      && name != [] && !NameTaken(old(db.tables.categories), ToUpper(name))
      && r.value !in old(db.tables.categories)
      && db.tables == old(db.tables).(
           categories := old(db.tables.categories)[r.value := Category(ToUpper(name), description)],
           nextCategoryId := r.value + 1)
    ensures CategoryNamesUnique(old(db.tables.categories)) ==> CategoryNamesUnique(db.tables.categories)
  {
    var t := db.tables;
    if name == [] {
      return Err(MissingCategoryName);
    }
    var categoryName := ToUpper(name);
    if exists c :: c in t.categories && t.categories[c].name == categoryName {
      return Err(DuplicateCategoryName);
    }
    var id := t.nextCategoryId;
    db.tables := t.(categories := t.categories[id := Category(categoryName, description)], nextCategoryId := id + 1);
    return Ok(id);
  }

  /** updateCategory: refuses a missing or unknown id; otherwise writes the given fields verbatim
      (no upper-casing and no duplicate check) and leaves every other row alone. */
  method UpdateCategory(db: Db, id: Option<Id>, name: Option<string>, description: Option<string>)
    returns (r: Result<Category>)
    requires db.Valid()
    modifies db
    ensures db.Valid()
    ensures id.None? ==> r == Err(MissingCategoryId)
    ensures id.Some? && id.value !in old(db.tables.categories) ==> r == Err(InvalidCategoryId)
    ensures id.Some? && id.value in old(db.tables.categories) ==> r.Ok?
    ensures r.Err? ==> db.tables == old(db.tables)
    ensures r.Ok? ==>
      && id.Some? && id.value in old(db.tables.categories)
      && r.value == Category(
           if name.Some? then name.value else old(db.tables.categories[id.value].name),
           if description.Some? then description.value else old(db.tables.categories[id.value].description))
      && db.tables == old(db.tables).(categories := old(db.tables.categories)[id.value := r.value])
  {
    var t := db.tables;
    if id.None? {
      return Err(MissingCategoryId);
    }
    var categoryId := id.value;
    if categoryId !in t.categories {
      return Err(InvalidCategoryId);
    }
    var category := t.categories[categoryId];
    if name.Some? {
      category := category.(name := name.value);
    }
    if description.Some? {
      category := category.(description := description.value);
    }
    db.tables := t.(categories := t.categories[categoryId := category]);
    return Ok(category);
  }
}
