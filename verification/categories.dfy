/** CategoryServiceImpl: category names are unique, and a category in use cannot be deleted. */
module CategoryService {
  import opened Wrappers
  import EventModel

  datatype Category = Category(id: int, name: string)

  datatype NewCategoryDto = NewCategoryDto(name: string)

  /** The tables the service touches. `nextId` is the category table's identity counter. */
  datatype CategoryStore = CategoryStore(categories: map<int, Category>, events: map<int, EventModel.Event>, nextId: int)

  /** `findByName(name) != null`. */
  predicate NameTaken(s: CategoryStore, name: string) {
    exists id | id in s.categories :: s.categories[id].name == name
  }

  /** `countByCategory_Id(catId) != 0`. */
  predicate InUse(s: CategoryStore, catId: int) {
    exists id | id in s.events :: s.events[id].category == Some(catId)
  }

  predicate UniqueNames(s: CategoryStore) {
    forall a, b | a in s.categories && b in s.categories && a != b :: s.categories[a].name != s.categories[b].name
  }

  /** Every category is filed under its own id, below the counter; names are unique; every
      category an event names exists. */
  predicate Valid(s: CategoryStore) {
    && (forall id | id in s.categories :: s.categories[id].id == id && id < s.nextId)
    && UniqueNames(s)
    && (forall id | id in s.events && s.events[id].category.Some? :: s.events[id].category.value in s.categories)
  }

  /** `addCategory`: a taken name is refused. */
  function AddCategory(s: CategoryStore, d: NewCategoryDto): (r: Result<(CategoryStore, Category)>)
    ensures r.Ok? <==> !NameTaken(s, d.name)
    ensures r.Err? ==> r.error == ConstraintViolation
    ensures r.Ok? ==>
      && r.value.1 == Category(s.nextId, d.name)
      && r.value.0 == s.(categories := s.categories[s.nextId := r.value.1], nextId := s.nextId + 1)
  {
    if NameTaken(s, d.name) then Err(ConstraintViolation)
    else
      var c := Category(s.nextId, d.name);
      Ok((s.(categories := s.categories[s.nextId := c], nextId := s.nextId + 1), c))
  }

  lemma AddCategoryKeepsValid(s: CategoryStore, d: NewCategoryDto)
    requires Valid(s) && AddCategory(s, d).Ok?
    ensures Valid(AddCategory(s, d).value.0)
  {
  }

  /** `deleteCategory`: absent is NotFound, in use is a constraint violation. */
  function DeleteCategory(s: CategoryStore, catId: int): (r: Result<CategoryStore>)
    ensures catId !in s.categories ==> r == Err(NotFound)
    ensures catId in s.categories && InUse(s, catId) ==> r == Err(ConstraintViolation)
    ensures r.Ok? <==> catId in s.categories && !InUse(s, catId)
    ensures r.Ok? ==> r.value == s.(categories := s.categories - {catId})
  {
    if catId !in s.categories then Err(NotFound)
    else if !InUse(s, catId) then Ok(s.(categories := s.categories - {catId}))
    else Err(ConstraintViolation)
  }

  /** Deletion keeps every event's category in place: a category in use is never removed. */
  lemma DeleteCategoryKeepsValid(s: CategoryStore, catId: int)
    requires Valid(s) && DeleteCategory(s, catId).Ok?
    ensures Valid(DeleteCategory(s, catId).value)
  {
  }

  /** `updateCategory` as written. The unchanged name returns the stored category; a name held
      elsewhere is refused; otherwise the entity built from the body alone, without an id, is
      saved, which inserts a NEW category and leaves the old one as it was. */
  function UpdateCategory(s: CategoryStore, d: NewCategoryDto, catId: int): (r: Result<(CategoryStore, Category)>)
    ensures catId !in s.categories ==> r == Err(NotFound)
    ensures catId in s.categories && s.categories[catId].name == d.name ==> r == Ok((s, s.categories[catId]))
    ensures catId in s.categories && s.categories[catId].name != d.name && NameTaken(s, d.name) ==> r == Err(ConstraintViolation)
    ensures catId in s.categories && s.categories[catId].name != d.name && !NameTaken(s, d.name) ==>
      && r.Ok? && r.value.1 == Category(s.nextId, d.name)
      && r.value.0 == s.(categories := s.categories[s.nextId := r.value.1], nextId := s.nextId + 1)
  {
    if catId !in s.categories then Err(NotFound)
    else
      var oldCategory := s.categories[catId];
      if oldCategory.name == d.name then Ok((s, oldCategory))
      else if !NameTaken(s, d.name) then AddCategory(s, d)
      else Err(ConstraintViolation)
  }

  /** Renaming category 1 to a free name keeps category 1 under its old name and adds a second
      category with the new name. */
  lemma RenameAddsCategory()
    ensures var s := CategoryStore(map[1 := Category(1, "Music")], map[], 2);
            var r := UpdateCategory(s, NewCategoryDto("Theatre"), 1);
            && r.Ok?
            && r.value.0.categories[1] == Category(1, "Music")
            && r.value.0.categories.Keys == {1, 2}
            && r.value.1.id == 2
  {
    var s := CategoryStore(map[1 := Category(1, "Music")], map[], 2);
    assert !NameTaken(s, "Theatre") by {
      assert forall id | id in s.categories :: id == 1;
    }
  }

  /** Even as written, an update keeps the names unique. */
  lemma UpdateCategoryKeepsValid(s: CategoryStore, d: NewCategoryDto, catId: int)
    requires Valid(s) && UpdateCategory(s, d, catId).Ok?
    ensures Valid(UpdateCategory(s, d, catId).value.0)
  {
  }

  /** The evidently intended update: the category keeps its id and takes the new name. */
  function UpdateCategoryIntended(s: CategoryStore, d: NewCategoryDto, catId: int): (r: Result<(CategoryStore, Category)>)
    ensures r.Ok? <==> catId in s.categories && (s.categories[catId].name == d.name || !NameTaken(s, d.name))
    ensures r.Ok? ==> r.value.1 == Category(catId, d.name)
    ensures r.Ok? ==> r.value.0.categories.Keys == s.categories.Keys
    ensures r.Ok? ==> r.value.0 == s.(categories := s.categories[catId := Category(catId, d.name)])
  {
    if catId !in s.categories then Err(NotFound)
    else if s.categories[catId].name != d.name && NameTaken(s, d.name) then Err(ConstraintViolation)
    else
      var c := Category(catId, d.name);
      Ok((s.(categories := s.categories[catId := c]), c))
  }

  lemma UpdateCategoryIntendedKeepsValid(s: CategoryStore, d: NewCategoryDto, catId: int)
    requires Valid(s) && UpdateCategoryIntended(s, d, catId).Ok?
    ensures Valid(UpdateCategoryIntended(s, d, catId).value.0)
  {
    var s' := UpdateCategoryIntended(s, d, catId).value.0;
    if s.categories[catId].name != d.name {
      forall a, b | a in s'.categories && b in s'.categories && a != b
        ensures s'.categories[a].name != s'.categories[b].name
      {
        if a == catId {
          assert s.categories[b].name != d.name;
        } else if b == catId {
          assert s.categories[a].name != d.name;
        }
      }
    }
  }
}
