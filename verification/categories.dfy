/** `CategoryServiceImpl` over the category table: names are unique ignoring
    case, and an update may keep its own name in another case. */
module Categories {
  import opened Wrappers
  import opened Text
  import opened Table
  import opened Errors

  datatype Category = Category(id: int, name: string, description: string, imageUrl: string,
                               createdAt: Instant, updatedAt: Instant)
  datatype CategoryRequest = CategoryRequest(name: string, description: string, imageUrl: string)
  datatype CategoryResponse = CategoryResponse(id: int, name: string, description: string, imageUrl: string,
                                               createdAt: Instant)

  /** One category per id, and no two category names equal ignoring case. */
  predicate Valid(cats: seq<Category>) {
    Unique(cats, IdKey) && Unique(cats, NameKey)
  }

  function IdKey(c: Category): int { c.id }

  /** The name as `LOWER` compares it. */
  function NameKey(c: Category): string { Lower(c.name) }

  /** `getCategoryById`. */
  function GetCategoryById(cats: seq<Category>, id: int): (r: Option<Category>)
    ensures r.Some? ==> r.value in cats && r.value.id == id
    ensures r.None? <==> forall k :: 0 <= k < |cats| ==> cats[k].id != id
  {
    match IndexOfKey(cats, IdKey, id)
    case None => None
    case Some(i) => Some(cats[i])
  }

  /** `findByNameIgnoreCase(name).isPresent()`. */
  predicate NameExists(cats: seq<Category>, name: string) {
    exists k :: 0 <= k < |cats| && Lower(cats[k].name) == Lower(name)
  }

  /** `existsByNameIgnoreCaseAndIdNot`: another category already carries the name. */
  predicate NameTakenByOther(cats: seq<Category>, name: string, id: int) {
    exists k :: 0 <= k < |cats| && cats[k].id != id && Lower(cats[k].name) == Lower(name)
  }

  /** `createCategory`: reject a name already present ignoring case, otherwise
      add a category built from the request. */
  function CreateCategory(cats: seq<Category>, req: CategoryRequest, now: Instant): (r: Result<(seq<Category>, Category), Failure>)
    ensures r.Err? <==> NameExists(cats, req.name)
    ensures r.Err? ==> r.error == ResourceAlreadyExist("Category already exist" + req.name)
    ensures r.Ok? ==> r.value.0 == cats + [r.value.1]
    ensures r.Ok? ==> var c := r.value.1;
      c.name == req.name && c.description == req.description && c.imageUrl == req.imageUrl
      && c.createdAt == now && c.updatedAt == now
    ensures r.Ok? ==> forall k :: 0 <= k < |cats| ==> cats[k].id != r.value.1.id
  {
    if NameExists(cats, req.name) then
      Err(ResourceAlreadyExist("Category already exist" + req.name))
    else
      var c := Category(NextId(cats, IdKey), req.name, req.description, req.imageUrl, now, now);
      Ok((cats + [c], c))
  }

  /** `deleteById`: remove the category with this id, or fail when there is none. */
  function DeleteById(cats: seq<Category>, id: int): (r: Result<seq<Category>, Failure>)
    ensures r.Err? <==> forall k :: 0 <= k < |cats| ==> cats[k].id != id
    ensures r.Err? ==> r.error == ResourceNotFound("Category not found with Id : " + IntToString(id))
    ensures r.Ok? ==> |r.value| == |cats| - 1
  {
    match DeleteKey(cats, IdKey, id)
    case None => Err(ResourceNotFound("Category not found with Id : " + IntToString(id)))
    case Some(rest) => Ok(rest)
  }

  /** `updateCategory`: not-found before the name conflict, the conflict
      ignores the category's own row, and name, description and image URL are
      overwritten while id and creation time stay. */
  function UpdateCategory(cats: seq<Category>, id: int, req: CategoryRequest, now: Instant)
    : (r: Result<(seq<Category>, Category), Failure>)
    ensures (r.Err? && r.error.ResourceNotFound?) <==> forall k :: 0 <= k < |cats| ==> cats[k].id != id
    ensures r.Err? && r.error.ResourceNotFound? ==> r.error.message == "Category not found with Id : " + IntToString(id)
    ensures (r.Err? && r.error.ResourceAlreadyExist?) <==>
              (exists k :: 0 <= k < |cats| && cats[k].id == id) && NameTakenByOther(cats, req.name, id)
    ensures r.Err? ==> r.error.ResourceNotFound?
                       || r.error == ResourceAlreadyExist("Category with name " + req.name + " already exists")
    ensures r.Ok? ==> var (cats', c) := r.value;
      && |cats'| == |cats|
      && (exists k :: 0 <= k < |cats| && cats[k].id == id && cats'[k] == c
            && c == cats[k].(name := req.name, description := req.description, imageUrl := req.imageUrl, updatedAt := now))
      && forall k :: 0 <= k < |cats| && cats[k].id != id ==> cats'[k] == cats[k]
  {
    match IndexOfKey(cats, IdKey, id)
    case None => Err(ResourceNotFound("Category not found with Id : " + IntToString(id)))
    case Some(i) =>
      if NameTakenByOther(cats, req.name, id) then
        Err(ResourceAlreadyExist("Category with name " + req.name + " already exists"))
      else
        var c := cats[i].(name := req.name, description := req.description, imageUrl := req.imageUrl, updatedAt := now);
        Ok((cats[i := c], c))
  }

  /** `mapEntityToResponse`: the bean copy of the shared properties. */
  function MapEntityToResponse(c: Category): (r: CategoryResponse)
    ensures r.id == c.id && r.name == c.name && r.description == c.description
    ensures r.imageUrl == c.imageUrl && r.createdAt == c.createdAt
  {
    CategoryResponse(c.id, c.name, c.description, c.imageUrl, c.createdAt)
  }

  lemma CreateCategoryPreservesValid(cats: seq<Category>, req: CategoryRequest, now: Instant)
    requires Valid(cats)
    requires CreateCategory(cats, req, now).Ok?
    ensures Valid(CreateCategory(cats, req, now).value.0)
  {
    var (cats', c) := CreateCategory(cats, req, now).value;
    assert forall k :: 0 <= k < |cats| ==> cats'[k] == cats[k];
    assert cats'[|cats|] == c;
  }

  /** Deleting removes exactly the category with that id and keeps the table valid. */
  lemma DeleteByIdRemovesExactly(cats: seq<Category>, id: int)
    requires Valid(cats)
    requires DeleteById(cats, id).Ok?
    ensures forall x :: x in DeleteById(cats, id).value <==> x in cats && x.id != id
    ensures Valid(DeleteById(cats, id).value)
  {
    DeleteKeyRemovesExactly(cats, IdKey, id);
    DeleteKeyKeepsUnique(cats, IdKey, id, IdKey);
    DeleteKeyKeepsUnique(cats, IdKey, id, NameKey);
  }

  lemma UpdateCategoryPreservesValid(cats: seq<Category>, id: int, req: CategoryRequest, now: Instant)
    requires Valid(cats)
    requires UpdateCategory(cats, id, req, now).Ok?
    ensures Valid(UpdateCategory(cats, id, req, now).value.0)
  {
    var i := IndexOfKey(cats, IdKey, id).value;
    var cats' := UpdateCategory(cats, id, req, now).value.0;
    assert cats' == cats[i := cats[i].(name := req.name, description := req.description, imageUrl := req.imageUrl, updatedAt := now)];
    assert !NameTakenByOther(cats, req.name, id);
  }

  /** Renaming a category to its own name in another letter case is not a conflict. */
  lemma UpdateCategoryOwnNameAllowed(cats: seq<Category>, id: int, req: CategoryRequest, now: Instant)
    requires Valid(cats)
    requires exists k :: 0 <= k < |cats| && cats[k].id == id && Lower(cats[k].name) == Lower(req.name)
    ensures UpdateCategory(cats, id, req, now).Ok?
  {
  }

  /** The response to an update shows the request's fields under the
      category's unchanged id and creation time. */
  lemma UpdateThenRespond(cats: seq<Category>, id: int, req: CategoryRequest, now: Instant)
    requires UpdateCategory(cats, id, req, now).Ok?
    ensures var resp := MapEntityToResponse(UpdateCategory(cats, id, req, now).value.1);
      && resp.id == id
      && resp.name == req.name && resp.description == req.description && resp.imageUrl == req.imageUrl
      && GetCategoryById(cats, id).Some? && resp.createdAt == GetCategoryById(cats, id).value.createdAt
  {
    var i := IndexOfKey(cats, IdKey, id).value;
    assert GetCategoryById(cats, id) == Some(cats[i]);
  }
}
