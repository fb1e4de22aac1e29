/** `ProductServiceImpl` over the product table. A product refers to its
    category and its owning user by id; its name is unique ignoring case. */
module Products {
  import opened Wrappers
  import opened Text
  import opened Table
  import opened Errors
  import opened Users
  import opened Categories

  /** A `float` field, carried as its bit pattern and never computed on. */
  datatype Float = Float(bits: int)

  /** The value an `int` field holds when nothing is assigned to it. */
  const DEFAULT_INVENTORY := 0

  datatype Product = Product(
    id: int, sku: string, name: string, description: string, price: Float, weight: Float,
    weightUnit: string, brand: string, categoryId: int, expiryDate: Option<Instant>, userId: int,
    inventory: int, createdAt: Instant, updatedAt: Instant)

  datatype ProductRequest = ProductRequest(
    name: string, description: string, price: Float, weight: Float, weightUnit: string,
    brand: string, categoryId: int, expiryDate: Option<Instant>, userId: string, inventory: string)

  /** One product per id, and no two product names equal ignoring case. */
  predicate Valid(products: seq<Product>) {
    Unique(products, IdKey) && Unique(products, NameKey)
  }

  function IdKey(p: Product): int { p.id }

  /** The name as `LOWER` compares it. */
  function NameKey(p: Product): string { Lower(p.name) }

  /** `findByNameIgnoreCase(name).isPresent()`. */
  predicate NameExists(products: seq<Product>, name: string) {
    exists k :: 0 <= k < |products| && Lower(products[k].name) == Lower(name)
  }

  /** `existsByNameIgnoreCaseAndIdNot`: another product already carries the name. */
  predicate NameTakenByOther(products: seq<Product>, name: string, id: int) {
    exists k :: 0 <= k < |products| && products[k].id != id && Lower(products[k].name) == Lower(name)
  }

  /** The not-found error for a missing category. */
  function CategoryMissing(categoryId: int): Failure {
    ResourceNotFound("Category Not found with ID: " + IntToString(categoryId))
  }

  /** The not-found error for a missing user. */
  function UserMissing(userId: string): Failure {
    ResourceNotFound("User not found with ID: " + userId)
  }

  /** A missing category and a missing user never produce the same error, so
      a caller can tell which lookup failed. */
  lemma MissingErrorsDiffer(categoryId: int, userId: string)
    ensures CategoryMissing(categoryId) != UserMissing(userId)
  {
    assert CategoryMissing(categoryId).message[0] == 'C';
    assert UserMissing(userId).message[0] == 'U';
  }

  /** `createProduct` with `validateProductRequest`: the name conflict is
      checked first, then the category, then the user (`getUserById` is the
      parameter `userById`); the new product copies the request's properties
      of matching type and refers to exactly the category and user found. The
      request's inventory is text and the entity's an `int`, so the property
      copy skips it and the product keeps the default inventory. */
  function CreateProduct(products: seq<Product>, cats: seq<Category>, userById: string -> Option<User>,
                         req: ProductRequest, sku: string, now: Instant)
    : (r: Result<(seq<Product>, Product), Failure>)
    ensures (r.Err? && r.error.ResourceAlreadyExist?) <==> NameExists(products, req.name)
    ensures r.Err? && r.error.ResourceAlreadyExist? ==> r.error.message == req.name + " is already exist"
    ensures (r.Err? && r.error == CategoryMissing(req.categoryId)) <==>
              !NameExists(products, req.name) && GetCategoryById(cats, req.categoryId).None?
    ensures (r.Err? && r.error == UserMissing(req.userId)) <==>
              !NameExists(products, req.name) && GetCategoryById(cats, req.categoryId).Some?
              && userById(req.userId).None?
    ensures r.Err? ==> r.error.ResourceAlreadyExist? || r.error == CategoryMissing(req.categoryId)
                       || r.error == UserMissing(req.userId)
    ensures r.Ok? <==> !NameExists(products, req.name) && GetCategoryById(cats, req.categoryId).Some?
                       && userById(req.userId).Some?
    ensures r.Ok? ==> var (products', p) := r.value;
      && products' == products + [p]
      && (forall k :: 0 <= k < |products| ==> products[k].id != p.id)
      && p.name == req.name && p.description == req.description && p.price == req.price
      && p.weight == req.weight && p.weightUnit == req.weightUnit && p.brand == req.brand
      && p.expiryDate == req.expiryDate && p.inventory == DEFAULT_INVENTORY
      && p.sku == sku && p.createdAt == now && p.updatedAt == now
      && GetCategoryById(cats, req.categoryId).Some? && p.categoryId == req.categoryId
      && userById(req.userId).Some? && p.userId == userById(req.userId).value.id
  {
    MissingErrorsDiffer(req.categoryId, req.userId);
    if NameExists(products, req.name) then
      Err(ResourceAlreadyExist(req.name + " is already exist"))
    else match GetCategoryById(cats, req.categoryId)
      case None => Err(CategoryMissing(req.categoryId))
      case Some(category) =>
        match userById(req.userId)
        case None => Err(UserMissing(req.userId))
        case Some(user) =>
          var p := Product(NextId(products, IdKey), sku, req.name, req.description,
                           req.price, req.weight, req.weightUnit, req.brand, category.id,
                           req.expiryDate, user.id, DEFAULT_INVENTORY, now, now);
          Ok((products + [p], p))
  }

  /** `deleteById`: remove the product with this id, or fail when there is none. */
  function DeleteById(products: seq<Product>, id: int): (r: Result<seq<Product>, Failure>)
    ensures r.Err? <==> forall k :: 0 <= k < |products| ==> products[k].id != id
    ensures r.Err? ==> r.error == ResourceNotFound("Error: Product is not found.")
    ensures r.Ok? ==> |r.value| == |products| - 1
  {
    match DeleteKey(products, IdKey, id)
    case None => Err(ResourceNotFound("Error: Product is not found."))
    case Some(rest) => Ok(rest)
  }

  /** The fields `updateProduct` overwrites; id, sku, expiry date and creation
      time are kept. */
  function Overwrite(p: Product, req: ProductRequest, categoryId: int, userId: int, inventory: int, now: Instant): Product {
    p.(name := req.name, description := req.description, price := req.price, weight := req.weight,
       weightUnit := req.weightUnit, brand := req.brand, categoryId := categoryId, userId := userId,
       inventory := inventory, updatedAt := now)
  }

  /** `updateProduct`: existence, then the name conflict with other ids, then
      the category, then the user; only a request that passes all four changes
      the table, and only in the product's own row. The source hands the
      request's inventory text to the entity's `int` setter; `inventoryOf` is
      that conversion. */
  function UpdateProduct(products: seq<Product>, cats: seq<Category>, userById: string -> Option<User>,
                         inventoryOf: string -> int, id: int, req: ProductRequest, now: Instant)
    : (r: Result<(seq<Product>, Product), Failure>)
    ensures (r.Err? && r.error == ResourceNotFound("Error: Product is not found.")) <==>
              forall k :: 0 <= k < |products| ==> products[k].id != id
    ensures (r.Err? && r.error.ResourceAlreadyExist?) <==>
              (exists k :: 0 <= k < |products| && products[k].id == id) && NameTakenByOther(products, req.name, id)
    ensures r.Err? && r.error.ResourceAlreadyExist? ==>
              r.error.message == "Product with name " + req.name + " already exists"
    ensures (r.Err? && r.error == CategoryMissing(req.categoryId)) <==>
              (exists k :: 0 <= k < |products| && products[k].id == id) && !NameTakenByOther(products, req.name, id)
              && GetCategoryById(cats, req.categoryId).None?
    ensures (r.Err? && r.error == UserMissing(req.userId)) <==>
              (exists k :: 0 <= k < |products| && products[k].id == id) && !NameTakenByOther(products, req.name, id)
              && GetCategoryById(cats, req.categoryId).Some? && userById(req.userId).None?
    ensures r.Err? ==> r.error == ResourceNotFound("Error: Product is not found.") || r.error.ResourceAlreadyExist?
                       || r.error == CategoryMissing(req.categoryId) || r.error == UserMissing(req.userId)
    ensures r.Ok? <==> (exists k :: 0 <= k < |products| && products[k].id == id) && !NameTakenByOther(products, req.name, id)
                       && GetCategoryById(cats, req.categoryId).Some? && userById(req.userId).Some?
    ensures r.Ok? ==> var (products', p) := r.value;
      && |products'| == |products|
      && userById(req.userId).Some? && GetCategoryById(cats, req.categoryId).Some?
      && (exists k :: 0 <= k < |products| && products[k].id == id && products'[k] == p
            && p == Overwrite(products[k], req, req.categoryId, userById(req.userId).value.id, inventoryOf(req.inventory), now))
      && forall k :: 0 <= k < |products| && products[k].id != id ==> products'[k] == products[k]
  {
    MissingErrorsDiffer(req.categoryId, req.userId);
    match IndexOfKey(products, IdKey, id)
    case None =>
      assert UserMissing(req.userId).message[0] != "Error: Product is not found."[0];
      Err(ResourceNotFound("Error: Product is not found."))
    case Some(i) =>
      if NameTakenByOther(products, req.name, id) then
        Err(ResourceAlreadyExist("Product with name " + req.name + " already exists"))
      else match GetCategoryById(cats, req.categoryId)
        case None => Err(CategoryMissing(req.categoryId))
        case Some(category) =>
          match userById(req.userId)
          case None => Err(UserMissing(req.userId))
          case Some(user) =>
            var p := Overwrite(products[i], req, category.id, user.id, inventoryOf(req.inventory), now);
            Ok((products[i := p], p))
  }

  /** An update keeps the product's id, sku, expiry date and creation time. */
  lemma UpdateProductKeepsIdentity(products: seq<Product>, cats: seq<Category>, userById: string -> Option<User>,
                                   inventoryOf: string -> int, id: int, req: ProductRequest, now: Instant)
    requires UpdateProduct(products, cats, userById, inventoryOf, id, req, now).Ok?
    ensures var p := UpdateProduct(products, cats, userById, inventoryOf, id, req, now).value.1;
      exists k :: 0 <= k < |products| && products[k].id == id
        && p.id == products[k].id && p.sku == products[k].sku
        && p.expiryDate == products[k].expiryDate && p.createdAt == products[k].createdAt
  {
  }

  lemma CreateProductPreservesValid(products: seq<Product>, cats: seq<Category>, userById: string -> Option<User>,
                                    req: ProductRequest, sku: string, now: Instant)
    requires Valid(products)
    requires CreateProduct(products, cats, userById, req, sku, now).Ok?
    ensures Valid(CreateProduct(products, cats, userById, req, sku, now).value.0)
  {
    var (products', p) := CreateProduct(products, cats, userById, req, sku, now).value;
    assert forall k :: 0 <= k < |products| ==> products'[k] == products[k];
    assert products'[|products|] == p;
  }

  /** Deleting removes exactly the product with that id and keeps the table valid. */
  lemma DeleteByIdRemovesExactly(products: seq<Product>, id: int)
    requires Valid(products)
    requires DeleteById(products, id).Ok?
    ensures forall x :: x in DeleteById(products, id).value <==> x in products && x.id != id
    ensures Valid(DeleteById(products, id).value)
  {
    DeleteKeyRemovesExactly(products, IdKey, id);
    DeleteKeyKeepsUnique(products, IdKey, id, IdKey);
    DeleteKeyKeepsUnique(products, IdKey, id, NameKey);
  }

  lemma UpdateProductPreservesValid(products: seq<Product>, cats: seq<Category>, userById: string -> Option<User>,
                                    inventoryOf: string -> int, id: int, req: ProductRequest, now: Instant)
    requires Valid(products)
    requires UpdateProduct(products, cats, userById, inventoryOf, id, req, now).Ok?
    ensures Valid(UpdateProduct(products, cats, userById, inventoryOf, id, req, now).value.0)
  {
    var i := IndexOfKey(products, IdKey, id).value;
    var (products', p) := UpdateProduct(products, cats, userById, inventoryOf, id, req, now).value;
    assert products' == products[i := p];
    assert p.name == req.name && p.id == id;
    assert !NameTakenByOther(products, req.name, id);
  }
}
