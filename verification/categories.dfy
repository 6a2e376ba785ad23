/** `CategoriesService` of backend/src/categories/categories.service.ts over the in-memory
    store. Every lookup is the pair `(id, userId)`, so a category of another user is
    indistinguishable from a missing one. */
module Categories {
  import opened Optional
  import opened Errors
  import opened Schema
  import Slugs
  import Text
  import Posts

  /** A category row with Prisma's `_count: { Post }` beside it. */
  datatype CategoryWithCount = CategoryWithCount(category: Category, postCount: nat)

  /** `findFirst({ where: { id, userId } })` finds a row. */
  predicate Owns(db: Db, id: Id, userId: Id) {
    id in db.categories && db.categories[id].userId == userId
  }

  /** `findFirst({ where: { slug, userId } })` finds a row. */
  predicate OwnerHasSlug(db: Db, userId: Id, slug: string) {
    exists id | id in db.categories :: db.categories[id].userId == userId && db.categories[id].slug == slug
  }

  /** `findFirst({ where: { slug, userId, id: { not: self } } })` finds a row. */
  predicate OwnerHasSlugElsewhere(db: Db, userId: Id, slug: string, self: Id) {
    exists id | id in db.categories && id != self ::
      db.categories[id].userId == userId && db.categories[id].slug == slug
  }

  /** No post, by any author, refers to category `id`. */
  predicate Unused(db: Db, id: Id) {
    forall pid :: pid in db.posts ==> db.posts[pid].categoryId != id
  }

  // ---------------------------------------------------------------------------
  // Reads

  /** `getAllCategories(userId)`: the user's categories, each with its post count. */
  function GetAllCategories(db: Db, userId: Id): (r: map<Id, CategoryWithCount>)
    ensures forall id :: Owns(db, id, userId) ==> id in r
    ensures forall id :: id in r ==>
      && Owns(db, id, userId)
      && r[id].category == db.categories[id]
      && r[id].postCount == PostCount(db, id)
      && (r[id].postCount == 0 <==> Unused(db, id))
  {
    map id | id in db.categories && db.categories[id].userId == userId ::
      CategoryWithCount(db.categories[id], PostCount(db, id))
  }

  function GetCategoryByIdBody(db: Db, id: Id, userId: Id): Result<CategoryWithCount> {
    if Owns(db, id, userId) then Ok(CategoryWithCount(db.categories[id], PostCount(db, id)))
    else Err(NotFound("Category not found"))
  }

  /** `getCategoryById(id, userId)`: found only when both the key and the owner match;
      otherwise the NotFound passes through the catch block unchanged. */
  function GetCategoryById(db: Db, id: Id, userId: Id): (r: Result<CategoryWithCount>)
    ensures r.Ok? <==> Owns(db, id, userId)
    ensures r.Ok? ==>
      && r.value.category == db.categories[id]
      && r.value.postCount == PostCount(db, id)
      && (r.value.postCount == 0 <==> Unused(db, id))
    ensures r.Err? ==> r.error == NotFound("Category not found")
  {
    CatchAllExcept(GetCategoryByIdBody(db, id, userId), (e: Exception) => e.NotFound?, "Failed to get category")
  }

  // ---------------------------------------------------------------------------
  // Writes

  function CreateCategoryBody(db: Db, name: string, userId: Id): Reply<Category> {
    var slug := Slugs.GenerateSlug(name);
    if OwnerHasSlug(db, userId, slug) then Reply(db, Err(Conflict("Category with this name already exists")))
    else
      var c := Category(id := db.nextCategoryId, name := name, slug := slug, userId := userId);
      Reply(db.(categories := db.categories[c.id := c], nextCategoryId := db.nextCategoryId + 1), Ok(c))
  }

  /** `createCategory({ name }, userId)`. It fails, changing nothing, exactly when the same
      user already owns a category with the slug of `name`; otherwise it adds one category
      under a fresh key, and one user's slugs stay distinct. */
  function CreateCategory(db: Db, name: string, userId: Id): (r: Reply<Category>)
    requires Valid(db)
    ensures Valid(r.db)
    ensures CategorySlugsUniquePerOwner(db) ==> CategorySlugsUniquePerOwner(r.db)
    ensures r.result.Err? <==> OwnerHasSlug(db, userId, Slugs.GenerateSlug(name))
    ensures r.result.Err? ==> r.db == db && r.result.error == InternalServerError("Failed to create category")
    ensures r.result.Ok? ==>
      var c := r.result.value;
      && c.id !in db.categories
      && r.db.categories == db.categories[c.id := c]
      && r.db.users == db.users && r.db.posts == db.posts
      && c.name == name && c.slug == Slugs.GenerateSlug(name) && c.userId == userId
  {
    var r := CreateCategoryBody(db, name, userId);
    if r.result.Ok? then InsertCategoryValid(db, r.result.value); Rethrow(r, "Failed to create category")
    else Rethrow(r, "Failed to create category")
  }

  /** Adding a category under the next key, with a slug its owner does not hold yet, keeps
      the schema's guarantees and one owner's slugs distinct. */
  lemma InsertCategoryValid(db: Db, c: Category)
    requires Valid(db) && c.id == db.nextCategoryId && !OwnerHasSlug(db, c.userId, c.slug)
    ensures var db' := db.(categories := db.categories[c.id := c], nextCategoryId := db.nextCategoryId + 1);
      Valid(db') && (CategorySlugsUniquePerOwner(db) ==> CategorySlugsUniquePerOwner(db'))
  {
  }

  /** Whether an update renames the category, which is when its slug is derived anew. */
  predicate Renames(c: Category, name: Option<string>) {
    Truthy(name) && name.value != c.name
  }

  function UpdateCategoryBody(db: Db, id: Id, name: Option<string>, userId: Id): Reply<Category> {
    if !Owns(db, id, userId) then Reply(db, Err(NotFound("Category not found")))
    else
      var c := db.categories[id];
      var slug := if Renames(c, name) then Slugs.GenerateSlug(name.value) else c.slug;
      if Renames(c, name) && OwnerHasSlugElsewhere(db, userId, slug, id) then
        Reply(db, Err(Conflict("Category with this name already exists")))
      else
        var updated := c.(name := if Truthy(name) then name.value else c.name, slug := slug);
        Reply(db.(categories := db.categories[id := updated]), Ok(updated))
  }

  /** `updateCategory(id, { name }, userId)`. It fails, changing nothing, when the user owns
      no such category or renames it to a slug another of their categories holds.
      Otherwise only that category changes: a truthy name replaces the old one, the slug is
      derived anew only on a real rename, and the owner's slugs stay distinct. */
  function UpdateCategory(db: Db, id: Id, name: Option<string>, userId: Id): (r: Reply<Category>)
    requires Valid(db)
    ensures Valid(r.db)
    ensures CategorySlugsUniquePerOwner(db) ==> CategorySlugsUniquePerOwner(r.db)
    ensures r.result.Err? <==>
      || !Owns(db, id, userId)
      || (Renames(db.categories[id], name) && OwnerHasSlugElsewhere(db, userId, Slugs.GenerateSlug(name.value), id))
    ensures r.result.Err? ==> r.db == db && r.result.error == InternalServerError("Failed to update category")
    ensures r.result.Ok? ==>
      var prev := db.categories[id];
      var c := r.result.value;
      && r.db == db.(categories := db.categories[id := c])
      && c.id == id && c.userId == userId
      && c.name == (if Truthy(name) then name.value else prev.name)
      && c.slug == (if Renames(prev, name) then Slugs.GenerateSlug(name.value) else prev.slug)
  {
    var r := UpdateCategoryBody(db, id, name, userId);
    if r.result.Ok? then ReplaceCategoryValid(db, r.result.value); Rethrow(r, "Failed to update category")
    else Rethrow(r, "Failed to update category")
  }

  /** Replacing a stored category by a version with the same key and owner, whose slug is
      either its old one or one no other category of that owner holds, keeps the schema's
      guarantees and one owner's slugs distinct. */
  lemma ReplaceCategoryValid(db: Db, c: Category)
    requires Valid(db) && c.id in db.categories && c.userId == db.categories[c.id].userId
    requires c.slug == db.categories[c.id].slug || !OwnerHasSlugElsewhere(db, c.userId, c.slug, c.id)
    ensures var db' := db.(categories := db.categories[c.id := c]);
      Valid(db') && (CategorySlugsUniquePerOwner(db) ==> CategorySlugsUniquePerOwner(db'))
  {
  }

  const InUsePrefix := "Cannot delete category. It has "
  const InUseSuffix := " post(s) associated with it."

  /** The conflict message of a guarded delete: the count, written in decimal, between a
      fixed prefix and suffix, from where it reads back. */
  function InUseMessage(count: nat): (m: string)
    ensures |m| > |InUsePrefix| + |InUseSuffix|
    ensures m[..|InUsePrefix|] == InUsePrefix && m[|m| - |InUseSuffix|..] == InUseSuffix
    ensures Text.AllDigits(m[|InUsePrefix|..|m| - |InUseSuffix|])
    ensures Text.DecimalValue(m[|InUsePrefix|..|m| - |InUseSuffix|]) == count
    ensures m[|InUsePrefix|] == '0' ==> count == 0
  {
    var m := InUsePrefix + Text.NatToDecimal(count) + InUseSuffix;
    assert m[|InUsePrefix|..|m| - |InUseSuffix|] == Text.NatToDecimal(count);
    Text.DecimalRoundTrip(count);
    m
  }

  function DeleteCategoryBody(db: Db, id: Id, userId: Id): Reply<string> {
    if !Owns(db, id, userId) then Reply(db, Err(NotFound("Category not found")))
    else if PostCount(db, id) > 0 then Reply(db, Err(Conflict(InUseMessage(PostCount(db, id)))))
    else Reply(db.(categories := db.categories - {id}), Ok("Category deleted successfully"))
  }

  /** `deleteCategory(id, userId)`: the category goes exactly when the user owns it and no
      post of any author refers to it, and then nothing else changes; otherwise the store
      is kept. */
  function DeleteCategory(db: Db, id: Id, userId: Id): (r: Reply<string>)
    requires Valid(db)
    ensures Valid(r.db)
    ensures CategorySlugsUniquePerOwner(db) ==> CategorySlugsUniquePerOwner(r.db)
    ensures r.result.Ok? <==> Owns(db, id, userId) && Unused(db, id)
    ensures r.result.Err? ==> r.db == db && r.result.error == InternalServerError("Failed to delete category")
    ensures r.result.Ok? ==>
      && r.db == db.(categories := db.categories - {id})
      && r.result.value == "Category deleted successfully"
  {
    Rethrow(DeleteCategoryBody(db, id, userId), "Failed to delete category")
  }

  // ---------------------------------------------------------------------------
  // Properties across calls

  /** The listing and the lookup agree: a category is listed for a user exactly when the
      lookup finds it for that user, and both report the same row and count. */
  lemma ListingAgreesWithLookup(db: Db, id: Id, userId: Id)
    ensures id in GetAllCategories(db, userId) <==> GetCategoryById(db, id, userId).Ok?
    ensures id in GetAllCategories(db, userId) ==>
      GetAllCategories(db, userId)[id] == GetCategoryById(db, id, userId).value
  {
  }

  /** The specific exceptions the bodies throw for someone else's category never reach the
      caller of `updateCategory` or `deleteCategory`: the catch block turns them into
      InternalServerError, while `getCategoryById` lets the NotFound through. */
  lemma NotFoundOnlyFromLookup(db: Db, id: Id, name: Option<string>, userId: Id)
    requires Valid(db) && !Owns(db, id, userId)
    ensures UpdateCategoryBody(db, id, name, userId).result == Err(NotFound("Category not found"))
    ensures DeleteCategoryBody(db, id, userId).result == Err(NotFound("Category not found"))
    ensures UpdateCategory(db, id, name, userId) == Reply(db, Err(InternalServerError("Failed to update category")))
    ensures DeleteCategory(db, id, userId) == Reply(db, Err(InternalServerError("Failed to delete category")))
    ensures GetCategoryById(db, id, userId) == Err(NotFound("Category not found"))
  {
  }

  /** The in-use message names its count: two messages are equal only for equal counts. */
  lemma InUseMessageInjective(m: nat, n: nat)
    requires InUseMessage(m) == InUseMessage(n)
    ensures m == n
  {
    var msg := InUseMessage(m);
    assert msg[|InUsePrefix|..|msg| - |InUseSuffix|] == InUseMessage(n)[|InUsePrefix|..|msg| - |InUseSuffix|];
  }

  /** Deleting a category in use throws a Conflict carrying the number of referring posts,
      which the catch block then replaces by the generic message. */
  lemma InUseConflictIsSwallowed(db: Db, id: Id, userId: Id)
    requires Valid(db) && Owns(db, id, userId) && !Unused(db, id)
    ensures DeleteCategoryBody(db, id, userId).result == Err(Conflict(InUseMessage(PostCount(db, id))))
    ensures PostCount(db, id) > 0
    ensures DeleteCategory(db, id, userId) == Reply(db, Err(InternalServerError("Failed to delete category")))
  {
  }

  /** Two users may give categories the same name: the slug of one does not block the
      other's. */
  lemma SameNameForTwoOwners(db: Db, name: string, u1: Id, u2: Id)
    requires Valid(db) && u1 != u2
    requires !OwnerHasSlug(db, u1, Slugs.GenerateSlug(name)) && !OwnerHasSlug(db, u2, Slugs.GenerateSlug(name))
    ensures var r1 := CreateCategory(db, name, u1);
      && r1.result.Ok?
      && CreateCategory(r1.db, name, u2).result.Ok?
      && CreateCategory(r1.db, name, u1).result.Err?
  {
    var slug := Slugs.GenerateSlug(name);
    var r1 := CreateCategory(db, name, u1);
    var c := r1.result.value;
    assert r1.db.categories[c.id] == c && c.slug == slug && c.userId == u1;
    forall id | id in r1.db.categories && r1.db.categories[id].userId == u2
      ensures r1.db.categories[id].slug != slug
    {
      if id != c.id {
        assert id in db.categories;
      }
    }
    assert !OwnerHasSlug(r1.db, u2, slug);
    assert OwnerHasSlug(r1.db, u1, slug);
  }

  /** A category just created has no posts, so its owner can delete it again, which
      restores the categories table. */
  lemma DeleteUndoesCreate(db: Db, name: string, userId: Id)
    requires Valid(db) && CreateCategory(db, name, userId).result.Ok?
    ensures var r := CreateCategory(db, name, userId);
      var d := DeleteCategory(r.db, r.result.value.id, userId);
      d.result.Ok? && d.db.categories == db.categories
  {
    var r := CreateCategory(db, name, userId);
    var c := r.result.value;
    assert Unused(r.db, c.id);
    Schema.MapPutRemove(db.categories, c.id, c);
  }

  /** A post filed under a category blocks that category's deletion, whoever wrote it. */
  lemma PostBlocksDelete(db: Db, data: Posts.CreatePostData, author: Id, owner: Id)
    requires Valid(db) && Posts.CreateSucceeds(db, data, author)
    ensures var r := Posts.CreatePost(db, data, author);
      DeleteCategory(r.db, data.categoryId, owner).result.Err?
  {
    var r := Posts.CreatePost(db, data, author);
    var p := r.result.value;
    assert r.db.posts[p.id].categoryId == data.categoryId;
  }
}
