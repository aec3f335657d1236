/** `categoryController.js`: the blog categories (create, list, read, update, delete). */
module CategoryController {
  import opened Common
  import opened Models
  import opened Store

  /** `createCategory` with the stored id and time the new category would get. Only a missing
      or empty `name` is refused; `description` is optional and kept as sent. */
  function CreateCategoryReply(nextId: Id, now: Time, name: Option<string>, description: Option<string>): (r: Reply<Category>)
    ensures r.status in {201, 400}
    ensures r.status == 400 <==> !Present(name)
    ensures r.status == 201 <==> r.body.Some?
    ensures r.status == 201 ==>
      r.body.value == Category(nextId, name.value, description, now, now)
  {
    if !Present(name) then Reply(400, "Category name is required", None)
    else Reply(201, "Category created successfully", Some(Category(nextId, name.value, description, now, now)))
  }

  /** `createCategory` against the database: on 201 the category is appended and an id and a
      moment of time are used up; otherwise nothing changes. */
  method CreateCategory(db: Db, name: Option<string>, description: Option<string>) returns (r: Reply<Category>)
    requires db.Valid()
    modifies db
    ensures db.Valid()
    ensures r == CreateCategoryReply(old(db.nextId), old(db.clock), name, description)
    ensures r.status != 201 ==> unchanged(db)
    ensures r.status == 201 ==>
      && db.categories == old(db.categories) + [r.body.value]
      && db.nextId == old(db.nextId) + 1 && db.clock == old(db.clock) + 1
      && db.users == old(db.users) && db.blogs == old(db.blogs)
      && db.questionCategories == old(db.questionCategories) && db.questions == old(db.questions)
  {
    r := CreateCategoryReply(db.nextId, db.clock, name, description);
    if r.status == 201 {
      StoreRaise(db.users, db.categories, db.blogs, db.questionCategories, db.questions,
                 db.nextId, db.clock, db.nextId + 1, db.clock + 1);
      CategoriesAppend(db.categories, r.body.value, db.nextId, db.clock);
      db.categories := db.categories + [r.body.value];
      db.nextId := db.nextId + 1;
      db.clock := db.clock + 1;
    }
  }

  /** `getAllCategories`: every category, newest first. */
  function GetAllCategories(categories: seq<Category>): (r: seq<Category>)
    ensures SortedDesc(r, CategoryCreated)
    ensures multiset(r) == multiset(categories)
    ensures |r| == |categories|
  {
    SortDesc(categories, CategoryCreated)
  }

  /** Categories are stored in creation order, so newest first is the reverse of that order. */
  lemma AllCategoriesNewestFirst(categories: seq<Category>)
    requires StrictlyIncreasing(categories, CategoryCreated)
    ensures GetAllCategories(categories) == Reverse(categories)
  {
    SortIncreasingIsReverse(categories, CategoryCreated);
  }

  /** A category just created is listed first. */
  lemma CreatedCategoryListedFirst(categories: seq<Category>, nextId: Id, now: Time,
                                   name: Option<string>, description: Option<string>)
    requires StrictlyIncreasing(categories, CategoryCreated) && AllBelow(categories, CategoryCreated, now)
    requires Present(name)
    ensures var c := CreateCategoryReply(nextId, now, name, description).body.value;
            GetAllCategories(categories + [c])[0] == c
  {
    var c := CreateCategoryReply(nextId, now, name, description).body.value;
    AppendIncreasing(categories, c, CategoryCreated);
    AllCategoriesNewestFirst(categories + [c]);
  }

  /** `getCategoryById`: 404 for an unknown id, otherwise the stored category. */
  function GetCategoryById(categories: seq<Category>, id: Id): (r: Reply<Category>)
    ensures r.status == 404 <==> forall k :: 0 <= k < |categories| ==> categories[k].id != id
    ensures r.status != 404 ==> r.status == 200 && r.body.Some? && r.body.value in categories && r.body.value.id == id
  {
    match Lookup(categories, CategoryId, id)
    case None => Reply(404, "Category not found", None)
    case Some(c) => Reply(200, "", Some(c))
  }

  /** `updateCategory` at time `now`. Only an unknown id is refused: the name is not checked,
      so an empty `name` is stored. A body key that is absent leaves that field as it was (the
      update document drops undefined values); `updatedAt` is set to `now`. */
  function UpdateCategoryReply(categories: seq<Category>, now: Time, id: Id,
                               name: Option<string>, description: Option<string>): (r: Reply<Category>)
    ensures r.status in {200, 404}
    ensures r.status == 404 <==> Lookup(categories, CategoryId, id).None?
    ensures r.status == 200 <==> r.body.Some?
    ensures r.status == 200 ==>
      && IndexOf(categories, CategoryId, id).Some?
      && var before := categories[IndexOf(categories, CategoryId, id).value];
      && var after := r.body.value;
      && after.id == id && after.createdAt == before.createdAt && after.updatedAt == now
      && after.name == (if name.Some? then name.value else before.name)
      && after.description == (if description.Some? then description else before.description)
  {
    match IndexOf(categories, CategoryId, id)
    case None => Reply(404, "Category not found", None)
    case Some(i) =>
      var c := categories[i];
      var c := if name.Some? then c.(name := name.value) else c;
      var c := if description.Some? then c.(description := description) else c;
      Reply(200, "Category updated successfully", Some(c.(updatedAt := now)))
  }

  /** `updateCategory` against the database: on 200 the category is replaced in place;
      otherwise nothing changes. */
  method UpdateCategory(db: Db, id: Id, name: Option<string>, description: Option<string>) returns (r: Reply<Category>)
    requires db.Valid()
    modifies db
    ensures db.Valid()
    ensures r == UpdateCategoryReply(old(db.categories), old(db.clock), id, name, description)
    ensures r.status != 200 ==> unchanged(db)
    ensures r.status == 200 ==>
      && db.categories == old(db.categories)[IndexOf(old(db.categories), CategoryId, id).value := r.body.value]
      && db.clock == old(db.clock) + 1
      && db.users == old(db.users) && db.blogs == old(db.blogs)
      && db.questionCategories == old(db.questionCategories) && db.questions == old(db.questions)
      && db.nextId == old(db.nextId)
  {
    r := UpdateCategoryReply(db.categories, db.clock, id, name, description);
    if r.status == 200 {
      var i := IndexOf(db.categories, CategoryId, id).value;
      StoreRaise(db.users, db.categories, db.blogs, db.questionCategories, db.questions,
                 db.nextId, db.clock, db.nextId, db.clock + 1);
      CategoriesReplace(db.categories, i, r.body.value, db.nextId, db.clock + 1);
      db.categories := db.categories[i := r.body.value];
      db.clock := db.clock + 1;
    }
  }

  /** An update sending neither field changes nothing but `updatedAt`. */
  lemma EmptyUpdateOnlyTouchesTime(categories: seq<Category>, now: Time, id: Id)
    requires Lookup(categories, CategoryId, id).Some?
    ensures var r := UpdateCategoryReply(categories, now, id, None, None);
            r.body.value == categories[IndexOf(categories, CategoryId, id).value].(updatedAt := now)
  {
  }

  /** Some stored blog refers to the category `id` (`Blog.countDocuments({ category }) > 0`). */
  predicate InUse(blogs: seq<Blog>, id: Id) {
    exists k :: 0 <= k < |blogs| && blogs[k].category == id
  }

  /** Counting the blogs of a category finds one exactly when the category is in use. */
  lemma InUseIffCounted(blogs: seq<Blog>, id: Id)
    ensures InUse(blogs, id) <==> |Filter(blogs, (b: Blog) => b.category == id)| > 0
  {
    var f := Filter(blogs, (b: Blog) => b.category == id);
    if |f| > 0 {
      assert f[0] in blogs && f[0].category == id;
      var k :| 0 <= k < |blogs| && blogs[k] == f[0];
    }
    if InUse(blogs, id) {
      var k :| 0 <= k < |blogs| && blogs[k].category == id;
      assert blogs[k] in f;
    }
  }

  /** `deleteCategory` as its code is written: the check on associated blogs names `Blog`,
      which the module never imports, so evaluating it throws and the handler answers 500 for
      every category that exists. */
  function DeleteCategoryAsWritten(categories: seq<Category>, blogs: seq<Blog>, id: Id): (r: Reply<()>)
    ensures r.status == 404 <==> Lookup(categories, CategoryId, id).None?
    ensures r.status != 404 ==> r.status == 500
  {
    if Lookup(categories, CategoryId, id).None? then Reply(404, "Category not found", None)
    else Reply(500, "Error deleting category", None)
  }

  /** `deleteCategory` as intended: 404 for an unknown id, 400 while a blog still refers to the
      category, otherwise 200. */
  function DeleteCategoryReply(categories: seq<Category>, blogs: seq<Blog>, id: Id): (r: Reply<()>)
    ensures r.status in {200, 400, 404}
    ensures r.status == 404 <==> Lookup(categories, CategoryId, id).None?
    ensures r.status == 400 <==> Lookup(categories, CategoryId, id).Some? && InUse(blogs, id)
    ensures r.status == 200 <==> Lookup(categories, CategoryId, id).Some? && !InUse(blogs, id)
  {
    InUseIffCounted(blogs, id);
    if Lookup(categories, CategoryId, id).None? then Reply(404, "Category not found", None)
    else if |Filter(blogs, (b: Blog) => b.category == id)| > 0 then
      Reply(400, "Cannot delete category with associated blogs", None)
    else Reply(200, "Category deleted successfully", None)
  }

  /** An existing category no blog uses can be deleted as intended, but the code as written
      answers 500 for it. */
  lemma DeleteCategoryDiscrepancy(categories: seq<Category>, id: Id)
    requires Lookup(categories, CategoryId, id).Some?
    ensures DeleteCategoryReply(categories, [], id).status == 200
    ensures DeleteCategoryAsWritten(categories, [], id).status == 500
  {
  }

  /** `deleteCategory` (as intended) against the database: on 200 the category is removed;
      otherwise nothing changes. Blogs never lose their category this way. */
  method DeleteCategory(db: Db, id: Id) returns (r: Reply<()>)
    requires db.Valid()
    modifies db
    ensures db.Valid()
    ensures r == DeleteCategoryReply(old(db.categories), old(db.blogs), id)
    ensures r.status != 200 ==> unchanged(db)
    ensures r.status == 200 ==>
      && db.categories == RemoveById(old(db.categories), CategoryId, id)
      && |db.categories| == |old(db.categories)| - 1
      && db.users == old(db.users) && db.blogs == old(db.blogs)
      && db.questionCategories == old(db.questionCategories) && db.questions == old(db.questions)
      && db.nextId == old(db.nextId) && db.clock == old(db.clock)
  {
    r := DeleteCategoryReply(db.categories, db.blogs, id);
    if r.status == 200 {
      RemoveByIdLength(db.categories, CategoryId, id);
      CategoriesRemove(db.categories, id, db.nextId, db.clock);
      db.categories := RemoveById(db.categories, CategoryId, id);
    }
  }

  /** The intended delete never leaves a blog pointing at a category that is gone: a blog
      whose category resolved before still resolves after. */
  lemma DeleteKeepsBlogCategories(categories: seq<Category>, blogs: seq<Blog>, id: Id, k: nat)
    requires DeleteCategoryReply(categories, blogs, id).status == 200
    requires k < |blogs| && Lookup(categories, CategoryId, blogs[k].category).Some?
    ensures Lookup(RemoveById(categories, CategoryId, id), CategoryId, blogs[k].category).Some?
  {
    var c := Lookup(categories, CategoryId, blogs[k].category).value;
    assert blogs[k].category != id;
    var j :| 0 <= j < |categories| && categories[j] == c;
    assert c in RemoveById(categories, CategoryId, id);
  }
}
