/** `blogController.js`: create, list (search and pagination), read, update, delete and
    "my blogs". The handlers that write are methods on the database; the queries are functions
    of the collections. */
module BlogController {
  import opened Common
  import opened Models
  import opened Store

  /** The text fields of a create request; `category` is the category id (absent or empty
      string is `None`). */
  datatype BlogInput = BlogInput(
    title: Option<string>,
    author: Option<string>,
    description: Option<string>,
    category: Option<Id>)

  /** `!title || !author || !description || !category`. */
  predicate MissingCreateField(body: BlogInput) {
    !Present(body.title) || !Present(body.author) || !Present(body.description) || body.category.None?
  }

  /** The stored image: the uploaded file's name, or the placeholder URL when no file is sent. */
  function ImageFor(file: Option<string>): string {
    if file.Some? then file.value else Placeholder
  }

  /** The 400 message for a create request that lacks a field. */
  const MissingFieldsMessage := "All required fields (title, author, description, category) must be provided"

  /** `createBlog` for the authenticated caller `caller`, given the stored categories, the id
      the new blog would get and the current time; `file` is the uploaded file's name. A
      missing field or an unknown category answers 400; a title or description that is blank
      once trimmed fails validation and answers 500; otherwise the new blog, owned and authored
      by the caller (the `author` sent in the body is only checked for presence). */
  function CreateBlogReply(categories: seq<Category>, nextId: Id, now: Time, caller: Id,
                           body: BlogInput, file: Option<string>): (r: Reply<Blog>)
    ensures r.status in {201, 400, 500}
    ensures r.status == 400 <==>
      MissingCreateField(body) || Lookup(categories, CategoryId, body.category.value).None?
    ensures r.status == 500 <==>
      && !MissingCreateField(body) && Lookup(categories, CategoryId, body.category.value).Some?
      && (Trim(body.title.value) == "" || Trim(body.description.value) == "")
    ensures r.status == 201 <==> r.body.Some?
    ensures r.status == 201 ==>
      var b := r.body.value;
      && b.id == nextId && b.createdAt == now && b.updatedAt == now
      && b.author == caller && b.user == caller
      && b.title == Trim(body.title.value) && b.description == Trim(body.description.value)
      && b.category == body.category.value
      && b.image == Some(ImageFor(file))
      && WellFormedBlog(b)
  {
    if MissingCreateField(body) then
      Reply(400, MissingFieldsMessage, None)
    else if Lookup(categories, CategoryId, body.category.value).None? then
      Reply(400, "Invalid category ID", None)
    else
      var imageUrl := ImageFor(file);
      var blog := CastBlog(nextId, body.title.value, caller, body.description.value,
                           body.category.value, Some(imageUrl), caller, now, now);
      if blog.None? then Reply(500, "Error creating blog", None)
      else Reply(201, "Blog created successfully", blog)
  }

  /** `createBlog` against the database, step by step as the handler does it: on 201 the blog
      is appended and an id and a moment of time are used up; on every other status nothing
      changes. */
  method CreateBlog(db: Db, caller: Id, body: BlogInput, file: Option<string>) returns (r: Reply<Blog>)
    requires db.Valid()
    modifies db
    ensures db.Valid()
    ensures r == CreateBlogReply(old(db.categories), old(db.nextId), old(db.clock), caller, body, file)
    ensures r.status != 201 ==> unchanged(db)
    ensures r.status == 201 ==>
      && db.blogs == old(db.blogs) + [r.body.value]
      && db.nextId == old(db.nextId) + 1 && db.clock == old(db.clock) + 1
      && db.users == old(db.users) && db.categories == old(db.categories)
      && db.questionCategories == old(db.questionCategories) && db.questions == old(db.questions)
  {
    if !Present(body.title) || !Present(body.author) || !Present(body.description) || body.category.None? {
      r := Reply(400, MissingFieldsMessage, None);
      assert r == CreateBlogReply(db.categories, db.nextId, db.clock, caller, body, file);
      return;
    }
    var categoryExists := Lookup(db.categories, CategoryId, body.category.value);
    if categoryExists.None? {
      r := Reply(400, "Invalid category ID", None);
      assert r == CreateBlogReply(db.categories, db.nextId, db.clock, caller, body, file);
      return;
    }
    var imageUrl := Placeholder;
    if file.Some? {
      imageUrl := file.value;
    }
    var blog := CastBlog(db.nextId, body.title.value, caller, body.description.value,
                         body.category.value, Some(imageUrl), caller, db.clock, db.clock);
    assert imageUrl == ImageFor(file);
    if blog.None? {
      r := Reply(500, "Error creating blog", None);
      assert r == CreateBlogReply(db.categories, db.nextId, db.clock, caller, body, file);
      return;
    }
    r := Reply(201, "Blog created successfully", blog);
    assert r == CreateBlogReply(db.categories, db.nextId, db.clock, caller, body, file);
    db.AddBlog(blog.value);
  }

  /** A created blog gets an id no stored blog has. */
  lemma CreatedIdIsFresh(blogs: seq<Blog>, categories: seq<Category>, nextId: Id, now: Time,
                          caller: Id, body: BlogInput, file: Option<string>)
    requires AllBelow(blogs, BlogId, nextId)
    ensures var r := CreateBlogReply(categories, nextId, now, caller, body, file);
            r.status == 201 ==> Lookup(blogs, BlogId, r.body.value.id).None?
  {
  }

  // ---------------------------------------------------------------------------------------------
  // getAllBlogs

  /** The query string: `search`, `page` (default 1) and `limit` (default 6), the numbers read
      as integers. */
  datatype ListQuery = ListQuery(search: Option<string>, page: Option<int>, limit: Option<int>)

  /** The JSON body of a successful listing. */
  datatype BlogPage = BlogPage(blogs: seq<Blog>, totalPages: int, currentPage: int, totalBlogs: nat)

  function PageOf(q: ListQuery): int { if q.page.Some? then q.page.value else 1 }
  function LimitOf(q: ListQuery): int { if q.limit.Some? then q.limit.value else 6 }

  /** The `$match` stage on a blog whose category was joined: no filter for an empty or absent
      `search`, otherwise a case-insensitive match on title, description or category name. */
  predicate MatchesSearch(b: Blog, c: Category, search: Option<string>) {
    || !Present(search)
    || ContainsIgnoreCase(b.title, search.value)
    || ContainsIgnoreCase(b.description, search.value)
    || ContainsIgnoreCase(c.name, search.value)
  }

  /** Survives the counting pipeline: the category lookup resolves (`$unwind` drops the blog
      otherwise) and the search matches. */
  predicate Counted(b: Blog, categories: seq<Category>, search: Option<string>) {
    match Lookup(categories, CategoryId, b.category)
    case None => false
    case Some(c) => MatchesSearch(b, c, search)
  }

  /** Survives the listing pipeline, which also unwinds the author lookup. */
  predicate Listed(b: Blog, categories: seq<Category>, users: seq<User>, search: Option<string>) {
    Counted(b, categories, search) && Lookup(users, UserId, b.author).Some?
  }

  /** The listing pipeline before `$skip`/`$limit`, in natural order. */
  function Matching(blogs: seq<Blog>, categories: seq<Category>, users: seq<User>, search: Option<string>): seq<Blog> {
    Filter(blogs, b => Listed(b, categories, users, search))
  }

  /** The counting pipeline before `$count`. */
  function CountedBlogs(blogs: seq<Blog>, categories: seq<Category>, search: Option<string>): seq<Blog> {
    Filter(blogs, b => Counted(b, categories, search))
  }

  /** Every match is a stored blog that passes the listing pipeline. */
  lemma MatchingSound(blogs: seq<Blog>, categories: seq<Category>, users: seq<User>, search: Option<string>)
    ensures forall i :: 0 <= i < |Matching(blogs, categories, users, search)| ==>
      Matching(blogs, categories, users, search)[i] in blogs &&
      Listed(Matching(blogs, categories, users, search)[i], categories, users, search)
  {
  }

  /** `skip = (page - 1) * limit`; with a positive limit it is negative exactly for pages
      below 1. */
  function SkipOf(q: ListQuery): (skip: int)
    ensures LimitOf(q) > 0 ==> (skip < 0 <==> PageOf(q) < 1)
    ensures skip == (PageOf(q) - 1) * LimitOf(q)
  {
    if LimitOf(q) > 0 && PageOf(q) >= 1 then MulMonotone(0, PageOf(q) - 1, LimitOf(q)); (PageOf(q) - 1) * LimitOf(q)
    else if LimitOf(q) > 0 then MulMonotone(PageOf(q) - 1, -1, LimitOf(q)); (PageOf(q) - 1) * LimitOf(q)
    else (PageOf(q) - 1) * LimitOf(q)
  }

  /** Every blog of a page of the matches is a stored blog that passes the listing pipeline. */
  lemma PageListed(blogs: seq<Blog>, categories: seq<Category>, users: seq<User>, search: Option<string>,
                   skip: nat, limit: nat)
    ensures var p := Page(Matching(blogs, categories, users, search), skip, limit);
      forall i :: 0 <= i < |p| ==> p[i] in blogs && Listed(p[i], categories, users, search)
  {
    MatchingSound(blogs, categories, users, search);
    PageWithin(Matching(blogs, categories, users, search), skip, limit);
  }

  /** The body of a successful listing: page `page`, skipping `skip` matches, at most `limit`. */
  function ListingOf(blogs: seq<Blog>, categories: seq<Category>, users: seq<User>, search: Option<string>,
                     page: int, skip: nat, limit: int): (p: BlogPage)
    requires limit > 0
    ensures |p.blogs| <= limit
    ensures forall i :: 0 <= i < |p.blogs| ==> p.blogs[i] in blogs && Listed(p.blogs[i], categories, users, search)
    ensures p.blogs == Page(Matching(blogs, categories, users, search), skip, limit)
    ensures p.totalBlogs == |CountedBlogs(blogs, categories, search)|
    ensures p.totalPages == CeilDiv(p.totalBlogs, limit)
    ensures p.currentPage == page
  {
    PageListed(blogs, categories, users, search, skip, limit);
    var total := |CountedBlogs(blogs, categories, search)|;
    BlogPage(Page(Matching(blogs, categories, users, search), skip, limit), CeilDiv(total, limit), page, total)
  }

  /** `getAllBlogs`. A negative `$skip` or a `$limit` that is not positive makes the database
      refuse the pipeline, which the handler answers with 500. */
  function GetAllBlogs(blogs: seq<Blog>, categories: seq<Category>, users: seq<User>, q: ListQuery): (r: Reply<BlogPage>)
    ensures r.status == 500 <==> LimitOf(q) <= 0 || PageOf(q) < 1
    ensures r.status != 500 ==> r.status == 200 && r.body.Some?
    ensures r.status == 200 ==>
      var p := r.body.value;
      && |p.blogs| <= LimitOf(q)
      && (forall i :: 0 <= i < |p.blogs| ==> p.blogs[i] in blogs && Listed(p.blogs[i], categories, users, q.search))
      && p.blogs == Page(Matching(blogs, categories, users, q.search), SkipOf(q), LimitOf(q))
      && p.totalBlogs == |CountedBlogs(blogs, categories, q.search)|
      && p.totalPages == CeilDiv(p.totalBlogs, LimitOf(q))
      && p.currentPage == PageOf(q)
  {
    if LimitOf(q) <= 0 || SkipOf(q) < 0 then
      Reply(500, "Error fetching blogs", None)
    else
      Reply(200, "", Some(ListingOf(blogs, categories, users, q.search, PageOf(q), SkipOf(q), LimitOf(q))))
  }

  /** Every listed blog is also counted, so the listing never holds more than the count; when
      every blog's author resolves, the two pipelines keep the same blogs. */
  lemma ListedWithinCount(blogs: seq<Blog>, categories: seq<Category>, users: seq<User>, search: Option<string>)
    ensures Matching(blogs, categories, users, search) ==
            Filter(CountedBlogs(blogs, categories, search), b => Listed(b, categories, users, search))
    ensures |Matching(blogs, categories, users, search)| <= |CountedBlogs(blogs, categories, search)|
    ensures (forall i :: 0 <= i < |blogs| ==> Lookup(users, UserId, blogs[i].author).Some?) ==>
            Matching(blogs, categories, users, search) == CountedBlogs(blogs, categories, search)
  {
    FilterNarrow(blogs, b => Listed(b, categories, users, search), b => Counted(b, categories, search));
    if forall i :: 0 <= i < |blogs| ==> Lookup(users, UserId, blogs[i].author).Some? {
      FilterAgree(blogs, b => Listed(b, categories, users, search), b => Counted(b, categories, search));
    }
  }

  /** A blog whose category does not resolve is neither listed nor counted, whatever the search. */
  lemma DanglingCategoryExcluded(blogs: seq<Blog>, categories: seq<Category>, users: seq<User>,
                                 search: Option<string>, b: Blog)
    requires Lookup(categories, CategoryId, b.category).None?
    ensures b !in Matching(blogs, categories, users, search)
    ensures b !in CountedBlogs(blogs, categories, search)
  {
  }

  /** With no search term, a blog is counted exactly when its category resolves. */
  lemma EmptySearchCountsResolved(blogs: seq<Blog>, categories: seq<Category>, search: Option<string>)
    requires !Present(search)
    ensures forall i :: 0 <= i < |blogs| ==>
      (blogs[i] in CountedBlogs(blogs, categories, search) <==> Lookup(categories, CategoryId, blogs[i].category).Some?)
  {
  }

  /** A blog whose title contains the search term (ignoring ASCII case), and whose category and
      author resolve, is among the matches. */
  lemma TitleHitIsListed(blogs: seq<Blog>, categories: seq<Category>, users: seq<User>,
                         search: string, k: nat, i: nat)
    requires k < |blogs| && search != ""
    requires Lookup(categories, CategoryId, blogs[k].category).Some?
    requires Lookup(users, UserId, blogs[k].author).Some?
    requires i + |search| <= |blogs[k].title| && Lower(blogs[k].title)[i..i + |search|] == Lower(search)
    ensures blogs[k] in Matching(blogs, categories, users, Some(search))
  {
    var b := blogs[k];
    FoldedHit(b.title, search, i);
    ListedKept(blogs, categories, users, Some(search), k);
  }

  /** An occurrence of the folded term at position `i` of the folded text is a hit. */
  lemma FoldedHit(text: string, search: string, i: nat)
    requires i + |search| <= |text| && Lower(text)[i..i + |search|] == Lower(search)
    ensures ContainsIgnoreCase(text, search)
  {
    ContainsAt(Lower(text), Lower(search), i);
  }

  /** A stored blog that passes the listing pipeline is among the matches. */
  lemma ListedKept(blogs: seq<Blog>, categories: seq<Category>, users: seq<User>, search: Option<string>, k: nat)
    requires k < |blogs| && Listed(blogs[k], categories, users, search)
    ensures blogs[k] in Matching(blogs, categories, users, search)
  {
  }

  /** Paging through pages 1 to `totalPages` returns every matching blog exactly once, in
      order. The count never falls below the number of matches, so the pages it announces
      reach past the last match even when some author does not resolve. */
  lemma PagesCoverMatches(blogs: seq<Blog>, categories: seq<Category>, users: seq<User>, q: ListQuery)
    requires LimitOf(q) > 0 && PageOf(q) >= 1
    ensures var m := Matching(blogs, categories, users, q.search);
            FirstPages(m, LimitOf(q), GetAllBlogs(blogs, categories, users, q).body.value.totalPages) == m
  {
    ListedWithinCount(blogs, categories, users, q.search);
    var m := Matching(blogs, categories, users, q.search);
    var p := GetAllBlogs(blogs, categories, users, q).body.value;
    var n: nat := p.totalPages;
    assert |m| <= p.totalBlogs <= n * LimitOf(q);
    FirstPagesArePrefix(m, LimitOf(q), n);
    assert Min(n * LimitOf(q), |m|) == |m|;
    assert m[..|m|] == m;
  }

  /** When every author resolves, a page is non-empty exactly when its number is at most the
      reported `totalPages`. */
  lemma PageNonEmptyWithinTotal(blogs: seq<Blog>, categories: seq<Category>, users: seq<User>, q: ListQuery)
    requires LimitOf(q) > 0 && PageOf(q) >= 1
    requires forall i :: 0 <= i < |blogs| ==> Lookup(users, UserId, blogs[i].author).Some?
    ensures var p := GetAllBlogs(blogs, categories, users, q).body.value;
            |p.blogs| > 0 <==> PageOf(q) <= p.totalPages
  {
    ListingShape(blogs, categories, users, q);
    var m := Matching(blogs, categories, users, q.search);
    PageNonEmptyIff(m, PageOf(q), LimitOf(q), SkipOf(q));
  }

  /** With every author resolving, a listing is the page at `skip` of the matches, and the
      number of pages is computed from the number of matches. */
  lemma ListingShape(blogs: seq<Blog>, categories: seq<Category>, users: seq<User>, q: ListQuery)
    requires LimitOf(q) > 0 && PageOf(q) >= 1
    requires forall i :: 0 <= i < |blogs| ==> Lookup(users, UserId, blogs[i].author).Some?
    ensures SkipOf(q) >= 0
    ensures var p := GetAllBlogs(blogs, categories, users, q).body.value;
            var m := Matching(blogs, categories, users, q.search);
            p.blogs == Page(m, SkipOf(q), LimitOf(q)) && p.totalPages == CeilDiv(|m|, LimitOf(q))
  {
    ListedWithinCount(blogs, categories, users, q.search);
  }

  /** With 13 matching blogs and the default limit, page 2 holds matches 7 to 12 and there
      are 3 pages. */
  lemma ThirteenMatchesSecondPage(blogs: seq<Blog>, categories: seq<Category>, users: seq<User>, search: Option<string>)
    requires forall i :: 0 <= i < |blogs| ==> Lookup(users, UserId, blogs[i].author).Some?
    requires |CountedBlogs(blogs, categories, search)| == 13
    ensures var r := GetAllBlogs(blogs, categories, users, ListQuery(search, Some(2), None));
            r.status == 200 && |r.body.value.blogs| == 6 && r.body.value.totalPages == 3
            && r.body.value.currentPage == 2 && r.body.value.totalBlogs == 13
            && r.body.value.blogs == Matching(blogs, categories, users, search)[6..12]
  {
    ListedWithinCount(blogs, categories, users, search);
    var m := Matching(blogs, categories, users, search);
    var r := GetAllBlogs(blogs, categories, users, ListQuery(search, Some(2), None));
    assert r.body.value.blogs == Page(m, 6, 6);
  }

  // ---------------------------------------------------------------------------------------------
  // getBlogById

  /** `getBlogById`: 404 for an unknown id, otherwise the stored blog. */
  function GetBlogById(blogs: seq<Blog>, id: Id): (r: Reply<Blog>)
    ensures r.status == 404 <==> forall k :: 0 <= k < |blogs| ==> blogs[k].id != id
    ensures r.status != 404 ==> r.status == 200 && r.body.Some? && r.body.value in blogs && r.body.value.id == id
  {
    match Lookup(blogs, BlogId, id)
    case None => Reply(404, "Blog not found", None)
    case Some(b) => Reply(200, "", Some(b))
  }

  // ---------------------------------------------------------------------------------------------
  // updateBlog

  datatype BlogUpdate = BlogUpdate(title: Option<string>, description: Option<string>, category: Option<Id>)

  /** `!title || !description || !category`. */
  predicate MissingUpdateField(body: BlogUpdate) {
    !Present(body.title) || !Present(body.description) || body.category.None?
  }

  /** Mongoose's change tracking: the assignments of `updateBlog` write back what is already
      stored (the new strings after the schema trims them, the same category and, when a file
      was sent, the same image), so no path is marked modified. */
  predicate Unmodified(before: Blog, body: BlogUpdate, file: Option<string>)
    requires !MissingUpdateField(body)
  {
    && Trim(body.title.value) == before.title && Trim(body.description.value) == before.description
    && body.category.value == before.category
    && (file.Some? ==> before.image == Some(file.value))
  }

  /** `after` is `before` revised by an update request at time `now`: title, description and
      category replaced (the strings trimmed by the schema), the image replaced only when a file
      was sent, and id, author, owner and creation time kept. The timestamps hook stamps
      `updatedAt` only when some path was modified. */
  predicate IsRevision(before: Blog, after: Blog, body: BlogUpdate, file: Option<string>, now: Time)
    requires !MissingUpdateField(body)
  {
    && after.id == before.id && after.author == before.author && after.user == before.user
    && after.createdAt == before.createdAt
    && after.updatedAt == (if Unmodified(before, body, file) then before.updatedAt else now)
    && after.title == Trim(body.title.value) && after.description == Trim(body.description.value)
    && after.category == body.category.value
    && after.image == (if file.Some? then Some(file.value) else before.image)
  }

  /** The update finds its blog, validates, and changes some path, so `save()` writes. */
  predicate UpdateWrites(blogs: seq<Blog>, id: Id, body: BlogUpdate, file: Option<string>) {
    && !MissingUpdateField(body) && IndexOf(blogs, BlogId, id).Some?
    && Trim(body.title.value) != "" && Trim(body.description.value) != ""
    && !Unmodified(blogs[IndexOf(blogs, BlogId, id).value], body, file)
  }

  /** `updateBlog` on the stored blogs at time `now`. There is no ownership check (any
      authenticated caller may update any blog, so the caller does not appear) and no check
      that the new category exists. A missing field answers 400 before the blog is looked up;
      an unknown id answers 404; a title or description blank once trimmed fails validation on
      `save` and answers 500; otherwise the revised blog, which is the stored blog itself when
      nothing was modified. */
  function UpdateBlogReply(blogs: seq<Blog>, now: Time, id: Id, body: BlogUpdate, file: Option<string>): (r: Reply<Blog>)
    ensures r.status in {200, 400, 404, 500}
    ensures r.status == 400 <==> MissingUpdateField(body)
    ensures r.status == 404 <==> !MissingUpdateField(body) && Lookup(blogs, BlogId, id).None?
    ensures r.status == 500 <==>
      && !MissingUpdateField(body) && Lookup(blogs, BlogId, id).Some?
      && (Trim(body.title.value) == "" || Trim(body.description.value) == "")
    ensures r.status == 200 <==> r.body.Some?
    ensures r.status == 200 ==>
      && IndexOf(blogs, BlogId, id).Some?
      && IsRevision(blogs[IndexOf(blogs, BlogId, id).value], r.body.value, body, file, now)
      && WellFormedBlog(r.body.value)
    ensures r.status == 200 && !UpdateWrites(blogs, id, body, file) ==>
      r.body.value == blogs[IndexOf(blogs, BlogId, id).value]
  {
    if MissingUpdateField(body) then
      Reply(400, "All fields are required", None)
    else
      match IndexOf(blogs, BlogId, id)
      case None => Reply(404, "Blog not found", None)
      case Some(i) =>
        var blog := blogs[i];
        var blog := if file.Some? then blog.(image := Some(file.value)) else blog;
        var blog := blog.(title := body.title.value, description := body.description.value,
                          category := body.category.value);
        // `blog.save()`: cast, validate, and stamp `updatedAt` when a path was modified.
        var saved := CastBlog(blog.id, blog.title, blog.author, blog.description, blog.category,
                              blog.image, blog.user, blog.createdAt, now);
        if saved.None? then Reply(500, "Error updating blog", None)
        else if Unmodified(blogs[i], body, file) then Reply(200, "", Some(blogs[i]))
        else Reply(200, "", saved)
  }

  /** `updateBlog` against the database, assigning the fields one by one as the handler does:
      when the save writes, the blog is replaced in place by its revision and a moment of time
      is used up; otherwise (an error, or an update that modifies nothing) nothing changes. */
  method UpdateBlog(db: Db, id: Id, body: BlogUpdate, file: Option<string>) returns (r: Reply<Blog>)
    requires db.Valid()
    modifies db
    ensures db.Valid()
    ensures r == UpdateBlogReply(old(db.blogs), old(db.clock), id, body, file)
    ensures !UpdateWrites(old(db.blogs), id, body, file) ==> unchanged(db)
    ensures UpdateWrites(old(db.blogs), id, body, file) ==>
      && r.status == 200
      && db.blogs == old(db.blogs)[IndexOf(old(db.blogs), BlogId, id).value := r.body.value]
      && db.clock == old(db.clock) + 1
      && db.users == old(db.users) && db.categories == old(db.categories)
      && db.questionCategories == old(db.questionCategories) && db.questions == old(db.questions)
      && db.nextId == old(db.nextId)
  {
    if !Present(body.title) || !Present(body.description) || body.category.None? {
      r := Reply(400, "All fields are required", None);
      assert r == UpdateBlogReply(db.blogs, db.clock, id, body, file);
      return;
    }
    var index := IndexOf(db.blogs, BlogId, id);
    if index.None? {
      r := Reply(404, "Blog not found", None);
      assert r == UpdateBlogReply(db.blogs, db.clock, id, body, file);
      return;
    }
    var i := index.value;
    var blog := db.blogs[i];
    if file.Some? {
      blog := blog.(image := Some(file.value));
    }
    blog := blog.(title := body.title.value);
    blog := blog.(description := body.description.value);
    blog := blog.(category := body.category.value);
    // `blog.save()`: cast, validate, and write only when a path was modified.
    var saved := CastBlog(blog.id, blog.title, blog.author, blog.description, blog.category,
                          blog.image, blog.user, blog.createdAt, db.clock);
    if saved.None? {
      r := Reply(500, "Error updating blog", None);
      assert r == UpdateBlogReply(db.blogs, db.clock, id, body, file);
      return;
    }
    if Unmodified(db.blogs[i], body, file) {
      r := Reply(200, "", Some(db.blogs[i]));
      assert r == UpdateBlogReply(db.blogs, db.clock, id, body, file);
      return;
    }
    r := Reply(200, "", saved);
    assert r == UpdateBlogReply(db.blogs, db.clock, id, body, file);
    db.ReplaceBlog(i, saved.value);
  }

  /** Sending back what a blog already holds, without a file, answers with that blog as
      stored, its `updatedAt` included, and writes nothing. */
  lemma RestatingUpdateKeepsBlog(blogs: seq<Blog>, now: Time, k: nat)
    requires StrictlyIncreasing(blogs, BlogId) && k < |blogs| && WellFormedBlog(blogs[k])
    ensures var b := blogs[k];
            var body := BlogUpdate(Some(b.title), Some(b.description), Some(b.category));
            && !UpdateWrites(blogs, b.id, body, None)
            && UpdateBlogReply(blogs, now, b.id, body, None) == Reply(200, "", Some(b))
  {
    var b := blogs[k];
    LookupUnique(blogs, BlogId, b.id, k);
    NoEdgeSpaceTrimmed(b.title);
    NoEdgeSpaceTrimmed(b.description);
  }

  /** An update leaves every other blog as it was and keeps the number of blogs. */
  lemma UpdateTouchesOnlyTarget(blogs: seq<Blog>, now: Time, id: Id, body: BlogUpdate, file: Option<string>, k: nat)
    requires StrictlyIncreasing(blogs, BlogId)
    requires k < |blogs| && blogs[k].id != id
    ensures var r := UpdateBlogReply(blogs, now, id, body, file);
            r.status == 200 ==>
              var after := blogs[IndexOf(blogs, BlogId, id).value := r.body.value];
              |after| == |blogs| && after[k] == blogs[k]
  {
  }

  // ---------------------------------------------------------------------------------------------
  // deleteBlog

  /** `deleteBlog` by the authenticated caller `caller`: 404 for an unknown id, 403 when the
      caller does not own the blog (`blog.user`), otherwise 200. */
  function DeleteBlogReply(blogs: seq<Blog>, caller: Id, id: Id): (r: Reply<()>)
    ensures r.status in {200, 403, 404}
    ensures r.status == 404 <==> Lookup(blogs, BlogId, id).None?
    ensures r.status == 403 <==>
      Lookup(blogs, BlogId, id).Some? && Lookup(blogs, BlogId, id).value.user != caller
    ensures r.status == 200 <==>
      Lookup(blogs, BlogId, id).Some? && Lookup(blogs, BlogId, id).value.user == caller
  {
    match Lookup(blogs, BlogId, id)
    case None => Reply(404, "Blog not found", None)
    case Some(blog) =>
      if blog.user != caller then Reply(403, "Not authorized to delete this blog", None)
      else Reply(200, "Blog deleted successfully", None)
  }

  /** `deleteBlog` against the database: on 200 exactly the one blog with that id is removed,
      the rest kept in order; on every other status nothing changes. */
  method DeleteBlog(db: Db, caller: Id, id: Id) returns (r: Reply<()>)
    requires db.Valid()
    modifies db
    ensures db.Valid()
    ensures r == DeleteBlogReply(old(db.blogs), caller, id)
    ensures r.status != 200 ==> unchanged(db)
    ensures r.status == 200 ==>
      && db.blogs == RemoveById(old(db.blogs), BlogId, id)
      && |db.blogs| == |old(db.blogs)| - 1
      && db.users == old(db.users) && db.categories == old(db.categories)
      && db.questionCategories == old(db.questionCategories) && db.questions == old(db.questions)
      && db.nextId == old(db.nextId) && db.clock == old(db.clock)
  {
    r := DeleteBlogReply(db.blogs, caller, id);
    if r.status == 200 {
      RemoveByIdLength(db.blogs, BlogId, id);
      BlogsRemove(db.blogs, id, db.nextId, db.clock);
      db.blogs := RemoveById(db.blogs, BlogId, id);
    }
  }

  /** Only the owner can delete: whoever else asks is refused and the blog stays readable. */
  lemma OnlyOwnerDeletes(blogs: seq<Blog>, caller: Id, id: Id)
    requires GetBlogById(blogs, id).status == 200 && GetBlogById(blogs, id).body.value.user != caller
    ensures DeleteBlogReply(blogs, caller, id).status == 403
  {
  }

  /** After a successful delete, reading the blog back answers 404. */
  lemma DeletedBlogNotFound(blogs: seq<Blog>, id: Id)
    ensures GetBlogById(RemoveById(blogs, BlogId, id), id).status == 404
  {
  }

  // ---------------------------------------------------------------------------------------------
  // getMyBlogs

  /** The blogs whose `author` is `caller`, in natural order (`Blog.find({ author })`). */
  function AuthoredBy(blogs: seq<Blog>, caller: Id): seq<Blog> {
    Filter(blogs, (b: Blog) => b.author == caller)
  }

  /** `getMyBlogs`: the caller's blogs (by `author`), newest first by `createdAt`. */
  function GetMyBlogs(blogs: seq<Blog>, caller: Id): (r: seq<Blog>)
    ensures forall i :: 0 <= i < |r| ==> r[i] in blogs && r[i].author == caller
    ensures forall i :: 0 <= i < |blogs| && blogs[i].author == caller ==> blogs[i] in r
    ensures SortedDesc(r, BlogCreated)
    ensures multiset(r) == multiset(AuthoredBy(blogs, caller))
  {
    var mine := AuthoredBy(blogs, caller);
    var r := SortDesc(mine, BlogCreated);
    AuthoredByMembers(blogs, caller);
    SameMembers(r, mine);
    r
  }

  /** A blog is among the caller's exactly when it is stored and authored by the caller. */
  lemma AuthoredByMembers(blogs: seq<Blog>, caller: Id)
    ensures forall b :: b in AuthoredBy(blogs, caller) <==> b in blogs && b.author == caller
  {
    forall b | b in blogs && b.author == caller ensures b in AuthoredBy(blogs, caller) {
      var k :| 0 <= k < |blogs| && blogs[k] == b;
    }
  }

  /** In a store whose blogs are in creation order, "my blogs" is the caller's blogs in reverse
      creation order. */
  lemma MyBlogsReverseCreationOrder(blogs: seq<Blog>, caller: Id)
    requires StrictlyIncreasing(blogs, BlogCreated)
    ensures GetMyBlogs(blogs, caller) == Reverse(AuthoredBy(blogs, caller))
  {
    FilterIncreasing(blogs, (b: Blog) => b.author == caller, BlogCreated);
    SortIncreasingIsReverse(AuthoredBy(blogs, caller), BlogCreated);
  }
}
