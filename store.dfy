/** The database the controllers work on: one collection per Mongoose model, each a sequence
    in natural (insertion) order, plus the sources of fresh ids and of timestamps. */
module Store {
  import opened Common
  import opened Models

  /** A collection's keys strictly increase (so they are unique) and stay below `bound`. */
  predicate Keyed<T>(xs: seq<T>, key: T -> int, bound: int) {
    StrictlyIncreasing(xs, key) && AllBelow(xs, key, bound)
  }

  /** Appending an element whose key is the bound keeps the collection keyed, one higher. */
  lemma KeyedAppend<T>(xs: seq<T>, x: T, key: T -> int, bound: int)
    requires Keyed(xs, key, bound) && key(x) == bound
    ensures Keyed(xs + [x], key, bound + 1)
  {
    AppendIncreasing(xs, x, key);
  }

  /** A higher bound is still a bound. */
  lemma KeyedRaise<T>(xs: seq<T>, key: T -> int, bound: int, higher: int)
    requires Keyed(xs, key, bound) && bound <= higher
    ensures Keyed(xs, key, higher)
  {
  }

  /** Replacing an element by one with the same key keeps the collection keyed. */
  lemma KeyedReplace<T>(xs: seq<T>, i: nat, x: T, key: T -> int, bound: int)
    requires Keyed(xs, key, bound) && i < |xs| && key(x) == key(xs[i])
    ensures Keyed(xs[i := x], key, bound)
  {
    ReplaceSameKey(xs, i, x, key);
  }

  /** Removing elements keeps the collection keyed. */
  lemma KeyedFilter<T>(xs: seq<T>, p: T -> bool, key: T -> int, bound: int)
    requires Keyed(xs, key, bound)
    ensures Keyed(Filter(xs, p), key, bound)
  {
    FilterIncreasing(xs, p, key);
  }

  /** Removing by id keeps the collection keyed. */
  lemma KeyedRemove<T>(xs: seq<T>, idOf: T -> Id, id: Id, key: T -> int, bound: int)
    requires Keyed(xs, key, bound)
    ensures Keyed(RemoveById(xs, idOf, id), key, bound)
  {
    KeyedFilter(xs, x => idOf(x) != id, key, bound);
  }

  predicate BlogsWellFormed(blogs: seq<Blog>) {
    forall i :: 0 <= i < |blogs| ==> WellFormedBlog(blogs[i])
  }

  /** The blog collection: ids below `nextId`, creation times below `clock`, both increasing,
      and every blog as the schema stores it. */
  predicate BlogsValid(blogs: seq<Blog>, nextId: Id, clock: Time) {
    Keyed(blogs, BlogId, nextId) && Keyed(blogs, BlogCreated, clock) && BlogsWellFormed(blogs)
  }

  predicate CategoriesValid(categories: seq<Category>, nextId: Id, clock: Time) {
    Keyed(categories, CategoryId, nextId) && Keyed(categories, CategoryCreated, clock)
  }

  predicate FoldersValid(folders: seq<QuestionCategory>, nextId: Id) {
    && Keyed(folders, QuestionCategoryId, nextId)
    && forall i :: 0 <= i < |folders| ==> WellFormedQuestionCategory(folders[i])
  }

  predicate QuestionsValid(questions: seq<Question>, nextId: Id) {
    && Keyed(questions, QuestionId, nextId)
    && forall i :: 0 <= i < |questions| ==> WellFormedQuestion(questions[i])
  }

  /** The five collections together, against the next id and the current time. */
  predicate StoreValid(users: seq<User>, categories: seq<Category>, blogs: seq<Blog>,
                       folders: seq<QuestionCategory>, questions: seq<Question>, nextId: Id, clock: Time) {
    && Keyed(users, UserId, nextId)
    && CategoriesValid(categories, nextId, clock)
    && BlogsValid(blogs, nextId, clock)
    && FoldersValid(folders, nextId)
    && QuestionsValid(questions, nextId)
  }

  /** Handing out ids and advancing the clock keeps every collection valid. */
  lemma StoreRaise(users: seq<User>, categories: seq<Category>, blogs: seq<Blog>,
                   folders: seq<QuestionCategory>, questions: seq<Question>,
                   nextId: Id, clock: Time, nextId': Id, clock': Time)
    requires StoreValid(users, categories, blogs, folders, questions, nextId, clock)
    requires nextId <= nextId' && clock <= clock'
    ensures StoreValid(users, categories, blogs, folders, questions, nextId', clock')
  {
    KeyedRaise(users, UserId, nextId, nextId');
    KeyedRaise(categories, CategoryId, nextId, nextId');
    KeyedRaise(categories, CategoryCreated, clock, clock');
    KeyedRaise(blogs, BlogId, nextId, nextId');
    KeyedRaise(blogs, BlogCreated, clock, clock');
    KeyedRaise(folders, QuestionCategoryId, nextId, nextId');
    KeyedRaise(questions, QuestionId, nextId, nextId');
  }

  /** A new blog stamped with the next id and the current time keeps the blogs valid. */
  lemma BlogsAppend(blogs: seq<Blog>, b: Blog, nextId: Id, clock: Time)
    requires BlogsValid(blogs, nextId, clock)
    requires b.id == nextId && b.createdAt == clock && WellFormedBlog(b)
    ensures BlogsValid(blogs + [b], nextId + 1, clock + 1)
  {
    KeyedAppend(blogs, b, BlogId, nextId);
    KeyedAppend(blogs, b, BlogCreated, clock);
    assert BlogsWellFormed(blogs + [b]) by {
      forall i | 0 <= i < |blogs + [b]| ensures WellFormedBlog((blogs + [b])[i]) {
        if i < |blogs| {
          assert (blogs + [b])[i] == blogs[i];
        }
      }
    }
  }

  /** A revision with the same id and creation time keeps the blogs valid. */
  lemma BlogsReplace(blogs: seq<Blog>, i: nat, b: Blog, nextId: Id, clock: Time)
    requires BlogsValid(blogs, nextId, clock) && i < |blogs|
    requires b.id == blogs[i].id && b.createdAt == blogs[i].createdAt && WellFormedBlog(b)
    ensures BlogsValid(blogs[i := b], nextId, clock)
  {
    KeyedReplace(blogs, i, b, BlogId, nextId);
    KeyedReplace(blogs, i, b, BlogCreated, clock);
  }

  /** Removing blogs keeps the blogs valid. */
  lemma BlogsRemove(blogs: seq<Blog>, id: Id, nextId: Id, clock: Time)
    requires BlogsValid(blogs, nextId, clock)
    ensures BlogsValid(RemoveById(blogs, BlogId, id), nextId, clock)
  {
    KeyedRemove(blogs, BlogId, id, BlogId, nextId);
    KeyedRemove(blogs, BlogId, id, BlogCreated, clock);
    var kept := RemoveById(blogs, BlogId, id);
    forall i | 0 <= i < |kept| ensures WellFormedBlog(kept[i]) {
      assert kept[i] in blogs;
    }
  }

  /** A new category stamped with the next id and the current time keeps the categories valid. */
  lemma CategoriesAppend(categories: seq<Category>, c: Category, nextId: Id, clock: Time)
    requires CategoriesValid(categories, nextId, clock)
    requires c.id == nextId && c.createdAt == clock
    ensures CategoriesValid(categories + [c], nextId + 1, clock + 1)
  {
    KeyedAppend(categories, c, CategoryId, nextId);
    KeyedAppend(categories, c, CategoryCreated, clock);
  }

  /** A revision with the same id and creation time keeps the categories valid. */
  lemma CategoriesReplace(categories: seq<Category>, i: nat, c: Category, nextId: Id, clock: Time)
    requires CategoriesValid(categories, nextId, clock) && i < |categories|
    requires c.id == categories[i].id && c.createdAt == categories[i].createdAt
    ensures CategoriesValid(categories[i := c], nextId, clock)
  {
    KeyedReplace(categories, i, c, CategoryId, nextId);
    KeyedReplace(categories, i, c, CategoryCreated, clock);
  }

  /** Removing categories keeps the categories valid. */
  lemma CategoriesRemove(categories: seq<Category>, id: Id, nextId: Id, clock: Time)
    requires CategoriesValid(categories, nextId, clock)
    ensures CategoriesValid(RemoveById(categories, CategoryId, id), nextId, clock)
  {
    KeyedRemove(categories, CategoryId, id, CategoryId, nextId);
    KeyedRemove(categories, CategoryId, id, CategoryCreated, clock);
  }

  /** A new folder carrying the next id keeps the folders valid. */
  lemma FoldersAppend(folders: seq<QuestionCategory>, f: QuestionCategory, nextId: Id)
    requires FoldersValid(folders, nextId)
    requires f.id == nextId && WellFormedQuestionCategory(f)
    ensures FoldersValid(folders + [f], nextId + 1)
  {
    KeyedAppend(folders, f, QuestionCategoryId, nextId);
    forall i | 0 <= i < |folders + [f]| ensures WellFormedQuestionCategory((folders + [f])[i]) {
      if i < |folders| {
        assert (folders + [f])[i] == folders[i];
      }
    }
  }

  /** A new question carrying the next id keeps the questions valid. */
  lemma QuestionsAppend(questions: seq<Question>, q: Question, nextId: Id)
    requires QuestionsValid(questions, nextId)
    requires q.id == nextId && WellFormedQuestion(q)
    ensures QuestionsValid(questions + [q], nextId + 1)
  {
    KeyedAppend(questions, q, QuestionId, nextId);
    forall i | 0 <= i < |questions + [q]| ensures WellFormedQuestion((questions + [q])[i]) {
      if i < |questions| {
        assert (questions + [q])[i] == questions[i];
      }
    }
  }

  /** Removing questions keeps the questions valid. */
  lemma QuestionsRemove(questions: seq<Question>, id: Id, nextId: Id)
    requires QuestionsValid(questions, nextId)
    ensures QuestionsValid(RemoveById(questions, QuestionId, id), nextId)
  {
    KeyedRemove(questions, QuestionId, id, QuestionId, nextId);
    var kept := RemoveById(questions, QuestionId, id);
    forall i | 0 <= i < |kept| ensures WellFormedQuestion(kept[i]) {
      assert kept[i] in questions;
    }
  }

  /** A new user carrying the next id keeps the users keyed. */
  lemma UsersAppend(users: seq<User>, u: User, nextId: Id)
    requires Keyed(users, UserId, nextId) && u.id == nextId
    ensures Keyed(users + [u], UserId, nextId + 1)
  {
    KeyedAppend(users, u, UserId, nextId);
  }

  class Db {
    var users: seq<User>
    var categories: seq<Category>
    var blogs: seq<Blog>
    var questionCategories: seq<QuestionCategory>
    var questions: seq<Question>
    /** The next `_id` to hand out; ids are never reused. */
    var nextId: Id
    /** The current time; every write reads it and advances it. */
    var clock: Time

    /** Ids increase along every collection (so they are unique) and are below `nextId`;
        blogs and categories are in creation order; every stored record satisfies its schema. */
    ghost predicate Valid()
      reads this
    {
      StoreValid(users, categories, blogs, questionCategories, questions, nextId, clock)
    }

    /** `Blog.create`: stores a validated blog under the next id at the current time, then
        uses up that id and that moment. */
    method AddBlog(b: Blog)
      requires Valid()
      requires b.id == nextId && b.createdAt == clock && WellFormedBlog(b)
      modifies this
      ensures Valid()
      ensures blogs == old(blogs) + [b]
      ensures nextId == old(nextId) + 1 && clock == old(clock) + 1
      ensures users == old(users) && categories == old(categories)
      ensures questionCategories == old(questionCategories) && questions == old(questions)
    {
      StoreRaise(users, categories, blogs, questionCategories, questions, nextId, clock, nextId + 1, clock + 1);
      BlogsAppend(blogs, b, nextId, clock);
      blogs := blogs + [b];
      nextId := nextId + 1;
      clock := clock + 1;
    }

    /** `blog.save()` on a stored blog: replaces the blog at `i` by its validated revision, which
        keeps the id and creation time, then uses up the current moment. */
    method ReplaceBlog(i: nat, b: Blog)
      requires Valid() && i < |blogs|
      requires b.id == blogs[i].id && b.createdAt == blogs[i].createdAt && WellFormedBlog(b)
      modifies this
      ensures Valid()
      ensures blogs == old(blogs)[i := b]
      ensures nextId == old(nextId) && clock == old(clock) + 1
      ensures users == old(users) && categories == old(categories)
      ensures questionCategories == old(questionCategories) && questions == old(questions)
    {
      StoreRaise(users, categories, blogs, questionCategories, questions, nextId, clock, nextId, clock + 1);
      BlogsReplace(blogs, i, b, nextId, clock + 1);
      blogs := blogs[i := b];
      clock := clock + 1;
    }

    constructor ()
      ensures Valid()
      ensures users == [] && categories == [] && blogs == []
      ensures questionCategories == [] && questions == []
    {
      users, categories, blogs := [], [], [];
      questionCategories, questions := [], [];
      nextId, clock := 0, 0;
    }
  }
}
