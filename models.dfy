/** The stored records of the back end (the Mongoose schemas) and what creating a document
    from request values does: casting (`trim`), then the `required` validators. */
module Models {
  import opened Common

  /** `blogModel.js`. `author`, `category` and `user` are required references, so every stored
      blog carries all three; `image` is optional; `timestamps: true` adds the two times. */
  datatype Blog = Blog(
    id: Id,
    title: string,
    author: Id,
    description: string,
    category: Id,
    image: Option<string>,
    user: Id,
    createdAt: Time,
    updatedAt: Time)

  /** What the schema guarantees of a stored blog: `title` and `description` are stored trimmed
      and, being required, are not empty. */
  predicate WellFormedBlog(b: Blog) {
    && b.title != "" && NoEdgeSpace(b.title)
    && b.description != "" && NoEdgeSpace(b.description)
  }

  function BlogId(b: Blog): Id { b.id }
  function BlogCreated(b: Blog): Time { b.createdAt }

  /** `Blog.create(...)` / `blog.save()`: the string fields are trimmed by the schema's cast,
      then the `required` validators reject a field that trimmed to the empty string (the
      document is not stored and the controller's `catch` answers 500). */
  function CastBlog(id: Id, title: string, author: Id, description: string, category: Id,
                    image: Option<string>, user: Id, createdAt: Time, updatedAt: Time): (r: Option<Blog>)
    ensures r.Some? <==> Trim(title) != "" && Trim(description) != ""
    ensures r.Some? ==> WellFormedBlog(r.value)
    ensures r.Some? ==> r.value == Blog(id, Trim(title), author, Trim(description), category,
                                        image, user, createdAt, updatedAt)
  {
    var t := Trim(title);
    var d := Trim(description);
    if t == "" || d == "" then None
    else
      Some(Blog(id, t, author, d, category, image, user, createdAt, updatedAt))
  }

  /** `categoryModel.js` is not part of this model; the fields are those the category controller
      writes (`name`, `description`) plus the timestamps the controller reads and sets. */
  datatype Category = Category(
    id: Id,
    name: string,
    description: Option<string>,
    createdAt: Time,
    updatedAt: Time)

  function CategoryId(c: Category): Id { c.id }
  function CategoryCreated(c: Category): Time { c.createdAt }

  /** `userModel.js` is not part of this model; the fields are those the auth and profile
      controllers read and write. The password hash is abstract: `password` holds the secret the
      hash stands for, and `comparePassword` is modelled as equality with it. */
  datatype User = User(
    id: Id,
    name: string,
    email: string,
    password: string,
    image: Option<string>)

  function UserId(u: User): Id { u.id }

  /** `questionCategoryModel.js`: a study-notes folder. `name` has neither `trim` nor `unique`,
      so it is stored verbatim and one user may own two folders with the same name. */
  datatype QuestionCategory = QuestionCategory(
    id: Id,
    userId: Id,
    name: string,
    createdAt: Time,
    updatedAt: Time)

  predicate WellFormedQuestionCategory(f: QuestionCategory) {
    f.name != "" && f.createdAt == f.updatedAt
  }

  function QuestionCategoryId(f: QuestionCategory): Id { f.id }

  /** `questionCategoryModel.create({ userId, name })`: both fields are required (a missing
      field, or an empty name, fails validation); `createdAt` and `updatedAt` both default to
      the creation time. */
  function CastQuestionCategory(id: Id, userId: Option<Id>, name: Option<string>, now: Time): (r: Option<QuestionCategory>)
    ensures r.Some? <==> userId.Some? && Present(name)
    ensures r.Some? ==> WellFormedQuestionCategory(r.value)
    ensures r.Some? ==> r.value.userId == userId.value && r.value.name == name.value
    ensures r.Some? ==> r.value.id == id && r.value.createdAt == now
  {
    if userId.None? || !Present(name) then None
    else Some(QuestionCategory(id, userId.value, name.value, now, now))
  }

  /** `questionsModel.js`: `question` and `answer` are required strings without `trim`, so they
      are stored exactly as sent. `categoryId` is declared with `ref: "Category"` (the blog
      category model, not the folder model); references are not checked on create either way. */
  datatype Question = Question(
    id: Id,
    userId: Id,
    categoryId: Id,
    question: string,
    answer: string,
    createdAt: Time,
    updatedAt: Time)

  predicate WellFormedQuestion(q: Question) {
    q.question != "" && q.answer != "" && q.createdAt == q.updatedAt
  }

  function QuestionId(q: Question): Id { q.id }

  /** `questionsModel.create({ userId, categoryId, question, answer })`: all four are required. */
  function CastQuestion(id: Id, userId: Option<Id>, categoryId: Option<Id>,
                        question: Option<string>, answer: Option<string>, now: Time): (r: Option<Question>)
    ensures r.Some? <==> userId.Some? && categoryId.Some? && Present(question) && Present(answer)
    ensures r.Some? ==> WellFormedQuestion(r.value)
    ensures r.Some? ==> r.value.question == question.value && r.value.answer == answer.value
    ensures r.Some? ==> r.value.userId == userId.value && r.value.categoryId == categoryId.value
    ensures r.Some? ==> r.value.id == id && r.value.createdAt == now
  {
    if userId.None? || categoryId.None? || !Present(question) || !Present(answer) then None
    else Some(Question(id, userId.value, categoryId.value, question.value, answer.value, now, now))
  }
}
