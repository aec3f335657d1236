/** `questionCategoryController.js`: the study-notes folders and the question/answer cards in
    them. None of these handlers checks who is asking: the user id comes from the request. */
module StudyController {
  import opened Common
  import opened Models
  import opened Store

  /** `addQuestionCategory`: the folder as the schema stores it, or 500 when validation fails
      (a missing `userId`, a missing or empty `name`). */
  function AddQuestionCategoryReply(nextId: Id, now: Time, userId: Option<Id>, name: Option<string>): (r: Reply<QuestionCategory>)
    ensures r.status in {201, 500}
    ensures r.status == 500 <==> userId.None? || !Present(name)
    ensures r.status == 201 <==> r.body.Some?
    ensures r.status == 201 ==>
      r.body.value == QuestionCategory(nextId, userId.value, name.value, now, now)
  {
    match CastQuestionCategory(nextId, userId, name, now)
    case None => Reply(500, "", None)
    case Some(f) => Reply(201, "", Some(f))
  }

  /** `addQuestionCategory` against the database. */
  method AddQuestionCategory(db: Db, userId: Option<Id>, name: Option<string>) returns (r: Reply<QuestionCategory>)
    requires db.Valid()
    modifies db
    ensures db.Valid()
    ensures r == AddQuestionCategoryReply(old(db.nextId), old(db.clock), userId, name)
    ensures r.status != 201 ==> unchanged(db)
    ensures r.status == 201 ==>
      && db.questionCategories == old(db.questionCategories) + [r.body.value]
      && db.nextId == old(db.nextId) + 1 && db.clock == old(db.clock) + 1
      && db.users == old(db.users) && db.categories == old(db.categories)
      && db.blogs == old(db.blogs) && db.questions == old(db.questions)
  {
    r := AddQuestionCategoryReply(db.nextId, db.clock, userId, name);
    if r.status == 201 {
      StoreRaise(db.users, db.categories, db.blogs, db.questionCategories, db.questions,
                 db.nextId, db.clock, db.nextId + 1, db.clock + 1);
      FoldersAppend(db.questionCategories, r.body.value, db.nextId);
      db.questionCategories := db.questionCategories + [r.body.value];
      db.nextId := db.nextId + 1;
      db.clock := db.clock + 1;
    }
  }

  /** `getCategoriesByUser`: the folders of `userId`, in natural order. */
  function GetCategoriesByUser(folders: seq<QuestionCategory>, userId: Id): (r: seq<QuestionCategory>)
    ensures forall i :: 0 <= i < |r| ==> r[i] in folders && r[i].userId == userId
    ensures forall i :: 0 <= i < |folders| && folders[i].userId == userId ==> folders[i] in r
  {
    Filter(folders, (f: QuestionCategory) => f.userId == userId)
  }

  /** A folder just added is listed last among its owner's folders, after the ones before it. */
  lemma AddedFolderListedLast(folders: seq<QuestionCategory>, f: QuestionCategory)
    ensures GetCategoriesByUser(folders + [f], f.userId) == GetCategoriesByUser(folders, f.userId) + [f]
  {
    FilterAppend(folders, [f], (g: QuestionCategory) => g.userId == f.userId);
  }

  /** Adding a folder for one user leaves every other user's listing as it was. */
  lemma AddedFolderInvisibleToOthers(folders: seq<QuestionCategory>, f: QuestionCategory, other: Id)
    requires other != f.userId
    ensures GetCategoriesByUser(folders + [f], other) == GetCategoriesByUser(folders, other)
  {
    FilterAppend(folders, [f], (g: QuestionCategory) => g.userId == other);
  }

  /** `addQuestion`: the card as sent, or 500 when validation fails (any of the four fields
      missing, or an empty question or answer). Neither reference is checked. */
  function AddQuestionReply(nextId: Id, now: Time, userId: Option<Id>, categoryId: Option<Id>,
                            question: Option<string>, answer: Option<string>): (r: Reply<Question>)
    ensures r.status in {201, 500}
    ensures r.status == 500 <==> userId.None? || categoryId.None? || !Present(question) || !Present(answer)
    ensures r.status == 201 <==> r.body.Some?
    ensures r.status == 201 ==>
      r.body.value == Question(nextId, userId.value, categoryId.value, question.value, answer.value, now, now)
  {
    match CastQuestion(nextId, userId, categoryId, question, answer, now)
    case None => Reply(500, "", None)
    case Some(q) => Reply(201, "", Some(q))
  }

  /** `addQuestion` against the database. */
  method AddQuestion(db: Db, userId: Option<Id>, categoryId: Option<Id>,
                     question: Option<string>, answer: Option<string>) returns (r: Reply<Question>)
    requires db.Valid()
    modifies db
    ensures db.Valid()
    ensures r == AddQuestionReply(old(db.nextId), old(db.clock), userId, categoryId, question, answer)
    ensures r.status != 201 ==> unchanged(db)
    ensures r.status == 201 ==>
      && db.questions == old(db.questions) + [r.body.value]
      && db.nextId == old(db.nextId) + 1 && db.clock == old(db.clock) + 1
      && db.users == old(db.users) && db.categories == old(db.categories)
      && db.blogs == old(db.blogs) && db.questionCategories == old(db.questionCategories)
  {
    r := AddQuestionReply(db.nextId, db.clock, userId, categoryId, question, answer);
    if r.status == 201 {
      StoreRaise(db.users, db.categories, db.blogs, db.questionCategories, db.questions,
                 db.nextId, db.clock, db.nextId + 1, db.clock + 1);
      QuestionsAppend(db.questions, r.body.value, db.nextId);
      db.questions := db.questions + [r.body.value];
      db.nextId := db.nextId + 1;
      db.clock := db.clock + 1;
    }
  }

  /** `getQuestionsByUserAndCategory`: the cards of `userId` in folder `categoryId`, in natural
      order. */
  function GetQuestions(questions: seq<Question>, userId: Id, categoryId: Id): (r: seq<Question>)
    ensures forall i :: 0 <= i < |r| ==> r[i] in questions && r[i].userId == userId && r[i].categoryId == categoryId
    ensures forall i :: 0 <= i < |questions| && questions[i].userId == userId && questions[i].categoryId == categoryId
                        ==> questions[i] in r
  {
    Filter(questions, (q: Question) => q.userId == userId && q.categoryId == categoryId)
  }

  /** What is added can be read back: the card appears, verbatim, at the end of its folder's
      listing for its author. */
  lemma AddedQuestionReadBack(questions: seq<Question>, nextId: Id, now: Time, userId: Id, categoryId: Id,
                              question: string, answer: string)
    requires question != "" && answer != ""
    ensures var r := AddQuestionReply(nextId, now, Some(userId), Some(categoryId), Some(question), Some(answer));
            && r.status == 201
            && GetQuestions(questions + [r.body.value], userId, categoryId) ==
               GetQuestions(questions, userId, categoryId) + [r.body.value]
            && r.body.value.question == question && r.body.value.answer == answer
  {
    var q := AddQuestionReply(nextId, now, Some(userId), Some(categoryId), Some(question), Some(answer)).body.value;
    FilterAppend(questions, [q], (x: Question) => x.userId == userId && x.categoryId == categoryId);
  }

  /** `deleteQuestion`: removes the card with that id, if there is one, and answers 200 either
      way; anyone may delete any card. */
  method DeleteQuestion(db: Db, id: Id) returns (r: Reply<()>)
    requires db.Valid()
    modifies db
    ensures db.Valid()
    ensures r.status == 200
    ensures db.questions == RemoveById(old(db.questions), QuestionId, id)
    ensures |db.questions| == |old(db.questions)| - (if Lookup(old(db.questions), QuestionId, id).Some? then 1 else 0)
    ensures db.users == old(db.users) && db.categories == old(db.categories)
    ensures db.blogs == old(db.blogs) && db.questionCategories == old(db.questionCategories)
    ensures db.nextId == old(db.nextId) && db.clock == old(db.clock)
  {
    RemoveByIdLength(db.questions, QuestionId, id);
    QuestionsRemove(db.questions, id, db.nextId);
    db.questions := RemoveById(db.questions, QuestionId, id);
    r := Reply(200, "Deleted successfully", None);
  }

  /** Deleting a card that is not there changes nothing, and deleting twice is deleting once. */
  lemma DeleteQuestionIdempotent(questions: seq<Question>, id: Id)
    ensures Lookup(questions, QuestionId, id).None? ==> RemoveById(questions, QuestionId, id) == questions
    ensures RemoveById(RemoveById(questions, QuestionId, id), QuestionId, id) == RemoveById(questions, QuestionId, id)
  {
    RemoveByIdIdempotent(questions, QuestionId, id);
  }
}
