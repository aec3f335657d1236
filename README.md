# MyBlogApp: a Dafny model of its store, handlers, route guards and page state

MyBlogApp is a blog and study-notes application. Its Express back end keeps users,
categories, blogs, study folders ("question categories") and questions in MongoDB. Its React
client guards its routes with the token kept in `localStorage`. The client also edits its lists
when the server answers.

This project models:

- **The records** (`Models`). Each schema is a datatype. What `Model.create` does with request
  values (the `trim` cast, then the `required` validators) is a function returning `Option`.
  `WellFormedBlog` and the other predicates state what every stored record satisfies.
- **The database** (`Store.Db`). A class with one `seq` field per collection, kept in insertion
  order, plus `nextId` and `clock`. Ids are handed out from `nextId` and timestamps read from
  `clock`, a counter that every write advances. `Db.Valid()` is the store's invariant:
  - ids increase along each collection, so they are unique, and all are below `nextId`;
  - blogs and categories are in creation order;
  - every stored record is well formed.
- **The controllers** (`BlogController`, `CategoryController`, `StudyController`,
  `AuthController`, `UserController`). Each handler that writes is split in two:
  - a pure `…Reply` function of the collections and the request. It decides status, message
    and body, and states each status as an if-and-only-if over the inputs.
  - a `method` on `Db`. It does the work step by step, as the handler does, and promises to
    return that reply, keep `Valid()`, leave the store unchanged on every failure, and make
    exactly the stated change on success.

  Read-only handlers (the listing, the lookups, login) are pure functions. Lemmas relate the
  handlers to each other: register then login succeeds; a deleted blog is then not found; the
  pages of the listing together cover exactly the matching blogs.
- **The client**:
  - `Routes`: the two route guards and which guard each path passes through.
  - `RegisterPage`, `LoginPage`: the form rules and the submit handlers, writing to a
    `Session.BrowserStorage` object.
  - `BlogsPage`, `MyBlogsPage`, `CategoryPage`: one class per page, holding the page's state,
    with one method per handler.

  A page handler awaits an API call. The model takes that call's answer as a parameter
  (`ApiOutcome`). A list fetch that a handler starts is returned as a request value; its answer
  is applied by `ApplyFetch`. The list edits the handlers make (prepend or append, replace by
  id, remove by id, the image fallback) are defined once in `ClientLists`.

JavaScript and Mongoose behaviour is written out where it matters:

- A request field is `Option<string>`. It is truthy (`Present`) when it is given and not empty.
- `trim` removes JavaScript white space.
- `Math.ceil(a / b)` is `CeilDiv`.
- `n || d` on a number treats 0 as missing.
- `localStorage.setItem(k, undefined)` stores the text "undefined".
- A `$skip` below 0 or a `$limit` of 0 or less is a database error, so the handler answers 500.

## Model

| member | source | states |
|---|---|---|
| Models.CastBlog | BACKEND/src/models/blogModel.js:5-19 | a blog is stored iff title and description are non-empty once trimmed; the stored strings are the trimmed ones, so every stored blog is well formed |
| Models.CastQuestionCategory | BACKEND/src/models/questionCategoryModel.js:5-20 | a folder is stored iff `userId` is given and `name` is non-empty; the name is stored verbatim; both timestamps are the creation time |
| Models.CastQuestion | BACKEND/src/models/questionsModel.js:5-18 | a question is stored iff all four fields are given; question and answer are stored verbatim; both timestamps are the creation time |
| Store.Db.AddBlog | BACKEND/src/controllers/blogController.js:29-36 | `Blog.create` appends exactly one blog under the next id at the current time; the other collections are untouched and the store stays valid |
| BlogController.CreateBlogReply | BACKEND/src/controllers/blogController.js:5-50 | 400 iff a field is missing or the category is unknown; 500 iff otherwise title or description trims to empty; 201 gives the blog with the next id, author and owner both the caller whatever the body says, the trimmed text, and the uploaded file's name or the placeholder |
| BlogController.CreateBlog | BACKEND/src/controllers/blogController.js:7-45 | returns `CreateBlogReply`; on 201 exactly that blog is appended and nothing else changes; on any other status the store is unchanged |
| BlogController.CreatedIdIsFresh | BACKEND/src/controllers/blogController.js:29-36 | the created blog's id belongs to no stored blog |
| BlogController.GetAllBlogs | BACKEND/src/controllers/blogController.js:54-124 | 500 iff the limit is not positive or the page is below 1; otherwise `blogs` is the slice of the matching blogs starting at `(page-1)*limit` of at most `limit` blogs, `totalPages = ceil(total/limit)`, `currentPage = page`, and the total counts blogs whose category resolves and that match the search, the author not being required |
| BlogController.MatchingSound | BACKEND/src/controllers/blogController.js:73-95 | every listed blog is stored, has a resolving category and author, and matches the search |
| BlogController.ListedWithinCount | BACKEND/src/controllers/blogController.js:82-110 | the listed blogs are the counted ones whose author resolves, so there are at most as many; when every author resolves there are exactly as many |
| BlogController.DanglingCategoryExcluded | BACKEND/src/controllers/blogController.js:82-107 | a blog whose category is gone is neither listed nor counted |
| BlogController.EmptySearchCountsResolved | BACKEND/src/controllers/blogController.js:61-70 | with no search, every blog whose category resolves is counted |
| BlogController.TitleHitIsListed | BACKEND/src/controllers/blogController.js:61-70 | a blog whose title contains the search, ignoring case, is listed when its category and author resolve |
| BlogController.PagesCoverMatches | BACKEND/src/controllers/blogController.js:93-94 | for any positive limit and page, the pages 1 to `totalPages` joined in order are exactly the listed (matching) blogs, whether or not every author resolves |
| BlogController.PageNonEmptyWithinTotal | BACKEND/src/controllers/blogController.js:112-118 | when every author resolves, a page holds some blog iff its number is at most `totalPages` (the count at lines 98-108 does not join the author, so a dangling author can leave the last counted page empty) |
| BlogController.ThirteenMatchesSecondPage | BACKEND/src/controllers/blogController.js:56-57 | with the default limit of 6, thirteen matches answer page 2 with exactly the matches 7 to 12, in order, and 3 pages |
| BlogController.GetBlogById | BACKEND/src/controllers/blogController.js:128-141 | 404 iff no blog has the id; otherwise 200 with the stored blog of that id |
| BlogController.UpdateBlogReply | BACKEND/src/controllers/blogController.js:145-177 | 400 iff a field is missing; 404 iff otherwise the id is unknown; 500 iff otherwise title or description trims to empty; 200 gives a revision: the new text and category, the new image only when a file was sent, the same id, author, owner and creation time, and an updated time of now; when the request restates the stored title, description and category and sends no new image, nothing is modified, so the 200 gives the stored blog with its old updated time |
| BlogController.UpdateBlog | BACKEND/src/controllers/blogController.js:152-168 | assigns the fields step by step and saves; returns `UpdateBlogReply`; when the update modifies the blog, only that position of the collection changes and one moment of time passes; on any other status, and on a 200 that modifies nothing, the store is unchanged |
| BlogController.RestatingUpdateKeepsBlog | BACKEND/src/controllers/blogController.js:163-172 | sending a stored blog's own title, description and category without a file writes nothing and answers 200 with that blog unchanged |
| Store.Db.ReplaceBlog | BACKEND/src/controllers/blogController.js:168 | `blog.save()` on a stored blog replaces exactly that position by the revision, keeping its id and creation time, uses up one moment of time, leaves the other collections and the next id alone, and keeps the store valid |
| BlogController.UpdateTouchesOnlyTarget | BACKEND/src/controllers/blogController.js:152-168 | no blog with another id is changed by an update |
| BlogController.DeleteBlogReply | BACKEND/src/controllers/blogController.js:181-200 | 404 iff the id is unknown; 403 iff the blog's owner is not the caller; 200 iff the caller owns it |
| BlogController.DeleteBlog | BACKEND/src/controllers/blogController.js:181-195 | returns `DeleteBlogReply`; on 200 exactly that blog is removed and the collection is one shorter; otherwise the store is unchanged |
| BlogController.OnlyOwnerDeletes | BACKEND/src/controllers/blogController.js:188-191 | a blog that exists but belongs to someone else is refused with 403 |
| BlogController.DeletedBlogNotFound | BACKEND/src/controllers/blogController.js:133-135 | after a delete, looking the id up answers 404 |
| BlogController.GetMyBlogs | BACKEND/src/controllers/blogController.js:203-210 | exactly the blogs authored by the caller, each once, newest first |
| BlogController.MyBlogsReverseCreationOrder | BACKEND/src/controllers/blogController.js:205-207 | in a store kept in creation order, "my blogs" is the caller's blogs in reverse order |
| CategoryController.CreateCategoryReply | BACKEND/src/controllers/categoryController.js:4-20 | 400 iff the name is missing or empty; otherwise 201 with the category under the next id, the given name and description, both times now |
| CategoryController.CreateCategory | BACKEND/src/controllers/categoryController.js:6-16 | returns `CreateCategoryReply`; on 201 exactly that category is appended; on 400 the store is unchanged |
| CategoryController.GetAllCategories | BACKEND/src/controllers/categoryController.js:23-30 | every category exactly once, newest first |
| CategoryController.AllCategoriesNewestFirst | BACKEND/src/controllers/categoryController.js:25 | in a store kept in creation order, the listing is the collection reversed |
| CategoryController.CreatedCategoryListedFirst | BACKEND/src/controllers/categoryController.js:12-25 | a category just created comes first in the listing |
| CategoryController.GetCategoryById | BACKEND/src/controllers/categoryController.js:33-43 | 404 iff no category has the id; otherwise 200 with that category |
| CategoryController.UpdateCategoryReply | BACKEND/src/controllers/categoryController.js:46-68 | 404 iff the id is unknown; otherwise 200 with the name and description given (an absent one kept), the updated time now, and the id and creation time kept; the name is not checked |
| CategoryController.UpdateCategory | BACKEND/src/controllers/categoryController.js:49-59 | returns `UpdateCategoryReply`; on 200 only that category changes; on 404 the store is unchanged |
| CategoryController.EmptyUpdateOnlyTouchesTime | BACKEND/src/controllers/categoryController.js:55-58 | an update with neither field changes only the updated time |
| CategoryController.InUseIffCounted | BACKEND/src/controllers/categoryController.js:79-80 | `countDocuments({ category: id }) > 0` holds iff some blog has that category |
| CategoryController.DeleteCategoryAsWritten | BACKEND/src/controllers/categoryController.js:71-89 | as written: 404 iff the id is unknown, and 500 for every existing category, since `Blog` is not bound in this file |
| CategoryController.DeleteCategoryReply | BACKEND/src/controllers/categoryController.js:71-89 | as intended: 404 iff the id is unknown; 400 iff it exists and some blog uses it; 200 iff it exists and no blog uses it |
| CategoryController.DeleteCategoryDiscrepancy | BACKEND/src/controllers/categoryController.js:79 | with no blogs at all, the intended delete of an existing category answers 200 and the written one 500 |
| CategoryController.DeleteCategory | BACKEND/src/controllers/categoryController.js:73-85 | returns the intended `DeleteCategoryReply`; on 200 exactly that category is removed; otherwise the store is unchanged |
| CategoryController.DeleteKeepsBlogCategories | BACKEND/src/controllers/categoryController.js:78-84 | a successful delete leaves the category of every blog resolvable |
| StudyController.AddQuestionCategoryReply | BACKEND/src/controllers/questionCategoryController.js:4-12 | 500 iff `userId` is missing or the name is missing or empty; otherwise 201 with the `userId` and name of the body, not checked against the caller |
| StudyController.AddQuestionCategory | BACKEND/src/controllers/questionCategoryController.js:6-8 | returns `AddQuestionCategoryReply`; on 201 exactly that folder is appended; on 500 the store is unchanged |
| StudyController.GetCategoriesByUser | BACKEND/src/controllers/questionCategoryController.js:14-23 | exactly the folders whose `userId` is the parameter |
| StudyController.AddedFolderListedLast | BACKEND/src/controllers/questionCategoryController.js:7-18 | a new folder appears last in its owner's listing |
| StudyController.AddedFolderInvisibleToOthers | BACKEND/src/controllers/questionCategoryController.js:7-18 | a new folder does not change any other user's listing |
| StudyController.AddQuestionReply | BACKEND/src/controllers/questionCategoryController.js:25-38 | 500 iff any of the four fields is missing or empty; otherwise 201 with the question and answer stored verbatim |
| StudyController.AddQuestion | BACKEND/src/controllers/questionCategoryController.js:27-34 | returns `AddQuestionReply`; on 201 exactly that question is appended; on 500 the store is unchanged |
| StudyController.GetQuestions | BACKEND/src/controllers/questionCategoryController.js:40-53 | exactly the questions matching both the user and the category |
| StudyController.AddedQuestionReadBack | BACKEND/src/controllers/questionCategoryController.js:27-47 | a question just added is returned by the matching query with the same question and answer text |
| StudyController.DeleteQuestion | BACKEND/src/controllers/questionCategoryController.js:55-62 | always 200; removes the question with that id if there is one, one fewer then, none fewer otherwise; no ownership check; nothing else changes |
| StudyController.DeleteQuestionIdempotent | BACKEND/src/controllers/questionCategoryController.js:57-58 | deleting an absent id changes nothing, and deleting twice is deleting once |
| AuthController.TokenFor | BACKEND/src/controllers/authController.js:42 | the token issued for a user id is a non-empty text beginning with "jwt." |
| AuthController.DecimalTextInjective | BACKEND/src/controllers/authController.js:42 | two numbers with the same decimal text are equal |
| AuthController.TokenForInjective | BACKEND/src/controllers/authController.js:42 | two user ids get the same token only when they are the same id |
| AuthController.FindByEmail | BACKEND/src/controllers/authController.js:9 | finds a user iff one has that email, and the user found has it |
| AuthController.RegisterReply | BACKEND/src/controllers/authController.js:5-30 | 400 "User already exists" iff the email is taken; otherwise 201 with `userId`, name and email, and no token |
| AuthController.RegisterUser | BACKEND/src/controllers/authController.js:9-14 | returns `RegisterReply`; on 201 exactly one user with the given name, email and password is appended; on 400 the store is unchanged |
| AuthController.RegisterKeepsEmailsUnique | BACKEND/src/controllers/authController.js:9-14 | registering keeps emails unique |
| AuthController.LoginReply | BACKEND/src/controllers/authController.js:33-57 | 401 "Invalid credentials", the same reply for an unknown email and for a wrong password; otherwise 200 with that user's data and the token for that user's id; it reads the users only, so login never writes |
| AuthController.LoginTokenIdentifiesUser | BACKEND/src/controllers/authController.js:42-52 | two successful logins that return the same token are for the same user id |
| AuthController.LoginSucceedsIffCredentialsStored | BACKEND/src/controllers/authController.js:37-40 | with unique emails, login succeeds iff some stored user has that email and password |
| AuthController.RegisterThenLogin | BACKEND/src/controllers/authController.js:14-44 | after registering, logging in with the same email and password answers 200 for the new user's id |
| AuthController.FindByEmailAppendFresh | BACKEND/src/controllers/authController.js:9-14 | a user registered under a fresh email is found by that email |
| UserController.GetProfile | BACKEND/src/controllers/userController.js:4-14 | 404 iff the caller's user is absent; otherwise 200 with just that user's name, email and image |
| UserController.UpdateProfileReply | BACKEND/src/controllers/userController.js:16-43 | 400 iff name or email is missing or empty, before any lookup; 404 iff otherwise the caller is absent; 200 gives the new name and email, and the image `/uploads/` + file when a file is sent, else the stored one |
| UserController.UpdateProfile | BACKEND/src/controllers/userController.js:23-37 | reassigns `imageUrl` as the handler does; returns `UpdateProfileReply`; on 200 only the caller's record changes, in name, email and image; otherwise nothing changes |
| UserController.UpdateThenGetProfile | BACKEND/src/controllers/userController.js:33-37 | after an update, reading the profile gives the reply's profile |
| UserController.NoFileKeepsImage | BACKEND/src/controllers/userController.js:28-31 | without a file the image stays what it was |
| Routes.AuthProtectedGuard | FRONTEND/src/Routes/AuthProtected.js:5-26 | redirects to /dashboard iff there is a token and the path is /login or /register; to /login iff there is no token and the path is neither those nor /dashboard; otherwise renders |
| Routes.PublicGuard | FRONTEND/src/Routes/publicRoute.js:4-14 | redirects to /dashboard iff there is a token, otherwise renders |
| Routes.GroupOf | FRONTEND/src/Routes/allRoutes.js:10-28 | a path is common, public or private iff it is one of that group's paths; the groups do not overlap |
| Routes.Resolve | FRONTEND/src/Routes/index.js:8-45 | a path renders iff it is public and there is no token, or private and there is a token, or in no guarded group; a redirect goes to /dashboard from a public path and to /login otherwise |
| Routes.AuthProtectedPublicBranchUnreachable | FRONTEND/src/Routes/index.js:33-42 | only private paths reach this guard, so its redirect to /dashboard never happens; it renders iff there is a token and otherwise sends to /login |
| Routes.NoRedirectCycle | FRONTEND/src/Routes/index.js:8-45 | wherever a guard redirects, the target renders |
| Routes.PrivateNeedsToken | FRONTEND/src/Routes/index.js:33-42 | a private page renders iff there is a token |
| Routes.PublicNeedsNoToken | FRONTEND/src/Routes/index.js:21-30 | /login and /register render iff there is no token |
| Routes.DashboardAlwaysRenders | FRONTEND/src/Routes/index.js:11-18 | /dashboard and every unlisted path render with or without a token |
| RegisterPage.ValidName | FRONTEND/src/Pages/Authentication/Register.jsx:29-31 | the name is accepted iff it has at least 2 characters |
| RegisterPage.ValidPassword | FRONTEND/src/Pages/Authentication/Register.jsx:38-40 | the password is accepted iff it has at least 8 characters |
| RegisterPage.ValidConfirm | FRONTEND/src/Pages/Authentication/Register.jsx:41-43 | the confirmation is accepted iff it equals the password and is non-empty; for an accepted password, iff it equals the password |
| RegisterPage.ValidRegisterForm | FRONTEND/src/Pages/Authentication/Register.jsx:28-44 | the form is accepted iff the name has at least 2 characters, the phone is ten ASCII digits, the email is non-empty and accepted by `emailOk`, the password has at least 8 characters and the confirmation equals it |
| RegisterPage.MatchDigitsCorrect | FRONTEND/src/Pages/Authentication/Register.jsx:35 | matching `[0-9]{n}$` accepts exactly the strings of n ASCII digits |
| RegisterPage.ValidPhone | FRONTEND/src/Pages/Authentication/Register.jsx:33-35 | the phone is accepted iff it is exactly ten ASCII digits |
| RegisterPage.ValidFormPasswords | FRONTEND/src/Pages/Authentication/Register.jsx:39-44 | a valid form has a password of at least 8 characters and the same confirmation |
| RegisterPage.PayloadOf | FRONTEND/src/Pages/Authentication/Register.jsx:48-52 | the request carries the form's name, email and password |
| RegisterPage.PayloadIgnoresPhoneAndConfirm | FRONTEND/src/Pages/Authentication/Register.jsx:48-52 | phone and confirmation do not affect the request |
| RegisterPage.SubmitAsWritten | FRONTEND/src/Pages/Authentication/Register.jsx:46-62 | as written: on success the token entry becomes "undefined" and the page goes to /login; on failure nothing is stored and the server's message or 'Registration failed' is shown |
| RegisterPage.StoredUndefinedBlocksLogin | FRONTEND/src/Pages/Authentication/Register.jsx:54 | the stored "undefined" counts as a token: /login redirects to /dashboard and the private pages render |
| RegisterPage.Submit | FRONTEND/src/Pages/Authentication/Register.jsx:46-62 | as intended: storage is unchanged; the page goes to /login on success and shows the error text on failure |
| RegisterPage.SubmitThenLoginRenders | FRONTEND/src/Pages/Authentication/Register.jsx:57 | without a token the /login page it navigates to renders |
| Session.StorageText | FRONTEND/src/Pages/Authentication/Login.jsx:36-37 | what `setItem` stores: the string given, or "undefined" for an undefined value |
| Session.ErrorText | FRONTEND/src/Pages/Authentication/Register.jsx:60 | the server's message when it is non-empty, otherwise the fallback |
| Session.StoredName | FRONTEND/src/Pages/Blogs/Blogs.jsx:45-46 | the stored user's name, or '' when no user is stored |
| LoginPage.ValidLoginForm | FRONTEND/src/Pages/Authentication/Login.jsx:24-31 | the form is accepted iff the email is non-empty and accepted by `emailOk` and the password has at least 8 characters |
| LoginPage.RegisteredCredentialsPassLogin | FRONTEND/src/Pages/Authentication/Login.jsx:24-31 | the email and password of an accepted registration form pass the login form's checks |
| LoginPage.LoginFormIsRegisterCredentials | FRONTEND/src/Pages/Authentication/Register.jsx:28-44 | conversely, any credentials the login form accepts can be registered: the login checks are no stricter than the registration checks on the same fields |
| LoginPage.Submit | FRONTEND/src/Pages/Authentication/Login.jsx:32-46 | on success the reply's token and user data are stored and the page goes to /dashboard; on failure storage is unchanged and the server's message or 'Login failed' is shown |
| LoginPage.LoginReplyOpensPrivatePages | FRONTEND/src/Pages/Authentication/Login.jsx:36-39 | after a successful login the stored token opens every private page |
| LoginPage.FailureMessageNonEmpty | FRONTEND/src/Pages/Authentication/Login.jsx:41 | a failed login always shows a non-empty message |
| ClientLists.SetById | FRONTEND/src/Pages/Blogs/Blogs.jsx:171-173 | same length and order; exactly the records with the current id become the returned record; with no current id nothing changes |
| ClientLists.SetByIdAt | FRONTEND/src/Pages/Blogs/MyBlogs.jsx:132-134 | with distinct ids, replacing by the id at position k replaces position k and nothing else |
| ClientLists.PrependThenRemove | FRONTEND/src/Pages/Blogs/Blogs.jsx:177-190 | deleting a blog just put first removes it and restores the list |
| ClientLists.AppendThenRemove | FRONTEND/src/Pages/Categories/Category.jsx:90-102 | deleting a category just put last removes it and restores the list |
| ClientLists.EmptyBlogForm | FRONTEND/src/Pages/Blogs/Blogs.jsx:127-133 | the empty form: no title, description, category or image, the author pre-filled with the stored name |
| ClientLists.WithPlaceholder | FRONTEND/src/Pages/Blogs/Blogs.jsx:210 | the card's image becomes the placeholder and each other field is kept |
| ClientLists.ImageFailed | FRONTEND/src/Pages/Blogs/Blogs.jsx:207-213 | same length and order; exactly the cards with that id show the placeholder |
| ClientLists.ImageFailedIdempotent | FRONTEND/src/Pages/Blogs/MyBlogs.jsx:158-164 | a second image error on the same blog changes nothing |
| ClientLists.ImageSrc | FRONTEND/src/Pages/Blogs/Blogs.jsx:360-364 | an image starting with "http" is used as is; anything else is prefixed with the API address |
| ClientLists.PlaceholderIsAbsolute | FRONTEND/src/Pages/Blogs/Blogs.jsx:360-367 | the placeholder is used as is, so after the fallback the source no longer depends on the API address |
| BlogsPage.NumberOr | FRONTEND/src/Pages/Blogs/Blogs.jsx:69-71 | `n || d`: the value unless it is missing or 0; at least 1 for a fallback of 1 and a value that is not negative |
| BlogsPage.PageAfterDelete | FRONTEND/src/Pages/Blogs/Blogs.jsx:194-199 | the page changes iff one blog was shown and the page was above 1, and then it is the previous page; a page of at least 1 stays at least 1 |
| BlogsPage.DeleteKeepsPageInRange | FRONTEND/src/Pages/Blogs/Blogs.jsx:192-199 | the page shown after a delete still exists among the pages left, unless no blog is left |
| BlogsPage.CreatedImageSrc | FRONTEND/src/Pages/Blogs/Blogs.jsx:360-364 | a blog created without an upload shows the placeholder; one with an upload is served from the API address followed by the file name |
| BlogsPage.BlogsPage.constructor | FRONTEND/src/Pages/Blogs/Blogs.jsx:39-57 | no blogs, page 1 of 1, total 0, empty search, dialog closed and the empty form |
| BlogsPage.BlogsPage.ApplyFetch | FRONTEND/src/Pages/Blogs/Blogs.jsx:64-77 | the reply's blogs and numbers, a missing field or a 0 giving `[]`, 1, 1, 0; a failed fetch changes nothing; page numbers stay at least 1 |
| BlogsPage.BlogsPage.Open | FRONTEND/src/Pages/Blogs/Blogs.jsx:114-136 | with a blog: edit mode on its id, its fields copied, the author's name or else the stored one, no image; without: create mode and the empty form; the dialog opens |
| BlogsPage.BlogsPage.Close | FRONTEND/src/Pages/Blogs/Blogs.jsx:138-142 | the dialog closes, edit mode ends and no blog is current |
| BlogsPage.BlogsPage.Save | FRONTEND/src/Pages/Blogs/Blogs.jsx:154-185 | an incomplete form or a failed request changes nothing; otherwise the returned blog replaces the current one or goes first, the dialog closes, and the current page is fetched again |
| BlogsPage.BlogsPage.Delete | FRONTEND/src/Pages/Blogs/Blogs.jsx:187-205 | on success exactly the blogs with that id leave, the total drops by one, the page count is `ceil((total-1)/6)`, the page is `PageAfterDelete` of the count shown, and that page is fetched; a failure changes nothing |
| BlogsPage.BlogsPage.ImageError | FRONTEND/src/Pages/Blogs/Blogs.jsx:207-213 | the list becomes `ImageFailed` of the list; nothing else changes |
| MyBlogsPage.EditAuthor | FRONTEND/src/Pages/Blogs/MyBlogs.jsx:80 | the author's name when it is non-empty, otherwise the author object |
| MyBlogsPage.MyBlogsPage.constructor | FRONTEND/src/Pages/Blogs/MyBlogs.jsx:35-48 | no blogs, dialog closed and the empty form |
| MyBlogsPage.MyBlogsPage.Open | FRONTEND/src/Pages/Blogs/MyBlogs.jsx:74-96 | with a blog: edit mode on its id, its fields copied and no image; without: create mode and the empty form with the stored name; the dialog opens |
| MyBlogsPage.MyBlogsPage.Close | FRONTEND/src/Pages/Blogs/MyBlogs.jsx:98-102 | the dialog closes, edit mode ends and no blog is current |
| MyBlogsPage.MyBlogsPage.Save | FRONTEND/src/Pages/Blogs/MyBlogs.jsx:114-146 | an incomplete form or a failed request changes nothing; otherwise the returned blog replaces the current one or goes first, and the dialog closes |
| MyBlogsPage.MyBlogsPage.Delete | FRONTEND/src/Pages/Blogs/MyBlogs.jsx:148-156 | on success exactly the blogs with that id leave, the rest in order; a failure changes nothing |
| MyBlogsPage.MyBlogsPage.ImageError | FRONTEND/src/Pages/Blogs/MyBlogs.jsx:158-164 | the list becomes `ImageFailed` of the list; nothing else changes |
| CategoryPage.EditForm | FRONTEND/src/Pages/Categories/Category.jsx:53-56 | the category's name, and its description or '' |
| CategoryPage.CategoryPage.constructor | FRONTEND/src/Pages/Categories/Category.jsx:27-34 | no categories, dialog closed and an empty form |
| CategoryPage.CategoryPage.Open | FRONTEND/src/Pages/Categories/Category.jsx:49-62 | with a category: edit mode on its id and `EditForm` of it; without: create mode and an empty form; the dialog opens |
| CategoryPage.CategoryPage.Close | FRONTEND/src/Pages/Categories/Category.jsx:64-68 | the dialog closes, edit mode ends and no category is current |
| CategoryPage.CategoryPage.Save | FRONTEND/src/Pages/Categories/Category.jsx:75-97 | an empty name or a failed request changes nothing; otherwise the returned category replaces the current one or goes last, and the dialog closes |
| CategoryPage.CategoryPage.Delete | FRONTEND/src/Pages/Categories/Category.jsx:99-107 | on success exactly the categories with that id leave, the rest in order; a failure changes nothing |

## Left out

- Hashing and tokens: `comparePassword` is equality with the stored secret, and `generateToken` is `TokenFor(id)`, a text that names the id ("jwt." and its decimal digits) and so tells ids apart; no signature or expiry is modelled. `userModel.js` and the token helpers are not part of this model.
- `categoryModel.js` and `userModel.js` are not part of this model. Their validators are unknown, so a category create only fails on the controller's name check, and a user create only fails on a taken email. The unique index on `email` is not modelled.
- `AuthController.RegisterUser` takes name, email and password as given strings. A missing field would be rejected by `userModel.js`'s validators, which are not part of this model.
- Search: `$regex` with the `i` option is modelled as a substring match after ASCII lower-casing. Regular-expression metacharacters in `search`, and Unicode case folding, are not modelled.
- `populate` and `$lookup` are modelled only as "the reference resolves". The populated sub-documents are not built. In particular, the listing leaks the author's whole record, password hash included; that is not modelled.
- Multer, the static file server and disk I/O. "A file was sent" is an optional file name.
- The profile route has no upload middleware, and the app parses only JSON, so the client's multipart profile update reaches `updateProfile` with an empty body. The route and middleware wiring is not part of this model.
- Mongoose casting of ids (an invalid ObjectId is a cast error and answers 500) and string-to-number coercion of `page` and `limit`. The query's page and limit are already integers here.
- `CategoryController.UpdateCategoryReply`: keeps a field the body leaves out, assuming Mongoose drops undefined keys from the update. With `runValidators`, a name sent as '' would be rejected by `categoryModel.js`, which is not part of this model.
- Time: `Date.now` and the timestamps are the store's `clock`, a counter every write advances.
- Collections are ordered sequences rather than maps, because the listing paginates in storage order. `findById` is a search by id.
- Asynchrony: debounce, `setTimeout`, concurrent requests and interleavings. The page handlers apply the answer of the one call they await. `handleSearchChange`, `handleResetSearch` and `handlePageChange` only start fetches and are not modelled.
- The request body the blog pages build (`blogData`) is not modelled. The server takes author and owner from the token, not from it.
- Toast messages of the list pages are not modelled, only the state they leave.
- `BlogsPage.BlogsPage.ApplyFetch`: `NaN` and non-numeric values in the reply are not modelled; the numbers are integers.
- Route matching: React Router's case-insensitive matching and trailing slashes are not modelled; a path is compared as written.
- Yup's `.email()` pattern is library code. It is a parameter `emailOk`.
- Lengths are counted in characters, not UTF-16 code units.
- `axiosInterceptor`, the API wrappers, rendering and styling are not part of this model.

## Findings

| source | as written | input that shows it | evidently intended | confidence | as-written member | corrected member |
|---|---|---|---|---|---|---|
| BACKEND/src/controllers/categoryController.js:79 | `Blog.countDocuments` refers to `Blog`, which this file never imports; the `ReferenceError` is caught and answered with 500 | DELETE /categories/:id for an existing category, with no blogs at all | 400 when a blog uses the category, else delete it and answer 200 | high (not executed) | CategoryController.DeleteCategoryAsWritten, shown by CategoryController.DeleteCategoryDiscrepancy | CategoryController.DeleteCategoryReply |
| FRONTEND/src/Pages/Authentication/Register.jsx:54 | stores `response.data.token`, but the register reply carries no token, so the text "undefined" is stored | any successful registration | registration stores no token; the user signs in on /login | high (not executed) | RegisterPage.SubmitAsWritten, shown by RegisterPage.StoredUndefinedBlocksLogin | RegisterPage.Submit |
