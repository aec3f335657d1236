/** `authController.js`: registration and login. Password hashing and token signing live in
    files that are not part of this model; a user's `password` field stands for the secret its
    hash protects, `comparePassword` is equality with it, and a token is a string derived from
    the user id. */
module AuthController {
  import opened Common
  import opened Models
  import opened Store

  /** The `data` object of the register and login replies. */
  datatype UserData = UserData(userId: Id, name: string, email: string)

  /** The JSON body of a reply: `data`, plus `token` on login. */
  datatype AuthBody = AuthBody(data: UserData, token: Option<string>)

  /** Decimal digits of a natural number. */
  function DecimalText(n: nat): (r: string)
    ensures |r| > 0
    ensures forall i :: 0 <= i < |r| ==> '0' <= r[i] <= '9'
    decreases n
  {
    var d := ['0' + (n % 10) as char];
    if n < 10 then d else DecimalText(n / 10) + d
  }

  /** Different numbers have different decimal texts. */
  lemma {:induction false} DecimalTextInjective(a: nat, b: nat)
    requires DecimalText(a) == DecimalText(b)
    ensures a == b
    decreases a
  {
    var ra, rb := DecimalText(a), DecimalText(b);
    assert ra[|ra| - 1] == '0' + (a % 10) as char;
    assert rb[|rb| - 1] == '0' + (b % 10) as char;
    if a >= 10 && b >= 10 {
      assert DecimalText(a / 10) == ra[..|ra| - 1] == rb[..|rb| - 1] == DecimalText(b / 10);
      DecimalTextInjective(a / 10, b / 10);
    }
  }

  /** `generateToken(user._id)`: an opaque, non-empty string determined by the user id. */
  function TokenFor(id: Id): (t: string)
    ensures |t| > 4 && t[..4] == "jwt."
  {
    "jwt." + (if id < 0 then "-" + DecimalText(-id) else DecimalText(id))
  }

  /** Tokens identify users: two ids get the same token only when they are the same id. */
  lemma TokenForInjective(a: Id, b: Id)
    requires TokenFor(a) == TokenFor(b)
    ensures a == b
  {
    var ta, tb := TokenFor(a)[4..], TokenFor(b)[4..];
    assert ta == (if a < 0 then "-" + DecimalText(-a) else DecimalText(a));
    assert tb == (if b < 0 then "-" + DecimalText(-b) else DecimalText(b));
    // A sign is not a digit, so both ids have the same sign.
    assert ta[0] == (if a < 0 then '-' else DecimalText(a)[0]);
    assert tb[0] == (if b < 0 then '-' else DecimalText(b)[0]);
    if a < 0 && b < 0 {
      assert DecimalText(-a) == ta[1..] == tb[1..] == DecimalText(-b);
      DecimalTextInjective(-a, -b);
    } else if a >= 0 && b >= 0 {
      DecimalTextInjective(a, b);
    }
  }

  /** `User.findOne({ email })`: the first user, in natural order, with that email. */
  function FindByEmail(users: seq<User>, email: string): (r: Option<User>)
    ensures r.Some? <==> exists k :: 0 <= k < |users| && users[k].email == email
    ensures r.Some? ==> r.value in users && r.value.email == email
  {
    if users == [] then None
    else if users[0].email == email then Some(users[0])
    else FindByEmail(users[1..], email)
  }

  /** No two users share an email. */
  predicate EmailsUnique(users: seq<User>) {
    forall i, j :: 0 <= i < j < |users| ==> users[i].email != users[j].email
  }

  /** `registerUser`: 400 when the email is taken, otherwise the new user's id, name and email;
      the reply never carries the password or a token. */
  function RegisterReply(users: seq<User>, nextId: Id, name: string, email: string, password: string): (r: Reply<AuthBody>)
    ensures r.status in {201, 400}
    ensures r.status == 400 <==> exists k :: 0 <= k < |users| && users[k].email == email
    ensures r.status == 400 ==> r.message == "User already exists" && r.body.None?
    ensures r.status == 201 ==> r.body == Some(AuthBody(UserData(nextId, name, email), None))
  {
    if FindByEmail(users, email).Some? then Reply(400, "User already exists", None)
    else Reply(201, "", Some(AuthBody(UserData(nextId, name, email), None)))
  }

  /** `registerUser` against the database: on 201 exactly one user is appended, holding the
      given name, email and password and no image; otherwise nothing changes. */
  method RegisterUser(db: Db, name: string, email: string, password: string) returns (r: Reply<AuthBody>)
    requires db.Valid()
    modifies db
    ensures db.Valid()
    ensures r == RegisterReply(old(db.users), old(db.nextId), name, email, password)
    ensures r.status != 201 ==> unchanged(db)
    ensures r.status == 201 ==>
      && db.users == old(db.users) + [User(old(db.nextId), name, email, password, None)]
      && db.nextId == old(db.nextId) + 1 && db.clock == old(db.clock)
      && db.categories == old(db.categories) && db.blogs == old(db.blogs)
      && db.questionCategories == old(db.questionCategories) && db.questions == old(db.questions)
  {
    r := RegisterReply(db.users, db.nextId, name, email, password);
    if r.status == 201 {
      var user := User(db.nextId, name, email, password, None);
      StoreRaise(db.users, db.categories, db.blogs, db.questionCategories, db.questions,
                 db.nextId, db.clock, db.nextId + 1, db.clock);
      UsersAppend(db.users, user, db.nextId);
      db.users := db.users + [user];
      db.nextId := db.nextId + 1;
    }
  }

  /** Registration keeps emails unique: a user is only added under an email nobody has. */
  lemma RegisterKeepsEmailsUnique(users: seq<User>, nextId: Id, name: string, email: string, password: string)
    requires EmailsUnique(users)
    ensures RegisterReply(users, nextId, name, email, password).status == 201 ==>
            EmailsUnique(users + [User(nextId, name, email, password, None)])
  {
    var after := users + [User(nextId, name, email, password, None)];
    if RegisterReply(users, nextId, name, email, password).status == 201 {
      forall i, j | 0 <= i < j < |after| ensures after[i].email != after[j].email {
        if j == |users| {
          assert after[i] == users[i];
        } else {
          assert after[i] == users[i] && after[j] == users[j];
        }
      }
    }
  }

  /** `loginUser`: a read that never writes. An unknown email and a wrong password get the
      same 401 reply; otherwise the user's id, name and email and a token for that id. */
  function LoginReply(users: seq<User>, email: string, password: string): (r: Reply<AuthBody>)
    ensures r.status in {200, 401}
    ensures r.status == 401 <==> FindByEmail(users, email).None? || FindByEmail(users, email).value.password != password
    ensures r.status == 401 ==> r == Reply(401, "Invalid credentials", None)
    ensures r.status == 200 ==>
      var u := FindByEmail(users, email).value;
      r.body == Some(AuthBody(UserData(u.id, u.name, email), Some(TokenFor(u.id))))
  {
    match FindByEmail(users, email)
    case None => Reply(401, "Invalid credentials", None)
    case Some(user) =>
      if user.password != password then Reply(401, "Invalid credentials", None)
      else Reply(200, "Logged in successfully.", Some(AuthBody(UserData(user.id, user.name, user.email), Some(TokenFor(user.id)))))
  }

  /** Two successful logins return the same token only for the same user id, so a token
      tells the user it was issued to. */
  lemma LoginTokenIdentifiesUser(users: seq<User>, e1: string, p1: string, e2: string, p2: string)
    requires LoginReply(users, e1, p1).status == 200 && LoginReply(users, e2, p2).status == 200
    requires LoginReply(users, e1, p1).body.value.token == LoginReply(users, e2, p2).body.value.token
    ensures LoginReply(users, e1, p1).body.value.data.userId == LoginReply(users, e2, p2).body.value.data.userId
  {
    TokenForInjective(FindByEmail(users, e1).value.id, FindByEmail(users, e2).value.id);
  }

  /** With unique emails, login succeeds exactly for a stored (email, password) pair, and the
      token names that user. */
  lemma LoginSucceedsIffCredentialsStored(users: seq<User>, email: string, password: string)
    requires EmailsUnique(users)
    ensures LoginReply(users, email, password).status == 200 <==>
            exists k :: 0 <= k < |users| && users[k].email == email && users[k].password == password
  {
    var found := FindByEmail(users, email);
    if exists k :: 0 <= k < |users| && users[k].email == email && users[k].password == password {
      var k :| 0 <= k < |users| && users[k].email == email && users[k].password == password;
      var j :| 0 <= j < |users| && users[j] == found.value;
      assert j == k;
    }
  }

  /** A user who has just registered can log in with the same email and password. */
  lemma RegisterThenLogin(users: seq<User>, nextId: Id, name: string, email: string, password: string)
    requires RegisterReply(users, nextId, name, email, password).status == 201
    ensures var r := LoginReply(users + [User(nextId, name, email, password, None)], email, password);
            r.status == 200 && r.body.value.data == UserData(nextId, name, email)
  {
    FindByEmailAppendFresh(users, User(nextId, name, email, password, None));
  }

  /** Searching after appending a user whose email is new finds that user. */
  lemma {:induction false} FindByEmailAppendFresh(users: seq<User>, u: User)
    requires forall k :: 0 <= k < |users| ==> users[k].email != u.email
    ensures FindByEmail(users + [u], u.email) == Some(u)
  {
    if users != [] {
      assert (users + [u])[1..] == users[1..] + [u];
      FindByEmailAppendFresh(users[1..], u);
    }
  }
}
