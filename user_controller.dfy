/** `userController.js`: the authenticated caller's own profile. */
module UserController {
  import opened Common
  import opened Models
  import opened Store

  /** `.select('name email image')`: the fields a profile reply carries (never the password). */
  datatype Profile = Profile(name: string, email: string, image: Option<string>)

  function ProfileOf(u: User): Profile {
    Profile(u.name, u.email, u.image)
  }

  /** `getProfile` for the authenticated caller: 404 when the caller's record is gone,
      otherwise its name, email and image. */
  function GetProfile(users: seq<User>, caller: Id): (r: Reply<Profile>)
    ensures r.status in {200, 404}
    ensures r.status == 404 <==> forall k :: 0 <= k < |users| ==> users[k].id != caller
    ensures r.status == 200 ==>
      exists k :: 0 <= k < |users| && users[k].id == caller && r.body == Some(ProfileOf(users[k]))
  {
    match IndexOf(users, UserId, caller)
    case None => Reply(404, "User not found", None)
    case Some(k) => Reply(200, "", Some(ProfileOf(users[k])))
  }

  /** The image a profile update stores: the uploaded file under `/uploads/`, else the old one. */
  function NewImage(current: Option<string>, file: Option<string>): Option<string> {
    if file.Some? then Some("/uploads/" + file.value) else current
  }

  /** `updateProfile` as a reply: 400 when `name` or `email` is missing or empty, checked
      before the lookup; 404 when the caller's record is gone; otherwise the new profile. */
  function UpdateProfileReply(users: seq<User>, caller: Id, name: Option<string>, email: Option<string>,
                              file: Option<string>): (r: Reply<Profile>)
    ensures r.status in {200, 400, 404}
    ensures r.status == 400 <==> !Present(name) || !Present(email)
    ensures r.status == 404 <==> Present(name) && Present(email) && Lookup(users, UserId, caller).None?
    ensures r.status == 200 ==>
      && IndexOf(users, UserId, caller).Some?
      && r.body == Some(Profile(name.value, email.value,
                                NewImage(users[IndexOf(users, UserId, caller).value].image, file)))
  {
    if !Present(name) || !Present(email) then Reply(400, "Name and email are required", None)
    else
      match IndexOf(users, UserId, caller)
      case None => Reply(404, "User not found", None)
      case Some(k) => Reply(200, "", Some(Profile(name.value, email.value, NewImage(users[k].image, file))))
  }

  /** `updateProfile` against the database, step by step as the handler does it. On 200 only
      the caller's record changes, and in it only name, email and image; otherwise nothing. */
  method UpdateProfile(db: Db, caller: Id, name: Option<string>, email: Option<string>,
                       file: Option<string>) returns (r: Reply<Profile>)
    requires db.Valid()
    modifies db
    ensures db.Valid()
    ensures r == UpdateProfileReply(old(db.users), caller, name, email, file)
    ensures r.status != 200 ==> unchanged(db)
    ensures r.status == 200 ==>
      && var k := IndexOf(old(db.users), UserId, caller).value;
      && var before := old(db.users)[k];
      && db.users == old(db.users)[k := User(before.id, name.value, email.value, before.password, r.body.value.image)]
      && db.categories == old(db.categories) && db.blogs == old(db.blogs)
      && db.questionCategories == old(db.questionCategories) && db.questions == old(db.questions)
      && db.nextId == old(db.nextId) && db.clock == old(db.clock)
  {
    if !Present(name) || !Present(email) {
      r := Reply(400, "Name and email are required", None);
      return;
    }
    var index := IndexOf(db.users, UserId, caller);
    if index.None? {
      r := Reply(404, "User not found", None);
      return;
    }
    var k := index.value;
    var user := db.users[k];
    var imageUrl := user.image;
    if file.Some? {
      imageUrl := Some("/uploads/" + file.value);
    }
    var updated := User(user.id, name.value, email.value, user.password, imageUrl);
    KeyedReplace(db.users, k, updated, UserId, db.nextId);
    db.users := db.users[k := updated];
    r := Reply(200, "", Some(ProfileOf(updated)));
  }

  /** After a successful update, reading the profile back returns what the update replied. */
  lemma UpdateThenGetProfile(users: seq<User>, caller: Id, name: Option<string>, email: Option<string>,
                             file: Option<string>)
    requires StrictlyIncreasing(users, UserId)
    requires UpdateProfileReply(users, caller, name, email, file).status == 200
    ensures var k := IndexOf(users, UserId, caller).value;
            var before := users[k];
            var r := UpdateProfileReply(users, caller, name, email, file);
            GetProfile(users[k := User(before.id, name.value, email.value, before.password, r.body.value.image)], caller)
              == Reply(200, "", r.body)
  {
    var k := IndexOf(users, UserId, caller).value;
    var before := users[k];
    var r := UpdateProfileReply(users, caller, name, email, file);
    var after := users[k := User(before.id, name.value, email.value, before.password, r.body.value.image)];
    ReplaceSameKey(users, k, after[k], UserId);
    LookupUnique(after, UserId, caller, k);
  }

  /** Without a file, the stored image is kept. */
  lemma NoFileKeepsImage(users: seq<User>, caller: Id, name: Option<string>, email: Option<string>)
    requires UpdateProfileReply(users, caller, name, email, None).status == 200
    ensures UpdateProfileReply(users, caller, name, email, None).body.value.image ==
            Lookup(users, UserId, caller).value.image
  {
  }
}
