/** `UserController`: registration, login, the current user, and the
    partial update of the current user. bcrypt (`hash`, `compare`), the
    e-mail format check and token signing are parameters. */
module UserController {
  import opened Common
  import opened Errors
  import opened Tables
  import opened Schema
  import opened UserModel
  import opened Views
  import opened Database

  const Taken := "has already been taken"

  /** The `{user: ...}` body of the authentication replies, as `toAuthJSON`
      builds it for the saved row `u`. */
  function AuthBody(u: User, secretEnv: Option<string>, expiresEnv: Option<string>, sign: Signer): Body
  {
    UserBody(AuthUser(u.email, sign(TokenClaims(u.id, u.username, u.email), JwtSecret(secretEnv), ExpiresIn(expiresEnv)),
                      u.username, OrEmpty(u.bio), OrEmpty(u.image)))
  }

  /** `register`: the e-mail is looked up first and a taken one gives 422
      {email: ['has already been taken']} without looking at the username;
      then a taken username gives 422 {username: [...]}; then the new row is
      validated (every column), its password hashed, and it is inserted with
      the next id, replying 201 with the authentication body. */
  method Register(s: Store, username: string, email: string, password: string,
                  isEmail: string -> bool, hash: string -> string,
                  secretEnv: Option<string>, expiresEnv: Option<string>, sign: Signer)
    returns (r: Response)
    requires s.Valid()
    modifies s
    ensures s.Valid()
    ensures UserByEmail(old(s.users), email).Some? ==>
              r == Failure(Api(FieldError("email", Taken))) && unchanged(s)
    ensures UserByEmail(old(s.users), email).None? && UserByUsername(old(s.users), username).Some? ==>
              r == Failure(Api(FieldError("username", Taken))) && unchanged(s)
    ensures var issues := UserIssues(User(old(s.nextUserId), username, email, password, None, None), None, isEmail);
            UserByEmail(old(s.users), email).None? && UserByUsername(old(s.users), username).None? ==>
              && (issues != [] ==> r == Failure(Library("SequelizeValidationError", Some(issues))) && unchanged(s))
              && (issues == [] ==>
                    var u := User(old(s.nextUserId), username, email, hash(password), None, None);
                    && s.Snapshot() == old(s.Snapshot()).(users := old(s.users) + [u], nextUserId := old(s.nextUserId) + 1)
                    && r == Reply(201, AuthBody(u, secretEnv, expiresEnv, sign)))
  {
    var byEmail := UserByEmail(s.users, email);
    if byEmail.Some? {
      return Failure(Api(FieldError("email", Taken)));
    }
    var byUsername := UserByUsername(s.users, username);
    if byUsername.Some? {
      return Failure(Api(FieldError("username", Taken)));
    }
    // `User.create`: validate, run `beforeSave`, insert.
    var rec := new UserRecord.Build(s.nextUserId, username, email, password);
    var issues := UserIssues(rec.Row(), rec.loaded, isEmail);
    if issues != [] {
      return Failure(Library("SequelizeValidationError", Some(issues)));
    }
    rec.BeforeSave(hash);
    var u := rec.Row();
    InsertUserValid(s.Snapshot(), u);
    s.users := s.users + [u];
    s.nextUserId := s.nextUserId + 1;
    var auth := ToAuthJson(u, secretEnv, expiresEnv, sign);
    r := Reply(201, UserBody(auth));
  }

  /** Inserting a user with the next id and a new, non-blank username and
      e-mail keeps the store valid. */
  lemma InsertUserValid(db: Db, u: User)
    requires db.Valid() && u.id == db.nextUserId && NotBlank(u.username) && NotBlank(u.email)
    requires UserByUsername(db.users, u.username).None? && UserByEmail(db.users, u.email).None?
    ensures db.(users := db.users + [u], nextUserId := db.nextUserId + 1).Valid()
  {
    AppendUnique(db.users, u, UserKey);
    AppendUnique(db.users, u, UserName);
    AppendUnique(db.users, u, UserEmail);
    assert UserIds(db.users + [u]) == UserIds(db.users) + {u.id};
  }

  /** `login`: an unknown e-mail and a wrong password give the same 401
      'Email or password is invalid', so a client cannot tell them apart;
      otherwise 200 with the authentication body. Nothing is written. */
  method Login(db: Db, email: string, password: string, compare: (string, string) -> bool,
               secretEnv: Option<string>, expiresEnv: Option<string>, sign: Signer)
    returns (r: Response)
    ensures var found := UserByEmail(db.users, email);
            found.None? || !compare(password, found.value.password) <==>
              r == Failure(Api(Unauthorized("Email or password is invalid")))
    ensures r.Reply? ==>
              exists u :: u in db.users && u.email == email && compare(password, u.password) &&
                          r == Reply(200, AuthBody(u, secretEnv, expiresEnv, sign))
  {
    var found := UserByEmail(db.users, email);
    if found.None? {
      return Failure(Api(Unauthorized("Email or password is invalid")));
    }
    var user := found.value;
    var isPasswordValid := compare(password, user.password);
    if !isPasswordValid {
      return Failure(Api(Unauthorized("Email or password is invalid")));
    }
    var auth := ToAuthJson(user, secretEnv, expiresEnv, sign);
    r := Reply(200, UserBody(auth));
  }

  /** In a valid store the e-mail lookup of `login` finds the user who
      owns that e-mail, so the password is checked against that user's hash. */
  lemma LoginFindsOwner(db: Db, u: User)
    requires db.Valid() && u in db.users
    ensures UserByEmail(db.users, u.email) == Some(u)
  {
    var r := UserByEmail(db.users, u.email);
    var i :| 0 <= i < |db.users| && db.users[i] == u;
    var j :| 0 <= j < |db.users| && db.users[j] == r.value;
    assert UserEmail(db.users[i]) == UserEmail(db.users[j]);
  }

  /** `getCurrentUser`: the authentication body of the user the middleware
      attached. */
  method GetCurrentUser(u: User, secretEnv: Option<string>, expiresEnv: Option<string>, sign: Signer)
    returns (r: Response)
    ensures r == Reply(200, AuthBody(u, secretEnv, expiresEnv, sign))
  {
    var auth := ToAuthJson(u, secretEnv, expiresEnv, sign);
    r := Reply(200, UserBody(auth));
  }

  // ---- updateUser ---------------------------------------------------------

  /** The uniqueness checks of `updateUser`, e-mail first: each runs only
      when the requested value is truthy and differs from the current one. */
  function UpdateConflict(users: seq<User>, u: User, username: Field, email: Field): Option<ApiError>
  {
    if TruthyField(email) && email.text != u.email && UserByEmail(users, email.text).Some? then
      Some(FieldError("email", Taken))
    else if TruthyField(username) && username.text != u.username && UserByUsername(users, username.text).Some? then
      Some(FieldError("username", Taken))
    else None
  }

  /** In a valid store the update is refused exactly when another user holds
      a requested (truthy) e-mail or username, the e-mail being reported
      first; re-sending one's own values is never refused. */
  lemma UpdateConflictSpec(db: Db, u: User, username: Field, email: Field)
    requires db.Valid() && u in db.users
    ensures var c := UpdateConflict(db.users, u, username, email);
            var emailTaken := TruthyField(email) && exists v :: v in db.users && v.id != u.id && v.email == email.text;
            var nameTaken := TruthyField(username) && exists v :: v in db.users && v.id != u.id && v.username == username.text;
            && (emailTaken ==> c == Some(FieldError("email", Taken)))
            && (!emailTaken && nameTaken ==> c == Some(FieldError("username", Taken)))
            && (!emailTaken && !nameTaken ==> c == None)
  {
    OthersDiffer(db, u);
    var emailTaken := TruthyField(email) && exists v :: v in db.users && v.id != u.id && v.email == email.text;
    if TruthyField(email) {
      LoginFindsOwner(db, u);
      assert emailTaken <==> email.text != u.email && UserByEmail(db.users, email.text).Some?;
    }
    if !emailTaken && TruthyField(username) {
      UsernameIdentifies(db, u);
      assert (exists v :: v in db.users && v.id != u.id && v.username == username.text) <==>
             username.text != u.username && UserByUsername(db.users, username.text).Some?;
    }
  }

  /** Under the unique keys no other user shares a user's e-mail or username. */
  lemma OthersDiffer(db: Db, u: User)
    requires db.Valid() && u in db.users
    ensures forall v :: v in db.users && v.id != u.id ==> v.email != u.email && v.username != u.username
  {
    forall v | v in db.users && v.id != u.id
      ensures v.email != u.email && v.username != u.username
    {
      var i :| 0 <= i < |db.users| && db.users[i] == u;
      var j :| 0 <= j < |db.users| && db.users[j] == v;
      assert UserKey(db.users[i]) != UserKey(db.users[j]);
      assert UserEmail(db.users[i]) != UserEmail(db.users[j]);
      assert UserName(db.users[i]) != UserName(db.users[j]);
    }
  }

  /** The row after `updateUser`'s assignments, before the save hook:
      username, email and password are replaced only by truthy values; bio
      and image by any value that is present, including '' and null. */
  function UpdatedRow(u: User, username: Field, email: Field, password: Field, bio: Field, image: Field): (row: User)
    ensures row.id == u.id
    ensures row.username == (if TruthyField(username) then username.text else u.username)
    ensures row.email == (if TruthyField(email) then email.text else u.email)
    ensures row.password == (if TruthyField(password) then password.text else u.password)
    ensures row.bio == (match bio case Absent => u.bio case Null => None case Text(t) => Some(t))
    ensures row.image == (match image case Absent => u.image case Null => None case Text(t) => Some(t))
  {
    User(u.id,
         if TruthyField(username) then username.text else u.username,
         if TruthyField(email) then email.text else u.email,
         if TruthyField(password) then password.text else u.password,
         NullableUpdate(u.bio, bio),
         NullableUpdate(u.image, image))
  }

  function NullableUpdate(current: Option<string>, f: Field): Option<string>
  {
    match f
    case Absent => current
    case Null => None
    case Text(t) => Some(t)
  }

  /** An update that sends nothing, or only falsy username/email/password,
      leaves the row as it is; an update can clear bio and image but never
      username, email or password. */
  lemma UpdatedRowFalsy(u: User, username: Field, email: Field, password: Field)
    requires !TruthyField(username) && !TruthyField(email) && !TruthyField(password)
    ensures UpdatedRow(u, username, email, password, Absent, Absent) == u
    ensures UpdatedRow(u, username, email, password, Null, Text("")) == u.(bio := None, image := Some(""))
  {
  }

  /** Replacing a row by one with the same id keeps the set of user ids. */
  lemma ReplaceKeepsUserIds(users: seq<User>, k: nat, v: User)
    requires k < |users| && v.id == users[k].id
    ensures UserIds(users[k := v]) == UserIds(users)
  {
    var r := users[k := v];
    forall id | id in UserIds(users) ensures id in UserIds(r) {
      var w :| w in users && w.id == id;
      var i :| 0 <= i < |users| && users[i] == w;
      assert r[i].id == id;
    }
    forall id | id in UserIds(r) ensures id in UserIds(users) {
      var w :| w in r && w.id == id;
      var i :| 0 <= i < |r| && r[i] == w;
      assert users[i].id == id;
    }
  }

  /** The assignments of `updateUser` on the loaded instance of `u`. */
  method AssignFields(u: User, username: Field, email: Field, password: Field, bio: Field, image: Field)
    returns (rec: UserRecord)
    ensures fresh(rec) && rec.loaded == Some(u)
    ensures rec.Row() == UpdatedRow(u, username, email, password, bio, image)
  {
    ghost var target := UpdatedRow(u, username, email, password, bio, image);
    rec := new UserRecord.Load(u);
    if TruthyField(username) { rec.username := username.text; }
    assert rec.id == target.id && rec.username == target.username;
    if TruthyField(email) { rec.email := email.text; }
    assert rec.email == target.email;
    if TruthyField(password) { rec.password := password.text; }
    assert rec.password == target.password;
    if !bio.Absent? { rec.bio := if bio.Null? then None else Some(bio.text); }
    assert rec.bio == target.bio;
    if !image.Absent? { rec.image := if image.Null? then None else Some(image.text); }
    assert rec.image == target.image;
  }

  /** `updateUser` for the attached user `u`: the uniqueness checks first
      (nothing assigned or written on 422); then the assignments; then
      validation of the changed columns only; then the save hook, which hashes
      a changed password, and the row is written back in place. */
  method UpdateUser(s: Store, u: User, username: Field, email: Field, password: Field, bio: Field, image: Field,
                    isEmail: string -> bool, hash: string -> string,
                    secretEnv: Option<string>, expiresEnv: Option<string>, sign: Signer)
    returns (r: Response)
    requires s.Valid() && u in s.users
    modifies s
    ensures s.Valid()
    ensures var conflict := UpdateConflict(old(s.users), u, username, email);
            conflict.Some? ==> r == Failure(Api(conflict.value)) && unchanged(s)
    ensures var row := UpdatedRow(u, username, email, password, bio, image);
            var issues := UserIssues(row, Some(u), isEmail);
            UpdateConflict(old(s.users), u, username, email).None? ==>
              && (issues != [] ==> r == Failure(Library("SequelizeValidationError", Some(issues))) && unchanged(s))
              && (issues == [] ==>
                    var saved := if row.password != u.password then row.(password := hash(row.password)) else row;
                    && UserIndex(old(s.users), u.id).Some?
                    && s.Snapshot() == old(s.Snapshot()).(users := old(s.users)[UserIndex(old(s.users), u.id).value := saved])
                    && r == Reply(200, AuthBody(saved, secretEnv, expiresEnv, sign)))
  {
    var conflict := UpdateConflict(s.users, u, username, email);
    if conflict.Some? {
      return Failure(Api(conflict.value));
    }
    var rec := AssignFields(u, username, email, password, bio, image);
    var issues := UserIssues(rec.Row(), rec.loaded, isEmail);
    if issues != [] {
      return Failure(Library("SequelizeValidationError", Some(issues)));
    }
    ghost var row := rec.Row();
    rec.BeforeSave(hash);
    var saved := rec.Row();
    assert saved == if row.password != u.password then row.(password := hash(row.password)) else row;
    assert saved.id == u.id && saved.username == row.username && saved.email == row.email;
    assert row.username != u.username ==> UserByUsername(s.users, row.username).None?;
    assert row.email != u.email ==> UserByEmail(s.users, row.email).None?;
    assert u.id in UserIds(s.users);
    var k := UserIndex(s.users, u.id).value;
    WriteUser(s, u, k, saved);
    var auth := ToAuthJson(saved, secretEnv, expiresEnv, sign);
    r := Reply(200, UserBody(auth));
  }

  /** `user.save()` once the checks passed: the row is rewritten in place. */
  method WriteUser(s: Store, u: User, k: nat, saved: User)
    requires s.Valid() && u in s.users && k < |s.users| && s.users[k].id == u.id
    requires saved.id == u.id
    requires saved.username != u.username ==>
               NotBlank(saved.username) && UserByUsername(s.users, saved.username).None?
    requires saved.email != u.email ==>
               NotBlank(saved.email) && UserByEmail(s.users, saved.email).None?
    modifies s
    ensures s.Snapshot() == old(s.Snapshot()).(users := old(s.users)[k := saved])
    ensures s.Valid()
  {
    SavedRowKeepsValid(s.Snapshot(), u, k, saved);
    s.users := s.users[k := saved];
  }

  /** Writing back the updated row keeps every table valid, given the checks
      `updateUser` made. */
  lemma SavedRowKeepsValid(db: Db, u: User, k: nat, saved: User)
    requires db.Valid() && u in db.users && k < |db.users| && db.users[k].id == u.id
    requires saved.id == u.id
    requires saved.username != u.username ==>
               NotBlank(saved.username) && UserByUsername(db.users, saved.username).None?
    requires saved.email != u.email ==>
               NotBlank(saved.email) && UserByEmail(db.users, saved.email).None?
    ensures db.(users := db.users[k := saved]).Valid()
  {
    var users := db.users;
    assert db.users[k] == u by {
      var i :| 0 <= i < |users| && users[i] == u;
      assert UserKey(users[i]) == UserKey(users[k]);
    }
    ReplaceKeepsUserIds(users, k, saved);
    ReplaceUnique(users, k, saved, UserKey);
    forall j | 0 <= j < |users| && j != k ensures UserName(users[j]) != UserName(saved) {
      assert UserName(users[j]) != UserName(users[k]);
    }
    ReplaceUnique(users, k, saved, UserName);
    forall j | 0 <= j < |users| && j != k ensures UserEmail(users[j]) != UserEmail(saved) {
      assert UserEmail(users[j]) != UserEmail(users[k]);
    }
    ReplaceUnique(users, k, saved, UserEmail);
  }
}
