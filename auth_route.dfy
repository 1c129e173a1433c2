/**
 * Registration and login (backend/src/routes/auth.js). The email check and
 * normaliser of the validation library, password hashing and comparison are
 * parameters; a token is represented by the payload it signs.
 */
module AuthRoute {
  import opened Wrappers
  import opened Text
  import opened Ordering
  import opened Http
  import opened Store

  const NameMessage := "Name must be at least 2 characters"
  const EmailMessage := "Please provide a valid email"
  const PasswordLengthMessage := "Password must be at least 6 characters"
  const PasswordRequiredMessage := "Password is required"

  /** The errors of `registerValidation`: trimmed name, email, raw password length, in that order. */
  function RegisterErrors(name: string, email: string, password: string, isEmail: string -> bool): seq<string> {
    (if |Trim(name)| >= 2 then [] else [NameMessage])
    + (if isEmail(email) then [] else [EmailMessage])
    + (if |password| >= 6 then [] else [PasswordLengthMessage])
  }

  /** Each message is reported exactly when its field fails. */
  lemma RegisterErrorsIff(name: string, email: string, password: string, isEmail: string -> bool)
    ensures var e := RegisterErrors(name, email, password, isEmail);
      && (NameMessage in e <==> |Trim(name)| < 2)
      && (EmailMessage in e <==> !isEmail(email))
      && (PasswordLengthMessage in e <==> |password| < 6)
      && (e == [] <==> |Trim(name)| >= 2 && isEmail(email) && |password| >= 6)
  {
  }

  /** The errors of `loginValidation`: the email, then a non-empty password. */
  function LoginErrors(email: string, password: string, isEmail: string -> bool): (e: seq<string>)
    ensures e == [] <==> isEmail(email) && password != []
    ensures PasswordRequiredMessage in e <==> password == []
  {
    (if isEmail(email) then [] else [EmailMessage])
    + (if password != [] then [] else [PasswordRequiredMessage])
  }

  /** `findUnique({ where: { email } })`. */
  function FindByEmail(users: map<int, User>, n: int, email: string): Option<User> {
    FindFirst(Rows(users, n), UserEmail, email)
  }

  /**
   * The lookup finds nothing exactly when no stored user has the email, and
   * otherwise the stored user that has it (there is one, emails being unique).
   */
  lemma FindByEmailCorrect(users: map<int, User>, n: int, email: string)
    requires UsersValid(users, n)
    ensures FindByEmail(users, n, email).None? <==> forall k :: k in users ==> users[k].email != email
    ensures forall k :: k in users && users[k].email == email ==> FindByEmail(users, n, email) == Some(users[k])
  {
    var rows := Rows(users, n);
    RowsComplete(users, n);
    var found := FindByEmail(users, n, email);
    forall k | k in users && users[k].email == email ensures found == Some(users[k]) {
      var i :| 0 <= i < |rows| && rows[i] == users[k];
      var u := found.value;
      var j :| 0 <= j < |rows| && rows[j] == u;
      assert u in users.Values;
      var k' :| k' in users && users[k'] == u;
    }
  }

  /** What a signed token carries. */
  datatype Token = Token(userId: int, role: string)

  /** The fields a registration selects back: no password. */
  datatype NewUser = NewUser(id: int, name: string, email: string, role: string, isDeleted: bool)

  datatype Registered = Registered(message: string, user: NewUser, token: Token)

  /**
   * POST `/register`: validation (400), then an existing email (400), then
   * one insert of the trimmed name, the normalised email and the password's
   * hash, as an enabled USER; the reply carries the user without the
   * password and a token for its id and role.
   */
  method Register(
    db: Database, name: string, email: string, password: string,
    isEmail: string -> bool, normalize: string -> string, hash: string -> string, now: int)
    returns (r: Response<Registered>)
    requires db.Valid()
    modifies db`users, db`nextUserId
    ensures db.Valid()
    ensures RegisterErrors(name, email, password, isEmail) != [] ==>
      r == Invalid(RegisterErrors(name, email, password, isEmail)) && db.users == old(db.users)
      && db.nextUserId == old(db.nextUserId)
    ensures && RegisterErrors(name, email, password, isEmail) == []
            && (exists k :: k in old(db.users) && old(db.users)[k].email == normalize(email)) ==>
      r == Error(400, "User already exists") && db.users == old(db.users) && db.nextUserId == old(db.nextUserId)
    ensures && RegisterErrors(name, email, password, isEmail) == []
            && (forall k :: k in old(db.users) ==> old(db.users)[k].email != normalize(email)) ==>
      var u := User(old(db.nextUserId), Trim(name), normalize(email), hash(password), "USER", false, now);
      && db.users == old(db.users)[u.id := u] && db.nextUserId == old(db.nextUserId) + 1
      && r == Reply(201, Registered("User created successfully",
                                    NewUser(u.id, u.name, u.email, u.role, u.isDeleted), Token(u.id, u.role)))
  {
    var errors := RegisterErrors(name, email, password, isEmail);
    if errors != [] {
      return Invalid(errors);
    }
    var normalized := normalize(email);
    FindByEmailCorrect(db.users, db.nextUserId, normalized);
    if FindByEmail(db.users, db.nextUserId, normalized).Some? {
      return Error(400, "User already exists");
    }
    var u := User(db.nextUserId, Trim(name), normalized, hash(password), "USER", false, now);
    UsersValidInsert(db.users, db.nextUserId, u);
    db.users := db.users[u.id := u];
    db.nextUserId := db.nextUserId + 1;
    r := Reply(201, Registered("User created successfully", NewUser(u.id, u.name, u.email, u.role, u.isDeleted), Token(u.id, u.role)));
  }

  /** The fields a login returns: no password and no flag. */
  datatype SessionUser = SessionUser(id: int, name: string, email: string, role: string)

  datatype Session = Session(message: string, user: SessionUser, token: Token)

  /**
   * POST `/login`: validation (400), then "User not found", "Wrong password"
   * and "Account is disabled" in that order (all 400), else the user and a
   * token for its id and role.
   */
  function Login(
    users: map<int, User>, n: int, email: string, password: string,
    isEmail: string -> bool, normalize: string -> string, compare: (string, string) -> bool)
    : (r: Response<Session>)
    ensures LoginErrors(email, password, isEmail) != [] ==> r == Invalid(LoginErrors(email, password, isEmail))
    ensures r.Reply? ==> r.status == 200 && r.body.token == Token(r.body.user.id, r.body.user.role)
  {
    var errors := LoginErrors(email, password, isEmail);
    if errors != [] then Invalid(errors)
    else match FindByEmail(users, n, normalize(email))
      case None => Error(400, "User not found")
      case Some(u) =>
        if !compare(password, u.password) then Error(400, "Wrong password")
        else if u.isDeleted then Error(400, "Account is disabled")
        else Reply(200, Session("Login successful", SessionUser(u.id, u.name, u.email, u.role), Token(u.id, u.role)))
  }

  /**
   * Login's outcome in terms of the stored users: an unknown email, then a
   * password that does not match (whether or not the account is disabled),
   * then a disabled account, each fail; otherwise the session belongs to the
   * stored user with that email.
   */
  lemma LoginCorrect(
    users: map<int, User>, n: int, email: string, password: string,
    isEmail: string -> bool, normalize: string -> string, compare: (string, string) -> bool)
    requires UsersValid(users, n)
    requires LoginErrors(email, password, isEmail) == []
    ensures var r := Login(users, n, email, password, isEmail, normalize, compare);
      && ((forall k :: k in users ==> users[k].email != normalize(email)) ==> r == Error(400, "User not found"))
      && (forall k :: k in users && users[k].email == normalize(email) ==>
            && (!compare(password, users[k].password) ==> r == Error(400, "Wrong password"))
            && (compare(password, users[k].password) && users[k].isDeleted ==> r == Error(400, "Account is disabled"))
            && (compare(password, users[k].password) && !users[k].isDeleted ==>
                  r == Reply(200, Session("Login successful",
                                          SessionUser(k, users[k].name, users[k].email, users[k].role),
                                          Token(k, users[k].role)))))
  {
    FindByEmailCorrect(users, n, normalize(email));
  }

  /** A disabled account never receives a token, whatever password is given. */
  lemma DisabledNeverLogsIn(
    users: map<int, User>, n: int, email: string, password: string,
    isEmail: string -> bool, normalize: string -> string, compare: (string, string) -> bool, k: int)
    requires UsersValid(users, n)
    requires k in users && users[k].email == normalize(email) && users[k].isDeleted
    ensures Login(users, n, email, password, isEmail, normalize, compare).Fail?
  {
    if LoginErrors(email, password, isEmail) == [] {
      LoginCorrect(users, n, email, password, isEmail, normalize, compare);
    }
  }
}
