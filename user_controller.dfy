/**
 * Registration and login. Registration checks the ten fields, looks for a
 * user with the same email or phone, then builds and saves the new user;
 * login is its decision flow, with the bcrypt comparison as a parameter.
 */
module UserController {
  import opened Common
  import opened Strings
  import opened Queries
  import opened UserModel

  /**
   * The filter of `findOne({ $or: [{ email }, { phone }] })`. The schema's
   * `lowercase` setter applies to the email in the filter too.
   */
  predicate EmailOrPhoneMatch(u: User, f: UserForm) {
    u.email == ToLower(f.email) || u.phone == f.phone
  }

  predicate EmailOrPhoneTaken(users: seq<User>, f: UserForm) {
    exists k :: 0 <= k < |users| && EmailOrPhoneMatch(users[k], f)
  }

  /**
   * The reply to a registration. The duplicate checks compare the matched
   * user's stored email with the email exactly as submitted; when neither
   * check fires on a matched user, that user still shares the lower-cased
   * email, so `save` fails on validation or on the unique index.
   */
  function RegisterReply(users: seq<User>, f: UserForm): (r: Reply<string>)
    ensures !AllFieldsGiven(f) ==> r == Failure(400, "All fields are required")
    ensures r.Success? <==> PassesSchema(f) && !EmailOrPhoneTaken(users, f)
    ensures r.Success? ==> r == Success(201, "User registered successfully")
    ensures r.Failure? ==> || r == Failure(400, "All fields are required")
                           || r == Failure(400, "Email already registered")
                           || r == Failure(400, "Phone number already registered")
                           || r == Failure(500, "Failed to register user")
  {
    if !AllFieldsGiven(f) then Failure(400, "All fields are required")
    else match FirstWhere(users, u => EmailOrPhoneMatch(u, f))
      case Some(i) =>
        if users[i].email == f.email then Failure(400, "Email already registered")
        else if users[i].phone == f.phone then Failure(400, "Phone number already registered")
        else Failure(500, "Failed to register user")
      case None =>
        if PassesSchema(f) then Success(201, "User registered successfully")
        else Failure(500, "Failed to register user")
  }

  /**
   * `registerUser`. `id` is the fresh `_id` the driver assigns and `hashed`
   * what `bcrypt.hash` returns for the submitted password.
   */
  method RegisterUser(store: UserCollection, f: UserForm, id: Id, hashed: string) returns (resp: Reply<string>)
    requires store.Valid() && !IdTaken(store.users, id) && hashed != ""
    modifies store
    ensures store.Valid()
    ensures resp == RegisterReply(old(store.users), f)
    ensures resp.Success? ==> store.users == old(store.users) + [PreSave(BuildUser(id, f).doc, true, hashed)]
    ensures resp.Failure? ==> store.users == old(store.users)
  {
    if !AllFieldsGiven(f) {
      return Failure(400, "All fields are required");
    }
    var users := store.users;
    var existing := FirstWhere(users, u => EmailOrPhoneMatch(u, f));
    if existing.Some? {
      var u := users[existing.value];
      if u.email == f.email {
        return Failure(400, "Email already registered");
      }
      if u.phone == f.phone {
        return Failure(400, "Phone number already registered");
      }
    }
    var built := BuildUser(id, f);
    if built.Rejected? {
      return Failure(500, "Failed to register user");
    }
    var newUser := PreSave(built.doc, true, hashed);
    assert newUser.email == ToLower(f.email) && newUser.phone == f.phone;
    var ok := store.Insert(newUser);
    if !ok {
      assert existing.Some?;
      return Failure(500, "Failed to register user");
    }
    resp := Success(201, "User registered successfully");
  }

  /** A clash on the email alone, typed in lower case, is reported as such. */
  lemma RegisterDuplicateEmail(users: seq<User>, f: UserForm, k: nat)
    requires AllFieldsGiven(f) && IsLower(f.email)
    requires k < |users| && users[k].email == f.email
    requires forall j :: 0 <= j < |users| ==> users[j].phone != f.phone
    ensures RegisterReply(users, f) == Failure(400, "Email already registered")
  {
    ToLowerIdempotent(f.email);
    assert EmailOrPhoneMatch(users[k], f);
  }

  /** A clash on the phone alone is reported as such. */
  lemma RegisterDuplicatePhone(users: seq<User>, f: UserForm, k: nat)
    requires AllFieldsGiven(f) && forall j :: 0 <= j < |users| ==> WellFormedUser(users[j])
    requires k < |users| && users[k].phone == f.phone
    requires forall j :: 0 <= j < |users| ==> users[j].email != ToLower(f.email)
    ensures RegisterReply(users, f) == Failure(400, "Phone number already registered")
  {
    assert EmailOrPhoneMatch(users[k], f);
    var i := FirstWhere(users, u => EmailOrPhoneMatch(u, f)).value;
    if users[i].email == f.email {
      ToLowerIdempotent(f.email);
      assert false;
    }
  }

  /**
   * When the email hits one user and the phone another, the reply is one of
   * the two duplicate messages, depending on which user comes first.
   */
  lemma RegisterDuplicateEither(users: seq<User>, f: UserForm, a: nat, b: nat)
    requires AllFieldsGiven(f) && IsLower(f.email)
    requires a < |users| && users[a].email == f.email
    requires b < |users| && users[b].phone == f.phone
    ensures RegisterReply(users, f) == Failure(400, "Email already registered")
         || RegisterReply(users, f) == Failure(400, "Phone number already registered")
  {
    ToLowerIdempotent(f.email);
    assert EmailOrPhoneMatch(users[a], f);
  }

  /**
   * An email that differs from a stored one only in letter case finds that
   * user, but neither duplicate check fires on it: the reply is 500, not 400.
   */
  lemma RegisterMixedCaseEmail(users: seq<User>, f: UserForm, k: nat)
    requires AllFieldsGiven(f) && !IsLower(f.email)
    requires k < |users| && users[k].email == ToLower(f.email)
    requires forall j :: 0 <= j < |users| ==> users[j].phone != f.phone
    ensures RegisterReply(users, f) == Failure(500, "Failed to register user")
  {
    ToLowerIdempotent(f.email);
    assert EmailOrPhoneMatch(users[k], f);
  }

  /** What a successful login reports about the user; the token and cookie are not modelled. */
  datatype LoginInfo = LoginInfo(id: Id, name: string, email: string)

  /**
   * `loginUser`. `matches(password, hash)` stands for `bcrypt.compare`; the
   * email filter goes through the `lowercase` setter.
   */
  function LoginReply(users: seq<User>, email: string, password: string,
                      matches: (string, string) -> bool): (r: Reply<LoginInfo>)
    ensures email == "" || password == "" ==> r == Failure(400, "Please provide both email and password")
    ensures r.Failure? && r.code == 401 ==> r.error == "Invalid email or password"
    ensures r.Success? ==> r.code == 200 && exists k :: (0 <= k < |users| &&
              users[k].email == ToLower(email) && matches(password, users[k].password) &&
              r.value == LoginInfo(users[k].id, users[k].fullName, users[k].email))
  {
    if email == "" || password == "" then Failure(400, "Please provide both email and password")
    else match FirstWhere(users, (u: User) => u.email == ToLower(email))
      case None => Failure(401, "Invalid email or password")
      case Some(i) =>
        if !matches(password, users[i].password) then Failure(401, "Invalid email or password")
        else Success(200, LoginInfo(users[i].id, users[i].fullName, users[i].email))
  }

  /**
   * With unique emails, login succeeds exactly when a user has the email and
   * the password matches that user's hash; an unknown email and a wrong
   * password give the same reply.
   */
  lemma LoginDecision(users: seq<User>, email: string, password: string, matches: (string, string) -> bool)
    requires UniqueKeys(users) && email != "" && password != ""
    ensures LoginReply(users, email, password, matches).Success? <==>
              exists k :: 0 <= k < |users| && users[k].email == ToLower(email) && matches(password, users[k].password)
    ensures LoginReply(users, email, password, matches).Failure? ==>
              LoginReply(users, email, password, matches) == Failure(401, "Invalid email or password")
  {
    var found := FirstWhere(users, (u: User) => u.email == ToLower(email));
    if exists k :: 0 <= k < |users| && users[k].email == ToLower(email) && matches(password, users[k].password) {
      var k :| 0 <= k < |users| && users[k].email == ToLower(email) && matches(password, users[k].password);
      assert found.Some? && found.value == k;
    }
  }
}
