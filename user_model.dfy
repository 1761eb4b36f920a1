/**
 * The User schema: the two enums, the `availability` default, the unique and
 * lower-cased email, the unique phone, the trimmed name, the password hidden
 * from queries, and the hook that hashes the password on save.
 */
module UserModel {
  import opened Common
  import opened Strings
  import opened Queries

  datatype BloodGroup = APos | ANeg | BPos | BNeg | OPos | ONeg | ABPos | ABNeg

  function BloodGroupName(g: BloodGroup): string {
    match g
    case APos => "A+"
    case ANeg => "A-"
    case BPos => "B+"
    case BNeg => "B-"
    case OPos => "O+"
    case ONeg => "O-"
    case ABPos => "AB+"
    case ABNeg => "AB-"
  }

  /** The enum's values, in the order the schema lists them. */
  const BloodGroups: seq<BloodGroup> := [APos, ANeg, BPos, BNeg, OPos, ONeg, ABPos, ABNeg]

  /** The enum validator for `bloodGroup`. */
  function ParseBloodGroup(s: string): (r: Option<BloodGroup>)
    ensures r.Some? ==> BloodGroupName(r.value) == s
    ensures r.None? ==> forall g :: BloodGroupName(g) != s
  {
    if s == "A+" then Some(APos)
    else if s == "A-" then Some(ANeg)
    else if s == "B+" then Some(BPos)
    else if s == "B-" then Some(BNeg)
    else if s == "O+" then Some(OPos)
    else if s == "O-" then Some(ONeg)
    else if s == "AB+" then Some(ABPos)
    else if s == "AB-" then Some(ABNeg)
    else None
  }

  /** Each group has its own name, and parsing the name gives the group back. */
  lemma BloodGroupEnum(g: BloodGroup, h: BloodGroup)
    ensures ParseBloodGroup(BloodGroupName(g)) == Some(g)
    ensures BloodGroupName(g) == BloodGroupName(h) ==> g == h
  {
  }

  /** The enum list holds every group exactly once. */
  lemma BloodGroupsListed()
    ensures |BloodGroups| == 8
    ensures forall g :: g in BloodGroups
    ensures Distinct(BloodGroups)
  {
    forall g
      ensures g in BloodGroups
    {
      match g
      case APos => assert BloodGroups[0] == g;
      case ANeg => assert BloodGroups[1] == g;
      case BPos => assert BloodGroups[2] == g;
      case BNeg => assert BloodGroups[3] == g;
      case OPos => assert BloodGroups[4] == g;
      case ONeg => assert BloodGroups[5] == g;
      case ABPos => assert BloodGroups[6] == g;
      case ABNeg => assert BloodGroups[7] == g;
    }
  }

  datatype Gender = Male | Female | Other

  function GenderName(g: Gender): string {
    match g
    case Male => "Male"
    case Female => "Female"
    case Other => "Other"
  }

  /** The enum validator for `gender`. */
  function ParseGender(s: string): (r: Option<Gender>)
    ensures r.Some? ==> GenderName(r.value) == s
    ensures r.None? ==> forall g :: GenderName(g) != s
  {
    if s == "Male" then Some(Male)
    else if s == "Female" then Some(Female)
    else if s == "Other" then Some(Other)
    else None
  }

  /** A stored user. `password` holds the bcrypt hash; `dateOfBirth` is kept as the submitted text. */
  datatype User = User(
    id: Id,
    fullName: string,
    gender: Gender,
    dateOfBirth: string,
    bloodGroup: BloodGroup,
    availability: bool,
    phone: string,
    email: string,
    state: string,
    city: string,
    pincode: string,
    password: string)

  /** A user as queries return it: `select: false` leaves the password out. */
  datatype PublicUser = PublicUser(
    id: Id,
    fullName: string,
    gender: Gender,
    dateOfBirth: string,
    bloodGroup: BloodGroup,
    availability: bool,
    phone: string,
    email: string,
    state: string,
    city: string,
    pincode: string)

  function Public(u: User): PublicUser {
    PublicUser(u.id, u.fullName, u.gender, u.dateOfBirth, u.bloodGroup, u.availability,
               u.phone, u.email, u.state, u.city, u.pincode)
  }

  /** The projection forgets exactly the password: two users that differ only there look the same. */
  lemma PublicHidesOnlyPassword(u: User, v: User)
    ensures Public(u) == Public(v) <==> u.(password := v.password) == v
  {
  }

  /** What the schema guarantees of every stored user. */
  predicate WellFormedUser(u: User) {
    && u.fullName != "" && IsTrimmed(u.fullName)
    && u.email != "" && IsLower(u.email)
    && u.dateOfBirth != "" && u.phone != "" && u.state != ""
    && u.city != "" && u.pincode != "" && u.password != ""
  }

  /** The unique indexes (and `_id`): no two users share an id, an email or a phone. */
  predicate UniqueKeys(users: seq<User>) {
    forall i, j :: 0 <= i < j < |users| ==>
      users[i].id != users[j].id && users[i].email != users[j].email && users[i].phone != users[j].phone
  }

  predicate IdTaken(users: seq<User>, id: Id) {
    exists i :: 0 <= i < |users| && users[i].id == id
  }

  /** `findById`: the position of the user with this id. */
  function FindById(users: seq<User>, id: Id): (r: Option<nat>)
    ensures r.Some? <==> IdTaken(users, id)
    ensures r.Some? ==> r.value < |users| && users[r.value].id == id
  {
    FirstWhere(users, (u: User) => u.id == id)
  }

  /** Under unique ids, the user found is the one with that id. */
  lemma FindByIdUnique(users: seq<User>, id: Id, k: nat)
    requires UniqueKeys(users) && k < |users| && users[k].id == id
    ensures FindById(users, id) == Some(k)
  {
  }

  /** The ten paths of a registration, as the request body gives them (`""` when missing). */
  datatype UserForm = UserForm(
    fullName: string,
    gender: string,
    dateOfBirth: string,
    bloodGroup: string,
    phone: string,
    email: string,
    state: string,
    city: string,
    pincode: string,
    password: string)

  /** Every path of the form is present and non-empty: the handler's own guard. */
  predicate AllFieldsGiven(f: UserForm) {
    && f.fullName != "" && f.gender != "" && f.dateOfBirth != "" && f.bloodGroup != ""
    && f.phone != "" && f.email != "" && f.state != "" && f.city != "" && f.pincode != ""
    && f.password != ""
  }

  /** The form passes the schema once the setters have run. */
  predicate PassesSchema(f: UserForm) {
    && AllFieldsGiven(f) && Trim(f.fullName) != ""
    && ParseGender(f.gender).Some? && ParseBloodGroup(f.bloodGroup).Some?
  }

  /**
   * `new User(form)` followed by validation: the `trim` and `lowercase` setters
   * run first, then the required and enum validators; `availability` takes its
   * default. The password is still the submitted text here.
   */
  function BuildUser(id: Id, f: UserForm): (r: Outcome<User>)
    ensures r.Stored? <==> PassesSchema(f)
    ensures r.Stored? ==> WellFormedUser(r.doc) && r.doc.id == id && r.doc.availability
    ensures r.Stored? ==> r.doc.fullName == Trim(f.fullName) && r.doc.email == ToLower(f.email)
    ensures r.Stored? ==> BloodGroupName(r.doc.bloodGroup) == f.bloodGroup && GenderName(r.doc.gender) == f.gender
    ensures r.Stored? ==> && r.doc.dateOfBirth == f.dateOfBirth && r.doc.phone == f.phone
                          && r.doc.state == f.state && r.doc.city == f.city
                          && r.doc.pincode == f.pincode && r.doc.password == f.password
  {
    var name := Trim(f.fullName);
    var gender := ParseGender(f.gender);
    var group := ParseBloodGroup(f.bloodGroup);
    if !AllFieldsGiven(f) || name == "" || gender.None? || group.None? then
      Rejected("User validation failed")
    else
      TrimSpec(f.fullName);
      ToLowerIsLower(f.email);
      Stored(User(id, name, gender.value, f.dateOfBirth, group.value, true, f.phone,
                  ToLower(f.email), f.state, f.city, f.pincode, f.password))
  }

  /**
   * The pre-save hook: the password is replaced by its hash only when it was
   * modified. `hashed` stands for what `bcrypt.hash` returns.
   */
  function PreSave(u: User, passwordModified: bool, hashed: string): (r: User)
    ensures passwordModified ==> r == u.(password := hashed)
    ensures !passwordModified ==> r == u
  {
    if passwordModified then u.(password := hashed) else u
  }

  /** The users collection. */
  class UserCollection {
    var users: seq<User>

    ghost predicate Valid()
      reads this
    {
      UniqueKeys(users) && forall i :: 0 <= i < |users| ==> WellFormedUser(users[i])
    }

    constructor ()
      ensures users == [] && Valid()
    {
      users := [];
    }

    /**
     * `save()` of a new user: the unique indexes on `email` and `phone` refuse
     * a document that clashes with a stored one (a duplicate-key error).
     */
    method Insert(u: User) returns (ok: bool)
      requires Valid() && WellFormedUser(u) && !IdTaken(users, u.id)
      modifies this
      ensures Valid()
      ensures ok <==> forall i :: 0 <= i < |old(users)| ==> old(users)[i].email != u.email && old(users)[i].phone != u.phone
      ensures users == if ok then old(users) + [u] else old(users)
    {
      ok := true;
      var i := 0;
      while i < |users|
        invariant 0 <= i <= |users|
        invariant ok <==> forall k :: 0 <= k < i ==> users[k].email != u.email && users[k].phone != u.phone
      {
        if users[i].email == u.email || users[i].phone == u.phone {
          ok := false;
        }
        i := i + 1;
      }
      if ok {
        users := users + [u];
      }
    }

    /**
     * `save()` (or an update) of the stored user at position `i`: the keys stay
     * as they were, so the unique indexes cannot refuse it.
     */
    method Replace(i: nat, u: User)
      requires Valid() && i < |users| && WellFormedUser(u)
      requires u.id == users[i].id && u.email == users[i].email && u.phone == users[i].phone
      modifies this
      ensures Valid()
      ensures users == old(users)[i := u]
    {
      users := users[i := u];
    }
  }
}
