/**
 * The donor handlers: the profile lookup, the public search, the
 * availability toggle and the profile update. The caller's id comes from the
 * verified token.
 */
module DonorController {
  import opened Common
  import opened Strings
  import opened Queries
  import opened UserModel

  /** `getDonorProfile`: the caller's record without its password. */
  function GetDonorProfile(users: seq<User>, id: Id): (r: Reply<PublicUser>)
    ensures r.Failure? <==> !IdTaken(users, id)
    ensures r.Failure? ==> r == Failure(404, "Donor not found")
    ensures r.Success? ==> r.code == 200 && exists k :: 0 <= k < |users| && users[k].id == id && r.value == Public(users[k])
  {
    match FindById(users, id)
    case None => Failure(404, "Donor not found")
    case Some(i) => Success(200, Public(users[i]))
  }

  // ---------------------------------------------------------------------------
  // searchDonors
  // ---------------------------------------------------------------------------

  /**
   * The search filter: the exact blood group, available, and, when a location
   * is given, a city containing it regardless of letter case.
   */
  predicate MatchesSearch(u: User, bloodGroup: string, location: string) {
    BloodGroupName(u.bloodGroup) == bloodGroup && u.availability
    && (location == "" || ContainsIgnoreCase(u.city, location))
  }

  /** `select('-password')` over a result list. */
  function PublicAll(s: seq<User>): (r: seq<PublicUser>)
    ensures |r| == |s| && forall k :: 0 <= k < |s| ==> r[k] == Public(s[k])
  {
    seq(|s|, k requires 0 <= k < |s| => Public(s[k]))
  }

  /** `searchDonors`: the matching donors in collection order, passwords left out. */
  function SearchDonors(users: seq<User>, bloodGroup: string, location: string): (r: Reply<seq<PublicUser>>)
    ensures r.Failure? <==> bloodGroup == ""
    ensures r.Failure? ==> r == Failure(400, "Blood group is required")
    ensures r.Success? ==> r.code == 200 && |r.value| <= |users|
  {
    if bloodGroup == "" then Failure(400, "Blood group is required")
    else Success(200, PublicAll(Filter(users, (u: User) => MatchesSearch(u, bloodGroup, location))))
  }

  /** Every donor returned is a stored, available donor of the requested group in a matching city. */
  lemma SearchSound(users: seq<User>, bloodGroup: string, location: string, p: PublicUser)
    requires bloodGroup != "" && p in SearchDonors(users, bloodGroup, location).value
    ensures BloodGroupName(p.bloodGroup) == bloodGroup && p.availability
    ensures location != "" ==> ContainsIgnoreCase(p.city, location)
    ensures exists u :: u in users && MatchesSearch(u, bloodGroup, location) && p == Public(u)
  {
    var m := Filter(users, (u: User) => MatchesSearch(u, bloodGroup, location));
    var k :| 0 <= k < |m| && PublicAll(m)[k] == p;
    assert m[k] in m;
  }

  /** Every stored donor that passes the filter is returned; with no location, the city does not matter. */
  lemma SearchComplete(users: seq<User>, bloodGroup: string, location: string, u: User)
    requires bloodGroup != "" && u in users
    requires BloodGroupName(u.bloodGroup) == bloodGroup && u.availability
    requires location == "" || ContainsIgnoreCase(u.city, location)
    ensures Public(u) in SearchDonors(users, bloodGroup, location).value
  {
    var m := Filter(users, (v: User) => MatchesSearch(v, bloodGroup, location));
    assert u in m;
    var k :| 0 <= k < |m| && m[k] == u;
    assert PublicAll(m)[k] == Public(u);
  }

  // ---------------------------------------------------------------------------
  // toggleAvailability
  // ---------------------------------------------------------------------------

  /** The users after a toggle: the caller's availability negated, everything else as it was. */
  function Toggled(users: seq<User>, id: Id): (r: seq<User>)
    ensures |r| == |users|
    ensures forall k :: 0 <= k < |users| ==> r[k].(availability := users[k].availability) == users[k]
    ensures !IdTaken(users, id) ==> r == users
    ensures IdTaken(users, id) ==>
              var i := FindById(users, id).value;
              r[i].availability == !users[i].availability
              && forall k :: 0 <= k < |users| && k != i ==> r[k] == users[k]
  {
    match FindById(users, id)
    case None => users
    case Some(i) => users[i := users[i].(availability := !users[i].availability)]
  }

  /** Toggling twice restores every user as it was. */
  lemma ToggleTwiceRestores(users: seq<User>, id: Id)
    ensures Toggled(Toggled(users, id), id) == users
  {
    FirstWhereAgrees(users, Toggled(users, id), (u: User) => u.id == id);
  }

  /**
   * `toggleAvailability`: read, negate, `save`. The password is not modified,
   * so the pre-save hook leaves the stored hash alone.
   */
  method ToggleAvailability(store: UserCollection, id: Id) returns (resp: Reply<bool>)
    requires store.Valid()
    modifies store
    ensures store.Valid()
    ensures store.users == Toggled(old(store.users), id)
    ensures !IdTaken(old(store.users), id) ==> resp == Failure(404, "User not found")
    ensures IdTaken(old(store.users), id) ==>
              resp == Success(200, !old(store.users)[FindById(old(store.users), id).value].availability)
  {
    var found := FindById(store.users, id);
    if found.None? {
      return Failure(404, "User not found");
    }
    var i := found.value;
    var u := store.users[i];
    var updated := u.(availability := !u.availability);
    store.Replace(i, PreSave(updated, false, ""));
    resp := Success(200, updated.availability);
  }

  // ---------------------------------------------------------------------------
  // updateDonorProfile
  // ---------------------------------------------------------------------------

  /**
   * The body of a profile update; a missing key is `None`. `name` and
   * `contact` are not paths of the User schema.
   */
  datatype ProfileUpdate = ProfileUpdate(
    name: Option<string>,
    bloodGroup: Option<string>,
    city: Option<string>,
    contact: Option<string>,
    availability: Option<bool>)

  /** `runValidators` on the paths the update sets: the enum and the required checks. */
  predicate UpdateValid(p: ProfileUpdate) {
    && (p.bloodGroup.None? || ParseBloodGroup(p.bloodGroup.value).Some?)
    && (p.city.None? || p.city.value != "")
  }

  /**
   * The update as applied: undefined keys are dropped, strict mode drops the
   * paths the schema does not have, and the given paths are set.
   */
  function ApplyUpdate(u: User, p: ProfileUpdate): (r: User)
    requires UpdateValid(p)
    ensures p.bloodGroup.Some? ==> BloodGroupName(r.bloodGroup) == p.bloodGroup.value
    ensures p.city.Some? ==> r.city == p.city.value
    ensures p.availability.Some? ==> r.availability == p.availability.value
  {
    u.(bloodGroup := if p.bloodGroup.Some? then ParseBloodGroup(p.bloodGroup.value).value else u.bloodGroup,
       city := if p.city.Some? then p.city.value else u.city,
       availability := if p.availability.Some? then p.availability.value else u.availability)
  }

  /**
   * Only the blood group, the city and the availability can change, the
   * result is still a valid user, and `name` and `contact` have no effect.
   */
  lemma UpdateTouchesOnlyThreePaths(u: User, p: ProfileUpdate, name: Option<string>, contact: Option<string>)
    requires UpdateValid(p)
    ensures ApplyUpdate(u, p).(bloodGroup := u.bloodGroup, city := u.city, availability := u.availability) == u
    ensures WellFormedUser(u) ==> WellFormedUser(ApplyUpdate(u, p))
    ensures ApplyUpdate(u, p.(name := name, contact := contact)) == ApplyUpdate(u, p)
    ensures p.bloodGroup.None? && p.city.None? && p.availability.None? ==> ApplyUpdate(u, p) == u
  {
  }

  /**
   * `updateDonorProfile` with `runValidators` and `new: true`. The update is
   * validated before the lookup, so an invalid update fails with 500 whether
   * or not the user exists.
   */
  method UpdateDonorProfile(store: UserCollection, id: Id, p: ProfileUpdate) returns (resp: Reply<PublicUser>)
    requires store.Valid()
    modifies store
    ensures store.Valid()
    ensures !UpdateValid(p) ==> resp == Failure(500, "Failed to update donor profile") && store.users == old(store.users)
    ensures UpdateValid(p) && !IdTaken(old(store.users), id) ==>
              resp == Failure(404, "Donor not found") && store.users == old(store.users)
    ensures UpdateValid(p) && IdTaken(old(store.users), id) ==>
              var i := FindById(old(store.users), id).value;
              store.users == old(store.users)[i := ApplyUpdate(old(store.users)[i], p)] &&
              resp == Success(200, Public(store.users[i]))
  {
    if !UpdateValid(p) {
      return Failure(500, "Failed to update donor profile");
    }
    var found := FindById(store.users, id);
    if found.None? {
      return Failure(404, "Donor not found");
    }
    var i := found.value;
    UpdateTouchesOnlyThreePaths(store.users[i], p, p.name, p.contact);
    var updated := ApplyUpdate(store.users[i], p);
    store.Replace(i, updated);
    resp := Success(200, Public(updated));
  }
}
