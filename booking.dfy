/**
 * Booking an appointment at a blood bank: the field check, the bank lookup,
 * the insertion, the user lookup, the mail to the bank and the reply.
 * The caller's id comes from the verified token; whether the mail transport
 * delivers is a parameter.
 */
module Booking {
  import opened Common
  import opened Strings
  import opened Queries
  import opened UserModel
  import opened BloodBankModel
  import opened AppointmentModel

  predicate IsHexDigit(c: char) {
    '0' <= c <= '9' || 'a' <= c <= 'f' || 'A' <= c <= 'F'
  }

  /**
   * A string `findById` can cast to an ObjectId: exactly 24 hexadecimal digits,
   * as the bson 5 and later constructor requires of a string. Any other string
   * makes the lookup throw a cast error.
   */
  predicate IsObjectId(s: string) {
    |s| == 24 && forall i :: 0 <= i < 24 ==> IsHexDigit(s[i])
  }

  /**
   * Two id strings name the same ObjectId: the cast reads hexadecimal digits
   * in either case.
   */
  predicate SameObjectId(a: string, b: string) {
    ToLower(a) == ToLower(b)
  }

  /**
   * The text of the ObjectId a string casts to, as the appointment stores it:
   * the hexadecimal digits in lower case.
   */
  function ObjectIdText(s: string): (r: string)
    ensures IsLower(r) && SameObjectId(r, s)
    ensures IsObjectId(s) ==> IsObjectId(r)
    ensures IsLower(s) ==> r == s
  {
    ToLowerIsLower(s);
    ToLowerIdempotent(s);
    ToLower(s)
  }

  /** Some stored bank has the ObjectId the string names. */
  predicate BankWithId(banks: seq<BloodBank>, id: string) {
    exists k :: 0 <= k < |banks| && SameObjectId(banks[k].id, id)
  }

  /** `BloodBank.findById`: the first bank whose id names the same ObjectId. */
  function FindBank(banks: seq<BloodBank>, id: Id): (r: Option<nat>)
    ensures r.Some? <==> BankWithId(banks, id)
    ensures r.Some? ==> r.value < |banks| && SameObjectId(banks[r.value].id, id)
    ensures r.Some? ==> forall k :: 0 <= k < r.value ==> !SameObjectId(banks[k].id, id)
  {
    FirstWhere(banks, (b: BloodBank) => SameObjectId(b.id, id))
  }

  /** Spellings of an id that differ only in the case of its digits find the same bank. */
  lemma FindBankIgnoresCase(banks: seq<BloodBank>, a: string, b: string)
    requires SameObjectId(a, b)
    ensures FindBank(banks, a) == FindBank(banks, b)
  {
    var ra, rb := FindBank(banks, a), FindBank(banks, b);
    if ra.Some? && rb.Some? {
      if ra.value < rb.value {
        assert SameObjectId(banks[ra.value].id, b);
      } else if rb.value < ra.value {
        assert SameObjectId(banks[rb.value].id, a);
      }
    }
  }

  /** A stored bank is found under the upper-case spelling of its id. */
  lemma UpperCaseIdFindsBank(bank: BloodBank)
    requires bank.id == "64b7f0c2a1d3e4f5a6b7c8d9"
    ensures FindBank([bank], "64B7F0C2A1D3E4F5A6B7C8D9") == Some(0)
  {
    assert ToLower("64B7F0C2A1D3E4F5A6B7C8D9") == "64b7f0c2a1d3e4f5a6b7c8d9";
  }

  /** The request body; a missing key is `""`, which the handler treats alike. */
  datatype BookingRequest = BookingRequest(bloodBankId: string, date: string, time: string)

  predicate AllFieldsGiven(req: BookingRequest) {
    req.bloodBankId != "" && req.date != "" && req.time != ""
  }

  /** The mail goes out: the transport works and the bank has an address to send it to. */
  predicate Delivered(bank: BloodBank, sendOk: bool) {
    sendOk && bank.contact.email.Some? && bank.contact.email.value != ""
  }

  /**
   * The steps after the bank is found: create the appointment, then look the
   * user up, then mail the bank, then answer. Whatever fails after the
   * insertion leaves the new appointment stored.
   */
  method CreateThenNotify(store: AppointmentCollection, users: UserCollection, bank: BloodBank,
                          userId: Id, draft: AppointmentDraft, sendOk: bool) returns (resp: Reply<Appointment>)
    requires store.Valid()
    modifies store
    ensures store.Valid()
    ensures Validate(draft).Rejected? ==>
              resp == Failure(500, "Failed to book appointment") && store.records == old(store.records)
    ensures Validate(draft).Stored? ==> store.records == old(store.records) + [Validate(draft).doc]
    ensures Validate(draft).Stored? && !IdTaken(users.users, userId) ==> resp == Failure(404, "User not found")
    ensures Validate(draft).Stored? && IdTaken(users.users, userId) ==>
              resp == if Delivered(bank, sendOk) then Success(201, Validate(draft).doc)
                      else Failure(500, "Failed to book appointment")
  {
    var created := store.Create(draft);
    if created.Rejected? {
      return Failure(500, "Failed to book appointment");
    }
    var user := FindById(users.users, userId);
    if user.None? {
      return Failure(404, "User not found");
    }
    if !Delivered(bank, sendOk) {
      return Failure(500, "Failed to book appointment");
    }
    resp := Success(201, created.doc);
  }

  /** What the handler hands to `Appointment.create`: no `userName`, no `bloodBankName`. */
  function DraftAsWritten(userId: Id, req: BookingRequest): AppointmentDraft {
    AppointmentDraft(Some(userId), None, Some(req.bloodBankId), None, Some(req.date), Some(req.time), None)
  }

  /** That draft lacks two required paths, so validation refuses it whatever the request. */
  lemma DraftAsWrittenRejected(userId: Id, req: BookingRequest)
    ensures Validate(DraftAsWritten(userId, req)).Rejected?
    ensures userId != "" ==> Validate(DraftAsWritten(userId, req)) == Rejected("Path `userName` is required.")
  {
  }

  /**
   * `bookAppointment` as the source writes it. Validation of the new
   * appointment always fails, so no request is ever answered 201 and the
   * collection never changes.
   */
  method BookAppointmentAsWritten(store: AppointmentCollection, users: UserCollection, banks: BankCollection,
                                  userId: Id, req: BookingRequest, sendOk: bool) returns (resp: Reply<Appointment>)
    requires store.Valid()
    modifies store
    ensures store.Valid()
    ensures store.records == old(store.records)
    ensures !AllFieldsGiven(req) ==> resp == Failure(400, "All fields are required")
    ensures AllFieldsGiven(req) && !IsObjectId(req.bloodBankId) ==> resp == Failure(500, "Failed to book appointment")
    ensures AllFieldsGiven(req) && IsObjectId(req.bloodBankId) && !BankWithId(banks.banks, req.bloodBankId) ==>
              resp == Failure(404, "Blood bank not found")
    ensures AllFieldsGiven(req) && IsObjectId(req.bloodBankId) && BankWithId(banks.banks, req.bloodBankId) ==>
              resp == Failure(500, "Failed to book appointment")
  {
    if !AllFieldsGiven(req) {
      return Failure(400, "All fields are required");
    }
    if !IsObjectId(req.bloodBankId) {
      return Failure(500, "Failed to book appointment");
    }
    var found := FindBank(banks.banks, req.bloodBankId);
    if found.None? {
      return Failure(404, "Blood bank not found");
    }
    DraftAsWrittenRejected(userId, req);
    resp := CreateThenNotify(store, users, banks.banks[found.value], userId, DraftAsWritten(userId, req), sendOk);
  }

  /**
   * The draft once the user's and the bank's names are filled in; the
   * `bloodBank` path holds the cast ObjectId.
   */
  function Draft(userId: Id, user: User, bank: BloodBank, req: BookingRequest): AppointmentDraft {
    AppointmentDraft(Some(userId), Some(user.fullName), Some(ObjectIdText(req.bloodBankId)), Some(bank.name),
                     Some(req.date), Some(req.time), None)
  }

  /**
   * `bookAppointment` as evidently intended: the user is looked up before the
   * appointment is created, so the required name snapshots can be filled in.
   * Nothing guards against booking the same slot twice: each successful call
   * appends, whatever is already stored.
   */
  method BookAppointment(store: AppointmentCollection, users: UserCollection, banks: BankCollection,
                         userId: Id, req: BookingRequest, sendOk: bool) returns (resp: Reply<Appointment>)
    requires store.Valid() && users.Valid() && banks.Valid() && userId != ""
    modifies store
    ensures store.Valid()
    ensures !AllFieldsGiven(req) ==> resp == Failure(400, "All fields are required") && store.records == old(store.records)
    ensures AllFieldsGiven(req) && !IsObjectId(req.bloodBankId) ==>
              resp == Failure(500, "Failed to book appointment") && store.records == old(store.records)
    ensures AllFieldsGiven(req) && IsObjectId(req.bloodBankId) && !BankWithId(banks.banks, req.bloodBankId) ==>
              resp == Failure(404, "Blood bank not found") && store.records == old(store.records)
    ensures AllFieldsGiven(req) && IsObjectId(req.bloodBankId) && BankWithId(banks.banks, req.bloodBankId)
            && !IdTaken(users.users, userId) ==>
              resp == Failure(404, "User not found") && store.records == old(store.records)
    ensures AllFieldsGiven(req) && IsObjectId(req.bloodBankId) && BankWithId(banks.banks, req.bloodBankId)
            && IdTaken(users.users, userId) ==>
              var bank := banks.banks[FindBank(banks.banks, req.bloodBankId).value];
              var user := users.users[FindById(users.users, userId).value];
              var booked := Appointment(userId, user.fullName, ObjectIdText(req.bloodBankId), bank.name,
                                        req.date, req.time, Pending);
              store.records == old(store.records) + [booked]
              && resp == if Delivered(bank, sendOk) then Success(201, booked)
                         else Failure(500, "Failed to book appointment")
  {
    if !AllFieldsGiven(req) {
      return Failure(400, "All fields are required");
    }
    if !IsObjectId(req.bloodBankId) {
      return Failure(500, "Failed to book appointment");
    }
    var foundBank := FindBank(banks.banks, req.bloodBankId);
    if foundBank.None? {
      return Failure(404, "Blood bank not found");
    }
    var bank := banks.banks[foundBank.value];
    var foundUser := FindById(users.users, userId);
    if foundUser.None? {
      return Failure(404, "User not found");
    }
    var user := users.users[foundUser.value];
    var draft := Draft(userId, user, bank, req);
    assert Validate(draft) == Stored(Appointment(userId, user.fullName, ObjectIdText(req.bloodBankId), bank.name,
                                                 req.date, req.time, Pending));
    resp := CreateThenNotify(store, users, bank, userId, draft, sendOk);
  }
}
