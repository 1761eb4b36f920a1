/**
 * Issuing and verifying the one-time code sent to a donor before booking.
 * The random draw, the clock and the mail delivery are parameters.
 */
module OtpController {
  import opened Common
  import opened Strings
  import opened UserModel
  import opened OtpModel

  /** The code as issued: `Math.floor(100000 + Math.random() * 900000).toString()` for a draw `code`. */
  function IssuedCode(code: nat): (r: string)
    requires 100000 <= code <= 999999
    ensures |r| == 6 && AllDigits(r) && ParseDecimal(r) == code
  {
    assert Pow10(5) == 100000 && Pow10(6) == 1000000;
    DecimalLength(code, 6);
    DecimalRoundTrip(code);
    DecimalString(code)
  }

  /** Different draws give different codes. */
  lemma IssuedCodeInjective(a: nat, b: nat)
    requires 100000 <= a <= 999999 && 100000 <= b <= 999999
    ensures IssuedCode(a) == IssuedCode(b) <==> a == b
  {
  }

  /**
   * `generateAndSendOTP`. `code` is the random draw, `now` the time of the
   * upsert, `sendOk` whether the mail transport delivered the message. The
   * code is stored before the mail is sent, so a failed send leaves it valid.
   */
  method GenerateAndSendOtp(users: UserCollection, otps: OtpCollection, userId: Id,
                            code: nat, now: int, sendOk: bool) returns (resp: Reply<string>)
    requires 100000 <= code <= 999999
    requires users.Valid() && otps.Valid()
    modifies otps
    ensures otps.Valid()
    ensures !IdTaken(users.users, userId) ==>
              resp == Failure(404, "User not found") && otps.records == old(otps.records)
    ensures IdTaken(users.users, userId) ==>
              otps.records == Upsert(old(otps.records), users.users[FindById(users.users, userId).value].email,
                                     IssuedCode(code), now)
    ensures IdTaken(users.users, userId) ==>
              resp == if sendOk then Success(200, "OTP sent successfully") else Failure(500, "Failed to send OTP")
  {
    var found := FindById(users.users, userId);
    if found.None? {
      return Failure(404, "User not found");
    }
    var user := users.users[found.value];
    var otp := IssuedCode(code);
    otps.Issue(user.email, otp, now);
    if !sendOk {
      return Failure(500, "Failed to send OTP");
    }
    resp := Success(200, "OTP sent successfully");
  }

  /**
   * `verifyOTP` as written. `otp` is the submitted code, `None` when the body
   * lacks it; the filter `{ email, otp }` then loses its `otp` key, so the
   * email's pending record matches and is deleted.
   */
  method VerifyOtpAsWritten(users: UserCollection, otps: OtpCollection, userId: Id, otp: Option<string>)
    returns (resp: Reply<string>)
    requires users.Valid() && otps.Valid()
    modifies otps
    ensures otps.Valid()
    ensures !IdTaken(users.users, userId) ==>
              resp == Failure(404, "User not found") && otps.records == old(otps.records)
    ensures IdTaken(users.users, userId) ==>
              var email := users.users[FindById(users.users, userId).value].email;
              match Match(old(otps.records), email, otp)
              case None => resp == Failure(400, "Invalid OTP") && otps.records == old(otps.records)
              case Some(i) => resp == Success(200, "OTP verified successfully")
                              && otps.records == RemoveAt(old(otps.records), i)
  {
    var found := FindById(users.users, userId);
    if found.None? {
      return Failure(404, "User not found");
    }
    var user := users.users[found.value];
    var record := Match(otps.records, user.email, otp);
    if record.None? {
      return Failure(400, "Invalid OTP");
    }
    otps.Delete(record.value);
    resp := Success(200, "OTP verified successfully");
  }

  /**
   * A request without a code verifies a donor who has a code pending:
   * the lookup finds the pending record, which the handler then deletes.
   */
  lemma VerifyWithoutCode()
    ensures Match([OtpRecord("donor@example.com", "483920", 0)], "donor@example.com", None) == Some(0)
    ensures CodeMatch([OtpRecord("donor@example.com", "483920", 0)], "donor@example.com", None) == None
  {
    MissingCodeMatches([OtpRecord("donor@example.com", "483920", 0)], "donor@example.com", "483920", 0);
  }

  /**
   * `verifyOTP` as intended: only the code itself verifies, so a request
   * without one is refused like a wrong code. A match is deleted, so a code
   * verifies once.
   */
  method VerifyOtp(users: UserCollection, otps: OtpCollection, userId: Id, otp: Option<string>)
    returns (resp: Reply<string>)
    requires users.Valid() && otps.Valid()
    modifies otps
    ensures otps.Valid()
    ensures !IdTaken(users.users, userId) ==>
              resp == Failure(404, "User not found") && otps.records == old(otps.records)
    ensures IdTaken(users.users, userId) ==>
              var email := users.users[FindById(users.users, userId).value].email;
              match CodeMatch(old(otps.records), email, otp)
              case None => resp == Failure(400, "Invalid OTP") && otps.records == old(otps.records)
              case Some(i) => resp == Success(200, "OTP verified successfully")
                              && otps.records == RemoveAt(old(otps.records), i)
    ensures resp.Success? ==>
              otp.Some? && exists k :: 0 <= k < |old(otps.records)| && old(otps.records)[k].otp == otp.value
  {
    var found := FindById(users.users, userId);
    if found.None? {
      return Failure(404, "User not found");
    }
    var user := users.users[found.value];
    var record := CodeMatch(otps.records, user.email, otp);
    if record.None? {
      return Failure(400, "Invalid OTP");
    }
    assert otps.records[record.value].otp == otp.value;
    otps.Delete(record.value);
    resp := Success(200, "OTP verified successfully");
  }
}
