/**
 * The OTP schema and the store of one-time codes. The schema itself does not
 * declare `email` unique; one record per email holds because codes are only
 * ever issued by an upsert on the email.
 */
module OtpModel {
  import opened Common
  import opened Queries

  /** Seconds after `createdAt` at which the TTL index lets a record go. */
  const TtlSeconds: int := 120

  /** A stored code. `createdAt` counts seconds on the server's clock. */
  datatype OtpRecord = OtpRecord(email: string, otp: string, createdAt: int)

  /** The TTL index may remove the record from this moment on, and never before. */
  predicate Expired(r: OtpRecord, now: int) {
    now >= r.createdAt + TtlSeconds
  }

  predicate UniqueEmails(rs: seq<OtpRecord>) {
    forall i, j :: 0 <= i < j < |rs| ==> rs[i].email != rs[j].email
  }

  /**
   * `findOneAndUpdate({ email }, { otp, createdAt: now }, { upsert: true })`:
   * the first record for the email takes the new code and time; with none, a
   * record is inserted.
   */
  function Upsert(rs: seq<OtpRecord>, email: string, otp: string, now: int): (r: seq<OtpRecord>)
    ensures OtpRecord(email, otp, now) in r
    ensures |r| == if exists k :: 0 <= k < |rs| && rs[k].email == email then |rs| else |rs| + 1
  {
    match FirstWhere(rs, (x: OtpRecord) => x.email == email)
    case Some(i) =>
      var u := rs[i := OtpRecord(email, otp, now)];
      assert u[i] == OtpRecord(email, otp, now);
      u
    case None =>
      var u := rs + [OtpRecord(email, otp, now)];
      assert u[|rs|] == OtpRecord(email, otp, now);
      u
  }

  /**
   * `findOne({ email, otp })`. Mongoose drops a filter key whose value is
   * `undefined`, so a code that is not given leaves `findOne({ email })`:
   * the first record for the email, whatever its code.
   */
  function Match(rs: seq<OtpRecord>, email: string, otp: Option<string>): (r: Option<nat>)
    ensures r.Some? <==> exists k :: 0 <= k < |rs| && rs[k].email == email && (otp.None? || rs[k].otp == otp.value)
    ensures r.Some? ==> r.value < |rs| && rs[r.value].email == email && (otp.None? || rs[r.value].otp == otp.value)
  {
    FirstWhere(rs, (r: OtpRecord) => r.email == email && (otp.None? || r.otp == otp.value))
  }

  /**
   * The lookup verification intends: a record for the email holding exactly
   * the submitted code, and nothing when no code is submitted.
   */
  function CodeMatch(rs: seq<OtpRecord>, email: string, otp: Option<string>): (r: Option<nat>)
    ensures r.Some? <==> otp.Some? && exists k :: 0 <= k < |rs| && rs[k].email == email && rs[k].otp == otp.value
    ensures r.Some? ==> r.value < |rs| && rs[r.value].email == email && rs[r.value].otp == otp.value
    ensures otp.Some? ==> r == Match(rs, email, otp)
  {
    if otp.None? then None else Match(rs, email, otp)
  }

  /** A pending record for the email is matched by a request without a code. */
  lemma MissingCodeMatches(rs: seq<OtpRecord>, email: string, otp: string, createdAt: int)
    requires OtpRecord(email, otp, createdAt) in rs
    ensures Match(rs, email, None).Some?
    ensures CodeMatch(rs, email, None).None?
  {
    var k :| 0 <= k < |rs| && rs[k] == OtpRecord(email, otp, createdAt);
    assert rs[k].email == email;
  }

  /** `deleteOne({ _id })` of the record at position `i`. */
  function RemoveAt(rs: seq<OtpRecord>, i: nat): (r: seq<OtpRecord>)
    requires i < |rs|
    ensures |r| == |rs| - 1
    ensures forall k :: 0 <= k < |rs| && k != i ==> rs[k] in r
  {
    rs[..i] + rs[i + 1..]
  }

  /**
   * Issuing keeps one record per email: the email's record holds the new code
   * and time, and every other email's record is as it was.
   */
  lemma UpsertSpec(rs: seq<OtpRecord>, email: string, otp: string, now: int)
    requires UniqueEmails(rs)
    ensures UniqueEmails(Upsert(rs, email, otp, now))
    ensures OtpRecord(email, otp, now) in Upsert(rs, email, otp, now)
    ensures forall x :: x in Upsert(rs, email, otp, now) && x.email == email ==> x == OtpRecord(email, otp, now)
    ensures forall x: OtpRecord :: x.email != email ==> (x in Upsert(rs, email, otp, now) <==> x in rs)
  {
    var found := FirstWhere(rs, (r: OtpRecord) => r.email == email);
    var u := Upsert(rs, email, otp, now);
    if found.None? {
      assert u[|rs|] == OtpRecord(email, otp, now);
    } else {
      var i := found.value;
      assert u[i] == OtpRecord(email, otp, now);
      forall x: OtpRecord | x.email != email
        ensures x in u <==> x in rs
      {
        if x in rs {
          var k :| 0 <= k < |rs| && rs[k] == x;
          assert u[k] == x;
        }
        if x in u {
          var k :| 0 <= k < |u| && u[k] == x;
          assert rs[k] == x;
        }
      }
    }
  }

  /** Right after issuing, exactly the new code verifies for that email; an earlier code does not. */
  lemma IssuedCodeVerifies(rs: seq<OtpRecord>, email: string, otp: string, now: int, submitted: string)
    requires UniqueEmails(rs)
    ensures Match(Upsert(rs, email, otp, now), email, Some(submitted)).Some? <==> submitted == otp
  {
    UpsertSpec(rs, email, otp, now);
    var u := Upsert(rs, email, otp, now);
    var m := Match(u, email, Some(submitted));
    if m.Some? {
      assert u[m.value] in u;
    }
  }

  /** A verified code is gone: the same email and code no longer match, and emails stay unique. */
  lemma VerifyIsSingleUse(rs: seq<OtpRecord>, email: string, otp: string)
    requires UniqueEmails(rs) && Match(rs, email, Some(otp)).Some?
    ensures UniqueEmails(RemoveAt(rs, Match(rs, email, Some(otp)).value))
    ensures Match(RemoveAt(rs, Match(rs, email, Some(otp)).value), email, Some(otp)).None?
  {
    var i := Match(rs, email, Some(otp)).value;
    var r := RemoveAt(rs, i);
    assert forall k :: 0 <= k < |r| ==> r[k] == (if k < i then rs[k] else rs[k + 1]);
    forall k | 0 <= k < |r|
      ensures r[k].email != email
    {
      if k < i {
        assert r[k] == rs[k];
      } else {
        assert r[k] == rs[k + 1];
      }
    }
  }

  /** A code issued less than two minutes ago survives a pass of the TTL monitor and still verifies. */
  lemma IssuedCodeSurvivesReap(rs: seq<OtpRecord>, email: string, otp: string, issuedAt: int, now: int)
    requires UniqueEmails(rs) && issuedAt <= now < issuedAt + TtlSeconds
    ensures Match(Filter(Upsert(rs, email, otp, issuedAt), (x: OtpRecord) => !Expired(x, now)), email, Some(otp)).Some?
  {
    UpsertSpec(rs, email, otp, issuedAt);
    var f := Filter(Upsert(rs, email, otp, issuedAt), (x: OtpRecord) => !Expired(x, now));
    assert OtpRecord(email, otp, issuedAt) in f;
    var k :| 0 <= k < |f| && f[k] == OtpRecord(email, otp, issuedAt);
    assert f[k].email == email && f[k].otp == otp;
  }

  /** Once two minutes have passed, a pass of the TTL monitor leaves no record for the email at all. */
  lemma ExpiredCodeIsReaped(rs: seq<OtpRecord>, email: string, otp: string, issuedAt: int, now: int)
    requires UniqueEmails(rs) && now >= issuedAt + TtlSeconds
    ensures Match(Filter(Upsert(rs, email, otp, issuedAt), (x: OtpRecord) => !Expired(x, now)), email, None).None?
  {
    UpsertSpec(rs, email, otp, issuedAt);
    var u := Upsert(rs, email, otp, issuedAt);
    var f := Filter(u, (x: OtpRecord) => !Expired(x, now));
    forall k | 0 <= k < |f|
      ensures f[k].email != email
    {
      assert f[k] in f;
      assert f[k] in u && !Expired(f[k], now);
    }
  }

  /** The OTP collection. */
  class OtpCollection {
    var records: seq<OtpRecord>

    ghost predicate Valid()
      reads this
    {
      UniqueEmails(records) && forall k :: 0 <= k < |records| ==> records[k].email != "" && records[k].otp != ""
    }

    constructor ()
      ensures records == [] && Valid()
    {
      records := [];
    }

    /** Issue `otp` for `email` at time `now`. */
    method Issue(email: string, otp: string, now: int)
      requires Valid() && email != "" && otp != ""
      modifies this
      ensures Valid()
      ensures records == Upsert(old(records), email, otp, now)
    {
      UpsertSpec(records, email, otp, now);
      records := Upsert(records, email, otp, now);
    }

    /** Delete the record at position `i`. */
    method Delete(i: nat)
      requires Valid() && i < |records|
      modifies this
      ensures Valid()
      ensures records == RemoveAt(old(records), i)
    {
      var rest := records[..i] + records[i + 1..];
      assert forall k :: 0 <= k < |rest| ==> rest[k] == (if k < i then records[k] else records[k + 1]);
      records := RemoveAt(records, i);
    }

    /**
     * One pass of the TTL monitor at time `now`: every expired record goes,
     * every other record stays, in order.
     */
    method Reap(now: int)
      requires Valid()
      modifies this
      ensures Valid()
      ensures records == Filter(old(records), (r: OtpRecord) => !Expired(r, now))
      ensures forall x :: x in records <==> x in old(records) && !Expired(x, now)
    {
      var kept: seq<OtpRecord> := [];
      var i := |records|;
      while i > 0
        invariant 0 <= i <= |records|
        invariant kept == Filter(records[i..], (r: OtpRecord) => !Expired(r, now))
      {
        i := i - 1;
        assert records[i..][1..] == records[i + 1..];
        if !Expired(records[i], now) {
          kept := [records[i]] + kept;
        }
      }
      assert records[0..] == records;
      ReapKeepsValid(records, now);
      records := kept;
    }
  }

  /** Filtering keeps emails unique and every field present. */
  lemma {:induction false} ReapKeepsValid(rs: seq<OtpRecord>, now: int)
    requires UniqueEmails(rs) && forall k :: 0 <= k < |rs| ==> rs[k].email != "" && rs[k].otp != ""
    ensures var r := Filter(rs, (x: OtpRecord) => !Expired(x, now));
            UniqueEmails(r) && forall k :: 0 <= k < |r| ==> r[k].email != "" && r[k].otp != ""
    decreases |rs|
  {
    if rs != [] {
      var t := Filter(rs[1..], (x: OtpRecord) => !Expired(x, now));
      ReapKeepsValid(rs[1..], now);
      forall k | 0 <= k < |t|
        ensures t[k].email != rs[0].email
      {
        assert t[k] in rs[1..];
      }
    }
  }
}
