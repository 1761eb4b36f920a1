/** The Appointment schema and the collection that stores appointments. */
module AppointmentModel {
  import opened Common

  /** The `status` enum: an appointment is either waiting or done. */
  datatype Status = Pending | Completed

  function StatusName(s: Status): string {
    match s
    case Pending => "pending"
    case Completed => "completed"
  }

  /** The enum validator: only the two names are accepted. */
  function ParseStatus(name: string): (r: Option<Status>)
    ensures r.Some? <==> name == "pending" || name == "completed"
  {
    if name == "pending" then Some(Pending)
    else if name == "completed" then Some(Completed)
    else None
  }

  lemma StatusNameRoundTrip(s: Status, name: string)
    ensures ParseStatus(StatusName(s)) == Some(s)
    ensures ParseStatus(name).Some? ==> StatusName(ParseStatus(name).value) == name
  {
  }

  /**
   * A stored appointment. Every path the schema marks `required` is present;
   * `date` and `time` are plain strings, so every comparison on them is a
   * string comparison. The `timestamps` fields are not modelled.
   */
  datatype Appointment = Appointment(
    user: Id,
    userName: string,
    bloodBank: Id,
    bloodBankName: string,
    date: string,
    time: string,
    status: Status)

  /** The object handed to `Appointment.create`: any path may be missing. */
  datatype AppointmentDraft = AppointmentDraft(
    user: Option<Id>,
    userName: Option<string>,
    bloodBank: Option<Id>,
    bloodBankName: Option<string>,
    date: Option<string>,
    time: Option<string>,
    status: Option<string>)

  /** A `required` string path is satisfied: present and not the empty string. */
  predicate Given(v: Option<string>) {
    v.Some? && v.value != ""
  }

  /** All six required paths are given. */
  predicate HasRequiredPaths(d: AppointmentDraft) {
    Given(d.user) && Given(d.userName) && Given(d.bloodBank) && Given(d.bloodBankName)
    && Given(d.date) && Given(d.time)
  }

  /**
   * Mongoose's validation of a new appointment: the required paths in schema
   * order, then the `status` enum, whose default is `pending`.
   */
  function Validate(d: AppointmentDraft): (r: Outcome<Appointment>)
    ensures r.Stored? <==> HasRequiredPaths(d) && (d.status.None? || ParseStatus(d.status.value).Some?)
    ensures r.Stored? ==> r.doc.user == d.user.value && r.doc.userName == d.userName.value
                          && r.doc.bloodBank == d.bloodBank.value
                          && r.doc.bloodBankName == d.bloodBankName.value
                          && r.doc.date == d.date.value && r.doc.time == d.time.value
    ensures r.Stored? && d.status.None? ==> r.doc.status == Pending
    ensures r.Stored? && d.status.Some? ==> StatusName(r.doc.status) == d.status.value
  {
    if !Given(d.user) then Rejected("Path `user` is required.")
    else if !Given(d.userName) then Rejected("Path `userName` is required.")
    else if !Given(d.bloodBank) then Rejected("Path `bloodBank` is required.")
    else if !Given(d.bloodBankName) then Rejected("Path `bloodBankName` is required.")
    else if !Given(d.date) then Rejected("Path `date` is required.")
    else if !Given(d.time) then Rejected("Path `time` is required.")
    else
      var status := if d.status.None? then Some(Pending) else ParseStatus(d.status.value);
      if status.None? then Rejected("`status` is not a valid enum value.")
      else Stored(Appointment(d.user.value, d.userName.value, d.bloodBank.value,
                              d.bloodBankName.value, d.date.value, d.time.value, status.value))
  }

  /** Every required path of a stored appointment holds a non-empty string. */
  predicate WellFormedAppointment(a: Appointment) {
    a.user != "" && a.userName != "" && a.bloodBank != "" && a.bloodBankName != ""
    && a.date != "" && a.time != ""
  }

  /** The appointments collection. The schema declares no index, so validation is all it keeps. */
  class AppointmentCollection {
    var records: seq<Appointment>

    ghost predicate Valid()
      reads this
    {
      forall k :: 0 <= k < |records| ==> WellFormedAppointment(records[k])
    }

    constructor ()
      ensures records == [] && Valid()
    {
      records := [];
    }

    /** `Appointment.create`: validate, then insert; a rejected draft leaves the collection as it was. */
    method Create(d: AppointmentDraft) returns (r: Outcome<Appointment>)
      requires Valid()
      modifies this
      ensures Valid()
      ensures r == Validate(d)
      ensures records == if r.Stored? then old(records) + [r.doc] else old(records)
    {
      r := Validate(d);
      if r.Stored? {
        records := records + [r.doc];
      }
    }
  }
}
