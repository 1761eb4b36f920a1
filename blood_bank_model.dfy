/** The BloodBank schema: a trimmed required name and nested location, contact and opening hours. */
module BloodBankModel {
  import opened Common
  import opened Strings

  datatype Location = Location(address: string, city: string, state: string, pincode: string)

  /** `email` is the one optional path. */
  datatype Contact = Contact(phone: string, email: Option<string>)

  /** Both hours are free text; the schema does not relate one to the other. */
  datatype OperatingHours = OperatingHours(open: string, close: string)

  /** An entry of the embedded `appointments` array, which no handler fills any more. */
  datatype LegacyAppointment = LegacyAppointment(userId: Option<Id>, date: string, time: string)

  datatype BloodBank = BloodBank(
    id: Id,
    name: string,
    location: Location,
    contact: Contact,
    operatingHours: OperatingHours,
    appointments: seq<LegacyAppointment>)

  /** What the schema guarantees of a stored bank. */
  predicate WellFormedBank(b: BloodBank) {
    && b.name != "" && IsTrimmed(b.name)
    && b.location.address != "" && b.location.city != "" && b.location.state != "" && b.location.pincode != ""
    && b.contact.phone != ""
    && b.operatingHours.open != "" && b.operatingHours.close != ""
    && forall k :: 0 <= k < |b.appointments| ==> b.appointments[k].date != "" && b.appointments[k].time != ""
  }

  /** The flat request body of `addBloodBank`; a missing key is `None`. */
  datatype BankForm = BankForm(
    name: Option<string>,
    address: Option<string>,
    city: Option<string>,
    state: Option<string>,
    pincode: Option<string>,
    phone: Option<string>,
    email: Option<string>,
    open: Option<string>,
    close: Option<string>)

  /** A `required` string path: present and not empty. */
  predicate Given(v: Option<string>) {
    v.Some? && v.value != ""
  }

  /** The form passes the schema once `name` is trimmed. */
  predicate BankFormComplete(f: BankForm) {
    && f.name.Some? && Trim(f.name.value) != ""
    && Given(f.address) && Given(f.city) && Given(f.state) && Given(f.pincode)
    && Given(f.phone) && Given(f.open) && Given(f.close)
  }

  /**
   * `new BloodBank({ name, location: {...}, contact: {...}, operatingHours: {...} })`
   * followed by validation: the nested objects are built from the flat fields,
   * the name is trimmed and the embedded list starts empty.
   */
  function BuildBank(id: Id, f: BankForm): (r: Outcome<BloodBank>)
    ensures r.Stored? <==> BankFormComplete(f)
    ensures r.Stored? ==> WellFormedBank(r.doc) && r.doc.id == id && r.doc.appointments == []
    ensures r.Stored? ==> r.doc.name == Trim(f.name.value)
    ensures r.Stored? ==> r.doc.location == Location(f.address.value, f.city.value, f.state.value, f.pincode.value)
    ensures r.Stored? ==> r.doc.contact == Contact(f.phone.value, f.email)
    ensures r.Stored? ==> r.doc.operatingHours == OperatingHours(f.open.value, f.close.value)
  {
    if !BankFormComplete(f) then Rejected("BloodBank validation failed")
    else
      TrimSpec(f.name.value);
      Stored(BloodBank(id, Trim(f.name.value),
                       Location(f.address.value, f.city.value, f.state.value, f.pincode.value),
                       Contact(f.phone.value, f.email),
                       OperatingHours(f.open.value, f.close.value),
                       []))
  }

  /** No two banks share a name or an id. */
  predicate UniqueBanks(banks: seq<BloodBank>) {
    forall i, j :: 0 <= i < j < |banks| ==> banks[i].name != banks[j].name && banks[i].id != banks[j].id
  }

  /**
   * `findOne({ name })` finds a bank. The `trim` setter applies to the filter;
   * Mongoose drops the key when the body has no name, leaving `findOne({})`,
   * which finds any bank there is.
   */
  predicate NameTaken(banks: seq<BloodBank>, name: Option<string>) {
    if name.None? then |banks| > 0
    else exists k :: 0 <= k < |banks| && banks[k].name == Trim(name.value)
  }

  predicate BankIdTaken(banks: seq<BloodBank>, id: Id) {
    exists k :: 0 <= k < |banks| && banks[k].id == id
  }

  /** The blood-bank collection. */
  class BankCollection {
    var banks: seq<BloodBank>

    ghost predicate Valid()
      reads this
    {
      UniqueBanks(banks) && forall k :: 0 <= k < |banks| ==> WellFormedBank(banks[k])
    }

    constructor ()
      ensures banks == [] && Valid()
    {
      banks := [];
    }

    /** `save()` of a new bank; no index guards the name, so the caller checks it first. */
    method Insert(b: BloodBank)
      requires Valid() && WellFormedBank(b)
      requires !BankIdTaken(banks, b.id) && !NameTaken(banks, Some(b.name))
      modifies this
      ensures Valid()
      ensures banks == old(banks) + [b]
    {
      TrimOfTrimmed(b.name);
      banks := banks + [b];
    }
  }
}
