/**
 * The registration page's client-side gate: the age computed from the date
 * of birth, then the password length, checked in that order before the form
 * is sent.
 */
module DonorRegister {
  import opened Common

  /** A calendar date as the `Date` getters report it. */
  datatype Date = Date(year: int, month: int, day: int)

  /** `a` falls on or before `b` in calendar order. */
  predicate OnOrBefore(a: Date, b: Date) {
    a.year < b.year || (a.year == b.year && (a.month < b.month || (a.month == b.month && a.day <= b.day)))
  }

  /** The `n`-th birthday of someone born on `dob`. */
  function Birthday(dob: Date, n: int): Date {
    Date(dob.year + n, dob.month, dob.day)
  }

  /**
   * `calculateAge`: the difference of the years, less one while this year's
   * birthday is still to come. That is the number of the last birthday
   * reached: that one has come, the next has not.
   */
  function CalculateAge(dob: Date, today: Date): (r: int)
    ensures OnOrBefore(Birthday(dob, r), today)
    ensures !OnOrBefore(Birthday(dob, r + 1), today)
  {
    var age := today.year - dob.year;
    var m := today.month - dob.month;
    if m < 0 || (m == 0 && today.day < dob.day) then age - 1 else age
  }

  /** Any count of birthdays reached is at most the age, and the age is the only count with both properties. */
  lemma AgeIsUnique(dob: Date, today: Date, n: int)
    requires OnOrBefore(Birthday(dob, n), today) && !OnOrBefore(Birthday(dob, n + 1), today)
    ensures n == CalculateAge(dob, today)
  {
  }

  /** On the birthday itself the age is the plain difference of the years. */
  lemma AgeOnBirthday(dob: Date, today: Date)
    requires today.month == dob.month && today.day == dob.day
    ensures CalculateAge(dob, today) == today.year - dob.year
  {
  }

  /** Within one year, the age goes up by exactly one across the birthday. */
  lemma AgeRisesAtBirthday(dob: Date, before: Date, after: Date)
    requires before.year == after.year
    requires !OnOrBefore(Birthday(dob, before.year - dob.year), before)
    requires OnOrBefore(Birthday(dob, after.year - dob.year), after)
    ensures CalculateAge(dob, after) == CalculateAge(dob, before) + 1
  {
  }

  /** The age never goes down as the current date moves forward. */
  lemma AgeMonotone(dob: Date, d1: Date, d2: Date)
    requires OnOrBefore(d1, d2)
    ensures CalculateAge(dob, d1) <= CalculateAge(dob, d2)
  {
  }

  /** What `handleSubmit` does with the form. */
  datatype GateResult = AgeError | PasswordError | Submit

  function GateMessage(g: GateResult): string {
    match g
    case AgeError => "You must be at least 18 years old to register."
    case PasswordError => "Password must be at least 6 characters long."
    case Submit => ""
  }

  /**
   * The two checks of `handleSubmit`. `dob` is `None` when the text does not
   * parse as a date: the age is then `NaN`, and `NaN < 18` is false, so the
   * age check lets the form through.
   */
  function RegisterGate(dob: Option<Date>, today: Date, password: string): (r: GateResult)
    ensures r == Submit <==> (dob.None? || CalculateAge(dob.value, today) >= 18) && |password| >= 6
  {
    if dob.Some? && CalculateAge(dob.value, today) < 18 then AgeError
    else if |password| < 6 then PasswordError
    else Submit
  }

  /** The age check comes first: an under-age user with a short password sees the age error. */
  lemma AgeCheckedFirst(dob: Date, today: Date, password: string)
    requires CalculateAge(dob, today) < 18
    ensures RegisterGate(Some(dob), today, password) == AgeError
  {
  }

  /** Eighteen exactly is old enough. */
  lemma EighteenAllowed(dob: Date, today: Date, password: string)
    requires CalculateAge(dob, today) == 18
    ensures RegisterGate(Some(dob), today, password) != AgeError
    ensures |password| < 6 <==> RegisterGate(Some(dob), today, password) == PasswordError
  {
  }
}
