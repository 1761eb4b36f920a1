/**
 * The status sweep: one bulk update that marks every pending appointment
 * whose date and time have passed as completed, and reports how many it changed.
 * "Now" is passed in as the two strings the sweep derives from the clock.
 */
module AppointmentStatus {
  import opened Strings
  import opened AppointmentModel

  /**
   * The `updateMany` filter: pending, and either dated before today, or dated
   * today at a time strictly before the current `HH:MM`. It never selects a
   * completed appointment, one dated after today, or one due later today.
   */
  function IsElapsed(a: Appointment, today: string, now: string): (r: bool)
    ensures r ==> a.status == Pending && !LexLess(today, a.date)
    ensures r && a.date == today ==> !LexLess(now, a.time)
  {
    LexLessAsymmetric(a.date, today);
    LexLessIrreflexive(today);
    LexLessAsymmetric(a.time, now);
    a.status == Pending && (LexLess(a.date, today) || (a.date == today && LexLess(a.time, now)))
  }

  /** The `$set: { status: 'completed' }` update, applied to one document if the filter selects it. */
  function Settle(a: Appointment, today: string, now: string): Appointment {
    if IsElapsed(a, today, now) then a.(status := Completed) else a
  }

  /**
   * The whole collection after the bulk update.
   * The only change is `status := completed`, made exactly to the appointments
   * the filter selects; every other appointment, and every other field, is untouched.
   */
  function Sweep(s: seq<Appointment>, today: string, now: string): (r: seq<Appointment>)
    ensures |r| == |s|
    ensures forall i :: 0 <= i < |s| ==> r[i] == s[i].(status := r[i].status)
    ensures forall i :: 0 <= i < |s| ==> (r[i] != s[i] <==> IsElapsed(s[i], today, now))
    ensures forall i :: 0 <= i < |s| && IsElapsed(s[i], today, now) ==> r[i].status == Completed
  {
    seq(|s|, i requires 0 <= i < |s| => Settle(s[i], today, now))
  }

  /** How many documents the filter selects. */
  function ElapsedCount(s: seq<Appointment>, today: string, now: string): nat
    decreases |s|
  {
    if s == [] then 0
    else ElapsedCount(s[..|s| - 1], today, now) + (if IsElapsed(s[|s| - 1], today, now) then 1 else 0)
  }

  /** How many positions went from `pending` in `before` to `completed` in `after`. */
  function MovedCount(before: seq<Appointment>, after: seq<Appointment>): nat
    requires |before| == |after|
    decreases |before|
  {
    if before == [] then 0
    else
      var n := |before| - 1;
      MovedCount(before[..n], after[..n])
      + (if before[n].status == Pending && after[n].status == Completed then 1 else 0)
  }

  /** `updateAppointmentStatus`: the bulk update over the collection, returning `modifiedCount`. */
  method UpdateAppointmentStatus(store: AppointmentCollection, today: string, now: string)
    returns (modifiedCount: nat)
    requires store.Valid()
    modifies store
    ensures store.Valid()
    ensures store.records == Sweep(old(store.records), today, now)
    ensures modifiedCount == ElapsedCount(old(store.records), today, now)
  {
    ghost var s0 := store.records;
    var n := |store.records|;
    var i := 0;
    modifiedCount := 0;
    while i < n
      invariant 0 <= i <= n && |store.records| == n
      invariant forall k :: 0 <= k < i ==> store.records[k] == Settle(s0[k], today, now)
      invariant forall k :: i <= k < n ==> store.records[k] == s0[k]
      invariant modifiedCount == ElapsedCount(s0[..i], today, now)
    {
      var a := store.records[i];
      if IsElapsed(a, today, now) {
        store.records := store.records[i := a.(status := Completed)];
        modifiedCount := modifiedCount + 1;
      }
      assert s0[..i + 1][..i] == s0[..i];
      i := i + 1;
    }
    assert s0[..n] == s0;
  }

  // ---------------------------------------------------------------------------
  // What the sweep changes and what it leaves alone
  // ---------------------------------------------------------------------------

  /** A completed appointment is never selected, so no status reverts. */
  lemma CompletedNeverReverts(s: seq<Appointment>, today: string, now: string, i: int)
    requires 0 <= i < |s| && s[i].status == Completed
    ensures Sweep(s, today, now)[i] == s[i]
  {
  }

  /** The count returned is the number of appointments moved from `pending` to `completed`. */
  lemma {:induction false} CountIsMoved(s: seq<Appointment>, today: string, now: string)
    ensures MovedCount(s, Sweep(s, today, now)) == ElapsedCount(s, today, now)
    decreases |s|
  {
    if s != [] {
      var n := |s| - 1;
      assert Sweep(s, today, now)[..n] == Sweep(s[..n], today, now);
      CountIsMoved(s[..n], today, now);
    }
  }

  /** After a sweep, nothing is left for a second sweep with the same "now" to select. */
  lemma {:induction false} NothingLeftElapsed(s: seq<Appointment>, today: string, now: string)
    ensures ElapsedCount(Sweep(s, today, now), today, now) == 0
    decreases |s|
  {
    if s != [] {
      var n := |s| - 1;
      assert Sweep(s, today, now)[..n] == Sweep(s[..n], today, now);
      NothingLeftElapsed(s[..n], today, now);
    }
  }

  /** Idempotence: a second run with the same "now" changes nothing and returns 0. */
  lemma SweepIdempotent(s: seq<Appointment>, today: string, now: string)
    ensures Sweep(Sweep(s, today, now), today, now) == Sweep(s, today, now)
    ensures ElapsedCount(Sweep(s, today, now), today, now) == 0
  {
    NothingLeftElapsed(s, today, now);
  }

  /** An appointment dated today at exactly the current minute stays pending: the comparison is strict. */
  lemma SameMinuteStaysPending(a: Appointment, today: string, now: string)
    requires a.date == today && a.time == now
    ensures Settle(a, today, now) == a
  {
    LexLessIrreflexive(now);
    LexLessIrreflexive(today);
  }

  /** Later dates, and today's times at or after the current minute, stay pending. */
  lemma NotYetDueStaysPending(a: Appointment, today: string, now: string)
    requires LexLess(today, a.date) || (a.date == today && !LexLess(a.time, now))
    ensures Settle(a, today, now) == a
  {
    LexLessAsymmetric(today, a.date);
    LexLessIrreflexive(today);
  }

  // ---------------------------------------------------------------------------
  // Why string comparison is calendar comparison (RFC 3339, section 5.1)
  // ---------------------------------------------------------------------------

  /** The `full-date` layout of RFC 3339 section 5.6: `YYYY-MM-DD`, what `toISOString().split('T')[0]` yields. */
  predicate IsFullDate(s: string) {
    && |s| == 10 && s[4] == '-' && s[7] == '-'
    && AllDigits(s[..4]) && AllDigits(s[5..7]) && AllDigits(s[8..])
  }

  /** `HH:MM`, the first five characters of an RFC 3339 `partial-time`, what `toTimeString().slice(0, 5)` yields. */
  predicate IsHourMinute(s: string) {
    |s| == 5 && s[2] == ':' && AllDigits(s[..2]) && AllDigits(s[3..])
  }

  function Year(s: string): nat requires IsFullDate(s) { ParseDecimal(s[..4]) }
  function Month(s: string): nat requires IsFullDate(s) { ParseDecimal(s[5..7]) }
  function Day(s: string): nat requires IsFullDate(s) { ParseDecimal(s[8..]) }
  function Hour(s: string): nat requires IsHourMinute(s) { ParseDecimal(s[..2]) }
  function Minute(s: string): nat requires IsHourMinute(s) { ParseDecimal(s[3..]) }

  /** Calendar order on dates, field by field. */
  predicate DateBefore(d: string, e: string)
    requires IsFullDate(d) && IsFullDate(e)
  {
    Year(d) < Year(e)
    || (Year(d) == Year(e) && (Month(d) < Month(e) || (Month(d) == Month(e) && Day(d) < Day(e))))
  }

  /** Clock order on times of day. */
  predicate TimeBefore(t: string, u: string)
    requires IsHourMinute(t) && IsHourMinute(u)
  {
    Hour(t) < Hour(u) || (Hour(t) == Hour(u) && Minute(t) < Minute(u))
  }

  /** A scheduled (date, time) lies strictly before the given "now". */
  predicate ScheduledBefore(date: string, time: string, today: string, now: string)
    requires IsFullDate(date) && IsFullDate(today) && IsHourMinute(time) && IsHourMinute(now)
  {
    DateBefore(date, today) || (!DateBefore(today, date) && TimeBefore(time, now))
  }

  lemma FullDateDigits(d: string)
    requires IsFullDate(d)
    ensures ParseDecimal(DigitsOf(d)) == Year(d) * 10000 + Month(d) * 100 + Day(d)
    ensures Month(d) < 100 && Day(d) < 100
  {
    var y, m, dd := d[..4], d[5..7], d[8..];
    FullDateDigitsOf(d);
    assert Pow10(2) == 100;
    var yv, mv, dv := ParseDecimal(y), ParseDecimal(m), ParseDecimal(dd);
    ParseDecimalAppend(y, m);
    assert ParseDecimal(y + m) == yv * 100 + mv;
    ParseDecimalAppend(y + m, dd);
    assert ParseDecimal(y + m + dd) == (yv * 100 + mv) * 100 + dv;
    ParseDecimalBound(m);
    ParseDecimalBound(dd);
  }

  /** Dropping the two dashes of a date leaves its eight digits. */
  lemma FullDateDigitsOf(d: string)
    requires IsFullDate(d)
    ensures DigitsOf(d) == d[..4] + d[5..7] + d[8..]
  {
    var y, m, dd := d[..4], d[5..7], d[8..];
    assert d == y + [d[4]] + m + [d[7]] + dd;
    DigitsOfAppend(y + [d[4]] + m + [d[7]], dd);
    DigitsOfAppend(y + [d[4]] + m, [d[7]]);
    DigitsOfAppend(y + [d[4]], m);
    DigitsOfAppend(y, [d[4]]);
    DigitsOfDigits(y);
    DigitsOfDigits(m);
    DigitsOfDigits(dd);
    assert DigitsOf([d[4]]) == [] && DigitsOf([d[7]]) == [];
  }

  lemma HourMinuteDigits(t: string)
    requires IsHourMinute(t)
    ensures ParseDecimal(DigitsOf(t)) == Hour(t) * 100 + Minute(t)
    ensures Minute(t) < 100
  {
    var h, m := t[..2], t[3..];
    assert t == h + [t[2]] + m;
    DigitsOfAppend(h + [t[2]], m);
    DigitsOfAppend(h, [t[2]]);
    DigitsOfDigits(h);
    DigitsOfDigits(m);
    assert DigitsOf([t[2]]) == [];
    assert DigitsOf(t) == h + m;
    ParseDecimalAppend(h, m);
    ParseDecimalBound(m);
    assert Pow10(2) == 100;
  }

  lemma FullDateLayout(d: string, e: string)
    requires IsFullDate(d) && IsFullDate(e)
    ensures SameLayout(d, e)
  {
    forall i | 0 <= i < 10
      ensures (IsDigit(d[i]) <==> IsDigit(e[i])) && (!IsDigit(d[i]) ==> d[i] == e[i])
    {
      if i < 4 {
        assert d[..4][i] == d[i] && e[..4][i] == e[i];
      } else if 5 <= i < 7 {
        assert d[5..7][i - 5] == d[i] && e[5..7][i - 5] == e[i];
      } else if 8 <= i {
        assert d[8..][i - 8] == d[i] && e[8..][i - 8] == e[i];
      }
    }
  }

  lemma HourMinuteLayout(t: string, u: string)
    requires IsHourMinute(t) && IsHourMinute(u)
    ensures SameLayout(t, u)
  {
    forall i | 0 <= i < 5
      ensures (IsDigit(t[i]) <==> IsDigit(u[i])) && (!IsDigit(t[i]) ==> t[i] == u[i])
    {
      if i < 2 {
        assert t[..2][i] == t[i] && u[..2][i] == u[i];
      } else if 3 <= i {
        assert t[3..][i - 3] == t[i] && u[3..][i - 3] == u[i];
      }
    }
  }

  /** On `full-date` strings, the text order the sweep uses is the calendar order. */
  lemma DateTextOrderIsCalendarOrder(d: string, e: string)
    requires IsFullDate(d) && IsFullDate(e)
    ensures LexLess(d, e) <==> DateBefore(d, e)
  {
    FullDateLayout(d, e);
    SameLayoutLexIsNumeric(d, e);
    FullDateDigits(d);
    FullDateDigits(e);
  }

  /** On `HH:MM` strings, the text order the sweep uses is the clock order. */
  lemma TimeTextOrderIsClockOrder(t: string, u: string)
    requires IsHourMinute(t) && IsHourMinute(u)
    ensures LexLess(t, u) <==> TimeBefore(t, u)
  {
    HourMinuteLayout(t, u);
    SameLayoutLexIsNumeric(t, u);
    HourMinuteDigits(t);
    HourMinuteDigits(u);
  }

  /**
   * For well-formed dates and times, the sweep completes a pending appointment
   * exactly when its scheduled moment is strictly before "now".
   */
  lemma ElapsedIffScheduledBefore(a: Appointment, today: string, now: string)
    requires IsFullDate(a.date) && IsFullDate(today) && IsHourMinute(a.time) && IsHourMinute(now)
    ensures IsElapsed(a, today, now) <==> a.status == Pending && ScheduledBefore(a.date, a.time, today, now)
  {
    DateTextOrderIsCalendarOrder(a.date, today);
    DateTextOrderIsCalendarOrder(today, a.date);
    TimeTextOrderIsClockOrder(a.time, now);
    LexLessTotal(a.date, today);
    LexLessAsymmetric(a.date, today);
    LexLessIrreflexive(today);
  }

  /** A booking for 10:00 on 2099-01-01 is still pending at 09:00 that day and completed at 11:00. */
  lemma SweepScenario(a: Appointment)
    requires a.date == "2099-01-01" && a.time == "10:00" && a.status == Pending
    ensures Settle(a, "2099-01-01", "09:00") == a
    ensures Settle(a, "2099-01-01", "11:00") == a.(status := Completed)
  {
    assert !LexLess("10:00", "09:00");
    assert LexLess("10:00", "11:00");
    LexLessIrreflexive("2099-01-01");
  }
}
