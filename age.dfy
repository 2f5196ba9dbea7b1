/**
 * `calculateAge` of app.js: whole years between a birth date and today,
 * one less while this year's birthday has not been reached.  Dates are
 * (year, month, day) triples in local time; only their order matters.
 */
module Age {
  import opened Wrappers

  datatype Date = Date(year: int, month: int, day: int)

  /** Calendar order: `a` is on or before `b`. */
  predicate NotAfter(a: Date, b: Date) {
    a.year < b.year || (a.year == b.year && (a.month < b.month || (a.month == b.month && a.day <= b.day)))
  }

  /** The same month and day, `years` later. */
  function Anniversary(birth: Date, years: int): Date {
    Date(birth.year + years, birth.month, birth.day)
  }

  /** `age` is the age on `now`: the age-th birthday has come, the next one has not. */
  predicate IsAge(birth: Date, now: Date, age: int) {
    NotAfter(Anniversary(birth, age), now) && !NotAfter(Anniversary(birth, age + 1), now)
  }

  /**
   * `calculateAge(dob)`: no age without a date of birth; otherwise the year
   * difference, decremented when today's month and day come before the
   * birthday's.
   */
  method CalculateAge(dob: Option<Date>, now: Date) returns (age: Option<int>)
    ensures dob.None? <==> age.None?
    ensures dob.Some? ==> IsAge(dob.value, now, age.value)
  {
    if dob.None? {
      return None;
    }
    var birth := dob.value;
    var years := now.year - birth.year;
    if now.month < birth.month || (now.month == birth.month && now.day < birth.day) {
      years := years - 1;
    }
    return Some(years);
  }

  /** At most one age fits a pair of dates, so the method's result is the age. */
  lemma AgeUnique(birth: Date, now: Date, a: int, b: int)
    requires IsAge(birth, now, a) && IsAge(birth, now, b)
    ensures a == b
  {
  }

  /** On the birthday itself the new age already counts; the day before, it does not. */
  lemma BirthdayCounts()
    ensures IsAge(Date(1990, 5, 15), Date(2024, 5, 15), 34)
    ensures IsAge(Date(1990, 5, 15), Date(2024, 5, 14), 33)
  {
  }
}
