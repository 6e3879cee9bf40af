/**
 * `calculateAge`: whole years between a birth date and a reference date,
 * counted on the calendar rather than by dividing a day count. The clock
 * read `new Date()` becomes the `today` parameter.
 */
module Age {

  /**
   * A calendar date as the `Date` getters report it: `getFullYear`,
   * `getMonth` (0 for January) and `getDate` (day of the month).
   */
  datatype Date = Date(year: int, month: int, day: int)

  /** `a`'s (month, day) comes strictly before `b`'s within a year. */
  predicate MonthDayBefore(a: Date, b: Date) {
    a.month < b.month || (a.month == b.month && a.day < b.day)
  }

  /** Calendar order on dates: year first, then (month, day). */
  predicate OnOrBefore(a: Date, b: Date) {
    a.year < b.year || (a.year == b.year && !MonthDayBefore(b, a))
  }

  /** The `n`-th birthday: same month and day, `n` years on. */
  function Anniversary(birth: Date, n: int): Date {
    Date(birth.year + n, birth.month, birth.day)
  }

  /** `n` is the age on `today`: the `n`-th birthday has come and the next has not. */
  predicate IsAgeOn(birth: Date, today: Date, n: int) {
    OnOrBefore(Anniversary(birth, n), today) && !OnOrBefore(Anniversary(birth, n + 1), today)
  }

  /** lib/uidai-kyc.ts:88-98 with the reference date passed in. */
  method CalculateAge(dateOfBirth: Date, today: Date) returns (age: int)
    ensures IsAgeOn(dateOfBirth, today, age)
    ensures age == today.year - dateOfBirth.year - (if MonthDayBefore(today, dateOfBirth) then 1 else 0)
  {
    age := today.year - dateOfBirth.year;
    var monthDiff := today.month - dateOfBirth.month;
    if monthDiff < 0 || (monthDiff == 0 && today.day < dateOfBirth.day) {
      age := age - 1;
    }
  }

  /** At most one age fits a pair of dates, so `CalculateAge` is determined by `IsAgeOn`. */
  lemma AgeIsUnique(birth: Date, today: Date, n: int, m: int)
    requires IsAgeOn(birth, today, n) && IsAgeOn(birth, today, m)
    ensures n == m
  {
  }

  /**
   * Worked cases: the day before and the day of a birthday, and a 29 February
   * birthday seen from 28 February and 1 March of a leap year.
   */
  lemma AgeExamples()
    ensures IsAgeOn(Date(2006, 2, 15), Date(2024, 2, 14), 17)
    ensures IsAgeOn(Date(2006, 2, 15), Date(2024, 2, 15), 18)
    ensures IsAgeOn(Date(2000, 1, 29), Date(2024, 1, 28), 23)
    ensures IsAgeOn(Date(2000, 1, 29), Date(2024, 2, 1), 24)
  {
  }
}
