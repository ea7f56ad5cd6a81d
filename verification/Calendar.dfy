/** Counting days: the day number of a civil date in the proleptic Gregorian calendar. */
module Calendar {

  datatype Date = Date(year: int, month: nat, day: nat)

  // ----- the calendar -----

  predicate Leap(year: int) {
    year % 4 == 0 && (year % 100 != 0 || year % 400 == 0)
  }

  function DaysIn(year: int, month: nat): nat {
    if month == 2 then (if Leap(year) then 29 else 28)
    else if month in {4, 6, 9, 11} then 30
    else 31
  }

  predicate ValidDate(d: Date) {
    1 <= d.month <= 12 && 1 <= d.day <= DaysIn(d.year, d.month)
  }

  const EPOCH := Date(1970, 1, 1)

  /** The day after. */
  function Next(d: Date): Date {
    if d.day < DaysIn(d.year, d.month) then Date(d.year, d.month, d.day + 1)
    else if d.month < 12 then Date(d.year, d.month + 1, 1)
    else Date(d.year + 1, 1, 1)
  }

  /** The day before. */
  function Previous(d: Date): Date {
    if d.day > 1 then Date(d.year, d.month, d.day - 1)
    else if d.month > 1 then Date(d.year, d.month - 1, DaysIn(d.year, d.month - 1))
    else Date(d.year - 1, 12, 31)
  }

  predicate Earlier(a: Date, b: Date) {
    || a.year < b.year
    || (a.year == b.year && a.month < b.month)
    || (a.year == b.year && a.month == b.month && a.day < b.day)
  }

  // ----- the day number -----

  /** Division that drops the fraction, whatever the sign. */
  function Truncated(n: int, d: int): int
    requires d > 0
  {
    if n >= 0 then n / d else -(-n / d)
  }

  /** Days since 1 January 1970. Years are counted from March, so that a leap day ends one. */
  function DaysFromCivil(year: int, month: nat, day: nat): int
    requires 1 <= month <= 12
  {
    var shifted := if month <= 2 then year - 1 else year;
    var era := Truncated(if shifted >= 0 then shifted else shifted - 399, 400);
    var yearOfEra := shifted - era * 400;
    var dayOfYear := (153 * (if month > 2 then month - 3 else month + 9) + 2) / 5 + day - 1;
    var dayOfEra := yearOfEra * 365 + Truncated(yearOfEra, 4) - Truncated(yearOfEra, 100) + dayOfYear;
    era * 146097 + dayOfEra - 719468
  }

  function DayNumber(d: Date): int
    requires ValidDate(d)
  {
    DaysFromCivil(d.year, d.month, d.day)
  }

  // ----- one day after another -----

  /** The days before 1 March of a year. */
  function BeforeMarch(year: int): int {
    365 * year + year / 4 - year / 100 + year / 400 - 719468
  }

  /** The days from 1 March to the first of a month, within a year that starts in March. */
  function MonthStart(month: nat): int
    requires 1 <= month <= 12
  {
    match month
    case 3 => 0 case 4 => 31 case 5 => 61 case 6 => 92 case 7 => 122 case 8 => 153 case 9 => 184
    case 10 => 214 case 11 => 245 case 12 => 275 case 1 => 306 case _ => 337
  }

  /** The era drops out: the day number is that of 1 March, the months since, and the day. */
  lemma DaysFromMarch(year: int, month: nat, day: nat)
    requires 1 <= month <= 12
    ensures DaysFromCivil(year, month, day) ==
            BeforeMarch(if month <= 2 then year - 1 else year) + MonthStart(month) + day - 1
  {
    hide BeforeMarch, Truncated;
    var shifted := if month <= 2 then year - 1 else year;
    var era := Truncated(if shifted >= 0 then shifted else shifted - 399, 400);
    EraIsFloor(shifted);
    var yearOfEra := shifted - era * 400;
    EraYears(era, yearOfEra);
    TruncatedNatural(yearOfEra, 4);
    TruncatedNatural(yearOfEra, 100);
  }

  lemma TruncatedNatural(n: int, d: int)
    requires n >= 0 && d > 0
    ensures Truncated(n, d) == n / d
  {
  }

  lemma EraIsFloor(shifted: int)
    ensures Truncated(if shifted >= 0 then shifted else shifted - 399, 400) == shifted / 400
  {
  }

  lemma EraYears(era: int, yearOfEra: int)
    requires 0 <= yearOfEra < 400
    ensures BeforeMarch(era * 400 + yearOfEra) ==
            era * 146097 + yearOfEra * 365 + yearOfEra / 4 - yearOfEra / 100 - 719468
  {
    EraFourths(era, yearOfEra);
    EraHundredths(era, yearOfEra);
  }

  lemma EraFourths(era: int, yearOfEra: int)
    ensures (era * 400 + yearOfEra) / 4 == era * 100 + yearOfEra / 4
  {
  }

  lemma EraHundredths(era: int, yearOfEra: int)
    ensures (era * 400 + yearOfEra) / 100 == era * 4 + yearOfEra / 100
  {
  }

  lemma FourthsStep(year: int)
    ensures year / 4 - (year - 1) / 4 == if year % 4 == 0 then 1 else 0
  {
  }

  lemma HundredthsStep(year: int)
    ensures year / 100 - (year - 1) / 100 == if year % 100 == 0 then 1 else 0
  {
  }

  lemma ErasStep(year: int)
    ensures year / 400 - (year - 1) / 400 == if year % 400 == 0 then 1 else 0
  {
  }

  /** Every fourth century is a century, and every century a fourth year. */
  lemma Divisible(year: int)
    ensures year % 400 == 0 ==> year % 100 == 0
    ensures year % 100 == 0 ==> year % 4 == 0
  {
  }

  lemma Differences(year: int, q: int, c: int, e: int)
    requires year / 4 - (year - 1) / 4 == q && year / 100 - (year - 1) / 100 == c && year / 400 - (year - 1) / 400 == e
    ensures BeforeMarch(year) - BeforeMarch(year - 1) == 365 + q - c + e
  {
  }

  /** A year that starts in March is one day longer when its February has a leap day. */
  lemma MarchYear(year: int)
    ensures BeforeMarch(year) - BeforeMarch(year - 1) == if Leap(year) then 366 else 365
  {
    hide BeforeMarch;
    FourthsStep(year);
    HundredthsStep(year);
    ErasStep(year);
    Divisible(year);
    Differences(year, if year % 4 == 0 then 1 else 0, if year % 100 == 0 then 1 else 0, if year % 400 == 0 then 1 else 0);
  }

  /** The calendar's next day has the next day number. */
  lemma NextIsOneMore(d: Date)
    requires ValidDate(d)
    ensures ValidDate(Next(d)) && DayNumber(Next(d)) == DayNumber(d) + 1
  {
    hide DaysFromCivil, BeforeMarch, Leap;
    DaysFromMarch(d.year, d.month, d.day);
    DaysFromMarch(Next(d).year, Next(d).month, Next(d).day);
    MarchYear(d.year);
  }

  lemma EpochIsZero()
    ensures ValidDate(EPOCH) && DayNumber(EPOCH) == 0
  {
  }

  lemma PreviousThenNext(d: Date)
    requires ValidDate(d)
    ensures ValidDate(Previous(d)) && Next(Previous(d)) == d
    ensures DayNumber(Previous(d)) == DayNumber(d) - 1
  {
    NextIsOneMore(Previous(d));
  }

  /** Day numbers are in the order of the dates, so no two dates share one. */
  lemma EarlierIsLess(a: Date, b: Date)
    requires ValidDate(a) && ValidDate(b)
    ensures Earlier(a, b) <==> DayNumber(a) < DayNumber(b)
    ensures a == b <==> DayNumber(a) == DayNumber(b)
  {
    if Earlier(a, b) { EarlierLess(a, b); }
    if Earlier(b, a) { EarlierLess(b, a); }
  }

  lemma EarlierLess(a: Date, b: Date)
    requires ValidDate(a) && ValidDate(b) && Earlier(a, b)
    ensures DayNumber(a) < DayNumber(b)
  {
    hide DaysFromCivil, BeforeMarch, Leap;
    DaysFromMarch(a.year, a.month, a.day);
    DaysFromMarch(b.year, b.month, b.day);
    if a.year < b.year {
      YearsGrow(a.year - 1, b.year - 1);
      YearsGrow(a.year, b.year);
      YearsGrow(a.year - 1, a.year);
      if a.year < b.year - 1 {
        YearsGrow(a.year, b.year - 1);
      }
    } else {
      MarchYear(a.year);
    }
  }

  lemma {:induction false} YearsGrow(a: int, b: int)
    requires a < b
    ensures BeforeMarch(a) + 365 <= BeforeMarch(b)
    decreases b - a
  {
    hide BeforeMarch, Leap;
    MarchYear(b);
    if a < b - 1 {
      YearsGrow(a, b - 1);
    }
  }

  /** The day number is the only way to count days from the epoch. */
  lemma {:induction false} OnlyDayCount(count: Date -> int, d: Date)
    requires ValidDate(d) && count(EPOCH) == 0
    requires forall e :: ValidDate(e) ==> count(Next(e)) == count(e) + 1
    ensures count(d) == DayNumber(d)
    decreases if DayNumber(d) >= 0 then DayNumber(d) else -DayNumber(d)
  {
    hide DaysFromCivil;
    EpochIsZero();
    EarlierIsLess(d, EPOCH);
    if DayNumber(d) > 0 {
      PreviousThenNext(d);
      OnlyDayCount(count, Previous(d));
    } else if DayNumber(d) < 0 {
      NextIsOneMore(d);
      OnlyDayCount(count, Next(d));
      assert count(Next(d)) == count(d) + 1;
    }
  }
}
