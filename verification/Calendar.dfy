/** Calendar dates packed into 32 bits, the month tables, the day of the year and its inverse, and the next day.
    The packed fields occupy different bits, so that the shifts and ors of the packing are written as sums. */
module Calendar {
  import opened Common

  const YEARS: int := 65536

  predicate IsLeap(year: int) {
    (year % 4 == 0 && year % 100 != 0) || year % 400 == 0
  }

  function DaysInFeb(leap: bool): int {
    if leap then 29 else 28
  }

  function DaysInYear(year: int): int {
    if IsLeap(year) then 366 else 365
  }

  function MonthDays(leap: bool, month: int): (n: int)
    ensures 28 <= n <= 31
  {
    match month
    case 2 => DaysInFeb(leap)
    case 4 => 30
    case 6 => 30
    case 9 => 30
    case 11 => 30
    case _ => 31
  }

  /** The days of the year before `month`. */
  function DaysBefore(leap: bool, month: int): (n: int)
    requires 1 <= month
    ensures n >= 0
    decreases month
  {
    if month == 1 then 0 else DaysBefore(leap, month - 1) + MonthDays(leap, month - 1)
  }

  lemma NextMonth(leap: bool, month: int)
    requires 1 <= month
    ensures DaysBefore(leap, month + 1) == DaysBefore(leap, month) + MonthDays(leap, month)
  {
  }

  /** The month tables of the year, filled at the start of the program. */
  method InitTables(year: int) returns (daysInMonth: array<int>, dayOfYear: array<int>)
    ensures daysInMonth.Length == dayOfYear.Length == 12
    ensures forall m | 1 <= m <= 12 :: daysInMonth[m - 1] == MonthDays(IsLeap(year), m)
    ensures forall m | 1 <= m <= 12 :: dayOfYear[m - 1] == DaysBefore(IsLeap(year), m)
  {
    var leap := IsLeap(year);
    hide MonthDays, IsLeap, DaysBefore;
    daysInMonth, dayOfYear := new int[12], new int[12](_ => 0);
    for i := 0 to 12
      invariant forall m | 1 <= m <= i :: daysInMonth[m - 1] == MonthDays(leap, m)
      invariant forall k | 0 <= k < 12 :: dayOfYear[k] == 0
    {
      daysInMonth[i] := MonthDays(leap, i + 1);
    }
    FirstMonth(leap);
    for i := 0 to 11
      invariant forall m | 1 <= m <= 12 :: daysInMonth[m - 1] == MonthDays(leap, m)
      invariant forall m | 1 <= m <= i + 1 :: dayOfYear[m - 1] == DaysBefore(leap, m)
      invariant forall k | i < k < 12 :: dayOfYear[k] == 0
    {
      NextMonth(leap, i + 1);
      assert dayOfYear[(i + 1) - 1] == DaysBefore(leap, i + 1) && daysInMonth[(i + 1) - 1] == MonthDays(leap, i + 1);
      dayOfYear[i + 1] := dayOfYear[i + 1] + dayOfYear[i] + daysInMonth[i];
    }
  }

  lemma FirstMonth(leap: bool)
    ensures DaysBefore(leap, 1) == 0
  {
  }

  /** A day past the end of the month counts as its last. */
  function CalcDayOfYear(month: int, day: int, leap: bool): int
    requires 1 <= month <= 12
  {
    DaysBefore(leap, month) + Min(day, MonthDays(leap, month))
  }

  predicate ValidDate(month: int, day: int, leap: bool) {
    1 <= month <= 12 && 1 <= day <= MonthDays(leap, month)
  }

  lemma {:induction false} MonthsInOrder(leap: bool, m: int, n: int)
    requires 1 <= m < n
    ensures DaysBefore(leap, m) + MonthDays(leap, m) <= DaysBefore(leap, n)
    decreases n
  {
    if m < n - 1 {
      MonthsInOrder(leap, m, n - 1);
    }
  }

  lemma DaysOfYear(leap: bool)
    ensures DaysBefore(leap, 13) == 337 + DaysInFeb(leap)
  {
    assert DaysBefore(leap, 4) == 62 + DaysInFeb(leap);
    assert DaysBefore(leap, 7) == DaysBefore(leap, 4) + 91;
    assert DaysBefore(leap, 10) == DaysBefore(leap, 7) + 92;
  }

  /** From March on five months have 153 days. */
  lemma MonthsInDays(leap: bool, m: int)
    requires 1 <= m <= 13
    ensures DaysBefore(leap, m) ==
            if m == 1 then 0
            else if m == 2 then 31
            else if m == 13 then if leap then 366 else 365
            else (153 * (m - 3) + 2) / 5 + 31 + if leap then 29 else 28
  {
    assert DaysBefore(leap, 4) == 62 + DaysInFeb(leap);
    assert DaysBefore(leap, 6) == DaysBefore(leap, 4) + 61;
    assert DaysBefore(leap, 8) == DaysBefore(leap, 6) + 61;
    assert DaysBefore(leap, 10) == DaysBefore(leap, 8) + 61;
    assert DaysBefore(leap, 12) == DaysBefore(leap, 10) + 61;
  }

  /** A day past the end of a month counts as its last, and day 0 as the last of the month before. */
  lemma DayOutOfMonth(month: int, day: int, leap: bool)
    requires 1 <= month <= 12
    ensures day > MonthDays(leap, month) ==>
              CalcDayOfYear(month, day, leap) == CalcDayOfYear(month, MonthDays(leap, month), leap)
    ensures month > 1 ==> CalcDayOfYear(month, 0, leap) == CalcDayOfYear(month - 1, MonthDays(leap, month - 1), leap)
  {
    hide MonthDays;
    if month > 1 {
      NextMonth(leap, month - 1);
    }
  }

  /** Days of the year are numbered in the order of the dates. */
  lemma DayOfYearOrder(m: int, d: int, n: int, e: int, leap: bool)
    requires ValidDate(m, d, leap) && ValidDate(n, e, leap)
    ensures CalcDayOfYear(m, d, leap) < CalcDayOfYear(n, e, leap) <==> m < n || (m == n && d < e)
    ensures CalcDayOfYear(m, d, leap) == CalcDayOfYear(n, e, leap) <==> m == n && d == e
    ensures 1 <= CalcDayOfYear(m, d, leap) <= 337 + DaysInFeb(leap)
  {
    hide DaysBefore, MonthDays;
    if m < n {
      MonthsInOrder(leap, m, n);
    } else if n < m {
      MonthsInOrder(leap, n, m);
    }
    DaysOfYear(leap);
    MonthsInOrder(leap, m, 13);
  }

  /** The date whose day of the year is `day`. */
  method DateFromDay(day: int, leap: bool) returns (month: int, dayOfMonth: int)
    requires 1 <= day <= 337 + DaysInFeb(leap)
    ensures ValidDate(month, dayOfMonth, leap) && CalcDayOfYear(month, dayOfMonth, leap) == day
  {
    hide MonthDays;
    var left := day;
    for m := 0 to 12
      invariant 1 <= left && left + DaysBefore(leap, m + 1) == day
    {
      var dm := MonthDays(leap, m + 1);
      if left <= dm {
        return m + 1, left;
      }
      left := left - dm;
    }
    DaysOfYear(leap);
    assert false;
  }

  // ---------- packed dates ----------

  function NewCalendarDate(year: int, month: int, day: int): int {
    year % YEARS * 0x10000 + month * 0x100 + day
  }

  function Year(cd: int): int {
    cd / 0x10000 % YEARS
  }

  function Month(cd: int): int {
    cd / 0x100 % 0x100
  }

  function Day(cd: int): int {
    cd % 0x100
  }

  ghost predicate Packed(cd: int) {
    0 <= cd < 0x1_0000_0000
  }

  ghost predicate Valid(cd: int) {
    Packed(cd) && ValidDate(Month(cd), Day(cd), IsLeap(Year(cd)))
  }

  /** In 32 bits the fields do not overlap: or is sum, and nothing is lost. */
  lemma PackedBits(year: bv32, month: bv32, day: bv32)
    requires year < 0x1_0000 && month < 0x100 && day < 0x100
    ensures ((year << 16) | (month << 8) | day) == year * 0x1_0000 + month * 0x100 + day
    ensures ((year << 16) | (month << 8) | day) >> 16 == year
    ensures NewCalendarDate(1, 0, 0) == 0x1_0000 && NewCalendarDate(0, 1, 0) == 0x100 && NewCalendarDate(0, 0, 1) == 1
  {
  }

  lemma FieldsOf(year: int, month: int, day: int)
    requires 0 <= month < 0x100 && 0 <= day < 0x100
    ensures var cd := NewCalendarDate(year, month, day);
            Packed(cd) && Year(cd) == year % YEARS && Month(cd) == month && Day(cd) == day
  {
    var y := year % YEARS;
    var cd := NewCalendarDate(year, month, day);
    assert cd == (y * 0x100 + month) * 0x100 + day;
    assert cd / 0x100 == y * 0x100 + month;
  }

  lemma FromFields(cd: int)
    requires Packed(cd)
    ensures NewCalendarDate(Year(cd), Month(cd), Day(cd)) == cd
    ensures cd == Year(cd) * 0x10000 + Month(cd) * 0x100 + Day(cd)
    ensures 0 <= Year(cd) < YEARS && 0 <= Month(cd) < 0x100 && 0 <= Day(cd) < 0x100
  {
    assert cd / 0x100 / 0x100 == cd / 0x10000;
  }

  /** Packed dates compare like year, month and day. */
  lemma PackedOrder(a: int, b: int)
    requires Packed(a) && Packed(b)
    ensures a < b <==> Year(a) < Year(b) || (Year(a) == Year(b) && (Month(a) < Month(b) || (Month(a) == Month(b) && Day(a) < Day(b))))
  {
    hide *;
    FromFields(a);
    FromFields(b);
  }

  function DayOfYear(cd: int): int
    requires 1 <= Month(cd) <= 12
  {
    CalcDayOfYear(Month(cd), Day(cd), IsLeap(Year(cd)))
  }

  // ---------- the number of a day ----------

  function DaysBeforeYear(year: nat): int {
    if year == 0 then 0 else DaysBeforeYear(year - 1) + DaysInYear(year - 1)
  }

  lemma OneIn(y: nat, n: nat)
    requires n in {4, 100, 400}
    ensures (y + n) / n - (y + n - 1) / n == if y % n == 0 then 1 else 0
  {
  }

  /** Years have 365 days, and one more every fourth year, but for one in a hundred, save one in four hundred. */
  lemma {:induction false} YearsInDays(y: nat)
    ensures DaysBeforeYear(y) == 365 * y + (y + 3) / 4 - (y + 99) / 100 + (y + 399) / 400
  {
    if y > 0 {
      YearsInDays(y - 1);
      OneIn(y - 1, 4);
      OneIn(y - 1, 100);
      OneIn(y - 1, 400);
      LeapIff(y - 1);
    }
  }

  lemma LeapIff(y: nat)
    ensures DaysInYear(y) == 365 + (if y % 4 == 0 then 1 else 0) - (if y % 100 == 0 then 1 else 0)
                             + (if y % 400 == 0 then 1 else 0)
  {
    assert y % 400 == 0 ==> y % 100 == 0;
    assert y % 100 == 0 ==> y % 4 == 0;
  }

  /** The number of a day, counted from the start of year 0. */
  function Ordinal(cd: int): int
    requires 1 <= Month(cd) <= 12
  {
    DaysBeforeYear(Year(cd)) + DayOfYear(cd)
  }

  lemma {:induction false} YearsInOrder(y: nat, z: nat)
    requires y < z
    ensures DaysBeforeYear(y) + DaysInYear(y) <= DaysBeforeYear(z)
    decreases z
  {
    hide DaysInYear;
    if y < z - 1 {
      YearsInOrder(y, z - 1);
      assert DaysInYear(z - 1) >= 0 by {
        DaysInYearPositive(z - 1);
      }
    }
  }

  lemma DaysInYearPositive(year: int)
    ensures DaysInYear(year) == 337 + DaysInFeb(IsLeap(year))
  {
  }

  lemma OrdinalInYear(cd: int)
    requires Valid(cd)
    ensures DaysBeforeYear(Year(cd)) < Ordinal(cd) <= DaysBeforeYear(Year(cd)) + DaysInYear(Year(cd))
  {
    hide CalcDayOfYear, IsLeap, DaysBeforeYear;
    DayOfYearOrder(Month(cd), Day(cd), Month(cd), Day(cd), IsLeap(Year(cd)));
  }

  /** Packed dates are ordered like the days they stand for. */
  lemma OrdinalOrder(a: int, b: int)
    requires Valid(a) && Valid(b)
    ensures a < b <==> Ordinal(a) < Ordinal(b)
    ensures a == b <==> Ordinal(a) == Ordinal(b)
  {
    OneWay(a, b);
    OneWay(b, a);
  }

  lemma OneWay(a: int, b: int)
    requires Valid(a) && Valid(b)
    ensures a < b ==> Ordinal(a) < Ordinal(b)
  {
    hide CalcDayOfYear, IsLeap, DaysBeforeYear, Year, Month, Day, DaysInYear;
    if a < b {
      PackedOrder(a, b);
      FromFields(a);
      FromFields(b);
      if Year(a) < Year(b) {
        OrdinalInYear(a);
        OrdinalInYear(b);
        YearsInOrder(Year(a), Year(b));
      } else {
        DayOfYearOrder(Month(a), Day(a), Month(b), Day(b), IsLeap(Year(a)));
      }
    }
  }

  /** The last date there is. */
  const LAST: int := 65535 * 0x10000 + 12 * 0x100 + 31

  function Tomorrow(cd: int): int
    requires 1 <= Month(cd) <= 12
  {
    var (year, month, day) := (Year(cd), Month(cd), Day(cd));
    if month == 12 && day == 31 then NewCalendarDate(year + 1, 1, 1)
    else if day == MonthDays(IsLeap(year), month) then NewCalendarDate(year, month + 1, 1)
    else NewCalendarDate(year, month, day + 1)
  }

  lemma OrdinalOf(year: int, month: int, day: int)
    requires 0 <= year < YEARS && ValidDate(month, day, IsLeap(year))
    ensures var cd := NewCalendarDate(year, month, day);
            && Valid(cd) && Year(cd) == year && Month(cd) == month && Day(cd) == day
            && Ordinal(cd) == DaysBeforeYear(year) + CalcDayOfYear(month, day, IsLeap(year))
  {
    hide IsLeap, CalcDayOfYear, DaysBeforeYear, NewCalendarDate, Year, Month, Day, MonthDays;
    assert 0 <= month < 0x100 && 0 <= day < 0x100 && year % YEARS == year;
    FieldsOf(year, month, day);
  }

  /** The next day is the next in number, and the last day of year 65535 is followed by the first of year 0. */
  lemma TomorrowIsNext(cd: int)
    requires Valid(cd)
    ensures Valid(Tomorrow(cd)) && cd <= LAST
    ensures cd < LAST ==> Ordinal(Tomorrow(cd)) == Ordinal(cd) + 1
    ensures cd == LAST ==> Tomorrow(cd) == NewCalendarDate(0, 1, 1)
  {
    hide Year, Month, Day, IsLeap, NewCalendarDate, DaysBefore, DaysBeforeYear, DaysInYear, MonthDays;
    var (year, month, day) := (Year(cd), Month(cd), Day(cd));
    FromFields(cd);
    LastIsLast(cd);
    assert MonthDays(IsLeap(year), 12) == 31 by {
      December(IsLeap(year));
    }
    if month == 12 && day == 31 {
      if year < 65535 {
        OrdinalOf(year + 1, 1, 1);
        NextYear(year);
      } else {
        Wraps();
        OrdinalOf(0, 1, 1);
      }
    } else if day == MonthDays(IsLeap(year), month) {
      OrdinalOf(year, month + 1, 1);
      NextMonth(IsLeap(year), month);
    } else {
      OrdinalOf(year, month, day + 1);
    }
  }

  lemma December(leap: bool)
    ensures MonthDays(leap, 12) == MonthDays(leap, 1) == 31
  {
  }

  lemma LastIsLast(cd: int)
    requires Valid(cd)
    ensures cd <= LAST
    ensures cd == LAST <==> Year(cd) == 65535 && Month(cd) == 12 && Day(cd) == 31
  {
    FromFields(cd);
    FieldsOf(65535, 12, 31);
    hide Year, Month, Day, IsLeap;
  }

  lemma Wraps()
    ensures NewCalendarDate(65536, 1, 1) == NewCalendarDate(0, 1, 1)
  {
  }

  lemma NextYear(year: nat)
    ensures DaysBeforeYear(year + 1) + CalcDayOfYear(1, 1, IsLeap(year + 1))
            == DaysBeforeYear(year) + CalcDayOfYear(12, 31, IsLeap(year)) + 1
  {
    hide IsLeap;
    EndOfYear(year);
    FirstMonth(IsLeap(year + 1));
  }

  lemma EndOfYear(year: nat)
    ensures CalcDayOfYear(12, 31, IsLeap(year)) == DaysInYear(year)
  {
    hide IsLeap;
    DaysOfYear(IsLeap(year));
    DaysInYearPositive(year);
    assert DaysBefore(IsLeap(year), 13) == DaysBefore(IsLeap(year), 12) + 31;
  }

  // ---------- year and day of the year ----------

  /** A day past the end of the year counts as its last. */
  function NewYearDay(year: int, day: int): int {
    year % YEARS * 0x10000 + Min(day, DaysInYear(year))
  }

  function YearDayOf(cd: int): int
    requires 1 <= Month(cd) <= 12
  {
    NewYearDay(Year(cd), DayOfYear(cd))
  }

  lemma YearDayFields(cd: int)
    requires Valid(cd)
    ensures YearDayOf(cd) / 0x10000 == Year(cd) && YearDayOf(cd) % 0x10000 == DayOfYear(cd)
    ensures 1 <= DayOfYear(cd) <= DaysInYear(Year(cd))
  {
    hide IsLeap, Year, Month, Day, CalcDayOfYear;
    FromFields(cd);
    DayOfYearOrder(Month(cd), Day(cd), Month(cd), Day(cd), IsLeap(Year(cd)));
  }

  /** A day past the end of the year is the last day of the year. */
  lemma NewYearDayIsLast(cd: int, day: int)
    requires Valid(cd) && Month(cd) == 12 && Day(cd) == 31 && day >= DaysInYear(Year(cd))
    ensures NewYearDay(Year(cd), day) == YearDayOf(cd)
  {
    hide IsLeap, Year, Month, Day, CalcDayOfYear;
    FromFields(cd);
    EndOfYear(Year(cd));
  }

  /** The date of a year day; a day before the first counts as the first, a day after the last as the last. */
  method DateOf(yd: int) returns (cd: int)
    requires Packed(yd)
    ensures Valid(cd) && Year(cd) == yd / 0x10000
    ensures DayOfYear(cd) == Max(1, Min(yd % 0x10000, DaysInYear(yd / 0x10000)))
    ensures forall c | Valid(c) && yd == YearDayOf(c) :: cd == c
  {
    hide Year, Month, Day, CalcDayOfYear, MonthDays, DaysBefore, NewYearDay;
    var year, day := yd / 0x10000, yd % 0x10000;
    var leap := IsLeap(year);
    var m, d := 1, 1;
    FirstAndLast(year);
    if day > 0 {
      if day > 337 + DaysInFeb(leap) {
        m, d := 12, 31;
      } else {
        m, d := DateFromDay(day, leap);
      }
    }
    cd := NewCalendarDate(year, m, d);
    OrdinalOf(year, m, d);
    forall c | Valid(c) && yd == YearDayOf(c)
      ensures cd == c
    {
      YearDayFields(c);
      DayOfYearOrder(Month(c), Day(c), m, d, leap);
      FromFields(c);
    }
  }

  lemma FirstAndLast(year: nat)
    ensures ValidDate(1, 1, IsLeap(year)) && CalcDayOfYear(1, 1, IsLeap(year)) == 1
    ensures ValidDate(12, 31, IsLeap(year)) && CalcDayOfYear(12, 31, IsLeap(year)) == DaysInYear(year)
    ensures DaysInYear(year) == 337 + DaysInFeb(IsLeap(year))
  {
    hide IsLeap;
    EndOfYear(year);
    DaysInYearPositive(year);
  }

  // ---------- dates that name a month or are out of range ----------

  /** A month outside 1..12 is moved inside; a day past the month's end is moved to it;
      day 0 is the first or the last day of the month. */
  function Normalize(cd: int, firstOfMonth: bool): int {
    var year := Year(cd);
    var month := Min(Max(Month(cd), 1), 12);
    var dm := MonthDays(IsLeap(year), month);
    var day := if Day(cd) != 0 then Day(cd) else if firstOfMonth then 1 else dm;
    NewCalendarDate(year, month, Min(day, dm))
  }

  lemma NormalizeIsValid(cd: int, firstOfMonth: bool)
    requires Packed(cd)
    ensures Valid(Normalize(cd, firstOfMonth)) && Year(Normalize(cd, firstOfMonth)) == Year(cd)
    ensures Valid(cd) ==> Normalize(cd, firstOfMonth) == cd
  {
    hide Year, Month, Day, IsLeap, MonthDays, NewCalendarDate;
    FromFields(cd);
    var month := Min(Max(Month(cd), 1), 12);
    var dm := MonthDays(IsLeap(Year(cd)), month);
    var day := if Day(cd) != 0 then Day(cd) else if firstOfMonth then 1 else dm;
    OrdinalOf(Year(cd), month, Min(day, dm));
  }

  /** Both months are moved to the same month, from outside the year. */
  ghost predicate MonthsCollide(from: int, until: int) {
    Year(from) == Year(until) && Month(from) < Month(until) && (Month(until) <= 1 || Month(from) >= 12)
  }

  /** Normalizing the ends of a range keeps them in order except where different months become one, January or
      December, and the days are the other way round. */
  lemma NormalizedInOrderIff(from: int, until: int)
    requires Packed(from) && Packed(until) && from <= until
    ensures Normalize(from, true) <= Normalize(until, false)
            <==> !(MonthsCollide(from, until) && 0 < Day(until) < 31 && Day(until) < Day(from))
  {
    hide Year, Month, Day, IsLeap, MonthDays, NewCalendarDate, Normalize;
    December(IsLeap(Year(from)));
    FromFields(from);
    FromFields(until);
    NormalizeIsValid(from, true);
    NormalizeIsValid(until, false);
    NormalizedFields(from, true);
    NormalizedFields(until, false);
    PackedOrder(from, until);
    PackedOrder(Normalize(until, false), Normalize(from, true));
  }

  lemma NormalizedFields(cd: int, firstOfMonth: bool)
    requires Packed(cd)
    ensures var n := Normalize(cd, firstOfMonth);
            var dm := MonthDays(IsLeap(Year(cd)), Month(n));
            && Year(n) == Year(cd) && Month(n) == Min(Max(Month(cd), 1), 12)
            && Day(n) == Min(if Day(cd) != 0 then Day(cd) else if firstOfMonth then 1 else dm, dm)
  {
    hide Year, Month, Day, IsLeap, MonthDays, NewCalendarDate;
    FromFields(cd);
    var month := Min(Max(Month(cd), 1), 12);
    var dm := MonthDays(IsLeap(Year(cd)), month);
    var day := if Day(cd) != 0 then Day(cd) else if firstOfMonth then 1 else dm;
    OrdinalOf(Year(cd), month, Min(day, dm));
  }

  /** Day 20 of month 0 and January 3 are in order, and January 20 and January 3 are not. */
  lemma NormalizedOutOfOrder()
    ensures var from, until := NewCalendarDate(2024, 0, 20), NewCalendarDate(2024, 1, 3);
            from <= until && Normalize(from, true) > Normalize(until, false)
  {
    var from, until := NewCalendarDate(2024, 0, 20), NewCalendarDate(2024, 1, 3);
    FieldsOf(2024, 0, 20);
    FieldsOf(2024, 1, 3);
    NormalizedInOrderIff(from, until);
  }
}
