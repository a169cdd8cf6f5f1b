/** The Gregorian to Jalali conversion of the reports, as an isomorphism of two calendars. */
module Calendar {
  datatype Date = Date(y: int, m: int, d: int)

  // ---------------------------------------------------------- Gregorian side

  predicate GregorianLeap(y: int) {
    y % 4 == 0 && (y % 100 != 0 || y % 400 == 0)
  }

  function GregorianMonth(y: int, m: int): int {
    if m == 2 then if GregorianLeap(y) then 29 else 28
    else if m == 4 || m == 6 || m == 9 || m == 11 then 30
    else 31
  }

  predicate Gregorian(g: Date) {
    g.y >= 1 && 1 <= g.m <= 12 && 1 <= g.d <= GregorianMonth(g.y, g.m)
  }

  function NextGregorian(g: Date): Date {
    if g.d < GregorianMonth(g.y, g.m) then Date(g.y, g.m, g.d + 1)
    else if g.m < 12 then Date(g.y, g.m + 1, 1)
    else Date(g.y + 1, 1, 1)
  }

  // ------------------------------------------------------------- Jalali side

  /** Eight leap years in each cycle of 33, four years apart. */
  predicate JalaliLeap(y: int) {
    var r := (y + 1595) % 33;
    r % 4 == 0 && r != 32
  }

  function JalaliMonth(y: int, m: int): int {
    if m <= 6 then 31 else if m <= 11 then 30 else if JalaliLeap(y) then 30 else 29
  }

  predicate Jalali(j: Date) {
    j.y >= -1595 && 1 <= j.m <= 12 && 1 <= j.d <= JalaliMonth(j.y, j.m)
  }

  function NextJalali(j: Date): Date {
    if j.d < JalaliMonth(j.y, j.m) then Date(j.y, j.m, j.d + 1)
    else if j.m < 12 then Date(j.y, j.m + 1, 1)
    else Date(j.y + 1, 1, 1)
  }

  predicate Before(a: Date, b: Date) {
    a.y < b.y || (a.y == b.y && (a.m < b.m || (a.m == b.m && a.d < b.d)))
  }

  // --------------------------------------------------------- the conversion

  function DaysBefore(m: int): int
    requires 1 <= m <= 12
  {
    [0, 31, 59, 90, 120, 151, 181, 212, 243, 273, 304, 334][m - 1]
  }

  /** The running day number the conversion goes through. */
  function DayNumber(g: Date): int
    requires 1 <= g.m <= 12
  {
    var gy2 := if g.m > 2 then g.y + 1 else g.y;
    355666 + 365 * g.y + (gy2 + 3) / 4 - (gy2 + 99) / 100 + (gy2 + 399) / 400 + g.d + DaysBefore(g.m)
  }

  function FromDayNumber(n: int): Date {
    var jy := -1595 + 33 * (n / 12053);
    var days := n % 12053;
    var jy := jy + 4 * (days / 1461);
    var days := days % 1461;
    var jy' := if days > 365 then jy + (days - 1) / 365 else jy;
    var days' := if days > 365 then (days - 1) % 365 else days;
    if days' < 186 then Date(jy', 1 + days' / 31, 1 + days' % 31)
    else Date(jy', 7 + (days' - 186) / 30, 1 + (days' - 186) % 30)
  }

  /** _gregorian_to_jalali */
  function ToJalali(g: Date): Date
    requires 1 <= g.m <= 12
  {
    FromDayNumber(DayNumber(g))
  }

  // ------------------------------------------- day numbers of Gregorian dates

  function YearStart(y: int): int {
    DayNumber(Date(y, 1, 1))
  }

  function YearLength(y: int): int {
    if GregorianLeap(y) then 366 else 365
  }

  /** The three roundings of the formula move exactly in leap years. */
  lemma {:induction false} LeapCount(y: int)
    ensures var c := (y + 3) / 4 - (y + 99) / 100 + (y + 399) / 400;
            var c' := (y + 4) / 4 - (y + 100) / 100 + (y + 400) / 400;
            c' == c + if GregorianLeap(y) then 1 else 0
  {
    Fours(y);
    Hundreds(y);
  }

  lemma {:induction false} Fours(y: int)
    ensures (y + 4) / 4 == (y + 3) / 4 + if y % 4 == 0 then 1 else 0
  {}

  lemma {:induction false} Hundreds(y: int)
    ensures (y + 100) / 100 == (y + 99) / 100 + if y % 100 == 0 then 1 else 0
  {}

  lemma {:induction false} YearsAdjoin(y: int)
    ensures YearStart(y + 1) == YearStart(y) + YearLength(y)
  {
    LeapCount(y);
  }

  /** A date's number is its year's start plus its place in the year, and stays inside the year. */
  lemma {:induction false} PlaceInYear(g: Date)
    requires Gregorian(g)
    ensures DayNumber(g)
         == YearStart(g.y) + DaysBefore(g.m) + g.d - 1 + (if g.m > 2 && GregorianLeap(g.y) then 1 else 0)
    ensures YearStart(g.y) <= DayNumber(g) < YearStart(g.y) + YearLength(g.y)
  {
    LeapCount(g.y);
  }

  lemma {:induction false} YearsOrdered(a: int, b: int)
    requires a < b
    ensures YearStart(a) + YearLength(a) <= YearStart(b)
    decreases b - a
  {
    YearsAdjoin(b - 1);
    if a < b - 1 { YearsOrdered(a, b - 1); }
  }

  /** Consecutive days, across month ends, leap days and century ends, have consecutive numbers. */
  lemma {:induction false} NextDayNumber(g: Date)
    requires Gregorian(g)
    ensures Gregorian(NextGregorian(g)) && DayNumber(NextGregorian(g)) == DayNumber(g) + 1
  {
    var next := NextGregorian(g);
    PlaceInYear(g);
    PlaceInYear(next);
    YearsAdjoin(g.y);
  }

  lemma {:induction false} DayNumberOrdered(a: Date, b: Date)
    requires Gregorian(a) && Gregorian(b)
    ensures DayNumber(a) < DayNumber(b) <==> Before(a, b)
    ensures DayNumber(a) == DayNumber(b) <==> a == b
  {
    PlaceInYear(a);
    PlaceInYear(b);
    if a.y < b.y { YearsOrdered(a.y, b.y); }
    if b.y < a.y { YearsOrdered(b.y, a.y); }
  }

  const FIRST := Date(1, 1, 1)

  /** Every number from that of the first day on is a date's. */
  lemma {:induction false} DateOf(n: int) returns (g: Date)
    requires n >= DayNumber(FIRST)
    ensures Gregorian(g) && DayNumber(g) == n
    decreases n
  {
    if n == DayNumber(FIRST) {
      g := FIRST;
    } else {
      var before := DateOf(n - 1);
      NextDayNumber(before);
      g := NextGregorian(before);
    }
  }

  // ---------------------------------------------- day numbers of Jalali dates

  /** Days of the year that come before a month. */
  function JalaliDaysBefore(m: int): int {
    if m <= 7 then 31 * (m - 1) else 186 + 30 * (m - 7)
  }

  /** The day number of a Jalali date. */
  function JalaliNumber(j: Date): int {
    var c := (j.y + 1595) / 33;
    var r := (j.y + 1595) % 33;
    12053 * c + 1461 * (r / 4) + (if r % 4 == 0 then 0 else 365 * (r % 4) + 1) + JalaliDaysBefore(j.m) + j.d - 1
  }

  /** Year, and day within the year, of a day number. */
  lemma {:induction false} YearOf(n: int) returns (c: int, b: int, k: int, day: int)
    requires n >= 0
    ensures c >= 0 && 0 <= b <= 8 && 0 <= k <= 3 && (b == 8 ==> k == 0)
    ensures n == 12053 * c + 1461 * b + (if k == 0 then 0 else 365 * k + 1) + day
    ensures 0 <= day < if k == 0 && b < 8 then 366 else 365
    ensures FromDayNumber(n) == (var y := -1595 + 33 * c + 4 * b + k;
              if day < 186 then Date(y, 1 + day / 31, 1 + day % 31)
              else Date(y, 7 + (day - 186) / 30, 1 + (day - 186) % 30))
  {
    c := n / 12053;
    var days := n % 12053;
    b := days / 1461;
    var rest := days % 1461;
    if rest > 365 {
      k, day := (rest - 1) / 365, (rest - 1) % 365;
    } else {
      k, day := 0, rest;
    }
  }

  /** From a day number to a date and back; the date is a valid one. */
  lemma {:induction false} NumberRoundTrip(n: int)
    requires n >= 0
    ensures Jalali(FromDayNumber(n)) && JalaliNumber(FromDayNumber(n)) == n
  {
    hide FromDayNumber;
    var c, b, k, day := YearOf(n);
    var j := FromDayNumber(n);
    assert j.y + 1595 == 33 * c + 4 * b + k;
    assert JalaliDaysBefore(j.m) + j.d - 1 == day;
  }

  /** From a valid date to its number and back. */
  lemma {:induction false} JalaliRoundTrip(j: Date)
    requires Jalali(j)
    ensures JalaliNumber(j) >= 0 && FromDayNumber(JalaliNumber(j)) == j
  {
    var n := JalaliNumber(j);
    var r := (j.y + 1595) % 33;
    var c', b', k', day' := YearOf(n);
    NumberRoundTrip(n);
    JalaliOrdered(FromDayNumber(n), j);
  }

  function JalaliYearStart(y: int): int {
    JalaliNumber(Date(y, 1, 1))
  }

  function JalaliYearLength(y: int): int {
    if JalaliLeap(y) then 366 else 365
  }

  lemma {:induction false} JalaliPlace(j: Date)
    requires Jalali(j)
    ensures JalaliNumber(j) == JalaliYearStart(j.y) + JalaliDaysBefore(j.m) + j.d - 1
    ensures JalaliYearStart(j.y) <= JalaliNumber(j) < JalaliYearStart(j.y) + JalaliYearLength(j.y)
  {}

  lemma {:induction false} JalaliYearsOrdered(a: int, b: int)
    requires a < b
    ensures JalaliYearStart(a) + JalaliYearLength(a) <= JalaliYearStart(b)
    decreases b - a
  {
    if a < b - 1 { JalaliYearsOrdered(a, b - 1); }
  }

  lemma {:induction false} JalaliOrdered(a: Date, b: Date)
    requires Jalali(a) && Jalali(b)
    ensures JalaliNumber(a) < JalaliNumber(b) <==> Before(a, b)
    ensures JalaliNumber(a) == JalaliNumber(b) <==> a == b
  {
    JalaliPlace(a);
    JalaliPlace(b);
    if a.y < b.y { JalaliYearsOrdered(a.y, b.y); }
    if b.y < a.y { JalaliYearsOrdered(b.y, a.y); }
  }

  lemma {:induction false} NextJalaliNumber(j: Date)
    requires Jalali(j)
    ensures Jalali(NextJalali(j)) && JalaliNumber(NextJalali(j)) == JalaliNumber(j) + 1
  {
    JalaliPlace(j);
    JalaliPlace(NextJalali(j));
  }

  // ------------------------------------------------------------- isomorphism

  lemma {:induction false} Positive(g: Date)
    requires Gregorian(g)
    ensures DayNumber(g) >= DayNumber(FIRST) > 0
  {
    DayNumberOrdered(g, FIRST);
  }

  /** A valid date becomes a valid date, and the next day becomes the next day. */
  lemma {:induction false} NextDayToNextDay(g: Date)
    requires Gregorian(g)
    ensures Jalali(ToJalali(g)) && ToJalali(NextGregorian(g)) == NextJalali(ToJalali(g))
  {
    hide DayNumber, FromDayNumber, JalaliNumber, NextJalali, NextGregorian, GregorianMonth, JalaliMonth;
    Positive(g);
    NextDayNumber(g);
    NumberRoundTrip(DayNumber(g));
    NextJalaliNumber(ToJalali(g));
    JalaliRoundTrip(NextJalali(ToJalali(g)));
  }

  /** The order of days is kept, both ways. */
  lemma {:induction false} OrderKept(a: Date, b: Date)
    requires Gregorian(a) && Gregorian(b)
    ensures Before(ToJalali(a), ToJalali(b)) <==> Before(a, b)
    ensures ToJalali(a) == ToJalali(b) <==> a == b
  {
    Positive(a);
    Positive(b);
    NumberRoundTrip(DayNumber(a));
    NumberRoundTrip(DayNumber(b));
    DayNumberOrdered(a, b);
    JalaliOrdered(ToJalali(a), ToJalali(b));
  }

  /**
    The Jalali dates from that of 1 January of year 1 on are the images of one Gregorian date each,
    the earlier of none.
  */
  lemma {:induction false} EveryJalaliDate(j: Date) returns (g: Date)
    requires Jalali(j)
    ensures !Before(j, ToJalali(FIRST)) <==> Gregorian(g) && ToJalali(g) == j
    ensures forall h :: Gregorian(h) && ToJalali(h) == j ==> h == g
  {
    hide DayNumber, FromDayNumber, JalaliNumber;
    g := FIRST;
    if !Before(j, ToJalali(FIRST)) {
      Positive(FIRST);
      NumberRoundTrip(DayNumber(FIRST));
      JalaliOrdered(j, ToJalali(FIRST));
      JalaliRoundTrip(j);
      g := DateOf(JalaliNumber(j));
    }
    forall h | Gregorian(h) && ToJalali(h) == j ensures h == g && !Before(j, ToJalali(FIRST)) {
      Positive(h);
      OrderKept(h, FIRST);
      OrderKept(h, g);
    }
  }

  /** Anchors: the leap day that ends 1403, and Nowruz 1404. */
  lemma {:induction false} KnownDays()
    ensures ToJalali(Date(2025, 3, 20)) == Date(1403, 12, 30)
    ensures ToJalali(Date(2025, 3, 21)) == Date(1404, 1, 1)
  {
    hide FromDayNumber;
    assert DayNumber(Date(2025, 3, 20)) == 1095362;
    assert JalaliNumber(Date(1403, 12, 30)) == 1095362;
    JalaliRoundTrip(Date(1403, 12, 30));
    JalaliRoundTrip(Date(1404, 1, 1));
  }
}
