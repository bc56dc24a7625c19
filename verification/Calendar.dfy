/**
The proleptic Gregorian calendar as src/detail/rfc3339.cc computes it: days from a civil date,
and the date of a day.
 */
module Calendar {
  import opened Powers

  /** A year, month and day; the year may be any integer. */
  datatype Date = Date(y: int, m: int, d: int)

  predicate Leap(y: int) {
    y % 4 == 0 && (y % 100 != 0 || y % 400 == 0)
  }

  function DaysIn(y: int, m: int): int {
    if m == 2 then if Leap(y) then 29 else 28
    else if m == 4 || m == 6 || m == 9 || m == 11 then 30
    else 31
  }

  predicate ValidDate(t: Date) {
    1 <= t.m <= 12 && 1 <= t.d <= DaysIn(t.y, t.m)
  }

  /** Days from 1970-01-01. */
  function DaysFromCivil(t: Date): int {
    var y := if t.m <= 2 then t.y - 1 else t.y;
    var era := TruncDiv(if y >= 0 then y else y - 399, 400);
    var yoe := y - era * 400;
    var doy := (153 * (if t.m > 2 then t.m - 3 else t.m + 9) + 2) / 5 + t.d - 1;
    var doe := yoe * 365 + yoe / 4 - yoe / 100 + doy;
    era * 146097 + doe - 719468
  }

  /** The date of a day. */
  function CivilFromDays(days: int): Date {
    var z := days + 719468;
    var era := TruncDiv(if z >= 0 then z else z - 146096, 146097);
    var doe := z - era * 146097;
    var yoe := YearOfEra(doe);
    var doy := doe - (365 * yoe + yoe / 4 - yoe / 100);
    var mp := (5 * doy + 2) / 153;
    var d := doy - (153 * mp + 2) / 5 + 1;
    var m := if mp < 10 then mp + 3 else mp - 9;
    Date(yoe + era * 400 + (if m <= 2 then 1 else 0), m, d)
  }

  function YearOfEra(doe: int): int {
    (doe - doe / 1460 + doe / 36524 - doe / 146096) / 365
  }

  /** The first day of a year of an era, which starts in March. */
  function YearStart(yoe: int): int {
    365 * yoe + yoe / 4 - yoe / 100
  }

  /** How many days that year has: its February is the next year's. */
  function YearDays(yoe: int): int {
    if (yoe + 1) % 4 == 0 && ((yoe + 1) % 100 != 0 || (yoe + 1) % 400 == 0) then 366 else 365
  }

  /** The adjustment before a truncating division makes it a floor. */
  lemma FloorEra(x: int, n: nat)
    requires n > 0
    ensures TruncDiv(if x >= 0 then x else x - (n - 1), n) == x / n
    ensures 0 <= x - x / n * n < n
  {
    if x < 0 {
      var q, r := x / n, x % n;
      assert x == q * n + r;
      var a := -(x - (n - 1));
      assert a == (-q) * n + (n - 1 - r);
      DivUnique(a, n, -q, n - 1 - r);
    }
  }

  // ---- Years of an era ----

  /** Four centuries of twenty-five four-year cycles. */
  lemma YearParts(c: int, q: int, t: int)
    requires 0 <= c <= 3 && 0 <= q <= 24 && 0 <= t <= 3
    ensures var y := 100 * c + 4 * q + t;
            && 0 <= y < 400 && YearStart(y) == 36524 * c + 1461 * q + 365 * t
            && YearDays(y) == if t == 3 && (q < 24 || c == 3) then 366 else 365
  {
  }

  /** The shortcut finds the year from the day alone. */
  lemma YearFound(c: int, q: int, t: int, doy: int)
    requires 0 <= c <= 3 && 0 <= q <= 24 && 0 <= t <= 3
    requires 0 <= doy < if t == 3 && (q < 24 || c == 3) then 366 else 365
    ensures var doe := 36524 * c + 1461 * q + 365 * t + doy;
            0 <= doe < 146097 && YearOfEra(doe) == 100 * c + 4 * q + t
  {
    var doe := 36524 * c + 1461 * q + 365 * t + doy;
    var rest := 24 * c + q + 365 * t + doy;
    var over := if rest >= 1460 then 1 else 0;
    var last := if doe == 146096 then 1 else 0;
    DivUnique(doe, 1460, 25 * c + q + over, rest - 1460 * over);
    DivUnique(doe, 36524, c + last, doe - 36524 * (c + last));
    DivUnique(doe, 146096, last, doe - 146096 * last);
    DivUnique(365 * (100 * c + 4 * q + t) + (doy - over), 365, 100 * c + 4 * q + t, doy - over);
  }

  /** Every day of an era is in the year the shortcut finds. */
  lemma YearOfEraIs(doe: int)
    requires 0 <= doe < 146097
    ensures var yoe := YearOfEra(doe);
            0 <= yoe < 400 && YearStart(yoe) <= doe < YearStart(yoe) + YearDays(yoe)
  {
    var c := if doe / 36524 > 3 then 3 else doe / 36524;
    var inCentury := doe - 36524 * c;
    var q := inCentury / 1461;
    var inCycle := inCentury - 1461 * q;
    var t := if inCycle / 365 > 3 then 3 else inCycle / 365;
    var doy := inCycle - 365 * t;
    YearParts(c, q, t);
    YearFound(c, q, t, doy);
  }

  lemma YearOfEraBack(yoe: int, doy: int)
    requires 0 <= yoe < 400 && 0 <= doy < YearDays(yoe)
    ensures 0 <= YearStart(yoe) + doy < 146097 && YearOfEra(YearStart(yoe) + doy) == yoe
  {
    hide YearOfEra, YearStart, YearDays;
    var c, r := yoe / 100, yoe % 100;
    var q, t := r / 4, r % 4;
    assert yoe == 100 * c + 4 * q + t;
    YearParts(c, q, t);
    YearFound(c, q, t, doy);
  }

  // ---- Months of a year ----

  /** The first day of a month, counted from March. */
  function MonthStart(mp: int): int {
    (153 * mp + 2) / 5
  }

  /** How long it is; the last, February, has what is left. */
  function MonthDays(mp: int, yearDays: int): int {
    (if mp == 11 then yearDays else MonthStart(mp + 1)) - MonthStart(mp)
  }

  lemma MonthFound(mp: int, d: int, yearDays: int)
    requires 0 <= mp <= 11 && (yearDays == 365 || yearDays == 366) && 0 <= d < MonthDays(mp, yearDays)
    ensures 0 <= MonthStart(mp) + d < yearDays && (5 * (MonthStart(mp) + d) + 2) / 153 == mp
  {
  }

  lemma MonthOfYear(doy: int, yearDays: int)
    requires (yearDays == 365 || yearDays == 366) && 0 <= doy < yearDays
    ensures var mp := (5 * doy + 2) / 153;
            0 <= mp <= 11 && 0 <= doy - MonthStart(mp) < MonthDays(mp, yearDays)
  {
  }

  /** The months from March are as long as the calendar says. */
  lemma MonthLengths(y: int, mp: int)
    requires 0 <= mp <= 11
    ensures var m := if mp < 10 then mp + 3 else mp - 9;
            var shown := if m <= 2 then y + 1 else y;
            MonthDays(mp, if Leap(y + 1) then 366 else 365) == DaysIn(shown, m)
  {
  }

  /** A year of an era has as many days as its number says. */
  lemma EraYear(era: int, yoe: int)
    requires 0 <= yoe < 400
    ensures YearDays(yoe) == if Leap(era * 400 + yoe + 1) then 366 else 365
  {
    ModShift(era * 100, yoe + 1, 4);
    ModShift(era * 4, yoe + 1, 100);
    ModShift(era, yoe + 1, 400);
  }

  lemma ModShift(k: int, x: nat, n: nat)
    requires n > 0
    ensures (k * n + x) % n == x % n
  {
    var a := k * n + x;
    var q, r := x / n, x % n;
    assert a == (k + q) * n + r;
    if k + q >= 0 {
      DivUnique(a, n, k + q, r);
    } else {
      var b, s := a / n, a % n;
      assert (b - (k + q)) * n == r - s;
      if b > k + q {
        MulLe(1, b - (k + q), n);
      } else if b < k + q {
        MulLe(1, (k + q) - b, n);
      }
    }
  }

  // ---- The two directions ----

  /** A year and month that start in March, as the calendar shows them. */
  function Shown(y: int, mp: int, d: int): Date {
    var m := if mp < 10 then mp + 3 else mp - 9;
    Date(if m <= 2 then y + 1 else y, m, d)
  }

  lemma EraOf(era: int, yoe: int, n: nat)
    requires 0 <= yoe < n
    ensures (era * n + yoe) / n == era
  {
    FloorEra(era * n + yoe, n);
    var q := (era * n + yoe) / n;
    if q < era {
      MulLe(q + 1, era, n);
    } else if q > era {
      MulLe(era + 1, q, n);
    }
  }

  lemma DaysForm(era: int, yoe: int, mp: int, d: int)
    requires 0 <= yoe < 400 && 0 <= mp <= 11
    ensures DaysFromCivil(Shown(era * 400 + yoe, mp, d))
            == era * 146097 + YearStart(yoe) + MonthStart(mp) + d - 1 - 719468
  {
    hide TruncDiv;
    FloorEra(era * 400 + yoe, 400);
    EraOf(era, yoe, 400);
  }

  lemma CivilForm(era: int, yoe: int, mp: int, d: int)
    requires 0 <= yoe < 400 && 0 <= mp <= 11 && 1 <= d <= MonthDays(mp, YearDays(yoe))
    ensures CivilFromDays(era * 146097 + YearStart(yoe) + MonthStart(mp) + d - 1 - 719468)
            == Shown(era * 400 + yoe, mp, d)
  {
    hide TruncDiv, YearOfEra, YearDays, MonthDays;
    YearLength(yoe);
    MonthFound(mp, d - 1, YearDays(yoe));
    var doy := MonthStart(mp) + d - 1;
    YearOfEraBack(yoe, doy);
    var doe := YearStart(yoe) + doy;
    FloorEra(era * 146097 + doe, 146097);
    EraOf(era, doe, 146097);
  }

  lemma YearLength(yoe: int)
    ensures YearDays(yoe) == 365 || YearDays(yoe) == 366
  {
  }

  /** The day of the date of a day is that day, and the date is on the calendar. */
  lemma {:induction false} DateOfDay(days: int)
    ensures ValidDate(CivilFromDays(days)) && DaysFromCivil(CivilFromDays(days)) == days
  {
    hide YearOfEra, YearStart, YearDays, Leap, DaysIn, CivilFromDays, DaysFromCivil, MonthStart, MonthDays;
    var z := days + 719468;
    FloorEra(z, 146097);
    var era := z / 146097;
    var doe := z - era * 146097;
    var yoe := YearOfEra(doe);
    YearOfEraIs(doe);
    YearLength(yoe);
    var doy := doe - YearStart(yoe);
    MonthOfYear(doy, YearDays(yoe));
    var mp := (5 * doy + 2) / 153;
    var d := doy - MonthStart(mp) + 1;
    CivilForm(era, yoe, mp, d);
    DaysForm(era, yoe, mp, d);
    EraYear(era, yoe);
    MonthLengths(era * 400 + yoe, mp);
  }

  /** The date of the day of a date on the calendar is that date. */
  lemma {:induction false} DayOfDate(t: Date)
    requires ValidDate(t)
    ensures CivilFromDays(DaysFromCivil(t)) == t
  {
    hide YearOfEra, YearStart, YearDays, Leap, DaysIn, CivilFromDays, DaysFromCivil, MonthStart, MonthDays;
    var y := if t.m <= 2 then t.y - 1 else t.y;
    FloorEra(y, 400);
    var era := y / 400;
    var yoe := y - era * 400;
    var mp := if t.m > 2 then t.m - 3 else t.m + 9;
    EraYear(era, yoe);
    MonthLengths(y, mp);
    DaysForm(era, yoe, mp, t.d);
    CivilForm(era, yoe, mp, t.d);
  }
}
