/**
The calendar of src/detail/rfc3339.cc counts days: day 0 is 1 January 1970, and the date of the next day is the next
date.
 */
module CalendarDays {
  import opened Calendar

  /** The date after t. */
  function NextDate(t: Date): Date {
    if t.d < DaysIn(t.y, t.m) then t.(d := t.d + 1)
    else if t.m < 12 then Date(t.y, t.m + 1, 1)
    else Date(t.y + 1, 1, 1)
  }

  lemma Epoch()
    ensures CivilFromDays(0) == Date(1970, 1, 1)
  {
    assert DaysFromCivil(Date(1970, 1, 1)) == 0;
    DayOfDate(Date(1970, 1, 1));
  }

  /** A year of an era ends where the next one starts, and the last where the next era starts. */
  lemma YearEnds(yoe: int)
    requires 0 <= yoe < 400
    ensures yoe < 399 ==> YearStart(yoe + 1) == YearStart(yoe) + YearDays(yoe)
    ensures yoe == 399 ==> 146097 == YearStart(yoe) + YearDays(yoe)
  {
    var c, r := yoe / 100, yoe % 100;
    var q, t := r / 4, r % 4;
    YearParts(c, q, t);
    if yoe < 399 {
      if t < 3 {
        YearParts(c, q, t + 1);
      } else if q < 24 {
        YearParts(c, q + 1, 0);
      } else {
        YearParts(c + 1, 0, 0);
      }
    }
  }

  lemma NextShown(era: int, yoe: int, mp: int, d: int)
    requires 0 <= yoe < 400 && 0 <= mp <= 11 && 1 <= d <= MonthDays(mp, YearDays(yoe))
    ensures var y := era * 400 + yoe;
            NextDate(Shown(y, mp, d)) == if d < MonthDays(mp, YearDays(yoe)) then Shown(y, mp, d + 1)
                                         else if mp < 11 then Shown(y, mp + 1, 1) else Shown(y + 1, 0, 1)
  {
    hide Leap, YearDays, MonthDays, DaysIn;
    EraYear(era, yoe);
    MonthLengths(era * 400 + yoe, mp);
  }

  /** The next date is a day later. */
  lemma {:induction false} NextDay(era: int, yoe: int, mp: int, d: int)
    requires 0 <= yoe < 400 && 0 <= mp <= 11 && 1 <= d <= MonthDays(mp, YearDays(yoe))
    ensures var t := Shown(era * 400 + yoe, mp, d);
            DaysFromCivil(NextDate(t)) == DaysFromCivil(t) + 1
  {
    hide DaysFromCivil, Shown, NextDate, YearStart, YearDays;
    var y := era * 400 + yoe;
    NextShown(era, yoe, mp, d);
    DaysForm(era, yoe, mp, d);
    if d < MonthDays(mp, YearDays(yoe)) {
      DaysForm(era, yoe, mp, d + 1);
    } else if mp < 11 {
      DaysForm(era, yoe, mp + 1, 1);
    } else {
      YearEnds(yoe);
      if yoe < 399 {
        DaysForm(era, yoe + 1, 0, 1);
      } else {
        DaysForm(era + 1, 0, 0, 1);
        EraStart();
      }
    }
  }

  lemma EraStart()
    ensures YearStart(0) == 0
  {
  }

  lemma NextValid(t: Date)
    requires ValidDate(t)
    ensures ValidDate(NextDate(t))
  {
  }

  /** Days go up by one as dates do, in both directions of the calendar. */
  lemma {:induction false} DaysAreCounted(t: Date)
    requires ValidDate(t)
    ensures DaysFromCivil(NextDate(t)) == DaysFromCivil(t) + 1
    ensures CivilFromDays(DaysFromCivil(t) + 1) == NextDate(t)
  {
    hide YearOfEra, YearStart, YearDays, Leap, DaysIn, CivilFromDays, DaysFromCivil, MonthStart, MonthDays, NextDate;
    var y := if t.m <= 2 then t.y - 1 else t.y;
    FloorEra(y, 400);
    var era := y / 400;
    var yoe := y - era * 400;
    var mp := if t.m > 2 then t.m - 3 else t.m + 9;
    EraYear(era, yoe);
    MonthLengths(y, mp);
    NextDay(era, yoe, mp, t.d);
    NextValid(t);
    DayOfDate(NextDate(t));
  }

  /** The date of the next day is the next date, for every day. */
  lemma DaysGoOn(days: int)
    ensures CivilFromDays(days + 1) == NextDate(CivilFromDays(days))
  {
    hide CivilFromDays, DaysFromCivil, NextDate, ValidDate;
    DateOfDay(days);
    DaysAreCounted(CivilFromDays(days));
  }
}
