/**
 ISO week labels (packages/cli/src/memory.ts). Dates are day numbers of the proleptic
 Gregorian calendar, counted from 1 January 1970 as JavaScript does.
 */
module IsoWeek {
  import opened Text

  // ------------------------------------------------------------------ the calendar

  predicate Leap(y: int) {
    y % 4 == 0 && (y % 100 != 0 || y % 400 == 0)
  }

  /** The day number of 1 January. */
  function YearStart(y: int): int {
    365 * (y - 1970) + (y - 1) / 4 - (y - 1) / 100 + (y - 1) / 400 - 477
  }

  lemma YearLength(y: int)
    ensures YearStart(y + 1) - YearStart(y) == if Leap(y) then 366 else 365
  {
    Fourths(y);
    Hundredths(y);
    FourHundredths(y);
  }

  lemma Fourths(y: int)
    ensures y / 4 - (y - 1) / 4 == if y % 4 == 0 then 1 else 0
  {}

  lemma Hundredths(y: int)
    ensures y / 100 - (y - 1) / 100 == if y % 100 == 0 then 1 else 0
  {}

  lemma FourHundredths(y: int)
    ensures y / 400 - (y - 1) / 400 == if y % 400 == 0 then 1 else 0
  {}

  /**
   Day 0 is Thursday, 1 January 1970; a year has 365 days, a leap year 366, and the weekdays follow one another.
   */
  lemma CalendarAnchors(y: int, day: int)
    ensures YearStart(1970) == 0 && Weekday(0) == 4
    ensures YearStart(y + 1) == YearStart(y) + if y % 4 == 0 && (y % 100 != 0 || y % 400 == 0) then 366 else 365
    ensures Weekday(day + 1) == if Weekday(day) == 7 then 1 else Weekday(day) + 1
  {
    hide Weekday;
    YearLength(y);
    DaysFollow(day);
  }

  lemma DaysFollow(day: int)
    ensures Weekday(0) == 4 && Weekday(day + 1) == if Weekday(day) == 7 then 1 else Weekday(day) + 1
  {}

  lemma {:induction false} YearStartGrows(a: int, b: int)
    requires a <= b
    ensures YearStart(a) + 365 * (b - a) <= YearStart(b)
    decreases b - a
  {
    if a < b {
      YearLength(a);
      YearStartGrows(a + 1, b);
    }
  }

  /** The year a day lies in, found from `y` on. */
  function YearFrom(day: int, y: int): (year: int)
    ensures YearStart(year) <= day < YearStart(year + 1)
    decreases if day < YearStart(y) then YearStart(y) - day else if day >= YearStart(y + 1) then day - YearStart(y)
        else 0
  {
    YearLength(y);
    YearLength(y - 1);
    if day < YearStart(y) then YearFrom(day, y - 1)
    else if day >= YearStart(y + 1) then YearFrom(day, y + 1)
    else y
  }

  /** `getUTCFullYear`. */
  function YearOf(day: int): (year: int)
    ensures YearStart(year) <= day < YearStart(year + 1)
  {
    YearFrom(day, 1970)
  }

  /** Monday is 1 and Sunday 7, as `getUTCDay() || 7` has it. */
  function Weekday(day: int): (w: int)
    ensures 1 <= w <= 7
  {
    (day + 3) % 7 + 1
  }

  function MondayOf(day: int): (monday: int)
    ensures monday <= day < monday + 7 && Weekday(monday) == 1
  {
    day - (Weekday(day) - 1)
  }

  lemma MondayMonotone(a: int, b: int)
    requires a <= b
    ensures MondayOf(a) <= MondayOf(b)
  {}

  // ------------------------------------------- section 2.2.10 of ISO 8601:2004

  /** The Monday of week 1: the week that holds 4 January. */
  function WeekOne(y: int): int { MondayOf(YearStart(y) + 3) }

  /** The calendar's own definition: `day` lies in week `w` of the ISO year `y`. */
  predicate InIsoWeek(day: int, y: int, w: int) {
    1 <= w && WeekOne(y) + 7 * (w - 1) <= day < WeekOne(y) + 7 * w && day < WeekOne(y + 1)
  }

  lemma {:induction false} WeekOneGrows(a: int, b: int)
    requires a < b
    ensures WeekOne(a) < WeekOne(b)
  {
    YearStartGrows(a, b);
    MondayMonotone(YearStart(a) + 10, YearStart(b) + 3);
  }

  lemma IsoWeekUnique(day: int, y: int, w: int, y': int, w': int)
    requires InIsoWeek(day, y, w) && InIsoWeek(day, y', w')
    ensures y == y' && w == w'
  {
    if y < y' {
      if y + 1 < y' { WeekOneGrows(y + 1, y'); }
    } else if y' < y {
      if y' + 1 < y { WeekOneGrows(y' + 1, y); }
    }
  }

  // ------------------------------------------------------------------ the code

  /** `Date.UTC` reads a year from 0 to 99 as 1900 to 1999. */
  function UtcYear(y: int): int { if 0 <= y <= 99 then 1900 + y else y }

  /** `Date.UTC(d.getUTCFullYear(), d.getUTCMonth(), d.getUTCDate())`; year 0 is leap and 1900 is not. */
  function MidnightOf(day: int): int {
    var y := YearOf(day);
    var offset := day - YearStart(y);
    YearStart(UtcYear(y)) + if y == 0 && offset >= 60 then offset - 1 else offset
  }

  function ThursdayOf(day: int): int { day + 4 - Weekday(day) }

  /** `Math.ceil(n / 7)`. */
  function CeilSevenths(n: int): int { (n + 6) / 7 }

  function CodeYear(day: int): int { YearOf(ThursdayOf(MidnightOf(day))) }

  function CodeWeek(day: int): int { CeilSevenths(ThursdayOf(MidnightOf(day)) - YearStart(UtcYear(CodeYear(day))) + 1) }

  /** `padStart(2, '0')`. */
  function Padded(s: string): string { PadStart(s, 2) }

  function LabelText(y: int, w: int): string { IntText(y) + "-W" + Padded(IntText(w)) }

  /** `isoWeek`, moving its local date in place. */
  method IsoWeekLabel(day: int) returns (text: string)
    ensures text == LabelText(CodeYear(day), CodeWeek(day))
    ensures PlainYears(day) ==> exists y, w :: InIsoWeek(day, y, w) && text == LabelText(y, w)
  {
    ComputedExactlyInPlainYears(day);
    hide YearFrom, YearStart, LabelText, InIsoWeek, PlainYears;
    var t := MidnightOf(day);
    t := t + 4 - Weekday(t);
    var year := YearOf(t);
    var week := CeilSevenths(t - YearStart(UtcYear(year)) + 1);
    text := LabelText(year, week);
  }

  /** The date and the Thursday of its week both lie outside the years 0 to 99. */
  predicate PlainYears(day: int) {
    !(0 <= YearOf(day) <= 99) && !(0 <= YearOf(ThursdayOf(day)) <= 99)
  }

  lemma MondayForm(day: int)
    ensures MondayOf(day) == (day + 3) / 7 * 7 - 3
  {}

  /** Counting sevenths from 1 January to a Thursday counts the Mondays from week 1 on. */
  lemma ThursdayCounts(start: int, t: int)
    requires Weekday(t) == 4 && start <= t
    ensures var w := CeilSevenths(t - start + 1); 1 <= w && MondayOf(start + 3) + 7 * (w - 1) == t - 3
  {
    MondayForm(start + 3);
    MondayForm(t);
  }

  lemma ThursdayDecides(day: int)
    ensures var y := YearOf(ThursdayOf(day)); InIsoWeek(day, y, CeilSevenths(ThursdayOf(day) - YearStart(y) + 1))
  {
    var t := ThursdayOf(day);
    var y := YearOf(t);
    ThursdaysWeek(day);
    hide YearStart, YearOf, MondayOf, Weekday, ThursdayOf, CeilSevenths;
    ThursdayCounts(YearStart(y), t);
    MondayMonotone(t + 4, YearStart(y + 1) + 3);
  }

  /** A day's week runs from three days before its Thursday to three after. */
  lemma ThursdaysWeek(day: int)
    ensures var t := ThursdayOf(day); Weekday(t) == 4 && t - 3 <= day <= t + 3 && MondayOf(t + 4) == t + 4
  {}

  lemma YearBounds(day: int)
    ensures 0 <= YearOf(day) ==> YearStart(0) <= day
    ensures YearOf(day) <= 99 ==> day < YearStart(100)
    ensures 100 <= YearOf(day) ==> YearStart(100) <= day
    ensures YearOf(day) < 0 ==> day < YearStart(0)
  {
    var y := YearOf(day);
    if 0 <= y { YearStartGrows(0, y); } else { YearStartGrows(y + 1, 0); }
    if y <= 99 { YearStartGrows(y + 1, 100); } else { YearStartGrows(100, y); }
  }

  /** Where the years 0 to 99 are read as 1900 to 1999, the computed year or week is not the calendar's. */
  lemma OldYearsMisread(day: int)
    requires !PlainYears(day)
    ensures !InIsoWeek(day, CodeYear(day), CodeWeek(day))
  {
    if 0 <= YearOf(day) <= 99 {
      OldDatesMisread(day);
    } else {
      OldThursdaysMisread(day);
    }
  }

  /** A date of the years 0 to 99 gets a year of 1899 or later. */
  lemma OldDatesMisread(day: int)
    requires 0 <= YearOf(day) <= 99
    ensures !InIsoWeek(day, CodeYear(day), CodeWeek(day))
  {
    var y := YearOf(day);
    YearBounds(day);
    MovedYear(day);
    hide YearFrom, CodeYear, CodeWeek, YearOf;
    WeekOneGrows(101, CodeYear(day));
    YearLength(100);
  }

  lemma MovedYear(day: int)
    requires 0 <= YearOf(day) <= 99
    ensures CodeYear(day) >= 1899
  {
    hide YearFrom;
    var y := YearOf(day);
    YearLength(y);
    YearLength(1900 + y);
    YearStartGrows(y, 1900 + y);
    YearStartGrows(1900, 1900 + y);
    assert MidnightOf(day) >= YearStart(1900);
    hide MidnightOf;
    var t := ThursdayOf(MidnightOf(day));
    if YearOf(t) < 1899 {
      YearStartGrows(YearOf(t) + 1, 1899);
      YearLength(1899);
    }
  }

  /** Where only the Thursday lies in those years, its week counts from 1900 years too late. */
  lemma OldThursdaysMisread(day: int)
    requires !(0 <= YearOf(day) <= 99) && 0 <= YearOf(ThursdayOf(day)) <= 99
    ensures !InIsoWeek(day, CodeYear(day), CodeWeek(day))
  {
    var t := ThursdayOf(day);
    YearBounds(t);
    hide YearFrom;
    assert MidnightOf(day) == day;
    hide MidnightOf, YearOf;
    YearStartGrows(99, 1900);
    YearStartGrows(100, 1900 + YearOf(t));
    assert CodeWeek(day) <= 0;
  }

  lemma PlainComputes(day: int)
    requires PlainYears(day)
    ensures CodeYear(day) == YearOf(ThursdayOf(day))
    ensures CodeWeek(day) == CeilSevenths(ThursdayOf(day) - YearStart(YearOf(ThursdayOf(day))) + 1)
  {
    hide YearFrom, CeilSevenths;
    assert MidnightOf(day) == day;
    hide YearStart, MidnightOf;
  }

  /**
   The computed year and week are the calendar's if and only if neither the date nor the
   Thursday of its week lies in the years 0 to 99.
   */
  lemma ComputedExactlyInPlainYears(day: int)
    ensures InIsoWeek(day, CodeYear(day), CodeWeek(day)) <==> PlainYears(day)
  {
    hide InIsoWeek, CodeYear, CodeWeek, PlainYears, YearOf, CeilSevenths;
    if PlainYears(day) {
      PlainComputes(day);
      ThursdayDecides(day);
    } else {
      OldYearsMisread(day);
    }
  }

  lemma FiftyThreeArithmetic(start: int, length: int)
    requires 365 <= length <= 366
    ensures MondayOf(start + 3) + 364 < MondayOf(start + length + 3) <==>
        Weekday(start) == 4 || (length == 366 && Weekday(start) == 3)
    ensures MondayOf(start + length + 3) <= MondayOf(start + 3) + 371
  {
    MondayForm(start + 3);
    MondayForm(start + length + 3);
  }

  /**
   No year has a week 54, and week 53 exists exactly in years starting on Thursday or leap years starting on
   Wednesday.
   */
  lemma WeekFiftyThree(y: int)
    ensures (exists day :: InIsoWeek(day, y, 53)) <==>
        Weekday(YearStart(y)) == 4 || (Leap(y) && Weekday(YearStart(y)) == 3)
    ensures forall day, w :: InIsoWeek(day, y, w) ==> 1 <= w <= 53
  {
    YearLength(y);
    hide YearStart, Leap;
    FiftyThreeArithmetic(YearStart(y), YearStart(y + 1) - YearStart(y));
    hide MondayOf, Weekday;
    var last := WeekOne(y) + 364;
    if last < WeekOne(y + 1) {
      assert InIsoWeek(last, y, 53);
    }
  }

  lemma {:induction false} LeadingDigit(n: nat)
    requires 1 <= n
    ensures Digits(n)[0] != '0'
  {
    if n >= 10 {
      LeadingDigit(n / 10);
      assert Digits(n)[0] == Digits(n / 10)[0];
    }
  }

  lemma ZeroFirst(n: int)
    ensures IntText(n)[0] == '0' <==> n == 0
  {
    if n > 0 { LeadingDigit(n); }
  }

  lemma PaddedForm(s: string)
    requires s != []
    ensures Padded(s) == if |s| == 1 then "0" + s else s
  {
    assert |s| == 1 ==> PadStart(s, 1) == s;
  }

  lemma PaddedInjective(a: int, b: int)
    requires Padded(IntText(a)) == Padded(IntText(b))
    ensures a == b
  {
    ZeroFirst(a);
    ZeroFirst(b);
    var s, t := IntText(a), IntText(b);
    PaddedForm(s);
    PaddedForm(t);
    hide IntText, Padded;
    assert |s| == 1 ==> Padded(s)[0] == '0' && Padded(s)[1..] == s;
    assert |t| == 1 ==> Padded(t)[0] == '0' && Padded(t)[1..] == t;
    assert IntText(0) == "0" by { IntTextOfZero(); }
    IntTextInjective(a, b);
  }

  lemma IntTextOfZero()
    ensures IntText(0) == "0"
  {}

  lemma NoLetters(n: int)
    ensures 'W' !in IntText(n) && 'W' !in Padded(IntText(n))
  {}

  /** A label has one W, and it stands after the year. */
  lemma OneLetter(y: int, w: int, i: nat)
    requires i < |LabelText(y, w)|
    ensures LabelText(y, w)[i] == 'W' <==> i == |IntText(y)| + 1
  {
    NoLetters(y);
    NoLetters(w);
    hide IntText, Padded;
    var s, k := LabelText(y, w), |IntText(y)|;
    assert i < k ==> s[i] in IntText(y);
    assert k + 2 <= i ==> s[i] in Padded(IntText(w));
  }

  /** Whatever year and week are computed, right or wrong, the label tells them apart. */
  lemma LabelInjective(y: int, w: int, y': int, w': int)
    requires LabelText(y, w) == LabelText(y', w')
    ensures y == y' && w == w'
  {
    var k, k' := |IntText(y)|, |IntText(y')|;
    OneLetter(y, w, k + 1);
    OneLetter(y', w', k + 1);
    var s := LabelText(y, w);
    assert s[..k] == IntText(y) && s[..k'] == IntText(y');
    assert s[k + 2..] == Padded(IntText(w)) && s[k' + 2..] == Padded(IntText(w'));
    IntTextInjective(y, y');
    PaddedInjective(w, w');
  }

  function LabelOf(day: int): string { LabelText(CodeYear(day), CodeWeek(day)) }

  /** The years whose dates `Date.UTC` moves to 1900 to 1999. */
  predicate Moved(day: int) { 0 <= YearOf(day) <= 99 }

  lemma MovedExactlyWhen(day: int)
    ensures MidnightOf(day) == day <==> !Moved(day)
  {
    hide YearFrom;
    var y := YearOf(day);
    if Moved(day) {
      YearBounds(day);
      YearStartGrows(100, 1900);
      YearStartGrows(1900, 1900 + y);
      hide YearStart;
    }
  }

  lemma ThursdayForm(day: int)
    ensures ThursdayOf(day) == MondayOf(day) + 3 && Weekday(ThursdayOf(day)) == 4
  {}

  lemma SameSevenths(s: int, t: int, start: int)
    requires Weekday(s) == 4 && Weekday(t) == 4 && CeilSevenths(s - start + 1) == CeilSevenths(t - start + 1)
    ensures s == t
  {}

  /**
   For any two dates, the labels are equal exactly when the dates the code makes of them share a
   Monday-to-Sunday week; so outside the moved years exactly when the dates themselves do. A label
   the calendar shares has a week from 1 to 53.
   */
  lemma SameLabelExactlyInOneWeek(a: int, b: int)
    ensures LabelOf(a) == LabelOf(b) <==> MondayOf(MidnightOf(a)) == MondayOf(MidnightOf(b))
    ensures !Moved(a) && !Moved(b) ==> (LabelOf(a) == LabelOf(b) <==> MondayOf(a) == MondayOf(b))
    ensures PlainYears(a) ==> 1 <= CodeWeek(a) <= 53
  {
    MovedExactlyWhen(a);
    MovedExactlyWhen(b);
    ComputedExactlyInPlainYears(a);
    WeekFiftyThree(CodeYear(a));
    ThursdayForm(MidnightOf(a));
    ThursdayForm(MidnightOf(b));
    hide MidnightOf, YearStart, YearOf, LabelText, MondayOf, Weekday, ThursdayOf, CeilSevenths, InIsoWeek, PlainYears,
        Moved;
    var s, t := ThursdayOf(MidnightOf(a)), ThursdayOf(MidnightOf(b));
    if LabelOf(a) == LabelOf(b) {
      LabelInjective(CodeYear(a), CodeWeek(a), CodeYear(b), CodeWeek(b));
      SameSevenths(s, t, YearStart(UtcYear(CodeYear(a))));
    }
  }

  // ------------------------------------------------------------------ the week before

  /** The Monday `previousWeek` names. */
  function MondayNamed(now: int): int { MidnightOf(now) - Weekday(now) + 1 - 7 }

  /**
   `previousWeek` names the week before, by its Monday and by the calendar's label, if and only if
   `now` lies outside the years 0 to 99 and so do that Monday and the Thursday after it.
   */
  lemma PreviousWeekExactlyWhen(now: int)
    ensures MondayNamed(now) == MondayOf(now) - 7 <==> !Moved(now)
    ensures (exists y, w :: InIsoWeek(MondayNamed(now), y, w) && LabelOf(MondayNamed(now)) == LabelText(y, w)) <==>
              PlainYears(MondayNamed(now))
  {
    MovedExactlyWhen(now);
    var monday := MondayNamed(now);
    ComputedExactlyInPlainYears(monday);
    hide MidnightOf, YearOf, YearStart, LabelText, InIsoWeek, PlainYears;
    if y, w :| InIsoWeek(monday, y, w) && LabelOf(monday) == LabelText(y, w) {
      LabelInjective(CodeYear(monday), CodeWeek(monday), y, w);
    }
    if PlainYears(monday) {
      assert InIsoWeek(monday, CodeYear(monday), CodeWeek(monday))
          && LabelOf(monday) == LabelText(CodeYear(monday), CodeWeek(monday));
    }
  }

  // ------------------------------------------------------------------ the text of a day

  function MonthLength(y: int, m: int): int {
    if m == 2 then (if Leap(y) then 29 else 28) else if m in {4, 6, 9, 11} then 30 else 31
  }

  /** The days of a year before its month `m`; month 13 is the next January. */
  function DaysBefore(y: int, m: int): int
    requires 1 <= m <= 13
  {
    if m == 1 then 0 else DaysBefore(y, m - 1) + MonthLength(y, m - 1)
  }

  lemma TwelveMonths(y: int)
    ensures DaysBefore(y, 13) == YearStart(y + 1) - YearStart(y)
  {
    YearLength(y);
    hide YearStart, Leap;
    assert DaysBefore(y, 1) == 0 && DaysBefore(y, 2) == 31;
    assert DaysBefore(y, 3) == 31 + MonthLength(y, 2);
    assert DaysBefore(y, 4) == DaysBefore(y, 3) + 31;
    assert DaysBefore(y, 5) == DaysBefore(y, 4) + 30;
    assert DaysBefore(y, 6) == DaysBefore(y, 5) + 31;
    assert DaysBefore(y, 7) == DaysBefore(y, 6) + 30;
    assert DaysBefore(y, 8) == DaysBefore(y, 7) + 31;
    assert DaysBefore(y, 9) == DaysBefore(y, 8) + 31;
    assert DaysBefore(y, 10) == DaysBefore(y, 9) + 30;
    assert DaysBefore(y, 11) == DaysBefore(y, 10) + 31;
    assert DaysBefore(y, 12) == DaysBefore(y, 11) + 30;
    assert DaysBefore(y, 13) == DaysBefore(y, 12) + 31;
  }

  function MonthAt(y: int, offset: int, m: int): (r: int)
    requires 1 <= m <= 12 && DaysBefore(y, m) <= offset < DaysBefore(y, 13)
    ensures 1 <= r <= 12 && DaysBefore(y, r) <= offset < DaysBefore(y, r + 1)
    decreases 12 - m
  {
    if offset < DaysBefore(y, m + 1) then m else MonthAt(y, offset, m + 1)
  }

  /** `getUTCMonth() + 1`. */
  function MonthOf(day: int): (m: int)
    ensures 1 <= m <= 12
  {
    TwelveMonths(YearOf(day));
    MonthAt(YearOf(day), day - YearStart(YearOf(day)), 1)
  }

  /** `getUTCDate`. */
  function DateOf(day: int): (d: int)
    ensures 1 <= d <= MonthLength(YearOf(day), MonthOf(day))
  {
    TwelveMonths(YearOf(day));
    day - YearStart(YearOf(day)) - DaysBefore(YearOf(day), MonthOf(day)) + 1
  }

  function DayFrom(y: int, m: int, d: int): int
    requires 1 <= m <= 12
  {
    YearStart(y) + DaysBefore(y, m) + d - 1
  }

  lemma {:induction false} DaysBeforeGrows(y: int, m: int, n: int)
    requires 1 <= m <= n <= 13
    ensures DaysBefore(y, m) + 28 * (n - m) <= DaysBefore(y, n)
    decreases n - m
  {
    if m < n { DaysBeforeGrows(y, m, n - 1); }
  }

  lemma YearOfIs(day: int, y: int)
    requires YearStart(y) <= day < YearStart(y + 1)
    ensures YearOf(day) == y
  {
    var found := YearOf(day);
    hide YearOf, YearStart;
    if found < y { YearStartGrows(found + 1, y); }
    if y < found { YearStartGrows(y + 1, found); }
  }

  /** A year, a month and a day of it are those of their day number. */
  lemma DayFromIs(y: int, m: int, d: int)
    requires 1 <= m <= 12 && 1 <= d <= MonthLength(y, m)
    ensures YearOf(DayFrom(y, m, d)) == y && MonthOf(DayFrom(y, m, d)) == m && DateOf(DayFrom(y, m, d)) == d
  {
    var day := DayFrom(y, m, d);
    WithinYear(y, m, d);
    YearOfIs(day, y);
    hide YearStart, YearOf, MonthLength, Leap;
    MonthIs(y, day - YearStart(y), m, MonthOf(day));
  }

  lemma WithinYear(y: int, m: int, d: int)
    requires 1 <= m <= 12 && 1 <= d <= MonthLength(y, m)
    ensures DaysBefore(y, m) <= DaysBefore(y, m) + d - 1 < DaysBefore(y, m + 1)
    ensures YearStart(y) <= DayFrom(y, m, d) < YearStart(y + 1)
  {
    TwelveMonths(y);
    hide YearStart, MonthLength;
    assert DaysBefore(y, m + 1) == DaysBefore(y, m) + MonthLength(y, m);
    DaysBeforeGrows(y, 1, m);
    DaysBeforeGrows(y, m + 1, 13);
  }

  /** A day of the year lies in one month. */
  lemma MonthIs(y: int, offset: int, m: int, n: int)
    requires 1 <= m <= 12 && 1 <= n <= 12
    requires DaysBefore(y, m) <= offset < DaysBefore(y, m + 1) && DaysBefore(y, n) <= offset < DaysBefore(y, n + 1)
    ensures m == n
  {
    hide DaysBefore;
    if n < m { DaysBeforeGrows(y, n + 1, m); }
    if m < n { DaysBeforeGrows(y, m + 1, n); }
  }

  lemma DayIsFrom(day: int)
    ensures DayFrom(YearOf(day), MonthOf(day), DateOf(day)) == day
  {}

  /** The year as `toISOString` writes it: four digits, or a sign and six. */
  function YearText(y: int): (s: string)
    ensures |s| >= 4 && (0 <= y <= 9999 <==> IsDigit(s[0])) && (!(0 <= y <= 9999) ==> |s| >= 7)
  {
    if 0 <= y <= 9999 then PadStart(Digits(y), 4)
    else if y < 0 then "-" + PadStart(Digits(-y), 6)
    else "+" + PadStart(Digits(y), 6)
  }

  function TwoDigits(n: nat): (s: string)
    ensures |s| >= 2
  {
    PadStart(Digits(n), 2)
  }

  function MonthText(day: int): string { YearText(YearOf(day)) + "-" + TwoDigits(MonthOf(day)) }

  /** `toISOString` of a midnight. */
  function IsoText(day: int): string { MonthText(day) + "-" + TwoDigits(DateOf(day)) + "T00:00:00.000Z" }

  /** `dayOf`: its first ten characters. */
  function DayText(day: int): string { IsoText(day)[..10] }

  /** The text is that of this day and of no other. */
  ghost predicate NamesDay(text: string, day: int) {
    forall other: int :: DayText(other) == text <==> other == day
  }

  lemma TwoDigitsAre(n: nat)
    requires n <= 31
    ensures |TwoDigits(n)| == 2
  {
    FewDigits(n, 2);
  }

  /** Where the year has four digits, the ten characters are year, month and day. */
  lemma PlainDayText(day: int)
    requires 0 <= YearOf(day) <= 9999
    ensures |YearText(YearOf(day))| == 4 && |TwoDigits(MonthOf(day))| == 2
    ensures DayText(day) == YearText(YearOf(day)) + "-" + TwoDigits(MonthOf(day)) + "-" + TwoDigits(DateOf(day))
  {
    FourDigitYear(YearOf(day));
    TwoDigitsAre(MonthOf(day));
    TwoDigitsAre(DateOf(day));
    hide YearText, TwoDigits, YearOf, MonthOf, DateOf;
    var date := MonthText(day) + "-" + TwoDigits(DateOf(day));
    assert |date| == 10 && IsoText(day) == date + "T00:00:00.000Z";
  }

  /** From one month's first day to the next there are the days of the month, in a leap year 29 in February. */
  lemma MonthsSpelled(y: int, m: int)
    requires 1 <= m <= 12
    ensures DayFrom(1970, 1, 1) == 0
    ensures var first, next := DayFrom(y, m, 1), if m == 12 then DayFrom(y + 1, 1, 1) else DayFrom(y, m + 1, 1);
            next - first == if m == 2 && y % 4 == 0 && (y % 100 != 0 || y % 400 == 0) then 29
                            else [31, 28, 31, 30, 31, 30, 31, 31, 30, 31, 30, 31][m - 1]
  {
    TwelveMonths(y);
    hide YearStart;
    assert DaysBefore(y, m + 1) == DaysBefore(y, m) + MonthLength(y, m);
    CalendarAnchors(y, 0);
  }

  lemma TwoDigitsSpelled(n: nat)
    requires n < 100
    ensures TwoDigits(n) == [DigitOf(n / 10), DigitOf(n % 10)]
  {
    if n < 10 { assert PadStart(Digits(n), 1) == Digits(n); } else { assert Digits(n / 10) == [DigitOf(n / 10)]; }
  }

  /** The label of a week, digit by digit. */
  lemma LabelSpelled(y: nat, w: nat)
    requires w < 100
    ensures LabelText(y, w) == Digits(y) + "-W" + [DigitOf(w / 10), DigitOf(w % 10)]
  {
    TwoDigitsSpelled(w);
  }

  /** The ten characters of a date. */
  lemma DayTextSpelled(y: int, m: int, d: int)
    requires 0 <= y <= 9999 && 1 <= m <= 12 && 1 <= d <= MonthLength(y, m)
    ensures DayText(DayFrom(y, m, d)) ==
              [DigitOf(y / 1000), DigitOf(y / 100 % 10), DigitOf(y / 10 % 10), DigitOf(y % 10), '-',
               DigitOf(m / 10), DigitOf(m % 10), '-', DigitOf(d / 10), DigitOf(d % 10)]
  {
    hide DayFrom, DayText, Digits, DigitOf;
    DayFromIs(y, m, d);
    PlainDayText(DayFrom(y, m, d));
    TwoDigitsSpelled(m);
    TwoDigitsSpelled(d);
    FourDigitsSpelled(y);
    hide YearOf, MonthOf, DateOf, YearText, TwoDigits, MonthLength;
  }

  lemma FourDigitsSpelled(y: int)
    requires 0 <= y <= 9999
    ensures YearText(y) == [DigitOf(y / 1000), DigitOf(y / 100 % 10), DigitOf(y / 10 % 10), DigitOf(y % 10)]
  {
    DigitsOfThousands(y);
    var s := Digits(y);
    if |s| < 4 {
      assert PadStart(s, |s|) == s;
      assert |s| == 3 ==> PadStart(s, 4) == "0" + s;
      assert |s| == 2 ==> PadStart(s, 3) == "0" + s && PadStart(s, 4) == "0" + ("0" + s);
      assert |s| == 1 ==> PadStart(s, 2) == "0" + s && PadStart(s, 3) == "0" + ("0" + s);
      assert |s| == 1 ==> PadStart(s, 4) == "0" + ("0" + ("0" + s));
    }
  }

  lemma DigitsOfThousands(y: nat)
    requires y <= 9999
    ensures Digits(y) ==
              if y < 10 then [DigitOf(y)]
              else if y < 100 then [DigitOf(y / 10), DigitOf(y % 10)]
              else if y < 1000 then [DigitOf(y / 100), DigitOf(y / 10 % 10), DigitOf(y % 10)]
              else [DigitOf(y / 1000), DigitOf(y / 100 % 10), DigitOf(y / 10 % 10), DigitOf(y % 10)]
  {
    assert y / 10 / 10 == y / 100 && y / 100 / 10 == y / 1000;
  }

  lemma FourDigitYear(y: int)
    requires 0 <= y <= 9999
    ensures |YearText(y)| == 4
  {
    assert Pow10(4) == 10000;
    FewDigits(y, 4);
  }

  lemma PlainDayTextInjective(a: int, b: int)
    requires 0 <= YearOf(a) <= 9999 && 0 <= YearOf(b) <= 9999 && DayText(a) == DayText(b)
    ensures a == b
  {
    PlainDayText(a);
    PlainDayText(b);
    var y, y', m, m', d, d' := YearOf(a), YearOf(b), MonthOf(a), MonthOf(b), DateOf(a), DateOf(b);
    hide YearOf, MonthOf, DateOf, DayText, YearText, TwoDigits, DayFrom;
    SameFields(YearText(y), TwoDigits(m), TwoDigits(d), YearText(y'), TwoDigits(m'), TwoDigits(d'));
    SameNumbers(y, m, d, y', m', d');
    DayIsFrom(a);
    DayIsFrom(b);
  }

  lemma SameFields(y: string, m: string, d: string, y': string, m': string, d': string)
    requires |y| == |y'| == 4 && |m| == |m'| == 2 && y + "-" + m + "-" + d == y' + "-" + m' + "-" + d'
    ensures y == y' && m == m' && d == d'
  {
    var s, t := y + "-" + m + "-" + d, y' + "-" + m' + "-" + d';
    assert y == s[..4] && y' == t[..4] && m == s[5..7] && m' == t[5..7] && d == s[8..] && d' == t[8..];
  }

  lemma SameNumbers(y: int, m: nat, d: nat, y': int, m': nat, d': nat)
    requires 0 <= y <= 9999 && 0 <= y' <= 9999
    requires YearText(y) == YearText(y') && TwoDigits(m) == TwoDigits(m') && TwoDigits(d) == TwoDigits(d')
    ensures y == y' && m == m' && d == d'
  {
    PadStartInjective(y, y', 4);
    PadStartInjective(m, m', 2);
    PadStartInjective(d, d', 2);
  }

  /** Where the year has a sign and six digits, the day is cut off: another day of the month has the same text. */
  lemma FarDayText(day: int)
    requires !(0 <= YearOf(day) <= 9999)
    ensures exists other :: other != day && DayText(other) == DayText(day)
  {
    var y, m, d := YearOf(day), MonthOf(day), DateOf(day);
    var other := DayFrom(y, m, if d == 1 then 2 else 1);
    DayFromIs(y, m, if d == 1 then 2 else 1);
    hide YearOf, MonthOf, DateOf, DayFrom, YearText, TwoDigits;
    assert |MonthText(day)| >= 10 && MonthText(other) == MonthText(day);
    assert DayText(day) == MonthText(day)[..10] && DayText(other) == MonthText(other)[..10];
  }

  /** Far years keep a sign, six digits and the month; the day is cut off. */
  lemma FarDayTextSpelled(y: int, m: int, d: int)
    requires -999999 <= y < 0 || 9999 < y <= 999999
    requires 1 <= m <= 12 && 1 <= d <= MonthLength(y, m)
    ensures DayText(DayFrom(y, m, d)) ==
              (if y < 0 then "-" + PadStart(Digits(-y), 6) else "+" + PadStart(Digits(y), 6))
              + "-" + [DigitOf(m / 10), DigitOf(m % 10)]
  {
    hide DayFrom, Digits, DigitOf, PadStart;
    DayFromIs(y, m, d);
    TwoDigitsSpelled(m);
    SixDigits(if y < 0 then -y else y);
    hide YearOf, MonthOf, DateOf, TwoDigits, MonthLength;
    assert |YearText(y)| == 7 && |MonthText(DayFrom(y, m, d))| == 10;
  }

  lemma SixDigits(n: nat)
    requires n <= 999999
    ensures |PadStart(Digits(n), 6)| == 6
  {
    FewDigits(n, 6);
  }

  /**
   `Date.UTC` of a date's own year, month and day: a year from 0 to 99 is read as 1900 to 1999, and
   29 February of the year 0 as the day after 28 February 1900.
   */
  lemma MidnightSpelled(y: int, m: int, d: int)
    requires 1 <= m <= 12 && 1 <= d <= MonthLength(y, m)
    ensures MidnightOf(DayFrom(y, m, d)) == DayFrom(if 0 <= y <= 99 then 1900 + y else y, m, d)
  {
    hide YearOf, YearStart, MonthOf, DateOf, DaysBefore, MonthLength, Leap;
    DayFromIs(y, m, d);
    SameMonths(y, 1900 + y, m);
    if y == 0 { YearZeroOffset(m, d); }
    if 0 <= y <= 99 { LeapMoved(y); }
  }

  lemma LeapMoved(y: int)
    requires 0 <= y <= 99
    ensures (Leap(y) <==> y % 4 == 0) && (Leap(1900 + y) <==> y % 4 == 0 && y != 0)
  {}

  lemma YearZeroOffset(m: int, d: int)
    requires 1 <= m <= 12 && 1 <= d <= MonthLength(0, m)
    ensures DaysBefore(0, m) + d - 1 >= 60 <==> m > 2
  {
    assert DaysBefore(0, 2) == 31 && DaysBefore(0, 3) == 31 + MonthLength(0, 2);
    hide DaysBefore;
    if m > 2 { DaysBeforeGrows(0, 3, m); } else { DaysBeforeGrows(0, 1, m); }
  }

  /** The days before a month differ between two years only after February, by whether they are leap. */
  lemma {:induction false} SameMonths(y: int, z: int, m: int)
    requires 1 <= m <= 13
    ensures DaysBefore(y, m) - DaysBefore(z, m) ==
              if m <= 2 then 0 else (if Leap(y) then 1 else 0) - (if Leap(z) then 1 else 0)
    decreases m
  {
    hide Leap;
    if m > 1 { SameMonths(y, z, m - 1); }
  }

  lemma DayTextStarts(day: int)
    ensures |DayText(day)| == 10 && DayText(day)[0] == YearText(YearOf(day))[0]
  {}

  /** `dayOf` names a day if and only if its year is one of 0 to 9999. */
  lemma TextNamesExactlyWhen(day: int)
    ensures NamesDay(DayText(day), day) <==> 0 <= YearOf(day) <= 9999
  {
    hide DayText, YearText, YearOf;
    if 0 <= YearOf(day) <= 9999 {
      forall other: int | DayText(other) == DayText(day) ensures other == day {
        DayTextStarts(other);
        DayTextStarts(day);
        PlainDayTextInjective(other, day);
      }
    } else {
      FarDayText(day);
    }
  }

  // ------------------------------------------------------------------ what previousWeek returns

  lemma YearOfMonotone(a: int, b: int)
    requires a <= b
    ensures YearOf(a) <= YearOf(b)
  {
    var y, z := YearOf(a), YearOf(b);
    hide YearOf, YearStart;
    if z < y { YearStartGrows(z + 1, y); }
  }

  /** The years of the week before `now` are all from 100 to 9999. */
  predicate WeekBeforePlain(now: int) {
    100 <= YearOf(MondayOf(now) - 7) && YearOf(MondayOf(now) - 1) <= 9999
  }

  /** The two texts and the label name the week before the one holding `now`. */
  ghost predicate NamesWeekBefore(now: int, id: string, monday: string, sunday: string) {
    && NamesDay(monday, MondayOf(now) - 7)
    && NamesDay(sunday, MondayOf(now) - 1)
    && exists y, w :: InIsoWeek(MondayOf(now) - 7, y, w) && id == LabelText(y, w)
  }

  lemma WeekBeforeYears(now: int)
    ensures var m := MondayOf(now) - 7;
            WeekBeforePlain(now) <==>
              !Moved(now) && PlainYears(m) && 0 <= YearOf(m) <= 9999 && 0 <= YearOf(m + 6) <= 9999
  {
    var m := MondayOf(now) - 7;
    hide YearOf, YearStart;
    assert m <= ThursdayOf(m);
    YearOfMonotone(m, m + 6);
    YearOfMonotone(m, now);
    YearOfMonotone(m, ThursdayOf(m));
    hide MondayOf, Weekday, ThursdayOf;
  }

  lemma WeekBeforeNamed(now: int)
    ensures var m := MondayNamed(now);
            NamesWeekBefore(now, LabelOf(m), DayText(m), DayText(m + 6)) <==> WeekBeforePlain(now)
  {
    var m := MondayNamed(now);
    WeekBeforeYears(now);
    PreviousWeekExactlyWhen(now);
    TextNamesExactlyWhen(m);
    TextNamesExactlyWhen(m + 6);
    hide YearOf, MondayOf, MondayNamed, LabelOf, LabelText, DayText, Moved, PlainYears, WeekBeforePlain, InIsoWeek;
    if NamesWeekBefore(now, LabelOf(m), DayText(m), DayText(m + 6)) {
      assert m == MondayOf(now) - 7;
    }
  }

  /**
   `previousWeek`: the texts it returns are the Monday's and the Sunday's of the week before and the
   label is the calendar's if and only if that week lies in the years 100 to 9999.
   */
  method PreviousWeek(now: int) returns (id: string, monday: string, sunday: string)
    ensures id == LabelOf(MondayNamed(now))
    ensures monday == DayText(MondayNamed(now)) && sunday == DayText(MondayNamed(now) + 6)
    ensures NamesWeekBefore(now, id, monday, sunday) <==> WeekBeforePlain(now)
  {
    WeekBeforeNamed(now);
    hide YearOf, YearStart, LabelText, InIsoWeek, PlainYears, MidnightOf, DayText, NamesWeekBefore, WeekBeforePlain;
    var start := MidnightOf(now) - Weekday(now) + 1 - 7;
    id := IsoWeekLabel(start);
    monday := DayText(start);
    sunday := DayText(start + 6);
  }

  lemma WeekOfMonday(monday: int, day: int)
    requires MondayOf(monday) == monday
    ensures monday <= day <= monday + 6 <==> MondayOf(day) == monday
  {
    MondayForm(day);
    MondayForm(monday);
  }

  /** A calendar week holds all seven days from its Monday on. */
  lemma WeekIsWhole(monday: int, day: int, y: int, w: int)
    requires MondayOf(monday) == monday && monday <= day <= monday + 6 && InIsoWeek(monday, y, w)
    ensures InIsoWeek(day, y, w)
  {
    hide YearStart;
    MondaysApart(monday, WeekOne(y + 1));
    MondaysApart(monday, WeekOne(y) + 7 * w);
    hide MondayOf, Weekday, WeekOne;
  }

  lemma MondaysApart(a: int, b: int)
    requires MondayOf(a) == a && a < b
    requires MondayOf(b) == b
    ensures a + 7 <= b
  {
    MondayForm(a);
    MondayForm(b);
  }

  /** Where that holds, its seven days are exactly the week before the one holding `now`, under the label of each. */
  lemma PreviousWeekIsTheWeekBefore(now: int, day: int)
    requires !Moved(now) && PlainYears(MondayOf(now) - 7)
    ensures var monday := MondayNamed(now);
            && (monday <= day <= monday + 6 <==> MondayOf(day) == MondayOf(now) - 7)
            && (monday <= day <= monday + 6 ==> InIsoWeek(day, CodeYear(monday), CodeWeek(monday)))
  {
    var monday := MondayNamed(now);
    PreviousWeekExactlyWhen(now);
    ComputedExactlyInPlainYears(monday);
    MondayBefore(now);
    hide MidnightOf, YearOf, YearStart, LabelText, InIsoWeek, PlainYears, MondayOf, Weekday, Moved, MondayNamed;
    WeekOfMonday(monday, day);
    if monday <= day <= monday + 6 {
      WeekIsWhole(monday, day, CodeYear(monday), CodeWeek(monday));
    }
  }

  lemma MondayBefore(now: int)
    ensures MondayOf(MondayOf(now) - 7) == MondayOf(now) - 7
  {}
}
