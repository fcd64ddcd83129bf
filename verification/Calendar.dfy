/** The Gregorian calendar behind the daily counters.

The reference is the calendar itself, walked one day at a time from 1970-01-01
with the leap-year rule.  The fast form is the era-based closed formula that
turns Unix seconds into a date, and the weekday congruence that finds the n-th
Sunday of a month. */
module Calendar {
  import opened Arithmetic

  datatype Date = Date(year: int, month: int, day: int)

  const SECONDS_PER_DAY := 86_400

  // ---------- Reference: the calendar, one day at a time ----------

  predicate IsLeap(y: int) {
    y % 4 == 0 && (y % 100 != 0 || y % 400 == 0)
  }

  function DaysInMonth(y: int, m: int): (n: int)
    requires 1 <= m <= 12
  {
    if m == 2 then (if IsLeap(y) then 29 else 28)
    else if m in {4, 6, 9, 11} then 30
    else 31
  }

  predicate ValidDate(d: Date) {
    1 <= d.year && 1 <= d.month <= 12 && 1 <= d.day <= DaysInMonth(d.year, d.month)
  }

  function NextDay(d: Date): (r: Date)
    requires ValidDate(d)
    ensures ValidDate(r)
  {
    if d.day < DaysInMonth(d.year, d.month) then Date(d.year, d.month, d.day + 1)
    else if d.month < 12 then Date(d.year, d.month + 1, 1)
    else Date(d.year + 1, 1, 1)
  }

  /** The date reached from 1970-01-01 after `n` single steps. */
  function DateAt(n: nat): (d: Date)
    ensures ValidDate(d)
  {
    if n == 0 then Date(1970, 1, 1) else NextDay(DateAt(n - 1))
  }

  /** Chronological order of dates. */
  predicate Before(a: Date, b: Date) {
    || a.year < b.year
    || (a.year == b.year && a.month < b.month)
    || (a.year == b.year && a.month == b.month && a.day < b.day)
  }

  // ---------- The fast form ----------

  function UnixToYmdUtc(secs: nat): (d: Date) {
    var days := secs / SECONDS_PER_DAY;
    var z := days + 719_468;
    var era := (if z >= 0 then z else z - 146_096) / 146_097;
    CivilOfEra(era, z - era * 146_097)
  }

  /** The part of the formula that works inside one 400-year era. */
  function CivilOfEra(era: int, doe: int): (d: Date) {
    var yoe := (doe - doe / 1460 + doe / 36_524 - doe / 146_096) / 365;
    CivilOfYear(yoe + era * 400, doe - (365 * yoe + yoe / 4 - yoe / 100))
  }

  /** The part that works inside one year counted from March. */
  function CivilOfYear(y: int, doy: int): (d: Date) {
    var mp := (5 * doy + 2) / 153;
    var d := doy - (153 * mp + 2) / 5 + 1;
    var m := if mp < 10 then mp + 3 else mp - 9;
    Date(if m <= 2 then y + 1 else y, m, d)
  }

  // ---------- Day numbers: the inverse both sides are compared through ----------

  /** Years counted from March, so that the leap day closes the year. */
  function MarchYear(y: int, m: int): int {
    if m <= 2 then y - 1 else y
  }

  function MarchYearDays(y: int): int {
    if IsLeap(y + 1) then 366 else 365
  }

  /** Days from 0000-03-01 to the first of March of year `y`. */
  function MarchFirst(y: nat): nat {
    if y == 0 then 0 else MarchFirst(y - 1) + MarchYearDays(y - 1)
  }

  /** Days from the first of March to the first of month `m`. */
  function MonthOffset(m: int): int
    requires 1 <= m <= 12
  {
    match m
    case 3 => 0 case 4 => 31 case 5 => 61 case 6 => 92 case 7 => 122 case 8 => 153
    case 9 => 184 case 10 => 214 case 11 => 245 case 12 => 275 case 1 => 306 case _ => 337
  }

  function DayOfYear(d: Date): int
    requires 1 <= d.month <= 12
  {
    MonthOffset(d.month) + d.day - 1
  }

  /** Days from the epoch to `d`, by adding up whole years and months. */
  function DayNumber(d: Date): int
    requires 1 <= d.year && 1 <= d.month <= 12
  {
    MarchFirst(MarchYear(d.year, d.month)) + DayOfYear(d) - 719_468
  }

  lemma NextDayAddsOne(d: Date)
    requires ValidDate(d)
    ensures DayNumber(NextDay(d)) == DayNumber(d) + 1
  {
  }

  lemma Centuries(n: int)
    ensures n % 100 == 0 ==> n % 4 == 0
    ensures n % 400 == 0 ==> n % 100 == 0
  {
    if n % 100 == 0 { QuotientIs(n, 4, 25 * (n / 100), 0); }
    if n % 400 == 0 { QuotientIs(n, 100, 4 * (n / 400), 0); }
  }

  lemma Carry(y: int, k: int)
    requires k in {4, 100, 400}
    ensures (y + 1) / k == y / k + if (y + 1) % k == 0 then 1 else 0
  {
  }

  /** The years up to `y` in closed form. */
  lemma {:induction false} MarchFirstClosed(y: nat)
    ensures MarchFirst(y) == 365 * y + y / 4 - y / 100 + y / 400
  {
    if y > 0 {
      MarchFirstClosed(y - 1);
      Carry(y - 1, 4);
      Carry(y - 1, 100);
      Carry(y - 1, 400);
      Centuries(y);
    }
  }

  // ---------- The fast form counts days ----------

  /** A year of the 400-year era, split into centuries, four-year groups and the rest. */
  ghost predicate EraSplit(yoe: int, c: int, q: int, s: int) {
    0 <= c <= 3 && 0 <= q <= 24 && 0 <= s <= 3 && yoe == 100 * c + 4 * q + s
  }

  /** Days in the March-based year `yoe` of an era. */
  function EraYearDays(c: int, q: int, s: int): int {
    if s == 3 && (q != 24 || c == 3) then 366 else 365
  }

  /** Any day of an era lies in exactly one March-based year. */
  lemma SplitDay(doe: int) returns (c: int, q: int, s: int, doy: int)
    requires 0 <= doe <= 146_096
    ensures EraSplit(100 * c + 4 * q + s, c, q, s)
    ensures doe == 36_524 * c + 1461 * q + 365 * s + doy
    ensures 0 <= doy < EraYearDays(c, q, s)
  {
    c := if doe == 146_096 then 3 else doe / 36_524;
    var r := doe - 36_524 * c;
    q := r / 1461;
    var t := r - 1461 * q;
    s := if t == 1460 then 3 else t / 365;
    doy := t - 365 * s;
  }

  lemma YearFormula(doe: int, c: int, q: int, s: int, doy: int)
    requires EraSplit(100 * c + 4 * q + s, c, q, s)
    requires doe == 36_524 * c + 1461 * q + 365 * s + doy
    requires 0 <= doy < EraYearDays(c, q, s)
    ensures (doe - doe / 1460 + doe / 36_524 - doe / 146_096) / 365 == 100 * c + 4 * q + s
  {
    var last := doe == 146_096;
    assert last <==> c == 3 && q == 24 && s == 3 && doy == 365;
    assert doe / 146_096 == if last then 1 else 0;
    assert doe / 36_524 == if last then 4 else c;
  }

  lemma EraStart(era: int, yoe: int, c: int, q: int, s: int)
    requires EraSplit(yoe, c, q, s) && 0 <= era
    ensures 365 * yoe + yoe / 4 - yoe / 100 == 36_524 * c + 1461 * q + 365 * s
    ensures MarchFirst(yoe + era * 400) == era * 146_097 + 36_524 * c + 1461 * q + 365 * s
  {
    var y := yoe + era * 400;
    Quotient(yoe, 4, 25 * c + q, s);
    Quotient(yoe, 100, c, 4 * q + s);
    Quotient(y, 4, 100 * era + 25 * c + q, s);
    Quotient(y, 100, 4 * era + c, 4 * q + s);
    Quotient(y, 400, era, yoe);
    MarchFirstClosed(y);
  }

  lemma Quotient(n: int, k: int, q: int, r: int)
    requires k in {4, 100, 400} && n == k * q + r && 0 <= r < k
    ensures n / k == q
  {
  }

  lemma EraLeap(era: int, yoe: int, c: int, q: int, s: int)
    requires EraSplit(yoe, c, q, s)
    ensures MarchYearDays(yoe + era * 400) == EraYearDays(c, q, s)
  {
    var n := yoe + era * 400 + 1;
    if s < 3 {
      QuotientIs(n, 4, 100 * era + 25 * c + q, s + 1);
    } else {
      QuotientIs(n, 4, 100 * era + 25 * c + q + 1, 0);
      if q < 24 {
        QuotientIs(n, 100, 4 * era + c, 4 * q + 4);
      } else {
        QuotientIs(n, 100, 4 * era + c + 1, 0);
        if c < 3 { QuotientIs(n, 400, era, 100 * (c + 1)); } else { QuotientIs(n, 400, era + 1, 0); }
      }
    }
  }

  lemma MonthOfDay(doy: int, mp: int)
    requires 0 <= doy <= 365 && mp == (5 * doy + 2) / 153
    ensures 0 <= mp <= 11
    ensures var m := if mp < 10 then mp + 3 else mp - 9;
            && (153 * mp + 2) / 5 == MonthOffset(m)
            && MonthOffset(m) <= doy < if m == 2 then 366 else MonthOffset(m % 12 + 1)
  {
  }

  /** The month and day formulas on a day of the March-based year. */
  lemma MonthFormula(y: int, doy: int)
    requires 1 <= y && 0 <= doy < MarchYearDays(y)
    ensures ValidDate(CivilOfYear(y, doy))
    ensures DayNumber(CivilOfYear(y, doy)) == MarchFirst(y) + doy - 719_468
  {
    var mp := (5 * doy + 2) / 153;
    MonthOfDay(doy, mp);
    var m := if mp < 10 then mp + 3 else mp - 9;
    var date := Date(if m <= 2 then y + 1 else y, m, doy - MonthOffset(m) + 1);
    assert CivilOfYear(y, doy) == date;
    assert MarchYear(date.year, m) == y;
  }

  lemma EraUnfolds(era: int, doe: int, c: int, q: int, s: int, doy: int)
    requires 0 <= era
    requires EraSplit(100 * c + 4 * q + s, c, q, s)
    requires doe == 36_524 * c + 1461 * q + 365 * s + doy
    requires 0 <= doy < EraYearDays(c, q, s)
    ensures CivilOfEra(era, doe) == CivilOfYear(100 * c + 4 * q + s + era * 400, doy)
  {
    var yoe := 100 * c + 4 * q + s;
    assert yoe == (doe - doe / 1460 + doe / 36_524 - doe / 146_096) / 365 by { YearFormula(doe, c, q, s, doy); }
    assert doe - (365 * yoe + yoe / 4 - yoe / 100) == doy by { EraStart(era, yoe, c, q, s); }
  }

  lemma EraFormula(era: int, doe: int)
    requires 0 <= doe <= 146_096 && 1 <= era
    ensures ValidDate(CivilOfEra(era, doe))
    ensures DayNumber(CivilOfEra(era, doe)) == era * 146_097 + doe - 719_468
  {
    var c, q, s, doy := SplitDay(doe);
    var yoe := 100 * c + 4 * q + s;
    var date := CivilOfYear(yoe + era * 400, doy);
    assert CivilOfEra(era, doe) == date by { EraUnfolds(era, doe, c, q, s, doy); }
    assert ValidDate(date) && DayNumber(date) == era * 146_097 + doe - 719_468 by {
      EraYearFormula(era, yoe, c, q, s, doy);
    }
  }

  lemma EraYearFormula(era: int, yoe: int, c: int, q: int, s: int, doy: int)
    requires EraSplit(yoe, c, q, s) && 1 <= era
    requires 0 <= doy < EraYearDays(c, q, s)
    ensures ValidDate(CivilOfYear(yoe + era * 400, doy))
    ensures DayNumber(CivilOfYear(yoe + era * 400, doy))
         == era * 146_097 + 36_524 * c + 1461 * q + 365 * s + doy - 719_468
  {
    var y := yoe + era * 400;
    assert ValidDate(CivilOfYear(y, doy)) && DayNumber(CivilOfYear(y, doy)) == MarchFirst(y) + doy - 719_468 by {
      EraLeap(era, yoe, c, q, s);
      MonthFormula(y, doy);
    }
    assert MarchFirst(y) == era * 146_097 + 36_524 * c + 1461 * q + 365 * s by {
      EraStart(era, yoe, c, q, s);
    }
  }

  /** The fast form yields a valid date whose day number is the day asked for. */
  lemma FastFormInvertsDayNumber(secs: nat)
    ensures ValidDate(UnixToYmdUtc(secs))
    ensures DayNumber(UnixToYmdUtc(secs)) == secs / SECONDS_PER_DAY
  {
    hide CivilOfEra, DayNumber;
    var z := secs / SECONDS_PER_DAY + 719_468;
    EraFormula(z / 146_097, z - z / 146_097 * 146_097);
  }

  lemma {:induction false} MarchFirstMonotone(a: nat, b: nat)
    requires a <= b
    ensures MarchFirst(a) <= MarchFirst(b)
    decreases b - a
  {
    if a < b { MarchFirstMonotone(a, b - 1); }
  }

  /** Chronological order is order of day numbers. */
  lemma DayNumberOrder(a: Date, b: Date)
    requires ValidDate(a) && ValidDate(b)
    ensures Before(a, b) <==> DayNumber(a) < DayNumber(b)
  {
    if Before(a, b) {
      EarlierIsSmaller(a, b);
    } else if a != b {
      EarlierIsSmaller(b, a);
    }
  }

  lemma EarlierIsSmaller(a: Date, b: Date)
    requires ValidDate(a) && ValidDate(b) && Before(a, b)
    ensures DayNumber(a) < DayNumber(b)
  {
    var ya, yb := MarchYear(a.year, a.month), MarchYear(b.year, b.month);
    DayOfYearBound(a);
    DayOfYearBound(b);
    if ya < yb {
      MarchFirstMonotone(ya + 1, yb);
    }
  }

  lemma DayOfYearBound(d: Date)
    requires ValidDate(d)
    ensures 0 <= DayOfYear(d) < MarchYearDays(MarchYear(d.year, d.month))
  {
  }

  // ---------- Main results: the fast form is the calendar ----------

  /** The day number singles the date out. */
  lemma FastFormIs(secs: nat, d: Date)
    requires ValidDate(d) && DayNumber(d) == secs / SECONDS_PER_DAY
    ensures UnixToYmdUtc(secs) == d
  {
    hide UnixToYmdUtc, DayNumber;
    FastFormInvertsDayNumber(secs);
    DayNumberOrder(UnixToYmdUtc(secs), d);
    DayNumberOrder(d, UnixToYmdUtc(secs));
  }

  /** For every second count the closed formula gives the date reached by
      stepping day by day. */
  lemma {:induction false} FastFormIsCalendar(secs: nat)
    ensures UnixToYmdUtc(secs) == DateAt(secs / SECONDS_PER_DAY)
  {
    var n := secs / SECONDS_PER_DAY;
    CalendarDayNumber(n);
    FastFormIs(secs, DateAt(n));
  }

  lemma {:induction false} CalendarDayNumber(n: nat)
    ensures DayNumber(DateAt(n)) == n
  {
    if n == 0 {
      MarchFirstClosed(1969);
    } else {
      CalendarDayNumber(n - 1);
      NextDayAddsOne(DateAt(n - 1));
    }
  }

  /** Hence the fast form is injective on day numbers and keeps their order. */
  lemma FastFormOrder(s: nat, t: nat)
    ensures Before(UnixToYmdUtc(s), UnixToYmdUtc(t)) <==> s / SECONDS_PER_DAY < t / SECONDS_PER_DAY
    ensures UnixToYmdUtc(s) == UnixToYmdUtc(t) <==> s / SECONDS_PER_DAY == t / SECONDS_PER_DAY
  {
    hide UnixToYmdUtc, DayNumber;
    FastFormInvertsDayNumber(s);
    FastFormInvertsDayNumber(t);
    DayNumberOrder(UnixToYmdUtc(s), UnixToYmdUtc(t));
    FastFormIsCalendar(s);
    FastFormIsCalendar(t);
  }

  /** Every date from the epoch on is produced, by the seconds of its own day. */
  lemma FastFormOnto(d: Date)
    requires ValidDate(d) && !Before(d, Date(1970, 1, 1))
    ensures DayNumber(d) >= 0
    ensures UnixToYmdUtc(DayNumber(d) * SECONDS_PER_DAY) == d
  {
    assert DayNumber(d) >= 0 by {
      CalendarDayNumber(0);
      DayNumberOrder(d, DateAt(0));
    }
    FastFormIs(DayNumber(d) * SECONDS_PER_DAY, d);
  }

  // ---------- Weekdays ----------

  const SUNDAY := 0

  /** Weekday by counting days: the epoch day was a Thursday, 0 is Sunday. */
  function Weekday(d: Date): (w: int)
    requires 1 <= d.year && 1 <= d.month <= 12
  {
    (DayNumber(d) + 4) % 7
  }

  /** How many of the days 1..k of a month are Sundays. */
  function SundaysUpTo(y: int, m: int, k: nat): nat
    requires 1 <= y && 1 <= m <= 12
  {
    if k == 0 then 0
    else SundaysUpTo(y, m, k - 1) + if Weekday(Date(y, m, k)) == SUNDAY then 1 else 0
  }

  const SAKAMOTO: seq<int> := [0, 3, 2, 5, 0, 3, 5, 1, 4, 6, 2, 4]

  /** Sakamoto's weekday of the first of a month; `year` is positive, so the
      truncating division of the source is the Euclidean one. */
  function DowOfFirst(year: int, month: int): (w: int)
    requires 1 <= year && 1 <= month <= 12
  {
    var y := if month < 3 then year - 1 else year;
    (y + y / 4 - y / 100 + y / 400 + SAKAMOTO[month - 1] + 1) % 7
  }

  /** Day of month of the n-th Sunday. */
  function NthSundayOfMonth(year: int, month: int, nth: int): (r: int)
    requires 1 <= year && 1 <= month <= 12 && 1 <= nth
  {
    var dowOfFirst := DowOfFirst(year, month);
    var firstSunday := if dowOfFirst == 0 then 1 else 8 - dowOfFirst;
    firstSunday + (nth - 1) * 7
  }

  /** Two numbers a multiple of seven apart leave the same remainder. */
  lemma ModSeven(a: int, b: int, k: int)
    requires a == b + 7 * k
    ensures a % 7 == b % 7
  {
  }

  /** The weekday congruence agrees with counting days, for every month. */
  lemma SakamotoIsWeekday(year: int, month: int)
    requires 1 <= year && 1 <= month <= 12
    ensures DowOfFirst(year, month) == Weekday(Date(year, month, 1))
  {
    var y := MarchYear(year, month);
    var leaps := y / 4 - y / 100 + y / 400;
    var k := MonthResidue(month);
    assert DayNumber(Date(year, month, 1)) + 4 == 365 * y + leaps + MonthOffset(month) - 719_464 by {
      MarchFirstClosed(y);
    }
    ModSeven(365 * y + leaps + MonthOffset(month) - 719_464, y + leaps + SAKAMOTO[month - 1] + 1, 52 * y + k);
  }

  lemma MonthResidue(month: int) returns (k: int)
    requires 1 <= month <= 12
    ensures MonthOffset(month) - SAKAMOTO[month - 1] - 719_465 == 7 * k
  {
    k := (MonthOffset(month) - SAKAMOTO[month - 1] - 719_465) / 7;
  }

  lemma StepSeven(a: int, j: int)
    requires a % 7 == 0
    ensures (a + j) % 7 == 0 <==> j % 7 == 0
    ensures j / 7 == (j - 1) / 7 + if j % 7 == 0 then 1 else 0
  {
    assert a == 7 * (a / 7);
    ModSeven(a + j, j, a / 7);
  }

  lemma {:induction false} CountSundays(y: int, m: int, first: int, k: nat)
    requires 1 <= y && 1 <= m <= 12 && 1 <= first <= 7
    requires Weekday(Date(y, m, first)) == SUNDAY
    ensures SundaysUpTo(y, m, k) == if k < first then 0 else (k - first) / 7 + 1
  {
    if k > 0 {
      CountSundays(y, m, first, k - 1);
      StepSeven(DayNumber(Date(y, m, first)) + 4, k - first);
    }
  }

  lemma FirstSunday(year: int, month: int) returns (first: int)
    requires 1 <= year && 1 <= month <= 12
    ensures first == NthSundayOfMonth(year, month, 1)
    ensures 1 <= first <= 7 && Weekday(Date(year, month, first)) == SUNDAY
  {
    SakamotoIsWeekday(year, month);
    var dow := DowOfFirst(year, month);
    first := if dow == 0 then 1 else 8 - dow;
    var n := DayNumber(Date(year, month, 1)) + 4;
    ModSeven(n + first - 1, 0, n / 7 + if dow == 0 then 0 else 1);
  }

  /** The n-th Sunday is a Sunday and exactly the n-th one of its month.  It
      falls inside the month exactly when the month has that many Sundays,
      which every month has for n up to 4. */
  lemma NthSundayIsNthSunday(year: int, month: int, nth: int)
    requires 1 <= year && 1 <= month <= 12 && 1 <= nth
    ensures var r := NthSundayOfMonth(year, month, nth);
            && 1 <= r
            && Weekday(Date(year, month, r)) == SUNDAY
            && SundaysUpTo(year, month, r) == nth
            && (r <= DaysInMonth(year, month) <==> nth <= SundaysUpTo(year, month, DaysInMonth(year, month)))
            && (nth <= 4 ==> ValidDate(Date(year, month, r)))
  {
    var first := FirstSunday(year, month);
    var r := first + 7 * (nth - 1);
    ModSeven(DayNumber(Date(year, month, r)) + 4, DayNumber(Date(year, month, first)) + 4, nth - 1);
    CountSundays(year, month, first, r);
    CountSundays(year, month, first, DaysInMonth(year, month));
  }
}
