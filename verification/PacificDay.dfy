/** The Pacific-Time day key and the daily counters that reset when it changes.

Pacific time is derived from UTC in two passes: a guess at eight hours behind
decides whether daylight saving applies, and that settles the offset. */
module PacificDay {
  import opened Arithmetic
  import opened Calendar

  const HOUR := 3600

  /** Daylight saving at whole-day granularity. */
  predicate PacificIsDst(d: Date)
    requires ValidDate(d)
  {
    if d.month < 3 || d.month > 11 then false
    else if d.month > 3 && d.month < 11 then true
    else if d.month == 3 then d.day >= NthSundayOfMonth(d.year, 3, 2)
    else d.day < NthSundayOfMonth(d.year, 11, 1)
  }

  function GuessDate(utc: nat): (d: Date)
    ensures ValidDate(d)
  {
    var guess := SaturatingSub(utc, 8 * HOUR);
    FastFormInvertsDayNumber(guess);
    UnixToYmdUtc(guess)
  }

  function UnixToPtSeconds(utc: nat): nat {
    SaturatingSub(utc, if PacificIsDst(GuessDate(utc)) then 7 * HOUR else 8 * HOUR)
  }

  /** The key of the daily counters: the Pacific date. */
  function DayKey(utc: nat): (d: Date)
    ensures ValidDate(d)
  {
    FastFormInvertsDayNumber(UnixToPtSeconds(utc));
    UnixToYmdUtc(UnixToPtSeconds(utc))
  }

  function PtDay(utc: nat): nat {
    UnixToPtSeconds(utc) / SECONDS_PER_DAY
  }

  /** Seconds to the next Pacific midnight, as shown in the countdown. */
  function SecondsUntilMidnight(utc: nat): nat {
    var rem := UnixToPtSeconds(utc) % SECONDS_PER_DAY;
    if rem == 0 then SECONDS_PER_DAY else SECONDS_PER_DAY - rem
  }

  // ---------- The daylight-saving window ----------

  /** `d` is the n-th Sunday of its month, by counting Sundays. */
  predicate IsNthSunday(d: Date, n: nat)
    requires ValidDate(d)
  {
    Weekday(d) == SUNDAY && SundaysUpTo(d.year, d.month, d.day) == n
  }

  lemma NthSundayUnique(d: Date, n: nat)
    requires ValidDate(d) && 1 <= n && IsNthSunday(d, n)
    ensures d.day == NthSundayOfMonth(d.year, d.month, n)
  {
    var first := FirstSunday(d.year, d.month);
    CountSundays(d.year, d.month, first, d.day);
    StepSeven(DayNumber(Date(d.year, d.month, first)) + 4, d.day - first);
  }

  /** Daylight saving holds exactly from the second Sunday of March up to, and
      not including, the first Sunday of November. */
  lemma DstWindow(d: Date, spring: Date, fall: Date)
    requires ValidDate(d) && ValidDate(spring) && ValidDate(fall)
    requires spring.year == fall.year == d.year
    requires spring.month == 3 && IsNthSunday(spring, 2)
    requires fall.month == 11 && IsNthSunday(fall, 1)
    ensures PacificIsDst(d) <==> !Before(d, spring) && Before(d, fall)
  {
    NthSundayUnique(spring, 2);
    NthSundayUnique(fall, 1);
  }

  // ---------- The key moves one day at a time ----------

  /** The moment `sec` seconds into the guessed day `n`. */
  function Moment(n: nat, sec: nat): nat {
    8 * HOUR + n * SECONDS_PER_DAY + sec
  }

  lemma MomentOf(utc: nat) returns (n: nat, sec: nat)
    requires 8 * HOUR <= utc
    ensures sec < SECONDS_PER_DAY && utc == Moment(n, sec)
  {
    var g := utc - 8 * HOUR;
    n, sec := g / SECONDS_PER_DAY, g % SECONDS_PER_DAY;
  }

  predicate DstDay(n: nat) {
    PacificIsDst(DateAt(n))
  }

  lemma GuessAt(n: nat, sec: nat)
    requires sec < SECONDS_PER_DAY
    ensures GuessDate(Moment(n, sec)) == DateAt(n)
  {
    hide UnixToYmdUtc, DateAt;
    FastFormIsCalendar(n * SECONDS_PER_DAY + sec);
  }

  /** A guessed day decides the offset, and the last hour of a daylight-saving
      day already belongs to the next Pacific day. */
  lemma PtAt(n: nat, sec: nat)
    requires sec < SECONDS_PER_DAY
    ensures UnixToPtSeconds(Moment(n, sec)) == n * SECONDS_PER_DAY + sec + if DstDay(n) then HOUR else 0
    ensures PtDay(Moment(n, sec)) == n + if DstDay(n) && 23 * HOUR <= sec then 1 else 0
  {
    GuessAt(n, sec);
    hide GuessDate, PacificIsDst, DateAt;
  }

  lemma EpochMorning(utc: nat)
    requires utc <= 8 * HOUR
    ensures UnixToPtSeconds(utc) == 0
  {
    FastFormIsCalendar(0);
  }

  lemma PtDayStep(utc: nat)
    ensures PtDay(utc) <= PtDay(utc + 1) <= PtDay(utc) + 1
  {
    hide UnixToPtSeconds, GuessDate, PacificIsDst;
    if utc < 8 * HOUR {
      EpochMorning(utc);
      EpochMorning(utc + 1);
    } else {
      hide PtDay, DstDay;
      var n, sec := MomentOf(utc);
      PtAt(n, sec);
      if sec + 1 < SECONDS_PER_DAY { PtAt(n, sec + 1); } else { PtAt(n + 1, 0); }
    }
  }

  lemma {:induction false} PtDayMonotone(s: nat, t: nat)
    requires s <= t
    ensures PtDay(s) <= PtDay(t)
    decreases t - s
  {
    hide PtDay;
    if s < t { PtDayMonotone(s, t - 1); PtDayStep(t - 1); }
  }

  lemma DayKeyIsCalendar(utc: nat)
    ensures DayKey(utc) == DateAt(PtDay(utc))
    ensures DayNumber(DayKey(utc)) == PtDay(utc)
  {
    FastFormIsCalendar(UnixToPtSeconds(utc));
    CalendarDayNumber(PtDay(utc));
  }

  /** One second later the key is the same date or the very next one. */
  lemma DayKeyStep(utc: nat)
    ensures DayKey(utc + 1) == DayKey(utc) || DayKey(utc + 1) == NextDay(DayKey(utc))
  {
    hide DayKey, PtDay, DayNumber;
    PtDayStep(utc);
    DayKeyIsCalendar(utc);
    DayKeyIsCalendar(utc + 1);
  }

  /** As time advances the key never returns to an earlier date, and two
      moments with the same key have that key all the way between. */
  lemma DayKeyMonotone(s: nat, t: nat, u: nat)
    requires s <= t <= u
    ensures !Before(DayKey(t), DayKey(s))
    ensures DayKey(s) == DayKey(u) ==> DayKey(t) == DayKey(s)
  {
    hide DayKey, PtDay, DateAt, DayNumber, Before;
    PtDayMonotone(s, t);
    PtDayMonotone(t, u);
    DayKeyIsCalendar(s);
    DayKeyIsCalendar(t);
    DayKeyIsCalendar(u);
    DayNumberOrder(DayKey(t), DayKey(s));
  }

  /** No date is skipped: every date between two keys is a key in between. */
  lemma {:induction false} NoDaySkipped(s: nat, t: nat, d: Date) returns (u: nat)
    requires s <= t && ValidDate(d)
    requires !Before(d, DayKey(s)) && !Before(DayKey(t), d)
    ensures s <= u <= t && DayKey(u) == d
    decreases t - s
  {
    hide DayKey, PtDay, DayNumber;
    DayKeyIsCalendar(s);
    DayKeyIsCalendar(t);
    DayNumberOrder(d, DayKey(s));
    DayNumberOrder(DayKey(t), d);
    DayNumberOrder(DayKey(s), d);
    if DayKey(s) == d {
      u := s;
    } else {
      DayKeyIsCalendar(s + 1);
      PtDayStep(s);
      DayNumberOrder(d, DayKey(s + 1));
      u := NoDaySkipped(s + 1, t, d);
    }
  }

  /** The first Sunday of November. */
  function LastSwitch(year: int): (d: Date)
    requires 1970 <= year
    ensures ValidDate(d)
  {
    NthSundayIsNthSunday(year, 11, 1);
    Date(year, 11, NthSundayOfMonth(year, 11, 1))
  }

  /** The moment that guessed day begins: daylight saving ends. */
  function FallBack(year: int): (utc: nat)
    requires 1970 <= year
    ensures 8 * HOUR + SECONDS_PER_DAY <= utc
  {
    var d := LastSwitch(year);
    FastFormOnto(d);
    CalendarDayNumber(0);
    DayNumberOrder(DateAt(0), d);
    Moment(DayNumber(d), 0)
  }

  /** A day of daylight saving followed by one without it comes exactly before
      the first Sunday of November. */
  lemma EndOfDst(d: Date)
    requires ValidDate(d) && 1970 <= d.year
    ensures PacificIsDst(d) && !PacificIsDst(NextDay(d)) <==> NextDay(d) == LastSwitch(NextDay(d).year)
  {
    var first := FirstSunday(d.year, 11);
    hide NthSundayOfMonth;
  }

  /** Pacific seconds themselves do run backwards: in every year they lose an
      hour when daylight saving ends. */
  lemma PacificSecondsJumpBack(year: int)
    requires 1970 <= year
    ensures UnixToPtSeconds(FallBack(year)) == UnixToPtSeconds(FallBack(year) - 1) - 3599
  {
    hide UnixToPtSeconds, FallBack, DayNumber, PtDay, DstDay, LastSwitch;
    var n := BeforeLastSwitch(year);
    PtAt(n + 1, 0);
    PtAt(n, 86_399);
  }

  /** The guessed day before daylight saving ends. */
  lemma BeforeLastSwitch(year: int) returns (n: nat)
    requires 1970 <= year
    ensures FallBack(year) == Moment(n + 1, 0) && DateAt(n + 1) == LastSwitch(year)
    ensures DstDay(n) && !DstDay(n + 1)
  {
    hide NthSundayOfMonth, DayNumber, UnixToPtSeconds, PacificIsDst, LastSwitch;
    var d := LastSwitch(year);
    LastSwitchYear(year);
    FastFormOnto(d);
    assert FallBack(year) == Moment(DayNumber(d), 0);
    n := DayNumber(d) - 1;
    CalendarDayNumber(n + 1);
    SameDayNumber(DateAt(n + 1), d);
    DateFromEpoch(n);
    EndOfDst(DateAt(n));
  }

  lemma SameDayNumber(a: Date, b: Date)
    requires ValidDate(a) && ValidDate(b) && DayNumber(a) == DayNumber(b)
    ensures a == b
  {
    hide DayNumber;
    DayNumberOrder(a, b);
    DayNumberOrder(b, a);
  }

  lemma {:induction false} DateFromEpoch(n: nat)
    ensures 1970 <= DateAt(n).year
  {
    if n > 0 { DateFromEpoch(n - 1); }
  }

  // ---------- The countdown to midnight ----------

  /** The hour before daylight saving ends, which Pacific time then repeats. */
  predicate RepeatedHour(utc: nat) {
    var year := DayKey(utc).year;
    1970 <= year && FallBack(year) - HOUR <= utc < FallBack(year)
  }

  /** Every year has such an hour. */
  lemma RepeatedEveryYear(year: int, utc: nat)
    requires 1970 <= year && FallBack(year) - HOUR <= utc < FallBack(year)
    ensures RepeatedHour(utc) && DayKey(utc).year == year
    ensures UnixToPtSeconds(utc + HOUR) == UnixToPtSeconds(utc)
  {
    hide PacificIsDst, UnixToPtSeconds, FallBack, DayKey, DayNumber, LastSwitch;
    var n := BeforeLastSwitch(year);
    var sec := utc - Moment(n, 0);
    PtAt(n, sec);
    PtAt(n + 1, sec - 23 * HOUR);
    DayKeyIsCalendar(utc);
    LastSwitchYear(year);
  }

  lemma LastSwitchYear(year: int)
    requires 1970 <= year
    ensures LastSwitch(year).year == year
  {
  }

  /** In terms of guessed days: the last hour of a day of daylight saving that
      is followed by one without it. */
  lemma RepeatedAt(n: nat, sec: nat)
    requires sec < SECONDS_PER_DAY
    ensures RepeatedHour(Moment(n, sec)) <==> DstDay(n) && !DstDay(n + 1) && 23 * HOUR <= sec
  {
    hide PacificIsDst, UnixToPtSeconds, FallBack, DayKey, DayNumber, LastSwitch;
    var utc := Moment(n, sec);
    var year := DayKey(utc).year;
    PtAt(n, sec);
    DayKeyIsCalendar(utc);
    DateFromEpoch(n);
    DateFromEpoch(n + 1);
    EndOfDst(DateAt(n));
    if RepeatedHour(utc) {
      var m := BeforeLastSwitch(year);
      assert m == n;
    }
    if DstDay(n) && !DstDay(n + 1) && 23 * HOUR <= sec {
      var m := BeforeLastSwitch(year);
      CalendarDayNumber(n + 1);
      CalendarDayNumber(m + 1);
    }
  }

  /** The key of moment `utc` is replaced for the first time at moment `t`. */
  ghost predicate KeyChangesAt(utc: nat, t: nat) {
    && utc < t
    && DayKey(t) != DayKey(utc)
    && forall u :: utc <= u < t ==> DayKey(u) == DayKey(utc)
  }

  lemma ChangesAtDayEnd(utc: nat, t: nat)
    requires utc < t && PtDay(t - 1) == PtDay(utc) && PtDay(t) == PtDay(utc) + 1
    ensures KeyChangesAt(utc, t)
  {
    hide DayKey, PtDay, DateAt, DayNumber;
    DayKeyIsCalendar(utc);
    DayKeyIsCalendar(t);
    forall u | utc <= u < t ensures DayKey(u) == DayKey(utc) {
      PtDayMonotone(utc, u);
      PtDayMonotone(u, t - 1);
      DayKeyIsCalendar(u);
    }
  }

  /** The Pacific day that moment `sec` of guessed day `n` belongs to ends here. */
  function DayEnd(n: nat, sec: nat): nat {
    if !DstDay(n) then Moment(n + 1, 0)
    else if sec < 23 * HOUR then Moment(n, 23 * HOUR)
    else if DstDay(n + 1) then Moment(n + 1, 23 * HOUR)
    else Moment(n + 2, 0)
  }

  lemma DayEndIsChange(n: nat, sec: nat)
    requires sec < SECONDS_PER_DAY
    ensures KeyChangesAt(Moment(n, sec), DayEnd(n, sec))
  {
    hide UnixToPtSeconds, PtDay, DstDay, KeyChangesAt;
    PtAt(n, sec);
    if !DstDay(n) {
      PtAt(n, 86_399);
      PtAt(n + 1, 0);
    } else if sec < 23 * HOUR {
      PtAt(n, 23 * HOUR - 1);
      PtAt(n, 23 * HOUR);
    } else if DstDay(n + 1) {
      PtAt(n + 1, 23 * HOUR - 1);
      PtAt(n + 1, 23 * HOUR);
    } else {
      PtAt(n + 1, 86_399);
      PtAt(n + 2, 0);
    }
    ChangesAtDayEnd(Moment(n, sec), DayEnd(n, sec));
  }

  lemma CountdownToDayEnd(n: nat, sec: nat)
    requires sec < SECONDS_PER_DAY
    ensures var utc := Moment(n, sec);
            utc + SecondsUntilMidnight(utc) + (if RepeatedHour(utc) then HOUR else 0) == DayEnd(n, sec)
  {
    hide UnixToPtSeconds, PtDay, DayKey, RepeatedHour, DstDay;
    PtAt(n, sec);
    RepeatedAt(n, sec);
  }

  /** How much too soon the countdown ends.  Before the first Pacific midnight of
      the epoch the subtraction of the offset saturates. */
  function Shortfall(utc: nat): nat {
    if utc < 8 * HOUR then 8 * HOUR - utc
    else if RepeatedHour(utc) then HOUR
    else 0
  }

  /** The countdown runs to the next change of the key exactly outside the
      repeated hour, in which it is one hour short, and outside the first eight
      hours of the epoch. */
  lemma Countdown(utc: nat)
    ensures KeyChangesAt(utc, utc + SecondsUntilMidnight(utc) + Shortfall(utc))
    ensures KeyChangesAt(utc, utc + SecondsUntilMidnight(utc)) <==> 8 * HOUR <= utc && !RepeatedHour(utc)
  {
    hide DayKey, UnixToPtSeconds, SecondsUntilMidnight, RepeatedHour, DayEnd;
    if utc < 8 * HOUR {
      CountdownBeforeFirstMidnight(utc);
    } else {
      var n, sec := MomentOf(utc);
      CountdownToDayEnd(n, sec);
      DayEndIsChange(n, sec);
    }
  }

  lemma CountdownBeforeFirstMidnight(utc: nat)
    requires utc < 8 * HOUR
    ensures SecondsUntilMidnight(utc) == SECONDS_PER_DAY
    ensures KeyChangesAt(utc, 8 * HOUR + SECONDS_PER_DAY)
  {
    EpochMorning(utc);
    EpochMorning(8 * HOUR);
    PtAt(0, 86_399);
    PtAt(1, 0);
    hide UnixToPtSeconds;
    ChangesAtDayEnd(utc, 8 * HOUR + SECONDS_PER_DAY);
  }

  // ---------- The key and real Pacific time ----------

  /** The second Sunday of March. */
  function FirstSwitch(year: int): (d: Date)
    requires 1970 <= year
    ensures ValidDate(d)
  {
    NthSundayIsNthSunday(year, 3, 2);
    Date(year, 3, NthSundayOfMonth(year, 3, 2))
  }

  /** Clocks go forward at 02:00 standard time, ten hours behind midnight UTC. */
  function SpringForward(year: int): int
    requires 1970 <= year
  {
    DayNumber(FirstSwitch(year)) * SECONDS_PER_DAY + 10 * HOUR
  }

  /** Clocks go back at 02:00 daylight-saving time, nine hours behind midnight UTC. */
  function ClocksGoBack(year: int): int
    requires 1970 <= year
  {
    DayNumber(LastSwitch(year)) * SECONDS_PER_DAY + 9 * HOUR
  }

  /** Pacific time with its switches at the hour they really take place. */
  function RealPtSeconds(utc: nat): (r: nat)
    requires 8 * HOUR <= utc
  {
    var year := GuessDate(utc).year;
    if 1970 <= year && SpringForward(year) <= utc < ClocksGoBack(year) then utc - 7 * HOUR else utc - 8 * HOUR
  }

  /** The guessed day `n` lies in daylight saving from one switch to the other. */
  lemma DstBetweenSwitches(n: nat)
    ensures var d := DateAt(n);
            && 1970 <= d.year
            && (DstDay(n) <==> DayNumber(FirstSwitch(d.year)) <= n < DayNumber(LastSwitch(d.year)))
            && DayNumber(FirstSwitch(d.year)) < DayNumber(LastSwitch(d.year))
  {
    var d := DateAt(n);
    DateFromEpoch(n);
    var spring, fall := FirstSwitch(d.year), LastSwitch(d.year);
    NthSundayIsNthSunday(d.year, 3, 2);
    NthSundayIsNthSunday(d.year, 11, 1);
    DstWindow(d, spring, fall);
    hide DayNumber, PacificIsDst, NthSundayOfMonth, DateAt;
    CalendarDayNumber(n);
    DayNumberOrder(d, spring);
    DayNumberOrder(d, fall);
    DayNumberOrder(spring, fall);
  }

  /** Real Pacific seconds at a moment of guessed day `n`. */
  lemma RealPtAt(n: nat, sec: nat)
    requires sec < SECONDS_PER_DAY
    ensures var d := DateAt(n);
            && 1970 <= d.year
            && var ns, nf := DayNumber(FirstSwitch(d.year)), DayNumber(LastSwitch(d.year));
               var dst := (ns < n || (n == ns && 2 * HOUR <= sec)) && (n < nf || (n == nf && sec < HOUR));
               RealPtSeconds(Moment(n, sec)) == n * SECONDS_PER_DAY + sec + if dst then HOUR else 0
  {
    hide DayNumber, DateAt, GuessDate, FirstSwitch, LastSwitch;
    GuessAt(n, sec);
    DateFromEpoch(n);
  }

  /** At every second from 08:00 on the epoch day, the key is the date that real
      Pacific time shows: switching at midnight instead of 02:00 moves no date. */
  lemma DayKeyIsRealDate(utc: nat)
    requires 8 * HOUR <= utc
    ensures DayKey(utc) == UnixToYmdUtc(RealPtSeconds(utc))
  {
    hide DayKey, RealPtSeconds, UnixToYmdUtc, UnixToPtSeconds, DateAt, DayNumber, DstDay, FirstSwitch, LastSwitch;
    var n, sec := MomentOf(utc);
    PtAt(n, sec);
    RealPtAt(n, sec);
    DstBetweenSwitches(n);
    DayKeyIsCalendar(utc);
    FastFormIsCalendar(RealPtSeconds(utc));
  }

  /** The seconds themselves are right except in three hours of every year: the
      first two of the day clocks go forward, and the first of the day they go back,
      by standard time.  There they are off by an hour. */
  lemma PacificSecondsExactIff(utc: nat)
    requires 8 * HOUR <= utc
    ensures var year := GuessDate(utc).year;
            && 1970 <= year
            && var ahead, behind := SpringForward(year) - 2 * HOUR <= utc < SpringForward(year),
                                    ClocksGoBack(year) - HOUR <= utc < ClocksGoBack(year);
               UnixToPtSeconds(utc) == RealPtSeconds(utc) + if ahead then HOUR else if behind then -HOUR else 0
  {
    hide RealPtSeconds, UnixToPtSeconds, GuessDate, DateAt, DayNumber, DstDay, FirstSwitch, LastSwitch;
    var n, sec := MomentOf(utc);
    GuessAt(n, sec);
    PtAt(n, sec);
    RealPtAt(n, sec);
    DstBetweenSwitches(n);
  }

  // ---------- The daily counters ----------

  datatype Call = Call(at: nat, bytes: nat)

  /** The calls of a log that fall on Pacific date `key`. */
  function OnDay(log: seq<Call>, key: Date): seq<Call> {
    if log == [] then []
    else
      var rest := OnDay(log[..|log| - 1], key);
      if DayKey(log[|log| - 1].at) == key then rest + [log[|log| - 1]] else rest
  }

  function TotalBytes(log: seq<Call>): nat {
    if log == [] then 0 else TotalBytes(log[..|log| - 1]) + log[|log| - 1].bytes
  }

  lemma {:induction false} NoneOnLaterDay(log: seq<Call>, last: nat, now: nat)
    requires forall i :: 0 <= i < |log| ==> log[i].at <= last
    requires last <= now && DayKey(last) != DayKey(now)
    ensures OnDay(log, DayKey(now)) == []
  {
    hide DayKey;
    if log != [] {
      NoneOnLaterDay(log[..|log| - 1], last, now);
      DayKeyMonotone(log[|log| - 1].at, last, now);
    }
  }

  /** `today_key`, `today_calls` and `today_bytes`, with the clock readings of a
      sequential run in which the clock does not run backwards. */
  class DailyCounters {
    var todayKey: Date
    var todayCalls: nat
    var todayBytes: nat
    ghost var log: seq<Call>
    ghost var lastSeen: nat

    /** The counters hold exactly the calls recorded on the current Pacific date. */
    ghost predicate Valid()
      reads this
    {
      && (forall i :: 0 <= i < |log| ==> log[i].at <= lastSeen)
      && todayKey == DayKey(lastSeen)
      && todayCalls == |OnDay(log, todayKey)|
      && todayBytes == TotalBytes(OnDay(log, todayKey))
    }

    constructor (now: nat)
      ensures Valid() && log == [] && lastSeen == now
    {
      hide DayKey;
      todayKey, todayCalls, todayBytes := DayKey(now), 0, 0;
      log, lastSeen := [], now;
    }

    /** Roll over to the date of `now`; both recording and reading do this first. */
    method Roll(now: nat)
      requires Valid() && lastSeen <= now
      modifies this
      ensures Valid() && log == old(log) && lastSeen == now
    {
      hide DayKey;
      var today := DayKey(now);
      if todayKey != today {
        NoneOnLaterDay(log, lastSeen, now);
        todayKey, todayCalls, todayBytes := today, 0, 0;
      }
      lastSeen := now;
    }

    method RecordToday(now: nat, bytes: nat)
      requires Valid() && lastSeen <= now
      modifies this
      ensures Valid() && log == old(log) + [Call(now, bytes)] && lastSeen == now
    {
      hide DayKey;
      Roll(now);
      todayCalls, todayBytes := todayCalls + 1, todayBytes + bytes;
      log := log + [Call(now, bytes)];
      assert log[..|log| - 1] == old(log);
      ghost var before := OnDay(old(log), todayKey);
      assert OnDay(log, todayKey) == before + [Call(now, bytes)];
      assert (before + [Call(now, bytes)])[..|before|] == before;
    }

    method Snapshot(now: nat) returns (key: Date, calls: nat, bytes: nat)
      requires Valid() && lastSeen <= now
      modifies this
      ensures Valid() && log == old(log) && lastSeen == now
      ensures key == DayKey(now)
      ensures calls == |OnDay(log, DayKey(now))| && bytes == TotalBytes(OnDay(log, DayKey(now)))
    {
      hide DayKey;
      Roll(now);
      key, calls, bytes := todayKey, todayCalls, todayBytes;
    }
  }
}
