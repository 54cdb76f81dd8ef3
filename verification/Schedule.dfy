/** Update schedules (`internal/update/schedule.go`): when a schedule next runs,
    and the loop that runs what is due.

    Time is a count of nanoseconds in a fixed-offset zone; days are counted from
    Saturday, January 1 of year 0 of the Gregorian calendar. */
module Schedule {
  import opened Model

  const MINUTE: int := 60_000_000_000
  const HOUR: int := 60 * MINUTE
  const DAY: int := 24 * HOUR

  /** A schedule that is not off; offset is the time of day. */
  datatype Spec =
    | Daily(offset: int)
    | Weekly(weekday: int, offset: int)
    | Monthly(day: int, offset: int)

  /** What `ParseSchedule` lets through. */
  predicate WellFormed(s: Spec)
  {
    && 0 <= s.offset < DAY
    && (s.Weekly? ==> 0 <= s.weekday < 7)
    && (s.Monthly? ==> 1 <= s.day <= 28)
  }

  // --------------------------------------------------------------- calendar

  function DayOf(t: int): int { t / DAY }

  function Weekday(d: int): int { (d + 6) % 7 }

  predicate Leap(y: int)
  {
    y % 4 == 0 && (y % 100 != 0 || y % 400 == 0)
  }

  /** Days of a month, months being counted from January of year 0. */
  function Length(m: int): (n: int)
    ensures 28 <= n <= 31
  {
    var k := m % 12;
    if k == 1 then if Leap(m / 12) then 29 else 28
    else if k in {3, 5, 8, 10} then 30
    else 31
  }

  /** First day of a month. */
  function MonthStart(m: int): int
    decreases if m < 0 then -m else m
  {
    if m == 0 then 0
    else if m > 0 then MonthStart(m - 1) + Length(m - 1)
    else MonthStart(m + 1) - Length(m)
  }

  lemma MonthLength(m: int)
    ensures MonthStart(m + 1) == MonthStart(m) + Length(m)
  {
  }

  lemma {:induction false} MonthsInOrder(m: int, n: int)
    requires m <= n
    ensures MonthStart(m) + 28 * (n - m) <= MonthStart(n)
    decreases n - m
  {
    if m < n {
      MonthLength(m);
      MonthsInOrder(m + 1, n);
    }
  }

  /** The month a day lies in, searched from an earlier one. */
  function MonthFrom(d: int, m: int): (r: int)
    requires MonthStart(m) <= d
    ensures MonthStart(r) <= d < MonthStart(r + 1)
    decreases d - MonthStart(m)
  {
    MonthLength(m);
    if d < MonthStart(m + 1) then m else MonthFrom(d, m + 1)
  }

  function MonthOf(d: int): (m: int)
    ensures MonthStart(m) <= d < MonthStart(m + 1)
  {
    var early := if d < 0 then d - 1 else -1;
    MonthsInOrder(early, 0);
    MonthFrom(d, early)
  }

  // ------------------------------------------------------------------ slots

  function MonthSlot(s: Spec, m: int): int
    requires s.Monthly?
  {
    (MonthStart(m) + s.day - 1) * DAY + s.offset
  }

  ghost predicate IsLeap(y: int) { y % 4 == 0 && (y % 100 != 0 || y % 400 == 0) }

  /** Days before a month in a common year. */
  const BEFORE: seq<int> := [0, 31, 59, 90, 120, 151, 181, 212, 243, 273, 304, 334]

  /** Days from January 1 of year 0 to the start of a month, k counted from 0:
      365 a year, one more for every fourth year but the full centuries, unless
      they are a multiple of 400. */
  ghost function DaysBefore(y: int, k: int): int
    requires 0 <= k < 12
  {
    365 * y + (y + 3) / 4 - (y + 99) / 100 + (y + 399) / 400 + BEFORE[k] + if k >= 2 && IsLeap(y) then 1 else 0
  }

  /** The instants a schedule names, a day being 86400 seconds and day 0 a
      Saturday. */
  ghost predicate Fires(s: Spec, t: int)
  {
    match s
    case Daily(offset) => t % 86_400_000_000_000 == offset
    case Weekly(weekday, offset) => t % 86_400_000_000_000 == offset && (t / 86_400_000_000_000 + 6) % 7 == weekday
    case Monthly(day, offset) =>
      exists y: int, k: int :: 0 <= k < 12 && t == (DaysBefore(y, k) + day - 1) * 86_400_000_000_000 + offset
  }

  /** The same, as the code walks the calendar. */
  ghost predicate Named(s: Spec, t: int)
  {
    match s
    case Daily(offset) => t == DayOf(t) * DAY + offset
    case Weekly(weekday, offset) => t == DayOf(t) * DAY + offset && Weekday(DayOf(t)) == weekday
    case Monthly(_, _) => exists m :: t == MonthSlot(s, m)
  }

  lemma Every4(y: int)
    ensures (y + 4) / 4 == (y + 3) / 4 + if y % 4 == 0 then 1 else 0
  {
  }

  lemma Every100(y: int)
    ensures (y + 100) / 100 == (y + 99) / 100 + if y % 100 == 0 then 1 else 0
  {
  }

  lemma Every400(y: int)
    ensures (y + 400) / 400 == (y + 399) / 400 + if y % 400 == 0 then 1 else 0
  {
  }

  lemma Hundreds(m: int)
    ensures (100 * (4 * m)) % 100 == 0
  {
  }

  lemma Fours(m: int)
    ensures (4 * (25 * m)) % 4 == 0
  {
  }

  lemma Multiples(y: int)
    ensures (y % 400 == 0 ==> y % 100 == 0) && (y % 100 == 0 ==> y % 4 == 0)
  {
    if y % 400 == 0 {
      Hundreds(y / 400);
    }
    if y % 100 == 0 {
      Fours(y / 100);
    }
  }

  lemma CountedLeap(y: int, a: int, b: int, c: int, a': int, b': int, c': int)
    requires a' == a + (if y % 4 == 0 then 1 else 0) && b' == b + (if y % 100 == 0 then 1 else 0)
    requires c' == c + if y % 400 == 0 then 1 else 0
    ensures a' - b' + c' == a - b + c + if IsLeap(y) then 1 else 0
  {
    Multiples(y);
  }

  /** The next year starts 365 or 366 days later. */
  lemma YearIsLong(y: int)
    ensures DaysBefore(y + 1, 0) == DaysBefore(y, 0) + if IsLeap(y) then 366 else 365
  {
    Every4(y);
    Every100(y);
    Every400(y);
    CountedLeap(y, (y + 3) / 4, (y + 99) / 100, (y + 399) / 400, (y + 4) / 4, (y + 100) / 100, (y + 400) / 400);
  }

  lemma MonthsOfYear(y: int, k: int)
    requires 0 <= k < 12
    ensures Length(12 * y + k) == if k == 1 then if IsLeap(y) then 29 else 28 else if k in {3, 5, 8, 10} then 30 else 31
  {
    assert (12 * y + k) % 12 == k && (12 * y + k) / 12 == y;
  }

  lemma {:induction false} MonthInYear(y: int, k: int)
    requires 0 <= k <= 12
    ensures MonthStart(12 * y + k) == MonthStart(12 * y) +
      if k == 12 then if IsLeap(y) then 366 else 365 else BEFORE[k] + if k >= 2 && IsLeap(y) then 1 else 0
  {
    if k > 0 {
      MonthInYear(y, k - 1);
      MonthsOfYear(y, k - 1);
      MonthLength(12 * y + k - 1);
    }
  }

  lemma {:induction false} YearStart(y: int)
    ensures MonthStart(12 * y) == DaysBefore(y, 0)
    decreases if y < 0 then -y else y
  {
    if y > 0 {
      YearStart(y - 1);
      MonthInYear(y - 1, 12);
      YearIsLong(y - 1);
      assert 12 * (y - 1) + 12 == 12 * y;
    } else if y < 0 {
      YearStart(y + 1);
      MonthInYear(y, 12);
      YearIsLong(y);
      assert 12 * y + 12 == 12 * (y + 1);
    }
  }

  /** Walking month by month gives the calendar. */
  lemma MonthStartExact(y: int, k: int)
    requires 0 <= k < 12
    ensures MonthStart(12 * y + k) == DaysBefore(y, k)
  {
    YearStart(y);
    MonthInYear(y, k);
  }

  /** 400 years are 146097 days, a whole number of weeks. */
  lemma GregorianPeriod(y: int, k: int)
    requires 0 <= k < 12
    ensures DaysBefore(y + 400, k) == DaysBefore(y, k) + 146097 && 146097 % 7 == 0
  {
    assert (y + 400) % 4 == y % 4 && (y + 400) % 100 == y % 100 && (y + 400) % 400 == y % 400;
    assert (y + 400 + 3) / 4 == (y + 3) / 4 + 100;
    assert (y + 400 + 99) / 100 == (y + 99) / 100 + 4;
    assert (y + 400 + 399) / 400 == (y + 399) / 400 + 1;
  }

  /** Dates that fix the calendar: January 1, 1970 was a Thursday. */
  lemma KnownEpoch()
    ensures Weekday(MonthStart(12 * 1970)) == 4
  {
    MonthStartExact(1970, 0);
    var epoch := DaysBefore(1970, 0);
    assert epoch == 719528;
  }

  /** So was February 29, 2024. */
  lemma KnownLeapDay()
    ensures Weekday(MonthStart(12 * 2024 + 1) + 28) == 4
  {
    MonthStartExact(2024, 1);
    assert BEFORE[1] == 31;
    assert (2024 + 3) / 4 == 506 && (2024 + 99) / 100 == 21 && (2024 + 399) / 400 == 6;
    var february := DaysBefore(2024, 1);
    assert february == 365 * 2024 + 506 - 21 + 6 + 31 == 739282;
    assert (february + 28 + 6) % 7 == 4;
  }

  /** February of 2024 had 29 days, of 2023, 2100 and 2000 it is 28, 28 and 29. */
  lemma KnownFebruaries()
    ensures Length(12 * 2024 + 1) == 29 && Length(12 * 2023 + 1) == 28
    ensures Length(12 * 2100 + 1) == 28 && Length(12 * 2000 + 1) == 29
  {
    MonthsOfYear(2024, 1);
    MonthsOfYear(2023, 1);
    MonthsOfYear(2100, 1);
    MonthsOfYear(2000, 1);
  }

  lemma MonthlyIff(s: Spec, t: int)
    requires s.Monthly?
    ensures Fires(s, t) <==> Named(s, t)
  {
    if y: int, k: int :| 0 <= k < 12 && t == (DaysBefore(y, k) + s.day - 1) * 86_400_000_000_000 + s.offset {
      MonthStartExact(y, k);
      assert t == MonthSlot(s, 12 * y + k);
    }
    if m: int :| t == MonthSlot(s, m) {
      var y, k := m / 12, m % 12;
      MonthStartExact(y, k);
      assert m == 12 * y + k;
    }
  }

  lemma FiresIff(s: Spec, t: int)
    requires WellFormed(s)
    ensures Fires(s, t) <==> Named(s, t)
  {
    if s.Monthly? {
      MonthlyIff(s, t);
    }
  }

  lemma DaySplit(d: int, offset: int)
    requires 0 <= offset < DAY
    ensures DayOf(d * DAY + offset) == d
  {
  }

  function NextSlot(s: Spec, now: int): int
  {
    var day := DayOf(now);
    match s
    case Daily(offset) =>
      var n := day * DAY + offset;
      if n > now then n else n + DAY
    case Weekly(weekday, offset) =>
      var n := (day + (weekday - Weekday(day) + 7) % 7) * DAY + offset;
      if n > now then n else n + 7 * DAY
    case Monthly(d, offset) =>
      var n := MonthSlot(s, MonthOf(day));
      if n > now then n else MonthSlot(s, MonthOf(day) + 1)
  }

  lemma DailyIsLeast(s: Spec, now: int)
    requires WellFormed(s) && s.Daily?
    ensures NextSlot(s, now) > now && Named(s, NextSlot(s, now))
    ensures forall t :: t > now && Named(s, t) ==> NextSlot(s, now) <= t
  {
    DaySplit(DayOf(now), s.offset);
    DaySplit(DayOf(now) + 1, s.offset);
  }

  lemma WeekdayAhead(day: int, weekday: int)
    requires 0 <= weekday < 7
    ensures var ahead := (weekday - Weekday(day) + 7) % 7;
      0 <= ahead < 7 && Weekday(day + ahead) == weekday && Weekday(day + ahead + 7) == weekday
  {
  }

  lemma WeeklyNamed(s: Spec, now: int)
    requires WellFormed(s) && s.Weekly?
    ensures NextSlot(s, now) > now && Named(s, NextSlot(s, now))
  {
    var day := DayOf(now);
    var ahead := (s.weekday - Weekday(day) + 7) % 7;
    WeekdayAhead(day, s.weekday);
    DaySplit(day + ahead, s.offset);
    DaySplit(day + ahead + 7, s.offset);
  }

  /** Of the days from day on, the first with the weekday is ahead days away,
      the second a week later. */
  lemma FirstWeekday(day: int, d: int, weekday: int)
    requires 0 <= weekday < 7 && day <= d && Weekday(d) == weekday
    ensures var ahead := (weekday - Weekday(day) + 7) % 7;
      d == day + ahead || d >= day + ahead + 7
  {
    var x, y := Weekday(day), (day + 6) / 7;
    var z := (d + 6) / 7;
    assert day + 6 == 7 * y + x && d + 6 == 7 * z + weekday;
    assert (weekday - x + 7) % 7 == if weekday >= x then weekday - x else weekday - x + 7;
  }

  lemma LaterDay(a: int, b: int, offset: int)
    ensures a <= b ==> a * DAY + offset <= b * DAY + offset
    ensures a + 7 <= b ==> a * DAY + offset + 7 * DAY <= b * DAY + offset
  {
  }

  lemma WithinDays(start: int, end: int, t: int)
    requires start <= DayOf(t) < end
    ensures start * DAY <= t < end * DAY
  {
  }

  lemma WeeklyNotBefore(s: Spec, now: int, t: int)
    requires WellFormed(s) && s.Weekly? && t > now && Named(s, t)
    ensures NextSlot(s, now) <= t
  {
    var day, d := DayOf(now), DayOf(t);
    WithinDays(day, d + 1, now);
    FirstWeekday(day, d, s.weekday);
    LaterDay(day + (s.weekday - Weekday(day) + 7) % 7, d, s.offset);
  }

  lemma WeeklyIsLeast(s: Spec, now: int)
    requires WellFormed(s) && s.Weekly?
    ensures NextSlot(s, now) > now && Named(s, NextSlot(s, now))
    ensures forall t :: t > now && Named(s, t) ==> NextSlot(s, now) <= t
  {
    WeeklyNamed(s, now);
    forall t | t > now && Named(s, t)
      ensures NextSlot(s, now) <= t
    {
      WeeklyNotBefore(s, now, t);
    }
  }

  lemma InMonth(start: int, end: int, day: int, offset: int)
    requires start + 28 <= end && 1 <= day <= 28 && 0 <= offset < DAY
    ensures start * DAY <= (start + day - 1) * DAY + offset < end * DAY
  {
  }

  lemma SlotInMonth(s: Spec, m: int)
    requires WellFormed(s) && s.Monthly?
    ensures MonthStart(m) * DAY <= MonthSlot(s, m) < MonthStart(m + 1) * DAY
  {
    MonthLength(m);
    InMonth(MonthStart(m), MonthStart(m + 1), s.day, s.offset);
  }

  lemma NowInMonth(now: int)
    ensures var m := MonthOf(DayOf(now)); MonthStart(m) * DAY <= now < MonthStart(m + 1) * DAY
  {
    var m := MonthOf(DayOf(now));
    WithinDays(MonthStart(m), MonthStart(m + 1), now);
  }

  lemma Apart(a: int, b: int, day: int, offset: int)
    requires a + 28 <= b
    ensures (a + day - 1) * DAY + offset + 28 * DAY <= (b + day - 1) * DAY + offset
  {
  }

  lemma MonthSlotsInOrder(s: Spec, m: int, k: int)
    requires WellFormed(s) && s.Monthly? && m < k
    ensures MonthSlot(s, m) + 28 * DAY <= MonthSlot(s, k)
  {
    MonthsInOrder(m, k);
    Apart(MonthStart(m), MonthStart(k), s.day, s.offset);
  }

  lemma NotBefore(s: Spec, now: int, k: int)
    requires WellFormed(s) && s.Monthly? && MonthSlot(s, k) > now
    ensures NextSlot(s, now) <= MonthSlot(s, k)
  {
    var m := MonthOf(DayOf(now));
    NowInMonth(now);
    if k < m {
      SlotInMonth(s, m - 1);
      if k < m - 1 {
        MonthSlotsInOrder(s, k, m - 1);
      }
    } else if k > m {
      if k > m + 1 {
        MonthSlotsInOrder(s, m + 1, k);
      }
      MonthSlotsInOrder(s, m, k);
    }
  }

  lemma MonthlyIsLeast(s: Spec, now: int)
    requires WellFormed(s) && s.Monthly?
    ensures NextSlot(s, now) > now && Named(s, NextSlot(s, now))
    ensures forall t :: t > now && Named(s, t) ==> NextSlot(s, now) <= t
  {
    var m := MonthOf(DayOf(now));
    NowInMonth(now);
    SlotInMonth(s, m + 1);
    forall t | t > now && Named(s, t)
      ensures NextSlot(s, now) <= t
    {
      var k :| t == MonthSlot(s, k);
      NotBefore(s, now, k);
    }
  }

  /** `Next` is the least instant strictly after now that the schedule
      names. */
  lemma NextIsLeast(s: Spec, now: int)
    requires WellFormed(s)
    ensures NextSlot(s, now) > now && Fires(s, NextSlot(s, now))
    ensures forall t :: t > now && Fires(s, t) ==> NextSlot(s, now) <= t
  {
    match s {
      case Daily(_) => DailyIsLeast(s, now);
      case Weekly(_, _) => WeeklyIsLeast(s, now);
      case Monthly(_, _) => MonthlyIsLeast(s, now);
    }
    FiresIff(s, NextSlot(s, now));
    forall t | t > now && Fires(s, t)
      ensures NextSlot(s, now) <= t
    {
      FiresIff(s, t);
    }
  }

  /** `Next`: the least instant after now that the schedule names. */
  method Next(s: Spec, now: int) returns (n: int)
    requires 0 <= s.offset < 86_400_000_000_000
    requires (s.Weekly? ==> 0 <= s.weekday <= 6) && (s.Monthly? ==> 1 <= s.day <= 28)
    ensures n > now && Fires(s, n)
    ensures forall t :: t > now && Fires(s, t) ==> n <= t
    ensures n == NextSlot(s, now)
  {
    NextIsLeast(s, now);
    var day := DayOf(now);
    match s {
      case Daily(offset) =>
        n := day * DAY + offset;
        if n <= now {
          n := n + DAY;
        }
      case Weekly(weekday, offset) =>
        n := (day + (weekday - Weekday(day) + 7) % 7) * DAY + offset;
        if n <= now {
          n := n + 7 * DAY;
        }
      case Monthly(d, offset) =>
        var m := MonthOf(day);
        n := (MonthStart(m) + d - 1) * DAY + offset;
        if n <= now {
          n := (MonthStart(m + 1) + d - 1) * DAY + offset;
        }
    }
  }

  lemma DaysApart(a: int, b: int, offset: int)
    requires a * DAY + offset < b * DAY + offset
    ensures b * DAY + offset - (a * DAY + offset) >= DAY
  {
  }

  /** Two slots of one schedule are a day apart. */
  lemma SlotsApart(s: Spec, t: int, u: int)
    requires WellFormed(s) && Fires(s, t) && Fires(s, u) && t < u
    ensures u - t >= 86_400_000_000_000
  {
    FiresIff(s, t);
    FiresIff(s, u);
    if s.Monthly? {
      var m :| t == MonthSlot(s, m);
      var k :| u == MonthSlot(s, k);
      if k < m {
        MonthSlotsInOrder(s, k, m);
      } else if m < k {
        MonthSlotsInOrder(s, m, k);
      }
    } else {
      DaysApart(DayOf(t), DayOf(u), s.offset);
    }
  }

  // --------------------------------------------------------------- the loop

  const LOOK_BACK: int := 2 * MINUTE
  const MIN_WAIT: int := 3 * MINUTE

  /** Looking at the clock at now, the loop runs slot u exactly when u came at
      most two minutes ago. */
  lemma DueIff(s: Spec, now: int, u: int)
    requires WellFormed(s) && Fires(s, u)
    ensures NextSlot(s, now - LOOK_BACK) == u && u <= now <==> u <= now < u + 120_000_000_000
  {
    NextIsLeast(s, now - LOOK_BACK);
    if u <= now < u + LOOK_BACK {
      var n := NextSlot(s, now - LOOK_BACK);
      if n < u {
        SlotsApart(s, n, u);
      }
    }
  }

  /** A slot at four in the morning that is looked for a second before and, after
      a run of another component, three minutes later is run neither time. */
  lemma LateLookMisses()
    ensures var s, early, late := Daily(4 * HOUR), 4 * HOUR - MINUTE / 60, 4 * HOUR + MIN_WAIT;
      && WellFormed(s) && Fires(s, 4 * HOUR) && early < 4 * HOUR <= late
      && NextSlot(s, early - LOOK_BACK) > early && NextSlot(s, late - LOOK_BACK) > late
  {
    DaySplit(0, 4 * HOUR);
    DaySplit(0, 4 * HOUR - MINUTE / 60 - LOOK_BACK);
    DaySplit(0, 4 * HOUR + MIN_WAIT - LOOK_BACK);
  }

  /** A run that was started: the component, its schedule then, the slot, and
      when. */
  datatype Run = Run(name: string, spec: Spec, slot: int, at: int)

  /** Every run is for a slot of its schedule at most two minutes old. */
  ghost predicate Timely(log: seq<Run>)
  {
    forall i :: 0 <= i < |log| ==>
      WellFormed(log[i].spec) && Fires(log[i].spec, log[i].slot) && log[i].slot <= log[i].at < log[i].slot + 120_000_000_000
  }

  /** Per component, later runs are for later slots. */
  ghost predicate SlotsIncrease(log: seq<Run>)
  {
    forall i, j :: 0 <= i < j < |log| && log[i].name == log[j].name ==> log[i].slot < log[j].slot
  }

  /** A look at the clock, and the schedules as they were stored then. */
  datatype Look = Look(now: int, stored: seq<Option<Spec>>)

  /** The schedule names an instant at most two minutes ago. */
  ghost predicate Due(spec: Option<Spec>, now: int)
  {
    spec.Some? && WellFormed(spec.value) && exists u :: Fires(spec.value, u) && u <= now < u + 120_000_000_000
  }

  /** A sleep from now of this length ends before any later slot. */
  ghost predicate WakesFor(spec: Option<Spec>, now: int, wait: int)
  {
    spec.Some? && WellFormed(spec.value) ==> forall u :: Fires(spec.value, u) && u > now ==> now + wait <= u
  }

  /** The run is of the k-th component, by its stored schedule. */
  ghost predicate RunOf(names: seq<string>, stored: seq<Option<Spec>>, r: Run, k: int)
  {
    0 <= k < |names| && k < |stored| && r.name == names[k] && stored[k] == Some(r.spec)
  }

  ghost predicate SomeRunOf(names: seq<string>, stored: seq<Option<Spec>>, r: Run)
  {
    exists k :: RunOf(names, stored, r, k)
  }

  ghost predicate Started(runs: seq<Run>, name: string)
  {
    exists r :: r in runs && r.name == name
  }

  /** The runs started at a look: exactly what was due, each by its stored
      schedule. */
  ghost predicate StartsDue(names: seq<string>, look: Look, runs: seq<Run>)
  {
    && |look.stored| == |names|
    && (forall i :: 0 <= i < |names| ==> (Due(look.stored[i], look.now) <==> Started(runs, names[i])))
    && (forall r :: r in runs ==> r.at == look.now && SomeRunOf(names, look.stored, r))
  }

  /** The log is made of what every look started. */
  ghost predicate Explained(names: seq<string>, looks: seq<Look>, log: seq<Run>)
    decreases |looks|
  {
    if looks == [] then log == []
    else
      var last := looks[|looks| - 1];
      exists n :: 0 <= n <= |log| && StartsDue(names, last, log[n..]) && Explained(names, looks[..|looks| - 1], log[..n])
  }

  lemma ExplainedSnoc(names: seq<string>, looks: seq<Look>, log: seq<Run>, look: Look, runs: seq<Run>)
    requires Explained(names, looks, log) && StartsDue(names, look, runs)
    ensures Explained(names, looks + [look], log + runs)
  {
    var all, more := log + runs, looks + [look];
    assert all[|log|..] == runs && all[..|log|] == log;
    assert more[..|more| - 1] == looks && more[|more| - 1] == look;
  }

  lemma StartedSnoc(runs: seq<Run>, r: Run, name: string)
    ensures Started(runs + [r], name) <==> Started(runs, name) || r.name == name
  {
    if Started(runs, name) {
      var q :| q in runs && q.name == name;
      assert q in runs + [r];
    }
    assert r in runs + [r];
  }

  lemma RunOfLonger(names: seq<string>, stored: seq<Option<Spec>>, i: nat, r: Run)
    requires i < |names| == |stored|
    requires SomeRunOf(names[..i], stored[..i], r) || RunOf(names, stored, r, i)
    ensures SomeRunOf(names[..i + 1], stored[..i + 1], r)
  {
    var xs, ys := names[..i + 1], stored[..i + 1];
    var k: int := i;
    if !RunOf(names, stored, r, i) {
      k :| RunOf(names[..i], stored[..i], r, k);
    }
    assert RunOf(xs, ys, r, k);
  }

  lemma NoneYet(names: seq<string>, stored: seq<Option<Spec>>, i: nat, now: int, due: seq<Run>)
    requires i < |names| == |stored| && forall k, l :: 0 <= k < l < |names| ==> names[k] != names[l]
    requires StartsDue(names[..i], Look(now, stored[..i]), due)
    ensures !Started(due, names[i])
  {
    forall r | r in due
      ensures r.name != names[i]
    {
      var k :| RunOf(names[..i], stored[..i], r, k);
    }
  }

  /** One more component is looked at. */
  lemma StartsNext(names: seq<string>, stored: seq<Option<Spec>>, i: nat, now: int, due: seq<Run>, slot: int)
    requires i < |names| == |stored| && forall k, l :: 0 <= k < l < |names| ==> names[k] != names[l]
    requires StartsDue(names[..i], Look(now, stored[..i]), due)
    ensures !Due(stored[i], now) ==> StartsDue(names[..i + 1], Look(now, stored[..i + 1]), due)
    ensures Due(stored[i], now) ==>
      StartsDue(names[..i + 1], Look(now, stored[..i + 1]), due + [Run(names[i], stored[i].value, slot, now)])
  {
    NoneYet(names, stored, i, now, due);
    var runs := if Due(stored[i], now) then due + [Run(names[i], stored[i].value, slot, now)] else due;
    var xs, ys := names[..i + 1], stored[..i + 1];
    forall k | 0 <= k < |xs|
      ensures Due(ys[k], now) <==> Started(runs, xs[k])
    {
      if Due(stored[i], now) {
        StartedSnoc(due, Run(names[i], stored[i].value, slot, now), names[k]);
      }
      assert k < i ==> names[..i][k] == names[k] && stored[..i][k] == stored[k];
    }
    forall r | r in runs
      ensures SomeRunOf(names[..i + 1], stored[..i + 1], r)
    {
      assert r in due || RunOf(names, stored, r, i);
      RunOfLonger(names, stored, i, r);
    }
  }

  lemma TimelySnoc(due: seq<Run>, r: Run)
    requires Timely(due) && WellFormed(r.spec) && Fires(r.spec, r.slot) && r.slot <= r.at < r.slot + 120_000_000_000
    requires forall k, l :: 0 <= k < l < |due| ==> due[k].name != due[l].name
    requires !Started(due, r.name)
    ensures Timely(due + [r]) && forall k, l :: 0 <= k < l < |due + [r]| ==> (due + [r])[k].name != (due + [r])[l].name
  {
    forall k | 0 <= k < |due|
      ensures due[k].name != r.name
    {
      assert due[k] in due;
    }
  }

  /** Runs at a later look are for later slots. */
  lemma RunsGrow(log: seq<Run>, due: seq<Run>, now: int)
    requires Timely(log) && SlotsIncrease(log) && Timely(due) && forall i :: 0 <= i < |log| ==> log[i].slot + LOOK_BACK <= now
    requires forall k :: 0 <= k < |due| ==> due[k].at == now
    requires forall k, l :: 0 <= k < l < |due| ==> due[k].name != due[l].name
    ensures Timely(log + due) && SlotsIncrease(log + due)
    ensures forall i :: 0 <= i < |log + due| ==> (log + due)[i].slot <= now
  {
  }

  lemma NothingDue(names: seq<string>, look: Look, runs: seq<Run>)
    requires StartsDue(names, look, runs) && runs == []
    ensures forall i :: 0 <= i < |look.stored| ==> !Due(look.stored[i], look.now)
  {
  }

  class Scheduler {
    const names: seq<string>
    var clock: int
    var log: seq<Run>
    ghost var looks: seq<Look>

    /** At the head of the loop every run lies more than the look-back behind. */
    ghost predicate Valid()
      reads this
    {
      && (forall i, j :: 0 <= i < j < |names| ==> names[i] != names[j])
      && Timely(log) && SlotsIncrease(log) && Explained(names, looks, log)
      && (forall i :: 0 <= i < |log| ==> log[i].slot + LOOK_BACK <= clock)
    }

    constructor (names: seq<string>, start: int)
      requires forall i, j :: 0 <= i < j < |names| ==> names[i] != names[j]
      ensures Valid() && log == [] && looks == [] && this.names == names
    {
      this.names, clock, log, looks := names, start, [], [];
    }

    /** Time passes; the clock never goes back. */
    method Elapse(least: int)
      modifies this`clock
      ensures clock >= old(clock) && clock >= old(clock) + least
    {
      var extra: nat :| true;
      clock := clock + extra + if least > 0 then least else 0;
    }

    /** `RunScheduler` until it is told to stop, whatever the stored schedules
        say each time they are read and however long the runs take: every look
        starts exactly what is due then, and no slot is ever run twice. */
    method RunScheduler(turns: nat)
      requires Valid()
      modifies this
      ensures Valid()
      ensures old(log) <= log && |looks| == |old(looks)| + turns
    {
      for i := 0 to turns
        invariant Valid() && old(log) <= log && |looks| == |old(looks)| + i
      {
        var stored: seq<Option<Spec>> := *;
        if |stored| != |names| {
          stored := seq(|names|, _ => None);
        }
        var wait, due := Turn(stored);
      }
    }

    /** One turn: look at the clock, start what is due, and sleep, an hour at
        most and not past the next slot, but at least three minutes after a
        run. */
    method Turn(stored: seq<Option<Spec>>) returns (wait: int, ghost due: seq<Run>)
      requires Valid() && |stored| == |names|
      modifies this
      ensures Valid() && log == old(log) + due
      ensures looks == old(looks) + [Look(old(clock), stored)]
      ensures StartsDue(names, Look(old(clock), stored), due)
      ensures wait <= 3_600_000_000_000 && clock >= old(clock) + wait
      ensures due != [] ==> wait >= 180_000_000_000
      ensures wait > 180_000_000_000 ==>
        forall i :: 0 <= i < |stored| && !Due(stored[i], old(clock)) ==> WakesFor(stored[i], old(clock), wait)
      ensures due == [] ==> forall i :: 0 <= i < |stored| ==> WakesFor(stored[i], old(clock), wait)
    {
      var now := clock;
      var runs;
      wait, runs := LookAll(stored);
      due := runs;
      ghost var look := Look(now, stored);
      ghost var log0, looks0 := log, looks;
      ExplainedSnoc(names, looks0, log0, look, due);
      RunsGrow(log0, due, now);
      if due == [] {
        NothingDue(names, look, due);
      }
      StartAll(runs, now);
      looks := looks0 + [look];
      assert log == log0 + due && Explained(names, looks, log);
      if |runs| > 0 && wait < MIN_WAIT {
        wait := MIN_WAIT;
      }
      Elapse(wait);
    }

    /** What is due, and how long until the next slot of what is not. */
    method LookAll(stored: seq<Option<Spec>>) returns (wait: int, due: seq<Run>)
      requires |stored| == |names| && forall i, j :: 0 <= i < j < |names| ==> names[i] != names[j]
      modifies this`clock
      ensures clock >= old(clock) && wait <= HOUR
      ensures Timely(due) && StartsDue(names, Look(old(clock), stored), due)
      ensures forall k, l :: 0 <= k < l < |due| ==> due[k].name != due[l].name
      ensures forall i :: 0 <= i < |stored| && !Due(stored[i], old(clock)) ==> WakesFor(stored[i], old(clock), wait)
    {
      var now := clock;
      wait, due := HOUR, [];
      for i := 0 to |names|
        invariant clock >= now && wait <= HOUR
        invariant Timely(due) && forall k, l :: 0 <= k < l < |due| ==> due[k].name != due[l].name
        invariant StartsDue(names[..i], Look(now, stored[..i]), due)
        invariant forall k :: 0 <= k < i && !Due(stored[k], now) ==> WakesFor(stored[k], now, wait)
      {
        var next := SlotAt(stored[i], now);
        StartsNext(names, stored, i, now, due, if next.Some? then next.value else 0);
        NoneYet(names, stored, i, now, due);
        if next.None? {
          continue;
        }
        if next.value <= now {
          TimelySnoc(due, Run(names[i], stored[i].value, next.value, now));
          due := due + [Run(names[i], stored[i].value, next.value, now)];
          continue;
        }
        Elapse(0);
        if next.value - clock < wait {
          wait := next.value - clock;
        }
      }
      assert names[..|names|] == names && stored[..|names|] == stored;
    }

    /** The first slot after two minutes ago, if there is a schedule. */
    method SlotAt(spec: Option<Spec>, now: int) returns (next: Option<int>)
      ensures next.Some? <==> spec.Some? && WellFormed(spec.value)
      ensures next.Some? ==> Fires(spec.value, next.value) && now < next.value + 120_000_000_000
      ensures next.Some? ==> (next.value <= now <==> Due(spec, now))
      ensures next.Some? && next.value > now ==> forall u :: Fires(spec.value, u) && u > now ==> next.value <= u
    {
      if spec.None? || !WellFormed(spec.value) {
        return None;
      }
      var n := Next(spec.value, now - LOOK_BACK);
      return Some(n);
    }

    /** Start what is due. */
    method StartAll(due: seq<Run>, now: int)
      requires clock >= now
      requires Timely(due) && forall k :: 0 <= k < |due| ==> due[k].at == now
      modifies this`log, this`clock
      ensures log == old(log) + due && clock >= old(clock)
    {
      for i := 0 to |due|
        invariant log == old(log) + due[..i] && clock >= old(clock)
      {
        Elapse(0);
        log := log + [due[i]];
        assert due[..i + 1] == due[..i] + [due[i]];
      }
      assert due[..|due|] == due;
    }
  }
}
