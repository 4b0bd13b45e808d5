/**
 When a periodic task runs next. Times are local nanoseconds of a zone with a fixed
 offset; day 0 is a Thursday, weekday 0 a Sunday.
 */
module NextTime {
  import opened Prelude
  import opened Integers
  import opened Calendar

  const SECOND := 1000000000
  const MINUTE := 60 * SECOND
  const HOUR := 60 * MINUTE
  const DAY := 24 * HOUR

  /** A schedule after parsing; `None` (or false) where the text does not parse. */
  datatype Schedule =
    | Hourly(minute: Option<int>)
    | Daily(second: Option<int>)
    | Weekly(days: seq<int>, second: Option<int>)
    | Monthly(day: int, second: Option<int>)
    | Cron(parses: bool)
    | Unsupported

  /** Zero is Go's zero time, the answer when no weekday is given. */
  datatype Next = Error | Zero | At(t: int)

  function Weekday(day: int): int {
    (day + 4) % 7
  }

  predicate SecondOfDay(s: int) {
    0 <= s < 86400
  }

  predicate WellParsed(s: Schedule) {
    match s
    case Daily(second) => second.Some? ==> SecondOfDay(second.value)
    case Weekly(days, second) => (second.Some? ==> SecondOfDay(second.value)) && forall d :: d in days ==> 0 <= d < 7
    case Monthly(day, second) => (second.Some? ==> SecondOfDay(second.value)) && 1 <= day <= 31
    case _ => true
  }

  /** What the cron library may answer: a later time, or the zero time if it finds none. */
  predicate CronAnswer(cron: Next, now: int) {
    cron.Zero? || (cron.At? && now < cron.t)
  }

  /** Is this one of the schedule's instants? */
  predicate Matches(s: Schedule, t: int) {
    match s
    case Hourly(minute) => minute.Some? && t % HOUR == minute.value * MINUTE
    case Daily(second) => second.Some? && t % DAY == second.value * SECOND
    case Weekly(days, second) => second.Some? && t % DAY == second.value * SECOND && Weekday(t / DAY) in days
    case Monthly(day, second) => second.Some? && t % DAY == second.value * SECOND && DayOf(t / DAY) == day
    case _ => false
  }

  /** The first of the schedule's instants that is not before `from`. */
  ghost predicate Earliest(s: Schedule, from: int, t: int) {
    Matches(s, t) && from <= t && forall u :: Matches(s, u) && from <= u ==> t <= u
  }

  /** The schedule's instant on a given day. */
  function OnDay(day: int, second: int): int {
    day * DAY + second * SECOND
  }

  lemma OnDayExact(day: int, second: int)
    requires SecondOfDay(second)
    ensures OnDay(day, second) / DAY == day && OnDay(day, second) % DAY == second * SECOND
  {
    DivUnique(OnDay(day, second), DAY, day, second * SECOND);
  }

  lemma MatchingDay(t: int, second: int)
    requires t % DAY == second * SECOND
    ensures t == OnDay(t / DAY, second)
  {
  }

  method NextHourly(minute: Option<int>, now: int) returns (r: Next)
    ensures minute.None? || !(0 <= minute.value <= 59) ==> r.Error?
    ensures minute.Some? && 0 <= minute.value <= 59 ==>
              && r.At? && Matches(Hourly(minute), r.t) && now < r.t
              && forall u :: Matches(Hourly(minute), u) && now < u ==> r.t <= u
  {
    if minute.None? || minute.value > 59 || minute.value < 0 {
      return Error;
    }
    var m := minute.value;
    var hour, current := now / HOUR, now / MINUTE % 60;
    var next := if m > current then hour else hour + 1;
    r := At(next * HOUR + m * MINUTE);
    HourlyStart(m, now);
    HourlyEarliest(m, now, next);
  }

  /** The hour chosen is the only one whose instant lies ahead by at most an hour. */
  lemma HourlyStart(m: int, now: int)
    requires 0 <= m <= 59
    ensures var next := if m > now / MINUTE % 60 then now / HOUR else now / HOUR + 1;
            next * HOUR + m * MINUTE - HOUR <= now < next * HOUR + m * MINUTE
  {
    HourSplit(now);
  }

  lemma HourlyEarliest(m: int, now: int, next: int)
    requires 0 <= m <= 59 && next * HOUR + m * MINUTE - HOUR <= now
    ensures Matches(Hourly(Some(m)), next * HOUR + m * MINUTE)
    ensures forall u :: Matches(Hourly(Some(m)), u) && now < u ==> next * HOUR + m * MINUTE <= u
  {
    DivUnique(next * HOUR + m * MINUTE, HOUR, next, m * MINUTE);
    forall u | u % HOUR == m * MINUTE && now < u
      ensures next * HOUR + m * MINUTE <= u
    {
      assert u == u / HOUR * HOUR + m * MINUTE;
    }
  }

  /** The current minute, from the hour's start. */
  lemma HourSplit(now: int)
    ensures var m := now / MINUTE % 60;
            now / HOUR * HOUR + m * MINUTE <= now < now / HOUR * HOUR + m * MINUTE + MINUTE
  {
    var q := now / MINUTE;
    assert q == q / 60 * 60 + q % 60;
    DivUnique(now, HOUR, q / 60, q % 60 * MINUTE + now % MINUTE);
  }

  /** A day's instant that is not over yet, else tomorrow's: the present instant itself may be the answer. */
  method NextDaily(second: Option<int>, now: int) returns (r: Next)
    requires WellParsed(Daily(second))
    ensures second.None? ==> r.Error?
    ensures second.Some? ==>
              && r.At? && Matches(Daily(second), r.t) && now <= r.t
              && (forall u :: Matches(Daily(second), u) && now <= u ==> r.t <= u)
              && (now < r.t <==> now % DAY != second.value * SECOND)
  {
    if second.None? {
      return Error;
    }
    var today := now / DAY;
    var t := OnDay(today, second.value);
    OnDayExact(today, second.value);
    OnDayExact(today + 1, second.value);
    r := At(if t < now then t + DAY else t);
    forall u | u % DAY == second.value * SECOND && now <= u
      ensures r.t <= u
    {
      MatchingDay(u, second.value);
    }
  }

  /** Seven days are searched for an instant still to come, then the seven after them for any. */
  method NextWeekly(days: seq<int>, second: Option<int>, now: int) returns (r: Next)
    requires WellParsed(Weekly(days, second))
    ensures second.None? <==> r.Error?
    ensures second.Some? ==> (r.Zero? <==> days == [])
    ensures r.At? ==>
              && Matches(Weekly(days, second), r.t) && now < r.t
              && forall u :: Matches(Weekly(days, second), u) && now < u ==> r.t <= u
  {
    if second.None? {
      return Error;
    }
    var s, today := second.value, now / DAY;
    for i := 0 to 7
      invariant forall day :: today <= day < today + i ==> !Offers(days, s, now, day)
    {
      for j := 0 to |days|
        invariant Weekday(today + i) in days[..j] ==> OnDay(today + i, s) <= now
      {
        if days[j] == Weekday(today + i) {
          var next := OnDay(today + i, s);
          if next > now {
            WeeklyEarliest(days, s, now, today + i);
            return At(next);
          }
        }
      }
      assert days[..|days|] == days;
    }
    for i := 0 to 7
      invariant forall day :: today <= day < today + 7 + i ==> !Offers(days, s, now, day)
      invariant forall day :: today + 7 <= day < today + 7 + i ==> Weekday(day) !in days
    {
      for j := 0 to |days|
        invariant Weekday(today + 7 + i) !in days[..j]
      {
        if days[j] == Weekday(today + 7 + i) {
          LaterDay(today + 7 + i, s, now);
          WeeklyEarliest(days, s, now, today + 7 + i);
          return At(OnDay(today + 7 + i, s));
        }
      }
      assert days[..|days|] == days;
    }
    if days != [] {
      assert days[0] in days;
      var day := EveryWeekday(today + 7, days[0]);
    }
    return Zero;
  }

  /** Does this day hold one of the weekly instants, still to come? */
  predicate Offers(days: seq<int>, s: int, now: int, day: int) {
    Weekday(day) in days && OnDay(day, s) > now
  }

  lemma LaterDay(day: int, s: int, now: int)
    requires SecondOfDay(s) && day > now / DAY
    ensures OnDay(day, s) > now
  {
  }

  /** Seven days in a row meet every weekday. */
  lemma EveryWeekday(from: int, d: int) returns (day: int)
    requires 0 <= d < 7
    ensures from <= day < from + 7 && Weekday(day) == d
  {
    day := from + (d - Weekday(from)) % 7;
  }

  /** If no earlier day offers an instant to come, the instant found is the earliest of all. */
  lemma WeeklyEarliest(days: seq<int>, s: int, now: int, day: int)
    requires SecondOfDay(s) && now / DAY <= day && Offers(days, s, now, day)
    requires forall e :: now / DAY <= e < day ==> !Offers(days, s, now, e)
    ensures Matches(Weekly(days, Some(s)), OnDay(day, s))
    ensures forall u :: Matches(Weekly(days, Some(s)), u) && now < u ==> OnDay(day, s) <= u
  {
    OnDayExact(day, s);
    forall u | Matches(Weekly(days, Some(s)), u) && now < u
      ensures OnDay(day, s) <= u
    {
      MatchingDay(u, s);
      assert Offers(days, s, now, u / DAY);
    }
  }

  /** The month a monthly schedule aims at: this one while its day is not over, else the next. */
  function Aim(day: int, second: int, now: int): int {
    var today := now / DAY;
    if DayOf(today) < day || (DayOf(today) == day && now <= OnDay(today, second)) then MonthOf(today)
    else MonthOf(today) + 1
  }

  /** The day of the aimed month; in a shorter month Go turns it into one of the first days of the next. */
  function MonthlyAnswer(day: int, second: int, now: int): int {
    OnDay(Date(Aim(day, second, now), day), second)
  }

  lemma AimedDay(day: int, today: int)
    requires 1 <= day
    ensures DayOf(today) < day ==> today < Date(MonthOf(today), day)
    ensures DayOf(today) == day ==> today == Date(MonthOf(today), day)
    ensures today < Date(MonthOf(today) + 1, day)
  {
    MonthStartNext(MonthOf(today));
  }

  lemma EarlierDay(day: int, s: int, now: int)
    requires SecondOfDay(s) && day < now / DAY
    ensures OnDay(day, s) < now
  {
  }

  lemma LaterOnDay(a: int, b: int, s: int)
    ensures a <= b <==> OnDay(a, s) <= OnDay(b, s)
  {
  }

  method NextMonthly(day: int, second: Option<int>, now: int) returns (r: Next)
    requires WellParsed(Monthly(day, second))
    ensures second.None? <==> r.Error?
    ensures second.Some? ==> r == At(MonthlyAnswer(day, second.value, now))
  {
    if second.None? {
      return Error;
    }
    var s, today := second.value, now / DAY;
    var m := MonthOf(today);
    var date := if DayOf(today) <= day then Date(m, day) else Date(m + 1, day);
    AimedDay(day, today);
    if date > today {
      LaterDay(date, s, now);
    }
    if OnDay(date, s) < now {
      // AddDate(0, 1, 0) on the date just built, which is today's
      r := At(OnDay(Date(MonthOf(date) + 1, DayOf(date)), s));
    } else {
      r := At(OnDay(date, s));
    }
  }

  lemma AimedNotBefore(day: int, second: int, now: int)
    requires 1 <= day <= 31 && SecondOfDay(second)
    ensures var date := Date(Aim(day, second, now), day);
            date > now / DAY || (date == now / DAY && DayOf(now / DAY) == day && now <= OnDay(date, second))
  {
    AimedDay(day, now / DAY);
  }

  lemma MonthlyNotBefore(day: int, second: int, now: int)
    requires 1 <= day <= 31 && SecondOfDay(second)
    ensures now <= MonthlyAnswer(day, second, now)
    ensures now == MonthlyAnswer(day, second, now) <==> Matches(Monthly(day, Some(second)), now)
  {
    var today, date := now / DAY, Date(Aim(day, second, now), day);
    AimedNotBefore(day, second, now);
    OnDayExact(date, second);
    if date > today {
      LaterDay(date, second, now);
      NoMatchYet(day, second, now);
    } else if Matches(Monthly(day, Some(second)), now) {
      MatchingDay(now, second);
    }
  }

  /** If the day aimed at lies ahead, the present instant is not one of the schedule's. */
  lemma NoMatchYet(day: int, second: int, now: int)
    requires 1 <= day <= 31 && SecondOfDay(second) && Date(Aim(day, second, now), day) > now / DAY
    ensures !Matches(Monthly(day, Some(second)), now)
  {
    AimedDay(day, now / DAY);
    if Matches(Monthly(day, Some(second)), now) {
      MatchingDay(now, second);
    }
  }

  /**
   The monthly answer is one of the schedule's instants exactly when the month aimed at has
   the day, and then it is the earliest one not before now.
   */
  lemma MonthlyEarliestIff(day: int, second: int, now: int)
    requires 1 <= day <= 31 && SecondOfDay(second)
    ensures var s, t := Monthly(day, Some(second)), MonthlyAnswer(day, second, now);
            && (Matches(s, t) <==> day <= DaysIn(Aim(day, second, now)))
            && (Matches(s, t) <==> Earliest(s, now, t))
  {
    var a, t := Aim(day, second, now), MonthlyAnswer(day, second, now);
    OnDayExact(Date(a, day), second);
    DateExact(a, day);
    MonthlyNotBefore(day, second, now);
    forall u | Matches(Monthly(day, Some(second)), u) && now <= u
      ensures t <= u
    {
      NoEarlierMonth(day, second, now, u);
    }
  }

  lemma NoEarlierMonth(day: int, second: int, now: int, u: int)
    requires 1 <= day <= 31 && SecondOfDay(second)
    requires Matches(Monthly(day, Some(second)), u) && now <= u
    ensures MonthlyAnswer(day, second, now) <= u
  {
    var a, today, date := Aim(day, second, now), now / DAY, u / DAY;
    MatchingDay(u, second);
    DateOfDay(date);
    if date < today {
      EarlierDay(date, second, now);
    }
    AimNotLater(day, second, now, date);
    MonthStartGrows(a, MonthOf(date));
    LaterOnDay(Date(a, day), date, second);
  }

  lemma AimNotLater(day: int, second: int, now: int, date: int)
    requires now / DAY <= date && DayOf(date) == day
    requires date == now / DAY ==> now <= OnDay(date, second)
    ensures Aim(day, second, now) <= MonthOf(date)
  {
    var today := now / DAY;
    var m := MonthOf(date);
    if m < MonthOf(today) {
      MonthStartNext(m);
      MonthStartGrows(m + 1, MonthOf(today));
    }
  }

  /** On the last of January, the schedule for every 31st answers the third of March. */
  lemma ShortMonthMissed()
    ensures var now := OnDay(Date(0, 31), 1);
            && MonthlyAnswer(31, 0, now) == OnDay(Date(2, 3), 0)
            && !Matches(Monthly(31, Some(0)), MonthlyAnswer(31, 0, now))
  {
    var now := OnDay(Date(0, 31), 1);
    OnDayExact(Date(0, 31), 1);
    MonthUnique(30, 0);
    assert MonthStart(1) == 31 && MonthStart(2) == 59;
    MonthlyEarliestIff(31, 0, now);
  }

  /** The scheduler's answer: which instant each kind of schedule names at a given time. */
  ghost predicate Answers(s: Schedule, cron: Next, now: int, r: Next) {
    match s
    case Hourly(minute) =>
      if minute.Some? && 0 <= minute.value <= 59 then r.At? && Earliest(s, now + 1, r.t) else r.Error?
    case Daily(second) => if second.Some? then r.At? && Earliest(s, now, r.t) else r.Error?
    case Weekly(days, second) =>
      if second.None? then r.Error?
      else if days == [] then r.Zero?
      else r.At? && Earliest(s, now + 1, r.t)
    case Monthly(day, second) => if second.Some? then r == At(MonthlyAnswer(day, second.value, now)) else r.Error?
    case Cron(parses) => r == if parses then cron else Error
    case Unsupported => r.Error?
  }

  /** No answer lies in the past; the present instant is answered only by a daily or monthly schedule that names it. */
  lemma NeverBefore(s: Schedule, cron: Next, now: int, r: Next)
    requires WellParsed(s) && CronAnswer(cron, now) && Answers(s, cron, now, r) && r.At?
    ensures now <= r.t
    ensures r.t == now <==> (s.Daily? || s.Monthly?) && Matches(s, now)
  {
    if s.Monthly? {
      MonthlyNotBefore(s.day, s.second.value, now);
    }
  }

  /** A monthly schedule aims at the present month until its instant is over, then at the next. */
  lemma AimIs(day: int, second: int, now: int)
    requires SecondOfDay(second)
    ensures var today, time := now / 86400000000000, now % 86400000000000;
            Aim(day, second, now) == MonthOf(today) +
                if DayOf(today) > day || (DayOf(today) == day && time > second * 1000000000) then 1 else 0
  {
    OnDayExact(now / DAY, second);
  }

  /**
   The answers in plain numbers, day 0 being a Thursday. Hourly: within the next hour, that
   many minutes past. Daily: within a day from now on, at that second. Weekly: within the next
   seven days, on one of the weekdays, and no such instant is passed over. Monthly: if the month
   aimed at has the day, on that day of a month, and no such instant is passed over; if it is
   shorter, as many days into the month after as it is too short.
   */
  lemma AnswersOutright(s: Schedule, cron: Next, now: int, r: Next)
    requires WellParsed(s) && CronAnswer(cron, now) && Answers(s, cron, now, r)
    ensures r.Error? <==>
              match s
              case Hourly(minute) => minute.None? || minute.value < 0 || minute.value > 59
              case Daily(second) => second.None?
              case Weekly(_, second) => second.None?
              case Monthly(_, second) => second.None?
              case Cron(parses) => !parses
              case Unsupported => true
    ensures r.Zero? <==> (s.Weekly? && s.second.Some? && s.days == []) || (s.Cron? && s.parses && cron.Zero?)
    ensures s.Cron? && r.At? ==> r == cron && now < r.t
    ensures s.Hourly? && r.At? ==>
              now < r.t <= now + 3600000000000 && r.t % 3600000000000 == s.minute.value * 60000000000
    ensures s.Daily? && r.At? ==>
              now <= r.t < now + 86400000000000 && r.t % 86400000000000 == s.second.value * 1000000000
    ensures s.Weekly? && r.At? ==> now < r.t <= now + 604800000000000
    ensures s.Weekly? && r.At? ==> forall u :: now < u <= r.t ==>
              (u == r.t <==>
               u % 86400000000000 == s.second.value * 1000000000 && (u / 86400000000000 + 4) % 7 in s.days)
    ensures s.Monthly? && r.At? && s.day <= DaysIn(Aim(s.day, s.second.value, now)) ==>
              now <= r.t && forall u :: now <= u <= r.t ==>
                (u == r.t <==>
                 u % 86400000000000 == s.second.value * 1000000000 && DayOf(u / 86400000000000) == s.day)
    ensures s.Monthly? && r.At? && s.day > DaysIn(Aim(s.day, s.second.value, now)) ==>
              && r.t % 86400000000000 == s.second.value * 1000000000
              && MonthOf(r.t / 86400000000000) == Aim(s.day, s.second.value, now) + 1
              && DayOf(r.t / 86400000000000) == s.day - DaysIn(Aim(s.day, s.second.value, now))
  {
    match s {
      case Hourly(minute) =>
        if r.At? {
          NextHour(minute.value, now, r.t);
        }
      case Daily(second) =>
        if r.At? {
          NextDay(second.value, now, r.t);
        }
      case Weekly(days, second) =>
        if r.At? {
          NextWeek(days, second.value, now, r.t);
        }
      case Monthly(day, second) =>
        if r.At? {
          MonthlyEarliestIff(day, second.value, now);
          if day <= DaysIn(Aim(day, second.value, now)) {
            NextMonth(day, second.value, now, r.t);
          } else {
            OnDayExact(Date(Aim(day, second.value, now), day), second.value);
            DateExact(Aim(day, second.value, now), day);
          }
        }
      case _ =>
    }
  }

  lemma NextHour(minute: int, now: int, t: int)
    requires 0 <= minute <= 59 && Earliest(Hourly(Some(minute)), now + 1, t)
    ensures t <= now + 3600000000000
  {
    var u := t - HOUR;
    assert u == (t / HOUR - 1) * HOUR + minute * MINUTE;
    DivUnique(u, HOUR, t / HOUR - 1, minute * MINUTE);
    assert Matches(Hourly(Some(minute)), u);
  }

  lemma NextDay(second: int, now: int, t: int)
    requires SecondOfDay(second) && Earliest(Daily(Some(second)), now, t)
    ensures t < now + 86400000000000
  {
    MatchingDay(t, second);
    OnDayExact(t / DAY - 1, second);
    assert Matches(Daily(Some(second)), OnDay(t / DAY - 1, second));
  }

  lemma NextWeek(days: seq<int>, second: int, now: int, t: int)
    requires SecondOfDay(second) && Earliest(Weekly(days, Some(second)), now + 1, t)
    ensures t <= now + 604800000000000
    ensures forall u :: now < u <= t ==>
              (u == t <==> u % 86400000000000 == second * 1000000000 && (u / 86400000000000 + 4) % 7 in days)
  {
    MatchingDay(t, second);
    OnDayExact(t / DAY - 7, second);
    assert Weekday(t / DAY - 7) == Weekday(t / DAY);
    assert Matches(Weekly(days, Some(second)), OnDay(t / DAY - 7, second));
    forall u | now < u <= t
      ensures u == t <==> u % 86400000000000 == second * 1000000000 && (u / 86400000000000 + 4) % 7 in days
    {
      assert Matches(Weekly(days, Some(second)), u) <==> u == t;
    }
  }

  lemma NextMonth(day: int, second: int, now: int, t: int)
    requires Earliest(Monthly(day, Some(second)), now, t)
    ensures forall u :: now <= u <= t ==>
              (u == t <==> u % 86400000000000 == second * 1000000000 && DayOf(u / 86400000000000) == day)
  {
    forall u | now <= u <= t
      ensures u == t <==> u % 86400000000000 == second * 1000000000 && DayOf(u / 86400000000000) == day
    {
      assert Matches(Monthly(day, Some(second)), u) <==> u == t;
    }
  }

  /** The dispatcher. The cron library's answer is an input. */
  method GetSceneExecuteTime(s: Schedule, cron: Next, now: int) returns (r: Next)
    requires WellParsed(s) && CronAnswer(cron, now)
    ensures Answers(s, cron, now, r)
  {
    match s
    case Hourly(minute) => r := NextHourly(minute, now);
    case Daily(second) => r := NextDaily(second, now);
    case Weekly(days, second) => r := NextWeekly(days, second, now);
    case Monthly(day, second) => r := NextMonthly(day, second, now);
    case Cron(parses) => r := if parses then cron else Error;
    case Unsupported => r := Error;
  }
}
