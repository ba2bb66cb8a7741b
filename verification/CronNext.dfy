/** The search for the next run of a job, for parsed schedules and for fixed intervals. */
module CronNext {
  import opened Text
  import opened Calendar
  import opened CronFields
  import opened CronSchedule

  const NANOS_PER_MINUTE := 60_000_000_000
  const HORIZON_DAYS := 1830
  const HORIZON := 2_635_200   // 5 * 366 days, in minutes

  /** `Truncate(time.Minute).Add(time.Minute)` of an instant in nanoseconds, in minutes. */
  function FirstMinute(after: int): int {
    after / NANOS_PER_MINUTE + 1
  }

  lemma FirstMinuteIsLeast(after: int, t: int)
    ensures after < t * NANOS_PER_MINUTE <==> FirstMinute(after) <= t
  {
  }

  /** `r` is the answer of the search from `after`: the least matching minute strictly after it
      and within the horizon, or nothing when the horizon has none. */
  ghost predicate IsNext(p: Plan, after: int, r: Option<int>)
    requires p.Valid()
  {
    var last := FirstMinute(after) + HORIZON;
    match r
    case Some(t) =>
      && p.Matches(t) && after < t * NANOS_PER_MINUTE && t <= last
      && forall u :: p.Matches(u) && after < u * NANOS_PER_MINUTE ==> t <= u
    case None =>
      forall u :: p.Matches(u) && after < u * NANOS_PER_MINUTE ==> last < u
  }

  ghost predicate NoneBetween(p: Plan, first: int, end: int)
    requires p.Valid()
  {
    forall u :: first <= u < end ==> !p.Matches(u)
  }

  lemma FoundIsNext(p: Plan, after: int, t: int)
    requires p.Valid() && FirstMinute(after) <= t <= FirstMinute(after) + HORIZON
    requires NoneBetween(p, FirstMinute(after), t) && p.Matches(t)
    ensures IsNext(p, after, Some(t))
  {
    FirstMinuteIsLeast(after, t);
    forall u | p.Matches(u) && after < u * NANOS_PER_MINUTE
      ensures t <= u
    {
      FirstMinuteIsLeast(after, u);
    }
  }

  lemma NoneIsNext(p: Plan, after: int)
    requires p.Valid() && NoneBetween(p, FirstMinute(after), FirstMinute(after) + HORIZON + 1)
    ensures IsNext(p, after, None)
  {
    forall u | p.Matches(u) && after < u * NANOS_PER_MINUTE
      ensures FirstMinute(after) + HORIZON < u
    {
      FirstMinuteIsLeast(after, u);
    }
  }

  lemma NoneSoFar(p: Plan, first: int, t: int)
    requires p.Valid() && NoneBetween(p, first, t)
    ensures !p.Matches(t) ==> NoneBetween(p, first, t + 1)
    ensures NoneBetween(p, first, first)
  {
  }

  method Next(p: Plan, after: int) returns (r: Option<int>)
    requires p.Valid()
    ensures IsNext(p, after, r)
  {
    var next := FirstMinute(after);
    var deadline := next + HORIZON;
    while next <= deadline
      invariant FirstMinute(after) <= next <= deadline + 1
      invariant NoneBetween(p, FirstMinute(after), next)
    {
      if p.Matches(next) {
        FoundIsNext(p, after, next);
        return Some(next);
      }
      NoneSoFar(p, FirstMinute(after), next);
      next := next + 1;
    }
    NoneIsNext(p, after);
    return None;
  }

  lemma NextIsUnique(p: Plan, after: int, r: Option<int>, s: Option<int>)
    requires p.Valid() && IsNext(p, after, r) && IsNext(p, after, s)
    ensures r == s
  {
    NotBoth(p, after, r, s);
    NotBoth(p, after, s, r);
  }

  lemma NotBoth(p: Plan, after: int, r: Option<int>, s: Option<int>)
    requires p.Valid() && IsNext(p, after, r) && IsNext(p, after, s)
    ensures r.Some? ==> s.Some? && s.value <= r.value
  {
    if r.Some? {
      var t := r.value;
      assert p.Matches(t) && after < t * NANOS_PER_MINUTE && t <= FirstMinute(after) + HORIZON;
    }
  }

  // ----- feeding results back

  /** Each run is the search's answer from the run before it; the first from `after`. */
  ghost predicate IsRunList(p: Plan, after: int, runs: seq<int>)
    requires p.Valid()
  {
    forall i :: 0 <= i < |runs| ==> IsNext(p, SearchFrom(after, runs, i), Some(runs[i]))
  }

  function SearchFrom(after: int, runs: seq<int>, i: nat): int
    requires i <= |runs|
  {
    if i == 0 then after else runs[i - 1] * NANOS_PER_MINUTE
  }

  /** `t` is the least member of `m` from `start` on. */
  ghost predicate LeastFrom(m: int -> bool, start: int, t: int) {
    start <= t && m(t) && forall u :: m(u) && start <= u ==> t <= u
  }

  function ChainFrom(start: int, runs: seq<int>, i: nat): int
    requires i <= |runs|
  {
    if i == 0 then start else runs[i - 1] + 1
  }

  ghost predicate IsChain(m: int -> bool, start: int, runs: seq<int>) {
    forall i :: 0 <= i < |runs| ==> LeastFrom(m, ChainFrom(start, runs, i), runs[i])
  }

  lemma ChainTail(m: int -> bool, start: int, runs: seq<int>)
    requires IsChain(m, start, runs) && runs != []
    ensures LeastFrom(m, start, runs[0]) && IsChain(m, runs[0] + 1, runs[1..])
  {
    assert LeastFrom(m, ChainFrom(start, runs, 0), runs[0]);
    var rest := runs[1..];
    forall i | 0 <= i < |rest|
      ensures LeastFrom(m, ChainFrom(runs[0] + 1, rest, i), rest[i])
    {
      assert LeastFrom(m, ChainFrom(start, runs, i + 1), runs[i + 1]);
    }
  }

  lemma {:induction false} ChainIncreases(m: int -> bool, start: int, runs: seq<int>)
    requires IsChain(m, start, runs)
    ensures forall j :: 0 <= j < |runs| ==> start <= runs[j]
    ensures forall i, j :: 0 <= i < j < |runs| ==> runs[i] < runs[j]
    decreases |runs|
  {
    if runs == [] {
    } else {
      ChainTail(m, start, runs);
      var rest := runs[1..];
      ChainIncreases(m, runs[0] + 1, rest);
      assert forall j :: 0 < j < |runs| ==> runs[j] == rest[j - 1];
    }
  }

  lemma {:induction false} ChainMember(m: int -> bool, start: int, runs: seq<int>, t: int)
    requires IsChain(m, start, runs) && runs != []
    ensures t in runs <==> m(t) && start <= t <= runs[|runs| - 1]
    decreases |runs|
  {
    ChainTail(m, start, runs);
    ChainIncreases(m, start, runs);
    var rest := runs[1..];
    assert t in runs <==> t == runs[0] || t in rest;
    if rest == [] {
    } else {
      ChainMember(m, runs[0] + 1, rest, t);
      assert rest[|rest| - 1] == runs[|runs| - 1];
    }
  }

  /** Feeding results back lists every matching minute up to the last one, each once, in order. */
  lemma RunsAreExactlyTheMatches(p: Plan, after: int, runs: seq<int>)
    requires p.Valid() && IsRunList(p, after, runs) && runs != []
    ensures forall i, j :: 0 <= i < j < |runs| ==> runs[i] < runs[j]
    ensures forall t :: t in runs <==> p.Matches(t) && after < t * NANOS_PER_MINUTE && t <= runs[|runs| - 1]
  {
    var m := t => p.Valid() && p.Matches(t);
    forall i | 0 <= i < |runs|
      ensures LeastFrom(m, ChainFrom(FirstMinute(after), runs, i), runs[i])
    {
      IsNextIsLeastFrom(p, m, SearchFrom(after, runs, i), runs[i]);
    }
    ChainIncreases(m, FirstMinute(after), runs);
    forall t
      ensures t in runs <==> p.Matches(t) && after < t * NANOS_PER_MINUTE && t <= runs[|runs| - 1]
    {
      ChainMember(m, FirstMinute(after), runs, t);
      FirstMinuteIsLeast(after, t);
    }
  }

  lemma IsNextIsLeastFrom(p: Plan, m: int -> bool, after: int, t: int)
    requires p.Valid() && (forall u :: m(u) <==> p.Matches(u)) && IsNext(p, after, Some(t))
    ensures LeastFrom(m, FirstMinute(after), t)
  {
    FirstMinuteIsLeast(after, t);
    forall u | m(u) && FirstMinute(after) <= u
      ensures t <= u
    {
      FirstMinuteIsLeast(after, u);
    }
  }

  // ----- when the search finds nothing

  ghost predicate SelectsDate(p: Plan, leap: bool, month: int, day: int)
    requires p.Valid()
  {
    1 <= month <= 12 && 1 <= day <= DaysIn(leap, month) && p.month.Has(month) && p.dom.Has(day)
  }

  /** Some selected month and day of the month exists in a common year. */
  ghost predicate HasCommonDate(p: Plan)
    requires p.Valid()
  {
    exists month, day :: SelectsDate(p, false, month, day)
  }

  lemma FieldHasSome(f: CronField, lo: int, hi: int) returns (v: int)
    requires lo <= hi && FieldOf(f, lo, hi)
    ensures lo <= v <= hi && f.Has(v)
  {
    if f.any {
      v := lo;
    } else {
      var k :| 0 <= k < |f.values| && f.values[k];
      v := lo + k;
    }
  }

  /** Whole years after the start of the search still lie within the horizon. */
  lemma NextYearIsWithinHorizon(first: int, date: Date)
    requires ValidDate(date) && date.year == DateOf(DayOf(first)).year + 1
    ensures DayOf(first) < DayNumber(date) < DayOf(first) + HORIZON_DAYS
  {
    var d := DayOf(first);
    var y := DateOf(d).year;
    assert DaysBeforeYear(y) <= DayNumber(DateOf(d)) < DaysBeforeYear(y + 1);
    YearsAreOrdered(y, y + 2);
  }

  lemma DayIsWithinHorizon(first: int, d: int, hour: int, minute: int)
    requires DayOf(first) < d < DayOf(first) + HORIZON_DAYS && 0 <= hour <= 23 && 0 <= minute <= 59
    ensures first <= InstantAt(d, hour, minute) <= first + HORIZON
  {
    assert d * MINUTES_PER_DAY <= InstantAt(d, hour, minute) < (d + 1) * MINUTES_PER_DAY;
    assert DayOf(first) * MINUTES_PER_DAY <= first < (DayOf(first) + 1) * MINUTES_PER_DAY;
  }

  /** A day's run, at a selected hour and minute, when the day passes the schedule's day rule. */
  lemma RunOnDay(p: Plan, d: int) returns (t: int)
    requires p.Valid() && p.month.Has(DateOf(d).month)
    requires var dowMatch := p.dow.Has(Weekday(d)) || (Weekday(d) == 0 && p.dow.Has(7));
             if p.dow.any then p.dom.Has(DateOf(d).day) else dowMatch
    ensures DayOf(t) == d && p.Matches(t)
    ensures exists hour, minute :: 0 <= hour <= 23 && 0 <= minute <= 59 && t == InstantAt(d, hour, minute)
  {
    var hour := FieldHasSome(p.hour, 0, 23);
    var minute := FieldHasSome(p.minute, 0, 59);
    t := InstantAt(d, hour, minute);
  }

  lemma RunWithinHorizon(p: Plan, first: int, d: int)
    requires p.Valid() && p.month.Has(DateOf(d).month)
    requires DayOf(first) < d < DayOf(first) + HORIZON_DAYS
    requires var dowMatch := p.dow.Has(Weekday(d)) || (Weekday(d) == 0 && p.dow.Has(7));
             if p.dow.any then p.dom.Has(DateOf(d).day) else dowMatch
    ensures exists t :: first <= t <= first + HORIZON && p.Matches(t)
  {
    var t := RunOnDay(p, d);
    var hour, minute :| 0 <= hour <= 23 && 0 <= minute <= 59 && t == InstantAt(d, hour, minute);
    DayIsWithinHorizon(first, d, hour, minute);
  }

  lemma WeekdayRun(p: Plan, first: int)
    requires p.Valid() && !p.dow.any
    ensures exists t :: first <= t <= first + HORIZON && p.Matches(t)
  {
    var month := FieldHasSome(p.month, 1, 12);
    var selected := FieldHasSome(p.dow, 0, 7);
    var weekday := if selected == 7 then 0 else selected;
    var year := DateOf(DayOf(first)).year + 1;
    var d := WeekdayWithinSeven(DayNumber(Date(year, month, 1)), weekday);
    var date := Date(year, month, d - DayNumber(Date(year, month, 1)) + 1);
    assert DayNumber(date) == d;
    DateOfDayNumber(date);
    NextYearIsWithinHorizon(first, date);
    RunWithinHorizon(p, first, d);
  }

  lemma CommonDateRun(p: Plan, first: int)
    requires p.Valid() && p.dow.any && HasCommonDate(p)
    ensures exists t :: first <= t <= first + HORIZON && p.Matches(t)
  {
    var month, day :| SelectsDate(p, false, month, day);
    var date := Date(DateOf(DayOf(first)).year + 1, month, day);
    assert ValidDate(date);
    DateOfDayNumber(date);
    NextYearIsWithinHorizon(first, date);
    RunWithinHorizon(p, first, DayNumber(date));
  }

  /** The search comes back empty only for a schedule whose day of the week is `*` and none of
      whose selected dates exists in a common year. */
  lemma NothingOnlyWithoutCommonDate(p: Plan, after: int)
    requires p.Valid() && IsNext(p, after, None)
    ensures p.dow.any && !HasCommonDate(p)
  {
    var first := FirstMinute(after);
    forall t | first <= t <= first + HORIZON
      ensures !p.Matches(t)
    {
      FirstMinuteIsLeast(after, t);
    }
    if !p.dow.any {
      WeekdayRun(p, first);
    } else if HasCommonDate(p) {
      CommonDateRun(p, first);
    }
  }

  /** A run on 29 February of a leap year, within the horizon. */
  ghost predicate LeapDayRun(p: Plan, first: int, year: int, hour: int, minute: int)
    requires p.Valid()
  {
    && Leap(year) && 0 <= hour <= 23 && 0 <= minute <= 59 && p.hour.Has(hour) && p.minute.Has(minute)
    && first <= InstantAt(DayNumber(Date(year, 2, 29)), hour, minute) <= first + HORIZON
  }

  ghost predicate ReachesLeapDay(p: Plan, first: int)
    requires p.Valid()
  {
    p.month.Has(2) && p.dom.Has(29) && exists year, hour, minute :: LeapDayRun(p, first, year, hour, minute)
  }

  lemma LeapDayRunMatches(p: Plan, first: int, year: int, hour: int, minute: int)
    requires p.Valid() && p.dow.any && p.month.Has(2) && p.dom.Has(29) && LeapDayRun(p, first, year, hour, minute)
    ensures p.Matches(InstantAt(DayNumber(Date(year, 2, 29)), hour, minute))
  {
    DateOfDayNumber(Date(year, 2, 29));
  }

  lemma MatchWithoutCommonDate(p: Plan, first: int, t: int)
    requires p.Valid() && p.dow.any && !HasCommonDate(p)
    requires p.Matches(t) && first <= t <= first + HORIZON
    ensures ReachesLeapDay(p, first)
  {
    var date := DateOf(DayOf(t));
    if p.dom.any {
      var month := FieldHasSome(p.month, 1, 12);
      assert SelectsDate(p, false, month, 1);
    }
    assert !SelectsDate(p, false, date.month, date.day);
    assert date == Date(date.year, 2, 29) && Leap(date.year);
    assert t == InstantAt(DayNumber(date), HourOf(t), MinuteOf(t));
    assert LeapDayRun(p, first, date.year, HourOf(t), MinuteOf(t));
  }

  lemma ReachedIsFound(p: Plan, after: int)
    requires p.Valid() && p.dow.any && ReachesLeapDay(p, FirstMinute(after))
    ensures !IsNext(p, after, None)
  {
    var first := FirstMinute(after);
    var year, hour, minute :| LeapDayRun(p, first, year, hour, minute);
    LeapDayRunMatches(p, first, year, hour, minute);
    FirstMinuteIsLeast(after, InstantAt(DayNumber(Date(year, 2, 29)), hour, minute));
  }

  /** Exactly when the search comes back empty: the day of the week is `*`, no selected date
      exists in a common year, and no selected 29 February lies within the horizon. */
  lemma NothingExactly(p: Plan, after: int)
    requires p.Valid()
    ensures IsNext(p, after, None) <==>
            p.dow.any && !HasCommonDate(p) && !ReachesLeapDay(p, FirstMinute(after))
  {
    var first := FirstMinute(after);
    if IsNext(p, after, None) {
      NothingOnlyWithoutCommonDate(p, after);
    }
    if p.dow.any && ReachesLeapDay(p, first) {
      ReachedIsFound(p, after);
    }
    if p.dow.any && !HasCommonDate(p) && !ReachesLeapDay(p, first) {
      forall t | p.Matches(t) && after < t * NANOS_PER_MINUTE
        ensures first + HORIZON < t
      {
        FirstMinuteIsLeast(after, t);
        if t <= first + HORIZON {
          MatchWithoutCommonDate(p, first, t);
        }
      }
    }
  }

  /** A schedule that selects 29 February is dropped only when the next multiple of four years is
      a century year that is not a leap year. */
  lemma LeapDayIsReached(p: Plan, after: int, c: int)
    requires p.Valid() && p.dow.any && p.month.Has(2) && p.dom.Has(29)
    requires var y := DateOf(DayOf(FirstMinute(after))).year; y < c <= y + 4 && c % 4 == 0
    ensures IsNext(p, after, None) ==> c % 100 == 0 && c % 400 != 0
  {
    if Leap(c) {
      var first := FirstMinute(after);
      var d := DayNumber(Date(c, 2, 29));
      LeapDayWithinHorizon(first, c);
      var hour := FieldHasSome(p.hour, 0, 23);
      var minute := FieldHasSome(p.minute, 0, 59);
      DayIsWithinHorizon(first, d, hour, minute);
      assert LeapDayRun(p, first, c, hour, minute);
      NothingExactly(p, after);
    }
  }

  lemma LeapDayWithinHorizon(first: int, c: int)
    requires Leap(c)
    requires var y := DateOf(DayOf(first)).year; y < c <= y + 4
    ensures DayOf(first) < DayNumber(Date(c, 2, 29)) < DayOf(first) + HORIZON_DAYS
  {
    var d := DayOf(first);
    var y := DateOf(d).year;
    assert DaysBeforeYear(y) <= DayNumber(DateOf(d)) < DaysBeforeYear(y + 1);
    YearsAreOrdered(y, c);
    YearsAreOrdered(y + 1, c);
  }

  /** And it is dropped there: a search that starts between the two leap days around a skipped
      century (2096 and 2104, say) and ends before the second finds nothing. */
  lemma SkippedCenturyDropsLeapDay(p: Plan, after: int, c: int)
    requires p.Valid() && p.dow.any && !HasCommonDate(p)
    requires c % 100 == 0 && c % 400 != 0 && Leap(c - 4) && Leap(c + 4)
    requires var d := DayOf(FirstMinute(after));
             DayNumber(Date(c - 4, 2, 29)) < d && d + HORIZON_DAYS < DayNumber(Date(c + 4, 2, 29))
    ensures IsNext(p, after, None)
  {
    var first := FirstMinute(after);
    NothingExactly(p, after);
    forall year, hour, minute
      ensures !LeapDayRun(p, first, year, hour, minute)
    {
      if LeapDayRun(p, first, year, hour, minute) {
        var t := InstantAt(DayNumber(Date(year, 2, 29)), hour, minute);
        assert DayOf(first) <= DayOf(t) <= DayOf(first) + HORIZON_DAYS;
        LeapDaysAround(year, c);
      }
    }
  }

  /** The plan of the schedule `0 0 29 2 *`. */
  function LeapDayPlan(): (p: Plan)
    ensures p.Valid()
  {
    var zero := Only(0, 0, 59);
    Plan(zero, Only(0, 0, 23), Only(29, 1, 31), Only(2, 1, 12), Star(0, 7))
  }

  lemma RenderedAs(p: Plan, words: seq<string>)
    requires p.Valid() && |words| == 5
    requires RenderField(p.minute) == words[0] && RenderField(p.hour) == words[1] && RenderField(p.dom) == words[2]
    requires RenderField(p.month) == words[3] && RenderField(p.dow) == words[4]
    ensures RenderPlan(p) == Join(words, ' ')
  {
    assert words == [words[0], words[1], words[2], words[3], words[4]];
  }

  lemma LeapDayTextIsRead(text: string, p: Plan)
    requires text == "0" + " " + "0" + " " + "29" + " " + "2" + " " + "*"
    requires p.minute == Only(0, 0, 59) && p.hour == Only(0, 0, 23) && p.dom == Only(29, 1, 31)
    requires p.month == Only(2, 1, 12) && p.dow == Star(0, 7) && p.Valid()
    ensures ScheduleSpec(text) == Scheduled(p)
  {
    OnlyIsRendered(0, 0, 59);
    OnlyIsRendered(0, 0, 23);
    OnlyIsRendered(29, 1, 31);
    OnlyIsRendered(2, 1, 12);
    TwoDigits();
    JoinOfFive("0", "0", "29", "2", "*");
    RenderedAs(p, ["0", "0", "29", "2", "*"]);
    ParseOfRenderedPlan(p);
  }

  lemma TwoDigits()
    ensures Itoa(0) == "0" && Itoa(2) == "2" && Itoa(29) == "29"
  {
    assert Itoa(29) == Itoa(2) + ['9'];
  }

  lemma JoinOfFive(a: string, b: string, c: string, d: string, e: string)
    ensures Join([a, b, c, d, e], ' ') == a + " " + b + " " + c + " " + d + " " + e
  {
    assert [a, b, c, d, e][1..] == [b, c, d, e] && [b, c, d, e][1..] == [c, d, e];
    assert [c, d, e][1..] == [d, e] && [d, e][1..] == [e];
    assert Join([d, e], ' ') == d + " " + e;
    assert Join([c, d, e], ' ') == c + " " + (d + " " + e);
    assert Join([b, c, d, e], ' ') == b + " " + (c + " " + (d + " " + e));
    assert a + " " + (b + " " + (c + " " + (d + " " + e))) == a + " " + b + " " + c + " " + d + " " + e;
  }

  lemma LeapDayPlanHasNoCommonDate()
    ensures LeapDayPlan().dow.any && !HasCommonDate(LeapDayPlan())
  {
    var p := LeapDayPlan();
    forall month, day
      ensures !SelectsDate(p, false, month, day)
    {
      OnlyHas(29, 1, 31, day);
      OnlyHas(2, 1, 12, month);
    }
  }

  lemma DayNumbersAround2100()
    ensures DayNumber(Date(2096, 2, 29)) == 46_080 && DayNumber(Date(2097, 1, 1)) == 46_387
    ensures DayNumber(Date(2104, 2, 29)) == 49_001
  {
  }

  lemma NothingFrom2097(p: Plan, after: int)
    requires p.Valid() && p.dow.any && !HasCommonDate(p) && after == 46_387 * 86_400 * NANOS_PER_SECOND
    ensures IsNext(p, after, None)
  {
    DayNumbersAround2100();
    assert FirstMinute(after) == 46_387 * MINUTES_PER_DAY + 1;
    assert DayOf(FirstMinute(after)) == 46_387;
    SkippedCenturyDropsLeapDay(p, after, 2100);
  }

  /** An input: the schedule `0 0 29 2 *` searched from midnight of 1 January 2097 finds nothing. */
  lemma DroppedLeapDayExample()
    ensures ScheduleSpec("0 0 29 2 *") == Scheduled(LeapDayPlan())
    ensures IsNext(LeapDayPlan(), DayNumber(Date(2097, 1, 1)) * 86_400 * NANOS_PER_SECOND, None)
  {
    LeapDayTextIsRead("0 0 29 2 *", LeapDayPlan());
    LeapDayPlanHasNoCommonDate();
    DayNumbersAround2100();
    NothingFrom2097(LeapDayPlan(), 46_387 * 86_400 * NANOS_PER_SECOND);
  }

  /** A search for the only match around: found at the last minute of the horizon, missed from one
      minute earlier. The horizon is 5 * 366 days. */
  lemma HorizonEdge(p: Plan, t: int)
    requires p.Valid() && p.Matches(t) && NoneBetween(p, t - 1 - 5 * 366 * 24 * 60, t)
    ensures IsNext(p, (t - 5 * 366 * 24 * 60) * NANOS_PER_MINUTE - 1, Some(t))
    ensures IsNext(p, (t - 1 - 5 * 366 * 24 * 60) * NANOS_PER_MINUTE - 1, None)
  {
    var late := (t - 5 * 366 * 24 * 60) * NANOS_PER_MINUTE - 1;
    var early := late - NANOS_PER_MINUTE;
    assert FirstMinute(late) == t - HORIZON && FirstMinute(early) == t - HORIZON - 1;
    NoneWithin(p, t - 1 - HORIZON, t - HORIZON, t);
    FoundIsNext(p, late, t);
    NoneIsNext(p, early);
  }

  lemma NoneWithin(p: Plan, first: int, later: int, end: int)
    requires p.Valid() && NoneBetween(p, first, end) && first <= later
    ensures NoneBetween(p, later, end)
  {
  }

  /** And the input for it: 29 February 2104 and the schedule of the leap day. */
  lemma HorizonEdgeIsReal()
    ensures var t := DayNumber(Date(2104, 2, 29)) * MINUTES_PER_DAY;
            LeapDayPlan().Matches(t) && NoneBetween(LeapDayPlan(), t - 1 - 5 * 366 * 24 * 60, t)
  {
    var p := LeapDayPlan();
    var t := DayNumber(Date(2104, 2, 29)) * MINUTES_PER_DAY;
    DayNumbersAround2100();
    LeapDayPlanHasNoCommonDate();
    LeapDayPlanHas();
    MidnightOfLeapDay(p, t);
    forall u | t - 1 - 5 * 366 * 24 * 60 <= u < t
      ensures !p.Matches(u)
    {
      NoMatchBefore(p, u, t);
    }
  }

  lemma LeapDayPlanHas()
    ensures var p := LeapDayPlan(); p.minute.Has(0) && p.hour.Has(0) && p.month.Has(2) && p.dom.Has(29) && !p.dom.any
  {
    OnlyHas(0, 0, 59, 0);
    OnlyHas(0, 0, 23, 0);
    OnlyHas(29, 1, 31, 29);
    OnlyHas(2, 1, 12, 2);
  }

  lemma MidnightOfLeapDay(p: Plan, t: int)
    requires p.Valid() && p.dow.any && p.minute.Has(0) && p.hour.Has(0) && p.month.Has(2) && p.dom.Has(29)
    requires t == 49_001 * MINUTES_PER_DAY
    ensures p.Matches(t)
  {
    DayNumbersAround2100();
    assert InstantAt(49_001, 0, 0) == t;
    assert LeapDayRun(p, t, 2104, 0, 0);
    LeapDayRunMatches(p, t, 2104, 0, 0);
  }

  lemma MatchIsLeapDay(p: Plan, u: int)
    requires p.Valid() && p.dow.any && !p.dom.any && !HasCommonDate(p) && p.Matches(u)
    ensures var date := DateOf(DayOf(u)); date == Date(date.year, 2, 29) && Leap(date.year) && DayOf(u) == DayNumber(date)
  {
    var date := DateOf(DayOf(u));
    assert !SelectsDate(p, false, date.month, date.day);
  }

  lemma MatchIsNotBetween(p: Plan, u: int)
    requires p.Valid() && p.dow.any && !p.dom.any && !HasCommonDate(p) && p.Matches(u)
    ensures !(46_080 < DayOf(u) < 49_001)
  {
    MatchIsLeapDay(p, u);
    DayNumbersAround2100();
    LeapDaysAround(DateOf(DayOf(u)).year, 2100);
  }

  lemma NoMatchBefore(p: Plan, u: int, t: int)
    requires p.Valid() && p.dow.any && !p.dom.any && !HasCommonDate(p)
    requires t == 49_001 * MINUTES_PER_DAY && t - 2_635_201 <= u < t
    ensures !p.Matches(u)
  {
    assert 46_080 < DayOf(u) < 49_001;
    if p.Matches(u) {
      MatchIsNotBetween(p, u);
    }
  }

  lemma LeapDaysAround(year: int, c: int)
    requires c % 100 == 0 && c % 400 != 0 && Leap(c - 4) && Leap(c + 4) && Leap(year)
    ensures !(DayNumber(Date(c - 4, 2, 29)) < DayNumber(Date(year, 2, 29)) < DayNumber(Date(c + 4, 2, 29)))
  {
    if year <= c - 4 {
      YearsAreOrdered(year, c - 4);
    } else if c + 4 <= year {
      YearsAreOrdered(c + 4, year);
    } else {
      NearestMultiple(year, c);
    }
  }

  lemma NearestMultiple(year: int, c: int)
    requires c % 100 == 0 && year % 4 == 0 && c - 4 < year < c + 4
    ensures year == c
  {
    NestedMultiples(c);
  }

  // ----- fixed intervals

  /** Go's integer division, which rounds toward zero. */
  function DivTrunc(a: int, b: int): int
    requires b > 0
  {
    if a >= 0 then a / b else -((-a) / b)
  }

  /** What job validation demands of an interval in nanoseconds. */
  predicate ValidInterval(every: int) {
    every > 0 && every % NANOS_PER_SECOND == 0 && (86_400 * NANOS_PER_SECOND) % every == 0
  }

  /** The next run in Unix seconds, from an instant in nanoseconds. */
  function EveryNext(every: int, after: int): int
    requires every >= NANOS_PER_SECOND
  {
    var seconds := every / NANOS_PER_SECOND;
    (DivTrunc(after / NANOS_PER_SECOND, seconds) + 1) * seconds
  }

  /** `t` is the least multiple of `seconds` strictly after the instant. */
  ghost predicate IsLeastMultiple(seconds: int, after: int, t: int)
    requires seconds > 0
  {
    && (exists q :: t == q * seconds)
    && after < t * NANOS_PER_SECOND
    && forall q :: after < q * seconds * NANOS_PER_SECOND ==> t <= q * seconds
  }

  lemma SecondsAfter(after: int, t: int)
    ensures after < t * NANOS_PER_SECOND <==> after / NANOS_PER_SECOND < t
  {
  }

  lemma FloorMultiple(unix: int, seconds: int)
    requires seconds > 0
    ensures (unix / seconds) * seconds <= unix < (unix / seconds + 1) * seconds
    ensures forall q :: unix < q * seconds ==> unix / seconds + 1 <= q
  {
    var f := unix / seconds;
    assert unix == f * seconds + unix % seconds;
    assert (f + 1) * seconds == f * seconds + seconds;
    forall q | unix < q * seconds
      ensures f + 1 <= q
    {
      if q <= f {
        assert q * seconds <= f * seconds by { Monotone(q, f, seconds); }
      }
    }
  }

  lemma Monotone(a: int, b: int, k: int)
    requires a <= b && k > 0
    ensures a * k <= b * k
  {
  }

  /** The multiple right after the floor is the least one strictly after the instant. */
  lemma FloorIsLeast(seconds: int, after: int)
    requires seconds > 0
    ensures IsLeastMultiple(seconds, after, (after / NANOS_PER_SECOND / seconds + 1) * seconds)
  {
    var unix := after / NANOS_PER_SECOND;
    var q0 := unix / seconds + 1;
    FloorMultiple(unix, seconds);
    SecondsAfter(after, q0 * seconds);
    forall q | after < q * seconds * NANOS_PER_SECOND
      ensures q0 * seconds <= q * seconds
    {
      SecondsAfter(after, q * seconds);
      Monotone(q0, q, seconds);
    }
  }

  lemma LeastMultipleIsUnique(seconds: int, after: int, t: int, u: int)
    requires seconds > 0 && IsLeastMultiple(seconds, after, t) && IsLeastMultiple(seconds, after, u)
    ensures t == u
  {
  }

  lemma TruncVersusFloor(a: int, b: int)
    requires b > 0
    ensures DivTrunc(a, b) == a / b <==> a >= 0 || a % b == 0
    ensures DivTrunc(a, b) >= a / b
  {
    if a < 0 {
      var q, r := (-a) / b, (-a) % b;
      assert -a == q * b + r;
      if r == 0 {
        assert a == (-q) * b;
        Remainder(a, -q, 0, b);
        QuotientIs(a, -q, 0, b);
      } else {
        assert a == (-q - 1) * b + (b - r);
        Remainder(a, -q - 1, b - r, b);
        QuotientIs(a, -q - 1, b - r, b);
      }
    }
  }

  lemma QuotientIs(x: int, q: int, rem: int, m: int)
    requires m > 0 && 0 <= rem < m && x == q * m + rem
    ensures x / m == q
  {
    Remainder(x, q, rem, m);
    assert (x / m - q) * m == 0;
  }

  /** An interval run is the least multiple of the interval strictly after the instant exactly
      when the instant's second is not before 1970 or lies on the grid: rounding toward zero
      skips a run for every other instant before 1970. */
  lemma EveryIsLeastMultiple(every: int, after: int)
    requires ValidInterval(every)
    ensures every >= NANOS_PER_SECOND
    ensures var seconds := every / NANOS_PER_SECOND;
            var unix := after / NANOS_PER_SECOND;
            IsLeastMultiple(seconds, after, EveryNext(every, after)) <==> after >= 0 || unix % seconds == 0
  {
    var seconds := every / NANOS_PER_SECOND;
    var unix := after / NANOS_PER_SECOND;
    TruncVersusFloor(unix, seconds);
    FloorIsLeast(seconds, after);
    var t, f := DivTrunc(unix, seconds), unix / seconds;
    if t != f {
      assert (t - f) * seconds != 0;
      assert (t + 1) * seconds != (f + 1) * seconds;
      if IsLeastMultiple(seconds, after, (t + 1) * seconds) {
        LeastMultipleIsUnique(seconds, after, (t + 1) * seconds, (f + 1) * seconds);
      }
    }
  }

  /** The intervals that validation accepts are the whole numbers of seconds that go into a day. */
  lemma IntervalsDivideADay(every: int)
    ensures ValidInterval(every) <==> exists n, k :: n > 0 && every == n * NANOS_PER_SECOND && n * k == 24 * 60 * 60
  {
    if ValidInterval(every) {
      var n := every / NANOS_PER_SECOND;
      var k := 86_400 * NANOS_PER_SECOND / every;
      assert every == n * NANOS_PER_SECOND && 86_400 * NANOS_PER_SECOND == k * every;
      assert n * k == 86_400 by {
        assert (n * k) * NANOS_PER_SECOND == 86_400 * NANOS_PER_SECOND;
      }
    }
    forall n, k | n > 0 && every == n * NANOS_PER_SECOND && n * k == 24 * 60 * 60
      ensures ValidInterval(every)
    {
      Remainder(every, n, 0, NANOS_PER_SECOND);
      assert 86_400 * NANOS_PER_SECOND == k * every;
      Remainder(86_400 * NANOS_PER_SECOND, k, 0, every);
    }
  }

  /** Each run of an interval job is found from the run before it; the first from `after`. */
  ghost predicate IsEveryRunList(every: int, after: int, runs: seq<int>)
    requires every >= NANOS_PER_SECOND
  {
    forall i :: 0 <= i < |runs| ==> runs[i] == EveryNext(every, EverySearchFrom(after, runs, i))
  }

  function EverySearchFrom(after: int, runs: seq<int>, i: nat): int
    requires i <= |runs|
  {
    if i == 0 then after else runs[i - 1] * NANOS_PER_SECOND
  }

  lemma MultipleIsRemainder(t: int, seconds: int)
    requires seconds > 0
    ensures t % seconds == 0 <==> exists q :: t == q * seconds
  {
    if t % seconds == 0 {
      assert t == (t / seconds) * seconds;
    }
    forall q | t == q * seconds
      ensures t % seconds == 0
    {
      Remainder(t, q, 0, seconds);
    }
  }

  lemma LeastMultipleIsLeastFrom(seconds: int, m: int -> bool, after: int, t: int)
    requires seconds > 0 && (forall u :: m(u) <==> u % seconds == 0) && IsLeastMultiple(seconds, after, t)
    ensures LeastFrom(m, after / NANOS_PER_SECOND + 1, t)
  {
    MultipleIsRemainder(t, seconds);
    SecondsAfter(after, t);
    forall u | m(u) && after / NANOS_PER_SECOND + 1 <= u
      ensures t <= u
    {
      MultipleIsRemainder(u, seconds);
      SecondsAfter(after, u);
    }
  }

  lemma {:induction false} EveryRunsAreNotBefore1970(every: int, after: int, runs: seq<int>, i: nat)
    requires ValidInterval(every) && after >= 0 && every >= NANOS_PER_SECOND && IsEveryRunList(every, after, runs) && i <= |runs|
    ensures EverySearchFrom(after, runs, i) >= 0
  {
    if i == 0 {
    } else {
      EveryRunsAreNotBefore1970(every, after, runs, i - 1);
      EveryIsLeastMultiple(every, EverySearchFrom(after, runs, i - 1));
    }
  }

  /** From 1970 on, feeding results back lists every multiple of the interval up to the last one, each
      once, in order. */
  lemma EveryRunsAreTheMultiples(every: int, after: int, runs: seq<int>)
    requires ValidInterval(every) && after >= 0 && every >= NANOS_PER_SECOND && IsEveryRunList(every, after, runs) && runs != []
    ensures forall i, j :: 0 <= i < j < |runs| ==> runs[i] < runs[j]
    ensures forall t :: t in runs <==>
              t % (every / NANOS_PER_SECOND) == 0 && after < t * NANOS_PER_SECOND && t <= runs[|runs| - 1]
  {
    var seconds := every / NANOS_PER_SECOND;
    var m := (t: int) => t % seconds == 0;
    var start := after / NANOS_PER_SECOND + 1;
    forall i | 0 <= i < |runs|
      ensures LeastFrom(m, ChainFrom(start, runs, i), runs[i])
    {
      var from := EverySearchFrom(after, runs, i);
      EveryRunsAreNotBefore1970(every, after, runs, i);
      EveryIsLeastMultiple(every, from);
      LeastMultipleIsLeastFrom(seconds, m, from, runs[i]);
    }
    ChainIncreases(m, start, runs);
    forall t
      ensures t in runs <==> t % seconds == 0 && after < t * NANOS_PER_SECOND && t <= runs[|runs| - 1]
    {
      ChainMember(m, start, runs, t);
      SecondsAfter(after, t);
    }
  }

  /** An input before 1970: one second before the epoch a job that runs every minute is sent to 60
      seconds after it, past the run at the epoch. */
  lemma RunBeforeEpochIsSkipped()
    ensures var minute := 60 * NANOS_PER_SECOND;
            && ValidInterval(minute) && EveryNext(minute, -NANOS_PER_SECOND) == 60
            && IsLeastMultiple(60, -NANOS_PER_SECOND, 0)
  {
    FloorIsLeast(60, -NANOS_PER_SECOND);
  }

  /** Because the interval divides a day, every UTC midnight is on the grid. */
  lemma MidnightIsOnTheGrid(every: int, d: int)
    requires ValidInterval(every)
    ensures exists q :: d * 86_400 == q * (every / NANOS_PER_SECOND)
  {
    var seconds := every / NANOS_PER_SECOND;
    var k := (86_400 * NANOS_PER_SECOND) / every;
    assert 86_400 * NANOS_PER_SECOND == k * every;
    assert every == seconds * NANOS_PER_SECOND;
    assert k * every == (k * seconds) * NANOS_PER_SECOND;
    assert 86_400 == k * seconds;
    assert d * 86_400 == (d * k) * seconds;
  }
}
