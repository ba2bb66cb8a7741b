/** The translation of a parsed schedule into a union of Temporal calendar specs. */
module TemporalCalendar {
  import opened Calendar
  import opened CronFields
  import opened CronSchedule

  datatype ScheduleRange = ScheduleRange(start: int, end: int, step: int)

  datatype CalendarSpec = CalendarSpec(
    second: seq<ScheduleRange>,
    minute: seq<ScheduleRange>,
    hour: seq<ScheduleRange>,
    dayOfMonth: seq<ScheduleRange>,
    month: seq<ScheduleRange>,
    dayOfWeek: seq<ScheduleRange>)

  /** Temporal's reading of a range: an end before the start means the start alone, and a step
      that is not positive means 1. */
  predicate RangeHas(r: ScheduleRange, v: int) {
    if r.end < r.start then v == r.start
    else r.start <= v <= r.end && (r.step <= 1 || (v - r.start) % r.step == 0)
  }

  predicate InRanges(ranges: seq<ScheduleRange>, v: int) {
    exists i :: 0 <= i < |ranges| && RangeHas(ranges[i], v)
  }

  /** The instant, in Unix seconds, satisfies every list of the calendar. */
  predicate Contains(c: CalendarSpec, t: int) {
    var minute := t / 60;
    var date := DateOf(DayOf(minute));
    && InRanges(c.second, t - minute * 60)
    && InRanges(c.minute, MinuteOf(minute))
    && InRanges(c.hour, HourOf(minute))
    && InRanges(c.dayOfMonth, date.day)
    && InRanges(c.month, date.month)
    && InRanges(c.dayOfWeek, Weekday(DayOf(minute)))
  }

  /** No list is left empty, so Temporal's defaults for missing lists never apply. */
  predicate Filled(c: CalendarSpec) {
    && c.second != [] && c.minute != [] && c.hour != []
    && c.dayOfMonth != [] && c.month != [] && c.dayOfWeek != []
  }

  lemma InRangesAppend(ranges: seq<ScheduleRange>, r: ScheduleRange, v: int)
    ensures InRanges(ranges + [r], v) <==> InRanges(ranges, v) || RangeHas(r, v)
  {
    var all := ranges + [r];
    assert all[|ranges|] == r;
    assert forall i :: 0 <= i < |ranges| ==> all[i] == ranges[i];
  }

  method FieldRanges(field: CronField, forceAny: bool) returns (ranges: seq<ScheduleRange>)
    requires 0 <= field.min <= field.max && FieldOf(field, field.min, field.max)
    ensures ranges != []
    ensures forall v :: field.min <= v <= field.max ==> (InRanges(ranges, v) <==> forceAny || field.Has(v))
  {
    if forceAny || field.any {
      ranges := [ScheduleRange(field.min, field.max, 1)];
      assert RangeHas(ranges[0], field.min);
      assert forall v :: field.min <= v <= field.max ==> RangeHas(ranges[0], v);
      return;
    }
    ranges := [];
    var value := field.min;
    while value <= field.max
      invariant field.min <= value <= field.max + 1
      invariant forall v :: field.min <= v ==> (InRanges(ranges, v) <==> v < value && field.Has(v))
    {
      if field.Has(value) {
        forall v {
          InRangesAppend(ranges, ScheduleRange(value, 0, 0), v);
        }
        assert value >= 0;
        ranges := ranges + [ScheduleRange(value, 0, 0)];
      }
      value := value + 1;
    }
    var k :| 0 <= k < |field.values| && field.values[k];
    assert field.Has(field.min + k);
    assert InRanges(ranges, field.min + k);
  }

  /** Day 7 of the week is day 0. */
  ghost predicate HasWeekday(field: CronField, w: int)
    requires field.Valid()
  {
    field.Has(w) || (w == 0 && field.Has(7))
  }

  method WeekdayRanges(field: CronField, forceAny: bool) returns (ranges: seq<ScheduleRange>)
    requires FieldOf(field, 0, 7)
    ensures ranges != []
    ensures forall w :: 0 <= w <= 6 ==> (InRanges(ranges, w) <==> forceAny || HasWeekday(field, w))
  {
    if forceAny || field.any {
      ranges := [ScheduleRange(0, 6, 1)];
      assert forall w :: 0 <= w <= 6 ==> RangeHas(ranges[0], w);
      return;
    }
    var seen: set<int> := {};
    ranges := [];
    var value := field.min;
    while value <= field.max
      invariant 0 <= value <= 8
      invariant forall w :: 0 <= w <= 6 ==>
                  (w in seen <==> (w < value && field.Has(w)) || (w == 0 && value == 8 && field.Has(7)))
      invariant forall w :: 0 <= w <= 6 ==> (InRanges(ranges, w) <==> w in seen)
    {
      if field.Has(value) {
        var dow := if value == 7 then 0 else value;
        if !(dow < 0 || dow > 6 || dow in seen) {
          seen := seen + {dow};
          forall v {
            InRangesAppend(ranges, ScheduleRange(dow, 0, 0), v);
          }
          ranges := ranges + [ScheduleRange(dow, 0, 0)];
        }
      }
      value := value + 1;
    }
    var k :| 0 <= k < |field.values| && field.values[k];
    assert field.Has(k);
    assert InRanges(ranges, if k == 7 then 0 else k);
  }

  ghost predicate Denotes(ranges: seq<ScheduleRange>, field: CronField, forceAny: bool)
    requires field.Valid()
  {
    forall v :: field.min <= v <= field.max ==> (InRanges(ranges, v) <==> forceAny || field.Has(v))
  }

  /** `c` was built from the plan with its day of the month or day of the week forced to any. */
  ghost predicate BuiltFrom(c: CalendarSpec, plan: Plan, anyDom: bool, anyDow: bool)
    requires plan.Valid()
  {
    && c.second == [ScheduleRange(0, 0, 0)]
    && Denotes(c.minute, plan.minute, false)
    && Denotes(c.hour, plan.hour, false)
    && Denotes(c.month, plan.month, false)
    && Denotes(c.dayOfMonth, plan.dom, anyDom)
    && (forall w :: 0 <= w <= 6 ==> (InRanges(c.dayOfWeek, w) <==> anyDow || HasWeekday(plan.dow, w)))
    && Filled(c)
  }

  lemma OnlySecondZero(v: int)
    ensures InRanges([ScheduleRange(0, 0, 0)], v) <==> v == 0
  {
    assert RangeHas([ScheduleRange(0, 0, 0)][0], v) <==> v == 0;
  }

  lemma ContainsMeansEveryField(c: CalendarSpec, plan: Plan, anyDom: bool, anyDow: bool, t: int)
    requires plan.Valid() && BuiltFrom(c, plan, anyDom, anyDow)
    ensures var minute := t / 60;
            var d := DayOf(minute);
            Contains(c, t) <==>
            && t == minute * 60
            && plan.minute.Has(MinuteOf(minute)) && plan.hour.Has(HourOf(minute)) && plan.month.Has(DateOf(d).month)
            && (anyDom || plan.dom.Has(DateOf(d).day)) && (anyDow || HasWeekday(plan.dow, Weekday(d)))
  {
    OnlySecondZero(t - t / 60 * 60);
  }

  ghost predicate SomeContains(specs: seq<CalendarSpec>, t: int) {
    exists i :: 0 <= i < |specs| && Contains(specs[i], t)
  }

  lemma OneCalendarIsEnough(c: CalendarSpec, plan: Plan, t: int)
    requires plan.Valid() && BuiltFrom(c, plan, false, false) && (plan.dom.any || plan.dow.any)
    ensures SomeContains([c], t) <==> t == t / 60 * 60 && plan.Matches(t / 60)
  {
    assert SomeContains([c], t) <==> Contains([c][0], t);
    ContainsMeansEveryField(c, plan, false, false, t);
  }

  lemma TwoCalendarsAreTheEitherDayRule(byDom: CalendarSpec, byDow: CalendarSpec, plan: Plan, t: int)
    requires plan.Valid() && !plan.dom.any && !plan.dow.any
    requires BuiltFrom(byDom, plan, false, true) && BuiltFrom(byDow, plan, true, false)
    ensures SomeContains([byDom, byDow], t) <==> t == t / 60 * 60 && plan.Matches(t / 60)
  {
    var specs := [byDom, byDow];
    assert SomeContains(specs, t) <==> Contains(specs[0], t) || Contains(specs[1], t);
    ContainsMeansEveryField(byDom, plan, false, true, t);
    ContainsMeansEveryField(byDow, plan, true, false, t);
  }

  /** The calendars together contain an instant exactly when it is a whole minute the plan matches. */
  method CalendarSpecs(plan: Plan) returns (specs: seq<CalendarSpec>)
    requires plan.Valid()
    ensures forall i :: 0 <= i < |specs| ==> Filled(specs[i])
    ensures forall t :: SomeContains(specs, t) <==> t == t / 60 * 60 && plan.Matches(t / 60)
  {
    var minute := FieldRanges(plan.minute, false);
    var hour := FieldRanges(plan.hour, false);
    var month := FieldRanges(plan.month, false);
    var base := CalendarSpec([ScheduleRange(0, 0, 0)], minute, hour, [], month, []);
    if plan.dom.any || plan.dow.any {
      var dom := FieldRanges(plan.dom, false);
      var dow := WeekdayRanges(plan.dow, false);
      var spec := base.(dayOfMonth := dom, dayOfWeek := dow);
      forall t {
        OneCalendarIsEnough(spec, plan, t);
      }
      return [spec];
    }
    var dom := FieldRanges(plan.dom, false);
    var anyDow := WeekdayRanges(plan.dow, true);
    var byDom := base.(dayOfMonth := dom, dayOfWeek := anyDow);
    var anyDom := FieldRanges(plan.dom, true);
    var dow := WeekdayRanges(plan.dow, false);
    var byDow := base.(dayOfMonth := anyDom, dayOfWeek := dow);
    forall t {
      TwoCalendarsAreTheEitherDayRule(byDom, byDow, plan, t);
    }
    return [byDom, byDow];
  }
}
