/** Job validation: which of the two ways a job may be scheduled, and the plan it gets. */
module CronJob {
  import opened Text
  import opened Calendar
  import opened CronFields
  import opened CronSchedule
  import opened CronNext

  /** The plan of a validated job, or why validation fails. */
  datatype JobPlan =
    | Interval(every: int)
    | Parsed(plan: Plan)
    | NotExactlyOne
    | NotWholeSeconds
    | NotPartOfADay
    | BadSchedule(outcome: ScheduleOutcome)
    | BadIdentity
    | BadPolicy
    | ParserPanics

  predicate Panics(o: ScheduleOutcome) {
    o.BadField? && o.error == Panicked
  }

  /** `every` is in nanoseconds. `identityOk` says whether the job's id and endpoint pass,
      `policiesOk` whether its overlap, catch-up, activity and retry settings do; validation does
      not return when the schedule parser panics. */
  method PlanFor(identityOk: bool, policiesOk: bool, every: int, schedule: string) returns (r: JobPlan)
    ensures var hasEvery, hasSchedule := every > 0, TrimSpace(schedule) != "";
            var goesOn := identityOk && hasEvery != hasSchedule && policiesOk;
            && (r.BadIdentity? <==> !identityOk)
            && (r.NotExactlyOne? <==> identityOk && hasEvery == hasSchedule)
            && (r.BadPolicy? <==> identityOk && hasEvery != hasSchedule && !policiesOk)
            && (r.Interval? <==> goesOn && hasEvery && ValidInterval(every))
            && (r.Interval? ==> r.every == every)
            && (r.Parsed? <==> goesOn && hasSchedule && ScheduleSpec(schedule).Scheduled?)
            && (r.Parsed? ==> r.plan.Valid() && ScheduleSpec(schedule) == Scheduled(r.plan))
            && (r.NotWholeSeconds? <==> goesOn && hasEvery && every % NANOS_PER_SECOND != 0)
            && (r.ParserPanics? <==> goesOn && hasSchedule && Panics(ScheduleSpec(schedule)))
            && (r.BadSchedule? <==> goesOn && hasSchedule && !ScheduleSpec(schedule).Scheduled? && !Panics(ScheduleSpec(schedule)))
            && (r.BadSchedule? ==> r.outcome == ScheduleSpec(schedule))
  {
    if !identityOk {
      return BadIdentity;
    }
    var hasEvery := every > 0;
    var hasSchedule := TrimSpace(schedule) != "";
    if hasEvery == hasSchedule {
      return NotExactlyOne;
    }
    if !policiesOk {
      return BadPolicy;
    }
    if hasEvery {
      if every % NANOS_PER_SECOND != 0 {
        return NotWholeSeconds;
      }
      if (86_400 * NANOS_PER_SECOND) % every != 0 {
        return NotPartOfADay;
      }
      return Interval(every);
    }
    var parsed := ParseSchedule(schedule);
    ScheduledIsValid(schedule);
    if Panics(parsed) {
      return ParserPanics;
    }
    if !parsed.Scheduled? {
      return BadSchedule(parsed);
    }
    return Parsed(parsed.plan);
  }

  /** An accepted interval job runs at every UTC midnight and, from 1970 on, at exactly the
      multiples of its interval. */
  lemma IntervalJobRuns(every: int, after: int, d: int)
    requires ValidInterval(every) && after >= 0
    ensures every >= NANOS_PER_SECOND
    ensures IsLeastMultiple(every / NANOS_PER_SECOND, after, EveryNext(every, after))
    ensures exists q :: d * 86_400 == q * (every / NANOS_PER_SECOND)
  {
    EveryIsLeastMultiple(every, after);
    MidnightIsOnTheGrid(every, d);
  }
}
