# Verified models of scenery's core

This project models, in Dafny, the parts of scenery whose correctness is hardest to see from the
code, and proves what they promise. Every module stands for one component.

- **Cron engine** (`Text`, `CronField`, `CronFieldLaws`, `CronSchedule`, `Calendar`, `CronNext`,
  `CronJob`, `TemporalCalendar`): the parser of five-field schedules, the match of a UTC minute,
  the search for the next run over the Gregorian calendar, and the compilation into Temporal
  calendars.
- **Route table** (`RoutePattern`, `RouteSubstitution`, `StableSorting`, `RouteTable`): patterns and their matches, the
  stable table, and the exact-path index in front of it.
- **Branch leases** (`NamedLocks`, `LockProtocol`, `BranchRegistry`, `BranchPrograms`,
  `BranchMachine`, `BranchOutcomes`, `BranchDeletion`): ordered file locks used by N processes, the updates of the lease registry, the
  branch operations as programs with every error path, and all their interleavings.
- **Seeds** (`SeedSanitizer`, `SeedSafety`, `SeedPostgres`, `SeedLedger`, `SeedRun`): the scanner that blanks
  comments and literals, the statement splitter with its line numbers, the scanner compared with
  PostgreSQL's own lexical rules, and the apply-once ledger.
- **Small machines** (`Middleware`, `EventIds`, `LineWriter`, `Identifier`): the middleware chain,
  the compare-and-swap event ids, the streaming line splitter, and the whole-identifier search.

`dafny verify dfyconfig.toml` checks everything.

## How the code is represented

- Loops and objects that change are methods and classes; each is proved against a function or
  predicate, and the laws are lemmas about that function. Protocols are state machines whose steps
  interleave freely.
- Instants are integers: nanoseconds for arguments, whole minutes since 1970 for parsed plans,
  seconds for interval plans and Temporal calendars. The zero time that a search returns when it
  finds nothing is `None`.
- Integers are unbounded except where 64-bit wrap-around shows: the step loop of the field parser
  and the event ids wrap explicitly, and text-to-number conversion refuses what does not fit. A
  write outside the value array is the outcome `Panicked`.
- Text that the code treats as characters is a sequence of Unicode scalar values; SQL and console
  streams are sequences of bytes. Upper-casing is exact on every character whose image is ASCII,
  which is all that names and numbers can depend on. For valid UTF-8, looking for an identifier among
  bytes and among characters is the same, since no part of a wide character is an identifier byte.
- A Temporal range with its end before its start is its start alone, and a step that is not
  positive is 1, which is the reading the range builders rely on.
- A lock is named by the sanitised text that goes into its file name. The order check, the file
  lock, the mark, the unmark and the unlock are separate steps of a process; acquires inside one
  process do not overlap, as the comment at `cmd/scenery/dev_named_lock.go:29` asks. A process may
  exit at any point, which releases its file locks.
- Work outside the locks and the registry (databases, configuration, reading the environment) is a
  step that may succeed or fail. Pins are arbitrary; where a result needs branch ids from an injective
  function of project and branch, its row says so.
- The safety patterns for seeds are an arbitrary predicate over a statement's text. Look-ups and
  transactions of the ledger may fail at any call, a commit may take effect while its
  acknowledgement is lost, and a seed's text may end its own transaction.
- PostgreSQL's reading of a text follows section 4.1 of its manual, "Lexical Structure", with
  standard-conforming strings: nested comments, escape strings and their continuation lines, dollars
  inside identifiers.
- A middleware is any strategy that, from its request and the responses seen so far, calls `next`,
  returns or panics, with a bound on its calls.

## Where the code differs from its comments

- The comment at `cmd/scenery/dev_named_lock.go:18-31` wants database changes under a branch operation
  lock and the registry lock held for short reads and writes only. Pruning drops the databases of
  expired leases while it holds the registry lock, and no operation lock
  (`cmd/scenery/db_branch_registry.go:206-219`). The model follows the code: this work has a kind of its
  own, and the rule on operation locks is proved for everything else.

## Where the code does not meet the obvious law

Each of these has an exact condition, an if-and-only-if over all inputs, and an input where it fails.

- A cron step near 2^63 makes the field parser index out of range and panic
  (`CronFieldLaws.FieldPanics`, `CronFieldLaws.HugeStepPanics`).
- A schedule for 29 February alone finds nothing across a skipped leap year
  (`CronNext.NothingExactly`, `CronNext.DroppedLeapDayExample`).
- Interval plans round toward zero, so before 1970 they skip a run unless the instant is on the
  grid (`CronNext.EveryIsLeastMultiple`, `CronNext.RunBeforeEpochIsSkipped`).
- The exact-path shortcut differs from the sorted scan when another candidate outdoes the exact
  route: an earlier one that differs only in outer slashes, or a pattern with more literals behind
  its wildcard than the path has segments (`RouteTable.AgreementOfEveryTable`,
  `RouteTable.OutdoneMeansRival`, `RouteTable.TwinExample`, `RouteTable.MiddleWildcardExample`).
- Matching ignores what is written behind a wildcard, so it is not always substitution into the whole
  pattern (`RouteSubstitution.WholeSubstitutionExactly`, `RoutePattern.MiddleWildcardBreaksSubstitution`).
- Two locks of one order can deadlock (`LockProtocol.DeadlockFreeExactly`,
  `LockProtocol.TwoOperationsCanDeadlock`); branch operations never take two.
- An upsert whose id is that of another branch's lease can give one branch two leases
  (`BranchRegistry.UpdateKeepsUniqueExactly`, `BranchRegistry.ReusedIdDuplicatesBranch`).
- At the top of the 64-bit range the event id cell wraps or an id repeats (`EventIds.RisesExactly`,
  `EventIds.TopRepeatsId`).
- A seed that ends its own transaction can be executed twice (`SeedLedger.NeverTwiceExactly`,
  `SeedLedger.LookedUpTwice`).
- A commit whose acknowledgement is lost, or a seed that left no row, executes a seed that is reported
  as failed (`SeedLedger.SuccessesAreExecutionsExactly`, `SeedLedger.LostAckExample`).
- A delete can leave a database behind that became ready while it was at work
  (`BranchDeletion.DatabaseIsLeftExactly`, `BranchDeletion.ReadyInBetween`).
- The sanitiser reads some texts differently from PostgreSQL (`SeedPostgres.AlikeExactlyWhenOrdinary`);
  an input for each condition is `ReturnHides`, `NestedHides`, `EscapedQuoteHides`, `WordTagHides`,
  `DigitTagHides` and `WideTagHides`.
- The identifier search misses a mention when the identifier overlaps itself behind a byte that is
  no identifier byte (`Identifier.SearchIsRightExactly`, `Identifier.MissedMention`).

## Model

| member | source | states |
|---|---|---|
| `CronFields.ParseValueMeetsGrammar` | runtime/cron.go:614-629 | A value is read, and as a given number, if and only if its text, trimmed and in upper case, is a name with that number, or is no name and is an optional sign and digits of that number. |
| `CronFields.ParseSegmentMeetsGrammar` | runtime/cron.go:547-582 | A comma segment is accepted, and with a given start, end and step, if and only if a grammar of bases and steps that never says where to cut the text gives it that range. |
| `CronFields.SplitStepMeetsGrammar` | runtime/cron.go:596-612 | Splitting off a step succeeds with a base and a step if and only if the text is the base alone, or the base, a slash and a positive decimal step. |
| `CronFields.HitsIsCongruence` | runtime/cron.go:583-585 | The values a stepping loop visits are exactly those congruent to the start modulo the step. |
| `CronFields.MarkRange` | runtime/cron.go:583-585 | Marking a range on the value array adds exactly the selected values; it leaves the array if and only if the start plus the step exceeds the largest 64-bit integer. |
| `CronFields.MarkSegments` | runtime/cron.go:547-586 | Segments are taken left to right; afterwards the array is the union of the ranges, unless a segment errs or overflows first, which decides the outcome. |
| `CronFields.ParseField` | runtime/cron.go:540-594 | The loop over the value array returns the field, the error or the panic that the specification by unions of ranges gives. |
| `CronFields.UnionIsNotEmpty` | runtime/cron.go:588-593 | Accepted ranges always select something, so the final emptiness test never fires. |
| `CronFieldLaws.FieldAccepts` | runtime/cron.go:540-594 | A field is accepted if and only if it is a star or every comma segment denotes an in-range range whose step does not overflow; the result has the right bounds and is never empty, and the no-values error is never returned. |
| `CronFieldLaws.FieldSelects` | runtime/cron.go:540-594 | An accepted field selects a value if and only if some segment denotes a range that has it. |
| `CronFieldLaws.FieldPanics` | runtime/cron.go:583-585 | The parser writes outside its value array if and only if a well-formed overflowing segment comes before every malformed one. |
| `CronFieldLaws.HugeStepPanics` | runtime/cron.go:583-585 | For every positive in-range value, the text of that value with step 2^63-1 makes the parser panic. |
| `CronFieldLaws.ParseOfRender` | runtime/cron.go:540-594 | Round trip: every non-empty set of values, written as decimal numerals, is parsed back to exactly that set. |
| `CronFieldLaws.NameIsNumber` | runtime/cron.go:614-622 | A name, in any letter case, makes the field that its number makes. |
| `CronSchedule.MonthNames` | runtime/cron.go:515-528 | The twelve month names, in any letter case, make the fields of 1 to 12. |
| `CronSchedule.DayNames` | runtime/cron.go:530-538 | The seven day names, in any letter case, make the fields of 0 to 6, Sunday first. |
| `CronSchedule.MatchesMeans` | runtime/cron.go:66-85 | A plan matches a minute if and only if minute, hour and month are selected and so is the day: by either restricted day field, or always when both are stars; day 7 is Sunday. |
| `CronSchedule.ParseSchedule` | runtime/cron.go:480-513 | A text is accepted if and only if it has five fields and each is a star or a list of segments that denote in-range ranges; the plan then selects in each place exactly what that field says, and otherwise the first wrong field is the one reported. |
| `CronSchedule.ScheduledIsValid` | runtime/cron.go:480-513 | Every accepted schedule is a plan whose five fields have their own bounds and each select something. |
| `CronSchedule.ParseOfRenderedPlan` | runtime/cron.go:480-513 | Round trip: every valid plan has a schedule text that the parser reads back to that very plan, so valid plans are exactly what the parser can produce. |
| `Calendar.DateOfIsTheCalendar` | runtime/cron.go:66-85 | The date of a day number is 1970-01-01 at 0 and advances by the Gregorian day-after rule, for all days in both directions. |
| `Calendar.DayNumberIsInjective` | runtime/cron.go:66-85 | Different dates have different day numbers. |
| `Calendar.WeekdayGoesRound` | runtime/cron.go:72-73 | The weekday is Thursday on 1970-01-01 and goes up day by day, Sunday (0) after Saturday (6). |
| `CronNext.Next` | runtime/cron.go:54-64 | The minute search returns the least matching minute strictly after the instant and within the horizon of 5*366 days, or nothing when the horizon has none. |
| `CronNext.NextIsUnique` | runtime/cron.go:54-64 | That specification determines the result. |
| `CronNext.RunsAreExactlyTheMatches` | runtime/cron.go:54-64 | Feeding results back lists every matching minute after the instant up to the last one, strictly increasing, with none skipped and none repeated. |
| `CronNext.NothingOnlyWithoutCommonDate` | runtime/cron.go:54-64 | The search comes back empty only if day-of-week is a star and no selected month and day exists in a common year. |
| `CronNext.NothingExactly` | runtime/cron.go:54-64 | If and only if: empty exactly when day-of-week is a star, no selected date exists in a common year, and no selected 29 February lies within the horizon. |
| `CronNext.LeapDayIsReached` | runtime/cron.go:54-64 | A schedule selecting 29 February comes back empty only when the next multiple of four years is a century year that is not a leap year. |
| `CronNext.SkippedCenturyDropsLeapDay` | runtime/cron.go:54-64 | And there it does: a search that begins and ends between the two leap days around such a century year finds nothing. |
| `CronNext.DroppedLeapDayExample` | runtime/cron.go:54-64 | An input: the schedule "0 0 29 2 *" is accepted and, searched from midnight of 1 January 2097, finds nothing. |
| `CronNext.HorizonEdge` | runtime/cron.go:54-64 | A lone match is found from 5*366 days before it to the minute, and missed from one minute earlier. |
| `CronNext.HorizonEdgeIsReal` | runtime/cron.go:54-64 | An input for that: 29 February 2104 and the schedule of the leap day. |
| `CronNext.EveryIsLeastMultiple` | runtime/cron.go:38-44 | For a validated interval, the result is the least multiple strictly after the instant if and only if the instant is not before 1970 or its second lies on the grid. |
| `CronNext.EveryRunsAreTheMultiples` | runtime/cron.go:38-44 | From 1970 on, feeding results back lists every multiple of the interval after the instant up to the last one, strictly increasing, with none skipped and none repeated. |
| `CronNext.RunBeforeEpochIsSkipped` | runtime/cron.go:38-44 | An input before 1970 at which a minute job skips the run at the epoch. |
| `CronNext.MidnightIsOnTheGrid` | runtime/cron.go:419-425 | Because validation demands that the interval divide 24 hours, every UTC midnight is a multiple of it. |
| `CronNext.IntervalsDivideADay` | runtime/cron.go:419-425 | Accepted intervals are exactly the whole numbers of seconds that go into a day. |
| `CronJob.PlanFor` | runtime/cron.go:388-435 | Exactly one of interval and schedule must be set; each error, and the panic of the schedule parser, occurs under exactly its condition and in the order of the checks, and an accepted job gets the interval or the valid parsed plan. |
| `CronJob.IntervalJobRuns` | runtime/cron.go:38-44 | A validated interval job runs, from 1970 on, at the least multiple of its interval after the instant, and midnights are on its grid. |
| `TemporalCalendar.FieldRanges` | runtime/cron.go:316-327 | The ranges are never empty and, read the Temporal way, contain exactly the values the field has, or all of them when forced. |
| `TemporalCalendar.WeekdayRanges` | runtime/cron.go:329-350 | The same for weekdays 0 to 6, with a selected 7 counting as 0. |
| `TemporalCalendar.OneCalendarIsEnough` | runtime/cron.go:294-314 | When either day field is a star, one calendar contains an instant exactly when it is a whole minute the plan matches. |
| `TemporalCalendar.TwoCalendarsAreTheEitherDayRule` | runtime/cron.go:294-314 | When both day fields are restricted, two calendars, each with one of them forced open, contain together exactly the matching minutes. |
| `TemporalCalendar.CalendarSpecs` | runtime/cron.go:294-314 | Translation preserves meaning: for every valid plan and every instant in seconds, some calendar contains it if and only if it is at second 0 of a minute the plan matches; no list of a calendar is left empty. |
| `RoutePattern.ParsePattern` | runtime/router.go:213-229 | The loop over path segments computes the pattern with its literal count and its parameter and wildcard flags. |
| `RoutePattern.MatchPath` | runtime/router.go:239-266 | The two-index loop is the segment-by-segment match in which a wildcard takes all that is left. |
| `RoutePattern.SplitPathJoins` | runtime/router.go:231-237 | Joining the segments of a path gives the path up to leading and trailing slashes, and the last segment is never empty. |
| `RoutePattern.TrimSlashesTrims` | runtime/router.go:231-237 | Trimming takes away slashes only, and all of them at either end. |
| `RoutePattern.CutoffMatchesAlike` | runtime/router.go:239-266 | Matching reads a pattern only through its first wildcard. |
| `RoutePattern.MatchIsSubstitution` | runtime/router.go:239-266 | For every pattern, a path matches if and only if some values for the captures turn the pattern, through its first wildcard, into its segments; with wildcards only last that is the whole pattern. |
| `RoutePattern.CapturesExpandToRequest` | runtime/router.go:239-266 | For every pattern, the captured values put back into it, as far as it is read, give the request segments. |
| `RoutePattern.CapturesAreNamed` | runtime/router.go:239-266 | Each value is captured under the name its place has in the pattern, in order. |
| `RoutePattern.RebuiltPathIsRequestPath` | runtime/router.go:239-266 | Joined again, they are the request path up to leading and trailing slashes, for every pattern. |
| `RoutePattern.MiddleWildcardBreaksSubstitution` | runtime/router.go:260-262 | The whole pattern would not do: one with a literal behind its wildcard matches a request that no substitution of all of it gives. |
| `RouteSubstitution.WholeSubstitutionExactly` | runtime/router.go:239-266 | For every pattern the parser produces: matching is substitution into the whole pattern if and only if nothing but wildcards follow the first wildcard, or that one stands behind a doubled slash and is followed by wildcards and a single parameter that is not last. |
| `RouteSubstitution.WrittenPatternIsRead` | runtime/router.go:213-229 | Round trip: segments written as a path, parameters behind a colon and wildcards behind a star, are parsed back. |
| `RouteSubstitution.ParsedPatternReadsTheSame` | runtime/router.go:213-229 | And the other way round: what is parsed, written down, is the path. |
| `StableSorting.StableSortIsStable` | runtime/router.go:81-81 | The stable sort is sorted, a permutation, and keeps the order inside every class of equal routes. |
| `StableSorting.StableSortIsUnique` | runtime/router.go:81-81 | Only one sequence is sorted, a permutation and stable, so the sorting algorithm does not matter. |
| `StableSorting.ResortingAddsOne` | runtime/router.go:67-82 | Sorting again after each registration equals sorting all registrations once. |
| `StableSorting.ScanFindsBest` | runtime/router.go:111-116 | A scan of the sorted table finds exactly the most specific wanted route, the earliest registered among equals. |
| `RouteTable.CompareIsPreorder` | runtime/router.go:190-211 | The comparison is a total preorder, as the stable sort needs. |
| `RouteTable.CompareIsSpecificity` | runtime/router.go:190-211 | The comparison puts first: more literals, then no wildcard, then more segments. |
| `RouteTable.ExactRouteLeads` | runtime/router.go:190-211 | Any route that matches an exact route's path is strictly less specific, or is exact for the same segments. |
| `RouteTable.FastIsScan` | runtime/router.go:84-119 | With wildcards last and no two exact paths equal up to outer slashes, the exact-path shortcut answers every request with the route and parameters of the sorted scan. |
| `RouteTable.AgreementOfEveryTable` | runtime/router.go:84-119 | For every table, shortcut and scan agree on every request if and only if no route the shortcut answers with is outdone by another candidate for its request. |
| `RouteTable.OutdoneMeansRival` | runtime/router.go:190-211 | What outdoing takes: a pattern with a wildcard needs more literals than the path has segments; one without needs to be an earlier exact route for the same segments. |
| `RouteTable.AgreementExactly` | runtime/router.go:84-119 | With wildcards last, that is: agreement if and only if no exact route is shadowed by an earlier exact route that differs only in outer slashes. |
| `RouteTable.TwinExample` | runtime/router.go:84-119 | A table in which that happens, and shortcut and scan disagree: one path registered with a trailing slash before the same path without. |
| `RouteTable.MiddleWildcardExample` | runtime/router.go:190-211 | A table in which a wildcard followed by two literals outdoes the exact route /a, and shortcut and scan disagree. |
| `RouteTable.Router.Handle` | runtime/router.go:67-82 | Registering appends to the registrations; the table stays their stable sort and the index stays the exact routes path by path. |
| `RouteTable.Router.MatchingRoutes` | runtime/router.go:134-144 | Collects the matching routes with their captures in table order. |
| `RouteTable.Router.LookUpExact` | runtime/router.go:85-95 | The index answers with the first registered exact route for the path that allows the method. |
| `RouteTable.ScanChoiceAnswers` | runtime/router.go:97-119 | Over the registrations: not found if and only if nothing matches; the global handler for OPTIONS if and only if something does and it is set; method not allowed if and only if no match lists the verb, GET standing for HEAD; otherwise the most specific match that does, the earliest among equals, with its captures. |
| `RouteTable.FastChoiceAnswers` | runtime/router.go:84-119 | For every method but OPTIONS the first registration for exactly the path, without captures, that lists the verb; otherwise what the scan answers. |
| `RouteTable.Router.Scan` | runtime/router.go:97-119 | Gives that answer of the scan. |
| `RouteTable.Router.Serve` | runtime/router.go:84-119 | Gives that answer, exact registrations first; it equals the scan's for every request when nothing is outdone, in particular with wildcards last and no twins. |
| `LockProtocol.OrdersAre` | cmd/scenery/dev_named_lock.go:13-17 | Substrate locks have order 10, operation locks 15, the registry lock 20. |
| `LockProtocol.StepInv` | cmd/scenery/dev_named_lock.go:54-126 | Every step of N processes keeps: a lock file has one owner, each process knows what it holds, and waits only for locks its order check admitted. |
| `LockProtocol.RunInv` | cmd/scenery/dev_named_lock.go:54-126 | So does every run. |
| `LockProtocol.NeverWaitsForItself` | cmd/scenery/dev_named_lock.go:102-114 | No process waits for a lock it holds. |
| `LockProtocol.CycleHasOneOrder` | cmd/scenery/dev_named_lock.go:54-126 | All the locks of any wait-for cycle in a reachable state have one order. |
| `LockProtocol.NoCycleWithOnePerOrder` | cmd/scenery/dev_named_lock.go:54-126 | If every process has at most one lock per order, counting the one it waits for, there is no wait-for cycle. |
| `LockProtocol.SomeoneGoesOn` | cmd/scenery/dev_named_lock.go:54-126 | Then some process can always go on. |
| `LockProtocol.TwoOperationsCanDeadlock` | cmd/scenery/dev_named_lock.go:102-114 | Without that restriction it fails: for any two locks of one order there is a run of two processes, asking for nothing else, that ends in a cycle. |
| `LockProtocol.DeadlockFreeExactly` | cmd/scenery/dev_named_lock.go:54-126 | For every set of locks: no run of any number of processes that ask only for these ever reaches a wait-for cycle if and only if no two of them have the same order. |
| `NamedLocks.HeldLocks.CheckOrder` | cmd/scenery/dev_named_lock.go:102-114 | The loop over the held map refuses exactly a path already held or one below a held order. |
| `NamedLocks.HeldLocks.Acquire` | cmd/scenery/dev_named_lock.go:54-100 | Each result, a failed root directory first, occurs under exactly its condition, the retry loop stops at the first attempt that is not busy or is past the timeout, and the held map changes only on success. |
| `NamedLocks.HeldLocks.MarkHeld` | cmd/scenery/dev_named_lock.go:116-120 | Whatever set of locks the held map stood for, afterwards it stands for that set with the lock added. |
| `NamedLocks.HeldLocks.Unmark` | cmd/scenery/dev_named_lock.go:122-126 | Whatever set of locks the held map stood for, afterwards it stands for that set without the lock, and the lock passes the order check again if and only if nothing of a higher order is still held. |
| `NamedLocks.UnmarkUndoesMark` | cmd/scenery/dev_named_lock.go:116-126 | Releasing gives back the held map from before an admitted acquire. |
| `NamedLocks.FileNamesAreInjective` | cmd/scenery/dev_named_lock.go:128-146 | Lock file names determine the lock, so one file is never used with two orders. |
| `NamedLocks.LockIsSharedExactly` | cmd/scenery/dev_named_lock.go:132-146 | Two parent databases share their operation lock if and only if their trimmed names differ only where neither has a letter, a digit or a hyphen. |
| `NamedLocks.SafeCharsAre` | cmd/scenery/dev_named_lock.go:132-146 | A lock name keeps letters, digits, hyphens and underscores, and nothing else. |
| `NamedLocks.OrderCheckIsGuard` | cmd/scenery/dev_named_lock.go:102-114 | The check over file names is the guard of the protocol over locks. |
| `NamedLocks.MarkKeepsRepresentation` | cmd/scenery/dev_named_lock.go:116-126 | Marking and unmarking keep the map and the set of locks in step. |
| `BranchRegistry.RegistryFile.UpsertLease` | cmd/scenery/db_postgres_branch_provider.go:115-160 | The loop renews the first lease with the pin's id or branch, appends when there is none, and refuses, changing nothing, when that lease is foreign. |
| `BranchRegistry.RegistryFile.ExpireLease` | cmd/scenery/db_branch_registry.go:163-192 | Every owned lease of the branch, and no other, gets the expiry; refused when there is none. |
| `BranchRegistry.RegistryFile.PruneLeases` | cmd/scenery/db_branch_registry.go:194-225 | Rebuilding the list keeps exactly the leases that are not prunable, in order, and counts the others. |
| `BranchRegistry.RegistryFile.DeleteLeases` | cmd/scenery/db_postgres_branch_provider.go:399-424 | Rebuilding the list drops exactly the owned leases of the branch, and reports when there is none. |
| `BranchRegistry.UpdateKeepsUniqueExactly` | cmd/scenery/db_postgres_branch_provider.go:115-160 | Whatever the ids: an update keeps at most one lease per project and branch if and only if it is no upsert or no lease but the one it renews has its branch. |
| `BranchRegistry.UpdateKeepsOneLeasePerBranch` | cmd/scenery/db_postgres_branch_provider.go:115-160 | With branch ids from an injective function that condition always holds, so every update keeps at most one lease per project and branch. |
| `BranchRegistry.ReusedIdDuplicatesBranch` | cmd/scenery/db_postgres_branch_provider.go:123-146 | With a reused id it can fail: the lease found by the id is rewritten to a branch another lease has. |
| `BranchRegistry.UpsertActsOnOneBranchExactly` | cmd/scenery/db_postgres_branch_provider.go:115-160 | In a registry with one lease per branch, an accepted upsert leaves the leases of all other branches as they were if and only if the lease it finds, by id or by branch, is one of its own branch. |
| `BranchRegistry.WrittenIsTheOnlyOne` | cmd/scenery/db_postgres_branch_provider.go:115-160 | When no other lease had its branch, the branch then has the lease just written, with the pin, status, time and expiry of the upsert, and no other. |
| `BranchRegistry.InjectiveIdsFindOwnBranch` | cmd/scenery/db_postgres_branch_provider.go:122-123 | Branch ids from an injective function find nothing but the pin's own branch. |
| `BranchRegistry.UpsertRefusedExactly` | cmd/scenery/db_postgres_branch_provider.go:123-126 | In a registry with one lease per branch: an upsert that finds nothing but its own branch is refused if and only if a foreign lease has the branch; any other is refused if and only if the lease of another branch that its id finds is foreign. |
| `BranchRegistry.UpsertRenews` | cmd/scenery/db_postgres_branch_provider.go:127-142 | An upsert that finds its own branch keeps the creation time of the lease it renews, or sets it when there is none, and, unless it brings one, its endpoint. |
| `BranchRegistry.UpsertCreates` | cmd/scenery/db_postgres_branch_provider.go:147-157 | A lease that an upsert creates is appended, has the endpoint given, is as old as its update, is pending when the status is blank, and expires its time to live from now, to the second. |
| `BranchRegistry.RemovalsAreExact` | cmd/scenery/db_branch_registry.go:206-219 | Prune and delete remove a lease if and only if it is owned and named by the operation. |
| `BranchRegistry.PruneRemoves` | cmd/scenery/db_branch_registry.go:206-240 | A prune removes a lease if and only if it is scenery's, of the project, not of the current branch, past its expiry and, when an age is asked for, last touched longer ago than that or at no readable time. |
| `BranchRegistry.DeleteRemoves` | cmd/scenery/db_postgres_branch_provider.go:399-424 | A delete is refused if and only if the project is blank or nothing matches, and otherwise removes exactly scenery's leases of the project and branch. |
| `BranchRegistry.ExpireSets` | cmd/scenery/db_branch_registry.go:163-192 | Scenery's leases with the pin's id or project and branch get expiry and time, to the second, and keep the rest; all others stay. |
| `BranchRegistry.RenewedLeaseSurvives` | cmd/scenery/db_branch_registry.go:68-82 | Whatever the ids, a lease just created or renewed survives every prune until its time to live, cut to whole seconds, is up. |
| `BranchRegistry.ExpiredLeaseIsPruned` | cmd/scenery/db_branch_registry.go:163-240 | Expiring a branch and then pruning its project leaves no owned lease of that branch except the current one. |
| `BranchRegistry.DeleteUndoesCreationExactly` | cmd/scenery/db_postgres_branch_provider.go:399-424 | For a branch without leases, deleting right after an upsert gives back exactly the leases from before if and only if the upsert found no lease of another branch. |
| `BranchRegistry.UpdateLeavesForeignLeases` | cmd/scenery/db_branch_registry.go:39-58 | No update alters or drops a foreign lease; with scenery's own pins the foreign leases are the same sequence before and after. |
| `BranchPrograms.EnsureBranchIsDisciplined` | cmd/scenery/db_postgres_branch_provider.go:213-264 | Every path, with every error return: locks in strictly rising order, registry read and written only under its lock, a write only of what was read in the same tenure with one update, nothing held at the end. |
| `BranchPrograms.ResetBranchIsDisciplined` | cmd/scenery/db_postgres_branch_provider.go:325-348 | The same for reset. |
| `BranchPrograms.DeleteBranchIsDisciplined` | cmd/scenery/db_postgres_branch_provider.go:350-431 | The same for delete, for any number of databases to drop. |
| `BranchPrograms.ExpireBranchIsDisciplined` | cmd/scenery/db_branch_registry.go:163-192 | The same for expire. |
| `BranchPrograms.PruneBranchesIsDisciplined` | cmd/scenery/db_branch_registry.go:194-225 | The same for prune, with or without an admin URL. |
| `BranchMachine.StepInv` | cmd/scenery/db_postgres_branch_provider.go:95-109 | Every move of any process, also failures, time-outs and exits, keeps the invariant: lock invariant, discipline of the rest of each program, fresh copies only under the registry lock, file equal to the replayed log. |
| `BranchMachine.RunInv` | cmd/scenery/db_postgres_branch_provider.go:95-109 | So does every interleaving. |
| `BranchMachine.WriteIsOneUpdate` | cmd/scenery/db_postgres_branch_provider.go:95-109 | Every write happens under the registry lock and replaces the file by one update of the file as it stands at that moment. |
| `BranchMachine.NeverRefused` | cmd/scenery/dev_named_lock.go:102-114 | In no reachable state does a disciplined program trip over the order check. |
| `BranchMachine.FinishedHoldsNothing` | cmd/scenery/db_postgres_branch_provider.go:95-109 | A process that has finished, on whatever path, owns no lock file. |
| `BranchMachine.WorkIsUnderItsLock` | cmd/scenery/dev_named_lock.go:19-31 | In every reachable state: start-up only under the substrate lock alone, database changes only under an operation lock, checks and drops of expired databases only under the registry lock. |
| `BranchMachine.DatabaseChangesAreSerialised` | cmd/scenery/db_postgres_branch_provider.go:206-211 | Two processes about to change databases never hold the same operation lock. |
| `BranchMachine.NoDeadlock` | cmd/scenery/dev_named_lock.go:54-126 | No reachable state has a wait-for cycle. |
| `BranchMachine.SomeoneMoves` | cmd/scenery/db_postgres_branch_provider.go:95-109 | While some process is unfinished, some process can make a move that is no failure. |
| `BranchMachine.EveryoneCanFinish` | cmd/scenery/db_postgres_branch_provider.go:95-109 | From every reachable state there is a continuation in which all processes finish. |
| `BranchMachine.RegistryOverWholeRuns` | cmd/scenery/db_postgres_branch_provider.go:95-160 | For disciplined programs with any pins and every interleaving: the file is the serial outcome of the logged updates, no foreign lease is altered or removed, and there is one lease per branch at all times if and only if every upsert that was written found its branch free of other leases. |
| `BranchMachine.OwnRegistryOverWholeRuns` | cmd/scenery/db_postgres_branch_provider.go:95-160 | With scenery's own pins and ids from an injective function: one lease per branch, and the foreign leases are the same sequence as before. |
| `BranchMachine.OperationsAreDisciplined` | cmd/scenery/db_postgres_branch_provider.go:213-431 | All five branch operations keep the discipline, with whatever pin. |
| `BranchMachine.BranchOperationsAreSafe` | cmd/scenery/db_postgres_branch_provider.go:95-431 | For any list of branch operations with any pins, run by as many processes from any registry in any interleaving: serial outcome, foreign leases kept, the exact condition for one lease per branch, no order check trips, no deadlock, nothing held at the end, and everybody can still finish. |
| `BranchMachine.OwnOperationsAreSafe` | cmd/scenery/db_postgres_branch_provider.go:95-431 | With pins that scenery built and ids from an injective function, moreover: one lease per branch, and the foreign leases are the same sequence as before. |
| `BranchOutcomes.EnsureBranchKeeps` | cmd/scenery/db_postgres_branch_provider.go:213-264 | On every path: success has written exactly pending, then ready with the endpoint (protected alone for a protected parent); an error nothing, pending, or pending twice. |
| `BranchOutcomes.ResetBranchKeeps` | cmd/scenery/db_postgres_branch_provider.go:325-348 | Success has written exactly ready with the endpoint, an error nothing; nothing failing is success. |
| `BranchOutcomes.DeleteBranchKeeps` | cmd/scenery/db_postgres_branch_provider.go:350-431 | Success has written exactly the delete; an error nothing, or the delete when only the pin file could not be removed; nothing failing is success. |
| `BranchOutcomes.ExpireBranchKeeps` | cmd/scenery/db_branch_registry.go:163-192 | Success has written exactly the expiry, an error nothing; nothing failing is success. |
| `BranchOutcomes.PruneBranchesKeeps` | cmd/scenery/db_branch_registry.go:194-225 | Success has written exactly the prune, an error nothing; nothing failing is success. |
| `BranchOutcomes.EnsureBranchWorksFirst` | cmd/scenery/db_postgres_branch_provider.go:213-264 | On every path, ready is written only after the database was made and after two checks for a foreign lease. |
| `BranchOutcomes.ResetBranchWorksFirst` | cmd/scenery/db_postgres_branch_provider.go:325-348 | On every path, ready is written only after the database was made again. |
| `BranchOutcomes.DeleteBranchWorksFirst` | cmd/scenery/db_postgres_branch_provider.go:388-424 | On every path, leases are deleted only after every database that was found has been dropped. |
| `BranchOutcomes.OutcomesOverWholeRuns` | cmd/scenery/db_postgres_branch_provider.go:213-431 | Over every run of any operations: what each process has written to the log is on the way to what its operation promises, and a process that has succeeded has written exactly that. |
| `BranchOutcomes.NothingFailsIsSuccess` | cmd/scenery/db_postgres_branch_provider.go:213-431 | A process for which nothing fails succeeds when it finishes, whatever the others do, and has then written exactly what its operation promises. |
| `BranchDeletion.BetweenTwoLooks` | cmd/scenery/db_postgres_branch_provider.go:95-109 | Between any two states of a run the file changes by exactly the updates added to the log. |
| `BranchDeletion.DatabaseIsLeftExactly` | cmd/scenery/db_postgres_branch_provider.go:350-424 | A delete removes a lease whose database it has not dropped if and only if the branch still has an owned lease at the second look and the last upsert of the branch since the first made it ready with a database the first had not found. |
| `BranchDeletion.ReadyInBetween` | cmd/scenery/db_postgres_branch_provider.go:398-399 | An input: a pending lease at the first look, made ready by another process before the second. |
| `SeedSanitizer.SanitizeSQL` | cmd/scenery/db_seed.go:412-500 | The byte scanner computes the sanitised text defined by the lexical rules. |
| `SeedSanitizer.BlankQuoted` | cmd/scenery/db_seed.go:435-468 | Blanks a quoted literal after its opening quote through its end, with doubled quotes inside. |
| `SeedSanitizer.TagEnd` | cmd/scenery/db_seed.go:510-525 | Finds the end of a dollar tag, or reports that there is none. |
| `SeedSanitizer.BlankDollar` | cmd/scenery/db_seed.go:469-493 | Blanks tag, body and closing tag of a dollar-quoted literal, or everything to the end. |
| `SeedSafety.SanitizedKeepsLayout` | cmd/scenery/db_seed.go:412-500 | Length and newline positions are kept, and every byte is itself or a blank. |
| `SeedSafety.SanitizedIsClean` | cmd/scenery/db_seed.go:412-500 | No quote, comment opening or dollar tag begins anywhere in the result. |
| `SeedSafety.CleanMeans` | cmd/scenery/db_seed.go:412-500 | What clean says position by position. |
| `SeedSafety.FixedExactlyWhenClean` | cmd/scenery/db_seed.go:412-500 | Sanitising changes nothing if and only if the text is clean; so it is idempotent on every byte string. |
| `SeedSafety.CodeIsKept` | cmd/scenery/db_seed.go:494-497 | Bytes before the first comment or literal are kept as they are. |
| `SeedSafety.LineCommentIsBlanked` | cmd/scenery/db_seed.go:416-422 | A line comment is blanked up to its newline and no further. |
| `SeedSafety.BlockCommentIsBlanked` | cmd/scenery/db_seed.go:423-434 | A block comment is blanked through its first closing and no further. |
| `SeedSafety.QuotedIsBlanked` | cmd/scenery/db_seed.go:435-468 | A literal with any content, its quotes doubled, is blanked through its closing quote and no further. |
| `SeedSafety.DollarQuotedIsBlanked` | cmd/scenery/db_seed.go:469-493 | A dollar-quoted literal is blanked through the first occurrence of its own tag and no further. |
| `SeedSafety.SplitStatements` | cmd/scenery/db_seed.go:387-410 | The pieces concatenate to the text, a semicolon is only ever a piece's last byte, and each piece's line is one plus the newlines before its first byte that is not white space. |
| `SeedSafety.SplitIsUnique` | cmd/scenery/db_seed.go:387-410 | A text has only one such split. |
| `SeedSafety.SpacesAreCharacters` | cmd/scenery/db_seed.go:387-410 | The white space found byte by byte is exactly the UTF-8 encoding of the white space characters. |
| `SeedSafety.LinesOfOriginal` | cmd/scenery/db_seed.go:336-355 | After sanitising, a statement's line is its line in the original file. |
| `SeedSafety.Diagnose` | cmd/scenery/db_seed.go:336-355 | The diagnostics are exactly the flagged non-blank statements of that split, in order. |
| `SeedPostgres.AlikeExactlyWhenOrdinary` | cmd/scenery/db_seed.go:412-525 | The sanitiser and PostgreSQL find the same comments and literals, one after another, if and only if: line comments have no carriage return; block comments no other inside, unless they run to the end of the text; escape strings no escaped quote, unless only quotes follow to the end; dollar tags stand outside words, do not begin with a digit and have no byte above 127. |
| `SeedPostgres.OrdinaryTextsAreSafe` | cmd/scenery/db_seed.go:412-500 | On such texts the bytes the sanitiser keeps are exactly the bytes PostgreSQL executes. |
| `SeedPostgres.TagsHideExactly` | cmd/scenery/db_seed.go:469-493 | For texts whose first exception, if any, is a dollar tag: every byte PostgreSQL executes stays visible if and only if the text is ordinary. |
| `SeedPostgres.ForeignTagIsWide` | cmd/scenery/db_seed.go:510-525 | Where the sanitiser sees nothing, PostgreSQL sees a dollar tag if and only if it stands outside a word and has a byte above 127. |
| `SeedPostgres.EscapedQuoteHides` | cmd/scenery/db_seed.go:435-451 | The condition on escape strings is needed: behind an escaped quote any words are executed and blanked. |
| `SeedPostgres.WordTagHides` | cmd/scenery/db_seed.go:469-493 | So is the condition on tags: behind a word that holds a tag any words are executed and blanked. |
| `SeedPostgres.DigitTagHides` | cmd/scenery/db_seed.go:510-525 | So is the condition on tags that begin with a digit. |
| `SeedPostgres.WideTagHides` | cmd/scenery/db_seed.go:510-525 | So is the condition on tags with a byte above 127. |
| `SeedPostgres.NestedHides` | cmd/scenery/db_seed.go:423-434 | So is the condition on nested comments. |
| `SeedPostgres.ReturnHides` | cmd/scenery/db_seed.go:416-422 | So is the condition on carriage returns. |
| `SeedRun.SeedResult.AddSeedRecord` | cmd/scenery/db_seed.go:543-557 | Each counter counts the records with its status, and together they count all records. |
| `SeedLedger.CountsAddUp` | cmd/scenery/db_seed.go:543-557 | The five status counts of any list of records sum to its length. |
| `SeedLedger.CountIsNumber` | cmd/scenery/db_seed.go:543-557 | A count is the number of records with its status. |
| `SeedRun.SeedPlan` | cmd/scenery/db_seed.go:203-243 | What a status tells a caller: skipped, changed and planned if and only if the ledger and the mode say so; applied means executed and recorded; the store changes only for an unrecorded seed outside a dry run, and without a row only for a seed that had ended its own transaction when something broke. |
| `SeedRun.SeedAll` | cmd/scenery/db_seed.go:203-243 | The loop with its counters computes the specified store and records. |
| `SeedRun.RefusedExactly` | cmd/scenery/db_seed.go:322-355 | The diagnostics of a text are not empty if and only if some non-blank statement of its sanitised text is flagged. |
| `SeedRun.DiagnosticsAreFlagged` | cmd/scenery/db_seed.go:336-355 | The diagnostics are the flagged statements, each with its line and text, and nothing else. |
| `SeedRun.ShaIsOfFirst` | cmd/scenery/db_seed.go:527-541 | A report quotes the hash of the first plan with the path. |
| `Text.CompareTextIsOrder` | cmd/scenery/db_seed.go:167-167 | The order of the reports is lexicographic. |
| `SeedRun.ExecutedStatementsAreChecked` | cmd/scenery/db_seed.go:336-355 | Of an ordinary text that is not refused, no non-blank statement that PostgreSQL executes is flagged. |
| `SeedRun.RunSeeds` | cmd/scenery/db_seed.go:141-245 | With any flagged statement in any plan, or when the store cannot be set up, the store is untouched; unsafe paths are reported once each in sorted order; otherwise the loop runs, and executes seeds of its plans only; the run reports success if and only if there was nothing to do or every seed went well; the counters always sum to the number of records. |
| `SeedLedger.FirstRunAppliesAll` | cmd/scenery/db_seed.go:203-243 | Without faults and outside a dry run, plans with different paths whose app and path are not in the ledger are all reported as applied, and the executions are exactly these plans, in order. |
| `SeedLedger.RepeatAppliesNothing` | cmd/scenery/db_seed.go:203-243 | Repeating a fully successful run without faults leaves the store alone and skips every seed. |
| `SeedLedger.SeedsRunOnce` | cmd/scenery/db_seed.go:616-633 | For any number of concurrent runs, any interleaving and any faults: no ledger row ever changes, and every seed that does not end its own transaction is executed at most once and never without its row. |
| `SeedLedger.NeverTwiceExactly` | cmd/scenery/db_seed.go:616-633 | For every set of seeds: no history of any runs with them executes one twice if and only if none of them ends its own transaction. |
| `SeedLedger.LookedUpTwice` | cmd/scenery/db_seed.go:616-633 | An input: two runs that both look such a seed up before either applies it execute it twice with no fault at all; the second only then trips over the row. |
| `SeedLedger.SerialRunsOnce` | cmd/scenery/db_seed.go:203-243 | Runs one after another execute no seed twice, whatever its text does, as long as nothing breaks between a text and its row. |
| `SeedLedger.ExecutionsAddUp` | cmd/scenery/db_seed.go:616-633 | Over every history the executions are the successes reported, the acknowledgements lost and the seeds that left no row. |
| `SeedLedger.SuccessesAreExecutionsExactly` | cmd/scenery/db_seed.go:616-633 | No success is reported without an execution; all executions are reported as successes if and only if no acknowledgement was lost and no seed left no row. |
| `SeedLedger.LostAckExample` | cmd/scenery/db_seed.go:616-633 | An input at which a seed is executed and reported as failed. |
| `SeedLedger.ExecutedIsNeverApplied` | cmd/scenery/db_seed.go:203-243 | A seed that does not end its own transaction and was executed, acknowledged or not, is from then on skipped, or reported as changed if its text differs. |
| `SeedLedger.LoopIsHistory` | cmd/scenery/db_seed.go:203-243 | The serial loop is one of those histories, so they hold of runs one after another. |
| `SeedLedger.DryRunAppliesNothing` | cmd/scenery/db_seed.go:203-243 | A dry run executes nothing and reports no success, whatever runs beside it. |
| `Middleware.ChainRun.CallNext` | runtime/middleware.go:79-119 | A call of next with the shared counter gives the specified response, counter and list of started handlers. |
| `Middleware.RunChain` | runtime/middleware.go:67-122 | The chain returns the response of the first call of next; without middlewares the leaf runs bare and its panic escapes. |
| `Middleware.ChainStartsInOrder` | runtime/middleware.go:86-119 | For every finite behaviour of the middlewares, what is started is 0, 1, 2, and so on: each middleware and the leaf at most once, in index order. |
| `Middleware.ErrorsHaveStatus` | runtime/middleware.go:80-84 | Every response that leaves next with an error has a non-zero status. |
| `Middleware.NextAnswers` | runtime/middleware.go:79-119 | Behind the leaf, and for a panic, an internal error with status 500; otherwise the response as it is, with the status of its error if it has an error and no status. |
| `Middleware.MiddlewareSeesNext` | runtime/middleware.go:79-119 | A middleware answers from the response that its call of next returned. |
| `Middleware.CallsAreAnsweredInOrder` | runtime/middleware.go:79-119 | A middleware that calls next several times gets the responses in the order of its calls. |
| `Middleware.WellBehavedChainComposes` | runtime/middleware.go:67-122 | If each middleware calls next exactly once, the run is the right-nested composition and everything starts exactly once, the leaf included. |
| `EventIds.RisesExactly` | cmd/scenery/dev_event_ids.go:12-29 | A step does not lower the cell and gives a winner an id above it if and only if it is not at the top of the 64-bit range: no preset of the largest id over an unused cell, no won swap from the largest cell. |
| `EventIds.WinnerKeepsIncreasingExactly` | cmd/scenery/dev_event_ids.go:17-28 | A won swap keeps the ids increasing if and only if the cell is below the top or the clock has passed every earlier id. |
| `EventIds.TopRepeatsId` | cmd/scenery/dev_event_ids.go:17-28 | At the top an id is handed out twice although the cell does not go down. |
| `EventIds.StepsMean` | cmd/scenery/dev_event_ids.go:12-29 | Off the top: a preset id takes over an unused cell only, and the winner of a swap gets the larger of the clock and the next number. |
| `EventIds.StepInv` | cmd/scenery/dev_event_ids.go:12-29 | Every step off the top keeps the invariant that all ids handed out lie at or below the cell, in increasing order. |
| `EventIds.RunRisesExactly` | cmd/scenery/dev_event_ids.go:12-29 | For every interleaving and clock, also one going backwards: every step of a run rises if and only if none is at the top. |
| `EventIds.IdsIncrease` | cmd/scenery/dev_event_ids.go:12-29 | And then the ids handed out strictly increase in order of the swaps. |
| `EventIds.RoomKeepsOffTop` | cmd/scenery/dev_event_ids.go:12-29 | Clock readings and preset ids that leave as much room below the top as the run is long keep every step off it. |
| `LineWriter.SetupOutputWriter.Write` | cmd/scenery/console.go:400-416 | Keeps the invariant that what was emitted and what is buffered are the cut into lines of all that was written since the last close. |
| `LineWriter.SetupOutputWriter.Close` | cmd/scenery/console.go:418-426 | Completes what was emitted to the lines of all that was written, adds nothing if and only if that is empty or ends with a newline, and leaves the writer ready for a new stream. |
| `LineWriter.WriteAll` | cmd/scenery/console.go:400-436 | For every way of cutting a stream into writes, writes and close emit exactly the lines of the whole stream, without an empty last one. |
| `LineWriter.CutIsTheSplit` | cmd/scenery/console.go:400-416 | The cut is the only one whose pieces have no newline and, joined with newlines, give the stream. |
| `Identifier.IdentifierBytesAre` | cmd/scenery/dev_services.go:953-955 | Identifier bytes are the underscore, the digits and the letters. |
| `Identifier.MentionsMeans` | cmd/scenery/dev_services.go:930-951 | A mention is the identifier with no identifier byte next to it on either side. |
| `Identifier.Scan` | cmd/scenery/dev_services.go:936-951 | The loop finds what a scan that jumps behind each rejected occurrence finds. |
| `Identifier.MentionsExactIdentifier` | cmd/scenery/dev_services.go:930-951 | A reported mention is always one; for an identifier without a bad self-overlap the report is true if and only if some occurrence stands alone. |
| `Identifier.IdentifiersSkipSafely` | cmd/scenery/dev_services.go:930-951 | Identifiers made of identifier bytes have no bad self-overlap, so jumping loses nothing. |
| `Identifier.MissedMention` | cmd/scenery/dev_services.go:930-951 | An input: the identifier a-a in the text xa-a-a is mentioned and not found. |
| `Identifier.SearchIsRightExactly` | cmd/scenery/dev_services.go:930-951 | The search is right on all texts if and only if the identifier has no bad self-overlap. |

## Left out

- The `Allow` header, CORS, the body of OPTIONS responses and the expansion of method lists: the
  methods of a route are taken as already expanded.
- CronJob.PlanFor: takes the outcome of the checks on ids, endpoints, overlap, catch-up, activity and retry
  settings as two booleans, because they are independent range checks that would only add easy members.
- The scheduler loop, timers and the Temporal SDK: clocks and network.
- `removeCurrentDBBranchLease`: it matches by branch id without asking who owns the lease, so it is
  outside the foreign-lease law.
- Branch and database naming, DDL, template databases, Docker and admin URLs: abstract steps that may
  succeed or fail.
- Reads of the registry without its lock (`findPostgresBranchLease`, listing, inspecting): they write
  nothing and take no part in the updates.
- BranchRegistry.RegistryFile.DeleteLeases: says nothing of the list in memory when no lease was removed,
  because the code then discards it and writes nothing.
- SeedPostgres.AlikeExactlyWhenOrdinary: is about reading the same comments and literals; a text that is not
  ordinary in a comment or an escape string may still happen to keep every executed byte visible. Bit strings
  count as plain literals.
- Discovering seed files and generating data artifacts: a run starts from its list of plans.
- The JSON form of the registry and its own update time: the registry is its list of leases.
- Warnings printed while an acquire waits, and the text of errors: an error is which check failed.
- Calls of `next` from several goroutines at once: the counter is not synchronised, so calls are
  sequential here.
- Middleware look-up errors, headers, events and the finalisation of responses: plumbing around the
  chain.
- Retrying an event id forever when other callers keep winning: the state machine covers every
  interleaving but claims no fairness.
- Sessions, organisations, tokens, dashboards, the terminal console, frontends, gzip, JSON and
  reflection-based decoding are not part of this model.
