/** One run of the seed command: safety first, then the loop into the result. */
module SeedRun {
  import opened Text
  import opened StableSorting
  import opened SeedSanitizer
  import opened SeedSafety
  import opened SeedLedger
  import SeedPostgres

  class SeedResult {
    var seeds: seq<Record>
    var planned: nat
    var applied: nat
    var skipped: nat
    var changed: nat
    var failed: nat

    /** Each counter counts the records with its status. */
    ghost predicate Valid()
      reads this
    {
      && planned == Count(seeds, Planned)
      && applied == Count(seeds, Applied)
      && skipped == Count(seeds, Skipped)
      && changed == Count(seeds, Changed)
      && failed == Count(seeds, Failed)
    }

    constructor ()
      ensures Valid() && seeds == []
    {
      seeds := [];
      planned, applied, skipped, changed, failed := 0, 0, 0, 0, 0;
    }

    method AddSeedRecord(record: Record)
      requires Valid()
      modifies this
      ensures Valid() && seeds == old(seeds) + [record]
      ensures planned + applied + skipped + changed + failed == |seeds|
    {
      forall status {
        CountSnoc(seeds, record, status);
      }
      CountsAddUp(seeds + [record]);
      seeds := seeds + [record];
      match record.status {
        case Planned => planned := planned + 1;
        case Applied => applied := applied + 1;
        case Skipped => skipped := skipped + 1;
        case Changed => changed := changed + 1;
        case Failed => failed := failed + 1;
      }
    }
  }

  /** The hash of the first plan with a path, as the reports quote it. */
  function ShaFor(plans: seq<Plan>, path: string): string {
    if plans == [] then "" else if plans[0].path == path then plans[0].sha else ShaFor(plans[1..], path)
  }

  lemma {:induction false} ShaIsOfFirst(plans: seq<Plan>, i: nat)
    requires i < |plans| && forall j :: 0 <= j < i ==> plans[j].path != plans[i].path
    ensures ShaFor(plans, plans[i].path) == plans[i].sha
  {
    if i == 0 {
    } else {
      ShaIsOfFirst(plans[1..], i - 1);
    }
  }

  // ----- unsafe seeds

  /** Some statement of the sanitised text that is not blank is flagged. */
  ghost predicate Refused(text: Bytes, flags: Bytes -> bool) {
    exists stmts, k :: IsSplit(Sanitized(text), stmts) && 0 <= k < |stmts| && FlaggedAt(stmts, k, flags)
  }

  ghost predicate FlaggedAt(stmts: seq<Statement>, k: nat, flags: Bytes -> bool)
    requires k < |stmts|
  {
    !AllSpace(stmts[k].text) && flags(stmts[k].text)
  }

  lemma {:induction false} FlaggedIsNotEmpty(stmts: seq<Statement>, flags: Bytes -> bool)
    ensures Flagged(stmts, flags) != [] <==> exists k :: 0 <= k < |stmts| && FlaggedAt(stmts, k, flags)
  {
    if stmts == [] {
    } else {
      var n := |stmts| - 1;
      FlaggedIsNotEmpty(stmts[..n], flags);
      assert forall k :: 0 <= k < n ==> (FlaggedAt(stmts[..n], k, flags) <==> FlaggedAt(stmts, k, flags));
      assert FlaggedAt(stmts, n, flags) ==> Flagged(stmts, flags) != [];
    }
  }

  /** The diagnostics are the flagged statements, each with its line and its text. */
  lemma {:induction false} DiagnosticsAreFlagged(stmts: seq<Statement>, flags: Bytes -> bool, d: Diagnostic)
    ensures d in Flagged(stmts, flags) <==>
            exists k :: 0 <= k < |stmts| && FlaggedAt(stmts, k, flags) && d.line == stmts[k].line && d.text == stmts[k].text
  {
    if stmts == [] {
    } else {
      var n := |stmts| - 1;
      DiagnosticsAreFlagged(stmts[..n], flags, d);
      assert forall k :: 0 <= k < n ==> (FlaggedAt(stmts[..n], k, flags) <==> FlaggedAt(stmts, k, flags));
      assert forall k :: 0 <= k < n ==> stmts[..n][k] == stmts[k];
    }
  }

  /** The diagnostics are empty exactly when the text is not refused. */
  lemma RefusedExactly(text: Bytes, stmts: seq<Statement>, flags: Bytes -> bool)
    requires IsSplit(Sanitized(text), stmts)
    ensures Flagged(stmts, flags) != [] <==> Refused(text, flags)
  {
    FlaggedIsNotEmpty(stmts, flags);
    if Refused(text, flags) {
      var other, k :| IsSplit(Sanitized(text), other) && 0 <= k < |other| && FlaggedAt(other, k, flags);
      SplitIsUnique(Sanitized(text), stmts, other);
    }
  }

  /** Of an ordinary text that is not refused, no statement PostgreSQL executes is flagged. */
  lemma ExecutedStatementsAreChecked(text: Bytes, flags: Bytes -> bool, stmts: seq<Statement>, k: nat)
    requires SeedPostgres.Ordinary(text, SeedPostgres.Fresh) && !Refused(text, flags)
    requires IsSplit(SeedPostgres.Executed(text, SeedPostgres.Fresh), stmts) && k < |stmts|
    ensures !FlaggedAt(stmts, k, flags)
  {
    SeedPostgres.OrdinaryTextsAreSafe(text);
  }

  ghost function UnsafePaths(plans: seq<Plan>, flags: Bytes -> bool): set<string> {
    if plans == [] then {}
    else
      var n := |plans| - 1;
      UnsafePaths(plans[..n], flags) + (if Refused(plans[n].text, flags) then {plans[n].path} else {})
  }

  lemma {:induction false} UnsafePathsMean(plans: seq<Plan>, flags: Bytes -> bool, path: string)
    ensures path in UnsafePaths(plans, flags) <==> exists i :: 0 <= i < |plans| && plans[i].path == path && Refused(plans[i].text, flags)
  {
    if plans == [] {
    } else {
      var n := |plans| - 1;
      UnsafePathsMean(plans[..n], flags, path);
      assert forall i :: 0 <= i < n ==> plans[..n][i] == plans[i];
    }
  }

  /** One failure for each unsafe path, in the order of the paths, and nothing else. */
  ghost predicate Refusals(records: seq<Record>, plans: seq<Plan>, paths: set<string>) {
    && (forall i :: 0 <= i < |records| ==>
          records[i].path in paths && records[i] == Record(records[i].path, ShaFor(plans, records[i].path), Failed))
    && (forall i, j :: 0 <= i < j < |records| ==> CompareText(records[i].path, records[j].path) < 0)
    && (forall p :: p in paths ==> exists i :: 0 <= i < |records| && records[i].path == p)
  }

  ghost predicate Distinct(s: seq<string>) {
    forall i, j :: 0 <= i < j < |s| ==> s[i] != s[j]
  }

  lemma {:induction false} DistinctCounts(s: seq<string>, x: string)
    requires Distinct(s)
    ensures multiset(s)[x] <= 1
  {
    if s == [] {
    } else {
      var n := |s| - 1;
      DistinctCounts(s[..n], x);
      assert s == s[..n] + [s[n]];
      assert x == s[n] ==> x !in s[..n];
    }
  }

  lemma TwiceCounts(s: seq<string>, i: nat, j: nat)
    requires i < j < |s| && s[i] == s[j]
    ensures multiset(s)[s[i]] >= 2
  {
    assert s == s[..j] + s[j..];
    assert s[i] in s[..j] && s[j] in s[j..];
  }

  /** The distinct texts in strictly rising order. */
  lemma SortedTexts(s: seq<string>)
    requires Distinct(s)
    ensures var r := StableSort(CompareText, s);
            && (forall x :: x in r <==> x in s)
            && (forall i, j :: 0 <= i < j < |r| ==> CompareText(r[i], r[j]) < 0)
  {
    var r := StableSort(CompareText, s);
    CompareTextIsPreorder();
    StableSortIsStable(CompareText, s);
    assert forall x :: x in r <==> x in multiset(r);
    forall i, j | 0 <= i < j < |r|
      ensures CompareText(r[i], r[j]) < 0
    {
      CompareTextIsEquality(r[i], r[j]);
      DistinctCounts(s, r[i]);
      if r[i] == r[j] {
        TwiceCounts(r, i, j);
      }
    }
  }

  lemma CompareTextIsPreorder()
    ensures Preorder(CompareText)
  {
    forall a, b
      ensures CompareText(a, b) < 0 <==> CompareText(b, a) > 0
    {
      CompareTextSwaps(a, b);
    }
    forall a, b, c | CompareText(a, b) <= 0 && CompareText(b, c) <= 0
      ensures CompareText(a, c) <= 0
    {
      CompareTextChains(a, b, c);
    }
  }

  lemma UnsafePathsStep(plans: seq<Plan>, i: nat, flags: Bytes -> bool)
    requires i < |plans|
    ensures UnsafePaths(plans[..i + 1], flags) ==
            if Refused(plans[i].text, flags) then UnsafePaths(plans[..i], flags) + {plans[i].path}
            else UnsafePaths(plans[..i], flags)
  {
    assert plans[..i + 1][..i] == plans[..i];
  }

  /** Whether the safety check finds anything. */
  method IsRefused(text: Bytes, flags: Bytes -> bool) returns (refused: bool)
    ensures refused <==> Refused(text, flags)
  {
    var diagnostics := Diagnose(text, flags);
    ghost var stmts :| IsSplit(Sanitized(text), stmts) && diagnostics == Flagged(stmts, flags);
    RefusedExactly(text, stmts, flags);
    return diagnostics != [];
  }

  method CollectUnsafe(plans: seq<Plan>, flags: Bytes -> bool) returns (paths: seq<string>)
    ensures Distinct(paths) && forall p :: p in paths <==> p in UnsafePaths(plans, flags)
  {
    paths := [];
    for i := 0 to |plans|
      invariant Distinct(paths) && forall p :: p in paths <==> p in UnsafePaths(plans[..i], flags)
    {
      UnsafePathsStep(plans, i, flags);
      var refused := IsRefused(plans[i].text, flags);
      if refused && plans[i].path !in paths {
        paths := paths + [plans[i].path];
      }
    }
    assert plans[..|plans|] == plans;
  }

  ghost predicate FailuresFor(records: seq<Record>, plans: seq<Plan>, paths: seq<string>) {
    |records| == |paths| && forall k :: 0 <= k < |paths| ==> records[k] == Record(paths[k], ShaFor(plans, paths[k]), Failed)
  }

  method AddFailures(plans: seq<Plan>, paths: seq<string>, result: SeedResult)
    requires result.Valid() && result.seeds == []
    modifies result
    ensures result.Valid() && FailuresFor(result.seeds, plans, paths)
  {
    for i := 0 to |paths|
      invariant result.Valid() && FailuresFor(result.seeds, plans, paths[..i])
    {
      result.AddSeedRecord(Record(paths[i], ShaFor(plans, paths[i]), Failed));
    }
    assert paths[..|paths|] == paths;
  }

  lemma FailuresAreRefusals(records: seq<Record>, plans: seq<Plan>, sorted: seq<string>, paths: set<string>)
    requires FailuresFor(records, plans, sorted) && forall p :: p in sorted <==> p in paths
    requires forall i, j :: 0 <= i < j < |sorted| ==> CompareText(sorted[i], sorted[j]) < 0
    ensures Refusals(records, plans, paths)
  {
    assert forall k :: 0 <= k < |sorted| ==> sorted[k] in sorted;
    forall p | p in paths
      ensures exists i :: 0 <= i < |records| && records[i].path == p
    {
      var i :| 0 <= i < |sorted| && sorted[i] == p;
      assert records[i].path == p;
    }
  }

  /** Reports the unsafe paths, sorted. */
  method ReportUnsafe(plans: seq<Plan>, flags: Bytes -> bool, result: SeedResult)
    requires result.Valid() && result.seeds == []
    modifies result
    ensures result.Valid() && Refusals(result.seeds, plans, UnsafePaths(plans, flags))
  {
    var paths := CollectUnsafe(plans, flags);
    SortedTexts(paths);
    var sorted := StableSort(CompareText, paths);
    AddFailures(plans, sorted, result);
    FailuresAreRefusals(result.seeds, plans, sorted, UnsafePaths(plans, flags));
  }

  // ----- the loop

  /** One seed: what each status says about the ledger, and when the seed was executed. */
  method SeedPlan(store: Store, app: string, p: Plan, dryRun: bool, lookUpFault: bool, ending: Ending)
    returns (after: Store, status: Status)
    ensures var key := (app, p.path);
            && (status == Skipped <==> !lookUpFault && LookUp(store, key) == Some(p.sha))
            && (status == Changed <==> !lookUpFault && key in store.ledger && store.ledger[key] != p.sha)
            && (status == Planned <==> !lookUpFault && key !in store.ledger && dryRun)
            && (status == Applied ==> LookUp(after, key) == Some(p.sha) && after.executed == store.executed + [(key, p.sha)])
            && (after != store ==> key !in store.ledger && !dryRun && (status == Applied <==> ending == Commits))
            && (after != store && after.ledger == store.ledger ==> p.endsOwn && ending == Breaks)
    ensures Grows(store, after)
    ensures (after, status) == SeedOne(store, app, p, dryRun, lookUpFault, ending)
  {
    if lookUpFault {
      return store, Failed;
    }
    var found := LookUp(store, KeyOf(app, p));
    if found.Some? && found.value == p.sha {
      return store, Skipped;
    }
    if found.Some? {
      return store, Changed;
    }
    if dryRun {
      return store, Planned;
    }
    var (next, ok) := ApplySeed(store, app, p, ending);
    assert next.executed != store.executed ==> next.executed[|store.executed|] == (KeyOf(app, p), p.sha);
    return next, if ok then Applied else Failed;
  }

  /** The seed loop as the source runs it, against the store and into the result. */
  method SeedAll(store: Store, app: string, plans: seq<Plan>, dryRun: bool, faults: Faults, result: SeedResult)
    returns (after: Store)
    requires result.Valid() && result.seeds == []
    modifies result
    ensures result.Valid() && (after, result.seeds) == SeedLoop(store, app, plans, 0, dryRun, faults)
  {
    after := store;
    ghost var target := SeedLoop(store, app, plans, 0, dryRun, faults);
    assert [] + target.1 == target.1;
    for i := 0 to |plans|
      invariant result.Valid()
      invariant var whole := SeedLoop(after, app, plans, i, dryRun, faults);
                target == (whole.0, result.seeds + whole.1)
    {
      SeedLoopStep(after, app, plans, i, dryRun, faults, result.seeds);
      var plan := plans[i];
      var status;
      after, status := SeedPlan(after, app, plan, dryRun, faults.lookUp(i), faults.apply(i));
      result.AddSeedRecord(Record(plan.path, plan.sha, status));
    }
    assert result.seeds + [] == result.seeds;
  }

  predicate Fine(status: Status) {
    status == Applied || status == Skipped || status == Planned
  }

  ghost predicate FromPlans(e: (Key, string), app: string, plans: seq<Plan>) {
    exists p :: p in plans && e == ((app, p.path), p.sha)
  }

  /** What the loop executes are seeds of its plans, after what was executed before. */
  ghost predicate ExecutedFrom(s: Store, t: Store, app: string, plans: seq<Plan>) {
    && |s.executed| <= |t.executed|
    && (forall k :: 0 <= k < |s.executed| ==> t.executed[k] == s.executed[k])
    && (forall k :: |s.executed| <= k < |t.executed| ==> FromPlans(t.executed[k], app, plans))
  }

  lemma {:induction false} LoopExecutesItsPlans(s: Store, app: string, plans: seq<Plan>, i: nat, dryRun: bool, faults: Faults)
    requires i <= |plans|
    ensures ExecutedFrom(s, SeedLoop(s, app, plans, i, dryRun, faults).0, app, plans)
    decreases |plans| - i
  {
    if i == |plans| {
    } else {
      var p := plans[i];
      var (next, status) := SeedOne(s, app, p, dryRun, faults.lookUp(i), faults.apply(i));
      assert FromPlans((KeyOf(app, p), p.sha), app, plans);
      assert ExecutedFrom(s, next, app, plans);
      LoopExecutesItsPlans(next, app, plans, i + 1, dryRun, faults);
      ExecutedChain(s, next, SeedLoop(next, app, plans, i + 1, dryRun, faults).0, app, plans);
    }
  }

  lemma ExecutedChain(s: Store, m: Store, t: Store, app: string, plans: seq<Plan>)
    requires ExecutedFrom(s, m, app, plans) && ExecutedFrom(m, t, app, plans)
    ensures ExecutedFrom(s, t, app, plans)
  {
  }

  /** A run. Unsafe plans stop it before the store is touched, and so does a failure to resolve,
      open or prepare the store (`setupOk`); otherwise the loop runs. It reports an error unless
      there was nothing to do or every seed went well. Whatever it executes is a seed of its plans,
      and then no statement of any of them is flagged. */
  method RunSeeds(store: Store, app: string, plans: seq<Plan>, flags: Bytes -> bool, setupOk: bool, dryRun: bool,
                  faults: Faults)
    returns (after: Store, result: SeedResult, ok: bool)
    ensures result.Valid()
    ensures result.planned + result.applied + result.skipped + result.changed + result.failed == |result.seeds|
    ensures var unsafePaths := UnsafePaths(plans, flags);
            if unsafePaths != {} then after == store && Refusals(result.seeds, plans, unsafePaths)
            else if !setupOk then after == store && result.seeds == []
            else (after, result.seeds) == SeedLoop(store, app, plans, 0, dryRun, faults)
    ensures ok <==> plans == [] || (UnsafePaths(plans, flags) == {} && setupOk && forall r :: r in result.seeds ==> Fine(r.status))
    ensures ExecutedFrom(store, after, app, plans)
    ensures after != store ==> forall i :: 0 <= i < |plans| ==> !Refused(plans[i].text, flags)
  {
    result := new SeedResult();
    after, ok := store, true;
    if plans == [] {
      return;
    }
    ReportUnsafe(plans, flags, result);
    if result.seeds != [] {
      ok := false;
      assert result.seeds[0].path in UnsafePaths(plans, flags);
    } else if !setupOk {
      ok := false;
    } else {
      after := SeedAll(store, app, plans, dryRun, faults, result);
      ok := forall r | r in result.seeds :: Fine(r.status);
      LoopExecutesItsPlans(store, app, plans, 0, dryRun, faults);
      forall i | 0 <= i < |plans|
        ensures !Refused(plans[i].text, flags)
      {
        UnsafePathsMean(plans, flags, plans[i].path);
      }
    }
    CountsAddUp(result.seeds);
  }
}
