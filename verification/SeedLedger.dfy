/** Applying seeds once: the ledger, the seed loop, and any number of runs at once. */
module SeedLedger {
  import opened Text
  import SeedSanitizer

  /** A seed file. `endsOwn` says whether its text ends the transaction it runs in, as a `commit`
      of its own does. */
  datatype Plan = Plan(path: string, text: SeedSanitizer.Bytes, sha: string, endsOwn: bool)

  datatype Status = Planned | Applied | Skipped | Changed | Failed

  datatype Record = Record(path: string, sha: string, status: Status)

  type Key = (string, string)

  function KeyOf(app: string, p: Plan): Key { (app, p.path) }

  /** `executed` records every seed whose effects were committed, in order of commit. */
  datatype Store = Store(ledger: map<Key, string>, executed: seq<(Key, string)>)

  // ----- the store

  /** How applying a seed ends: its text fails before anything of it is committed; something breaks
      between its text and its ledger row; everything is committed; or that, while the
      acknowledgement is lost and the caller sees an error. */
  datatype Ending = RollsBack | Breaks | Commits | Unacknowledged

  function Executing(s: Store, key: Key, sha: string): Store {
    s.(executed := s.executed + [(key, sha)])
  }

  /** One transaction: run the seed and insert its ledger row. A row that is there already breaks
      the primary key. Without its row the seed is rolled back, unless its text has ended the
      transaction before. */
  function ApplySeed(s: Store, app: string, p: Plan, ending: Ending): (Store, bool) {
    var key := KeyOf(app, p);
    if ending == RollsBack then (s, false)
    else if ending == Breaks || key in s.ledger then (if p.endsOwn then Executing(s, key, p.sha) else s, false)
    else (Executing(s, key, p.sha).(ledger := s.ledger[key := p.sha]), ending == Commits)
  }

  // ----- one seed of a run

  /** What the look-up decides: a final status, or nothing when the seed is to be applied. */
  function Decide(found: Option<string>, sha: string, dryRun: bool): Option<Status> {
    match found
    case Some(prior) => Some(if prior == sha then Skipped else Changed)
    case None => if dryRun then Some(Planned) else None
  }

  function LookUp(s: Store, key: Key): Option<string> {
    if key in s.ledger then Some(s.ledger[key]) else None
  }

  /** What the two database calls do for the seeds of a run. */
  datatype Faults = Faults(lookUp: nat -> bool, apply: nat -> Ending)

  function SeedOne(s: Store, app: string, p: Plan, dryRun: bool, lookUpFault: bool, ending: Ending): (Store, Status) {
    if lookUpFault then (s, Failed)
    else
      match Decide(LookUp(s, KeyOf(app, p)), p.sha, dryRun)
      case Some(status) => (s, status)
      case None =>
        var (next, ok) := ApplySeed(s, app, p, ending);
        (next, if ok then Applied else Failed)
  }

  /** The seed loop from plan `i` on. */
  function SeedLoop(s: Store, app: string, plans: seq<Plan>, i: nat, dryRun: bool, faults: Faults): (r: (Store, seq<Record>))
    requires i <= |plans|
    ensures |r.1| == |plans| - i
    decreases |plans| - i
  {
    if i == |plans| then (s, [])
    else
      var p := plans[i];
      var (next, status) := SeedOne(s, app, p, dryRun, faults.lookUp(i), faults.apply(i));
      var (last, records) := SeedLoop(next, app, plans, i + 1, dryRun, faults);
      (last, [Record(p.path, p.sha, status)] + records)
  }

  lemma SeedLoopStep(s: Store, app: string, plans: seq<Plan>, i: nat, dryRun: bool, faults: Faults, done: seq<Record>)
    requires i < |plans|
    ensures var p := plans[i];
            var (next, status) := SeedOne(s, app, p, dryRun, faults.lookUp(i), faults.apply(i));
            var (last, rest) := SeedLoop(next, app, plans, i + 1, dryRun, faults);
            var whole := SeedLoop(s, app, plans, i, dryRun, faults);
            (whole.0, done + whole.1) == (last, (done + [Record(p.path, p.sha, status)]) + rest)
  {
    var p := plans[i];
    var (next, status) := SeedOne(s, app, p, dryRun, faults.lookUp(i), faults.apply(i));
    var rest := SeedLoop(next, app, plans, i + 1, dryRun, faults).1;
    var r := Record(p.path, p.sha, status);
    assert done + ([r] + rest) == (done + [r]) + rest;
  }

  // ----- counting records

  function Count(records: seq<Record>, status: Status): nat {
    if records == [] then 0
    else Count(records[..|records| - 1], status) + (if records[|records| - 1].status == status then 1 else 0)
  }

  lemma {:induction false} CountsAddUp(records: seq<Record>)
    ensures Count(records, Planned) + Count(records, Applied) + Count(records, Skipped) +
            Count(records, Changed) + Count(records, Failed) == |records|
  {
    if records == [] {
    } else {
      CountsAddUp(records[..|records| - 1]);
    }
  }

  ghost function PositionsOf(records: seq<Record>, status: Status): set<int> {
    set i | 0 <= i < |records| && records[i].status == status
  }

  lemma CountSnoc(records: seq<Record>, r: Record, status: Status)
    ensures Count(records + [r], status) == Count(records, status) + (if r.status == status then 1 else 0)
  {
    assert (records + [r])[..|records|] == records;
  }

  lemma PositionsSnoc(records: seq<Record>, r: Record, status: Status)
    ensures PositionsOf(records + [r], status) == PositionsOf(records, status) + if r.status == status then {|records|} else {}
  {
    var all := records + [r];
    assert all[|records|] == r && forall i :: 0 <= i < |records| ==> all[i] == records[i];
  }

  /** A count is the number of records with the status. */
  lemma {:induction false} CountIsNumber(records: seq<Record>, status: Status)
    ensures Count(records, status) == |PositionsOf(records, status)|
  {
    if records == [] {
      assert PositionsOf(records, status) == {};
    } else {
      var front, last := records[..|records| - 1], records[|records| - 1];
      assert records == front + [last];
      CountIsNumber(front, status);
      CountSnoc(front, last, status);
      PositionsSnoc(front, last, status);
    }
  }

  // ----- a run after a successful run

  ghost predicate NoFaults(faults: Faults) {
    forall i: nat :: !faults.lookUp(i) && faults.apply(i) == Commits
  }

  ghost predicate Recorded(s: Store, app: string, plans: seq<Plan>) {
    forall i :: 0 <= i < |plans| ==> LookUp(s, KeyOf(app, plans[i])) == Some(plans[i].sha)
  }

  /** The ledger only grows: no row is changed or removed. */
  ghost predicate Grows(s: Store, t: Store) {
    forall k :: k in s.ledger ==> k in t.ledger && t.ledger[k] == s.ledger[k]
  }

  lemma {:induction false} LoopGrows(s: Store, app: string, plans: seq<Plan>, i: nat, dryRun: bool, faults: Faults)
    requires i <= |plans|
    ensures Grows(s, SeedLoop(s, app, plans, i, dryRun, faults).0)
    decreases |plans| - i
  {
    if i == |plans| {
    } else {
      var (next, status) := SeedOne(s, app, plans[i], dryRun, faults.lookUp(i), faults.apply(i));
      LoopGrows(next, app, plans, i + 1, dryRun, faults);
    }
  }

  lemma {:induction false} SuccessRecordsEverything(s: Store, app: string, plans: seq<Plan>, i: nat, faults: Faults)
    requires i <= |plans|
    requires forall r :: r in SeedLoop(s, app, plans, i, false, faults).1 ==> r.status == Applied || r.status == Skipped
    ensures var last := SeedLoop(s, app, plans, i, false, faults).0;
            forall j :: i <= j < |plans| ==> LookUp(last, KeyOf(app, plans[j])) == Some(plans[j].sha)
    decreases |plans| - i
  {
    if i == |plans| {
    } else {
      var p := plans[i];
      var (next, status) := SeedOne(s, app, p, false, faults.lookUp(i), faults.apply(i));
      var records := SeedLoop(s, app, plans, i, false, faults).1;
      assert records[0] == Record(p.path, p.sha, status) && records[0] in records;
      assert forall r :: r in SeedLoop(next, app, plans, i + 1, false, faults).1 ==> r in records;
      SuccessRecordsEverything(next, app, plans, i + 1, faults);
      LoopGrows(next, app, plans, i + 1, false, faults);
      assert LookUp(next, KeyOf(app, p)) == Some(p.sha);
    }
  }

  lemma {:induction false} RecordedIsSkipped(s: Store, app: string, plans: seq<Plan>, i: nat, dryRun: bool, faults: Faults)
    requires i <= |plans| && Recorded(s, app, plans) && NoFaults(faults)
    ensures var (last, records) := SeedLoop(s, app, plans, i, dryRun, faults);
            last == s && forall r :: r in records ==> r.status == Skipped
    decreases |plans| - i
  {
    if i == |plans| {
    } else {
      assert LookUp(s, KeyOf(app, plans[i])) == Some(plans[i].sha);
      RecordedIsSkipped(s, app, plans, i + 1, dryRun, faults);
    }
  }

  /** Repeating a fully successful run applies nothing: every seed is skipped. */
  lemma RepeatAppliesNothing(s: Store, app: string, plans: seq<Plan>, first: Faults, second: Faults)
    requires forall r :: r in SeedLoop(s, app, plans, 0, false, first).1 ==> r.status == Applied || r.status == Skipped
    requires NoFaults(second)
    ensures var after := SeedLoop(s, app, plans, 0, false, first).0;
            var (last, records) := SeedLoop(after, app, plans, 0, false, second);
            last == after && forall r :: r in records ==> r.status == Skipped
  {
    SuccessRecordsEverything(s, app, plans, 0, first);
    RecordedIsSkipped(SeedLoop(s, app, plans, 0, false, first).0, app, plans, 0, false, second);
  }

  /** The executions of the plans, in order. */
  function ExecutionsOf(app: string, plans: seq<Plan>): (e: seq<(Key, string)>)
    ensures |e| == |plans| && forall i :: 0 <= i < |plans| ==> e[i] == ((app, plans[i].path), plans[i].sha)
  {
    seq(|plans|, i requires 0 <= i < |plans| => ((app, plans[i].path), plans[i].sha))
  }

  ghost predicate DistinctPaths(plans: seq<Plan>) {
    forall i, j :: 0 <= i < j < |plans| ==> plans[i].path != plans[j].path
  }

  lemma NewSeedIsApplied(s: Store, app: string, p: Plan)
    requires (app, p.path) !in s.ledger
    ensures SeedOne(s, app, p, false, false, Commits) ==
            (Store(s.ledger[(app, p.path) := p.sha], s.executed + [((app, p.path), p.sha)]), Applied)
  {
  }

  /** The plans from `i` on, all applied. */
  ghost predicate AllApplied(plans: seq<Plan>, i: nat, records: seq<Record>) {
    && i <= |plans| && |records| == |plans| - i
    && forall k :: i <= k < |plans| ==> records[k - i] == Record(plans[k].path, plans[k].sha, Applied)
  }

  lemma AllAppliedCons(plans: seq<Plan>, i: nat, rest: seq<Record>)
    requires i < |plans| && AllApplied(plans, i + 1, rest)
    ensures AllApplied(plans, i, [Record(plans[i].path, plans[i].sha, Applied)] + rest)
  {
  }

  lemma ExecutionsFrom(s: seq<(Key, string)>, e: seq<(Key, string)>, i: nat)
    requires i < |e|
    ensures (s + [e[i]]) + e[i + 1..] == s + e[i..]
  {
  }

  lemma {:induction false} NewSeedsAreApplied(s: Store, app: string, plans: seq<Plan>, i: nat, faults: Faults)
    requires i <= |plans| && NoFaults(faults) && DistinctPaths(plans)
    requires forall j :: i <= j < |plans| ==> (app, plans[j].path) !in s.ledger
    ensures var (last, records) := SeedLoop(s, app, plans, i, false, faults);
            last.executed == s.executed + ExecutionsOf(app, plans)[i..] && AllApplied(plans, i, records)
    decreases |plans| - i
  {
    if i == |plans| {
    } else {
      NewSeedIsApplied(s, app, plans[i]);
      var next := SeedOne(s, app, plans[i], false, faults.lookUp(i), faults.apply(i)).0;
      NewSeedsAreApplied(next, app, plans, i + 1, faults);
      AllAppliedCons(plans, i, SeedLoop(next, app, plans, i + 1, false, faults).1);
      ExecutionsFrom(s.executed, ExecutionsOf(app, plans), i);
    }
  }

  /** A first run without faults applies every seed: plans with different paths, none of them in the
      ledger, are executed exactly once each, in order, and reported as applied. */
  lemma FirstRunAppliesAll(s: Store, app: string, plans: seq<Plan>, faults: Faults)
    requires NoFaults(faults) && DistinctPaths(plans)
    requires forall j :: 0 <= j < |plans| ==> (app, plans[j].path) !in s.ledger
    ensures var (last, records) := SeedLoop(s, app, plans, 0, false, faults);
            && last.executed == s.executed + ExecutionsOf(app, plans)
            && |records| == |plans|
            && forall k :: 0 <= k < |plans| ==> records[k] == Record(plans[k].path, plans[k].sha, Applied)
  {
    NewSeedsAreApplied(s, app, plans, 0, faults);
    assert ExecutionsOf(app, plans)[0..] == ExecutionsOf(app, plans);
  }

  // ----- any number of runs at once

  /** A run in progress: what is left, whether the first seed of it has been looked up and is to
      be applied, and what was reported. */
  datatype Run = Run(app: string, dryRun: bool, plans: seq<Plan>, applying: bool, records: seq<Record>)

  datatype System = System(store: Store, runs: seq<Run>)

  /** A run's next database call, and what the database does with it. */
  datatype Call = LookUpCall(fault: bool) | ApplyCall(ending: Ending)

  predicate CallEnabled(s: System, i: nat, c: Call) {
    i < |s.runs| && s.runs[i].plans != [] && (s.runs[i].applying <==> c.ApplyCall?)
  }

  function Reported(r: Run, status: Status): Run
    requires r.plans != []
  {
    r.(plans := r.plans[1..], applying := false,
       records := r.records + [Record(r.plans[0].path, r.plans[0].sha, status)])
  }

  function CallStep(s: System, i: nat, c: Call): System
    requires CallEnabled(s, i, c)
  {
    var r := s.runs[i];
    var p := r.plans[0];
    match c
    case LookUpCall(fault) =>
      if fault then s.(runs := s.runs[i := Reported(r, Failed)])
      else
        var decision := Decide(LookUp(s.store, KeyOf(r.app, p)), p.sha, r.dryRun);
        if decision.Some? then s.(runs := s.runs[i := Reported(r, decision.value)])
        else s.(runs := s.runs[i := r.(applying := true)])
    case ApplyCall(ending) =>
      var (next, ok) := ApplySeed(s.store, r.app, p, ending);
      System(next, s.runs[i := Reported(r, if ok then Applied else Failed)])
  }

  datatype Turn = Turn(run: nat, call: Call)

  ghost predicate IsHistory(s: System, turns: seq<Turn>, t: System)
    decreases |turns|
  {
    if turns == [] then s == t
    else CallEnabled(s, turns[0].run, turns[0].call) &&
         IsHistory(CallStep(s, turns[0].run, turns[0].call), turns[1..], t)
  }

  // ----- executed at most once

  /** Only seeds that `odd` names may end their own transaction. */
  ghost predicate OddOnly(s: System, odd: Key -> bool) {
    forall i, k :: 0 <= i < |s.runs| && 0 <= k < |s.runs[i].plans| && s.runs[i].plans[k].endsOwn ==>
      odd(KeyOf(s.runs[i].app, s.runs[i].plans[k]))
  }

  /** No row is changed or removed. Apart from the odd ones, no seed is executed twice, none that the
      ledger had before, and what was executed is what the ledger says. */
  ghost predicate OnceEach(initial: Store, s: Store, odd: Key -> bool) {
    && Grows(initial, s)
    && (forall i :: 0 <= i < |s.executed| && !odd(s.executed[i].0) ==>
          var (key, sha) := s.executed[i];
          key !in initial.ledger && key in s.ledger && s.ledger[key] == sha)
    && (forall i, j :: 0 <= i < j < |s.executed| && !odd(s.executed[i].0) ==> s.executed[i].0 != s.executed[j].0)
  }

  lemma ApplyOnceEach(initial: Store, s: Store, app: string, p: Plan, ending: Ending, odd: Key -> bool)
    requires OnceEach(initial, s, odd) && (p.endsOwn ==> odd(KeyOf(app, p)))
    ensures var t := ApplySeed(s, app, p, ending).0; OnceEach(initial, t, odd) && Grows(s, t)
  {
    var t := ApplySeed(s, app, p, ending).0;
    if t.executed != s.executed {
      assert forall j :: 0 <= j < |s.executed| ==> t.executed[j] == s.executed[j];
    }
  }

  lemma StepOnceEach(initial: Store, s: System, i: nat, c: Call, odd: Key -> bool)
    requires OnceEach(initial, s.store, odd) && OddOnly(s, odd) && CallEnabled(s, i, c)
    ensures var t := CallStep(s, i, c); OnceEach(initial, t.store, odd) && Grows(s.store, t.store) && OddOnly(t, odd)
  {
    var r := s.runs[i];
    if c.ApplyCall? {
      ApplyOnceEach(initial, s.store, r.app, r.plans[0], c.ending, odd);
    }
    StepOddOnly(s, i, c, odd);
  }

  lemma StepOddOnly(s: System, i: nat, c: Call, odd: Key -> bool)
    requires OddOnly(s, odd) && CallEnabled(s, i, c)
    ensures OddOnly(CallStep(s, i, c), odd)
  {
    var t := CallStep(s, i, c);
    var r := s.runs[i];
    assert t.runs[i].plans == r.plans || t.runs[i].plans == r.plans[1..];
    assert forall k :: 0 <= k < |r.plans| - 1 ==> r.plans[1..][k] == r.plans[k + 1];
  }

  /** Whatever the interleaving and the faults: no ledger row ever changes, and every seed that does
      not end its own transaction is executed at most once and never without its row. */
  lemma {:induction false} SeedsRunOnce(initial: Store, s: System, turns: seq<Turn>, t: System, odd: Key -> bool)
    requires OnceEach(initial, s.store, odd) && OddOnly(s, odd) && IsHistory(s, turns, t)
    ensures OnceEach(initial, t.store, odd) && Grows(s.store, t.store)
    decreases |turns|
  {
    if turns == [] {
    } else {
      StepOnceEach(initial, s, turns[0].run, turns[0].call, odd);
      SeedsRunOnce(initial, CallStep(s, turns[0].run, turns[0].call), turns[1..], t, odd);
    }
  }

  /** A seed that was executed, acknowledged or not, is never applied again, unless it is odd: from
      then on, in every history, a look-up that works says skipped for the same text and changed for
      another. */
  lemma ExecutedIsNeverApplied(initial: Store, s: System, turns: seq<Turn>, t: System, odd: Key -> bool, k: nat,
                               sha: string, dryRun: bool)
    requires OnceEach(initial, s.store, odd) && OddOnly(s, odd) && IsHistory(s, turns, t)
    requires k < |s.store.executed| && !odd(s.store.executed[k].0)
    ensures var (key, done) := s.store.executed[k];
            Decide(LookUp(t.store, key), sha, dryRun) == Some(if sha == done then Skipped else Changed)
  {
    SeedsRunOnce(initial, s, turns, t, odd);
  }

  /** One run at a time looks and applies in one go: nothing is executed twice, whatever its text
      does, as long as nothing breaks between a text and its row. */
  lemma {:induction false} SerialRunsOnce(initial: Store, s: Store, app: string, plans: seq<Plan>, i: nat, dryRun: bool,
                                         faults: Faults, odd: Key -> bool)
    requires i <= |plans| && OnceEach(initial, s, odd) && forall j: nat :: faults.apply(j) != Breaks
    ensures OnceEach(initial, SeedLoop(s, app, plans, i, dryRun, faults).0, odd)
    decreases |plans| - i
  {
    if i == |plans| {
    } else {
      var (next, status) := SeedOne(s, app, plans[i], dryRun, faults.lookUp(i), faults.apply(i));
      if next != s {
        ApplyOnceEach(initial, s, app, plans[i].(endsOwn := false), faults.apply(i), odd);
      }
      SerialRunsOnce(initial, next, app, plans, i + 1, dryRun, faults, odd);
    }
  }

  // ----- exactly which seeds are never executed twice

  ghost predicate AtMostOnce(s: Store) {
    forall i, j :: 0 <= i < j < |s.executed| ==> s.executed[i].0 != s.executed[j].0
  }

  ghost predicate PlansWithin(runs: seq<Run>, u: iset<Plan>) {
    forall i, k :: 0 <= i < |runs| && 0 <= k < |runs[i].plans| ==> runs[i].plans[k] in u
  }

  /** No history of any runs with seeds of `u` executes a seed twice. */
  ghost predicate NeverTwice(u: iset<Plan>) {
    forall ledger, runs, turns, t ::
      PlansWithin(runs, u) && IsHistory(System(Store(ledger, []), runs), turns, t) ==> AtMostOnce(t.store)
  }

  /** An input: two runs that both look a seed up before either applies it execute it twice, with no
      fault at all, when it ends its own transaction. */
  lemma LookedUpTwice(app: string, p: Plan) returns (turns: seq<Turn>, t: System)
    requires p.endsOwn
    ensures var run := Run(app, false, [p], false, []);
            IsHistory(System(Store(map[], []), [run, run]), turns, t)
    ensures turns == [Turn(0, LookUpCall(false)), Turn(1, LookUpCall(false)), Turn(0, ApplyCall(Commits)), Turn(1, ApplyCall(Commits))]
    ensures t.store.executed == [(KeyOf(app, p), p.sha), (KeyOf(app, p), p.sha)]
    ensures |t.runs| == 2 && t.runs[0].records == [Record(p.path, p.sha, Applied)] && t.runs[1].records == [Record(p.path, p.sha, Failed)]
  {
    var run := Run(app, false, [p], false, []);
    var s := System(Store(map[], []), [run, run]);
    turns := [Turn(0, LookUpCall(false)), Turn(1, LookUpCall(false)), Turn(0, ApplyCall(Commits)), Turn(1, ApplyCall(Commits))];
    var s1 := CallStep(s, 0, LookUpCall(false));
    var s2 := CallStep(s1, 1, LookUpCall(false));
    var s3 := CallStep(s2, 0, ApplyCall(Commits));
    t := CallStep(s3, 1, ApplyCall(Commits));
    assert IsHistory(t, turns[1..][1..][1..][1..], t);
    assert IsHistory(s3, turns[1..][1..][1..], t);
    assert IsHistory(s2, turns[1..][1..], t);
    assert IsHistory(s1, turns[1..], t);
  }

  lemma OneIsEnough(u: iset<Plan>, p: Plan)
    requires p in u && p.endsOwn
    ensures !NeverTwice(u)
  {
    var turns, t := LookedUpTwice("", p);
    var run := Run("", false, [p], false, []);
    assert PlansWithin([run, run], u);
    assert t.store.executed[0].0 == t.store.executed[1].0;
  }

  /** Exactly which seeds are never executed twice, over all runs and histories: those that do not
      end their own transaction. */
  lemma NeverTwiceExactly(u: iset<Plan>)
    ensures NeverTwice(u) <==> forall p :: p in u ==> !p.endsOwn
  {
    if forall p :: p in u ==> !p.endsOwn {
      forall ledger, runs, turns, t | PlansWithin(runs, u) && IsHistory(System(Store(ledger, []), runs), turns, t)
        ensures AtMostOnce(t.store)
      {
        var s := System(Store(ledger, []), runs);
        SeedsRunOnce(s.store, s, turns, t, (k: Key) => false);
      }
    }
    forall p | NeverTwice(u) && p in u
      ensures !p.endsOwn
    {
      if p.endsOwn {
        OneIsEnough(u, p);
      }
    }
  }

  // ----- what is reported against what is executed

  /** Successes reported over all runs. */
  function TotalApplied(runs: seq<Run>): nat {
    if runs == [] then 0 else TotalApplied(runs[..|runs| - 1]) + Count(runs[|runs| - 1].records, Applied)
  }

  lemma {:induction false} TotalAfter(runs: seq<Run>, i: nat, r: Run, more: nat)
    requires i < |runs| && Count(r.records, Applied) == Count(runs[i].records, Applied) + more
    ensures TotalApplied(runs[i := r]) == TotalApplied(runs) + more
  {
    var n := |runs| - 1;
    if i == n {
      assert runs[i := r][..n] == runs[..n];
    } else {
      TotalAfter(runs[..n], i, r, more);
      assert runs[i := r][..n] == runs[..n][i := r];
    }
  }

  lemma CountReported(r: Run, status: Status)
    requires r.plans != []
    ensures Count(Reported(r, status).records, Applied) == Count(r.records, Applied) + (if status == Applied then 1 else 0)
  {
    CountSnoc(r.records, Record(r.plans[0].path, r.plans[0].sha, status), Applied);
  }

  /** The call executes its seed with its row, but the acknowledgement is lost. */
  predicate LosesAck(s: System, i: nat, c: Call) {
    && CallEnabled(s, i, c) && c.ApplyCall? && c.ending == Unacknowledged
    && KeyOf(s.runs[i].app, s.runs[i].plans[0]) !in s.store.ledger
  }

  /** The call executes its seed, but leaves no row: the seed had ended its transaction. */
  predicate LeavesNoRow(s: System, i: nat, c: Call) {
    && CallEnabled(s, i, c) && c.ApplyCall? && c.ending != RollsBack && s.runs[i].plans[0].endsOwn
    && (c.ending == Breaks || KeyOf(s.runs[i].app, s.runs[i].plans[0]) in s.store.ledger)
  }

  /** How many calls of a history are of a kind. */
  ghost function Tally(s: System, turns: seq<Turn>, t: System, kind: (System, nat, Call) -> bool): nat
    requires IsHistory(s, turns, t)
    decreases |turns|
  {
    if turns == [] then 0
    else
      (if kind(s, turns[0].run, turns[0].call) then 1 else 0) +
      Tally(CallStep(s, turns[0].run, turns[0].call), turns[1..], t, kind)
  }

  lemma StepTotal(s: System, i: nat, c: Call)
    requires CallEnabled(s, i, c)
    ensures |CallStep(s, i, c).store.executed| - |s.store.executed| ==
            TotalApplied(CallStep(s, i, c).runs) - TotalApplied(s.runs) +
            (if LosesAck(s, i, c) then 1 else 0) + (if LeavesNoRow(s, i, c) then 1 else 0)
  {
    var r := s.runs[i];
    match c
    case LookUpCall(fault) =>
      var decision := Decide(LookUp(s.store, KeyOf(r.app, r.plans[0])), r.plans[0].sha, r.dryRun);
      if fault {
        CountReported(r, Failed);
        TotalAfter(s.runs, i, Reported(r, Failed), 0);
      } else if decision.Some? {
        CountReported(r, decision.value);
        TotalAfter(s.runs, i, Reported(r, decision.value), 0);
      } else {
        TotalAfter(s.runs, i, r.(applying := true), 0);
      }
    case ApplyCall(ending) =>
      var (next, ok) := ApplySeed(s.store, r.app, r.plans[0], ending);
      var status := if ok then Applied else Failed;
      CountReported(r, status);
      TotalAfter(s.runs, i, Reported(r, status), if ok then 1 else 0);
  }

  /** Over every history: the executions are the successes reported, the acknowledgements lost and
      the seeds that left no row. */
  lemma {:induction false} ExecutionsAddUp(s: System, turns: seq<Turn>, t: System)
    requires IsHistory(s, turns, t)
    ensures |t.store.executed| - |s.store.executed| ==
            TotalApplied(t.runs) - TotalApplied(s.runs) + Tally(s, turns, t, LosesAck) + Tally(s, turns, t, LeavesNoRow)
    decreases |turns|
  {
    if turns == [] {
    } else {
      StepTotal(s, turns[0].run, turns[0].call);
      ExecutionsAddUp(CallStep(s, turns[0].run, turns[0].call), turns[1..], t);
    }
  }

  /** No success is reported without an execution; every execution is reported as a success
      exactly when no acknowledgement was lost and no seed left no row. */
  lemma SuccessesAreExecutionsExactly(s: System, turns: seq<Turn>, t: System)
    requires IsHistory(s, turns, t)
    ensures TotalApplied(t.runs) - TotalApplied(s.runs) <= |t.store.executed| - |s.store.executed|
    ensures TotalApplied(t.runs) - TotalApplied(s.runs) == |t.store.executed| - |s.store.executed| <==>
            Tally(s, turns, t, LosesAck) == 0 && Tally(s, turns, t, LeavesNoRow) == 0
  {
    ExecutionsAddUp(s, turns, t);
  }

  /** An input: one run, one seed, and a commit that takes effect without its acknowledgement. */
  lemma LostAckExample(app: string, p: Plan)
    ensures var run := Run(app, false, [p], true, []);
            var s := System(Store(map[], []), [run]);
            && CallEnabled(s, 0, ApplyCall(Unacknowledged))
            && var t := CallStep(s, 0, ApplyCall(Unacknowledged));
               t.store.executed == [(KeyOf(app, p), p.sha)] && t.runs[0].records == [Record(p.path, p.sha, Failed)]
  {
  }

  /** A dry run executes nothing and reports no success, whatever runs beside it. */
  lemma {:induction false} DryRunAppliesNothing(s: System, turns: seq<Turn>, t: System, i: nat)
    requires IsHistory(s, turns, t) && i < |s.runs| && s.runs[i].dryRun && !s.runs[i].applying
    ensures i < |t.runs| && t.runs[i].dryRun && !t.runs[i].applying
    ensures Count(t.runs[i].records, Applied) == Count(s.runs[i].records, Applied)
    ensures (forall k :: 0 <= k < |turns| ==> turns[k].run == i) ==> t.store == s.store
    decreases |turns|
  {
    if turns == [] {
    } else {
      var next := CallStep(s, turns[0].run, turns[0].call);
      if turns[0].run == i {
        DryStep(s, i, turns[0].call);
      }
      DryRunAppliesNothing(next, turns[1..], t, i);
    }
  }

  lemma DryStep(s: System, i: nat, c: Call)
    requires CallEnabled(s, i, c) && s.runs[i].dryRun && !s.runs[i].applying
    ensures var next := CallStep(s, i, c);
            && next.store == s.store && next.runs[i].dryRun && !next.runs[i].applying
            && Count(next.runs[i].records, Applied) == Count(s.runs[i].records, Applied)
  {
    CountReported(s.runs[i], Failed);
    CountReported(s.runs[i], Planned);
    CountReported(s.runs[i], Skipped);
    CountReported(s.runs[i], Changed);
  }

  /** The state of run `k` inside the loop: what is left from plan `i` on, and the records so far. */
  function Midway(r: Run, plans: seq<Plan>, i: nat, records: seq<Record>): Run
    requires i <= |plans|
  {
    r.(plans := plans[i..], applying := false, records := records)
  }

  /** The calls one pass of the loop makes. */
  lemma OneSeed(s: System, k: nat, next: System, status: Status, lookUpFault: bool, ending: Ending)
    returns (turns: seq<Turn>)
    requires k < |s.runs| && s.runs[k].plans != [] && !s.runs[k].applying
    requires var r := s.runs[k];
             && (next.store, status) == SeedOne(s.store, r.app, r.plans[0], r.dryRun, lookUpFault, ending)
             && next.runs == s.runs[k := Reported(r, status)]
    ensures IsHistory(s, turns, next)
  {
    var r := s.runs[k];
    var looked := CallStep(s, k, LookUpCall(lookUpFault));
    if looked.runs[k].applying {
      turns := [Turn(k, LookUpCall(lookUpFault)), Turn(k, ApplyCall(ending))];
      var last := CallStep(looked, k, ApplyCall(ending));
      assert last.runs == next.runs;
      assert IsHistory(last, turns[1..][1..], next);
      assert IsHistory(looked, turns[1..], next);
    } else {
      turns := [Turn(k, LookUpCall(lookUpFault))];
      assert looked.runs == next.runs;
      assert IsHistory(looked, turns[1..], next);
    }
  }

  lemma {:induction false} HistoryConcat(s: System, first: seq<Turn>, m: System, second: seq<Turn>, t: System)
    requires IsHistory(s, first, m) && IsHistory(m, second, t)
    ensures IsHistory(s, first + second, t)
    decreases |first|
  {
    if first == [] {
      assert first + second == second;
    } else {
      HistoryConcat(CallStep(s, first[0].run, first[0].call), first[1..], m, second, t);
      assert (first + second)[1..] == first[1..] + second;
    }
  }

  /** The seed loop is one of the histories: run `k` taking all its calls in a row, so everything
      proved of histories holds of runs one after another. */
  lemma {:induction false} LoopIsHistory(s: System, k: nat, plans: seq<Plan>, i: nat, faults: Faults)
    returns (turns: seq<Turn>, t: System)
    requires k < |s.runs| && i <= |plans| && s.runs[k] == Midway(s.runs[k], plans, i, s.runs[k].records)
    ensures IsHistory(s, turns, t)
    ensures var r := s.runs[k];
            var (store, records) := SeedLoop(s.store, r.app, plans, i, r.dryRun, faults);
            t == System(store, s.runs[k := Midway(r, plans, |plans|, r.records + records)])
    decreases |plans| - i
  {
    var r := s.runs[k];
    if i == |plans| {
      turns, t := [], s;
      assert r.records + [] == r.records;
      assert s.runs[k := r] == s.runs;
    } else {
      var p := plans[i];
      var (store, status) := SeedOne(s.store, r.app, p, r.dryRun, faults.lookUp(i), faults.apply(i));
      var done := Reported(r, status);
      var next := System(store, s.runs[k := done]);
      assert r.plans[1..] == plans[i + 1..];
      var first := OneSeed(s, k, next, status, faults.lookUp(i), faults.apply(i));
      var second;
      second, t := LoopIsHistory(next, k, plans, i + 1, faults);
      turns := first + second;
      HistoryConcat(s, first, next, second, t);
      SeedLoopStep(s.store, r.app, plans, i, r.dryRun, faults, r.records);
      assert next.runs[k := t.runs[k]] == s.runs[k := t.runs[k]];
    }
  }
}
