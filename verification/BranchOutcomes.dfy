/** What the branch operations write: on every path of each operation, and over whole runs of any
    number of processes. */
module BranchOutcomes {
  import opened Text
  import opened BranchRegistry
  import opened BranchPrograms
  import opened BranchMachine
  import opened NamedLocks
  import L = LockProtocol

  /** What an operation writes to the registry when it succeeds, and what it may have written when it
      returns an error. */
  datatype Promise = Promise(ok: seq<Update>, bad: set<seq<Update>>)

  /** What was written so far leads to one of the promised outcomes. */
  ghost predicate Along(pr: Promise, done: seq<Update>) {
    done <= pr.ok || exists b :: b in pr.bad && done <= b
  }

  /** Every path from here, having written `done`, ends as promised. */
  ghost predicate Keeps(pr: Promise, p: Prog, done: seq<Update>, phase: Phase)
    decreases p
  {
    && Along(pr, done)
    && match p
       case Done(ok) => if ok then done == pr.ok else done in pr.bad
       case Act(a, next, fail) =>
         match a
         case Acquire(_) => Keeps(pr, next, done, phase) && Keeps(pr, fail, done, phase)
         case Release(l) => Keeps(pr, next, done, if l == L.Registry then Nothing else phase)
         case Read => Keeps(pr, next, done, Fresh) && Keeps(pr, fail, done, Nothing)
         case Mutate(u) => Keeps(pr, next, done, Mutated(u)) && Keeps(pr, fail, done, Nothing)
         case Write => phase.Mutated? && Keeps(pr, next, done + [phase.u], Nothing) && Keeps(pr, fail, done, Nothing)
         case External(_) => Keeps(pr, next, done, phase) && Keeps(pr, fail, done, phase)
  }

  /** The path on which nothing fails ends in success. */
  predicate Smooth(p: Prog) {
    match p
    case Done(ok) => ok
    case Act(_, next, _) => Smooth(next)
  }

  lemma SmoothPieces(u: Update, ok: Prog, err: Prog)
    ensures Smooth(MutateRegistry(u, ok, err)) <==> Smooth(ok)
    ensures Smooth(ValidateWritable(ok, err)) <==> Smooth(ok)
    ensures Smooth(AdminURL(ok, err)) <==> Smooth(ok)
  {
    var fine, bad := Releasing(L.Registry, ok), Releasing(L.Registry, err);
    var write := Act(Write, fine, bad);
    assert Smooth(write) <==> Smooth(ok);
    assert Smooth(Act(Mutate(u), write, bad)) <==> Smooth(ok);
    assert Smooth(Act(Read, Act(Mutate(u), write, bad), bad)) <==> Smooth(ok);
    var look := Act(Read, Doing(Check, fine, bad), bad);
    assert Smooth(look) <==> Smooth(ok);
    assert Smooth(Act(Acquire(L.Registry), look, err)) <==> Smooth(ok);
  }

  // ----- the pieces

  lemma ReleasingKeeps(pr: Promise, l: L.Lock, rest: Prog, done: seq<Update>, phase: Phase)
    requires Keeps(pr, rest, done, if l == L.Registry then Nothing else phase)
    ensures Keeps(pr, Releasing(l, rest), done, phase)
  {
  }

  lemma MutateKeeps(pr: Promise, u: Update, ok: Prog, err: Prog, done: seq<Update>)
    requires Keeps(pr, ok, done + [u], Nothing) && Keeps(pr, err, done, Nothing)
    ensures Keeps(pr, MutateRegistry(u, ok, err), done, Nothing)
    ensures Keeps(pr, UpsertLease(u, ok, err), done, Nothing)
  {
    var fine, bad := Releasing(L.Registry, ok), Releasing(L.Registry, err);
    ReleasingKeeps(pr, L.Registry, ok, done + [u], Nothing);
    ReleasingKeeps(pr, L.Registry, err, done, Nothing);
    assert Keeps(pr, Act(Write, fine, bad), done, Mutated(u));
    assert Keeps(pr, Act(Mutate(u), Act(Write, fine, bad), bad), done, Fresh);
  }

  lemma ValidateKeeps(pr: Promise, ok: Prog, err: Prog, done: seq<Update>)
    requires Keeps(pr, ok, done, Nothing) && Keeps(pr, err, done, Nothing)
    ensures Keeps(pr, ValidateWritable(ok, err), done, Nothing)
  {
    ReleasingKeeps(pr, L.Registry, ok, done, Fresh);
    ReleasingKeeps(pr, L.Registry, err, done, Fresh);
    ReleasingKeeps(pr, L.Registry, err, done, Nothing);
    assert Keeps(pr, Doing(Check, Releasing(L.Registry, ok), Releasing(L.Registry, err)), done, Fresh);
  }

  lemma AdminKeeps(pr: Promise, ok: Prog, err: Prog, done: seq<Update>)
    requires Keeps(pr, ok, done, Nothing) && Keeps(pr, err, done, Nothing)
    ensures Keeps(pr, AdminURL(ok, err), done, Nothing)
  {
    var l := L.Substrate("postgres");
    ReleasingKeeps(pr, l, ok, done, Nothing);
    ReleasingKeeps(pr, l, err, done, Nothing);
    var body := Doing(Startup, Releasing(l, ok), Releasing(l, err));
    assert Keeps(pr, body, done, Nothing);
    assert Keeps(pr, Act(Acquire(l), body, err), done, Nothing);
  }

  lemma FailureKeeps(pr: Promise, op: L.Lock, done: seq<Update>)
    requires op.Operation? && done in pr.bad
    ensures Keeps(pr, Done(false), done, Nothing) && Keeps(pr, Releasing(op, Done(false)), done, Nothing)
  {
    assert done <= done;
  }

  lemma SuccessKeeps(pr: Promise, op: L.Lock)
    requires op.Operation?
    ensures Keeps(pr, Done(true), pr.ok, Nothing) && Keeps(pr, Releasing(op, Done(true)), pr.ok, Nothing)
  {
  }

  // ----- the operations

  function ProtectedPromise(pin: Pin, now: int): Promise {
    Promise([Upsert(pin, None, "protected", now)], {[]})
  }

  /** Success: pending first, then ready with the endpoint. Failure: nothing, pending, or pending
      twice: once at the start, and once more when the lock or the database could not be had. */
  function EnsurePromise(pin: Pin, endpoint: Endpoint, now: nat -> int): Promise {
    var start := Upsert(pin, None, "pending", now(0));
    Promise([start, Upsert(pin, Some(endpoint), "ready", now(3))],
            {[], [start], [start, Upsert(pin, None, "pending", now(1))], [start, Upsert(pin, None, "pending", now(2))]})
  }

  function ResetPromise(pin: Pin, endpoint: Endpoint, now: int): Promise {
    Promise([Upsert(pin, Some(endpoint), "ready", now)], {[]})
  }

  /** A delete that has written may still fail to remove the worktree's pin file. */
  function DeletePromise(pin: Pin, branch: string): Promise {
    Promise([Delete(pin, branch)], {[], [Delete(pin, branch)]})
  }

  function OnePromise(u: Update): Promise {
    Promise([u], {[]})
  }

  lemma EnsureLockedKeeps(pin: Pin, endpoint: Endpoint, op: L.Lock, now: nat -> int)
    requires op.Operation?
    ensures var pr := EnsurePromise(pin, endpoint, now);
            Keeps(pr, EnsureLocked(pin, endpoint, op, now), [Upsert(pin, None, "pending", now(0))], Nothing)
  {
    var pr := EnsurePromise(pin, endpoint, now);
    var start, ready := Upsert(pin, None, "pending", now(0)), Upsert(pin, Some(endpoint), "ready", now(3));
    var again := Upsert(pin, None, "pending", now(2));
    var bad, fine := Releasing(op, Done(false)), Releasing(op, Done(true));
    FailureKeeps(pr, op, [start]);
    FailureKeeps(pr, op, [start, again]);
    SuccessKeeps(pr, op);
    assert [start] + [ready] == pr.ok && [start] + [again] == [start, again];
    MutateKeeps(pr, ready, fine, bad, [start]);
    MutateKeeps(pr, again, bad, bad, [start]);
    var work := Doing(Ddl, Try(UpsertLease(ready, fine, bad), bad), Pending(pin, now(2), bad, bad));
    assert Keeps(pr, Try(UpsertLease(ready, fine, bad), bad), [start], Nothing);
    assert Keeps(pr, work, [start], Nothing);
    ValidateKeeps(pr, work, bad, [start]);
  }

  lemma EnsureWaitKeeps(pin: Pin, endpoint: Endpoint, op: L.Lock, now: nat -> int)
    requires op.Operation?
    ensures var pr := EnsurePromise(pin, endpoint, now);
            var locked := Act(Acquire(op), EnsureLocked(pin, endpoint, op, now), Pending(pin, now(1), Done(false), Done(false)));
            Keeps(pr, ValidateWritable(Try(locked, Done(false)), Done(false)), [Upsert(pin, None, "pending", now(0))], Nothing)
  {
    var pr := EnsurePromise(pin, endpoint, now);
    var start, again := Upsert(pin, None, "pending", now(0)), Upsert(pin, None, "pending", now(1));
    EnsureLockedKeeps(pin, endpoint, op, now);
    FailureKeeps(pr, op, [start]);
    FailureKeeps(pr, op, [start, again]);
    assert [start] + [again] == [start, again];
    MutateKeeps(pr, again, Done(false), Done(false), [start]);
    var locked := Act(Acquire(op), EnsureLocked(pin, endpoint, op, now), Pending(pin, now(1), Done(false), Done(false)));
    assert Keeps(pr, locked, [start], Nothing);
    ValidateKeeps(pr, Try(locked, Done(false)), Done(false), [start]);
  }

  /** `EnsureBranch`, on every path. */
  lemma EnsureBranchKeeps(isProtected: bool, pin: Pin, endpoint: Endpoint, op: L.Lock, now: nat -> int)
    requires op.Operation?
    ensures var pr := if isProtected then ProtectedPromise(pin, now(0)) else EnsurePromise(pin, endpoint, now);
            Keeps(pr, EnsureBranch(isProtected, pin, endpoint, op, now), [], Nothing)
  {
    if isProtected {
      var pr := ProtectedPromise(pin, now(0));
      FailureKeeps(pr, op, []);
      SuccessKeeps(pr, op);
      assert [] + [pr.ok[0]] == pr.ok;
      MutateKeeps(pr, pr.ok[0], Done(true), Done(false), []);
    } else {
      var pr := EnsurePromise(pin, endpoint, now);
      var start := Upsert(pin, None, "pending", now(0));
      EnsureWaitKeeps(pin, endpoint, op, now);
      FailureKeeps(pr, op, []);
      FailureKeeps(pr, op, [start]);
      assert [] + [start] == [start];
      var locked := Act(Acquire(op), EnsureLocked(pin, endpoint, op, now), Pending(pin, now(1), Done(false), Done(false)));
      var checked := ValidateWritable(Try(locked, Done(false)), Done(false));
      MutateKeeps(pr, start, checked, Done(false), []);
      MutateKeeps(pr, start, Done(false), Done(false), []);
      AdminKeeps(pr, Pending(pin, now(0), checked, Done(false)), Pending(pin, now(0), Done(false), Done(false)), []);
    }
  }

  lemma EnsureBranchIsSmooth(isProtected: bool, pin: Pin, endpoint: Endpoint, op: L.Lock, now: nat -> int)
    ensures Smooth(EnsureBranch(isProtected, pin, endpoint, op, now))
  {
    var bad, fine, none := Releasing(op, Done(false)), Releasing(op, Done(true)), Done(false);
    var ready := Upsert(pin, Some(endpoint), "ready", now(3));
    SmoothPieces(Upsert(pin, None, "protected", now(0)), Done(true), none);
    SmoothPieces(ready, fine, bad);
    var work := Doing(Ddl, Try(UpsertLease(ready, fine, bad), bad), Pending(pin, now(2), bad, bad));
    assert Smooth(UpsertLease(ready, fine, bad));
    assert Smooth(Try(UpsertLease(ready, fine, bad), bad)) && Smooth(work);
    SmoothPieces(ready, work, bad);
    var locked := Act(Acquire(op), EnsureLocked(pin, endpoint, op, now), Pending(pin, now(1), none, none));
    assert Smooth(locked) && Smooth(Try(locked, none));
    SmoothPieces(ready, Try(locked, none), none);
    var checked := ValidateWritable(Try(locked, none), none);
    SmoothPieces(Upsert(pin, None, "pending", now(0)), checked, none);
    assert Smooth(Pending(pin, now(0), checked, none));
    SmoothPieces(ready, Pending(pin, now(0), checked, none), Pending(pin, now(0), none, none));
  }

  lemma ResetBranchKeeps(pin: Pin, endpoint: Endpoint, op: L.Lock, now: int)
    requires op.Operation?
    ensures Keeps(ResetPromise(pin, endpoint, now), ResetBranch(pin, endpoint, op, now), [], Nothing)
    ensures Smooth(ResetBranch(pin, endpoint, op, now))
  {
    var pr := ResetPromise(pin, endpoint, now);
    var ready := Upsert(pin, Some(endpoint), "ready", now);
    var bad, fine := Releasing(op, Done(false)), Releasing(op, Done(true));
    FailureKeeps(pr, op, []);
    SuccessKeeps(pr, op);
    assert [] + [ready] == pr.ok;
    MutateKeeps(pr, ready, fine, bad, []);
    var work := Doing(Ddl, Try(UpsertLease(ready, fine, bad), bad), bad);
    assert Keeps(pr, Try(UpsertLease(ready, fine, bad), bad), [], Nothing);
    assert Keeps(pr, work, [], Nothing);
    var locked := Act(Acquire(op), work, Done(false));
    assert Keeps(pr, locked, [], Nothing);
    AdminKeeps(pr, Try(locked, Done(false)), Done(false), []);
    SmoothPieces(ready, fine, bad);
    assert Smooth(Try(UpsertLease(ready, fine, bad), bad)) && Smooth(work) && Smooth(Try(locked, Done(false)));
    SmoothPieces(ready, Try(locked, Done(false)), Done(false));
  }

  lemma {:induction false} DropAllKeeps(pr: Promise, databases: nat, op: L.Lock, rest: Prog, done: seq<Update>)
    requires op.Operation? && done in pr.bad && Keeps(pr, rest, done, Nothing)
    ensures Keeps(pr, DropAll(databases, op, rest), done, Nothing)
    ensures Smooth(DropAll(databases, op, rest)) <==> Smooth(rest)
  {
    FailureKeeps(pr, op, done);
    if databases == 0 {
    } else {
      DropAllKeeps(pr, databases - 1, op, rest, done);
    }
  }

  lemma DeleteBranchKeeps(pin: Pin, branch: string, databases: nat, op: L.Lock)
    requires op.Operation?
    ensures Keeps(DeletePromise(pin, branch), DeleteBranch(pin, branch, databases, op), [], Nothing)
    ensures Smooth(DeleteBranch(pin, branch, databases, op))
  {
    var pr := DeletePromise(pin, branch);
    var u := Delete(pin, branch);
    var bad := Releasing(L.Registry, Done(false));
    FailureKeeps(pr, op, []);
    FailureKeeps(pr, op, [u]);
    SuccessKeeps(pr, op);
    assert [] + [u] == pr.ok;
    var end := Act(Write, Try(Releasing(L.Registry, Done(true)), bad), bad);
    ReleasingKeeps(pr, L.Registry, Done(true), [u], Nothing);
    ReleasingKeeps(pr, L.Registry, Done(false), [u], Nothing);
    ReleasingKeeps(pr, L.Registry, Done(false), [], Nothing);
    ReleasingKeeps(pr, L.Registry, Done(false), [], Fresh);
    assert Keeps(pr, Try(Releasing(L.Registry, Done(true)), bad), [u], Nothing);
    assert Keeps(pr, end, [], Mutated(u));
    assert Keeps(pr, Act(Mutate(u), end, bad), [], Fresh);
    var last := Act(Acquire(L.Registry), Act(Read, Act(Mutate(u), end, bad), bad), Done(false));
    assert Keeps(pr, last, [], Nothing);
    ReleasingKeeps(pr, op, last, [], Nothing);
    DropAllKeeps(pr, databases, op, Releasing(op, last), []);
    var drop := Act(Acquire(op), DropAll(databases, op, Releasing(op, last)), Done(false));
    assert Keeps(pr, drop, [], Nothing);
    ReleasingKeeps(pr, L.Registry, drop, [], Fresh);
    var look := Act(Read, Try(Releasing(L.Registry, drop), bad), bad);
    assert Keeps(pr, Try(Releasing(L.Registry, drop), bad), [], Fresh);
    assert Keeps(pr, look, [], Nothing);
    var first := Act(Acquire(L.Registry), look, Done(false));
    AdminKeeps(pr, Try(first, Done(false)), Done(false), []);
    assert Smooth(end) && Smooth(Act(Mutate(u), end, bad)) && Smooth(last);
    assert Smooth(drop) && Smooth(look) && Smooth(Try(first, Done(false)));
    SmoothPieces(u, Try(first, Done(false)), Done(false));
  }

  lemma ExpireBranchKeeps(pin: Pin, expiresAt: int, now: int)
    ensures Keeps(OnePromise(Expire(pin, expiresAt, now)), ExpireBranch(pin, expiresAt, now), [], Nothing)
    ensures Smooth(ExpireBranch(pin, expiresAt, now))
  {
    var u := Expire(pin, expiresAt, now);
    var pr := OnePromise(u);
    FailureKeeps(pr, L.Operation(""), []);
    SuccessKeeps(pr, L.Operation(""));
    assert [] + [u] == pr.ok;
    MutateKeeps(pr, u, Done(true), Done(false), []);
    var work := MutateRegistry(u, Done(true), Done(false));
    assert Keeps(pr, Try(work, Done(false)), [], Nothing);
    SmoothPieces(u, Done(true), Done(false));
    assert Smooth(Try(work, Done(false)));
  }

  lemma {:induction false} DropExpiredKeeps(pr: Promise, databases: nat, rest: Prog)
    requires [] in pr.bad && Keeps(pr, rest, [], Fresh)
    ensures Keeps(pr, DropExpiredOnes(databases, rest), [], Fresh)
    ensures Smooth(DropExpiredOnes(databases, rest)) <==> Smooth(rest)
  {
    if databases == 0 {
    } else {
      DropExpiredKeeps(pr, databases - 1, rest);
      FailureKeeps(pr, L.Operation(""), []);
      ReleasingKeeps(pr, L.Registry, Done(false), [], Fresh);
    }
  }

  lemma PruneRegistryKeeps(u: Update, databases: nat)
    ensures Keeps(OnePromise(u), PruneRegistry(u, databases), [], Nothing) && Smooth(PruneRegistry(u, databases))
  {
    var pr := OnePromise(u);
    var bad := Releasing(L.Registry, Done(false));
    FailureKeeps(pr, L.Operation(""), []);
    SuccessKeeps(pr, L.Operation(""));
    assert [] + [u] == pr.ok;
    ReleasingKeeps(pr, L.Registry, Done(true), [u], Nothing);
    ReleasingKeeps(pr, L.Registry, Done(false), [], Nothing);
    var end := Act(Write, Releasing(L.Registry, Done(true)), bad);
    assert Keeps(pr, end, [], Mutated(u));
    assert Keeps(pr, Act(Mutate(u), end, bad), [], Fresh);
    DropExpiredKeeps(pr, databases, Act(Mutate(u), end, bad));
    assert Smooth(end) && Smooth(Act(Mutate(u), end, bad));
  }

  lemma PruneBranchesKeeps(project: string, currentId: string, olderThan: int, now: int, databases: nat)
    ensures Keeps(OnePromise(Prune(project, currentId, olderThan, now)),
                  PruneBranches(project, currentId, olderThan, now, databases), [], Nothing)
    ensures Smooth(PruneBranches(project, currentId, olderThan, now, databases))
  {
    var u := Prune(project, currentId, olderThan, now);
    var pr := OnePromise(u);
    PruneRegistryKeeps(u, databases);
    PruneRegistryKeeps(u, 0);
    AdminKeeps(pr, PruneRegistry(u, databases), PruneRegistry(u, 0), []);
    FailureKeeps(pr, L.Operation(""), []);
    SmoothPieces(u, PruneRegistry(u, databases), PruneRegistry(u, 0));
  }

  function PromiseOf(o: Operation): Promise {
    match o
    case Ensure(isProtected, pin, endpoint, _, times) =>
      if isProtected then ProtectedPromise(pin, times(0)) else EnsurePromise(pin, endpoint, times)
    case Reset(pin, endpoint, _, now) => ResetPromise(pin, endpoint, now)
    case Remove(pin, branch, _, _) => DeletePromise(pin, branch)
    case SetExpiry(pin, expiresAt, now) => OnePromise(Expire(pin, expiresAt, now))
    case PruneExpired(project, currentId, olderThan, now, _) => OnePromise(Prune(project, currentId, olderThan, now))
  }

  /** Every branch operation writes on every path what it promises, and succeeds when nothing fails. */
  lemma OperationsKeepPromises(o: Operation)
    ensures Keeps(PromiseOf(o), ProgramOf(o), [], Nothing) && Smooth(ProgramOf(o))
  {
    match o
    case Ensure(isProtected, pin, endpoint, database, times) =>
      EnsureBranchKeeps(isProtected, pin, endpoint, OperationLock(database), times);
      EnsureBranchIsSmooth(isProtected, pin, endpoint, OperationLock(database), times);
    case Reset(pin, endpoint, database, now) => ResetBranchKeeps(pin, endpoint, OperationLock(database), now);
    case Remove(pin, branch, databases, database) => DeleteBranchKeeps(pin, branch, databases, OperationLock(database));
    case SetExpiry(pin, expiresAt, now) => ExpireBranchKeeps(pin, expiresAt, now);
    case PruneExpired(project, currentId, olderThan, now, databases) =>
      PruneBranchesKeeps(project, currentId, olderThan, now, databases);
  }

  // ----- what comes before a write

  /** On every path from here, each write comes after as many successful database changes and checks
      as `need` says; `ddl` and `checks` count those so far. */
  ghost predicate WorksFirst(p: Prog, phase: Phase, ddl: nat, checks: nat, need: Update -> (nat, nat))
    decreases p
  {
    match p
    case Done(_) => true
    case Act(a, next, fail) =>
      match a
      case Acquire(_) => WorksFirst(next, phase, ddl, checks, need) && WorksFirst(fail, phase, ddl, checks, need)
      case Release(l) => WorksFirst(next, if l == L.Registry then Nothing else phase, ddl, checks, need)
      case Read => WorksFirst(next, Fresh, ddl, checks, need) && WorksFirst(fail, Nothing, ddl, checks, need)
      case Mutate(u) => WorksFirst(next, Mutated(u), ddl, checks, need) && WorksFirst(fail, Nothing, ddl, checks, need)
      case Write =>
        && (phase.Mutated? ==> need(phase.u).0 <= ddl && need(phase.u).1 <= checks)
        && WorksFirst(next, Nothing, ddl, checks, need) && WorksFirst(fail, Nothing, ddl, checks, need)
      case External(work) =>
        && WorksFirst(next, phase, if work == Ddl then ddl + 1 else ddl, if work == Check then checks + 1 else checks, need)
        && WorksFirst(fail, phase, ddl, checks, need)
  }

  lemma ReleasingWorks(l: L.Lock, rest: Prog, phase: Phase, ddl: nat, checks: nat, need: Update -> (nat, nat))
    requires WorksFirst(rest, if l == L.Registry then Nothing else phase, ddl, checks, need)
    ensures WorksFirst(Releasing(l, rest), phase, ddl, checks, need)
  {
  }

  lemma MutateWorks(u: Update, ok: Prog, err: Prog, ddl: nat, checks: nat, need: Update -> (nat, nat))
    requires WorksFirst(ok, Nothing, ddl, checks, need) && WorksFirst(err, Nothing, ddl, checks, need)
    requires need(u).0 <= ddl && need(u).1 <= checks
    ensures WorksFirst(UpsertLease(u, ok, err), Nothing, ddl, checks, need)
  {
    var fine, bad := Releasing(L.Registry, ok), Releasing(L.Registry, err);
    ReleasingWorks(L.Registry, ok, Nothing, ddl, checks, need);
    ReleasingWorks(L.Registry, err, Nothing, ddl, checks, need);
    assert WorksFirst(Act(Write, fine, bad), Mutated(u), ddl, checks, need);
    assert WorksFirst(Act(Mutate(u), Act(Write, fine, bad), bad), Fresh, ddl, checks, need);
    assert WorksFirst(MutateRegistry(u, ok, err), Nothing, ddl, checks, need);
  }

  lemma ValidateWorks(ok: Prog, err: Prog, ddl: nat, checks: nat, need: Update -> (nat, nat))
    requires WorksFirst(ok, Nothing, ddl, checks + 1, need) && WorksFirst(err, Nothing, ddl, checks, need)
    ensures WorksFirst(ValidateWritable(ok, err), Nothing, ddl, checks, need)
  {
    ReleasingWorks(L.Registry, ok, Fresh, ddl, checks + 1, need);
    ReleasingWorks(L.Registry, err, Fresh, ddl, checks, need);
    ReleasingWorks(L.Registry, err, Nothing, ddl, checks, need);
    var look := Act(Read, Doing(Check, Releasing(L.Registry, ok), Releasing(L.Registry, err)), Releasing(L.Registry, err));
    assert WorksFirst(look, Nothing, ddl, checks, need);
    assert WorksFirst(Act(Acquire(L.Registry), look, err), Nothing, ddl, checks, need);
  }

  lemma AdminWorks(ok: Prog, err: Prog, need: Update -> (nat, nat))
    requires WorksFirst(ok, Nothing, 0, 0, need) && WorksFirst(err, Nothing, 0, 0, need)
    ensures WorksFirst(AdminURL(ok, err), Nothing, 0, 0, need)
  {
    var l := L.Substrate("postgres");
    ReleasingWorks(l, ok, Nothing, 0, 0, need);
    ReleasingWorks(l, err, Nothing, 0, 0, need);
    var body := Doing(Startup, Releasing(l, ok), Releasing(l, err));
    assert WorksFirst(body, Nothing, 0, 0, need);
    assert WorksFirst(Act(Acquire(l), body, err), Nothing, 0, 0, need);
  }

  /** A lease becomes ready only after the database was made, and, in `EnsureBranch`, after two checks
      for a foreign lease. */
  function ReadyNeeds(checks: nat): Update -> (nat, nat) {
    (u: Update) => if u.Upsert? && u.status == "ready" then (1, checks) else (0, 0)
  }

  lemma EnsureLockedWorks(pin: Pin, endpoint: Endpoint, op: L.Lock, now: nat -> int)
    requires op.Operation?
    ensures WorksFirst(EnsureLocked(pin, endpoint, op, now), Nothing, 0, 1, ReadyNeeds(2))
  {
    var need := ReadyNeeds(2);
    var bad, fine := Releasing(op, Done(false)), Releasing(op, Done(true));
    var ready, again := Upsert(pin, Some(endpoint), "ready", now(3)), Upsert(pin, None, "pending", now(2));
    assert "ready"[0] != "pending"[0];
    MutateWorks(ready, fine, bad, 1, 2, need);
    MutateWorks(again, bad, bad, 0, 2, need);
    var work := Doing(Ddl, Try(UpsertLease(ready, fine, bad), bad), Pending(pin, now(2), bad, bad));
    assert WorksFirst(Try(UpsertLease(ready, fine, bad), bad), Nothing, 1, 2, need);
    assert WorksFirst(work, Nothing, 0, 2, need);
    ValidateWorks(work, bad, 0, 1, need);
  }

  lemma EnsureBranchWorksFirst(isProtected: bool, pin: Pin, endpoint: Endpoint, op: L.Lock, now: nat -> int)
    requires op.Operation?
    ensures WorksFirst(EnsureBranch(isProtected, pin, endpoint, op, now), Nothing, 0, 0, ReadyNeeds(2))
  {
    var need, none := ReadyNeeds(2), Done(false);
    assert "ready"[0] != "pending"[0] && "ready"[0] != "protected"[0];
    if isProtected {
      MutateWorks(Upsert(pin, None, "protected", now(0)), Done(true), none, 0, 0, need);
    } else {
      EnsureLockedWorks(pin, endpoint, op, now);
      MutateWorks(Upsert(pin, None, "pending", now(1)), none, none, 0, 1, need);
      var locked := Act(Acquire(op), EnsureLocked(pin, endpoint, op, now), Pending(pin, now(1), none, none));
      assert WorksFirst(locked, Nothing, 0, 1, need);
      ValidateWorks(Try(locked, none), none, 0, 0, need);
      var checked := ValidateWritable(Try(locked, none), none);
      MutateWorks(Upsert(pin, None, "pending", now(0)), checked, none, 0, 0, need);
      MutateWorks(Upsert(pin, None, "pending", now(0)), none, none, 0, 0, need);
      AdminWorks(Pending(pin, now(0), checked, none), Pending(pin, now(0), none, none), need);
    }
  }

  lemma ResetBranchWorksFirst(pin: Pin, endpoint: Endpoint, op: L.Lock, now: int)
    requires op.Operation?
    ensures WorksFirst(ResetBranch(pin, endpoint, op, now), Nothing, 0, 0, ReadyNeeds(0))
  {
    var need := ReadyNeeds(0);
    var bad, fine := Releasing(op, Done(false)), Releasing(op, Done(true));
    var ready := Upsert(pin, Some(endpoint), "ready", now);
    MutateWorks(ready, fine, bad, 1, 0, need);
    var work := Doing(Ddl, Try(UpsertLease(ready, fine, bad), bad), bad);
    assert WorksFirst(Try(UpsertLease(ready, fine, bad), bad), Nothing, 1, 0, need);
    assert WorksFirst(work, Nothing, 0, 0, need);
    var locked := Act(Acquire(op), work, Done(false));
    assert WorksFirst(locked, Nothing, 0, 0, need);
    AdminWorks(Try(locked, Done(false)), Done(false), need);
  }

  /** Leases are deleted only after every database that was found has been dropped. */
  function DeleteNeeds(databases: nat): Update -> (nat, nat) {
    (u: Update) => if u.Delete? then (databases, 0) else (0, 0)
  }

  lemma {:induction false} DropAllWorks(databases: nat, op: L.Lock, rest: Prog, ddl: nat, need: Update -> (nat, nat))
    requires op.Operation? && WorksFirst(rest, Nothing, ddl + databases, 0, need)
    ensures WorksFirst(DropAll(databases, op, rest), Nothing, ddl, 0, need)
  {
    if databases == 0 {
    } else {
      DropAllWorks(databases - 1, op, rest, ddl + 1, need);
    }
  }

  lemma DeleteBranchWorksFirst(pin: Pin, branch: string, databases: nat, op: L.Lock)
    requires op.Operation?
    ensures WorksFirst(DeleteBranch(pin, branch, databases, op), Nothing, 0, 0, DeleteNeeds(databases))
  {
    var need := DeleteNeeds(databases);
    var u, bad := Delete(pin, branch), Releasing(L.Registry, Done(false));
    var end := Act(Write, Try(Releasing(L.Registry, Done(true)), bad), bad);
    assert WorksFirst(end, Mutated(u), databases, 0, need);
    assert WorksFirst(Act(Mutate(u), end, bad), Fresh, databases, 0, need);
    var last := Act(Acquire(L.Registry), Act(Read, Act(Mutate(u), end, bad), bad), Done(false));
    assert WorksFirst(last, Nothing, databases, 0, need);
    ReleasingWorks(op, last, Nothing, databases, 0, need);
    DropAllWorks(databases, op, Releasing(op, last), 0, need);
    var drop := Act(Acquire(op), DropAll(databases, op, Releasing(op, last)), Done(false));
    assert WorksFirst(drop, Nothing, 0, 0, need);
    ReleasingWorks(L.Registry, drop, Fresh, 0, 0, need);
    var look := Act(Read, Try(Releasing(L.Registry, drop), bad), bad);
    assert WorksFirst(Try(Releasing(L.Registry, drop), bad), Fresh, 0, 0, need);
    assert WorksFirst(look, Nothing, 0, 0, need);
    var first := Act(Acquire(L.Registry), look, Done(false));
    assert WorksFirst(first, Nothing, 0, 0, need);
    AdminWorks(Try(first, Done(false)), Done(false), need);
  }

  // ----- over whole runs

  /** The updates of the log that process `i` wrote, in order. */
  function WrittenBy(log: seq<Update>, authors: seq<nat>, i: nat): seq<Update>
    requires |authors| == |log|
  {
    if log == [] then []
    else
      var n := |log| - 1;
      WrittenBy(log[..n], authors[..n], i) + if authors[n] == i then [log[n]] else []
  }

  lemma WrittenBySnoc(log: seq<Update>, authors: seq<nat>, u: Update, j: nat, i: nat)
    requires |authors| == |log|
    ensures WrittenBy(log + [u], authors + [j], i) == WrittenBy(log, authors, i) + if j == i then [u] else []
  {
    assert (log + [u])[..|log|] == log && (authors + [j])[..|log|] == authors;
  }

  /** A worker on its way to a promised outcome, or one whose process has exited. */
  ghost predicate WorkerKeeps(pr: Promise, w: Worker, done: seq<Update>) {
    Along(pr, done) && (Keeps(pr, w.prog, done, w.phase) || w.prog == Done(false))
  }

  ghost predicate AllKeep(prs: seq<Promise>, m: Machine) {
    && |m.authors| == |m.log| && |prs| == |m.workers|
    && forall i :: 0 <= i < |prs| ==> WorkerKeeps(prs[i], m.workers[i], WrittenBy(m.log, m.authors, i))
  }

  lemma StartKeeps(os: seq<Operation>, disk: seq<Lease>, prs: seq<Promise>)
    requires |prs| == |os| && forall i :: 0 <= i < |os| ==> prs[i] == PromiseOf(os[i])
    ensures AllKeep(prs, Start(ProgramsOf(os), disk))
  {
    forall i | 0 <= i < |os|
      ensures Keeps(prs[i], ProgramsOf(os)[i], [], Nothing)
    {
      OperationsKeepPromises(os[i]);
    }
  }

  /** A lock step keeps the worker on its path. */
  lemma LockStepKeeps(pr: Promise, good: Update -> bool, m: Machine, i: nat, e: L.Event, done: seq<Update>)
    requires i < |m.workers| && i < |m.locks.procs| && WorkerInv(good, m, i) && L.Inv(m.locks) && LockEnabled(m, i, e)
    requires WorkerKeeps(pr, m.workers[i], done)
    ensures WorkerKeeps(pr, AfterLock(m.workers[i], e), done)
  {
    var w := m.workers[i];
    match e
    case Request(_) =>
    case Grant =>
    case Exit =>
    case Mark => assert w.prog.a.Acquire? && Keeps(pr, w.prog, done, w.phase);
    case GiveUp => assert w.prog.a.Acquire? && Keeps(pr, w.prog, done, w.phase);
    case Unmark(l) => assert w.prog.a == Release(l) && Keeps(pr, w.prog, done, w.phase);
    case Unlock =>
      assert L.ProcInv(m.locks.procs[i]);
      assert w.prog.a.Release? && Keeps(pr, w.prog, done, w.phase);
      assert w.prog.a.l == L.Registry ==> w.phase == Nothing;
  }

  lemma KeepsAlong(pr: Promise, p: Prog, done: seq<Update>, phase: Phase)
    requires Keeps(pr, p, done, phase)
    ensures Along(pr, done)
  {
  }

  /** So does any other step; a write adds its update to what the process has written. */
  lemma WorkStepKeeps(pr: Promise, m: Machine, i: nat, move: Move, done: seq<Update>)
    requires BranchMachine.Enabled(m, i, move) && !move.Lock? && WorkerKeeps(pr, m.workers[i], done)
    ensures var w, n := m.workers[i], BranchMachine.Step(m, i, move);
            if move == Succeed && w.prog.a.Write?
            then w.phase.Mutated? && WorkerKeeps(pr, n.workers[i], done + [w.phase.u])
            else WorkerKeeps(pr, n.workers[i], done)
  {
    var w := m.workers[i];
    assert Keeps(pr, w.prog, done, w.phase);
    match w.prog.a
    case Acquire(_) =>
    case Release(_) =>
    case Read =>
    case Mutate(_) =>
    case Write =>
      assert Keeps(pr, w.prog.next, done + [w.phase.u], Nothing);
      KeepsAlong(pr, w.prog.next, done + [w.phase.u], Nothing);
    case External(_) =>
  }

  lemma StepKeeps(prs: seq<Promise>, good: Update -> bool, initial: seq<Lease>, m: Machine, i: nat, move: Move)
    requires AllKeep(prs, m) && BranchMachine.Inv(good, initial, m) && BranchMachine.Enabled(m, i, move)
    ensures AllKeep(prs, BranchMachine.Step(m, i, move))
  {
    var w, n := m.workers[i], BranchMachine.Step(m, i, move);
    var done := WrittenBy(m.log, m.authors, i);
    assert WorkerKeeps(prs[i], w, done);
    if move.Lock? {
      LockStepKeeps(prs[i], good, m, i, move.e, done);
    } else {
      WorkStepKeeps(prs[i], m, i, move, done);
      if move == Succeed && w.prog.a.Write? {
        forall j | 0 <= j < |prs|
          ensures WrittenBy(n.log, n.authors, j) == WrittenBy(m.log, m.authors, j) + if i == j then [w.phase.u] else []
        {
          WrittenBySnoc(m.log, m.authors, w.phase.u, i, j);
        }
      }
    }
    OthersKeep(prs, m, n, i);
  }

  lemma OthersKeep(prs: seq<Promise>, m: Machine, n: Machine, i: nat)
    requires AllKeep(prs, m) && |n.authors| == |n.log| && |n.workers| == |m.workers| && i < |prs|
    requires forall j :: 0 <= j < |prs| && j != i ==>
               n.workers[j] == m.workers[j] && WrittenBy(n.log, n.authors, j) == WrittenBy(m.log, m.authors, j)
    requires WorkerKeeps(prs[i], n.workers[i], WrittenBy(n.log, n.authors, i))
    ensures AllKeep(prs, n)
  {
  }

  lemma {:induction false} RunKeeps(prs: seq<Promise>, good: Update -> bool, initial: seq<Lease>, m: Machine, turns: seq<Turn>,
                                   n: Machine)
    requires AllKeep(prs, m) && BranchMachine.Inv(good, initial, m) && BranchMachine.IsRun(m, turns, n)
    ensures AllKeep(prs, n)
    decreases |turns|
  {
    if turns == [] {
    } else {
      StepKeeps(prs, good, initial, m, turns[0].pid, turns[0].move);
      BranchMachine.StepInv(good, initial, m, turns[0].pid, turns[0].move);
      RunKeeps(prs, good, initial, BranchMachine.Step(m, turns[0].pid, turns[0].move), turns[1..], n);
    }
  }

  /** Over every run of any operations: what each process has written to the registry is on the way to
      what its operation promises, and a process that has succeeded has written exactly that. */
  lemma OutcomesOverWholeRuns(os: seq<Operation>, disk: seq<Lease>, turns: seq<Turn>, m: Machine, i: nat)
    requires BranchMachine.IsRun(Start(ProgramsOf(os), disk), turns, m) && i < |os|
    ensures |m.workers| == |os| && |m.authors| == |m.log|
    ensures Along(PromiseOf(os[i]), WrittenBy(m.log, m.authors, i))
    ensures m.workers[i].prog == Done(true) ==> WrittenBy(m.log, m.authors, i) == PromiseOf(os[i]).ok
  {
    var prs := seq(|os|, k requires 0 <= k < |os| => PromiseOf(os[k]));
    forall k | 0 <= k < |os|
      ensures Disciplined(AnyUpdate(), ProgramsOf(os)[k], {}, Nothing)
    {
      OperationsAreDisciplined(os[k]);
    }
    StartKeeps(os, disk, prs);
    StartInv(AnyUpdate(), ProgramsOf(os), disk);
    RunKeeps(prs, AnyUpdate(), disk, Start(ProgramsOf(os), disk), turns, m);
    assert WorkerKeeps(prs[i], m.workers[i], WrittenBy(m.log, m.authors, i));
  }

  // ----- runs without failures

  /** No move of process `i` is a failure, a refusal, a time-out or an exit. */
  predicate NoFailure(move: Move) {
    move == Succeed || (move.Lock? && !move.e.GiveUp? && !move.e.Exit?)
  }

  ghost predicate NeverFails(turns: seq<Turn>, i: nat) {
    forall k :: 0 <= k < |turns| && turns[k].pid == i ==> NoFailure(turns[k].move)
  }

  lemma {:induction false} SmoothStays(m: Machine, turns: seq<Turn>, n: Machine, i: nat)
    requires BranchMachine.IsRun(m, turns, n) && i < |m.workers| && Smooth(m.workers[i].prog) && NeverFails(turns, i)
    ensures i < |n.workers| && Smooth(n.workers[i].prog)
    decreases |turns|
  {
    if turns == [] {
    } else {
      var next := BranchMachine.Step(m, turns[0].pid, turns[0].move);
      assert turns[0].pid == i ==> NoFailure(turns[0].move);
      SmoothStays(next, turns[1..], n, i);
    }
  }

  /** A process for which nothing fails succeeds when it finishes, whatever the others do, and has then
      written exactly what its operation promises. */
  lemma NothingFailsIsSuccess(os: seq<Operation>, disk: seq<Lease>, turns: seq<Turn>, m: Machine, i: nat)
    requires BranchMachine.IsRun(Start(ProgramsOf(os), disk), turns, m) && i < |os| && NeverFails(turns, i)
    ensures i < |m.workers| && |m.authors| == |m.log|
    ensures m.workers[i].prog.Done? ==>
              m.workers[i].prog == Done(true) && WrittenBy(m.log, m.authors, i) == PromiseOf(os[i]).ok
  {
    OperationsKeepPromises(os[i]);
    SmoothStays(Start(ProgramsOf(os), disk), turns, m, i);
    OutcomesOverWholeRuns(os, disk, turns, m, i);
  }
}
