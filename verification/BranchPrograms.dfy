/** The branch operations as programs over locks and the registry file: every path, with an
    error branch at every call that can fail, and the discipline all of them keep. */
module BranchPrograms {
  import opened Text
  import opened LockProtocol
  import opened BranchRegistry

  /** Other work than on the registry file: starting the shared Postgres, creating or dropping
      databases, dropping the databases of expired leases, looking for a foreign lease of the branch,
      and everything else. */
  datatype Work = Plain | Startup | Ddl | DropExpired | Check

  datatype Action =
    | Acquire(l: Lock)
    | Release(l: Lock)
    | Read                // read the registry file into memory
    | Mutate(u: Update)   // apply an update to the registry in memory
    | Write               // replace the registry file
    | External(work: Work)

  /** `next` is taken when the action succeeds, `fail` when it returns an error. */
  datatype Prog = Done(ok: bool) | Act(a: Action, next: Prog, fail: Prog)

  function Releasing(l: Lock, rest: Prog): Prog {
    Act(Release(l), rest, rest)
  }

  function Try(next: Prog, fail: Prog): Prog {
    Act(External(Plain), next, fail)
  }

  function Doing(work: Work, next: Prog, fail: Prog): Prog {
    Act(External(work), next, fail)
  }

  // ----- the operations

  /** `mutatePostgresBranchRegistry`. */
  function MutateRegistry(u: Update, ok: Prog, err: Prog): Prog {
    Act(Acquire(Registry),
        Act(Read,
            Act(Mutate(u),
                Act(Write, Releasing(Registry, ok), Releasing(Registry, err)),
                Releasing(Registry, err)),
            Releasing(Registry, err)),
        err)
  }

  function UpsertLease(u: Update, ok: Prog, err: Prog): Prog {
    Try(MutateRegistry(u, ok, err), err)
  }

  /** `validatePostgresBranchLeaseWritable`: a look at the registry under its lock. */
  function ValidateWritable(ok: Prog, err: Prog): Prog {
    Try(Act(Acquire(Registry),
            Act(Read,
                Doing(Check, Releasing(Registry, ok), Releasing(Registry, err)),
                Releasing(Registry, err)),
            err),
        err)
  }

  /** `adminURL`: from the environment, or by starting the shared substrate under its lock. */
  function AdminURL(ok: Prog, err: Prog): Prog {
    Try(ok,
        Try(Act(Acquire(Substrate("postgres")),
                Doing(Startup, Releasing(Substrate("postgres"), ok), Releasing(Substrate("postgres"), err)),
                err),
            err))
  }

  function Pending(pin: Pin, now: int, ok: Prog, err: Prog): Prog {
    UpsertLease(Upsert(pin, None, "pending", now), ok, err)
  }

  /** The part of `EnsureBranch` under the branch operation lock. */
  function EnsureLocked(pin: Pin, endpoint: Endpoint, op: Lock, now: nat -> int): Prog {
    var bad := Releasing(op, Done(false));
    ValidateWritable(
      Doing(Ddl,
            Try(UpsertLease(Upsert(pin, Some(endpoint), "ready", now(3)), Releasing(op, Done(true)), bad), bad),
            Pending(pin, now(2), bad, bad)),
      bad)
  }

  function EnsureBranch(isProtected: bool, pin: Pin, endpoint: Endpoint, op: Lock, now: nat -> int): Prog {
    if isProtected then UpsertLease(Upsert(pin, None, "protected", now(0)), Done(true), Done(false))
    else
      var bad := Done(false);
      AdminURL(
        Pending(pin, now(0),
                ValidateWritable(
                  Try(Act(Acquire(op), EnsureLocked(pin, endpoint, op, now), Pending(pin, now(1), bad, bad)), bad),
                  bad),
                bad),
        Pending(pin, now(0), bad, bad))
  }

  function ResetBranch(pin: Pin, endpoint: Endpoint, op: Lock, now: int): Prog {
    var bad := Releasing(op, Done(false));
    AdminURL(
      Try(Act(Acquire(op),
              Doing(Ddl, Try(UpsertLease(Upsert(pin, Some(endpoint), "ready", now), Releasing(op, Done(true)), bad), bad), bad),
              Done(false)),
          Done(false)),
      Done(false))
  }

  /** Drops the databases one by one under the operation lock. */
  function DropAll(databases: nat, op: Lock, rest: Prog): Prog {
    if databases == 0 then rest else Doing(Ddl, DropAll(databases - 1, op, rest), Releasing(op, Done(false)))
  }

  /** `DeleteBranch`: collect under the registry lock, drop under the operation lock, then remove
      the leases under the registry lock again. */
  function DeleteBranch(pin: Pin, branch: string, databases: nat, op: Lock): Prog {
    var badRegistry := Releasing(Registry, Done(false));
    var last := Act(Acquire(Registry),
                    Act(Read,
                        Act(Mutate(Delete(pin, branch)),
                            Act(Write, Try(Releasing(Registry, Done(true)), badRegistry), badRegistry),
                            badRegistry),
                        badRegistry),
                    Done(false));
    var drop := Act(Acquire(op), DropAll(databases, op, Releasing(op, last)), Done(false));
    AdminURL(
      Try(Act(Acquire(Registry), Act(Read, Try(Releasing(Registry, drop), badRegistry), badRegistry), Done(false)),
          Done(false)),
      Done(false))
  }

  function ExpireBranch(pin: Pin, expiresAt: int, now: int): Prog {
    Try(Try(MutateRegistry(Expire(pin, expiresAt, now), Done(true), Done(false)), Done(false)), Done(false))
  }

  /** Drops the databases of expired leases one by one, under the registry lock. */
  function DropExpiredOnes(databases: nat, rest: Prog): Prog {
    if databases == 0 then rest
    else Doing(DropExpired, DropExpiredOnes(databases - 1, rest), Releasing(Registry, Done(false)))
  }

  /** The update of `pruneExpiredDBBranchLeases`, which drops databases while it rebuilds the list. */
  function PruneRegistry(u: Update, databases: nat): Prog {
    var bad := Releasing(Registry, Done(false));
    Act(Acquire(Registry),
        Act(Read,
            DropExpiredOnes(databases, Act(Mutate(u), Act(Write, Releasing(Registry, Done(true)), bad), bad)),
            bad),
        Done(false))
  }

  /** `pruneExpiredDBBranchLeases` goes on without an admin URL when it cannot get one, and then drops
      nothing. */
  function PruneBranches(project: string, currentId: string, olderThan: int, now: int, databases: nat): Prog {
    var u := Prune(project, currentId, olderThan, now);
    Try(AdminURL(PruneRegistry(u, databases), PruneRegistry(u, 0)), Done(false))
  }

  // ----- the discipline

  /** What the process knows about the registry file: nothing, that its copy is the file, or that
      its copy is the file with one update applied. */
  datatype Phase = Nothing | Fresh | Mutated(u: Update)

  /** Long start-up happens under the substrate lock alone, database changes under a branch operation
      lock; expired databases are dropped under the registry lock. */
  ghost predicate WorkAllowed(work: Work, held: set<Lock>) {
    match work
    case Plain => true
    case Startup => held == {Substrate("postgres")}
    case Ddl => exists l :: l in held && l.Operation?
    case DropExpired => Registry in held
    case Check => Registry in held
  }

  /** Every path from here takes locks in strictly rising order, reads and writes the registry
      only under the registry lock, writes only a copy read during the same tenure of it with one
      good update applied, does its other work under the locks that work needs, and ends holding
      nothing. */
  ghost predicate Disciplined(good: Update -> bool, p: Prog, held: set<Lock>, phase: Phase)
    decreases p
  {
    match p
    case Done(_) => held == {}
    case Act(a, next, fail) =>
      match a
      case Acquire(l) =>
        && l !in held && (forall h :: h in held ==> Order(h) < Order(l))
        && Disciplined(good, next, held + {l}, phase) && Disciplined(good, fail, held, phase)
      case Release(l) =>
        l in held && Disciplined(good, next, held - {l}, if l == Registry then Nothing else phase)
      case Read =>
        && Registry in held
        && Disciplined(good, next, held, Fresh) && Disciplined(good, fail, held, Nothing)
      case Mutate(u) =>
        && phase == Fresh && good(u)
        && Disciplined(good, next, held, Mutated(u)) && Disciplined(good, fail, held, Nothing)
      case Write =>
        && Registry in held && phase.Mutated?
        && Disciplined(good, next, held, Nothing) && Disciplined(good, fail, held, Nothing)
      case External(work) =>
        WorkAllowed(work, held) && Disciplined(good, next, held, phase) && Disciplined(good, fail, held, phase)
  }

  ghost predicate Quiet(good: Update -> bool, p: Prog, held: set<Lock>) {
    Disciplined(good, p, held, Nothing)
  }

  lemma AddRemove(held: set<Lock>, l: Lock)
    requires l !in held
    ensures held + {l} - {l} == held
  {
  }

  lemma ReleaseRegistry(good: Update -> bool, rest: Prog, held: set<Lock>, phase: Phase)
    requires Registry !in held && Quiet(good, rest, held)
    ensures Disciplined(good, Releasing(Registry, rest), held + {Registry}, phase)
  {
    AddRemove(held, Registry);
  }

  lemma MutateRegistryIsDisciplined(good: Update -> bool, u: Update, ok: Prog, err: Prog, held: set<Lock>)
    requires good(u) && (forall h :: h in held ==> Order(h) < 20) && Quiet(good, ok, held) && Quiet(good, err, held)
    ensures Quiet(good, MutateRegistry(u, ok, err), held)
  {
    var all := held + {Registry};
    ReleaseRegistry(good, ok, held, Nothing);
    ReleaseRegistry(good, err, held, Nothing);
    var write := Act(Write, Releasing(Registry, ok), Releasing(Registry, err));
    assert Disciplined(good, write, all, Mutated(u));
    assert Disciplined(good, Act(Mutate(u), write, Releasing(Registry, err)), all, Fresh);
    assert Quiet(good, Act(Read, Act(Mutate(u), write, Releasing(Registry, err)), Releasing(Registry, err)), all);
  }

  lemma ValidateIsDisciplined(good: Update -> bool, ok: Prog, err: Prog, held: set<Lock>)
    requires (forall h :: h in held ==> Order(h) < 20) && Quiet(good, ok, held) && Quiet(good, err, held)
    ensures Quiet(good, ValidateWritable(ok, err), held)
  {
    ReleaseRegistry(good, ok, held, Fresh);
    ReleaseRegistry(good, err, held, Fresh);
    ReleaseRegistry(good, err, held, Nothing);
    var body := Act(Read, Doing(Check, Releasing(Registry, ok), Releasing(Registry, err)), Releasing(Registry, err));
    assert Disciplined(good, body, held + {Registry}, Nothing);
  }

  lemma AdminURLIsDisciplined(good: Update -> bool, ok: Prog, err: Prog)
    requires Quiet(good, ok, {}) && Quiet(good, err, {})
    ensures Quiet(good, AdminURL(ok, err), {})
  {
    var l := Substrate("postgres");
    AddRemove({}, l);
    assert Disciplined(good, Releasing(l, ok), {} + {l}, Nothing);
    assert Disciplined(good, Releasing(l, err), {} + {l}, Nothing);
    var body := Doing(Startup, Releasing(l, ok), Releasing(l, err));
    assert {} + {l} == {l};
    assert Disciplined(good, body, {} + {l}, Nothing);
    assert Quiet(good, Act(Acquire(l), body, err), {});
  }

  ghost predicate GoodPin(good: Update -> bool, pin: Pin) {
    forall endpoint, status, now :: good(Upsert(pin, endpoint, status, now))
  }

  lemma PendingIsDisciplined(good: Update -> bool, pin: Pin, now: int, ok: Prog, err: Prog, held: set<Lock>)
    requires GoodPin(good, pin) && (forall h :: h in held ==> Order(h) < 20)
    requires Quiet(good, ok, held) && Quiet(good, err, held)
    ensures Quiet(good, Pending(pin, now, ok, err), held)
  {
    MutateRegistryIsDisciplined(good, Upsert(pin, None, "pending", now), ok, err, held);
  }

  lemma OperationOnly(good: Update -> bool, op: Lock)
    requires op.Operation?
    ensures Quiet(good, Releasing(op, Done(true)), {op}) && Quiet(good, Releasing(op, Done(false)), {op})
  {
    assert {op} - {op} == {};
  }

  lemma EnsureLockedIsDisciplined(good: Update -> bool, pin: Pin, endpoint: Endpoint, op: Lock, now: nat -> int)
    requires op.Operation? && GoodPin(good, pin)
    ensures Quiet(good, EnsureLocked(pin, endpoint, op, now), {op})
  {
    OperationOnly(good, op);
    var bad, fine := Releasing(op, Done(false)), Releasing(op, Done(true));
    var ready := UpsertLease(Upsert(pin, Some(endpoint), "ready", now(3)), fine, bad);
    MutateRegistryIsDisciplined(good, Upsert(pin, Some(endpoint), "ready", now(3)), fine, bad, {op});
    assert Quiet(good, ready, {op});
    PendingIsDisciplined(good, pin, now(2), bad, bad, {op});
    var work := Doing(Ddl, Try(ready, bad), Pending(pin, now(2), bad, bad));
    assert WorkAllowed(Ddl, {op});
    assert Quiet(good, work, {op});
    ValidateIsDisciplined(good, work, bad, {op});
  }

  /** `EnsureBranch` keeps the discipline on every path. */
  lemma EnsureBranchIsDisciplined(good: Update -> bool, isProtected: bool, pin: Pin, endpoint: Endpoint, op: Lock,
                                  now: nat -> int)
    requires op.Operation? && GoodPin(good, pin)
    ensures Disciplined(good, EnsureBranch(isProtected, pin, endpoint, op, now), {}, Nothing)
  {
    var bad := Done(false);
    if isProtected {
      MutateRegistryIsDisciplined(good, Upsert(pin, None, "protected", now(0)), Done(true), bad, {});
    } else {
      EnsureLockedIsDisciplined(good, pin, endpoint, op, now);
      PendingIsDisciplined(good, pin, now(1), bad, bad, {});
      assert {} + {op} == {op};
      var locked := Act(Acquire(op), EnsureLocked(pin, endpoint, op, now), Pending(pin, now(1), bad, bad));
      assert Quiet(good, locked, {});
      ValidateIsDisciplined(good, Try(locked, bad), bad, {});
      var checked := ValidateWritable(Try(locked, bad), bad);
      PendingIsDisciplined(good, pin, now(0), checked, bad, {});
      PendingIsDisciplined(good, pin, now(0), bad, bad, {});
      AdminURLIsDisciplined(good, Pending(pin, now(0), checked, bad), Pending(pin, now(0), bad, bad));
    }
  }

  lemma ResetBranchIsDisciplined(good: Update -> bool, pin: Pin, endpoint: Endpoint, op: Lock, now: int)
    requires op.Operation? && GoodPin(good, pin)
    ensures Disciplined(good, ResetBranch(pin, endpoint, op, now), {}, Nothing)
  {
    OperationOnly(good, op);
    var bad, fine := Releasing(op, Done(false)), Releasing(op, Done(true));
    MutateRegistryIsDisciplined(good, Upsert(pin, Some(endpoint), "ready", now), fine, bad, {op});
    var work := Doing(Ddl, Try(UpsertLease(Upsert(pin, Some(endpoint), "ready", now), fine, bad), bad), bad);
    assert WorkAllowed(Ddl, {op});
    assert Quiet(good, work, {op});
    assert {} + {op} == {op};
    var locked := Act(Acquire(op), work, Done(false));
    assert Quiet(good, locked, {});
    AdminURLIsDisciplined(good, Try(locked, Done(false)), Done(false));
  }

  lemma {:induction false} DropAllIsDisciplined(good: Update -> bool, databases: nat, op: Lock, rest: Prog)
    requires op.Operation? && Quiet(good, rest, {op})
    ensures Quiet(good, DropAll(databases, op, rest), {op})
  {
    if databases == 0 {
    } else {
      DropAllIsDisciplined(good, databases - 1, op, rest);
      OperationOnly(good, op);
      assert op in {op};
    }
  }

  lemma DeleteBranchIsDisciplined(good: Update -> bool, pin: Pin, branch: string, databases: nat, op: Lock)
    requires op.Operation? && good(Delete(pin, branch))
    ensures Disciplined(good, DeleteBranch(pin, branch, databases, op), {}, Nothing)
  {
    var r := {} + {Registry};
    AddRemove({}, Registry);
    var badRegistry := Releasing(Registry, Done(false));
    ReleaseRegistry(good, Done(false), {}, Nothing);
    ReleaseRegistry(good, Done(false), {}, Fresh);
    ReleaseRegistry(good, Done(true), {}, Nothing);
    var end := Act(Write, Try(Releasing(Registry, Done(true)), badRegistry), badRegistry);
    assert Disciplined(good, end, r, Mutated(Delete(pin, branch)));
    var last := Act(Acquire(Registry), Act(Read, Act(Mutate(Delete(pin, branch)), end, badRegistry), badRegistry), Done(false));
    assert Quiet(good, last, {});
    assert {op} - {op} == {} && {} + {op} == {op};
    assert Quiet(good, Releasing(op, last), {op});
    DropAllIsDisciplined(good, databases, op, Releasing(op, last));
    var drop := Act(Acquire(op), DropAll(databases, op, Releasing(op, last)), Done(false));
    assert Quiet(good, drop, {});
    ReleaseRegistry(good, drop, {}, Fresh);
    var look := Act(Read, Try(Releasing(Registry, drop), badRegistry), badRegistry);
    assert Disciplined(good, Try(Releasing(Registry, drop), badRegistry), r, Fresh);
    assert Quiet(good, look, r);
    var first := Act(Acquire(Registry), look, Done(false));
    assert Quiet(good, first, {});
    AdminURLIsDisciplined(good, Try(first, Done(false)), Done(false));
  }

  lemma ExpireBranchIsDisciplined(good: Update -> bool, pin: Pin, expiresAt: int, now: int)
    requires good(Expire(pin, expiresAt, now))
    ensures Disciplined(good, ExpireBranch(pin, expiresAt, now), {}, Nothing)
  {
    MutateRegistryIsDisciplined(good, Expire(pin, expiresAt, now), Done(true), Done(false), {});
  }

  lemma {:induction false} DropExpiredIsDisciplined(good: Update -> bool, databases: nat, rest: Prog)
    requires Disciplined(good, rest, {} + {Registry}, Fresh)
    ensures Disciplined(good, DropExpiredOnes(databases, rest), {} + {Registry}, Fresh)
  {
    if databases == 0 {
    } else {
      DropExpiredIsDisciplined(good, databases - 1, rest);
      ReleaseRegistry(good, Done(false), {}, Fresh);
    }
  }

  lemma PruneRegistryIsDisciplined(good: Update -> bool, u: Update, databases: nat)
    requires good(u)
    ensures Quiet(good, PruneRegistry(u, databases), {})
  {
    var bad := Releasing(Registry, Done(false));
    ReleaseRegistry(good, Done(true), {}, Nothing);
    ReleaseRegistry(good, Done(false), {}, Nothing);
    var end := Act(Write, Releasing(Registry, Done(true)), bad);
    assert Disciplined(good, end, {} + {Registry}, Mutated(u));
    assert Disciplined(good, Act(Mutate(u), end, bad), {} + {Registry}, Fresh);
    DropExpiredIsDisciplined(good, databases, Act(Mutate(u), end, bad));
  }

  lemma PruneBranchesIsDisciplined(good: Update -> bool, project: string, currentId: string, olderThan: int, now: int,
                                   databases: nat)
    requires good(Prune(project, currentId, olderThan, now))
    ensures Disciplined(good, PruneBranches(project, currentId, olderThan, now, databases), {}, Nothing)
  {
    var u := Prune(project, currentId, olderThan, now);
    PruneRegistryIsDisciplined(good, u, databases);
    PruneRegistryIsDisciplined(good, u, 0);
    AdminURLIsDisciplined(good, PruneRegistry(u, databases), PruneRegistry(u, 0));
  }
}
