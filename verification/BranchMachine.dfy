/** Any number of processes running branch programs against one registry file: every
    interleaving, every failure and every exit. */
module BranchMachine {
  import opened Text
  import opened BranchRegistry
  import opened BranchPrograms
  import opened NamedLocks
  import L = LockProtocol

  /** One process: what it still has to run, what it knows of the file, and its copy of it. */
  datatype Worker = Worker(prog: Prog, phase: Phase, copy: seq<Lease>)

  /** `log` records the updates in the order their writes replaced the file, and `authors` the
      processes that wrote them. */
  datatype Machine = Machine(locks: L.State, workers: seq<Worker>, disk: seq<Lease>, log: seq<Update>, authors: seq<nat>)

  datatype Move =
    | Lock(e: L.Event)   // a step of the lock protocol
    | Refused            // the order check fails
    | NoFile             // the lock file cannot be opened
    | Succeed            // any other action succeeds
    | Fail               // any other action returns an error

  function Pc(m: Machine, i: nat): L.Pc
    requires i < |m.locks.procs|
  {
    m.locks.procs[i].pc
  }

  predicate Ready(m: Machine, i: nat) {
    i < |m.workers| && i < |m.locks.procs| && Pc(m, i).Idle? && m.workers[i].prog.Act?
  }

  /** Reading, mutating, writing and outside work: everything but locks. */
  predicate Working(a: Action) {
    a.Read? || a.Mutate? || a.Write? || a.External?
  }

  predicate LockEnabled(m: Machine, i: nat, e: L.Event)
    requires i < |m.workers|
  {
    && L.Enabled(m.locks, i, e)
    && match e
       case Request(l) => m.workers[i].prog.Act? && m.workers[i].prog.a == Acquire(l)
       case Unmark(l) => m.workers[i].prog.Act? && m.workers[i].prog.a == Release(l)
       case Mark => m.workers[i].prog.Act?
       case GiveUp => m.workers[i].prog.Act?
       case Unlock => m.workers[i].prog.Act?
       case Grant => true
       case Exit => true
  }

  predicate Enabled(m: Machine, i: nat, move: Move) {
    && i < |m.workers|
    && match move
       case Lock(e) => LockEnabled(m, i, e)
       case Refused =>
         Ready(m, i) && m.workers[i].prog.a.Acquire? && !L.Guard(m.locks.procs[i].held, m.workers[i].prog.a.l)
       case NoFile => Ready(m, i) && m.workers[i].prog.a.Acquire?
       case Succeed =>
         && Ready(m, i) && Working(m.workers[i].prog.a)
         && (m.workers[i].prog.a.Mutate? ==> Apply(m.workers[i].prog.a.u, m.workers[i].copy).Some?)
       case Fail => Ready(m, i) && Working(m.workers[i].prog.a)
  }

  /** The worker after a lock step; a released or lost registry lock ends what it knows. */
  function AfterLock(w: Worker, e: L.Event): Worker
    requires e.Mark? || e.GiveUp? || e.Unlock? ==> w.prog.Act?
  {
    match e
    case Request(_) => w
    case Grant => w
    case Mark => w.(prog := w.prog.next)
    case GiveUp => w.(prog := w.prog.fail)
    case Unmark(l) => if l == L.Registry then w.(phase := Nothing) else w
    case Unlock => w.(prog := w.prog.next)
    case Exit => Worker(Done(false), Nothing, [])
  }

  function AfterSuccess(w: Worker, disk: seq<Lease>): Worker
    requires w.prog.Act? && Working(w.prog.a)
    requires w.prog.a.Mutate? ==> Apply(w.prog.a.u, w.copy).Some?
  {
    match w.prog.a
    case Read => Worker(w.prog.next, Fresh, disk)
    case Mutate(u) => Worker(w.prog.next, Mutated(u), Apply(u, w.copy).value)
    case Write => Worker(w.prog.next, Nothing, w.copy)
    case External(_) => w.(prog := w.prog.next)
  }

  function AfterFailure(w: Worker): Worker
    requires w.prog.Act?
  {
    Worker(w.prog.fail, if w.prog.a.External? then w.phase else Nothing, w.copy)
  }

  function Step(m: Machine, i: nat, move: Move): Machine
    requires Enabled(m, i, move)
  {
    var w := m.workers[i];
    match move
    case Lock(e) => m.(locks := L.Step(m.locks, i, e), workers := m.workers[i := AfterLock(w, e)])
    case Refused => m.(workers := m.workers[i := w.(prog := w.prog.fail)])
    case NoFile => m.(workers := m.workers[i := w.(prog := w.prog.fail)])
    case Fail => m.(workers := m.workers[i := AfterFailure(w)])
    case Succeed =>
      var n := m.(workers := m.workers[i := AfterSuccess(w, m.disk)]);
      if !w.prog.a.Write? then n
      else if w.phase.Mutated? then n.(disk := w.copy, log := m.log + [w.phase.u], authors := m.authors + [i])
      else n.(disk := w.copy)
  }

  function Start(progs: seq<Prog>, disk: seq<Lease>): Machine {
    Machine(L.Init(|progs|), seq(|progs|, i requires 0 <= i < |progs| => Worker(progs[i], Nothing, [])), disk, [], [])
  }

  // ----- the invariant

  /** The updates of a log applied one after another. */
  function Replay(initial: seq<Lease>, log: seq<Update>): Option<seq<Lease>> {
    if log == [] then Some(initial)
    else
      var before := Replay(initial, log[..|log| - 1]);
      if before.None? then None else Apply(log[|log| - 1], before.value)
  }

  /** The rest of the program keeps the discipline from what is held and known now. */
  ghost predicate InProgram(good: Update -> bool, p: L.Proc, w: Worker) {
    match p.pc
    case Idle => Disciplined(good, w.prog, p.held, w.phase)
    case Waiting(l) => w.prog.Act? && w.prog.a == Acquire(l) && Disciplined(good, w.prog, p.held, w.phase)
    case Marking(l) => w.prog.Act? && w.prog.a == Acquire(l) && Disciplined(good, w.prog, p.held, w.phase)
    case Unlocking(l) => w.prog.Act? && w.prog.a == Release(l) && Disciplined(good, w.prog.next, p.held, w.phase)
  }

  ghost predicate Knows(good: Update -> bool, p: L.Proc, w: Worker, disk: seq<Lease>) {
    match w.phase
    case Nothing => true
    case Fresh => L.Registry in p.held && w.copy == disk
    case Mutated(u) => L.Registry in p.held && good(u) && Apply(u, disk) == Some(w.copy)
  }

  ghost predicate WorkerInv(good: Update -> bool, m: Machine, i: nat)
    requires i < |m.workers| && i < |m.locks.procs|
  {
    InProgram(good, m.locks.procs[i], m.workers[i]) && Knows(good, m.locks.procs[i], m.workers[i], m.disk)
  }

  ghost predicate Inv(good: Update -> bool, initial: seq<Lease>, m: Machine) {
    && |m.workers| == |m.locks.procs|
    && L.Inv(m.locks)
    && (forall i :: 0 <= i < |m.workers| ==> WorkerInv(good, m, i))
    && (forall u :: u in m.log ==> good(u))
    && Replay(initial, m.log) == Some(m.disk)
  }

  lemma StartInv(good: Update -> bool, progs: seq<Prog>, disk: seq<Lease>)
    requires forall i :: 0 <= i < |progs| ==> Disciplined(good, progs[i], {}, Nothing)
    ensures Inv(good, disk, Start(progs, disk))
  {
    L.InitInv(|progs|);
  }

  lemma LockStepWorker(good: Update -> bool, m: Machine, i: nat, e: L.Event)
    requires |m.workers| == |m.locks.procs| && L.Inv(m.locks) && i < |m.workers|
    requires WorkerInv(good, m, i) && LockEnabled(m, i, e)
    ensures WorkerInv(good, Step(m, i, Lock(e)), i)
  {
    var p, w := m.locks.procs[i], m.workers[i];
    if e.Mark? {
      assert w.prog.a == Acquire(p.pc.l);
    }
  }

  lemma SuccessWorker(good: Update -> bool, m: Machine, i: nat)
    requires |m.workers| == |m.locks.procs| && i < |m.workers|
    requires WorkerInv(good, m, i) && Enabled(m, i, Succeed)
    ensures WorkerInv(good, Step(m, i, Succeed), i)
  {
  }

  lemma FailureWorker(good: Update -> bool, m: Machine, i: nat, move: Move)
    requires |m.workers| == |m.locks.procs| && i < |m.workers|
    requires WorkerInv(good, m, i) && Enabled(m, i, move) && (move.Fail? || move.NoFile? || move.Refused?)
    ensures WorkerInv(good, Step(m, i, move), i)
  {
  }

  /** Only one process holds the registry lock, so only one knows anything of the file. */
  lemma OnlyOneKnows(good: Update -> bool, initial: seq<Lease>, m: Machine, i: nat, j: nat)
    requires Inv(good, initial, m) && i < |m.workers| && j < |m.workers| && i != j
    requires L.Registry in m.locks.procs[i].held
    ensures m.workers[j].phase == Nothing
  {
    assert WorkerInv(good, m, j);
    HeldByOwner(m.locks, i, L.Registry);
    if L.Registry in m.locks.procs[j].held {
      HeldByOwner(m.locks, j, L.Registry);
    }
  }

  lemma HeldByOwner(s: L.State, i: nat, l: L.Lock)
    requires L.Inv(s) && i < |s.procs| && l in s.procs[i].held
    ensures l in s.owner && s.owner[l] == i
  {
    assert l in L.Owned(s.procs[i]);
  }

  lemma OtherWorkers(good: Update -> bool, initial: seq<Lease>, m: Machine, i: nat, move: Move, j: nat)
    requires Inv(good, initial, m) && Enabled(m, i, move) && j < |m.workers| && j != i
    ensures WorkerInv(good, Step(m, i, move), j)
  {
    assert WorkerInv(good, m, j);
    assert WorkerInv(good, m, i);
    if move.Succeed? && m.workers[i].prog.a.Write? {
      OnlyOneKnows(good, initial, m, i, j);
    }
  }

  lemma StepLocks(m: Machine, i: nat, move: Move)
    requires |m.workers| == |m.locks.procs| && L.Inv(m.locks) && Enabled(m, i, move)
    ensures L.Inv(Step(m, i, move).locks) && |Step(m, i, move).workers| == |Step(m, i, move).locks.procs|
  {
    if move.Lock? {
      L.StepInv(m.locks, i, move.e);
    }
  }

  /** A write is one serial step: it happens under the registry lock, and it replaces the file by
      exactly one good update of the file as it stands at that moment. */
  lemma WriteIsOneUpdate(good: Update -> bool, initial: seq<Lease>, m: Machine, i: nat)
    requires Inv(good, initial, m) && Enabled(m, i, Succeed) && m.workers[i].prog.a.Write?
    ensures L.Registry in m.locks.procs[i].held && L.Registry in m.locks.owner && m.locks.owner[L.Registry] == i
    ensures var n := Step(m, i, Succeed);
            exists u :: good(u) && n.log == m.log + [u] && Apply(u, m.disk) == Some(n.disk)
  {
    assert WorkerInv(good, m, i);
    HeldByOwner(m.locks, i, L.Registry);
    var u := m.workers[i].phase.u;
    assert good(u) && Step(m, i, Succeed).log == m.log + [u];
  }

  lemma StepLog(good: Update -> bool, initial: seq<Lease>, m: Machine, i: nat, move: Move)
    requires Inv(good, initial, m) && Enabled(m, i, move)
    ensures var n := Step(m, i, move); (forall u :: u in n.log ==> good(u)) && Replay(initial, n.log) == Some(n.disk)
  {
    if move.Succeed? && m.workers[i].prog.a.Write? {
      WriteIsOneUpdate(good, initial, m, i);
      var n := Step(m, i, move);
      assert n.log[..|n.log| - 1] == m.log;
    }
  }

  lemma StepInv(good: Update -> bool, initial: seq<Lease>, m: Machine, i: nat, move: Move)
    requires Inv(good, initial, m) && Enabled(m, i, move)
    ensures Inv(good, initial, Step(m, i, move))
  {
    var n := Step(m, i, move);
    StepLocks(m, i, move);
    StepLog(good, initial, m, i, move);
    assert WorkerInv(good, m, i);
    match move {
      case Lock(e) => LockStepWorker(good, m, i, e);
      case Succeed => SuccessWorker(good, m, i);
      case _ => FailureWorker(good, m, i, move);
    }
    forall j | 0 <= j < |n.workers|
      ensures WorkerInv(good, n, j)
    {
      if j != i {
        OtherWorkers(good, initial, m, i, move, j);
      }
    }
  }

  // ----- whole runs

  datatype Turn = Turn(pid: nat, move: Move)

  ghost predicate IsRun(m: Machine, turns: seq<Turn>, n: Machine)
    decreases |turns|
  {
    if turns == [] then m == n
    else Enabled(m, turns[0].pid, turns[0].move) && IsRun(Step(m, turns[0].pid, turns[0].move), turns[1..], n)
  }

  lemma {:induction false} RunInv(good: Update -> bool, initial: seq<Lease>, m: Machine, turns: seq<Turn>, n: Machine)
    requires Inv(good, initial, m) && IsRun(m, turns, n)
    ensures Inv(good, initial, n)
    decreases |turns|
  {
    if turns == [] {
    } else {
      StepInv(good, initial, m, turns[0].pid, turns[0].move);
      RunInv(good, initial, Step(m, turns[0].pid, turns[0].move), turns[1..], n);
    }
  }

  /** In no run does a program trip over the lock order check. */
  lemma NeverRefused(good: Update -> bool, initial: seq<Lease>, m: Machine, i: nat)
    requires Inv(good, initial, m)
    ensures !Enabled(m, i, Refused)
  {
    if i < |m.workers| {
      assert WorkerInv(good, m, i);
    }
  }

  /** A process that has finished, on whatever path, holds no lock. */
  lemma FinishedHoldsNothing(good: Update -> bool, initial: seq<Lease>, m: Machine, i: nat)
    requires Inv(good, initial, m) && i < |m.workers| && m.workers[i].prog.Done?
    ensures L.Owned(m.locks.procs[i]) == {} && forall l :: l in m.locks.owner ==> m.locks.owner[l] != i
  {
    assert WorkerInv(good, m, i);
  }

  /** Work is done only under the locks it needs. */
  lemma WorkIsUnderItsLock(good: Update -> bool, initial: seq<Lease>, m: Machine, i: nat)
    requires Inv(good, initial, m) && Ready(m, i) && m.workers[i].prog.a.External?
    ensures WorkAllowed(m.workers[i].prog.a.work, m.locks.procs[i].held)
  {
    assert WorkerInv(good, m, i);
  }

  /** Two processes that are about to change databases hold different branch operation locks, so
      changes below one parent database never overlap. */
  lemma DatabaseChangesAreSerialised(good: Update -> bool, initial: seq<Lease>, m: Machine, i: nat, j: nat, l: L.Lock)
    requires Inv(good, initial, m) && Ready(m, i) && Ready(m, j) && i != j
    requires m.workers[i].prog.a == External(Ddl) && m.workers[j].prog.a == External(Ddl) && l.Operation?
    ensures (exists k :: k in m.locks.procs[i].held && k.Operation?) && (exists k :: k in m.locks.procs[j].held && k.Operation?)
    ensures !(l in m.locks.procs[i].held && l in m.locks.procs[j].held)
  {
    WorkIsUnderItsLock(good, initial, m, i);
    WorkIsUnderItsLock(good, initial, m, j);
    if l in m.locks.procs[i].held {
      HeldByOwner(m.locks, i, l);
    }
    if l in m.locks.procs[j].held {
      HeldByOwner(m.locks, j, l);
    }
  }

  lemma LocksRise(good: Update -> bool, initial: seq<Lease>, m: Machine)
    requires Inv(good, initial, m)
    ensures L.OnePerOrder(m.locks)
  {
    forall i, h | 0 <= i < |m.locks.procs| && m.locks.procs[i].pc.Waiting? && h in m.locks.procs[i].held
      ensures L.Order(h) != L.Order(m.locks.procs[i].pc.l)
    {
      assert WorkerInv(good, m, i);
    }
  }

  /** Branch programs never deadlock: there is no cycle of processes waiting for each other. */
  lemma NoDeadlock(good: Update -> bool, initial: seq<Lease>, m: Machine, c: seq<nat>)
    requires Inv(good, initial, m)
    ensures !L.IsCycle(m.locks, c)
  {
    LocksRise(good, initial, m);
    L.NoCycleWithOnePerOrder(m.locks, c);
  }

  // ----- everybody can finish

  predicate Finished(m: Machine, i: nat)
    requires i < |m.workers|
  {
    m.workers[i].prog.Done?
  }

  /** A move that is no failure, no refusal, no time-out and no exit; a refused update is the
      data's answer, not a failure. */
  predicate Forward(m: Machine, i: nat, move: Move) {
    && Enabled(m, i, move)
    && match move
       case Lock(e) => !e.GiveUp? && !e.Exit?
       case Refused => false
       case NoFile => false
       case Succeed => true
       case Fail => m.workers[i].prog.a.Mutate?
  }

  lemma UnfinishedMoves(good: Update -> bool, initial: seq<Lease>, m: Machine, i: nat) returns (move: Move)
    requires Inv(good, initial, m) && i < |m.workers| && !Finished(m, i) && L.CanGoOn(m.locks, i)
    ensures Forward(m, i, move)
  {
    assert WorkerInv(good, m, i);
    var w, p := m.workers[i], m.locks.procs[i];
    match p.pc
    case Waiting(l) => move := Lock(L.Grant);
    case Marking(l) => move := Lock(L.Mark);
    case Unlocking(l) => move := Lock(L.Unlock);
    case Idle =>
      match w.prog.a
      case Acquire(l) => move := Lock(L.Request(l));
      case Release(l) => move := Lock(L.Unmark(l));
      case Mutate(u) => move := if Apply(u, w.copy).Some? then Succeed else Fail;
      case _ => move := Succeed;
  }

  lemma OwnerIsUnfinished(good: Update -> bool, initial: seq<Lease>, m: Machine, i: nat, j: nat)
    requires Inv(good, initial, m) && L.WaitsFor(m.locks, i, j)
    ensures j < |m.workers| && !Finished(m, j)
  {
    assert m.locks.procs[i].pc.l in m.locks.owner;
    if Finished(m, j) {
      FinishedHoldsNothing(good, initial, m, j);
    }
  }

  /** While some process is unfinished, some process can move forward. */
  lemma {:induction false} SomeoneMoves(good: Update -> bool, initial: seq<Lease>, m: Machine, i: nat)
    returns (j: nat, move: Move)
    requires Inv(good, initial, m) && i < |m.workers| && !Finished(m, i)
    ensures Forward(m, j, move)
    decreases if Pc(m, i).Waiting? then 30 - L.Order(Pc(m, i).l) else 0
  {
    if L.CanGoOn(m.locks, i) {
      j := i;
      move := UnfinishedMoves(good, initial, m, i);
    } else {
      var k := m.locks.owner[Pc(m, i).l];
      assert L.WaitsFor(m.locks, i, k);
      OwnerIsUnfinished(good, initial, m, i, k);
      if Pc(m, k).Waiting? {
        L.WaitingGoesUp(m.locks, i, k);
        LocksRise(good, initial, m);
      }
      j, move := SomeoneMoves(good, initial, m, k);
    }
  }

  function Size(p: Prog): nat {
    match p
    case Done(_) => 0
    case Act(_, next, fail) => 4 + Size(next) + Size(fail)
  }

  function Left(w: Worker, pc: L.Pc): int {
    Size(w.prog) - (match pc case Idle => 0 case Waiting(_) => 1 case Marking(_) => 2 case Unlocking(_) => 1)
  }

  /** The work left over all processes. */
  function TotalLeft(m: Machine, n: nat): int
    requires n <= |m.workers| && |m.workers| == |m.locks.procs|
  {
    if n == 0 then 0 else TotalLeft(m, n - 1) + Left(m.workers[n - 1], Pc(m, n - 1))
  }

  lemma ForwardWorksOff(good: Update -> bool, initial: seq<Lease>, m: Machine, i: nat, move: Move)
    requires Inv(good, initial, m) && Forward(m, i, move)
    ensures var n := Step(m, i, move);
            |n.locks.procs| == |m.workers| && Left(n.workers[i], Pc(n, i)) < Left(m.workers[i], Pc(m, i))
    ensures forall j :: 0 <= j < |m.workers| && j != i ==>
              var n := Step(m, i, move);
              n.workers[j] == m.workers[j] && n.locks.procs[j] == m.locks.procs[j]
  {
    assert WorkerInv(good, m, i);
  }

  lemma {:induction false} TotalFalls(m: Machine, n: Machine, i: nat, k: nat)
    requires |m.workers| == |m.locks.procs| == |n.workers| == |n.locks.procs| && i < k <= |m.workers|
    requires Left(n.workers[i], Pc(n, i)) < Left(m.workers[i], Pc(m, i))
    requires forall j :: 0 <= j < |m.workers| && j != i ==>
               n.workers[j] == m.workers[j] && n.locks.procs[j] == m.locks.procs[j]
    ensures TotalLeft(n, k) < TotalLeft(m, k)
  {
    if k - 1 > i {
      TotalFalls(m, n, i, k - 1);
    } else {
      TotalSame(m, n, k - 1);
    }
  }

  lemma {:induction false} TotalSame(m: Machine, n: Machine, k: nat)
    requires |m.workers| == |m.locks.procs| == |n.workers| == |n.locks.procs| && k <= |m.workers|
    requires forall j :: 0 <= j < k ==> n.workers[j] == m.workers[j] && n.locks.procs[j] == m.locks.procs[j]
    ensures TotalLeft(n, k) == TotalLeft(m, k)
  {
    if k == 0 {
    } else {
      TotalSame(m, n, k - 1);
    }
  }

  lemma {:induction false} TotalIsNat(good: Update -> bool, initial: seq<Lease>, m: Machine, k: nat)
    requires Inv(good, initial, m) && k <= |m.workers|
    ensures TotalLeft(m, k) >= 0
  {
    if k == 0 {
    } else {
      TotalIsNat(good, initial, m, k - 1);
      assert WorkerInv(good, m, k - 1);
    }
  }

  ghost predicate AllFinished(m: Machine) {
    forall i :: 0 <= i < |m.workers| ==> Finished(m, i)
  }

  /** From every reachable state all processes can run to their end, and each forward move brings
      that end closer: no state of any run is stuck. */
  lemma {:induction false} EveryoneCanFinish(good: Update -> bool, initial: seq<Lease>, m: Machine)
    returns (turns: seq<Turn>, n: Machine)
    requires Inv(good, initial, m)
    ensures IsRun(m, turns, n) && AllFinished(n) && Inv(good, initial, n)
    decreases TotalLeft(m, |m.workers|)
  {
    if AllFinished(m) {
      turns, n := [], m;
    } else {
      var i :| 0 <= i < |m.workers| && !Finished(m, i);
      var j, move := SomeoneMoves(good, initial, m, i);
      var next := Step(m, j, move);
      StepInv(good, initial, m, j, move);
      ForwardWorksOff(good, initial, m, j, move);
      TotalFalls(m, next, j, |m.workers|);
      TotalIsNat(good, initial, next, |m.workers|);
      var rest: seq<Turn>;
      rest, n := EveryoneCanFinish(good, initial, next);
      turns := [Turn(j, move)] + rest;
      assert turns[1..] == rest;
    }
  }

  // ----- the registry over whole runs

  lemma {:induction false} ReplayKeepsOneLeasePerBranch(id: (string, string) -> string, initial: seq<Lease>, log: seq<Update>)
    requires IdFunction(id) && IdsOk(id, initial) && Unique(initial) && Replay(initial, log).Some?
    requires forall u :: u in log ==> UpdateIdOk(id, u)
    ensures IdsOk(id, Replay(initial, log).value) && Unique(Replay(initial, log).value)
  {
    if log == [] {
    } else {
      var n := |log| - 1;
      ReplayKeepsOneLeasePerBranch(id, initial, log[..n]);
      UpdateKeepsOneLeasePerBranch(id, log[n], Replay(initial, log[..n]).value);
    }
  }

  /** The registry has at most one lease per branch at every point of a log. */
  ghost predicate UniqueThroughout(initial: seq<Lease>, log: seq<Update>)
    requires Replay(initial, log).Some?
  {
    Unique(Replay(initial, log).value) && (log != [] ==> UniqueThroughout(initial, log[..|log| - 1]))
  }

  /** Every upsert of a log finds its branch free of other leases when its turn comes. */
  ghost predicate FreeThroughout(initial: seq<Lease>, log: seq<Update>)
    requires Replay(initial, log).Some?
  {
    log != [] ==>
      var n := |log| - 1;
      && FreeThroughout(initial, log[..n])
      && (log[n].Upsert? ==> BranchIsFree(Replay(initial, log[..n]).value, log[n].pin))
  }

  lemma {:induction false} UniqueExactlyWhenFree(initial: seq<Lease>, log: seq<Update>)
    requires Unique(initial) && Replay(initial, log).Some?
    ensures UniqueThroughout(initial, log) <==> FreeThroughout(initial, log)
  {
    if log == [] {
    } else {
      var n := |log| - 1;
      UniqueExactlyWhenFree(initial, log[..n]);
      var before := Replay(initial, log[..n]).value;
      if Unique(before) {
        UpdateKeepsUniqueExactly(log[n], before);
      }
      assert UniqueThroughout(initial, log[..n]) ==> Unique(before);
    }
  }

  lemma {:induction false} ReplayKeepsForeignLeases(initial: seq<Lease>, log: seq<Update>)
    requires Replay(initial, log).Some?
    ensures multiset(Foreign(initial)) <= multiset(Foreign(Replay(initial, log).value))
    ensures (forall u :: u in log ==> (u.Upsert? ==> OwnedPin(u.pin))) ==> Foreign(Replay(initial, log).value) == Foreign(initial)
  {
    if log == [] {
    } else {
      var n := |log| - 1;
      ReplayKeepsForeignLeases(initial, log[..n]);
      UpdateLeavesForeignLeases(log[n], Replay(initial, log[..n]).value);
    }
  }

  /** The pins scenery builds: its own, with ids from the id function. */
  function GoodUpdate(id: (string, string) -> string): Update -> bool {
    (u: Update) => UpdateIdOk(id, u) && (u.Upsert? ==> OwnedPin(u.pin))
  }

  /** Whatever the programs' pins, the interleaving, the failures and the exits: the registry file is
      what the recorded updates give one after another; no foreign lease is altered or removed; and
      it has at most one lease per branch at all times exactly when every upsert that was written
      found its branch free of other leases. */
  lemma RegistryOverWholeRuns(good: Update -> bool, progs: seq<Prog>, disk: seq<Lease>, turns: seq<Turn>, m: Machine)
    requires forall i :: 0 <= i < |progs| ==> Disciplined(good, progs[i], {}, Nothing)
    requires IsRun(Start(progs, disk), turns, m)
    ensures Replay(disk, m.log) == Some(m.disk)
    ensures multiset(Foreign(disk)) <= multiset(Foreign(m.disk))
    ensures Unique(disk) ==> (UniqueThroughout(disk, m.log) <==> FreeThroughout(disk, m.log))
  {
    StartInv(good, progs, disk);
    RunInv(good, disk, Start(progs, disk), turns, m);
    ReplayKeepsForeignLeases(disk, m.log);
    if Unique(disk) {
      UniqueExactlyWhenFree(disk, m.log);
    }
  }

  /** With scenery's own pins and injective ids there is at most one lease per branch, and the
      foreign leases are the same sequence as before. */
  lemma OwnRegistryOverWholeRuns(id: (string, string) -> string, progs: seq<Prog>, disk: seq<Lease>,
                                 turns: seq<Turn>, m: Machine)
    requires IdFunction(id) && IdsOk(id, disk) && Unique(disk)
    requires forall i :: 0 <= i < |progs| ==> Disciplined(GoodUpdate(id), progs[i], {}, Nothing)
    requires IsRun(Start(progs, disk), turns, m)
    ensures Unique(m.disk) && Foreign(m.disk) == Foreign(disk)
  {
    StartInv(GoodUpdate(id), progs, disk);
    RunInv(GoodUpdate(id), disk, Start(progs, disk), turns, m);
    ReplayKeepsOneLeasePerBranch(id, disk, m.log);
    ReplayKeepsForeignLeases(disk, m.log);
  }

  /** A branch operation somebody asks for, with whatever pin its files hold. */
  datatype Operation =
    | Ensure(isProtected: bool, pin: Pin, endpoint: Endpoint, database: string, times: nat -> int)
    | Reset(pin: Pin, endpoint: Endpoint, database: string, now: int)
    | Remove(pin: Pin, branch: string, databases: nat, database: string)
    | SetExpiry(pin: Pin, expiresAt: int, now: int)
    | PruneExpired(project: string, currentId: string, olderThan: int, now: int, databases: nat)

  function ProgramOf(o: Operation): Prog {
    match o
    case Ensure(isProtected, pin, endpoint, database, times) =>
      EnsureBranch(isProtected, pin, endpoint, OperationLock(database), times)
    case Reset(pin, endpoint, database, now) => ResetBranch(pin, endpoint, OperationLock(database), now)
    case Remove(pin, branch, databases, database) => DeleteBranch(pin, branch, databases, OperationLock(database))
    case SetExpiry(pin, expiresAt, now) => ExpireBranch(pin, expiresAt, now)
    case PruneExpired(project, currentId, olderThan, now, databases) =>
      PruneBranches(project, currentId, olderThan, now, databases)
  }

  /** A predicate that holds of every update the operation writes. */
  ghost predicate Admits(good: Update -> bool, o: Operation) {
    match o
    case Ensure(_, pin, _, _, _) => GoodPin(good, pin)
    case Reset(pin, _, _, _) => GoodPin(good, pin)
    case Remove(pin, branch, _, _) => good(Delete(pin, branch))
    case SetExpiry(pin, expiresAt, now) => good(Expire(pin, expiresAt, now))
    case PruneExpired(project, currentId, olderThan, now, _) => good(Prune(project, currentId, olderThan, now))
  }

  lemma AdmittedIsDisciplined(good: Update -> bool, o: Operation)
    requires Admits(good, o)
    ensures Disciplined(good, ProgramOf(o), {}, Nothing)
  {
    match o
    case Ensure(isProtected, pin, endpoint, database, times) =>
      EnsureBranchIsDisciplined(good, isProtected, pin, endpoint, OperationLock(database), times);
    case Reset(pin, endpoint, database, now) =>
      ResetBranchIsDisciplined(good, pin, endpoint, OperationLock(database), now);
    case Remove(pin, branch, databases, database) =>
      DeleteBranchIsDisciplined(good, pin, branch, databases, OperationLock(database));
    case SetExpiry(pin, expiresAt, now) => ExpireBranchIsDisciplined(good, pin, expiresAt, now);
    case PruneExpired(project, currentId, olderThan, now, databases) =>
      PruneBranchesIsDisciplined(good, project, currentId, olderThan, now, databases);
  }

  function AnyUpdate(): Update -> bool {
    (u: Update) => true
  }

  /** Every branch operation, with whatever pin, keeps the discipline on every path through it. */
  lemma OperationsAreDisciplined(o: Operation)
    ensures Disciplined(AnyUpdate(), ProgramOf(o), {}, Nothing)
  {
    AdmittedIsDisciplined(AnyUpdate(), o);
  }

  function ProgramsOf(os: seq<Operation>): (progs: seq<Prog>)
    ensures |progs| == |os| && forall i :: 0 <= i < |os| ==> progs[i] == ProgramOf(os[i])
  {
    seq(|os|, i requires 0 <= i < |os| => ProgramOf(os[i]))
  }

  /** Any branch operations with any pins, run by any number of processes from any registry, in any
      interleaving and with any failures: the registry is the serial outcome of the logged updates,
      no foreign lease is altered or removed, there is one lease per branch at all times exactly when
      every upsert written found its branch free, no order check trips, nobody deadlocks, a finished
      process holds no lock, and everybody can still finish. */
  lemma BranchOperationsAreSafe(os: seq<Operation>, disk: seq<Lease>, turns: seq<Turn>, m: Machine, i: nat, c: seq<nat>)
    requires IsRun(Start(ProgramsOf(os), disk), turns, m)
    ensures Replay(disk, m.log) == Some(m.disk)
    ensures multiset(Foreign(disk)) <= multiset(Foreign(m.disk))
    ensures Unique(disk) ==> (UniqueThroughout(disk, m.log) <==> FreeThroughout(disk, m.log))
    ensures !Enabled(m, i, Refused)
    ensures !L.IsCycle(m.locks, c)
    ensures i < |m.workers| && m.workers[i].prog.Done? ==> forall l :: l in m.locks.owner ==> m.locks.owner[l] != i
    ensures exists more, n :: IsRun(m, more, n) && AllFinished(n)
  {
    var good, progs := AnyUpdate(), ProgramsOf(os);
    forall k | 0 <= k < |progs|
      ensures Disciplined(good, progs[k], {}, Nothing)
    {
      OperationsAreDisciplined(os[k]);
    }
    RegistryOverWholeRuns(good, progs, disk, turns, m);
    StartInv(good, progs, disk);
    RunInv(good, disk, Start(progs, disk), turns, m);
    NeverRefused(good, disk, m, i);
    NoDeadlock(good, disk, m, c);
    if i < |m.workers| && m.workers[i].prog.Done? {
      FinishedHoldsNothing(good, disk, m, i);
    }
    var more, n := EveryoneCanFinish(good, disk, m);
  }

  /** An operation whose pin scenery built. */
  predicate SceneryPin(id: (string, string) -> string, o: Operation) {
    o.Ensure? || o.Reset? ==> OwnedPin(o.pin) && PinIdOk(id, o.pin)
  }

  /** With pins that scenery built, moreover: one lease per branch, and the foreign leases are the same
      sequence as before. */
  lemma OwnOperationsAreSafe(id: (string, string) -> string, os: seq<Operation>, disk: seq<Lease>,
                             turns: seq<Turn>, m: Machine)
    requires IdFunction(id) && IdsOk(id, disk) && Unique(disk)
    requires forall k :: 0 <= k < |os| ==> SceneryPin(id, os[k])
    requires IsRun(Start(ProgramsOf(os), disk), turns, m)
    ensures Unique(m.disk) && Foreign(m.disk) == Foreign(disk)
  {
    forall k | 0 <= k < |os|
      ensures Disciplined(GoodUpdate(id), ProgramsOf(os)[k], {}, Nothing)
    {
      AdmittedIsDisciplined(GoodUpdate(id), os[k]);
    }
    OwnRegistryOverWholeRuns(id, ProgramsOf(os), disk, turns, m);
  }
}
