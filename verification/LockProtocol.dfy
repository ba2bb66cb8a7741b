/** N processes taking named file locks: each process is single threaded and asks its own
    held-lock guard before it waits for the operating system. */
module LockProtocol {

  /** A named lock; a name stands for its sanitised file name. */
  datatype Lock = Substrate(kind: string) | Operation(database: string) | Registry

  function Order(l: Lock): int {
    match l
    case Substrate(_) => 10
    case Operation(_) => 15
    case Registry => 20
  }

  /** Substrate locks come before operation locks, and these before the registry lock. */
  lemma OrdersAre(kind: string, database: string)
    ensures Order(Substrate(kind)) == 10 && Order(Operation(database)) == 15 && Order(Registry) == 20
  {
  }

  /** Where a process stands inside an acquire or a release. Locking the file and marking it
      held are separate steps, and so are unmarking and unlocking. */
  datatype Pc = Idle | Waiting(l: Lock) | Marking(l: Lock) | Unlocking(l: Lock)

  datatype Proc = Proc(held: set<Lock>, pc: Pc)

  /** `owner` is the operating system's view, `held` each process's own. */
  datatype State = State(owner: map<Lock, nat>, procs: seq<Proc>)

  /** The order check: not already held, and nothing of a higher order held. */
  predicate Guard(held: set<Lock>, l: Lock) {
    l !in held && forall h :: h in held ==> Order(h) <= Order(l)
  }

  datatype Event =
    | Request(l: Lock)
    | Grant
    | Mark
    | GiveUp
    | Unmark(l: Lock)
    | Unlock
    | Exit

  function Set(s: State, i: nat, p: Proc): State
    requires i < |s.procs|
  {
    s.(procs := s.procs[i := p])
  }

  predicate Enabled(s: State, i: nat, e: Event) {
    && i < |s.procs|
    && var p := s.procs[i];
       match e
       case Request(l) => p.pc.Idle? && Guard(p.held, l)
       case Grant => p.pc.Waiting? && p.pc.l !in s.owner
       case Mark => p.pc.Marking?
       case GiveUp => p.pc.Waiting?
       case Unmark(l) => p.pc.Idle? && l in p.held
       case Unlock => p.pc.Unlocking?
       case Exit => true
  }

  function Step(s: State, i: nat, e: Event): State
    requires Enabled(s, i, e)
  {
    var p := s.procs[i];
    match e
    case Request(l) => Set(s, i, p.(pc := Waiting(l)))
    case Grant => Set(s, i, p.(pc := Marking(p.pc.l))).(owner := s.owner[p.pc.l := i])
    case Mark => Set(s, i, Proc(p.held + {p.pc.l}, Idle))
    case GiveUp => Set(s, i, p.(pc := Idle))
    case Unmark(l) => Set(s, i, Proc(p.held - {l}, Unlocking(l)))
    case Unlock => Set(s, i, p.(pc := Idle)).(owner := s.owner - {p.pc.l})
    case Exit => Set(s, i, Proc({}, Idle)).(owner := map l | l in s.owner && s.owner[l] != i :: s.owner[l])
  }

  function Init(n: nat): State {
    State(map[], seq(n, _ => Proc({}, Idle)))
  }

  // ----- the invariant of every run

  /** The files a process has locked. */
  function Owned(p: Proc): set<Lock> {
    p.held + (if p.pc.Marking? || p.pc.Unlocking? then {p.pc.l} else {})
  }

  ghost predicate ProcInv(p: Proc) {
    match p.pc
    case Idle => true
    case Waiting(l) => Guard(p.held, l)
    case Marking(l) => Guard(p.held, l)
    case Unlocking(l) => l !in p.held
  }

  ghost predicate Inv(s: State) {
    && (forall i :: 0 <= i < |s.procs| ==> ProcInv(s.procs[i]))
    && (forall l :: l in s.owner ==> s.owner[l] < |s.procs| && l in Owned(s.procs[s.owner[l]]))
    && (forall i, l :: 0 <= i < |s.procs| && l in Owned(s.procs[i]) ==> l in s.owner && s.owner[l] == i)
  }

  lemma InitInv(n: nat)
    ensures Inv(Init(n))
  {
  }

  lemma StepInv(s: State, i: nat, e: Event)
    requires Inv(s) && Enabled(s, i, e)
    ensures Inv(Step(s, i, e))
  {
    var t := Step(s, i, e);
    assert forall j :: 0 <= j < |s.procs| && j != i ==> t.procs[j] == s.procs[j];
    StepOwner(s, i, e);
    StepOthers(s, i, e);
  }

  /** The process that moves: it owns what the operating system says, and its guard holds. */
  lemma StepOwner(s: State, i: nat, e: Event)
    requires Inv(s) && Enabled(s, i, e)
    ensures var t := Step(s, i, e);
            ProcInv(t.procs[i]) && forall l :: l in Owned(t.procs[i]) <==> l in t.owner && t.owner[l] == i
  {
    assert ProcInv(s.procs[i]);
    assert forall l :: l in Owned(s.procs[i]) <==> l in s.owner && s.owner[l] == i;
  }

  /** What belongs to other processes stays theirs. */
  lemma StepOthers(s: State, i: nat, e: Event)
    requires Inv(s) && Enabled(s, i, e)
    ensures var t := Step(s, i, e);
            && (forall l :: l in s.owner && s.owner[l] != i ==> l in t.owner && t.owner[l] == s.owner[l])
            && (forall l :: l in t.owner && t.owner[l] != i ==> l in s.owner && t.owner[l] == s.owner[l])
  {
    assert forall l :: l in Owned(s.procs[i]) ==> l in s.owner && s.owner[l] == i;
  }

  datatype Turn = Turn(pid: nat, event: Event)

  /** The state after a run, when every turn in it was enabled. */
  ghost predicate IsRun(s: State, turns: seq<Turn>, t: State)
    decreases |turns|
  {
    if turns == [] then s == t
    else Enabled(s, turns[0].pid, turns[0].event) && IsRun(Step(s, turns[0].pid, turns[0].event), turns[1..], t)
  }

  lemma {:induction false} RunInv(s: State, turns: seq<Turn>, t: State)
    requires Inv(s) && IsRun(s, turns, t)
    ensures Inv(t)
    decreases |turns|
  {
    if turns == [] {
    } else {
      StepInv(s, turns[0].pid, turns[0].event);
      RunInv(Step(s, turns[0].pid, turns[0].event), turns[1..], t);
    }
  }

  // ----- waiting

  predicate WaitsFor(s: State, i: nat, j: nat) {
    && i < |s.procs| && s.procs[i].pc.Waiting?
    && s.procs[i].pc.l in s.owner && s.owner[s.procs[i].pc.l] == j
  }

  ghost predicate IsCycle(s: State, c: seq<nat>) {
    c != [] && forall k :: 0 <= k < |c| ==> WaitsFor(s, c[k], c[if k + 1 == |c| then 0 else k + 1])
  }

  /** The lock each member of a cycle waits for. */
  function Awaited(s: State, i: nat): Lock
    requires i < |s.procs| && s.procs[i].pc.Waiting?
  {
    s.procs[i].pc.l
  }

  /** A process never waits for a lock it holds itself. */
  lemma NeverWaitsForItself(s: State, i: nat)
    requires Inv(s)
    ensures !WaitsFor(s, i, i)
  {
  }

  /** Waiting goes up the lock order. */
  lemma WaitingGoesUp(s: State, i: nat, j: nat)
    requires Inv(s) && WaitsFor(s, i, j) && j < |s.procs| && s.procs[j].pc.Waiting?
    ensures Awaited(s, i) in s.procs[j].held && Order(Awaited(s, i)) <= Order(Awaited(s, j))
  {
    assert Awaited(s, i) in Owned(s.procs[j]);
  }

  lemma CycleMember(s: State, c: seq<nat>, k: nat)
    requires IsCycle(s, c) && k < |c|
    ensures c[k] < |s.procs| && s.procs[c[k]].pc.Waiting?
  {
    assert WaitsFor(s, c[k], c[if k + 1 == |c| then 0 else k + 1]);
  }

  lemma {:induction false} OrdersRise(s: State, c: seq<nat>, j: nat, k: nat)
    requires Inv(s) && IsCycle(s, c) && j <= k < |c|
    ensures forall m :: 0 <= m < |c| ==> c[m] < |s.procs| && s.procs[c[m]].pc.Waiting?
    ensures Order(Awaited(s, c[j])) <= Order(Awaited(s, c[k]))
    decreases k - j
  {
    forall m | 0 <= m < |c|
      ensures c[m] < |s.procs| && s.procs[c[m]].pc.Waiting?
    {
      CycleMember(s, c, m);
    }
    if j < k {
      OrdersRise(s, c, j, k - 1);
      assert WaitsFor(s, c[k - 1], c[if k - 1 + 1 == |c| then 0 else k - 1 + 1]);
      WaitingGoesUp(s, c[k - 1], c[k]);
    }
  }

  /** In every reachable state, all the locks of a wait-for cycle have one order. */
  lemma CycleHasOneOrder(s: State, c: seq<nat>, j: nat, k: nat)
    requires Inv(s) && IsCycle(s, c) && j < |c| && k < |c|
    ensures c[j] < |s.procs| && s.procs[c[j]].pc.Waiting? && c[k] < |s.procs| && s.procs[c[k]].pc.Waiting?
    ensures Order(Awaited(s, c[j])) == Order(Awaited(s, c[k]))
  {
    var n := |c| - 1;
    OrdersRise(s, c, 0, j);
    OrdersRise(s, c, j, n);
    OrdersRise(s, c, 0, k);
    OrdersRise(s, c, k, n);
    assert WaitsFor(s, c[n], c[if n + 1 == |c| then 0 else n + 1]);
    WaitingGoesUp(s, c[n], c[0]);
  }

  /** Counting the lock it waits for, every process has at most one lock of each order. */
  ghost predicate OnePerOrder(s: State) {
    forall i, h :: 0 <= i < |s.procs| && s.procs[i].pc.Waiting? && h in s.procs[i].held ==>
      Order(h) != Order(s.procs[i].pc.l)
  }

  /** Then there is no wait-for cycle at all. */
  lemma NoCycleWithOnePerOrder(s: State, c: seq<nat>)
    requires Inv(s) && OnePerOrder(s)
    ensures !IsCycle(s, c)
  {
    if IsCycle(s, c) {
      var n := |c| - 1;
      CycleHasOneOrder(s, c, 0, n);
      assert WaitsFor(s, c[n], c[if n + 1 == |c| then 0 else n + 1]);
      WaitingGoesUp(s, c[n], c[0]);
    }
  }

  /** A process that can go on without waiting: not waiting, or waiting for a free lock. */
  predicate CanGoOn(s: State, i: nat) {
    i < |s.procs| && (s.procs[i].pc.Waiting? ==> s.procs[i].pc.l !in s.owner)
  }

  /** And some process can always go on: a waiting process of the highest order waits for a free
      lock or for a process that does not wait. */
  lemma {:induction false} SomeoneGoesOn(s: State, i: nat) returns (j: nat)
    requires Inv(s) && OnePerOrder(s) && i < |s.procs|
    ensures CanGoOn(s, j)
    decreases if s.procs[i].pc.Waiting? then 30 - Order(s.procs[i].pc.l) else 0
  {
    if CanGoOn(s, i) {
      return i;
    }
    var owner := s.owner[s.procs[i].pc.l];
    assert WaitsFor(s, i, owner);
    if s.procs[owner].pc.Waiting? {
      WaitingGoesUp(s, i, owner);
      j := SomeoneGoesOn(s, owner);
    } else {
      j := owner;
    }
  }

  lemma RunCons(s: State, i: nat, e: Event, turns: seq<Turn>, t: State)
    requires Enabled(s, i, e) && IsRun(Step(s, i, e), turns, t)
    ensures IsRun(s, [Turn(i, e)] + turns, t)
  {
    assert ([Turn(i, e)] + turns)[1..] == turns;
  }

  // ----- which sets of locks are free of deadlock

  /** The processes of the run ask for no locks outside `u`. */
  ghost predicate AsksWithin(turns: seq<Turn>, u: iset<Lock>) {
    forall k :: 0 <= k < |turns| && turns[k].event.Request? ==> turns[k].event.l in u
  }

  ghost predicate StaysWithin(p: Proc, u: iset<Lock>) {
    (forall h :: h in p.held ==> h in u) && (!p.pc.Idle? ==> p.pc.l in u)
  }

  lemma {:induction false} RunStaysWithin(s: State, turns: seq<Turn>, t: State, u: iset<Lock>)
    requires IsRun(s, turns, t) && AsksWithin(turns, u) && forall i :: 0 <= i < |s.procs| ==> StaysWithin(s.procs[i], u)
    ensures forall i :: 0 <= i < |t.procs| ==> StaysWithin(t.procs[i], u)
    decreases |turns|
  {
    if turns == [] {
    } else {
      var next := Step(s, turns[0].pid, turns[0].event);
      assert forall j :: 0 <= j < |s.procs| && j != turns[0].pid ==> next.procs[j] == s.procs[j];
      assert StaysWithin(s.procs[turns[0].pid], u);
      RunStaysWithin(next, turns[1..], t, u);
    }
  }

  /** `all` is a run from `s` to `t` that asks for nothing outside `u`. */
  ghost predicate IsRunWithin(s: State, all: seq<Turn>, t: State, u: iset<Lock>) {
    IsRun(s, all, t) && AsksWithin(all, u)
  }

  lemma AskFirst(s: State, i: nat, l: Lock, turns: seq<Turn>, t: State, u: iset<Lock>)
    requires Enabled(s, i, Request(l)) && l in u && IsRunWithin(Step(s, i, Request(l)), turns, t, u)
    ensures IsRunWithin(s, [Turn(i, Request(l))] + turns, t, u)
  {
    RunCons(s, i, Request(l), turns, t);
  }

  lemma TakeLock(s: State, i: nat, l: Lock, turns: seq<Turn>, t: State, u: iset<Lock>) returns (all: seq<Turn>)
    requires i < |s.procs| && s.procs[i].pc.Idle? && Guard(s.procs[i].held, l) && l !in s.owner && l in u
    requires IsRunWithin(State(s.owner[l := i], s.procs[i := Proc(s.procs[i].held + {l}, Idle)]), turns, t, u)
    ensures IsRunWithin(s, all, t, u)
  {
    var s1 := Step(s, i, Request(l));
    var s2 := Step(s1, i, Grant);
    assert Step(s2, i, Mark).procs == s.procs[i := Proc(s.procs[i].held + {l}, Idle)];
    RunCons(s2, i, Mark, turns, t);
    RunCons(s1, i, Grant, [Turn(i, Mark)] + turns, t);
    AskFirst(s, i, l, [Turn(i, Grant)] + ([Turn(i, Mark)] + turns), t, u);
    all := [Turn(i, Request(l))] + ([Turn(i, Grant)] + ([Turn(i, Mark)] + turns));
  }

  /** Two processes can deadlock on two locks of one order (until one gives up): the guard admits a
      second lock of the same order. */
  lemma TwoOperationsCanDeadlock(a: Lock, b: Lock, u: iset<Lock>)
    requires a != b && Order(a) == Order(b) && a in u && b in u
    ensures exists turns, t :: IsRunWithin(Init(2), turns, t, u) && IsCycle(t, [0, 1])
  {
    var nobody, hasA, hasB := Proc({}, Idle), Proc({a}, Idle), Proc({b}, Idle);
    var s0 := Init(2);
    assert s0 == State(map[], [nobody, nobody]);
    var s1 := State(map[a := 0], [hasA, nobody]);
    var s2 := State(map[a := 0, b := 1], [hasA, hasB]);
    var s3 := State(s2.owner, [Proc({a}, Waiting(b)), hasB]);
    var s4 := State(s2.owner, [Proc({a}, Waiting(b)), Proc({b}, Waiting(a))]);
    assert IsRunWithin(s4, [], s4, u);
    assert Step(s3, 1, Request(a)) == s4;
    AskFirst(s3, 1, a, [], s4, u);
    assert Step(s2, 0, Request(b)) == s3;
    AskFirst(s2, 0, b, [Turn(1, Request(a))] + [], s4, u);
    assert {} + {b} == {b} && {} + {a} == {a};
    assert s2 == State(s1.owner[b := 1], s1.procs[1 := Proc(s1.procs[1].held + {b}, Idle)]);
    var fromS1 := TakeLock(s1, 1, b, [Turn(0, Request(b))] + ([Turn(1, Request(a))] + []), s4, u);
    assert s1 == State(s0.owner[a := 0], s0.procs[0 := Proc(s0.procs[0].held + {a}, Idle)]);
    var fromS0 := TakeLock(s0, 0, a, fromS1, s4, u);
    assert WaitsFor(s4, 0, 1) && WaitsFor(s4, 1, 0);
    var c := [0, 1];
    assert IsCycle(s4, c);
  }

  /** No number of processes that ask only for locks of `u` ever gets into a wait-for cycle. */
  ghost predicate NeverCycles(u: iset<Lock>) {
    forall n, turns, t, c :: IsRunWithin(Init(n), turns, t, u) ==> !IsCycle(t, c)
  }

  ghost predicate DistinctOrders(u: iset<Lock>) {
    forall a, b :: a in u && b in u && Order(a) == Order(b) ==> a == b
  }

  lemma DistinctOrdersNeverCycle(u: iset<Lock>, n: nat, turns: seq<Turn>, t: State, c: seq<nat>)
    requires DistinctOrders(u) && IsRunWithin(Init(n), turns, t, u)
    ensures !IsCycle(t, c)
  {
    InitInv(n);
    RunInv(Init(n), turns, t);
    RunStaysWithin(Init(n), turns, t, u);
    forall i, h | 0 <= i < |t.procs| && t.procs[i].pc.Waiting? && h in t.procs[i].held
      ensures Order(h) != Order(t.procs[i].pc.l)
    {
      assert StaysWithin(t.procs[i], u) && ProcInv(t.procs[i]);
    }
    NoCycleWithOnePerOrder(t, c);
  }

  /** Exactly which sets of locks cannot deadlock, whatever the processes do with them: those in
      which no two locks have the same order. */
  lemma DeadlockFreeExactly(u: iset<Lock>)
    ensures NeverCycles(u) <==> DistinctOrders(u)
  {
    if DistinctOrders(u) {
      forall n, turns, t, c | IsRunWithin(Init(n), turns, t, u)
        ensures !IsCycle(t, c)
      {
        DistinctOrdersNeverCycle(u, n, turns, t, c);
      }
    }
    forall a, b | NeverCycles(u) && a in u && b in u && Order(a) == Order(b)
      ensures a == b
    {
      if a != b {
        TwoOperationsCanDeadlock(a, b, u);
      }
    }
  }
}
