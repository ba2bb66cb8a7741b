/** What a branch delete drops against what it removes. It looks at the registry, lets go of its
    lock, drops the databases it saw, and then removes the leases it finds by that time. */
module BranchDeletion {
  import opened Text
  import opened BranchRegistry
  import opened BranchPrograms
  import opened BranchMachine

  /** An owned lease of the branch. */
  predicate Named(l: Lease, pin: Pin, branch: string) {
    Owned(l) && DeleteMatches(l, pin, branch)
  }

  /** A lease that stands for a database. */
  predicate HasDatabase(l: Lease) {
    l.status == "ready" && TrimSpace(l.pin.database) != ""
  }

  /** The databases that the first look finds. */
  ghost predicate Dropped(leases: seq<Lease>, pin: Pin, branch: string, database: string) {
    exists i :: 0 <= i < |leases| && Named(leases[i], pin, branch) && HasDatabase(leases[i]) && leases[i].pin.database == database
  }

  /** Some lease that the delete removes stands for a database that it has not dropped. */
  ghost predicate LeavesDatabase(first: seq<Lease>, second: seq<Lease>, pin: Pin, branch: string) {
    exists i :: 0 <= i < |second| && Orphan(first, second[i], pin, branch)
  }

  ghost predicate Orphan(first: seq<Lease>, l: Lease, pin: Pin, branch: string) {
    Named(l, pin, branch) && HasDatabase(l) && !Dropped(first, pin, branch, l.pin.database)
  }

  // ----- the updates between the two looks

  /** The file went from `a` to `b` by the updates by which the log grew. */
  ghost predicate GrewBy(a: seq<Lease>, log: seq<Update>, b: seq<Lease>, longer: seq<Update>) {
    |log| <= |longer| && longer[..|log|] == log && Replay(a, longer[|log|..]) == Some(b)
  }

  lemma StepGrows(good: Update -> bool, initial: seq<Lease>, m: Machine, i: nat, move: Move)
    requires BranchMachine.Inv(good, initial, m) && BranchMachine.Enabled(m, i, move)
    ensures var n := BranchMachine.Step(m, i, move);
            (n.log == m.log && n.disk == m.disk) || exists u :: n.log == m.log + [u] && Apply(u, m.disk) == Some(n.disk)
  {
    if move == Succeed && m.workers[i].prog.a.Write? {
      BranchMachine.WriteIsOneUpdate(good, initial, m, i);
    }
  }

  lemma GrewByOneMore(a: seq<Lease>, log: seq<Update>, u: Update, b: seq<Lease>, c: seq<Lease>, longer: seq<Update>)
    requires Apply(u, a) == Some(b) && GrewBy(b, log + [u], c, longer)
    ensures GrewBy(a, log, c, longer)
  {
    var rest := longer[|log| + 1..];
    assert longer[..|log|] == longer[..|log| + 1][..|log|] == log;
    assert longer[|log|] == longer[..|log| + 1][|log|] == u;
    assert longer[|log|..] == [u] + rest;
    ReplayCons(a, u, rest);
  }

  /** Between two states of a run the file changes by exactly the updates added to the log. */
  lemma {:induction false} BetweenTwoLooks(good: Update -> bool, initial: seq<Lease>, m: Machine, turns: seq<Turn>, n: Machine)
    requires BranchMachine.Inv(good, initial, m) && BranchMachine.IsRun(m, turns, n)
    ensures GrewBy(m.disk, m.log, n.disk, n.log)
    decreases |turns|
  {
    if turns == [] {
      assert n.log[|m.log|..] == [];
    } else {
      var next := BranchMachine.Step(m, turns[0].pid, turns[0].move);
      BranchMachine.StepInv(good, initial, m, turns[0].pid, turns[0].move);
      BetweenTwoLooks(good, initial, next, turns[1..], n);
      StepGrows(good, initial, m, turns[0].pid, turns[0].move);
      if next.log != m.log {
        var u :| next.log == m.log + [u] && Apply(u, m.disk) == Some(next.disk);
        GrewByOneMore(m.disk, m.log, u, next.disk, n.disk, n.log);
      }
    }
  }

  lemma ReplaySnoc(initial: seq<Lease>, log: seq<Update>, u: Update)
    ensures Replay(initial, log + [u]) ==
            if Replay(initial, log).None? then None else Apply(u, Replay(initial, log).value)
  {
    assert (log + [u])[..|log|] == log;
  }

  lemma {:induction false} ReplayCons(initial: seq<Lease>, u: Update, rest: seq<Update>)
    ensures Replay(initial, [u] + rest) ==
            if Apply(u, initial).None? then None else Replay(Apply(u, initial).value, rest)
  {
    if rest == [] {
      assert [u] + rest == [] + [u];
      ReplaySnoc(initial, [], u);
    } else {
      var front, last := rest[..|rest| - 1], rest[|rest| - 1];
      assert rest == front + [last] && [u] + rest == ([u] + front) + [last];
      ReplayCons(initial, u, front);
      ReplaySnoc(initial, [u] + front, last);
      if Apply(u, initial).Some? {
        ReplaySnoc(Apply(u, initial).value, front, last);
      }
    }
  }

  // ----- exactly when a database is left behind

  /** The last upsert of the branch among the updates. */
  function LastUpsert(log: seq<Update>, project: string, branch: string): Option<Update> {
    if log == [] then None
    else
      var u := log[|log| - 1];
      if u.Upsert? && u.pin.project == project && u.pin.branch == branch then Some(u)
      else LastUpsert(log[..|log| - 1], project, branch)
  }

  /** Where a lease comes from: the last upsert of its branch, or the first look. */
  ghost predicate ComesFrom(first: seq<Lease>, log: seq<Update>, l: Lease) {
    match LastUpsert(log, l.pin.project, l.pin.branch)
    case Some(u) => u.Upsert? && l.pin == u.pin && l.status == StatusOr(u.status)
    case None => exists i :: 0 <= i < |first| && first[i].pin == l.pin && first[i].status == l.status
  }

  lemma SameOrigin(first: seq<Lease>, log: seq<Update>, l: Lease, m: Lease)
    requires ComesFrom(first, log, l) && m.pin == l.pin && m.status == l.status
    ensures ComesFrom(first, log, m)
  {
  }

  /** A lease after one update: written by it, or there before with the same pin and status. */
  lemma LeaseAfterUpdate(u: Update, leases: seq<Lease>, l: Lease)
    requires Apply(u, leases).Some? && l in Apply(u, leases).value && (u.Upsert? ==> BranchIsFree(leases, u.pin))
    ensures (u.Upsert? && l == Written(u, leases)) ||
            (!(u.Upsert? && SameBranch(l.pin, u.pin)) && exists i :: 0 <= i < |leases| && leases[i].pin == l.pin && leases[i].status == l.status)
  {
    var after := Apply(u, leases).value;
    match u
    case Upsert(pin, _, _, _) =>
      WrittenIsTheOnlyOne(u, leases);
      var k := FirstCovered(leases, pin);
      var i :| 0 <= i < |after| && after[i] == l;
      assert i != k ==> i < |leases| && after[i] == leases[i];
    case Expire(pin, expiresAt, now) =>
      var i :| 0 <= i < |after| && after[i] == l;
      assert after[i] == Expiring(leases[i], pin, expiresAt, now);
    case Prune(_, _, _, _) => RemovalsAreExact(u, leases, l);
    case Delete(_, _) => RemovalsAreExact(u, leases, l);
  }

  lemma {:induction false} EveryLeaseComesFrom(first: seq<Lease>, log: seq<Update>, l: Lease)
    requires Replay(first, log).Some? && FreeThroughout(first, log) && l in Replay(first, log).value
    ensures ComesFrom(first, log, l)
  {
    if log == [] {
      var i :| 0 <= i < |first| && first[i] == l;
    } else {
      var n := |log| - 1;
      var before := Replay(first, log[..n]).value;
      LeaseAfterUpdate(log[n], before, l);
      if !(log[n].Upsert? && l == Written(log[n], before)) {
        var i :| 0 <= i < |before| && before[i].pin == l.pin && before[i].status == l.status;
        EveryLeaseComesFrom(first, log[..n], before[i]);
        SameOrigin(first, log[..n], before[i], l);
      }
    }
  }

  /** The last upsert of the branch made it ready with a database that the first look had not found. */
  ghost predicate MadeReadySince(first: seq<Lease>, log: seq<Update>, pin: Pin, branch: string) {
    var last := LastUpsert(log, pin.project, branch);
    && last.Some? && last.value.Upsert? && StatusOr(last.value.status) == "ready"
    && TrimSpace(last.value.pin.database) != "" && !Dropped(first, pin, branch, last.value.pin.database)
  }

  /** The branch still has an owned lease at the second look. */
  ghost predicate StillThere(second: seq<Lease>, pin: Pin, branch: string) {
    exists i :: 0 <= i < |second| && Named(second[i], pin, branch)
  }

  lemma OrphanIsMadeReady(first: seq<Lease>, log: seq<Update>, l: Lease, pin: Pin, branch: string)
    requires ComesFrom(first, log, l) && Named(l, pin, branch)
    ensures Orphan(first, l, pin, branch) <==> MadeReadySince(first, log, pin, branch)
  {
    if LastUpsert(log, pin.project, branch).None? {
      var i :| 0 <= i < |first| && first[i].pin == l.pin && first[i].status == l.status;
      assert HasDatabase(l) ==> Named(first[i], pin, branch) && HasDatabase(first[i]);
      assert HasDatabase(l) ==> Dropped(first, pin, branch, l.pin.database);
    }
  }

  /** Exactly when a delete removes a lease and leaves its database behind: the branch still has an
      owned lease, and the last upsert of the branch since the first look made it ready with a
      database the delete had not seen. */
  lemma DatabaseIsLeftExactly(first: seq<Lease>, log: seq<Update>, pin: Pin, branch: string)
    requires Replay(first, log).Some? && FreeThroughout(first, log)
    ensures var second := Replay(first, log).value;
            LeavesDatabase(first, second, pin, branch) <==>
            StillThere(second, pin, branch) && MadeReadySince(first, log, pin, branch)
  {
    var second := Replay(first, log).value;
    forall i | 0 <= i < |second| && Named(second[i], pin, branch)
      ensures Orphan(first, second[i], pin, branch) <==> MadeReadySince(first, log, pin, branch)
    {
      EveryLeaseComesFrom(first, log, second[i]);
      OrphanIsMadeReady(first, log, second[i], pin, branch);
    }
  }

  /** An input: a pending lease at the first look, and another process that makes the branch ready
      before the second. */
  lemma ReadyInBetween(pin: Pin, endpoint: Endpoint, now: int)
    requires OwnedPin(pin) && TrimSpace(pin.project) != "" && TrimSpace(pin.database) != ""
    ensures var first := [NewLease(pin, None, "pending", now)];
            var log := [Upsert(pin, Some(endpoint), "ready", now)];
            Replay(first, log).Some? && FreeThroughout(first, log) &&
            LeavesDatabase(first, Replay(first, log).value, pin, pin.branch)
  {
    var l := NewLease(pin, None, "pending", now);
    var first := [l];
    var u := Upsert(pin, Some(endpoint), "ready", now);
    var renewed := Renewed(l, pin, Some(endpoint), "ready", now);
    StatusesStay();
    assert FirstCovered(first, pin) == 0;
    assert first[0 := renewed] == [renewed];
    assert Apply(u, first) == Some([renewed]);
    assert [] + [u] == [u] && [u][..0] == [];
    ReplaySnoc(first, [], u);
    assert Replay(first, []) == Some(first);
    assert "ready"[0] != "pending"[0];
    assert !Dropped(first, pin, pin.branch, pin.database);
    var second := [renewed];
    assert Orphan(first, second[0], pin, pin.branch);
  }

  lemma StatusesStay()
    ensures StatusOr("ready") == "ready" && StatusOr("pending") == "pending"
  {
    TrimSpaceTrims("ready");
    TrimSpaceTrims("pending");
  }
}
