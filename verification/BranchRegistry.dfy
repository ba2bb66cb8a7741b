/** The registry of database branch leases and the four updates of it. */
module BranchRegistry {
  import opened Text
  import opened Calendar

  /** A worktree's pin: which project and branch it uses. `ttl` is the parsed time to live in
      nanoseconds, absent when the text does not parse or is not positive. */
  datatype Pin = Pin(
    provider: string, createdBy: string, project: string, branch: string, branchId: string,
    database: string, ttl: Option<nat>)

  datatype Endpoint = Endpoint(host: string, port: int, database: string, role: string)

  /** A timestamp field: empty, only white space, not RFC 3339, or a whole second. */
  datatype Stamp = Empty | Blank | Malformed | At(second: int)

  datatype Lease = Lease(
    pin: Pin, status: string, endpoint: Option<Endpoint>, createdAt: Stamp, updatedAt: Stamp, expiresAt: Stamp)

  function Format(now: int): Stamp {
    At(now / NANOS_PER_SECOND)
  }

  // ----- which lease belongs to which branch

  predicate SameBranch(a: Pin, b: Pin) {
    a.project == b.project && a.branch == b.branch
  }

  predicate SameLease(a: Pin, b: Pin) {
    if a.branchId != "" && b.branchId != "" then a.branchId == b.branchId else SameBranch(a, b)
  }

  predicate Covers(a: Pin, b: Pin) {
    SameLease(a, b) || SameBranch(a, b)
  }

  predicate OwnedPin(p: Pin) {
    p.provider == "postgres" && p.createdBy == "scenery"
  }

  predicate Owned(l: Lease) {
    OwnedPin(l.pin)
  }

  // ----- expiry

  function ExpiresAt(now: int, ttl: Option<nat>): Stamp {
    if ttl.None? || ttl.value == 0 then Empty else Format(now + ttl.value)
  }

  predicate Expired(l: Lease, now: int) {
    l.expiresAt.At? && l.expiresAt.second * NANOS_PER_SECOND <= now
  }

  predicate ShouldPrune(l: Lease, now: int, olderThan: int) {
    if !Expired(l, now) then false
    else if olderThan <= 0 then true
    else
      var stamp := if l.updatedAt.Empty? || l.updatedAt.Blank? then l.createdAt else l.updatedAt;
      stamp.At? ==> stamp.second * NANOS_PER_SECOND < now - olderThan
  }

  predicate Prunable(l: Lease, project: string, currentId: string, now: int, olderThan: int) {
    Owned(l) && l.pin.project == project && l.pin.branchId != currentId && ShouldPrune(l, now, olderThan)
  }

  predicate DeleteMatches(l: Lease, current: Pin, branch: string) {
    l.pin.branch == branch && TrimSpace(current.project) != "" && l.pin.project == current.project
  }

  /** The leases that a prune and a delete drop. */
  function Prunes(project: string, currentId: string, olderThan: int, now: int): Lease -> bool {
    l => Prunable(l, project, currentId, now, olderThan)
  }

  function Deletes(pin: Pin, branch: string): Lease -> bool {
    l => Owned(l) && DeleteMatches(l, pin, branch)
  }

  // ----- the updates as functions of the leases

  datatype Update =
    | Upsert(pin: Pin, endpoint: Option<Endpoint>, status: string, now: int)
    | Expire(pin: Pin, expiresAt: int, now: int)
    | Prune(project: string, currentId: string, olderThan: int, now: int)
    | Delete(pin: Pin, branch: string)

  function FirstCovered(leases: seq<Lease>, pin: Pin): (i: nat)
    ensures i <= |leases| && (i < |leases| ==> Covers(leases[i].pin, pin))
    ensures forall j :: 0 <= j < i ==> !Covers(leases[j].pin, pin)
  {
    if leases == [] || Covers(leases[0].pin, pin) then 0 else 1 + FirstCovered(leases[1..], pin)
  }

  function StatusOr(status: string): string {
    var s := TrimSpace(status);
    if s == "" then "pending" else s
  }

  function Renewed(old_: Lease, pin: Pin, endpoint: Option<Endpoint>, status: string, now: int): Lease {
    Lease(pin, StatusOr(status),
          if endpoint.None? then old_.endpoint else endpoint,
          if old_.createdAt.Empty? then Format(now) else old_.createdAt,
          Format(now), ExpiresAt(now, pin.ttl))
  }

  function NewLease(pin: Pin, endpoint: Option<Endpoint>, status: string, now: int): Lease {
    Lease(pin, StatusOr(status), endpoint, Format(now), Format(now), ExpiresAt(now, pin.ttl))
  }

  function Keep(leases: seq<Lease>, drop: Lease -> bool): (kept: seq<Lease>)
    ensures |kept| <= |leases|
  {
    if leases == [] then []
    else
      var n := |leases| - 1;
      if drop(leases[n]) then Keep(leases[..n], drop) else Keep(leases[..n], drop) + [leases[n]]
  }

  function Expiring(l: Lease, pin: Pin, expiresAt: int, now: int): Lease {
    if Owned(l) && Covers(l.pin, pin) then l.(expiresAt := Format(expiresAt), updatedAt := Format(now)) else l
  }

  /** The leases after an update, or nothing when the update is refused. */
  function Apply(u: Update, leases: seq<Lease>): Option<seq<Lease>> {
    match u
    case Upsert(pin, endpoint, status, now) =>
      var i := FirstCovered(leases, pin);
      if i == |leases| then Some(leases + [NewLease(pin, endpoint, status, now)])
      else if !Owned(leases[i]) then None
      else Some(leases[i := Renewed(leases[i], pin, endpoint, status, now)])
    case Expire(pin, expiresAt, now) =>
      if exists i :: 0 <= i < |leases| && Owned(leases[i]) && Covers(leases[i].pin, pin)
      then Some(seq(|leases|, i requires 0 <= i < |leases| => Expiring(leases[i], pin, expiresAt, now)))
      else None
    case Prune(project, currentId, olderThan, now) =>
      Some(Keep(leases, Prunes(project, currentId, olderThan, now)))
    case Delete(pin, branch) =>
      var drop := Deletes(pin, branch);
      if exists i :: 0 <= i < |leases| && drop(leases[i]) then Some(Keep(leases, drop)) else None
  }

  // ----- the updates as the source runs them, on the registry read into memory

  class RegistryFile {
    var leases: seq<Lease>

    constructor (read: seq<Lease>)
      ensures leases == read
    {
      leases := read;
    }

    method UpsertLease(pin: Pin, endpoint: Option<Endpoint>, status: string, now: int) returns (ok: bool)
      modifies this
      ensures match Apply(Upsert(pin, endpoint, status, now), old(leases))
              case Some(after) => ok && leases == after
              case None => !ok && leases == old(leases)
    {
      var i := 0;
      while i < |leases|
        invariant 0 <= i <= |leases| && leases == old(leases)
        invariant forall j :: 0 <= j < i ==> !Covers(leases[j].pin, pin)
      {
        if SameLease(leases[i].pin, pin) || SameBranch(leases[i].pin, pin) {
          assert FirstCovered(leases, pin) == i;
          if !Owned(leases[i]) {
            return false;
          }
          var createdAt := leases[i].createdAt;
          if createdAt == Empty {
            createdAt := Format(now);
          }
          var kept := endpoint;
          if kept == None {
            kept := leases[i].endpoint;
          }
          leases := leases[i := Lease(pin, StatusOr(status), kept, createdAt, Format(now), ExpiresAt(now, pin.ttl))];
          return true;
        }
        i := i + 1;
      }
      leases := leases + [NewLease(pin, endpoint, status, now)];
      return true;
    }

    method ExpireLease(pin: Pin, expiresAt: int, now: int) returns (found: bool)
      modifies this
      ensures match Apply(Expire(pin, expiresAt, now), old(leases))
              case Some(after) => found && leases == after
              case None => !found && leases == old(leases)
    {
      found := false;
      var i := 0;
      while i < |leases|
        invariant 0 <= i <= |leases| && |leases| == |old(leases)|
        invariant forall j :: 0 <= j < i ==> leases[j] == Expiring(old(leases)[j], pin, expiresAt, now)
        invariant forall j :: i <= j < |leases| ==> leases[j] == old(leases)[j]
        invariant found <==> exists j :: 0 <= j < i && Owned(old(leases)[j]) && Covers(old(leases)[j].pin, pin)
      {
        if Owned(leases[i]) && (SameLease(leases[i].pin, pin) || SameBranch(leases[i].pin, pin)) {
          leases := leases[i := leases[i].(expiresAt := Format(expiresAt), updatedAt := Format(now))];
          found := true;
        }
        i := i + 1;
      }
      if !found {
        assert leases == old(leases);
      }
    }

    /** Rebuilds the list without the leases to drop. */
    method Rebuild(drop: Lease -> bool) returns (removed: nat)
      modifies this
      ensures leases == Keep(old(leases), drop)
      ensures removed == |old(leases)| - |leases|
      ensures removed > 0 <==> exists i :: 0 <= i < |old(leases)| && drop(old(leases)[i])
    {
      var kept: seq<Lease> := [];
      removed := 0;
      for i := 0 to |leases|
        invariant leases == old(leases)
        invariant kept == Keep(leases[..i], drop)
        invariant removed == i - |kept|
        invariant removed > 0 <==> exists j :: 0 <= j < i && drop(leases[j])
      {
        assert leases[..i + 1][..i] == leases[..i];
        if drop(leases[i]) {
          removed := removed + 1;
        } else {
          kept := kept + [leases[i]];
        }
      }
      assert leases[..|leases|] == leases;
      leases := kept;
    }

    method PruneLeases(project: string, currentId: string, olderThan: int, now: int) returns (pruned: nat)
      modifies this
      ensures Some(leases) == Apply(Prune(project, currentId, olderThan, now), old(leases))
      ensures pruned == |old(leases)| - |leases|
    {
      pruned := Rebuild(Prunes(project, currentId, olderThan, now));
    }

    method DeleteLeases(pin: Pin, branch: string) returns (ok: bool)
      modifies this
      ensures match Apply(Delete(pin, branch), old(leases))
              case Some(after) => ok && leases == after
              case None => !ok
    {
      var removed := Rebuild(Deletes(pin, branch));
      ok := removed > 0;
    }
  }

  // ----- at most one lease per branch

  /** Branch ids come from a function of project and branch that never maps two to one. */
  ghost predicate IdFunction(id: (string, string) -> string) {
    forall p, b, q, c :: id(p, b) == id(q, c) ==> p == q && b == c
  }

  predicate PinIdOk(id: (string, string) -> string, p: Pin) {
    p.branchId == "" || p.branchId == id(p.project, p.branch)
  }

  ghost predicate IdsOk(id: (string, string) -> string, leases: seq<Lease>) {
    forall i :: 0 <= i < |leases| ==> PinIdOk(id, leases[i].pin)
  }

  ghost predicate Unique(leases: seq<Lease>) {
    forall i, j :: 0 <= i < j < |leases| ==> !SameBranch(leases[i].pin, leases[j].pin)
  }

  predicate UpdateIdOk(id: (string, string) -> string, u: Update) {
    u.Upsert? ==> PinIdOk(id, u.pin)
  }

  lemma CoversIsSameBranch(id: (string, string) -> string, a: Pin, b: Pin)
    requires IdFunction(id) && PinIdOk(id, a) && PinIdOk(id, b)
    ensures Covers(a, b) <==> SameBranch(a, b)
  {
  }

  lemma {:induction false} KeepIsSublist(leases: seq<Lease>, drop: Lease -> bool) returns (f: seq<nat>)
    ensures |f| == |Keep(leases, drop)|
    ensures forall k :: 0 <= k < |f| ==> f[k] < |leases| && Keep(leases, drop)[k] == leases[f[k]] && !drop(leases[f[k]])
    ensures forall k, m :: 0 <= k < m < |f| ==> f[k] < f[m]
  {
    if leases == [] {
      f := [];
    } else {
      var n := |leases| - 1;
      f := KeepIsSublist(leases[..n], drop);
      if !drop(leases[n]) {
        f := f + [n];
      }
    }
  }

  lemma KeepKeepsUnique(leases: seq<Lease>, drop: Lease -> bool)
    requires Unique(leases)
    ensures Unique(Keep(leases, drop))
  {
    var f := KeepIsSublist(leases, drop);
    var kept := Keep(leases, drop);
    forall i, j | 0 <= i < j < |kept|
      ensures !SameBranch(kept[i].pin, kept[j].pin)
    {
      assert f[i] < f[j];
    }
  }

  /** No lease but the one an upsert would renew has the branch of its pin. */
  ghost predicate BranchIsFree(leases: seq<Lease>, pin: Pin) {
    forall j :: 0 <= j < |leases| && j != FirstCovered(leases, pin) ==> !SameBranch(leases[j].pin, pin)
  }

  lemma UpsertKeepsUniqueExactly(u: Update, leases: seq<Lease>)
    requires Unique(leases) && u.Upsert? && Apply(u, leases).Some?
    ensures Unique(Apply(u, leases).value) <==> BranchIsFree(leases, u.pin)
  {
    var k := FirstCovered(leases, u.pin);
    var after := Apply(u, leases).value;
    assert k < |after| && after[k].pin == u.pin;
    assert forall i :: 0 <= i < |leases| && i != k ==> after[i] == leases[i];
    if Unique(after) {
      forall j | 0 <= j < |leases| && j != k
        ensures !SameBranch(leases[j].pin, u.pin)
      {
        assert j < k ==> !SameBranch(after[j].pin, after[k].pin);
        assert k < j ==> !SameBranch(after[k].pin, after[j].pin);
      }
    }
  }

  /** Exactly which updates keep at most one lease per project and branch, whatever the ids: every
      expire, prune and delete, and an upsert if and only if no other lease has its branch. */
  lemma UpdateKeepsUniqueExactly(u: Update, leases: seq<Lease>)
    requires Unique(leases) && Apply(u, leases).Some?
    ensures Unique(Apply(u, leases).value) <==> (u.Upsert? ==> BranchIsFree(leases, u.pin))
  {
    match u
    case Upsert(_, _, _, _) => UpsertKeepsUniqueExactly(u, leases);
    case Expire(pin, expiresAt, now) =>
      assert forall i :: 0 <= i < |leases| ==> Apply(u, leases).value[i].pin == leases[i].pin;
    case Prune(project, currentId, olderThan, now) =>
      KeepKeepsUnique(leases, Prunes(project, currentId, olderThan, now));
    case Delete(pin, branch) =>
      KeepKeepsUnique(leases, Deletes(pin, branch));
  }

  /** Ids from an injective function are enough: the lease an upsert finds is then the only one of
      its branch. */
  lemma InjectiveIdsLeaveBranchFree(id: (string, string) -> string, leases: seq<Lease>, pin: Pin)
    requires IdFunction(id) && IdsOk(id, leases) && Unique(leases) && PinIdOk(id, pin)
    ensures BranchIsFree(leases, pin)
  {
    var k := FirstCovered(leases, pin);
    forall j | 0 <= j < |leases| {
      CoversIsSameBranch(id, leases[j].pin, pin);
    }
    forall j | 0 <= j < |leases| && j != k
      ensures !SameBranch(leases[j].pin, pin)
    {
      assert k < j ==> !SameBranch(leases[k].pin, leases[j].pin);
    }
  }

  lemma KeepKeepsIds(id: (string, string) -> string, leases: seq<Lease>, drop: Lease -> bool)
    requires IdsOk(id, leases)
    ensures IdsOk(id, Keep(leases, drop))
  {
    var f := KeepIsSublist(leases, drop);
  }

  lemma UpdateKeepsIds(id: (string, string) -> string, u: Update, leases: seq<Lease>)
    requires IdsOk(id, leases) && UpdateIdOk(id, u) && Apply(u, leases).Some?
    ensures IdsOk(id, Apply(u, leases).value)
  {
    match u
    case Upsert(_, _, _, _) =>
    case Expire(pin, expiresAt, now) =>
      assert forall i :: 0 <= i < |leases| ==> Apply(u, leases).value[i].pin == leases[i].pin;
    case Prune(project, currentId, olderThan, now) =>
      KeepKeepsIds(id, leases, Prunes(project, currentId, olderThan, now));
    case Delete(pin, branch) =>
      KeepKeepsIds(id, leases, Deletes(pin, branch));
  }

  /** With such ids every update keeps at most one lease per project and branch. */
  lemma UpdateKeepsOneLeasePerBranch(id: (string, string) -> string, u: Update, leases: seq<Lease>)
    requires IdFunction(id) && IdsOk(id, leases) && Unique(leases) && UpdateIdOk(id, u) && Apply(u, leases).Some?
    ensures IdsOk(id, Apply(u, leases).value) && Unique(Apply(u, leases).value)
  {
    UpdateKeepsUniqueExactly(u, leases);
    UpdateKeepsIds(id, u, leases);
    if u.Upsert? {
      InjectiveIdsLeaveBranchFree(id, leases, u.pin);
    }
  }

  /** The lease an upsert finds, by id or by branch, is one of the pin's own branch. */
  ghost predicate FindsOwnBranch(leases: seq<Lease>, pin: Pin) {
    var k := FirstCovered(leases, pin);
    k < |leases| ==> SameBranch(leases[k].pin, pin)
  }

  /** The lease an upsert has written. */
  function Written(u: Update, leases: seq<Lease>): (l: Lease)
    requires u.Upsert? && Apply(u, leases).Some?
    ensures l.pin == u.pin && l.status == StatusOr(u.status) && l.updatedAt == Format(u.now)
    ensures l.expiresAt == ExpiresAt(u.now, u.pin.ttl) && l in Apply(u, leases).value
  {
    Apply(u, leases).value[FirstCovered(leases, u.pin)]
  }

  /** No lease of another branch comes, goes or changes. */
  ghost predicate OthersStay(u: Update, leases: seq<Lease>)
    requires u.Upsert? && Apply(u, leases).Some?
  {
    forall l: Lease :: !SameBranch(l.pin, u.pin) ==> (l in Apply(u, leases).value <==> l in leases)
  }

  lemma OthersStayIfOwn(u: Update, leases: seq<Lease>, l: Lease)
    requires u.Upsert? && Apply(u, leases).Some? && FindsOwnBranch(leases, u.pin) && !SameBranch(l.pin, u.pin)
    ensures l in Apply(u, leases).value <==> l in leases
  {
    var k := FirstCovered(leases, u.pin);
    var after := Apply(u, leases).value;
    assert forall i :: 0 <= i < |leases| && i != k ==> after[i] == leases[i];
    if l in leases {
      var i :| 0 <= i < |leases| && leases[i] == l;
      assert after[i] == l;
    }
    if l in after {
      var i :| 0 <= i < |after| && after[i] == l;
      assert i != k;
    }
  }

  /** An accepted upsert leaves every other branch alone exactly when the lease it finds is one of
      its own branch. */
  lemma UpsertActsOnOneBranchExactly(u: Update, leases: seq<Lease>)
    requires Unique(leases) && u.Upsert? && Apply(u, leases).Some?
    ensures OthersStay(u, leases) <==> FindsOwnBranch(leases, u.pin)
  {
    var k := FirstCovered(leases, u.pin);
    var after := Apply(u, leases).value;
    if FindsOwnBranch(leases, u.pin) {
      forall l: Lease | !SameBranch(l.pin, u.pin)
        ensures l in after <==> l in leases
      {
        OthersStayIfOwn(u, leases, l);
      }
    } else {
      assert forall i :: 0 <= i < |leases| && i != k ==> after[i] == leases[i] && after[i] != leases[k];
      assert after[k] != leases[k];
      assert leases[k] in leases && leases[k] !in after;
    }
  }

  /** When no other lease had its branch, the branch then has the lease just written and no other. */
  lemma WrittenIsTheOnlyOne(u: Update, leases: seq<Lease>)
    requires u.Upsert? && Apply(u, leases).Some?
    ensures BranchIsFree(leases, u.pin) ==>
              forall l :: l in Apply(u, leases).value && SameBranch(l.pin, u.pin) ==> l == Written(u, leases)
  {
    var k := FirstCovered(leases, u.pin);
    var after := Apply(u, leases).value;
    assert forall i :: 0 <= i < |leases| && i != k ==> after[i] == leases[i];
  }

  lemma OneOfBranch(leases: seq<Lease>, pin: Pin, i: int, j: int)
    requires Unique(leases) && 0 <= i < |leases| && 0 <= j < |leases|
    requires SameBranch(leases[i].pin, pin) && SameBranch(leases[j].pin, pin)
    ensures i == j
  {
  }

  /** Injective ids find nothing but the pin's own branch. */
  lemma InjectiveIdsFindOwnBranch(id: (string, string) -> string, leases: seq<Lease>, pin: Pin)
    requires IdFunction(id) && IdsOk(id, leases) && PinIdOk(id, pin)
    ensures FindsOwnBranch(leases, pin)
  {
    var k := FirstCovered(leases, pin);
    if k < |leases| {
      CoversIsSameBranch(id, leases[k].pin, pin);
    }
  }

  ghost predicate ForeignHasBranch(leases: seq<Lease>, pin: Pin) {
    exists l :: l in leases && !Owned(l) && SameBranch(l.pin, pin)
  }

  /** Where an upsert finds nothing but its own branch, it is refused exactly when a lease of somebody
      else has the branch; otherwise it is refused exactly when the lease of another branch that it
      finds is somebody else's. */
  lemma UpsertRefusedExactly(u: Update, leases: seq<Lease>)
    requires Unique(leases) && u.Upsert?
    ensures FindsOwnBranch(leases, u.pin) ==> (Apply(u, leases).None? <==> ForeignHasBranch(leases, u.pin))
    ensures !FindsOwnBranch(leases, u.pin) ==>
              (Apply(u, leases).None? <==>
               exists i :: 0 <= i < |leases| && !Owned(leases[i]) && leases[i].pin.branchId == u.pin.branchId != "" &&
                           forall j :: 0 <= j < i ==> !Covers(leases[j].pin, u.pin))
  {
    var k := FirstCovered(leases, u.pin);
    if FindsOwnBranch(leases, u.pin) {
      if k < |leases| {
        assert leases[k] in leases;
      }
      forall l | l in leases && SameBranch(l.pin, u.pin)
        ensures k < |leases| && leases[k] == l
      {
        var i :| 0 <= i < |leases| && leases[i] == l;
        assert Covers(leases[i].pin, u.pin);
        OneOfBranch(leases, u.pin, k, i);
      }
    } else {
      forall i | 0 <= i < |leases| && leases[i].pin.branchId == u.pin.branchId != "" &&
                 forall j :: 0 <= j < i ==> !Covers(leases[j].pin, u.pin)
        ensures i == k
      {
        assert Covers(leases[i].pin, u.pin);
      }
      assert leases[k].pin.branchId == u.pin.branchId != "";
    }
  }

  /** A lease that an upsert renews keeps the time it was created and, unless the upsert brings an
      endpoint, its endpoint. */
  lemma UpsertRenews(u: Update, leases: seq<Lease>, was: Lease)
    requires Unique(leases) && u.Upsert? && Apply(u, leases).Some? && FindsOwnBranch(leases, u.pin)
    requires was in leases && SameBranch(was.pin, u.pin)
    ensures var l := Written(u, leases);
            && Owned(was) && l.createdAt == (if was.createdAt == Empty then At(u.now / 1_000_000_000) else was.createdAt)
            && l.endpoint == if u.endpoint.Some? then u.endpoint else was.endpoint
  {
    var i :| 0 <= i < |leases| && leases[i] == was;
    assert Covers(leases[i].pin, u.pin);
    OneOfBranch(leases, u.pin, i, FirstCovered(leases, u.pin));
  }

  lemma {:induction false} KeepMembers(leases: seq<Lease>, drop: Lease -> bool, l: Lease)
    ensures l in Keep(leases, drop) <==> l in leases && !drop(l)
  {
    if leases == [] {
    } else {
      var n := |leases| - 1;
      KeepMembers(leases[..n], drop, l);
      assert leases == leases[..n] + [leases[n]];
    }
  }

  /** Pruning and deleting remove exactly the owned leases they name; the current branch and
      leases that have not expired stay. */
  lemma RemovalsAreExact(u: Update, leases: seq<Lease>, l: Lease)
    requires (u.Prune? || u.Delete?) && Apply(u, leases).Some?
    ensures l in Apply(u, leases).value <==>
            l in leases && !(if u.Prune? then Prunable(l, u.project, u.currentId, u.now, u.olderThan)
                             else Owned(l) && DeleteMatches(l, u.pin, u.branch))
  {
    if u.Prune? {
      KeepMembers(leases, Prunes(u.project, u.currentId, u.olderThan, u.now), l);
    } else {
      KeepMembers(leases, Deletes(u.pin, u.branch), l);
    }
  }

  /** The lease belongs to scenery's Postgres branches. */
  ghost predicate IsScenerys(l: Lease) {
    l.pin.provider == "postgres" && l.pin.createdBy == "scenery"
  }

  ghost predicate IsOf(l: Lease, project: string, branch: string) {
    l.pin.project == project && l.pin.branch == branch
  }

  ghost predicate IsScenerysOf(l: Lease, project: string, branch: string) {
    IsScenerys(l) && IsOf(l, project, branch)
  }

  ghost predicate BothAre(leases: seq<Lease>, i: int, j: int, project: string, branch: string) {
    0 <= i < |leases| && 0 <= j < |leases| && IsOf(leases[i], project, branch) && IsOf(leases[j], project, branch)
  }

  /** Unique says that no project and branch has two leases. */
  lemma UniqueMeans(leases: seq<Lease>)
    ensures Unique(leases) <==>
            forall i, j, project, branch ::
              BothAre(leases, i, j, project, branch) ==> i == j
  {
    if !Unique(leases) {
      var i, j :| 0 <= i < j < |leases| && SameBranch(leases[i].pin, leases[j].pin);
      assert BothAre(leases, i, j, leases[i].pin.project, leases[i].pin.branch);
    }
  }

  /** When the lease was last touched: its update, or its creation when that is not written down. */
  ghost function LastTouched(l: Lease): Stamp {
    match l.updatedAt
    case Empty => l.createdAt
    case Blank => l.createdAt
    case Malformed => Malformed
    case At(_) => l.updatedAt
  }

  /** A prune in plain words: it removes the leases that are scenery's, of the project, not of the
      current branch, past their expiry, and, when an age is asked for, last touched longer ago than
      that or at no readable time. */
  lemma PruneRemoves(project: string, currentId: string, olderThan: int, now: int, leases: seq<Lease>, l: Lease)
    requires l in leases
    ensures l !in Apply(Prune(project, currentId, olderThan, now), leases).value <==>
            && IsScenerys(l) && l.pin.project == project && l.pin.branchId != currentId
            && l.expiresAt.At? && l.expiresAt.second * 1_000_000_000 <= now
            && (olderThan > 0 && LastTouched(l).At? ==> LastTouched(l).second * 1_000_000_000 + olderThan < now)
  {
    RemovalsAreExact(Prune(project, currentId, olderThan, now), leases, l);
  }

  /** A delete in plain words: it is refused when the project is blank or nothing matches; otherwise it
      removes the leases that are scenery's, of the pin's project and of the branch. */
  lemma DeleteRemoves(pin: Pin, branch: string, leases: seq<Lease>)
    ensures var after := Apply(Delete(pin, branch), leases);
            && (after.Some? <==> TrimSpace(pin.project) != "" && exists l :: l in leases && IsScenerysOf(l, pin.project, branch))
            && (after.Some? ==> forall l :: l in leases ==>
                  (l !in after.value <==> IsScenerysOf(l, pin.project, branch)))
  {
    var u := Delete(pin, branch);
    var drop := Deletes(pin, branch);
    if i :| 0 <= i < |leases| && drop(leases[i]) {
      assert leases[i] in leases;
    }
    if Apply(u, leases).Some? {
      forall l | l in leases
        ensures l !in Apply(u, leases).value <==> IsScenerysOf(l, pin.project, branch)
      {
        RemovalsAreExact(u, leases, l);
      }
    }
  }

  /** An expire in plain words: place by place, scenery's leases with the pin's id or branch get the
      expiry and the time, to the second, and keep everything else; all others stay as they are. */
  lemma ExpireSets(pin: Pin, expiresAt: int, now: int, leases: seq<Lease>, i: nat)
    requires Apply(Expire(pin, expiresAt, now), leases).Some? && i < |leases|
    ensures var after := Apply(Expire(pin, expiresAt, now), leases).value;
            && |after| == |leases| && after[i].pin == leases[i].pin && after[i].status == leases[i].status
            && after[i].endpoint == leases[i].endpoint && after[i].createdAt == leases[i].createdAt
            && if IsScenerys(leases[i]) && (IsOf(leases[i], pin.project, pin.branch) || leases[i].pin.branchId == pin.branchId != "")
               then after[i].expiresAt == At(expiresAt / 1_000_000_000) && after[i].updatedAt == At(now / 1_000_000_000)
               else after[i] == leases[i]
  {
    assert Apply(Expire(pin, expiresAt, now), leases).value[i] == Expiring(leases[i], pin, expiresAt, now);
  }

  /** A lease that an upsert creates has the endpoint given and is as old as its update; a blank status
      is pending, and the time to live is counted from now, to the second. */
  lemma UpsertCreates(u: Update, leases: seq<Lease>)
    requires u.Upsert? && forall i :: 0 <= i < |leases| ==> !Covers(leases[i].pin, u.pin)
    ensures Apply(u, leases).Some?
    ensures var l := Written(u, leases);
            && Apply(u, leases).value == leases + [l] && l.endpoint == u.endpoint
            && l.createdAt == At(u.now / 1_000_000_000) == l.updatedAt
            && (AllSpaces(u.status) ==> l.status == "pending")
            && l.expiresAt == (if u.pin.ttl.Some? && u.pin.ttl.value > 0 then At((u.now + u.pin.ttl.value) / 1_000_000_000) else Empty)
  {
    assert FirstCovered(leases, u.pin) == |leases|;
    if AllSpaces(u.status) {
      BlankIsPending(u.status);
    }
  }

  lemma BlankIsPending(status: string)
    requires AllSpaces(status)
    ensures StatusOr(status) == "pending"
  {
    TrimLeftSkips(status, |status|);
    assert status[..|status|] == status;
  }

  lemma LivingIsNotPrunable(l: Lease, now: int, ttl: Option<nat>, prune: Update)
    requires prune.Prune? && l.expiresAt == ExpiresAt(now, ttl)
    requires ttl.Some? && ttl.value > 0 ==> prune.now < (now + ttl.value) / NANOS_PER_SECOND * NANOS_PER_SECOND
    ensures !Prunable(l, prune.project, prune.currentId, prune.now, prune.olderThan)
  {
  }

  /** A lease just created or renewed survives every prune until its time to live, cut to whole
      seconds, is up; without a time to live it survives every prune. */
  lemma RenewedLeaseSurvives(u: Update, prune: Update, leases: seq<Lease>)
    requires u.Upsert? && Apply(u, leases).Some? && prune.Prune?
    requires u.pin.ttl.Some? && u.pin.ttl.value > 0 ==>
               prune.now < (u.now + u.pin.ttl.value) / NANOS_PER_SECOND * NANOS_PER_SECOND
    ensures Written(u, leases) in Apply(prune, Apply(u, leases).value).value
  {
    var l := Written(u, leases);
    LivingIsNotPrunable(l, u.now, u.pin.ttl, prune);
    RemovalsAreExact(prune, Apply(u, leases).value, l);
  }

  /** Expiring a branch and pruning its project once the expiry has passed removes every lease of
      the branch that scenery owns and that is not the current one. */
  lemma ExpiredLeaseIsPruned(expire: Update, prune: Update, leases: seq<Lease>, l: Lease)
    requires expire.Expire? && Apply(expire, leases).Some? && prune.Prune?
    requires expire.expiresAt <= prune.now && prune.olderThan <= 0
    requires l in Apply(prune, Apply(expire, leases).value).value
    ensures !(Owned(l) && Covers(l.pin, expire.pin) && l.pin.project == prune.project && l.pin.branchId != prune.currentId)
  {
    var after := Apply(expire, leases).value;
    RemovalsAreExact(prune, after, l);
    var i :| 0 <= i < |after| && after[i] == l;
    assert after[i] == Expiring(leases[i], expire.pin, expire.expiresAt, expire.now);
    assert expire.expiresAt / NANOS_PER_SECOND * NANOS_PER_SECOND <= expire.expiresAt;
  }

  /** For a branch without leases, deleting undoes an upsert exactly when the upsert created its
      lease: with an id found in another branch's lease, that lease is gone. */
  lemma DeleteUndoesCreationExactly(u: Update, leases: seq<Lease>)
    requires u.Upsert? && Apply(u, leases).Some? && OwnedPin(u.pin) && TrimSpace(u.pin.project) != ""
    requires forall i :: 0 <= i < |leases| ==> !SameBranch(leases[i].pin, u.pin)
    ensures Apply(Delete(u.pin, u.pin.branch), Apply(u, leases).value) == Some(leases) <==> FindsOwnBranch(leases, u.pin)
  {
    var k := FirstCovered(leases, u.pin);
    if k == |leases| {
      DeleteDropsLast(leases, NewLease(u.pin, u.endpoint, u.status, u.now), u.pin);
    } else {
      var after := Apply(u, leases).value;
      assert |after| == |leases|;
      DeleteShrinksTo(u.pin, u.pin.branch, after, leases);
    }
  }

  lemma DeleteShrinksTo(pin: Pin, branch: string, leases: seq<Lease>, rest: seq<Lease>)
    requires |rest| == |leases|
    ensures Apply(Delete(pin, branch), leases) != Some(rest)
  {
    var drop := Deletes(pin, branch);
    if i :| 0 <= i < |leases| && drop(leases[i]) {
      KeepDropsSome(leases, drop, i);
    }
  }

  lemma {:induction false} KeepDropsSome(leases: seq<Lease>, drop: Lease -> bool, k: nat)
    requires k < |leases| && drop(leases[k])
    ensures |Keep(leases, drop)| < |leases|
  {
    var n := |leases| - 1;
    if k < n {
      KeepDropsSome(leases[..n], drop, k);
    }
  }

  lemma DeleteDropsLast(leases: seq<Lease>, l: Lease, pin: Pin)
    requires Owned(l) && l.pin == pin && TrimSpace(pin.project) != ""
    requires forall i :: 0 <= i < |leases| ==> !SameBranch(leases[i].pin, pin)
    ensures Apply(Delete(pin, pin.branch), leases + [l]) == Some(leases)
  {
    var drop := Deletes(pin, pin.branch);
    assert drop(l) && forall i :: 0 <= i < |leases| ==> !drop(leases[i]);
    KeepDropsLast(leases, l, drop);
    assert drop((leases + [l])[|leases|]);
  }

  lemma KeepDropsLast(leases: seq<Lease>, l: Lease, drop: Lease -> bool)
    requires drop(l) && forall i :: 0 <= i < |leases| ==> !drop(leases[i])
    ensures Keep(leases + [l], drop) == leases
  {
    assert (leases + [l])[..|leases|] == leases;
    KeepAll(leases, drop);
  }

  lemma {:induction false} KeepAll(leases: seq<Lease>, drop: Lease -> bool)
    requires forall i :: 0 <= i < |leases| ==> !drop(leases[i])
    ensures Keep(leases, drop) == leases
  {
    if leases == [] {
    } else {
      var n := |leases| - 1;
      KeepAll(leases[..n], drop);
      assert leases == leases[..n] + [leases[n]];
    }
  }

  /** The condition on ids is needed: a lease found by a reused id is rewritten to the pin's
      branch even when another lease already has that branch. */
  lemma ReusedIdDuplicatesBranch(x: Lease, y: Lease, pin: Pin, now: int)
    requires Owned(x) && x.pin.branchId == pin.branchId != "" && y.pin.project == pin.project == x.pin.project
    requires y.pin.branch == pin.branch != x.pin.branch
    ensures Unique([x, y])
    ensures Apply(Upsert(pin, None, "pending", now), [x, y]).Some?
    ensures !Unique(Apply(Upsert(pin, None, "pending", now), [x, y]).value)
  {
    var leases := [x, y];
    assert Covers(leases[0].pin, pin);
    assert FirstCovered(leases, pin) == 0;
    UpsertKeepsUniqueExactly(Upsert(pin, None, "pending", now), leases);
    assert SameBranch(leases[1].pin, pin);
  }

  // ----- leases of others

  function Foreign(leases: seq<Lease>): seq<Lease> {
    Keep(leases, (l: Lease) => Owned(l))
  }

  lemma ForeignSnoc(front: seq<Lease>, x: Lease)
    ensures Foreign(front + [x]) == if Owned(x) then Foreign(front) else Foreign(front) + [x]
  {
    assert (front + [x])[..|front|] == front;
  }

  lemma {:induction false} ForeignOfKeep(leases: seq<Lease>, drop: Lease -> bool)
    requires forall l :: drop(l) ==> Owned(l)
    ensures Foreign(Keep(leases, drop)) == Foreign(leases)
  {
    if leases == [] {
    } else {
      var n := |leases| - 1;
      var front, x := leases[..n], leases[n];
      assert leases == front + [x];
      ForeignOfKeep(front, drop);
      ForeignSnoc(front, x);
      ForeignSnoc(Keep(front, drop), x);
      assert Keep(leases, drop) == if drop(x) then Keep(front, drop) else Keep(front, drop) + [x];
    }
  }

  lemma {:induction false} ForeignPointwise(a: seq<Lease>, b: seq<Lease>)
    requires |a| == |b| && forall i :: 0 <= i < |a| ==> a[i] == b[i] || (Owned(a[i]) && Owned(b[i]))
    ensures Foreign(a) == Foreign(b)
  {
    if a == [] {
    } else {
      var n := |a| - 1;
      ForeignPointwise(a[..n], b[..n]);
    }
  }

  lemma {:induction false} ForeignOfUpdateAt(leases: seq<Lease>, k: nat, l: Lease)
    requires k < |leases| && Owned(leases[k])
    ensures multiset(Foreign(leases)) <= multiset(Foreign(leases[k := l]))
  {
    var n := |leases| - 1;
    var after := leases[k := l];
    assert leases == leases[..n] + [leases[n]] && after == after[..n] + [after[n]];
    ForeignSnoc(leases[..n], leases[n]);
    ForeignSnoc(after[..n], after[n]);
    if k == n {
      assert after[..n] == leases[..n];
    } else {
      ForeignOfUpdateAt(leases[..n], k, l);
      assert after[..n] == leases[..n][k := l];
    }
  }

  /** No update changes or drops a lease that scenery does not own; when the update's own pin is
      scenery's, the foreign leases are the same sequence before and after. */
  lemma UpdateLeavesForeignLeases(u: Update, leases: seq<Lease>)
    requires Apply(u, leases).Some?
    ensures (u.Upsert? ==> OwnedPin(u.pin)) ==> Foreign(Apply(u, leases).value) == Foreign(leases)
    ensures multiset(Foreign(leases)) <= multiset(Foreign(Apply(u, leases).value))
  {
    var after := Apply(u, leases).value;
    match u
    case Upsert(pin, endpoint, status, now) =>
      var i := FirstCovered(leases, pin);
      if i == |leases| {
        assert after[..|leases|] == leases;
      } else {
        ForeignOfUpdateAt(leases, i, after[i]);
        if OwnedPin(pin) {
          ForeignPointwise(leases, after);
        }
      }
    case Expire(pin, expiresAt, now) =>
      ForeignPointwise(leases, after);
    case Prune(project, currentId, olderThan, now) =>
      ForeignOfKeep(leases, Prunes(project, currentId, olderThan, now));
    case Delete(pin, branch) =>
      ForeignOfKeep(leases, Deletes(pin, branch));
  }
}
