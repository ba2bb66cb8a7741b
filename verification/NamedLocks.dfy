/** The process-local guard over named file locks: order check, retry loop, mark and unmark, and
    the file names that tell the lock classes apart. */
module NamedLocks {
  import LockProtocol
  import Text

  const RETRY_MILLIS := 50
  const TIMEOUT_MILLIS := 120_000

  datatype HeldLock = HeldLock(kind: string, order: int)

  /** What one non-blocking attempt on the lock file returns. */
  datatype Attempt = Locked | Busy | Failed

  datatype AcquireResult = Acquired | RootError | OrderViolation | FileError | LockError | TimedOut

  predicate OrderOk(byPath: map<string, HeldLock>, path: string, order: int) {
    path !in byPath && forall p :: p in byPath ==> byPath[p].order <= order
  }

  /** The retry loop stops at attempt `k`: not busy any more, or the time is up. */
  ghost predicate StopsAt(attempts: nat -> Attempt, elapsed: nat -> int, k: nat) {
    && (!attempts(k).Busy? || elapsed(k) >= 2 * 60 * 1000)
    && forall j: nat :: j < k ==> attempts(j).Busy? && elapsed(j) < 2 * 60 * 1000
  }

  class HeldLocks {
    var byPath: map<string, HeldLock>

    constructor ()
      ensures byPath == map[]
    {
      byPath := map[];
    }

    method CheckOrder(path: string, order: int) returns (ok: bool)
      ensures ok <==> OrderOk(byPath, path, order)
    {
      if path in byPath {
        return false;
      }
      var paths := byPath.Keys;
      while paths != {}
        invariant paths <= byPath.Keys
        invariant forall p :: p in byPath && p !in paths ==> byPath[p].order <= order
        decreases |paths|
      {
        var p :| p in paths;
        if byPath[p].order > order {
          return false;
        }
        paths := paths - {p};
      }
      return true;
    }

    /** Acquires a lock. `rootOk` and `fileOk` say whether the root directory and the lock file can
        be created; `attempts` and `elapsed` are the operating system's answers and the clock at
        each attempt; between attempts the process sleeps, so the clock advances. */
    method Acquire(path: string, kind: string, order: int, rootOk: bool, fileOk: bool,
                   attempts: nat -> Attempt, elapsed: nat -> int)
      returns (r: AcquireResult, k: nat)
      requires forall j: nat :: elapsed(j) >= j * RETRY_MILLIS
      modifies this
      ensures k <= 2_400
      ensures r == RootError <==> !rootOk
      ensures r == OrderViolation <==> rootOk && !OrderOk(old(byPath), path, order)
      ensures r == FileError <==> rootOk && OrderOk(old(byPath), path, order) && !fileOk
      ensures rootOk && OrderOk(old(byPath), path, order) && fileOk ==>
                && StopsAt(attempts, elapsed, k)
                && r == match attempts(k) case Locked => Acquired case Failed => LockError case Busy => TimedOut
      ensures byPath == if r == Acquired then old(byPath)[path := HeldLock(kind, order)] else old(byPath)
    {
      k := 0;
      if !rootOk {
        return RootError, k;
      }
      var ok := CheckOrder(path, order);
      if !ok {
        return OrderViolation, k;
      }
      if !fileOk {
        return FileError, k;
      }
      while true
        invariant forall j: nat :: j < k ==> attempts(j).Busy? && elapsed(j) < TIMEOUT_MILLIS
        invariant k <= TIMEOUT_MILLIS / RETRY_MILLIS
        invariant byPath == old(byPath)
        decreases TIMEOUT_MILLIS / RETRY_MILLIS - k
      {
        match attempts(k) {
          case Locked =>
            MarkHeld(path, kind, order);
            return Acquired, k;
          case Failed =>
            return LockError, k;
          case Busy =>
        }
        if elapsed(k) >= TIMEOUT_MILLIS {
          return TimedOut, k;
        }
        assert elapsed(k) >= k * RETRY_MILLIS;
        k := k + 1;
      }
    }

    /** Whatever set of locks the map stood for, it now stands for that set with the lock. */
    method MarkHeld(path: string, kind: string, order: int)
      modifies this
      ensures byPath == old(byPath)[path := HeldLock(kind, order)]
      ensures forall held, l :: Represents(old(byPath), held) && IsFileOf(path, order, l) ==> Represents(byPath, held + {l})
    {
      forall held, l | Represents(byPath, held) && IsFileOf(path, order, l)
        ensures Represents(byPath[path := HeldLock(kind, order)], held + {l})
      {
        MarkKeepsRepresentation(byPath, held, l, kind);
      }
      byPath := byPath[path := HeldLock(kind, order)];
    }

    /** Whatever set of locks the map stood for, it now stands for that set without the lock; and
        the lock can be taken again exactly when nothing of a higher order is still held. */
    method Unmark(path: string)
      modifies this
      ensures byPath == old(byPath) - {path}
      ensures forall held, l :: Represents(old(byPath), held) && IsFileOf(path, LockProtocol.Order(l), l) ==>
                Represents(byPath, held - {l})
      ensures forall order :: OrderOk(byPath, path, order) <==>
                forall p :: p in old(byPath) && p != path ==> old(byPath)[p].order <= order
    {
      forall held, l | Represents(byPath, held) && IsFileOf(path, LockProtocol.Order(l), l)
        ensures Represents(byPath - {path}, held - {l})
      {
        MarkKeepsRepresentation(byPath, held, l, "");
      }
      forall order {
        OrderAfterUnmark(byPath, path, order);
      }
      byPath := byPath - {path};
    }
  }

  lemma OrderAfterUnmark(byPath: map<string, HeldLock>, path: string, order: int)
    ensures OrderOk(byPath - {path}, path, order) <==>
            forall p :: p in byPath && p != path ==> byPath[p].order <= order
  {
    var rest := byPath - {path};
    assert forall p :: p in rest <==> p in byPath && p != path;
  }

  /** `path` is the file of the lock, and `order` its order. */
  predicate IsFileOf(path: string, order: int, l: LockProtocol.Lock) {
    ValidLock(l) && path == FileName(l) && order == LockProtocol.Order(l)
  }

  /** Acquiring and releasing gives back the guard's state: a refused path was not held before. */
  lemma UnmarkUndoesMark(byPath: map<string, HeldLock>, path: string, kind: string, order: int)
    requires OrderOk(byPath, path, order)
    ensures byPath[path := HeldLock(kind, order)] - {path} == byPath
  {
  }

  // ----- file names

  predicate SafeChar(c: char) {
    'a' <= c <= 'z' || 'A' <= c <= 'Z' || '0' <= c <= '9' || c == '-' || c == '_'
  }

  predicate SafeName(s: string) {
    s != "" && forall c :: c in s ==> SafeChar(c)
  }

  function SafeLockName(value: string): (s: string)
    ensures SafeName(s)
  {
    var name := Text.TrimSpace(value);
    if name == "" then "unknown" else Sanitised(name)
  }

  /** The characters that a lock name keeps. */
  lemma SafeCharsAre(c: char)
    ensures SafeChar(c) <==> c == '-' || c == '_' || c in Text.DIGITS || c in Text.UPPER || c in Text.LOWER
  {
    Text.DigitsAre(c);
    Text.CapitalsAre(c);
    Text.SmallLettersAre(c);
  }

  /** The lock that serialises the operations on a parent database. */
  function OperationLock(database: string): (l: LockProtocol.Lock)
    ensures l.Operation? && ValidLock(l)
  {
    LockProtocol.Operation(SafeLockName(database))
  }

  /** The name as it goes into the sanitiser. */
  function RawName(value: string): (s: string)
    ensures s != ""
  {
    var name := Text.TrimSpace(value);
    if name == "" then "unknown" else name
  }

  /** Two databases share their operation lock exactly when their trimmed names differ only where
      neither has a letter, a digit or a hyphen. */
  lemma LockIsSharedExactly(a: string, b: string)
    ensures FileName(OperationLock(a)) == FileName(OperationLock(b)) <==>
            var x, y := RawName(a), RawName(b);
            |x| == |y| && forall i :: 0 <= i < |x| ==> x[i] == y[i] || (Blurred(x[i]) && Blurred(y[i]))
  {
    var x, y := RawName(a), RawName(b);
    assert SafeLockName(a) == Sanitised(x) && SafeLockName(b) == Sanitised(y) by {
      assert Sanitised("unknown") == "unknown";
    }
    if FileName(OperationLock(a)) == FileName(OperationLock(b)) {
      FileNamesAreInjective(OperationLock(a), OperationLock(b));
      assert forall i :: 0 <= i < |x| ==> Sanitised(x)[i] == Sanitised(y)[i];
    }
  }

  predicate Blurred(c: char) {
    c == '_' || !SafeChar(c)
  }

  function Sanitised(name: string): (s: string)
    ensures |s| == |name| && forall i :: 0 <= i < |s| ==> s[i] == if SafeChar(name[i]) then name[i] else '_'
  {
    seq(|name|, i requires 0 <= i < |name| => if SafeChar(name[i]) then name[i] else '_')
  }

  /** The name of a lock's file inside its root; the substrate lock without a kind has a short one. */
  function FileName(l: LockProtocol.Lock): string {
    match l
    case Substrate(kind) => if kind == "" then "substrate.lock" else "substrate-" + kind + ".lock"
    case Operation(database) => "branches-" + database + ".operation.lock"
    case Registry => "branches.lock"
  }

  predicate ValidLock(l: LockProtocol.Lock) {
    match l
    case Substrate(kind) => kind == "" || SafeName(kind)
    case Operation(database) => SafeName(database)
    case Registry => true
  }

  lemma CancelBoth(prefix: string, a: string, b: string, suffix: string)
    requires prefix + a + suffix == prefix + b + suffix
    ensures a == b
  {
    assert |a| == |b|;
    assert a == (prefix + a + suffix)[|prefix|..|prefix| + |a|];
    assert b == (prefix + b + suffix)[|prefix|..|prefix| + |b|];
  }

  /** The file name determines the lock, hence its order: one file is never used with two orders. */
  lemma FileNamesAreInjective(l: LockProtocol.Lock, m: LockProtocol.Lock)
    requires ValidLock(l) && ValidLock(m) && FileName(l) == FileName(m)
    ensures l == m
  {
    if l.Substrate? && m.Substrate? && l.kind != "" && m.kind != "" {
      CancelBoth("substrate-", l.kind, m.kind, ".lock");
    } else if l.Operation? && m.Operation? {
      CancelBoth("branches-", l.database, m.database, ".operation.lock");
    } else {
      assert FileName(l)[0] == FileName(m)[0];
      assert l.Operation? || l.Substrate? ==> |FileName(l)| > 9;
      assert FileName(l)[8] == FileName(m)[8] && FileName(l)[9] == FileName(m)[9];
    }
  }

  /** The guard's map says what a set of locks says. */
  ghost predicate Represents(byPath: map<string, HeldLock>, held: set<LockProtocol.Lock>) {
    && (forall h :: h in held ==> ValidLock(h) && FileName(h) in byPath && byPath[FileName(h)].order == LockProtocol.Order(h))
    && (forall p :: p in byPath ==> exists h :: h in held && FileName(h) == p)
  }

  /** The order check over file names is the protocol's guard over locks. */
  lemma OrderCheckIsGuard(byPath: map<string, HeldLock>, held: set<LockProtocol.Lock>, l: LockProtocol.Lock)
    requires Represents(byPath, held) && ValidLock(l)
    ensures OrderOk(byPath, FileName(l), LockProtocol.Order(l)) <==> LockProtocol.Guard(held, l)
  {
    if FileName(l) in byPath {
      var h :| h in held && FileName(h) == FileName(l);
      FileNamesAreInjective(h, l);
    }
    forall p | p in byPath && LockProtocol.Guard(held, l)
      ensures byPath[p].order <= LockProtocol.Order(l)
    {
      var h :| h in held && FileName(h) == p;
    }
    forall h | h in held && OrderOk(byPath, FileName(l), LockProtocol.Order(l))
      ensures LockProtocol.Order(h) <= LockProtocol.Order(l)
    {
      assert FileName(h) in byPath;
    }
  }

  /** Marking and unmarking keep the two views together. */
  lemma MarkKeepsRepresentation(byPath: map<string, HeldLock>, held: set<LockProtocol.Lock>, l: LockProtocol.Lock, kind: string)
    requires Represents(byPath, held) && ValidLock(l)
    ensures Represents(byPath[FileName(l) := HeldLock(kind, LockProtocol.Order(l))], held + {l})
    ensures Represents(byPath - {FileName(l)}, held - {l})
  {
    forall h | h in held && FileName(h) == FileName(l)
      ensures h == l
    {
      FileNamesAreInjective(h, l);
    }
    var marked := byPath[FileName(l) := HeldLock(kind, LockProtocol.Order(l))];
    forall p | p in marked
      ensures exists h :: h in held + {l} && FileName(h) == p
    {
      if p == FileName(l) {
        assert l in held + {l};
      } else {
        var h :| h in held && FileName(h) == p;
        assert h in held + {l};
      }
    }
    forall p | p in byPath - {FileName(l)}
      ensures exists h :: h in held - {l} && FileName(h) == p
    {
      var h :| h in held && FileName(h) == p;
      assert h in held - {l};
    }
  }
}
