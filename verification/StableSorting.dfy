/** Stable sorting by a three-way comparison, as `slices.SortStableFunc` promises it, and what a
    scan of the sorted sequence finds. */
module StableSorting {
  import opened Text

  /** `cmp` orders its arguments like a total preorder: negative, zero or positive. */
  ghost predicate Preorder<T(!new)>(cmp: (T, T) -> int) {
    && (forall a, b :: cmp(a, b) < 0 <==> cmp(b, a) > 0)
    && (forall a, b, c :: cmp(a, b) <= 0 && cmp(b, c) <= 0 ==> cmp(a, c) <= 0)
  }

  lemma Facts<T(!new)>(cmp: (T, T) -> int, a: T, b: T, c: T)
    requires Preorder(cmp)
    ensures cmp(a, a) == 0
    ensures cmp(a, b) == 0 <==> cmp(b, a) == 0
    ensures cmp(a, b) < 0 && cmp(b, c) <= 0 ==> cmp(a, c) < 0
    ensures cmp(a, b) <= 0 && cmp(b, c) < 0 ==> cmp(a, c) < 0
    ensures cmp(a, b) == 0 && cmp(b, c) == 0 ==> cmp(a, c) == 0
  {
    assert cmp(a, c) >= 0 ==> cmp(c, a) <= 0;
    assert cmp(c, a) <= 0 && cmp(a, b) <= 0 ==> cmp(c, b) <= 0;
    assert cmp(b, c) <= 0 && cmp(c, a) <= 0 ==> cmp(b, a) <= 0;
    assert cmp(c, b) <= 0 && cmp(b, a) <= 0 ==> cmp(c, a) <= 0;
  }

  ghost predicate Sorted<T>(cmp: (T, T) -> int, s: seq<T>) {
    forall i, j :: 0 <= i < j < |s| ==> cmp(s[i], s[j]) <= 0
  }

  /** Inserts before the first element that comes strictly later. */
  function Insert<T>(cmp: (T, T) -> int, s: seq<T>, x: T): (r: seq<T>)
    ensures |r| == |s| + 1
  {
    if s == [] || cmp(x, s[0]) < 0 then [x] + s else [s[0]] + Insert(cmp, s[1..], x)
  }

  /** Inserts the elements one after another. */
  function InsertAll<T>(cmp: (T, T) -> int, sorted: seq<T>, s: seq<T>): (r: seq<T>)
    ensures |r| == |sorted| + |s|
    decreases |s|
  {
    if s == [] then sorted else InsertAll(cmp, Insert(cmp, sorted, s[0]), s[1..])
  }

  function StableSort<T>(cmp: (T, T) -> int, s: seq<T>): (r: seq<T>)
    ensures |r| == |s|
  {
    InsertAll(cmp, [], s)
  }

  lemma {:induction false} InsertKeepsElements<T>(cmp: (T, T) -> int, s: seq<T>, x: T)
    ensures multiset(Insert(cmp, s, x)) == multiset(s) + multiset{x}
  {
    if s != [] && cmp(x, s[0]) >= 0 {
      InsertKeepsElements(cmp, s[1..], x);
      assert s == [s[0]] + s[1..];
    }
  }

  lemma {:induction false} InsertSorted<T(!new)>(cmp: (T, T) -> int, s: seq<T>, x: T)
    requires Preorder(cmp) && Sorted(cmp, s)
    ensures Sorted(cmp, Insert(cmp, s, x))
  {
    if s == [] {
    } else if cmp(x, s[0]) < 0 {
      forall j | 0 <= j < |s|
        ensures cmp(x, s[j]) <= 0
      {
        assert j > 0 ==> cmp(s[0], s[j]) <= 0;
      }
    } else {
      var rest := Insert(cmp, s[1..], x);
      InsertSorted(cmp, s[1..], x);
      InsertMembers(cmp, s[1..], x);
      ConsSorted(cmp, s[0], rest);
    }
  }

  lemma ConsSorted<T>(cmp: (T, T) -> int, h: T, t: seq<T>)
    requires Sorted(cmp, t) && forall y :: y in t ==> cmp(h, y) <= 0
    ensures Sorted(cmp, [h] + t)
  {
  }

  lemma {:induction false} InsertMembers<T>(cmp: (T, T) -> int, s: seq<T>, x: T)
    ensures forall y :: y in Insert(cmp, s, x) ==> y == x || y in s
  {
    if s != [] && cmp(x, s[0]) >= 0 {
      InsertMembers(cmp, s[1..], x);
    }
  }

  /** The elements that compare equal to `key`, in order. */
  function ClassOf<T>(cmp: (T, T) -> int, s: seq<T>, key: T): seq<T> {
    if s == [] then []
    else if cmp(s[0], key) == 0 then [s[0]] + ClassOf(cmp, s[1..], key)
    else ClassOf(cmp, s[1..], key)
  }

  lemma {:induction false} ClassOfConcat<T>(cmp: (T, T) -> int, s: seq<T>, t: seq<T>, key: T)
    ensures ClassOf(cmp, s + t, key) == ClassOf(cmp, s, key) + ClassOf(cmp, t, key)
  {
    if s == [] {
      assert s + t == t;
    } else {
      ClassOfConcat(cmp, s[1..], t, key);
      assert (s + t)[1..] == s[1..] + t;
    }
  }

  lemma {:induction false} LaterThanAll<T(!new)>(cmp: (T, T) -> int, s: seq<T>, key: T)
    requires forall y :: y in s ==> cmp(y, key) != 0
    ensures ClassOf(cmp, s, key) == []
  {
    if s == [] {
    } else {
      assert s[0] in s;
      LaterThanAll(cmp, s[1..], key);
    }
  }

  lemma StrictlyLater<T(!new)>(cmp: (T, T) -> int, s: seq<T>, x: T, key: T)
    requires Preorder(cmp) && Sorted(cmp, s) && s != [] && cmp(x, s[0]) < 0 && cmp(x, key) == 0
    ensures forall y :: y in s ==> cmp(y, key) != 0
  {
    forall y | y in s
      ensures cmp(y, key) != 0
    {
      var j :| 0 <= j < |s| && s[j] == y;
      assert j > 0 ==> cmp(s[0], y) <= 0;
      Facts(cmp, s[0], y, y);
      Facts(cmp, x, s[0], y);
      Facts(cmp, x, key, y);
      Facts(cmp, y, key, x);
    }
  }

  lemma ClassOfCons<T>(cmp: (T, T) -> int, h: T, t: seq<T>, key: T)
    ensures ClassOf(cmp, [h] + t, key) ==
            if cmp(h, key) == 0 then [h] + ClassOf(cmp, t, key) else ClassOf(cmp, t, key)
  {
    assert ([h] + t)[1..] == t;
  }

  lemma InsertInFront<T(!new)>(cmp: (T, T) -> int, s: seq<T>, x: T, key: T)
    requires Preorder(cmp) && Sorted(cmp, s) && s != [] && cmp(x, s[0]) < 0
    ensures ClassOf(cmp, [x] + s, key) == ClassOf(cmp, s + [x], key)
  {
    ClassOfConcat(cmp, s, [x], key);
    ClassOfCons(cmp, x, s, key);
    ClassOfCons(cmp, x, [], key);
    assert [x] + [] == [x];
    if cmp(x, key) == 0 {
      StrictlyLater(cmp, s, x, key);
      LaterThanAll(cmp, s, key);
    }
  }

  lemma {:induction false} InsertIsStable<T(!new)>(cmp: (T, T) -> int, s: seq<T>, x: T, key: T)
    requires Preorder(cmp) && Sorted(cmp, s)
    ensures ClassOf(cmp, Insert(cmp, s, x), key) == ClassOf(cmp, s + [x], key)
  {
    if s == [] {
      assert s + [x] == [x] + s;
    } else if cmp(x, s[0]) < 0 {
      InsertInFront(cmp, s, x, key);
    } else {
      SortedTail(cmp, s);
      InsertIsStable(cmp, s[1..], x, key);
      assert s + [x] == [s[0]] + (s[1..] + [x]);
      SameClassAfterCons(cmp, s[0], Insert(cmp, s[1..], x), s[1..] + [x], key);
    }
  }

  lemma SameClassAfterCons<T>(cmp: (T, T) -> int, h: T, a: seq<T>, b: seq<T>, key: T)
    requires ClassOf(cmp, a, key) == ClassOf(cmp, b, key)
    ensures ClassOf(cmp, [h] + a, key) == ClassOf(cmp, [h] + b, key)
  {
    ClassOfCons(cmp, h, a, key);
    ClassOfCons(cmp, h, b, key);
  }

  ghost predicate SameClasses<T(!new)>(cmp: (T, T) -> int, a: seq<T>, b: seq<T>) {
    forall key :: ClassOf(cmp, a, key) == ClassOf(cmp, b, key)
  }

  /** Sorted, a permutation, and stable. */
  ghost predicate IsStableSort<T(!new)>(cmp: (T, T) -> int, s: seq<T>, r: seq<T>) {
    Sorted(cmp, r) && multiset(r) == multiset(s) && SameClasses(cmp, r, s)
  }

  lemma InsertKeepsClasses<T(!new)>(cmp: (T, T) -> int, before: seq<T>, sorted: seq<T>, x: T)
    requires Preorder(cmp) && Sorted(cmp, sorted) && SameClasses(cmp, sorted, before)
    ensures SameClasses(cmp, Insert(cmp, sorted, x), before + [x])
  {
    forall key
      ensures ClassOf(cmp, Insert(cmp, sorted, x), key) == ClassOf(cmp, before + [x], key)
    {
      InsertIsStable(cmp, sorted, x, key);
      ClassOfConcat(cmp, sorted, [x], key);
      ClassOfConcat(cmp, before, [x], key);
      assert ClassOf(cmp, sorted, key) == ClassOf(cmp, before, key);
    }
  }

  lemma InsertOneIsStable<T(!new)>(cmp: (T, T) -> int, before: seq<T>, sorted: seq<T>, x: T)
    requires Preorder(cmp) && IsStableSort(cmp, before, sorted)
    ensures IsStableSort(cmp, before + [x], Insert(cmp, sorted, x))
  {
    InsertSorted(cmp, sorted, x);
    InsertKeepsElements(cmp, sorted, x);
    InsertKeepsClasses(cmp, before, sorted, x);
  }

  lemma {:induction false} InsertAllIsStable<T(!new)>(cmp: (T, T) -> int, before: seq<T>, sorted: seq<T>, s: seq<T>)
    requires Preorder(cmp) && IsStableSort(cmp, before, sorted)
    ensures IsStableSort(cmp, before + s, InsertAll(cmp, sorted, s))
    decreases |s|
  {
    if s == [] {
      assert before + s == before;
    } else {
      InsertOneIsStable(cmp, before, sorted, s[0]);
      InsertAllIsStable(cmp, before + [s[0]], Insert(cmp, sorted, s[0]), s[1..]);
      assert before + s == before + [s[0]] + s[1..];
    }
  }

  lemma StableSortIsStable<T(!new)>(cmp: (T, T) -> int, s: seq<T>)
    requires Preorder(cmp)
    ensures IsStableSort(cmp, s, StableSort(cmp, s))
  {
    var nothing: seq<T> := [];
    InsertAllIsStable(cmp, nothing, nothing, s);
    assert nothing + s == s;
  }

  // ----- there is only one stable sort

  lemma HeadOfClass<T(!new)>(cmp: (T, T) -> int, a: seq<T>)
    requires Preorder(cmp) && a != []
    ensures var c := ClassOf(cmp, a, a[0]); c != [] && c[0] == a[0]
  {
    Facts(cmp, a[0], a[0], a[0]);
  }

  lemma SameHead<T(!new)>(cmp: (T, T) -> int, a: seq<T>, b: seq<T>)
    requires Preorder(cmp) && Sorted(cmp, a) && Sorted(cmp, b) && multiset(a) == multiset(b) && a != [] && b != []
    requires SameClasses(cmp, a, b)
    ensures a[0] == b[0]
  {
    var x, y := a[0], b[0];
    assert x in multiset(b) && y in multiset(a);
    var i :| 0 <= i < |a| && a[i] == y;
    var j :| 0 <= j < |b| && b[j] == x;
    Facts(cmp, x, y, x);
    assert cmp(y, x) == 0;
    HeadOfClass(cmp, a);
    assert ClassOf(cmp, b, x)[0] == y;
  }

  lemma SameTails<T(!new)>(cmp: (T, T) -> int, a: seq<T>, b: seq<T>)
    requires a != [] && b != [] && a[0] == b[0] && SameClasses(cmp, a, b)
    ensures SameClasses(cmp, a[1..], b[1..])
  {
    forall key
      ensures ClassOf(cmp, a[1..], key) == ClassOf(cmp, b[1..], key)
    {
      assert ClassOf(cmp, a, key) == ClassOf(cmp, b, key);
      if cmp(a[0], key) == 0 {
        assert ClassOf(cmp, a[1..], key) == ClassOf(cmp, a, key)[1..];
        assert ClassOf(cmp, b[1..], key) == ClassOf(cmp, b, key)[1..];
      }
    }
  }

  lemma MultisetTail<T>(a: seq<T>)
    requires a != []
    ensures multiset(a) == multiset{a[0]} + multiset(a[1..])
  {
    assert a == [a[0]] + a[1..];
  }

  lemma CancelHead<T>(x: T, a: multiset<T>, b: multiset<T>)
    requires multiset{x} + a == multiset{x} + b
    ensures a == b
  {
    assert a == (multiset{x} + a) - multiset{x};
    assert b == (multiset{x} + b) - multiset{x};
  }

  lemma SortedTail<T>(cmp: (T, T) -> int, a: seq<T>)
    requires a != [] && Sorted(cmp, a)
    ensures Sorted(cmp, a[1..])
  {
  }

  lemma ConsSplit<T>(a: seq<T>, b: seq<T>)
    requires a != [] && b != [] && a[0] == b[0] && a[1..] == b[1..]
    ensures a == b
  {
    assert a == [a[0]] + a[1..] && b == [b[0]] + b[1..];
  }

  lemma {:induction false} StableSortIsUnique<T(!new)>(cmp: (T, T) -> int, a: seq<T>, b: seq<T>)
    requires Preorder(cmp) && Sorted(cmp, a) && Sorted(cmp, b) && multiset(a) == multiset(b)
    requires SameClasses(cmp, a, b)
    ensures a == b
    decreases |a|
  {
    assert |a| == |multiset(a)| && |b| == |multiset(b)|;
    if a == [] {
    } else {
      SameHead(cmp, a, b);
      MultisetTail(a);
      MultisetTail(b);
      CancelHead(a[0], multiset(a[1..]), multiset(b[1..]));
      SortedTail(cmp, a);
      SortedTail(cmp, b);
      SameTails(cmp, a, b);
      StableSortIsUnique(cmp, a[1..], b[1..]);
      ConsSplit(a, b);
    }
  }

  lemma AppendKeepsClasses<T(!new)>(cmp: (T, T) -> int, a: seq<T>, b: seq<T>, x: T)
    requires SameClasses(cmp, a, b)
    ensures SameClasses(cmp, a + [x], b + [x])
  {
    forall key
      ensures ClassOf(cmp, a + [x], key) == ClassOf(cmp, b + [x], key)
    {
      ClassOfConcat(cmp, a, [x], key);
      ClassOfConcat(cmp, b, [x], key);
      assert ClassOf(cmp, a, key) == ClassOf(cmp, b, key);
    }
  }

  /** Sorting again after each appended element is sorting once at the end. */
  lemma ResortingAddsOne<T(!new)>(cmp: (T, T) -> int, s: seq<T>, x: T)
    requires Preorder(cmp)
    ensures StableSort(cmp, StableSort(cmp, s) + [x]) == StableSort(cmp, s + [x])
  {
    var table := StableSort(cmp, s);
    StableSortIsStable(cmp, s);
    AppendKeepsClasses(cmp, table, s, x);
    var again, once := StableSort(cmp, table + [x]), StableSort(cmp, s + [x]);
    StableSortIsStable(cmp, table + [x]);
    StableSortIsStable(cmp, s + [x]);
    SameClassesChain(cmp, again, table + [x], s + [x], once);
    StableSortIsUnique(cmp, again, once);
  }

  lemma SameClassesChain<T(!new)>(cmp: (T, T) -> int, a: seq<T>, b: seq<T>, c: seq<T>, d: seq<T>)
    requires SameClasses(cmp, a, b) && SameClasses(cmp, b, c) && SameClasses(cmp, d, c)
    ensures SameClasses(cmp, a, d)
  {
    forall key
      ensures ClassOf(cmp, a, key) == ClassOf(cmp, d, key)
    {
      assert ClassOf(cmp, a, key) == ClassOf(cmp, b, key) == ClassOf(cmp, c, key);
      assert ClassOf(cmp, d, key) == ClassOf(cmp, c, key);
    }
  }

  // ----- what a scan finds

  function First<T>(s: seq<T>, want: T -> bool): Option<T> {
    if s == [] then None else if want(s[0]) then Some(s[0]) else First(s[1..], want)
  }

  lemma {:induction false} FirstIsFirst<T>(s: seq<T>, want: T -> bool)
    ensures match First(s, want)
            case None => forall i :: 0 <= i < |s| ==> !want(s[i])
            case Some(x) => exists i :: 0 <= i < |s| && s[i] == x && want(x) && forall j :: 0 <= j < i ==> !want(s[j])
  {
    if s == [] {
    } else {
      if want(s[0]) {
        assert s[0] == First(s, want).value;
      } else {
        var rest := s[1..];
        FirstIsFirst(rest, want);
        if First(rest, want).Some? {
          var i :| 0 <= i < |rest| && rest[i] == First(rest, want).value && forall j :: 0 <= j < i ==> !want(rest[j]);
          assert s[i + 1] == rest[i];
          assert forall j :: 0 < j < i + 1 ==> s[j] == rest[j - 1];
        }
      }
    }
  }

  /** Element `i` beats element `j`: it comes first, or ties and stands earlier. */
  predicate Beats<T>(cmp: (T, T) -> int, s: seq<T>, i: nat, j: nat)
    requires i < |s| && j < |s|
  {
    cmp(s[i], s[j]) < 0 || (cmp(s[i], s[j]) == 0 && i < j)
  }

  ghost predicate IsBest<T>(cmp: (T, T) -> int, s: seq<T>, want: T -> bool, i: int) {
    && 0 <= i < |s| && want(s[i])
    && forall j :: 0 <= j < |s| && j != i && want(s[j]) ==> Beats(cmp, s, i, j)
  }

  lemma {:induction false} FirstOfInsert<T(!new)>(cmp: (T, T) -> int, s: seq<T>, x: T, want: T -> bool)
    requires Preorder(cmp) && Sorted(cmp, s)
    ensures First(Insert(cmp, s, x), want) ==
            var f := First(s, want);
            if want(x) && (f.None? || cmp(x, f.value) < 0) then Some(x) else f
  {
    if s == [] {
    } else if cmp(x, s[0]) < 0 {
      FirstIsFirst(s, want);
      if First(s, want).Some? {
        Facts(cmp, x, s[0], First(s, want).value);
        assert ([x] + s)[1..] == s;
      }
    } else {
      FirstOfInsert(cmp, s[1..], x, want);
      assert Insert(cmp, s, x)[1..] == Insert(cmp, s[1..], x);
    }
  }

  /** Scanning what was sorted so far, after `before`: the best of `before`. */
  ghost predicate ScanAgrees<T>(cmp: (T, T) -> int, before: seq<T>, sorted: seq<T>, want: T -> bool) {
    match First(sorted, want)
    case None => forall j :: 0 <= j < |before| ==> !want(before[j])
    case Some(x) => exists i :: IsBest(cmp, before, want, i) && before[i] == x
  }

  lemma BestAfterAppend<T(!new)>(cmp: (T, T) -> int, before: seq<T>, x: T, want: T -> bool, i: int)
    requires Preorder(cmp) && IsBest(cmp, before, want, i)
    ensures IsBest(cmp, before + [x], want, if want(x) && cmp(x, before[i]) < 0 then |before| else i)
  {
    var all := before + [x];
    assert all[|before|] == x && forall j :: 0 <= j < |before| ==> all[j] == before[j];
    Facts(cmp, before[i], x, x);
    forall j | 0 <= j < |before| && want(before[j])
      ensures j != i ==> Beats(cmp, all, i, j)
      ensures cmp(x, before[i]) < 0 ==> cmp(x, all[j]) < 0
    {
      if j != i {
        assert Beats(cmp, before, i, j);
      }
      Facts(cmp, x, before[i], all[j]);
    }
  }

  lemma ScanAgreesStep<T(!new)>(cmp: (T, T) -> int, before: seq<T>, sorted: seq<T>, x: T, want: T -> bool)
    requires Preorder(cmp) && Sorted(cmp, sorted) && ScanAgrees(cmp, before, sorted, want)
    ensures ScanAgrees(cmp, before + [x], Insert(cmp, sorted, x), want)
  {
    var all := before + [x];
    assert all[|before|] == x && forall j :: 0 <= j < |before| ==> all[j] == before[j];
    FirstOfInsert(cmp, sorted, x, want);
    var f := First(sorted, want);
    if f.None? {
      assert want(x) ==> IsBest(cmp, all, want, |before|);
    } else {
      var i :| IsBest(cmp, before, want, i) && before[i] == f.value;
      BestAfterAppend(cmp, before, x, want, i);
    }
  }

  lemma {:induction false} ScanOfInsertAll<T(!new)>(cmp: (T, T) -> int, before: seq<T>, sorted: seq<T>, s: seq<T>,
                                                   want: T -> bool)
    requires Preorder(cmp) && Sorted(cmp, sorted) && ScanAgrees(cmp, before, sorted, want)
    ensures ScanAgrees(cmp, before + s, InsertAll(cmp, sorted, s), want)
    decreases |s|
  {
    if s == [] {
      assert before + s == before;
    } else {
      InsertSorted(cmp, sorted, s[0]);
      ScanAgreesStep(cmp, before, sorted, s[0], want);
      var next := before + [s[0]];
      assert before + s == next + s[1..];
      ScanOfInsertAll(cmp, next, Insert(cmp, sorted, s[0]), s[1..], want);
    }
  }

  /** A scan of the stable sort finds exactly the best wanted element of the original order. */
  lemma ScanFindsBest<T(!new)>(cmp: (T, T) -> int, s: seq<T>, want: T -> bool)
    requires Preorder(cmp)
    ensures ScanAgrees(cmp, s, StableSort(cmp, s), want)
  {
    var nothing: seq<T> := [];
    ScanOfInsertAll(cmp, nothing, nothing, s, want);
    assert nothing + s == s;
  }

  lemma BestIsUnique<T(!new)>(cmp: (T, T) -> int, s: seq<T>, want: T -> bool, i: int, j: int)
    requires Preorder(cmp) && IsBest(cmp, s, want, i) && IsBest(cmp, s, want, j)
    ensures i == j
  {
    Facts(cmp, s[i], s[j], s[i]);
  }
}
