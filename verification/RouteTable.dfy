/** The route table: routes in stable order of specificity, and an index of exact paths that
    answers a request without a scan. */
module RouteTable {
  import opened Text
  import opened RoutePattern
  import opened StableSorting

  datatype Route = Route(methods: seq<string>, pattern: Pattern, handler: nat) {
    predicate IsExact() {
      !pattern.hasParam && !pattern.hasWildcard
    }
  }

  predicate Allows(methods: seq<string>, verb: string) {
    verb in methods || (verb == "HEAD" && "GET" in methods)
  }

  /** Negative when `a` is the more specific route. */
  function Compare(a: Route, b: Route): int {
    if a.pattern.literals > b.pattern.literals then -1
    else if a.pattern.literals < b.pattern.literals then 1
    else if a.pattern.hasWildcard != b.pattern.hasWildcard then (if a.pattern.hasWildcard then 1 else -1)
    else if |a.pattern.segments| > |b.pattern.segments| then -1
    else if |a.pattern.segments| < |b.pattern.segments| then 1
    else 0
  }

  lemma CompareIsPreorder()
    ensures Preorder(Compare)
  {
  }

  // ----- choosing a handler

  datatype Choice = Handled(route: Route, params: Captures) | NotFound | GlobalOptions | MethodNotAllowed

  predicate MatchesPath(r: Route, path: string) {
    Match(r.pattern.segments, SplitPath(path)).Some?
  }

  function Wanted(path: string, verb: string): Route -> bool {
    (r: Route) => MatchesPath(r, path) && Allows(r.methods, verb)
  }

  function ExactlyWanted(path: string, verb: string): Route -> bool {
    (r: Route) => r.IsExact() && r.pattern.raw == path && Allows(r.methods, verb)
  }

  /** The routes in the order the table keeps them. */
  function Table(registered: seq<Route>): seq<Route> {
    StableSort(Compare, registered)
  }

  /** What the sorted scan alone decides. */
  function ScanChoice(registered: seq<Route>, verb: string, path: string, options: bool): Choice {
    var table := Table(registered);
    if First(table, (r: Route) => MatchesPath(r, path)).None? then NotFound
    else if verb == "OPTIONS" && options then GlobalOptions
    else
      var route := First(table, Wanted(path, verb));
      if route.None? then MethodNotAllowed
      else
        var params := Match(route.value.pattern.segments, SplitPath(path));
        Handled(route.value, if params.Some? then params.value else [])
  }

  /** What the table does: the exact index first, for every method but OPTIONS. */
  function FastChoice(registered: seq<Route>, verb: string, path: string, options: bool): Choice {
    var shortcut := First(registered, ExactlyWanted(path, verb));
    if verb != "OPTIONS" && shortcut.Some? then Handled(shortcut.value, [])
    else ScanChoice(registered, verb, path, options)
  }

  // ----- an exact route is as specific as anything that matches its path

  ghost predicate WellFormed(registered: seq<Route>) {
    forall i :: 0 <= i < |registered| ==> registered[i].pattern == PatternOf(registered[i].pattern.raw)
  }

  ghost predicate WildcardsLast(registered: seq<Route>) {
    forall i :: 0 <= i < |registered| ==> WildcardLast(registered[i].pattern.segments)
  }

  lemma {:induction false} LiteralsFit(segments: seq<Segment>, request: seq<string>)
    requires WildcardLast(segments) && Match(segments, request).Some?
    ensures CountLiterals(segments) <= |request|
    ensures !SomeWildcard(segments) ==> |segments| == |request|
  {
    if segments != [] && !segments[0].Wildcard? {
      assert WildcardLast(segments[1..]);
      LiteralsFit(segments[1..], request[1..]);
      if !SomeWildcard(segments) {
        assert forall i :: 0 <= i < |segments[1..]| ==> segments[1..][i] == segments[i + 1];
      }
    } else if segments != [] {
      assert segments[0].Wildcard? && segments[1..] == [];
    }
  }

  lemma {:induction false} CountAllLiterals(segments: seq<Segment>)
    ensures CountLiterals(segments) == |segments| <==> !SomeParam(segments) && !SomeWildcard(segments)
  {
    if segments == [] {
    } else {
      var rest := segments[1..];
      CountAllLiterals(rest);
      assert forall i :: 0 <= i < |rest| ==> rest[i] == segments[i + 1];
      assert SomeParam(segments) <==> segments[0].Param? || SomeParam(rest);
      assert SomeWildcard(segments) <==> segments[0].Wildcard? || SomeWildcard(rest);
    }
  }

  lemma {:induction false} LiteralsMatchThemselves(parts: seq<string>, request: seq<string>)
    requires !SomeParam(SegmentsOf(parts)) && !SomeWildcard(SegmentsOf(parts))
    ensures Match(SegmentsOf(parts), request).Some? <==> request == parts
    ensures request == parts ==> Match(SegmentsOf(parts), request) == Some([])
  {
    var segments := SegmentsOf(parts);
    SegmentsElementwise(parts);
    LiteralMatch(segments, request);
    assert forall i :: 0 <= i < |parts| ==> segments[i].Literal? && segments[i].value == parts[i];
  }

  lemma {:induction false} LiteralMatch(segments: seq<Segment>, request: seq<string>)
    requires !SomeParam(segments) && !SomeWildcard(segments)
    ensures Match(segments, request).Some? <==>
            |request| == |segments| && forall i :: 0 <= i < |segments| ==> segments[i].Literal? && segments[i].value == request[i]
    ensures Match(segments, request).Some? ==> Match(segments, request) == Some([])
  {
    if segments == [] {
    } else {
      assert !segments[0].Param? && !segments[0].Wildcard?;
      var rest := segments[1..];
      assert forall i :: 0 <= i < |rest| ==> rest[i] == segments[i + 1];
      if request != [] {
        LiteralMatch(rest, request[1..]);
        assert forall i :: 0 <= i < |request[1..]| ==> request[1..][i] == request[i + 1];
        if Match(segments, request).Some? {
          forall i | 0 <= i < |segments|
            ensures segments[i].Literal? && segments[i].value == request[i]
          {
            if i > 0 {
              assert rest[i - 1].value == request[1..][i - 1];
            }
          }
        }
      }
    }
  }

  /** Any route that matches an exact route's path is less specific, or is exact for the same
      segments. */
  lemma ExactRouteLeads(l: Route, r: Route)
    requires l.pattern == PatternOf(l.pattern.raw) && r.pattern == PatternOf(r.pattern.raw)
    requires l.IsExact() && WildcardLast(r.pattern.segments) && MatchesPath(r, l.pattern.raw)
    ensures Compare(l, r) < 0 || (Compare(l, r) == 0 && r.IsExact() && SplitPath(r.pattern.raw) == SplitPath(l.pattern.raw))
  {
    var request := SplitPath(l.pattern.raw);
    CountAllLiterals(l.pattern.segments);
    CountAllLiterals(r.pattern.segments);
    LiteralsFit(r.pattern.segments, request);
    if r.IsExact() {
      LiteralsMatchThemselves(SplitPath(r.pattern.raw), request);
    }
  }

  /** An exact route matches its own path, and captures nothing. */
  lemma ExactRouteMatchesItself(l: Route)
    requires l.pattern == PatternOf(l.pattern.raw) && l.IsExact()
    ensures Match(l.pattern.segments, SplitPath(l.pattern.raw)) == Some([])
  {
    LiteralsMatchThemselves(SplitPath(l.pattern.raw), SplitPath(l.pattern.raw));
  }

  // ----- the shortcut against the scan

  /** Route `i` is what the exact index answers for its own path and this method. */
  ghost predicate IsShortcut(registered: seq<Route>, i: int, verb: string) {
    && 0 <= i < |registered| && registered[i].IsExact() && Allows(registered[i].methods, verb)
    && forall k :: 0 <= k < i ==> !ExactlyWanted(registered[i].pattern.raw, verb)(registered[k])
  }

  /** Exact routes that differ only in leading or trailing slashes. */
  ghost predicate Twins(a: Route, b: Route) {
    a.IsExact() && b.IsExact() && a.pattern.raw != b.pattern.raw && SplitPath(a.pattern.raw) == SplitPath(b.pattern.raw)
  }

  /** A twin registered before the shortcut's answer takes the same request in a scan. */
  ghost predicate ShadowedByTwin(registered: seq<Route>, i: int, j: int, verb: string) {
    && IsShortcut(registered, i, verb)
    && 0 <= j < i && Twins(registered[i], registered[j]) && Allows(registered[j].methods, verb)
  }

  lemma TwinMatches(l: Route, r: Route)
    requires l.pattern == PatternOf(l.pattern.raw) && r.pattern == PatternOf(r.pattern.raw) && Twins(l, r)
    ensures MatchesPath(r, l.pattern.raw) && WildcardLast(r.pattern.segments)
  {
    ExactRouteMatchesItself(r);
  }

  lemma ShortcutFound(registered: seq<Route>, verb: string, path: string) returns (i: int)
    requires First(registered, ExactlyWanted(path, verb)).Some?
    ensures IsShortcut(registered, i, verb) && registered[i].pattern.raw == path
    ensures registered[i] == First(registered, ExactlyWanted(path, verb)).value
  {
    FirstIsFirst(registered, ExactlyWanted(path, verb));
    var x := First(registered, ExactlyWanted(path, verb)).value;
    i :| 0 <= i < |registered| && registered[i] == x && ExactlyWanted(path, verb)(x) &&
         forall j :: 0 <= j < i ==> !ExactlyWanted(path, verb)(registered[j]);
  }

  lemma {:induction false} ShortcutIsFirst(registered: seq<Route>, i: int, verb: string)
    requires IsShortcut(registered, i, verb)
    ensures First(registered, ExactlyWanted(registered[i].pattern.raw, verb)) == Some(registered[i])
  {
    var want := ExactlyWanted(registered[i].pattern.raw, verb);
    FirstIsFirst(registered, want);
    assert want(registered[i]);
    var x := First(registered, want).value;
    var k :| 0 <= k < |registered| && registered[k] == x && want(x) && forall j :: 0 <= j < k ==> !want(registered[j]);
    assert k == i;
  }

  lemma ScanIsBest(registered: seq<Route>, verb: string, path: string, i: int)
    requires IsBest(Compare, registered, Wanted(path, verb), i)
    ensures First(Table(registered), Wanted(path, verb)) == Some(registered[i])
  {
    CompareIsPreorder();
    var want := Wanted(path, verb);
    ScanFindsBest(Compare, registered, want);
    assert First(Table(registered), want).Some?;
    var k :| IsBest(Compare, registered, want, k) && registered[k] == First(Table(registered), want).value;
    BestIsUnique(Compare, registered, want, i, k);
  }

  lemma FirstAnySubset(s: seq<Route>, verb: string, path: string)
    requires First(s, Wanted(path, verb)).Some?
    ensures First(s, (r: Route) => MatchesPath(r, path)).Some?
  {
    FirstIsFirst(s, Wanted(path, verb));
    FirstIsFirst(s, (r: Route) => MatchesPath(r, path));
  }

  lemma ScanHandles(registered: seq<Route>, verb: string, path: string, options: bool, i: int)
    requires WellFormed(registered) && IsShortcut(registered, i, verb) && registered[i].pattern.raw == path
    requires verb != "OPTIONS" && First(Table(registered), Wanted(path, verb)) == Some(registered[i])
    ensures ScanChoice(registered, verb, path, options) == Handled(registered[i], [])
  {
    FirstAnySubset(Table(registered), verb, path);
    ExactRouteMatchesItself(registered[i]);
  }

  // ----- exactly when the shortcut and the scan agree

  ghost predicate Agrees(registered: seq<Route>, verb: string, path: string) {
    forall options :: FastChoice(registered, verb, path, options) == ScanChoice(registered, verb, path, options)
  }

  /** Another candidate for the request that the shortcut answers with route `i` comes first in
      the table. */
  ghost predicate Outdone(registered: seq<Route>, i: int, j: int, verb: string) {
    && IsShortcut(registered, i, verb)
    && 0 <= j < |registered| && j != i && Wanted(registered[i].pattern.raw, verb)(registered[j])
    && !Beats(Compare, registered, i, j)
  }

  lemma OtherRoute(registered: seq<Route>, verb: string, path: string, l: Route, other: Route)
    requires verb != "OPTIONS" && l != other
    requires First(registered, ExactlyWanted(path, verb)) == Some(l)
    requires First(Table(registered), Wanted(path, verb)) == Some(other)
    ensures !Agrees(registered, verb, path)
  {
    FirstAnySubset(Table(registered), verb, path);
    assert FastChoice(registered, verb, path, false) == Handled(l, []);
  }

  lemma NoneBeforeShortcut(registered: seq<Route>, i: int, k: int, verb: string)
    requires IsShortcut(registered, i, verb) && 0 <= k < |registered|
    ensures registered[k] == registered[i] ==> i <= k
  {
  }

  /** An outdone route is not the best candidate, nor an equal of it. */
  lemma BestIsOther(registered: seq<Route>, i: int, j: int, k: int, verb: string)
    requires Outdone(registered, i, j, verb)
    requires IsBest(Compare, registered, Wanted(registered[i].pattern.raw, verb), k)
    ensures registered[k] != registered[i]
  {
    CompareIsPreorder();
    Facts(Compare, registered[k], registered[i], registered[j]);
    NoneBeforeShortcut(registered, i, k, verb);
  }

  lemma OutdoneDisagrees(registered: seq<Route>, i: int, j: int, verb: string)
    requires WellFormed(registered) && verb != "OPTIONS" && Outdone(registered, i, j, verb)
    ensures !Agrees(registered, verb, registered[i].pattern.raw)
  {
    var path := registered[i].pattern.raw;
    var want := Wanted(path, verb);
    ShortcutIsFirst(registered, i, verb);
    CompareIsPreorder();
    ScanFindsBest(Compare, registered, want);
    assert want(registered[j]);
    var k :| IsBest(Compare, registered, want, k) && Some(registered[k]) == First(Table(registered), want);
    BestIsOther(registered, i, j, k, verb);
    OtherRoute(registered, verb, path, registered[i], registered[k]);
  }

  lemma NotOutdoneIsBest(registered: seq<Route>, i: int, verb: string)
    requires WellFormed(registered) && IsShortcut(registered, i, verb)
    requires forall j :: !Outdone(registered, i, j, verb)
    ensures IsBest(Compare, registered, Wanted(registered[i].pattern.raw, verb), i)
  {
    var want := Wanted(registered[i].pattern.raw, verb);
    ExactRouteMatchesItself(registered[i]);
    forall j | 0 <= j < |registered| && j != i && want(registered[j])
      ensures Beats(Compare, registered, i, j)
    {
      assert !Outdone(registered, i, j, verb);
    }
  }

  lemma AgreesUnlessOutdone(registered: seq<Route>, verb: string, path: string)
    requires WellFormed(registered)
    requires verb != "OPTIONS" ==> forall i, j :: !Outdone(registered, i, j, verb)
    ensures Agrees(registered, verb, path)
  {
    if verb != "OPTIONS" && First(registered, ExactlyWanted(path, verb)).Some? {
      var i := ShortcutFound(registered, verb, path);
      NotOutdoneIsBest(registered, i, verb);
      ScanIsBest(registered, verb, path, i);
      forall options {
        ScanHandles(registered, verb, path, options, i);
      }
    }
  }

  ghost predicate AlwaysAgrees(registered: seq<Route>) {
    forall verb, path :: Agrees(registered, verb, path)
  }

  ghost predicate NeverOutdone(registered: seq<Route>) {
    forall i, j, verb :: Outdone(registered, i, j, verb) ==> verb == "OPTIONS"
  }

  /** For every table: the shortcut and the scan agree on every request exactly when no route the
      shortcut answers with is outdone by another candidate. */
  lemma AgreementOfEveryTable(registered: seq<Route>)
    requires WellFormed(registered)
    ensures AlwaysAgrees(registered) <==> NeverOutdone(registered)
  {
    if AlwaysAgrees(registered) {
      forall i, j, verb | Outdone(registered, i, j, verb)
        ensures verb == "OPTIONS"
      {
        if verb != "OPTIONS" {
          OutdoneDisagrees(registered, i, j, verb);
        }
      }
    }
    if NeverOutdone(registered) {
      forall verb, path
        ensures Agrees(registered, verb, path)
      {
        AgreesUnlessOutdone(registered, verb, path);
      }
    }
  }

  /** What it takes to outdo an exact route: a pattern with a wildcard needs more literals than the
      path has segments, so it needs literals behind its wildcard; a pattern without one must be a
      twin registered earlier. */
  ghost predicate Rival(registered: seq<Route>, i: int, j: int, verb: string) {
    && IsShortcut(registered, i, verb)
    && 0 <= j < |registered| && Wanted(registered[i].pattern.raw, verb)(registered[j])
    && if registered[j].pattern.hasWildcard
       then registered[j].pattern.literals > |SplitPath(registered[i].pattern.raw)|
       else j < i && Twins(registered[i], registered[j])
  }

  lemma OutdoneMeansRival(registered: seq<Route>, i: int, j: int, verb: string)
    requires WellFormed(registered)
    ensures Outdone(registered, i, j, verb) <==> Rival(registered, i, j, verb)
  {
    if IsShortcut(registered, i, verb) && 0 <= j < |registered| && Wanted(registered[i].pattern.raw, verb)(registered[j]) {
      var l, r := registered[i], registered[j];
      CountAllLiterals(l.pattern.segments);
      if !r.pattern.hasWildcard {
        NoWildcardIsLast(r.pattern.segments);
        ExactRouteLeads(l, r);
      }
    }
  }

  lemma NoWildcardIsLast(segments: seq<Segment>)
    requires !SomeWildcard(segments)
    ensures WildcardLast(segments)
  {
  }

  /** With wildcards last only earlier twins remain. */
  lemma RivalWithWildcardsLast(registered: seq<Route>, i: int, j: int, verb: string)
    requires WellFormed(registered) && WildcardsLast(registered)
    ensures Rival(registered, i, j, verb) <==> ShadowedByTwin(registered, i, j, verb)
  {
    if Rival(registered, i, j, verb) {
      LiteralsFit(registered[j].pattern.segments, SplitPath(registered[i].pattern.raw));
    }
    if ShadowedByTwin(registered, i, j, verb) {
      TwinMatches(registered[i], registered[j]);
    }
  }

  ghost predicate NeverShadowed(registered: seq<Route>) {
    forall i, j, verb :: ShadowedByTwin(registered, i, j, verb) ==> verb == "OPTIONS"
  }

  /** For tables with wildcards last, the shortcut and the scan agree on every request exactly
      when no exact route is shadowed by an earlier twin. */
  lemma AgreementExactly(registered: seq<Route>)
    requires WellFormed(registered) && WildcardsLast(registered)
    ensures AlwaysAgrees(registered) <==> NeverShadowed(registered)
  {
    AgreementOfEveryTable(registered);
    forall i, j, verb
      ensures Outdone(registered, i, j, verb) <==> ShadowedByTwin(registered, i, j, verb)
    {
      OutdoneMeansRival(registered, i, j, verb);
      RivalWithWildcardsLast(registered, i, j, verb);
    }
  }

  ghost predicate NoTwins(registered: seq<Route>) {
    forall i, j :: 0 <= i < |registered| && 0 <= j < |registered| ==> !Twins(registered[i], registered[j])
  }

  /** The shortcut answers every request as the scan alone would, with the same route and
      parameters, when wildcards come last and no two exact paths are equal up to slashes. */
  lemma FastIsScan(registered: seq<Route>, verb: string, path: string, options: bool)
    requires WellFormed(registered) && WildcardsLast(registered) && NoTwins(registered)
    ensures FastChoice(registered, verb, path, options) == ScanChoice(registered, verb, path, options)
  {
    AgreementExactly(registered);
    assert NeverShadowed(registered);
    assert Agrees(registered, verb, path);
  }

  lemma SlashA()
    ensures PatternOf("/a") == Pattern("/a", [Literal("a")], 1, false, false)
    ensures SplitPath("/a") == ["a"]
  {
    assert "/a"[1..] == "a";
    assert SegmentsOf(["a"]) == [Literal("a")];
  }

  lemma SlashASlash()
    ensures PatternOf("/a/") == Pattern("/a/", [Literal("a")], 1, false, false)
    ensures SplitPath("/a/") == ["a"]
  {
    assert "/a/"[1..] == "a/" && "a/"[..1] == "a";
    assert SegmentsOf(["a"]) == [Literal("a")];
  }

  /** The condition on twins is needed: `/a/` registered before `/a` shadows it. */
  lemma TwinExample()
    ensures var registered := [Route(["GET"], PatternOf("/a/"), 0), Route(["GET"], PatternOf("/a"), 1)];
            ShadowedByTwin(registered, 1, 0, "GET") && !Agrees(registered, "GET", "/a")
  {
    SlashA();
    SlashASlash();
    TwinExampleFor(PatternOf("/a/"), PatternOf("/a"));
  }

  lemma TwinExampleFor(first: Pattern, second: Pattern)
    requires first == PatternOf("/a/") == Pattern("/a/", [Literal("a")], 1, false, false)
    requires second == PatternOf("/a") == Pattern("/a", [Literal("a")], 1, false, false)
    requires SplitPath("/a/") == ["a"] && SplitPath("/a") == ["a"]
    ensures var registered := [Route(["GET"], first, 0), Route(["GET"], second, 1)];
            ShadowedByTwin(registered, 1, 0, "GET") && !Agrees(registered, "GET", "/a")
  {
    var registered := [Route(["GET"], first, 0), Route(["GET"], second, 1)];
    assert |"/a/"| != |"/a"|;
    TwinMatches(registered[1], registered[0]);
    assert Rival(registered, 1, 0, "GET");
    OutdoneMeansRival(registered, 1, 0, "GET");
    OutdoneDisagrees(registered, 1, 0, "GET");
  }

  lemma JoinOfThree(a: string, b: string, c: string)
    ensures Join([a, b, c], '/') == a + "/" + b + "/" + c
  {
    var parts := [a, b, c];
    assert parts[1..] == [b, c] && [b, c][1..] == [c];
    assert Join([b, c], '/') == b + "/" + c;
    assert a + "/" + (b + "/" + c) == a + "/" + b + "/" + c;
  }

  lemma TrimOneSlash(t: string)
    requires t != "" && t[0] != '/' && t[|t| - 1] != '/'
    ensures TrimSlashes("/" + t) == t
  {
    assert ("/" + t)[1..] == t;
    assert TrimLeadingSlashes("/" + t) == TrimLeadingSlashes(t) == t;
  }

  lemma SplitPathOfThree(path: string, a: string, b: string, c: string)
    requires path == "/" + (a + "/" + b + "/" + c) && a != "" && c != "" && '/' !in a && '/' !in b && '/' !in c
    ensures SplitPath(path) == [a, b, c]
  {
    var t := a + "/" + b + "/" + c;
    assert t[0] == a[0] && t[|t| - 1] == c[|c| - 1];
    TrimOneSlash(t);
    JoinOfThree(a, b, c);
    SplitOfJoin([a, b, c], '/');
  }

  lemma StarThenTwo()
    ensures SplitPath("/*/b/c") == ["*", "b", "c"]
  {
    SplitPathOfThree("/*/b/c", "*", "b", "c");
  }

  /** The condition on wildcards is needed too: a route whose wildcard has two literals behind it
      takes the whole request, and its literals put it in front of the exact route. */
  lemma MiddleWildcardExample()
    ensures var registered := [Route(["GET"], PatternOf("/a"), 0), Route(["GET"], PatternOf("/*/b/c"), 1)];
            Rival(registered, 0, 1, "GET") && !Agrees(registered, "GET", "/a")
  {
    StarThenTwo();
    MiddleWildcardAt("/*/b/c");
  }

  lemma MiddleWildcardAt(wild: string)
    requires SplitPath(wild) == ["*", "b", "c"]
    ensures var registered := [Route(["GET"], PatternOf("/a"), 0), Route(["GET"], PatternOf(wild), 1)];
            Rival(registered, 0, 1, "GET") && !Agrees(registered, "GET", "/a")
  {
    SlashA();
    PatternOfThree(wild, "*", "b", "c");
    MiddleWildcardFor(PatternOf("/a"), PatternOf(wild));
  }

  lemma PatternOfThree(path: string, a: string, b: string, c: string)
    requires SplitPath(path) == [a, b, c]
    requires SegmentOf(a).Wildcard? && SegmentOf(b).Literal? && SegmentOf(c).Literal?
    ensures PatternOf(path) == Pattern(path, [SegmentOf(a), SegmentOf(b), SegmentOf(c)], 2, false, true)
  {
    assert [a, b, c][..2] == [a, b] && [a, b][..1] == [a] && [a][..0] == [];
    var segments := SegmentsOf([a, b, c]);
    assert SegmentsOf([a, b]) == [SegmentOf(a), SegmentOf(b)];
    assert segments == [SegmentOf(a), SegmentOf(b), SegmentOf(c)];
    StarSegments(segments);
  }

  lemma StarSegments(segments: seq<Segment>)
    requires |segments| == 3 && segments[0].Wildcard? && segments[1].Literal? && segments[2].Literal?
    ensures CountLiterals(segments) == 2 && !SomeParam(segments) && SomeWildcard(segments)
  {
    var one, two := segments[..1], segments[..2];
    assert segments == two + [segments[2]] && two == one + [segments[1]] && one == [] + [segments[0]];
    CountLiteralsAppend([], segments[0]);
    CountLiteralsAppend(one, segments[1]);
    CountLiteralsAppend(two, segments[2]);
  }

  lemma WildcardTakesAll(segments: seq<Segment>, request: seq<string>)
    requires segments != [] && segments[0].Wildcard?
    ensures Match(segments, request).Some?
  {
  }

  lemma MiddleWildcardFor(a: Pattern, b: Pattern)
    requires a == PatternOf("/a") == Pattern("/a", [Literal("a")], 1, false, false) && SplitPath("/a") == ["a"]
    requires b == PatternOf(b.raw) && b.literals == 2 && b.hasWildcard && b.segments != [] && b.segments[0].Wildcard?
    ensures var registered := [Route(["GET"], a, 0), Route(["GET"], b, 1)];
            Rival(registered, 0, 1, "GET") && !Agrees(registered, "GET", "/a")
  {
    var registered := [Route(["GET"], a, 0), Route(["GET"], b, 1)];
    WildcardTakesAll(b.segments, ["a"]);
    assert IsShortcut(registered, 0, "GET");
    assert Rival(registered, 0, 1, "GET");
    OutdoneMeansRival(registered, 0, 1, "GET");
    OutdoneDisagrees(registered, 0, 1, "GET");
  }

  // ----- the table itself

  /** The exact routes for a path, in the order they were registered. */
  function ExactFor(registered: seq<Route>, path: string): seq<Route> {
    if registered == [] then []
    else
      var n := |registered| - 1;
      var before := ExactFor(registered[..n], path);
      if registered[n].IsExact() && registered[n].pattern.raw == path then before + [registered[n]] else before
  }

  lemma {:induction false} FirstOfAppend(s: seq<Route>, x: Route, want: Route -> bool)
    ensures First(s + [x], want) == if First(s, want).Some? then First(s, want) else if want(x) then Some(x) else None
  {
    if s == [] {
      assert s + [x] == [x];
    } else {
      FirstOfAppend(s[1..], x, want);
      assert (s + [x])[1..] == s[1..] + [x];
    }
  }

  /** Looking through the index entry is looking through all registrations. */
  lemma {:induction false} FirstExact(registered: seq<Route>, path: string, verb: string)
    ensures First(ExactFor(registered, path), (r: Route) => Allows(r.methods, verb)) ==
            First(registered, ExactlyWanted(path, verb))
  {
    if registered == [] {
    } else {
      var n := |registered| - 1;
      FirstExact(registered[..n], path, verb);
      assert registered == registered[..n] + [registered[n]];
      FirstOfAppend(registered[..n], registered[n], ExactlyWanted(path, verb));
      FirstOfAppend(ExactFor(registered[..n], path), registered[n], (r: Route) => Allows(r.methods, verb));
    }
  }

  /** The index holds exactly the exact routes, path by path. */
  ghost predicate Indexes(exact: map<string, seq<Route>>, registered: seq<Route>) {
    forall path :: (if path in exact then exact[path] else []) == ExactFor(registered, path)
  }

  lemma ExactForAppend(registered: seq<Route>, item: Route, path: string)
    ensures ExactFor(registered + [item], path) ==
            ExactFor(registered, path) + (if item.IsExact() && item.pattern.raw == path then [item] else [])
  {
    assert (registered + [item])[..|registered|] == registered;
  }

  lemma IndexesAppend(exact: map<string, seq<Route>>, registered: seq<Route>, item: Route)
    requires Indexes(exact, registered)
    ensures !item.IsExact() ==> Indexes(exact, registered + [item])
    ensures item.IsExact() ==>
              var key := item.pattern.raw;
              Indexes(exact[key := (if key in exact then exact[key] else []) + [item]], registered + [item])
  {
    forall path {
      ExactForAppend(registered, item, path);
    }
  }

  lemma TableAppend(registered: seq<Route>, item: Route)
    ensures StableSort(Compare, Table(registered) + [item]) == Table(registered + [item])
  {
    CompareIsPreorder();
    ResortingAddsOne(Compare, registered, item);
  }

  lemma WellFormedAppend(registered: seq<Route>, item: Route)
    requires WellFormed(registered) && item.pattern == PatternOf(item.pattern.raw)
    ensures WellFormed(registered + [item])
  {
  }

  function MatchingOf(routes: seq<Route>, path: string): seq<(Route, Captures)> {
    if routes == [] then []
    else
      var params := Match(routes[0].pattern.segments, SplitPath(path));
      var rest := MatchingOf(routes[1..], path);
      if params.Some? then [(routes[0], params.value)] + rest else rest
  }

  function FirstAllowed(matches: seq<(Route, Captures)>, verb: string): Option<(Route, Captures)> {
    if matches == [] then None
    else if Allows(matches[0].0.methods, verb) then Some(matches[0])
    else FirstAllowed(matches[1..], verb)
  }

  lemma {:induction false} MatchingFirst(routes: seq<Route>, path: string)
    ensures MatchingOf(routes, path) == [] <==> First(routes, (r: Route) => MatchesPath(r, path)).None?
  {
    if routes == [] {
    } else {
      MatchingFirst(routes[1..], path);
    }
  }

  lemma {:induction false} MatchingWanted(routes: seq<Route>, path: string, verb: string)
    ensures match First(routes, Wanted(path, verb))
            case None => FirstAllowed(MatchingOf(routes, path), verb) == None
            case Some(r) =>
              && MatchesPath(r, path)
              && FirstAllowed(MatchingOf(routes, path), verb) == Some((r, Match(r.pattern.segments, SplitPath(path)).value))
  {
    if routes == [] {
    } else {
      MatchingWanted(routes[1..], path, verb);
      if MatchesPath(routes[0], path) {
        assert MatchingOf(routes, path)[1..] == MatchingOf(routes[1..], path);
      }
    }
  }

  lemma MatchingStep(routes: seq<Route>, i: nat, path: string)
    requires i < |routes|
    ensures MatchingOf(routes[i..], path) ==
            var params := Match(routes[i].pattern.segments, SplitPath(path));
            (if params.Some? then [(routes[i], params.value)] else []) + MatchingOf(routes[i + 1..], path)
  {
    assert routes[i..][1..] == routes[i + 1..];
  }

  // ----- the answer, over the registrations

  /** The route's methods list the verb; GET stands for HEAD too. */
  ghost predicate Lists(r: Route, verb: string) {
    exists i :: 0 <= i < |r.methods| && (r.methods[i] == verb || (verb == "HEAD" && r.methods[i] == "GET"))
  }

  ghost function LiteralPositions(segments: seq<Segment>): set<int> {
    set i | 0 <= i < |segments| && segments[i].Literal?
  }

  ghost function LiteralsOf(r: Route): nat {
    |LiteralPositions(r.pattern.segments)|
  }

  ghost predicate HasWildcard(r: Route) {
    exists i :: 0 <= i < |r.pattern.segments| && r.pattern.segments[i].Wildcard?
  }

  /** More literals; then no wildcard against one; then more segments. */
  ghost predicate MoreSpecific(a: Route, b: Route) {
    || LiteralsOf(a) > LiteralsOf(b)
    || (LiteralsOf(a) == LiteralsOf(b) && !HasWildcard(a) && HasWildcard(b))
    || (LiteralsOf(a) == LiteralsOf(b) && (HasWildcard(a) <==> HasWildcard(b)) && |a.pattern.segments| > |b.pattern.segments|)
  }

  /** Registration `i` matches the path and lists the verb, and of all that do it is the most
      specific one, the earliest among equals. */
  ghost predicate IsAnswer(registered: seq<Route>, verb: string, path: string, i: int) {
    && 0 <= i < |registered| && MatchesPath(registered[i], path) && Lists(registered[i], verb)
    && forall j :: 0 <= j < |registered| && j != i && MatchesPath(registered[j], path) && Lists(registered[j], verb) ==>
         MoreSpecific(registered[i], registered[j]) || (!MoreSpecific(registered[j], registered[i]) && i < j)
  }

  ghost predicate SomeMatch(registered: seq<Route>, path: string) {
    exists j :: 0 <= j < |registered| && MatchesPath(registered[j], path)
  }

  ghost predicate SomeMatchLists(registered: seq<Route>, verb: string, path: string) {
    exists j :: 0 <= j < |registered| && MatchesPath(registered[j], path) && Lists(registered[j], verb)
  }

  /** What a scan answers: not found without a match; the global handler for OPTIONS if there is one;
      method not allowed when no match lists the verb; otherwise the best match with its captures. */
  ghost predicate ScanAnswers(registered: seq<Route>, verb: string, path: string, options: bool, choice: Choice) {
    match choice
    case NotFound => !SomeMatch(registered, path)
    case GlobalOptions => SomeMatch(registered, path) && verb == "OPTIONS" && options
    case MethodNotAllowed =>
      SomeMatch(registered, path) && !(verb == "OPTIONS" && options) && !SomeMatchLists(registered, verb, path)
    case Handled(route, params) =>
      && !(verb == "OPTIONS" && options) && Match(route.pattern.segments, SplitPath(path)) == Some(params)
      && exists i :: 0 <= i < |registered| && route == registered[i] && IsAnswer(registered, verb, path, i)
  }

  /** Registration `i` is the first one for exactly this path, without parameters and wildcards, that
      lists the verb. */
  ghost predicate IsExactAnswer(registered: seq<Route>, verb: string, path: string, i: int) {
    && 0 <= i < |registered| && IsExactFor(registered[i], verb, path)
    && forall j :: 0 <= j < i ==> !IsExactFor(registered[j], verb, path)
  }

  ghost predicate IsExactFor(r: Route, verb: string, path: string) {
    && r.pattern.raw == path && Lists(r, verb)
    && forall k :: 0 <= k < |r.pattern.segments| ==> r.pattern.segments[k].Literal?
  }

  ghost predicate SomeExact(registered: seq<Route>, verb: string, path: string) {
    exists i :: 0 <= i < |registered| && IsExactFor(registered[i], verb, path)
  }

  /** What the table answers: the exact registration for every method but OPTIONS, else the scan. */
  ghost predicate ServeAnswers(registered: seq<Route>, verb: string, path: string, options: bool, choice: Choice) {
    if verb != "OPTIONS" && SomeExact(registered, verb, path)
    then exists i :: 0 <= i < |registered| && choice == Handled(registered[i], []) && IsExactAnswer(registered, verb, path, i)
    else ScanAnswers(registered, verb, path, options, choice)
  }

  lemma AllowsIsLists(r: Route, verb: string)
    ensures Allows(r.methods, verb) <==> Lists(r, verb)
  {
    if verb in r.methods {
      var i :| 0 <= i < |r.methods| && r.methods[i] == verb;
    }
    if verb == "HEAD" && "GET" in r.methods {
      var i :| 0 <= i < |r.methods| && r.methods[i] == "GET";
    }
  }

  lemma PositionsSnoc(front: seq<Segment>, x: Segment)
    ensures LiteralPositions(front + [x]) == LiteralPositions(front) + if x.Literal? then {|front|} else {}
  {
    var all := front + [x];
    assert all[|front|] == x && forall i :: 0 <= i < |front| ==> all[i] == front[i];
  }

  lemma {:induction false} LiteralsAreCounted(segments: seq<Segment>)
    ensures CountLiterals(segments) == |LiteralPositions(segments)|
    decreases |segments|
  {
    if segments == [] {
      assert LiteralPositions(segments) == {};
    } else {
      var front, x := segments[..|segments| - 1], segments[|segments| - 1];
      assert segments == front + [x];
      LiteralsAreCounted(front);
      CountLiteralsAppend(front, x);
      PositionsSnoc(front, x);
    }
  }

  lemma CompareIsSpecificity(a: Route, b: Route)
    requires a.pattern == PatternOf(a.pattern.raw) && b.pattern == PatternOf(b.pattern.raw)
    ensures Compare(a, b) < 0 <==> MoreSpecific(a, b)
    ensures Compare(a, b) > 0 <==> MoreSpecific(b, a)
  {
    LiteralsAreCounted(a.pattern.segments);
    LiteralsAreCounted(b.pattern.segments);
  }

  lemma BestIsAnswer(registered: seq<Route>, verb: string, path: string, i: int)
    requires WellFormed(registered) && IsBest(Compare, registered, Wanted(path, verb), i)
    ensures IsAnswer(registered, verb, path, i)
  {
    AllowsIsLists(registered[i], verb);
    forall j | 0 <= j < |registered| && j != i && MatchesPath(registered[j], path) && Lists(registered[j], verb)
      ensures MoreSpecific(registered[i], registered[j]) || (!MoreSpecific(registered[j], registered[i]) && i < j)
    {
      AllowsIsLists(registered[j], verb);
      assert Wanted(path, verb)(registered[j]);
      CompareIsSpecificity(registered[i], registered[j]);
    }
  }

  /** The table has a match exactly when the registrations do. */
  lemma TableMatches(registered: seq<Route>, want: Route -> bool)
    ensures First(Table(registered), want).Some? <==> exists j :: 0 <= j < |registered| && want(registered[j])
  {
    CompareIsPreorder();
    ScanFindsBest(Compare, registered, want);
  }

  lemma SomeMatchInTable(registered: seq<Route>, path: string)
    ensures SomeMatch(registered, path) <==> First(Table(registered), (r: Route) => MatchesPath(r, path)).Some?
  {
    TableMatches(registered, (r: Route) => MatchesPath(r, path));
  }

  lemma SomeListedInTable(registered: seq<Route>, verb: string, path: string)
    ensures SomeMatchLists(registered, verb, path) <==> First(Table(registered), Wanted(path, verb)).Some?
  {
    TableMatches(registered, Wanted(path, verb));
    forall j | 0 <= j < |registered|
      ensures Wanted(path, verb)(registered[j]) <==> MatchesPath(registered[j], path) && Lists(registered[j], verb)
    {
      AllowsIsLists(registered[j], verb);
    }
  }

  lemma FirstInTableAnswers(registered: seq<Route>, verb: string, path: string) returns (i: int)
    requires WellFormed(registered) && First(Table(registered), Wanted(path, verb)).Some?
    ensures 0 <= i < |registered| && registered[i] == First(Table(registered), Wanted(path, verb)).value
    ensures IsAnswer(registered, verb, path, i)
  {
    CompareIsPreorder();
    ScanFindsBest(Compare, registered, Wanted(path, verb));
    i :| IsBest(Compare, registered, Wanted(path, verb), i) && registered[i] == First(Table(registered), Wanted(path, verb)).value;
    BestIsAnswer(registered, verb, path, i);
  }

  lemma ScanChoiceAnswers(registered: seq<Route>, verb: string, path: string, options: bool)
    requires WellFormed(registered)
    ensures ScanAnswers(registered, verb, path, options, ScanChoice(registered, verb, path, options))
  {
    SomeMatchInTable(registered, path);
    SomeListedInTable(registered, verb, path);
    if First(Table(registered), Wanted(path, verb)).Some? {
      var i := FirstInTableAnswers(registered, verb, path);
    }
  }

  lemma ExactIsLiteral(r: Route, verb: string, path: string)
    requires r.pattern == PatternOf(r.pattern.raw)
    ensures ExactlyWanted(path, verb)(r) <==> IsExactFor(r, verb, path)
  {
    AllowsIsLists(r, verb);
  }

  lemma FastChoiceAnswers(registered: seq<Route>, verb: string, path: string, options: bool)
    requires WellFormed(registered)
    ensures ServeAnswers(registered, verb, path, options, FastChoice(registered, verb, path, options))
  {
    ScanChoiceAnswers(registered, verb, path, options);
    var want := ExactlyWanted(path, verb);
    forall j | 0 <= j < |registered|
      ensures want(registered[j]) <==> IsExactFor(registered[j], verb, path)
    {
      ExactIsLiteral(registered[j], verb, path);
    }
    FirstIsFirst(registered, want);
    if First(registered, want).Some? {
      var i := ShortcutFound(registered, verb, path);
      assert IsExactAnswer(registered, verb, path, i);
    }
  }

  class Router {
    var routes: seq<Route>
    var exact: map<string, seq<Route>>
    ghost var registered: seq<Route>

    ghost predicate Valid()
      reads this
    {
      && routes == Table(registered)
      && WellFormed(registered)
      && Indexes(exact, registered)
    }

    constructor ()
      ensures Valid() && registered == []
    {
      routes := [];
      exact := map[];
      registered := [];
    }

    /** Registers a route: appends it, indexes it when its path is exact, and sorts again. */
    method Handle(methods: seq<string>, path: string, handler: nat)
      requires Valid()
      modifies this
      ensures Valid() && registered == old(registered) + [Route(methods, PatternOf(path), handler)]
    {
      var pattern := ParsePattern(path);
      var item := Route(methods, pattern, handler);
      IndexesAppend(exact, registered, item);
      TableAppend(registered, item);
      WellFormedAppend(registered, item);
      if !pattern.hasParam && !pattern.hasWildcard {
        exact := exact[pattern.raw := (if pattern.raw in exact then exact[pattern.raw] else []) + [item]];
      }
      routes := StableSort(Compare, routes + [item]);
      registered := registered + [item];
    }

    method MatchingRoutes(path: string) returns (matches: seq<(Route, Captures)>)
      ensures matches == MatchingOf(routes, path)
    {
      matches := [];
      assert routes[0..] == routes;
      for i := 0 to |routes|
        invariant MatchingOf(routes, path) == matches + MatchingOf(routes[i..], path)
      {
        MatchingStep(routes, i, path);
        ghost var rest := MatchingOf(routes[i + 1..], path);
        var params := MatchPath(routes[i].pattern, path);
        if params.Some? {
          assert matches + ([(routes[i], params.value)] + rest) == (matches + [(routes[i], params.value)]) + rest;
          matches := matches + [(routes[i], params.value)];
        } else {
          assert [] + rest == rest;
        }
      }
      assert matches + [] == matches;
    }

    /** Looks the path up in the exact index. */
    method LookUpExact(verb: string, path: string) returns (r: Option<Route>)
      requires Valid()
      ensures r == First(registered, ExactlyWanted(path, verb))
    {
      FirstExact(registered, path, verb);
      assert (if path in exact then exact[path] else []) == ExactFor(registered, path);
      if path in exact {
        var indexed := exact[path];
        ghost var allow := (r: Route) => Allows(r.methods, verb);
        assert indexed[0..] == indexed;
        for i := 0 to |indexed|
          invariant First(indexed, allow) == First(indexed[i..], allow)
        {
          assert indexed[i..][1..] == indexed[i + 1..];
          if Allows(indexed[i].methods, verb) {
            return Some(indexed[i]);
          }
        }
      }
      return None;
    }

    method Scan(verb: string, path: string, options: bool) returns (choice: Choice)
      requires Valid()
      ensures choice == ScanChoice(registered, verb, path, options)
      ensures ScanAnswers(registered, verb, path, options, choice)
    {
      ScanChoiceAnswers(registered, verb, path, options);
      var matches := MatchingRoutes(path);
      MatchingFirst(routes, path);
      MatchingWanted(routes, path, verb);
      if |matches| == 0 {
        return NotFound;
      }
      if verb == "OPTIONS" && options {
        return GlobalOptions;
      }
      assert matches[0..] == matches;
      for i := 0 to |matches|
        invariant FirstAllowed(matches, verb) == FirstAllowed(matches[i..], verb)
      {
        assert matches[i..][1..] == matches[i + 1..];
        if Allows(matches[i].0.methods, verb) {
          return Handled(matches[i].0, matches[i].1);
        }
      }
      return MethodNotAllowed;
    }

    /** The choice of handler in `ServeHTTP`. */
    method Serve(verb: string, path: string, options: bool) returns (choice: Choice)
      requires Valid()
      ensures choice == FastChoice(registered, verb, path, options)
      ensures ServeAnswers(registered, verb, path, options, choice)
      ensures NeverOutdone(registered) || (WildcardsLast(registered) && NoTwins(registered)) ==>
                choice == ScanChoice(registered, verb, path, options)
    {
      FastChoiceAnswers(registered, verb, path, options);
      if WildcardsLast(registered) && NoTwins(registered) {
        FastIsScan(registered, verb, path, options);
      } else if NeverOutdone(registered) {
        AgreesUnlessOutdone(registered, verb, path);
      }
      if verb != "OPTIONS" {
        var route := LookUpExact(verb, path);
        if route.Some? {
          return Handled(route.value, []);
        }
      }
      choice := Scan(verb, path, options);
    }
  }
}
