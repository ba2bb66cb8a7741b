/** Route patterns: literal, parameter and wildcard segments, and matching a request path. */
module RoutePattern {
  import opened Text

  datatype Segment = Literal(value: string) | Param(name: string) | Wildcard(name: string)

  datatype Pattern = Pattern(raw: string, segments: seq<Segment>, literals: nat, hasParam: bool, hasWildcard: bool)

  type Captures = seq<(string, string)>

  // ----- paths

  function TrimLeadingSlashes(s: string): (t: string)
    ensures t != "" ==> t[0] != '/'
    ensures |t| <= |s|
  {
    if s != "" && s[0] == '/' then TrimLeadingSlashes(s[1..]) else s
  }

  function TrimTrailingSlashes(s: string): (t: string)
    ensures t != "" ==> t[|t| - 1] != '/'
    ensures t <= s
  {
    if s != "" && s[|s| - 1] == '/' then TrimTrailingSlashes(s[..|s| - 1]) else s
  }

  /** `strings.Trim(path, "/")`. */
  function TrimSlashes(path: string): (t: string)
    ensures t != "" ==> t[|t| - 1] != '/'
  {
    TrimTrailingSlashes(TrimLeadingSlashes(path))
  }

  predicate AllSlashes(s: string) {
    forall k :: 0 <= k < |s| ==> s[k] == '/'
  }

  lemma {:induction false} LeadingSlashes(s: string)
    ensures var t := TrimLeadingSlashes(s); t == s[|s| - |t|..] && AllSlashes(s[..|s| - |t|])
  {
    if s == "" || s[0] != '/' {
    } else {
      LeadingSlashes(s[1..]);
      var n := |s| - |TrimLeadingSlashes(s)|;
      assert s[..n] == ['/'] + s[1..][..n - 1];
    }
  }

  lemma {:induction false} TrailingSlashes(s: string)
    ensures var t := TrimTrailingSlashes(s); AllSlashes(s[|t|..])
  {
    if s == "" || s[|s| - 1] != '/' {
    } else {
      var front := s[..|s| - 1];
      TrailingSlashes(front);
      var n := |TrimTrailingSlashes(s)|;
      assert s[n..] == front[n..] + ['/'];
    }
  }

  /** What is trimmed is nothing but slashes, and all of them at either end. */
  lemma TrimSlashesTrims(path: string)
    ensures var t := TrimSlashes(path);
            && (t != "" ==> t[0] != '/' && t[|t| - 1] != '/')
            && exists before, after :: path == before + t + after && AllSlashes(before) && AllSlashes(after)
  {
    var u := TrimLeadingSlashes(path);
    var t := TrimSlashes(path);
    LeadingSlashes(path);
    TrailingSlashes(u);
    assert path == path[..|path| - |u|] + t + u[|t|..];
  }

  function SplitPath(path: string): (parts: seq<string>)
    ensures forall p :: p in parts ==> '/' !in p
  {
    var t := TrimSlashes(path);
    if t == "" then [] else Split(t, '/')
  }

  /** The request segments a path can have: no slash inside, and the last one not empty. */
  predicate PathSegments(parts: seq<string>) {
    && (forall p :: p in parts ==> '/' !in p)
    && (parts != [] ==> parts[|parts| - 1] != "")
  }

  lemma {:induction false} LastPartOfSplit(s: string)
    requires s != "" && s[|s| - 1] != '/'
    ensures var parts := Split(s, '/'); parts[|parts| - 1] != ""
    decreases |s|
  {
    if '/' in s {
      var (left, right) := Cut(s, '/');
      assert right != "" && right[|right| - 1] == s[|s| - 1];
      LastPartOfSplit(right);
    }
  }

  /** Joining the segments of a path gives the path back up to leading and trailing slashes. */
  lemma SplitPathJoins(path: string)
    ensures PathSegments(SplitPath(path))
    ensures Join(SplitPath(path), '/') == TrimSlashes(path)
  {
    var t := TrimSlashes(path);
    if t != "" {
      LastPartOfSplit(t);
      JoinOfSplit(t, '/');
    }
  }

  // ----- parsing a pattern

  function SegmentOf(part: string): Segment {
    if part != "" && part[0] == ':' then Param(part[1..])
    else if part != "" && part[0] == '*' then Wildcard(part[1..])
    else Literal(part)
  }

  function SegmentsOf(parts: seq<string>): (segments: seq<Segment>)
    ensures |segments| == |parts|
  {
    if parts == [] then [] else SegmentsOf(parts[..|parts| - 1]) + [SegmentOf(parts[|parts| - 1])]
  }

  lemma {:induction false} SegmentsElementwise(parts: seq<string>)
    ensures forall i :: 0 <= i < |parts| ==> SegmentsOf(parts)[i] == SegmentOf(parts[i])
  {
    if parts == [] {
    } else {
      SegmentsElementwise(parts[..|parts| - 1]);
    }
  }

  function CountLiterals(segments: seq<Segment>): (n: nat)
    ensures n <= |segments|
  {
    if segments == [] then 0 else (if segments[0].Literal? then 1 else 0) + CountLiterals(segments[1..])
  }

  predicate SomeParam(segments: seq<Segment>) {
    exists i :: 0 <= i < |segments| && segments[i].Param?
  }

  predicate SomeWildcard(segments: seq<Segment>) {
    exists i :: 0 <= i < |segments| && segments[i].Wildcard?
  }

  lemma KindsAppend(segments: seq<Segment>, s: Segment)
    ensures SomeParam(segments + [s]) <==> SomeParam(segments) || s.Param?
    ensures SomeWildcard(segments + [s]) <==> SomeWildcard(segments) || s.Wildcard?
  {
    var all := segments + [s];
    assert all[|segments|] == s;
    assert forall k :: 0 <= k < |segments| ==> all[k] == segments[k];
  }

  lemma {:induction false} CountLiteralsAppend(segments: seq<Segment>, s: Segment)
    ensures CountLiterals(segments + [s]) == CountLiterals(segments) + (if s.Literal? then 1 else 0)
  {
    if segments == [] {
      assert segments + [s] == [s];
    } else {
      CountLiteralsAppend(segments[1..], s);
      assert (segments + [s])[1..] == segments[1..] + [s];
    }
  }

  function PatternOf(path: string): Pattern {
    var segments := SegmentsOf(SplitPath(path));
    Pattern(path, segments, CountLiterals(segments), SomeParam(segments), SomeWildcard(segments))
  }

  method ParsePattern(path: string) returns (p: Pattern)
    ensures p == PatternOf(path)
  {
    var parts := SplitPath(path);
    var segments, literals, hasParam, hasWildcard := [], 0, false, false;
    for i := 0 to |parts|
      invariant segments == SegmentsOf(parts[..i])
      invariant literals == CountLiterals(segments)
      invariant hasParam == SomeParam(segments)
      invariant hasWildcard == SomeWildcard(segments)
    {
      assert parts[..i + 1][..i] == parts[..i];
      CountLiteralsAppend(segments, SegmentOf(parts[i]));
      KindsAppend(segments, SegmentOf(parts[i]));
      if parts[i] != "" && parts[i][0] == ':' {
        segments := segments + [Param(parts[i][1..])];
        hasParam := true;
      } else if parts[i] != "" && parts[i][0] == '*' {
        segments := segments + [Wildcard(parts[i][1..])];
        hasWildcard := true;
      } else {
        segments := segments + [Literal(parts[i])];
        literals := literals + 1;
      }
    }
    assert parts[..|parts|] == parts;
    return Pattern(path, segments, literals, hasParam, hasWildcard);
  }

  // ----- matching

  /** Segment by segment; a wildcard takes everything that is left. */
  function Match(segments: seq<Segment>, request: seq<string>): Option<Captures> {
    if segments == [] then (if request == [] then Some([]) else None)
    else if segments[0].Wildcard? then Some([(segments[0].name, Join(request, '/'))])
    else if request == [] || (segments[0].Literal? && request[0] != segments[0].value) then None
    else
      var rest := Match(segments[1..], request[1..]);
      if rest.None? || segments[0].Literal? then rest
      else Some([(segments[0].name, request[0])] + rest.value)
  }

  function Prefixed(params: Captures, rest: Option<Captures>): Option<Captures> {
    if rest.None? then None else Some(params + rest.value)
  }

  method MatchPath(p: Pattern, path: string) returns (r: Option<Captures>)
    ensures r == Match(p.segments, SplitPath(path))
  {
    var request := SplitPath(path);
    var params: Captures := [];
    var i, j := 0, 0;
    assert p.segments[0..] == p.segments && request[0..] == request;
    ghost var whole := Match(p.segments, request);
    assert whole.Some? ==> params + whole.value == whole.value;
    while i < |p.segments|
      invariant 0 <= i <= |p.segments| && 0 <= j <= |request|
      invariant Match(p.segments, request) == Prefixed(params, Match(p.segments[i..], request[j..]))
    {
      var segment := p.segments[i];
      assert p.segments[i..][1..] == p.segments[i + 1..];
      assert j < |request| ==> request[j..][1..] == request[j + 1..];
      match segment {
        case Literal(value) =>
          if j >= |request| || request[j] != value {
            return None;
          }
          i, j := i + 1, j + 1;
        case Param(name) =>
          if j >= |request| {
            return None;
          }
          ghost var rest := Match(p.segments[i + 1..], request[j + 1..]);
          assert rest.Some? ==> params + ([(name, request[j])] + rest.value) == (params + [(name, request[j])]) + rest.value;
          params := params + [(name, request[j])];
          i, j := i + 1, j + 1;
        case Wildcard(name) =>
          return Some(params + [(name, Join(request[j..], '/'))]);
      }
    }
    assert p.segments[i..] == [];
    assert params + [] == params;
    if j == |request| {
      return Some(params);
    }
    return None;
  }

  // ----- matching is substitution

  predicate WildcardLast(segments: seq<Segment>) {
    forall i :: 0 <= i < |segments| - 1 ==> !segments[i].Wildcard?
  }

  function CaptureCount(segments: seq<Segment>): nat {
    if segments == [] then 0 else (if segments[0].Literal? then 0 else 1) + CaptureCount(segments[1..])
  }

  /** The request segments a pattern stands for once its captures have values. */
  function Expand(segments: seq<Segment>, values: seq<string>): seq<string>
    requires |values| == CaptureCount(segments)
  {
    if segments == [] then []
    else
      match segments[0]
      case Literal(value) => [value] + Expand(segments[1..], values)
      case Param(_) => [values[0]] + Expand(segments[1..], values[1..])
      case Wildcard(_) => (if values[0] == "" then [] else Split(values[0], '/')) + Expand(segments[1..], values[1..])
  }

  function ValuesOf(captures: Captures): (values: seq<string>)
    ensures |values| == |captures|
  {
    seq(|captures|, i requires 0 <= i < |captures| => captures[i].1)
  }

  lemma JoinedRestSplits(request: seq<string>)
    requires PathSegments(request)
    ensures (if Join(request, '/') == "" then [] else Split(Join(request, '/'), '/')) == request
  {
    assert Split("", '/') == [""];
    if request != [] {
      SplitOfJoin(request, '/');
    }
  }

  /** The part of a pattern that matching reads: everything through its first wildcard. */
  function Cutoff(segments: seq<Segment>): (cut: seq<Segment>)
    ensures cut <= segments && WildcardLast(cut)
  {
    if segments == [] then []
    else if segments[0].Wildcard? then [segments[0]]
    else
      var rest := Cutoff(segments[1..]);
      assert forall i :: 0 <= i < |rest| ==> ([segments[0]] + rest)[i + 1] == rest[i];
      [segments[0]] + rest
  }

  lemma {:induction false} CutoffMatchesAlike(segments: seq<Segment>, request: seq<string>)
    ensures Match(segments, request) == Match(Cutoff(segments), request)
  {
    if segments != [] && !segments[0].Wildcard? {
      assert Cutoff(segments)[1..] == Cutoff(segments[1..]);
      if request != [] {
        CutoffMatchesAlike(segments[1..], request[1..]);
      }
    }
  }

  /** A pattern with its wildcard last is read to its end. */
  lemma {:induction false} CutoffIsWhole(segments: seq<Segment>)
    ensures Cutoff(segments) == segments <==> WildcardLast(segments)
  {
    if segments == [] {
    } else {
      CutoffIsWhole(segments[1..]);
      assert segments == [segments[0]] + segments[1..];
      assert forall i :: 0 <= i < |segments[1..]| ==> segments[1..][i] == segments[i + 1];
      if segments[0].Wildcard? {
        assert |segments| > 1 <==> Cutoff(segments) != segments;
      } else {
        assert WildcardLast(segments) <==> WildcardLast(segments[1..]);
        assert Cutoff(segments) == segments <==> Cutoff(segments[1..]) == segments[1..];
      }
    }
  }

  lemma {:induction false} CapturesOfLastWildcard(segments: seq<Segment>, request: seq<string>)
    requires WildcardLast(segments) && PathSegments(request) && Match(segments, request).Some?
    ensures var captures := Match(segments, request).value;
            |captures| == CaptureCount(segments) && Expand(segments, ValuesOf(captures)) == request
  {
    if segments == [] {
    } else {
      var captures := Match(segments, request).value;
      if segments[0].Wildcard? {
        assert segments[1..] == [];
        JoinedRestSplits(request);
        assert ValuesOf(captures)[1..] == [];
      } else {
        CapturesOfLastWildcard(segments[1..], request[1..]);
        assert request == [request[0]] + request[1..];
        var rest := Match(segments[1..], request[1..]).value;
        if segments[0].Param? {
          assert ValuesOf(captures)[1..] == ValuesOf(rest);
        }
      }
    }
  }

  /** What was captured, put back into the pattern as far as it is read, is the request. */
  lemma CapturesExpandToRequest(segments: seq<Segment>, request: seq<string>)
    requires PathSegments(request) && Match(segments, request).Some?
    ensures var captures := Match(segments, request).value;
            |captures| == CaptureCount(Cutoff(segments)) && Expand(Cutoff(segments), ValuesOf(captures)) == request
  {
    CutoffMatchesAlike(segments, request);
    CapturesOfLastWildcard(Cutoff(segments), request);
  }

  lemma {:induction false} ExpansionMatches(segments: seq<Segment>, values: seq<string>)
    requires |values| == CaptureCount(segments)
    ensures Match(segments, Expand(segments, values)).Some?
  {
    if segments != [] && !segments[0].Wildcard? {
      var rest := if segments[0].Literal? then values else values[1..];
      ExpansionMatches(segments[1..], rest);
      assert Expand(segments, values)[1..] == Expand(segments[1..], rest);
    }
  }

  /** The names of the captures, in order. */
  function CaptureNames(segments: seq<Segment>): seq<string> {
    if segments == [] then []
    else (if segments[0].Literal? then [] else [segments[0].name]) + CaptureNames(segments[1..])
  }

  function NamesOf(captures: Captures): (names: seq<string>)
    ensures |names| == |captures|
  {
    seq(|captures|, i requires 0 <= i < |captures| => captures[i].0)
  }

  lemma NamesCons(name: string, value: string, rest: Captures, captures: Captures)
    requires captures == [(name, value)] + rest
    ensures NamesOf(captures) == [name] + NamesOf(rest)
  {
  }

  lemma NamesOfCutoff(segments: seq<Segment>)
    requires segments != []
    ensures CaptureNames(Cutoff(segments)) ==
            if segments[0].Wildcard? then [segments[0].name]
            else (if segments[0].Literal? then [] else [segments[0].name]) + CaptureNames(Cutoff(segments[1..]))
  {
    if segments[0].Wildcard? {
      assert Cutoff(segments)[1..] == [];
    } else {
      assert Cutoff(segments)[1..] == Cutoff(segments[1..]);
    }
  }

  /** Each value is captured under the name its place has in the pattern. */
  lemma {:induction false} CapturesAreNamed(segments: seq<Segment>, request: seq<string>)
    requires Match(segments, request).Some?
    ensures NamesOf(Match(segments, request).value) == CaptureNames(Cutoff(segments))
  {
    var captures := Match(segments, request).value;
    if segments == [] {
    } else if segments[0].Wildcard? {
      NamesOfCutoff(segments);
      NamesCons(segments[0].name, Join(request, '/'), [], captures);
    } else {
      NamesOfCutoff(segments);
      CapturesAreNamed(segments[1..], request[1..]);
      if segments[0].Param? {
        NamesCons(segments[0].name, request[0], Match(segments[1..], request[1..]).value, captures);
      }
    }
  }

  /** Some values for the captures turn the pattern into the request. */
  ghost predicate Substitutes(segments: seq<Segment>, request: seq<string>) {
    exists values :: |values| == CaptureCount(segments) && Expand(segments, values) == request
  }

  /** A path matches a pattern, whatever the pattern, exactly when some values for the captures
      turn the pattern into it, as far as the pattern is read. */
  lemma MatchIsSubstitution(segments: seq<Segment>, path: string)
    ensures Match(segments, SplitPath(path)).Some? <==> Substitutes(Cutoff(segments), SplitPath(path))
    ensures WildcardLast(segments) ==>
              (Match(segments, SplitPath(path)).Some? <==> Substitutes(segments, SplitPath(path)))
  {
    var request := SplitPath(path);
    var cut := Cutoff(segments);
    SplitPathJoins(path);
    CutoffIsWhole(segments);
    CutoffMatchesAlike(segments, request);
    if Match(segments, request).Some? {
      CapturesOfLastWildcard(cut, request);
      assert Expand(cut, ValuesOf(Match(cut, request).value)) == request;
    }
    forall values | |values| == CaptureCount(cut) && Expand(cut, values) == request
      ensures Match(segments, request).Some?
    {
      ExpansionMatches(cut, values);
    }
  }

  /** Rebuilding the path from the captured values gives the request path, up to slashes at its ends. */
  lemma RebuiltPathIsRequestPath(segments: seq<Segment>, path: string)
    requires Match(segments, SplitPath(path)).Some?
    ensures var captures := Match(segments, SplitPath(path)).value;
            && |captures| == CaptureCount(Cutoff(segments))
            && Join(Expand(Cutoff(segments), ValuesOf(captures)), '/') == TrimSlashes(path)
  {
    SplitPathJoins(path);
    CapturesExpandToRequest(segments, SplitPath(path));
  }

  /** The whole pattern would not do: a wildcard before the end swallows the segments written
      after it. */
  lemma MiddleWildcardBreaksSubstitution()
    ensures var segments := [Wildcard("rest"), Literal("end")];
            && Match(segments, ["a"]).Some?
            && !Substitutes(segments, ["a"])
  {
    var segments := [Wildcard("rest"), Literal("end")];
    assert segments[1..] == [Literal("end")] && segments[1..][1..] == [];
    forall values | |values| == CaptureCount(segments)
      ensures Expand(segments, values) != ["a"]
    {
      var head := if values[0] == "" then [] else Split(values[0], '/');
      var tail := Expand(segments[1..], values[1..]);
      assert tail == ["end"] + Expand([], values[1..]) == ["end"];
      assert (head + ["end"])[|head|] == "end";
      assert "a"[0] != "end"[0];
    }
  }
}
