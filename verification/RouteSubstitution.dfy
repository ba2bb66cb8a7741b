/** Exactly which route patterns match by substitution into the whole pattern, and not only into the
    part through the first wildcard. */
module RouteSubstitution {
  import opened Text
  import opened RoutePattern

  /** Every path matches exactly when some values for all the captures turn the pattern into it. */
  ghost predicate SubstitutesWhole(segments: seq<Segment>) {
    forall path :: Match(segments, SplitPath(path)).Some? <==> Substitutes(segments, SplitPath(path))
  }

  /** What is written behind the first wildcard. */
  function Tail(segments: seq<Segment>): seq<Segment> {
    segments[|Cutoff(segments)|..]
  }

  predicate AllWild(segments: seq<Segment>) {
    forall i :: 0 <= i < |segments| ==> segments[i].Wildcard?
  }

  /** The first wildcard stands right behind an empty literal, that is, behind a doubled slash. */
  predicate BehindEmpty(segments: seq<Segment>) {
    var n := |Cutoff(segments)|;
    n >= 2 && segments[n - 2] == Literal("")
  }

  /** Position `i` holds a parameter, everything else is a wildcard, and one of them comes later. */
  predicate OneParam(segments: seq<Segment>, i: int) {
    && 0 <= i < |segments| - 1 && segments[i].Param?
    && forall j :: 0 <= j < |segments| && j != i ==> segments[j].Wildcard?
  }

  predicate OneParamBeforeWild(segments: seq<Segment>) {
    exists i :: 0 <= i < |segments| - 1 && OneParam(segments, i)
  }

  /** Nothing but wildcards behind the first one; or, behind a doubled slash, at most one parameter
      among them, and not at the end. */
  predicate Loose(segments: seq<Segment>) {
    AllWild(Tail(segments)) || (BehindEmpty(segments) && OneParamBeforeWild(Tail(segments)))
  }

  // ----- expanding pieces of a pattern

  lemma {:induction false} CountConcat(a: seq<Segment>, b: seq<Segment>)
    ensures CaptureCount(a + b) == CaptureCount(a) + CaptureCount(b)
  {
    if a == [] {
      assert a + b == b;
    } else {
      CountConcat(a[1..], b);
      assert (a + b)[1..] == a[1..] + b;
    }
  }

  /** What one segment expands to, and the values left for the others. */
  function HeadOf(s: Segment, values: seq<string>): seq<string>
    requires !s.Literal? ==> values != []
  {
    match s
    case Literal(value) => [value]
    case Param(_) => [values[0]]
    case Wildcard(_) => if values[0] == "" then [] else Split(values[0], '/')
  }

  function RestOf(s: Segment, values: seq<string>): seq<string>
    requires !s.Literal? ==> values != []
  {
    if s.Literal? then values else values[1..]
  }

  lemma ExpandCons(segments: seq<Segment>, values: seq<string>)
    requires segments != [] && |values| == CaptureCount(segments)
    ensures |RestOf(segments[0], values)| == CaptureCount(segments[1..])
    ensures Expand(segments, values) == HeadOf(segments[0], values) + Expand(segments[1..], RestOf(segments[0], values))
  {
  }

  lemma Associates(a: seq<string>, b: seq<string>, c: seq<string>)
    ensures a + (b + c) == (a + b) + c
  {
  }

  lemma {:induction false} ExpandConcat(a: seq<Segment>, b: seq<Segment>, va: seq<string>, vb: seq<string>)
    requires |va| == CaptureCount(a) && |vb| == CaptureCount(b)
    ensures CaptureCount(a + b) == |va + vb| && Expand(a + b, va + vb) == Expand(a, va) + Expand(b, vb)
  {
    CountConcat(a, b);
    if a == [] {
      assert a + b == b && va + vb == vb;
    } else {
      var x, rest := a[0], RestOf(a[0], va);
      assert (a + b)[0] == x && (a + b)[1..] == a[1..] + b;
      assert HeadOf(x, va + vb) == HeadOf(x, va) && RestOf(x, va + vb) == rest + vb;
      ExpandCons(a, va);
      ExpandCons(a + b, va + vb);
      ExpandConcat(a[1..], b, rest, vb);
      Associates(HeadOf(x, va), Expand(a[1..], rest), Expand(b, vb));
    }
  }

  lemma ExpandSplit(a: seq<Segment>, b: seq<Segment>, values: seq<string>)
    requires |values| == CaptureCount(a + b)
    ensures var n := CaptureCount(a);
            && n <= |values| && |values| - n == CaptureCount(b)
            && Expand(a + b, values) == Expand(a, values[..n]) + Expand(b, values[n..])
  {
    CountConcat(a, b);
    var n := CaptureCount(a);
    ExpandConcat(a, b, values[..n], values[n..]);
    assert values[..n] + values[n..] == values;
  }

  function NonWild(segments: seq<Segment>): (n: nat)
    ensures n <= |segments|
  {
    if segments == [] then 0 else (if segments[0].Wildcard? then 0 else 1) + NonWild(segments[1..])
  }

  lemma {:induction false} ExpansionIsLong(segments: seq<Segment>, values: seq<string>)
    requires |values| == CaptureCount(segments)
    ensures |Expand(segments, values)| >= NonWild(segments)
    ensures NonWild(segments) == |segments| ==> |Expand(segments, values)| == |segments|
  {
    if segments == [] {
    } else {
      ExpansionIsLong(segments[1..], if segments[0].Literal? then values else values[1..]);
    }
  }

  lemma {:induction false} NonWildConcat(a: seq<Segment>, b: seq<Segment>)
    ensures NonWild(a + b) == NonWild(a) + NonWild(b)
  {
    if a == [] {
      assert a + b == b;
    } else {
      NonWildConcat(a[1..], b);
      assert (a + b)[1..] == a[1..] + b;
    }
  }

  lemma {:induction false} NonWildMeans(segments: seq<Segment>)
    ensures NonWild(segments) == 0 <==> AllWild(segments)
    ensures NonWild(segments) == |segments| <==> forall i :: 0 <= i < |segments| ==> !segments[i].Wildcard?
  {
    if segments == [] {
    } else {
      NonWildMeans(segments[1..]);
      assert segments == [segments[0]] + segments[1..];
      assert forall i :: 0 <= i < |segments[1..]| ==> segments[1..][i] == segments[i + 1];
    }
  }

  /** Wildcards with empty values expand to nothing. */
  function Empties(n: nat): (values: seq<string>)
    ensures |values| == n && forall i :: 0 <= i < n ==> values[i] == ""
  {
    seq(n, _ => "")
  }

  lemma {:induction false} WildCount(segments: seq<Segment>)
    requires AllWild(segments)
    ensures CaptureCount(segments) == |segments|
  {
    if segments == [] {
    } else {
      WildCount(segments[1..]);
    }
  }

  lemma {:induction false} EmptyWilds(segments: seq<Segment>)
    requires AllWild(segments)
    ensures CaptureCount(segments) == |segments| && Expand(segments, Empties(|segments|)) == []
  {
    WildCount(segments);
    if segments == [] {
    } else {
      EmptyWilds(segments[1..]);
      assert Empties(|segments|)[1..] == Empties(|segments| - 1);
    }
  }

  /** Wildcards never expand to one empty segment. */
  lemma {:induction false} WildsAreNotOneEmpty(segments: seq<Segment>, values: seq<string>)
    requires AllWild(segments) && |values| == CaptureCount(segments)
    ensures Expand(segments, values) != [""]
  {
    if segments == [] {
    } else {
      WildsAreNotOneEmpty(segments[1..], values[1..]);
      var head := if values[0] == "" then [] else Split(values[0], '/');
      var rest := Expand(segments[1..], values[1..]);
      if values[0] != "" {
        JoinOfSplit(values[0], '/');
        assert head == [""] ==> Join(head, '/') == "";
      } else {
        assert head + rest == rest;
      }
    }
  }

  // ----- the law holds for loose patterns

  lemma CutoffParts(segments: seq<Segment>)
    ensures segments == Cutoff(segments) + Tail(segments)
    ensures Tail(segments) != [] ==> Cutoff(segments) != [] && Cutoff(segments)[|Cutoff(segments)| - 1].Wildcard?
    decreases |segments|
  {
    if segments != [] && !segments[0].Wildcard? {
      CutoffParts(segments[1..]);
    }
  }

  lemma WildTailSubstitutes(segments: seq<Segment>, request: seq<string>)
    requires AllWild(Tail(segments)) && Substitutes(Cutoff(segments), request)
    ensures Substitutes(segments, request)
  {
    var cut, tail := Cutoff(segments), Tail(segments);
    CutoffParts(segments);
    var values :| |values| == CaptureCount(cut) && Expand(cut, values) == request;
    EmptyWilds(tail);
    ExpandConcat(cut, tail, values, Empties(|tail|));
    assert request + [] == request;
  }

  /** A wildcard takes any segments, and wildcards behind it nothing. */
  lemma WildTakes(w: Segment, b: seq<Segment>, rest: seq<string>) returns (values: seq<string>)
    requires w.Wildcard? && AllWild(b) && PathSegments(rest)
    ensures |values| == CaptureCount([w] + b) && Expand([w] + b, values) == rest
  {
    var joined := Join(rest, '/');
    JoinedRestSplits(rest);
    EmptyWilds(b);
    values := [joined] + Empties(|b|);
    assert ([w] + b)[1..] == b && values[1..] == Empties(|b|);
    assert rest + [] == rest;
  }

  lemma ParamTakes(x: Segment, after: seq<Segment>, part: string, values: seq<string>)
    requires x.Param? && |values| == CaptureCount(after)
    ensures CaptureCount([x] + after) == |[part] + values|
    ensures Expand([x] + after, [part] + values) == [part] + Expand(after, values)
  {
    assert ([x] + after)[1..] == after && ([part] + values)[1..] == values;
  }

  /** A tail with one parameter, and a wildcard behind it, takes any segments that begin with a value
      for the parameter. */
  lemma OneParamTakes(tail: seq<Segment>, i: int, parts: seq<string>) returns (values: seq<string>)
    requires OneParam(tail, i) && parts != [] && PathSegments(parts)
    ensures |values| == CaptureCount(tail) && Expand(tail, values) == parts
  {
    var a, x, w, b := tail[..i], tail[i], tail[i + 1], tail[i + 2..];
    var after := [w] + b;
    assert tail == a + ([x] + after);
    var behind := WildTakes(w, b, parts[1..]);
    ParamTakes(x, after, parts[0], behind);
    EmptyWilds(a);
    values := Empties(|a|) + ([parts[0]] + behind);
    ExpandConcat(a, [x] + after, Empties(|a|), [parts[0]] + behind);
    assert [] + ([parts[0]] + parts[1..]) == parts;
  }

  lemma TailTakesAll(w: seq<Segment>, tail: seq<Segment>, parts: seq<string>) returns (values: seq<string>)
    requires |w| == 1 && AllWild(w) && OneParamBeforeWild(tail) && parts != [] && PathSegments(parts)
    ensures |values| == CaptureCount(w + tail) && Expand(w + tail, values) == parts
  {
    var i :| 0 <= i < |tail| - 1 && OneParam(tail, i);
    var rest := OneParamTakes(tail, i, parts);
    EmptyThen(w, tail, rest, parts);
    values := Empties(1) + rest;
  }

  /** The first wildcard gives up its segments to the tail. */
  lemma TailTakesOver(pre: seq<Segment>, w: seq<Segment>, tail: seq<Segment>, values: seq<string>, head: seq<string>,
                      parts: seq<string>)
    requires |w| == 1 && AllWild(w) && OneParamBeforeWild(tail)
    requires pre != [] && pre[|pre| - 1] == Literal("") && |values| == CaptureCount(pre)
    requires head == Expand(pre, values) && PathSegments(head + parts)
    ensures Substitutes(pre + (w + tail), head + parts)
  {
    EndsWithEmpty(pre, values);
    TailSegments(head, parts);
    var rest := TailTakesAll(w, tail, parts);
    PutBefore(pre, w + tail, values, rest, head + parts);
  }

  lemma PutBefore(a: seq<Segment>, b: seq<Segment>, va: seq<string>, vb: seq<string>, request: seq<string>)
    requires |va| == CaptureCount(a) && |vb| == CaptureCount(b) && request == Expand(a, va) + Expand(b, vb)
    ensures Substitutes(a + b, request)
  {
    ExpandConcat(a, b, va, vb);
  }

  /** A wildcard without a value adds nothing. */
  lemma EmptyThen(w: seq<Segment>, tail: seq<Segment>, values: seq<string>, parts: seq<string>)
    requires |w| == 1 && AllWild(w) && |values| == CaptureCount(tail) && Expand(tail, values) == parts
    ensures CaptureCount(w + tail) == |Empties(1) + values| && Expand(w + tail, Empties(1) + values) == parts
  {
    EmptyWilds(w);
    ExpandConcat(w, tail, Empties(1), values);
    assert [] + parts == parts;
  }

  lemma CutGivesUp(segments: seq<Segment>, cut: seq<Segment>, tail: seq<Segment>, request: seq<string>)
    requires segments == cut + tail && |cut| >= 2 && cut[|cut| - 1].Wildcard? && cut[|cut| - 2] == Literal("")
    requires OneParamBeforeWild(tail) && PathSegments(request) && Substitutes(cut, request)
    ensures Substitutes(segments, request)
  {
    var n := |cut| - 1;
    var pre, w := cut[..n], [cut[n]];
    assert cut == pre + w;
    assert segments == pre + (w + tail);
    var values :| |values| == CaptureCount(cut) && Expand(cut, values) == request;
    ExpandSplit(pre, w, values);
    var k := CaptureCount(pre);
    TailTakesOver(pre, w, tail, values[..k], Expand(pre, values[..k]), Expand(w, values[k..]));
  }

  lemma OneParamSubstitutes(segments: seq<Segment>, request: seq<string>)
    requires BehindEmpty(segments) && OneParamBeforeWild(Tail(segments)) && PathSegments(request)
    requires Substitutes(Cutoff(segments), request)
    ensures Substitutes(segments, request)
  {
    CutoffParts(segments);
    CutGivesUp(segments, Cutoff(segments), Tail(segments), request);
  }

  /** A pattern that ends with an empty literal expands to segments that end with an empty one. */
  lemma EndsWithEmpty(pre: seq<Segment>, values: seq<string>)
    requires pre != [] && pre[|pre| - 1] == Literal("") && |values| == CaptureCount(pre)
    ensures var e := Expand(pre, values); e != [] && e[|e| - 1] == ""
  {
    var a, b := pre[..|pre| - 1], pre[|pre| - 1..];
    assert pre == a + b && b == [Literal("")] && b[1..] == [];
    ExpandSplit(a, b, values);
  }

  lemma TailSegments(head: seq<string>, parts: seq<string>)
    requires PathSegments(head + parts) && head != [] && head[|head| - 1] == ""
    ensures parts != [] && PathSegments(parts)
  {
    var all := head + parts;
    assert forall p :: p in parts ==> p in all;
    assert parts == [] ==> all == head;
    assert parts != [] ==> all[|all| - 1] == parts[|parts| - 1];
  }

  lemma LooseSubstitutes(segments: seq<Segment>)
    requires Loose(segments)
    ensures SubstitutesWhole(segments)
  {
    forall path
      ensures Match(segments, SplitPath(path)).Some? <==> Substitutes(segments, SplitPath(path))
    {
      var request := SplitPath(path);
      SplitPathJoins(path);
      MatchIsSubstitution(segments, path);
      if Match(segments, request).Some? {
        if AllWild(Tail(segments)) {
          WildTailSubstitutes(segments, request);
        } else {
          OneParamSubstitutes(segments, request);
        }
      }
      forall values | |values| == CaptureCount(segments) && Expand(segments, values) == request
        ensures Match(segments, request).Some?
      {
        ExpansionMatches(segments, values);
      }
    }
  }

  // ----- and fails for all others

  /** What parsing guarantees: no slash in a literal, and no empty literal at the front. */
  predicate Parsed(segments: seq<Segment>) {
    && (forall i :: 0 <= i < |segments| && segments[i].Literal? ==> '/' !in segments[i].value)
    && (segments != [] && segments[0].Literal? ==> segments[0].value != "")
  }

  lemma PatternsAreParsed(path: string)
    ensures Parsed(PatternOf(path).segments)
  {
    var parts := SplitPath(path);
    SegmentsElementwise(parts);
    FirstPart(path);
    assert forall i :: 0 <= i < |parts| ==> parts[i] in parts;
  }

  lemma FirstPart(path: string)
    ensures SplitPath(path) != [] ==> SplitPath(path)[0] != ""
  {
    TrimmedStart(TrimLeadingSlashes(path));
  }

  lemma {:induction false} TrimmedStart(s: string)
    requires s != "" ==> s[0] != '/'
    ensures var t := TrimTrailingSlashes(s); t != "" ==> t[0] != '/' && Split(t, '/')[0] != ""
  {
    var t := TrimTrailingSlashes(s);
    if t != "" {
      assert t[0] == s[0];
      var (left, right) := Cut(t, '/');
      assert '/' in t ==> left != "";
    }
  }

  /** Segments that a path can have. */
  predicate IsRequest(request: seq<string>) {
    PathSegments(request) && (request != [] ==> request[0] != "")
  }

  lemma NothingToTrim(t: string)
    requires t != "" ==> t[0] != '/' && t[|t| - 1] != '/'
    ensures TrimSlashes(t) == t
  {
    assert TrimLeadingSlashes(t) == t;
  }

  lemma RequestHasPath(request: seq<string>)
    requires IsRequest(request)
    ensures SplitPath(Join(request, '/')) == request
  {
    if request == [] {
      NothingToTrim("");
    } else {
      JoinedRequest(request, Join(request, '/'));
    }
  }

  lemma JoinedRequest(request: seq<string>, t: string)
    requires IsRequest(request) && request != [] && t == Join(request, '/')
    ensures SplitPath(t) == request
  {
    JoinEnds(request);
    var last := request[|request| - 1];
    assert request[0] in request && last in request;
    NothingToTrim(t);
    SplitOfJoin(request, '/');
  }

  lemma {:induction false} JoinEnds(request: seq<string>)
    requires request != [] && request[|request| - 1] != ""
    ensures var t := Join(request, '/'); t != "" && t[|t| - 1] == request[|request| - 1][|request[|request| - 1]| - 1]
    ensures request[0] != "" ==> Join(request, '/')[0] == request[0][0]
  {
    if |request| == 1 {
    } else {
      JoinEnds(request[1..]);
    }
  }

  // ----- patterns written down

  function SegmentText(s: Segment): string {
    match s
    case Literal(value) => value
    case Param(name) => ":" + name
    case Wildcard(name) => "*" + name
  }

  function SegmentTexts(segments: seq<Segment>): (texts: seq<string>)
    ensures |texts| == |segments| && forall i :: 0 <= i < |texts| ==> texts[i] == SegmentText(segments[i])
  {
    seq(|segments|, i requires 0 <= i < |segments| => SegmentText(segments[i]))
  }

  /** Segments that can be written as a path: no slash inside, something at both ends, and no literal
      that looks like a capture. */
  predicate Writable(segments: seq<Segment>) {
    && (forall i :: 0 <= i < |segments| ==> '/' !in SegmentText(segments[i]))
    && (forall i :: 0 <= i < |segments| && segments[i].Literal? && segments[i].value != "" ==>
          segments[i].value[0] != ':' && segments[i].value[0] != '*')
    && (segments != [] ==> SegmentText(segments[0]) != "" && SegmentText(segments[|segments| - 1]) != "")
  }

  lemma SegmentOfText(s: Segment)
    requires s.Literal? && s.value != "" ==> s.value[0] != ':' && s.value[0] != '*'
    ensures SegmentOf(SegmentText(s)) == s
  {
    if !s.Literal? {
      assert SegmentText(s)[1..] == s.name;
    }
  }

  lemma TextOfSegment(part: string)
    ensures SegmentText(SegmentOf(part)) == part
  {
    assert part != "" ==> part == [part[0]] + part[1..];
  }

  lemma TextsAreRequest(segments: seq<Segment>, texts: seq<string>)
    requires Writable(segments) && texts == SegmentTexts(segments)
    ensures IsRequest(texts)
  {
    forall p | p in texts
      ensures '/' !in p
    {
      var i :| 0 <= i < |texts| && texts[i] == p;
    }
  }

  lemma SegmentsOfTexts(segments: seq<Segment>, texts: seq<string>)
    requires Writable(segments) && texts == SegmentTexts(segments)
    ensures SegmentsOf(texts) == segments
  {
    SegmentsElementwise(texts);
    forall i | 0 <= i < |segments|
      ensures SegmentOf(texts[i]) == segments[i]
    {
      SegmentOfText(segments[i]);
    }
  }

  /** Round trip: a pattern written down is parsed back, with parameters behind a colon and wildcards
      behind a star. */
  lemma WrittenPatternIsRead(segments: seq<Segment>)
    requires Writable(segments)
    ensures PatternOf(Join(SegmentTexts(segments), '/')).segments == segments
  {
    var texts := SegmentTexts(segments);
    TextsAreRequest(segments, texts);
    RequestHasPath(texts);
    SegmentsOfTexts(segments, texts);
  }

  lemma TextsOfSegments(parts: seq<string>)
    ensures SegmentTexts(SegmentsOf(parts)) == parts
  {
    SegmentsElementwise(parts);
    forall i | 0 <= i < |parts|
      ensures SegmentTexts(SegmentsOf(parts))[i] == parts[i]
    {
      TextOfSegment(parts[i]);
    }
  }

  /** And the other way round: what is parsed reads as the path does. */
  lemma ParsedPatternReadsTheSame(path: string)
    ensures SegmentTexts(PatternOf(path).segments) == SplitPath(path)
  {
    TextsOfSegments(SplitPath(path));
  }

  /** A request for the pattern before its wildcard: an `x` for every parameter. */
  function Instance(pre: seq<Segment>): (request: seq<string>)
    ensures |request| == |pre|
  {
    if pre == [] then []
    else [if pre[0].Literal? then pre[0].value else "x"] + Instance(pre[1..])
  }

  lemma {:induction false} InstanceAt(pre: seq<Segment>, i: nat)
    requires i < |pre|
    ensures Instance(pre)[i] == if pre[i].Literal? then pre[i].value else "x"
  {
    if i == 0 {
    } else {
      InstanceAt(pre[1..], i - 1);
    }
  }

  lemma {:induction false} InstanceMatches(pre: seq<Segment>, w: Segment, tail: seq<Segment>, rest: seq<string>)
    requires w.Wildcard? && forall i :: 0 <= i < |pre| ==> !pre[i].Wildcard?
    ensures Match(pre + ([w] + tail), Instance(pre) + rest).Some?
  {
    if pre == [] {
      assert pre + ([w] + tail) == [w] + tail;
    } else {
      InstanceMatches(pre[1..], w, tail, rest);
      assert (pre + ([w] + tail))[1..] == pre[1..] + ([w] + tail);
      assert (Instance(pre) + rest)[1..] == Instance(pre[1..]) + rest;
    }
  }

  /** A request that matches and that no substitution gives. */
  ghost predicate Breaks(segments: seq<Segment>, request: seq<string>) {
    IsRequest(request) && Match(segments, request).Some? && !Substitutes(segments, request)
  }

  lemma BreakingIsEnough(segments: seq<Segment>, request: seq<string>)
    requires Breaks(segments, request)
    ensures !SubstitutesWhole(segments)
  {
    RequestHasPath(request);
    assert Match(segments, SplitPath(Join(request, '/'))).Some?;
  }

  lemma InstanceHasNoSlash(pre: seq<Segment>, i: nat)
    requires Parsed(pre) && i < |pre|
    ensures '/' !in Instance(pre)[i]
  {
    InstanceAt(pre, i);
  }

  lemma NoSlashConcat(a: seq<string>, b: seq<string>)
    requires (forall i :: 0 <= i < |a| ==> '/' !in a[i]) && (forall p :: p in b ==> '/' !in p)
    ensures forall p :: p in a + b ==> '/' !in p
  {
  }

  lemma InstanceIsRequest(pre: seq<Segment>, rest: seq<string>)
    requires Parsed(pre) && (forall p :: p in rest ==> '/' !in p)
    requires rest != [] ==> rest[|rest| - 1] != "" && (pre == [] ==> rest[0] != "")
    requires rest == [] && pre != [] ==> pre[|pre| - 1] != Literal("")
    ensures IsRequest(Instance(pre) + rest)
  {
    var a := Instance(pre);
    forall i | 0 <= i < |a|
      ensures '/' !in a[i]
    {
      InstanceHasNoSlash(pre, i);
    }
    NoSlashConcat(a, rest);
    InstanceEnds(pre, a);
    RequestEnds(a, rest);
  }

  lemma InstanceEnds(pre: seq<Segment>, a: seq<string>)
    requires Parsed(pre) && a == Instance(pre)
    ensures pre != [] ==> a[0] != "" && (pre[|pre| - 1] != Literal("") ==> a[|a| - 1] != "")
  {
    if pre != [] {
      InstanceAt(pre, 0);
      InstanceAt(pre, |pre| - 1);
    }
  }

  lemma RequestEnds(a: seq<string>, rest: seq<string>)
    requires forall p :: p in a + rest ==> '/' !in p
    requires if rest == [] then a != [] ==> a[|a| - 1] != "" else rest[|rest| - 1] != ""
    requires if a == [] then rest != [] ==> rest[0] != "" else a[0] != ""
    ensures IsRequest(a + rest)
  {
  }

  /** A request shorter than what the whole pattern always expands to. */
  lemma TooShort(segments: seq<Segment>, request: seq<string>)
    requires |request| < NonWild(segments)
    ensures !Substitutes(segments, request)
  {
    forall values | |values| == CaptureCount(segments)
      ensures Expand(segments, values) != request
    {
      ExpansionIsLong(segments, values);
    }
  }

  /** The pattern is `pre`, a wildcard and a tail with something else than wildcards in it. */
  ghost predicate Splits(segments: seq<Segment>, pre: seq<Segment>, w: Segment, tail: seq<Segment>) {
    && segments == pre + ([w] + tail) && w.Wildcard? && (forall i :: 0 <= i < |pre| ==> !pre[i].Wildcard?)
    && Parsed(segments) && !AllWild(tail)
  }

  lemma SplitCounts(segments: seq<Segment>, pre: seq<Segment>, w: Segment, tail: seq<Segment>)
    requires Splits(segments, pre, w, tail)
    ensures NonWild(segments) == |pre| + NonWild(tail) && NonWild(tail) > 0 && Parsed(pre) && NonWild(pre) == |pre|
  {
    NonWildMeans(pre);
    NonWildMeans(tail);
    NonWildConcat(pre, [w] + tail);
    assert ([w] + tail)[1..] == tail;
    forall i | 0 <= i < |pre|
      ensures segments[i] == pre[i]
    {
    }
  }

  lemma NotBehindEmptyBreaks(segments: seq<Segment>, pre: seq<Segment>, w: Segment, tail: seq<Segment>)
    requires Splits(segments, pre, w, tail) && (pre != [] ==> pre[|pre| - 1] != Literal(""))
    ensures Breaks(segments, Instance(pre))
  {
    SplitCounts(segments, pre, w, tail);
    assert Instance(pre) + [] == Instance(pre);
    InstanceMatches(pre, w, tail, []);
    InstanceIsRequest(pre, []);
    TooShort(segments, Instance(pre));
  }

  lemma TwoMoreBreak(segments: seq<Segment>, pre: seq<Segment>, w: Segment, tail: seq<Segment>)
    requires Splits(segments, pre, w, tail) && NonWild(tail) >= 2
    ensures Breaks(segments, Instance(pre) + ["y"])
  {
    SplitCounts(segments, pre, w, tail);
    InstanceMatches(pre, w, tail, ["y"]);
    InstanceIsRequest(pre, ["y"]);
    TooShort(segments, Instance(pre) + ["y"]);
  }

  /** What a tail with a single other segment expands to. */
  lemma ExpandAround(pre: seq<Segment>, w: Segment, a: seq<Segment>, x: Segment, b: seq<Segment>, values: seq<string>)
    returns (p: seq<string>, e: seq<string>, v: string, f: seq<string>)
    requires w.Wildcard? && !x.Wildcard? && AllWild(a) && AllWild(b) && NonWild(pre) == |pre|
    requires |values| == CaptureCount(pre + ([w] + (a + ([x] + b))))
    ensures Expand(pre + ([w] + (a + ([x] + b))), values) == p + (e + ([v] + f))
    ensures |p| == |pre| && e != [""] && (x.Literal? ==> v == x.value) && (b == [] ==> f == [])
  {
    var wa := [w] + a;
    assert [w] + (a + ([x] + b)) == wa + ([x] + b);
    ExpandSplit(pre, wa + ([x] + b), values);
    var n := CaptureCount(pre);
    var rest := values[n..];
    ExpandSplit(wa, [x] + b, rest);
    var k := CaptureCount(wa);
    var last := rest[k..];
    ExpandSplit([x], b, last);
    var c := CaptureCount([x]);
    p := Expand(pre, values[..n]);
    ExpansionIsLong(pre, values[..n]);
    e := Expand(wa, rest[..k]);
    assert AllWild(wa);
    WildsAreNotOneEmpty(wa, rest[..k]);
    assert [x][1..] == [];
    v := Expand([x], last[..c])[0];
    f := Expand(b, last[c..]);
    assert Expand([x], last[..c]) == [v];
  }

  lemma OtherLiteralBreaks(segments: seq<Segment>, pre: seq<Segment>, w: Segment, a: seq<Segment>, x: Segment, b: seq<Segment>,
                           y: string)
    requires Splits(segments, pre, w, a + ([x] + b)) && AllWild(a) && AllWild(b) && x.Literal? && y != x.value
    requires y != "" && '/' !in y
    ensures Breaks(segments, Instance(pre) + [y])
  {
    var request := Instance(pre) + [y];
    var tail := a + ([x] + b);
    SplitCounts(segments, pre, w, tail);
    InstanceMatches(pre, w, tail, [y]);
    InstanceIsRequest(pre, [y]);
    forall values | |values| == CaptureCount(segments)
      ensures Expand(segments, values) != request
    {
      var p, e, v, f := ExpandAround(pre, w, a, x, b, values);
      var all := p + (e + ([v] + f));
      assert |all| == |request| ==> e == [] && all[|pre|] == v;
      assert request[|pre|] == y;
    }
  }

  lemma LastParamBreaks(segments: seq<Segment>, pre: seq<Segment>, w: Segment, a: seq<Segment>, x: Segment)
    requires Splits(segments, pre, w, a + ([x] + [])) && AllWild(a) && x.Param? && pre != []
    ensures Breaks(segments, Instance(pre) + ["", "y"])
  {
    var request := Instance(pre) + ["", "y"];
    var tail := a + ([x] + []);
    SplitCounts(segments, pre, w, tail);
    InstanceMatches(pre, w, tail, ["", "y"]);
    InstanceIsRequest(pre, ["", "y"]);
    forall values | |values| == CaptureCount(segments)
      ensures Expand(segments, values) != request
    {
      var p, e, v, f := ExpandAround(pre, w, a, x, [], values);
      var all := p + (e + ([v] + f));
      assert |all| == |request| ==> |e| == 1 && all[|pre|] == e[0];
      assert |e| == 1 ==> e == [e[0]];
      assert request[|pre|] == "";
    }
  }

  /** Everything but position `i` is a wildcard. */
  predicate OnlyAt(tail: seq<Segment>, i: int) {
    0 <= i < |tail| && !tail[i].Wildcard? && forall j :: 0 <= j < |tail| && j != i ==> tail[j].Wildcard?
  }

  lemma {:induction false} SingleOut(tail: seq<Segment>) returns (i: nat)
    requires NonWild(tail) == 1
    ensures OnlyAt(tail, i)
  {
    if tail[0].Wildcard? {
      var k := SingleOut(tail[1..]);
      i := k + 1;
      assert forall j :: 0 < j < |tail| ==> tail[j] == tail[1..][j - 1];
    } else {
      i := 0;
      NonWildMeans(tail[1..]);
      assert forall j :: 0 < j < |tail| ==> tail[j] == tail[1..][j - 1];
    }
  }

  lemma AroundIt(tail: seq<Segment>, i: nat)
    requires OnlyAt(tail, i)
    ensures AllWild(tail[..i]) && AllWild(tail[i + 1..]) && tail == tail[..i] + ([tail[i]] + tail[i + 1..])
  {
  }

  lemma OthersBreak(segments: seq<Segment>, pre: seq<Segment>, w: Segment, tail: seq<Segment>) returns (request: seq<string>)
    requires Splits(segments, pre, w, tail)
    requires !(pre != [] && pre[|pre| - 1] == Literal("") && OneParamBeforeWild(tail))
    ensures Breaks(segments, request)
  {
    if pre == [] || pre[|pre| - 1] != Literal("") {
      NotBehindEmptyBreaks(segments, pre, w, tail);
      return Instance(pre);
    }
    SplitCounts(segments, pre, w, tail);
    if NonWild(tail) >= 2 {
      TwoMoreBreak(segments, pre, w, tail);
      return Instance(pre) + ["y"];
    }
    var i := SingleOut(tail);
    AroundIt(tail, i);
    var a, x, b := tail[..i], tail[i], tail[i + 1..];
    if x.Literal? {
      var y := if x.value == "y" then "z" else "y";
      OtherLiteralBreaks(segments, pre, w, a, x, b, y);
      return Instance(pre) + [y];
    }
    NotAtEnd(tail, i);
    LastParamBreaks(segments, pre, w, a, x);
    return Instance(pre) + ["", "y"];
  }

  lemma NotAtEnd(tail: seq<Segment>, i: nat)
    requires i < |tail| && tail[i].Param? && AllWild(tail[..i]) && AllWild(tail[i + 1..]) && !OneParamBeforeWild(tail)
    ensures tail[i + 1..] == []
  {
    forall j | 0 <= j < |tail| && j != i
      ensures tail[j].Wildcard?
    {
      assert j < i ==> tail[..i][j] == tail[j];
      assert j > i ==> tail[i + 1..][j - i - 1] == tail[j];
    }
    assert i < |tail| - 1 ==> OneParam(tail, i);
  }

  lemma TightCutBreaks(segments: seq<Segment>, cut: seq<Segment>, tail: seq<Segment>)
    requires segments == cut + tail && cut != [] && cut[|cut| - 1].Wildcard? && WildcardLast(cut)
    requires Parsed(segments) && !AllWild(tail)
    requires !(|cut| >= 2 && cut[|cut| - 2] == Literal("") && OneParamBeforeWild(tail))
    ensures !SubstitutesWhole(segments)
  {
    var n := |cut| - 1;
    var pre, w := cut[..n], cut[n];
    assert segments == pre + ([w] + tail);
    var request := OthersBreak(segments, pre, w, tail);
    BreakingIsEnough(segments, request);
  }

  lemma TightBreaks(segments: seq<Segment>)
    requires Parsed(segments) && !Loose(segments)
    ensures !SubstitutesWhole(segments)
  {
    CutoffParts(segments);
    TightCutBreaks(segments, Cutoff(segments), Tail(segments));
  }

  /** For every pattern: matching is substitution into the whole pattern exactly when nothing but
      wildcards follow the first wildcard, or that one stands behind a doubled slash and is followed
      by wildcards and a single parameter that is not last. */
  lemma WholeSubstitutionExactly(path: string)
    ensures SubstitutesWhole(PatternOf(path).segments) <==> Loose(PatternOf(path).segments)
  {
    var segments := PatternOf(path).segments;
    PatternsAreParsed(path);
    if Loose(segments) {
      LooseSubstitutes(segments);
    } else {
      TightBreaks(segments);
    }
  }
}
