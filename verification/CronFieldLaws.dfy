/** What the field parser accepts, what it makes of it, and how to write any field down. */
module CronFieldLaws {
  import opened Text
  import opened CronFields

  // ----- acceptance

  ghost predicate Denotes(segment: string, lo: int, hi: int, names: Names) {
    exists r :: SegmentDenotes(segment, lo, hi, names, r) && !Overflows(r)
  }

  ghost predicate DenotesOverflow(segment: string, lo: int, hi: int, names: Names) {
    exists r :: SegmentDenotes(segment, lo, hi, names, r) && Overflows(r)
  }

  lemma DenotesIsParse(segment: string, lo: int, hi: int, names: Names)
    ensures Denotes(segment, lo, hi, names) <==>
            var p := ParseSegment(segment, lo, hi, names); p.Ok? && !Overflows(p.value)
    ensures DenotesOverflow(segment, lo, hi, names) <==>
            var p := ParseSegment(segment, lo, hi, names); p.Ok? && Overflows(p.value)
  {
    forall r {
      ParseSegmentMeetsGrammar(segment, lo, hi, names, r);
    }
  }

  predicate Bad(p: Parsed<Range>) { p.Ok? && Overflows(p.value) }

  ghost predicate FirstBad(parsed: seq<Parsed<Range>>, i: int) {
    0 <= i < |parsed| && Bad(parsed[i]) && forall j :: 0 <= j < i ==> Good(parsed[j])
  }

  lemma ScanPanicsAtFirstBad(parsed: seq<Parsed<Range>>)
    ensures ScanSegments(parsed) == Stopped(Panicked) <==> exists i :: FirstBad(parsed, i)
  {
    var k := FirstStop(parsed);
    if ScanSegments(parsed) == Stopped(Panicked) {
      assert FirstBad(parsed, k);
    }
    if i :| FirstBad(parsed, i) {
      assert !Good(parsed[i]) && k == i;
    }
  }

  /** A field is accepted exactly when it is `*` or every comma segment denotes a range whose
      step stays within 64 bits; then its set bits are exactly the union of the ranges, and
      some bit is set. The "matches no values" error is never returned. */
  lemma FieldAccepts(text: string, lo: int, hi: int, names: Names)
    requires Bounds(lo, hi)
    ensures FieldSpec(text, lo, hi, names).Accepted? <==>
            text == "*" || forall s :: s in Split(text, ',') ==> Denotes(s, lo, hi, names)
    ensures FieldSpec(text, lo, hi, names) != NoValues
    ensures var outcome := FieldSpec(text, lo, hi, names);
            outcome.Accepted? ==>
              var f := outcome.field;
              && f.Valid() && f.min == lo && f.max == hi && (f.any <==> text == "*")
              && (!f.any ==> true in f.values)
  {
    var segments := Split(text, ',');
    var parsed := ParseAll(segments, lo, hi, names);
    forall i | 0 <= i < |segments|
      ensures Good(parsed[i]) <==> Denotes(segments[i], lo, hi, names)
    {
      DenotesIsParse(segments[i], lo, hi, names);
    }
    var scan := ScanSegments(parsed);
    if scan.Ranges? {
      assert forall i :: 0 <= i < |parsed| ==> parsed[i] == Ok(scan.ranges[i]);
      UnionIsNotEmpty(scan.ranges, lo, hi);
    }
  }

  /** Some segment denotes a range that has `v`. */
  ghost predicate SegmentSelects(segments: seq<string>, lo: int, hi: int, names: Names, v: int) {
    exists i, r ::
      0 <= i < |segments| && SegmentDenotes(segments[i], lo, hi, names, r) && r.step > 0 && Selects(r, v)
  }

  lemma ScanSelects(segments: seq<string>, lo: int, hi: int, names: Names, v: int)
    requires lo <= hi && ScanSegments(ParseAll(segments, lo, hi, names)).Ranges?
    ensures var ranges := ScanSegments(ParseAll(segments, lo, hi, names)).ranges;
            && (forall r :: r in ranges ==> r.step > 0)
            && (SomeSelects(ranges, v) <==> SegmentSelects(segments, lo, hi, names, v))
  {
    var parsed := ParseAll(segments, lo, hi, names);
    var ranges := ScanSegments(parsed).ranges;
    assert forall i :: 0 <= i < |segments| ==> parsed[i] == Ok(ranges[i]);
    if SomeSelects(ranges, v) {
      var i :| 0 <= i < |ranges| && Selects(ranges[i], v);
      ParseSegmentMeetsGrammar(segments[i], lo, hi, names, ranges[i]);
    }
    forall i, r | 0 <= i < |segments| && SegmentDenotes(segments[i], lo, hi, names, r) && r.step > 0 && Selects(r, v)
      ensures SomeSelects(ranges, v)
    {
      ParseSegmentMeetsGrammar(segments[i], lo, hi, names, r);
      assert ranges[i] == r;
    }
  }

  lemma UnionHas(f: CronField, ranges: seq<Range>, lo: int, hi: int, v: int)
    requires lo <= hi && forall r :: r in ranges ==> lo <= r.start <= r.end <= hi && r.step > 0
    requires f == CronField(false, lo, hi, Union(ranges, lo, hi))
    ensures f.Valid() && (f.Has(v) <==> SomeSelects(ranges, v))
  {
    if lo <= v <= hi {
      assert Union(ranges, lo, hi)[v - lo] == SomeSelects(ranges, lo + (v - lo));
    }
  }

  lemma SpecIsUnion(text: string, lo: int, hi: int, names: Names, v: int)
    requires Bounds(lo, hi) && FieldSpec(text, lo, hi, names).Accepted? && text != "*"
    ensures var f := FieldSpec(text, lo, hi, names).field;
            var scan := ScanSegments(ParseAll(Split(text, ','), lo, hi, names));
            && f.Valid() && scan.Ranges? && (forall r :: r in scan.ranges ==> lo <= r.start <= r.end <= hi && r.step > 0)
            && (f.Has(v) <==> SomeSelects(scan.ranges, v))
  {
    var parsed := ParseAll(Split(text, ','), lo, hi, names);
    var ranges := ScanSegments(parsed).ranges;
    assert forall i :: 0 <= i < |ranges| ==> parsed[i] == Ok(ranges[i]);
    UnionHas(FieldSpec(text, lo, hi, names).field, ranges, lo, hi, v);
  }

  /** A value is selected exactly when some segment's range has it. */
  lemma FieldSelects(text: string, lo: int, hi: int, names: Names, v: int)
    requires Bounds(lo, hi) && FieldSpec(text, lo, hi, names).Accepted? && text != "*"
    ensures FieldSpec(text, lo, hi, names).field.Valid()
    ensures FieldSpec(text, lo, hi, names).field.Has(v) <==> SegmentSelects(Split(text, ','), lo, hi, names, v)
  {
    SpecIsUnion(text, lo, hi, names, v);
    ScanSelects(Split(text, ','), lo, hi, names, v);
  }

  /** Segment `i` overflows and every segment before it is fine. */
  ghost predicate FirstOverflow(segments: seq<string>, i: int, lo: int, hi: int, names: Names) {
    && 0 <= i < |segments| && DenotesOverflow(segments[i], lo, hi, names)
    && forall j :: 0 <= j < i ==> Denotes(segments[j], lo, hi, names)
  }

  /** A well-formed segment whose start plus step exceeds the largest 64-bit integer comes before
      any malformed one. */
  ghost predicate ReachesOverflow(segments: seq<string>, lo: int, hi: int, names: Names) {
    exists i :: FirstOverflow(segments, i, lo, hi, names)
  }

  /** The parser writes outside its value array, and so panics, exactly when it reaches a
      segment that overflows. */
  lemma FieldPanics(text: string, lo: int, hi: int, names: Names)
    requires Bounds(lo, hi)
    ensures FieldSpec(text, lo, hi, names) == Panicked <==>
            text != "*" && ReachesOverflow(Split(text, ','), lo, hi, names)
  {
    SegmentsPanic(Split(text, ','), lo, hi, names);
  }

  lemma SegmentsPanic(segments: seq<string>, lo: int, hi: int, names: Names)
    ensures ScanSegments(ParseAll(segments, lo, hi, names)) == Stopped(Panicked) <==>
            ReachesOverflow(segments, lo, hi, names)
  {
    ScanPanicsAtFirstBad(ParseAll(segments, lo, hi, names));
    FirstBadIsFirstOverflow(segments, lo, hi, names);
  }

  lemma FirstBadIsFirstOverflow(segments: seq<string>, lo: int, hi: int, names: Names)
    ensures forall i :: FirstBad(ParseAll(segments, lo, hi, names), i) <==> FirstOverflow(segments, i, lo, hi, names)
  {
    var parsed := ParseAll(segments, lo, hi, names);
    forall i | 0 <= i < |segments|
      ensures Good(parsed[i]) <==> Denotes(segments[i], lo, hi, names)
      ensures Bad(parsed[i]) <==> DenotesOverflow(segments[i], lo, hi, names)
    {
      DenotesIsParse(segments[i], lo, hi, names);
    }
  }

  // ----- writing fields down

  predicate Wordlike(names: Names) {
    forall n :: n in names ==> !AllDigits(n)
  }

  lemma DigitsAreUntouched(s: string)
    requires AllDigits(s)
    ensures ToUpper(s) == s && TrimSpace(s) == s
    ensures forall c :: c in s ==> IsDigit(c)
  {
    TrimSpaceTrims(s);
    assert forall k :: 0 <= k < |s| ==> IsDigit(s[k]);
  }

  lemma ItoaIsAValue(v: nat, names: Names)
    requires v <= MAX_INT && Wordlike(names)
    ensures ParseValue(Itoa(v), names) == Ok(v)
  {
    DigitsAreUntouched(Itoa(v));
    AtoiOfItoa(v);
  }

  lemma ItoaIsASegment(v: nat, lo: int, hi: int, names: Names)
    requires Bounds(lo, hi) && lo <= v <= hi && Wordlike(names)
    ensures ParseSegment(Itoa(v), lo, hi, names) == Ok(Range(v, v, 1))
    ensures ',' !in Itoa(v)
  {
    DigitsAreUntouched(Itoa(v));
    ItoaIsAValue(v, names);
    assert Itoa(v)[0] != '*';
  }

  /** The selected values in order, in decimal. */
  function Numerals(values: seq<bool>, lo: nat): (parts: seq<string>) {
    if values == [] then []
    else (if values[0] then [Itoa(lo)] else []) + Numerals(values[1..], lo + 1)
  }

  function Render(values: seq<bool>, lo: nat): string {
    Join(Numerals(values, lo), ',')
  }

  ghost predicate SingletonsOf(ranges: seq<Range>, values: seq<bool>, lo: int) {
    && (forall r :: r in ranges ==> r.step == 1 && r.start == r.end && lo <= r.start < lo + |values| && values[r.start - lo])
    && (forall k :: 0 <= k < |values| && values[k] ==> Range(lo + k, lo + k, 1) in ranges)
  }

  /** The parsed numerals, as one-value ranges. */
  function Singletons(values: seq<bool>, lo: nat): (parsed: seq<Parsed<Range>>) {
    if values == [] then []
    else (if values[0] then [Ok(Range(lo, lo, 1))] else []) + Singletons(values[1..], lo + 1)
  }

  lemma {:induction false} NumeralsParse(values: seq<bool>, from: nat, lo: int, hi: int, names: Names)
    requires Bounds(lo, hi) && lo <= from && from + |values| == hi + 1 && Wordlike(names)
    ensures forall p :: p in Numerals(values, from) ==> ',' !in p
    ensures ParseAll(Numerals(values, from), lo, hi, names) == Singletons(values, from)
  {
    if values == [] {
    } else {
      NumeralsParse(values[1..], from + 1, lo, hi, names);
      ItoaIsASegment(from, lo, hi, names);
      if values[0] {
        ParseAllCons(Itoa(from), Numerals(values[1..], from + 1), lo, hi, names);
      }
      assert !values[0] ==> Numerals(values, from) == Numerals(values[1..], from + 1);
    }
  }

  lemma ParseAllCons(s: string, rest: seq<string>, lo: int, hi: int, names: Names)
    ensures ParseAll([s] + rest, lo, hi, names) ==
            [ParseSegment(s, lo, hi, names)] + ParseAll(rest, lo, hi, names)
  {
  }

  lemma {:induction false} SingletonsAreGood(values: seq<bool>, lo: nat)
    requires lo + |values| < MAX_INT
    ensures forall p :: p in Singletons(values, lo) ==>
              && Good(p) && p.value == Range(p.value.start, p.value.start, 1)
              && lo <= p.value.start < lo + |values| && values[p.value.start - lo]
    ensures forall k :: 0 <= k < |values| && values[k] ==> Ok(Range(lo + k, lo + k, 1)) in Singletons(values, lo)
  {
    if values == [] {
    } else {
      SingletonsAreGood(values[1..], lo + 1);
      assert forall k :: 0 < k < |values| ==> values[k] == values[1..][k - 1];
      forall k | 0 < k < |values| && values[k]
        ensures Ok(Range(lo + k, lo + k, 1)) in Singletons(values[1..], lo + 1)
      {
        assert values[1..][k - 1];
        assert lo + k == lo + 1 + (k - 1);
      }
    }
  }

  lemma ScanOfSingletons(values: seq<bool>, lo: nat)
    requires lo + |values| < MAX_INT
    ensures var s := ScanSegments(Singletons(values, lo)); s.Ranges? && SingletonsOf(s.ranges, values, lo)
  {
    SingletonsAreGood(values, lo);
    var parsed := Singletons(values, lo);
    assert forall j :: 0 <= j < |parsed| ==> parsed[j] in parsed;
    SingletonRanges(parsed, Values(parsed), values, lo);
  }

  lemma SingletonRanges(parsed: seq<Parsed<Range>>, ranges: seq<Range>, values: seq<bool>, lo: nat)
    requires |ranges| == |parsed| && forall j :: 0 <= j < |parsed| ==> parsed[j] == Ok(ranges[j])
    requires forall p :: p in parsed ==>
               && p.Ok? && p.value == Range(p.value.start, p.value.start, 1)
               && lo <= p.value.start < lo + |values| && values[p.value.start - lo]
    requires forall k :: 0 <= k < |values| && values[k] ==> Ok(Range(lo + k, lo + k, 1)) in parsed
    ensures SingletonsOf(ranges, values, lo)
  {
    forall j | 0 <= j < |ranges|
      ensures ranges[j] == Range(ranges[j].start, ranges[j].start, 1)
      ensures lo <= ranges[j].start < lo + |values| && values[ranges[j].start - lo]
    {
      assert parsed[j] in parsed;
    }
    forall k | 0 <= k < |values| && values[k]
      ensures Range(lo + k, lo + k, 1) in ranges
    {
      var j :| 0 <= j < |parsed| && parsed[j] == Ok(Range(lo + k, lo + k, 1));
      assert ranges[j] == Range(lo + k, lo + k, 1);
    }
  }

  lemma UnionOfSingletons(ranges: seq<Range>, values: seq<bool>, lo: int, hi: int)
    requires lo <= hi && |values| == hi - lo + 1 && SingletonsOf(ranges, values, lo)
    ensures Union(ranges, lo, hi) == values
  {
    forall k | 0 <= k < |values|
      ensures SomeSelects(ranges, lo + k) == values[k]
    {
      if values[k] {
        var i :| 0 <= i < |ranges| && ranges[i] == Range(lo + k, lo + k, 1);
        assert Selects(ranges[i], lo + k);
      }
    }
  }

  lemma {:induction false} NumeralsNotEmpty(values: seq<bool>, lo: nat)
    ensures true in values <==> Numerals(values, lo) != []
  {
    if values == [] {
    } else {
      NumeralsNotEmpty(values[1..], lo + 1);
      assert values == [values[0]] + values[1..];
    }
  }

  /** Every non-empty set of values can be written as a field, and is read back exactly. */
  lemma ParseOfRender(values: seq<bool>, lo: nat, hi: int, names: Names)
    requires Bounds(lo, hi) && |values| == hi - lo + 1 && true in values && Wordlike(names)
    ensures FieldSpec(Render(values, lo), lo, hi, names) == Accepted(CronField(false, lo, hi, values))
  {
    var parts := Numerals(values, lo);
    NumeralsNotEmpty(values, lo);
    NumeralsParse(values, lo, lo, hi, names);
    SplitOfJoin(parts, ',');
    ScanOfSingletons(values, lo);
    UnionOfSingletons(ScanSegments(Singletons(values, lo)).ranges, values, lo, hi);
    if Render(values, lo) == "*" {
      StarIsNoNumeral(values, lo);
      StarSplits();
    }
  }

  lemma StarSplits()
    ensures Split("*", ',') == ["*"]
  {
  }

  lemma {:induction false} StarIsNoNumeral(values: seq<bool>, lo: nat)
    ensures "*" !in Numerals(values, lo)
  {
    if values == [] {
    } else {
      StarIsNoNumeral(values[1..], lo + 1);
      assert IsDigit(Itoa(lo)[0]);
    }
  }

  // ----- names

  predicate CapitalsOnly(name: string) {
    name != "" && forall k :: 0 <= k < |name| ==> 'A' <= name[k] <= 'Z'
  }

  /** The same letters in any case. */
  predicate SameLetters(w: string, name: string) {
    |w| == |name| && forall k :: 0 <= k < |name| ==> w[k] == name[k] || w[k] as int == name[k] as int + 32
  }

  lemma OneGoodSegment(text: string, lo: int, hi: int, names: Names, r: Range)
    requires Bounds(lo, hi) && ',' !in text && text != "*" && ParseSegment(text, lo, hi, names) == Ok(r) && !Overflows(r)
    ensures FieldSpec(text, lo, hi, names) == Accepted(CronField(false, lo, hi, Union([r], lo, hi)))
  {
    var parsed := ParseAll(Split(text, ','), lo, hi, names);
    assert parsed == [Ok(r)];
    assert FirstStop(parsed[1..]) == 0 && FirstStop(parsed) == 1;
    assert Values(parsed) == [r];
  }

  lemma LettersOnly(w: string, name: string)
    requires CapitalsOnly(name) && SameLetters(w, name)
    ensures w != "" && TrimSpace(w) == w && ToUpper(w) == name && TrimSpace(name) == name
    ensures ',' !in w && '/' !in w && '-' !in w && w != "*"
  {
    TrimSpaceTrims(w);
    TrimSpaceTrims(name);
  }

  lemma NameIsValue(w: string, name: string, names: Names)
    requires CapitalsOnly(name) && SameLetters(w, name) && name in names
    ensures ParseValue(w, names) == Ok(names[name])
  {
    LettersOnly(w, name);
  }

  lemma NameIsSegment(w: string, name: string, lo: int, hi: int, names: Names)
    requires CapitalsOnly(name) && SameLetters(w, name) && name in names && lo <= names[name] <= hi
    ensures ParseSegment(w, lo, hi, names) == Ok(Range(names[name], names[name], 1))
    ensures ',' !in w && w != "*"
  {
    LettersOnly(w, name);
    NameIsValue(w, name, names);
  }

  /** A name, in any letter case, makes the field that its number makes. */
  lemma NameIsNumber(w: string, name: string, lo: int, hi: int, names: Names)
    requires Bounds(lo, hi) && Wordlike(names)
    requires CapitalsOnly(name) && SameLetters(w, name) && name in names && lo <= names[name] <= hi
    ensures FieldSpec(w, lo, hi, names).Accepted?
    ensures FieldSpec(w, lo, hi, names) == FieldSpec(Itoa(names[name]), lo, hi, names)
  {
    var v := names[name];
    NameIsSegment(w, name, lo, hi, names);
    OneGoodSegment(w, lo, hi, names, Range(v, v, 1));
    ItoaIsASegment(v, lo, hi, names);
    assert Itoa(v)[0] != '*';
    OneGoodSegment(Itoa(v), lo, hi, names, Range(v, v, 1));
  }

  /** A step of 2^63 - 1 after any positive value makes the parser panic. */
  lemma HugeStepPanics(v: nat, lo: int, hi: int, names: Names)
    requires Bounds(lo, hi) && lo <= v <= hi && 1 <= v && Wordlike(names)
    ensures FieldSpec(Itoa(v) + "/" + Itoa(MAX_INT), lo, hi, names) == Panicked
  {
    AtoiOfItoa(MAX_INT);
    ItoaIsAValue(v, names);
    HugeStepOverflows(Itoa(v), Itoa(MAX_INT), v, lo, hi, names);
  }

  lemma HugeStepOverflows(base: string, step: string, v: nat, lo: int, hi: int, names: Names)
    requires Bounds(lo, hi) && lo <= v <= hi && 1 <= v
    requires base != "" && AllDigits(base) && ParseValue(base, names) == Ok(v)
    requires step != "" && AllDigits(step) && Atoi(step) == Some(MAX_INT)
    ensures FieldSpec(base + "/" + step, lo, hi, names) == Panicked
  {
    var text := base + "/" + step;
    HugeStepDenotes(base, step, v, lo, hi, names);
    ParseSegmentMeetsGrammar(text, lo, hi, names, Range(v, v, MAX_INT));
    NoComma(base, step);
    OneSegment(text, lo, hi, names);
  }

  lemma NoComma(base: string, step: string)
    requires base != "" && step != "" && AllDigits(base) && AllDigits(step)
    ensures ',' !in base + "/" + step && base + "/" + step != "*"
  {
    DigitsAreUntouched(base);
    DigitsAreUntouched(step);
    assert |base + "/" + step| > 1;
  }

  lemma OneSegment(text: string, lo: int, hi: int, names: Names)
    requires Bounds(lo, hi) && ',' !in text && text != "*"
    requires Bad(ParseSegment(text, lo, hi, names))
    ensures FieldSpec(text, lo, hi, names) == Panicked
  {
    var parsed := ParseAll(Split(text, ','), lo, hi, names);
    assert parsed == [ParseSegment(text, lo, hi, names)];
    assert FirstStop(parsed) == 0;
  }

  lemma HugeStepDenotes(base: string, step: string, v: nat, lo: int, hi: int, names: Names)
    requires lo <= v <= hi
    requires base != "" && AllDigits(base) && ParseValue(base, names) == Ok(v)
    requires step != "" && AllDigits(step) && Atoi(step) == Some(MAX_INT)
    ensures SegmentDenotes(base + "/" + step, lo, hi, names, Range(v, v, MAX_INT))
  {
    var text := base + "/" + step;
    assert TrimSpace(text) == text by {
      assert text[0] == base[0] && text[|text| - 1] == step[|step| - 1];
      TrimSpaceTrims(text);
    }
    TrimSpaceIsTrim(text);
    DigitsAreUntouched(base);
    AtoiReadsNumerals(step, MAX_INT);
    ParseValueMeetsGrammar(base, names, v);
    assert StepText(step, MAX_INT);
    assert StepDenotes(text, base, MAX_INT);
    assert BaseDenotes(base, lo, hi, names, v, v);
  }
}
