/** One field of a five-field cron schedule: its parser and the set of values it selects. */
module CronFields {
  import opened Text

  datatype CronField = CronField(any: bool, min: int, max: int, values: seq<bool>) {
    predicate Valid() {
      min <= max && |values| == max - min + 1
    }

    predicate Has(value: int)
      requires Valid()
    {
      any || (min <= value <= max && values[value - min])
    }
  }

  type Names = map<string, int>

  datatype Error = EmptySegment | InvalidStep | EmptyValue | InvalidValue | OutOfRange

  datatype Parsed<+T> = Ok(value: T) | Err(error: Error) {
    predicate IsFailure() { Err? }
    function PropagateFailure<U>(): Parsed<U>
      requires Err?
    {
      Err(error)
    }
    function Extract(): T
      requires Ok?
    {
      value
    }
  }

  /** What a call of the field parser does: it returns a field, returns a segment's error,
      returns the "field matches no values" error, or panics. */
  datatype Outcome = Accepted(field: CronField) | Rejected(error: Error) | NoValues | Panicked

  /** One comma segment: `start, start + step, ...` up to `end`. */
  datatype Range = Range(start: int, end: int, step: int)

  /** The bounds a field is parsed with; the five call sites use at most 0..59. */
  predicate Bounds(lo: int, hi: int) {
    0 <= lo <= hi < 0x8000_0000
  }

  // ----- the segment parser

  function SplitStep(part: string): Parsed<(string, int)> {
    if '/' !in part then Ok((part, 1))
    else
      var (base, stepText) := Cut(part, '/');
      if base == "" || stepText == "" then Err(InvalidStep)
      else
        var step := Atoi(stepText);
        if step.None? || step.value <= 0 then Err(InvalidStep) else Ok((base, step.value))
  }

  function ParseValue(text: string, names: Names): Parsed<int> {
    var name := TrimSpace(ToUpper(text));
    if name == "" then Err(EmptyValue)
    else if name in names then Ok(names[name])
    else
      var value := Atoi(name);
      if value.None? then Err(InvalidValue) else Ok(value.value)
  }

  function ParseBase(base: string, lo: int, hi: int, names: Names): Parsed<(int, int)> {
    if base == "*" then Ok((lo, hi))
    else if '-' in base then
      var (left, right) := Cut(base, '-');
      var start :- ParseValue(left, names);
      var end :- ParseValue(right, names);
      Ok((start, end))
    else
      var start :- ParseValue(base, names);
      Ok((start, start))
  }

  function ParseSegment(segment: string, lo: int, hi: int, names: Names): (r: Parsed<Range>)
    ensures r.Ok? ==> lo <= r.value.start <= r.value.end <= hi && 1 <= r.value.step <= MAX_INT
  {
    var part := TrimSpace(segment);
    if part == "" then Err(EmptySegment)
    else
      var (base, step) :- SplitStep(part);
      var (start, end) :- ParseBase(base, lo, hi, names);
      if start < lo || end > hi || start > end then Err(OutOfRange)
      else Ok(Range(start, end, step))
  }

  // ----- the grammar the segment parser is checked against

  /** A value as it is written, with white space around it and in any letter case: a name with that
      value, or, when it is no name, a numeral. */
  ghost predicate ValueDenotes(text: string, names: Names, v: int) {
    exists name :: IsTrimOf(ToUpper(text), name) && name != "" &&
                   if name in names then names[name] == v else IsNumeral(name, v)
  }

  lemma ParseValueMeetsGrammar(text: string, names: Names, v: int)
    ensures ParseValue(text, names) == Ok(v) <==> ValueDenotes(text, names, v)
  {
    var name := TrimSpace(ToUpper(text));
    TrimSpaceIsTrim(ToUpper(text));
    AtoiReadsNumerals(name, v);
    if ValueDenotes(text, names, v) {
      var other :| IsTrimOf(ToUpper(text), other) && other != "" &&
                   if other in names then names[other] == v else IsNumeral(other, v);
      TrimIsUnique(ToUpper(text), name, other);
    }
  }

  ghost predicate BaseDenotes(base: string, lo: int, hi: int, names: Names, start: int, end: int) {
    || (base == "*" && start == lo && end == hi)
    || (base != "*" && '-' !in base && ValueDenotes(base, names, start) && end == start)
    || (exists left, right ::
          && base == left + "-" + right && '-' !in left
          && ValueDenotes(left, names, start) && ValueDenotes(right, names, end))
  }

  ghost predicate StepText(text: string, step: int) {
    IsNumeral(text, step) && step > 0
  }

  /** `base` or `base/step`, read off the text without saying where to cut it. */
  ghost predicate StepDenotes(part: string, base: string, step: int) {
    && '/' !in base
    && ((part == base && step == 1) ||
        (base != "" && exists text :: part == base + "/" + text && StepText(text, step)))
  }

  ghost predicate PartDenotes(part: string, lo: int, hi: int, names: Names, r: Range) {
    exists base :: StepDenotes(part, base, r.step) && BaseDenotes(base, lo, hi, names, r.start, r.end)
  }

  ghost predicate SegmentDenotes(segment: string, lo: int, hi: int, names: Names, r: Range) {
    && lo <= r.start <= r.end <= hi
    && exists part :: IsTrimOf(segment, part) && part != "" && PartDenotes(part, lo, hi, names, r)
  }

  lemma ParseBaseMeetsGrammar(base: string, lo: int, hi: int, names: Names, start: int, end: int)
    ensures ParseBase(base, lo, hi, names) == Ok((start, end)) <==> BaseDenotes(base, lo, hi, names, start, end)
  {
    ParseValueMeetsGrammar(base, names, start);
    if '-' in base {
      var (left, right) := Cut(base, '-');
      ParseValueMeetsGrammar(left, names, start);
      ParseValueMeetsGrammar(right, names, end);
      assert base == left + "-" + right;
      forall l, r | base == l + "-" + r && '-' !in l
        ensures l == left && r == right
      {
        CutUnique(l, '-', r);
      }
    }
  }

  lemma SplitStepMeetsGrammar(part: string, base: string, step: int)
    ensures SplitStep(part) == Ok((base, step)) <==> StepDenotes(part, base, step)
  {
    var (left, right) := Cut(part, '/');
    AtoiReadsNumerals(right, step);
    assert !IsNumeral("", step) by {
      AtoiReadsNumerals("", step);
    }
    if '/' in part {
      assert part == left + "/" + right;
      forall text | part == base + "/" + text && '/' !in base
        ensures base == left && text == right
      {
        CutUnique(base, '/', text);
      }
    }
  }

  lemma ParsePartMeetsGrammar(segment: string, part: string, lo: int, hi: int, names: Names, r: Range)
    requires part == TrimSpace(segment) && part != ""
    ensures ParseSegment(segment, lo, hi, names) == Ok(r) <==>
            lo <= r.start <= r.end <= hi && PartDenotes(part, lo, hi, names, r)
  {
    if ParseSegment(segment, lo, hi, names) == Ok(r) {
      var base := SplitStep(part).value.0;
      SplitStepMeetsGrammar(part, base, r.step);
      ParseBaseMeetsGrammar(base, lo, hi, names, r.start, r.end);
    }
    if lo <= r.start <= r.end <= hi && PartDenotes(part, lo, hi, names, r) {
      var base :| StepDenotes(part, base, r.step) && BaseDenotes(base, lo, hi, names, r.start, r.end);
      SplitStepMeetsGrammar(part, base, r.step);
      ParseBaseMeetsGrammar(base, lo, hi, names, r.start, r.end);
    }
  }

  /** A segment is accepted exactly when the grammar gives it a range, and with that range. */
  lemma ParseSegmentMeetsGrammar(segment: string, lo: int, hi: int, names: Names, r: Range)
    ensures ParseSegment(segment, lo, hi, names) == Ok(r) <==> SegmentDenotes(segment, lo, hi, names, r)
  {
    var part := TrimSpace(segment);
    TrimSpaceIsTrim(segment);
    if part != "" {
      ParsePartMeetsGrammar(segment, part, lo, hi, names, r);
    }
    forall other | IsTrimOf(segment, other)
      ensures other == part
    {
      TrimIsUnique(segment, other, part);
    }
  }

  // ----- the values a range selects

  /** `v` is one of `start, start + step, ...`. */
  predicate Hits(start: int, step: int, v: int)
    requires step > 0
    decreases v - start
  {
    v >= start && (v == start || Hits(start + step, step, v))
  }

  predicate Selects(r: Range, v: int)
    requires r.step > 0
  {
    r.start <= v <= r.end && (v - r.start) % r.step == 0
  }

  lemma Remainder(x: int, q: int, rem: int, m: int)
    requires m > 0 && 0 <= rem < m && x == q * m + rem
    ensures x % m == rem
  {
    var d := x / m;
    assert (d - q) * m == rem - x % m;
    assert d - q >= 1 ==> (d - q) * m >= m;
    assert d - q <= -1 ==> (d - q) * m <= -m;
  }

  lemma {:induction false} HitsIsCongruence(start: int, step: int, v: int)
    requires step > 0
    ensures Hits(start, step, v) <==> v >= start && (v - start) % step == 0
    decreases v - start
  {
    if v > start {
      HitsIsCongruence(start + step, step, v);
      var x := v - start;
      if x < step {
        Remainder(x, 0, x, step);
      } else {
        var q := (x - step) / step;
        Remainder(x, q + 1, (x - step) % step, step);
      }
    }
  }

  // ----- the field parser

  /** Adding `step` after the first value leaves the 64-bit range, and the loop indexes with a
      negative number. */
  predicate Overflows(r: Range) {
    r.start + r.step > MAX_INT
  }

  function ParseAll(segments: seq<string>, lo: int, hi: int, names: Names): (parsed: seq<Parsed<Range>>)
    ensures |parsed| == |segments|
    ensures forall i :: 0 <= i < |parsed| ==> parsed[i] == ParseSegment(segments[i], lo, hi, names)
  {
    seq(|segments|, i requires 0 <= i < |segments| => ParseSegment(segments[i], lo, hi, names))
  }

  predicate Good(p: Parsed<Range>) { p.Ok? && !Overflows(p.value) }

  /** The first segment that errs or overflows, or the number of segments. */
  function FirstStop(parsed: seq<Parsed<Range>>): (k: nat)
    ensures k <= |parsed| && forall j :: 0 <= j < k ==> Good(parsed[j])
    ensures k < |parsed| ==> !Good(parsed[k])
  {
    if parsed == [] || !Good(parsed[0]) then 0 else 1 + FirstStop(parsed[1..])
  }

  function Values(parsed: seq<Parsed<Range>>): (ranges: seq<Range>)
    requires forall j :: 0 <= j < |parsed| ==> Good(parsed[j])
    ensures |ranges| == |parsed| && forall j :: 0 <= j < |parsed| ==> parsed[j] == Ok(ranges[j])
  {
    seq(|parsed|, j requires 0 <= j < |parsed| && Good(parsed[j]) => parsed[j].value)
  }

  datatype Scan = Ranges(ranges: seq<Range>) | Stopped(outcome: Outcome)

  /** Segments taken from left to right, up to the first that errs or overflows. */
  function ScanSegments(parsed: seq<Parsed<Range>>): (s: Scan)
    ensures s.Stopped? ==> s.outcome.Rejected? || s.outcome.Panicked?
    ensures s.Ranges? ==> |s.ranges| == |parsed| && forall i :: 0 <= i < |parsed| ==> parsed[i] == Ok(s.ranges[i])
  {
    var k := FirstStop(parsed);
    if k == |parsed| then Ranges(Values(parsed))
    else if parsed[k].Err? then Stopped(Rejected(parsed[k].error))
    else Stopped(Panicked)
  }

  predicate SomeSelects(ranges: seq<Range>, v: int)
    requires forall r :: r in ranges ==> r.step > 0
  {
    exists i :: 0 <= i < |ranges| && Selects(ranges[i], v)
  }

  function Blank(lo: int, hi: int): (values: seq<bool>)
    requires lo <= hi
    ensures |values| == hi - lo + 1
  {
    seq(hi - lo + 1, _ => false)
  }

  function Union(ranges: seq<Range>, lo: int, hi: int): (values: seq<bool>)
    requires lo <= hi
    requires forall r :: r in ranges ==> r.step > 0
    ensures |values| == hi - lo + 1
    ensures forall k :: 0 <= k < |values| ==> values[k] == SomeSelects(ranges, lo + k)
  {
    seq(hi - lo + 1, k => SomeSelects(ranges, lo + k))
  }

  /** A range that was accepted selects its own start, so no accepted field is empty. */
  lemma UnionIsNotEmpty(ranges: seq<Range>, lo: int, hi: int)
    requires ranges != [] && lo <= hi
    requires forall r :: r in ranges ==> lo <= r.start <= r.end <= hi && r.step > 0
    ensures true in Union(ranges, lo, hi)
  {
    var r := ranges[0];
    assert Selects(r, r.start);
    assert SomeSelects(ranges, r.start);
    assert Union(ranges, lo, hi)[r.start - lo];
  }

  /** What the parser promises, as a value: the union of the segments' ranges. */
  function FieldSpec(text: string, lo: int, hi: int, names: Names): Outcome
    requires Bounds(lo, hi)
  {
    if text == "*" then Accepted(CronField(true, lo, hi, Blank(lo, hi)))
    else
      var parsed := ParseAll(Split(text, ','), lo, hi, names);
      match ScanSegments(parsed)
      case Stopped(o) => o
      case Ranges(ranges) =>
        assert forall i :: 0 <= i < |ranges| ==> parsed[i] == Ok(ranges[i]);
        Accepted(CronField(false, lo, hi, Union(ranges, lo, hi)))
  }

  method MarkRange(values: array<bool>, lo: int, hi: int, r: Range) returns (inBounds: bool)
    requires Bounds(lo, hi) && values.Length == hi - lo + 1
    requires lo <= r.start <= r.end <= hi && 1 <= r.step <= MAX_INT
    modifies values
    ensures inBounds <==> !Overflows(r)
    ensures inBounds ==>
              forall k :: 0 <= k < values.Length ==> values[k] == (old(values[k]) || Selects(r, lo + k))
  {
    var value := r.start;
    while value <= r.end
      invariant value >= r.start || (Overflows(r) && MIN_INT <= value < 0)
      invariant value > r.start ==> !Overflows(r) && value >= r.start + r.step
      invariant value >= r.start ==> forall k :: 0 <= k < values.Length ==>
                  ((values[k] || (lo + k <= r.end && Hits(value, r.step, lo + k))) ==
                   (old(values[k]) || (lo + k <= r.end && Hits(r.start, r.step, lo + k))))
      decreases value >= r.start, r.end - value
    {
      var index := Wrap(value - lo);
      if index < 0 || index >= values.Length {
        return false;
      }
      values[index] := true;
      value := Wrap(value + r.step);
    }
    forall k | 0 <= k < values.Length
      ensures values[k] == (old(values[k]) || Selects(r, lo + k))
    {
      HitsIsCongruence(r.start, r.step, lo + k);
    }
    return true;
  }

  ghost predicate InRange(parsed: seq<Parsed<Range>>, lo: int, hi: int) {
    forall i :: 0 <= i < |parsed| && parsed[i].Ok? ==>
      var r := parsed[i].value;
      lo <= r.start <= r.end <= hi && 1 <= r.step <= MAX_INT
  }

  ghost predicate SelectedBefore(parsed: seq<Parsed<Range>>, i: nat, v: int)
    requires i <= |parsed|
  {
    exists j :: 0 <= j < i && parsed[j].Ok? && parsed[j].value.step > 0 && Selects(parsed[j].value, v)
  }

  /** Marks the segments' values, stopping where the source returns an error or panics. */
  method MarkSegments(values: array<bool>, parsed: seq<Parsed<Range>>, lo: int, hi: int)
    returns (stopped: Option<Outcome>)
    requires Bounds(lo, hi) && values.Length == hi - lo + 1
    requires InRange(parsed, lo, hi)
    requires forall k :: 0 <= k < values.Length ==> !values[k]
    modifies values
    ensures match ScanSegments(parsed)
            case Stopped(o) => stopped == Some(o)
            case Ranges(ranges) => stopped == None && values[..] == Union(ranges, lo, hi)
  {
    for i := 0 to |parsed|
      invariant forall j :: 0 <= j < i ==> Good(parsed[j])
      invariant forall k :: 0 <= k < values.Length ==> values[k] == SelectedBefore(parsed, i, lo + k)
    {
      if parsed[i].Err? {
        return Some(Rejected(parsed[i].error));
      }
      var inBounds := MarkRange(values, lo, hi, parsed[i].value);
      if !inBounds {
        return Some(Panicked);
      }
    }
    ghost var ranges := Values(parsed);
    forall k | 0 <= k < values.Length
      ensures values[k] == SomeSelects(ranges, lo + k)
    {
      assert SomeSelects(ranges, lo + k) <==> SelectedBefore(parsed, |parsed|, lo + k);
    }
    return None;
  }

  method SomeSet(values: array<bool>) returns (found: bool)
    ensures found <==> true in values[..]
  {
    for k := 0 to values.Length
      invariant true !in values[..k]
    {
      if values[k] {
        assert values[..][k];
        return true;
      }
      assert values[..k + 1] == values[..k] + [false];
    }
    assert values[..values.Length] == values[..];
    return false;
  }

  method ParseField(text: string, lo: int, hi: int, names: Names) returns (r: Outcome)
    requires Bounds(lo, hi)
    ensures r == FieldSpec(text, lo, hi, names)
  {
    if text == "*" {
      return Accepted(CronField(true, lo, hi, Blank(lo, hi)));
    }
    var values := new bool[hi - lo + 1](_ => false);
    var parsed := ParseAll(Split(text, ','), lo, hi, names);
    var stopped := MarkSegments(values, parsed, lo, hi);
    if stopped.Some? {
      return stopped.value;
    }
    ghost var ranges := ScanSegments(parsed).ranges;
    assert forall i :: 0 <= i < |parsed| ==> parsed[i] == Ok(ranges[i]);
    UnionIsNotEmpty(ranges, lo, hi);
    var found := SomeSet(values);
    if !found {
      return NoValues;
    }
    return Accepted(CronField(false, lo, hi, values[..]));
  }
}
