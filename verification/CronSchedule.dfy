/** A parsed five-field schedule: reading it, writing it, and the minutes it matches. */
module CronSchedule {
  import opened Text
  import opened Calendar
  import opened CronFields
  import opened CronFieldLaws

  datatype Plan = Plan(minute: CronField, hour: CronField, dom: CronField, month: CronField, dow: CronField) {
    /** What the parser guarantees: each field has its own bounds and selects something. */
    predicate Valid() {
      && FieldOf(minute, 0, 59)
      && FieldOf(hour, 0, 23)
      && FieldOf(dom, 1, 31)
      && FieldOf(month, 1, 12)
      && FieldOf(dow, 0, 7)
    }

    /** `minute` counts whole minutes since 1970-01-01 00:00 UTC. */
    predicate Matches(t: int)
      requires Valid()
    {
      var date := DateOf(DayOf(t));
      if !minute.Has(MinuteOf(t)) || !hour.Has(HourOf(t)) || !month.Has(date.month) then false
      else
        var domMatch := dom.Has(date.day);
        var weekday := Weekday(DayOf(t));
        var dowMatch := dow.Has(weekday) || (weekday == 0 && dow.Has(7));
        if dom.any && dow.any then true
        else if dom.any then dowMatch
        else if dow.any then domMatch
        else domMatch || dowMatch
    }
  }

  predicate FieldOf(f: CronField, lo: int, hi: int)
    requires lo <= hi
  {
    && f.Valid() && f.min == lo && f.max == hi
    && (if f.any then f.values == Blank(lo, hi) else true in f.values)
  }

  const MONTH_NAMES: Names := map[
    "JAN" := 1, "FEB" := 2, "MAR" := 3, "APR" := 4, "MAY" := 5, "JUN" := 6,
    "JUL" := 7, "AUG" := 8, "SEP" := 9, "OCT" := 10, "NOV" := 11, "DEC" := 12]

  const DAY_NAMES: Names := map[
    "SUN" := 0, "MON" := 1, "TUE" := 2, "WED" := 3, "THU" := 4, "FRI" := 5, "SAT" := 6]

  datatype ScheduleOutcome = Scheduled(plan: Plan) | NotFiveFields | BadField(index: nat, error: Outcome)

  /** The first field that is not accepted, or the number of fields. */
  function FirstRefused(outcomes: seq<Outcome>): (k: nat)
    ensures k <= |outcomes| && forall j :: 0 <= j < k ==> outcomes[j].Accepted?
    ensures k < |outcomes| ==> !outcomes[k].Accepted?
  {
    if outcomes == [] || !outcomes[0].Accepted? then 0 else 1 + FirstRefused(outcomes[1..])
  }

  /** All fields together, or the first that is not accepted. */
  function ScheduleFrom(o: seq<Outcome>): ScheduleOutcome
    requires |o| == 5
  {
    var k := FirstRefused(o);
    if k < 5 then BadField(k, o[k])
    else Scheduled(Plan(o[0].field, o[1].field, o[2].field, o[3].field, o[4].field))
  }

  const LOW: seq<int> := [0, 0, 1, 1, 0]
  const HIGH: seq<int> := [59, 23, 31, 12, 7]
  const NAMES: seq<Names> := [map[], map[], map[], MONTH_NAMES, DAY_NAMES]

  function FieldOutcomes(parts: seq<string>): (o: seq<Outcome>)
    requires |parts| == 5
    ensures |o| == 5 && forall k :: 0 <= k < 5 ==> o[k] == FieldSpec(parts[k], LOW[k], HIGH[k], NAMES[k])
  {
    seq(5, k requires 0 <= k < 5 => FieldSpec(parts[k], LOW[k], HIGH[k], NAMES[k]))
  }

  /** Five fields, each read with its own bounds and names. */
  function ScheduleSpec(text: string): ScheduleOutcome {
    var parts := Fields(TrimSpace(text));
    if |parts| != 5 then NotFiveFields else ScheduleFrom(FieldOutcomes(parts))
  }

  // ----- what a schedule text means

  /** Field `k` is well formed: a star, or segments that all denote a range within its bounds. */
  ghost predicate FieldOk(text: string, k: nat)
    requires k < 5
  {
    text == "*" || forall s :: s in Split(text, ',') ==> Denotes(s, LOW[k], HIGH[k], NAMES[k])
  }

  /** `f` is what field `k` says: everything for a star, else what its segments select. */
  ghost predicate FieldMeans(f: CronField, text: string, k: nat)
    requires k < 5
  {
    && FieldOf(f, LOW[k], HIGH[k]) && (f.any <==> text == "*")
    && (text != "*" ==> forall v :: f.Has(v) <==> SegmentSelects(Split(text, ','), LOW[k], HIGH[k], NAMES[k], v))
  }

  function PlanField(p: Plan, k: nat): CronField
    requires k < 5
  {
    [p.minute, p.hour, p.dom, p.month, p.dow][k]
  }

  lemma FieldAt(text: string, k: nat)
    requires k < 5
    ensures var r := FieldSpec(text, LOW[k], HIGH[k], NAMES[k]);
            (r.Accepted? <==> FieldOk(text, k)) && (r.Accepted? ==> FieldMeans(r.field, text, k))
  {
    FieldAccepts(text, LOW[k], HIGH[k], NAMES[k]);
    var r := FieldSpec(text, LOW[k], HIGH[k], NAMES[k]);
    if r.Accepted? && text != "*" {
      forall v
        ensures r.field.Has(v) <==> SegmentSelects(Split(text, ','), LOW[k], HIGH[k], NAMES[k], v)
      {
        FieldSelects(text, LOW[k], HIGH[k], NAMES[k], v);
      }
    }
  }

  /** Field `k` is the first of the fields that is not well formed. */
  ghost predicate FirstWrong(parts: seq<string>, k: nat)
    requires |parts| == 5
  {
    k < 5 && !FieldOk(parts[k], k) && forall j :: 0 <= j < k ==> FieldOk(parts[j], j)
  }

  ghost predicate AllOk(parts: seq<string>)
    requires |parts| == 5
  {
    forall k :: 0 <= k < 5 ==> FieldOk(parts[k], k)
  }

  /** The plan has in each place what the field in that place says. */
  ghost predicate PlanMeans(p: Plan, parts: seq<string>)
    requires |parts| == 5
  {
    forall k :: 0 <= k < 5 ==> FieldMeans(PlanField(p, k), parts[k], k)
  }

  /** Five fields make a schedule exactly when each is well formed, and the plan means what they
      say; otherwise the first wrong field is reported. */
  ghost predicate FieldsMean(parts: seq<string>, r: ScheduleOutcome)
    requires |parts| == 5
  {
    match r
    case NotFiveFields => false
    case Scheduled(plan) => AllOk(parts) && PlanMeans(plan, parts)
    case BadField(k, _) => FirstWrong(parts, k)
  }

  lemma FieldsMeaning(parts: seq<string>, o: seq<Outcome>)
    requires |parts| == 5 && o == FieldOutcomes(parts)
    ensures FieldsMean(parts, ScheduleFrom(o))
  {
    forall k | 0 <= k < 5
      ensures (o[k].Accepted? <==> FieldOk(parts[k], k)) && (o[k].Accepted? ==> FieldMeans(o[k].field, parts[k], k))
    {
      FieldAt(parts[k], k);
    }
  }

  lemma ScheduleMeaning(text: string)
    ensures var parts := Fields(TrimSpace(text));
            if |parts| == 5 then FieldsMean(parts, ScheduleSpec(text)) else ScheduleSpec(text) == NotFiveFields
  {
    var parts := Fields(TrimSpace(text));
    if |parts| == 5 {
      FieldsMeaning(parts, FieldOutcomes(parts));
    }
  }

  lemma StopsAtFirstRefused(o: seq<Outcome>)
    requires |o| == 5
    ensures forall k :: 0 <= k < 5 && !o[k].Accepted? && (forall j :: 0 <= j < k ==> o[j].Accepted?) ==>
              ScheduleFrom(o) == BadField(k, o[k])
  {
  }

  /** Reads the fields one after another, up to the first that is not accepted. */
  method ReadFields(parts: seq<string>, ghost o: seq<Outcome>) returns (r: ScheduleOutcome)
    requires |parts| == 5 && |o| == 5 && forall k :: 0 <= k < 5 ==> o[k] == FieldSpec(parts[k], LOW[k], HIGH[k], NAMES[k])
    ensures r == ScheduleFrom(o)
  {
    StopsAtFirstRefused(o);
    var minute := ParseField(parts[0], 0, 59, map[]);
    assert minute == o[0];
    if !minute.Accepted? {
      return BadField(0, minute);
    }
    var hour := ParseField(parts[1], 0, 23, map[]);
    assert hour == o[1];
    if !hour.Accepted? {
      return BadField(1, hour);
    }
    var dom := ParseField(parts[2], 1, 31, map[]);
    assert dom == o[2];
    if !dom.Accepted? {
      return BadField(2, dom);
    }
    var month := ParseField(parts[3], 1, 12, MONTH_NAMES);
    assert month == o[3];
    if !month.Accepted? {
      return BadField(3, month);
    }
    var dow := ParseField(parts[4], 0, 7, DAY_NAMES);
    assert dow == o[4];
    if !dow.Accepted? {
      return BadField(4, dow);
    }
    return Scheduled(Plan(minute.field, hour.field, dom.field, month.field, dow.field));
  }

  method ParseSchedule(text: string) returns (r: ScheduleOutcome)
    ensures r == ScheduleSpec(text)
    ensures var parts := Fields(TrimSpace(text));
            if |parts| == 5 then FieldsMean(parts, r) else r == NotFiveFields
  {
    ScheduleMeaning(text);
    var parts := Fields(TrimSpace(text));
    if |parts| != 5 {
      return NotFiveFields;
    }
    r := ReadFields(parts, FieldOutcomes(parts));
  }

  /** Every schedule the parser accepts is a valid plan. */
  lemma ScheduledIsValid(text: string)
    ensures ScheduleSpec(text).Scheduled? ==> ScheduleSpec(text).plan.Valid()
  {
    ScheduleMeaning(text);
    var r := ScheduleSpec(text);
    if r.Scheduled? {
      var parts := Fields(TrimSpace(text));
      assert FieldMeans(PlanField(r.plan, 0), parts[0], 0) && FieldMeans(PlanField(r.plan, 1), parts[1], 1);
      assert FieldMeans(PlanField(r.plan, 2), parts[2], 2) && FieldMeans(PlanField(r.plan, 3), parts[3], 3);
      assert FieldMeans(PlanField(r.plan, 4), parts[4], 4);
    }
  }

  ghost predicate OnWeekday(p: Plan, t: int)
    requires p.Valid()
  {
    exists d :: 0 <= d <= 7 && p.dow.Has(d) && (d == Weekday(DayOf(t)) || (d == 7 && Weekday(DayOf(t)) == 0))
  }

  /** When a plan matches, in plain words: minute, hour and month are selected; and so is the day, by
      the day of the month or the day of the week where both are restricted, by the restricted one
      where one is a star, and always where both are. Day 7 is Sunday. */
  lemma MatchesMeans(p: Plan, t: int)
    requires p.Valid()
    ensures var date := DateOf(DayOf(t));
            p.Matches(t) <==>
            && p.minute.Has(MinuteOf(t)) && p.hour.Has(HourOf(t)) && p.month.Has(date.month)
            && ((p.dom.any && p.dow.any) || (!p.dom.any && p.dom.Has(date.day)) || (!p.dow.any && OnWeekday(p, t)))
  {
    var w := Weekday(DayOf(t));
    if p.dow.Has(w) || (w == 0 && p.dow.Has(7)) {
      assert p.dow.Has(if p.dow.Has(w) then w else 7);
    }
  }

  // ----- writing a plan down

  predicate Word(s: string) {
    s != "" && forall k :: 0 <= k < |s| ==> !IsSpace(s[k])
  }

  lemma FieldsOfWord(w: string, rest: string)
    requires Word(w) && (rest == "" || IsSpace(rest[0]))
    ensures Fields(w + rest) == [w] + Fields(rest)
  {
    var s := w + rest;
    assert forall k :: 0 <= k < |w| ==> s[k] == w[k];
    assert TrimLeft(s) == s;
    assert rest != "" ==> s[|w|] == rest[0];
    assert WordLength(s) == |w|;
    assert s[..|w|] == w && s[|w|..] == rest;
  }

  lemma {:induction false} FieldsOfJoin(words: seq<string>)
    requires words != [] && forall w :: w in words ==> Word(w)
    ensures Fields(Join(words, ' ')) == words
  {
    if |words| == 1 {
      FieldsOfWord(words[0], "");
      assert words[0] + "" == words[0];
    } else {
      FieldsOfJoin(words[1..]);
      FieldsOfCons(words[0], Join(words[1..], ' '));
      assert words == [words[0]] + words[1..];
    }
  }

  lemma FieldsOfCons(w: string, tail: string)
    requires Word(w)
    ensures Fields(w + [' '] + tail) == [w] + Fields(tail)
  {
    var rest := [' '] + tail;
    assert w + [' '] + tail == w + rest;
    SkipSpace(tail, rest);
    FieldsOfWord(w, rest);
  }

  lemma SkipSpace(s: string, spaced: string)
    requires spaced == [' '] + s
    ensures Fields(spaced) == Fields(s)
  {
    assert spaced[1..] == s;
  }

  lemma {:induction false} JoinIsTrimmed(words: seq<string>)
    requires words != [] && forall w :: w in words ==> Word(w)
    ensures Join(words, ' ') != "" && Trimmed(Join(words, ' '))
  {
    assert Word(words[0]);
    if |words| == 1 {
    } else {
      JoinIsTrimmed(words[1..]);
    }
  }

  function RenderField(f: CronField): string
    requires f.Valid() && 0 <= f.min
  {
    if f.any then "*" else Render(f.values, f.min)
  }

  function RenderPlan(p: Plan): string
    requires p.Valid()
  {
    Join([RenderField(p.minute), RenderField(p.hour), RenderField(p.dom), RenderField(p.month), RenderField(p.dow)], ' ')
  }

  lemma {:induction false} NumeralsAreWords(values: seq<bool>, lo: nat)
    ensures forall s :: s in Numerals(values, lo) ==> Word(s)
  {
    if values == [] {
    } else {
      NumeralsAreWords(values[1..], lo + 1);
      assert AllDigits(Itoa(lo));
    }
  }

  lemma {:induction false} JoinOfWordsIsWord(words: seq<string>)
    requires words != [] && forall w :: w in words ==> Word(w)
    ensures Word(Join(words, ','))
  {
    assert Word(words[0]);
    if |words| == 1 {
    } else {
      JoinOfWordsIsWord(words[1..]);
    }
  }

  lemma RenderedFieldReadsBack(f: CronField, lo: nat, hi: int, names: Names)
    requires Bounds(lo, hi) && FieldOf(f, lo, hi) && Wordlike(names)
    ensures Word(RenderField(f)) && FieldSpec(RenderField(f), lo, hi, names) == Accepted(f)
  {
    if !f.any {
      ParseOfRender(f.values, lo, hi, names);
      NumeralsNotEmpty(f.values, lo);
      NumeralsAreWords(f.values, lo);
      JoinOfWordsIsWord(Numerals(f.values, lo));
    }
  }

  /** The field that selects one value, and the one that selects everything. */
  function Only(v: int, lo: int, hi: int): (f: CronField)
    requires 0 <= lo <= v <= hi
    ensures FieldOf(f, lo, hi) && !f.any
  {
    var values := seq(hi - lo + 1, k => lo + k == v);
    assert values[v - lo];
    CronField(false, lo, hi, values)
  }

  function Star(lo: int, hi: int): (f: CronField)
    requires lo <= hi
    ensures FieldOf(f, lo, hi) && f.any
  {
    CronField(true, lo, hi, Blank(lo, hi))
  }

  lemma OnlyHas(v: int, lo: int, hi: int, w: int)
    requires 0 <= lo <= v <= hi
    ensures Only(v, lo, hi).Has(w) <==> w == v
  {
  }

  lemma {:induction false} OneNumeral(values: seq<bool>, lo: nat, k: nat)
    requires forall i :: 0 <= i < |values| ==> (values[i] <==> i == k)
    ensures Numerals(values, lo) == if k < |values| then [Itoa(lo + k)] else []
  {
    if values == [] {
    } else {
      OneNumeral(values[1..], lo + 1, if k == 0 then |values| else k - 1);
    }
  }

  lemma OnlyIsRendered(v: int, lo: int, hi: int)
    requires 0 <= lo <= v <= hi
    ensures RenderField(Only(v, lo, hi)) == Itoa(v)
  {
    OneNumeral(Only(v, lo, hi).values, lo, v - lo);
  }

  lemma NamesAreWordlike()
    ensures Wordlike(MONTH_NAMES) && Wordlike(DAY_NAMES)
  {
    assert forall n :: n in MONTH_NAMES ==> !IsDigit(n[0]);
    assert forall n :: n in DAY_NAMES ==> !IsDigit(n[0]);
  }

  const MONTHS := ["JAN", "FEB", "MAR", "APR", "MAY", "JUN", "JUL", "AUG", "SEP", "OCT", "NOV", "DEC"]
  const DAYS := ["SUN", "MON", "TUE", "WED", "THU", "FRI", "SAT"]

  lemma MonthTable(i: nat)
    requires i < 12
    ensures CapitalsOnly(MONTHS[i]) && MONTHS[i] in MONTH_NAMES && MONTH_NAMES[MONTHS[i]] == i + 1
  {
  }

  lemma DayTable(i: nat)
    requires i < 7
    ensures CapitalsOnly(DAYS[i]) && DAYS[i] in DAY_NAMES && DAY_NAMES[DAYS[i]] == i
  {
  }

  /** The names are these and no others. */
  lemma NoOtherNames(name: string)
    ensures name in MONTH_NAMES <==> name in MONTHS
    ensures name in DAY_NAMES <==> name in DAYS
  {
  }

  /** The month names, in any letter case, stand for 1 to 12. */
  lemma MonthNames(i: nat, w: string)
    requires i < 12 && SameLetters(w, MONTHS[i])
    ensures FieldSpec(w, 1, 12, MONTH_NAMES).Accepted?
    ensures FieldSpec(w, 1, 12, MONTH_NAMES) == FieldSpec(Itoa(i + 1), 1, 12, MONTH_NAMES)
  {
    NamesAreWordlike();
    MonthTable(i);
    NameIsNumber(w, MONTHS[i], 1, 12, MONTH_NAMES);
  }

  /** The day names, in any letter case, stand for 0 to 6, Sunday first. */
  lemma DayNames(i: nat, w: string)
    requires i < 7 && SameLetters(w, DAYS[i])
    ensures FieldSpec(w, 0, 7, DAY_NAMES).Accepted?
    ensures FieldSpec(w, 0, 7, DAY_NAMES) == FieldSpec(Itoa(i), 0, 7, DAY_NAMES)
  {
    NamesAreWordlike();
    DayTable(i);
    NameIsNumber(w, DAYS[i], 0, 7, DAY_NAMES);
  }

  /** Every valid plan has a schedule text that the parser reads back to that very plan; with
      ScheduledIsValid, the valid plans are exactly what the parser can produce. */
  lemma ParseOfRenderedPlan(p: Plan)
    requires p.Valid()
    ensures ScheduleSpec(RenderPlan(p)) == Scheduled(p)
  {
    NamesAreWordlike();
    RenderedFieldReadsBack(p.minute, 0, 59, map[]);
    RenderedFieldReadsBack(p.hour, 0, 23, map[]);
    RenderedFieldReadsBack(p.dom, 1, 31, map[]);
    RenderedFieldReadsBack(p.month, 1, 12, MONTH_NAMES);
    RenderedFieldReadsBack(p.dow, 0, 7, DAY_NAMES);
    ReadFiveWords(RenderField(p.minute), RenderField(p.hour), RenderField(p.dom), RenderField(p.month),
                  RenderField(p.dow), p);
  }

  lemma ReadFiveWords(minute: string, hour: string, dom: string, month: string, dow: string, p: Plan)
    requires Word(minute) && Word(hour) && Word(dom) && Word(month) && Word(dow)
    requires FieldSpec(minute, 0, 59, map[]) == Accepted(p.minute)
    requires FieldSpec(hour, 0, 23, map[]) == Accepted(p.hour)
    requires FieldSpec(dom, 1, 31, map[]) == Accepted(p.dom)
    requires FieldSpec(month, 1, 12, MONTH_NAMES) == Accepted(p.month)
    requires FieldSpec(dow, 0, 7, DAY_NAMES) == Accepted(p.dow)
    ensures ScheduleSpec(Join([minute, hour, dom, month, dow], ' ')) == Scheduled(p)
  {
    var words := [minute, hour, dom, month, dow];
    ReadWords(words);
    ScheduleOfParts(Join(words, ' '), words, p);
  }

  lemma ScheduleOfParts(text: string, parts: seq<string>, p: Plan)
    requires |parts| == 5 && Fields(TrimSpace(text)) == parts
    requires FieldSpec(parts[0], 0, 59, map[]) == Accepted(p.minute)
    requires FieldSpec(parts[1], 0, 23, map[]) == Accepted(p.hour)
    requires FieldSpec(parts[2], 1, 31, map[]) == Accepted(p.dom)
    requires FieldSpec(parts[3], 1, 12, MONTH_NAMES) == Accepted(p.month)
    requires FieldSpec(parts[4], 0, 7, DAY_NAMES) == Accepted(p.dow)
    ensures ScheduleSpec(text) == Scheduled(p)
  {
  }

  lemma ReadWords(words: seq<string>)
    requires words != [] && forall w :: w in words ==> Word(w)
    ensures Fields(TrimSpace(Join(words, ' '))) == words
  {
    JoinIsTrimmed(words);
    TrimSpaceTrims(Join(words, ' '));
    FieldsOfJoin(words);
  }
}
