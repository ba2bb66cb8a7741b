/** The development event id allocator: a compare-and-swap loop over one 64-bit cell, run by any
    number of callers under any clock. */
module EventIds {
  import opened Text

  /** A caller: idle, or between its load and its swap with the clock and the cell it saw. */
  datatype Caller = Idle | Loaded(now: int, current: int)

  /** `given` holds the ids handed out by successful swaps, in order. */
  datatype State = State(cell: int, callers: seq<Caller>, given: seq<int>)

  datatype Event =
    | Preset(id: int)   // an event that already has an id: swaps it in over an unused cell
    | Load(now: int)    // read the clock and the cell
    | Swap              // compare-and-swap; on a lost race the caller starts over

  function NextId(now: int, current: int): int {
    var next := Wrap(current + 1);
    if now > next then now else next
  }

  predicate Is64(x: int) {
    MIN_INT <= x <= MAX_INT
  }

  predicate Enabled(s: State, i: nat, e: Event) {
    && i < |s.callers|
    && match e
       case Preset(id) => s.callers[i].Idle? && 0 < id <= MAX_INT
       case Load(now) => s.callers[i].Idle? && Is64(now)
       case Swap => s.callers[i].Loaded?
  }

  function Step(s: State, i: nat, e: Event): State
    requires Enabled(s, i, e)
  {
    match e
    case Preset(id) => if s.cell == 0 then s.(cell := Wrap(id + 1)) else s
    case Load(now) => s.(callers := s.callers[i := Loaded(now, s.cell)])
    case Swap =>
      var c := s.callers[i];
      var idle := s.(callers := s.callers[i := Idle]);
      if s.cell != c.current then idle
      else
        var next := NextId(c.now, c.current);
        idle.(cell := next, given := s.given + [next])
  }

  predicate Wins(s: State, i: nat, e: Event)
    requires Enabled(s, i, e)
  {
    e.Swap? && s.cell == s.callers[i].current
  }

  /** A step at the top of the 64-bit range: presetting the largest id over an unused cell, or
      winning a swap from the largest cell value. */
  predicate AtTop(s: State, i: nat, e: Event)
    requires Enabled(s, i, e)
  {
    (e.Preset? && s.cell == 0 && e.id == MAX_INT) || (Wins(s, i, e) && s.cell == MAX_INT)
  }

  ghost predicate Is64State(s: State) {
    && Is64(s.cell)
    && forall i :: 0 <= i < |s.callers| && s.callers[i].Loaded? ==> Is64(s.callers[i].now) && Is64(s.callers[i].current)
  }

  ghost predicate Increasing(ids: seq<int>) {
    forall i, j :: 0 <= i < j < |ids| ==> ids[i] < ids[j]
  }

  ghost predicate Inv(s: State) {
    && Is64State(s)
    && (s.given != [] ==> s.given[|s.given| - 1] <= s.cell)
    && Increasing(s.given)
  }

  /** A step does what it should: the cell does not go down, and a winner's id, which is the new
      cell, is above the old one. */
  ghost predicate Rises(s: State, i: nat, e: Event)
    requires Enabled(s, i, e)
  {
    var t := Step(s, i, e);
    && t.cell >= s.cell
    && if Wins(s, i, e) then t.cell > s.cell && t.given == s.given + [t.cell] else t.given == s.given
  }

  /** It does so exactly when it is not at the top of the range. */
  lemma RisesExactly(s: State, i: nat, e: Event)
    requires Is64State(s) && Enabled(s, i, e)
    ensures Rises(s, i, e) <==> !AtTop(s, i, e)
  {
  }

  /** Exactly when a winner's id keeps the ids increasing: below the top always, and at the top
      only if the clock has passed every id handed out before. */
  lemma WinnerKeepsIncreasingExactly(s: State, i: nat)
    requires Inv(s) && Enabled(s, i, Swap) && Wins(s, i, Swap)
    ensures Increasing(Step(s, i, Swap).given) <==>
            s.cell < MAX_INT || s.given == [] || s.given[|s.given| - 1] < s.callers[i].now
  {
    var t := Step(s, i, Swap);
    var n := |s.given|;
    assert t.given[..n] == s.given && t.given[n] == t.cell;
    if n > 0 {
      assert Increasing(t.given) ==> t.given[n - 1] < t.given[n];
      assert forall k :: 0 <= k < n ==> t.given[k] <= s.given[n - 1];
    }
  }

  /** What each step does, off the top: a preset id takes over an unused cell only; a load reads; the
      winner of a swap gets the clock or the next number, whichever is larger; a loser nothing. */
  lemma StepsMean(s: State, i: nat, e: Event)
    requires Is64State(s) && Enabled(s, i, e) && !AtTop(s, i, e)
    ensures var t := Step(s, i, e);
            match e
            case Preset(id) => t.cell == (if s.cell == 0 then id + 1 else s.cell) && t.given == s.given && t.callers == s.callers
            case Load(now) => t == s.(callers := s.callers[i := Loaded(now, s.cell)])
            case Swap =>
              var c := s.callers[i];
              && t.callers == s.callers[i := Idle]
              && if s.cell != c.current then t.cell == s.cell && t.given == s.given
                 else t.given == s.given + [t.cell] && t.cell >= c.now && t.cell >= s.cell + 1 && (t.cell == c.now || t.cell == s.cell + 1)
  {
  }

  /** At the top an id can be handed out twice although the cell does not go down. */
  lemma TopRepeatsId()
    ensures var s := State(MAX_INT, [Loaded(MAX_INT, MAX_INT)], [MAX_INT]);
            && Inv(s) && Enabled(s, 0, Swap)
            && Step(s, 0, Swap).cell == MAX_INT && Step(s, 0, Swap).given == [MAX_INT, MAX_INT]
  {
  }

  lemma StepInv(s: State, i: nat, e: Event)
    requires Inv(s) && Enabled(s, i, e) && !AtTop(s, i, e)
    ensures Inv(Step(s, i, e))
  {
    RisesExactly(s, i, e);
    if Wins(s, i, e) {
      WinnerKeepsIncreasingExactly(s, i);
    }
  }

  lemma Step64(s: State, i: nat, e: Event)
    requires Is64State(s) && Enabled(s, i, e)
    ensures Is64State(Step(s, i, e))
  {
  }

  datatype Turn = Turn(caller: nat, event: Event)

  ghost predicate IsRun(s: State, turns: seq<Turn>, t: State)
    decreases |turns|
  {
    if turns == [] then s == t
    else
      && Enabled(s, turns[0].caller, turns[0].event)
      && IsRun(Step(s, turns[0].caller, turns[0].event), turns[1..], t)
  }

  /** Every step of the run rises. */
  ghost predicate AlwaysRises(s: State, turns: seq<Turn>, t: State)
    requires IsRun(s, turns, t)
    decreases |turns|
  {
    turns != [] ==>
      && Rises(s, turns[0].caller, turns[0].event)
      && AlwaysRises(Step(s, turns[0].caller, turns[0].event), turns[1..], t)
  }

  /** No step of the run is at the top of the range. */
  ghost predicate StaysBelowTop(s: State, turns: seq<Turn>, t: State)
    requires IsRun(s, turns, t)
    decreases |turns|
  {
    turns != [] ==>
      && !AtTop(s, turns[0].caller, turns[0].event)
      && StaysBelowTop(Step(s, turns[0].caller, turns[0].event), turns[1..], t)
  }

  /** For every interleaving and every clock, also one that goes backwards: the cell never goes
      down and every winner gets an id above it, exactly when no step is at the top of the range. */
  lemma {:induction false} RunRisesExactly(s: State, turns: seq<Turn>, t: State)
    requires Is64State(s) && IsRun(s, turns, t)
    ensures AlwaysRises(s, turns, t) <==> StaysBelowTop(s, turns, t)
    decreases |turns|
  {
    if turns == [] {
    } else {
      RisesExactly(s, turns[0].caller, turns[0].event);
      Step64(s, turns[0].caller, turns[0].event);
      RunRisesExactly(Step(s, turns[0].caller, turns[0].event), turns[1..], t);
    }
  }

  /** And then the ids handed out strictly increase in order of the swaps, so no two are equal. */
  lemma {:induction false} IdsIncrease(s: State, turns: seq<Turn>, t: State)
    requires Inv(s) && IsRun(s, turns, t) && StaysBelowTop(s, turns, t)
    ensures Inv(t) && t.cell >= s.cell && s.given <= t.given && Increasing(t.given)
    decreases |turns|
  {
    if turns == [] {
    } else {
      StepInv(s, turns[0].caller, turns[0].event);
      RisesExactly(s, turns[0].caller, turns[0].event);
      IdsIncrease(Step(s, turns[0].caller, turns[0].event), turns[1..], t);
    }
  }

  /** The cell, and the clocks in flight, stay below these bounds. */
  ghost predicate Bounded(s: State, top: int, limit: int) {
    && s.cell <= top
    && forall i :: 0 <= i < |s.callers| && s.callers[i].Loaded? ==> s.callers[i].now < limit
  }

  /** Clock readings and preset ids of the run stay below `limit`. */
  ghost predicate InputsBelow(turns: seq<Turn>, limit: int) {
    forall k :: 0 <= k < |turns| ==>
      && (turns[k].event.Preset? ==> turns[k].event.id < limit)
      && (turns[k].event.Load? ==> turns[k].event.now < limit)
  }

  lemma StepBounded(s: State, i: nat, e: Event, top: int, limit: int)
    requires Enabled(s, i, e) && Bounded(s, top, limit) && Is64State(s) && limit <= top < MAX_INT
    requires (e.Preset? ==> e.id < limit) && (e.Load? ==> e.now < limit)
    ensures !AtTop(s, i, e) && Bounded(Step(s, i, e), top + 1, limit)
  {
  }

  /** Nothing gets near the top in practice: inputs that leave as much room below it as the run is
      long keep every step off it. */
  lemma {:induction false} RoomKeepsOffTop(s: State, turns: seq<Turn>, t: State, top: int, limit: int)
    requires Is64State(s) && IsRun(s, turns, t) && Bounded(s, top, limit) && InputsBelow(turns, limit)
    requires limit <= top && top + |turns| <= MAX_INT
    ensures StaysBelowTop(s, turns, t)
    decreases |turns|
  {
    if turns == [] {
    } else {
      var next := Step(s, turns[0].caller, turns[0].event);
      StepBounded(s, turns[0].caller, turns[0].event, top, limit);
      Step64(s, turns[0].caller, turns[0].event);
      RoomKeepsOffTop(next, turns[1..], t, top + 1, limit);
    }
  }
}
