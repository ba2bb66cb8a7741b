/** The middleware chain: `next` hands a request to the middleware its shared counter points at,
    then to the leaf, and refuses every further call. */
module Middleware {

  const INTERNAL := 500

  type Request = nat
  type Payload = nat

  /** `errs.HTTPStatus` maps every error code to a status, never to 0. */
  type StatusCode = s: int | s > 0 witness 500

  /** An error, by its identity and the HTTP status its code maps to. */
  datatype Error = Error(id: int, status: StatusCode)

  datatype MaybeError = NoError | Failed(error: Error)

  datatype Response = Response(payload: Payload, err: MaybeError, status: int)

  /** What a middleware does next, given its request and the responses its calls of `next` have
      returned so far. */
  datatype Action = Call(request: Request) | Return(response: Response) | Panic(value: int)

  type Behaviour = (Request, seq<Response>) -> Action

  datatype LeafResult = Leaf(response: Response) | LeafPanic(value: int)

  /** A middleware makes finitely many calls: at most `bound`. */
  ghost predicate Finite(b: Behaviour, bound: nat) {
    forall q: Request, history: seq<Response> :: |history| >= bound ==> !b(q, history).Call?
  }

  datatype Chain = Chain(middlewares: seq<Behaviour>, leaf: Request -> LeafResult, bound: nat)

  ghost predicate ValidChain(c: Chain) {
    forall i :: 0 <= i < |c.middlewares| ==> Finite(c.middlewares[i], c.bound)
  }

  function PanicResponse(value: int): Response {
    Response(0, Failed(Error(value, INTERNAL)), INTERNAL)
  }

  const TOO_MANY_CALLS: Response := Response(0, Failed(Error(-1, INTERNAL)), INTERNAL)

  /** The deferred fix: an error without a status gets the status of its code. */
  function WithStatus(r: Response): Response {
    if r.status == 0 && r.err.Failed? then r.(status := r.err.error.status) else r
  }

  function LeafResponse(c: Chain, q: Request): Response {
    match c.leaf(q)
    case Leaf(r) => WithStatus(r)
    case LeafPanic(v) => PanicResponse(v)
  }

  /** The outcome of a call: its response, the counter after it, and what was started, in order
      (the index of each middleware, or the number of middlewares for the leaf). */
  datatype Outcome = Outcome(response: Response, counter: nat, started: seq<nat>)

  ghost function Next(c: Chain, counter: nat, q: Request): (o: Outcome)
    requires ValidChain(c)
    ensures o.counter > counter
    decreases if counter <= |c.middlewares| then |c.middlewares| + 1 - counter else 0, 0, 0
  {
    if counter < |c.middlewares| then
      var o := Continue(c, counter, counter + 1, q, []);
      o.(response := WithStatus(o.response), started := [counter] + o.started)
    else if counter == |c.middlewares| then
      Outcome(LeafResponse(c, q), counter + 1, [counter])
    else
      Outcome(TOO_MANY_CALLS, counter + 1, [])
  }

  /** Middleware `idx` goes on after the responses in `history`. */
  ghost function Continue(c: Chain, idx: nat, counter: nat, q: Request, history: seq<Response>): (o: Outcome)
    requires ValidChain(c) && idx < |c.middlewares| && idx < counter
    ensures o.counter >= counter
    decreases if counter <= |c.middlewares| then |c.middlewares| + 1 - counter else 0, 1,
              if |history| <= c.bound then c.bound - |history| else 0
  {
    match c.middlewares[idx](q, history)
    case Return(r) => Outcome(r, counter, [])
    case Panic(v) => Outcome(PanicResponse(v), counter, [])
    case Call(request) =>
      assert |history| < c.bound;
      var inner := Next(c, counter, request);
      var rest := Continue(c, idx, inner.counter, q, history + [inner.response]);
      rest.(started := inner.started + rest.started)
  }

  // ----- the chain as the source runs it

  /** The counter that all the calls of `next` share, and what has been started. */
  class ChainRun {
    var counter: nat
    var started: seq<nat>

    constructor ()
      ensures counter == 0 && started == []
    {
      counter, started := 0, [];
    }

    method CallNext(c: Chain, q: Request) returns (resp: Response)
      requires ValidChain(c)
      modifies this
      ensures var o := Next(c, old(counter), q);
              resp == o.response && counter == o.counter && started == old(started) + o.started
      decreases if counter <= |c.middlewares| then |c.middlewares| + 1 - counter else 0, 0, 0
    {
      var idx := counter;
      counter := counter + 1;
      if idx < |c.middlewares| {
        started := started + [idx];
        resp := Invoke(c, idx, q, []);
        resp := WithStatus(resp);
      } else if idx == |c.middlewares| {
        started := started + [idx];
        match c.leaf(q) {
          case Leaf(r) => resp := WithStatus(r);
          case LeafPanic(v) => resp := PanicResponse(v);
        }
      } else {
        resp := TOO_MANY_CALLS;
      }
    }

    /** Runs middleware `idx` on, after the responses it has seen; a panic becomes a response. */
    method Invoke(c: Chain, idx: nat, q: Request, history: seq<Response>) returns (resp: Response)
      requires ValidChain(c) && idx < |c.middlewares| && idx < counter
      modifies this
      ensures var o := Continue(c, idx, old(counter), q, history);
              resp == o.response && counter == o.counter && started == old(started) + o.started
      decreases if counter <= |c.middlewares| then |c.middlewares| + 1 - counter else 0, 1,
                if |history| <= c.bound then c.bound - |history| else 0
    {
      match c.middlewares[idx](q, history) {
        case Return(r) => resp := r;
        case Panic(v) => resp := PanicResponse(v);
        case Call(request) =>
          assert |history| < c.bound;
          var inner := CallNext(c, request);
          resp := Invoke(c, idx, q, history + [inner]);
      }
    }
  }

  /** What the caller of the chain sees: a response, or a panic that nothing recovered. */
  datatype RunResult = Responded(response: Response) | Escaped(value: int)

  /** Without middlewares the leaf runs bare. */
  method RunChain(c: Chain, q: Request) returns (r: RunResult)
    requires ValidChain(c)
    ensures |c.middlewares| > 0 ==> r == Responded(Next(c, 0, q).response)
    ensures |c.middlewares| == 0 ==> r == match c.leaf(q) case Leaf(resp) => Responded(resp) case LeafPanic(v) => Escaped(v)
  {
    if |c.middlewares| == 0 {
      match c.leaf(q) {
        case Leaf(resp) => return Responded(resp);
        case LeafPanic(v) => return Escaped(v);
      }
    }
    var run := new ChainRun();
    var resp := run.CallNext(c, q);
    return Responded(resp);
  }

  // ----- what starts, and how often

  function Interval(from: nat, to: nat): (s: seq<nat>)
    ensures |s| == if from <= to then to - from else 0
    ensures forall k :: 0 <= k < |s| ==> s[k] == from + k
  {
    if from >= to then [] else seq(to - from, k requires 0 <= k => from + k)
  }

  function Min(a: int, b: int): int {
    if a <= b then a else b
  }

  /** What a range of counter values starts: each index in it once, in order, up to the leaf. */
  function StartedBy(c: Chain, from: nat, to: nat): seq<nat> {
    Interval(from, Min(to, |c.middlewares| + 1))
  }

  lemma IntervalConcat(a: nat, b: nat, m: nat, n: nat)
    requires a <= b <= m
    ensures Interval(a, Min(b, n)) + Interval(b, Min(m, n)) == Interval(a, Min(m, n))
  {
  }

  lemma {:induction false} NextStarts(c: Chain, counter: nat, q: Request)
    requires ValidChain(c)
    ensures var o := Next(c, counter, q); o.started == StartedBy(c, counter, o.counter)
    decreases if counter <= |c.middlewares| then |c.middlewares| + 1 - counter else 0, 0, 0
  {
    if counter < |c.middlewares| {
      ContinueStarts(c, counter, counter + 1, q, []);
      var o := Continue(c, counter, counter + 1, q, []);
      IntervalConcat(counter, counter + 1, o.counter, |c.middlewares| + 1);
      assert Interval(counter, counter + 1) == [counter];
    } else if counter == |c.middlewares| {
      assert Interval(counter, counter + 1) == [counter];
    }
  }

  lemma {:induction false} ContinueStarts(c: Chain, idx: nat, counter: nat, q: Request, history: seq<Response>)
    requires ValidChain(c) && idx < |c.middlewares| && idx < counter
    ensures var o := Continue(c, idx, counter, q, history); o.started == StartedBy(c, counter, o.counter)
    decreases if counter <= |c.middlewares| then |c.middlewares| + 1 - counter else 0, 1,
              if |history| <= c.bound then c.bound - |history| else 0
  {
    match c.middlewares[idx](q, history)
    case Return(r) =>
    case Panic(v) =>
    case Call(request) =>
      assert |history| < c.bound;
      var inner := Next(c, counter, request);
      NextStarts(c, counter, request);
      ContinueStarts(c, idx, inner.counter, q, history + [inner.response]);
      var rest := Continue(c, idx, inner.counter, q, history + [inner.response]);
      IntervalConcat(counter, inner.counter, rest.counter, |c.middlewares| + 1);
  }

  /** Over a whole run every middleware and the leaf start at most once, in index order: what
      started is 0, 1, 2, ... up to where the run got. */
  lemma ChainStartsInOrder(c: Chain, q: Request)
    requires ValidChain(c)
    ensures var started := Next(c, 0, q).started;
            |started| <= |c.middlewares| + 1 && forall k :: 0 <= k < |started| ==> started[k] == k
  {
    NextStarts(c, 0, q);
  }

  /** Every response that leaves `next` with an error has a status. */
  lemma ErrorsHaveStatus(c: Chain, counter: nat, q: Request)
    requires ValidChain(c)
    ensures var r := Next(c, counter, q).response; r.err.Failed? ==> r.status != 0
  {
  }

  // ----- well-behaved chains compose

  /** The response with its status: an error without one gets the status of its code, anything else
      keeps what it has. */
  ghost predicate IsFixed(r: Response, fixed: Response) {
    && fixed.payload == r.payload && fixed.err == r.err
    && (r.err.Failed? && r.status == 0 ==> fixed.status == r.err.error.status)
    && (r.err.NoError? || r.status != 0 ==> fixed.status == r.status)
  }

  ghost predicate IsInternal(r: Response) {
    r.err.Failed? && r.status == 500
  }

  /** What a call of `next` answers, case by case: behind the leaf an internal error; at the leaf its
      response with the status fixed, or an internal error for its panic; before it the same for a
      middleware that returns or panics without calling on. */
  lemma NextAnswers(c: Chain, counter: nat, q: Request)
    requires ValidChain(c)
    ensures var n, r := |c.middlewares|, Next(c, counter, q).response;
            && (counter > n ==> IsInternal(r))
            && (counter == n ==> match c.leaf(q) case Leaf(answer) => IsFixed(answer, r) case LeafPanic(_) => IsInternal(r))
            && (counter < n ==>
                  match c.middlewares[counter](q, [])
                  case Return(answer) => IsFixed(answer, r)
                  case Panic(_) => IsInternal(r)
                  case Call(_) => true)
  {
  }

  /** And a middleware that has called on answers from what it got: the response of its last call
      reaches it unchanged. */
  lemma MiddlewareSeesNext(c: Chain, counter: nat, q: Request, request: Request)
    requires ValidChain(c) && counter < |c.middlewares| && c.middlewares[counter](q, []) == Call(request)
    ensures var inner := Next(c, counter + 1, request).response;
            var r := Next(c, counter, q).response;
            match c.middlewares[counter](q, [inner])
            case Return(answer) => IsFixed(answer, r)
            case Panic(_) => IsInternal(r)
            case Call(_) => true
  {
    var inner := Next(c, counter + 1, request);
    assert [] + [inner.response] == [inner.response];
    var o := Continue(c, counter, inner.counter, q, [inner.response]);
    assert Continue(c, counter, counter + 1, q, []).response == o.response;
  }

  /** A middleware that calls on, however often, gets the responses in the order of its calls. */
  lemma CallsAreAnsweredInOrder(c: Chain, idx: nat, counter: nat, q: Request, history: seq<Response>, request: Request)
    requires ValidChain(c) && idx < |c.middlewares| && idx < counter && c.middlewares[idx](q, history) == Call(request)
    ensures var inner := Next(c, counter, request);
            Continue(c, idx, counter, q, history).response ==
            Continue(c, idx, inner.counter, q, history + [inner.response]).response
  {
  }

  /** Every middleware calls `next` exactly once, whatever it gets back. */
  ghost predicate CallsOnce(c: Chain) {
    forall i, q: Request :: 0 <= i < |c.middlewares| ==> CallsNextOnce(c.middlewares[i], q)
  }

  ghost predicate CallsNextOnce(b: Behaviour, q: Request) {
    b(q, []).Call? && forall r :: !b(q, [r]).Call?
  }

  /** The response a middleware ends with. */
  function Finish(a: Action): Response {
    match a
    case Return(r) => WithStatus(r)
    case Panic(v) => PanicResponse(v)
    case Call(_) => TOO_MANY_CALLS
  }

  /** Middleware `i` around the rest of the chain around the leaf. */
  function Composed(c: Chain, i: nat, q: Request): Response
    requires i <= |c.middlewares|
    decreases |c.middlewares| - i
  {
    if i == |c.middlewares| then LeafResponse(c, q)
    else
      var b := c.middlewares[i];
      var first := b(q, []);
      if !first.Call? then Finish(first) else Finish(b(q, [Composed(c, i + 1, first.request)]))
  }

  lemma {:induction false} RunIsComposition(c: Chain, i: nat, q: Request)
    requires ValidChain(c) && CallsOnce(c) && i <= |c.middlewares|
    ensures var o := Next(c, i, q);
            o.response == Composed(c, i, q) && o.counter == |c.middlewares| + 1
    decreases |c.middlewares| - i
  {
    if i < |c.middlewares| {
      var b := c.middlewares[i];
      assert CallsNextOnce(b, q);
      var request := b(q, []).request;
      RunIsComposition(c, i + 1, request);
      var inner := Next(c, i + 1, request);
      assert [] + [inner.response] == [inner.response];
      assert !b(q, [inner.response]).Call?;
      var rest := Continue(c, i, inner.counter, q, [inner.response]);
      assert Continue(c, i, i + 1, q, []).response == rest.response;
    }
  }

  /** If each middleware calls `next` exactly once, the run is the right-nested composition, and
      everything, the leaf included, starts exactly once. */
  lemma WellBehavedChainComposes(c: Chain, q: Request)
    requires ValidChain(c) && CallsOnce(c)
    ensures var o := Next(c, 0, q);
            && o.response == Composed(c, 0, q)
            && |o.started| == |c.middlewares| + 1 && forall k :: 0 <= k < |o.started| ==> o.started[k] == k
  {
    RunIsComposition(c, 0, q);
    NextStarts(c, 0, q);
  }
}
