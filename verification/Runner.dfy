/**
 The policy runner: timeout, accumulator, circuit breaker and retry wrapped around an operation that
 runs on its own goroutine and hands its result over through a channel of capacity one. A run is any
 interleaving of the runner's steps with those of the goroutines of all attempts so far.

 Assumed of the libraries: the breaker either refuses or runs the operation once and passes its result
 through; the backoff stops at a permanent error, may stop at any other, and returns the last value.
 */
module Runner {
  import opened Text
  import opened RetryCodes

  /** Which wrappers and options are set. */
  datatype Config = Config(timeout: bool, disposer: bool, accumulator: bool, breaker: bool,
                           retry: Option<Conditions>)

  /** What an operation returns: the zero value, or the value that its attempt made. */
  datatype Value = Zero | Made(attempt: nat)

  datatype Result = Result(value: Value, err: Option<Error>)

  datatype Worker = Running | Sending(result: Result) | Finished

  /** The `done` channel: the worker's answer, or the runner's mark that it stopped waiting. */
  datatype Channel = Empty | Answer(result: Result) | Marked

  /** One attempt; the rest records what happened to it: whether it made a value and timed out, and how often
      that value was disposed of, lost for want of a disposer, and accumulated. */
  datatype Attempt = Attempt(worker: Worker, done: Channel, made: bool, timedOut: bool,
                             disposed: nat, dropped: nat, accumulated: nat)

  datatype Runner =
    | Ready
    | Waiting
    | Marking
    | Draining
    | Calling
    | Inner(result: Result)
    | Outer(result: Result)
    | Returned(result: Result)

  datatype State = State(runner: Runner, attempts: seq<Attempt>)

  datatype Action =
    | Refuse
    | Start
    | Return(attempt: nat, made: bool, err: Option<Error>)
    | Deliver(attempt: nat)
    | Receive(ctxErr: Option<ContextError>, deadline: Option<int>, now: int, later: int)
    | Expire
    | Mark(cause: ContextError)
    | Drain(cause: ContextError)
    | CallReturn(made: bool, err: Option<Error>)
    | Accumulate
    | Settle(giveUp: bool)

  const INITIAL := State(Ready, [])

  function Last(s: State): (i: int)
  {
    |s.attempts| - 1
  }

  function WithAttempt(s: State, i: nat, a: Attempt): (t: State)
    requires i < |s.attempts|
  {
    s.(attempts := s.attempts[i := a])
  }

  /** A value that nobody will get: disposed of if there is a disposer, else lost. */
  function LetGo(c: Config, a: Attempt, v: Value): (b: Attempt)
  {
    if v.Zero? then a else if c.disposer then a.(disposed := a.disposed + 1) else a.(dropped := a.dropped + 1)
  }

  /** The runner lets go of the value it holds. */
  function RunnerLetsGo(c: Config, s: State): (t: State)
    requires s.runner.Outer?
  {
    match s.runner.result.value
    case Zero => s
    case Made(i) => if i < |s.attempts| then WithAttempt(s, i, LetGo(c, s.attempts[i], Made(i))) else s
  }

  function TimedOut(cause: ContextError): (r: Result)
  {
    Result(Zero, Some(Context(cause)))
  }

  function ReturnValue(i: nat, made: bool): (v: Value)
  {
    if made then Made(i) else Zero
  }

  predicate Enabled(c: Config, s: State, a: Action)
  {
    match a
    case Refuse => c.breaker && s.runner.Ready?
    case Start => s.runner.Ready?
    case Return(i, _, _) => i < |s.attempts| && s.attempts[i].worker.Running?
    case Deliver(i) => i < |s.attempts| && s.attempts[i].worker.Sending?
    case Receive(_, _, now, later) => s.runner.Waiting? && Last(s) >= 0 && s.attempts[Last(s)].done.Answer? && now <= later
    case Expire => s.runner.Waiting?
    case Mark(_) => s.runner.Marking? && Last(s) >= 0
    case Drain(_) => s.runner.Draining? && Last(s) >= 0 && s.attempts[Last(s)].done.Answer?
    case CallReturn(_, _) => s.runner.Calling? && Last(s) >= 0
    case Accumulate => s.runner.Inner?
    case Settle(_) => s.runner.Outer?
  }

  /** The worker's select: its answer goes into the channel unless the runner's mark is there. */
  function Delivered(c: Config, s: State, i: nat): (t: State)
    requires i < |s.attempts| && s.attempts[i].worker.Sending?
  {
    var a := s.attempts[i];
    if a.done.Empty? then WithAttempt(s, i, a.(worker := Finished, done := Answer(a.worker.result)))
    else WithAttempt(s, i, LetGo(c, a.(worker := Finished), a.worker.result.value))
  }

  /** The runner got the answer: it is the attempt's result unless the attempt counts as timed out. */
  function Received(c: Config, s: State, timeout: Option<ContextError>): (t: State)
    requires Last(s) >= 0 && s.attempts[Last(s)].done.Answer?
  {
    var a := s.attempts[Last(s)];
    var taken := a.(done := Empty, timedOut := timeout.Some?);
    if timeout.Some? then
      WithAttempt(s, Last(s), LetGo(c, taken, a.done.result.value)).(runner := Inner(TimedOut(timeout.value)))
    else WithAttempt(s, Last(s), taken).(runner := Inner(a.done.result))
  }

  /** The retry closure, and what follows it: return to the caller, or another attempt. */
  ghost function Settled(c: Config, s: State, giveUp: bool): (t: State)
    requires s.runner.Outer?
  {
    var r := s.runner.result;
    if c.retry.None? || r.err.None? then s.(runner := Returned(r))
    else Failed(c, s, giveUp || RuleOn(c.retry.value, r.err.value).Permanent?)
  }

  /** A failed attempt under a retry policy: with a disposer its value is disposed of at once. */
  function Failed(c: Config, s: State, stop: bool): (t: State)
    requires s.runner.Outer?
  {
    var r := s.runner.result;
    if c.disposer then
      RunnerLetsGo(c, s).(runner := if stop then Returned(Result(Zero, r.err)) else Ready)
    else if stop then s.(runner := Returned(r))
    else RunnerLetsGo(c, s).(runner := Ready)
  }

  ghost function Next(c: Config, s: State, a: Action): (t: State)
    requires Enabled(c, s, a)
  {
    match a
    case Refuse => s.(runner := Outer(Result(Zero, Some(if c.retry.Some? then Permanent(Plain) else Plain))))
    case Start =>
      s.(runner := if c.timeout then Waiting else Calling,
         attempts := s.attempts + [Attempt(if c.timeout then Running else Finished, Empty, false, false, 0, 0, 0)])
    case Return(i, made, err) =>
      WithAttempt(s, i, s.attempts[i].(worker := Sending(Result(ReturnValue(i, made), err)), made := made))
    case Deliver(i) => Delivered(c, s, i)
    case Receive(ctxErr, deadline, now, later) =>
      Received(c, s, TimeoutError(ctxErr, deadline, now, later, s.attempts[Last(s)].done.result.err))
    case Expire => s.(runner := Marking)
    case Mark(cause) =>
      var a := s.attempts[Last(s)];
      if a.done.Empty? then
        WithAttempt(s, Last(s), a.(done := Marked, timedOut := true)).(runner := Inner(TimedOut(cause)))
      else s.(runner := Draining)
    case Drain(cause) => Received(c, s, Some(cause))
    case CallReturn(made, err) =>
      WithAttempt(s, Last(s), s.attempts[Last(s)].(made := made)).(runner := Inner(Result(ReturnValue(Last(s), made), err)))
    case Accumulate =>
      var v := s.runner.result.value;
      var t := if c.accumulator && v.Made? && v.attempt < |s.attempts| then
                 var a := s.attempts[v.attempt];
                 WithAttempt(s, v.attempt, a.(accumulated := a.accumulated + 1))
               else s;
      t.(runner := Outer(s.runner.result))
    case Settle(giveUp) => Settled(c, s, giveUp)
  }

  /** The states that a run passes through: each action is enabled and leads to the next state. */
  ghost predicate IsRun(c: Config, actions: seq<Action>, states: seq<State>)
  {
    && |states| == |actions| + 1 && states[0] == INITIAL
    && forall i :: 0 <= i < |actions| ==>
                     Enabled(c, states[i], actions[i]) && states[i + 1] == Next(c, states[i], actions[i])
  }

  // ----- who holds a value -----

  function HoldsIt(v: Value, i: nat): (n: nat)
  {
    if v == Made(i) then 1 else 0
  }

  function HeldByRunner(r: Runner, i: nat): (n: nat)
  {
    match r
    case Inner(result) => HoldsIt(result.value, i)
    case Outer(result) => HoldsIt(result.value, i)
    case Returned(result) => HoldsIt(result.value, i)
    case _ => 0
  }

  function HeldByAttempt(a: Attempt, i: nat): (n: nat)
  {
    (if a.worker.Sending? then HoldsIt(a.worker.result.value, i) else 0)
    + (if a.done.Answer? then HoldsIt(a.done.result.value, i) else 0)
  }

  /** In how many places the value of attempt i is. */
  function Places(s: State, i: nat): (n: nat)
    requires i < |s.attempts|
  {
    var a := s.attempts[i];
    HeldByAttempt(a, i) + HeldByRunner(s.runner, i) + a.disposed + a.dropped
  }

  /** A value sits only where its own attempt put it. */
  predicate OwnValues(s: State, i: nat)
    requires i < |s.attempts|
  {
    var a := s.attempts[i];
    && (a.worker.Sending? ==> a.worker.result.value in {Zero, Made(i)})
    && (a.done.Answer? ==> a.done.result.value in {Zero, Made(i)})
  }

  predicate Current(r: Runner)
  {
    r.Waiting? || r.Marking? || r.Draining?
  }

  /** The hand-over of one attempt. While the runner waits, the answer is still to come or is in the
      channel; afterwards nothing can be put into the channel any more. */
  predicate HandOver(a: Attempt, waiting: bool)
  {
    && (a.worker.Running? ==> !a.made)
    && (a.worker.Sending? ==> (a.made <==> a.worker.result.value.Made?))
    && (a.done.Answer? ==> (a.made <==> a.done.result.value.Made?))
    && if waiting then !a.timedOut && !a.done.Marked? && (a.done.Answer? <==> a.worker.Finished?)
       else !a.done.Answer? && (a.done.Empty? ==> a.worker.Finished?) && (a.done.Marked? ==> a.timedOut)
  }

  predicate RunnerOk(c: Config, s: State)
  {
    && (Current(s.runner) || s.runner.Calling? ==> Last(s) >= 0)
    && (s.runner.Draining? ==> s.attempts[Last(s)].done.Answer?)
    && (s.runner.Calling? ==> !c.timeout && var a := s.attempts[Last(s)]; !a.made && !a.timedOut)
    && (s.runner.Inner? && LastTimedOut(s) ==>
          s.runner.result.err.Some? && s.runner.result.err.value.Context?)
    && (s.runner.Inner? || s.runner.Outer? || s.runner.Returned? ==>
          s.runner.result.value.Made? ==> s.runner.result.value.attempt == Last(s) >= 0)
    && (s.runner.Inner? && s.runner.result.value.Made? ==> !s.attempts[Last(s)].timedOut)
    && (s.runner.Returned? && c.retry.Some? && c.disposer && s.runner.result.err.Some? ==> s.runner.result.value.Zero?)
  }

  /** A value is accumulated once, when the runner passes it on from an attempt that did not time out. */
  predicate AccumulatedOk(c: Config, s: State, i: nat)
    requires i < |s.attempts|
  {
    var a := s.attempts[i];
    var pending := HeldByAttempt(a, i) == 1 || (s.runner.Inner? && s.runner.result.value == Made(i));
    && a.accumulated <= 1
    && (a.accumulated == 1 ==> c.accumulator && a.made && !a.timedOut && !pending)
    && (a.accumulated == 0 && a.made && !a.timedOut && c.accumulator ==> pending)
  }

  predicate AttemptOk(c: Config, s: State, i: nat)
    requires i < |s.attempts|
  {
    && OwnValues(s, i)
    && HandOver(s.attempts[i], Current(s.runner) && i == Last(s))
    && Places(s, i) == (if s.attempts[i].made then 1 else 0)
    && (if c.disposer then s.attempts[i].dropped == 0 else s.attempts[i].disposed == 0)
    && (!c.timeout ==> s.attempts[i].worker.Finished?)
    && AccumulatedOk(c, s, i)
  }

  predicate Inv(c: Config, s: State)
  {
    RunnerOk(c, s) && forall i :: 0 <= i < |s.attempts| ==> AttemptOk(c, s, i)
  }

  lemma InvInitial(c: Config)
    ensures Inv(c, INITIAL)
  {
  }

  /** Every step of every thread keeps each value in exactly one place. */
  lemma InvNext(c: Config, s: State, a: Action)
    requires Inv(c, s) && Enabled(c, s, a)
    ensures Inv(c, Next(c, s, a))
  {
    match a
    case Refuse => RefuseKeeps(c, s, a);
    case Start => StartKeeps(c, s, a);
    case Return(_, _, _) => ReturnKeeps(c, s, a);
    case Deliver(_) => DeliverKeeps(c, s, a);
    case Receive(_, _, _, _) => ReceiveKeeps(c, s, a);
    case Expire => ExpireKeeps(c, s, a);
    case Mark(_) => MarkKeeps(c, s, a);
    case Drain(_) => DrainKeeps(c, s, a);
    case CallReturn(_, _) => CallReturnKeeps(c, s, a);
    case Accumulate => AccumulateKeeps(c, s, a);
    case Settle(_) => SettleKeeps(c, s, a);
  }

  lemma RefuseKeeps(c: Config, s: State, a: Action)
    requires Inv(c, s) && Enabled(c, s, a) && a.Refuse?
    ensures Inv(c, Next(c, s, a))
  {
    var t := Next(c, s, a);
    assert Last(s) >= 0 ==> AttemptOk(c, s, Last(s));
    forall i | 0 <= i < |t.attempts|
      ensures AttemptOk(c, t, i)
    {
      assert i < |s.attempts| ==> AttemptOk(c, s, i);
    }
  }

  lemma StartKeeps(c: Config, s: State, a: Action)
    requires Inv(c, s) && Enabled(c, s, a) && a.Start?
    ensures Inv(c, Next(c, s, a))
  {
    var t := Next(c, s, a);
    assert Last(s) >= 0 ==> AttemptOk(c, s, Last(s));
    forall i | 0 <= i < |t.attempts|
      ensures AttemptOk(c, t, i)
    {
      assert i < |s.attempts| ==> AttemptOk(c, s, i);
    }
  }

  lemma ReturnKeeps(c: Config, s: State, a: Action)
    requires Inv(c, s) && Enabled(c, s, a) && a.Return?
    ensures Inv(c, Next(c, s, a))
  {
    var t := Next(c, s, a);
    assert AttemptOk(c, s, a.attempt);
    assert Last(s) >= 0 ==> AttemptOk(c, s, Last(s));
    forall i | 0 <= i < |t.attempts|
      ensures AttemptOk(c, t, i)
    {
      assert i < |s.attempts| ==> AttemptOk(c, s, i);
    }
  }

  lemma DeliverKeeps(c: Config, s: State, a: Action)
    requires Inv(c, s) && Enabled(c, s, a) && a.Deliver?
    ensures Inv(c, Next(c, s, a))
  {
    var t := Next(c, s, a);
    assert AttemptOk(c, s, a.attempt);
    assert Last(s) >= 0 ==> AttemptOk(c, s, Last(s));
    forall i | 0 <= i < |t.attempts|
      ensures AttemptOk(c, t, i)
    {
      assert i < |s.attempts| ==> AttemptOk(c, s, i);
    }
  }

  lemma ReceiveKeeps(c: Config, s: State, a: Action)
    requires Inv(c, s) && Enabled(c, s, a) && a.Receive?
    ensures Inv(c, Next(c, s, a))
  {
    var t := Next(c, s, a);
    assert Last(s) >= 0 ==> AttemptOk(c, s, Last(s));
    forall i | 0 <= i < |t.attempts|
      ensures AttemptOk(c, t, i)
    {
      assert i < |s.attempts| ==> AttemptOk(c, s, i);
    }
  }

  lemma ExpireKeeps(c: Config, s: State, a: Action)
    requires Inv(c, s) && Enabled(c, s, a) && a.Expire?
    ensures Inv(c, Next(c, s, a))
  {
    var t := Next(c, s, a);
    assert Last(s) >= 0 ==> AttemptOk(c, s, Last(s));
    forall i | 0 <= i < |t.attempts|
      ensures AttemptOk(c, t, i)
    {
      assert i < |s.attempts| ==> AttemptOk(c, s, i);
    }
  }

  lemma MarkKeeps(c: Config, s: State, a: Action)
    requires Inv(c, s) && Enabled(c, s, a) && a.Mark?
    ensures Inv(c, Next(c, s, a))
  {
    var t := Next(c, s, a);
    assert Last(s) >= 0 ==> AttemptOk(c, s, Last(s));
    forall i | 0 <= i < |t.attempts|
      ensures AttemptOk(c, t, i)
    {
      assert i < |s.attempts| ==> AttemptOk(c, s, i);
    }
  }

  lemma DrainKeeps(c: Config, s: State, a: Action)
    requires Inv(c, s) && Enabled(c, s, a) && a.Drain?
    ensures Inv(c, Next(c, s, a))
  {
    var t := Next(c, s, a);
    assert Last(s) >= 0 ==> AttemptOk(c, s, Last(s));
    forall i | 0 <= i < |t.attempts|
      ensures AttemptOk(c, t, i)
    {
      assert i < |s.attempts| ==> AttemptOk(c, s, i);
    }
  }

  lemma CallReturnKeeps(c: Config, s: State, a: Action)
    requires Inv(c, s) && Enabled(c, s, a) && a.CallReturn?
    ensures Inv(c, Next(c, s, a))
  {
    var t := Next(c, s, a);
    assert Last(s) >= 0 ==> AttemptOk(c, s, Last(s));
    forall i | 0 <= i < |t.attempts|
      ensures AttemptOk(c, t, i)
    {
      assert i < |s.attempts| ==> AttemptOk(c, s, i);
    }
  }

  lemma AccumulateKeeps(c: Config, s: State, a: Action)
    requires Inv(c, s) && Enabled(c, s, a) && a.Accumulate?
    ensures Inv(c, Next(c, s, a))
  {
    var t := Next(c, s, a);
    assert Last(s) >= 0 ==> AttemptOk(c, s, Last(s));
    forall i | 0 <= i < |t.attempts|
      ensures AttemptOk(c, t, i)
    {
      assert i < |s.attempts| ==> AttemptOk(c, s, i);
    }
  }

  lemma SettleKeeps(c: Config, s: State, a: Action)
    requires Inv(c, s) && Enabled(c, s, a) && a.Settle?
    ensures Inv(c, Next(c, s, a))
  {
    FailedKeeps(c, s, true);
    FailedKeeps(c, s, false);
    var t := s.(runner := Returned(s.runner.result));
    forall i | 0 <= i < |t.attempts|
      ensures AttemptOk(c, t, i)
    {
      assert AttemptOk(c, s, i);
    }
  }

  lemma FailedKeeps(c: Config, s: State, stop: bool)
    requires Inv(c, s) && s.runner.Outer?
    ensures Inv(c, Failed(c, s, stop))
  {
    var t := Failed(c, s, stop);
    assert Last(s) >= 0 ==> AttemptOk(c, s, Last(s));
    forall i | 0 <= i < |t.attempts|
      ensures AttemptOk(c, t, i)
    {
      assert AttemptOk(c, s, i);
    }
  }

  // ----- whole runs -----

  lemma {:induction false} RunKeepsInv(c: Config, actions: seq<Action>, states: seq<State>, k: nat)
    requires IsRun(c, actions, states) && k <= |actions|
    ensures Inv(c, states[k])
  {
    if k == 0 {
      InvInitial(c);
    } else {
      RunKeepsInv(c, actions, states, k - 1);
      InvNext(c, states[k - 1], actions[k - 1]);
    }
  }

  /** The caller has its result and no goroutine of any attempt is left. */
  predicate AtRest(s: State)
  {
    s.runner.Returned? && forall a <- s.attempts :: a.worker.Finished?
  }

  /** The value of attempt i ended up with the caller. */
  predicate GivenOut(s: State, i: nat)
  {
    s.runner.Returned? && s.runner.result.value == Made(i)
  }

  /** Ownership: when everything has come to rest, every value that any attempt made was either disposed of
      exactly once or given to the caller, never both and never neither; without a disposer it was given to
      the caller or lost. What was not made was not disposed of. With a retry policy and a disposer a value
      is given out only with success. */
  lemma ValuesAreOwnedOnce(c: Config, actions: seq<Action>, states: seq<State>, i: nat)
    requires IsRun(c, actions, states)
    requires AtRest(states[|actions|]) && i < |states[|actions|].attempts|
    ensures var s := states[|actions|];
            var a := s.attempts[i];
            && (c.disposer && a.made ==> (a.disposed == 1 && !GivenOut(s, i)) || (a.disposed == 0 && GivenOut(s, i)))
            && (c.disposer ==> a.dropped == 0)
            && (!c.disposer && a.made ==> (a.dropped == 1 && !GivenOut(s, i)) || (a.dropped == 0 && GivenOut(s, i)))
            && (!c.disposer ==> a.disposed == 0)
            && (!a.made ==> a.disposed == 0 && a.dropped == 0 && !GivenOut(s, i))
            && (c.disposer && c.retry.Some? && GivenOut(s, i) ==> s.runner.result.err.None?)
  {
    var s := states[|actions|];
    RunKeepsInv(c, actions, states, |actions|);
    assert AttemptOk(c, s, i) && s.attempts[i] in s.attempts;
  }

  /** Accumulation: at rest the accumulator has seen the value of exactly those attempts that made one and did
      not time out, each once. */
  lemma AccumulatedOnce(c: Config, actions: seq<Action>, states: seq<State>, i: nat)
    requires IsRun(c, actions, states)
    requires AtRest(states[|actions|]) && i < |states[|actions|].attempts|
    ensures var s := states[|actions|];
            var a := s.attempts[i];
            a.accumulated == if c.accumulator && a.made && !a.timedOut then 1 else 0
  {
    var s := states[|actions|];
    RunKeepsInv(c, actions, states, |actions|);
    assert AttemptOk(c, s, i) && s.attempts[i] in s.attempts;
  }

  /** In the middle of a run, too, no value of a timed-out attempt has been accumulated, and none has been
      disposed of twice or disposed of and given out. */
  lemma NeverTwice(c: Config, actions: seq<Action>, states: seq<State>, k: nat, i: nat)
    requires IsRun(c, actions, states) && k <= |actions| && i < |states[k].attempts|
    ensures states[k].attempts[i].timedOut ==> states[k].attempts[i].accumulated == 0
    ensures states[k].attempts[i].disposed + (if GivenOut(states[k], i) then 1 else 0) <= 1
  {
    RunKeepsInv(c, actions, states, k);
    assert AttemptOk(c, states[k], i);
  }

  /** A step that the runner takes by itself, whatever the operation does. */
  predicate Unaided(a: Action)
  {
    !a.Return? && !a.Deliver? && !a.CallReturn?
  }

  /** With a timeout, an operation that hangs cannot hold the runner: until it returns it can take a step of its own;
      in particular the answer it must drain is there. */
  lemma RunnerIsNeverStuck(c: Config, actions: seq<Action>, states: seq<State>, k: nat) returns (a: Action)
    requires IsRun(c, actions, states) && k <= |actions| && !states[k].runner.Returned? && c.timeout
    ensures Enabled(c, states[k], a) && Unaided(a)
  {
    RunKeepsInv(c, actions, states, k);
    a := match states[k].runner
      case Ready => Start
      case Waiting => Expire
      case Marking => Mark(DeadlineExceeded)
      case Draining => Drain(DeadlineExceeded)
      case Inner(_) => Accumulate
      case _ => Settle(false);
  }

  /** Without a timeout the runner makes the call itself and waits for it: while it does, nothing at all can happen but
      the operation's return. */
  lemma WithoutTimeoutItWaits(c: Config, actions: seq<Action>, states: seq<State>, k: nat, a: Action)
    requires IsRun(c, actions, states) && k <= |actions| && states[k].runner.Calling?
    ensures !c.timeout
    ensures Enabled(c, states[k], a) ==> a.CallReturn?
  {
    RunKeepsInv(c, actions, states, k);
    if a.Return? || a.Deliver? {
      assert a.attempt < |states[k].attempts| ==> AttemptOk(c, states[k], a.attempt);
    }
  }

  /** The attempt that was made last counts as timed out. */
  predicate LastTimedOut(s: State)
  {
    Last(s) >= 0 && s.attempts[Last(s)].timedOut
  }

  /** From step `j` to step `k` only goroutines of attempts act. */
  predicate OnlyWorkers(actions: seq<Action>, j: int, k: int)
  {
    forall i :: j <= i < k && 0 <= i < |actions| ==> actions[i].Return? || actions[i].Deliver?
  }

  /** Goroutines of attempts change neither what the runner holds nor which attempts timed out. */
  lemma {:induction false} WorkersLeaveRunner(c: Config, actions: seq<Action>, states: seq<State>, j: nat, k: nat)
    requires IsRun(c, actions, states) && j <= k <= |actions| && OnlyWorkers(actions, j, k)
    ensures states[k].runner == states[j].runner && |states[k].attempts| == |states[j].attempts|
    ensures forall i :: 0 <= i < |states[j].attempts| ==> states[k].attempts[i].timedOut == states[j].attempts[i].timedOut
    decreases k - j
  {
    if j < k {
      WorkersLeaveRunner(c, actions, states, j, k - 1);
      assert actions[k - 1].Return? || actions[k - 1].Deliver?;
    }
  }

  /** In every run under a retry policy, an attempt that is passed on at step `j` and settled at step `k`, whatever its
      and other goroutines do in between, is followed by another one exactly when the backoff goes on, the attempt failed,
      and it timed out or returned an error that no rule makes permanent. A timed-out attempt is never made permanent,
      whatever the rules say of the error it returned: if the backoff gives up, the caller gets the timeout. */
  lemma TimeoutIsRetried(c: Config, actions: seq<Action>, states: seq<State>, j: nat, k: nat)
    requires IsRun(c, actions, states) && c.retry.Some? && j < k < |actions|
    requires actions[j].Accumulate? && actions[k].Settle? && OnlyWorkers(actions, j + 1, k)
    ensures var result, timedOut := states[j].runner.result, LastTimedOut(states[j]);
            && (states[k + 1].runner.Ready? <==>
                !actions[k].giveUp && result.err.Some?
                && (timedOut || !RuleOn(c.retry.value, result.err.value).Permanent?))
            && (timedOut && !states[k + 1].runner.Ready? ==>
                  && states[k + 1].runner.Returned? && states[k + 1].runner.result.err.Some?
                  && states[k + 1].runner.result.err.value.Context?)
  {
    RunKeepsInv(c, actions, states, j);
    WorkersLeaveRunner(c, actions, states, j + 1, k);
    assert states[j + 1] == Next(c, states[j], actions[j]) && states[k + 1] == Next(c, states[k], actions[k]);
    assert states[k].runner == Outer(states[j].runner.result);
  }

  /** Between the end of the context and what is passed on, the runner marks the attempt or drains its answer. */
  lemma {:induction false} StillExpired(c: Config, actions: seq<Action>, states: seq<State>, j: nat, k: nat)
    requires IsRun(c, actions, states) && j < k <= |actions| && actions[j].Expire?
    requires forall m :: j < m <= k ==> !states[m].runner.Inner?
    ensures states[k].runner.Marking? || states[k].runner.Draining?
    decreases k
  {
    assert Enabled(c, states[k - 1], actions[k - 1]) && states[k] == Next(c, states[k - 1], actions[k - 1]);
    if k > j + 1 {
      StillExpired(c, actions, states, j, k - 1);
    }
  }

  /** An attempt whose context ends while the runner waits counts as timed out, and the timeout is what is passed on
      next, whatever the operation returns and whenever it does. */
  lemma ExpiredTimesOut(c: Config, actions: seq<Action>, states: seq<State>, j: nat, k: nat)
    requires IsRun(c, actions, states) && j < k <= |actions| && actions[j].Expire?
    requires states[k].runner.Inner? && forall m :: j < m < k ==> !states[m].runner.Inner?
    ensures LastTimedOut(states[k]) && states[k].runner.result.value.Zero?
    ensures states[k].runner.result.err.Some? && states[k].runner.result.err.value.Context?
  {
    assert Enabled(c, states[k - 1], actions[k - 1]) && states[k] == Next(c, states[k - 1], actions[k - 1]);
    if k > j + 1 {
      StillExpired(c, actions, states, j, k - 1);
    }
  }

  /** An answer without an error, or well before the deadline of a live context, stands: the runner passes it on, the
      attempt does not count as timed out, and its value is not let go. */
  lemma EarlyAnswerStands(c: Config, actions: seq<Action>, states: seq<State>, k: nat)
    requires IsRun(c, actions, states) && k < |actions| && actions[k].Receive?
    requires var a, err := actions[k], states[k].attempts[Last(states[k])].done.result.err;
             err.None? ||
             (a.ctxErr.None? && (a.deadline.None? || a.deadline.value - a.later > DEADLINE_CLOCK_TOLERANCE))
    ensures var s, t := states[k], states[k + 1];
            && t.runner == Inner(s.attempts[Last(s)].done.result)
            && !t.attempts[Last(t)].timedOut && t.attempts[Last(t)].disposed == 0 && t.attempts[Last(t)].dropped == 0
  {
    RunKeepsInv(c, actions, states, k);
    RunKeepsInv(c, actions, states, k + 1);
    assert AttemptOk(c, states[k + 1], Last(states[k + 1])) && AttemptOk(c, states[k], Last(states[k]));
  }

  /** Some range of the patterns holds the code, or there are no patterns. */
  ghost predicate Listed(ranges: Option<seq<CodeRange>>, code: int)
  {
    ranges.Some? ==> exists i :: 0 <= i < |ranges.value| && ranges.value[i].start <= code <= ranges.value[i].end
  }

  /** What is tried again, by the error that the attempt ended with: an error without a code, timeouts among them; an error
      with a gRPC code that the gRPC patterns list, or with an HTTP code that the HTTP patterns list; and never one that is
      permanent already. */
  ghost predicate TriedAgain(c: Conditions, err: Error)
  {
    match err
    case Context(_) => true
    case Plain => true
    case Permanent(_) => false
    case Coded(e) => (0 <= e.code <= 16 && Listed(c.grpc, e.code)) || (100 <= e.code <= 599 && Listed(c.http, e.code))
  }

  lemma RuleTriesAgain(c: Conditions, err: Error)
    ensures TriedAgain(c, err) <==> !RuleOn(c, err).Permanent?
  {
    if err.Coded? {
      ListedMustRetry(c.grpc, err.e.code);
      ListedMustRetry(c.http, err.e.code);
    }
  }

  lemma ListedMustRetry(ranges: Option<seq<CodeRange>>, code: int)
    ensures Listed(ranges, code) <==> MustRetry(code, ranges)
  {
    if ranges.Some? {
      if r :| r in ranges.value && MatchCode(r, code) {
        var i :| 0 <= i < |ranges.value| && ranges.value[i] == r;
      }
      if i :| 0 <= i < |ranges.value| && ranges.value[i].start <= code <= ranges.value[i].end {
        assert MatchCode(ranges.value[i], code);
      }
    }
  }

  /** Which errors are tried again, in every run and by the numbers. */
  lemma ErrorsTriedAgain(c: Config, actions: seq<Action>, states: seq<State>, j: nat, k: nat)
    requires IsRun(c, actions, states) && c.retry.Some? && j < k < |actions|
    requires actions[j].Accumulate? && actions[k].Settle? && OnlyWorkers(actions, j + 1, k)
    ensures var result := states[j].runner.result;
            states[k + 1].runner.Ready? <==>
            !actions[k].giveUp && result.err.Some? && TriedAgain(c.retry.value, result.err.value)
  {
    TimeoutIsRetried(c, actions, states, j, k);
    RunKeepsInv(c, actions, states, j);
    if states[j].runner.result.err.Some? {
      RuleTriesAgain(c.retry.value, states[j].runner.result.err.value);
    }
  }

  /** What the caller gets is the result of the last attempt: its error, and its value too, unless a retry policy failed
      and a disposer has taken the value. */
  lemma CallerGetsLastResult(c: Config, actions: seq<Action>, states: seq<State>, j: nat, k: nat)
    requires IsRun(c, actions, states) && j < k < |actions|
    requires actions[j].Accumulate? && actions[k].Settle? && OnlyWorkers(actions, j + 1, k)
    requires states[k + 1].runner.Returned?
    ensures var given, result := states[k + 1].runner.result, states[j].runner.result;
            && given.err == result.err
            && given.value == if c.retry.Some? && c.disposer && result.err.Some? then Zero else result.value
  {
    WorkersLeaveRunner(c, actions, states, j + 1, k);
    assert states[j + 1] == Next(c, states[j], actions[j]) && states[k + 1] == Next(c, states[k], actions[k]);
    assert states[k].runner == Outer(states[j].runner.result);
  }

  /** A call that the breaker refuses is over: there is no other attempt, and the caller gets an error without a value. */
  lemma RefusalIsFinal(c: Config, actions: seq<Action>, states: seq<State>, j: nat, k: nat)
    requires IsRun(c, actions, states) && j < k < |actions|
    requires actions[j].Refuse? && actions[k].Settle? && OnlyWorkers(actions, j + 1, k)
    ensures var end := states[k + 1].runner;
            end.Returned? && end.result.value.Zero? && end.result.err.Some?
  {
    WorkersLeaveRunner(c, actions, states, j + 1, k);
    assert states[j + 1] == Next(c, states[j], actions[j]) && states[k + 1] == Next(c, states[k], actions[k]);
    assert states[k].runner == states[j + 1].runner;
  }

  /** The operation of attempt `i` returned this at some step before `k`. */
  ghost predicate CameBack(actions: seq<Action>, k: int, i: nat, r: Result)
  {
    exists j :: 0 <= j < k && j < |actions| && actions[j].Return? && actions[j].attempt == i
                && r == Result(if actions[j].made then Made(i) else Zero, actions[j].err)
  }

  /** What a goroutine hands over is what its operation returned. */
  lemma {:induction false} HandsOverWhatWasReturned(c: Config, actions: seq<Action>, states: seq<State>, k: nat, i: nat)
    requires IsRun(c, actions, states) && k <= |actions| && i < |states[k].attempts|
    ensures states[k].attempts[i].worker.Sending? ==> CameBack(actions, k, i, states[k].attempts[i].worker.result)
    ensures states[k].attempts[i].done.Answer? ==> CameBack(actions, k, i, states[k].attempts[i].done.result)
  {
    if k > 0 {
      var s, t, a := states[k - 1], states[k], actions[k - 1];
      assert t == Next(c, s, a);
      if i < |s.attempts| {
        HandsOverWhatWasReturned(c, actions, states, k - 1, i);
        if a.Return? && a.attempt == i {
          assert t.attempts[i].worker.result == Result(if a.made then Made(i) else Zero, a.err);
        }
        KeptAnswer(c, s, a, i);
      }
    }
  }

  lemma KeptAnswer(c: Config, s: State, a: Action, i: nat)
    requires Enabled(c, s, a) && i < |s.attempts|
    ensures var t := Next(c, s, a);
            && i < |t.attempts|
            && (t.attempts[i].worker.Sending? && !(a.Return? && a.attempt == i) ==>
                  t.attempts[i].worker == s.attempts[i].worker)
            && (t.attempts[i].done.Answer? ==>
                  t.attempts[i].done == s.attempts[i].done ||
                  (s.attempts[i].worker.Sending? && t.attempts[i].done.result == s.attempts[i].worker.result))
  {
  }

  /** When the runner receives an answer, it is what the operation returned; and the attempt counts as timed out exactly if
      the operation failed and its context was done, or its deadline had passed, or the deadline was at most 16
      milliseconds away and the error has gRPC code 1 or 4. Then the timeout is what is passed on. */
  lemma WhenTimedOut(c: Config, actions: seq<Action>, states: seq<State>, k: nat)
    requires IsRun(c, actions, states) && k < |actions| && actions[k].Receive?
    ensures var a, s, t := actions[k], states[k], states[k + 1];
            var answer := s.attempts[Last(s)].done.result;
            && CameBack(actions, k, Last(s), answer)
            && (LastTimedOut(t) <==>
                answer.err.Some? &&
                (a.ctxErr.Some? ||
                 (a.deadline.Some? && (a.deadline.value <= a.now ||
                                       (a.deadline.value - a.later <= 16 && SaysDeadline(answer.err.value))))))
            && t.runner == Inner(
                 if !LastTimedOut(t) then answer
                 else Result(Zero, Some(Context(if a.ctxErr.Some? then a.ctxErr.value else DeadlineExceeded))))
  {
    RunKeepsInv(c, actions, states, k);
    var s := states[k];
    assert Enabled(c, s, actions[k]) && states[k + 1] == Next(c, s, actions[k]);
    HandsOverWhatWasReturned(c, actions, states, k, Last(s));
    assert AttemptOk(c, s, Last(s));
    if s.attempts[Last(s)].done.result.err.Some? {
      DeadlineCodes(s.attempts[Last(s)].done.result.err.value);
    }
  }

  /** The error, or the one it wraps, has gRPC code 1 or 4. */
  predicate SaysDeadline(err: Error)
  {
    match err
    case Coded(e) => e.code == 1 || e.code == 4
    case Permanent(inner) => SaysDeadline(inner)
    case _ => false
  }

  lemma {:induction false} DeadlineCodes(err: Error)
    ensures SaysDeadline(err) <==> AsCode(err).Some? && AsCode(err).value.code in {GRPC_DEADLINE_EXCEEDED, GRPC_CANCELED}
  {
    if err.Permanent? {
      DeadlineCodes(err.inner);
    }
  }
}
