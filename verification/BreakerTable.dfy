/**
 The table of circuit breakers of components: `Get` looks a breaker up under the read lock and, on a miss, looks again
 and creates it under the write lock. Any number of threads call `Get` and `Remove`, inbound and outbound alike; each
 step below is one thread taking or leaving the lock, or doing one thing while it holds it.
 */
module BreakerTable {
  import opened Text

  /** A breaker is known by its place in the order of creation; the template is the one its creator passed. */
  datatype Breaker = Breaker(name: string, template: string)

  datatype Operation = Get(name: string, template: string) | Remove(name: string)

  datatype Pc =
    | Called
    | Reading
    | Missed
    | Locked
    | Creating(id: nat)
    | Leaving(got: Option<nat>)
    | Done(got: Option<nat>)

  datatype Thread = Thread(op: Operation, pc: Pc)

  /** The table; the breakers created so far; those that were removed; and the read-write lock. */
  datatype State = State(
    cbs: map<string, nat>,
    created: seq<Breaker>,
    removed: set<nat>,
    threads: seq<Thread>,
    readers: set<nat>,
    writer: Option<nat>)

  const INIT := State(map[], [], {}, [], {}, None)

  datatype Action = Call(op: Operation) | Step(t: nat)

  function At(s: State, t: nat, pc: Pc): (s': State)
    requires t < |s.threads|
  {
    s.(threads := s.threads[t := s.threads[t].(pc := pc)])
  }

  predicate Enabled(s: State, a: Action)
  {
    match a
    case Call(_) => true
    case Step(t) =>
      && t < |s.threads|
      && match s.threads[t].pc
         case Called => s.writer.None? && (s.threads[t].op.Remove? ==> s.readers == {})
         case Missed => s.writer.None? && s.readers == {}
         case Done(_) => false
         case _ => true
  }

  function Next(s: State, a: Action): (s': State)
    requires Enabled(s, a)
  {
    match a
    case Call(op) => s.(threads := s.threads + [Thread(op, Called)])
    case Step(t) =>
      var name := s.threads[t].op.name;
      match s.threads[t].pc
      case Called =>
        if s.threads[t].op.Get? then At(s, t, Reading).(readers := s.readers + {t})
        else At(s, t, Locked).(writer := Some(t))
      case Reading =>
        At(s, t, if name in s.cbs then Done(Some(s.cbs[name])) else Missed).(readers := s.readers - {t})
      case Missed => At(s, t, Locked).(writer := Some(t))
      case Locked =>
        if s.threads[t].op.Remove? then
          At(s, t, Leaving(None)).(cbs := s.cbs - {name},
                                   removed := if name in s.cbs then s.removed + {s.cbs[name]} else s.removed)
        else if name in s.cbs then At(s, t, Leaving(Some(s.cbs[name])))
        else At(s, t, Creating(|s.created|)).(created := s.created + [Breaker(name, s.threads[t].op.template)])
      case Creating(id) => At(s, t, Leaving(Some(id))).(cbs := s.cbs[name := id])
      case Leaving(got) => At(s, t, Done(got)).(writer := None)
      case Done(_) => s
  }

  predicate IsRun(s: State, run: seq<Action>, s': State)
    decreases |run|
  {
    if run == [] then s == s' else Enabled(s, run[0]) && IsRun(Next(s, run[0]), run[1..], s')
  }

  // ----- what every run keeps -----

  /** The lock excludes: the writer is the one thread in its critical section, readers are those that read, and
      there is no writer while there are readers. */
  predicate ThreadLocked(s: State, t: int)
    requires 0 <= t < |s.threads|
  {
    var pc := s.threads[t].pc;
    && ((pc.Locked? || pc.Creating? || pc.Leaving?) <==> s.writer == Some(t))
    && (pc.Reading? <==> t in s.readers)
    && (pc.Reading? || pc.Missed? || pc.Creating? ==> s.threads[t].op.Get?)
  }

  predicate LockOk(s: State)
  {
    && (forall t :: 0 <= t < |s.threads| ==> ThreadLocked(s, t))
    && (forall t <- s.readers :: t < |s.threads|)
    && (s.writer.Some? ==> s.writer.value < |s.threads| && s.readers == {})
  }

  /** What a finished or finishing `Get` holds is a breaker of its name: the one in the table, or a removed one. */
  predicate GotOk(s: State, op: Operation, got: Option<nat>)
  {
    if op.Remove? then got.None?
    else
      && got.Some? && got.value < |s.created| && s.created[got.value].name == op.name
      && (got.value in s.removed || (op.name in s.cbs && s.cbs[op.name] == got.value))
  }

  predicate ThreadOk(s: State, t: int)
    requires 0 <= t < |s.threads|
  {
    var op := s.threads[t].op;
    match s.threads[t].pc
    case Creating(id) =>
      id < |s.created| && id !in s.removed && s.created[id].name == op.name && op.name !in s.cbs
    case Leaving(got) => GotOk(s, op, got)
    case Done(got) => GotOk(s, op, got)
    case _ => true
  }

  predicate TableOk(s: State)
  {
    && (forall n <- s.cbs :: s.cbs[n] < |s.created| && s.created[s.cbs[n]].name == n && s.cbs[n] !in s.removed)
    && (forall id <- s.removed :: id < |s.created|)
  }

  predicate BeingCreated(s: State, id: int)
  {
    && s.writer.Some? && s.writer.value < |s.threads|
    && var pc := s.threads[s.writer.value].pc; pc.Creating? && pc.id == id
  }

  /** A breaker that was created and not removed is in the table, or about to be put there. */
  predicate LiveOk(s: State)
  {
    forall id :: 0 <= id < |s.created| && id !in s.removed ==>
      BeingCreated(s, id) || (s.created[id].name in s.cbs && s.cbs[s.created[id].name] == id)
  }

  predicate ThreadsOk(s: State)
  {
    forall t :: 0 <= t < |s.threads| ==> ThreadOk(s, t)
  }

  predicate Inv(s: State)
  {
    LockOk(s) && ThreadsOk(s) && TableOk(s) && LiveOk(s)
  }

  lemma LockKeeps(s: State, a: Action)
    requires LockOk(s) && Enabled(s, a)
    ensures LockOk(Next(s, a))
  {
    var s' := Next(s, a);
    if a.Step? {
      assert ThreadLocked(s, a.t);
    }
    forall u | 0 <= u < |s'.threads| ensures ThreadLocked(s', u) {
      if u < |s.threads| {
        assert ThreadLocked(s, u);
      }
    }
  }

  lemma TableKeeps(s: State, a: Action)
    requires Inv(s) && Enabled(s, a)
    ensures TableOk(Next(s, a))
  {
    if a.Step? {
      assert ThreadOk(s, a.t) && ThreadLocked(s, a.t);
    }
  }

  lemma LiveKeeps(s: State, a: Action)
    requires Inv(s) && Enabled(s, a)
    ensures LiveOk(Next(s, a))
  {
    if a.Step? {
      assert ThreadOk(s, a.t) && ThreadLocked(s, a.t);
    }
  }

  lemma ThreadsKeep(s: State, a: Action)
    requires Inv(s) && Enabled(s, a)
    ensures ThreadsOk(Next(s, a))
  {
    var s' := Next(s, a);
    forall u | 0 <= u < |s'.threads| ensures ThreadOk(s', u) {
      if u < |s.threads| {
        assert ThreadOk(s, u) && ThreadLocked(s, u);
        if a.Step? {
          assert ThreadOk(s, a.t) && ThreadLocked(s, a.t);
        }
      }
    }
  }

  lemma InvNext(s: State, a: Action)
    requires Inv(s) && Enabled(s, a)
    ensures Inv(Next(s, a))
  {
    LockKeeps(s, a);
    TableKeeps(s, a);
    LiveKeeps(s, a);
    ThreadsKeep(s, a);
  }

  lemma {:induction false} RunKeepsInv(s: State, run: seq<Action>, s': State)
    requires Inv(s) && IsRun(s, run, s')
    ensures Inv(s')
    decreases |run|
  {
    if run != [] {
      InvNext(s, run[0]);
      RunKeepsInv(Next(s, run[0]), run[1..], s');
    }
  }

  // ----- what it means -----

  /** At every moment of every run, of all the breakers created for a name at most one is not removed, and every
      finished `Get` for that name that does not hold a removed breaker holds that one. */
  lemma OneLiveBreaker(run: seq<Action>, s: State, i: nat, j: nat)
    requires IsRun(INIT, run, s)
    requires i < |s.created| && j < |s.created| && i !in s.removed && j !in s.removed
    requires s.created[i].name == s.created[j].name
    ensures i == j
  {
    RunKeepsInv(INIT, run, s);
    assert BeingCreated(s, i) ==> ThreadOk(s, s.writer.value);
    assert BeingCreated(s, j) ==> ThreadOk(s, s.writer.value);
  }

  /** As long as nothing is removed, all callers that name a component, inbound and outbound, with whatever template,
      get the same breaker, and it is the only one ever created for that name. */
  lemma CallersShareTheBreaker(run: seq<Action>, s: State, t: nat, u: nat)
    requires IsRun(INIT, run, s) && s.removed == {}
    requires t < |s.threads| && u < |s.threads|
    requires s.threads[t].op.Get? && s.threads[u].op.Get? && s.threads[t].op.name == s.threads[u].op.name
    requires s.threads[t].pc.Done? && s.threads[u].pc.Done?
    ensures s.threads[t].pc.got == s.threads[u].pc.got && s.threads[t].pc.got.Some?
    ensures forall id :: 0 <= id < |s.created| && s.created[id].name == s.threads[t].op.name ==>
              s.threads[t].pc.got == Some(id)
  {
    RunKeepsInv(INIT, run, s);
    assert ThreadOk(s, t) && ThreadOk(s, u);
    forall id | 0 <= id < |s.created| && s.created[id].name == s.threads[t].op.name
      ensures s.threads[t].pc.got == Some(id)
    {
      OneLiveBreaker(run, s, id, s.threads[t].pc.got.value);
    }
  }

  /** A call of `Get` asked for the breaker: for its name, with its template. */
  ghost predicate AskedFor(s: State, b: Breaker)
  {
    exists t :: 0 <= t < |s.threads| && s.threads[t].op == Get(b.name, b.template)
  }

  lemma AskedNext(s: State, a: Action, b: Breaker)
    requires Enabled(s, a) && AskedFor(s, b)
    ensures AskedFor(Next(s, a), b)
  {
    var t :| 0 <= t < |s.threads| && s.threads[t].op == Get(b.name, b.template);
    assert Next(s, a).threads[t].op == Get(b.name, b.template);
  }

  lemma {:induction false} RunKeepsAsked(s: State, run: seq<Action>, s': State)
    requires IsRun(s, run, s') && forall b <- s.created :: AskedFor(s, b)
    ensures forall b <- s'.created :: AskedFor(s', b)
    decreases |run|
  {
    if run != [] {
      var next := Next(s, run[0]);
      forall b <- next.created ensures AskedFor(next, b) {
        if b in s.created {
          AskedNext(s, run[0], b);
        } else {
          assert next.threads[run[0].t].op == Get(b.name, b.template);
        }
      }
      RunKeepsAsked(next, run[1..], s');
    }
  }

  /** Every breaker has the name and the template of one call of `Get`. */
  lemma BreakersAsAsked(run: seq<Action>, s: State, id: nat)
    requires IsRun(INIT, run, s) && id < |s.created|
    ensures AskedFor(s, s.created[id])
  {
    RunKeepsAsked(INIT, run, s);
  }

  /** The lock never blocks everyone: while a call is unfinished, some thread can take its next step. */
  lemma NeverStuck(run: seq<Action>, s: State, t: nat) returns (u: nat)
    requires IsRun(INIT, run, s) && t < |s.threads| && !s.threads[t].pc.Done?
    ensures Enabled(s, Step(u))
  {
    RunKeepsInv(INIT, run, s);
    if s.writer.Some? {
      u := s.writer.value;
      assert ThreadLocked(s, u);
    } else if s.readers != {} {
      u :| u in s.readers;
      assert ThreadLocked(s, u);
    } else {
      u := t;
    }
  }

  // ----- the table itself -----

  /** The state after a run. */
  function Run(s: State, run: seq<Action>): (s': State)
    requires CanRun(s, run)
    decreases |run|
  {
    if run == [] then s else Run(Next(s, run[0]), run[1..])
  }

  predicate CanRun(s: State, run: seq<Action>)
    decreases |run|
  {
    run == [] || (Enabled(s, run[0]) && CanRun(Next(s, run[0]), run[1..]))
  }

  /** The others get on with their calls, and thread `t` does nothing. */
  predicate Others(s: State, t: nat, run: seq<Action>)
  {
    CanRun(s, run) && forall a <- run :: a != Step(t)
  }

  lemma {:induction false} OthersKeep(s: State, t: nat, run: seq<Action>)
    requires Inv(s) && t < |s.threads| && Others(s, t, run)
    ensures Inv(Run(s, run)) && t < |Run(s, run).threads| && Run(s, run).threads[t] == s.threads[t]
    decreases |run|
  {
    if run != [] {
      InvNext(s, run[0]);
      assert run[0] in run && forall a <- run[1..] :: a in run;
      OthersKeep(Next(s, run[0]), t, run[1..]);
    }
  }

  /** Both locks are free. */
  predicate Free(s: State)
  {
    s.writer.None? && s.readers == {}
  }

  /** The state in which a miss under the read lock leaves thread `t`. */
  function AfterMiss(s: State, t: nat): (s': State)
  {
    if t < |s.threads| then At(s, t, Missed) else s
  }

  lemma MissIsTwoSteps(s: State, t: nat)
    requires Inv(s) && t < |s.threads| && s.threads[t].pc.Called? && s.threads[t].op.Get? && s.writer.None?
    requires s.threads[t].op.name !in s.cbs
    ensures Inv(AfterMiss(s, t)) && AfterMiss(s, t) == Next(Next(s, Step(t)), Step(t))
  {
    InvNext(s, Step(t));
    InvNext(Next(s, Step(t)), Step(t));
    assert ThreadLocked(s, t);
    assert (s.readers + {t}) - {t} == s.readers;
    assert s.threads[t := s.threads[t].(pc := Reading)][t := s.threads[t].(pc := Missed)] ==
           s.threads[t := s.threads[t].(pc := Missed)];
  }

  /** The table as an object, used by many threads. A method is the call of thread `t`; where it waits for the lock, the
      other threads take the steps that it is given. */
  class CircuitBreakerInstances {
    var cbs: map<string, nat>
    var readers: set<nat>
    var writer: Option<nat>
    var created: seq<Breaker>
    var removed: set<nat>
    var threads: seq<Thread>

    function Now(): (s: State)
      reads this
    {
      State(cbs, created, removed, threads, readers, writer)
    }

    constructor ()
      ensures Now() == INIT && Inv(Now())
    {
      cbs, readers, writer, created, removed, threads := map[], {}, None, [], {}, [];
    }

    /** A thread enters. */
    method Enter(op: Operation) returns (t: nat)
      requires Inv(Now())
      modifies this`threads
      ensures Inv(Now()) && Now() == Next(old(Now()), Call(op)) && t < |threads| && threads[t] == Thread(op, Called)
    {
      InvNext(Now(), Call(op));
      t := |threads|;
      threads := threads + [Thread(op, Called)];
    }

    /** Thread `t` waits while the others go on. */
    method Wait(t: nat, others: seq<Action>)
      requires Inv(Now()) && t < |threads| && Others(Now(), t, others)
      modifies this
      ensures Now() == Run(old(Now()), others) && Inv(Now())
      ensures t < |threads| && threads[t] == old(threads[t])
    {
      OthersKeep(Now(), t, others);
      var s := Run(Now(), others);
      cbs, readers, writer, created, removed, threads := s.cbs, s.readers, s.writer, s.created, s.removed, s.threads;
    }

    method Goto(t: nat, pc: Pc)
      requires t < |threads|
      modifies this`threads
      ensures threads == old(threads)[t := old(threads)[t].(pc := pc)]
    {
      threads := threads[t := threads[t].(pc := pc)];
    }

    /** The look under the read lock. */
    method LookUp(t: nat) returns (cb: Option<nat>)
      requires Inv(Now()) && t < |threads| && threads[t].pc.Called? && threads[t].op.Get? && writer.None?
      modifies this`readers, this`threads
      ensures Inv(Now()) && Now() == Next(Next(old(Now()), Step(t)), Step(t))
      ensures cb == if threads[t].op.name in cbs then Some(cbs[threads[t].op.name]) else None
      ensures threads == old(threads)[t := old(threads)[t].(pc := if cb.Some? then Done(cb) else Missed)]
      ensures readers == old(readers)
    {
      InvNext(Now(), Step(t));
      InvNext(Next(Now(), Step(t)), Step(t));
      assert ThreadLocked(Now(), t);
      readers := readers + {t};
      Goto(t, Reading);
      cb := if threads[t].op.name in cbs then Some(cbs[threads[t].op.name]) else None;
      readers := readers - {t};
      Goto(t, if cb.Some? then Done(cb) else Missed);
    }

    /** The second look under the write lock, and the creation if it misses too. */
    method LookUpOrCreate(t: nat) returns (cb: nat)
      requires Inv(Now()) && t < |threads| && threads[t].pc.Missed? && threads[t].op.Get? && Free(Now())
      modifies this
      ensures Inv(Now()) && Free(Now()) && removed == old(removed)
      ensures t < |threads| && threads[t] == Thread(old(threads[t].op), Done(Some(cb)))
      ensures old(threads[t].op.name in cbs) ==> cbs == old(cbs) && created == old(created)
      ensures old(threads[t].op.name !in cbs) ==>
                cbs == old(cbs)[old(threads[t].op.name) := cb] &&
                created == old(created) + [Breaker(old(threads[t].op.name), old(threads[t].op.template))]
      ensures old(threads[t].op.name) in cbs && cbs[old(threads[t].op.name)] == cb
    {
      ghost var s := Now();
      var op := threads[t].op;
      assert ThreadLocked(s, t);
      InvNext(s, Step(t));
      writer := Some(t);
      Goto(t, Locked);
      assert Now() == Next(s, Step(t));
      InvNext(Now(), Step(t));
      if op.name in cbs {
        cb := cbs[op.name];
        Goto(t, Leaving(Some(cb)));
      } else {
        cb := |created|;
        s := Now();
        created := created + [Breaker(op.name, op.template)];
        Goto(t, Creating(cb));
        assert Now() == Next(s, Step(t));
        InvNext(Now(), Step(t));
        cbs := cbs[op.name := cb];
        Goto(t, Leaving(Some(cb)));
      }
      InvNext(Now(), Step(t));
      writer := None;
      Goto(t, Done(Some(cb)));
    }

    /** `Get`, called by thread `t`: others act before it takes the read lock and, on a miss, before it takes the write
        lock. It returns the table's breaker of that name, and creates one exactly if none was there when it took the
        lock that decided; so a breaker that another thread created in the meantime is used and not replaced. */
    method Get(t: nat, instanceName: string, template: string, before: seq<Action>, between: seq<Action>)
      returns (cb: nat, ghost decided: State)
      requires Inv(Now()) && t < |threads| && threads[t] == Thread(Operation.Get(instanceName, template), Called)
      requires Others(Now(), t, before) && Run(Now(), before).writer.None?
      requires instanceName !in Run(Now(), before).cbs ==>
                 var s := AfterMiss(Run(Now(), before), t);
                 Others(s, t, between) && Free(Run(s, between))
      modifies this
      ensures Inv(Now()) && t < |threads| && threads[t].pc == Done(Some(cb))
      ensures decided == if instanceName in Run(old(Now()), before).cbs then Run(old(Now()), before)
                         else Run(AfterMiss(Run(old(Now()), before), t), between)
      ensures instanceName in cbs && cbs[instanceName] == cb && cb !in removed && removed == decided.removed
      ensures instanceName in decided.cbs ==> cbs == decided.cbs && created == decided.created
      ensures instanceName !in decided.cbs ==>
                cbs == decided.cbs[instanceName := cb] && created == decided.created + [Breaker(instanceName, template)]
    {
      Wait(t, before);
      decided := Now();
      if instanceName !in cbs {
        MissIsTwoSteps(Now(), t);
      }
      var found := LookUp(t);
      if found.Some? {
        return found.value, decided;
      }
      assert Now() == AfterMiss(decided, t);
      Wait(t, between);
      decided := Now();
      cb := LookUpOrCreate(t);
    }

    /** `Remove`, called by thread `t`: afterwards no breaker of that name is live, so the next `Get` creates a new one,
        and nothing else has changed since the lock was taken. */
    method Remove(t: nat, name: string, before: seq<Action>) returns (ghost locked: State)
      requires Inv(Now()) && t < |threads| && threads[t] == Thread(Operation.Remove(name), Called)
      requires Others(Now(), t, before) && Free(Run(Now(), before))
      modifies this
      ensures Inv(Now()) && t < |threads| && threads[t].pc == Done(None) && locked == Run(old(Now()), before)
      ensures cbs == locked.cbs - {name} && created == locked.created
      ensures forall id :: 0 <= id < |created| ==>
                (id in removed <==> id in locked.removed || created[id].name == name)
    {
      Wait(t, before);
      locked := Now();
      assert ThreadLocked(locked, t);
      InvNext(Now(), Step(t));
      writer := Some(t);
      Goto(t, Locked);
      assert Now() == Next(locked, Step(t));
      InvNext(Now(), Step(t));
      ghost var s := Now();
      removed := if name in cbs then removed + {cbs[name]} else removed;
      cbs := cbs - {name};
      Goto(t, Leaving(None));
      assert Now() == Next(s, Step(t));
      NoneLive(locked, name);
      InvNext(Now(), Step(t));
      writer := None;
      Goto(t, Done(None));
    }
  }

  /** With the lock free, the live breaker of a name is the one in the table. */
  lemma NoneLive(s: State, name: string)
    requires Inv(s) && Free(s)
    ensures forall id :: 0 <= id < |s.created| && s.created[id].name == name && id !in s.removed ==>
              name in s.cbs && s.cbs[name] == id
  {
  }
}
