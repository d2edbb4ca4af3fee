/**
 The internal gRPC port that daprd holds for the life of the process and lends to one runtime after another.
 Module HeldListener has the steps taken under the lock and what holds over every run of them, with any number
 of runtimes closing at any time and more than once; module InternalGrpc has the objects.
 */
module HeldListener {

  /** One runtime's use of the socket. `Releasing` is between its first Close and the release under the lock;
      `final` says that its context was still live then. */
  datatype Holder = Serving | Releasing(final: bool) | Released

  /** `bound` says that the socket is open, `closes` how often it was closed. */
  datatype State = State(bound: bool, closes: nat, inUse: bool, closed: bool, holders: seq<Holder>)

  const INITIAL := State(true, 0, false, false, [])

  datatype Action =
    | Take(deadlineReset: bool)
    | CloseProcess
    | CloseRuntime(holder: nat, live: bool)
    | Release(holder: nat)

  predicate CanTake(s: State)
  {
    !s.closed && !s.inUse
  }

  function CloseLocked(s: State): (t: State)
  {
    if s.bound then s.(bound := false, closes := s.closes + 1) else s
  }

  predicate Enabled(s: State, a: Action)
  {
    match a
    case CloseRuntime(i, _) => i < |s.holders|
    case Release(i) => i < |s.holders| && s.holders[i].Releasing?
    case _ => true
  }

  function Next(s: State, a: Action): (t: State)
    requires Enabled(s, a)
  {
    match a
    case Take(ok) => if CanTake(s) && ok then s.(inUse := true, holders := s.holders + [Serving]) else s
    case CloseProcess => if s.inUse then s.(closed := true) else CloseLocked(s.(closed := true))
    case CloseRuntime(i, live) =>
      if s.holders[i].Serving? then s.(holders := s.holders[i := Releasing(live)]) else s
    case Release(i) =>
      var t := s.(inUse := false, closed := s.closed || s.holders[i].final, holders := s.holders[i := Released]);
      if t.closed then CloseLocked(t) else t
  }

  /** Indices of the uses that have not ended are all the same. */
  predicate AtMostOneHolder(s: State)
  {
    forall i, j ::
      0 <= i < |s.holders| && 0 <= j < |s.holders| && !s.holders[i].Released? && !s.holders[j].Released? ==> i == j
  }

  predicate SomeHolder(s: State)
  {
    exists h <- s.holders :: !h.Released?
  }

  predicate Inv(s: State)
  {
    && AtMostOneHolder(s)
    && (s.inUse <==> SomeHolder(s))
    && (s.bound <==> !s.closed || s.inUse)
    && s.closes == (if s.bound then 0 else 1)
  }

  lemma InvNext(s: State, a: Action)
    requires Inv(s) && Enabled(s, a)
    ensures Inv(Next(s, a))
  {
    var t := Next(s, a);
    match a
    case Take(ok) =>
      if CanTake(s) && ok {
        assert t.holders[|s.holders|] in t.holders;
        assert forall i :: 0 <= i < |s.holders| ==> s.holders[i] in s.holders;
      }
    case CloseProcess =>
    case CloseRuntime(i, live) =>
      if s.holders[i].Serving? {
        assert s.holders[i] in s.holders && t.holders[i] in t.holders;
      }
    case Release(i) =>
      assert forall j :: 0 <= j < |t.holders| ==> t.holders[j].Released?;
  }

  ghost predicate IsRun(actions: seq<Action>, states: seq<State>)
  {
    && |states| == |actions| + 1 && states[0] == INITIAL
    && forall i :: 0 <= i < |actions| ==> Enabled(states[i], actions[i]) && states[i + 1] == Next(states[i], actions[i])
  }

  /** Over every run: at most one runtime listener is unreleased, the listener is in use exactly when one is, and
      the socket is closed exactly when the port was given up and nobody uses it, and then exactly once. */
  lemma {:induction false} RunKeepsInv(actions: seq<Action>, states: seq<State>, k: nat)
    requires IsRun(actions, states) && k <= |actions|
    ensures Inv(states[k])
  {
    if k > 0 {
      RunKeepsInv(actions, states, k - 1);
      InvNext(states[k - 1], actions[k - 1]);
    }
  }

  /** At step `m` runtime `i` closes its listener for the first time, with its context live or done. */
  ghost predicate Closes(actions: seq<Action>, states: seq<State>, m: int, i: nat, live: bool)
  {
    && 0 <= m < |actions| && m < |states| && actions[m] == CloseRuntime(i, live)
    && i < |states[m].holders| && states[m].holders[i].Serving?
  }

  /** A runtime that is letting go of the port closed its listener before, with its context as it now says. */
  lemma {:induction false} ReleasingSince(actions: seq<Action>, states: seq<State>, k: nat, i: nat)
    requires IsRun(actions, states) && k <= |actions| && i < |states[k].holders| && states[k].holders[i].Releasing?
    ensures exists m :: m < k && Closes(actions, states, m, i, states[k].holders[i].final)
  {
    if k > 0 {
      assert Enabled(states[k - 1], actions[k - 1]) && states[k] == Next(states[k - 1], actions[k - 1]);
      if i < |states[k - 1].holders| && states[k - 1].holders[i].Releasing? {
        ReleasingSince(actions, states, k - 1, i);
      } else {
        assert Closes(actions, states, k - 1, i, states[k].holders[i].final);
      }
    }
  }

  /** It does so once: from then on it is letting go, with its context as it was, or has let go. */
  lemma {:induction false} ClosesOnce(actions: seq<Action>, states: seq<State>, m: nat, i: nat, live: bool, k: nat)
    requires IsRun(actions, states) && Closes(actions, states, m, i, live) && m < k <= |actions|
    ensures i < |states[k].holders| && (states[k].holders[i] == Releasing(live) || states[k].holders[i].Released?)
  {
    assert Enabled(states[k - 1], actions[k - 1]) && states[k] == Next(states[k - 1], actions[k - 1]);
    if k > m + 1 {
      ClosesOnce(actions, states, m, i, live, k - 1);
    }
  }

  /** A step that gives the port up: the process closes it, or a runtime lets go whose context was live when it closed its
      listener. */
  ghost predicate GivesUp(actions: seq<Action>, states: seq<State>, j: int)
  {
    && 0 <= j < |actions|
    && (actions[j].CloseProcess? ||
        (actions[j].Release? && exists m :: m < j && Closes(actions, states, m, actions[j].holder, true)))
  }

  lemma GivesUpFinally(actions: seq<Action>, states: seq<State>, j: nat)
    requires IsRun(actions, states) && j < |actions|
    ensures GivesUp(actions, states, j) <==>
            actions[j].CloseProcess? || (actions[j].Release? && states[j].holders[actions[j].holder].final)
  {
    if actions[j].Release? {
      var i := actions[j].holder;
      assert Enabled(states[j], actions[j]);
      ReleasingSince(actions, states, j, i);
      if m :| m < j && Closes(actions, states, m, i, true) {
        ClosesOnce(actions, states, m, i, true, j);
      }
    }
  }

  /** No step before `k` gave the port up. */
  ghost predicate Kept(actions: seq<Action>, states: seq<State>, k: nat)
  {
    forall j :: 0 <= j < k ==> !GivesUp(actions, states, j)
  }

  /** The port is given up exactly if some step so far gave it up. */
  lemma {:induction false} ClosedIffGivenUp(actions: seq<Action>, states: seq<State>, k: nat)
    requires IsRun(actions, states) && k <= |actions|
    ensures states[k].closed <==> !Kept(actions, states, k)
  {
    if k > 0 {
      ClosedIffGivenUp(actions, states, k - 1);
      GivesUpFinally(actions, states, k - 1);
      assert Enabled(states[k - 1], actions[k - 1]) && states[k] == Next(states[k - 1], actions[k - 1]);
    }
  }

  /** Between restarts the port stays bound: it is unbound exactly when a step gave it up and no runtime still
      uses it. */
  lemma PortStaysBound(actions: seq<Action>, states: seq<State>, k: nat)
    requires IsRun(actions, states) && k <= |actions|
    ensures states[k].bound <==> Kept(actions, states, k) || SomeHolder(states[k])
  {
    RunKeepsInv(actions, states, k);
    ClosedIffGivenUp(actions, states, k);
  }

  /** A runtime gets the port exactly if nobody has it, it was not given up, and its deadline could be reset; otherwise
      nothing changes. */
  lemma WhoGetsThePort(actions: seq<Action>, states: seq<State>, k: nat)
    requires IsRun(actions, states) && k < |actions| && actions[k].Take?
    ensures if actions[k].deadlineReset && Kept(actions, states, k) && !SomeHolder(states[k])
            then states[k + 1].holders == states[k].holders + [Serving] && states[k + 1].bound
            else states[k + 1] == states[k]
  {
    RunKeepsInv(actions, states, k);
    RunKeepsInv(actions, states, k + 1);
    ClosedIffGivenUp(actions, states, k);
    assert states[k + 1] == Next(states[k], actions[k]);
  }

  /** Closing a runtime listener again is without effect, in particular on the hold of its successor; and a
      release ends the hold of that listener and of no other. */
  lemma StaleCloseIsHarmless(actions: seq<Action>, states: seq<State>, k: nat)
    requires IsRun(actions, states) && k < |actions|
    ensures actions[k].CloseRuntime? && !states[k].holders[actions[k].holder].Serving? ==> states[k + 1] == states[k]
    ensures forall i :: 0 <= i < |states[k].holders| && states[k].holders[i].Serving? &&
                        !(actions[k].CloseRuntime? && actions[k].holder == i) ==>
                          states[k + 1].holders[i].Serving? && states[k + 1].inUse && states[k + 1].bound
  {
    RunKeepsInv(actions, states, k);
    RunKeepsInv(actions, states, k + 1);
    forall i | 0 <= i < |states[k].holders| && states[k].holders[i].Serving? &&
               !(actions[k].CloseRuntime? && actions[k].holder == i)
      ensures states[k + 1].holders[i].Serving? && states[k + 1].inUse && states[k + 1].bound
    {
      assert states[k + 1].holders[i] in states[k + 1].holders;
    }
  }

  /** A SIGHUP restart: once the old runtime has closed its listener with its context done and let go of the port, and
      nothing before gave the port up, it is still bound, and the next runtime gets it. */
  lemma RestartGetsThePort(actions: seq<Action>, states: seq<State>, m: nat, k: nat, i: nat)
    requires IsRun(actions, states) && m < k < |actions| && Kept(actions, states, k)
    requires Closes(actions, states, m, i, false) && actions[k] == Release(i)
    ensures states[k + 1].bound && Kept(actions, states, k + 1) && !SomeHolder(states[k + 1])
    ensures k + 1 < |actions| && actions[k + 1] == Take(true) ==>
              states[k + 2].holders == states[k + 1].holders + [Serving] && states[k + 2].bound
  {
    RunKeepsInv(actions, states, k);
    RunKeepsInv(actions, states, k + 1);
    ClosesOnce(actions, states, m, i, false, k);
    GivesUpFinally(actions, states, k);
    ClosedIffGivenUp(actions, states, k + 1);
    assert Enabled(states[k], actions[k]) && states[k + 1] == Next(states[k], actions[k]);
    if k + 1 < |actions| && actions[k + 1] == Take(true) {
      WhoGetsThePort(actions, states, k + 1);
    }
  }
}

/** `InternalGRPCListener` and `runtimeListener`. */
module InternalGrpc {
  import opened HeldListener

  /** The listening socket; `unblocked` says that its accept deadline is in the past. */
  class Socket {
    var open: bool
    var unblocked: bool
    ghost var closes: nat

    constructor ()
      ensures open && closes == 0 && !unblocked
    {
      open, unblocked, closes := true, false, 0;
    }

    method Close()
      modifies this
      ensures !open && closes == old(closes) + 1
    {
      open, closes := false, closes + 1;
    }
  }

  /** One runtime's use of the held socket. */
  class RuntimeListener {
    const held: InternalGrpcListener
    var once: bool
    var closed: bool
    ghost const number: nat
    ghost var phase: Holder

    constructor (held: InternalGrpcListener, ghost number: nat)
      ensures this.held == held && this.number == number && !once && !closed && phase == Serving
    {
      this.held, once, closed := held, false, false;
      this.number, phase := number, Serving;
    }

    /** `Close`: the first one ends this use of the socket, for good if the runtime's context is live; later
        ones do nothing. */
    method Close(live: bool)
      requires held.Valid() && number < |held.listeners| && held.listeners[number] == this
      modifies this, held, held.socket
      ensures held.Valid() && held.listeners == old(held.listeners)
      ensures closed && (!old(once) && held.socket.open ==> held.socket.unblocked)
      ensures held.View() == if old(once) then old(held.View())
                             else Next(Next(old(held.View()), CloseRuntime(number, live)), HeldListener.Release(number))
    {
      if !once {
        once, closed := true, true;
        ghost var before := old(held.View());
        phase := Releasing(live);
        assert held.View() == Next(before, CloseRuntime(number, live)) by {
          assert held.View().holders == before.holders[number := Releasing(live)];
        }
        InvNext(before, CloseRuntime(number, live));
        held.Release(live, number, this);
      }
    }
  }

  class InternalGrpcListener {
    var ln: Socket?
    var inUse: bool
    var closed: bool
    ghost const socket: Socket
    ghost var listeners: seq<RuntimeListener>

    ghost function Phases(): (phases: seq<Holder>)
      reads this, listeners
      ensures |phases| == |listeners|
      ensures forall i :: 0 <= i < |listeners| ==> phases[i] == listeners[i].phase
    {
      seq(|listeners|, i requires 0 <= i < |listeners| reads this, listeners => listeners[i].phase)
    }

    ghost function View(): (s: State)
      reads this, socket, listeners
    {
      State(socket.open, socket.closes, inUse, closed, Phases())
    }

    ghost predicate ListenersOk()
      reads this, listeners
    {
      forall i :: 0 <= i < |listeners| ==>
                    var l := listeners[i];
                    && l.held == this && l.number == i
                    && (l.once <==> !l.phase.Serving?) && (l.closed <==> !l.phase.Serving?)
    }

    /** The reference is dropped exactly when the socket is closed, and the objects are in a state that the
        runs of module HeldListener keep. */
    ghost predicate Valid()
      reads this, socket, listeners
    {
      && (ln != null <==> socket.open) && (ln != null ==> ln == socket)
      && ListenersOk()
      && Inv(View())
    }

    constructor ()
      ensures Valid() && View() == INITIAL
    {
      var s := new Socket();
      ln, inUse, closed := s, false, false;
      socket, listeners := s, [];
    }

    /** `Listener`: lends the socket out, to one runtime at a time. */
    method Listener(deadlineReset: bool) returns (r: RuntimeListener?)
      requires Valid()
      modifies this, socket
      ensures Valid() && View() == Next(old(View()), Take(deadlineReset))
      ensures r != null <==> CanTake(old(View())) && deadlineReset
      ensures r != null ==> fresh(r) && listeners == old(listeners) + [r]
      ensures r == null ==> listeners == old(listeners)
      ensures r != null ==> !socket.unblocked
    {
      InvNext(View(), Take(deadlineReset));
      if closed || inUse || !deadlineReset {
        return null;
      }
      ln.unblocked := false;
      inUse := true;
      r := new RuntimeListener(this, |listeners|);
      listeners := listeners + [r];
      assert Phases() == old(Phases()) + [Serving];
    }

    /** `Close`: releases the port, or marks it to be released by the runtime that serves it. */
    method Close()
      requires Valid()
      modifies this, socket
      ensures Valid() && listeners == old(listeners) && View() == Next(old(View()), CloseProcess)
    {
      InvNext(View(), CloseProcess);
      closed := true;
      if !inUse {
        CloseLocked();
      }
      assert Phases() == old(Phases());
    }

    /** `release`: ends the use by one runtime. */
    method Release(final: bool, ghost number: nat, ghost l: RuntimeListener)
      requires ListenersOk() && Inv(View()) && (ln != null <==> socket.open) && (ln != null ==> ln == socket)
      requires number < |listeners| && listeners[number] == l && l.phase == Releasing(final)
      modifies this, socket, l`phase
      ensures Valid() && listeners == old(listeners) && View() == Next(old(View()), HeldListener.Release(number))
      ensures socket.open ==> socket.unblocked
    {
      InvNext(View(), HeldListener.Release(number));
      assert View().holders[number] in View().holders;
      inUse := false;
      if final {
        closed := true;
      }
      if closed {
        CloseLocked();
      } else {
        ln.unblocked := true;
      }
      l.phase := Released;
      assert Phases() == old(Phases())[number := Released];
    }

    /** `closeLocked`. */
    method CloseLocked()
      requires (ln != null <==> socket.open) && (ln != null ==> ln == socket)
      modifies this`ln, socket
      ensures ln == null && !socket.open
      ensures socket.closes == old(socket.closes) + if old(socket.open) then 1 else 0
    {
      if ln != null {
        ln.Close();
        ln := null;
      }
    }
  }
}
