/**
 Actor hosting follows the actor state store: changes of the store are announced through a channel with one slot,
 and a converge runner drains the slot and reconciles hosting with the store. A run is any interleaving of
 reconcilers that change the store, their announcements, and the steps of the converge runner.

 Assumed: every change of the store happens between the two ends of some reconciler's notification bracket, which
 announces it if the revision differs at the end from what it was at the beginning. The revision does not wrap.
 */
module ActorHosting {

  /** What a reader of the component store gets; the name of an absent store is empty. */
  datatype Snapshot = Snapshot(rev: nat, present: bool, name: string)

  datatype Hosting = Hosting(rev: nat, active: bool, name: string)

  /** A notification bracket: the revision at its beginning, and whether it is still open. */
  datatype Bracket = Bracket(before: nat, open: bool)

  /** The converge runner. `Drained` is between suspending hosting and the rest of the pass. */
  datatype Converger = Starting | Idle | Woken | Holding(seen: Snapshot) | Drained(seen: Snapshot)

  /** A drain of hosted actors: the store they were hosted on, and the one found instead. */
  datatype Drain = Drain(from: Hosting, to: Snapshot)

  /** `history` has the store at every revision so far; `enabled` says that the table hosts actors. */
  datatype State = State(history: seq<Snapshot>, brackets: seq<Bracket>, kick: bool, converger: Converger,
                         hosting: Hosting, enabled: bool, drains: seq<Drain>)

  datatype Action =
    | Begin
    | SetStore(bracket: nat, name: string)
    | ClearStore(bracket: nat)
    | End(bracket: nat)
    | Init
    | Wake
    | Read
    | Suspend
    | Apply

  function Store(s: State): (v: Snapshot)
    requires s.history != []
  {
    s.history[|s.history| - 1]
  }

  predicate IsInitial(s: State)
  {
    && s.history == [Snapshot(0, false, "")] && s.brackets == [] && !s.kick && s.converger.Starting? && s.drains == []
  }

  /** Hosting goes on: the store was updated in place. */
  predicate SameStore(h: Hosting, v: Snapshot)
  {
    v.present && h.active && v.name == h.name
  }

  predicate MustDrain(h: Hosting, v: Snapshot)
  {
    v.rev != h.rev && !SameStore(h, v) && h.active
  }

  predicate OpenBracket(s: State, b: int)
  {
    0 <= b < |s.brackets| && s.brackets[b].open
  }

  predicate Enabled(s: State, a: Action)
    requires s.history != []
  {
    match a
    case Begin => true
    case SetStore(b, name) => OpenBracket(s, b) && (Store(s).present ==> Store(s).name == name)
    case ClearStore(b) => OpenBracket(s, b)
    case End(b) => OpenBracket(s, b)
    case Init => s.converger.Starting?
    case Wake => s.converger.Idle? && s.kick
    case Read => s.converger.Woken?
    case Suspend => s.converger.Holding? && MustDrain(s.hosting, s.converger.seen)
    case Apply => s.converger.Drained? || (s.converger.Holding? && !MustDrain(s.hosting, s.converger.seen))
  }

  function Changed(s: State, present: bool, name: string): (t: State)
    requires s.history != []
  {
    s.(history := s.history + [Snapshot(Store(s).rev + 1, present, name)])
  }

  /** The hosting fields after a pass that found `v`. */
  function Converged(h: Hosting, v: Snapshot): (g: Hosting)
  {
    if v.rev == h.rev then h
    else if SameStore(h, v) then h.(rev := v.rev)
    else Hosting(v.rev, v.present, v.name)
  }

  /** Whether the table hosts actors after the pass, given that a drain has suspended it if one was due. */
  function EnabledAfter(h: Hosting, enabled: bool, v: Snapshot): (on: bool)
  {
    if v.rev == h.rev || SameStore(h, v) then enabled else enabled || v.present
  }

  function Next(s: State, a: Action): (t: State)
    requires s.history != [] && Enabled(s, a)
  {
    match a
    case Begin => s.(brackets := s.brackets + [Bracket(Store(s).rev, true)])
    case SetStore(_, name) => Changed(s, true, name)
    case ClearStore(_) => Changed(s, false, "")
    case End(b) =>
      s.(brackets := s.brackets[b := s.brackets[b].(open := false)],
         kick := s.kick || s.brackets[b].before != Store(s).rev)
    case Init =>
      var v := Store(s);
      s.(converger := Idle, hosting := Hosting(v.rev, v.present, v.name), enabled := v.present)
    case Wake => s.(kick := false, converger := Woken)
    case Read => s.(converger := Holding(Store(s)))
    case Suspend =>
      s.(converger := Drained(s.converger.seen), enabled := false,
         drains := s.drains + [Drain(s.hosting, s.converger.seen)])
    case Apply =>
      var v := s.converger.seen;
      s.(converger := Idle, hosting := Converged(s.hosting, v), enabled := EnabledAfter(s.hosting, s.enabled, v))
  }

  // ----- no change is lost -----

  /** A change not yet seen by the converge runner is announced, or will be at the end of an open bracket. */
  ghost predicate Announced(s: State)
    requires s.history != []
  {
    s.kick || s.converger.Woken? || exists b :: OpenBracket(s, b) && s.brackets[b].before < Store(s).rev
  }

  /** The latest revision that the converge runner has read. */
  function LastSeen(s: State): (rev: nat)
  {
    if s.converger.Holding? || s.converger.Drained? then s.converger.seen.rev else s.hosting.rev
  }

  predicate HistoryOk(s: State)
  {
    && s.history != []
    && (forall r :: 0 <= r < |s.history| ==> s.history[r].rev == r && (!s.history[r].present ==> s.history[r].name == ""))
    && (forall b <- s.brackets :: b.before < |s.history|)
  }

  predicate HostingOk(s: State)
    requires HistoryOk(s)
  {
    var h := s.hosting;
    && h.rev < |s.history|
    && s.history[h.rev] == Snapshot(h.rev, h.active, h.name)
    && (s.converger.Holding? || s.converger.Drained? ==>
          && s.converger.seen.rev < |s.history|
          && s.converger.seen == s.history[s.converger.seen.rev]
          && s.converger.seen.rev >= h.rev)
    && (s.converger.Drained? ==> MustDrain(h, s.converger.seen))
    && s.enabled == (h.active && !s.converger.Drained?)
  }

  /** A drain leads from a store that was really there to a later state in which it had vanished or another one
      had taken its place. */
  predicate DrainDue(history: seq<Snapshot>, d: Drain)
  {
    && d.from.rev < d.to.rev < |history|
    && history[d.from.rev] == Snapshot(d.from.rev, true, d.from.name) && history[d.to.rev] == d.to
    && (!d.to.present || d.to.name != d.from.name)
  }

  ghost predicate Inv(s: State)
  {
    && HistoryOk(s)
    && (!s.converger.Starting? ==> HostingOk(s) && (LastSeen(s) < Store(s).rev ==> Announced(s)))
    && forall d <- s.drains :: DrainDue(s.history, d)
  }

  lemma InvNext(s: State, a: Action)
    requires Inv(s) && Enabled(s, a)
    ensures Inv(Next(s, a))
  {
    if s.converger.Starting? {
      StartingKeeps(s, a);
    } else if a.Begin? || a.SetStore? || a.ClearStore? {
      StoreStepKeeps(s, a);
    } else if a.End? {
      EndKeeps(s, a);
    } else {
      RunnerStepKeeps(s, a);
    }
  }

  lemma StartingKeeps(s: State, a: Action)
    requires Inv(s) && Enabled(s, a) && s.converger.Starting?
    ensures Inv(Next(s, a))
  {
  }

  lemma EndKeeps(s: State, a: Action)
    requires Inv(s) && Enabled(s, a) && !s.converger.Starting? && a.End?
    ensures Inv(Next(s, a))
  {
    var t := Next(s, a);
    if b :| OpenBracket(s, b) && s.brackets[b].before < Store(s).rev {
      assert b != a.bracket ==> OpenBracket(t, b) && t.brackets[b].before < Store(t).rev;
    }
  }

  lemma RunnerStepKeeps(s: State, a: Action)
    requires Inv(s) && Enabled(s, a) && !s.converger.Starting? && (a.Wake? || a.Read? || a.Suspend? || a.Apply?)
    ensures Inv(Next(s, a))
  {
    var t := Next(s, a);
    if b :| OpenBracket(s, b) && s.brackets[b].before < Store(s).rev {
      assert OpenBracket(t, b) && t.brackets[b].before < Store(t).rev;
    }
  }

  lemma StoreStepKeeps(s: State, a: Action)
    requires Inv(s) && Enabled(s, a) && !s.converger.Starting? && (a.Begin? || a.SetStore? || a.ClearStore?)
    ensures Inv(Next(s, a))
  {
    var t := Next(s, a);
    if a.Begin? {
      if exists b :: OpenBracket(s, b) && s.brackets[b].before < Store(s).rev {
        var b :| OpenBracket(s, b) && s.brackets[b].before < Store(s).rev;
        assert OpenBracket(t, b) && t.brackets[b].before < Store(t).rev;
      }
    } else {
      assert s.brackets[a.bracket] in s.brackets;
      assert OpenBracket(t, a.bracket) && t.brackets[a.bracket].before < Store(t).rev;
    }
  }

  ghost predicate IsRun(actions: seq<Action>, states: seq<State>)
  {
    && |states| == |actions| + 1 && IsInitial(states[0])
    && (forall i :: 0 <= i < |states| ==> states[i].history != [])
    && forall i :: 0 <= i < |actions| ==> Enabled(states[i], actions[i]) && states[i + 1] == Next(states[i], actions[i])
  }

  lemma {:induction false} RunKeepsInv(actions: seq<Action>, states: seq<State>, k: nat)
    requires IsRun(actions, states) && k <= |actions|
    ensures Inv(states[k])
  {
    if k > 0 {
      RunKeepsInv(actions, states, k - 1);
      InvNext(states[k - 1], actions[k - 1]);
    }
  }

  /** Nothing is pending: the runner is idle, the slot is empty and no bracket is open. */
  predicate AtRest(s: State)
  {
    s.converger.Idle? && !s.kick && forall b <- s.brackets :: !b.open
  }

  ghost predicate Agrees(s: State)
    requires s.history != []
  {
    && Snapshot(s.hosting.rev, s.hosting.active, s.hosting.name) == Store(s)
    && s.enabled == Store(s).present
  }

  /** No change is lost: in every interleaving, whenever nothing is pending, the hosted revision, name and active
      flag are the store's, and the table hosts actors exactly when there is a store. */
  lemma NoChangeIsLost(actions: seq<Action>, states: seq<State>, k: nat)
    requires IsRun(actions, states) && k <= |actions| && AtRest(states[k])
    ensures Agrees(states[k])
  {
    RunKeepsInv(actions, states, k);
    var s := states[k];
    assert forall b :: 0 <= b < |s.brackets| ==> s.brackets[b] in s.brackets;
  }

  /** Hosted actors are drained only between two states of the store such that the one they were hosted on had
      vanished from the later, or had another name there. */
  lemma DrainsAreDue(actions: seq<Action>, states: seq<State>, k: nat, i: nat)
    requires IsRun(actions, states) && k <= |actions| && i < |states[k].drains|
    ensures DrainDue(states[k].history, states[k].drains[i])
  {
    RunKeepsInv(actions, states, k);
  }

  /** Hosting never leaves a store behind its back: a step after which actors are no longer hosted on the store they were
      hosted on, by name, comes after a drain of that store, while the table hosts nothing; and no step that leaves them
      there drains. */
  lemma MovesAreDrained(actions: seq<Action>, states: seq<State>, k: nat)
    requires IsRun(actions, states) && k < |actions| && !states[k].converger.Starting? && states[k].hosting.active
    ensures var s, t := states[k], states[k + 1];
            && (!t.hosting.active || t.hosting.name != s.hosting.name ==>
                  !s.enabled && s.drains != [] && s.drains[|s.drains| - 1].from == s.hosting)
            && (t.drains != s.drains ==>
                  && !t.enabled && t.drains[..|t.drains| - 1] == s.drains
                  && t.drains[|t.drains| - 1].from == s.hosting
                  && var to := t.drains[|t.drains| - 1].to; !to.present || to.name != s.hosting.name)
  {
    RunKeepsInv(actions, states, k);
    if states[k].converger.Drained? {
      DrainedHosting(actions, states, k);
    }
    assert Enabled(states[k], actions[k]) && states[k + 1] == Next(states[k], actions[k]);
  }

  /** Between suspending and the rest of the pass, the last drain is that of the store actors were hosted on. */
  lemma {:induction false} DrainedHosting(actions: seq<Action>, states: seq<State>, k: nat)
    requires IsRun(actions, states) && k <= |actions| && states[k].converger.Drained?
    ensures var s := states[k];
            s.drains != [] && s.drains[|s.drains| - 1] == Drain(s.hosting, s.converger.seen)
  {
    if k > 0 {
      assert Enabled(states[k - 1], actions[k - 1]) && states[k] == Next(states[k - 1], actions[k - 1]);
      if states[k - 1].converger.Drained? {
        DrainedHosting(actions, states, k - 1);
      }
    }
  }

  /** One pass of the converge runner is enough: with no bracket open and an announcement pending, it leaves hosting
      in agreement with the store. */
  lemma OnePassConverges(actions: seq<Action>, states: seq<State>, k: nat)
    requires IsRun(actions, states) && k <= |actions|
    requires states[k].converger.Idle? && states[k].kick && forall b <- states[k].brackets :: !b.open
    ensures var read := Next(Next(states[k], Wake), Read);
            var ready := if Enabled(read, Suspend) then Next(read, Suspend) else read;
            Enabled(ready, Apply) && AtRest(Next(ready, Apply)) && Agrees(Next(ready, Apply))
  {
    RunKeepsInv(actions, states, k);
  }

  // ----- the objects -----

  class Table {
    var suspended: bool

    constructor (startSuspended: bool)
      ensures suspended == startSuspended
    {
      suspended := startSuspended;
    }

    method SuspendHosting()
      modifies this
      ensures suspended
    {
      suspended := true;
    }

    method ResumeHosting()
      modifies this
      ensures !suspended
    {
      suspended := false;
    }
  }

  class Actors {
    const table: Table
    var storeKick: bool
    var hostingRev: nat
    var hostingActive: bool
    var hostingName: string

    ghost function View(): (h: Hosting)
      reads this
    {
      Hosting(hostingRev, hostingActive, hostingName)
    }

    constructor (v: Snapshot, kicked: bool)
      ensures fresh(table) && table.suspended == !v.present
      ensures View() == Hosting(v.rev, v.present, v.name) && storeKick == kicked
    {
      table := new Table(!v.present);
      storeKick, hostingRev, hostingActive, hostingName := kicked, v.rev, v.present, v.name;
    }

    /** `OnActorStateStoreChanged`: a full slot stays full. */
    method OnActorStateStoreChanged()
      modifies this`storeKick
      ensures storeKick
    {
      if !storeKick {
        storeKick := true;
      }
    }

    /** `convergeHosting`, on the snapshot it takes first: the runner's steps from `Holding` to `Idle`. */
    method ConvergeHosting(v: Snapshot) returns (drained: bool)
      requires table.suspended == !hostingActive
      modifies this`hostingRev, this`hostingActive, this`hostingName, table
      ensures View() == Converged(old(View()), v)
      ensures drained == MustDrain(old(View()), v)
      ensures old(hostingActive) && hostingRev != old(hostingRev) ==>
                (drained <==> !v.present || v.name != old(hostingName))
      ensures table.suspended == !EnabledAfter(old(View()), old(!table.suspended) && !drained, v)
    {
      drained := false;
      if v.rev == hostingRev {
        return;
      }
      hostingRev := v.rev;
      if v.present && hostingActive && v.name == hostingName {
        return;
      }
      if hostingActive {
        table.SuspendHosting();
        drained := true;
      }
      if v.present {
        table.ResumeHosting();
      }
      hostingActive, hostingName := v.present, v.name;
    }
  }
}
