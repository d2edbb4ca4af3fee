/**
 The response writer: it delays the final status until the before-functions have run, and these may write themselves.
 A before-function is the list of calls it makes on the writer; the log is what reaches the underlying writer, with a
 mark where a before-function starts.
 */
module ResponseWriter {

  const STATUS_OK := 200
  const SWITCHING_PROTOCOLS := 101

  /** A call on the writer; the number of a write is that of the bytes the underlying writer accepts. */
  datatype Cmd = WriteHeader(code: int) | Write(n: nat) | ReadFrom(n: nat) | Before(body: seq<Cmd>)

  datatype Entry = Info(code: int) | Final(code: int) | Body(n: nat) | Ran(before: nat)

  datatype State = State(pending: int, status: int, size: nat, befores: seq<seq<Cmd>>, calling: bool, log: seq<Entry>)

  const INIT := State(0, 0, 0, [], false, [])

  predicate Written(s: State)
  {
    s.status != 0
  }

  /** Codes that do not commit the response, section 15.2 of RFC 9110; switching protocols does. */
  predicate Informational(code: int)
  {
    100 <= code <= 199 && code != SWITCHING_PROTOCOLS
  }

  /** The end of `WriteHeader`: the status goes out unless a before-function sent one. */
  function Commit(s: State, code: int): (s': State)
  {
    if Written(s) then s else s.(status := code, log := s.log + [Final(code)])
  }

  function Accept(s: State, n: nat): (s': State)
  {
    s.(size := s.size + n, log := s.log + [Body(n)])
  }

  // ----- calls made while before-functions run -----

  function InnerHeader(s: State, code: int): (s': State)
  {
    if Written(s) then s
    else if Informational(code) then s.(log := s.log + [Info(code)])
    else Commit(s.(pending := code), code)
  }

  function Inner(s: State, c: Cmd): (s': State)
    ensures s'.calling == s.calling && s.befores <= s'.befores
  {
    match c
    case WriteHeader(code) => InnerHeader(s, code)
    case Write(n) => Accept(InnerHeader(s, STATUS_OK), n)
    case ReadFrom(n) => Accept(InnerHeader(s, STATUS_OK), n)
    case Before(body) => s.(befores := s.befores + [body])
  }

  function InnerAll(s: State, cmds: seq<Cmd>): (s': State)
    ensures s'.calling == s.calling && s.befores <= s'.befores
    decreases |cmds|
  {
    if cmds == [] then s else InnerAll(Inner(s, cmds[0]), cmds[1..])
  }

  function RunOne(s: State, k: nat): (s': State)
    requires k < |s.befores|
    ensures s'.calling == s.calling && s.befores <= s'.befores
  {
    InnerAll(s.(log := s.log + [Ran(k)]), s.befores[k])
  }

  /** The before-functions below `k`, the last first. */
  function RunBelow(s: State, k: nat): (s': State)
    requires k <= |s.befores|
    ensures s'.calling == s.calling && s.befores <= s'.befores
    decreases k
  {
    if k == 0 then s else RunBelow(RunOne(s, k - 1), k - 1)
  }

  // ----- calls from outside -----

  function CallBefores(s: State): (s': State)
  {
    RunBelow(s.(calling := true), |s.befores|).(calling := false)
  }

  function Header(s: State, code: int): (s': State)
  {
    if Written(s) then s
    else if Informational(code) then s.(log := s.log + [Info(code)])
    else Commit(CallBefores(s.(pending := code)), code)
  }

  function Outer(s: State, c: Cmd): (s': State)
  {
    match c
    case WriteHeader(code) => Header(s, code)
    case Write(n) => Accept(Header(s, STATUS_OK), n)
    case ReadFrom(n) => Accept(Header(s, STATUS_OK), n)
    case Before(body) => s.(befores := s.befores + [body])
  }

  function OuterAll(s: State, cmds: seq<Cmd>): (s': State)
    decreases |cmds|
  {
    if cmds == [] then s else OuterAll(Outer(s, cmds[0]), cmds[1..])
  }

  // ----- what the underlying writer sees -----

  /** Reading a log from its start: whether all is in order, the final status or 0, and the bytes of the body. In order
      are informational codes, then one final status, then the body. */
  datatype Seen = Seen(ok: bool, status: int, size: nat)

  function Scan(log: seq<Entry>): (seen: Seen)
  {
    if log == [] then Seen(true, 0, 0)
    else
      var s := Scan(log[..|log| - 1]);
      match log[|log| - 1]
      case Info(_) => s.(ok := s.ok && s.status == 0)
      case Final(code) => s.(ok := s.ok && s.status == 0 && code != 0, status := code)
      case Body(n) => s.(ok := s.ok && s.status != 0, size := s.size + n)
      case Ran(_) => s
  }

  /** The before-functions that were started, in order. */
  function Runs(log: seq<Entry>): (runs: seq<nat>)
  {
    if log == [] then []
    else
      Runs(log[..|log| - 1]) + if log[|log| - 1].Ran? then [log[|log| - 1].before] else []
  }

  lemma LogSnoc(log: seq<Entry>, e: Entry)
    ensures Runs(log + [e]) == Runs(log) + if e.Ran? then [e.before] else []
    ensures Scan(log + [e]) ==
            (var s := Scan(log);
             match e
             case Info(_) => s.(ok := s.ok && s.status == 0)
             case Final(code) => s.(ok := s.ok && s.status == 0 && code != 0, status := code)
             case Body(n) => s.(ok := s.ok && s.status != 0, size := s.size + n)
             case Ran(_) => s)
  {
    assert (log + [e])[..|log|] == log;
  }

  /** What a log that is in order looks like: at most one final status, which is the one seen; no body before it, no
      informational code after it; and the size is that of all bytes. */
  lemma {:induction false} InOrder(log: seq<Entry>)
    requires Scan(log).ok
    ensures forall i, j :: 0 <= i < |log| && 0 <= j < |log| && log[i].Final? && log[j].Final? ==> i == j
    ensures forall i :: 0 <= i < |log| && log[i].Final? ==> log[i].code == Scan(log).status != 0
    ensures forall j :: 0 <= j < |log| && log[j].Body? ==> exists i :: 0 <= i < j && log[i].Final?
    ensures forall i, j :: 0 <= i < |log| && 0 <= j < |log| && log[i].Info? && log[j].Final? ==> i < j
    ensures Scan(log).status != 0 ==> exists i :: 0 <= i < |log| && log[i].Final?
    ensures Scan(log).size == Bytes(log)
  {
    if log != [] {
      var front := log[..|log| - 1];
      InOrder(front);
      assert forall i :: 0 <= i < |front| ==> log[i] == front[i];
      if Scan(front).status != 0 {
        var i :| 0 <= i < |front| && front[i].Final?;
        assert log[i].Final?;
      }
      forall j | 0 <= j < |log| && log[j].Body? ensures exists i :: 0 <= i < j && log[i].Final? {
        if j < |front| {
          var i :| 0 <= i < j && front[i].Final?;
          assert log[i].Final?;
        }
      }
    }
  }

  function Bytes(log: seq<Entry>): (n: nat)
  {
    if log == [] then 0
    else Bytes(log[..|log| - 1]) + if log[|log| - 1].Body? then log[|log| - 1].n else 0
  }

  // ----- every sequence of calls -----

  /** No call, nor any call of a before-function, writes the status zero. */
  predicate NonZero(cmds: seq<Cmd>)
  {
    cmds == [] || (NonZeroCall(cmds[0]) && NonZero(cmds[1..]))
  }

  predicate NonZeroCall(c: Cmd)
  {
    match c
    case WriteHeader(code) => code != 0
    case Before(body) => NonZero(body)
    case _ => true
  }

  /** The log is in order and gives the writer's own status and size. */
  predicate Good(s: State)
  {
    && Scan(s.log) == Seen(true, s.status, s.size)
    && forall b <- s.befores :: NonZero(b)
  }

  lemma InnerHeaderGood(s: State, code: int)
    requires Good(s) && code != 0
    ensures Good(InnerHeader(s, code)) && Runs(InnerHeader(s, code).log) == Runs(s.log)
    ensures !Informational(code) ==> Written(InnerHeader(s, code))
  {
    LogSnoc(s.log, Info(code));
    LogSnoc(s.log, Final(code));
  }

  lemma AcceptGood(s: State, n: nat)
    requires Good(s) && Written(s)
    ensures Good(Accept(s, n)) && Written(Accept(s, n)) && Runs(Accept(s, n).log) == Runs(s.log)
  {
    LogSnoc(s.log, Body(n));
  }

  lemma InnerGood(s: State, c: Cmd)
    requires Good(s) && NonZeroCall(c)
    ensures Good(Inner(s, c)) && Runs(Inner(s, c).log) == Runs(s.log)
  {
    match c {
      case WriteHeader(code) => InnerHeaderGood(s, code);
      case Write(n) => InnerHeaderGood(s, STATUS_OK); AcceptGood(InnerHeader(s, STATUS_OK), n);
      case ReadFrom(n) => InnerHeaderGood(s, STATUS_OK); AcceptGood(InnerHeader(s, STATUS_OK), n);
      case Before(body) =>
    }
  }

  lemma {:induction false} InnerAllGood(s: State, cmds: seq<Cmd>)
    requires Good(s) && NonZero(cmds)
    ensures Good(InnerAll(s, cmds)) && Runs(InnerAll(s, cmds).log) == Runs(s.log)
    decreases |cmds|
  {
    if cmds != [] {
      InnerGood(s, cmds[0]);
      InnerAllGood(Inner(s, cmds[0]), cmds[1..]);
    }
  }

  /** All numbers below `k`, the greatest first. */
  function Down(k: nat): (numbers: seq<nat>)
  {
    if k == 0 then [] else [k - 1] + Down(k - 1)
  }

  lemma RunOneGood(s: State, k: nat)
    requires Good(s) && k < |s.befores|
    ensures Good(RunOne(s, k)) && Runs(RunOne(s, k).log) == Runs(s.log) + [k]
  {
    LogSnoc(s.log, Ran(k));
    assert s.befores[k] in s.befores;
    InnerAllGood(s.(log := s.log + [Ran(k)]), s.befores[k]);
  }

  lemma DownStep(runs: seq<nat>, k: nat)
    requires k > 0
    ensures (runs + [k - 1]) + Down(k - 1) == runs + Down(k)
  {
  }

  lemma {:induction false} RunBelowGood(s: State, k: nat)
    requires Good(s) && k <= |s.befores|
    ensures Good(RunBelow(s, k)) && Runs(RunBelow(s, k).log) == Runs(s.log) + Down(k)
    decreases k
  {
    if k > 0 {
      RunOneGood(s, k - 1);
      RunBelowGood(RunOne(s, k - 1), k - 1);
      DownStep(Runs(s.log), k);
    }
  }

  lemma HeaderGood(s: State, code: int)
    requires Good(s) && code != 0
    ensures var s' := Header(s, code);
            && Good(s')
            && (Written(s) || Informational(code) ==> Runs(s'.log) == Runs(s.log) && s'.befores == s.befores)
            && (Written(s) ==> s' == s)
            && (!Written(s) && Informational(code) ==> !Written(s'))
            && (!Written(s) && !Informational(code) ==> Written(s') && Runs(s'.log) == Runs(s.log) + Down(|s.befores|))
  {
    if !Written(s) {
      if Informational(code) {
        LogSnoc(s.log, Info(code));
      } else {
        RunBelowGood(s.(pending := code, calling := true), |s.befores|);
        LogSnoc(CallBefores(s.(pending := code)).log, Final(code));
      }
    }
  }

  predicate Commits(c: Cmd)
  {
    c.Write? || c.ReadFrom? || (c.WriteHeader? && !Informational(c.code))
  }

  predicate HasCommit(cmds: seq<Cmd>)
  {
    cmds != [] && (Commits(cmds[0]) || HasCommit(cmds[1..]))
  }

  /** The before-functions registered from outside ahead of the first call that commits. */
  function Registered(cmds: seq<Cmd>): (n: nat)
  {
    if cmds == [] || Commits(cmds[0]) then 0
    else (if cmds[0].Before? then 1 else 0) + Registered(cmds[1..])
  }

  lemma OuterGood(s: State, c: Cmd)
    requires Good(s) && NonZeroCall(c)
    ensures var s' := Outer(s, c);
            && Good(s')
            && (Written(s) ==> s'.status == s.status && Runs(s'.log) == Runs(s.log))
            && (!Written(s) && Commits(c) ==> Written(s') && Runs(s'.log) == Runs(s.log) + Down(|s.befores|))
            && (!Written(s) && !Commits(c) ==> !Written(s') && Runs(s'.log) == Runs(s.log))
            && (!Written(s) && !Commits(c) ==> |s'.befores| == |s.befores| + if c.Before? then 1 else 0)
  {
    match c {
      case WriteHeader(code) => HeaderGood(s, code);
      case Write(n) => HeaderGood(s, STATUS_OK); AcceptGood(Header(s, STATUS_OK), n);
      case ReadFrom(n) => HeaderGood(s, STATUS_OK); AcceptGood(Header(s, STATUS_OK), n);
      case Before(body) =>
    }
  }

  lemma {:induction false} WrittenStays(s: State, cmds: seq<Cmd>)
    requires Good(s) && NonZero(cmds) && Written(s)
    ensures var s' := OuterAll(s, cmds); Good(s') && s'.status == s.status && Runs(s'.log) == Runs(s.log)
    decreases |cmds|
  {
    if cmds != [] {
      OuterGood(s, cmds[0]);
      WrittenStays(Outer(s, cmds[0]), cmds[1..]);
    }
  }

  /** What a sequence of calls makes of a writer that has sent no final status. */
  ghost predicate Sends(s: State, cmds: seq<Cmd>, s': State)
  {
    && Good(s') && (Written(s') <==> HasCommit(cmds))
    && Runs(s'.log) == Runs(s.log) + if HasCommit(cmds) then Down(|s.befores| + Registered(cmds)) else []
  }

  lemma SendsNothing(s: State)
    requires Good(s) && !Written(s)
    ensures Sends(s, [], s)
  {
  }

  lemma SendsNow(s: State, cmds: seq<Cmd>)
    requires Good(s) && !Written(s) && cmds != [] && NonZero(cmds) && Commits(cmds[0])
    ensures Sends(s, cmds, OuterAll(s, cmds))
  {
    OuterGood(s, cmds[0]);
    WrittenStays(Outer(s, cmds[0]), cmds[1..]);
  }

  lemma SendsLater(s: State, cmds: seq<Cmd>, next: State, end: State)
    requires Good(s) && !Written(s) && cmds != [] && NonZero(cmds) && !Commits(cmds[0])
    requires next == Outer(s, cmds[0]) && Sends(next, cmds[1..], end)
    ensures Sends(s, cmds, end)
  {
    OuterGood(s, cmds[0]);
  }

  lemma {:induction false} UntilWritten(s: State, cmds: seq<Cmd>)
    requires Good(s) && NonZero(cmds) && !Written(s)
    ensures Sends(s, cmds, OuterAll(s, cmds))
    decreases |cmds|
  {
    if cmds == [] {
      SendsNothing(s);
    } else if Commits(cmds[0]) {
      SendsNow(s, cmds);
    } else {
      OuterGood(s, cmds[0]);
      UntilWritten(Outer(s, cmds[0]), cmds[1..]);
      SendsLater(s, cmds, Outer(s, cmds[0]), OuterAll(s, cmds));
    }
  }

  /** Every sequence of calls, whatever the before-functions do: what reaches the underlying writer is in order, with
      one final status as soon as a call commits, and the size is that of the bytes accepted. The before-functions
      registered ahead of the first committing call run exactly once each, the last one first, and no others ever
      run. */
  lemma EverySequenceOfCalls(cmds: seq<Cmd>)
    requires NonZero(cmds)
    ensures var s := OuterAll(INIT, cmds);
            && Scan(s.log) == Seen(true, s.status, s.size) && s.size == Bytes(s.log)
            && (Written(s) <==> HasCommit(cmds))
            && Runs(s.log) == if HasCommit(cmds) then Down(Registered(cmds)) else []
  {
    UntilWritten(INIT, cmds);
    FromTheStart(cmds, OuterAll(INIT, cmds));
  }

  lemma FromTheStart(cmds: seq<Cmd>, end: State)
    requires Sends(INIT, cmds, end)
    ensures Scan(end.log) == Seen(true, end.status, end.size) && end.size == Bytes(end.log)
    ensures Written(end) <==> HasCommit(cmds)
    ensures Runs(end.log) == if HasCommit(cmds) then Down(Registered(cmds)) else []
  {
    SizeIsBytes(end.log);
    assert Runs(INIT.log) == [] && INIT.befores == [];
    assert [] + Down(Registered(cmds)) == Down(Registered(cmds));
  }

  lemma SizeIsBytes(log: seq<Entry>)
    requires Scan(log).ok
    ensures Scan(log).size == Bytes(log)
  {
    InOrder(log);
  }

  lemma RegisteringBefore(s: State)
    requires s.befores == [[Before([])]]
    ensures RunBelow(s, 1) == s.(log := s.log + [Ran(0)], befores := [[Before([])], []])
  {
    var started := s.(log := s.log + [Ran(0)]);
    assert [Before([])][1..] == [];
    assert InnerAll(started, [Before([])]) == Inner(started, Before([]));
    assert RunBelow(s, 1) == RunBelow(RunOne(s, 0), 0);
  }

  /** A function that a before-function registers ahead of the final status is not run. */
  lemma RegisteredTooLate(s: State)
    requires s == Outer(INIT, Before([Before([])]))
    ensures var s' := Outer(s, WriteHeader(STATUS_OK));
            |s'.befores| == 2 && s'.log == [Ran(0), Final(STATUS_OK)]
  {
    RegisteringBefore(s.(pending := STATUS_OK, calling := true));
  }

  // ----- the writer without before-functions -----

  /** A call that sends the final status of a response that has none. */
  predicate Committing(c: Cmd)
  {
    match c
    case WriteHeader(code) => code < 100 || 199 < code || code == 101
    case Before(_) => false
    case _ => true
  }

  predicate AnyCommitting(calls: seq<Cmd>)
  {
    calls != [] && (Committing(calls[0]) || AnyCommitting(calls[1..]))
  }

  /** What has been sent after a call of a writer that has no before-functions, and had sent its final status or not. */
  function PlainCall(sent: seq<Entry>, written: bool, c: Cmd): (sent': seq<Entry>)
  {
    match c
    case WriteHeader(code) =>
      if written then sent else sent + [if Committing(c) then Final(code) else Info(code)]
    case Before(_) => sent
    case Write(n) => (if written then sent else sent + [Final(200)]) + [Body(n)]
    case ReadFrom(n) => (if written then sent else sent + [Final(200)]) + [Body(n)]
  }

  /** The same after several calls: codes from 100 to 199 other than 101 as they come until the final status, one final
      status, 200 if none is given, and the bytes. */
  function Plain(sent: seq<Entry>, written: bool, calls: seq<Cmd>): (sent': seq<Entry>)
    decreases |calls|
  {
    if calls == [] then sent
    else Plain(PlainCall(sent, written, calls[0]), written || Committing(calls[0]), calls[1..])
  }

  /** The calls of the functions, those of the last one first. */
  function Lifo(befores: seq<seq<Cmd>>): (calls: seq<Cmd>)
  {
    if befores == [] then [] else befores[|befores| - 1] + Lifo(befores[..|befores| - 1])
  }

  /** The calls in the order in which they take effect: the first one that commits comes after those of the functions
      registered until then. */
  function Flat(cmds: seq<Cmd>, befores: seq<seq<Cmd>>): (calls: seq<Cmd>)
  {
    if cmds == [] then []
    else if Committing(cmds[0]) then Lifo(befores) + cmds
    else if cmds[0].Before? then Flat(cmds[1..], befores + [cmds[0].body])
    else [cmds[0]] + Flat(cmds[1..], befores)
  }

  /** The log without the marks. */
  function Sent(log: seq<Entry>): (sent: seq<Entry>)
  {
    if log == [] then []
    else if log[|log| - 1].Ran? then Sent(log[..|log| - 1])
    else Sent(log[..|log| - 1]) + [log[|log| - 1]]
  }

  lemma SentSnoc(log: seq<Entry>, e: Entry)
    ensures Sent(log + [e]) == if e.Ran? then Sent(log) else Sent(log) + [e]
  {
    assert (log + [e])[..|log|] == log;
  }

  lemma {:induction false} PlainConcat(sent: seq<Entry>, written: bool, a: seq<Cmd>, b: seq<Cmd>)
    ensures Plain(sent, written, a + b) == Plain(Plain(sent, written, a), written || AnyCommitting(a), b)
    ensures AnyCommitting(a + b) <==> AnyCommitting(a) || AnyCommitting(b)
    decreases |a|
  {
    if a == [] {
      assert a + b == b;
    } else {
      assert (a + b)[1..] == a[1..] + b;
      PlainConcat(PlainCall(sent, written, a[0]), written || Committing(a[0]), a[1..], b);
    }
  }

  lemma InnerHeaderSends(s: State, code: int)
    requires code != 0
    ensures Sent(InnerHeader(s, code).log) == PlainCall(Sent(s.log), Written(s), WriteHeader(code))
    ensures Written(InnerHeader(s, code)) <==> Written(s) || Committing(WriteHeader(code))
  {
    SentSnoc(s.log, Info(code));
    SentSnoc(s.log, Final(code));
  }

  lemma InnerSends(s: State, c: Cmd)
    requires NonZeroCall(c)
    ensures Sent(Inner(s, c).log) == PlainCall(Sent(s.log), Written(s), c)
    ensures Written(Inner(s, c)) <==> Written(s) || Committing(c)
  {
    match c {
      case WriteHeader(code) => InnerHeaderSends(s, code);
      case Write(n) => InnerHeaderSends(s, 200); SentSnoc(InnerHeader(s, 200).log, Body(n));
      case ReadFrom(n) => InnerHeaderSends(s, 200); SentSnoc(InnerHeader(s, 200).log, Body(n));
      case Before(_) =>
    }
  }

  lemma {:induction false} InnerAllSends(s: State, cmds: seq<Cmd>)
    requires NonZero(cmds)
    ensures Sent(InnerAll(s, cmds).log) == Plain(Sent(s.log), Written(s), cmds)
    ensures Written(InnerAll(s, cmds)) <==> Written(s) || AnyCommitting(cmds)
    decreases |cmds|
  {
    if cmds != [] {
      InnerSends(s, cmds[0]);
      InnerAllSends(Inner(s, cmds[0]), cmds[1..]);
    }
  }

  lemma RunOneSends(s: State, k: nat)
    requires k < |s.befores| && NonZero(s.befores[k])
    ensures Sent(RunOne(s, k).log) == Plain(Sent(s.log), Written(s), s.befores[k])
    ensures Written(RunOne(s, k)) <==> Written(s) || AnyCommitting(s.befores[k])
  {
    SentSnoc(s.log, Ran(k));
    InnerAllSends(s.(log := s.log + [Ran(k)]), s.befores[k]);
  }

  lemma {:induction false} RunBelowSends(s: State, k: nat)
    requires k <= |s.befores| && forall i :: 0 <= i < k ==> NonZero(s.befores[i])
    ensures Sent(RunBelow(s, k).log) == Plain(Sent(s.log), Written(s), Lifo(s.befores[..k]))
    ensures Written(RunBelow(s, k)) <==> Written(s) || AnyCommitting(Lifo(s.befores[..k]))
    decreases k
  {
    if k > 0 {
      var t := RunOne(s, k - 1);
      RunOneSends(s, k - 1);
      assert t.befores[..k - 1] == s.befores[..k - 1];
      RunBelowSends(t, k - 1);
      LifoStep(s.befores, k);
      PlainConcat(Sent(s.log), Written(s), s.befores[k - 1], Lifo(s.befores[..k - 1]));
    }
  }

  lemma LifoStep(befores: seq<seq<Cmd>>, k: nat)
    requires 0 < k <= |befores|
    ensures Lifo(befores[..k]) == befores[k - 1] + Lifo(befores[..k - 1])
  {
    assert befores[..k][..k - 1] == befores[..k - 1];
  }

  /** The first committing call: the functions run, and then it acts as any call does. */
  lemma CommitSends(s: State, code: int)
    requires Good(s) && !Written(s) && code != 0 && Committing(WriteHeader(code))
    ensures var calls := Lifo(s.befores);
            Sent(Header(s, code).log)
            == PlainCall(Plain(Sent(s.log), false, calls), AnyCommitting(calls), WriteHeader(code))
    ensures Written(Header(s, code))
  {
    var start := s.(pending := code, calling := true);
    assert start.befores[..|s.befores|] == s.befores;
    forall i | 0 <= i < |s.befores| ensures NonZero(s.befores[i]) {
      assert s.befores[i] in s.befores;
    }
    RunBelowSends(start, |s.befores|);
    SentSnoc(CallBefores(s.(pending := code)).log, Final(code));
  }

  lemma OuterCommitSends(s: State, c: Cmd)
    requires Good(s) && !Written(s) && NonZeroCall(c) && Committing(c)
    ensures var calls := Lifo(s.befores);
            Sent(Outer(s, c).log) == PlainCall(Plain(Sent(s.log), false, calls), AnyCommitting(calls), c)
    ensures Written(Outer(s, c))
  {
    var code := if c.WriteHeader? then c.code else 200;
    CommitSends(s, code);
    if !c.WriteHeader? {
      SentSnoc(Header(s, 200).log, Body(c.n));
    }
  }

  lemma {:induction false} WrittenSends(s: State, cmds: seq<Cmd>)
    requires Written(s) && NonZero(cmds)
    ensures Sent(OuterAll(s, cmds).log) == Plain(Sent(s.log), true, cmds)
    decreases |cmds|
  {
    if cmds != [] {
      InnerSends(s, cmds[0]);
      assert Outer(s, cmds[0]) == Inner(s, cmds[0]);
      WrittenSends(Outer(s, cmds[0]), cmds[1..]);
    }
  }

  lemma Uncommitted(s: State, c: Cmd)
    requires Good(s) && !Written(s) && NonZeroCall(c) && !Committing(c)
    ensures Good(Outer(s, c)) && !Written(Outer(s, c)) && Sent(Outer(s, c).log) == PlainCall(Sent(s.log), false, c)
    ensures Outer(s, c).befores == if c.Before? then s.befores + [c.body] else s.befores
  {
    OuterGood(s, c);
    InnerSends(s, c);
    assert Outer(s, c).log == Inner(s, c).log;
  }

  lemma {:induction false} UnwrittenSends(s: State, cmds: seq<Cmd>)
    requires Good(s) && !Written(s) && NonZero(cmds)
    ensures Sent(OuterAll(s, cmds).log) == Plain(Sent(s.log), false, Flat(cmds, s.befores))
    decreases |cmds|
  {
    if cmds != [] {
      var c, rest := cmds[0], cmds[1..];
      if Committing(c) {
        OuterCommitSends(s, c);
        WrittenSends(Outer(s, c), rest);
        PlainConcat(Sent(s.log), false, Lifo(s.befores), cmds);
      } else {
        Uncommitted(s, c);
        UnwrittenSends(Outer(s, c), rest);
        if !c.Before? {
          FirstCall(Sent(s.log), c, Flat(rest, s.befores));
        }
      }
    }
  }

  lemma FirstCall(sent: seq<Entry>, c: Cmd, rest: seq<Cmd>)
    requires !Committing(c)
    ensures Plain(sent, false, [c] + rest) == Plain(PlainCall(sent, false, c), false, rest)
  {
    assert ([c] + rest)[1..] == rest;
  }

  /** The bytes of all writes. */
  function Sum(calls: seq<Cmd>): (n: nat)
  {
    if calls == [] then 0
    else (if calls[0].Write? || calls[0].ReadFrom? then calls[0].n else 0) + Sum(calls[1..])
  }

  lemma BytesSnoc(log: seq<Entry>, e: Entry)
    ensures Bytes(log + [e]) == Bytes(log) + if e.Body? then e.n else 0
  {
    assert (log + [e])[..|log|] == log;
  }

  lemma CallBytes(sent: seq<Entry>, written: bool, c: Cmd)
    ensures Bytes(PlainCall(sent, written, c)) == Bytes(sent) + if c.Write? || c.ReadFrom? then c.n else 0
  {
    if c.WriteHeader? {
      BytesSnoc(sent, if Committing(c) then Final(c.code) else Info(c.code));
    } else if !c.Before? {
      BytesSnoc(sent, Final(200));
      BytesSnoc(if written then sent else sent + [Final(200)], Body(c.n));
    }
  }

  lemma {:induction false} PlainBytes(sent: seq<Entry>, written: bool, calls: seq<Cmd>)
    ensures Bytes(Plain(sent, written, calls)) == Bytes(sent) + Sum(calls)
    decreases |calls|
  {
    if calls != [] {
      CallBytes(sent, written, calls[0]);
      PlainBytes(PlainCall(sent, written, calls[0]), written || Committing(calls[0]), calls[1..]);
    }
  }

  lemma {:induction false} SentBytes(log: seq<Entry>)
    ensures Bytes(Sent(log)) == Bytes(log)
  {
    if log != [] {
      var front, last := log[..|log| - 1], log[|log| - 1];
      SentBytes(front);
      BytesSnoc(Sent(front), last);
    }
  }

  /** The writer sends what one without before-functions sends for the same calls, taken in the order in which they take
      effect; and its size is the sum of the bytes of all writes among them. */
  lemma SendsAsPlainWriter(cmds: seq<Cmd>)
    requires NonZero(cmds)
    ensures var s := OuterAll(INIT, cmds);
            Sent(s.log) == Plain([], false, Flat(cmds, [])) && s.size == Sum(Flat(cmds, []))
  {
    var s := OuterAll(INIT, cmds);
    UnwrittenSends(INIT, cmds);
    EverySequenceOfCalls(cmds);
    SentBytes(s.log);
    PlainBytes([], false, Flat(cmds, []));
  }

  // ----- the final status -----

  predicate Quiet(cmds: seq<Cmd>)
  {
    forall c <- cmds :: !Commits(c)
  }

  lemma {:induction false} InnerAllQuiet(s: State, cmds: seq<Cmd>)
    requires Quiet(cmds) && !Written(s)
    ensures !Written(InnerAll(s, cmds)) && InnerAll(s, cmds).pending == s.pending
    decreases |cmds|
  {
    if cmds != [] {
      assert !Commits(cmds[0]);
      InnerAllQuiet(Inner(s, cmds[0]), cmds[1..]);
    }
  }

  lemma {:induction false} RunBelowQuiet(s: State, k: nat)
    requires k <= |s.befores| && !Written(s)
    requires forall i :: 0 <= i < k ==> Quiet(s.befores[i])
    ensures !Written(RunBelow(s, k)) && RunBelow(s, k).pending == s.pending
    decreases k
  {
    if k > 0 {
      InnerAllQuiet(s.(log := s.log + [Ran(k - 1)]), s.befores[k - 1]);
      RunBelowQuiet(RunOne(s, k - 1), k - 1);
    }
  }

  /** The status a committing call asks for goes out, unless a before-function sends another one. */
  lemma StatusGoesOut(s: State, code: int)
    requires !Written(s) && !Informational(code) && code != 0
    requires forall i :: 0 <= i < |s.befores| ==> Quiet(s.befores[i])
    ensures Header(s, code).status == code && Header(s, code).pending == code
  {
    RunBelowQuiet(s.(pending := code, calling := true), |s.befores|);
  }

  // ----- the object -----

  /** The writer as an object with re-entrant methods: a before-function calls them while one of them is at work. */
  class Writer {
    var pendingStatus: int
    var status: int
    var size: nat
    var beforeFuncs: seq<seq<Cmd>>
    var callingBefores: bool
    var log: seq<Entry>

    function Now(): (s: State)
      reads this
    {
      State(pendingStatus, status, size, beforeFuncs, callingBefores, log)
    }

    constructor ()
      ensures Now() == INIT
    {
      pendingStatus, status, size, beforeFuncs, callingBefores, log := 0, 0, 0, [], false, [];
    }

    /** `Status`: the final status, or before that the one asked for. */
    method Status() returns (code: int)
      ensures code == if status != 0 then status else pendingStatus
    {
      code := if status != 0 then status else pendingStatus;
    }

    method WriteHeader(code: int)
      modifies this
      ensures Now() == if old(callingBefores) then InnerHeader(old(Now()), code) else Header(old(Now()), code)
      decreases if callingBefores then 0 else 1, 2
    {
      if status != 0 {
        return;
      }
      if Informational(code) {
        log := log + [Info(code)];
        return;
      }
      pendingStatus := code;
      CallBefore();
      if status != 0 {
        return;
      }
      status := code;
      log := log + [Final(code)];
    }

    method Write(n: nat)
      modifies this
      ensures Now() == if old(callingBefores) then Inner(old(Now()), Cmd.Write(n)) else Outer(old(Now()), Cmd.Write(n))
      decreases if callingBefores then 0 else 1, 3
    {
      if status == 0 {
        WriteHeader(STATUS_OK);
      }
      log := log + [Body(n)];
      size := size + n;
    }

    method ReadFrom(n: nat)
      modifies this
      ensures Now() == if old(callingBefores) then Inner(old(Now()), Cmd.ReadFrom(n)) else Outer(old(Now()), Cmd.ReadFrom(n))
      decreases if callingBefores then 0 else 1, 3
    {
      if status == 0 {
        WriteHeader(STATUS_OK);
      }
      log := log + [Body(n)];
      size := size + n;
    }

    method Before(body: seq<Cmd>)
      modifies this
      ensures Now() == old(Now()).(befores := old(beforeFuncs) + [body])
    {
      beforeFuncs := beforeFuncs + [body];
    }

    method CallBefore()
      modifies this
      ensures Now() == if old(callingBefores) then old(Now()) else CallBefores(old(Now()))
      decreases if callingBefores then 0 else 1, 1
    {
      if callingBefores {
        return;
      }
      callingBefores := true;
      var i := |beforeFuncs|;
      while i > 0
        invariant 0 <= i <= |beforeFuncs| && callingBefores
        invariant RunBelow(Now(), i) == RunBelow(old(Now()).(calling := true), |old(beforeFuncs)|)
        decreases i
      {
        i := i - 1;
        log := log + [Ran(i)];
        Invoke(beforeFuncs[i]);
      }
      callingBefores := false;
    }

    /** A function makes its calls, one after the other. */
    method Invoke(body: seq<Cmd>)
      modifies this
      ensures Now() == if old(callingBefores) then InnerAll(old(Now()), body) else OuterAll(old(Now()), body)
      decreases if callingBefores then 0 else 1, 4
    {
      for i := 0 to |body|
        invariant callingBefores == old(callingBefores)
        invariant callingBefores ==> InnerAll(Now(), body[i..]) == InnerAll(old(Now()), body)
        invariant !callingBefores ==> OuterAll(Now(), body[i..]) == OuterAll(old(Now()), body)
      {
        assert body[i..][1..] == body[i + 1..];
        match body[i] {
          case WriteHeader(code) => WriteHeader(code);
          case Write(n) => Write(n);
          case ReadFrom(n) => ReadFrom(n);
          case Before(f) => Before(f);
        }
      }
    }
  }
}
