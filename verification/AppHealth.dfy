/**
 App health: a 32-bit failure count that probes and reports change, and the change callbacks it triggers. One loop takes
 reports and probes in turn, so every event below is one turn of that loop or one call of `ReportHealth`.
 */
module AppHealth {
  import opened Text

  const MAX_INT32 := 0x7FFF_FFFF
  const TWO_32 := 0x1_0000_0000
  const DEFAULT_THRESHOLD := 3

  /** The conversion to a 32-bit signed number. */
  function Int32(x: int): (y: int)
    ensures -MAX_INT32 - 1 <= y <= MAX_INT32 && (y - x) % TWO_32 == 0
  {
    var m := x % TWO_32;
    if m <= MAX_INT32 then m else m - TWO_32
  }

  /** The threshold taken from the command-line flag. */
  function Threshold(flag: int): (threshold: int)
  {
    if flag < 1 || Int32(flag + 1) < 0 then DEFAULT_THRESHOLD else Int32(flag)
  }

  predicate Usable(threshold: int)
  {
    1 <= threshold < MAX_INT32
  }

  /** The check on the flag keeps the threshold usable, save for flags beyond 32 bits that are cut to 0 or -1. */
  lemma ThresholdIsUsable(flag: int)
    ensures Usable(Threshold(flag)) <==> !CutBelowOne(flag)
    ensures CutBelowOne(flag) ==> Threshold(flag) == if flag % TWO_32 == 0 then 0 else -1
    ensures flag >= 1 && 1 <= flag % 0x1_0000_0000 < 0x7FFF_FFFF ==> Threshold(flag) == flag % 0x1_0000_0000
    ensures flag < 1 || 0x7FFF_FFFF <= flag % 0x1_0000_0000 < 0xFFFF_FFFF ==> Threshold(flag) == 3
  {
    Residue(flag);
  }

  /** A positive flag whose low 32 bits read as 0 or -1. */
  predicate CutBelowOne(flag: int)
  {
    flag >= 1 && (flag % TWO_32 == 0 || flag % TWO_32 == TWO_32 - 1)
  }

  /** The low 32 bits of a number and of its successor. */
  lemma Residue(x: int)
    ensures (x + 1) % TWO_32 == if x % TWO_32 == TWO_32 - 1 then 0 else x % TWO_32 + 1
    ensures 0 <= x < TWO_32 ==> x % TWO_32 == x
  {
  }

  // ----- the events -----

  datatype ProbeOutcome = Passed | Failed | Errored

  datatype Event = Probe(outcome: ProbeOutcome) | Report(healthy: bool) | TakeReport

  /** The failure count, the report that waits in the one-place channel, and the changes triggered so far. */
  datatype State = State(count: int, report: Option<bool>, triggered: seq<bool>)

  datatype Config = Config(threshold: int, probeOnly: bool)

  function Init(c: Config): (s: State)
  {
    State(c.threshold, None, [])
  }

  predicate Healthy(c: Config, s: State)
  {
    s.count < c.threshold
  }

  /** `setResult`, with the addition in 32 bits. */
  function SetResult(c: Config, s: State, healthy: bool): (s': State)
  {
    if healthy then
      s.(count := 0, triggered := if s.count >= c.threshold then s.triggered + [true] else s.triggered)
    else
      var added := Int32(s.count + 1);
      var count := if added < 0 then Int32(c.threshold + 1) else added;
      s.(count := count, triggered := if count == c.threshold then s.triggered + [false] else s.triggered)
  }

  function Next(c: Config, s: State, e: Event): (s': State)
  {
    match e
    case Probe(Errored) => SetResult(c, s, false)
    case Probe(outcome) =>
      if Healthy(c, s) != outcome.Passed? then SetResult(c, s, outcome.Passed?) else s
    case Report(healthy) => if c.probeOnly || s.report.Some? then s else s.(report := Some(healthy))
    case TakeReport => if s.report.None? then s else SetResult(c, s.(report := None), s.report.value)
  }

  function After(c: Config, s: State, run: seq<Event>): (s': State)
  {
    if run == [] then s else Next(c, After(c, s, run[..|run| - 1]), run[|run| - 1])
  }

  // ----- every run -----

  /** The changes alternate, starting with healthy. */
  predicate Alternate(triggered: seq<bool>)
  {
    forall i :: 0 <= i < |triggered| ==> triggered[i] == (i % 2 == 0)
  }

  /** The app is taken to be unhealthy until the first change. */
  predicate LastTriggered(triggered: seq<bool>)
  {
    triggered != [] && triggered[|triggered| - 1]
  }

  predicate Inv(c: Config, s: State)
  {
    && 0 <= s.count <= MAX_INT32
    && Alternate(s.triggered)
    && Healthy(c, s) == LastTriggered(s.triggered)
  }

  lemma AlternateSnoc(triggered: seq<bool>, b: bool)
    requires Alternate(triggered) && b != LastTriggered(triggered)
    ensures Alternate(triggered + [b]) && LastTriggered(triggered + [b]) == b
  {
  }

  /** One more failure: the count goes up, and past the greatest 32-bit number it starts again above the threshold. */
  lemma OneMoreFailure(c: Config, count: int)
    requires Usable(c.threshold) && 0 <= count <= MAX_INT32
    ensures count < MAX_INT32 ==> Int32(count + 1) == count + 1
    ensures count == MAX_INT32 ==> Int32(count + 1) < 0 && Int32(c.threshold + 1) == c.threshold + 1
  {
  }

  lemma InvSetResult(c: Config, s: State, healthy: bool)
    requires Usable(c.threshold) && Inv(c, s)
    ensures Inv(c, SetResult(c, s, healthy))
  {
    OneMoreFailure(c, s.count);
    if LastTriggered(s.triggered) != healthy {
      AlternateSnoc(s.triggered, healthy);
    }
  }

  /** Over every run of probes, failing probes and reports: the count never rests below zero, the changes triggered
      alternate and start with healthy, and the status is the last one triggered. */
  lemma {:induction false} EveryRun(c: Config, run: seq<Event>)
    requires Usable(c.threshold)
    ensures Inv(c, After(c, Init(c), run))
  {
    if run != [] {
      var s := After(c, Init(c), run[..|run| - 1]);
      EveryRun(c, run[..|run| - 1]);
      InvSetResult(c, s, false);
      InvSetResult(c, s, true);
      if s.report.Some? {
        InvSetResult(c, s.(report := None), s.report.value);
      }
    }
  }

  /** Without a usable threshold it is otherwise: at the flag 2^32 the threshold is zero, every passing probe triggers a
      change to healthy, and the app stays unhealthy. */
  lemma FlagCutToZero(s: State)
    requires s == Init(Config(Threshold(TWO_32), true))
    ensures var c := Config(Threshold(TWO_32), true);
            var t := After(c, s, [Probe(Passed), Probe(Passed)]);
            t.triggered == [true, true] && !Healthy(c, t)
  {
    var c, run := Config(Threshold(TWO_32), true), [Probe(Passed), Probe(Passed)];
    ThresholdIsUsable(TWO_32);
    assert run[..1] == [Probe(Passed)] && run[..1][..0] == [];
    assert After(c, s, run[..1]) == Next(c, s, Probe(Passed));
  }

  ghost predicate AlwaysInv(c: Config)
  {
    forall run :: Inv(c, After(c, Init(c), run))
  }

  /** What holds of every run holds exactly for the flags that give a usable threshold. */
  lemma EveryRunNeedsThreshold(flag: int, probeOnly: bool)
    ensures AlwaysInv(Config(Threshold(flag), probeOnly)) <==> !CutBelowOne(flag)
  {
    var c := Config(Threshold(flag), probeOnly);
    ThresholdIsUsable(flag);
    if CutBelowOne(flag) {
      assert [Probe(Passed)][..0] == [];
      assert After(c, Init(c), [Probe(Passed)]) == Next(c, Init(c), Probe(Passed));
      assert !Inv(c, After(c, Init(c), [Probe(Passed)]));
    } else {
      forall run ensures Inv(c, After(c, Init(c), run)) {
        EveryRun(c, run);
      }
    }
  }

  // ----- reports -----

  /** What a report does, once it is taken: nothing if only probes count; otherwise a healthy one leaves the app healthy
      with a count of zero, and an unhealthy one counts as one more failure, which makes the app unhealthy exactly at the
      threshold. */
  lemma ReportCounts(c: Config, s: State, healthy: bool)
    requires Usable(c.threshold) && Inv(c, s) && s.report.None?
    ensures var t := After(c, s, [Report(healthy), TakeReport]);
            && t.report.None?
            && (c.probeOnly ==> t == s)
            && (!c.probeOnly && healthy ==> t.count == 0 && Healthy(c, t))
            && (!c.probeOnly && !healthy && s.count < MAX_INT32 ==> t.count == s.count + 1)
            && (!c.probeOnly && !healthy ==> (Healthy(c, t) <==> s.count + 1 < c.threshold))
  {
    TwoEvents(c, s, Report(healthy), TakeReport);
    OneMoreFailure(c, s.count);
  }

  /** A report that comes while another one waits is lost. */
  lemma SecondReportIsLost(c: Config, s: State, first: bool, second: bool)
    requires s.report.None? && !c.probeOnly
    ensures After(c, s, [Report(first), Report(second)]) == s.(report := Some(first))
  {
    TwoEvents(c, s, Report(first), Report(second));
  }

  lemma TwoEvents(c: Config, s: State, a: Event, b: Event)
    ensures After(c, s, [a, b]) == Next(c, Next(c, s, a), b)
  {
    assert [a, b][..1] == [a] && [a][..0] == [];
    assert After(c, s, [a]) == Next(c, s, a);
  }

  // ----- runs of probes only -----

  predicate ProbesOnly(run: seq<Event>)
  {
    forall e <- run :: e.Probe?
  }

  /** The probes that failed or could not complete. */
  function Bad(run: seq<Event>): (n: nat)
    ensures n <= |run|
  {
    if run == [] then 0
    else Bad(run[..|run| - 1]) + if run[|run| - 1] != Probe(Passed) then 1 else 0
  }

  /** A probe of a healthy app. */
  lemma ProbeWhileHealthy(c: Config, s: State, e: Event)
    requires Usable(c.threshold) && 0 <= s.count < c.threshold && e.Probe?
    ensures e == Probe(Passed) ==> Next(c, s, e) == s
    ensures e != Probe(Passed) && s.count + 1 < c.threshold ==> Next(c, s, e) == s.(count := s.count + 1)
    ensures e != Probe(Passed) && s.count + 1 == c.threshold ==>
              Next(c, s, e) == s.(count := c.threshold, triggered := s.triggered + [false])
  {
    OneMoreFailure(c, s.count);
  }

  /** A bad probe of an unhealthy app: it stays unhealthy and nothing is triggered. */
  lemma BadWhileUnhealthy(c: Config, s: State, e: Event)
    requires Usable(c.threshold) && Inv(c, s) && !Healthy(c, s) && e.Probe? && e != Probe(Passed)
    ensures Inv(c, Next(c, s, e)) && !Healthy(c, Next(c, s, e)) && Next(c, s, e).triggered == s.triggered
    ensures e == Probe(Failed) ==> Next(c, s, e) == s
    ensures e == Probe(Errored) ==> Next(c, s, e).count == if s.count < MAX_INT32 then s.count + 1 else c.threshold + 1
  {
    InvSetResult(c, s, false);
    OneMoreFailure(c, s.count);
  }

  /** Probes after the app became healthy, up to the one that makes it unhealthy: the count is that of the bad probes,
      whatever passed in between; the app is unhealthy exactly when there were as many as the threshold, and that is
      when the change is triggered. */
  lemma {:induction false} UnhealthyAtThreshold(c: Config, s: State, run: seq<Event>)
    requires Usable(c.threshold) && s.count == 0
    requires ProbesOnly(run) && (run != [] ==> Bad(run[..|run| - 1]) < c.threshold)
    ensures var s' := After(c, s, run);
            && s'.count == Bad(run)
            && (Healthy(c, s') <==> Bad(run) < c.threshold)
            && s'.triggered == s.triggered + if Bad(run) < c.threshold then [] else [false]
  {
    if run != [] {
      var front := run[..|run| - 1];
      if front != [] {
        assert Bad(front[..|front| - 1]) <= Bad(front);
      }
      UnhealthyAtThreshold(c, s, front);
      assert run[|run| - 1] in run;
      ProbeWhileHealthy(c, After(c, s, front), run[|run| - 1]);
    }
  }

  /** While the app is unhealthy, bad probes change nothing that can be seen, and the first probe that passes makes it
      healthy with a count of zero. */
  lemma {:induction false} HealthyAtFirstPass(c: Config, s: State, run: seq<Event>)
    requires Usable(c.threshold) && Inv(c, s) && !Healthy(c, s)
    requires ProbesOnly(run) && Bad(run) == |run|
    ensures var s' := After(c, s, run);
            && Inv(c, s') && !Healthy(c, s') && s'.triggered == s.triggered
            && Next(c, s', Probe(Passed)) == s'.(count := 0, triggered := s.triggered + [true])
  {
    if run != [] {
      var front := run[..|run| - 1];
      HealthyAtFirstPass(c, s, front);
      assert run[|run| - 1] in run;
      BadWhileUnhealthy(c, After(c, s, front), run[|run| - 1]);
    }
  }

  /** Probes that pass do not take failures back: with a threshold of two, two failures far apart are enough. */
  lemma PassesDoNotReset(c: Config, s: State)
    requires c.threshold == 2 && s.count == 0
    ensures !Healthy(c, After(c, s, [Probe(Failed), Probe(Passed), Probe(Passed), Probe(Failed)]))
  {
    var run := [Probe(Failed), Probe(Passed), Probe(Passed), Probe(Failed)];
    assert run[..1] == [Probe(Failed)] && Bad(run[..1]) == 1;
    assert run[..2][..1] == run[..1] && Bad(run[..2]) == 1;
    assert run[..3][..2] == run[..2] && Bad(run[..3]) == 1;
    UnhealthyAtThreshold(c, s, run);
  }

  // ----- the object -----

  /** The health monitor, of which every method is one event. */
  class Monitor {
    const config: Config
    var failureCount: int
    var report: Option<bool>
    var triggered: seq<bool>

    function Now(): (s: State)
      reads this
    {
      State(failureCount, report, triggered)
    }

    /** The app is unhealthy until a probe or a report says otherwise. */
    constructor (config: Config)
      ensures this.config == config && Now() == Init(config)
    {
      this.config := config;
      failureCount, report, triggered := config.threshold, None, [];
    }

    /** With a reachable state, the status is that of the last change triggered. */
    method GetStatus() returns (healthy: bool)
      requires Inv(config, Now())
      ensures healthy == LastTriggered(triggered)
    {
      healthy := failureCount < config.threshold;
    }

    method SetStatus(healthy: bool)
      modifies this`failureCount, this`triggered
      ensures Now() == SetResult(config, old(Now()), healthy)
    {
      if healthy {
        var prev := failureCount;
        failureCount := 0;
        if prev >= config.threshold {
          triggered := triggered + [true];
        }
        return;
      }
      failureCount := Int32(failureCount + 1);
      if failureCount < 0 {
        failureCount := Int32(config.threshold + 1);
      }
      if failureCount == config.threshold {
        triggered := triggered + [false];
      }
    }

    method DoProbe(outcome: ProbeOutcome)
      modifies this`failureCount, this`triggered
      ensures Now() == Next(config, old(Now()), Probe(outcome))
    {
      if outcome.Errored? {
        SetStatus(false);
        return;
      }
      if (failureCount < config.threshold) != outcome.Passed? {
        SetStatus(outcome.Passed?);
      }
    }

    method ReportHealth(healthy: bool)
      modifies this`report
      ensures Now() == Next(config, old(Now()), Report(healthy))
    {
      if config.probeOnly {
        return;
      }
      if report.None? {
        report := Some(healthy);
      }
    }

    method ReceiveReport()
      modifies this
      ensures Now() == Next(config, old(Now()), TakeReport)
    {
      if report.Some? {
        var status := report.value;
        report := None;
        SetStatus(status);
      }
    }

    /** The monitor over a whole run of events. */
    method Run(events: seq<Event>) returns (healthy: bool)
      requires Usable(config.threshold) && Now() == Init(config)
      modifies this
      ensures Now() == After(config, Init(config), events)
      ensures 0 <= failureCount <= MAX_INT32 && Alternate(triggered) && healthy == LastTriggered(triggered)
    {
      for i := 0 to |events|
        invariant Now() == After(config, Init(config), events[..i])
      {
        assert events[..i + 1][..i] == events[..i];
        match events[i] {
          case Probe(outcome) => DoProbe(outcome);
          case Report(status) => ReportHealth(status);
          case TakeReport => ReceiveReport();
        }
      }
      assert events[..|events|] == events;
      EveryRun(config, events);
      healthy := GetStatus();
    }
  }
}
