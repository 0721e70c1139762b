/**
 ARF and AARF rate control: a per-station machine that climbs a ladder of transmission
 modes on success and steps down on failure.
 */
module RateControl {
  import opened Prelude

  const MIN_TIMEOUT: nat := 15
  const MIN_THRESHOLD: nat := 10
  const MAX_THRESHOLD: nat := 60

  datatype Event = DataOk | DataFailed

  datatype Station = Station(
    timer: nat, success: nat, failed: nat, recovery: bool, retry: nat,
    timeout: nat, threshold: nat, rate: nat)

  /** The plant: how many modes there are, and whether thresholds adapt (AARF). */
  datatype Config = Config(nModes: nat, adaptive: bool)

  const FRESH: Station := Station(0, 0, 0, false, 0, MIN_TIMEOUT, MIN_THRESHOLD, 0)

  /** AARF's reportRecoveryFailure; ARF's does nothing. */
  function RecoveryFailure(s: Station, c: Config): (r: Station)
  {
    if c.adaptive then
      var threshold := NatMin(2 * s.threshold, MAX_THRESHOLD);
      s.(threshold := threshold, timeout := NatMax(MIN_TIMEOUT, 2 * threshold))
    else s
  }

  /** AARF's reportFailure; ARF's does nothing. */
  function NormalFailure(s: Station, c: Config): (r: Station)
  {
    if c.adaptive then s.(threshold := MIN_THRESHOLD, timeout := MIN_TIMEOUT) else s
  }

  function SlowDown(s: Station): (r: Station)
  {
    if s.rate != 0 then s.(rate := s.rate - 1) else s
  }

  function ReportFailed(s: Station, c: Config): (r: Station)
  {
    var s1 := s.(timer := s.timer + 1, failed := s.failed + 1, retry := s.retry + 1, success := 0);
    if s1.recovery then
      (if s1.retry == 1 then SlowDown(RecoveryFailure(s1, c)) else s1).(timer := 0)
    else
      var s2 := if (s1.retry - 1) % 2 == 1 then SlowDown(NormalFailure(s1, c)) else s1;
      if s2.retry >= 2 then s2.(timer := 0) else s2
  }

  function ReportOk(s: Station, c: Config): (r: Station)
  {
    var s1 := s.(timer := s.timer + 1, success := s.success + 1, failed := 0, recovery := false, retry := 0);
    if (s1.success == s1.threshold || s1.timer == s1.timeout) && s1.rate < c.nModes - 1 then
      s1.(rate := s1.rate + 1, timer := 0, success := 0, recovery := true)
    else s1
  }

  function Step(s: Station, c: Config, e: Event): (r: Station)
  {
    if e.DataOk? then ReportOk(s, c) else ReportFailed(s, c)
  }

  function Run(s: Station, c: Config, es: seq<Event>): (r: Station)
    decreases |es|
  {
    if es == [] then s else Step(Run(s, c, es[..|es| - 1]), c, es[|es| - 1])
  }

  /** The same event n times. */
  function Again(s: Station, c: Config, e: Event, n: nat): (r: Station)
  {
    if n == 0 then s else Step(Again(s, c, e, n - 1), c, e)
  }

  // ---------------------------------------------------------------------
  // What every run keeps
  // ---------------------------------------------------------------------

  /** The success test compares for equality: below the top rate the count has not
      got there yet, so it cannot be stepped over. Nor is a probe ever pending on top of
      counted successes. */
  ghost predicate Inv(s: Station, c: Config) {
    s.rate < c.nModes
    && (s.rate < c.nModes - 1 ==> s.success < s.threshold)
    && MIN_THRESHOLD <= s.threshold <= MAX_THRESHOLD && MIN_TIMEOUT <= s.timeout
    && (!c.adaptive ==> s.threshold == MIN_THRESHOLD && s.timeout == MIN_TIMEOUT)
    && (s.recovery ==> s.success == 0 && s.timer == 0)
    && s.failed == s.retry && (s.retry > 0 ==> s.success == 0)
  }

  lemma StepKeepsInv(s: Station, c: Config, e: Event)
    requires Inv(s, c)
    ensures Inv(Step(s, c, e), c)
  {
  }

  lemma {:induction false} RunsKeepInv(c: Config, es: seq<Event>)
    requires c.nModes > 0
    ensures Inv(Run(FRESH, c, es), c)
    decreases |es|
  {
    if es != [] {
      RunsKeepInv(c, es[..|es| - 1]);
      StepKeepsInv(Run(FRESH, c, es[..|es| - 1]), c, es[|es| - 1]);
    }
  }

  // ---------------------------------------------------------------------
  // Climbing
  // ---------------------------------------------------------------------

  /** How many successes in a row the next climb takes. */
  function SuccessesToClimb(s: Station): (n: nat)
    requires s.success < s.threshold
  {
    var bySuccess := s.threshold - s.success;
    if s.timer < s.timeout then NatMin(bySuccess, s.timeout - s.timer) else bySuccess
  }

  /** Before that many successes nothing but the counters moves. */
  lemma {:induction false} BeforeClimb(s: Station, c: Config, n: nat)
    requires Inv(s, c) && s.rate < c.nModes - 1 && n < SuccessesToClimb(s)
    ensures Again(s, c, DataOk, n)
         == if n == 0 then s
            else s.(timer := s.timer + n, success := s.success + n, failed := 0, recovery := false, retry := 0)
  {
    if n > 0 {
      BeforeClimb(s, c, n - 1);
    }
  }

  /** From any reachable state below the top rate, a row of successes raises the rate by
      one, at exactly that success and not before; threshold of them always suffice. */
  lemma SuccessesClimb(s: Station, c: Config, n: nat)
    requires Inv(s, c) && s.rate < c.nModes - 1 && n <= SuccessesToClimb(s)
    ensures Again(s, c, DataOk, n).rate == s.rate + (if n == SuccessesToClimb(s) then 1 else 0)
    ensures 0 < SuccessesToClimb(s) <= s.threshold
  {
    if n == SuccessesToClimb(s) {
      BeforeClimb(s, c, n - 1);
    } else {
      BeforeClimb(s, c, n);
    }
  }

  // ---------------------------------------------------------------------
  // Falling
  // ---------------------------------------------------------------------

  /** How often the rate steps down in n failures in a row. */
  function Drops(s: Station, n: nat): (d: nat)
  {
    if s.recovery then if s.retry == 0 && n > 0 then 1 else 0
    else (s.retry + n) / 2 - s.retry / 2
  }

  /** Outside recovery every second failure costs a step; in recovery only the first
      failure after the climb does, and however many follow cost nothing more. */
  lemma {:induction false} FailuresFall(s: Station, c: Config, n: nat)
    requires Inv(s, c)
    ensures var r := Again(s, c, DataFailed, n);
      r.rate == NatMax(s.rate, Drops(s, n)) - Drops(s, n)
      && r.retry == s.retry + n && r.recovery == s.recovery && Inv(r, c)
  {
    hide Step, Inv;
    if n > 0 {
      FailuresFall(s, c, n - 1);
      OneFailure(Again(s, c, DataFailed, n - 1), c);
      OneMoreDrop(s, n);
      StepDown(s.rate, Drops(s, n - 1), Drops(s, n) - Drops(s, n - 1));
    }
  }

  /** Whether the next failure costs a step. */
  predicate Costs(recovery: bool, retry: nat) {
    if recovery then retry == 0 else retry % 2 == 1
  }

  lemma OneFailure(s: Station, c: Config)
    requires Inv(s, c)
    ensures var r := Step(s, c, DataFailed);
      r.rate == (if Costs(s.recovery, s.retry) && s.rate > 0 then s.rate - 1 else s.rate)
      && r.retry == s.retry + 1 && r.recovery == s.recovery && Inv(r, c)
  {
    StepKeepsInv(s, c, DataFailed);
  }

  lemma OneMoreDrop(s: Station, n: nat)
    requires n > 0
    ensures Drops(s, n) == Drops(s, n - 1) + if Costs(s.recovery, s.retry + n - 1) then 1 else 0
  {
    var a := s.retry + n - 1;
    assert (a + 1) / 2 == a / 2 + a % 2;
  }

  lemma StepDown(rate: nat, d: nat, more: nat)
    requires more <= 1
    ensures var r := NatMax(rate, d) - d;
      r >= 0 && NatMax(rate, d + more) - (d + more) == if r > 0 then r - more else 0
  {
  }

  // ---------------------------------------------------------------------
  // The timer test
  // ---------------------------------------------------------------------

  /** Below the top rate the timer passes its timeout unnoticed exactly on a lone failure
      that comes when one more report would have been due. */
  lemma TimerOvertaken(s: Station, c: Config, e: Event)
    requires Inv(s, c) && s.rate < c.nModes - 1 && s.timer < s.timeout
    ensures Step(s, c, e).timer < Step(s, c, e).timeout
       <==> !(e.DataFailed? && !s.recovery && s.retry == 0 && s.timer + 1 == s.timeout)
  {
  }

  lemma {:induction false} RunCons(s: Station, c: Config, es: seq<Event>)
    requires es != []
    ensures Run(s, c, es) == Run(Step(s, c, es[0]), c, es[1..])
    decreases |es|
  {
    hide Step;
    var n := |es| - 1;
    if n > 0 {
      RunCons(s, c, es[..n]);
      assert es[..n][1..] == es[1..][..n - 1];
    }
  }

  /** No two failures in a row, counting the one just before if there was one. */
  predicate Lone(afterFailure: bool, es: seq<Event>)
    decreases |es|
  {
    es == [] || (if es[0].DataOk? then Lone(false, es[1..]) else !afterFailure && Lone(true, es[1..]))
  }

  /** No row of successes, the `success` just before included, reaches the threshold. */
  predicate ShortRows(success: nat, threshold: nat, es: seq<Event>)
    decreases |es|
  {
    es == [] || (if es[0].DataOk? then success + 1 < threshold && ShortRows(success + 1, threshold, es[1..])
                 else ShortRows(0, threshold, es[1..]))
  }

  /** Below the top rate, no probe under way, and only the timer can make it climb. */
  ghost predicate TimerDecides(s: Station, c: Config, es: seq<Event>) {
    Inv(s, c) && s.rate < c.nModes - 1 && !s.recovery && s.retry <= 1
    && Lone(s.retry == 1, es) && ShortRows(s.success, s.threshold, es)
  }

  /** The report at which the timer comes to its timeout, if it is among es, is a failure. */
  predicate FailsWhenDue(s: Station, es: seq<Event>) {
    var due := s.timeout - s.timer;
    1 <= due <= |es| ==> es[due - 1].DataFailed?
  }

  lemma OneMoreReport(s: Station, c: Config, es: seq<Event>)
    requires es != [] && TimerDecides(s, c, es) && FailsWhenDue(s, es)
    ensures var r := Step(s, c, es[0]);
      TimerDecides(r, c, es[1..]) && FailsWhenDue(r, es[1..])
      && r.rate == s.rate && r.timer == s.timer + 1 && r.timeout == s.timeout && r.threshold == s.threshold
  {
    StepKeepsInv(s, c, es[0]);
  }

  /** If that report fails, the rate stays, however many reports follow. */
  lemma {:induction false} TimerMissed(s: Station, c: Config, es: seq<Event>)
    requires TimerDecides(s, c, es) && FailsWhenDue(s, es)
    ensures var r := Run(s, c, es);
      r.rate == s.rate && r.timer == s.timer + |es| && r.timeout == s.timeout && r.threshold == s.threshold && Inv(r, c)
    decreases |es|
  {
    hide Step, FailsWhenDue, Inv;
    if es == [] {
      DecidesInv(s, c, es);
    } else {
      OneMoreReport(s, c, es);
      RunCons(s, c, es);
      TimerMissed(Step(s, c, es[0]), c, es[1..]);
    }
  }

  lemma DecidesInv(s: Station, c: Config, es: seq<Event>)
    requires TimerDecides(s, c, es)
    ensures Inv(s, c)
  {
  }

  /** Where only the timer can decide, the station climbs with the report that brings the
      timer to its timeout if and only if that report is a success. */
  lemma TimerRule(s: Station, c: Config, es: seq<Event>, e: Event)
    requires TimerDecides(s, c, es) && s.timer + |es| + 1 == s.timeout
    ensures Run(s, c, es).rate == s.rate
    ensures Run(s, c, es + [e]).rate == s.rate + 1 <==> e.DataOk?
  {
    TimerMissed(s, c, es);
    assert (es + [e])[..|es|] == es;
  }

  function Alternating(s: Station, c: Config, n: nat): (r: Station)
  {
    if n == 0 then s else Step(Step(Alternating(s, c, n - 1), c, DataFailed), c, DataOk)
  }

  /** So a station that loses every other frame, the first included, never climbs,
      though the timeout is 15 reports. */
  lemma {:induction false} TimerNeverFires(c: Config, n: nat)
    requires c.nModes > 1
    ensures var r := Alternating(FRESH, c, n);
      r.rate == 0 && r.timer == 2 * n && r.timeout == MIN_TIMEOUT
      && r.threshold == MIN_THRESHOLD && !r.recovery && r.retry == 0 && r.success <= 1
  {
    if n > 0 {
      TimerNeverFires(c, n - 1);
    }
  }

  // ---------------------------------------------------------------------
  // Reports and rates alone
  // ---------------------------------------------------------------------

  /** The rate of a station from the start, after these reports. */
  function RateAfter(c: Config, es: seq<Event>): (rate: nat)
  {
    Run(FRESH, c, es).rate
  }

  /** The last of these reports raised the rate. */
  predicate Raised(c: Config, es: seq<Event>) {
    es != [] && RateAfter(c, es) == RateAfter(c, es[..|es| - 1]) + 1
  }

  /** How many failures in a row the reports end with. */
  function Failures(es: seq<Event>): (n: nat)
    ensures n <= |es|
    decreases |es|
  {
    if es == [] || es[|es| - 1].DataOk? then 0 else 1 + Failures(es[..|es| - 1])
  }

  /** The reports before that row of failures. */
  function BeforeFailures(es: seq<Event>): (r: seq<Event>)
    ensures r == [] || r[|r| - 1].DataOk?
    decreases |es|
  {
    if es == [] || es[|es| - 1].DataOk? then es else BeforeFailures(es[..|es| - 1])
  }

  /** What the station remembers of the reports: the row of failures, and whether the
      report before it raised the rate. */
  lemma {:induction false} Remembered(c: Config, es: seq<Event>)
    ensures var s := Run(FRESH, c, es);
      s.retry == Failures(es) && (s.recovery <==> Raised(c, BeforeFailures(es)))
    decreases |es|
  {
    if es != [] {
      Remembered(c, es[..|es| - 1]);
    }
  }

  /** The timer and the successes start afresh with a climb. */
  lemma AfterClimb(c: Config, es: seq<Event>)
    requires Raised(c, es)
    ensures es[|es| - 1].DataOk?
    ensures var s := Run(FRESH, c, es); s.timer == 0 && s.success == 0 && s.retry == 0 && s.recovery
    ensures Run(FRESH, c, es).threshold == Run(FRESH, c, es[..|es| - 1]).threshold
  {
  }

  /** A probe: if a report raises the rate and the next one fails, the rate is what it was
      before; AARF then doubles the threshold up to 60, ARF leaves it. */
  lemma ProbeFails(c: Config, es: seq<Event>)
    requires Raised(c, es)
    ensures RateAfter(c, es + [DataFailed]) == RateAfter(c, es[..|es| - 1])
    ensures var before, after := Run(FRESH, c, es), Run(FRESH, c, es + [DataFailed]);
      after.threshold == if c.adaptive then NatMin(2 * before.threshold, 60) else before.threshold
  {
    AfterClimb(c, es);
    assert (es + [DataFailed])[..|es|] == es;
  }

  /** A row of n failures after a success, or from the start: right after a climb it costs
      one mode in all, else one mode for every two failures. */
  lemma RowOfFailures(c: Config, es: seq<Event>, n: nat)
    requires c.nModes > 0 && (es == [] || es[|es| - 1].DataOk?)
    ensures var d := if !Raised(c, es) then n / 2 else if n > 0 then 1 else 0;
      Again(Run(FRESH, c, es), c, DataFailed, n).rate == NatMax(RateAfter(c, es), d) - d
  {
    Remembered(c, es);
    RunsKeepInv(c, es);
    FailuresFall(Run(FRESH, c, es), c, n);
  }

  /** After a climb the next one takes a whole threshold of successes, or the timeout if
      that is shorter, and comes exactly then. */
  lemma ClimbAfterClimb(c: Config, es: seq<Event>, n: nat)
    requires Raised(c, es) && c.nModes > 0 && RateAfter(c, es) < c.nModes - 1
    requires var s := Run(FRESH, c, es); n <= NatMin(s.threshold, s.timeout)
    ensures var s := Run(FRESH, c, es);
      Again(s, c, DataOk, n).rate == s.rate + if n == NatMin(s.threshold, s.timeout) then 1 else 0
  {
    AfterClimb(c, es);
    RunsKeepInv(c, es);
    SuccessesClimb(Run(FRESH, c, es), c, n);
  }

  /** After two failures in a row the timer starts afresh: where only the timer can decide,
      the next climb comes with the report number timeout from there, if that succeeds. */
  lemma TimerAfterTwoFailures(c: Config, es: seq<Event>, more: seq<Event>, e: Event)
    requires c.nModes > 0
    requires var s := Run(FRESH, c, es + [DataFailed, DataFailed]);
      && s.rate < c.nModes - 1 && |more| + 2 == s.timeout
      && Lone(false, more) && ShortRows(1, s.threshold, more)
    ensures var s := Run(FRESH, c, es + [DataFailed, DataFailed]);
      && Run(s, c, [DataOk] + more).rate == s.rate
      && (Run(s, c, [DataOk] + more + [e]).rate == s.rate + 1 <==> e.DataOk?)
  {
    hide Run, Lone, ShortRows;
    var two := es + [DataFailed, DataFailed];
    var s := Run(FRESH, c, two);
    TwoFailures(c, es);
    RunsKeepInv(c, two);
    var r := Step(s, c, DataOk);
    StepKeepsInv(s, c, DataOk);
    RunCons(s, c, [DataOk] + more);
    assert ([DataOk] + more)[1..] == more;
    RunCons(s, c, [DataOk] + more + [e]);
    assert ([DataOk] + more + [e])[1..] == more + [e];
    TimerRule(r, c, more, e);
  }

  lemma TwoFailures(c: Config, es: seq<Event>)
    ensures var s := Run(FRESH, c, es + [DataFailed, DataFailed]); s.timer == 0 && s.success == 0
  {
    var two := es + [DataFailed, DataFailed];
    assert two[..|es| + 1] == es + [DataFailed];
    Remembered(c, es + [DataFailed]);
    assert Failures(es + [DataFailed]) >= 1;
  }

  // ---------------------------------------------------------------------
  // AARF's memory of failed probes
  // ---------------------------------------------------------------------

  /** Failed probes, failures that come right after a report that raised the rate, since
      the last time that two failures in a row (or four, or six) came otherwise. */
  function FailedProbes(c: Config, es: seq<Event>): (k: nat)
    decreases |es|
  {
    if es == [] then 0
    else
      var k := FailedProbes(c, es[..|es| - 1]);
      if es[|es| - 1].DataOk? then k
      else if Raised(c, BeforeFailures(es)) then if Failures(es) == 1 then k + 1 else k
      else if Failures(es) % 2 == 0 then 0 else k
  }

  /** Over every run the threshold is 10 doubled once for each of them, capped at 60, and
      the timeout is twice that. */
  lemma {:induction false} ThresholdRemembers(c: Config, es: seq<Event>)
    requires c.nModes > 0 && c.adaptive
    ensures var s, k := Run(FRESH, c, es), FailedProbes(c, es);
      s.threshold == NatMin(10 * Power2(k), 60)
      && s.timeout == if k == 0 then 15 else 2 * s.threshold
    decreases |es|
  {
    hide Raised;
    if es != [] {
      ThresholdRemembers(c, es[..|es| - 1]);
      RunsKeepInv(c, es[..|es| - 1]);
      Remembered(c, es[..|es| - 1]);
    }
  }

  // ---------------------------------------------------------------------
  // The station's object
  // ---------------------------------------------------------------------

  /** ArfMacStation, and with adaptive its subclass AarfMacStation. */
  class ArfMacStation {
    const config: Config
    var timer: nat
    var success: nat
    var failed: nat
    var recovery: bool
    var retry: nat
    var timerTimeout: nat
    var successThreshold: nat
    var rate: nat

    ghost function State(): Station
      reads this
    {
      Station(timer, success, failed, recovery, retry, timerTimeout, successThreshold, rate)
    }

    constructor (nModes: nat, adaptive: bool)
      requires nModes > 0
      ensures config == Config(nModes, adaptive) && State() == FRESH && Inv(State(), config)
    {
      config := Config(nModes, adaptive);
      timer, success, failed, recovery, retry := 0, 0, 0, false, 0;
      timerTimeout, successThreshold, rate := MIN_TIMEOUT, MIN_THRESHOLD, 0;
    }

    /** setTimerTimeout and setSuccessThreshold: the preconditions are their assertions. */
    method SetTimerTimeout(timeout: nat)
      requires timeout >= MIN_TIMEOUT
      modifies this`timerTimeout
      ensures timerTimeout == timeout
    {
      timerTimeout := timeout;
    }

    method SetSuccessThreshold(threshold: nat)
      requires threshold >= MIN_THRESHOLD
      modifies this`successThreshold
      ensures successThreshold == threshold
    {
      successThreshold := threshold;
    }

    method ReportRecoveryFailure()
      requires MIN_THRESHOLD <= successThreshold <= MAX_THRESHOLD
      modifies this`timerTimeout, this`successThreshold
      ensures State() == RecoveryFailure(old(State()), config)
    {
      if config.adaptive {
        SetSuccessThreshold(NatMin(2 * successThreshold, MAX_THRESHOLD));
        SetTimerTimeout(NatMax(MIN_TIMEOUT, 2 * successThreshold));
      }
    }

    method ReportFailure()
      modifies this`timerTimeout, this`successThreshold
      ensures State() == NormalFailure(old(State()), config)
    {
      if config.adaptive {
        SetTimerTimeout(MIN_TIMEOUT);
        SetSuccessThreshold(MIN_THRESHOLD);
      }
    }

    method ReportDataFailed()
      requires Inv(State(), config)
      modifies this
      ensures State() == Step(old(State()), config, DataFailed) && Inv(State(), config)
    {
      StepKeepsInv(State(), config, DataFailed);
      timer, failed, retry := timer + 1, failed + 1, retry + 1;
      success := 0;
      if recovery {
        if retry == 1 {
          ReportRecoveryFailure();
          if rate != 0 {
            rate := rate - 1;
          }
        }
        timer := 0;
      } else {
        if (retry - 1) % 2 == 1 {
          ReportFailure();
          if rate != 0 {
            rate := rate - 1;
          }
        }
        if retry >= 2 {
          timer := 0;
        }
      }
    }

    method ReportDataOk()
      requires Inv(State(), config)
      modifies this
      ensures State() == Step(old(State()), config, DataOk) && Inv(State(), config)
    {
      timer, success := timer + 1, success + 1;
      failed, recovery, retry := 0, false, 0;
      if (success == successThreshold || timer == timerTimeout) && rate < config.nModes - 1 {
        rate := rate + 1;
        timer, success, recovery := 0, 0, true;
      }
      StepKeepsInv(old(State()), config, DataOk);
    }
  }
}
