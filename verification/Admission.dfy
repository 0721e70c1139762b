/**
 Admission control of the HCCA scheduler: a new traffic stream may shrink the service
 interval, every admitted stream is then recomputed, and the request is granted only
 if the schedule still fits.
 */
module Admission {
  import opened Prelude

  const SIFS: real := 0.000016
  const CF_POLL_SIZE: nat := 28
  const ACK_SIZE: nat := 14
  const CAP_LIMIT: real := 0.4
  const EDCA_PROPORTION: real := 0.4
  const MIN_INTERVAL: real := 0.008
  const INTERVAL_STEP: real := 0.001
  /** 0xff units of 32 microseconds. */
  const MAX_TXOP: real := 0.00816

  /** PLCP time of every frame and the data rate of each mode. */
  datatype Phy = Phy(plcp: real, rates: seq<real>)

  ghost predicate GoodPhy(phy: Phy) {
    phy.plcp >= 0.0 && phy.rates != [] && forall i :: 0 <= i < |phy.rates| ==> phy.rates[i] > 0.0
  }

  datatype TSpec = TSpec(
    meanDataRate: real, nominalMsduSize: nat, surplusBandwidthAllowance: real,
    minimumServiceInterval: real, maximumServiceInterval: real, delayBound: real, phyMode: nat)

  /** Time on the air of `size` octets. */
  function Duration(phy: Phy, size: nat, mode: nat): (d: real)
    requires GoodPhy(phy) && mode < |phy.rates|
    ensures d >= 0.0
  {
    phy.plcp + (size * 8) as real / phy.rates[mode]
  }

  /** Frames needed per service interval. */
  function Frames(si: real, ts: TSpec): (n: int)
    requires ts.nominalMsduSize > 0
  {
    Lrint(Load(si, ts))
  }

  function Load(si: real, ts: TSpec): (x: real)
    requires ts.nominalMsduSize > 0
  {
    si * ts.meanDataRate / ts.nominalMsduSize as real
  }

  /** What the check on entry demands of a stream. */
  predicate Complete(ts: TSpec) {
    && ts.meanDataRate > 0.0
    && ts.nominalMsduSize > 0
    && ts.surplusBandwidthAllowance > 0.0
    && (ts.maximumServiceInterval > 0.0 || ts.delayBound > 0.0)
    && ts.maximumServiceInterval >= ts.minimumServiceInterval
  }

  predicate Known(phy: Phy, ts: TSpec) {
    ts.phyMode < |phy.rates|
  }

  /** calculateTxopDuration. */
  function Txop(phy: Phy, si: real, ts: TSpec): (d: real)
    requires GoodPhy(phy) && Known(phy, ts) && Complete(ts) && si >= 0.0
  {
    var n := FramesNat(si, ts);
    var overhead := Overhead(phy, n);
    var tx := Duration(phy, n * ts.nominalMsduSize, ts.phyMode) + overhead;
    var other := Duration(phy, MAX_MSDU_SIZE, ts.phyMode) + overhead;
    if tx > other then tx else other
  }

  function FramesNat(si: real, ts: TSpec): (n: nat)
    requires Complete(ts) && si >= 0.0
    ensures n == Frames(si, ts)
  {
    Quotient(0.0, si, ts);
    LrintMonotonic(0.0, Load(si, ts));
    assert Lrint(0.0) == 0;
    Frames(si, ts)
  }

  function Times(d: real, n: nat): (p: real)
    ensures d >= 0.0 ==> p >= 0.0
  {
    d * n as real
  }

  function Overhead(phy: Phy, n: nat): (d: real)
    requires GoodPhy(phy)
    ensures d >= 0.0
  {
    Duration(phy, CF_POLL_SIZE, 0) + SIFS + Times(Duration(phy, ACK_SIZE, 0), n) + Times(SIFS, n)
  }

  lemma Quotient(a: real, b: real, ts: TSpec)
    requires Complete(ts) && 0.0 <= a <= b
    ensures 0.0 <= Load(a, ts) <= Load(b, ts)
  {
    var r, l := ts.meanDataRate, ts.nominalMsduSize as real;
    assert a * r <= b * r;
    DivMonotonic(a * r, b * r, l);
  }

  lemma DivMonotonic(x: real, y: real, l: real)
    requires 0.0 <= x <= y && l > 0.0
    ensures 0.0 <= x / l <= y / l
  {
    assert (y - x) / l >= 0.0;
    assert y / l == x / l + (y - x) / l;
  }

  lemma DurationMonotonic(phy: Phy, a: nat, b: nat, mode: nat)
    requires GoodPhy(phy) && mode < |phy.rates| && a <= b
    ensures Duration(phy, a, mode) <= Duration(phy, b, mode)
  {
    DivMonotonic((a * 8) as real, (b * 8) as real, phy.rates[mode]);
  }

  lemma OverheadMonotonic(phy: Phy, a: nat, b: nat)
    requires GoodPhy(phy) && a <= b
    ensures Overhead(phy, a) <= Overhead(phy, b)
  {
    hide Duration, Times;
    TimesMonotonic(Duration(phy, ACK_SIZE, 0), a, b);
    TimesMonotonic(SIFS, a, b);
  }

  lemma TimesMonotonic(d: real, a: nat, b: nat)
    requires d >= 0.0 && a <= b
    ensures Times(d, a) <= Times(d, b)
  {
    assert d * (b - a) as real >= 0.0;
    assert d * b as real == d * a as real + d * (b - a) as real;
  }

  lemma FramesMonotonic(a: real, b: real, ts: TSpec)
    requires Complete(ts) && 0.0 <= a <= b
    ensures FramesNat(a, ts) <= FramesNat(b, ts)
    ensures FramesNat(a, ts) * ts.nominalMsduSize <= FramesNat(b, ts) * ts.nominalMsduSize
  {
    hide Lrint, FramesNat, Load;
    Quotient(a, b, ts);
    LrintMonotonic(Load(a, ts), Load(b, ts));
    MulMonotonic(FramesNat(a, ts), FramesNat(b, ts), ts.nominalMsduSize);
  }

  lemma MulMonotonic(a: nat, b: nat, c: nat)
    requires a <= b
    ensures a * c <= b * c
  {
  }

  /** A shorter interval never needs a longer TXOP. */
  lemma TxopMonotonic(phy: Phy, a: real, b: real, ts: TSpec)
    requires GoodPhy(phy) && Known(phy, ts) && Complete(ts) && 0.0 <= a <= b
    ensures Txop(phy, a, ts) <= Txop(phy, b, ts)
  {
    hide Duration, Overhead, FramesNat, Frames, Lrint;
    FramesMonotonic(a, b, ts);
    var m, n := FramesNat(a, ts), FramesNat(b, ts);
    DurationMonotonic(phy, m * ts.nominalMsduSize, n * ts.nominalMsduSize, ts.phyMode);
    OverheadMonotonic(phy, m, n);
  }

  /** What a TXOP for n frames holds besides the data: a CF-Poll of 28 octets and a SIFS,
      and for each frame an ACK of 14 octets and a SIFS, all in the lowest mode. */
  function Protocol(phy: Phy, n: nat): (t: real)
    requires GoodPhy(phy)
  {
    phy.plcp + 28.0 * 8.0 / phy.rates[0] + 0.000016
    + n as real * (phy.plcp + 14.0 * 8.0 / phy.rates[0] + 0.000016)
  }

  /** Octets of data in one go. */
  function Payload(phy: Phy, octets: nat, mode: nat): (t: real)
    requires GoodPhy(phy) && mode < |phy.rates|
  {
    phy.plcp + octets as real * 8.0 / phy.rates[mode]
  }

  /** The TXOP has room for the n frames nearest to what the stream sends in an interval,
      and for one MSDU of the largest size, with the protocol around them; and for no more
      than the longer of the two. */
  lemma TxopExact(phy: Phy, si: real, ts: TSpec, n: nat)
    requires GoodPhy(phy) && Known(phy, ts) && Complete(ts) && si >= 0.0
    requires Nearest(si * ts.meanDataRate / ts.nominalMsduSize as real, n)
    ensures var frames := Payload(phy, n * ts.nominalMsduSize, ts.phyMode) + Protocol(phy, n);
            var largest := Payload(phy, 2304, ts.phyMode) + Protocol(phy, n);
            && Txop(phy, si, ts) >= frames && Txop(phy, si, ts) >= largest
            && (Txop(phy, si, ts) == frames || Txop(phy, si, ts) == largest)
  {
    hide Duration, Overhead, Payload, Protocol, FramesNat, Nearest;
    FramesAre(si, ts, si * ts.meanDataRate / ts.nominalMsduSize as real, n);
    DurationIs(phy, n * ts.nominalMsduSize, ts.phyMode);
    DurationIs(phy, 2304, ts.phyMode);
    OverheadIs(phy, n);
  }

  lemma FramesAre(si: real, ts: TSpec, x: real, n: nat)
    requires Complete(ts) && si >= 0.0 && x == Load(si, ts)
    requires Nearest(x, n)
    ensures FramesNat(si, ts) == n
  {
    hide Load, Lrint;
    NearestUnique(x, n, Lrint(x));
  }

  lemma DurationIs(phy: Phy, octets: nat, mode: nat)
    requires GoodPhy(phy) && mode < |phy.rates|
    ensures Duration(phy, octets, mode) == Payload(phy, octets, mode)
  {
    assert (octets * 8) as real == octets as real * 8.0;
  }

  lemma OverheadIs(phy: Phy, n: nat)
    requires GoodPhy(phy)
    ensures Overhead(phy, n) == Protocol(phy, n)
  {
    hide Duration;
    DurationIs(phy, 28, 0);
    DurationIs(phy, 14, 0);
    Distribute(n as real, Duration(phy, 14, 0), 0.000016);
  }

  lemma Distribute(n: real, a: real, b: real)
    ensures a * n + b * n == n * (a + b)
  {
  }

  // ---------------------------------------------------------------------
  // The schedule
  // ---------------------------------------------------------------------

  /** Current service interval (zero before the first stream) and admitted streams. */
  datatype Schedule = Schedule(interval: real, admitted: seq<TSpec>)

  /** getMaximumServiceInterval. */
  function MaximumInterval(ts: TSpec): (si: real)
    requires Complete(ts)
    ensures si > 0.0
  {
    if ts.maximumServiceInterval <= 0.0 then ts.delayBound / 7.0 else ts.maximumServiceInterval
  }

  ghost predicate Usable(phy: Phy, streams: seq<TSpec>) {
    forall ts :: ts in streams ==> Known(phy, ts) && Complete(ts)
  }

  /** The TXOPs of all streams at one interval. */
  function TotalCap(phy: Phy, si: real, streams: seq<TSpec>): (t: real)
    requires GoodPhy(phy) && Usable(phy, streams) && si >= 0.0
  {
    if streams == [] then 0.0
    else
      var n := |streams| - 1;
      assert streams[n] in streams && forall ts :: ts in streams[..n] ==> ts in streams;
      TotalCap(phy, si, streams[..n]) + Txop(phy, si, streams[n])
  }

  lemma {:induction false} TotalCapMonotonic(phy: Phy, a: real, b: real, streams: seq<TSpec>)
    requires GoodPhy(phy) && Usable(phy, streams) && 0.0 <= a <= b
    ensures TotalCap(phy, a, streams) <= TotalCap(phy, b, streams)
  {
    hide Txop;
    if streams != [] {
      var n := |streams| - 1;
      assert streams[n] in streams && forall ts :: ts in streams[..n] ==> ts in streams;
      TotalCapMonotonic(phy, a, b, streams[..n]);
      TxopMonotonic(phy, a, b, streams[n]);
    }
  }

  /** The loop that shortens the interval until the TXOP fits, or gives up. */
  function Shrink(phy: Phy, si: real, ts: TSpec): (r: real)
    requires GoodPhy(phy) && Known(phy, ts) && Complete(ts) && si >= 0.0
    ensures 0.0 <= r <= si
    ensures r <= MIN_INTERVAL || Txop(phy, r, ts) <= MAX_TXOP
    decreases if si > 0.0 then (si * 1000.0).Floor else 0
  {
    if Txop(phy, si, ts) > MAX_TXOP && si > MIN_INTERVAL then
      assert ((si - INTERVAL_STEP) * 1000.0).Floor < (si * 1000.0).Floor;
      Shrink(phy, si - INTERVAL_STEP, ts)
    else si
  }

  /** The interval after j steps. */
  function After(si: real, j: nat): (r: real) {
    si - j as real * INTERVAL_STEP
  }

  /** Still too long a TXOP, and still room to shorten the interval. */
  ghost predicate TooLong(phy: Phy, si: real, ts: TSpec)
    requires GoodPhy(phy) && Known(phy, ts) && Complete(ts)
  {
    si > MIN_INTERVAL && Txop(phy, si, ts) > MAX_TXOP
  }

  /** The loop stops at the first step that is not too long. */
  lemma {:induction false} ShrinkIsFirst(phy: Phy, si: real, ts: TSpec) returns (k: nat)
    requires GoodPhy(phy) && Known(phy, ts) && Complete(ts) && si >= 0.0
    ensures Shrink(phy, si, ts) == After(si, k) && !TooLong(phy, After(si, k), ts)
    ensures forall j: nat :: j < k ==> TooLong(phy, After(si, j), ts)
    decreases if si > 0.0 then (si * 1000.0).Floor else 0
  {
    hide Txop;
    if TooLong(phy, si, ts) {
      assert ((si - INTERVAL_STEP) * 1000.0).Floor < (si * 1000.0).Floor;
      var m := ShrinkIsFirst(phy, si - INTERVAL_STEP, ts);
      k := m + 1;
      assert After(si, k) == After(si - INTERVAL_STEP, m);
      forall j: nat | j < k
        ensures TooLong(phy, After(si, j), ts)
      {
        if j > 0 {
          assert After(si, j) == After(si - INTERVAL_STEP, j - 1);
        } else {
          assert After(si, 0) == si;
        }
      }
    } else {
      k := 0;
      assert After(si, 0) == si;
    }
  }

  /** The interval the stream would get. */
  function NewInterval(phy: Phy, s: Schedule, ts: TSpec): (si: real)
    requires GoodPhy(phy) && Known(phy, ts) && Complete(ts)
    ensures 0.0 <= si <= MaximumInterval(ts)
    ensures s.interval > 0.0 ==> si <= s.interval
  {
    var max := MaximumInterval(ts);
    Shrink(phy, if s.interval > 0.0 && s.interval < max then s.interval else max, ts)
  }

  /** addTsRequest's decision. */
  ghost predicate Admissible(phy: Phy, s: Schedule, ts: TSpec)
    requires GoodPhy(phy) && Known(phy, ts) && Usable(phy, s.admitted)
  {
    Complete(ts) &&
    var si := NewInterval(phy, s, ts);
    var cap := Txop(phy, si, ts) + TotalCap(phy, si, s.admitted);
    si > MIN_INTERVAL && cap <= CAP_LIMIT && cap / si <= EDCA_PROPORTION
  }

  ghost function Add(phy: Phy, s: Schedule, ts: TSpec): (r: Schedule)
    requires GoodPhy(phy) && Known(phy, ts) && Usable(phy, s.admitted)
  {
    if Admissible(phy, s, ts) then Schedule(NewInterval(phy, s, ts), s.admitted + [ts]) else s
  }

  /** A stream without a maximum service interval gets a seventh of its delay bound. */
  lemma MaximumIntervalIs(ts: TSpec)
    requires Complete(ts)
    ensures ts.maximumServiceInterval > 0.0 ==> MaximumInterval(ts) == ts.maximumServiceInterval
    ensures ts.maximumServiceInterval <= 0.0 ==> MaximumInterval(ts) * 7.0 == ts.delayBound
  {
  }

  /** A request that lacks a rate, a size, an allowance or any bound on the interval, or has
      its bounds the wrong way round, is refused. */
  lemma IncompleteRefused(phy: Phy, s: Schedule, ts: TSpec)
    requires GoodPhy(phy) && Known(phy, ts) && Usable(phy, s.admitted)
    requires ts.meanDataRate <= 0.0 || ts.nominalMsduSize == 0 || ts.surplusBandwidthAllowance <= 0.0
             || (ts.maximumServiceInterval <= 0.0 && ts.delayBound <= 0.0)
             || ts.maximumServiceInterval < ts.minimumServiceInterval
    ensures !Admissible(phy, s, ts) && Add(phy, s, ts) == s
  {
  }

  /** The interval is taken down from `from` by milliseconds, j of them so far, with the
      TXOP still longer than 255 units of 32 microseconds and more than 8 ms to go. */
  ghost predicate MustShrink(phy: Phy, ts: TSpec, from: real, j: nat)
    requires GoodPhy(phy) && Known(phy, ts) && Complete(ts)
  {
    var si := from - j as real * 0.001;
    si > 0.008 && Txop(phy, si, ts) > 255.0 * 0.000032
  }

  /** A complete request is granted exactly if, at the first interval that need not shrink,
      more than 8 ms are left and all TXOPs together take no more than 0.4 seconds and no
      more than 0.4 of the interval; that interval is then the current one. */
  lemma GrantedIff(phy: Phy, s: Schedule, ts: TSpec, from: real, k: nat)
    requires GoodPhy(phy) && Known(phy, ts) && Usable(phy, s.admitted) && Complete(ts)
    requires from == if 0.0 < s.interval < MaximumInterval(ts) then s.interval else MaximumInterval(ts)
    requires !MustShrink(phy, ts, from, k) && forall j: nat :: j < k ==> MustShrink(phy, ts, from, j)
    ensures var si := from - k as real * 0.001;
            && (Admissible(phy, s, ts)
                <==> si > 0.008
                     && Txop(phy, si, ts) + TotalCap(phy, si, s.admitted) <= 0.4
                     && Txop(phy, si, ts) + TotalCap(phy, si, s.admitted) <= 0.4 * si)
            && (Admissible(phy, s, ts) ==> Add(phy, s, ts) == Schedule(si, s.admitted + [ts]))
  {
    hide Txop, TotalCap, Shrink;
    var i := ShrinkIsFirst(phy, from, ts);
    SameFirst(phy, ts, from, i, k);
    var si := NewInterval(phy, s, ts);
    if si > 0.008 {
      ProportionIff(Txop(phy, si, ts) + TotalCap(phy, si, s.admitted), si);
    }
  }

  lemma SameFirst(phy: Phy, ts: TSpec, from: real, i: nat, k: nat)
    requires GoodPhy(phy) && Known(phy, ts) && Complete(ts)
    requires !TooLong(phy, After(from, i), ts) && forall j: nat :: j < i ==> TooLong(phy, After(from, j), ts)
    requires !MustShrink(phy, ts, from, k) && forall j: nat :: j < k ==> MustShrink(phy, ts, from, j)
    ensures i == k
  {
    hide Txop;
    assert TooLong(phy, After(from, k), ts) == MustShrink(phy, ts, from, k);
    assert TooLong(phy, After(from, i), ts) == MustShrink(phy, ts, from, i);
  }

  lemma ProportionIff(cap: real, si: real)
    requires si > 0.0
    ensures cap / si <= 0.4 <==> cap <= 0.4 * si
  {
    assert cap == (cap / si) * si;
  }

  // ---------------------------------------------------------------------
  // The invariant
  // ---------------------------------------------------------------------

  /** What one admitted stream may rely on at the current interval. */
  ghost predicate Served(phy: Phy, si: real, ts: TSpec)
    requires GoodPhy(phy)
  {
    && Known(phy, ts) && Complete(ts)
    && si >= 0.0
    && si <= MaximumInterval(ts)
    && Txop(phy, si, ts) <= MAX_TXOP
  }

  ghost predicate Inv(phy: Phy, s: Schedule)
    requires GoodPhy(phy)
  {
    && Usable(phy, s.admitted)
    && (s.admitted == [] ==> s.interval == 0.0)
    && (s.admitted != [] ==> s.interval > MIN_INTERVAL)
    && (forall ts :: ts in s.admitted ==> Served(phy, s.interval, ts))
    && s.interval >= 0.0
    && TotalCap(phy, s.interval, s.admitted) <= CAP_LIMIT
    && TotalCap(phy, s.interval, s.admitted) <= EDCA_PROPORTION * s.interval
  }

  lemma TotalCapSnoc(phy: Phy, si: real, streams: seq<TSpec>, ts: TSpec)
    requires GoodPhy(phy) && Usable(phy, streams) && Known(phy, ts) && Complete(ts) && si >= 0.0
    ensures Usable(phy, streams + [ts])
    ensures TotalCap(phy, si, streams + [ts]) == TotalCap(phy, si, streams) + Txop(phy, si, ts)
  {
    hide Txop;
    assert (streams + [ts])[..|streams|] == streams;
  }

  lemma ProportionBound(cap: real, si: real)
    requires si > 0.0 && cap / si <= EDCA_PROPORTION
    ensures cap <= EDCA_PROPORTION * si
  {
    assert cap == (cap / si) * si;
  }

  /** Admission keeps every promise made before. */
  lemma AddKeepsInv(phy: Phy, s: Schedule, ts: TSpec)
    requires GoodPhy(phy) && Known(phy, ts) && Inv(phy, s)
    ensures Inv(phy, Add(phy, s, ts))
    ensures s.interval > 0.0 ==> Add(phy, s, ts).interval <= s.interval
  {
    hide Txop, TotalCap, Shrink;
    if Admissible(phy, s, ts) {
      var si := NewInterval(phy, s, ts);
      TotalCapSnoc(phy, si, s.admitted, ts);
      ProportionBound(Txop(phy, si, ts) + TotalCap(phy, si, s.admitted), si);
      forall t | t in s.admitted
        ensures Served(phy, si, t)
      {
        TxopMonotonic(phy, si, s.interval, t);
      }
    }
  }

  /** The sum that the scheduler computes before deciding never exceeds the current
      interval, so its assertion holds whenever a complete request arrives. */
  lemma CapAssertionHolds(phy: Phy, s: Schedule, ts: TSpec)
    requires GoodPhy(phy) && Known(phy, ts) && Complete(ts) && Inv(phy, s)
    ensures TotalCap(phy, NewInterval(phy, s, ts), s.admitted) <= s.interval
  {
    hide Txop, Shrink;
    if s.admitted != [] {
      TotalCapMonotonic(phy, NewInterval(phy, s, ts), s.interval, s.admitted);
    }
  }

  /** setTxopLimit's 8-bit field holds the TXOP of every admitted stream. */
  lemma TxopLimitFits(phy: Phy, s: Schedule, ts: TSpec)
    requires GoodPhy(phy) && Inv(phy, s) && ts in s.admitted
    ensures 0 <= (Txop(phy, s.interval, ts) / 32.0 * 1000000.0).Floor <= 0xff
  {
    assert Served(phy, s.interval, ts);
    assert Txop(phy, s.interval, ts) >= 0.0;
  }

  ghost predicate RunKnown(phy: Phy, reqs: seq<TSpec>) {
    forall i :: 0 <= i < |reqs| ==> Known(phy, reqs[i])
  }

  ghost function AddAll(phy: Phy, s: Schedule, reqs: seq<TSpec>): (r: Schedule)
    requires GoodPhy(phy) && RunKnown(phy, reqs) && Inv(phy, s)
    decreases |reqs|
  {
    if reqs == [] then s
    else
      AddKeepsInv(phy, s, reqs[0]);
      AddAll(phy, Add(phy, s, reqs[0]), reqs[1..])
  }

  /** Over any run of requests, granted or refused, the invariant holds and the
      interval never grows once set. */
  lemma {:induction false} RunsKeepInv(phy: Phy, s: Schedule, reqs: seq<TSpec>)
    requires GoodPhy(phy) && RunKnown(phy, reqs) && Inv(phy, s)
    ensures Inv(phy, AddAll(phy, s, reqs))
    ensures s.interval > 0.0 ==> AddAll(phy, s, reqs).interval <= s.interval
    decreases |reqs|
  {
    if reqs != [] {
      AddKeepsInv(phy, s, reqs[0]);
      RunsKeepInv(phy, Add(phy, s, reqs[0]), reqs[1..]);
    }
  }

  lemma EmptyScheduleOk(phy: Phy)
    requires GoodPhy(phy)
    ensures Inv(phy, Schedule(0.0, []))
  {
  }

  // ---------------------------------------------------------------------
  // The scheduler object
  // ---------------------------------------------------------------------

  class QapScheduler {
    const phy: Phy
    var currentServiceInterval: real
    var admitted: seq<TSpec>

    ghost function State(): Schedule
      reads this
    {
      Schedule(currentServiceInterval, admitted)
    }

    ghost predicate Valid()
      reads this
    {
      GoodPhy(phy) && Inv(phy, State())
    }

    constructor (phy: Phy)
      requires GoodPhy(phy)
      ensures Valid() && State() == Schedule(0.0, []) && this.phy == phy
    {
      this.phy := phy;
      currentServiceInterval, admitted := 0.0, [];
      new;
      EmptyScheduleOk(phy);
    }

    /** calculateTotalCapTime, with its assertion. */
    method CalculateTotalCapTime(si: real) returns (capTime: real)
      requires GoodPhy(phy) && Usable(phy, admitted) && si >= 0.0
      requires TotalCap(phy, si, admitted) <= currentServiceInterval
      ensures capTime == TotalCap(phy, si, admitted)
    {
      hide Txop;
      capTime := 0.0;
      var i := 0;
      while i < |admitted|
        invariant 0 <= i <= |admitted| && Usable(phy, admitted[..i])
        invariant capTime == TotalCap(phy, si, admitted[..i])
      {
        assert admitted[i] in admitted && admitted[..i + 1] == admitted[..i] + [admitted[i]];
        TotalCapSnoc(phy, si, admitted[..i], admitted[i]);
        capTime := capTime + Txop(phy, si, admitted[i]);
        i := i + 1;
      }
      assert admitted[..i] == admitted;
      assert capTime <= currentServiceInterval;
    }

    method AddTsRequest(ts: TSpec) returns (ok: bool)
      requires Valid() && Known(phy, ts)
      modifies `currentServiceInterval, `admitted
      ensures Valid()
      ensures ok <==> Admissible(phy, old(State()), ts)
      ensures State() == Add(phy, old(State()), ts)
    {
      hide Txop, TotalCap;
      AddKeepsInv(phy, State(), ts);
      if ts.meanDataRate <= 0.0 || ts.nominalMsduSize == 0 || ts.surplusBandwidthAllowance <= 0.0
         || (ts.maximumServiceInterval <= 0.0 && ts.delayBound <= 0.0)
         || ts.maximumServiceInterval < ts.minimumServiceInterval {
        return false;
      }
      var newServiceInterval := MaximumInterval(ts);
      if currentServiceInterval > 0.0 && currentServiceInterval < newServiceInterval {
        newServiceInterval := currentServiceInterval;
      }
      var txopDuration := Txop(phy, newServiceInterval, ts);
      while txopDuration > MAX_TXOP && newServiceInterval > MIN_INTERVAL
        invariant newServiceInterval >= 0.0
        invariant txopDuration == Txop(phy, newServiceInterval, ts)
        invariant Shrink(phy, newServiceInterval, ts) == NewInterval(phy, State(), ts)
        invariant State() == old(State())
        decreases newServiceInterval * 1000.0
      {
        newServiceInterval := newServiceInterval - INTERVAL_STEP;
        txopDuration := Txop(phy, newServiceInterval, ts);
      }
      if newServiceInterval <= MIN_INTERVAL {
        return false;
      }
      CapAssertionHolds(phy, State(), ts);
      var total := CalculateTotalCapTime(newServiceInterval);
      var capTime := txopDuration + total;
      if capTime > CAP_LIMIT {
        return false;
      }
      var capProportion := capTime / newServiceInterval;
      if capProportion > EDCA_PROPORTION {
        return false;
      }
      currentServiceInterval := newServiceInterval;
      admitted := admitted + [ts];
      return true;
    }
  }
}
