/**
 The network allocation vector, kept by MacLow and copied by every channel-access
 function that listens.
 */
module Nav {
  import opened Prelude
  import opened ChannelAccess

  datatype Nav = Nav(start: real, duration: real) {
    function End(): (t: real) { start + duration }
  }

  /** A frame, announcing at its end that the medium is taken for `duration` more. */
  datatype Frame = Frame(time: real, duration: real)

  /** What a frame other than a CF-Poll does to the vector. */
  function Heard(n: Nav, f: Frame): (r: Nav)
  {
    if n.End() > f.time then
      if f.time + f.duration > n.End() then Nav(n.start, n.duration + (f.time + f.duration - n.End())) else n
    else Nav(f.time, f.duration)
  }

  function HeardAll(n: Nav, fs: seq<Frame>): (r: Nav)
    decreases |fs|
  {
    if fs == [] then n else HeardAll(Heard(n, fs[0]), fs[1..])
  }

  /** The latest end announced, `t` if none is later. */
  function LatestEnd(t: real, fs: seq<Frame>): (r: real)
    decreases |fs|
  {
    if fs == [] then t else LatestEnd(Max(t, fs[0].time + fs[0].duration), fs[1..])
  }

  /** Frames in order of time, none ending in the past. */
  ghost predicate InOrder(t: real, fs: seq<Frame>)
    decreases |fs|
  {
    fs == [] || (t < fs[0].time && fs[0].duration >= 0.0 && InOrder(fs[0].time, fs[1..]))
  }

  /** Over any run of frames the vector ends at the latest end announced, and starts
      no later than the last frame. */
  lemma {:induction false} NavIsLatest(n: Nav, t: real, fs: seq<Frame>)
    requires InOrder(t, fs) && n.start <= t
    ensures HeardAll(n, fs).End() == LatestEnd(n.End(), fs)
    decreases |fs|
  {
    if fs != [] {
      NavIsLatest(Heard(n, fs[0]), fs[0].time, fs[1..]);
    }
  }

  /** So isNavZero is true exactly when every announced end has passed. */
  lemma {:induction false} NavZeroExact(n: Nav, t: real, fs: seq<Frame>, now: real)
    requires InOrder(t, fs) && n.start <= t
    ensures HeardAll(n, fs).End() <= now
       <==> n.End() <= now && forall i :: 0 <= i < |fs| ==> fs[i].time + fs[i].duration <= now
    decreases |fs|
  {
    if fs != [] {
      NavZeroExact(Heard(n, fs[0]), fs[0].time, fs[1..], now);
      assert forall i :: 0 < i < |fs| ==> fs[i] == fs[1..][i - 1];
      assert forall i :: 0 <= i < |fs| - 1 ==> fs[1..][i] == fs[i + 1];
    }
  }

  class MacLow {
    var lastNavStart: real
    var lastNavDuration: real
    const listeners: seq<Dcf>

    ghost function N(): Nav
      reads this
    {
      Nav(lastNavStart, lastNavDuration)
    }

    /** Every listener is a proper object of its own, with an up-to-date clock. */
    ghost predicate Ready(now: real)
      reads this, listeners
    {
      && (forall i, j :: 0 <= i < j < |listeners| ==> listeners[i] != listeners[j])
      && (forall i :: 0 <= i < |listeners| ==> listeners[i].Valid() && listeners[i].backoffStart <= now)
    }

    /** The copy kept by every listener is the vector itself. */
    ghost predicate LockStep()
      reads this, listeners
    {
      forall i :: 0 <= i < |listeners| ==> listeners[i].lastNavStart == lastNavStart && listeners[i].lastNavDuration == lastNavDuration
    }

    constructor (listeners: seq<Dcf>)
      ensures N() == Nav(0.0, 0.0) && this.listeners == listeners
    {
      lastNavStart, lastNavDuration := 0.0, 0.0;
      this.listeners := listeners;
    }

    method IsNavZero(now: real) returns (zero: bool)
      ensures zero <==> N().End() <= now
    {
      zero := if lastNavStart + lastNavDuration > now then false else true;
    }

    /** notifyNav for a frame that is not a CF-Poll from the access point. */
    method NotifyNav(now: real, duration: real)
      requires Ready(now) && LockStep() && lastNavStart < now && duration >= 0.0
      modifies this`lastNavStart, this`lastNavDuration, listeners
      ensures N() == Heard(old(N()), Frame(now, duration))
      ensures Ready(now) && LockStep()
    {
      var oldNavEnd := lastNavStart + lastNavDuration;
      var newNavEnd := now + duration;
      if oldNavEnd > now {
        if newNavEnd > oldNavEnd {
          var delta := newNavEnd - oldNavEnd;
          lastNavDuration := lastNavDuration + delta;
          Extend(now, delta);
        }
      } else {
        lastNavStart, lastNavDuration := now, duration;
        Restart(now, duration);
      }
    }

    /** The loop that calls navContinue. */
    method Extend(now: real, delta: real)
      requires Ready(now)
      requires forall i :: 0 <= i < |listeners| ==>
                 listeners[i].lastNavStart == lastNavStart && listeners[i].lastNavDuration + delta == lastNavDuration
      modifies listeners
      ensures Ready(now) && LockStep()
    {
      var i := 0;
      while i < |listeners|
        invariant 0 <= i <= |listeners| && Ready(now)
        invariant forall j :: 0 <= j < i ==> listeners[j].lastNavStart == lastNavStart && listeners[j].lastNavDuration == lastNavDuration
        invariant forall j :: i <= j < |listeners| ==>
                    listeners[j].lastNavStart == lastNavStart && listeners[j].lastNavDuration + delta == lastNavDuration
      {
        listeners[i].NavContinues(now, delta);
        assert listeners[i].M().navDuration == lastNavDuration;
        i := i + 1;
      }
    }

    /** The loop that calls navStart. */
    method Restart(now: real, duration: real)
      requires Ready(now) && lastNavStart == now && lastNavDuration == duration
      modifies listeners
      ensures Ready(now) && LockStep()
    {
      var i := 0;
      while i < |listeners|
        invariant 0 <= i <= |listeners| && Ready(now)
        invariant forall j :: 0 <= j < i ==> listeners[j].lastNavStart == lastNavStart && listeners[j].lastNavDuration == lastNavDuration
      {
        listeners[i].NavStarts(now, duration);
        assert listeners[i].M().navDuration == lastNavDuration;
        i := i + 1;
      }
    }

    /** notifyNav for a CF-Poll: MacLow keeps the announced duration, the listeners
        forget theirs, so the copies agree again exactly when it is zero. */
    method NotifyCfPoll(now: real, duration: real, timerEnd: real)
      requires Ready(now) && LockStep() && lastNavStart < now && duration >= 0.0
      modifies this`lastNavStart, this`lastNavDuration, listeners
      ensures N() == Nav(now, duration) && Ready(now)
      ensures listeners != [] ==> (LockStep() <==> duration == 0.0)
    {
      lastNavStart, lastNavDuration := now, duration;
      Forget(now, timerEnd);
      assert listeners != [] ==> listeners[0].lastNavDuration == 0.0;
    }

    /** The loop that calls navReset. */
    method Forget(now: real, timerEnd: real)
      requires Ready(now)
      modifies listeners
      ensures Ready(now)
      ensures forall j :: 0 <= j < |listeners| ==> listeners[j].lastNavStart == now && listeners[j].lastNavDuration == 0.0
    {
      var i := 0;
      while i < |listeners|
        invariant 0 <= i <= |listeners| && Ready(now)
        invariant forall j :: 0 <= j < i ==> listeners[j].lastNavStart == now && listeners[j].lastNavDuration == 0.0
      {
        var act := listeners[i].NavReset(now, timerEnd);
        i := i + 1;
      }
    }
  }
}
