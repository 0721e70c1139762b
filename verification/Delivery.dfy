/**
 The sender's side of a transfer: transmissions that are acknowledged, lost or never
 answered, retries up to a limit, and fragments that follow each other as long as the
 lower layer is told to go on.
 */
module Delivery {
  import opened Prelude
  import opened Fragments

  /** What becomes of one transmission: no CTS comes back for its RTS, the data frame is
      lost, only the acknowledgement is lost, or it is acknowledged. */
  datatype Outcome = CtsLost | DataLost | AckLost | Acked

  /** How often a data frame, and an RTS, may fail. */
  datatype Limits = Limits(long: nat, short: nat)

  /** The sender's counters for the MSDU it is working on. */
  datatype Sender = Sender(fragment: nat, longRetries: nat, shortRetries: nat)

  /** An MSDU is still being sent, acknowledged to the end, dropped, or held by a sender
      that waits for a next fragment nobody will ask it for. */
  datatype Fate = Pending(sender: Sender) | Finished | GivenUp | Stalled

  /** The size announced to the lower layer for the frame after frame k, zero for none. */
  function Announced(m: Msdu, threshold: nat, k: nat): (size: nat)
    requires threshold > 0
  {
    if m.size > threshold then NextFragmentSize(m.size, threshold, k) else 0
  }

  /** gotCTS; a sender that uses no RTS has no short retries to clear. */
  function AfterCts(s: Sender): (r: Sender)
  {
    s.(shortRetries := 0)
  }

  /** What the sender does when a transmission ends, and its size announced `next`: the
      lower layer asks for the next fragment only if that is positive. */
  function AfterOutcome(s: Sender, o: Outcome, n: nat, next: nat, limits: Limits): (f: Fate)
    requires s.fragment < n
    ensures f.Pending? ==> f.sender.fragment < n
  {
    match o
    case Acked =>
      if s.fragment == n - 1 then Finished
      else if next > 0 then Pending(s.(fragment := s.fragment + 1, longRetries := 0))
      else Stalled
    case CtsLost =>
      if s.shortRetries + 1 > limits.short then GivenUp else Pending(s.(shortRetries := s.shortRetries + 1))
    case _ =>
      if s.longRetries + 1 > limits.long then GivenUp else Pending(s.(longRetries := s.longRetries + 1))
  }

  /** The same, from the start of the transmission. */
  function AfterTransmission(m: Msdu, threshold: nat, s: Sender, o: Outcome, limits: Limits): (f: Fate)
    requires threshold > 0 && s.fragment < |FramesOf(m, threshold)|
    ensures f.Pending? ==> f.sender.fragment < |FramesOf(m, threshold)|
  {
    AfterOutcome(if o.CtsLost? then s else AfterCts(s), o,
                 |FramesOf(m, threshold)|, Announced(m, threshold, s.fragment), limits)
  }

  predicate Arrives(o: Outcome) {
    o.AckLost? || o.Acked?
  }

  datatype Exchange = Exchange(fate: Fate, st: Status, up: seq<nat>)

  /** Sender and receiver together, for given outcomes of the transmissions; outcomes
      left over once the MSDU is no longer being sent are not used. */
  function Exchanged(m: Msdu, threshold: nat, limits: Limits, s: Sender, st: Status, os: seq<Outcome>): (e: Exchange)
    requires threshold > 0 && s.fragment < |FramesOf(m, threshold)|
    decreases |os|
  {
    if os == [] then Exchange(Pending(s), st, [])
    else
      var one := if Arrives(os[0]) then Receive(st, FramesOf(m, threshold)[s.fragment]) else Result(st, None);
      var up := if one.up.Some? then [one.up.value] else [];
      var next := AfterTransmission(m, threshold, s, os[0], limits);
      if next.Pending? then
        var rest := Exchanged(m, threshold, limits, next.sender, one.st, os[1..]);
        Exchange(rest.fate, rest.st, up + rest.up)
      else Exchange(next, one.st, up)
  }

  /** Seen from a receiver that had accepted j frames, exchange e brought it to i: the
      MSDU was passed up exactly if the last frame was accepted in between, all frames
      were accepted if the sender finished and not all if it stalled, and a sender still
      at fragment k faces a receiver that has accepted k frames, or k + 1 if only the
      acknowledgement was lost. */
  ghost predicate Consistent(e: Exchange, st0: Status, m: Msdu, threshold: nat, j: nat, i: nat)
    requires threshold > 0
  {
    var n := |FramesOf(m, threshold)|;
    j <= i <= n && Accepted(st0, e.st, m, threshold, i)
    && e.up == (if j < n && i == n then [m.size] else [])
    && (e.fate.Finished? ==> i == n)
    && (e.fate.Stalled? ==> i < n)
    && (e.fate.Pending? ==> e.fate.sender.fragment < n && e.fate.sender.fragment <= i <= e.fate.sender.fragment + 1)
  }

  /** One transmission of the sender's frame, to a receiver that has accepted j frames. */
  lemma OneTransmission(st0: Status, st: Status, m: Msdu, threshold: nat, s: Sender, o: Outcome, j: nat)
    requires Ready(st0, m, threshold) && s.fragment < |FramesOf(m, threshold)|
    requires s.fragment <= j <= s.fragment + 1 && Accepted(st0, st, m, threshold, j)
    ensures var one := if Arrives(o) then Receive(st, FramesOf(m, threshold)[s.fragment]) else Result(st, None);
      var i := if Arrives(o) then s.fragment + 1 else j;
      Accepted(st0, one.st, m, threshold, i)
      && one.up == if j < |FramesOf(m, threshold)| && i == |FramesOf(m, threshold)| then Some(m.size) else None
  {
    hide FramesOf, NFragments, Receive, Accepted;
    if Arrives(o) {
      if j == s.fragment {
        NextAccepted(st0, st, m, threshold, j);
      } else {
        AgainIgnored(st0, st, m, threshold, s.fragment);
      }
    }
  }

  /** Every exchange is consistent, whatever is lost. */
  lemma {:induction false} ExchangeInvariant(
      st0: Status, st: Status, m: Msdu, threshold: nat, limits: Limits, s: Sender, os: seq<Outcome>, j: nat)
    requires Ready(st0, m, threshold) && s.fragment < |FramesOf(m, threshold)|
    requires s.fragment <= j <= s.fragment + 1 && Accepted(st0, st, m, threshold, j)
    ensures exists i :: Consistent(Exchanged(m, threshold, limits, s, st, os), st0, m, threshold, j, i)
    decreases |os|
  {
    hide FramesOf, NFragments, Receive, Accepted, Announced;
    var e := Exchanged(m, threshold, limits, s, st, os);
    if os == [] {
      assert Consistent(e, st0, m, threshold, j, j);
    } else {
      var one := if Arrives(os[0]) then Receive(st, FramesOf(m, threshold)[s.fragment]) else Result(st, None);
      var i := if Arrives(os[0]) then s.fragment + 1 else j;
      OneTransmission(st0, st, m, threshold, s, os[0], j);
      var next := AfterTransmission(m, threshold, s, os[0], limits);
      if next.Pending? {
        var rest := Exchanged(m, threshold, limits, next.sender, one.st, os[1..]);
        ExchangeInvariant(st0, one.st, m, threshold, limits, next.sender, os[1..], i);
        var i' :| Consistent(rest, st0, m, threshold, i, i');
        assert Consistent(e, st0, m, threshold, j, i');
      } else {
        assert Consistent(e, st0, m, threshold, j, i);
      }
    }
  }

  /** A new MSDU, whatever is lost: it is passed up at most once and only in full; if the
      sender finishes it was passed up, and the receiver is idle again. */
  lemma AcknowledgedMeansDelivered(st: Status, m: Msdu, threshold: nat, limits: Limits, os: seq<Outcome>)
    requires Ready(st, m, threshold)
    ensures var e := Exchanged(m, threshold, limits, Sender(0, 0, 0), st, os);
      (e.up == [] || e.up == [m.size]) && (e.fate.Finished? ==> Delivered(Received(e.st, e.up), m))
  {
    hide FramesOf, NFragments;
    var e := Exchanged(m, threshold, limits, Sender(0, 0, 0), st, os);
    ExchangeInvariant(st, st, m, threshold, limits, Sender(0, 0, 0), os, 0);
    var i :| Consistent(e, st, m, threshold, 0, i);
  }

  // ---------------------------------------------------------------------
  // How often a sender tries
  // ---------------------------------------------------------------------

  /** Nothing but lost data frames and lost acknowledgements. */
  predicate AllLost(os: seq<Outcome>)
    decreases |os|
  {
    os == [] || ((os[0].DataLost? || os[0].AckLost?) && AllLost(os[1..]))
  }

  /** Nothing but requests to send that were not answered. */
  predicate AllUnanswered(os: seq<Outcome>)
    decreases |os|
  {
    os == [] || (os[0].CtsLost? && AllUnanswered(os[1..]))
  }

  /** Losses in a row: the sender tries again as long as the long limit allows. */
  lemma {:induction false} LossesCount(m: Msdu, threshold: nat, limits: Limits, s: Sender, st: Status, os: seq<Outcome>)
    requires threshold > 0 && s.fragment < |FramesOf(m, threshold)| && AllLost(os) && s.longRetries <= limits.long
    ensures var fate := Exchanged(m, threshold, limits, s, st, os).fate;
      if s.longRetries + |os| <= limits.long then fate.Pending? && fate.sender.fragment == s.fragment else fate.GivenUp?
    decreases |os|
  {
    hide FramesOf, Receive, Announced;
    if os != [] {
      var one := if Arrives(os[0]) then Receive(st, FramesOf(m, threshold)[s.fragment]) else Result(st, None);
      var next := AfterTransmission(m, threshold, s, os[0], limits);
      if next.Pending? {
        LossesCount(m, threshold, limits, next.sender, one.st, os[1..]);
      }
    }
  }

  lemma {:induction false} UnansweredCount(m: Msdu, threshold: nat, limits: Limits, s: Sender, st: Status, os: seq<Outcome>)
    requires threshold > 0 && s.fragment < |FramesOf(m, threshold)| && AllUnanswered(os) && s.shortRetries <= limits.short
    ensures var fate := Exchanged(m, threshold, limits, s, st, os).fate;
      if s.shortRetries + |os| <= limits.short then fate.Pending? && fate.sender.fragment == s.fragment else fate.GivenUp?
    decreases |os|
  {
    hide FramesOf, Receive, Announced;
    if os != [] {
      var next := AfterTransmission(m, threshold, s, os[0], limits);
      if next.Pending? {
        UnansweredCount(m, threshold, limits, next.sender, st, os[1..]);
      }
    }
  }

  /** An exchange goes on from where it was. */
  lemma {:induction false} ExchangedAppend(m: Msdu, threshold: nat, limits: Limits, s: Sender, st: Status, a: seq<Outcome>, b: seq<Outcome>)
    requires threshold > 0 && s.fragment < |FramesOf(m, threshold)|
    ensures var e := Exchanged(m, threshold, limits, s, st, a);
      && (e.fate.Pending? ==> e.fate.sender.fragment < |FramesOf(m, threshold)|)
      && Exchanged(m, threshold, limits, s, st, a + b).fate
         == if e.fate.Pending? then Exchanged(m, threshold, limits, e.fate.sender, e.st, b).fate else e.fate
    decreases |a|
  {
    hide FramesOf, Receive, Announced, AfterTransmission;
    if a == [] {
      assert a + b == b;
    } else {
      assert (a + b)[0] == a[0] && (a + b)[1..] == a[1..] + b;
      var one := if Arrives(a[0]) then Receive(st, FramesOf(m, threshold)[s.fragment]) else Result(st, None);
      var next := AfterTransmission(m, threshold, s, a[0], limits);
      if next.Pending? {
        ExchangedAppend(m, threshold, limits, next.sender, one.st, a[1..], b);
      }
    }
  }

  /** Where the counters stand after an exchange that ended with outcome o: an acknowledged
      fragment has cleared the long one, an answered request to send the short one. */
  lemma LastOutcomeCounts(m: Msdu, threshold: nat, limits: Limits, st: Status, a: seq<Outcome>, o: Outcome)
    requires threshold > 0
    ensures var fate := Exchanged(m, threshold, limits, Sender(0, 0, 0), st, a + [o]).fate;
      fate.Pending? && Exchanged(m, threshold, limits, Sender(0, 0, 0), st, a).fate.Pending? ==>
        (o.Acked? ==> fate.sender.longRetries == 0) && (!o.CtsLost? ==> fate.sender.shortRetries == 0)
  {
    hide FramesOf, Receive, Announced;
    ExchangedAppend(m, threshold, limits, Sender(0, 0, 0), st, a, [o]);
    assert [o][1..] == [];
  }

  /** From the start, and after every acknowledged fragment, the sender survives exactly
      limits.long losses in a row and gives up at the next. */
  lemma LongLimit(m: Msdu, threshold: nat, limits: Limits, st: Status, a: seq<Outcome>, os: seq<Outcome>)
    requires threshold > 0 && AllLost(os)
    requires a == [] || a[|a| - 1].Acked?
    requires Exchanged(m, threshold, limits, Sender(0, 0, 0), st, a).fate.Pending?
    ensures var fate := Exchanged(m, threshold, limits, Sender(0, 0, 0), st, a + os).fate;
      (fate.Pending? <==> |os| <= limits.long) && (fate.GivenUp? <==> |os| >= limits.long + 1)
  {
    hide FramesOf, Receive, Announced, Exchanged;
    var e := Exchanged(m, threshold, limits, Sender(0, 0, 0), st, a);
    CountersAt(m, threshold, limits, st, a);
    ExchangedAppend(m, threshold, limits, Sender(0, 0, 0), st, a, os);
    LossesCount(m, threshold, limits, e.fate.sender, e.st, os);
  }

  /** The same for unanswered requests to send, from the start and after every answer. */
  lemma ShortLimit(m: Msdu, threshold: nat, limits: Limits, st: Status, a: seq<Outcome>, os: seq<Outcome>)
    requires threshold > 0 && AllUnanswered(os)
    requires a == [] || !a[|a| - 1].CtsLost?
    requires Exchanged(m, threshold, limits, Sender(0, 0, 0), st, a).fate.Pending?
    ensures var fate := Exchanged(m, threshold, limits, Sender(0, 0, 0), st, a + os).fate;
      (fate.Pending? <==> |os| <= limits.short) && (fate.GivenUp? <==> |os| >= limits.short + 1)
  {
    hide FramesOf, Receive, Announced, Exchanged;
    var e := Exchanged(m, threshold, limits, Sender(0, 0, 0), st, a);
    CountersAt(m, threshold, limits, st, a);
    ExchangedAppend(m, threshold, limits, Sender(0, 0, 0), st, a, os);
    UnansweredCount(m, threshold, limits, e.fate.sender, e.st, os);
  }

  lemma CountersAt(m: Msdu, threshold: nat, limits: Limits, st: Status, a: seq<Outcome>)
    requires threshold > 0
    requires Exchanged(m, threshold, limits, Sender(0, 0, 0), st, a).fate.Pending?
    ensures var fate := Exchanged(m, threshold, limits, Sender(0, 0, 0), st, a).fate;
      (a == [] || a[|a| - 1].Acked? ==> fate.sender.longRetries == 0)
      && (a == [] || !a[|a| - 1].CtsLost? ==> fate.sender.shortRetries == 0)
  {
    hide FramesOf, Receive, Announced, AfterTransmission;
    if a != [] {
      var n := |a| - 1;
      assert a == a[..n] + [a[n]];
      ExchangedAppend(m, threshold, limits, Sender(0, 0, 0), st, a[..n], [a[n]]);
      LastOutcomeCounts(m, threshold, limits, st, a[..n], a[n]);
    }
  }

  // ---------------------------------------------------------------------
  // MSDUs that never get through
  // ---------------------------------------------------------------------

  /** The MSDU is fragmented and leaves nothing for the last fragment. */
  predicate ExactMultiple(m: Msdu, threshold: nat)
    requires threshold > 0
  {
    m.size > threshold && m.size % threshold == 0
  }

  /** What is announced is the size of the next frame, zero if there is none. */
  lemma AnnouncedIs(m: Msdu, threshold: nat, k: nat)
    requires threshold > 0 && k < |FramesOf(m, threshold)|
    ensures Announced(m, threshold, k)
         == if k + 1 < |FramesOf(m, threshold)| then FramesOf(m, threshold)[k + 1].size else 0
    ensures |FramesOf(m, threshold)| == 1 <==> m.size <= threshold
  {
    if m.size > threshold {
      SeveralFragments(m, threshold);
      if k + 1 < |FramesOf(m, threshold)| {
        NextSizeRight(m, threshold, k);
      }
    } else {
      Whole(m, threshold);
    }
  }

  /** The next size announced is zero exactly at the last frame, and before an empty last
      fragment. */
  lemma AnnouncedZero(m: Msdu, threshold: nat, k: nat)
    requires threshold > 0 && k < |FramesOf(m, threshold)|
    ensures Announced(m, threshold, k) == 0
       <==> k == |FramesOf(m, threshold)| - 1 || (ExactMultiple(m, threshold) && k == |FramesOf(m, threshold)| - 2)
  {
    if m.size > threshold {
      SeveralFragments(m, threshold);
    } else {
      Whole(m, threshold);
    }
  }

  /** Such an MSDU is never passed up, and its sender never finishes with it. */
  lemma {:induction false} ExactMultipleNeverDelivered(
      st0: Status, st: Status, m: Msdu, threshold: nat, limits: Limits, s: Sender, os: seq<Outcome>, j: nat)
    requires Ready(st0, m, threshold) && ExactMultiple(m, threshold) && s.fragment + 1 < |FramesOf(m, threshold)|
    requires s.fragment <= j <= s.fragment + 1 && Accepted(st0, st, m, threshold, j)
    ensures var e := Exchanged(m, threshold, limits, s, st, os);
      e.up == [] && !e.fate.Finished?
    decreases |os|
  {
    hide FramesOf, NFragments, Receive, Accepted, Announced, ExactMultiple;
    if os != [] {
      var i := if Arrives(os[0]) then s.fragment + 1 else j;
      OneTransmission(st0, st, m, threshold, s, os[0], j);
      AnnouncedZero(m, threshold, s.fragment);
      var one := if Arrives(os[0]) then Receive(st, FramesOf(m, threshold)[s.fragment]) else Result(st, None);
      var next := AfterTransmission(m, threshold, s, os[0], limits);
      if next.Pending? {
        ExactMultipleNeverDelivered(st0, one.st, m, threshold, limits, next.sender, os[1..], i);
      }
    }
  }

  /** All transmissions acknowledged. */
  predicate AllAcked(os: seq<Outcome>)
    decreases |os|
  {
    os == [] || (os[0].Acked? && AllAcked(os[1..]))
  }

  /** Without any loss, the sender finishes exactly if the last fragment is not empty. */
  lemma {:induction false} LosslessFinishes(m: Msdu, threshold: nat, limits: Limits, s: Sender, st: Status, os: seq<Outcome>)
    requires threshold > 0 && !ExactMultiple(m, threshold)
    requires s.fragment < |FramesOf(m, threshold)| && AllAcked(os) && |os| == |FramesOf(m, threshold)| - s.fragment
    ensures Exchanged(m, threshold, limits, s, st, os).fate.Finished?
    decreases |os|
  {
    hide FramesOf, Receive, Announced, ExactMultiple;
    AnnouncedZero(m, threshold, s.fragment);
    var next := AfterTransmission(m, threshold, s, os[0], limits);
    if next.Pending? {
      LosslessFinishes(m, threshold, limits, next.sender, Receive(st, FramesOf(m, threshold)[s.fragment]).st, os[1..]);
    }
  }

  /** So an MSDU can get through at all if and only if it is sent whole or its last
      fragment is not empty. */
  lemma CanGetThroughIff(st: Status, m: Msdu, threshold: nat, limits: Limits)
    requires Ready(st, m, threshold)
    ensures (exists os :: Exchanged(m, threshold, limits, Sender(0, 0, 0), st, os).fate.Finished?)
       <==> !ExactMultiple(m, threshold)
    ensures (exists os :: Exchanged(m, threshold, limits, Sender(0, 0, 0), st, os).up != [])
       <==> !ExactMultiple(m, threshold)
  {
    hide Exchanged, ExactMultiple;
    if ExactMultiple(m, threshold) {
      EnoughFrames(m, threshold);
      forall os
        ensures var e := Exchanged(m, threshold, limits, Sender(0, 0, 0), st, os); e.up == [] && !e.fate.Finished?
      {
        ExactMultipleNeverDelivered(st, st, m, threshold, limits, Sender(0, 0, 0), os, 0);
      }
    } else {
      var os := Acks(|FramesOf(m, threshold)|);
      LosslessFinishes(m, threshold, limits, Sender(0, 0, 0), st, os);
      AcknowledgedMeansDelivered(st, m, threshold, limits, os);
      assert Exchanged(m, threshold, limits, Sender(0, 0, 0), st, os).fate.Finished?;
    }
  }

  lemma EnoughFrames(m: Msdu, threshold: nat)
    requires threshold > 0 && ExactMultiple(m, threshold)
    ensures |FramesOf(m, threshold)| >= 2
  {
    SeveralFragments(m, threshold);
  }

  function Acks(n: nat): (os: seq<Outcome>)
    ensures |os| == n && AllAcked(os)
  {
    if n == 0 then [] else [Acked] + Acks(n - 1)
  }

  // ---------------------------------------------------------------------
  // Sessions
  // ---------------------------------------------------------------------

  /** An MSDU and what becomes of its transmissions. */
  datatype Attempt = Attempt(m: Msdu, outcomes: seq<Outcome>)

  /** A session: one MSDU after the other. */
  function SessionUp(st: Status, attempts: seq<Attempt>, threshold: nat, limits: Limits): (up: seq<nat>)
    requires threshold > 0
    decreases |attempts|
  {
    if attempts == [] then []
    else
      var e := Exchanged(attempts[0].m, threshold, limits, Sender(0, 0, 0), st, attempts[0].outcomes);
      e.up + SessionUp(e.st, attempts[1..], threshold, limits)
  }

  /** Every MSDU is within the size limit, numbered unlike the one before it, and ends
      up acknowledged. */
  ghost predicate AllAcknowledged(st: Status, attempts: seq<Attempt>, threshold: nat, limits: Limits)
    requires threshold > 0
    decreases |attempts|
  {
    attempts == []
    || (var a := attempts[0];
        var e := Exchanged(a.m, threshold, limits, Sender(0, 0, 0), st, a.outcomes);
        a.m.size <= MAX_MSDU_SIZE && a.m.sequence % 4096 != st.lastSequenceControl / 16 && e.fate.Finished?
        && AllAcknowledged(e.st, attempts[1..], threshold, limits))
  }

  function AttemptSizes(attempts: seq<Attempt>): (r: seq<nat>)
    decreases |attempts|
  {
    if attempts == [] then [] else [attempts[0].m.size] + AttemptSizes(attempts[1..])
  }

  /** Over a lossy channel a session of acknowledged MSDUs is passed up complete, in
      order and without repetition. */
  lemma {:induction false} SessionDelivered(st: Status, attempts: seq<Attempt>, threshold: nat, limits: Limits)
    requires MAX_MSDU_SIZE / 16 < threshold && !st.deFragmenting
    requires AllAcknowledged(st, attempts, threshold, limits)
    ensures SessionUp(st, attempts, threshold, limits) == AttemptSizes(attempts)
    decreases |attempts|
  {
    hide Exchanged, FramesOf;
    if attempts != [] {
      var a := attempts[0];
      AtMost16(a.m.size, threshold);
      AcknowledgedMeansDelivered(st, a.m, threshold, limits, a.outcomes);
      var e := Exchanged(a.m, threshold, limits, Sender(0, 0, 0), st, a.outcomes);
      SessionDelivered(e.st, attempts[1..], threshold, limits);
    }
  }

  // ---------------------------------------------------------------------
  // The sender's object
  // ---------------------------------------------------------------------

  /** An MSDU in the queue. */
  datatype Queued = Queued(size: nat, broadcast: bool)

  /** What the lower layer is told to send: the frame, whether after an RTS, whether an
      acknowledgement is expected, and the size of the frame to follow, zero for none. */
  datatype Transmission = Transmission(frame: Frame, rts: bool, ack: bool, next: nat)

  class DcaTxop {
    const threshold: nat
    const rtsThreshold: nat
    const limits: Limits
    var current: Option<Msdu>
    var fragmentNumber: nat
    var longRetries: nat
    var shortRetries: nat

    ghost predicate Valid()
      reads this
    {
      threshold > 0 && (current.Some? ==> fragmentNumber < |FramesOf(current.value, threshold)|)
    }

    ghost function Counters(): Sender
      reads this
    {
      Sender(fragmentNumber, longRetries, shortRetries)
    }

    /** The transmission of frame k of m. */
    ghost function Sent(m: Msdu, k: nat): Transmission
      requires threshold > 0 && k < |FramesOf(m, threshold)|
    {
      Transmission(FramesOf(m, threshold)[k], m.size <= threshold && m.size > rtsThreshold, true, Announced(m, threshold, k))
    }

    constructor (threshold: nat, rtsThreshold: nat, limits: Limits)
      requires threshold > 0
      ensures Valid() && current.None?
      ensures this.threshold == threshold && this.rtsThreshold == rtsThreshold && this.limits == limits
    {
      this.threshold, this.rtsThreshold, this.limits := threshold, rtsThreshold, limits;
      current, fragmentNumber, longRetries, shortRetries := None, 0, 0, 0;
    }

    /** isLastFragment, where an unfragmented MSDU counts as its own last fragment. */
    method IsLast() returns (last: bool)
      requires Valid() && current.Some?
      ensures last <==> fragmentNumber == |FramesOf(current.value, threshold)| - 1
    {
      last := !(current.value.size > threshold) || fragmentNumber == current.value.size / threshold + 1 - 1;
    }

    /** What is set up for the frame in hand. */
    method CurrentTransmission() returns (t: Transmission)
      requires Valid() && current.Some?
      ensures t == Sent(current.value, fragmentNumber)
      ensures t.frame == FramesOf(current.value, threshold)[fragmentNumber] && t.ack
      ensures t.rts <==> |FramesOf(current.value, threshold)| == 1 && current.value.size > rtsThreshold
      ensures t.next == if fragmentNumber + 1 < |FramesOf(current.value, threshold)|
                        then FramesOf(current.value, threshold)[fragmentNumber + 1].size else 0
    {
      AnnouncedIs(current.value, threshold, fragmentNumber);
      var m := current.value;
      if m.size > threshold {
        var last := IsLast();
        if last {
          t := Transmission(Frame(SequenceControl(m.sequence, fragmentNumber), false, m.size % threshold), false, true, 0);
        } else {
          t := Transmission(Frame(SequenceControl(m.sequence, fragmentNumber), true, threshold), false, true,
                            NextFragmentSize(m.size, threshold, fragmentNumber));
        }
      } else {
        t := Transmission(Frame(SequenceControl(m.sequence, 0), false, m.size), m.size > rtsThreshold, true, 0);
      }
    }

    /** accessGrantedNow: (re)transmit the frame in hand, or take the next MSDU; a
        broadcast goes out whole and is forgotten. */
    method AccessGrantedNow(queue: seq<Queued>, sequence: nat) returns (sent: Option<Transmission>, rest: seq<Queued>)
      requires Valid()
      modifies this
      ensures Valid()
      ensures old(current.Some?) ==> current == old(current) && Counters() == old(Counters()) && rest == queue
      ensures old(current.None?) && queue == [] ==> current.None? && sent.None? && rest == []
      ensures old(current.None?) && queue != [] ==> Counters() == Sender(0, 0, 0) && rest == queue[1..]
      ensures old(current.None?) && queue != [] && !queue[0].broadcast ==> current == Some(Msdu(sequence, queue[0].size))
      ensures old(current.None?) && queue != [] && queue[0].broadcast ==>
        current.None? && sent == Some(Transmission(Frame(SequenceControl(sequence, 0), false, queue[0].size), false, false, 0))
      ensures current.Some? ==> sent == Some(Sent(current.value, fragmentNumber))
    {
      rest := queue;
      if current.None? {
        if queue == [] {
          return None, rest;
        }
        rest := queue[1..];
        shortRetries, longRetries, fragmentNumber := 0, 0, 0;
        if queue[0].broadcast {
          return Some(Transmission(Frame(SequenceControl(sequence, 0), false, queue[0].size), false, false, 0)), rest;
        }
        current := Some(Msdu(sequence, queue[0].size));
      }
      var t := CurrentTransmission();
      sent := Some(t);
    }

    method GotCts()
      requires Valid() && current.Some?
      modifies `shortRetries
      ensures Valid() && Counters() == AfterCts(old(Counters()))
    {
      shortRetries := 0;
    }

    method MissedCts() returns (gaveUp: bool)
      requires Valid() && current.Some?
      modifies this
      ensures Valid()
      ensures Became(if gaveUp then GivenUp else Pending(Counters()), old(Counters()), CtsLost, old(current).value)
      ensures Counters() == old(Counters()).(shortRetries := old(shortRetries) + 1) && (gaveUp <==> shortRetries > limits.short)
      ensures current == if gaveUp then None else old(current)
    {
      shortRetries := shortRetries + 1;
      gaveUp := shortRetries > limits.short;
      if gaveUp {
        current := None;
      }
    }

    /** The fate of m after this outcome for a sender with counters s. */
    ghost predicate Became(f: Fate, s: Sender, o: Outcome, m: Msdu)
    {
      threshold > 0 && s.fragment < |FramesOf(m, threshold)|
      && f == AfterOutcome(s, o, |FramesOf(m, threshold)|, Announced(m, threshold, s.fragment), limits)
    }

    method GotAck() returns (finished: bool)
      requires Valid() && current.Some?
      modifies this
      ensures Valid()
      ensures finished <==> old(fragmentNumber) == |FramesOf(old(current).value, threshold)| - 1
      ensures current == if finished then None else old(current)
      ensures Counters() == old(Counters()).(longRetries := 0)
    {
      longRetries := 0;
      finished := IsLast();
      if finished {
        current := None;
      }
    }

    /** startNext. */
    method StartNext() returns (t: Transmission)
      requires Valid() && current.Some? && fragmentNumber + 1 < |FramesOf(current.value, threshold)|
      modifies `fragmentNumber
      ensures Valid() && fragmentNumber == old(fragmentNumber) + 1
      ensures t == Sent(current.value, fragmentNumber)
    {
      fragmentNumber := fragmentNumber + 1;
      t := CurrentTransmission();
    }

    /** The lower layer has received an acknowledgement, `next` being the size announced
        with the frame: it reports it, and asks for the next frame if that is positive. */
    method AckReceived(next: nat) returns (fate: Fate, t: Option<Transmission>)
      requires Valid() && current.Some? && next == Announced(current.value, threshold, fragmentNumber)
      modifies this
      ensures Valid()
      ensures Became(fate, old(Counters()), Acked, old(current).value)
      ensures current == if fate.Finished? then None else old(current)
      ensures fate.Pending? ==> fate.sender == Counters() && t == Some(Sent(current.value, fragmentNumber))
      ensures !fate.Pending? ==> t == None
    {
      AnnouncedZero(current.value, threshold, fragmentNumber);
      var finished := GotAck();
      if next > 0 {
        var f := StartNext();
        return Pending(Sender(fragmentNumber, longRetries, shortRetries)), Some(f);
      }
      return if finished then Finished else Stalled, None;
    }

    method MissedAck() returns (gaveUp: bool)
      requires Valid() && current.Some?
      modifies this
      ensures Valid()
      ensures Became(if gaveUp then GivenUp else Pending(Counters()), old(Counters()), AckLost, old(current).value)
      ensures Counters() == old(Counters()).(longRetries := old(longRetries) + 1) && (gaveUp <==> longRetries > limits.long)
      ensures current == if gaveUp then None else old(current)
    {
      longRetries := longRetries + 1;
      gaveUp := longRetries > limits.long;
      if gaveUp {
        current := None;
      }
    }
  }
}
