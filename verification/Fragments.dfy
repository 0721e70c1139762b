/**
 Fragmentation of an MSDU by the sender, and duplicate detection and reassembly by
 the receiver.
 */
module Fragments {
  import opened Prelude

  /** A data frame as the receiver's middle layer sees it. */
  datatype Frame = Frame(sequenceControl: nat, moreFragments: bool, size: nat)

  /** setSequenceNumber, then setFragmentNumber: each ORs its number into the 16-bit
      field, which starts cleared. */
  function SequenceControl(sequence: nat, fragment: nat): (sc: nat)
    ensures sc < 0x10000 && sc / 16 == sequence % 4096 && sc % 16 == fragment % 16
  {
    FieldFits(sequence, fragment);
    Or(Or(0, sequence * 16) % 0x10000, fragment % 16)
  }

  lemma FieldFits(sequence: nat, fragment: nat)
    ensures Or(Or(0, sequence * 16) % 0x10000, fragment % 16) == sequence % 4096 * 16 + fragment % 16
  {
    hide Or;
    assert Or(0, sequence * 16) == sequence * 16 by {
      OrZero(sequence * 16);
    }
    assert sequence * 16 == sequence / 4096 * 0x10000 + sequence % 4096 * 16;
    OrNibble(sequence % 4096, fragment % 16);
  }

  lemma OrZero(v: nat)
    ensures Or(0, v) == v
  {
  }

  // ---------------------------------------------------------------------
  // The sender
  // ---------------------------------------------------------------------

  function NFragments(size: nat, threshold: nat): (n: nat)
    requires threshold > 0
  {
    size / threshold + 1
  }

  function LastFragmentSize(size: nat, threshold: nat): (s: nat)
    requires threshold > 0
  {
    size % threshold
  }

  function FragmentSize(size: nat, threshold: nat, k: nat): (s: nat)
    requires threshold > 0
  {
    if k == NFragments(size, threshold) - 1 then LastFragmentSize(size, threshold) else threshold
  }

  /** getFragmentPacket. */
  function Fragment(sequence: nat, size: nat, threshold: nat, k: nat): (f: Frame)
    requires threshold > 0
  {
    Frame(SequenceControl(sequence, k), k != NFragments(size, threshold) - 1, FragmentSize(size, threshold, k))
  }

  /** getNextFragmentSize. */
  function NextFragmentSize(size: nat, threshold: nat, k: nat): (s: nat)
    requires threshold > 0
  {
    if k == NFragments(size, threshold) - 1 then 0
    else if k + 1 == NFragments(size, threshold) - 1 then LastFragmentSize(size, threshold)
    else threshold
  }

  /** An MSDU with its sequence number. */
  datatype Msdu = Msdu(sequence: nat, size: nat)

  /** The frames sent for an MSDU: whole if it fits, else fragment by fragment. */
  function FramesOf(m: Msdu, threshold: nat): (fs: seq<Frame>)
    requires threshold > 0
    ensures fs != []
  {
    if m.size > threshold then seq(NFragments(m.size, threshold), k requires 0 <= k => Fragment(m.sequence, m.size, threshold, k))
    else [Frame(SequenceControl(m.sequence, 0), false, m.size)]
  }

  function TotalSize(fs: seq<Frame>): (s: nat)
  {
    if fs == [] then 0 else TotalSize(fs[..|fs| - 1]) + fs[|fs| - 1].size
  }

  lemma FrameAt(m: Msdu, threshold: nat, k: nat)
    requires 0 < threshold < m.size && k < NFragments(m.size, threshold)
    ensures |FramesOf(m, threshold)| == NFragments(m.size, threshold) >= 2
    ensures FramesOf(m, threshold)[k] == Fragment(m.sequence, m.size, threshold, k)
  {
  }

  lemma SeveralFragments(m: Msdu, threshold: nat)
    requires 0 < threshold < m.size
    ensures |FramesOf(m, threshold)| == NFragments(m.size, threshold) >= 2
  {
  }

  lemma OneMore(fs: seq<Frame>, k: nat)
    requires 0 < k <= |fs|
    ensures TotalSize(fs[..k]) == TotalSize(fs[..k - 1]) + fs[k - 1].size
  {
    assert fs[..k][..k - 1] == fs[..k - 1];
  }

  lemma {:induction false} PrefixSize(m: Msdu, threshold: nat, k: nat)
    requires 0 < threshold < m.size && k < NFragments(m.size, threshold)
    ensures k <= |FramesOf(m, threshold)|
    ensures TotalSize(FramesOf(m, threshold)[..k]) == k * threshold
  {
    hide FramesOf, NFragments, LastFragmentSize, SequenceControl, TotalSize;
    SeveralFragments(m, threshold);
    if k == 0 {
      NoSize(FramesOf(m, threshold)[..k]);
    } else {
      FrameAt(m, threshold, k - 1);
      PrefixSize(m, threshold, k - 1);
      OneMore(FramesOf(m, threshold), k);
      assert (k - 1) * threshold + threshold == k * threshold;
    }
  }

  lemma NoSize(fs: seq<Frame>)
    requires fs == []
    ensures TotalSize(fs) == 0
  {
  }

  /** Nothing is lost or added by cutting. */
  lemma SizesAddUp(m: Msdu, threshold: nat)
    requires threshold > 0
    ensures TotalSize(FramesOf(m, threshold)) == m.size
  {
    hide FramesOf, SequenceControl, TotalSize, NFragments, LastFragmentSize;
    var fs := FramesOf(m, threshold);
    if m.size > threshold {
      SeveralFragments(m, threshold);
      var n := |fs|;
      FrameAt(m, threshold, n - 1);
      PrefixSize(m, threshold, n - 1);
      OneMore(fs, n);
      assert fs[..n] == fs;
      FullAndLast(m.size, threshold);
    } else {
      Whole(m, threshold);
      OneMore(fs, 1);
      assert fs[..1] == fs;
      NoSize(fs[..0]);
    }
  }

  lemma FullAndLast(size: nat, threshold: nat)
    requires threshold > 0
    ensures (NFragments(size, threshold) - 1) * threshold + LastFragmentSize(size, threshold) == size
  {
  }

  lemma Whole(m: Msdu, threshold: nat)
    requires 0 < threshold && m.size <= threshold
    ensures FramesOf(m, threshold) == [Frame(SequenceControl(m.sequence, 0), false, m.size)]
  {
  }

  /** A threshold above a sixteenth of the largest MSDU gives at most 16 fragments. */
  lemma AtMost16(size: nat, threshold: nat)
    requires size <= MAX_MSDU_SIZE && MAX_MSDU_SIZE / 16 < threshold
    ensures NFragments(size, threshold) <= 16
  {
    assert size < 16 * threshold;
    var q := size / threshold;
    assert q * threshold <= size;
    assert (16 - q) * threshold > 0;
  }

  /** The size announced for the next frame is the size of the next frame. */
  lemma NextSizeRight(m: Msdu, threshold: nat, k: nat)
    requires threshold > 0 && m.size > threshold && k + 1 < NFragments(m.size, threshold)
    ensures NextFragmentSize(m.size, threshold, k) == FramesOf(m, threshold)[k + 1].size
  {
  }

  // ---------------------------------------------------------------------
  // The receiver
  // ---------------------------------------------------------------------

  datatype Status = Status(deFragmenting: bool, lastSequenceControl: nat, rxSize: nat)

  predicate IsNextFragment(st: Status, sc: nat) {
    sc / 16 == st.lastSequenceControl / 16 && sc % 16 == st.lastSequenceControl % 16 + 1
  }

  /** What happens to one received frame: the new status and the size passed up, if any. */
  datatype Result = Result(st: Status, up: Option<nat>)

  function Receive(st: Status, f: Frame): (r: Result)
  {
    if st.lastSequenceControl == f.sequenceControl then Result(st, None)
    else if st.deFragmenting then
      if !IsNextFragment(st, f.sequenceControl) then Result(st, None)
      else if f.moreFragments then
        Result(Status(true, f.sequenceControl, st.rxSize + f.size), None)
      else
        Result(Status(false, f.sequenceControl, st.rxSize + f.size), Some(st.rxSize + f.size))
    else if f.moreFragments then Result(Status(true, f.sequenceControl, f.size), None)
    else Result(st.(lastSequenceControl := f.sequenceControl), Some(f.size))
  }

  datatype Received = Received(st: Status, up: seq<nat>)

  /** A run of frames. */
  function ReceiveAll(st: Status, fs: seq<Frame>): (r: Received)
    decreases |fs|
  {
    if fs == [] then Received(st, [])
    else
      var one := Receive(st, fs[0]);
      var rest := ReceiveAll(one.st, fs[1..]);
      Received(rest.st, (if one.up.Some? then [one.up.value] else []) + rest.up)
  }

  lemma {:induction false} ReceiveAppend(st: Status, a: seq<Frame>, b: seq<Frame>)
    ensures ReceiveAll(st, a + b)
         == var x := ReceiveAll(st, a); var y := ReceiveAll(x.st, b); Received(y.st, x.up + y.up)
    decreases |a|
  {
    if a == [] {
      assert a + b == b;
    } else {
      assert (a + b)[1..] == a[1..] + b;
      ReceiveAppend(Receive(st, a[0]).st, a[1..], b);
    }
  }

  /** A frame and its retransmissions. */
  function Copies(f: Frame, n: nat): (fs: seq<Frame>)
  {
    seq(n, i => f)
  }

  /** Every frame of fs in order, the i-th sent 1 + again[i] times. */
  function Repeated(fs: seq<Frame>, again: seq<nat>): (r: seq<Frame>)
    requires |fs| == |again|
    decreases |fs|
  {
    if fs == [] then []
    else Repeated(fs[..|fs| - 1], again[..|fs| - 1]) + Copies(fs[|fs| - 1], 1 + again[|fs| - 1])
  }

  /** Retransmissions of the frame received last are dropped. */
  lemma {:induction false} DuplicatesDropped(st: Status, f: Frame, n: nat)
    requires st.lastSequenceControl == f.sequenceControl
    ensures ReceiveAll(st, Copies(f, n)) == Received(st, [])
  {
    if n > 0 {
      assert Copies(f, n)[1..] == Copies(f, n - 1);
      DuplicatesDropped(st, f, n - 1);
    }
  }

  /** A frame that is not dropped, then its retransmissions. */
  lemma CopiesReceived(st: Status, f: Frame, n: nat)
    requires Receive(st, f).st.lastSequenceControl == f.sequenceControl
    ensures ReceiveAll(st, Copies(f, 1 + n))
         == var one := Receive(st, f); Received(one.st, if one.up.Some? then [one.up.value] else [])
  {
    assert Copies(f, 1 + n)[1..] == Copies(f, n);
    DuplicatesDropped(Receive(st, f).st, f, n);
  }

  /** After k > 0 fragments the receiver is collecting, with their sizes so far. */
  lemma {:induction false} Collecting(st: Status, m: Msdu, threshold: nat, again: seq<nat>, k: nat)
    requires 0 < threshold < m.size && NFragments(m.size, threshold) <= 16
    requires 0 < k < NFragments(m.size, threshold) && |again| == k <= |FramesOf(m, threshold)|
    requires !st.deFragmenting && st.lastSequenceControl != SequenceControl(m.sequence, 0)
    ensures ReceiveAll(st, Repeated(FramesOf(m, threshold)[..k], again))
         == Received(Status(true, SequenceControl(m.sequence, k - 1), TotalSize(FramesOf(m, threshold)[..k])), [])
  {
    hide FramesOf, NFragments, ReceiveAll, SequenceControl;
    var fs := FramesOf(m, threshold);
    FrameAt(m, threshold, k - 1);
    var f := fs[k - 1];
    assert fs[..k][..k - 1] == fs[..k - 1] && fs[..k][k - 1] == f;
    var before := Repeated(fs[..k - 1], again[..k - 1]);
    ReceiveAppend(st, before, Copies(f, 1 + again[k - 1]));
    if k == 1 {
      NothingReceived(st, before);
      CopiesReceived(st, f, again[0]);
    } else {
      Collecting(st, m, threshold, again[..k - 1], k - 1);
      var mid := Status(true, SequenceControl(m.sequence, k - 2), TotalSize(fs[..k - 1]));
      CopiesReceived(mid, f, again[k - 1]);
    }
  }

  lemma NothingReceived(st: Status, fs: seq<Frame>)
    requires fs == []
    ensures ReceiveAll(st, fs) == Received(st, [])
  {
  }

  /** What the receiver should be left with after an MSDU. */
  ghost predicate Delivered(r: Received, m: Msdu) {
    r.up == [m.size] && !r.st.deFragmenting && r.st.lastSequenceControl / 16 == m.sequence % 4096
  }

  lemma FragmentedRoundTrip(st: Status, m: Msdu, threshold: nat, again: seq<nat>)
    requires 0 < threshold < m.size && NFragments(m.size, threshold) <= 16 && |again| == |FramesOf(m, threshold)|
    requires !st.deFragmenting && st.lastSequenceControl != SequenceControl(m.sequence, 0)
    ensures Delivered(ReceiveAll(st, Repeated(FramesOf(m, threshold), again)), m)
  {
    hide FramesOf, ReceiveAll, NFragments, Copies, TotalSize, Receive;
    SeveralFragments(m, threshold);
    var fs := FramesOf(m, threshold);
    var n := |fs|;
    Collecting(st, m, threshold, again[..n - 1], n - 1);
    ReceiveAppend(st, Repeated(fs[..n - 1], again[..n - 1]), Copies(fs[n - 1], 1 + again[n - 1]));
    var mid := Status(true, SequenceControl(m.sequence, n - 2), TotalSize(fs[..n - 1]));
    LastFrame(mid, m, threshold);
    CopiesReceived(mid, fs[n - 1], again[n - 1]);
  }

  lemma LastFrame(mid: Status, m: Msdu, threshold: nat)
    requires 0 < threshold < m.size && NFragments(m.size, threshold) <= 16
    requires |FramesOf(m, threshold)| == NFragments(m.size, threshold) >= 2
    requires var n := |FramesOf(m, threshold)|;
      mid == Status(true, SequenceControl(m.sequence, n - 2), TotalSize(FramesOf(m, threshold)[..n - 1]))
    ensures var n := |FramesOf(m, threshold)|;
      Receive(mid, FramesOf(m, threshold)[n - 1])
        == Result(Status(false, SequenceControl(m.sequence, n - 1), m.size), Some(m.size))
    ensures var n := |FramesOf(m, threshold)|;
      FramesOf(m, threshold)[n - 1].sequenceControl == SequenceControl(m.sequence, n - 1)
  {
    hide FramesOf, NFragments, SequenceControl;
    FrameAt(m, threshold, |FramesOf(m, threshold)| - 1);
    SizesAddUp(m, threshold);
  }

  lemma WholeRoundTrip(st: Status, m: Msdu, threshold: nat, again: seq<nat>)
    requires 0 < threshold && m.size <= threshold && |again| == |FramesOf(m, threshold)|
    requires !st.deFragmenting && st.lastSequenceControl != SequenceControl(m.sequence, 0)
    ensures Delivered(ReceiveAll(st, Repeated(FramesOf(m, threshold), again)), m)
  {
    hide FramesOf, ReceiveAll, SequenceControl, Repeated;
    Whole(m, threshold);
    var f := FramesOf(m, threshold)[0];
    OneRepeated(f, again);
    SequenceAny(m.sequence, 0);
    CopiesReceived(st, f, again[0]);
  }

  lemma OneRepeated(f: Frame, again: seq<nat>)
    requires |again| == 1
    ensures Repeated([f], again) == Copies(f, 1 + again[0])
  {
    assert Repeated([f][..0], again[..0]) == [];
  }

  lemma SequenceAny(sequence: nat, k: nat)
    ensures SequenceControl(sequence, k) / 16 == sequence % 4096
  {
  }

  /** One MSDU, each frame sent any number of times: passed up once, in full. */
  lemma MsduRoundTrip(st: Status, m: Msdu, threshold: nat, again: seq<nat>)
    requires threshold > 0 && NFragments(m.size, threshold) <= 16 && |again| == |FramesOf(m, threshold)|
    requires !st.deFragmenting && st.lastSequenceControl != SequenceControl(m.sequence, 0)
    ensures Delivered(ReceiveAll(st, Repeated(FramesOf(m, threshold), again)), m)
  {
    if m.size > threshold {
      FragmentedRoundTrip(st, m, threshold, again);
    } else {
      WholeRoundTrip(st, m, threshold, again);
    }
  }

  // ---------------------------------------------------------------------
  // Streams
  // ---------------------------------------------------------------------

  /** One MSDU as it goes over the air. */
  datatype Sending = Sending(m: Msdu, again: seq<nat>)

  ghost predicate Sendable(s: Sending, threshold: nat)
    requires threshold > 0
  {
    s.m.size <= MAX_MSDU_SIZE && |s.again| == |FramesOf(s.m, threshold)|
  }

  function OnAir(ss: seq<Sending>, threshold: nat): (fs: seq<Frame>)
    requires threshold > 0 && forall i :: 0 <= i < |ss| ==> Sendable(ss[i], threshold)
    decreases |ss|
  {
    if ss == [] then []
    else
      assert Sendable(ss[0], threshold);
      Repeated(FramesOf(ss[0].m, threshold), ss[0].again) + OnAir(ss[1..], threshold)
  }

  function Sizes(ss: seq<Sending>): (r: seq<nat>)
    decreases |ss|
  {
    if ss == [] then [] else [ss[0].m.size] + Sizes(ss[1..])
  }

  /** Each MSDU has another sequence number than the one before it. */
  ghost predicate Distinct(last: nat, ss: seq<Sending>)
    decreases |ss|
  {
    ss == [] || (ss[0].m.sequence % 4096 != last && Distinct(ss[0].m.sequence % 4096, ss[1..]))
  }

  /** Any stream of MSDUs, cut at any admissible threshold and retransmitted at will,
      is passed up complete, in order and without repetition. */
  lemma {:induction false} StreamRoundTrip(st: Status, ss: seq<Sending>, threshold: nat)
    requires MAX_MSDU_SIZE / 16 < threshold && forall i :: 0 <= i < |ss| ==> Sendable(ss[i], threshold)
    requires !st.deFragmenting && Distinct(st.lastSequenceControl / 16, ss)
    ensures ReceiveAll(st, OnAir(ss, threshold)).up == Sizes(ss)
    decreases |ss|
  {
    if ss != [] {
      var first := Repeated(FramesOf(ss[0].m, threshold), ss[0].again);
      AtMost16(ss[0].m.size, threshold);
      MsduRoundTrip(st, ss[0].m, threshold, ss[0].again);
      ReceiveAppend(st, first, OnAir(ss[1..], threshold));
      StreamRoundTrip(ReceiveAll(st, first).st, ss[1..], threshold);
    }
  }

  // ---------------------------------------------------------------------
  // Frame by frame
  // ---------------------------------------------------------------------

  /** The receiver, idle at st0 before the MSDU, has accepted its first j frames. */
  ghost predicate Accepted(st0: Status, st: Status, m: Msdu, threshold: nat, j: nat)
    requires threshold > 0 && j <= |FramesOf(m, threshold)|
  {
    if j == 0 then st == st0 else (
      st.lastSequenceControl == SequenceControl(m.sequence, j - 1)
      && st.deFragmenting == (j < |FramesOf(m, threshold)|)
      && (st.deFragmenting ==> st.rxSize == TotalSize(FramesOf(m, threshold)[..j])))
  }

  ghost predicate Ready(st0: Status, m: Msdu, threshold: nat) {
    threshold > 0 && NFragments(m.size, threshold) <= 16
    && !st0.deFragmenting && st0.lastSequenceControl != SequenceControl(m.sequence, 0)
  }

  /** The next frame is accepted, and passed up with the full size if it is the last. */
  lemma NextAccepted(st0: Status, st: Status, m: Msdu, threshold: nat, j: nat)
    requires Ready(st0, m, threshold) && j < |FramesOf(m, threshold)| && Accepted(st0, st, m, threshold, j)
    ensures var r := Receive(st, FramesOf(m, threshold)[j]);
      Accepted(st0, r.st, m, threshold, j + 1)
      && r.up == if j + 1 == |FramesOf(m, threshold)| then Some(m.size) else None
  {
    if m.size <= threshold {
      Whole(m, threshold);
    } else {
      NextFragmentAccepted(st0, st, m, threshold, j);
    }
  }

  lemma NextFragmentAccepted(st0: Status, st: Status, m: Msdu, threshold: nat, j: nat)
    requires Ready(st0, m, threshold) && threshold < m.size
    requires j < |FramesOf(m, threshold)| && Accepted(st0, st, m, threshold, j)
    ensures var r := Receive(st, FramesOf(m, threshold)[j]);
      Accepted(st0, r.st, m, threshold, j + 1)
      && r.up == if j + 1 == |FramesOf(m, threshold)| then Some(m.size) else None
  {
    hide FramesOf, NFragments, SequenceControl, TotalSize;
    var fs := FramesOf(m, threshold);
    SeveralFragments(m, threshold);
    FrameAt(m, threshold, j);
    OneMore(fs, j + 1);
    SizesAddUp(m, threshold);
    assert j + 1 == |fs| ==> fs[..j + 1] == fs;
    if j == 0 {
      NoSize(fs[..0]);
    }
  }

  /** A frame already accepted changes nothing. */
  lemma AgainIgnored(st0: Status, st: Status, m: Msdu, threshold: nat, j: nat)
    requires Ready(st0, m, threshold) && j < |FramesOf(m, threshold)| && Accepted(st0, st, m, threshold, j + 1)
    ensures Receive(st, FramesOf(m, threshold)[j]) == Result(st, None)
  {
    hide SequenceControl, TotalSize;
  }

  // ---------------------------------------------------------------------
  // An MSDU given up midway
  // ---------------------------------------------------------------------

  /** No frame of fs continues the MSDU with this sequence number. */
  predicate Elsewhere(fs: seq<Frame>, sequence: nat)
    decreases |fs|
  {
    fs == [] || (fs[0].sequenceControl / 16 != sequence % 4096 && Elsewhere(fs[1..], sequence))
  }

  /** A receiver waiting for the next fragment drops everything else and keeps waiting. */
  lemma {:induction false} WaitingDropsOthers(st: Status, fs: seq<Frame>, sequence: nat)
    requires st.deFragmenting && st.lastSequenceControl / 16 == sequence % 4096 && Elsewhere(fs, sequence)
    ensures ReceiveAll(st, fs) == Received(st, [])
    decreases |fs|
  {
    if fs != [] {
      WaitingDropsOthers(st, fs[1..], sequence);
    }
  }

  /** If the sender gives up after some but not all fragments, nothing is passed up from
      then on until its sequence number comes round again. */
  lemma GivenUpBlocks(st: Status, m: Msdu, threshold: nat, again: seq<nat>, k: nat, later: seq<Frame>)
    requires 0 < threshold < m.size && NFragments(m.size, threshold) <= 16
    requires 0 < k < NFragments(m.size, threshold) && |again| == k <= |FramesOf(m, threshold)|
    requires !st.deFragmenting && st.lastSequenceControl != SequenceControl(m.sequence, 0)
    requires Elsewhere(later, m.sequence)
    ensures ReceiveAll(st, Repeated(FramesOf(m, threshold)[..k], again) + later).up == []
  {
    hide FramesOf, NFragments, ReceiveAll, Repeated;
    Collecting(st, m, threshold, again, k);
    var sent := Repeated(FramesOf(m, threshold)[..k], again);
    ReceiveAppend(st, sent, later);
    WaitingDropsOthers(ReceiveAll(st, sent).st, later, m.sequence);
  }

  lemma {:induction false} ElsewhereAppend(a: seq<Frame>, b: seq<Frame>, sequence: nat)
    requires Elsewhere(a, sequence) && Elsewhere(b, sequence)
    ensures Elsewhere(a + b, sequence)
    decreases |a|
  {
    if a == [] {
      assert a + b == b;
    } else {
      assert (a + b)[1..] == a[1..] + b;
      ElsewhereAppend(a[1..], b, sequence);
    }
  }

  lemma {:induction false} CopiesElsewhere(f: Frame, n: nat, sequence: nat)
    requires f.sequenceControl / 16 != sequence % 4096
    ensures Elsewhere(Copies(f, n), sequence)
  {
    if n > 0 {
      assert Copies(f, n)[1..] == Copies(f, n - 1);
      CopiesElsewhere(f, n - 1, sequence);
    }
  }

  lemma {:induction false} RepeatedElsewhere(fs: seq<Frame>, again: seq<nat>, sequence: nat)
    requires |fs| == |again| && forall i :: 0 <= i < |fs| ==> fs[i].sequenceControl / 16 != sequence % 4096
    ensures Elsewhere(Repeated(fs, again), sequence)
    decreases |fs|
  {
    if fs != [] {
      var n := |fs| - 1;
      RepeatedElsewhere(fs[..n], again[..n], sequence);
      CopiesElsewhere(fs[n], 1 + again[n], sequence);
      ElsewhereAppend(Repeated(fs[..n], again[..n]), Copies(fs[n], 1 + again[n]), sequence);
    }
  }

  lemma FrameNumbers(m: Msdu, threshold: nat, k: nat)
    requires threshold > 0 && k < |FramesOf(m, threshold)|
    ensures FramesOf(m, threshold)[k].sequenceControl < 0x10000
    ensures FramesOf(m, threshold)[k].sequenceControl / 16 == m.sequence % 4096
  {
    hide SequenceControl;
    SequenceAny(m.sequence, k);
    SequenceAny(m.sequence, 0);
  }

  /** Whatever became of an MSDU, the next one gets through if and only if the receiver
      had accepted none of its frames or all of them. */
  lemma NextDeliveredIff(st0: Status, st: Status, m: Msdu, i: nat, next: Msdu, again: seq<nat>, threshold: nat)
    requires Ready(st0, m, threshold) && i <= |FramesOf(m, threshold)| && Accepted(st0, st, m, threshold, i)
    requires NFragments(next.size, threshold) <= 16 && |again| == |FramesOf(next, threshold)|
    requires next.sequence % 4096 != m.sequence % 4096 && next.sequence % 4096 != st0.lastSequenceControl / 16
    ensures Delivered(ReceiveAll(st, Repeated(FramesOf(next, threshold), again)), next)
       <==> i == 0 || i == |FramesOf(m, threshold)|
  {
    hide FramesOf, NFragments, ReceiveAll, Repeated, SequenceControl, TotalSize;
    SequenceAny(next.sequence, 0);
    if i > 0 {
      SequenceAny(m.sequence, i - 1);
    }
    if i == 0 || i == |FramesOf(m, threshold)| {
      MsduRoundTrip(st, next, threshold, again);
    } else {
      forall k | 0 <= k < |FramesOf(next, threshold)|
        ensures FramesOf(next, threshold)[k].sequenceControl / 16 != m.sequence % 4096
      {
        FrameNumbers(next, threshold, k);
      }
      RepeatedElsewhere(FramesOf(next, threshold), again, m.sequence);
      WaitingDropsOthers(st, Repeated(FramesOf(next, threshold), again), m.sequence);
    }
  }

  // ---------------------------------------------------------------------
  // Recovery
  // ---------------------------------------------------------------------

  /** The receiver is stuck in the middle of an MSDU of this number: it holds k full
      fragments and waits for fragment k. */
  ghost predicate Waiting(st: Status, sequence: nat, k: nat, threshold: nat) {
    0 < k < 16 && st.deFragmenting && st.lastSequenceControl == SequenceControl(sequence, k - 1)
    && st.rxSize == k * threshold
  }

  /** An MSDU of the same number continues where the other one stopped. */
  lemma WaitingIsAccepted(st: Status, m: Msdu, k: nat, threshold: nat)
    requires threshold > 0 && Waiting(st, m.sequence, k, threshold) && k < |FramesOf(m, threshold)|
    ensures Accepted(st, st, m, threshold, k)
  {
    hide FramesOf, SequenceControl, TotalSize;
    if m.size <= threshold {
      Whole(m, threshold);
    } else {
      SeveralFragments(m, threshold);
      PrefixSize(m, threshold, k);
    }
  }

  /** Until then its frames are dropped. */
  lemma EarlierDropped(st: Status, m: Msdu, k: nat, threshold: nat, j: nat)
    requires threshold > 0 && Waiting(st, m.sequence, k, threshold)
    requires j < k && j < |FramesOf(m, threshold)| && |FramesOf(m, threshold)| <= 16
    ensures Receive(st, FramesOf(m, threshold)[j]) == Result(st, None)
  {
    hide SequenceControl;
    if m.size <= threshold {
      Whole(m, threshold);
    } else {
      SeveralFragments(m, threshold);
      FrameAt(m, threshold, j);
    }
  }

  lemma AtMost16Frames(m: Msdu, threshold: nat)
    requires threshold > 0 && NFragments(m.size, threshold) <= 16
    ensures 0 < |FramesOf(m, threshold)| <= 16
  {
  }

  lemma CopiesDropped(st: Status, f: Frame, n: nat)
    requires Receive(st, f) == Result(st, None)
    ensures ReceiveAll(st, Copies(f, n)) == Received(st, [])
  {
    hide Receive;
    if n > 0 {
      assert Copies(f, n)[1..] == Copies(f, n - 1);
      CopiesDropped(st, f, n - 1);
    }
  }

  /** What the first j frames do: nothing up to fragment k, then they are accepted. */
  lemma {:induction false} Continuing(st: Status, m: Msdu, k: nat, threshold: nat, again: seq<nat>, j: nat)
    requires threshold > 0 && NFragments(m.size, threshold) <= 16 && Waiting(st, m.sequence, k, threshold)
    requires |again| == j <= |FramesOf(m, threshold)|
    ensures var r := ReceiveAll(st, Repeated(FramesOf(m, threshold)[..j], again));
      if j <= k then r == Received(st, [])
      else Accepted(st, r.st, m, threshold, j) && r.up == if j == |FramesOf(m, threshold)| then [m.size] else []
    decreases j
  {
    hide FramesOf, NFragments, ReceiveAll, SequenceControl, Receive, Accepted, Copies;
    var fs := FramesOf(m, threshold);
    if j == 0 {
      NothingReceived(st, Repeated(fs[..0], again));
    } else {
      AtMost16Frames(m, threshold);
      var before := Repeated(fs[..j - 1], again[..j - 1]);
      assert fs[..j][..j - 1] == fs[..j - 1];
      Continuing(st, m, k, threshold, again[..j - 1], j - 1);
      var mid := ReceiveAll(st, before).st;
      ReceiveAppend(st, before, Copies(fs[j - 1], 1 + again[j - 1]));
      if j <= k {
        EarlierDropped(st, m, k, threshold, j - 1);
        CopiesDropped(st, fs[j - 1], 1 + again[j - 1]);
      } else {
        if j - 1 == k {
          WaitingIsAccepted(st, m, k, threshold);
        }
        FrameTaken(st, mid, m, threshold, j - 1);
        CopiesReceived(mid, fs[j - 1], again[j - 1]);
      }
    }
  }

  /** NextAccepted from a receiver that was already collecting. */
  lemma FrameTaken(st: Status, mid: Status, m: Msdu, threshold: nat, j: nat)
    requires threshold > 0 && NFragments(m.size, threshold) <= 16
    requires 0 < j < |FramesOf(m, threshold)| && Accepted(st, mid, m, threshold, j)
    ensures var r := Receive(mid, FramesOf(m, threshold)[j]);
      Accepted(st, r.st, m, threshold, j + 1)
      && r.st.lastSequenceControl == FramesOf(m, threshold)[j].sequenceControl
      && r.up == if j + 1 == |FramesOf(m, threshold)| then Some(m.size) else None
  {
    hide FramesOf, NFragments, SequenceControl, TotalSize;
    if m.size <= threshold {
      Whole(m, threshold);
    } else {
      var fs := FramesOf(m, threshold);
      SeveralFragments(m, threshold);
      FrameAt(m, threshold, j);
      OneMore(fs, j + 1);
      SizesAddUp(m, threshold);
      assert j + 1 == |fs| ==> fs[..j + 1] == fs;
    }
  }

  /** The stuck receiver recovers with an MSDU exactly if it has the same number and more
      than k fragments; any other MSDU changes nothing. */
  lemma RecoversIff(st: Status, sequence: nat, k: nat, m: Msdu, again: seq<nat>, threshold: nat)
    requires threshold > 0 && NFragments(m.size, threshold) <= 16 && Waiting(st, sequence, k, threshold)
    requires |again| == |FramesOf(m, threshold)|
    ensures var r := ReceiveAll(st, Repeated(FramesOf(m, threshold), again));
      if Revives(m, sequence, k, threshold) then Delivered(r, m) else r == Received(st, [])
  {
    hide FramesOf, NFragments, ReceiveAll, Repeated, SequenceControl, TotalSize;
    var fs := FramesOf(m, threshold);
    if m.sequence % 4096 == sequence % 4096 {
      SameNumber(sequence, m.sequence, k - 1);
      assert fs[..|fs|] == fs && again[..|fs|] == again;
      Continuing(st, m, k, threshold, again, |fs|);
      AtMost16Frames(m, threshold);
      SequenceAny(m.sequence, |fs| - 1);
    } else {
      forall i | 0 <= i < |fs|
        ensures fs[i].sequenceControl / 16 != sequence % 4096
      {
        FrameNumbers(m, threshold, i);
      }
      SequenceAny(sequence, k - 1);
      RepeatedElsewhere(fs, again, sequence);
      WaitingDropsOthers(st, Repeated(fs, again), sequence);
    }
  }

  lemma SameNumber(a: nat, b: nat, k: nat)
    requires a % 4096 == b % 4096
    ensures SequenceControl(a, k) == SequenceControl(b, k)
  {
    hide SequenceControl;
  }

  predicate Revives(m: Msdu, sequence: nat, k: nat, threshold: nat)
    requires threshold > 0
  {
    m.sequence % 4096 == sequence % 4096 && k < |FramesOf(m, threshold)|
  }

  /** The stream from the first MSDU on that revives the receiver. */
  function FromRevival(ss: seq<Sending>, sequence: nat, k: nat, threshold: nat): (r: seq<Sending>)
    requires threshold > 0
    decreases |ss|
  {
    if ss == [] || Revives(ss[0].m, sequence, k, threshold) then ss else FromRevival(ss[1..], sequence, k, threshold)
  }

  ghost predicate AllSendable(ss: seq<Sending>, threshold: nat)
    requires threshold > 0
  {
    forall i :: 0 <= i < |ss| ==> Sendable(ss[i], threshold)
  }

  /** A stream sent to a stuck receiver is lost up to the first MSDU that revives it, and
      passed up complete and in order from there. */
  lemma {:induction false} StuckStream(st: Status, sequence: nat, k: nat, ss: seq<Sending>, threshold: nat)
    requires MAX_MSDU_SIZE / 16 < threshold && AllSendable(ss, threshold) && Waiting(st, sequence, k, threshold)
    requires var rest := FromRevival(ss, sequence, k, threshold);
      rest != [] ==> Distinct(sequence % 4096, rest[1..])
    ensures ReceiveAll(st, OnAir(ss, threshold)).up == Sizes(FromRevival(ss, sequence, k, threshold))
    decreases |ss|
  {
    hide FramesOf, NFragments, Repeated, Waiting;
    if ss != [] {
      var m, again := ss[0].m, ss[0].again;
      assert Sendable(ss[0], threshold);
      AtMost16(m.size, threshold);
      RecoversIff(st, sequence, k, m, again, threshold);
      var first := Repeated(FramesOf(m, threshold), again);
      ReceiveAppend(st, first, OnAir(ss[1..], threshold));
      if Revives(m, sequence, k, threshold) {
        StreamRoundTrip(ReceiveAll(st, first).st, ss[1..], threshold);
      } else {
        StuckStream(st, sequence, k, ss[1..], threshold);
      }
    }
  }

  /** A sender that gives up after k of its fragments, and goes on with other MSDUs. */
  lemma GivenUpThenStream(st: Status, m: Msdu, again: seq<nat>, k: nat, ss: seq<Sending>, threshold: nat)
    requires MAX_MSDU_SIZE / 16 < threshold < m.size <= MAX_MSDU_SIZE && AllSendable(ss, threshold)
    requires 0 < k < NFragments(m.size, threshold) && |again| == k <= |FramesOf(m, threshold)|
    requires !st.deFragmenting && st.lastSequenceControl != SequenceControl(m.sequence, 0)
    requires var rest := FromRevival(ss, m.sequence, k, threshold);
      rest != [] ==> Distinct(m.sequence % 4096, rest[1..])
    ensures ReceiveAll(st, Repeated(FramesOf(m, threshold)[..k], again) + OnAir(ss, threshold)).up
         == Sizes(FromRevival(ss, m.sequence, k, threshold))
  {
    hide FramesOf, NFragments, ReceiveAll, Repeated, SequenceControl, OnAir, Sizes, FromRevival, TotalSize;
    AtMost16(m.size, threshold);
    Collecting(st, m, threshold, again, k);
    PrefixSize(m, threshold, k);
    var sent := Repeated(FramesOf(m, threshold)[..k], again);
    ReceiveAppend(st, sent, OnAir(ss, threshold));
    StuckStream(ReceiveAll(st, sent).st, m.sequence, k, ss, threshold);
  }

  // ---------------------------------------------------------------------
  // Sequence numbers
  // ---------------------------------------------------------------------

  /** sequenceControlSmaller. */
  function SequenceControlSmaller(a: nat, b: nat): (smaller: bool)
  {
    var delta := b / 16 - a / 16;
    if delta <= 0 && delta < -2048 then true
    else if delta >= 0 && delta < 2048 then true
    else false
  }

  /** It holds exactly when b is less than half the number circle ahead of a. */
  lemma SmallerIsHalfCircle(a: nat, b: nat)
    requires a < 0x10000 && b < 0x10000
    ensures SequenceControlSmaller(a, b) <==> (b / 16 - a / 16) % 4096 < 2048
  {
    var delta := b / 16 - a / 16;
    assert delta >= 0 ==> delta % 4096 == delta;
    assert delta < 0 ==> delta % 4096 == delta + 4096;
  }

  /** The order assertion of sendUp holds at every frame of a run. */
  ghost predicate AllInOrder(st: Status, fs: seq<Frame>)
    decreases |fs|
  {
    fs == [] || (SequenceControlSmaller(st.lastSequenceControl, fs[0].sequenceControl)
                 && AllInOrder(Receive(st, fs[0]).st, fs[1..]))
  }

  /** Number b is less than half the circle ahead of a, or the same. */
  predicate Ahead(a: nat, b: nat) {
    (b - a) % 4096 < 2048
  }

  /** All frames carry this number. */
  predicate Numbered(fs: seq<Frame>, q: nat)
    decreases |fs|
  {
    fs == [] || (fs[0].sequenceControl < 0x10000 && fs[0].sequenceControl / 16 == q && Numbered(fs[1..], q))
  }

  lemma {:induction false} NumberedAppend(a: seq<Frame>, b: seq<Frame>, q: nat)
    requires Numbered(a, q) && Numbered(b, q)
    ensures Numbered(a + b, q)
    decreases |a|
  {
    if a == [] {
      assert a + b == b;
    } else {
      assert (a + b)[1..] == a[1..] + b;
      NumberedAppend(a[1..], b, q);
    }
  }

  lemma {:induction false} CopiesNumbered(f: Frame, n: nat, q: nat)
    requires f.sequenceControl < 0x10000 && f.sequenceControl / 16 == q
    ensures Numbered(Copies(f, n), q)
  {
    if n > 0 {
      assert Copies(f, n)[1..] == Copies(f, n - 1);
      CopiesNumbered(f, n - 1, q);
    }
  }

  lemma {:induction false} RepeatedNumbered(fs: seq<Frame>, again: seq<nat>, q: nat)
    requires |fs| == |again| && forall i :: 0 <= i < |fs| ==> fs[i].sequenceControl < 0x10000 && fs[i].sequenceControl / 16 == q
    ensures Numbered(Repeated(fs, again), q)
    decreases |fs|
  {
    if fs != [] {
      var n := |fs| - 1;
      RepeatedNumbered(fs[..n], again[..n], q);
      CopiesNumbered(fs[n], 1 + again[n], q);
      NumberedAppend(Repeated(fs[..n], again[..n]), Copies(fs[n], 1 + again[n]), q);
    }
  }

  /** Frames of one number, that number ahead of the last: the assertion holds whether
      the receiver accepts them or not. */
  lemma {:induction false} OneNumberInOrder(st: Status, fs: seq<Frame>, rest: seq<Frame>, q: nat)
    requires Numbered(fs, q) && q < 4096 && st.lastSequenceControl < 0x10000
    requires st.lastSequenceControl / 16 == q || Ahead(st.lastSequenceControl / 16, q)
    requires AllInOrder(ReceiveAll(st, fs).st, rest)
    ensures AllInOrder(st, fs + rest)
    decreases |fs|
  {
    if fs == [] {
      assert fs + rest == rest;
    } else {
      SmallerIsHalfCircle(st.lastSequenceControl, fs[0].sequenceControl);
      assert (fs + rest)[1..] == fs[1..] + rest;
      OneNumberInOrder(Receive(st, fs[0]).st, fs[1..], rest, q);
    }
  }

  /** Each MSDU's number is ahead of the one before it, by less than half the circle. */
  ghost predicate Advancing(last: nat, ss: seq<Sending>)
    decreases |ss|
  {
    ss == [] || (ss[0].m.sequence % 4096 != last && Ahead(last, ss[0].m.sequence % 4096)
                 && Advancing(ss[0].m.sequence % 4096, ss[1..]))
  }

  /** Over any such stream, with any retransmissions, the assertion holds throughout. */
  lemma {:induction false} OrderAssertionHolds(st: Status, ss: seq<Sending>, threshold: nat)
    requires MAX_MSDU_SIZE / 16 < threshold && AllSendable(ss, threshold)
    requires !st.deFragmenting && st.lastSequenceControl < 0x10000 && Advancing(st.lastSequenceControl / 16, ss)
    ensures AllInOrder(st, OnAir(ss, threshold))
    decreases |ss|
  {
    hide FramesOf, NFragments, Repeated, ReceiveAll, SequenceControl, AllInOrder, Receive;
    if ss == [] {
      NoneInOrder(st, OnAir(ss, threshold));
    } else {
      var m, again := ss[0].m, ss[0].again;
      assert Sendable(ss[0], threshold);
      AtMost16(m.size, threshold);
      SequenceAny(m.sequence, 0);
      MsduRoundTrip(st, m, threshold, again);
      var first := Repeated(FramesOf(m, threshold), again);
      forall i | 0 <= i < |FramesOf(m, threshold)|
        ensures FramesOf(m, threshold)[i].sequenceControl < 0x10000
        ensures FramesOf(m, threshold)[i].sequenceControl / 16 == m.sequence % 4096
      {
        FrameNumbers(m, threshold, i);
      }
      RepeatedNumbered(FramesOf(m, threshold), again, m.sequence % 4096);
      LastStaysInField(st, first, m.sequence % 4096);
      OrderAssertionHolds(ReceiveAll(st, first).st, ss[1..], threshold);
      OneNumberInOrder(st, first, OnAir(ss[1..], threshold), m.sequence % 4096);
    }
  }

  lemma NoneInOrder(st: Status, fs: seq<Frame>)
    requires fs == []
    ensures AllInOrder(st, fs)
  {
  }

  lemma {:induction false} LastStaysInField(st: Status, fs: seq<Frame>, q: nat)
    requires Numbered(fs, q) && st.lastSequenceControl < 0x10000
    ensures ReceiveAll(st, fs).st.lastSequenceControl < 0x10000
    decreases |fs|
  {
    if fs != [] {
      LastStaysInField(Receive(st, fs[0]).st, fs[1..], q);
    }
  }

  // ---------------------------------------------------------------------
  // The receiver's object
  // ---------------------------------------------------------------------

  class OriginatorRxStatus {
    var deFragmenting: bool
    var lastSequenceControl: nat
    var rxSize: nat

    ghost function State(): Status
      reads this
    {
      Status(deFragmenting, lastSequenceControl, rxSize)
    }

    constructor ()
      ensures !deFragmenting && lastSequenceControl == 0xffff
    {
      deFragmenting, lastSequenceControl, rxSize := false, 0xffff, 0;
    }

    method HandleDuplicates(f: Frame) returns (duplicate: bool)
      ensures duplicate <==> lastSequenceControl == f.sequenceControl
    {
      duplicate := lastSequenceControl == f.sequenceControl;
    }

    /** handleFragments: whether the frame is held back, and its size if it is not. */
    method HandleFragments(f: Frame) returns (held: bool, size: nat)
      requires lastSequenceControl != f.sequenceControl
      modifies this
      ensures !held ==> State().(lastSequenceControl := f.sequenceControl) == Receive(old(State()), f).st
                        && Receive(old(State()), f).up == Some(size)
      ensures held ==> Result(State(), None) == Receive(old(State()), f)
    {
      size := f.size;
      if deFragmenting {
        var next := f.sequenceControl / 16 == lastSequenceControl / 16 && f.sequenceControl % 16 == lastSequenceControl % 16 + 1;
        if f.moreFragments {
          if next {
            rxSize := rxSize + f.size;
            lastSequenceControl := f.sequenceControl;
          }
        } else {
          if next {
            deFragmenting := false;
            rxSize := rxSize + f.size;
            size := rxSize;
            lastSequenceControl := f.sequenceControl;
            return false, size;
          }
        }
      } else {
        if f.moreFragments {
          deFragmenting := true;
          rxSize := f.size;
          lastSequenceControl := f.sequenceControl;
        } else {
          return false, size;
        }
      }
      return true, size;
    }

    /** The order assertion, the two decisions together, and the bookkeeping of a frame
        passed up. */
    method SendUp(f: Frame) returns (up: Option<nat>)
      requires SequenceControlSmaller(lastSequenceControl, f.sequenceControl)
      modifies this
      ensures Result(State(), up) == Receive(old(State()), f)
    {
      var duplicate := HandleDuplicates(f);
      if duplicate {
        return None;
      }
      var held, size := HandleFragments(f);
      if held {
        return None;
      }
      lastSequenceControl := f.sequenceControl;
      return Some(size);
    }
  }
}
