/**
 Interference during a reception, and the cutting of the packet into chunks of
 constant noise.  The sort of the change list is the library's: every statement
 holds for any sorted rearrangement, whatever it does with equal times.
 */
module Interference {

  datatype RxEvent = RxEvent(start: real, end: real, power: real)

  predicate Overlaps(e: RxEvent, t: real) {
    e.start <= t && e.end >= t
  }

  datatype NIChange = NIChange(time: real, delta: real)

  // ---------------------------------------------------------------------
  // Collecting the changes
  // ---------------------------------------------------------------------

  /** The changes that one other event causes during the packet. */
  function Changes(packet: RxEvent, e: RxEvent): (cs: seq<NIChange>)
  {
    (if Overlaps(packet, e.start) then [NIChange(e.start, e.power)] else [])
    + (if Overlaps(packet, e.end) then [NIChange(e.end, -e.power)] else [])
  }

  function ChangesOf(packet: RxEvent, others: seq<RxEvent>): (cs: seq<NIChange>)
  {
    if others == [] then []
    else ChangesOf(packet, others[..|others| - 1]) + Changes(packet, others[|others| - 1])
  }

  /** calculateNoiseInterference: the direct sum of the powers on the air at t. */
  function NoiseAt(events: seq<RxEvent>, t: real): (p: real)
  {
    if events == [] then 0.0
    else NoiseAt(events[..|events| - 1], t)
         + if Overlaps(events[|events| - 1], t) then events[|events| - 1].power else 0.0
  }

  /** All events but the one being received. */
  function Others(events: seq<RxEvent>, self: nat): (r: seq<RxEvent>)
    requires self < |events|
  {
    events[..self] + events[self + 1..]
  }

  /** The change list before sorting. */
  function Unsorted(packet: RxEvent, others: seq<RxEvent>): (cs: seq<NIChange>)
  {
    ChangesOf(packet, others) + [NIChange(packet.start, NoiseAt(others, packet.start))] + [NIChange(packet.end, 0.0)]
  }

  function Visited(events: seq<RxEvent>, self: nat, n: nat): (r: seq<RxEvent>)
    requires self < |events| && n <= |events|
  {
    if n <= self then events[..n] else events[..self] + events[self + 1..n]
  }

  /** calculateNI, up to the sort. */
  method CalculateNI(events: seq<RxEvent>, self: nat) returns (ni: seq<NIChange>, noise: real)
    requires self < |events|
    ensures ni == Unsorted(events[self], Others(events, self))
    ensures noise == NoiseAt(Others(events, self), events[self].start)
  {
    hide ChangesOf, NoiseAt, Visited;
    var packet := events[self];
    ni, noise := [], 0.0;
    NothingVisited(packet, events, self);
    var i := 0;
    while i < |events|
      invariant 0 <= i <= |events|
      invariant ni == ChangesOf(packet, Visited(events, self, i))
      invariant noise == NoiseAt(Visited(events, self, i), packet.start)
    {
      VisitedNext(events, self, i);
      OneMore(packet, Visited(events, self, i), events[i]);
      if i != self {
        var e := events[i];
        if Overlaps(packet, e.start) {
          ni := ni + [NIChange(e.start, e.power)];
        }
        if Overlaps(packet, e.end) {
          ni := ni + [NIChange(e.end, -e.power)];
        }
        if Overlaps(e, packet.start) {
          noise := noise + e.power;
        }
      }
      i := i + 1;
    }
    ni := ni + [NIChange(packet.start, noise)];
    ni := ni + [NIChange(packet.end, 0.0)];
  }

  lemma NothingVisited(packet: RxEvent, events: seq<RxEvent>, self: nat)
    requires self < |events|
    ensures ChangesOf(packet, Visited(events, self, 0)) == [] && NoiseAt(Visited(events, self, 0), packet.start) == 0.0
    ensures Visited(events, self, |events|) == Others(events, self)
  {
  }

  lemma OneMore(packet: RxEvent, l: seq<RxEvent>, e: RxEvent)
    ensures ChangesOf(packet, l + [e]) == ChangesOf(packet, l)
                                          + (if Overlaps(packet, e.start) then [NIChange(e.start, e.power)] else [])
                                          + (if Overlaps(packet, e.end) then [NIChange(e.end, -e.power)] else [])
    ensures NoiseAt(l + [e], packet.start)
         == NoiseAt(l, packet.start) + if Overlaps(e, packet.start) then e.power else 0.0
  {
    assert (l + [e])[..|l|] == l;
  }

  lemma VisitedNext(events: seq<RxEvent>, self: nat, n: nat)
    requires self < |events| && n < |events|
    ensures Visited(events, self, n + 1)
         == if n == self then Visited(events, self, n) else Visited(events, self, n) + [events[n]]
  {
  }

  // ---------------------------------------------------------------------
  // Sums of changes
  // ---------------------------------------------------------------------

  function Sum(ni: seq<NIChange>): (s: real)
  {
    if ni == [] then 0.0 else ni[0].delta + Sum(ni[1..])
  }

  /** The sum of the changes up to and including t. */
  function SumUpTo(ni: seq<NIChange>, t: real): (s: real)
  {
    if ni == [] then 0.0 else (if ni[0].time <= t then ni[0].delta else 0.0) + SumUpTo(ni[1..], t)
  }

  lemma SumUpToEmpty(t: real)
    ensures SumUpTo([], t) == 0.0
  {
  }

  lemma {:induction false} SumUpToAppend(a: seq<NIChange>, b: seq<NIChange>, t: real)
    ensures SumUpTo(a + b, t) == SumUpTo(a, t) + SumUpTo(b, t)
  {
    if a == [] {
      assert a + b == b;
    } else {
      SumUpToAppend(a[1..], b, t);
      assert (a + b)[1..] == a[1..] + b;
    }
  }

  lemma Taken(b: seq<NIChange>, j: nat)
    requires j < |b|
    ensures multiset(b[..j] + b[j + 1..]) == multiset(b) - multiset{b[j]}
  {
    assert b == b[..j] + [b[j]] + b[j + 1..];
  }

  lemma SumUpToTaken(b: seq<NIChange>, j: nat, t: real)
    requires j < |b|
    ensures SumUpTo(b, t) == (if b[j].time <= t then b[j].delta else 0.0) + SumUpTo(b[..j] + b[j + 1..], t)
  {
    assert b == b[..j] + b[j..] && b[j..][1..] == b[j + 1..];
    SumUpToAppend(b[..j], b[j..], t);
    SumUpToAppend(b[..j], b[j + 1..], t);
  }

  /** It does not depend on the order of the list. */
  lemma {:induction false} SumUpToPermuted(a: seq<NIChange>, b: seq<NIChange>, t: real)
    requires multiset(a) == multiset(b)
    ensures SumUpTo(a, t) == SumUpTo(b, t)
  {
    hide SumUpTo;
    if a == [] {
      assert |multiset(b)| == 0;
    } else {
      var j := Somewhere(a[0], a, b);
      Taken(a, 0);
      Taken(b, j);
      SumUpToPermuted(a[..0] + a[1..], b[..j] + b[j + 1..], t);
      SumUpToTaken(a, 0, t);
      SumUpToTaken(b, j, t);
    }
  }

  lemma Somewhere(x: NIChange, a: seq<NIChange>, b: seq<NIChange>) returns (j: nat)
    requires x in a && multiset(a) == multiset(b)
    ensures j < |b| && b[j] == x
  {
    assert x in multiset(a);
    j :| j < |b| && b[j] == x;
  }

  // ---------------------------------------------------------------------
  // The changes add up to the direct sum
  // ---------------------------------------------------------------------

  /** The power of the events that start exactly when the packet does: these are
      counted twice. */
  function StartingPower(events: seq<RxEvent>, s: real): (p: real)
  {
    if events == [] then 0.0
    else StartingPower(events[..|events| - 1], s)
         + if events[|events| - 1].start == s then events[|events| - 1].power else 0.0
  }

  ghost predicate Proper(e: RxEvent) {
    e.start <= e.end
  }

  /** An instant inside the packet at which the event neither starts nor ends. */
  ghost predicate Quiet(packet: RxEvent, e: RxEvent, u: real) {
    packet.start < u < packet.end && e.start != u && e.end != u
  }

  /** One event: its changes up to u, and its share of the initial noise, make its
      power at u, plus its power once more if it starts with the packet. */
  lemma OneEventAddsUp(packet: RxEvent, e: RxEvent, u: real)
    requires Proper(packet) && Proper(e) && Quiet(packet, e, u)
    ensures SumUpTo(Changes(packet, e), u) + (if Overlaps(e, packet.start) then e.power else 0.0)
         == (if Overlaps(e, u) then e.power else 0.0) + (if e.start == packet.start then e.power else 0.0)
  {
    var s := if Overlaps(packet, e.start) then [NIChange(e.start, e.power)] else [];
    var f := if Overlaps(packet, e.end) then [NIChange(e.end, -e.power)] else [];
    SumUpToAppend(s, f, u);
    assert SumUpTo(s, u) == if Overlaps(packet, e.start) && e.start <= u then e.power else 0.0;
    assert SumUpTo(f, u) == if Overlaps(packet, e.end) && e.end <= u then -e.power else 0.0;
  }

  lemma {:induction false} EventsAddUp(packet: RxEvent, others: seq<RxEvent>, u: real)
    requires Proper(packet) && forall e :: e in others ==> Proper(e) && Quiet(packet, e, u)
    ensures SumUpTo(ChangesOf(packet, others), u) + NoiseAt(others, packet.start)
         == NoiseAt(others, u) + StartingPower(others, packet.start)
  {
    hide SumUpTo, Changes, Overlaps;
    if others != [] {
      var n := |others| - 1;
      assert others[n] in others;
      assert forall e :: e in others[..n] ==> e in others;
      EventsAddUp(packet, others[..n], u);
      OneEventAddsUp(packet, others[n], u);
      SumUpToAppend(ChangesOf(packet, others[..n]), Changes(packet, others[n]), u);
    } else {
      SumUpToEmpty(u);
    }
  }

  /** The whole change list up to u. */
  lemma ChangesAddUp(packet: RxEvent, others: seq<RxEvent>, u: real)
    requires Proper(packet) && packet.start < u < packet.end
    requires forall e :: e in others ==> Proper(e) && Quiet(packet, e, u)
    ensures SumUpTo(Unsorted(packet, others), u) == NoiseAt(others, u) + StartingPower(others, packet.start)
  {
    EventsAddUp(packet, others, u);
    var c := ChangesOf(packet, others);
    var x := [NIChange(packet.start, NoiseAt(others, packet.start))];
    var y := [NIChange(packet.end, 0.0)];
    SumUpToAppend(c, x, u);
    SumUpToAppend(c + x, y, u);
  }

  // ---------------------------------------------------------------------
  // Cutting into chunks
  // ---------------------------------------------------------------------

  datatype Mode = Header | Payload

  datatype Chunk = Chunk(from: real, to: real, noise: real, mode: Mode)

  /** Where the PLCP header and the payload start. */
  datatype Plcp = Plcp(header: real, payload: real)

  /** The chunks of one stretch of constant noise, branch for branch as the code cuts it. */
  function Cut(previous: real, time: real, noise: real, p: Plcp): (cs: seq<Chunk>)
  {
    if previous >= p.payload then
      [Chunk(previous, time, noise, Payload)]
    else if previous >= p.header then
      if time >= p.payload then
        [Chunk(previous, p.payload, noise, Header), Chunk(p.payload, time, noise, Payload)]
      else
        [Chunk(previous, time, noise, Header)]
    else
      if time >= p.payload then
        [Chunk(p.header, p.payload, noise, Header), Chunk(p.payload, time, noise, Payload)]
      else if time >= p.header then
        [Chunk(p.header, time, noise, Header)]
      else
        []
  }

  /** All chunks after a change at `previous`, with `noise` on the air. */
  function Chunks(previous: real, noise: real, rest: seq<NIChange>, p: Plcp): (cs: seq<Chunk>)
    decreases |rest|
  {
    if rest == [] then []
    else Cut(previous, rest[0].time, noise, p) + Chunks(rest[0].time, noise + rest[0].delta, rest[1..], p)
  }

  /** The success rates of the chunks, multiplied. */
  function Product(csr: (real, real, Mode) -> real, cs: seq<Chunk>): (x: real)
  {
    if cs == [] then 1.0
    else Product(csr, cs[..|cs| - 1])
         * csr(cs[|cs| - 1].noise, cs[|cs| - 1].to - cs[|cs| - 1].from, cs[|cs| - 1].mode)
  }

  ghost predicate Sorted(ni: seq<NIChange>) {
    forall i, j :: 0 <= i < j < |ni| ==> ni[i].time <= ni[j].time
  }

  /** calculatePER on a sorted change list. */
  method CalculatePER(ni: seq<NIChange>, preamble: real, header: real, csr: (real, real, Mode) -> real)
    returns (per: real)
    requires ni != [] && Sorted(ni) && header >= 0.0
    ensures var p := Plcp(ni[0].time + preamble, ni[0].time + preamble + header);
            per == 1.0 - Product(csr, Chunks(ni[0].time, ni[0].delta, ni[1..], p))
  {
    hide Product, Cut;
    var psr := 1.0;
    var previous := ni[0].time;
    ghost var p := Plcp(ni[0].time + preamble, ni[0].time + preamble + header);
    var noise := ni[0].delta;
    ghost var done: seq<Chunk> := [];
    NoChunks(csr);
    var j := 1;
    while j < |ni|
      invariant 1 <= j <= |ni|
      invariant previous == ni[j - 1].time
      invariant psr == Product(csr, done)
      invariant Chunks(ni[0].time, ni[0].delta, ni[1..], p) == done + Chunks(previous, noise, ni[j..], p)
    {
      assert ni[j..][0] == ni[j] && ni[j..][1..] == ni[j + 1..];
      ghost var cut := Cut(previous, ni[j].time, noise, p);
      CutProduct(csr, done, previous, ni[j].time, noise, p);
      psr := ChunkStep(psr, previous, ni[j].time, noise, ni[0].time + preamble, header, csr);
      done := done + cut;
      noise := noise + ni[j].delta;
      previous := ni[j].time;
      j := j + 1;
    }
    assert done + [] == done;
    per := 1.0 - psr;
  }

  lemma NoChunks(csr: (real, real, Mode) -> real)
    ensures Product(csr, []) == 1.0
  {
  }

  /** psr times the success rates of at most two chunks. */
  function Times(csr: (real, real, Mode) -> real, psr: real, cut: seq<Chunk>): (x: real)
    requires |cut| <= 2
  {
    if cut == [] then psr
    else if |cut| == 1 then psr * csr(cut[0].noise, cut[0].to - cut[0].from, cut[0].mode)
    else psr * csr(cut[0].noise, cut[0].to - cut[0].from, cut[0].mode)
             * csr(cut[1].noise, cut[1].to - cut[1].from, cut[1].mode)
  }

  /** The body of the loop: the six-way cut. */
  method ChunkStep(psr0: real, previous: real, time: real, noise: real, plcpHeaderStart: real, header: real,
                   csr: (real, real, Mode) -> real)
    returns (psr: real)
    requires time >= previous && header >= 0.0
    ensures psr == Times(csr, psr0, Cut(previous, time, noise, Plcp(plcpHeaderStart, plcpHeaderStart + header)))
  {
    var plcpPayloadStart := plcpHeaderStart + header;
    psr := psr0;
    if previous >= plcpPayloadStart {
      psr := psr * csr(noise, time - previous, Payload);
    } else if previous >= plcpHeaderStart {
      if time >= plcpPayloadStart {
        psr := psr * csr(noise, plcpPayloadStart - previous, Header);
        psr := psr * csr(noise, time - plcpPayloadStart, Payload);
      } else {
        assert time >= plcpHeaderStart;
        psr := psr * csr(noise, time - previous, Header);
      }
    } else {
      if time >= plcpPayloadStart {
        psr := psr * csr(noise, plcpPayloadStart - plcpHeaderStart, Header);
        psr := psr * csr(noise, time - plcpPayloadStart, Payload);
      } else if time >= plcpHeaderStart {
        psr := psr * csr(noise, time - plcpHeaderStart, Header);
      }
    }
  }

  lemma CutProduct(csr: (real, real, Mode) -> real, done: seq<Chunk>, a: real, b: real, noise: real, p: Plcp)
    ensures Product(csr, done + Cut(a, b, noise, p)) == Times(csr, Product(csr, done), Cut(a, b, noise, p))
  {
    var cut := Cut(a, b, noise, p);
    if cut == [] {
      assert done + cut == done;
    } else if |cut| == 1 {
      assert (done + cut)[..|done + cut| - 1] == done;
    } else {
      assert (done + cut)[..|done + cut| - 1] == done + cut[..1];
      assert (done + cut[..1])[..|done|] == done;
    }
  }

  // ---------------------------------------------------------------------
  // What the chunks are
  // ---------------------------------------------------------------------

  /** The chunks follow each other without gap from a to b. */
  ghost predicate Tile(cs: seq<Chunk>, a: real, b: real) {
    if cs == [] then a == b
    else cs[0].from == a && cs[0].from <= cs[0].to && Tile(cs[1..], cs[0].to, b)
  }

  ghost predicate ModesRight(cs: seq<Chunk>, p: Plcp) {
    forall i :: 0 <= i < |cs| ==>
      if cs[i].mode.Header? then p.header <= cs[i].from && cs[i].to <= p.payload else p.payload <= cs[i].from
  }

  /** Time spent in one mode. */
  function TimeIn(cs: seq<Chunk>, mode: Mode): (t: real) {
    if cs == [] then 0.0 else (if cs[0].mode == mode then cs[0].to - cs[0].from else 0.0) + TimeIn(cs[1..], mode)
  }

  function Clip(t: real, p: Plcp): (r: real) {
    if t < p.header then p.header else t
  }

  lemma {:induction false} TileAppend(a: seq<Chunk>, b: seq<Chunk>, x: real, y: real, z: real)
    requires Tile(a, x, y) && Tile(b, y, z)
    ensures Tile(a + b, x, z)
  {
    if a == [] {
      assert a + b == b;
    } else {
      assert (a + b)[1..] == a[1..] + b;
      TileAppend(a[1..], b, a[0].to, y, z);
    }
  }

  lemma CutTiles(a: real, b: real, noise: real, p: Plcp)
    requires a <= b && p.header <= p.payload
    ensures Tile(Cut(a, b, noise, p), Clip(a, p), Clip(b, p)) && ModesRight(Cut(a, b, noise, p), p)
  {
  }

  ghost predicate SortedFrom(t: real, ni: seq<NIChange>)
    decreases |ni|
  {
    ni == [] || (t <= ni[0].time && SortedFrom(ni[0].time, ni[1..]))
  }

  function LastTime(t: real, ni: seq<NIChange>): (r: real)
    decreases |ni|
  {
    if ni == [] then t else LastTime(ni[0].time, ni[1..])
  }

  /** Whatever the breakpoints, the chunks tile the time from the start of the PLCP
      header to the last change, each in the mode of its place. */
  lemma {:induction false} ChunksTile(t: real, noise: real, rest: seq<NIChange>, p: Plcp)
    requires SortedFrom(t, rest) && p.header <= p.payload
    ensures Tile(Chunks(t, noise, rest, p), Clip(t, p), Clip(LastTime(t, rest), p))
    ensures ModesRight(Chunks(t, noise, rest, p), p)
    decreases |rest|
  {
    if rest != [] {
      CutTiles(t, rest[0].time, noise, p);
      ChunksTile(rest[0].time, noise + rest[0].delta, rest[1..], p);
      TileAppend(Cut(t, rest[0].time, noise, p), Chunks(rest[0].time, noise + rest[0].delta, rest[1..], p),
                 Clip(t, p), Clip(rest[0].time, p), Clip(LastTime(t, rest), p));
    }
  }

  function HeaderUpTo(t: real, p: Plcp): (r: real) {
    if t < p.header then 0.0 else if t < p.payload then t - p.header else p.payload - p.header
  }

  /** Tiling and modes fix the time in each mode. */
  lemma {:induction false} TimesFixed(cs: seq<Chunk>, a: real, b: real, p: Plcp)
    requires Tile(cs, a, b) && ModesRight(cs, p) && p.header <= p.payload && p.header <= a
    ensures a <= b
    ensures TimeIn(cs, Header) == HeaderUpTo(b, p) - HeaderUpTo(a, p)
    ensures TimeIn(cs, Payload) == (b - a) - TimeIn(cs, Header)
  {
    if cs != [] {
      assert forall i :: 0 <= i < |cs[1..]| ==> cs[1..][i] == cs[i + 1];
      TimesFixed(cs[1..], cs[0].to, b, p);
    }
  }

  // ---------------------------------------------------------------------
  // The whole reception
  // ---------------------------------------------------------------------

  lemma {:induction false} SumSnoc(l: seq<NIChange>, x: NIChange)
    ensures Sum(l + [x]) == Sum(l) + x.delta
  {
    if l != [] {
      SumSnoc(l[1..], x);
      assert (l + [x])[1..] == l[1..] + [x];
    }
  }

  lemma {:induction false} SumUpToAll(l: seq<NIChange>, u: real)
    requires forall x :: x in l ==> x.time <= u
    ensures SumUpTo(l, u) == Sum(l)
  {
    if l != [] {
      assert l[0] in l;
      assert forall x :: x in l[1..] ==> x in l;
      SumUpToAll(l[1..], u);
    }
  }

  lemma {:induction false} SumUpToNone(t: real, l: seq<NIChange>, u: real)
    requires SortedFrom(t, l) && u < t
    ensures SumUpTo(l, u) == 0.0 && forall x :: x in l ==> u < x.time
    decreases |l|
  {
    if l != [] {
      SumUpToNone(l[0].time, l[1..], u);
      assert l == [l[0]] + l[1..];
    }
  }

  /** A chunk carries the sum of the changes up to any instant u inside it, and no
      change happens at u. */
  lemma {:induction false} ChunkNoise(done: seq<NIChange>, t: real, rest: seq<NIChange>, p: Plcp, k: nat, u: real)
    requires SortedFrom(t, rest) && forall x :: x in done ==> x.time <= t
    requires k < |Chunks(t, Sum(done), rest, p)|
    requires Chunks(t, Sum(done), rest, p)[k].from < u < Chunks(t, Sum(done), rest, p)[k].to
    ensures Chunks(t, Sum(done), rest, p)[k].noise == SumUpTo(done + rest, u)
    ensures t < u < LastTime(t, rest)
    ensures forall x :: x in done + rest ==> x.time != u
    decreases |rest|
  {
    var x := rest[0];
    var cut := Cut(t, x.time, Sum(done), p);
    if k < |cut| {
      assert t < u < x.time;
      SumUpToAppend(done, rest, u);
      SumUpToAll(done, u);
      assert rest == [x] + rest[1..];
      SumUpToNone(x.time, rest[1..], u);
      LastTimeSorted(x.time, rest[1..]);
    } else {
      SumSnoc(done, x);
      assert done + [x] + rest[1..] == done + rest;
      ChunkNoise(done + [x], x.time, rest[1..], p, k - |cut|, u);
    }
  }

  lemma {:induction false} LastTimeSorted(t: real, l: seq<NIChange>)
    requires SortedFrom(t, l)
    ensures t <= LastTime(t, l)
    decreases |l|
  {
    if l != [] {
      LastTimeSorted(l[0].time, l[1..]);
    }
  }

  lemma {:induction false} SortedIsSortedFrom(ni: seq<NIChange>)
    requires ni != [] && Sorted(ni)
    ensures SortedFrom(ni[0].time, ni[1..]) && LastTime(ni[0].time, ni[1..]) == ni[|ni| - 1].time
  {
    if |ni| > 1 {
      var rest := ni[1..];
      assert Sorted(rest) by {
        forall i, j | 0 <= i < j < |rest|
          ensures rest[i].time <= rest[j].time
        {
          assert rest[i] == ni[i + 1] && rest[j] == ni[j + 1];
        }
      }
      SortedIsSortedFrom(rest);
    }
  }

  lemma {:induction false} ChangesInside(packet: RxEvent, others: seq<RxEvent>)
    ensures forall x :: x in ChangesOf(packet, others) ==> packet.start <= x.time <= packet.end
  {
    if others != [] {
      ChangesInside(packet, others[..|others| - 1]);
    }
  }

  lemma {:induction false} EndpointListed(packet: RxEvent, others: seq<RxEvent>, e: RxEvent)
    requires e in others
    ensures Overlaps(packet, e.start) ==> NIChange(e.start, e.power) in ChangesOf(packet, others)
    ensures Overlaps(packet, e.end) ==> NIChange(e.end, -e.power) in ChangesOf(packet, others)
  {
    var n := |others| - 1;
    assert others == others[..n] + [others[n]];
    if e in others[..n] {
      EndpointListed(packet, others[..n], e);
    }
  }

  /** A sorted change list runs from the start of the packet to its end. */
  lemma SortedSpansPacket(packet: RxEvent, others: seq<RxEvent>, ni: seq<NIChange>)
    requires Proper(packet) && Sorted(ni) && multiset(ni) == multiset(Unsorted(packet, others))
    ensures ni != [] && ni[0].time == packet.start && ni[|ni| - 1].time == packet.end
  {
    var raw := Unsorted(packet, others);
    ChangesInside(packet, others);
    var first := NIChange(packet.start, NoiseAt(others, packet.start));
    var last := NIChange(packet.end, 0.0);
    var i := Somewhere(first, raw, ni);
    var j := Somewhere(last, raw, ni);
    var a := Somewhere(ni[0], ni, raw);
    var b := Somewhere(ni[|ni| - 1], ni, raw);
    assert raw[a] in raw && raw[b] in raw;
  }

  /** Every endpoint inside the packet is a change, so an instant without change is no endpoint. */
  lemma NoEndpointAt(packet: RxEvent, others: seq<RxEvent>, ni: seq<NIChange>, e: RxEvent, u: real)
    requires e in others && packet.start < u < packet.end
    requires multiset(ni) == multiset(Unsorted(packet, others)) && forall x :: x in ni ==> x.time != u
    ensures Quiet(packet, e, u)
  {
    EndpointListed(packet, others, e);
    var raw := Unsorted(packet, others);
    if Overlaps(packet, e.start) {
      var j := Somewhere(NIChange(e.start, e.power), raw, ni);
      assert ni[j] in ni;
    }
    if Overlaps(packet, e.end) {
      var j := Somewhere(NIChange(e.end, -e.power), raw, ni);
      assert ni[j] in ni;
    }
  }

  /** Interference is exact: on every chunk of nonzero length, at every instant of it,
      the noise used is the direct sum of the other powers on the air, plus the power
      of the events that started together with the packet. */
  lemma NoiseExact(packet: RxEvent, others: seq<RxEvent>, ni: seq<NIChange>, p: Plcp, k: nat, u: real)
    requires Proper(packet) && (forall e :: e in others ==> Proper(e))
    requires Sorted(ni) && multiset(ni) == multiset(Unsorted(packet, others)) && ni != []
    requires k < |Chunks(ni[0].time, ni[0].delta, ni[1..], p)|
    requires var c := Chunks(ni[0].time, ni[0].delta, ni[1..], p)[k]; c.from < u < c.to
    ensures Chunks(ni[0].time, ni[0].delta, ni[1..], p)[k].noise == NoiseAt(others, u) + StartingPower(others, packet.start)
  {
    hide Unsorted, NoiseAt, StartingPower, SumUpTo;
    SortedSpansPacket(packet, others, ni);
    SortedIsSortedFrom(ni);
    var done := [ni[0]];
    assert Sum(done) == ni[0].delta;
    assert done + ni[1..] == ni;
    ChunkNoise(done, ni[0].time, ni[1..], p, k, u);
    forall e | e in others
      ensures Quiet(packet, e, u)
    {
      NoEndpointAt(packet, others, ni, e, u);
    }
    ChangesAddUp(packet, others, u);
    SumUpToPermuted(ni, Unsorted(packet, others), u);
  }

  lemma {:induction false} StartingPowerZero(others: seq<RxEvent>, s: real)
    requires forall e :: e in others ==> e.power > 0.0
    ensures StartingPower(others, s) >= 0.0
    ensures StartingPower(others, s) == 0.0 <==> forall e :: e in others ==> e.start != s
  {
    if others != [] {
      var n := |others| - 1;
      assert others == others[..n] + [others[n]];
      StartingPowerZero(others[..n], s);
    }
  }

  /** So with positive powers the noise is right on a chunk exactly when no other event
      starts at the same instant as the packet. */
  lemma NoiseRightIff(packet: RxEvent, others: seq<RxEvent>, ni: seq<NIChange>, p: Plcp, k: nat, u: real)
    requires Proper(packet) && (forall e :: e in others ==> Proper(e) && e.power > 0.0)
    requires Sorted(ni) && multiset(ni) == multiset(Unsorted(packet, others)) && ni != []
    requires k < |Chunks(ni[0].time, ni[0].delta, ni[1..], p)|
    requires var c := Chunks(ni[0].time, ni[0].delta, ni[1..], p)[k]; c.from < u < c.to
    ensures Chunks(ni[0].time, ni[0].delta, ni[1..], p)[k].noise == NoiseAt(others, u)
       <==> forall e :: e in others ==> e.start != packet.start
  {
    NoiseExact(packet, others, ni, p, k, u);
    StartingPowerZero(others, packet.start);
  }

  /** The chunks partition the time from the start of the PLCP header to the end of the
      packet: header mode for the header duration, payload mode for the rest. */
  lemma ChunksPartition(packet: RxEvent, others: seq<RxEvent>, ni: seq<NIChange>, preamble: real, header: real)
    requires Proper(packet) && Sorted(ni) && multiset(ni) == multiset(Unsorted(packet, others)) && ni != []
    requires preamble >= 0.0 && header >= 0.0 && packet.start + preamble + header <= packet.end
    ensures var p := Plcp(ni[0].time + preamble, ni[0].time + preamble + header);
            var cs := Chunks(ni[0].time, ni[0].delta, ni[1..], p);
            && Tile(cs, packet.start + preamble, packet.end)
            && ModesRight(cs, p)
            && TimeIn(cs, Header) == header
            && TimeIn(cs, Payload) == packet.end - packet.start - preamble - header
  {
    SortedSpansPacket(packet, others, ni);
    SortedIsSortedFrom(ni);
    var p := Plcp(ni[0].time + preamble, ni[0].time + preamble + header);
    ChunksTile(ni[0].time, ni[0].delta, ni[1..], p);
    TimesFixed(Chunks(ni[0].time, ni[0].delta, ni[1..], p), packet.start + preamble, packet.end, p);
  }

  // ---------------------------------------------------------------------
  // What is multiplied
  // ---------------------------------------------------------------------

  function Power(a: real, n: nat): (x: real)
  {
    if n == 0 then 1.0 else a * Power(a, n - 1)
  }

  function Count(cs: seq<Chunk>, mode: Mode): (n: nat)
  {
    if cs == [] then 0 else Count(cs[..|cs| - 1], mode) + if cs[|cs| - 1].mode == mode then 1 else 0
  }

  /** Every chunk counts once, in its own mode: if the success rate depends on the mode
      alone, the product is one power of each. */
  lemma {:induction false} ProductOfModes(csr: (real, real, Mode) -> real, a: real, b: real, cs: seq<Chunk>)
    requires forall n, d, m :: csr(n, d, m) == if m == Header then a else b
    ensures Product(csr, cs) == Power(a, Count(cs, Header)) * Power(b, Count(cs, Payload))
  {
    hide Power, Product, Count;
    CountsOf(cs, a, b, csr);
    if cs != [] {
      var k := |cs| - 1;
      ProductOfModes(csr, a, b, cs[..k]);
      var h, p := Count(cs[..k], Header), Count(cs[..k], Payload);
      PowerStep(a, h);
      PowerStep(b, p);
      if cs[k].mode == Header {
        Regroup(Power(a, h), Power(b, p), a);
      } else {
        Regroup(Power(b, p), Power(a, h), b);
      }
    }
  }

  lemma PowerStep(a: real, n: nat)
    ensures Power(a, 0) == 1.0 && Power(a, n + 1) == a * Power(a, n)
  {
  }

  /** Counts and product of a list, from those without its last chunk. */
  lemma CountsOf(cs: seq<Chunk>, a: real, b: real, csr: (real, real, Mode) -> real)
    ensures cs == [] ==> Count(cs, Header) == Count(cs, Payload) == 0 && Product(csr, cs) == 1.0
    ensures cs == [] ==> Power(a, 0) == Power(b, 0) == 1.0
    ensures cs != [] ==>
              var k, c := |cs| - 1, cs[|cs| - 1];
              && Count(cs, Header) == Count(cs[..k], Header) + (if c.mode == Header then 1 else 0)
              && Count(cs, Payload) == Count(cs[..k], Payload) + (if c.mode == Header then 0 else 1)
              && Product(csr, cs) == Product(csr, cs[..k]) * csr(c.noise, c.to - c.from, c.mode)
  {
  }

  lemma Regroup(x: real, y: real, z: real)
    ensures x * y * z == (z * x) * y && y * x * z == y * (z * x)
  {
  }

  lemma {:induction false} ProductAppend(csr: (real, real, Mode) -> real, a: seq<Chunk>, b: seq<Chunk>)
    ensures Product(csr, a + b) == Product(csr, a) * Product(csr, b)
    decreases |b|
  {
    if b == [] {
      assert a + b == a;
    } else {
      var n := |b| - 1;
      assert (a + b)[..|a + b| - 1] == a + b[..n];
      ProductAppend(csr, a, b[..n]);
    }
  }

  /** A success rate that two parts of a stretch multiply to. */
  ghost predicate Multiplicative(csr: (real, real, Mode) -> real) {
    && (forall n, m :: csr(n, 0.0, m) == 1.0)
    && (forall n, d, e, m :: d >= 0.0 && e >= 0.0 ==> csr(n, d, m) * csr(n, e, m) == csr(n, d + e, m))
  }

  /** The success rate over one stretch. */
  function Rate(csr: (real, real, Mode) -> real, a: real, b: real, noise: real, p: Plcp): (x: real)
  {
    Product(csr, Cut(a, b, noise, p))
  }

  lemma NoTime(csr: (real, real, Mode) -> real, n: real, m: Mode)
    requires Multiplicative(csr)
    ensures csr(n, 0.0, m) == 1.0
  {
  }

  lemma MoreTime(csr: (real, real, Mode) -> real, n: real, d: real, e: real, m: Mode)
    requires Multiplicative(csr) && d >= 0.0 && e >= 0.0
    ensures csr(n, d, m) * csr(n, e, m) == csr(n, d + e, m)
  {
  }

  /** The same, by the time spent in each mode. */
  lemma RateIs(csr: (real, real, Mode) -> real, a: real, b: real, noise: real, p: Plcp)
    requires Multiplicative(csr) && a <= b && p.header <= p.payload
    ensures Rate(csr, a, b, noise, p)
         == csr(noise, HeaderUpTo(b, p) - HeaderUpTo(a, p), Header)
            * csr(noise, PayloadUpTo(b, p) - PayloadUpTo(a, p), Payload)
  {
    hide Multiplicative, Product;
    var cut := Cut(a, b, noise, p);
    NoTime(csr, noise, Header);
    NoTime(csr, noise, Payload);
    if cut == [] {
      NoChunks(csr);
    } else if |cut| == 1 {
      OneFactor(csr, cut[0]);
      assert cut == [cut[0]];
    } else {
      TwoFactors(csr, cut[0], cut[1]);
      assert cut == [cut[0], cut[1]];
    }
  }

  function PayloadUpTo(t: real, p: Plcp): (r: real) {
    if t < p.payload then 0.0 else t - p.payload
  }

  lemma OneFactor(csr: (real, real, Mode) -> real, c: Chunk)
    ensures Product(csr, [c]) == csr(c.noise, c.to - c.from, c.mode)
  {
    assert [c][..0] == [];
  }

  lemma TwoFactors(csr: (real, real, Mode) -> real, c: Chunk, d: Chunk)
    ensures Product(csr, [c, d]) == csr(c.noise, c.to - c.from, c.mode) * csr(d.noise, d.to - d.from, d.mode)
  {
    OneFactor(csr, c);
    assert [c, d][..1] == [c];
  }

  lemma UpToMonotonic(a: real, b: real, p: Plcp)
    requires a <= b && p.header <= p.payload
    ensures HeaderUpTo(a, p) <= HeaderUpTo(b, p) && PayloadUpTo(a, p) <= PayloadUpTo(b, p)
  {
  }

  lemma RateSplits(csr: (real, real, Mode) -> real, a: real, b: real, c: real, noise: real, p: Plcp)
    requires Multiplicative(csr) && a <= b <= c && p.header <= p.payload
    ensures Rate(csr, a, b, noise, p) * Rate(csr, b, c, noise, p) == Rate(csr, a, c, noise, p)
  {
    hide Rate, HeaderUpTo, PayloadUpTo, Multiplicative;
    RateIs(csr, a, b, noise, p);
    RateIs(csr, b, c, noise, p);
    RateIs(csr, a, c, noise, p);
    UpToMonotonic(a, b, p);
    UpToMonotonic(b, c, p);
    var d, e := HeaderUpTo(b, p) - HeaderUpTo(a, p), HeaderUpTo(c, p) - HeaderUpTo(b, p);
    var f, g := PayloadUpTo(b, p) - PayloadUpTo(a, p), PayloadUpTo(c, p) - PayloadUpTo(b, p);
    MoreTime(csr, noise, d, e, Header);
    MoreTime(csr, noise, f, g, Payload);
    assert d + e == HeaderUpTo(c, p) - HeaderUpTo(a, p) && f + g == PayloadUpTo(c, p) - PayloadUpTo(a, p);
    Interleave(csr(noise, d, Header), csr(noise, f, Payload), csr(noise, e, Header), csr(noise, g, Payload));
  }

  lemma Interleave(a: real, b: real, c: real, d: real)
    ensures (a * b) * (c * d) == (a * c) * (b * d)
  {
  }

  /** Success over a list of changes. */
  function Success(csr: (real, real, Mode) -> real, t: real, noise: real, ni: seq<NIChange>, p: Plcp): (x: real)
  {
    Product(csr, Chunks(t, noise, ni, p))
  }

  lemma SuccessStep(csr: (real, real, Mode) -> real, t: real, noise: real, ni: seq<NIChange>, p: Plcp)
    requires ni != []
    ensures Success(csr, t, noise, ni, p)
         == Rate(csr, t, ni[0].time, noise, p) * Success(csr, ni[0].time, noise + ni[0].delta, ni[1..], p)
  {
    hide Product, Cut;
    ProductAppend(csr, Cut(t, ni[0].time, noise, p), Chunks(ni[0].time, noise + ni[0].delta, ni[1..], p));
  }

  /** An extra breakpoint anywhere before the last change, at which nothing changes, does
      not change the result. */
  lemma {:induction false} BreakpointsDoNotMatter(
      csr: (real, real, Mode) -> real, t: real, noise: real, before: seq<NIChange>, x: real, after: seq<NIChange>, p: Plcp)
    requires Multiplicative(csr) && p.header <= p.payload && after != []
    requires SortedFrom(t, before + [NIChange(x, 0.0)] + after)
    ensures Success(csr, t, noise, before + [NIChange(x, 0.0)] + after, p) == Success(csr, t, noise, before + after, p)
    decreases |before|
  {
    hide Success, Rate, Multiplicative;
    var extra := [NIChange(x, 0.0)];
    var l, r := before + extra + after, before + after;
    SuccessStep(csr, t, noise, l, p);
    SuccessStep(csr, t, noise, r, p);
    if before == [] {
      assert l[1..] == after && r == after;
      SuccessStep(csr, x, noise, after, p);
      RateSplits(csr, t, x, after[0].time, noise, p);
      Associate(Rate(csr, t, x, noise, p), Rate(csr, x, after[0].time, noise, p),
                Success(csr, after[0].time, noise + after[0].delta, after[1..], p));
    } else {
      assert l[1..] == before[1..] + extra + after && r[1..] == before[1..] + after;
      BreakpointsDoNotMatter(csr, before[0].time, noise + before[0].delta, before[1..], x, after, p);
    }
  }

  lemma Associate(a: real, b: real, c: real)
    ensures a * (b * c) == (a * b) * c
  {
  }

  lemma RateAtOnce(csr: (real, real, Mode) -> real, t: real, noise: real, p: Plcp)
    requires Multiplicative(csr) && p.header <= p.payload
    ensures Rate(csr, t, t, noise, p) == 1.0
  {
    RateIs(csr, t, t, noise, p);
  }

  /** Nor does the order in which the sort leaves two changes of the same time. */
  lemma {:induction false} TieOrderDoesNotMatter(
      csr: (real, real, Mode) -> real, t: real, noise: real, before: seq<NIChange>, x: NIChange, y: NIChange,
      after: seq<NIChange>, p: Plcp)
    requires Multiplicative(csr) && p.header <= p.payload && x.time == y.time
    ensures Success(csr, t, noise, before + [x, y] + after, p) == Success(csr, t, noise, before + [y, x] + after, p)
    decreases |before|
  {
    hide Success, Rate, Multiplicative;
    var l, r := before + [x, y] + after, before + [y, x] + after;
    SuccessStep(csr, t, noise, l, p);
    SuccessStep(csr, t, noise, r, p);
    if before == [] {
      assert l[1..] == [y] + after && r[1..] == [x] + after;
      SuccessStep(csr, x.time, noise + x.delta, [y] + after, p);
      SuccessStep(csr, x.time, noise + y.delta, [x] + after, p);
      assert ([y] + after)[1..] == after && ([x] + after)[1..] == after;
      RateAtOnce(csr, x.time, noise + x.delta, p);
      RateAtOnce(csr, x.time, noise + y.delta, p);
    } else {
      assert l[1..] == before[1..] + [x, y] + after && r[1..] == before[1..] + [y, x] + after;
      TieOrderDoesNotMatter(csr, before[0].time, noise + before[0].delta, before[1..], x, y, after, p);
    }
  }
}
