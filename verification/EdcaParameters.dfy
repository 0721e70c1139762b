/**
 The EDCA parameter block: four access categories, four octets each, written by the
 access point and read back by every station.
 */
module EdcaParameters {
  import opened Prelude

  type byte = x: nat | x < 256

  /** One access category's parameters: an 8-bit AIFSN, two 16-bit windows, seconds. */
  datatype Params = Params(aifsn: nat, acm: bool, cwMin: nat, cwMax: nat, txopLimit: real)

  ghost predicate Typed(p: Params) {
    p.aifsn < 0x100 && p.cwMin < 0x10000 && p.cwMax < 0x10000
  }

  const TXOP_UNIT: real := 0.000032

  // ---------------------------------------------------------------------
  // Bits
  // ---------------------------------------------------------------------

  /** How many bits it takes to write v, and 1 for zero: what the shifting loop counts. */
  function Bits(v: nat): (n: nat)
    ensures n > 0
  {
    if v / 2 == 0 then 1 else 1 + Bits(v / 2)
  }

  lemma {:induction false} BitsExact(v: nat)
    ensures v < Power2(Bits(v)) && (v > 0 ==> Power2(Bits(v) - 1) <= v)
  {
    if v / 2 != 0 {
      BitsExact(v / 2);
      assert Power2(Bits(v)) == 2 * Power2(Bits(v / 2)) && Power2(Bits(v) - 1) == 2 * Power2(Bits(v / 2) - 1);
    }
  }

  lemma BitsBelow(v: nat, k: nat)
    requires 0 < k && v < Power2(k)
    ensures Bits(v) <= k
  {
    var top: nat := Bits(v) - 1;
    BitsExact(v);
    if top > k {
      Power2Monotonic(k, top);
    }
  }

  // ---------------------------------------------------------------------
  // The codec
  // ---------------------------------------------------------------------

  /** A number of units in seconds. */
  function Seconds(n: int): (s: real)
  {
    n as real * TXOP_UNIT
  }

  /** lrint of the limit in units of 32 microseconds. */
  function TxopUnits(limit: real): (n: int)
  {
    Lrint(limit / TXOP_UNIT)
  }

  /** What an 8-bit variable keeps of a value. */
  function Octet(v: nat): (b: byte)
    ensures v < 256 ==> b == v
  {
    v % 256
  }

  function FirstOctet(p: Params, ac: nat): (b: byte)
    requires ac < 4
  {
    Octet(Or(Or(Octet(p.aifsn * 16), (if p.acm then 1 else 0) * 8), ac * 2))
  }

  function SecondOctet(p: Params): (b: byte)
  {
    Octet(Or(Octet(Bits(p.cwMin) * 16), Bits(p.cwMax)))
  }

  /** writeTo. */
  function Write(p: Params, ac: nat): (b: seq<byte>)
    requires ac < 4
    ensures |b| == 4
  {
    [FirstOctet(p, ac), SecondOctet(p), TxopUnits(p.txopLimit) / 256 % 256, TxopUnits(p.txopLimit) % 256]
  }

  /** readFrom. */
  function Read(b: seq<byte>): (p: Params)
    requires |b| == 4
    ensures Typed(p)
  {
    EcwFits(b[1] / 16 % 16);
    EcwFits(b[1] % 16);
    var high: nat := b[2];
    Params(b[0] / 16 % 16, b[0] / 8 % 2 == 1,
           Power2(b[1] / 16 % 16) - 1, Power2(b[1] % 16) - 1,
           Seconds(Or(high * 256, b[3])))
  }

  lemma EcwFits(e: nat)
    requires e < 16
    ensures Power2(e) <= 0x8000
  {
    assert Power2(15) == 0x8000 by { assert Power2(8) == 256; }
    if e < 15 {
      Power2Monotonic(e, 15);
    }
  }

  // ---------------------------------------------------------------------
  // What comes back
  // ---------------------------------------------------------------------

  /** A contention window of the form 2^k - 1 that fits the four-bit exponent. */
  ghost predicate IsMask(v: nat) {
    exists k :: 1 <= k <= 15 && v == Power2(k) - 1
  }

  /** r is the least mask not below v. */
  ghost predicate LeastMask(v: nat, r: nat) {
    v <= r && IsMask(r) && forall m :: IsMask(m) && v <= m ==> r <= m
  }

  lemma FirstOctetBack(p: Params, ac: nat)
    requires ac < 4
    ensures FirstOctet(p, ac) / 16 % 16 == p.aifsn % 16
    ensures FirstOctet(p, ac) / 8 % 2 == 1 <==> p.acm
  {
    hide FirstOctet;
    FirstOctetSum(p, ac);
    Digits(p.aifsn % 16, if p.acm then 1 else 0, ac);
  }

  lemma FirstOctetSum(p: Params, ac: nat)
    requires ac < 4
    ensures FirstOctet(p, ac) == p.aifsn % 16 * 16 + (if p.acm then 1 else 0) * 8 + ac * 2
  {
    hide Or, Octet;
    var h: nat, a: nat := p.aifsn % 16, if p.acm then 1 else 0;
    LowNibble(p.aifsn);
    OrThree(h, a, ac);
  }

  lemma LowNibble(v: nat)
    ensures Octet(v * 16) == v % 16 * 16
  {
    assert v * 16 == v / 16 * 256 + v % 16 * 16;
  }

  lemma OrThree(h: nat, a: nat, c: nat)
    requires a < 2 && c < 4
    ensures Or(Or(h * 16, a * 8), c * 2) == h * 16 + a * 8 + c * 2
  {
    hide Or;
    OrNibble(h, a * 8);
    OrEighths(2 * h + a, c * 2);
    assert (2 * h + a) * 8 == h * 16 + a * 8;
  }

  lemma Digits(h: nat, a: nat, c: nat)
    requires h < 16 && a < 2 && c < 4
    ensures (h * 16 + a * 8 + c * 2) / 16 % 16 == h && (h * 16 + a * 8 + c * 2) / 8 % 2 == a
  {
  }

  lemma OrEighths(high: nat, low: nat)
    requires low < 8
    ensures Or(high * 8, low) == high * 8 + low
  {
    assert Power2(3) == 8;
    OrDisjoint(high, low, 3);
  }

  lemma SecondOctetBack(p: Params)
    requires p.cwMin < 0x8000 && p.cwMax < 0x8000
    ensures SecondOctet(p) / 16 == Bits(p.cwMin) && SecondOctet(p) % 16 == Bits(p.cwMax)
  {
    hide Or, Bits;
    BitsFit(p.cwMin);
    BitsFit(p.cwMax);
    OrNibble(Bits(p.cwMin), Bits(p.cwMax));
  }

  lemma BitsFit(v: nat)
    requires v < 0x8000
    ensures Bits(v) <= 15
  {
    assert Power2(15) == 0x8000 by { assert Power2(8) == 256; }
    BitsBelow(v, 15);
  }

  lemma TxopBack(limit: real)
    ensures Or(TxopUnits(limit) / 256 % 256 * 256, TxopUnits(limit) % 256) == TxopUnits(limit) % 0x10000
  {
    hide Or, TxopUnits;
    var n := TxopUnits(limit);
    OrOctet(n / 256 % 256, n % 256);
  }

  lemma OrOctet(high: nat, low: nat)
    requires low < 256
    ensures Or(high * 256, low) == high * 256 + low
  {
    assert Power2(8) == 256;
    OrDisjoint(high, low, 8);
  }

  /** e is the exponent of a contention window: the least positive one with v below 2^e. */
  ghost predicate Exponent(v: nat, e: nat) {
    e > 0 && v < Power2(e) && (e > 1 ==> Power2(e - 1) <= v)
  }

  /** The layout of the four octets: AIFSN, ACM and category; the two exponents; the limit
      to the nearest unit of 32 microseconds, high octet first. */
  lemma Layout(p: Params, ac: nat, min: nat, max: nat, units: int)
    requires Typed(p) && ac < 4 && p.cwMin < 0x8000 && p.cwMax < 0x8000
    requires Exponent(p.cwMin, min) && Exponent(p.cwMax, max) && Nearest(p.txopLimit / 0.000032, units)
    ensures var b := Write(p, ac);
      && b[0] == p.aifsn % 16 * 16 + (if p.acm then 8 else 0) + ac * 2
      && b[1] == min * 16 + max
      && b[2] as int * 256 + b[3] as int == units % 0x10000
  {
    hide Or, Bits, FirstOctet, SecondOctet, Exponent;
    FirstOctetSum(p, ac);
    BitsAre(p.cwMin, min);
    BitsAre(p.cwMax, max);
    SecondOctetBack(p);
    assert TxopUnits(p.txopLimit) == units by {
      NearestUnique(p.txopLimit / 0.000032, units, TxopUnits(p.txopLimit));
    }
    TwoOctets(units);
  }

  lemma TwoOctets(n: int)
    ensures n / 256 % 256 * 256 + n % 256 == n % 0x10000
  {
  }

  lemma BitsAre(v: nat, e: nat)
    requires Exponent(v, e)
    ensures Bits(v) == e
  {
    BitsBelow(v, e);
    BitsExact(v);
    if Bits(v) < e {
      if Bits(v) < e - 1 {
        Power2Monotonic(Bits(v), e - 1);
      }
    }
  }

  /** Rounding up to a mask is what the exponent does. */
  lemma MaskOfBits(v: nat)
    requires 0 < v < 0x8000
    ensures LeastMask(v, Power2(Bits(v)) - 1)
  {
    hide Bits;
    BitsExact(v);
    BitsFit(v);
    forall m | IsMask(m) && v <= m ensures Power2(Bits(v)) - 1 <= m {
      var k :| 1 <= k <= 15 && m == Power2(k) - 1;
      MaskNotBelow(v, k);
    }
  }

  lemma MaskNotBelow(v: nat, k: nat)
    requires 0 < k && v < Power2(k)
    ensures Power2(Bits(v)) <= Power2(k)
  {
    BitsBelow(v, k);
    if Bits(v) < k {
      Power2Monotonic(Bits(v), k);
    }
  }

  /** What a station reads from what the access point wrote. */
  lemma RoundTrip(p: Params, ac: nat)
    requires Typed(p) && ac < 4
    ensures var q := Read(Write(p, ac));
      q.aifsn == p.aifsn % 16 && q.acm == p.acm
      && q.txopLimit == Seconds(TxopUnits(p.txopLimit) % 0x10000)
      && (0 < p.cwMin < 0x8000 && 0 < p.cwMax < 0x8000 ==> LeastMask(p.cwMin, q.cwMin) && LeastMask(p.cwMax, q.cwMax))
  {
    hide Or, Bits, TxopUnits, LeastMask, FirstOctet, SecondOctet;
    FirstOctetBack(p, ac);
    TxopBack(p.txopLimit);
    if 0 < p.cwMin < 0x8000 && 0 < p.cwMax < 0x8000 {
      SecondOctetBack(p);
      BitsFit(p.cwMin);
      MaskOfBits(p.cwMin);
      MaskOfBits(p.cwMax);
    }
  }

  /** A limit the block can carry. */
  ghost predicate WholeUnits(limit: real) {
    exists n :: 0 <= n < 0x10000 && limit == Seconds(n)
  }

  ghost predicate Exact(p: Params) {
    p.aifsn < 16 && IsMask(p.cwMin) && IsMask(p.cwMax) && WholeUnits(p.txopLimit)
  }

  lemma TxopExact(limit: real)
    ensures Seconds(TxopUnits(limit) % 0x10000) == limit <==> WholeUnits(limit)
  {
    if WholeUnits(limit) {
      var n :| 0 <= n < 0x10000 && limit == Seconds(n);
      assert limit / TXOP_UNIT == n as real;
    }
  }

  /** Windows too wide for the exponent, and the empty window, never come back. */
  lemma WindowsLost(p: Params)
    requires Typed(p) && !(0 < p.cwMin < 0x8000 && 0 < p.cwMax < 0x8000)
    ensures Power2(SecondOctet(p) / 16 % 16) - 1 != p.cwMin || Power2(SecondOctet(p) % 16) - 1 != p.cwMax
  {
    hide Or, Bits, SecondOctet;
    if p.cwMax >= 0x8000 {
      EcwFits(SecondOctet(p) % 16);
    } else if p.cwMin >= 0x8000 {
      EcwFits(SecondOctet(p) / 16 % 16);
    } else {
      SecondOctetBack(p);
      BitsFit(p.cwMin);
      if p.cwMin == 0 {
        BitsPositive(0);
      } else {
        BitsPositive(p.cwMax);
      }
    }
  }

  lemma BitsPositive(v: nat)
    ensures Power2(Bits(v)) >= 2
  {
    assert Power2(Bits(v)) == 2 * Power2(Bits(v) - 1);
  }

  lemma MaskInRange(v: nat)
    requires IsMask(v)
    ensures 0 < v < 0x8000
  {
    var k :| 1 <= k <= 15 && v == Power2(k) - 1;
    EcwFits(k);
    assert Power2(k) == 2 * Power2(k - 1);
  }

  lemma LeastMaskExact(v: nat, r: nat)
    requires LeastMask(v, r)
    ensures r == v <==> IsMask(v)
  {
  }

  /** Exactly these parameters come back unchanged. */
  lemma UnchangedIff(p: Params, ac: nat)
    requires Typed(p) && ac < 4
    ensures Read(Write(p, ac)) == p <==> Exact(p)
  {
    hide Write, LeastMask, TxopUnits, IsMask, WholeUnits;
    var q := Read(Write(p, ac));
    RoundTrip(p, ac);
    TxopExact(p.txopLimit);
    if 0 < p.cwMin < 0x8000 && 0 < p.cwMax < 0x8000 {
      LeastMaskExact(p.cwMin, q.cwMin);
      LeastMaskExact(p.cwMax, q.cwMax);
    } else {
      NeitherWindow(p, ac);
      if IsMask(p.cwMin) && IsMask(p.cwMax) {
        MaskInRange(p.cwMin);
        MaskInRange(p.cwMax);
      }
    }
  }

  lemma NeitherWindow(p: Params, ac: nat)
    requires Typed(p) && ac < 4 && !(0 < p.cwMin < 0x8000 && 0 < p.cwMax < 0x8000)
    ensures Read(Write(p, ac)) != p
  {
    hide SecondOctet, FirstOctet, TxopUnits, Or;
    WindowsLost(p);
  }

  /** The other way round: octets read and written again for category ac are the same
      exactly if they name that category and neither exponent is zero. */
  lemma ReadThenWrite(b: seq<byte>, ac: nat)
    requires |b| == 4 && ac < 4
    ensures Write(Read(b), ac) == b <==> b[0] % 8 == ac * 2 && b[1] / 16 != 0 && b[1] % 16 != 0
  {
    hide Or, Bits, FirstOctet, SecondOctet, TxopUnits, Power2, Seconds;
    var p := Read(b);
    FirstAgain(b[0], p, ac);
    SecondAgain(b[1], p);
    LastAgain(b[2], b[3]);
  }

  lemma FirstAgain(b: byte, p: Params, ac: nat)
    requires ac < 4 && p.aifsn == b / 16 % 16 && p.acm == (b / 8 % 2 == 1)
    ensures FirstOctet(p, ac) == b <==> b % 8 == ac * 2
  {
    hide FirstOctet;
    FirstOctetSum(p, ac);
    assert b == b / 16 * 16 + b / 8 % 2 * 8 + b % 8;
  }

  lemma SecondAgain(b: byte, p: Params)
    requires p.cwMin == Power2(b / 16 % 16) - 1 && p.cwMax == Power2(b % 16) - 1
    ensures SecondOctet(p) == b <==> b / 16 != 0 && b % 16 != 0
  {
    hide SecondOctet, Bits, Power2;
    EcwFits(b / 16 % 16);
    EcwFits(b % 16);
    ExponentBack(b / 16);
    ExponentBack(b % 16);
    SecondOctetBack(p);
  }

  lemma ExponentBack(e: nat)
    ensures Bits(Power2(e) - 1) == if e == 0 then 1 else e
  {
    if e > 1 {
      assert Power2(e) == 2 * Power2(e - 1);
    }
    BitsAre(Power2(e) - 1, if e == 0 then 1 else e);
  }

  lemma LastAgain(high: byte, low: byte)
    ensures var units := TxopUnits(Seconds(Or(high * 256, low)));
      units / 256 % 256 == high && units % 256 == low
  {
    hide Or;
    var h: nat := high;
    OrOctet(h, low);
    var n := h * 256 + low;
    assert Seconds(n) / TXOP_UNIT == n as real;
    NearestUnique(n as real, n, TxopUnits(Seconds(n)));
  }

  // ---------------------------------------------------------------------
  // The block
  // ---------------------------------------------------------------------

  function WriteBlock(ps: seq<Params>): (b: seq<byte>)
    requires |ps| <= 4
    ensures |b| == 4 * |ps|
  {
    if ps == [] then [] else WriteBlock(ps[..|ps| - 1]) + Write(ps[|ps| - 1], |ps| - 1)
  }

  function ReadBlock(b: seq<byte>, n: nat): (ps: seq<Params>)
    requires |b| >= 4 * n
    ensures |ps| == n
  {
    if n == 0 then [] else ReadBlock(b, n - 1) + [Read(b[4 * n - 4..4 * n])]
  }

  lemma {:induction false} ReadAt(b: seq<byte>, n: nat, i: nat)
    requires |b| >= 4 * n && i < n
    ensures ReadBlock(b, n)[i] == Read(b[4 * i..4 * i + 4])
  {
    if i < n - 1 {
      ReadAt(b, n - 1, i);
    }
  }

  lemma {:induction false} WriteAt(ps: seq<Params>, i: nat)
    requires i < |ps| <= 4
    ensures WriteBlock(ps)[4 * i..4 * i + 4] == Write(ps[i], i)
  {
    var n := |ps| - 1;
    if i < n {
      WriteAt(ps[..n], i);
      assert WriteBlock(ps)[4 * i..4 * i + 4] == WriteBlock(ps[..n])[4 * i..4 * i + 4];
    }
  }

  /** Every access category gets what its own round trip gives, and the whole block comes
      back unchanged exactly if each of them does. */
  lemma BlockRoundTrip(ps: seq<Params>)
    requires |ps| == 4 && forall i :: 0 <= i < 4 ==> Typed(ps[i])
    ensures forall i :: 0 <= i < 4 ==> ReadBlock(WriteBlock(ps), 4)[i] == Read(Write(ps[i], i))
    ensures ReadBlock(WriteBlock(ps), 4) == ps <==> forall i :: 0 <= i < 4 ==> Exact(ps[i])
  {
    hide Read, Write, Exact, ReadBlock, WriteBlock;
    var qs := ReadBlock(WriteBlock(ps), 4);
    forall i | 0 <= i < 4 ensures qs[i] == Read(Write(ps[i], i)) && (qs[i] == ps[i] <==> Exact(ps[i])) {
      ReadAt(WriteBlock(ps), 4, i);
      WriteAt(ps, i);
      UnchangedIff(ps[i], i);
    }
  }

  // ---------------------------------------------------------------------
  // The parameter objects
  // ---------------------------------------------------------------------

  class MacDcfParameters {
    var aifsn: nat
    var acm: bool
    var cwMin: nat
    var cwMax: nat
    var txopLimit: real

    ghost function Value(): Params
      reads this
    {
      Params(aifsn, acm, cwMin, cwMax, txopLimit)
    }

    /** The flag acm is left as found in memory. */
    constructor (acm: bool)
      ensures Value() == Params(2, acm, 15, 1023, 0.0) && Typed(Value())
    {
      aifsn, this.acm, cwMin, cwMax, txopLimit := 2, acm, 15, 1023, 0.0;
    }

    /** writeTo, at the given place in a longer buffer. */
    method WriteTo(buffer: array<byte>, at: nat, ac: nat)
      requires ac < 4 && at + 4 <= buffer.Length
      modifies buffer
      ensures buffer[..] == old(buffer[..at]) + Write(Value(), ac) + old(buffer[at + 4..])
    {
      var flag := if acm then 1 else 0;
      buffer[at] := Octet(Or(Or(Octet(aifsn * 16), flag * 8), ac * 2));
      var ecwMin := Log2(cwMin);
      var ecwMax := Log2(cwMax);
      buffer[at + 1] := Octet(Or(Octet(ecwMin * 16), ecwMax));
      var units := Lrint(txopLimit / TXOP_UNIT);
      buffer[at + 2] := units / 256 % 256;
      buffer[at + 3] := units % 256;
    }

    /** readFrom, likewise. */
    method ReadFrom(buffer: array<byte>, at: nat)
      requires at + 4 <= buffer.Length
      modifies this
      ensures Value() == Read(buffer[at..at + 4])
    {
      var first, second, third, fourth := buffer[at], buffer[at + 1], buffer[at + 2], buffer[at + 3];
      var high: nat := third;
      aifsn, acm := first / 16 % 16, first / 8 % 2 == 1;
      EcwFits(second / 16 % 16);
      EcwFits(second % 16);
      cwMin, cwMax := Power2(second / 16 % 16) - 1, Power2(second % 16) - 1;
      txopLimit := Seconds(Or(high * 256, fourth));
    }
  }

  /** log2: a loop that shifts until nothing is left, at least once. */
  method Log2(v: nat) returns (log: nat)
    ensures log == Bits(v)
    ensures v < Power2(log) && (v > 0 ==> Power2(log - 1) <= v)
  {
    log := 1;
    var rest: nat := v / 2;
    while rest != 0
      invariant Bits(v) == log - 1 + (if rest == 0 then 1 else 1 + Bits(rest))
    {
      log := log + 1;
      rest := rest / 2;
    }
    BitsExact(v);
  }

  ghost function Values(ps: seq<MacDcfParameters>): (vs: seq<Params>)
    reads ps
    ensures |vs| == |ps|
  {
    seq(|ps|, i requires 0 <= i < |ps| reads ps => ps[i].Value())
  }

  /** storeEdcaParametersInPacket. */
  method StoreEdcaParameters(parameters: seq<MacDcfParameters>) returns (buffer: array<byte>)
    requires |parameters| == 4
    ensures fresh(buffer) && buffer[..] == WriteBlock(Values(parameters))
  {
    hide Write;
    buffer := new byte[4 * 4];
    for ac := 0 to 4
      invariant buffer.Length == 16 && fresh(buffer)
      invariant buffer[..4 * ac] == WriteBlock(Values(parameters)[..ac])
    {
      parameters[ac].WriteTo(buffer, 4 * ac, ac);
      assert Values(parameters)[..ac + 1][..ac] == Values(parameters)[..ac];
    }
    assert buffer[..16] == buffer[..] && Values(parameters)[..4] == Values(parameters);
  }

  ghost predicate Separate(ps: seq<MacDcfParameters>) {
    forall i, j :: 0 <= i < j < |ps| ==> ps[i] != ps[j]
  }

  /** updateEDCAParameters: a packet without a buffer changes nothing. */
  method UpdateEdcaParameters(parameters: seq<MacDcfParameters>, buffer: array?<byte>)
    requires |parameters| == 4 && Separate(parameters)
    requires buffer != null ==> buffer.Length >= 16
    modifies parameters
    ensures buffer == null ==> forall i :: 0 <= i < 4 ==> parameters[i].Value() == old(parameters[i].Value())
    ensures buffer != null ==> forall i :: 0 <= i < 4 ==> parameters[i].Value() == ReadBlock(buffer[..], 4)[i]
  {
    hide Read, ReadBlock;
    if buffer == null {
      return;
    }
    for i := 0 to 4
      invariant forall k :: 0 <= k < i ==> parameters[k].Value() == ReadBlock(buffer[..], 4)[k]
    {
      parameters[i].ReadFrom(buffer, 4 * i);
      ReadAt(buffer[..], 4, i);
      assert buffer[4 * i..4 * i + 4] == buffer[..][4 * i..4 * i + 4];
    }
  }

  /** What the access point announces, its stations take over: all four categories come
      back rounded as RoundTrip says, and unchanged exactly if all can be carried. */
  method Announce(ap: seq<MacDcfParameters>, sta: seq<MacDcfParameters>)
    requires |ap| == 4 && |sta| == 4 && Separate(sta)
    requires forall i, j :: 0 <= i < 4 && 0 <= j < 4 ==> ap[i] != sta[j]
    requires forall i :: 0 <= i < 4 ==> Typed(ap[i].Value())
    modifies sta
    ensures forall i :: 0 <= i < 4 ==> sta[i].Value() == Read(Write(ap[i].Value(), i))
    ensures (forall i :: 0 <= i < 4 ==> sta[i].Value() == ap[i].Value()) <==> (forall i :: 0 <= i < 4 ==> Exact(ap[i].Value()))
  {
    hide Read, Write, ReadBlock, WriteBlock, Exact, Typed;
    var buffer := StoreEdcaParameters(ap);
    UpdateEdcaParameters(sta, buffer);
    BlockRoundTrip(Values(ap));
  }
}
