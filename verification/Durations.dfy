/**
 Duration fields of an RTS / CTS / DATA / ACK exchange.  Each frame carries the time
 the rest of the exchange will take, in whole microseconds in a 16-bit field, and
 each answer computes its own from the field it received.
 */
module Durations {

  const MICRO: real := 0.000001

  /** setDuration then getDuration: clamped below a microsecond, rounded to the
      nearest microsecond, kept in 16 bits. */
  function Field(duration: real): (units: int)
  {
    var d := if duration < MICRO then 0.0 else duration;
    (d * 1000000.0 + 0.5).Floor % 0x10000
  }

  function Carried(duration: real): (seconds: real)
  {
    Field(duration) as real / 1000000.0
  }

  /** Transmission times of the frames, and the space between them. */
  datatype Exchange = Exchange(sifs: real, cts: real, data: real, ack: real)

  ghost predicate Sane(x: Exchange) {
    0.0 <= x.sifs && 0.0 <= x.cts && 0.0 <= x.data && 0.0 <= x.ack
  }

  // The four fields, as the four send methods compute them.

  function AfterRts(x: Exchange): (d: real) {
    x.sifs + x.cts + x.sifs + x.data + x.sifs + x.ack
  }

  function RtsField(x: Exchange): (d: real) { Carried(AfterRts(x)) }

  function CtsField(x: Exchange): (d: real) { Carried(RtsField(x) - x.cts - x.sifs) }

  function DataField(x: Exchange): (d: real) { Carried(CtsField(x) - x.data - x.sifs) }

  function AckField(x: Exchange): (d: real) { Carried(DataField(x) - x.ack - x.sifs) }

  /** When each frame ends, counted from the end of the RTS, propagation taking no time. */
  function CtsEnd(x: Exchange): (t: real) { x.sifs + x.cts }
  function DataEnd(x: Exchange): (t: real) { CtsEnd(x) + x.sifs + x.data }
  function AckEnd(x: Exchange): (t: real) { DataEnd(x) + x.sifs + x.ack }

  predicate Within(a: real, b: real, slack: real) {
    -slack <= a - b <= slack
  }

  /** A value below the field's range is carried within half a microsecond, or as zero. */
  lemma CarriedClose(d: real)
    requires d * 1000000.0 + 0.5 < 65536.0
    ensures d >= MICRO ==> Within(Carried(d), d, MICRO / 2.0)
    ensures d < MICRO ==> Carried(d) == 0.0
    ensures 0.0 <= Carried(d)
  {
    if d >= MICRO {
      var f := (d * 1000000.0 + 0.5).Floor;
      assert 0 <= f < 65536;
      assert f % 0x10000 == f;
    } else {
      assert (0.0 * 1000000.0 + 0.5).Floor == 0;
    }
  }

  /** All four frames announce the end of the ACK, within 2 microseconds. */
  lemma DurationsTelescope(x: Exchange)
    requires Sane(x) && AfterRts(x) * 1000000.0 + 0.5 < 65536.0
    ensures Within(RtsField(x), AckEnd(x), 2.0 * MICRO)
    ensures Within(CtsEnd(x) + CtsField(x), AckEnd(x), 2.0 * MICRO)
    ensures Within(DataEnd(x) + DataField(x), AckEnd(x), 2.0 * MICRO)
    ensures Within(AckEnd(x) + AckField(x), AckEnd(x), 2.0 * MICRO)
  {
    CarriedClose(AfterRts(x));
    var c := RtsField(x) - x.cts - x.sifs;
    CarriedClose(c);
    var d := CtsField(x) - x.data - x.sifs;
    CarriedClose(d);
    CarriedClose(DataField(x) - x.ack - x.sifs);
  }

  /** The 16-bit field is what the announcement of the RTS depends on: it is right
      exactly when the rest of the exchange fits. */
  lemma RtsRightIffInRange(x: Exchange)
    requires Sane(x)
    ensures Within(RtsField(x), AckEnd(x), 2.0 * MICRO) <==> AfterRts(x) * 1000000.0 + 0.5 < 65536.0
  {
    var d := AfterRts(x);
    if d * 1000000.0 + 0.5 < 65536.0 {
      DurationsTelescope(x);
    } else {
      var f := (d * 1000000.0 + 0.5).Floor;
      assert f >= 65536;
      assert f % 0x10000 <= f - 0x10000;
    }
  }
}
