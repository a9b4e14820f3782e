/**
 * Fixed-point channels to engineering units. Of the 21 unpacked values,
 * indices 5..11 (pressure, three temperatures, roll, pitch, yaw) are tenths,
 * 12..14 (average velocities) thousandths and 15..20 (velocity deviations and
 * peaks) hundredths; indices 0..4 are left as read. The sixteen channels are
 * indices 5..20, so channel `k` is unpacked value `k + 5`.
 */
module Scaling {
  import Layout

  const FirstScaled: nat := 5
  const Unpacked: nat := 21

  /** The divisor of unpacked value `i`, by the three index groups. */
  function Divisor(i: nat): (d: nat)
    requires FirstScaled <= i < Unpacked
    ensures d > 0
  {
    if i < 12 then 10 else if i < 15 then 1000 else 100
  }

  function ChannelDivisor(k: nat): (d: nat)
    requires k < Layout.ChannelCount
    ensures d > 0
  {
    Divisor(k + FirstScaled)
  }

  /** Each channel divided exactly by its group's divisor. */
  function Scale(raw: seq<int>): (v: seq<real>)
    requires |raw| == Layout.ChannelCount
    ensures |v| == |raw|
    ensures forall k :: 0 <= k < 7 ==> v[k] * 10.0 == raw[k] as real
    ensures forall k :: 7 <= k < 10 ==> v[k] * 1000.0 == raw[k] as real
    ensures forall k :: 10 <= k < 16 ==> v[k] * 100.0 == raw[k] as real
  {
    seq(|raw|, k requires 0 <= k < |raw| => raw[k] as real / ChannelDivisor(k) as real)
  }

  /** Python's `int()` of a real: truncation toward zero. */
  function Truncate(x: real): (n: int)
    ensures x >= 0.0 ==> n as real <= x < n as real + 1.0
    ensures x < 0.0 ==> n as real - 1.0 < x <= n as real
  {
    if x >= 0.0 then x.Floor else -((-x).Floor)
  }

  /**
   * What a sender does before packing: multiply each engineering value by
   * its divisor and truncate to an integer.
   */
  function Unscale(v: seq<real>): (raw: seq<int>)
    requires |v| == Layout.ChannelCount
    ensures |raw| == |v|
  {
    seq(|v|, k requires 0 <= k < |v| => Truncate(v[k] * ChannelDivisor(k) as real))
  }

  /** Scaling then unscaling loses nothing: every scaled value is an exact multiple of its unit. */
  lemma UnscaleScale(raw: seq<int>)
    requires |raw| == Layout.ChannelCount
    ensures Unscale(Scale(raw)) == raw
  {
    var v := Scale(raw);
    forall k | 0 <= k < |raw|
      ensures Unscale(v)[k] == raw[k]
    {
      var d := ChannelDivisor(k) as real;
      assert v[k] * d == raw[k] as real;
    }
  }

  /** Unscaling then scaling recovers each value to within one unit of its group (0.1, 0.001 or 0.01). */
  lemma ScaleUnscale(v: seq<real>)
    requires |v| == Layout.ChannelCount
    ensures forall k :: 0 <= k < |v| ==>
      -1.0 < (Scale(Unscale(v))[k] - v[k]) * ChannelDivisor(k) as real < 1.0
  {
    var raw := Unscale(v);
    var w := Scale(raw);
    forall k | 0 <= k < |v|
      ensures -1.0 < (w[k] - v[k]) * ChannelDivisor(k) as real < 1.0
    {
      var d := ChannelDivisor(k) as real;
      assert w[k] * d == raw[k] as real;
      assert (w[k] - v[k]) * d == raw[k] as real - v[k] * d;
    }
  }
}
