/**
 * The binary block `struct.unpack('IhffHhhhhhhhhhhhhhhhh', …)` reads, with
 * native byte order and alignment on a little-endian host:
 *
 *   0..3   u32  epoch seconds
 *   4..5   i16  satellites in view
 *   6..7        padding that aligns the first float (ignored)
 *   8..11  f32  latitude  (kept as its 32-bit word)
 *   12..15 f32  longitude (kept as its 32-bit word)
 *   16..17 u16  altitude
 *   18..49 i16  sixteen scaled channels
 */
module Layout {
  import opened Common

  const FrameSize: nat := 50
  const ChannelCount: nat := 16
  const ChannelsOffset: nat := 18

  predicate IsI16(v: int) {
    -0x8000 <= v < 0x8000
  }

  /** Unsigned little-endian 16-bit value at `off`. */
  function U16(b: seq<byte>, off: nat): (v: nat)
    requires off + 2 <= |b|
    ensures v < Two16
  {
    b[off] as int + 256 * b[off + 1] as int
  }

  /** Unsigned little-endian 32-bit value at `off`. */
  function U32(b: seq<byte>, off: nat): (v: nat)
    requires off + 4 <= |b|
    ensures v < Two32
  {
    U16(b, off) + Two16 * U16(b, off + 2)
  }

  /** Two's-complement reading of a 16-bit word. */
  function Signed16(w: nat): (v: int)
    requires w < Two16
    ensures IsI16(v)
  {
    if w < 0x8000 then w else w - Two16
  }

  /** Signed little-endian 16-bit value at `off`. */
  function I16(b: seq<byte>, off: nat): (v: int)
    requires off + 2 <= |b|
    ensures IsI16(v)
  {
    Signed16(U16(b, off))
  }

  function Le16(w: nat): (b: seq<byte>)
    requires w < Two16
    ensures |b| == 2 && U16(b, 0) == w
  {
    [w % 256, w / 256]
  }

  function Le32(w: nat): (b: seq<byte>)
    requires w < Two32
    ensures |b| == 4 && U32(b, 0) == w
  {
    Le16(w % Two16) + Le16(w / Two16)
  }

  /** Two's-complement 16-bit word of a signed value. */
  function Unsigned16(v: int): (w: nat)
    requires IsI16(v)
    ensures w < Two16 && Signed16(w) == v
  {
    if v >= 0 then v else v + Two16
  }

  /** The 21 values the format string yields, with the two floats as raw words. */
  datatype Frame = Frame(
    epoch: nat,
    siv: int,
    latitudeBits: nat,
    longitudeBits: nat,
    altitude: nat,
    channels: seq<int>)

  /** Each field fits the width and signedness its format code gives it. */
  predicate Valid(f: Frame) {
    && f.epoch < Two32
    && IsI16(f.siv)
    && f.latitudeBits < Two32
    && f.longitudeBits < Two32
    && f.altitude < Two16
    && |f.channels| == ChannelCount
    && forall k :: 0 <= k < |f.channels| ==> IsI16(f.channels[k])
  }

  /** Reads the block; `struct.unpack` demands exactly the format's 50 bytes. */
  function Unpack(b: seq<byte>): (f: Frame)
    requires |b| == FrameSize
    ensures Valid(f)
    ensures f.epoch == U32(b, 0) && f.siv == I16(b, 4)
    ensures f.latitudeBits == U32(b, 8) && f.longitudeBits == U32(b, 12)
    ensures f.altitude == U16(b, 16)
    ensures forall k :: 0 <= k < ChannelCount ==> f.channels[k] == I16(b, ChannelsOffset + 2 * k)
  {
    Frame(U32(b, 0), I16(b, 4), U32(b, 8), U32(b, 12), U16(b, 16),
          seq(ChannelCount, k requires 0 <= k < ChannelCount => I16(b, ChannelsOffset + 2 * k)))
  }

  /** Little-endian words of a list of signed 16-bit values. */
  function PackChannels(cs: seq<int>): (b: seq<byte>)
    requires forall k :: 0 <= k < |cs| ==> IsI16(cs[k])
    ensures |b| == 2 * |cs|
    ensures forall k :: 0 <= k < |cs| ==> I16(b, 2 * k) == cs[k]
  {
    if |cs| == 0 then []
    else
      var rest := PackChannels(cs[1..]);
      var b := Le16(Unsigned16(cs[0])) + rest;
      assert forall k :: 1 <= k < |cs| ==> I16(b, 2 * k) == I16(rest, 2 * (k - 1));
      b
  }

  /**
   * The block a sender that packs with the same format writes: the fields
   * in order, zeros in the padding.
   */
  function Pack(f: Frame): (b: seq<byte>)
    requires Valid(f)
    ensures |b| == FrameSize
    ensures b[6] == 0 && b[7] == 0
  {
    Le32(f.epoch) + Le16(Unsigned16(f.siv)) + [0, 0] + Le32(f.latitudeBits) +
    Le32(f.longitudeBits) + Le16(f.altitude) + PackChannels(f.channels)
  }

  /** Unpacking a packed frame gives back every field. */
  lemma UnpackPack(f: Frame)
    requires Valid(f)
    ensures Unpack(Pack(f)) == f
  {
    var b := Pack(f);
    var cs := PackChannels(f.channels);
    assert b[..4] == Le32(f.epoch);
    assert b[4..6] == Le16(Unsigned16(f.siv));
    assert b[8..12] == Le32(f.latitudeBits);
    assert b[12..16] == Le32(f.longitudeBits);
    assert b[16..18] == Le16(f.altitude);
    assert b[18..] == cs;
    var g := Unpack(b);
    forall k | 0 <= k < ChannelCount
      ensures g.channels[k] == f.channels[k]
    {
      assert I16(b, ChannelsOffset + 2 * k) == I16(cs, 2 * k);
    }
  }

  /** Packing an unpacked block restores it, except that the padding becomes zero. */
  lemma PackUnpack(b: seq<byte>)
    requires |b| == FrameSize
    ensures Pack(Unpack(b)) == b[6 := 0][7 := 0]
  {
    var p := Pack(Unpack(b));
    UnpackPack(Unpack(b));
    PaddingIgnored(b, 0, 0);
    UnpackInjective(p, b[6 := 0][7 := 0]);
  }

  /** Two blocks that agree in their padding and decode alike are the same block. */
  lemma UnpackInjective(x: seq<byte>, y: seq<byte>)
    requires |x| == FrameSize && |y| == FrameSize
    requires x[6] == y[6] && x[7] == y[7]
    requires Unpack(x) == Unpack(y)
    ensures x == y
  {
    var f := Unpack(x);
    forall i | 0 <= i < FrameSize
      ensures x[i] == y[i]
    {
      if i >= ChannelsOffset {
        var k := (i - ChannelsOffset) / 2;
        var o := ChannelsOffset + 2 * k;
        assert I16(x, o) == f.channels[k] == I16(y, o);
        ByteOfWord(x, y, o, o);
      } else if i >= 16 {
        ByteOfWord(x, y, 16, 16);
      } else if 8 <= i {
        var o := if i < 12 then 8 else 12;
        HalvesOfWord(x, y, o);
        ByteOfWord(x, y, o, o);
        ByteOfWord(x, y, o + 2, o + 2);
      } else if 4 <= i < 6 {
        ByteOfWord(x, y, 4, 4);
      } else if i < 4 {
        HalvesOfWord(x, y, 0);
        ByteOfWord(x, y, 0, 0);
        ByteOfWord(x, y, 2, 2);
      }
    }
  }

  /** Equal 32-bit words are made of equal 16-bit halves. */
  lemma HalvesOfWord(x: seq<byte>, y: seq<byte>, off: nat)
    requires off + 4 <= |x| && off + 4 <= |y| && U32(x, off) == U32(y, off)
    ensures U16(x, off) == U16(y, off) && U16(x, off + 2) == U16(y, off + 2)
  {
  }

  /** Equal 16-bit words are made of equal bytes. */
  lemma ByteOfWord(p: seq<byte>, b: seq<byte>, i: nat, j: nat)
    requires i + 2 <= |p| && j + 2 <= |b| && (U16(p, i) == U16(b, j) || I16(p, i) == I16(b, j))
    ensures p[i] == b[j] && p[i + 1] == b[j + 1]
  {
  }

  /** Bytes 6 and 7 take no part in decoding. */
  lemma PaddingIgnored(b: seq<byte>, x: byte, y: byte)
    requires |b| == FrameSize
    ensures Unpack(b[6 := x][7 := y]) == Unpack(b)
  {
    var b' := b[6 := x][7 := y];
    assert forall k :: 0 <= k < ChannelCount ==> I16(b', ChannelsOffset + 2 * k) == I16(b, ChannelsOffset + 2 * k);
  }
}
