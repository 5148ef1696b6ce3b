/** Decoded frames and the per-frame arithmetic of the video metrics:
    the channel sum (brightness), the absolute-difference sum (contrast)
    and the colour-bin occupancy count (histogram). */
module Frames {
  import opened Series

  /** One 8-bit colour component, as the decoder stores it. */
  type Byte = x: int | 0 <= x < 256

  /** One pixel: its three channels in the decoder's order (blue, green, red). */
  datatype Pixel = Pixel(c0: Byte, c1: Byte, c2: Byte)

  /** A decoded frame, its rows flattened into one sequence of pixels. */
  type Frame = seq<Pixel>

  /** 2^32: the range of the `uint32` accumulators. */
  const Uint32: int := 0x1_0000_0000

  /** Bins per channel (`BINLEN`) and bins in all (`BINLEN ** 3`). */
  const BinLen: nat := 8
  const Bins: nat := 512

  /** Reduces an accumulated sum to what a `uint32` accumulator holds. */
  function Wrap32(x: int): (r: int)
    ensures 0 <= r < Uint32
    ensures 0 <= x < Uint32 ==> r == x
    ensures (x - r) % Uint32 == 0
  {
    x % Uint32
  }

  // ---------------------------------------------------------------- brightness

  function PixelSum(p: Pixel): nat
  {
    p.c0 + p.c1 + p.c2
  }

  /** Exact sum of every colour component of every pixel of `f`. */
  function ByteSum(f: Frame): (s: nat)
    ensures s <= 765 * |f|
    ensures s == 0 <==> forall k :: 0 <= k < |f| ==> f[k] == Pixel(0, 0, 0)
  {
    if f == [] then 0
    else
      var s := ByteSum(f[..|f| - 1]) + PixelSum(f[|f| - 1]);
      assert forall k :: 0 <= k < |f| - 1 ==> f[..|f| - 1][k] == f[k];
      s
  }

  // ------------------------------------------------------------------ contrast

  /** |x - y| on two bytes widened to `int16` first, so that nothing wraps. */
  function ChannelDiff(x: Byte, y: Byte): (d: nat)
    ensures d <= 255
    ensures d == 0 <==> x == y
  {
    if x < y then y - x else x - y
  }

  function PixelDiff(p: Pixel, q: Pixel): nat
  {
    ChannelDiff(p.c0, q.c0) + ChannelDiff(p.c1, q.c1) + ChannelDiff(p.c2, q.c2)
  }

  /** Exact sum over every pixel and channel of |b - a|. */
  function AbsDiffSum(a: Frame, b: Frame): (s: nat)
    requires |a| == |b|
    ensures s <= 765 * |a|
  {
    if a == [] then 0
    else AbsDiffSum(a[..|a| - 1], b[..|b| - 1]) + PixelDiff(a[|a| - 1], b[|b| - 1])
  }

  /** The difference sum vanishes exactly when the two frames are identical. */
  lemma {:induction false} AbsDiffSumZeroIff(a: Frame, b: Frame)
    requires |a| == |b|
    ensures AbsDiffSum(a, b) == 0 <==> a == b
  {
    if a != [] {
      var n := |a|;
      AbsDiffSumZeroIff(a[..n - 1], b[..n - 1]);
      assert a == a[..n - 1] + [a[n - 1]];
      assert b == b[..n - 1] + [b[n - 1]];
    }
  }

  /** The difference sum does not depend on which frame comes first. */
  lemma {:induction false} AbsDiffSumSymmetric(a: Frame, b: Frame)
    requires |a| == |b|
    ensures AbsDiffSum(a, b) == AbsDiffSum(b, a)
  {
    if a != [] {
      AbsDiffSumSymmetric(a[..|a| - 1], b[..|b| - 1]);
    }
  }

  // ----------------------------------------------------------------- histogram

  /** The bin of a pixel: each channel quantised by `256 // BINLEN` and the
      three quanta read as the digits of an octal number. */
  function BinIndex(p: Pixel): (b: nat)
    ensures b < Bins
  {
    (p.c0 / 32) * 64 + (p.c1 / 32) * 8 + p.c2 / 32
  }

  /** The octal digits of the bin give back each channel's quantum. */
  lemma BinIndexDigits(p: Pixel)
    ensures BinIndex(p) / 64 == p.c0 / 32
    ensures BinIndex(p) / 8 % 8 == p.c1 / 32
    ensures BinIndex(p) % 8 == p.c2 / 32
  {
    var x, y, z := p.c0 / 32, p.c1 / 32, p.c2 / 32;
    assert BinIndex(p) == 64 * x + 8 * y + z;
    assert (64 * x + 8 * y + z) / 8 == 8 * x + y;
  }

  /** Number of pixels of `f` that fall into bin `b`. */
  function Occupancy(f: Frame, b: nat): nat
  {
    if f == [] then 0
    else (if BinIndex(f[0]) == b then 1 else 0) + Occupancy(f[1..], b)
  }

  lemma {:induction false} OccupancyAppend(f: Frame, p: Pixel, b: nat)
    ensures Occupancy(f + [p], b) == Occupancy(f, b) + (if BinIndex(p) == b then 1 else 0)
  {
    if f != [] {
      assert (f + [p])[1..] == f[1..] + [p];
      OccupancyAppend(f[1..], p, b);
    }
  }

  /** `np.bincount(bins, minlength=512)`: one count per bin, pixel by pixel. */
  function BinCount(f: Frame): (c: seq<int>)
    ensures |c| == Bins
    ensures Total(c) == |f|
  {
    if f == [] then TotalOfZeros(Bins); Zeros(Bins)
    else
      var prev := BinCount(f[..|f| - 1]);
      var b := BinIndex(f[|f| - 1]);
      TotalUpdate(prev, b, prev[b] + 1);
      prev[b := prev[b] + 1]
  }

  /** Entry `b` of the bin count is the number of pixels in bin `b`. */
  lemma {:induction false} BinCountIsOccupancy(f: Frame)
    ensures forall b :: 0 <= b < Bins ==> BinCount(f)[b] == Occupancy(f, b)
  {
    if f != [] {
      var n := |f|;
      BinCountIsOccupancy(f[..n - 1]);
      assert f == f[..n - 1] + [f[n - 1]];
      forall b | 0 <= b < Bins ensures BinCount(f)[b] == Occupancy(f, b) {
        OccupancyAppend(f[..n - 1], f[n - 1], b);
      }
    }
  }

  lemma {:induction false} BinCountNonNegative(f: Frame)
    ensures forall b :: 0 <= b < Bins ==> BinCount(f)[b] >= 0
  {
    BinCountIsOccupancy(f);
  }

  /** `np.sum(np.absolute(a - b))`: the L1 distance of two count vectors. */
  function L1(a: seq<int>, b: seq<int>): (d: nat)
    requires |a| == |b|
    ensures d == 0 <==> a == b
  {
    if a == [] then 0
    else
      var n := |a|;
      var x, y := a[n - 1], b[n - 1];
      assert a == a[..n - 1] + [x] && b == b[..n - 1] + [y];
      L1(a[..n - 1], b[..n - 1]) + (if x < y then y - x else x - y)
  }

  /** Against all-zero counts the distance is the total of the counts. */
  lemma {:induction false} L1AgainstZeros(a: seq<int>)
    requires forall k :: 0 <= k < |a| ==> a[k] >= 0
    ensures L1(a, Zeros(|a|)) == Total(a)
  {
    if a != [] {
      var n := |a|;
      assert Zeros(n)[..n - 1] == Zeros(n - 1);
      L1AgainstZeros(a[..n - 1]);
    }
  }

  /** Between non-negative counts the distance is at most the two totals. */
  lemma {:induction false} L1Bound(a: seq<int>, b: seq<int>)
    requires |a| == |b|
    requires forall k :: 0 <= k < |a| ==> a[k] >= 0 && b[k] >= 0
    ensures L1(a, b) <= Total(a) + Total(b)
  {
    if a != [] {
      L1Bound(a[..|a| - 1], b[..|b| - 1]);
    }
  }
}
