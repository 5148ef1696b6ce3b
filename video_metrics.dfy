/** The three video metrics. Each reads the capture frame by frame, emits one
    value per read and `-1` for a frame that could not be decoded, and
    releases the capture at the end. Each method is proved equal to a series
    function over the frames it reads; the lemmas below say what those
    series contain. */
module VideoMetrics {
  import opened Wrappers
  import opened Series
  import opened Frames
  import opened Video

  /** Iterations of `range(0, fc - 1)`: one fewer than the frame count. */
  function PairCount(frameCount: nat): nat
  {
    if frameCount == 0 then 0 else frameCount - 1
  }

  // ================================================================ brightness

  /** The brightness value of one read: the channel sum as a `uint32`
      accumulator holds it, or `-1` for a missing frame. */
  function BrightnessOf(frame: Option<Frame>): (v: int)
    ensures v == -1 <==> frame.None?
    ensures frame.Some? ==> 0 <= v < Uint32
    ensures frame.Some? && ByteSum(frame.value) < Uint32 ==> v == ByteSum(frame.value)
    ensures frame.Some? ==> (ByteSum(frame.value) - v) % Uint32 == 0
  {
    match frame
    case None => -1
    case Some(f) => Wrap32(ByteSum(f))
  }

  function BrightnessSeries(frames: seq<Option<Frame>>): (values: seq<int>)
    ensures |values| == |frames|
  {
    if frames == [] then []
    else BrightnessSeries(frames[..|frames| - 1]) + [BrightnessOf(frames[|frames| - 1])]
  }

  /** One value per read, position by position. */
  lemma {:induction false} BrightnessSeriesAt(frames: seq<Option<Frame>>)
    ensures forall k :: 0 <= k < |frames| ==> BrightnessSeries(frames)[k] == BrightnessOf(frames[k])
  {
    if frames != [] {
      var n := |frames|;
      BrightnessSeriesAt(frames[..n - 1]);
    }
  }

  /** `brightness(video)`: exactly `frameCount` values, whatever the stream holds. */
  method Brightness(video: VideoCapture) returns (li: seq<int>)
    modifies video
    ensures li == BrightnessSeries(old(video.Pending(video.frameCount)))
    ensures video.released
    ensures video.pos == if old(video.released) then old(video.pos) else old(video.pos) + video.frameCount
  {
    ghost var pending := video.Pending(video.frameCount);
    ghost var start := video.pos;
    li := [];
    for k := 0 to video.frameCount
      invariant video.released == old(video.released)
      invariant video.pos == if video.released then start else start + k
      invariant li == BrightnessSeries(pending[..k])
    {
      var frame := video.Read();
      assert frame == pending[k];
      assert pending[..k + 1][..k] == pending[..k];
      if frame.None? {
        li := li + [-1];
        continue;
      }
      li := li + [Wrap32(ByteSum(frame.value))];
    }
    assert pending[..video.frameCount] == pending;
    video.Release();
  }

  // ================================================================== contrast

  /** The contrast value of one read against the frame kept as "previous". */
  function ContrastOf(prev: Frame, frame: Option<Frame>): (v: int)
    requires frame.Some? ==> |frame.value| == |prev|
    ensures v == -1 <==> frame.None?
    ensures frame.Some? ==> 0 <= v < Uint32
    ensures frame == Some(prev) ==> v == 0
    ensures frame.Some? ==> (AbsDiffSum(prev, frame.value) - v) % Uint32 == 0
  {
    match frame
    case None => -1
    case Some(f) => AbsDiffSumZeroIff(prev, f); Wrap32(AbsDiffSum(prev, f))
  }

  lemma {:induction false} LastPresentUniform(first: Frame, frames: seq<Option<Frame>>)
    requires Uniform(frames, |first|)
    ensures |LastPresent(first, frames)| == |first|
  {
    LastPresentFrom(first, frames);
  }

  /** Contrast values of the reads after the first; `first` starts as the
      previous frame, and only a decoded frame replaces it. */
  function ContrastSeries(first: Frame, frames: seq<Option<Frame>>): (values: seq<int>)
    requires Uniform(frames, |first|)
    ensures |values| == |frames|
  {
    if frames == [] then []
    else
      var n := |frames|;
      var prefix := frames[..n - 1];
      assert Uniform(prefix, |first|);
      LastPresentUniform(first, prefix);
      ContrastSeries(first, prefix) + [ContrastOf(LastPresent(first, prefix), frames[n - 1])]
  }

  /** Number of reads `contrast` makes: the unguarded first one, then one per pair. */
  function ContrastReads(frameCount: nat): nat
  {
    1 + PairCount(frameCount)
  }

  /** `contrast` over the frames its reads return: it fails when the first
      read yields nothing, since `None.astype` raises. */
  function ContrastRun(frames: seq<Option<Frame>>, pixels: nat): (r: Result<seq<int>, Failure>)
    requires |frames| >= 1 && Uniform(frames, pixels)
    ensures r.Err? <==> frames[0].None?
  {
    match frames[0]
    case None => Err(AttributeError)
    case Some(first) =>
      assert Uniform(frames[1..], |first|);
      Ok(ContrastSeries(first, frames[1..]))
  }

  /** Value `k` compares read `k` with the latest decoded frame before it. */
  lemma {:induction false} ContrastValueAt(first: Frame, frames: seq<Option<Frame>>, k: nat)
    requires Uniform(frames, |first|) && k < |frames|
    ensures |LastPresent(first, frames[..k])| == |first|
    ensures ContrastSeries(first, frames)[k] == ContrastOf(LastPresent(first, frames[..k]), frames[k])
  {
    var n := |frames|;
    var prefix := frames[..n - 1];
    assert Uniform(prefix, |first|);
    LastPresentUniform(first, prefix);
    assert ContrastSeries(first, frames)
        == ContrastSeries(first, prefix) + [ContrastOf(LastPresent(first, prefix), frames[n - 1])];
    if k < n - 1 {
      ContrastValueAt(first, prefix, k);
      assert prefix[..k] == frames[..k];
      assert ContrastSeries(first, frames)[k] == ContrastSeries(first, prefix)[k];
    } else {
      assert frames[..k] == prefix;
    }
  }

  /** Every value compares its read with the latest decoded frame before it. */
  lemma ContrastSeriesAt(first: Frame, frames: seq<Option<Frame>>)
    requires Uniform(frames, |first|)
    ensures forall k :: 0 <= k < |frames| ==>
              |LastPresent(first, frames[..k])| == |first| &&
              ContrastSeries(first, frames)[k] == ContrastOf(LastPresent(first, frames[..k]), frames[k])
  {
    forall k | 0 <= k < |frames|
      ensures |LastPresent(first, frames[..k])| == |first|
      ensures ContrastSeries(first, frames)[k] == ContrastOf(LastPresent(first, frames[..k]), frames[k])
    {
      ContrastValueAt(first, frames, k);
    }
  }

  /** A decoded frame is compared with the latest decoded frame `j` before
      it: the missing frames in between leave the previous frame in place. */
  lemma ContrastAgainstLatest(first: Frame, frames: seq<Option<Frame>>, j: nat, k: nat)
    requires Uniform(frames, |first|)
    requires j < k < |frames| && frames[j].Some? && frames[k].Some?
    requires forall m :: j < m < k ==> frames[m].None?
    ensures ContrastSeries(first, frames)[k] == Wrap32(AbsDiffSum(frames[j].value, frames[k].value))
  {
    ContrastSeriesAt(first, frames);
    LastPresentIsLatest(first, frames[..k]);
    assert frames[..k][j] == frames[j];
  }

  /** A decoded frame with no decoded frame before it (after the first read)
      is compared with the first frame. */
  lemma ContrastAgainstFirst(first: Frame, frames: seq<Option<Frame>>, k: nat)
    requires Uniform(frames, |first|)
    requires k < |frames| && frames[k].Some?
    requires forall m :: 0 <= m < k ==> frames[m].None?
    ensures ContrastSeries(first, frames)[k] == Wrap32(AbsDiffSum(first, frames[k].value))
  {
    ContrastSeriesAt(first, frames);
    LastPresentIsLatest(first, frames[..k]);
  }

  /** A video whose frames are all the same has contrast 0 everywhere. */
  lemma {:induction false} ContrastOfStillVideo(first: Frame, frames: seq<Option<Frame>>)
    requires forall m :: 0 <= m < |frames| ==> frames[m] == Some(first)
    ensures Uniform(frames, |first|)
    ensures forall k :: 0 <= k < |ContrastSeries(first, frames)| ==> ContrastSeries(first, frames)[k] == 0
  {
    if frames != [] {
      var n := |frames|;
      ContrastOfStillVideo(first, frames[..n - 1]);
      assert frames[n - 1] == Some(first);
      LastPresentIsLatest(first, frames[..n - 1]);
      if n > 1 {
        assert frames[..n - 1][n - 2] == Some(first);
      }
    }
  }

  /** `contrast(video)`: the first read is compared with nothing, each later
      decoded frame with the latest decoded frame before it. */
  method Contrast(video: VideoCapture) returns (r: Result<seq<int>, Failure>)
    requires video.Valid()
    modifies video
    ensures r == ContrastRun(old(video.Pending(ContrastReads(video.frameCount))), video.pixels)
    ensures r.Ok? ==> video.released
    ensures r.Err? ==> video.released == old(video.released)
    ensures r.Ok? ==> video.pos == if old(video.released) then old(video.pos) else old(video.pos) + ContrastReads(video.frameCount)
    ensures r.Err? ==> video.pos == if old(video.released) then old(video.pos) else old(video.pos) + 1
  {
    ghost var pending := video.Pending(ContrastReads(video.frameCount));
    ghost var start := video.pos;
    UpcomingUniform(video.stream, video.pixels, video.pos, video.released, ContrastReads(video.frameCount));
    var first := video.Read();
    assert first == pending[0];
    if first.None? {
      return Err(AttributeError);
    }
    ghost var rest := pending[1..];
    assert Uniform(rest, |first.value|);
    var frame := first.value;
    var li := [];
    for k := 0 to PairCount(video.frameCount)
      invariant video.released == old(video.released)
      invariant video.pos == if video.released then start else start + 1 + k
      invariant frame == LastPresent(first.value, rest[..k])
      invariant li == ContrastSeries(first.value, rest[..k])
    {
      var frame2 := video.Read();
      assert frame2 == rest[k];
      assert rest[..k + 1][..k] == rest[..k];
      assert Uniform(rest[..k + 1], |first.value|);
      LastPresentUniform(first.value, rest[..k]);
      assert ContrastSeries(first.value, rest[..k + 1]) == li + [ContrastOf(frame, frame2)];
      if frame2.None? {
        li := li + [-1];
        continue;
      }
      li := li + [Wrap32(AbsDiffSum(frame, frame2.value))];
      frame := frame2.value;
    }
    assert rest[..PairCount(video.frameCount)] == rest;
    video.Release();
    r := Ok(li);
  }

  // ================================================================= histogram

  /** The histogram value of one read: the L1 distance between its bin counts
      and the counts kept from before, or `-1` for a missing frame. */
  function HistogramOf(counts: seq<int>, frame: Option<Frame>): (v: int)
    requires |counts| == Bins
    ensures v == -1 <==> frame.None?
  {
    match frame
    case None => -1
    case Some(f) => L1(BinCount(f), counts)
  }

  /** The counts kept after a run of reads: those of the latest decoded
      frame, or of no pixels at all (`np.zeros(512)`) before the first. */
  function KeptCounts(frames: seq<Option<Frame>>): (c: seq<int>)
    ensures |c| == Bins
  {
    BinCount(LastPresent([], frames))
  }

  function HistogramSeries(frames: seq<Option<Frame>>): (values: seq<int>)
    ensures |values| == |frames|
  {
    if frames == [] then []
    else
      var n := |frames|;
      HistogramSeries(frames[..n - 1]) + [HistogramOf(KeptCounts(frames[..n - 1]), frames[n - 1])]
  }

  /** Value `k` of the series compares read `k` with the counts kept from
      the reads before it. */
  lemma {:induction false} HistogramValueAt(frames: seq<Option<Frame>>, k: nat)
    requires k < |frames|
    ensures HistogramSeries(frames)[k] == HistogramOf(KeptCounts(frames[..k]), frames[k])
  {
    var n := |frames|;
    var prefix := frames[..n - 1];
    assert HistogramSeries(frames) == HistogramSeries(prefix) + [HistogramOf(KeptCounts(prefix), frames[n - 1])];
    if k < n - 1 {
      HistogramValueAt(prefix, k);
      assert prefix[..k] == frames[..k];
      assert HistogramSeries(frames)[k] == HistogramSeries(prefix)[k];
    } else {
      assert frames[..k] == prefix;
    }
  }

  lemma HistogramSeriesAt(frames: seq<Option<Frame>>)
    ensures forall k :: 0 <= k < |frames| ==>
              HistogramSeries(frames)[k] == HistogramOf(KeptCounts(frames[..k]), frames[k])
  {
    forall k | 0 <= k < |frames|
      ensures HistogramSeries(frames)[k] == HistogramOf(KeptCounts(frames[..k]), frames[k])
    {
      HistogramValueAt(frames, k);
    }
  }

  /** Before any frame has been decoded the kept counts are all zero, so a
      decoded frame's value is its pixel count; in particular the first
      value is the pixel count of frame 0. */
  lemma HistogramAgainstNothing(frames: seq<Option<Frame>>, k: nat)
    requires k < |frames| && frames[k].Some?
    requires forall m :: 0 <= m < k ==> frames[m].None?
    ensures HistogramSeries(frames)[k] == |frames[k].value|
  {
    HistogramSeriesAt(frames);
    LastPresentIsLatest([], frames[..k]);
    var c := BinCount(frames[k].value);
    BinCountNonNegative(frames[k].value);
    L1AgainstZeros(c);
    assert BinCount([]) == Zeros(Bins);
  }

  /** A decoded frame is compared with the bin counts of the latest decoded
      frame `j` before it: a missing frame leaves the counts unchanged. */
  lemma HistogramAgainstLatest(frames: seq<Option<Frame>>, j: nat, k: nat)
    requires j < k < |frames| && frames[j].Some? && frames[k].Some?
    requires forall m :: j < m < k ==> frames[m].None?
    ensures HistogramSeries(frames)[k] == L1(BinCount(frames[k].value), BinCount(frames[j].value))
  {
    HistogramSeriesAt(frames);
    LastPresentIsLatest([], frames[..k]);
    assert frames[..k][j] == frames[j];
  }

  /** Every value lies in [-1, 2 * pixels]: the bin counts of two frames
      differ by at most the pixels of both. */
  lemma HistogramBound(frames: seq<Option<Frame>>, pixels: nat)
    requires Uniform(frames, pixels)
    ensures forall k :: 0 <= k < |frames| ==>
              -1 <= HistogramSeries(frames)[k] <= 2 * pixels
  {
    HistogramSeriesAt(frames);
    forall k | 0 <= k < |frames|
      ensures -1 <= HistogramSeries(frames)[k] <= 2 * pixels
    {
      if frames[k].Some? {
        var prev := LastPresent([], frames[..k]);
        LastPresentFrom([], frames[..k]);
        assert |prev| == 0 || |prev| == pixels;
        BinCountNonNegative(frames[k].value);
        BinCountNonNegative(prev);
        L1Bound(BinCount(frames[k].value), BinCount(prev));
      }
    }
  }

  /** `histogram(video)`: `frameCount - 1` reads starting from the first
      frame, so the last frame is never read. */
  method Histogram(video: VideoCapture) returns (li: seq<int>)
    modifies video
    ensures li == HistogramSeries(old(video.Pending(PairCount(video.frameCount))))
    ensures video.released
    ensures video.pos == if old(video.released) then old(video.pos) else old(video.pos) + PairCount(video.frameCount)
  {
    ghost var pending := video.Pending(PairCount(video.frameCount));
    ghost var start := video.pos;
    var counts := Zeros(Bins);
    assert counts == KeptCounts([]);
    li := [];
    for k := 0 to PairCount(video.frameCount)
      invariant video.released == old(video.released)
      invariant video.pos == if video.released then start else start + k
      invariant counts == KeptCounts(pending[..k])
      invariant li == HistogramSeries(pending[..k])
    {
      var frame := video.Read();
      assert frame == pending[k];
      PrefixGrows(pending, k);
      assert HistogramSeries(pending[..k + 1]) == li + [HistogramOf(counts, frame)];
      if frame.None? {
        li := li + [-1];
        continue;
      }
      var tmp := BinCount(frame.value);
      li := li + [L1(tmp, counts)];
      counts := tmp;
    }
    assert pending[..PairCount(video.frameCount)] == pending;
    video.Release();
  }
}
