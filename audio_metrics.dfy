/** The amplitude metric: the PCM data of a WAV file cut into one chunk per
    video frame, each chunk's samples decoded and the mean of their
    magnitudes emitted. */
module AudioMetrics {
  import opened Wrappers
  import opened Series
  import opened Frames

  /** What `amplitude` asks of the WAV header: `getnchannels()` and
      `getsampwidth()` (bytes per sample). */
  datatype WaveHeader = WaveHeader(channels: nat, width: nat)

  /** The WAV reader refuses a header with no channel or a zero sample width
      when the file is opened, before `amplitude` runs. */
  predicate Opened(h: WaveHeader)
  {
    h.channels >= 1 && h.width >= 1
  }

  /** Bytes of one audio frame: one sample per channel. */
  function FrameBytes(h: WaveHeader): nat
  {
    h.channels * h.width
  }

  /** `getnframes()`: the whole audio frames the data holds. */
  function AudioFrames(h: WaveHeader, data: seq<Byte>): nat
    requires Opened(h)
  {
    |data| / FrameBytes(h)
  }

  /** Sample widths with an entry in `{1: "B", 2: "h", 4: "i"}`. */
  predicate KnownWidth(width: nat)
  {
    width == 1 || width == 2 || width == 4
  }

  // ------------------------------------------------------------ sample decoding

  function Pow256(n: nat): (p: nat)
    ensures p >= 1
  {
    if n == 0 then 1 else 256 * Pow256(n - 1)
  }

  /** Half the range of a signed sample of `width` bytes. */
  function SampleLimit(width: nat): int
  {
    Pow256(width) / 2
  }

  /** The unsigned value of bytes stored least significant first. */
  function LittleEndian(bs: seq<Byte>): (u: nat)
    ensures u < Pow256(|bs|)
  {
    if bs == [] then 0 else bs[0] + 256 * LittleEndian(bs[1..])
  }

  /** The `n` bytes that store `u` least significant first. */
  function ToLittleEndian(u: nat, n: nat): (bs: seq<Byte>)
    requires u < Pow256(n)
    ensures |bs| == n
  {
    if n == 0 then [] else [u % 256] + ToLittleEndian(u / 256, n - 1)
  }

  lemma {:induction false} LittleEndianRoundTrip(u: nat, n: nat)
    requires u < Pow256(n)
    ensures LittleEndian(ToLittleEndian(u, n)) == u
  {
    if n > 0 {
      LittleEndianRoundTrip(u / 256, n - 1);
      assert ToLittleEndian(u, n)[1..] == ToLittleEndian(u / 256, n - 1);
    }
  }

  /** A low byte and the rest come back apart under `% 256` and `/ 256`. */
  lemma ByteSplit(low: nat, high: nat)
    requires low < 256
    ensures (low + 256 * high) % 256 == low && (low + 256 * high) / 256 == high
  {
  }

  lemma {:induction false} ToLittleEndianRoundTrip(bs: seq<Byte>)
    ensures ToLittleEndian(LittleEndian(bs), |bs|) == bs
  {
    if bs != [] {
      var rest := LittleEndian(bs[1..]);
      ByteSplit(bs[0] as nat, rest);
      ToLittleEndianRoundTrip(bs[1..]);
      assert ToLittleEndian(LittleEndian(bs), |bs|) == [bs[0]] + ToLittleEndian(rest, |bs| - 1);
      assert bs == [bs[0]] + bs[1..];
    }
  }

  /** One sample as `np.frombuffer` reads it with format `<B`, `<h` or `<i`:
      one unsigned byte, or two's complement little-endian. */
  function DecodeSample(bs: seq<Byte>): (x: int)
    requires KnownWidth(|bs|)
    ensures |bs| == 1 ==> 0 <= x < 256
    ensures |bs| == 2 ==> -0x8000 <= x < 0x8000
    ensures |bs| == 4 ==> -0x8000_0000 <= x < 0x8000_0000
  {
    var u := LittleEndian(bs);
    if |bs| == 1 then u
    else
      assert Pow256(2) == 0x1_0000 && Pow256(4) == 0x1_0000_0000;
      if u >= SampleLimit(|bs|) then u - Pow256(|bs|) else u
  }

  /** The bytes a WAV file stores for sample `x` at the given width. */
  function EncodeSample(x: int, width: nat): (bs: seq<Byte>)
    requires KnownWidth(width)
    requires width == 1 ==> 0 <= x < 256
    requires width > 1 ==> -SampleLimit(width) <= x < SampleLimit(width)
    ensures |bs| == width
  {
    ToLittleEndian(if x < 0 then x + Pow256(width) else x, width)
  }

  /** Decoding gives back every sample value the width can hold. */
  lemma DecodeEncode(x: int, width: nat)
    requires KnownWidth(width)
    requires width == 1 ==> 0 <= x < 256
    requires width > 1 ==> -SampleLimit(width) <= x < SampleLimit(width)
    ensures DecodeSample(EncodeSample(x, width)) == x
  {
    LittleEndianRoundTrip(if x < 0 then x + Pow256(width) else x, width);
  }

  /** The values a sample of `width` bytes can take. */
  predicate InRange(x: int, width: nat)
  {
    if width == 1 then 0 <= x < 256
    else if width == 2 then -0x8000 <= x < 0x8000
    else -0x8000_0000 <= x < 0x8000_0000
  }

  /** The chunk cut into consecutive groups of `width` bytes; a partial
      group at the end is dropped. */
  function Groups(chunk: seq<Byte>, width: nat): (gs: seq<seq<Byte>>)
    requires width >= 1
    ensures forall j :: 0 <= j < |gs| ==> |gs[j]| == width
    decreases |chunk|
  {
    if |chunk| < width then []
    else [chunk[..width]] + Groups(chunk[width..], width)
  }

  /** `np.frombuffer(chunk, dtype=fmt)`: one sample per group of bytes. */
  function Samples(chunk: seq<Byte>, width: nat): (xs: seq<int>)
    requires KnownWidth(width)
    ensures forall j :: 0 <= j < |xs| ==> InRange(xs[j], width)
  {
    var gs := Groups(chunk, width);
    seq(|gs|, j requires 0 <= j < |gs| => DecodeSample(gs[j]))
  }

  /** A chunk of `count` whole samples holds `count` groups. */
  lemma {:induction false} GroupsLength(chunk: seq<Byte>, width: nat, count: nat)
    requires width >= 1 && |chunk| == Offset(count, width)
    ensures |Groups(chunk, width)| == count
    decreases count
  {
    if count > 0 {
      OffsetAdd(1, count - 1, width);
      GroupsLength(chunk[width..], width, count - 1);
    }
  }

  /** A chunk of `count` whole samples decodes to `count` values. */
  lemma SamplesLength(chunk: seq<Byte>, width: nat, count: nat)
    requires KnownWidth(width) && |chunk| == Offset(count, width)
    ensures |Samples(chunk, width)| == count
  {
    GroupsLength(chunk, width, count);
  }

  /** Group `j` is the `j`-th run of `width` bytes. */
  lemma {:induction false} GroupsAt(chunk: seq<Byte>, width: nat, j: nat)
    requires width >= 1 && Offset(j + 1, width) <= |chunk|
    ensures j < |Groups(chunk, width)|
    ensures Groups(chunk, width)[j] == chunk[Offset(j, width) .. Offset(j + 1, width)]
    decreases j
  {
    OffsetMonotone(1, j + 1, width);
    assert Offset(1, width) == width;
    var rest := chunk[width..];
    assert Groups(chunk, width) == [chunk[..width]] + Groups(rest, width);
    if j > 0 {
      OffsetAdd(1, j - 1, width);
      OffsetAdd(1, j, width);
      GroupsAt(rest, width, j - 1);
      OffsetMonotone(j - 1, j, width);
      assert rest == chunk[width..|chunk|];
      SliceOfSlice(chunk, width, |chunk|, Offset(j - 1, width), Offset(j, width));
    }
  }

  /** Sample `j` of a chunk is decoded from its `j`-th group of `width` bytes. */
  lemma SamplesAt(chunk: seq<Byte>, width: nat, j: nat)
    requires KnownWidth(width) && Offset(j + 1, width) <= |chunk|
    ensures j < |Samples(chunk, width)|
    ensures Samples(chunk, width)[j] == DecodeSample(chunk[Offset(j, width) .. Offset(j + 1, width)])
  {
    GroupsAt(chunk, width, j);
  }

  // ---------------------------------------------------------------- magnitudes

  /** `tmp.astype(np.uint16) - 128` on an 8-bit sample: unsigned 16-bit
      arithmetic, so values below 128 wrap round instead of going negative. */
  function Recentre(x: int): (y: int)
    requires 0 <= x < 256
    ensures 0 <= y < 0x1_0000
    ensures x >= 128 ==> y == x - 128
    ensures x < 128 ==> y == 0x1_0000 - (128 - x)
  {
    (x - 128) % 0x1_0000
  }

  /** `np.absolute(x, dtype=np.int32)`: the absolute value in 32 bits, where
      the magnitude of -2^31 does not fit and comes back as -2^31. */
  function Abs32(x: int): (y: int)
    requires -0x8000_0000 <= x < 0x8000_0000
    ensures x != -0x8000_0000 ==> y >= 0 && (y == x || y == -x)
    ensures x == -0x8000_0000 ==> y == x
  {
    if x == -0x8000_0000 then x else if x < 0 then -x else x
  }

  /** The magnitude `amplitude` averages for one decoded sample. */
  function Magnitude(x: int, width: nat): (m: int)
    requires KnownWidth(width)
    requires InRange(x, width)
    ensures width == 1 ==> 0 <= m < 0x1_0000
    ensures width == 2 ==> 0 <= m <= 0x8000 && (m == x || m == -x)
    ensures width == 4 ==> (m == x || m == -x) && (m >= 0 <==> x != -0x8000_0000)
  {
    Abs32(if width == 1 then Recentre(x) else x)
  }

  function Magnitudes(chunk: seq<Byte>, width: nat): (ms: seq<int>)
    requires KnownWidth(width)
  {
    var xs := Samples(chunk, width);
    seq(|xs|, j requires 0 <= j < |xs| => Magnitude(xs[j], width))
  }

  /** `np.average`: the arithmetic mean, or `None` for the NaN an empty
      chunk gives. */
  function Average(xs: seq<int>): (m: Option<real>)
    ensures m.None? <==> xs == []
  {
    if xs == [] then None else Some(Total(xs) as real / |xs| as real)
  }

  /** The value emitted for one chunk. */
  function ChunkValue(chunk: seq<Byte>, width: nat): (v: Option<real>)
    requires KnownWidth(width)
    ensures v.None? <==> |chunk| < width
  {
    Average(Magnitudes(chunk, width))
  }

  // ----------------------------------------------------------------- amplitude

  /** `spf = samples // frames`: audio frames per video frame. */
  function Spf(frames: nat, h: WaveHeader, data: seq<Byte>): nat
    requires Opened(h) && frames >= 1
  {
    AudioFrames(h, data) / frames
  }

  /** Samples per chunk: `spf` audio frames of `channels` samples each. */
  function ChunkSamples(frames: nat, h: WaveHeader, data: seq<Byte>): nat
    requires Opened(h) && frames >= 1
  {
    Spf(frames, h, data) * h.channels
  }

  /** Bytes per chunk. */
  function Step(frames: nat, h: WaveHeader, data: seq<Byte>): nat
    requires Opened(h) && frames >= 1
  {
    Offset(ChunkSamples(frames, h, data), h.width)
  }

  lemma MulLe(a: nat, b: nat, c: nat)
    requires a <= b
    ensures a * c <= b * c
  {
  }

  lemma MulAssoc(a: int, b: int, c: int)
    ensures (a * b) * c == a * (b * c)
  {
  }

  lemma MulSwap(a: int, b: int, c: int)
    ensures a * (b * c) == (b * a) * c
  {
  }

  lemma MulDistrib(a: int, b: int, c: int)
    ensures (a + b) * c == a * c + b * c
  {
  }

  lemma DivModSplit(x: nat, d: nat)
    requires d >= 1
    ensures x == (x / d) * d + x % d
  {
  }

  lemma TailArithmetic(len: nat, fb: nat, frames: nat, channels: nat, width: nat)
    requires fb == channels * width && fb >= 1 && frames >= 1
    ensures len - frames * ((len / fb / frames * channels) * width) == (len / fb % frames) * fb + len % fb
  {
    var n := len / fb;
    var spf := n / frames;
    MulAssoc(spf, channels, width);
    MulSwap(frames, spf, fb);
    DivModSplit(len, fb);
    DivModSplit(n, frames);
    MulDistrib(spf * frames, n % frames, fb);
  }

  lemma FitArithmetic(len: nat, fb: nat, frames: nat, channels: nat, width: nat)
    requires fb == channels * width && fb >= 1 && frames >= 1
    ensures frames * ((len / fb / frames * channels) * width) <= len
  {
    TailArithmetic(len, fb, frames, channels, width);
  }

  /** The bytes before chunk `k`, as a product. */
  lemma StepProduct(frames: nat, h: WaveHeader, data: seq<Byte>)
    requires Opened(h) && frames >= 1
    ensures Offset(frames, Step(frames, h, data))
            == frames * ((|data| / FrameBytes(h) / frames * h.channels) * h.width)
  {
    OffsetIsProduct(ChunkSamples(frames, h, data), h.width);
    OffsetIsProduct(frames, Step(frames, h, data));
  }

  /** All `frames` chunks lie inside the data. */
  lemma ChunksFit(frames: nat, h: WaveHeader, data: seq<Byte>)
    requires Opened(h) && frames >= 1
    ensures Offset(frames, Step(frames, h, data)) <= |data|
  {
    StepProduct(frames, h, data);
    FitArithmetic(|data|, FrameBytes(h), frames, h.channels, h.width);
  }

  /** Chunk `k` of `step` bytes: what the `k`-th `w.readframes(spf)` returns. */
  function Chunk(data: seq<Byte>, step: nat, k: nat): (chunk: seq<Byte>)
    requires Offset(k + 1, step) <= |data|
    ensures |chunk| == step
  {
    data[Offset(k, step) .. Offset(k + 1, step)]
  }

  /** `amplitude`: one value per video frame, each the mean magnitude of
      one chunk. A zero frame count divides by zero before the width is
      looked up; an unknown width has no format. */
  function AmplitudeSpec(frames: nat, h: WaveHeader, data: seq<Byte>): (r: Result<seq<Option<real>>, Failure>)
    requires Opened(h)
    ensures r.Err? <==> frames == 0 || !KnownWidth(h.width)
    ensures r.Ok? ==> |r.value| == frames
  {
    if frames == 0 then Err(ZeroDivisionError)
    else if !KnownWidth(h.width) then Err(KeyError)
    else
      var step := Step(frames, h, data);
      ChunksFit(frames, h, data);
      Ok(seq(frames, k requires 0 <= k < frames =>
        OffsetMonotone(k + 1, frames, step); ChunkValue(Chunk(data, step, k), h.width)))
  }

  /** Value `k` is the value of chunk `k`, which holds `spf * channels` whole samples. */
  lemma AmplitudeAt(frames: nat, h: WaveHeader, data: seq<Byte>, k: nat)
    requires Opened(h) && KnownWidth(h.width) && k < frames
    ensures Offset(k + 1, Step(frames, h, data)) <= |data|
    ensures |Samples(Chunk(data, Step(frames, h, data), k), h.width)| == Spf(frames, h, data) * h.channels
    ensures AmplitudeSpec(frames, h, data).value[k] == ChunkValue(Chunk(data, Step(frames, h, data), k), h.width)
  {
    ChunksFit(frames, h, data);
    OffsetMonotone(k + 1, frames, Step(frames, h, data));
    SamplesLength(Chunk(data, Step(frames, h, data), k), h.width, ChunkSamples(frames, h, data));
  }

  /** The data after the last chunk is never read: it is the
      `samples % frames` audio frames of the tail plus any partial frame. */
  lemma UnreadTail(frames: nat, h: WaveHeader, data: seq<Byte>)
    requires Opened(h) && frames >= 1
    ensures |data| - Offset(frames, Step(frames, h, data))
            == (AudioFrames(h, data) % frames) * FrameBytes(h) + |data| % FrameBytes(h)
  {
    StepProduct(frames, h, data);
    TailArithmetic(|data|, FrameBytes(h), frames, h.channels, h.width);
  }

  lemma ChunkOfPrefix(a: seq<Byte>, step: nat, frames: nat, k: nat)
    requires k < frames && Offset(frames, step) <= |a|
    ensures Offset(k + 1, step) <= Offset(frames, step)
    ensures Chunk(a, step, k) == Chunk(a[..Offset(frames, step)], step, k)
  {
    OffsetMonotone(k + 1, frames, step);
  }

  /** Two buffers of one length that agree up to the end of the last chunk
      give the same values, whatever their tails hold. */
  lemma AmplitudeIgnoresTail(frames: nat, h: WaveHeader, a: seq<Byte>, b: seq<Byte>)
    requires Opened(h) && frames >= 1 && |a| == |b|
    requires Offset(frames, Step(frames, h, a)) <= |a|
    requires a[..Offset(frames, Step(frames, h, a))] == b[..Offset(frames, Step(frames, h, a))]
    ensures AmplitudeSpec(frames, h, a) == AmplitudeSpec(frames, h, b)
  {
    var step := Step(frames, h, a);
    assert step == Step(frames, h, b);
    if KnownWidth(h.width) {
      forall k | 0 <= k < frames
        ensures AmplitudeSpec(frames, h, a).value[k] == AmplitudeSpec(frames, h, b).value[k]
      {
        AmplitudeAt(frames, h, a, k);
        AmplitudeAt(frames, h, b, k);
        ChunkOfPrefix(a, step, frames, k);
        ChunkOfPrefix(b, step, frames, k);
      }
      assert AmplitudeSpec(frames, h, a).value == AmplitudeSpec(frames, h, b).value;
    }
  }

  /** Sample `i` of the data. */
  function SampleAt(data: seq<Byte>, width: nat, i: nat): int
    requires KnownWidth(width) && Offset(i + 1, width) <= |data|
  {
    DecodeSample(data[Offset(i, width) .. Offset(i + 1, width)])
  }

  lemma {:induction false} TotalOfConstant(xs: seq<int>, v: int)
    requires forall j :: 0 <= j < |xs| ==> xs[j] == v
    ensures Total(xs) == |xs| * v
  {
    if xs != [] {
      TotalOfConstant(xs[..|xs| - 1], v);
    }
  }

  lemma MeanOfConstant(n: nat, v: int)
    requires n >= 1
    ensures (n * v) as real / n as real == v as real
  {
    assert (n * v) as real == n as real * v as real;
  }

  lemma ChunkOfConstant(chunk: seq<Byte>, width: nat, count: nat, c: int)
    requires KnownWidth(width) && |chunk| == Offset(count, width) && count >= 1
    requires forall j: nat :: j < count && Offset(j + 1, width) <= |chunk| ==> SampleAt(chunk, width, j) == c
    ensures InRange(c, width)
    ensures ChunkValue(chunk, width) == Some(Magnitude(c, width) as real)
  {
    SamplesLength(chunk, width, count);
    var xs := Samples(chunk, width);
    forall j | 0 <= j < count ensures xs[j] == c {
      OffsetMonotone(j + 1, count, width);
      SamplesAt(chunk, width, j);
      assert SampleAt(chunk, width, j) == c;
    }
    assert xs[0] == c;
    var ms := Magnitudes(chunk, width);
    assert |ms| == count;
    TotalOfConstant(ms, Magnitude(c, width));
    MeanOfConstant(count, Magnitude(c, width));
  }

  /** Bytes of sample `j` of chunk `k` are the bytes of sample
      `k * count + j` of the data. */
  lemma ChunkSlice(data: seq<Byte>, width: nat, count: nat, k: nat, j: nat)
    requires Offset(k + 1, Offset(count, width)) <= |data| && j < count
    ensures Offset(j + 1, width) <= |Chunk(data, Offset(count, width), k)|
    ensures Offset(Offset(k, count) + j + 1, width) <= |data|
    ensures Chunk(data, Offset(count, width), k)[Offset(j, width) .. Offset(j + 1, width)]
         == data[Offset(Offset(k, count) + j, width) .. Offset(Offset(k, count) + j + 1, width)]
  {
    var step := Offset(count, width);
    var base := Offset(k, step);
    var lo := Offset(j, width);
    var hi := Offset(j + 1, width);
    OffsetAdd(k, 1, step);
    OffsetMonotone(j, j + 1, width);
    OffsetMonotone(j + 1, count, width);
    OffsetNest(k, count, width);
    OffsetAdd(Offset(k, count), j, width);
    OffsetAdd(Offset(k, count), j + 1, width);
    assert Offset(1, step) == step;
    SliceOfSlice(data, base, Offset(k + 1, step), lo, hi);
  }

  /** Sample `j` of chunk `k` is sample `k * count + j` of the data. */
  lemma SampleOfChunk(data: seq<Byte>, width: nat, count: nat, k: nat, j: nat)
    requires KnownWidth(width) && Offset(k + 1, Offset(count, width)) <= |data| && j < count
    ensures Offset(j + 1, width) <= |Chunk(data, Offset(count, width), k)|
    ensures Offset(Offset(k, count) + j + 1, width) <= |data|
    ensures SampleAt(Chunk(data, Offset(count, width), k), width, j) == SampleAt(data, width, Offset(k, count) + j)
  {
    ChunkSlice(data, width, count, k, j);
  }

  /** Chunk `k` of a buffer whose samples all hold `c` has value `c`'s magnitude. */
  lemma ConstantChunkAt(data: seq<Byte>, width: nat, count: nat, k: nat, c: int)
    requires KnownWidth(width) && count >= 1 && Offset(k + 1, Offset(count, width)) <= |data|
    requires forall i: nat :: Offset(i + 1, width) <= |data| ==> SampleAt(data, width, i) == c
    ensures InRange(c, width)
    ensures ChunkValue(Chunk(data, Offset(count, width), k), width) == Some(Magnitude(c, width) as real)
  {
    forall j: nat | j < count
      ensures Offset(j + 1, width) <= |Chunk(data, Offset(count, width), k)|
      ensures SampleAt(Chunk(data, Offset(count, width), k), width, j) == c
    {
      SampleOfChunk(data, width, count, k, j);
    }
    ChunkOfConstant(Chunk(data, Offset(count, width), k), width, count, c);
  }

  lemma SpfPositive(frames: nat, h: WaveHeader, data: seq<Byte>)
    requires Opened(h) && 1 <= frames <= AudioFrames(h, data)
    ensures ChunkSamples(frames, h, data) >= 1
  {
    MulLe(1, Spf(frames, h, data), h.channels);
  }

  /** A buffer whose samples all hold one value `c` gives that value's
      magnitude in every chunk (for 8-bit samples, after recentring). */
  lemma AmplitudeOfConstant(frames: nat, h: WaveHeader, data: seq<Byte>, c: int)
    requires Opened(h) && KnownWidth(h.width) && 1 <= frames <= AudioFrames(h, data)
    requires forall i: nat :: Offset(i + 1, h.width) <= |data| ==> SampleAt(data, h.width, i) == c
    ensures InRange(c, h.width)
    ensures forall k :: 0 <= k < frames ==> AmplitudeSpec(frames, h, data).value[k] == Some(Magnitude(c, h.width) as real)
  {
    SpfPositive(frames, h, data);
    AmplitudeAt(frames, h, data, 0);
    ConstantChunkAt(data, h.width, ChunkSamples(frames, h, data), 0, c);
    forall k | 0 <= k < frames
      ensures AmplitudeSpec(frames, h, data).value[k] == Some(Magnitude(c, h.width) as real)
    {
      AmplitudeAt(frames, h, data, k);
      ConstantChunkAt(data, h.width, ChunkSamples(frames, h, data), k, c);
    }
  }

  /** As written, an 8-bit sample just below the midpoint 128 (silence)
      gets the largest magnitude instead of the smallest. */
  lemma EightBitWrapsBelowMidpoint()
    ensures Magnitude(127, 1) == 0xFFFF
    ensures Magnitude(0, 1) == 0xFF80
    ensures Magnitude(128, 1) == 0
  {
  }

  /** The magnitude the 8-bit remap evidently intends: the distance of the
      sample from the midpoint 128, in signed arithmetic. */
  function IntendedMagnitude(x: int, width: nat): (m: int)
    requires KnownWidth(width) && InRange(x, width)
    ensures width == 1 ==> 0 <= m <= 128 && (m == x - 128 || m == 128 - x)
    ensures width > 1 ==> m == Magnitude(x, width)
  {
    if width == 1 then (if x < 128 then 128 - x else x - 128) else Magnitude(x, width)
  }

  /** The two agree on 8-bit samples at or above the midpoint and differ on
      every one below it. */
  lemma IntendedMagnitudeAgreement(x: int)
    requires 0 <= x < 256
    ensures Magnitude(x, 1) == IntendedMagnitude(x, 1) <==> x >= 128
  {
  }

  /** `amplitude(video, audio)`: a cursor over the data reads `spf` audio
      frames per video frame. */
  method Amplitude(frames: nat, h: WaveHeader, data: seq<Byte>) returns (r: Result<seq<Option<real>>, Failure>)
    requires Opened(h)
    ensures r == AmplitudeSpec(frames, h, data)
  {
    if frames == 0 {
      return Err(ZeroDivisionError);
    }
    var spf := AudioFrames(h, data) / frames;
    if !KnownWidth(h.width) {
      return Err(KeyError);
    }
    var step := Offset(spf * h.channels, h.width);
    assert step == Step(frames, h, data);
    ChunksFit(frames, h, data);
    ghost var spec := AmplitudeSpec(frames, h, data).value;
    var li := [];
    var pos := 0;
    for k := 0 to frames
      invariant pos == Offset(k, step)
      invariant li == spec[..k]
    {
      AmplitudeAt(frames, h, data, k);
      assert Offset(k + 1, step) == pos + step;
      var chunk := data[pos .. pos + step];
      assert chunk == Chunk(data, step, k);
      pos := pos + |chunk|;
      li := li + [ChunkValue(chunk, h.width)];
      PrefixGrows(spec, k);
    }
    r := Ok(li);
    assert spec[..frames] == spec;
  }
}
