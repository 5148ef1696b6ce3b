# Data2MusicTool metrics in Dafny

This project models the metric extractors of Data2MusicTool's `metrics.py`.
They turn a video and its soundtrack into number series for the Data2Music
sonifier:

- `brightness`, `contrast` and `histogram` read the video frame by frame.
- `amplitude` cuts the WAV data into one chunk per video frame.
- `joint` aggregates several series into one.
- `change_points` finds the positions where a series spikes after a quiet
  stretch.
- `to_json` turns the series into the event records Data2Music reads.

Modules:

- `Wrappers`: `Option`, `Result`, and `Failure`, which names the Python
  exception each error path raises.
- `Series`: shared sequence facts: sums, block offsets, maxima, and the
  latest present entry of a sequence of options.
- `Frames`: a decoded frame as a sequence of 3-byte pixels, and the
  per-frame arithmetic: the `uint32` byte sum, the `int16`-widened
  absolute difference, the 512-bin index and bin count, and the L1
  distance.
- `Video`: the capture as a class `VideoCapture`. It holds a stream of
  `Option<Frame>` (`None` where decoding fails), the declared frame count,
  a read position and a released flag. `Read` and `Release` update it in
  place.
- `VideoMetrics`: `Brightness`, `Contrast` and `Histogram` as methods with
  the source's loops. Each is proved equal to a series function over the
  frames its reads return, and lemmas say what each series holds.
- `AudioMetrics`: the WAV header (channels, sample width) and PCM bytes.
  Covers little-endian sample decoding, 8-bit recentring in `uint16`,
  32-bit absolute values, chunking by `spf = samples // frames`, and the
  `Amplitude` method.
- `Aggregate`: `Joint` over `real`: zero-padding, division by each input's
  own peak, and summing.
- `ChangePointDetector`: the `while` scan of `change_points` and the
  bracketing with the first and last index.
- `EventSerializer`: the records `to_json` builds, in order, with their
  timestamps.

Where the docstrings and the code disagree, the model follows the code:

- The `contrast` docstring (metrics.py:77) speaks of averaging the three
  channel distances. The code sums them (metrics.py:94).
- The same docstring speaks of the difference "from the previous frame".
  After a frame that cannot be decoded, `continue` skips `frame = frame2`
  (metrics.py:98). The next decoded frame is therefore compared with the
  latest decoded frame, not with the frame just before it.
- The `histogram` docstring (metrics.py:109-110) speaks of the number of
  pixels that changed their bin. The code takes the L1 distance between
  the two frames' bin counts (metrics.py:136). One pixel moving to another
  bin therefore counts 2, and two pixels swapping bins count 0.
- The `joint` docstring (metrics.py:175) speaks of an average. The code
  adds the rescaled inputs without dividing by their number
  (metrics.py:184).

## Model

| member | source | states |
|---|---|---|
| `Frames.Wrap32` | metrics.py:62 | a `uint32` accumulator holds a value in [0, 2^32) that differs from the exact sum by a multiple of 2^32, and any sum below 2^32 unchanged |
| `Frames.ByteSum` | metrics.py:62 | the channel sum of a frame is at most 765 per pixel, and is 0 exactly when every pixel is black |
| `Frames.ChannelDiff` | metrics.py:82-94 | after widening to `int16`, a channel distance lies in [0, 255] and is 0 exactly when the two bytes are equal |
| `Frames.AbsDiffSum` | metrics.py:94 | the absolute-difference sum of two frames is at most 765 per pixel |
| `Frames.AbsDiffSumZeroIff` | metrics.py:94 | the difference sum is 0 exactly when the two frames are identical |
| `Frames.AbsDiffSumSymmetric` | metrics.py:94 | the difference sum does not depend on which frame is subtracted |
| `Frames.BinIndex` | metrics.py:126-134 | every pixel falls into one of the 512 bins |
| `Frames.BinIndexDigits` | metrics.py:126-134 | the base-8 digits of the bin are the three channels divided by 32, first channel most significant |
| `Frames.BinCount` | metrics.py:134 | the bin count has exactly 512 entries, and they add up to the pixel count |
| `Frames.BinCountIsOccupancy` | metrics.py:134 | entry `b` of the bin count is the number of pixels in bin `b` |
| `Frames.BinCountNonNegative` | metrics.py:134 | no bin count is negative |
| `Frames.L1` | metrics.py:136 | the distance between two count vectors is 0 exactly when they are equal |
| `Frames.L1AgainstZeros` | metrics.py:114-136 | against all-zero counts, the distance is the total of the counts |
| `Frames.L1Bound` | metrics.py:136 | between non-negative counts, the distance is at most the sum of the two totals |
| `Video.VideoCapture.Read` | metrics.py:57 | a read returns the frame at the cursor and advances the cursor; after release it returns `None` and leaves the cursor where it is |
| `Video.VideoCapture.Release` | metrics.py:66 | after release, the capture is released |
| `Video.VideoCapture.Pending` | metrics.py:56-57 | the next `n` reads return `n` results, each frame with the capture's pixel count |
| `VideoMetrics.BrightnessOf` | metrics.py:57-65 | `-1` exactly for a missing frame; otherwise a value in [0, 2^32) congruent to the byte sum modulo 2^32, and equal to it whenever it fits |
| `VideoMetrics.BrightnessSeries` | metrics.py:56-65 | one value per read |
| `VideoMetrics.BrightnessSeriesAt` | metrics.py:56-65 | value `k` is the brightness of read `k` |
| `VideoMetrics.Brightness` | metrics.py:48-67 | the method returns the brightness series of the next `frameCount` reads, leaves the cursor after them, and releases the capture |
| `VideoMetrics.ContrastOf` | metrics.py:84-97 | `-1` exactly for a missing frame; otherwise a value in [0, 2^32) congruent to the difference sum modulo 2^32, and 0 when the frame equals the previous one |
| `VideoMetrics.ContrastSeries` | metrics.py:83-98 | one value per read after the first |
| `VideoMetrics.ContrastRun` | metrics.py:81-83 | `contrast` fails exactly when the first read yields no frame |
| `VideoMetrics.ContrastValueAt` | metrics.py:83-98 | value `k` compares read `k` with the latest decoded frame before it, or with the first frame if there is none |
| `VideoMetrics.ContrastSeriesAt` | metrics.py:83-98 | at every position at once, each value compares its read with the latest decoded frame before it, or with the first frame if there is none |
| `VideoMetrics.ContrastAgainstLatest` | metrics.py:85-98 | missing frames between two decoded frames leave the previous frame in place: the later one is compared with the earlier one |
| `VideoMetrics.ContrastAgainstFirst` | metrics.py:81-98 | a decoded frame preceded only by missing frames is compared with the first frame |
| `VideoMetrics.ContrastOfStillVideo` | metrics.py:94 | a video whose frames are all equal has contrast 0 everywhere |
| `VideoMetrics.Contrast` | metrics.py:69-100 | the method returns the contrast run of its `1 + (frameCount - 1)` reads; on success the cursor is after them and the capture is released, on failure the cursor is after the first read and the capture stays open |
| `VideoMetrics.HistogramOf` | metrics.py:123-136 | `-1` exactly for a missing frame |
| `VideoMetrics.KeptCounts` | metrics.py:114-137 | the kept counts always have 512 entries |
| `VideoMetrics.HistogramSeries` | metrics.py:116-137 | one value per read, `frameCount - 1` reads in all |
| `VideoMetrics.HistogramValueAt` | metrics.py:116-137 | value `k` compares read `k` with the counts kept from the reads before it |
| `VideoMetrics.HistogramSeriesAt` | metrics.py:116-137 | at every position at once, each value compares its read with the counts kept from the reads before it |
| `VideoMetrics.HistogramAgainstNothing` | metrics.py:114-136 | a decoded frame with no decoded frame before it, frame 0 included, gets its pixel count |
| `VideoMetrics.HistogramAgainstLatest` | metrics.py:123-137 | a missing frame leaves the counts unchanged, so a decoded frame is compared with the latest decoded frame before it |
| `VideoMetrics.HistogramBound` | metrics.py:134-136 | every value lies in [-1, 2 * pixels] |
| `VideoMetrics.Histogram` | metrics.py:102-139 | the method returns the histogram series of the next `frameCount - 1` reads, leaves the cursor after them, and releases the capture |
| `AudioMetrics.LittleEndian` | metrics.py:157-161 | `n` bytes read least significant first give a value below 256^n |
| `AudioMetrics.ToLittleEndian` | metrics.py:157-161 | storing a value takes exactly `n` bytes |
| `AudioMetrics.LittleEndianRoundTrip` | metrics.py:157-161 | reading back the stored bytes gives the value |
| `AudioMetrics.ToLittleEndianRoundTrip` | metrics.py:157-161 | storing the value read from bytes gives those bytes |
| `AudioMetrics.DecodeSample` | metrics.py:157-161 | `<B` gives [0, 256), `<h` gives [-2^15, 2^15), `<i` gives [-2^31, 2^31) |
| `AudioMetrics.EncodeSample` | metrics.py:157-161 | a sample is stored in exactly `width` bytes |
| `AudioMetrics.DecodeEncode` | metrics.py:157-161 | decoding gives back every value the sample width can hold |
| `AudioMetrics.Groups` | metrics.py:160-161 | the bytes are cut into groups of exactly `width` bytes |
| `AudioMetrics.GroupsLength` | metrics.py:160-161 | a chunk of `count` whole samples holds `count` groups |
| `AudioMetrics.GroupsAt` | metrics.py:161 | group `j` is bytes `j * width` up to `(j + 1) * width` of the chunk |
| `AudioMetrics.Samples` | metrics.py:161 | every decoded sample is in range for its width |
| `AudioMetrics.SamplesLength` | metrics.py:160-161 | a chunk of `count` whole samples decodes to `count` values |
| `AudioMetrics.SamplesAt` | metrics.py:161 | sample `j` is decoded from the `j`-th group of `width` bytes |
| `AudioMetrics.Recentre` | metrics.py:164-165 | `uint16 - 128` maps a byte `b >= 128` to `b - 128` and a byte `b < 128` to `65536 - (128 - b)` |
| `AudioMetrics.Magnitude` | metrics.py:164-166 | an 8-bit sample's magnitude lies in [0, 2^16); a 16-bit sample's is its absolute value, at most 2^15; a 32-bit sample's is its absolute value or, for -2^31 only, negative |
| `AudioMetrics.Abs32` | metrics.py:166 | the `int32` absolute value is non-negative except for -2^31, which stays -2^31 |
| `AudioMetrics.Average` | metrics.py:166 | the mean is undefined exactly for an empty chunk |
| `AudioMetrics.ChunkValue` | metrics.py:161-166 | a chunk has no value exactly when it holds no whole sample |
| `AudioMetrics.ChunksFit` | metrics.py:155-160 | the `frames` chunks of `spf` audio frames lie inside the data |
| `AudioMetrics.Chunk` | metrics.py:159-160 | the `k`-th `readframes(spf)` returns exactly one step of bytes |
| `AudioMetrics.AmplitudeSpec` | metrics.py:151-166 | fails exactly when the frame count is 0 (division) or the width is not 1, 2 or 4 (format lookup); otherwise gives exactly `frames` values |
| `AudioMetrics.AmplitudeAt` | metrics.py:156-166 | value `k` is the mean magnitude of chunk `k`, which holds `spf * channels` samples |
| `AudioMetrics.UnreadTail` | metrics.py:155-160 | the bytes never read are the `samples % frames` leftover audio frames plus any partial frame |
| `AudioMetrics.AmplitudeIgnoresTail` | metrics.py:159-160 | two buffers that agree up to the end of the last chunk give the same values |
| `AudioMetrics.AmplitudeOfConstant` | metrics.py:159-166 | a buffer whose samples all hold one value gives that value's magnitude for every chunk |
| `AudioMetrics.EightBitWrapsBelowMidpoint` | metrics.py:164-166 | as written, 8-bit samples 127 and 0 get magnitudes 65535 and 65408, and the midpoint 128 gets 0 |
| `AudioMetrics.IntendedMagnitude` | metrics.py:162-166 | the intended 8-bit magnitude is the distance from 128, in [0, 128]; other widths are unchanged |
| `AudioMetrics.IntendedMagnitudeAgreement` | metrics.py:164-166 | the written and intended 8-bit magnitudes agree exactly on samples at or above 128 |
| `AudioMetrics.Amplitude` | metrics.py:141-168 | the method's chunk loop returns the amplitude result |
| `Series.Max` | metrics.py:200 | `max` here, like `np.max` at metrics.py:184, returns an element of the sequence that no element exceeds |
| `Aggregate.Pad` | metrics.py:182-183 | padding keeps the input's values and fills up to the target length with zeros |
| `Aggregate.AddScaled` | metrics.py:184 | adding an input rescaled by its peak raises each position by at most 1, and never lowers it, where the input lies in [0, peak] |
| `Aggregate.Accumulate` | metrics.py:180-184 | the running sum always has the length of the first input |
| `Aggregate.JointSpec` | metrics.py:178-186 | a successful result has `len(data[0])` values |
| `Aggregate.AccumulateOkIff` | metrics.py:180-184 | the sum succeeds exactly when every input is no longer than the first and has a non-zero padded peak |
| `Aggregate.AccumulateAt` | metrics.py:180-184 | position `k` of the sum adds `d[k] / max(d)` over the inputs, with `d[k] = 0` past the end of `d` |
| `Aggregate.JointOkIff` | metrics.py:178-184 | `joint` succeeds exactly when `data` and `data[0]` are non-empty and every input can be rescaled |
| `Aggregate.JointAt` | metrics.py:178-184 | on success, position `k` is the unaveraged sum of the rescaled inputs at `k` |
| `Aggregate.RatioSumBounds` | metrics.py:184 | for non-negative inputs, each position of the sum lies in [0, number of inputs] |
| `Aggregate.JointBounds` | metrics.py:178-184 | for non-negative inputs, every value of `joint` lies in [0, number of inputs] |
| `Aggregate.JointOfTwin` | metrics.py:178-184 | `joint([s, s])` is `2 * s[k] / max(s)` at every `k`: the inputs are added, not averaged |
| `Aggregate.Joint` | metrics.py:170-186 | the method returns the joint result |
| `ChangePointDetector.Cutoff` | metrics.py:200 | the cutoff is 0.3 times some element, and at least 0.3 times every element |
| `ChangePointDetector.LastAbove` | metrics.py:203-209 | `curr_cp` is 0 or a scanned position at or above the cutoff, and nothing scanned after it reaches the cutoff |
| `ChangePointDetector.GapIsSpike` | metrics.py:206-208 | the test `i - curr_cp > 30` on a position at or above the cutoff holds exactly when the 30 positions before it are all below the cutoff and it is past position 30 |
| `ChangePointDetector.Scanned` | metrics.py:203-210 | after scanning positions below `i`, at most `i` points are recorded, each more than 30 before `i` |
| `ChangePointDetector.ScannedOrder` | metrics.py:203-210 | recorded points ascend more than 30 apart, each lies more than 30 before `curr_cp`, and each is 0 or a scanned position at or above the cutoff |
| `ChangePointDetector.ScannedEmptyIff` | metrics.py:203-210 | nothing is recorded exactly while no spike has been scanned |
| `ChangePointDetector.SpikeRecorded` | metrics.py:204-209 | every spike scanned so far has recorded the `curr_cp` it found: no occasion is missed |
| `ChangePointDetector.RecordedFromSpike` | metrics.py:204-209 | every recorded point is the `curr_cp` found at some scanned spike |
| `ChangePointDetector.ScannedBeforeEnd` | metrics.py:204-210 | every recorded point lies more than 30 before the last index |
| `ChangePointDetector.Bracket` | metrics.py:211-214 | the bracketed list starts at 0 and ends at the last index |
| `ChangePointDetector.BracketIndex` | metrics.py:211-214 | bracketing puts 0 in front only when the first point is not 0, and always appends the last index |
| `ChangePointDetector.BracketMembers` | metrics.py:211-214 | bracketing keeps every recorded point, and its inner entries are all recorded points |
| `ChangePointDetector.BracketShape` | metrics.py:211-214 | bracketing keeps the recorded points as the strictly ascending inner entries, none of them 0 |
| `ChangePointDetector.ChangePointsSpec` | metrics.py:200-215 | `change_points` as written: `ValueError` exactly on empty data; on success at least two entries, from 0 to the last index; the lemma rows below state the rest |
| `ChangePointDetector.Scan` | metrics.py:201-210 | the method's `while` loop records exactly the points the scan records over the whole series |
| `ChangePointDetector.ChangePoints` | metrics.py:188-215 | the method's scan and bracketing return the change-point result |
| `ChangePointDetector.ChangePointsFailures` | metrics.py:200-211 | fails at `max` with `ValueError` exactly for empty data, and at `cp[0]` with `IndexError` exactly when the series has no spike |
| `ChangePointDetector.ChangePointsShape` | metrics.py:200-215 | on success the result starts at 0, ends at the last index and strictly ascends; its inner points are at or above the cutoff and more than 30 before the next entry |
| `ChangePointDetector.ChangePointsSpikes` | metrics.py:192-215 | on success every spike's `curr_cp` is in the result, and every inner entry is the `curr_cp` of some spike |
| `ChangePointDetector.ShortSeriesFails` | metrics.py:200-211 | every series of 1 to 31 values fails with `IndexError` |
| `ChangePointDetector.IntendedChangePoints` | metrics.py:198-215 | the intended detector fails only on empty data, and its result starts at 0 and ends at the last index |
| `ChangePointDetector.IntendedChangePointsProperties` | metrics.py:198-215 | the intended result fails only on empty data, matches the written one wherever that succeeds, strictly ascends, and is `[0, n-1]` (or `[0]`) when there is no spike |
| `EventSerializer.Params` | metrics.py:32 | every record's parameters map exactly `"system"` to `"track1"` |
| `EventSerializer.Trunc` | metrics.py:25 | `int()` moves a value by less than 1, toward zero: never upwards for a non-negative value, never downwards for a negative one |
| `EventSerializer.Stamp` | metrics.py:20-26 | for a non-negative start, the `j`-th value of a metric is stamped `int(start)` plus `1000 j` |
| `EventSerializer.Row` | metrics.py:24-36 | one metric gives one record per value |
| `EventSerializer.Records` | metrics.py:23-36 | `li2` as written: on success one record per value of all the metrics, and the only failure is `IndexError`; the lemma rows below state the rest |
| `EventSerializer.RecordsFailIff` | metrics.py:23-30 | building fails, with `IndexError`, exactly when some metric with a value has no name at its index |
| `EventSerializer.RecordsLength` | metrics.py:23-36 | on success there is one record per value of all the metrics, and every metric with a value has a name |
| `EventSerializer.RecordsAt` | metrics.py:20-37 | the records of metric `i` form one block after those of all earlier metrics: its values in order, under `features[i]`, stamped from the start |
| `EventSerializer.RecordOfValue` | metrics.py:25-36 | value `j` of metric `i` gives `{int(start + 1000 j), features[i], lists[i][j], {"system": "track1"}}` |
| `EventSerializer.StampsAlign` | metrics.py:20-37 | equal positions in different metrics share a timestamp, and within one metric the timestamps strictly increase |
| `EventSerializer.ToJson` | metrics.py:9-37 | the method's nested loops return the records |
| `EventSerializer.TwoMetrics` | metrics.py:20-37 | two metrics of two values give four records, stamped 0, 1000, 0, 1000 from a start of 0 |

## Left out

- `interface.py`, and `process`, `main`, `edit_playlist` and `write_settings` in `metrics.py`, are not part of this model. They are UI, orchestration of external programs, random jitter and file I/O.
- Opening and decoding the video (`cv2`) and the WAV file (`wave`) are left out. The video is a stream of `Option<Frame>` behind `VideoCapture`. The audio is a header (channels, sample width) plus its PCM bytes. A WAV file that fails to open is not modelled.
- The declared frame count is a natural number. A negative or fractional `CAP_PROP_FRAME_COUNT` is not modelled.
- `Video.VideoCapture.Pending`: all frames of one video have the same pixel count. A stream whose frame size changes, which would make NumPy's subtraction fail, is not modelled.
- The video metrics assume a NumPy older than 1.23, which still has `np.asscalar` (metrics.py:63, 95, 136). With a later NumPy each of them raises `AttributeError` at its first decoded frame; the model does not capture that.
- `VideoMetrics.Brightness`: the `except TypeError` branches (metrics.py:64-65, 96-97) cannot be reached for a decoded frame, so they are not modelled.
- `VideoMetrics.Histogram`: the value of the first decoded frame is a NumPy float, because `counts` is still `np.zeros` then; a `-1` for a frame that fails to decode before it stays an int (metrics.py:123-125). The model gives every value as an integer.
- `AudioMetrics.Amplitude`: the frame count is a parameter instead of a call to the capture. The rounding to 3 decimals and float64 arithmetic are not modelled: each value is the exact mean.
- `AudioMetrics.Average`: an empty chunk (when `spf` is 0) makes `np.average` give NaN. The model gives `None`.
- `Aggregate.Joint`: values are `real`, not float64. A zero padded maximum makes NumPy divide by zero, which gives inf or NaN with only a warning. The model reports the `ZeroPeak` error instead. The `print` of the result (metrics.py:185) is left out.
- `ChangePointDetector.Cutoff`: computed over `real`, not float64.
- `EventSerializer.ToJson`: `time.time() * 1000` is the parameter `start`. `time_stamp += 1000` is exact `real` arithmetic, without float64 rounding. Writing each record as one JSON line to `file_name` (metrics.py:42-46) is left out: the method returns the records in line order.

## Findings

| source | as written | input that shows it | evidently intended | confidence | as-written member | corrected member |
|---|---|---|---|---|---|---|
| metrics.py:211 | `cp[0]` is read without checking that the scan recorded anything | any series of 1 to 31 values, e.g. `[5.0]`, or any series without a spike, raises `IndexError` | the docstring promises the first and last index are always included: bracket even when nothing was recorded, giving `[0, n-1]` (or `[0]`) | high; not executed | `ChangePointDetector.ShortSeriesFails` | `ChangePointDetector.IntendedChangePoints` |
| metrics.py:165 | `tmp.astype(np.uint16) - 128` stays unsigned, so 8-bit samples below 128 wrap to 65408..65535 | an 8-bit sample of 127, one step below silence, gets magnitude 65535 instead of 1 | the comment asks for the range [-128, 127]: the magnitude is the distance of the sample from 128 | high; not executed | `AudioMetrics.EightBitWrapsBelowMidpoint` | `AudioMetrics.IntendedMagnitude` |
