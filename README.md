# Spectrogram engine model

A Dafny model of the spectrogram engine in `app/utils/spectrogram.py`. The
engine turns a mono sample buffer into a sparse, JSON-ready report. The model
follows its stages:

- **Framer** (`framer.dfy`, module `Framer`) turns the 20 ms window and the
  10 ms stride into sample counts. It cuts the tail of the buffer that does
  not fill a whole stride, and views the rest as overlapping frames (numpy's
  `as_strided`). It also models the sanity check on frame 1 as written.
- **Periodogram scaling** (`periodogram.dfy`, module `Periodogram`) works on
  the squared FFT magnitudes, indexed [bin][frame]. Interior bins are
  multiplied by `2 / scale`; the first (DC) bin and the last bin (the Nyquist
  bin when the window is even) are divided by `scale`.
  It is given both as a function on matrices and as an in-place method on an
  `array2<real>`, mirroring numpy's in-place `*=` and `/=`.
- **Band limiter** (`band_limiter.dfy`, module `BandLimiter`):
  - the `max_freq` default (a missing or zero `max_freq` becomes
    `sample_rate // 2`);
  - the bin centre frequencies;
  - the cut to the leading bins at or below the limit, including the index
    error when no bin qualifies.
- **Sparse encoder** (`sparse_encoder.dfy`, modules `SparseEncoder` and
  `SparseEncoderProperties`) models the loop of `get_spectrogram_data`:
  - the global maximum `maxVal`;
  - per frame, the bins whose normalised strength reaches 0.005, their
    strengths quantised to ten-thousandths, and the largest of those;
  - the running `maxFreq`;
  - the frame times and `maxTime`.

  The loop is a method (`Encode`, `EncodeFrames`, `EncodeFrame`) proved equal
  to the function `Encoded`. The report's properties are lemmas about
  `Encoded`.
- **Pipeline** (`spectrogram.dfy`, module `Spectrogram`) chains these
  stages. Framing runs as the source runs: a zero stride, a negative frame
  count and the missing second frame at line 67 are errors. For longer
  buffers the frames are those of the framer. For the default configuration
  it shows that the report has one slice per frame.

`wrappers.dfy` holds `Option` and `Result`.

Reals stand for numpy's float64 values. The Hann window, the FFT, its squared
magnitude and `scale` (the sum of the squared taper times the rate) are
computed by numpy. Here they are inputs: a non-negative power matrix with one
column per frame, and a positive scale.

In these places the code does something other than what a spectrogram
engine of this kind would be expected to do. The model follows the code:

- **Negative `max_freq`.** An empty spectrum would be the natural result.
  The code fails instead: `np.where(...)[0][-1]` on an empty selection raises
  `IndexError`. `BandLimit` returns `Err(NoBinAtOrBelowLimit)`.
- **`max_freq` of 0.** A limit of 0 Hz would keep only bin 0. But 0 is falsy,
  so the code replaces it with `sample_rate // 2` (line 55).
  `EffectiveMaxFreq` follows the code.
- **Threshold test.** A bin is kept when its strength reaches the threshold
  (`>=` on line 38), not only when it exceeds it. `Kept` uses `>=`.
- **Rounding of the time step.** The step is taken as
  `(time_step * 100) // 1` hundredths (line 31), a floor rather than a
  rounding. For the fixed 10 ms stride both give one hundredth
  (`StepHundredthsIsRoundedStep`).
- **Invalid configuration and short audio.** The code never rejects
  non-positive durations or short buffers up front. These cases fail on the
  way (`Spectrogram.FramingError`):
  - a stride shorter than one sample: the modulo on line 60 divides by zero
    (`ZeroStride`);
  - a buffer shorter than one window by more than a stride: a negative frame
    count on line 62, which numpy's strided view rejects
    (`NegativeFrameCount`);
  - any other buffer shorter than one window plus one stride: the view has
    at most one frame, and `windows[:, 1]` on line 67 is out of range
    (`NoSecondFrame`).

## Model

| member | source | states |
|---|---|---|
| Framer.SamplesIn | app/utils/spectrogram.py:56-57 | the sample count is the largest whole number of samples that fits in the duration (truncation toward zero) |
| Framer.TruncateSize | app/utils/spectrogram.py:60 | fewer than one stride of samples is dropped, and what remains past the first window is a whole number of strides |
| Framer.Trimmed | app/utils/spectrogram.py:60-61 | the kept buffer is a prefix of the input, at least one window long, less than one stride shorter, ending on a stride boundary, and the longest such prefix |
| Framer.Frames | app/utils/spectrogram.py:62-65 | frame count is `(len - window) // stride + 1` of the trimmed buffer, every frame has `window` samples, and frame `j` sample `k` is input sample `j*stride + k` |
| Framer.FramesOverlap | app/utils/spectrogram.py:63-65 | frame `j+1` at offset `k` equals frame `j` at offset `k + stride` |
| Framer.LastFrameEndsBuffer | app/utils/spectrogram.py:60-62 | the last frame ends exactly at the end of the trimmed buffer |
| Framer.ExactWindowGivesOneFrame | app/utils/spectrogram.py:60-65 | a buffer of exactly one window is one frame, the whole buffer |
| Framer.OneSecondAt16kHz | app/utils/spectrogram.py:56-62 | at 16 kHz the window is 320 samples, the stride 160, and one second gives 99 frames |
| Framer.FramesAsWritten | app/utils/spectrogram.py:67 | the check on frame 1 succeeds, returning the frames, exactly when the buffer holds one window plus one stride; otherwise it is an index error, never an assertion failure |
| Framer.TwoFramesIff | app/utils/spectrogram.py:62-67 | there is a second frame if and only if the buffer holds a window plus a stride |
| Framer.OneWindowBufferFailsAsWritten | app/utils/spectrogram.py:67 | a one-window buffer has one frame and the as-written check rejects it with an index error |
| Periodogram.Scaled | app/utils/spectrogram.py:77-78 | scaling keeps the matrix shape |
| Periodogram.ScalingRoundTrip | app/utils/spectrogram.py:77-78 | undoing the per-bin factors restores the unscaled matrix exactly |
| Periodogram.ScalingKeepsPower | app/utils/spectrogram.py:73-78 | scaling keeps every cell non-negative and every row's length |
| Periodogram.ScalingKeepsOrderInBin | app/utils/spectrogram.py:77-78 | within a bin, scaling preserves the order of cells in both directions |
| Periodogram.ScaleInPlace | app/utils/spectrogram.py:76-78 | after the in-place update each cell is multiplied by `2/scale` in interior bins and divided by `scale` in the first and last bin, once each; the whole array equals `Scaled` of its old contents |
| BandLimiter.EffectiveMaxFreq | app/utils/spectrogram.py:55 | a missing or zero `max_freq` becomes `sample_rate // 2`; any other value is kept; the default lies between 0 and half the rate |
| BandLimiter.BinFreqMonotone | app/utils/spectrogram.py:81 | bin frequencies do not decrease with the bin index |
| BandLimiter.KeptBins | app/utils/spectrogram.py:81-85 | the cut index splits the bins exactly: every bin below it is at or below the limit, every bin from it on is above |
| BandLimiter.BandLimit | app/utils/spectrogram.py:81-87 | the result is defined if and only if there is a bin and the limit is non-negative; it is a prefix of the rows, and bin `k` is kept if and only if its frequency is at most the limit |
| BandLimiter.BandLimitKeepsPower | app/utils/spectrogram.py:87 | the cut rows keep every column and stay non-negative |
| BandLimiter.DefaultLimitKeepsFullSpectrum | app/utils/spectrogram.py:81-87 | with the default limit and an even rate, all `window // 2 + 1` bins are kept |
| BandLimiter.OddRateDropsNyquistBin | app/utils/spectrogram.py:55-85 | with an odd rate the floor in the default limit drops the Nyquist bin (3 Hz, 2-sample window) |
| SparseEncoder.MatrixMax | app/utils/spectrogram.py:16 | `np.max(s)` bounds every cell and is attained by one |
| SparseEncoder.KeptIsRatioTest | app/utils/spectrogram.py:36-38 | the keep test equals `v / maxVal >= 0.005`, and is false when `maxVal` is 0 (NaN) |
| SparseEncoder.KeptIndices | app/utils/spectrogram.py:36-38 | the kept bins are in range, strictly increasing, and a bin is listed if and only if it passes the keep test |
| SparseEncoder.QuantizeRange | app/utils/spectrogram.py:44-45 | a strength between 0.005 and 1 quantises to 50..10000 |
| SparseEncoder.LargestOrZero | app/utils/spectrogram.py:37-46 | the result is 0 for an empty list, otherwise an upper bound attained by some element |
| SparseEncoder.NextMaxFreqIsMax | app/utils/spectrogram.py:41-43 | one update never lowers `maxFreq`, bounds the slice's bins, and yields either the old value or one of them |
| SparseEncoder.RunningMaxFreqIsUpperBound | app/utils/spectrogram.py:41-43 | no bin kept in any slice exceeds the running `maxFreq` |
| SparseEncoder.RunningMaxFreqIsKeptOrZero | app/utils/spectrogram.py:18-43 | the running `maxFreq` is 0 or a bin some slice keeps; it is 0 when no slice keeps any |
| SparseEncoder.RunningMaxFreqIsLargestKeptBin | app/utils/spectrogram.py:18-50 | the running `maxFreq` is the largest kept bin over all slices, or 0 |
| SparseEncoder.EncodeFrame | app/utils/spectrogram.py:31-49 | one loop iteration builds exactly the frame's slice and updates `maxFreq` by that slice alone |
| SparseEncoder.EncodeFrames | app/utils/spectrogram.py:30-49 | the loop appends one slice per frame in order, and its `maxFreq` is the running maximum of those slices |
| SparseEncoder.Encode | app/utils/spectrogram.py:16-50 | the report built imperatively equals `Encoded`, whose properties follow |
| SparseEncoderProperties.EncodedSlice | app/utils/spectrogram.py:30-34 | slice `t` of the report is the slice of column `t` against the global maximum |
| SparseEncoderProperties.MaxValIsMatrixMaximum | app/utils/spectrogram.py:16-17 | `maxVal` bounds every cell, is attained by one and is non-negative |
| SparseEncoderProperties.OneSlicePerFrame | app/utils/spectrogram.py:19-31 | one slice per frame; slice `t` has time `t * 0.01`; `timeStep` is 0.01; `maxTime` is the time of the last slice |
| SparseEncoderProperties.SliceKeepsExactlyStrongBins | app/utils/spectrogram.py:34-39 | a slice's bins are in range, strictly increasing, and a bin is listed if and only if its cell passes the keep test against `maxVal` |
| SparseEncoderProperties.SliceAtStrengthValues | app/utils/spectrogram.py:44-47 | a slice's strengths are parallel to its bins; entry `j` is `floor(10000 * power[freqs[j]] / maxVal)` |
| SparseEncoderProperties.ReportStrengthValue | app/utils/spectrogram.py:36-47 | in every slice of the report, strength `j` is `floor(10000 * power[freqs[j]][t] / maxVal)` with the report's `maxVal` |
| SparseEncoderProperties.SliceAtStrengthRange | app/utils/spectrogram.py:44-45 | against a bound of its column, every strength is in 50..10000 |
| SparseEncoderProperties.StrengthsInRange | app/utils/spectrogram.py:44-47 | every strength in the report is in 50..10000 |
| SparseEncoderProperties.SliceAtMaxStrength | app/utils/spectrogram.py:37-48 | a slice's `maxStrength` is 0 with empty lists when no bin is kept, otherwise its largest strength |
| SparseEncoderProperties.SliceMaxStrengthIsLargest | app/utils/spectrogram.py:37-48 | the same, for every slice of the report |
| SparseEncoderProperties.MaxFreqIsLargestKeptBin | app/utils/spectrogram.py:18-50 | `maxFreq` bounds every kept bin, is one of them when any is kept, and is 0 otherwise |
| SparseEncoderProperties.SilenceGivesEmptySlices | app/utils/spectrogram.py:16-48 | for an all-zero spectrum `maxVal` and `maxFreq` are 0 and every slice is empty with `maxStrength` 0 |
| Spectrogram.FramesOf | app/utils/spectrogram.py:56-67 | `ZeroStride` if and only if the stride is 0 samples; `NegativeFrameCount` if and only if the buffer is shorter than a window by more than a stride; `NoSecondFrame` if and only if it is otherwise shorter than a window plus a stride; else at least two frames, the framer's |
| Spectrogram.ShortAudioStopsAtFrameCheck | app/utils/spectrogram.py:56-67 | 320 to 479 samples at 16 kHz (one 20 ms window, less than one more 10 ms stride) fail at the check on frame 1 |
| Spectrogram.SpectrumOf | app/utils/spectrogram.py:76-87 | defined if and only if there is a bin and the effective limit is non-negative; the result is a prefix of the scaled matrix, keeps exactly the bins at or below the limit, and is a power matrix |
| Spectrogram.DefaultSpectrumIsWholeScaledMatrix | app/utils/spectrogram.py:55-87 | with no `max_freq`, an even rate and a full one-sided FFT, the spectrum is the whole scaled matrix |
| Spectrogram.ReportHasOneSlicePerFrame | app/utils/spectrogram.py:8-31 | for audio of at least one window plus one stride at 100 Hz or more, framing and band limiting succeed and the report has one slice per frame, slice `t` at time `t * 0.01` |

## Left out

- Decoding the audio file (`librosa.load`, line 8) is I/O; the model starts from the sample buffer and its rate.
- The Hann taper, `np.fft.rfft`, the magnitude and its square (lines 70-74) are floating-point numerics done by numpy; their result and `scale` (line 76) are inputs.
- `myconverter` (lines 90-99) only converts numpy scalars and arrays to Python values for JSON; the model's values are already plain.
- Dead assignments (lines 12, 14, 21, 24 and 26) have no effect on the result, and lines 82, 84 and 86 are commented-out code.
- `time_dex_lower` (line 25) is always 0 (`int(0 / time_step)`), so the model starts the loop at frame 0.
- `eps` (line 54) is unused by the code.
- Floating point: reals stand for float64 values, so rounding in the scaling, the ratio test and the quantisation is not modelled, and NaN appears only as the all-zero case (`Kept` is false when `maxVal` is 0).
- SparseEncoder.Slice: strengths are integers here; the source keeps the floats `(x * 10000) // 1`, which have the same whole values.
- SparseEncoder.TimeAt: the time is computed from the literal `StepHundredths` (proved equal to `(time_step * 100) // 1`), so float error in `i * 1 / 100` is not modelled.
- Framer.Frames: frames are copies of the samples they cover, not a view sharing memory with the buffer.
- Framer.FramesAsWritten: the buffer must be at least one window long; shorter buffers are handled in `Spectrogram.FramesOf`, which follows the source as written, so the corrected one-frame framing of the Findings row is used only through `Framer.Frames` and its lemmas.
- Spectrogram.FramesOf: a window of 0 samples with a positive stride, which would fail in the FFT, is not reachable through `get_spectrogram_data`'s 20 ms / 10 ms configuration and is not separately reported.

## Findings

| source | as written | input that shows it | evidently intended | confidence | as-written member | corrected member |
|---|---|---|---|---|---|---|
| app/utils/spectrogram.py:67 | the sanity check indexes frame 1 (`windows[:, 1]`), so it raises `IndexError` whenever the trimmed buffer has a single frame | a buffer of exactly `window_size` samples (320 samples at 16 kHz), or any buffer shorter than one window plus one stride | such a buffer is framed as one frame, the whole buffer | not executed | Framer.OneWindowBufferFailsAsWritten | Framer.ExactWindowGivesOneFrame |
