/**
  The `spectrogram` function and the front of `get_spectrogram_data`
  (app/utils/spectrogram.py), assembled from the framer, the periodogram
  scaling, the band limiter and the sparse encoder. The Hann weighting and
  the FFT are numpy's: their output, the power matrix, and `scale` are
  inputs here.
*/
module Spectrogram {
  import opened Wrappers
  import Framer
  import Periodogram
  import BandLimiter
  import SparseEncoder
  import SparseEncoderProperties

  /** Window and stride `get_spectrogram_data` asks for, in milliseconds. */
  const WindowMs: real := 20.0
  const StrideMs: real := 10.0

  /** Ways the framing step of `spectrogram` fails, before any FFT is taken. */
  datatype FramingError =
    | ZeroStride          // `stride_size` is 0: the modulo on line 60 divides by zero
    | NegativeFrameCount  // the frame count on line 62 is negative: numpy rejects the strided shape
    | NoSecondFrame       // fewer than two frames: `windows[:, 1]` on line 67 is out of range

  /**
    The frames `spectrogram` cuts from `samples`, with window and stride
    converted from milliseconds to samples, as the source runs: the strided
    view of the framer when it has a second frame for the check on line 67,
    otherwise the error that stops the source first. A buffer shorter than
    one window by at most a stride is trimmed to a view with no frame, which
    fails that check like a one-frame view.
  */
  function FramesOf(samples: seq<real>, sampleRate: nat, strideMs: real, windowMs: real)
    : (r: Result<seq<seq<real>>, FramingError>)
    requires strideMs >= 0.0 && windowMs >= 0.0
    ensures var stride := Framer.SamplesIn(sampleRate, strideMs);
            var window := Framer.SamplesIn(sampleRate, windowMs);
            (r == Err(ZeroStride) <==> stride == 0) &&
            (r == Err(NegativeFrameCount) <==> stride >= 1 && |samples| + stride < window) &&
            (r == Err(NoSecondFrame) <==>
               stride >= 1 && window <= |samples| + stride && |samples| < window + stride) &&
            (r.Ok? <==> stride >= 1 && window + stride <= |samples|) &&
            (r.Ok? ==> |r.value| >= 2 && r.value == Framer.Frames(samples, window, stride))
  {
    var stride := Framer.SamplesIn(sampleRate, strideMs);
    var window := Framer.SamplesIn(sampleRate, windowMs);
    if stride == 0 then Err(ZeroStride)
    else if |samples| + stride < window then Err(NegativeFrameCount)
    else if |samples| < window then Err(NoSecondFrame)
    else
      Framer.TwoFramesIff(samples, window, stride);
      match Framer.FramesAsWritten(samples, window, stride)
      case Ok(frames) => Ok(frames)
      case Err(_) => Err(NoSecondFrame)
  }

  /** 20 ms of audio at 16 kHz, one window and less than a stride more, stops
      at the check on line 67. */
  lemma ShortAudioStopsAtFrameCheck(samples: seq<real>)
    requires 320 <= |samples| < 480
    ensures FramesOf(samples, 16000, StrideMs, WindowMs) == Err(NoSecondFrame)
  {
    assert Framer.SamplesIn(16000, WindowMs) == 320;
    assert Framer.SamplesIn(16000, StrideMs) == 160;
  }

  /**
    The steps of `spectrogram` after the FFT: periodogram scaling, then the
    band limit at the effective `max_freq`. The result, when there is one, is
    the leading rows of the scaled matrix, exactly the bins at or below the
    limit, and still a power matrix.
  */
  function SpectrumOf(power: seq<seq<real>>, cols: nat, sampleRate: nat, window: nat,
                      scale: real, maxFreq: Option<real>)
    : (r: Result<seq<seq<real>>, BandLimiter.BandError>)
    requires 1 <= window && scale > 0.0 && Periodogram.IsPower(power, cols)
    ensures var limit := BandLimiter.EffectiveMaxFreq(maxFreq, sampleRate);
            (r.Ok? <==> |power| >= 1 && limit >= 0.0) &&
            (r.Ok? ==>
               |r.value| <= |power| && Periodogram.IsPower(r.value, cols) &&
               r.value == Periodogram.Scaled(power, scale)[..|r.value|] &&
               forall k :: 0 <= k < |power| ==>
                 (k < |r.value| <==> BandLimiter.BinFreq(k, sampleRate, window) <= limit))
  {
    var scaled := Periodogram.Scaled(power, scale);
    Periodogram.ScalingKeepsPower(power, cols, scale);
    var limit := BandLimiter.EffectiveMaxFreq(maxFreq, sampleRate);
    BandLimiter.BandLimitKeepsPower(scaled, cols, sampleRate, window, limit);
    BandLimiter.BandLimit(scaled, sampleRate, window, limit)
  }

  /**
    Without a `max_freq` (as `get_spectrogram_data` calls it), an even
    sample rate and the `window // 2 + 1` rows of a one-sided FFT, the
    spectrum is the whole scaled matrix.
  */
  lemma DefaultSpectrumIsWholeScaledMatrix(power: seq<seq<real>>, cols: nat, sampleRate: nat,
                                           window: nat, scale: real)
    requires 1 <= window && scale > 0.0 && Periodogram.IsPower(power, cols)
    requires sampleRate % 2 == 0 && |power| == window / 2 + 1
    ensures SpectrumOf(power, cols, sampleRate, window, scale, None) ==
              Ok(Periodogram.Scaled(power, scale))
  {
    BandLimiter.DefaultLimitKeepsFullSpectrum(Periodogram.Scaled(power, scale), sampleRate, window);
  }

  /**
    `get_spectrogram_data` end to end, past the FFT: for audio of at least
    one 20 ms window and one 10 ms stride at a rate of 100 Hz or more,
    framing succeeds, the default band limit keeps at least the DC bin, and
    the report has one slice per frame, slice `t` at `t` hundredths of a
    second.
  */
  lemma ReportHasOneSlicePerFrame(samples: seq<real>, sampleRate: nat,
                                  power: seq<seq<real>>, scale: real)
    requires sampleRate >= 100
    requires |samples| >= Framer.SamplesIn(sampleRate, WindowMs) + Framer.SamplesIn(sampleRate, StrideMs)
    requires scale > 0.0 && |power| >= 1
    requires Periodogram.IsPower(power, |Framer.Frames(samples, Framer.SamplesIn(sampleRate, WindowMs),
                                                       Framer.SamplesIn(sampleRate, StrideMs))|)
    ensures FramesOf(samples, sampleRate, StrideMs, WindowMs).Ok?
    ensures var frames := FramesOf(samples, sampleRate, StrideMs, WindowMs).value;
            var spectrum := SpectrumOf(power, |frames|, sampleRate,
                                       Framer.SamplesIn(sampleRate, WindowMs), scale, None);
            spectrum.Ok? && SparseEncoder.IsSpectrum(spectrum.value) &&
            |SparseEncoder.Encoded(spectrum.value).windows| == |frames| &&
            forall t :: 0 <= t < |frames| ==>
              SparseEncoder.Encoded(spectrum.value).windows[t].time == (t as real) * 0.01
  {
    var frames := FramesOf(samples, sampleRate, StrideMs, WindowMs).value;
    var window := Framer.SamplesIn(sampleRate, WindowMs);
    var spectrum := SpectrumOf(power, |frames|, sampleRate, window, scale, None);
    assert spectrum.Ok?;
    assert |spectrum.value| >= 1 && |spectrum.value[0]| == |frames|;
    SparseEncoderProperties.OneSlicePerFrame(spectrum.value);
  }
}
