/**
  The framer of `spectrogram` (app/utils/spectrogram.py): it turns durations
  into sample counts, drops the tail of the buffer that does not fill a whole
  stride, and views the rest as overlapping frames of `window` samples taken
  every `stride` samples. numpy builds that view with `as_strided`, without
  copying; here a frame is the slice of the samples it would show.
*/
module Framer {
  import opened Wrappers

  /** Samples in `ms` milliseconds at `sampleRate` Hz, truncated toward zero
      as `int(0.001 * sample_rate * ms)` truncates a non-negative float. */
  function SamplesIn(sampleRate: nat, ms: real): (n: nat)
    requires ms >= 0.0
    ensures (n as real) * 1000.0 <= (sampleRate as real) * ms
    ensures (sampleRate as real) * ms < (n as real + 1.0) * 1000.0
  {
    ((sampleRate as real) * ms / 1000.0).Floor
  }

  /** A buffer of `length` samples ends exactly on a stride boundary. */
  predicate EndsOnStride(length: nat, window: nat, stride: nat)
    requires window <= length && 1 <= stride
  {
    (length - window) % stride == 0
  }

  /** How many trailing samples are dropped so that the rest ends on a stride. */
  function TruncateSize(length: nat, window: nat, stride: nat): (t: nat)
    requires window <= length && 1 <= stride
    ensures t < stride && t <= length - window
    ensures (length - t - window) % stride == 0
  {
    var a := length - window;
    DivModUnique(a - a % stride, stride, a / stride, 0);
    a % stride
  }

  /** The buffer after its tail is cut: the longest prefix, at least one
      window long, whose length past the first window is a whole number of
      strides. */
  function Trimmed(samples: seq<real>, window: nat, stride: nat): (kept: seq<real>)
    requires window <= |samples| && 1 <= stride
    ensures window <= |kept| <= |samples| && |samples| - |kept| < stride
    ensures kept == samples[..|kept|]
    ensures EndsOnStride(|kept|, window, stride)
    ensures forall n :: |kept| < n <= |samples| ==> !EndsOnStride(n, window, stride)
  {
    var t := TruncateSize(|samples|, window, stride);
    var kept := samples[..|samples| - t];
    assert forall n :: |kept| < n <= |samples| ==> !EndsOnStride(n, window, stride) by {
      forall n | |kept| < n <= |samples|
        ensures !EndsOnStride(n, window, stride)
      {
        ModOfShift(|kept| - window, n - |kept|, stride);
      }
    }
    kept
  }

  /** Adding less than one stride to a multiple of it leaves a non-zero remainder. */
  lemma ModOfShift(a: nat, d: nat, stride: nat)
    requires 1 <= stride && a % stride == 0 && 0 < d < stride
    ensures (a + d) % stride == d
  {
    DivModUnique(a + d, stride, a / stride, d);
  }

  /** `m` is at most `d * m` for a positive factor `d`. */
  lemma {:induction false} MulAtLeast(d: nat, m: nat)
    requires 1 <= d
    ensures m <= d * m
  {
    if d > 1 {
      MulAtLeast(d - 1, m);
      assert d * m == (d - 1) * m + m;
    }
  }

  /** Multiples of a positive `m` are at least `m` apart. */
  lemma MulGap(a: int, b: int, m: int)
    requires 0 < m && a < b
    ensures a * m + m <= b * m
  {
    assert b * m == a * m + (b - a) * m;
    MulAtLeast(b - a, m);
  }

  /** Quotient and remainder are the only ones that rebuild `x`. */
  lemma DivModUnique(x: int, m: int, q: int, r: int)
    requires 0 < m && 0 <= r < m && x == q * m + r
    ensures x / m == q && x % m == r
  {
    var q', r' := x / m, x % m;
    assert x == q' * m + r';
    if q < q' { MulGap(q, q', m); }
    else if q' < q { MulGap(q', q, m); }
  }

  /** Number of frames the strided view has: `(len - window) // stride + 1`. */
  function FrameCount(length: nat, window: nat, stride: nat): nat
    requires window <= length && 1 <= stride
  {
    (length - window) / stride + 1
  }

  /** A frame that starts at a whole number of strides no greater than the
      last start still ends inside the buffer. */
  lemma FrameFits(j: nat, length: nat, window: nat, stride: nat)
    requires window <= length && 1 <= stride && (length - window) % stride == 0
    requires j < FrameCount(length, window, stride)
    ensures j * stride + window <= length
  {
    var q := (length - window) / stride;
    assert q * stride == length - window;
    if j < q { MulGap(j, q, stride); }
  }

  /**
    The strided view: frame `j` holds the `window` samples that start at
    `j * stride` of the trimmed buffer, one frame per stride.
  */
  function Frames(samples: seq<real>, window: nat, stride: nat): (frames: seq<seq<real>>)
    requires window <= |samples| && 1 <= stride
    ensures |frames| == FrameCount(|Trimmed(samples, window, stride)|, window, stride)
    ensures forall j :: 0 <= j < |frames| ==> |frames[j]| == window
    ensures forall j, k {:trigger frames[j][k]} :: 0 <= j < |frames| && 0 <= k < window ==>
              j * stride + k < |samples| && frames[j][k] == samples[j * stride + k]
  {
    var kept := Trimmed(samples, window, stride);
    var count := FrameCount(|kept|, window, stride);
    assert forall j :: 0 <= j < count ==> j * stride + window <= |kept| by {
      forall j | 0 <= j < count
        ensures j * stride + window <= |kept|
      {
        FrameFits(j, |kept|, window, stride);
      }
    }
    seq(count, j requires 0 <= j < count => kept[j * stride .. j * stride + window])
  }

  /** Consecutive frames overlap: frame `j + 1` starts `stride` samples into frame `j`. */
  lemma FramesOverlap(samples: seq<real>, window: nat, stride: nat, j: nat, k: nat)
    requires window <= |samples| && 1 <= stride
    requires j + 1 < |Frames(samples, window, stride)| && k + stride < window
    ensures Frames(samples, window, stride)[j + 1][k] == Frames(samples, window, stride)[j][k + stride]
  {
    var frames := Frames(samples, window, stride);
    var start, next := j * stride, (j + 1) * stride;
    assert next == start + stride;
    assert next + k < |samples| && frames[j + 1][k] == samples[next + k];
    assert start + (k + stride) < |samples| && frames[j][k + stride] == samples[start + (k + stride)];
  }

  /** The frames cover the trimmed buffer: the last one ends on its last sample. */
  lemma {:induction false} LastFrameEndsBuffer(samples: seq<real>, window: nat, stride: nat)
    requires window <= |samples| && 1 <= stride
    ensures var frames := Frames(samples, window, stride);
            (|frames| - 1) * stride + window == |Trimmed(samples, window, stride)|
  {
    var kept := Trimmed(samples, window, stride);
    var q := (|kept| - window) / stride;
    assert q * stride == |kept| - window;
  }

  /** A buffer exactly one window long is one frame: the whole buffer. */
  lemma ExactWindowGivesOneFrame(samples: seq<real>, window: nat, stride: nat)
    requires window == |samples| && 1 <= stride
    ensures Frames(samples, window, stride) == [samples]
  {
    var frames := Frames(samples, window, stride);
    assert |frames| == 1;
    assert frames[0] == samples;
  }

  /** The default configuration on one second of 16 kHz audio: 320-sample
      windows every 160 samples give 99 frames. */
  lemma OneSecondAt16kHz(samples: seq<real>)
    requires |samples| == 16000
    ensures SamplesIn(16000, 20.0) == 320 && SamplesIn(16000, 10.0) == 160
    ensures |Frames(samples, 320, 160)| == 99
  {
    DivModUnique(15680, 160, 98, 0);
  }

  /** Failure of the stride check on line 67 of the source. */
  datatype FramerError = IndexOutOfBounds | AssertionFailed

  /**
    The framer as written: after building the view it asserts that frame 1
    equals `samples[stride .. stride + window]`. Indexing frame 1 needs a
    second frame, so a buffer shorter than one window plus one stride fails
    with an index error; when a second frame exists the assertion holds.
  */
  function FramesAsWritten(samples: seq<real>, window: nat, stride: nat)
    : (r: Result<seq<seq<real>>, FramerError>)
    requires window <= |samples| && 1 <= stride
    ensures r.Ok? <==> |samples| >= window + stride
    ensures r.Ok? ==> r.value == Frames(samples, window, stride)
    ensures r.Err? ==> r.error == IndexOutOfBounds
  {
    var frames := Frames(samples, window, stride);
    TwoFramesIff(samples, window, stride);
    if |frames| < 2 then Err(IndexOutOfBounds)
    else if frames[1] == samples[stride .. stride + window] then Ok(frames)
    else Err(AssertionFailed)
  }

  /** There is a second frame exactly when the buffer holds a window and a stride. */
  lemma TwoFramesIff(samples: seq<real>, window: nat, stride: nat)
    requires window <= |samples| && 1 <= stride
    ensures |Frames(samples, window, stride)| >= 2 <==> |samples| >= window + stride
  {
    var kept := Trimmed(samples, window, stride);
    var q := (|kept| - window) / stride;
    assert q * stride == |kept| - window;
    if q >= 1 {
      MulAtLeast(q, stride);
    } else {
      assert |kept| == window;
    }
  }

  /** The as-written framer rejects a buffer of exactly one window. */
  lemma OneWindowBufferFailsAsWritten(samples: seq<real>, window: nat, stride: nat)
    requires window == |samples| && 1 <= stride
    ensures FramesAsWritten(samples, window, stride) == Err(IndexOutOfBounds)
    ensures |Frames(samples, window, stride)| == 1
  {
    ExactWindowGivesOneFrame(samples, window, stride);
  }
}
