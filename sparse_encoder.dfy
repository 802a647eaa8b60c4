/**
  The sparse encoder `get_spectrogram_data` (app/utils/spectrogram.py). It
  normalises the band-limited power matrix by its largest cell and, for every
  frame, keeps the bins whose normalised strength reaches 0.005, with their
  strengths quantised to ten-thousandths. It also records the largest bin
  index kept in any frame and the time of every frame.
*/
module SparseEncoder {
  import Periodogram

  /** Normalised strength a bin needs to be kept (`minimum = 5 * 10**-3`). */
  const MinStrength: real := 0.005

  /** `time_step = stride_ms / 1000` with the fixed stride of 10 ms. */
  const TimeStep: real := 0.01

  /** One frame of the report: kept bin indices, their quantised strengths
      (parallel to `freqs`), the largest of those and the frame's time. */
  datatype Slice = Slice(time: real, freqs: seq<nat>, strengths: seq<int>, maxStrength: int)

  /** The report: raw maximum power, largest kept bin index, time step, time
      of the last frame and one slice per frame. */
  datatype Report = Report(maxVal: real, maxFreq: nat, timeStep: real, maxTime: real, windows: seq<Slice>)

  /** A band-limited spectrum: at least one bin and one frame, rectangular, non-negative. */
  ghost predicate IsSpectrum(s: seq<seq<real>>)
  {
    |s| >= 1 && |s[0]| >= 1 && Periodogram.IsPower(s, |s[0]|)
  }

  /** Largest value of a non-empty row. */
  function RowMax(row: seq<real>): (r: real)
    requires |row| >= 1
    ensures forall t :: 0 <= t < |row| ==> row[t] <= r
    ensures exists t :: 0 <= t < |row| && row[t] == r
  {
    if |row| == 1 then row[0]
    else
      var m := RowMax(row[..|row| - 1]);
      assert forall t :: 0 <= t < |row| - 1 ==> row[..|row| - 1][t] == row[t];
      if row[|row| - 1] > m then row[|row| - 1] else m
  }

  /** `np.max(s)`: the largest cell of the matrix. */
  function MatrixMax(s: seq<seq<real>>): (r: real)
    requires |s| >= 1 && forall b :: 0 <= b < |s| ==> |s[b]| >= 1
    ensures forall b, t :: 0 <= b < |s| && 0 <= t < |s[b]| ==> s[b][t] <= r
    ensures exists b, t :: 0 <= b < |s| && 0 <= t < |s[b]| && s[b][t] == r
  {
    var last := RowMax(s[|s| - 1]);
    if |s| == 1 then last
    else
      var m := MatrixMax(s[..|s| - 1]);
      assert forall b :: 0 <= b < |s| - 1 ==> s[..|s| - 1][b] == s[b];
      if last > m then last else m
  }

  /**
    Whether a cell is kept: its strength relative to `maxVal` reaches the
    threshold, written without the division (see `KeptIsRatioTest`). When
    `maxVal` is 0 (silence) numpy computes 0/0, which is NaN and fails every
    comparison, so nothing is kept.
  */
  predicate Kept(v: real, maxVal: real)
  {
    maxVal > 0.0 && v >= MinStrength * maxVal
  }

  /** `Kept` is the source's test `v / maxVal >= minimum`, NaN included. */
  lemma KeptIsRatioTest(v: real, maxVal: real)
    ensures Kept(v, maxVal) <==> maxVal > 0.0 && v / maxVal >= MinStrength
  {
    if maxVal > 0.0 {
      assert v / maxVal * maxVal == v;
      assert v / maxVal >= MinStrength <==> v / maxVal * maxVal >= MinStrength * maxVal;
    }
  }

  /** Cell `t` of every row: column `s[:, t]`. */
  function Column(s: seq<seq<real>>, t: nat): (col: seq<real>)
    requires forall b :: 0 <= b < |s| ==> t < |s[b]|
    ensures |col| == |s| && forall b :: 0 <= b < |s| ==> col[b] == s[b][t]
  {
    seq(|s|, b requires 0 <= b < |s| => s[b][t])
  }

  /** `np.where(col / maxVal >= minimum)[0]`: the kept bins, in increasing order. */
  function KeptIndices(col: seq<real>, maxVal: real): (fs: seq<nat>)
    ensures forall i :: 0 <= i < |fs| ==> fs[i] < |col| && Kept(col[fs[i]], maxVal)
    ensures forall i, j :: 0 <= i < j < |fs| ==> fs[i] < fs[j]
    ensures forall f :: 0 <= f < |col| ==> (f in fs <==> Kept(col[f], maxVal))
  {
    if |col| == 0 then []
    else
      var n := |col| - 1;
      var fs := KeptIndices(col[..n], maxVal);
      assert forall f :: 0 <= f < n ==> col[..n][f] == col[f];
      if Kept(col[n], maxVal) then fs + [n] else fs
  }

  /** `(x * 10000) // 1`: a strength in ten-thousandths, rounded down. */
  function Quantize(x: real): int
  {
    (x * 10000.0).Floor
  }

  /** A kept strength is between 0.005 and 1, so its level is between 50 and 10000. */
  lemma QuantizeRange(x: real)
    requires MinStrength <= x <= 1.0
    ensures 50 <= Quantize(x) <= 10000
  {
    assert 50.0 <= x * 10000.0 <= 10000.0;
  }

  /** The quantised strengths of the kept bins, in the order of `freqs`. */
  function Strengths(col: seq<real>, freqs: seq<nat>, maxVal: real): (q: seq<int>)
    requires maxVal > 0.0 && forall i :: 0 <= i < |freqs| ==> freqs[i] < |col|
    ensures |q| == |freqs|
  {
    seq(|freqs|, i requires 0 <= i < |freqs| => Quantize(col[freqs[i]] / maxVal))
  }

  /** `np.max(xs)` for a non-empty list; 0, the initial value, for an empty one. */
  function LargestOrZero(xs: seq<int>): (r: int)
    ensures |xs| == 0 ==> r == 0
    ensures forall i :: 0 <= i < |xs| ==> xs[i] <= r
    ensures |xs| > 0 ==> exists i :: 0 <= i < |xs| && xs[i] == r
  {
    if |xs| == 0 then 0
    else if |xs| == 1 then xs[0]
    else
      var m := LargestOrZero(xs[..|xs| - 1]);
      assert forall i :: 0 <= i < |xs| - 1 ==> xs[..|xs| - 1][i] == xs[i];
      if xs[|xs| - 1] > m then xs[|xs| - 1] else m
  }

  /** Time of frame `i`: `i * ((time_step * 100) // 1) / 100`, from the index
      each time, so rounding does not accumulate. */
  function TimeAt(i: nat): real
  {
    (i * StepHundredths) as real / 100.0
  }

  /** `(time_step * 100) // 1` for the fixed time step: the step in whole
      hundredths of a second, written out as a literal. */
  const StepHundredths: int := 1

  /** The literal above is the rounding the source performs. */
  lemma StepHundredthsIsRoundedStep()
    ensures StepHundredths == (TimeStep * 100.0).Floor
  {
  }

  /** Every row of `s` has at least `n` frames. */
  predicate HasFrames(s: seq<seq<real>>, n: nat)
  {
    forall b :: 0 <= b < |s| ==> n <= |s[b]|
  }

  /** The slice the loop builds for frame `t`. */
  function SliceAt(s: seq<seq<real>>, t: nat, maxVal: real): Slice
    requires HasFrames(s, t + 1)
  {
    var col := Column(s, t);
    var freqs := KeptIndices(col, maxVal);
    var strengths := if |freqs| == 0 then [] else
      assert Kept(col[freqs[0]], maxVal);
      Strengths(col, freqs, maxVal);
    Slice(TimeAt(t), freqs, strengths, LargestOrZero(strengths))
  }

  /** The slices of the first `n` frames. */
  function Slices(s: seq<seq<real>>, maxVal: real, n: nat): (ws: seq<Slice>)
    requires HasFrames(s, n)
    ensures |ws| == n
  {
    seq(n, t requires 0 <= t < n => SliceAt(s, t, maxVal))
  }

  /** One more frame appends one more slice. */
  lemma SlicesExtend(s: seq<seq<real>>, maxVal: real, n: nat)
    requires HasFrames(s, n + 1)
    ensures Slices(s, maxVal, n + 1) == Slices(s, maxVal, n) + [SliceAt(s, n, maxVal)]
  {
  }

  /**
    `ret['maxFreq']` after the slices in `ws`: it starts at 0 and, for each
    slice with kept bins, becomes that slice's largest bin if that is larger.
  */
  function RunningMaxFreq(ws: seq<Slice>): nat
  {
    if |ws| == 0 then 0
    else NextMaxFreq(RunningMaxFreq(ws[..|ws| - 1]), ws[|ws| - 1].freqs)
  }

  /** `max_freq if max_freq > ret['maxFreq'] else ret['maxFreq']`, for a
      slice that keeps bins; a slice that keeps none leaves it alone. */
  function NextMaxFreq(prev: nat, freqs: seq<nat>): nat
  {
    if |freqs| > 0 && LargestOrZero(freqs) > prev then LargestOrZero(freqs) else prev
  }

  /** One update leaves the running maximum at least as large as before and
      as every bin of the slice, and either unchanged or one of those bins. */
  lemma NextMaxFreqIsMax(prev: nat, freqs: seq<nat>)
    ensures prev <= NextMaxFreq(prev, freqs)
    ensures forall j :: 0 <= j < |freqs| ==> freqs[j] <= NextMaxFreq(prev, freqs)
    ensures NextMaxFreq(prev, freqs) == prev || NextMaxFreq(prev, freqs) in freqs
  {
    if |freqs| > 0 && LargestOrZero(freqs) > prev {
      var k :| 0 <= k < |freqs| && freqs[k] == LargestOrZero(freqs);
    }
  }

  /** No slice keeps a bin above the final running maximum. */
  lemma {:induction false} RunningMaxFreqIsUpperBound(ws: seq<Slice>)
    ensures forall i, j :: 0 <= i < |ws| && 0 <= j < |ws[i].freqs| ==> ws[i].freqs[j] <= RunningMaxFreq(ws)
  {
    if |ws| > 0 {
      var prefix := ws[..|ws| - 1];
      RunningMaxFreqIsUpperBound(prefix);
      NextMaxFreqIsMax(RunningMaxFreq(prefix), ws[|ws| - 1].freqs);
      assert forall i :: 0 <= i < |ws| - 1 ==> prefix[i] == ws[i];
    }
  }

  /** The final running maximum is a bin some slice keeps, or 0 when no
      slice keeps any. */
  lemma {:induction false} RunningMaxFreqIsKeptOrZero(ws: seq<Slice>)
    ensures RunningMaxFreq(ws) == 0 || exists i :: 0 <= i < |ws| && RunningMaxFreq(ws) in ws[i].freqs
    ensures (forall i :: 0 <= i < |ws| ==> |ws[i].freqs| == 0) ==> RunningMaxFreq(ws) == 0
  {
    if |ws| > 0 {
      var prefix := ws[..|ws| - 1];
      RunningMaxFreqIsKeptOrZero(prefix);
      NextMaxFreqIsMax(RunningMaxFreq(prefix), ws[|ws| - 1].freqs);
      assert forall i :: 0 <= i < |ws| - 1 ==> prefix[i] == ws[i];
      if RunningMaxFreq(ws) != RunningMaxFreq(prefix) {
        assert RunningMaxFreq(ws) in ws[|ws| - 1].freqs;
      } else if RunningMaxFreq(prefix) != 0 {
        var i :| 0 <= i < |prefix| && RunningMaxFreq(prefix) in prefix[i].freqs;
        assert RunningMaxFreq(ws) in ws[i].freqs;
      }
    }
  }

  /** Appending a slice updates the running maximum by that slice alone. */
  lemma RunningMaxFreqExtend(ws: seq<Slice>, w: Slice)
    ensures RunningMaxFreq(ws + [w]) == NextMaxFreq(RunningMaxFreq(ws), w.freqs)
  {
    assert (ws + [w])[..|ws|] == ws;
  }

  /** The report `get_spectrogram_data` returns for spectrum `s`. */
  function Encoded(s: seq<seq<real>>): Report
    requires IsSpectrum(s)
  {
    var maxVal := MatrixMax(s);
    var cols := |s[0]|;
    var ws := Slices(s, maxVal, cols);
    Report(maxVal, RunningMaxFreq(ws), TimeStep, TimeAt(cols - 1), ws)
  }

  /**
    The body of the encoding loop for frame `t`: the slice it appends and
    the value `ret['maxFreq']` takes afterwards.
  */
  method EncodeFrame(s: seq<seq<real>>, t: nat, maxVal: real, maxFreq: nat)
    returns (slice: Slice, newMaxFreq: nat)
    requires HasFrames(s, t + 1)
    ensures slice == SliceAt(s, t, maxVal)
    ensures newMaxFreq == NextMaxFreq(maxFreq, slice.freqs)
  {
    var col := Column(s, t);
    var freqs := KeptIndices(col, maxVal);
    var strengths: seq<int> := [];
    var maxStrength := 0;
    newMaxFreq := maxFreq;
    if |freqs| > 0 {
      var top := LargestOrZero(freqs);
      newMaxFreq := if top > maxFreq then top else maxFreq;
      assert Kept(col[freqs[0]], maxVal);
      strengths := Strengths(col, freqs, maxVal);
      maxStrength := LargestOrZero(strengths);
    }
    slice := Slice(TimeAt(t), freqs, strengths, maxStrength);
  }

  /**
    The encoding loop over frames `0 .. cols`: one slice per frame, appended
    in frame order, with `ret['maxFreq']` raised to the largest kept bin of
    each frame that keeps any.
  */
  method EncodeFrames(s: seq<seq<real>>, maxVal: real, cols: nat) returns (windows: seq<Slice>, maxFreq: nat)
    requires HasFrames(s, cols)
    ensures windows == Slices(s, maxVal, cols)
    ensures maxFreq == RunningMaxFreq(windows)
  {
    windows := [];
    maxFreq := 0;
    var i := 0;
    while i < cols
      invariant 0 <= i <= cols
      invariant windows == Slices(s, maxVal, i)
      invariant maxFreq == RunningMaxFreq(windows)
    {
      var slice;
      slice, maxFreq := EncodeFrame(s, i, maxVal, maxFreq);
      SlicesExtend(s, maxVal, i);
      RunningMaxFreqExtend(windows, slice);
      windows := windows + [slice];
      i := i + 1;
    }
  }

  /** `get_spectrogram_data` after the spectrum is computed: the global
      maximum, the time of the last frame, then the loop over every frame. */
  method Encode(s: seq<seq<real>>) returns (r: Report)
    requires IsSpectrum(s)
    ensures r == Encoded(s)
  {
    var maxVal := MatrixMax(s);
    var cols := |s[0]|;
    var maxTime := TimeAt(cols - 1);
    assert HasFrames(s, cols);
    var windows, maxFreq := EncodeFrames(s, maxVal, cols);
    r := Report(maxVal, maxFreq, TimeStep, maxTime, windows);
    assert Encoded(s) == Report(maxVal, RunningMaxFreq(windows), TimeStep, maxTime, windows);
  }
}

/** What the report promises its reader, stated over `Encoded`. */
module SparseEncoderProperties {
  import opened SparseEncoder
  import Periodogram

  /** Slice `t` of the report is the slice built for frame `t` against the maximum. */
  lemma EncodedSlice(s: seq<seq<real>>, t: nat)
    requires IsSpectrum(s) && t < |s[0]|
    ensures HasFrames(s, t + 1)
    ensures Encoded(s).maxVal == MatrixMax(s)
    ensures |Encoded(s).windows| == |s[0]|
    ensures Encoded(s).windows[t] == SliceAt(s, t, MatrixMax(s))
  {
    assert HasFrames(s, |s[0]|);
  }

  /** `maxVal` is the largest power in the matrix. */
  lemma MaxValIsMatrixMaximum(s: seq<seq<real>>)
    requires IsSpectrum(s)
    ensures forall b, t :: 0 <= b < |s| && 0 <= t < |s[b]| ==> s[b][t] <= Encoded(s).maxVal
    ensures exists b, t :: 0 <= b < |s| && 0 <= t < |s[b]| && s[b][t] == Encoded(s).maxVal
    ensures Encoded(s).maxVal >= 0.0
  {
    var m := Encoded(s).maxVal;
    assert s[0][0] <= m;
  }

  /** One slice per frame, in frame order, each at its own frame's time. */
  lemma OneSlicePerFrame(s: seq<seq<real>>)
    requires IsSpectrum(s)
    ensures |Encoded(s).windows| == |s[0]|
    ensures forall t :: 0 <= t < |s[0]| ==> Encoded(s).windows[t].time == (t as real) * 0.01
    ensures Encoded(s).timeStep == 0.01
    ensures Encoded(s).maxTime == Encoded(s).windows[|s[0]| - 1].time
  {
  }

  /** The bins of slice `t` are exactly the bins whose strength relative to
      the maximum reaches the threshold (`Kept`, which `KeptIsRatioTest`
      shows is the ratio test), listed in increasing order. */
  lemma SliceKeepsExactlyStrongBins(s: seq<seq<real>>, t: nat)
    requires IsSpectrum(s) && t < |s[0]|
    ensures var r := Encoded(s);
            var w := r.windows[t];
            (forall j :: 0 <= j < |w.freqs| ==> w.freqs[j] < |s|) &&
            (forall j, k :: 0 <= j < k < |w.freqs| ==> w.freqs[j] < w.freqs[k]) &&
            (forall f :: 0 <= f < |s| ==>
               (f in w.freqs <==> Kept(s[f][t], r.maxVal)))
  {
    var r := Encoded(s);
    assert HasFrames(s, t + 1);
    var col := Column(s, t);
    assert r.windows[t] == SliceAt(s, t, r.maxVal);
    assert forall f :: 0 <= f < |s| ==> col[f] == s[f][t];
  }

  /** A cell no larger than a positive maximum has a strength of at most 1. */
  lemma StrengthAtMostOne(v: real, maxVal: real)
    requires 0.0 <= v <= maxVal && maxVal > 0.0
    ensures v / maxVal <= 1.0
  {
    assert v / maxVal * maxVal == v;
  }

  /** The strengths of a slice run parallel to its bins: entry `j` is the
      quantised strength of bin `freqs[j]`. With `EncodedSlice` this holds of
      every slice of the report, against its `maxVal`. */
  lemma SliceAtStrengthValues(s: seq<seq<real>>, t: nat, maxVal: real, j: nat)
    requires HasFrames(s, t + 1) && j < |SliceAt(s, t, maxVal).freqs|
    ensures var w := SliceAt(s, t, maxVal);
            |w.strengths| == |w.freqs| && w.freqs[j] < |s| && maxVal > 0.0 &&
            w.strengths[j] == Quantize(s[w.freqs[j]][t] / maxVal)
  {
    SliceAtParts(s, t, maxVal);
    StrengthAt(Column(s, t), SliceAt(s, t, maxVal).freqs, maxVal, j);
  }

  /** Entry `j` of the strengths of slice `t` of the report is the quantised
      strength of bin `freqs[j]` against the report's `maxVal`. */
  lemma ReportStrengthValue(s: seq<seq<real>>, t: nat, j: nat)
    requires IsSpectrum(s) && t < |s[0]|
    ensures var r := Encoded(s);
            var w := r.windows[t];
            j < |w.freqs| ==>
              j < |w.strengths| && w.freqs[j] < |s| && r.maxVal > 0.0 &&
              w.strengths[j] == Quantize(s[w.freqs[j]][t] / r.maxVal)
  {
    EncodedSlice(s, t);
    if j < |SliceAt(s, t, MatrixMax(s)).freqs| {
      SliceAtStrengthValues(s, t, MatrixMax(s), j);
    }
  }

  /** How the slice for frame `t` is assembled from the kept bins of column
      `t` and their quantised strengths. */
  lemma SliceAtParts(s: seq<seq<real>>, t: nat, maxVal: real)
    requires HasFrames(s, t + 1)
    ensures var w := SliceAt(s, t, maxVal);
            w.freqs == KeptIndices(Column(s, t), maxVal) &&
            |w.strengths| == |w.freqs| &&
            (|w.freqs| > 0 ==> maxVal > 0.0 && w.strengths == Strengths(Column(s, t), w.freqs, maxVal))
  {
    var col := Column(s, t);
    var freqs := KeptIndices(col, maxVal);
    if |freqs| > 0 {
      assert Kept(col[freqs[0]], maxVal);
    }
  }

  /** Entry `j` of the quantised strengths is the quantised strength of bin `freqs[j]`. */
  lemma StrengthAt(col: seq<real>, freqs: seq<nat>, maxVal: real, j: nat)
    requires maxVal > 0.0 && forall i :: 0 <= i < |freqs| ==> freqs[i] < |col|
    requires j < |freqs|
    ensures Strengths(col, freqs, maxVal)[j] == Quantize(col[freqs[j]] / maxVal)
  {
  }

  /** Against an upper bound of its column, every strength of a slice is
      between 50 and 10000. */
  lemma SliceAtStrengthRange(s: seq<seq<real>>, t: nat, maxVal: real)
    requires HasFrames(s, t + 1)
    requires forall b :: 0 <= b < |s| ==> 0.0 <= s[b][t] <= maxVal
    ensures var w := SliceAt(s, t, maxVal);
            forall j :: 0 <= j < |w.strengths| ==> 50 <= w.strengths[j] <= 10000
  {
    var col := Column(s, t);
    var w := SliceAt(s, t, maxVal);
    forall j | 0 <= j < |w.strengths|
      ensures 50 <= w.strengths[j] <= 10000
    {
      var f := w.freqs[j];
      assert Kept(col[f], maxVal);
      KeptIsRatioTest(s[f][t], maxVal);
      StrengthAtMostOne(s[f][t], maxVal);
      QuantizeRange(s[f][t] / maxVal);
    }
  }

  /** Every quantised strength of the report lies between 50 and 10000. */
  lemma StrengthsInRange(s: seq<seq<real>>, t: nat)
    requires IsSpectrum(s) && t < |s[0]|
    ensures var w := Encoded(s).windows[t];
            forall j :: 0 <= j < |w.strengths| ==> 50 <= w.strengths[j] <= 10000
  {
    EncodedSlice(s, t);
    assert forall b :: 0 <= b < |s| ==> 0.0 <= s[b][t] <= MatrixMax(s);
    SliceAtStrengthRange(s, t, MatrixMax(s));
  }

  /** `maxStrength` is the largest strength of the slice, or 0 for a slice
      that keeps no bin. */
  lemma SliceMaxStrengthIsLargest(s: seq<seq<real>>, t: nat)
    requires IsSpectrum(s) && t < |s[0]|
    ensures var w := Encoded(s).windows[t];
            (|w.freqs| == 0 ==> w.strengths == [] && w.maxStrength == 0) &&
            (forall j :: 0 <= j < |w.strengths| ==> w.strengths[j] <= w.maxStrength) &&
            (|w.freqs| > 0 ==> exists j :: 0 <= j < |w.strengths| && w.strengths[j] == w.maxStrength)
  {
    EncodedSlice(s, t);
    SliceAtMaxStrength(s, t, MatrixMax(s));
  }

  /** `maxStrength` of the slice built for frame `t` against any `maxVal`. */
  lemma SliceAtMaxStrength(s: seq<seq<real>>, t: nat, maxVal: real)
    requires HasFrames(s, t + 1)
    ensures var w := SliceAt(s, t, maxVal);
            (|w.freqs| == 0 ==> w.strengths == [] && w.maxStrength == 0) &&
            (forall j :: 0 <= j < |w.strengths| ==> w.strengths[j] <= w.maxStrength) &&
            (|w.freqs| > 0 ==> exists j :: 0 <= j < |w.strengths| && w.strengths[j] == w.maxStrength)
  {
    var w := SliceAt(s, t, maxVal);
    assert w.maxStrength == LargestOrZero(w.strengths);
    assert |w.strengths| == |w.freqs|;
  }

  /** `maxFreq` is the largest bin kept in any slice, and 0 when no slice keeps one. */
  lemma MaxFreqIsLargestKeptBin(s: seq<seq<real>>)
    requires IsSpectrum(s)
    ensures var r := Encoded(s);
            (forall i, j :: 0 <= i < |r.windows| && 0 <= j < |r.windows[i].freqs| ==>
               r.windows[i].freqs[j] <= r.maxFreq) &&
            ((exists i :: 0 <= i < |r.windows| && |r.windows[i].freqs| > 0) ==>
               exists i :: 0 <= i < |r.windows| && r.maxFreq in r.windows[i].freqs) &&
            ((forall i :: 0 <= i < |r.windows| ==> |r.windows[i].freqs| == 0) ==> r.maxFreq == 0)
  {
    var r := Encoded(s);
    assert r.maxFreq == RunningMaxFreq(r.windows);
    RunningMaxFreqIsLargestKeptBin(r.windows);
  }

  /** The running maximum over any slices is the largest bin they keep, or 0. */
  lemma RunningMaxFreqIsLargestKeptBin(ws: seq<Slice>)
    ensures (forall i, j :: 0 <= i < |ws| && 0 <= j < |ws[i].freqs| ==>
               ws[i].freqs[j] <= RunningMaxFreq(ws))
    ensures (exists i :: 0 <= i < |ws| && |ws[i].freqs| > 0) ==>
               exists i :: 0 <= i < |ws| && RunningMaxFreq(ws) in ws[i].freqs
    ensures (forall i :: 0 <= i < |ws| ==> |ws[i].freqs| == 0) ==> RunningMaxFreq(ws) == 0
  {
    RunningMaxFreqIsUpperBound(ws);
    RunningMaxFreqIsKeptOrZero(ws);
    if exists i :: 0 <= i < |ws| && |ws[i].freqs| > 0 {
      var i :| 0 <= i < |ws| && |ws[i].freqs| > 0;
      if RunningMaxFreq(ws) == 0 {
        assert ws[i].freqs[0] <= 0;
        assert 0 in ws[i].freqs;
      }
    }
  }

  /** Silence: when every power is 0 the maximum is 0, no slice keeps a bin
      (the source's 0/0 compares false) and `maxFreq` stays 0. */
  lemma SilenceGivesEmptySlices(s: seq<seq<real>>)
    requires IsSpectrum(s)
    requires forall b, t :: 0 <= b < |s| && 0 <= t < |s[b]| ==> s[b][t] == 0.0
    ensures var r := Encoded(s);
            r.maxVal == 0.0 && r.maxFreq == 0 &&
            forall i :: 0 <= i < |r.windows| ==>
              r.windows[i].freqs == [] && r.windows[i].strengths == [] && r.windows[i].maxStrength == 0
  {
    var r := Encoded(s);
    MaxValIsMatrixMaximum(s);
    assert r.maxVal == 0.0;
    forall i | 0 <= i < |r.windows|
      ensures r.windows[i].freqs == []
      ensures r.windows[i].strengths == [] && r.windows[i].maxStrength == 0
    {
      SliceMaxStrengthIsLargest(s, i);
      assert HasFrames(s, i + 1);
      assert r.windows[i] == SliceAt(s, i, r.maxVal);
    }
    RunningMaxFreqIsKeptOrZero(r.windows);
  }
}
