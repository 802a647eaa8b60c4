/**
  The band limiter at the end of `spectrogram` (app/utils/spectrogram.py):
  bin `k` of a `window`-sample FFT has centre frequency
  `sample_rate / window * k`, and only the leading bins up to the last one at
  or below `max_freq` are returned. The power stays linear: the log step of
  an earlier revision is commented out in the source.
*/
module BandLimiter {
  import opened Wrappers
  import Periodogram

  /**
    The frequency limit in force. The source tests `max_freq` for
    truthiness, so both a missing value and 0 fall back to
    `sample_rate // 2`, the Nyquist frequency rounded down.
  */
  function EffectiveMaxFreq(maxFreq: Option<real>, sampleRate: nat): (f: real)
    ensures f == (if maxFreq.Some? && maxFreq.value != 0.0 then maxFreq.value
                  else (sampleRate / 2) as real)
    ensures maxFreq.None? ==> 0.0 <= f && 2.0 * f <= sampleRate as real
  {
    match maxFreq
    case Some(v) => if v != 0.0 then v else (sampleRate / 2) as real
    case None => (sampleRate / 2) as real
  }

  /** Centre frequency of bin `k`: `float(sample_rate) / window_size * k`. */
  function BinFreq(k: nat, sampleRate: nat, window: nat): real
    requires 1 <= window
  {
    (sampleRate as real) / (window as real) * (k as real)
  }

  /** Bin frequencies never decrease with the bin index. */
  lemma BinFreqMonotone(k: nat, l: nat, sampleRate: nat, window: nat)
    requires 1 <= window && k <= l
    ensures BinFreq(k, sampleRate, window) <= BinFreq(l, sampleRate, window)
  {
    var step := (sampleRate as real) / (window as real);
    assert step >= 0.0;
    assert step * (l as real) == step * (k as real) + step * ((l - k) as real);
  }

  /**
    `np.where(freqs <= max_freq)[0][-1] + 1` when some bin qualifies, else 0:
    found by looking for the last qualifying bin from the top down. Because
    bin frequencies increase, the bins kept are exactly those at or below the
    limit.
  */
  function KeptBins(rows: nat, sampleRate: nat, window: nat, maxFreq: real): (c: nat)
    requires 1 <= window
    ensures c <= rows
    ensures forall k :: 0 <= k < c ==> BinFreq(k, sampleRate, window) <= maxFreq
    ensures forall k :: c <= k < rows ==> BinFreq(k, sampleRate, window) > maxFreq
  {
    if rows == 0 then 0
    else if BinFreq(rows - 1, sampleRate, window) <= maxFreq then
      assert forall k :: 0 <= k < rows ==> BinFreq(k, sampleRate, window) <= maxFreq by {
        forall k | 0 <= k < rows
          ensures BinFreq(k, sampleRate, window) <= maxFreq
        {
          BinFreqMonotone(k, rows - 1, sampleRate, window);
        }
      }
      rows
    else
      KeptBins(rows - 1, sampleRate, window, maxFreq)
  }

  /** Indexing the last element of an empty `np.where` result. */
  datatype BandError = NoBinAtOrBelowLimit

  /**
    `fft[:ind, :]`: the leading rows whose centre frequency is at most
    `maxFreq`, unchanged. When not even bin 0 (0 Hz) qualifies, the source
    fails with an index error.
  */
  function BandLimit(m: seq<seq<real>>, sampleRate: nat, window: nat, maxFreq: real)
    : (r: Result<seq<seq<real>>, BandError>)
    requires 1 <= window
    ensures r.Ok? <==> |m| >= 1 && maxFreq >= 0.0
    ensures r.Ok? ==> |r.value| <= |m| && r.value == m[..|r.value|]
    ensures r.Ok? ==> forall k :: 0 <= k < |m| ==>
              (k < |r.value| <==> BinFreq(k, sampleRate, window) <= maxFreq)
  {
    var c := KeptBins(|m|, sampleRate, window, maxFreq);
    assert BinFreq(0, sampleRate, window) == 0.0;
    if c == 0 then
      Err(NoBinAtOrBelowLimit)
    else
      Ok(m[..c])
  }

  /** Band limiting keeps a power matrix a power matrix, with every column. */
  lemma BandLimitKeepsPower(m: seq<seq<real>>, cols: nat, sampleRate: nat, window: nat, maxFreq: real)
    requires 1 <= window && Periodogram.IsPower(m, cols)
    ensures BandLimit(m, sampleRate, window, maxFreq).Ok? ==>
              Periodogram.IsPower(BandLimit(m, sampleRate, window, maxFreq).value, cols)
  {
  }

  /**
    With the default limit and an even sample rate, nothing of a full
    one-sided spectrum (`window // 2 + 1` bins) is cut: the top bin sits at
    or below the limit (exactly on it, the Nyquist bin, when the window is
    even).
  */
  lemma DefaultLimitKeepsFullSpectrum(m: seq<seq<real>>, sampleRate: nat, window: nat)
    requires 1 <= window && sampleRate % 2 == 0 && |m| == window / 2 + 1
    ensures BandLimit(m, sampleRate, window, EffectiveMaxFreq(None, sampleRate)) == Ok(m)
  {
    var limit := EffectiveMaxFreq(None, sampleRate);
    var half := sampleRate / 2;
    assert limit == half as real;
    var top := window / 2;
    var step := (sampleRate as real) / (window as real);
    assert 2 * top <= window;
    assert (2 * top) as real <= window as real;
    assert step * (window as real) == sampleRate as real;
    assert step >= 0.0;
    assert step * ((2 * top) as real) <= step * (window as real);
    assert BinFreq(top, sampleRate, window) * 2.0 == step * ((2 * top) as real);
    assert BinFreq(top, sampleRate, window) <= limit;
    assert KeptBins(|m|, sampleRate, window, limit) == |m|;
    assert m[..|m|] == m;
  }

  /** An odd sample rate rounds the default limit down, below the Nyquist bin:
      at 3 Hz with 2-sample windows bin 1 (1.5 Hz) is above the limit of 1 Hz. */
  lemma OddRateDropsNyquistBin(m: seq<seq<real>>)
    requires |m| == 2
    ensures BandLimit(m, 3, 2, EffectiveMaxFreq(None, 3)) == Ok(m[..1])
  {
    assert BinFreq(1, 3, 2) == 1.5;
  }
}
