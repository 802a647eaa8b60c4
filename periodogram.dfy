/**
  Periodogram scaling in `spectrogram` (app/utils/spectrogram.py). The
  squared magnitudes of the one-sided FFT arrive as a matrix indexed
  [bin][frame]; every bin except the first (DC) and the last (the Nyquist
  bin when the window is even) is multiplied by `2 / scale`, and those two
  are divided by `scale`, whatever the parity of the window. The
  Hann window, the FFT and `scale` itself are computed by numpy and are
  inputs here.
*/
module Periodogram {

  /** A power matrix: every row has `cols` cells and no cell is negative. */
  ghost predicate IsPower(m: seq<seq<real>>, cols: nat)
  {
    (forall b :: 0 <= b < |m| ==> |m[b]| == cols) &&
    (forall b, t :: 0 <= b < |m| && 0 <= t < |m[b]| ==> m[b][t] >= 0.0)
  }

  /** Bin `b` of `rows` bins is neither the first nor the last row. */
  predicate Interior(b: nat, rows: nat)
  {
    1 <= b && b + 1 < rows
  }

  /** The scaled value of a cell in bin `b` of `rows` bins. */
  function ScaledCell(v: real, b: nat, rows: nat, scale: real): real
    requires scale > 0.0
  {
    if Interior(b, rows) then v * (2.0 / scale) else v / scale
  }

  /** The whole matrix after scaling: the specification of `ScaleInPlace`. */
  function Scaled(m: seq<seq<real>>, scale: real): (r: seq<seq<real>>)
    requires scale > 0.0
    ensures |r| == |m|
    ensures forall b :: 0 <= b < |m| ==> |r[b]| == |m[b]|
  {
    seq(|m|, b requires 0 <= b < |m| =>
      seq(|m[b]|, t requires 0 <= t < |m[b]| => ScaledCell(m[b][t], b, |m|, scale)))
  }

  /** Undoes the scaling: recovers the squared magnitudes from the periodogram. */
  function Unscaled(m: seq<seq<real>>, scale: real): (r: seq<seq<real>>)
    requires scale > 0.0
    ensures |r| == |m|
    ensures forall b :: 0 <= b < |m| ==> |r[b]| == |m[b]|
  {
    seq(|m|, b requires 0 <= b < |m| =>
      seq(|m[b]|, t requires 0 <= t < |m[b]| =>
        if Interior(b, |m|) then m[b][t] * (scale / 2.0) else m[b][t] * scale))
  }

  /** Scaling loses nothing: the raw power is recovered from the periodogram. */
  lemma ScalingRoundTrip(m: seq<seq<real>>, scale: real)
    requires scale > 0.0
    ensures Unscaled(Scaled(m, scale), scale) == m
  {
    var r := Unscaled(Scaled(m, scale), scale);
    forall b | 0 <= b < |m|
      ensures r[b] == m[b]
    {
      forall t | 0 <= t < |m[b]|
        ensures r[b][t] == m[b][t]
      {
        var v := m[b][t];
        if Interior(b, |m|) {
          assert v * (2.0 / scale) * (scale / 2.0) == v;
        } else {
          assert v / scale * scale == v;
        }
      }
    }
  }

  /** A non-negative power matrix stays non-negative, with its shape. */
  lemma ScalingKeepsPower(m: seq<seq<real>>, cols: nat, scale: real)
    requires scale > 0.0 && IsPower(m, cols)
    ensures IsPower(Scaled(m, scale), cols)
  {
    var r := Scaled(m, scale);
    forall b, t | 0 <= b < |r| && 0 <= t < |r[b]|
      ensures r[b][t] >= 0.0
    {
      var v := m[b][t];
      assert 2.0 / scale > 0.0 && 1.0 / scale > 0.0;
      if Interior(b, |m|) {
        assert v * (2.0 / scale) >= 0.0;
      } else {
        assert v / scale == v * (1.0 / scale);
      }
    }
  }

  /** Within one bin, scaling keeps the order of the frames' powers. */
  lemma ScalingKeepsOrderInBin(m: seq<seq<real>>, scale: real, b: nat, t: nat, u: nat)
    requires scale > 0.0 && b < |m| && t < |m[b]| && u < |m[b]|
    ensures m[b][t] <= m[b][u] <==> Scaled(m, scale)[b][t] <= Scaled(m, scale)[b][u]
  {
    var r := Scaled(m, scale);
    var f := if Interior(b, |m|) then 2.0 / scale else 1.0 / scale;
    assert f > 0.0;
    assert r[b][t] == m[b][t] * f && r[b][u] == m[b][u] * f;
    if m[b][t] <= m[b][u] {
      assert m[b][t] * f <= m[b][u] * f;
    } else {
      assert m[b][u] * f < m[b][t] * f;
    }
  }

  /** The cells of a 2-D array as a matrix of rows. */
  ghost function Cells(a: array2<real>): (m: seq<seq<real>>)
    reads a
    ensures |m| == a.Length0
    ensures forall b :: 0 <= b < a.Length0 ==> |m[b]| == a.Length1
  {
    seq(a.Length0, b requires 0 <= b < a.Length0 reads a =>
      seq(a.Length1, t requires 0 <= t < a.Length1 reads a => a[b, t]))
  }

  /**
    The in-place update `fft[1:-1, :] *= 2.0 / scale` followed by
    `fft[(0, -1), :] /= scale`. With a single bin, rows 0 and -1 are the same
    row; numpy gathers both before it writes back, so that row is divided once.
  */
  method ScaleInPlace(fft: array2<real>, scale: real)
    requires scale > 0.0
    modifies fft
    ensures forall b, t :: 0 <= b < fft.Length0 && 0 <= t < fft.Length1 ==>
              fft[b, t] == ScaledCell(old(fft[b, t]), b, fft.Length0, scale)
    ensures Cells(fft) == Scaled(old(Cells(fft)), scale)
  {
    var rows, cols := fft.Length0, fft.Length1;
    var b := 1;
    while b + 1 < rows
      invariant 1 <= b && (b + 1 <= rows || b == 1)
      invariant forall i, t :: 0 <= i < rows && 0 <= t < cols ==>
                  fft[i, t] == (if 1 <= i < b then old(fft[i, t]) * (2.0 / scale) else old(fft[i, t]))
    {
      var t := 0;
      while t < cols
        invariant 0 <= t <= cols
        invariant forall i, u :: 0 <= i < rows && 0 <= u < cols ==>
                    fft[i, u] == (if 1 <= i < b || (i == b && u < t) then old(fft[i, u]) * (2.0 / scale)
                                  else old(fft[i, u]))
      {
        fft[b, t] := fft[b, t] * (2.0 / scale);
        t := t + 1;
      }
      b := b + 1;
    }
    if rows > 0 {
      var last := rows - 1;
      var t := 0;
      while t < cols
        invariant 0 <= t <= cols
        invariant forall i, u :: 0 <= i < rows && 0 <= u < cols ==>
                    fft[i, u] == (if Interior(i, rows) then old(fft[i, u]) * (2.0 / scale)
                                  else if u < t then old(fft[i, u]) / scale
                                  else old(fft[i, u]))
      {
        fft[0, t] := fft[0, t] / scale;
        if last != 0 {
          fft[last, t] := fft[last, t] / scale;
        }
        t := t + 1;
      }
    }
    assert forall i, u :: 0 <= i < rows && 0 <= u < cols ==>
      fft[i, u] == ScaledCell(old(fft[i, u]), i, rows, scale);
    ghost var before := old(Cells(fft));
    forall i | 0 <= i < rows
      ensures Cells(fft)[i] == Scaled(before, scale)[i]
    {
      assert forall u :: 0 <= u < cols ==> before[i][u] == old(fft[i, u]);
    }
  }
}
