/** The sequential suppression pass (get_fingerprints).

    Frames are visited in time order. Each frame's magnitudes are lowered by
    the mask carried over from the previous frame and by the constant 25,
    and its peaks are picked from the result. The mask for the next frame
    starts at zero, takes the frame's own unlowered magnitudes at positions
    p - 1 and p for every peak p, and is then smoothed. The smoothing (a
    Gaussian filter in the source) is the parameter smooth, assumed only to
    keep the length of its input.

    The pass is defined for any peak picker pick; the source's pass is the
    one with pick = Peaks.Peaks, the function Peaks.GetPeaks computes. Lemmas
    about the pass's structure hold for every picker. */
module Suppression {
  import P = Peaks
  import S = Spectrogram

  /** Constant subtracted from every magnitude before peak picking. */
  const Bias: real := 25.0

  /** One entry of the series: a frame's index and the peaks found in it. */
  datatype Fingerprint = Fingerprint(time: nat, peaks: seq<int>)

  function Zeros(n: nat): (z: seq<real>)
    ensures |z| == n
  {
    seq(n, _ => 0.0)
  }

  /** histogram - mask - 25, elementwise. */
  function Biased(histogram: seq<real>, mask: seq<real>): (b: seq<real>)
    requires |histogram| == |mask|
    ensures |b| == |histogram|
  {
    seq(|histogram|, i requires 0 <= i < |histogram| => histogram[i] - mask[i] - Bias)
  }

  /** mask with the slice [p - 1, p + 1) overwritten by the histogram's values there. */
  function CopySlice(mask: seq<real>, histogram: seq<real>, p: int): (m: seq<real>)
    requires |mask| == |histogram|
    ensures |m| == |mask|
  {
    seq(|mask|, i requires 0 <= i < |mask| => if p - 1 <= i <= p then histogram[i] else mask[i])
  }

  /** The mask before smoothing: zeros, then one slice copy per peak, in peak order. */
  function PeakMask(histogram: seq<real>, peaks: seq<int>): (m: seq<real>)
    ensures |m| == |histogram|
    decreases |peaks|
  {
    if peaks == [] then Zeros(|histogram|)
    else CopySlice(PeakMask(histogram, peaks[..|peaks| - 1]), histogram, peaks[|peaks| - 1])
  }

  ghost predicate PreservesLength(smooth: seq<real> -> seq<real>) {
    forall v :: |smooth(v)| == |v|
  }

  /** Every row has the given width. */
  predicate IsGrid(rows: seq<seq<real>>, width: nat) {
    forall t :: 0 <= t < |rows| ==> |rows[t]| == width
  }

  /** The hand-off from one frame to the next: the smoothed peak mask of a frame processed
      under mask. */
  function NextMask(histogram: seq<real>, mask: seq<real>, pick: seq<real> -> seq<int>,
                    smooth: seq<real> -> seq<real>): (next: seq<real>)
    requires |mask| == |histogram| && PreservesLength(smooth)
    ensures |next| == |histogram|
  {
    smooth(PeakMask(histogram, pick(Biased(histogram, mask))))
  }

  /** The mask in force when frame t is processed. */
  function MaskAt(rows: seq<seq<real>>, width: nat, pick: seq<real> -> seq<int>, smooth: seq<real> -> seq<real>, t: nat): (mask: seq<real>)
    requires IsGrid(rows, width) && PreservesLength(smooth) && t <= |rows|
    ensures |mask| == width
    decreases t
  {
    if t == 0 then Zeros(width)
    else NextMask(rows[t - 1], MaskAt(rows, width, pick, smooth, t - 1), pick, smooth)
  }

  /** The peaks of frame t. */
  function PeaksAt(rows: seq<seq<real>>, width: nat, pick: seq<real> -> seq<int>, smooth: seq<real> -> seq<real>, t: nat): seq<int>
    requires IsGrid(rows, width) && PreservesLength(smooth) && t < |rows|
  {
    pick(Biased(rows[t], MaskAt(rows, width, pick, smooth, t)))
  }

  /** The whole series: one entry per row, in row order. */
  function FingerprintSeries(rows: seq<seq<real>>, width: nat, pick: seq<real> -> seq<int>,
                             smooth: seq<real> -> seq<real>): seq<Fingerprint>
    requires IsGrid(rows, width) && PreservesLength(smooth)
  {
    seq(|rows|, t requires 0 <= t < |rows| => Fingerprint(t, PeaksAt(rows, width, pick, smooth, t)))
  }

  /** Row t of a grid array. */
  function Row(grid: array2<real>, t: nat): (r: seq<real>)
    reads grid
    requires t < grid.Length0
    ensures |r| == grid.Length1 && forall c :: 0 <= c < |r| ==> r[c] == grid[t, c]
  {
    seq(grid.Length1, c requires 0 <= c < grid.Length1 reads grid => grid[t, c])
  }

  /** The rows of the array the spectrogram pass fills are the rows of its specification. */
  lemma SpectrogramArrayRows(samples: seq<real>, windowSize: nat, binSize: nat, fftMag: seq<real> -> seq<real>,
                             grid: array2<real>)
    requires windowSize > 0 && binSize > 0 && S.IsRfftMagnitude(fftMag)
    requires grid.Length0 == |samples| / windowSize && grid.Length1 == windowSize / 2 / binSize
    requires forall t, b :: 0 <= t < grid.Length0 && 0 <= b < grid.Length1 ==>
               grid[t, grid.Length1 - b - 1] == S.BandEnergy(samples, windowSize, binSize, fftMag, t, b)
    ensures Rows(grid) == S.SpectrogramRows(samples, windowSize, binSize, fftMag)
    ensures grid.Length1 == S.Bands(windowSize, binSize)
  {
    var rows := S.SpectrogramRows(samples, windowSize, binSize, fftMag);
    var width := grid.Length1;
    forall t | 0 <= t < grid.Length0 ensures Rows(grid)[t] == rows[t] {
      forall c | 0 <= c < width ensures Rows(grid)[t][c] == rows[t][c] {
        assert grid[t, width - (width - c - 1) - 1] ==
               S.BandEnergy(samples, windowSize, binSize, fftMag, t, width - c - 1);
      }
    }
  }

  /** The unsmoothed mask of the source's inner loop: a zero array in which, for each peak p
      in order, positions p - 1 and p take the histogram's values. */
  method BuildMask(histogram: seq<real>, peaks: seq<int>) returns (result: seq<real>)
    requires forall p :: p in peaks ==> 0 < p < |histogram|
    ensures result == PeakMask(histogram, peaks)
  {
    var mask := new real[|histogram|](_ => 0.0);
    assert mask[..] == PeakMask(histogram, peaks[..0]);
    for k := 0 to |peaks|
      invariant mask[..] == PeakMask(histogram, peaks[..k])
    {
      var peak := peaks[k];
      assert peak in peaks;
      mask[peak - 1] := histogram[peak - 1];
      mask[peak] := histogram[peak];
      assert peaks[..k + 1][..k] == peaks[..k];
      assert mask[..] == CopySlice(PeakMask(histogram, peaks[..k]), histogram, peak);
    }
    assert peaks[..|peaks|] == peaks;
    result := mask[..];
  }

  /** One step of the pass, for any picker: if mask is the mask in force at frame t and
      peaks are what the picker reports there, then peaks is entry t of the series and the
      smoothed peak mask is the mask in force at frame t + 1. */
  lemma StepAgrees(rows: seq<seq<real>>, width: nat, pick: seq<real> -> seq<int>,
                   smooth: seq<real> -> seq<real>, t: nat, mask: seq<real>, peaks: seq<int>)
    requires IsGrid(rows, width) && PreservesLength(smooth) && t < |rows|
    requires mask == MaskAt(rows, width, pick, smooth, t)
    requires peaks == pick(Biased(rows[t], mask))
    ensures FingerprintSeries(rows, width, pick, smooth)[t] == Fingerprint(t, peaks)
    ensures MaskAt(rows, width, pick, smooth, t + 1) == smooth(PeakMask(rows[t], peaks))
  {
  }

  /** A picker that only reports interior positions of its input, as Peaks does. */
  ghost predicate PicksInterior(pick: seq<real> -> seq<int>) {
    forall h, p :: p in pick(h) ==> 0 < p < |h|
  }

  lemma PeaksPicksInterior()
    ensures PicksInterior(P.Peaks)
  {
    forall h, p | p in P.Peaks(h) ensures 0 < p < |h| {
      P.PeaksAreLocalMaxima(h);
    }
  }

  /** The rows of a grid array. */
  function Rows(grid: array2<real>): (rows: seq<seq<real>>)
    reads grid
    ensures |rows| == grid.Length0 && IsGrid(rows, grid.Length1)
    ensures forall t, c :: 0 <= t < grid.Length0 && 0 <= c < grid.Length1 ==> rows[t][c] == grid[t, c]
  {
    seq(grid.Length0, t requires 0 <= t < grid.Length0 reads grid => Row(grid, t))
  }

  /** The suppression loop over the rows of a spectrogram array. */
  method Suppress(timeSamples: array2<real>, pick: seq<real> -> seq<int>, smooth: seq<real> -> seq<real>)
    returns (result: seq<Fingerprint>)
    requires PicksInterior(pick) && PreservesLength(smooth)
    ensures result == FingerprintSeries(Rows(timeSamples), timeSamples.Length1, pick, smooth)
  {
    ghost var rows := Rows(timeSamples);
    var width := timeSamples.Length1;
    result := [];
    var prevHistogram := Zeros(width);
    for time := 0 to timeSamples.Length0
      invariant |result| == time
      invariant forall i :: 0 <= i < time ==> result[i] == FingerprintSeries(rows, width, pick, smooth)[i]
      invariant prevHistogram == MaskAt(rows, width, pick, smooth, time)
      modifies {}
    {
      var histogram := Row(timeSamples, time);
      assert histogram == rows[time];
      var peaks := pick(Biased(histogram, prevHistogram));
      StepAgrees(rows, width, pick, smooth, time, prevHistogram, peaks);
      result := result + [Fingerprint(time, peaks)];
      var mask := BuildMask(histogram, peaks);
      prevHistogram := smooth(mask);
    }
  }

  /** The source's pass: computes the spectrogram, then walks its rows once, carrying the
      mask from each frame to the next, with Peaks as the picker. */
  method GetFingerprints(samples: seq<real>, windowSize: nat, binSize: nat,
                         fftMag: seq<real> -> seq<real>, smooth: seq<real> -> seq<real>)
    returns (result: seq<Fingerprint>)
    requires windowSize > 0 && binSize > 0 && S.IsRfftMagnitude(fftMag) && PreservesLength(smooth)
    ensures result == FingerprintSeries(S.SpectrogramRows(samples, windowSize, binSize, fftMag),
                                        S.Bands(windowSize, binSize), P.Peaks, smooth)
  {
    var timeSamples := S.GetSpectrogram(samples, windowSize, binSize, fftMag);
    PeaksPicksInterior();
    result := Suppress(timeSamples, P.Peaks, smooth);
    SpectrogramArrayRows(samples, windowSize, binSize, fftMag, timeSamples);
  }

  /** Frame 0 is lowered by the constant 25 only. */
  lemma FirstFrameIsBiasedByConstant(rows: seq<seq<real>>, width: nat, pick: seq<real> -> seq<int>,
                                     smooth: seq<real> -> seq<real>)
    requires IsGrid(rows, width) && PreservesLength(smooth) && |rows| > 0
    ensures FingerprintSeries(rows, width, pick, smooth)[0].peaks ==
            pick(seq(width, i requires 0 <= i < width => rows[0][i] - 25.0))
  {
    assert Biased(rows[0], Zeros(width)) == seq(width, i requires 0 <= i < width => rows[0][i] - 25.0);
  }

  /** Before smoothing, the next frame's mask at position i is the frame's unlowered magnitude
      when i or i + 1 is a peak, and zero otherwise. */
  lemma {:induction false} PeakMaskAt(histogram: seq<real>, peaks: seq<int>, i: int)
    requires 0 <= i < |histogram|
    ensures PeakMask(histogram, peaks)[i] == if i in peaks || i + 1 in peaks then histogram[i] else 0.0
    decreases |peaks|
  {
    if peaks == [] {
      assert PeakMask(histogram, peaks)[i] == Zeros(|histogram|)[i] == 0.0;
    } else {
      var init := peaks[..|peaks| - 1];
      var last := peaks[|peaks| - 1];
      var before := PeakMask(histogram, init);
      PeakMaskAt(histogram, init, i);
      assert PeakMask(histogram, peaks)[i] == CopySlice(before, histogram, last)[i];
      assert PeakMask(histogram, peaks)[i] == if last - 1 <= i <= last then histogram[i] else before[i];
      assert peaks == init + [last];
      assert (i in peaks) == (i in init || i == last);
      assert (i + 1 in peaks) == (i + 1 in init || i + 1 == last);
    }
  }

  /** The hand-off from frame t to frame t + 1: the next frame's peaks are picked after
      lowering by the smoothed mask built from frame t's row and peaks, and from nothing
      earlier. */
  lemma MaskHandOff(rows: seq<seq<real>>, width: nat, pick: seq<real> -> seq<int>,
                    smooth: seq<real> -> seq<real>, t: nat)
    requires IsGrid(rows, width) && PreservesLength(smooth) && t + 1 < |rows|
    ensures MaskAt(rows, width, pick, smooth, t + 1) ==
            smooth(PeakMask(rows[t], FingerprintSeries(rows, width, pick, smooth)[t].peaks))
    ensures FingerprintSeries(rows, width, pick, smooth)[t + 1].peaks ==
            pick(Biased(rows[t + 1], smooth(PeakMask(rows[t], FingerprintSeries(rows, width, pick, smooth)[t].peaks))))
  {
  }

  /** The mask at frame t depends only on the rows before t. */
  lemma {:induction false} MaskAtDependsOnPrefix(rows: seq<seq<real>>, width: nat, pick: seq<real> -> seq<int>,
                                                 smooth: seq<real> -> seq<real>, k: nat, t: nat)
    requires IsGrid(rows, width) && PreservesLength(smooth) && t <= k <= |rows|
    ensures IsGrid(rows[..k], width)
    ensures MaskAt(rows[..k], width, pick, smooth, t) == MaskAt(rows, width, pick, smooth, t)
    decreases t
  {
    var prefix := rows[..k];
    assert IsGrid(prefix, width);
    if t > 0 {
      MaskAtDependsOnPrefix(rows, width, pick, smooth, k, t - 1);
      assert prefix[t - 1] == rows[t - 1];
    }
  }

  /** The pass is causal: running it on the first k rows gives the first k entries of the
      full series, so it can stop after any frame and agree with the complete run. */
  lemma SeriesIsPrefixClosed(rows: seq<seq<real>>, width: nat, pick: seq<real> -> seq<int>,
                             smooth: seq<real> -> seq<real>, k: nat)
    requires IsGrid(rows, width) && PreservesLength(smooth) && k <= |rows|
    ensures IsGrid(rows[..k], width)
    ensures FingerprintSeries(rows[..k], width, pick, smooth) == FingerprintSeries(rows, width, pick, smooth)[..k]
  {
    MaskAtDependsOnPrefix(rows, width, pick, smooth, k, 0);
    forall t | 0 <= t < k
      ensures FingerprintSeries(rows[..k], width, pick, smooth)[t] == FingerprintSeries(rows, width, pick, smooth)[t]
    {
      MaskAtDependsOnPrefix(rows, width, pick, smooth, k, t);
      assert rows[..k][t] == rows[t];
    }
  }

  /** Every entry of h is the same. */
  predicate IsFlat(h: seq<real>) {
    forall i, j :: 0 <= i < |h| && 0 <= j < |h| ==> h[i] == h[j]
  }

  /** A picker that reports nothing for a flat vector. */
  ghost predicate IgnoresFlat(pick: seq<real> -> seq<int>) {
    forall h :: IsFlat(h) ==> pick(h) == []
  }

  /** A flat vector has no strict local maximum, hence no peak. */
  lemma FlatVectorHasNoPeaks()
    ensures IgnoresFlat(P.Peaks)
  {
    forall h | IsFlat(h) ensures P.Peaks(h) == [] {
      P.PeaksAreStrong(h);
    }
  }

  /** Silence: if every row is zero, smoothing maps the zero mask to itself (as a Gaussian
      filter does) and the picker ignores flat vectors (as Peaks does), no frame reports a
      peak. */
  lemma {:induction false} SilenceHasNoPeaks(rows: seq<seq<real>>, width: nat, pick: seq<real> -> seq<int>,
                                             smooth: seq<real> -> seq<real>, t: nat)
    requires IsGrid(rows, width) && PreservesLength(smooth) && t <= |rows|
    requires forall r, c :: 0 <= r < |rows| && 0 <= c < width ==> rows[r][c] == 0.0
    requires smooth(Zeros(width)) == Zeros(width) && IgnoresFlat(pick)
    ensures MaskAt(rows, width, pick, smooth, t) == Zeros(width)
    ensures t < |rows| ==> FingerprintSeries(rows, width, pick, smooth)[t].peaks == []
    decreases t
  {
    if t > 0 {
      SilenceHasNoPeaks(rows, width, pick, smooth, t - 1);
      var lowered := Biased(rows[t - 1], Zeros(width));
      assert IsFlat(lowered);
      assert PeakMask(rows[t - 1], []) == Zeros(width);
    }
    if t < |rows| {
      var lowered := Biased(rows[t], Zeros(width));
      assert IsFlat(lowered);
    }
  }
}
