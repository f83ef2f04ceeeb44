/** Spectrogram binning (get_spectogram, zero_padded_window).

    The samples are cut into non-overlapping frames of windowSize samples (a
    trailing remainder shorter than a window is dropped). Each frame is
    multiplied by an all-ones window and transformed; the transform's
    coefficient magnitudes are taken as given through the function fftMag.
    Band b of a frame sums binSize consecutive magnitudes starting at
    b * binSize and is stored in column bands - b - 1, so column 0 holds the
    highest band. Integer divisions are Python 2 floor divisions of
    non-negative numbers, which Dafny's / computes. */
module Spectrogram {

  /** Number of frames: whole windows in the sample buffer. */
  function Frames(sampleCount: nat, windowSize: nat): nat
    requires windowSize > 0
  {
    sampleCount / windowSize
  }

  /** Number of bands: ws / 2 / bs, both divisions rounding down. */
  function Bands(windowSize: nat, binSize: nat): nat
    requires binSize > 0
  {
    windowSize / 2 / binSize
  }

  /** The window the source applies to each frame: all ones. */
  function Window(size: nat): (w: seq<real>)
    ensures |w| == size
  {
    seq(size, _ => 1.0)
  }

  /** Elementwise product of a window and a frame. */
  function ApplyWindow(w: seq<real>, x: seq<real>): (y: seq<real>)
    requires |w| == |x|
    ensures |y| == |x|
  {
    seq(|x|, i requires 0 <= i < |x| => w[i] * x[i])
  }

  /** The transform's magnitude function returns n / 2 + 1 values for n inputs, as a
      real-input discrete Fourier transform does. */
  ghost predicate IsRfftMagnitude(fftMag: seq<real> -> seq<real>) {
    forall x :: |fftMag(x)| == |x| / 2 + 1
  }

  ghost predicate IsNonNegative(fftMag: seq<real> -> seq<real>) {
    forall x, k :: 0 <= k < |fftMag(x)| ==> fftMag(x)[k] >= 0.0
  }

  /** Frame t ends inside the buffer. */
  lemma FrameFits(sampleCount: nat, windowSize: nat, t: nat)
    requires windowSize > 0 && t < sampleCount / windowSize
    ensures (t + 1) * windowSize <= sampleCount
  {
    var frames := sampleCount / windowSize;
    var rest: nat := frames - (t + 1);
    assert frames * windowSize + sampleCount % windowSize == sampleCount;
    assert frames * windowSize == (t + 1) * windowSize + rest * windowSize;
    assert rest * windowSize >= 0;
  }

  /** The samples of frame t. */
  function FrameSamples(samples: seq<real>, windowSize: nat, t: nat): (f: seq<real>)
    requires windowSize > 0 && t < Frames(|samples|, windowSize)
    ensures |f| == windowSize
  {
    FrameFits(|samples|, windowSize, t);
    samples[t * windowSize .. (t + 1) * windowSize]
  }

  /** The coefficient magnitudes of frame t. */
  function Spectrum(samples: seq<real>, windowSize: nat, fftMag: seq<real> -> seq<real>, t: nat): (mags: seq<real>)
    requires windowSize > 0 && t < Frames(|samples|, windowSize) && IsRfftMagnitude(fftMag)
    ensures |mags| == windowSize / 2 + 1
  {
    fftMag(ApplyWindow(Window(windowSize), FrameSamples(samples, windowSize, t)))
  }

  /** Sum of mags[start .. start + count], added left to right. */
  function CoefficientSum(mags: seq<real>, start: nat, count: nat): real
    requires start + count <= |mags|
    decreases count
  {
    if count == 0 then 0.0 else CoefficientSum(mags, start, count - 1) + mags[start + count - 1]
  }

  /** Every coefficient that band b reads lies below ws / 2, so inside the ws / 2 + 1 magnitudes. */
  lemma BandFits(windowSize: nat, binSize: nat, b: nat)
    requires binSize > 0 && b < Bands(windowSize, binSize)
    ensures b * binSize + binSize <= windowSize / 2 < windowSize / 2 + 1
  {
    var half := windowSize / 2;
    var q := half / binSize;
    assert half == q * binSize + half % binSize;
    assert b + 1 <= q;
    var extra: nat := q - (b + 1);
    assert q * binSize == (b + 1) * binSize + extra * binSize;
    assert extra * binSize >= 0;
  }

  /** Summed magnitude of band b (b = 0 is the lowest frequency) in frame t. */
  function BandEnergy(samples: seq<real>, windowSize: nat, binSize: nat, fftMag: seq<real> -> seq<real>,
                      t: nat, b: nat): real
    requires windowSize > 0 && binSize > 0 && IsRfftMagnitude(fftMag)
    requires t < Frames(|samples|, windowSize) && b < Bands(windowSize, binSize)
  {
    BandFits(windowSize, binSize, b);
    CoefficientSum(Spectrum(samples, windowSize, fftMag, t), b * binSize, binSize)
  }

  /** The grid row by row; column c holds band bands - c - 1. */
  function SpectrogramRows(samples: seq<real>, windowSize: nat, binSize: nat, fftMag: seq<real> -> seq<real>)
    : (rows: seq<seq<real>>)
    requires windowSize > 0 && binSize > 0 && IsRfftMagnitude(fftMag)
    ensures |rows| == Frames(|samples|, windowSize)
    ensures forall t :: 0 <= t < |rows| ==> |rows[t]| == Bands(windowSize, binSize)
  {
    var frames := Frames(|samples|, windowSize);
    var bands := Bands(windowSize, binSize);
    seq(frames, t requires 0 <= t < frames =>
      seq(bands, c requires 0 <= c < bands => BandEnergy(samples, windowSize, binSize, fftMag, t, bands - c - 1)))
  }

  /** The innermost loop: adds count magnitudes from start, left to right. */
  method BandSum(mags: seq<real>, start: nat, count: nat) returns (sum: real)
    requires start + count <= |mags|
    ensures sum == CoefficientSum(mags, start, count)
  {
    sum := 0.0;
    for offset := 0 to count
      invariant sum == CoefficientSum(mags, start, offset)
    {
      sum := sum + mags[start + offset];
    }
  }

  /** The source's nested loops: per frame, per band, per coefficient, writing each band
      sum into its reversed column of a preallocated grid. */
  method GetSpectrogram(samples: seq<real>, windowSize: nat, binSize: nat, fftMag: seq<real> -> seq<real>)
    returns (result: array2<real>)
    requires windowSize > 0 && binSize > 0 && IsRfftMagnitude(fftMag)
    ensures result.Length0 == |samples| / windowSize && result.Length1 == windowSize / 2 / binSize
    ensures forall t, b :: 0 <= t < result.Length0 && 0 <= b < result.Length1 ==>
              result[t, result.Length1 - b - 1] == BandEnergy(samples, windowSize, binSize, fftMag, t, b)
  {
    var width := |samples| / windowSize;
    var height := windowSize / 2 / binSize;
    var window := Window(windowSize);
    result := new real[width, height];
    for t := 0 to width
      invariant forall t', b :: 0 <= t' < t && 0 <= b < height ==>
                  result[t', height - b - 1] == BandEnergy(samples, windowSize, binSize, fftMag, t', b)
    {
      FrameFits(|samples|, windowSize, t);
      var partialSignal := ApplyWindow(window, samples[t * windowSize .. (t + 1) * windowSize]);
      var spectrum := fftMag(partialSignal);
      assert spectrum == Spectrum(samples, windowSize, fftMag, t);
      StoreFrame(result, t, spectrum, windowSize, binSize);
      forall b | 0 <= b < height
        ensures result[t, height - b - 1] == BandEnergy(samples, windowSize, binSize, fftMag, t, b)
      {
        BandFits(windowSize, binSize, b);
      }
    }
  }

  /** The band loop of one frame: band b of the spectrum goes to column bands - b - 1 of row t,
      and no other row changes. */
  method StoreFrame(grid: array2<real>, t: nat, spectrum: seq<real>, windowSize: nat, binSize: nat)
    requires binSize > 0 && t < grid.Length0 && grid.Length1 == Bands(windowSize, binSize)
    requires |spectrum| == windowSize / 2 + 1
    modifies grid
    ensures forall t', c :: 0 <= t' < grid.Length0 && 0 <= c < grid.Length1 && t' != t ==>
              grid[t', c] == old(grid[t', c])
    ensures forall b :: 0 <= b < grid.Length1 ==>
              b * binSize + binSize <= |spectrum| &&
              grid[t, grid.Length1 - b - 1] == CoefficientSum(spectrum, b * binSize, binSize)
  {
    var height := grid.Length1;
    for bin := 0 to height
      invariant forall t', c :: 0 <= t' < grid.Length0 && 0 <= c < height && t' != t ==>
                  grid[t', c] == old(grid[t', c])
      invariant forall b :: 0 <= b < bin ==>
                  b * binSize + binSize <= |spectrum| &&
                  grid[t, height - b - 1] == CoefficientSum(spectrum, b * binSize, binSize)
    {
      BandFits(windowSize, binSize, bin);
      var sum := BandSum(spectrum, bin * binSize, binSize);
      grid[t, height - bin - 1] := sum;
    }
  }

  /** The all-ones window leaves every frame unchanged. */
  lemma WindowIsIdentity(x: seq<real>)
    ensures ApplyWindow(Window(|x|), x) == x
  {
    assert forall i :: 0 <= i < |x| ==> ApplyWindow(Window(|x|), x)[i] == x[i];
  }

  /** The first k frames laid end to end. */
  function Joined(samples: seq<real>, windowSize: nat, k: nat): seq<real>
    requires windowSize > 0 && k <= Frames(|samples|, windowSize)
  {
    if k == 0 then [] else Joined(samples, windowSize, k - 1) + FrameSamples(samples, windowSize, k - 1)
  }

  /** The frames tile the buffer from its start without gaps or overlap. */
  lemma {:induction false} FramesTileSamples(samples: seq<real>, windowSize: nat, k: nat)
    requires windowSize > 0 && k <= Frames(|samples|, windowSize)
    ensures k * windowSize <= |samples|
    ensures Joined(samples, windowSize, k) == samples[..k * windowSize]
  {
    if k > 0 {
      var j := k - 1;
      FramesTileSamples(samples, windowSize, j);
      FrameFits(|samples|, windowSize, j);
      var lo := j * windowSize;
      var hi := k * windowSize;
      assert hi == lo + windowSize;
      assert Joined(samples, windowSize, k) == samples[..lo] + samples[lo..hi];
      assert samples[..lo] + samples[lo..hi] == samples[..hi];
    }
  }

  /** The samples left over after the last frame are fewer than a window, and there are
      none when the length is a multiple of the window. */
  lemma FramesLeaveShortRest(sampleCount: nat, windowSize: nat)
    requires windowSize > 0
    ensures var covered := Frames(sampleCount, windowSize) * windowSize;
            && covered <= sampleCount
            && sampleCount - covered < windowSize
            && (sampleCount % windowSize == 0 <==> covered == sampleCount)
  {
    var q := sampleCount / windowSize;
    var r := sampleCount % windowSize;
    assert sampleCount == q * windowSize + r;
    if q * windowSize == sampleCount {
      assert r == 0;
    }
  }

  /** Row t of the grid depends only on samples t * ws up to (t + 1) * ws. */
  lemma FrameReadsOnlyItsWindow(s1: seq<real>, s2: seq<real>, windowSize: nat, binSize: nat,
                                fftMag: seq<real> -> seq<real>, t: nat)
    requires windowSize > 0 && binSize > 0 && IsRfftMagnitude(fftMag)
    requires t < Frames(|s1|, windowSize) && t < Frames(|s2|, windowSize)
    requires forall i :: t * windowSize <= i < (t + 1) * windowSize && i < |s1| && i < |s2| ==> s1[i] == s2[i]
    ensures SpectrogramRows(s1, windowSize, binSize, fftMag)[t] == SpectrogramRows(s2, windowSize, binSize, fftMag)[t]
  {
    FrameFits(|s1|, windowSize, t);
    FrameFits(|s2|, windowSize, t);
    var lo := t * windowSize;
    assert (t + 1) * windowSize == lo + windowSize;
    var f1, f2 := FrameSamples(s1, windowSize, t), FrameSamples(s2, windowSize, t);
    forall i | 0 <= i < windowSize ensures f1[i] == f2[i] {
      assert f1[i] == s1[lo + i] && f2[i] == s2[lo + i];
    }
    assert f1 == f2;
    var r1, r2 := SpectrogramRows(s1, windowSize, binSize, fftMag)[t], SpectrogramRows(s2, windowSize, binSize, fftMag)[t];
    var bands := Bands(windowSize, binSize);
    forall c | 0 <= c < bands ensures r1[c] == r2[c] {
      assert r1[c] == BandEnergy(s1, windowSize, binSize, fftMag, t, bands - c - 1);
      assert r2[c] == BandEnergy(s2, windowSize, binSize, fftMag, t, bands - c - 1);
    }
  }

  lemma {:induction false} CoefficientSumNonNegative(mags: seq<real>, start: nat, count: nat)
    requires start + count <= |mags|
    requires forall k :: 0 <= k < |mags| ==> mags[k] >= 0.0
    ensures CoefficientSum(mags, start, count) >= 0.0
    decreases count
  {
    if count > 0 {
      CoefficientSumNonNegative(mags, start, count - 1);
    }
  }

  /** Non-negative magnitudes give a non-negative grid. */
  lemma CellsAreNonNegative(samples: seq<real>, windowSize: nat, binSize: nat, fftMag: seq<real> -> seq<real>)
    requires windowSize > 0 && binSize > 0 && IsRfftMagnitude(fftMag) && IsNonNegative(fftMag)
    ensures forall t, c :: 0 <= t < |SpectrogramRows(samples, windowSize, binSize, fftMag)| &&
                           0 <= c < Bands(windowSize, binSize) ==>
              SpectrogramRows(samples, windowSize, binSize, fftMag)[t][c] >= 0.0
  {
    var rows := SpectrogramRows(samples, windowSize, binSize, fftMag);
    var bands := Bands(windowSize, binSize);
    forall t, c | 0 <= t < |rows| && 0 <= c < bands ensures rows[t][c] >= 0.0 {
      var b := bands - c - 1;
      BandFits(windowSize, binSize, b);
      var mags := Spectrum(samples, windowSize, fftMag, t);
      assert forall k :: 0 <= k < |mags| ==> mags[k] >= 0.0;
      CoefficientSumNonNegative(mags, b * binSize, binSize);
      assert rows[t][c] == BandEnergy(samples, windowSize, binSize, fftMag, t, b);
    }
  }
}
