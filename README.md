# WazDat fingerprinting core in Dafny

This project models the audio fingerprinter in `fingerprint.py` of WazDat, a
Shazam-style song recogniser, and proves properties of the model.

The fingerprinter works in four stages, and each one is a module:

- `Spectrogram` (`spectrogram.dfy`) models `get_spectogram` and `zero_padded_window`.
  The samples are cut into whole windows and each window is transformed.
  Band `b` sums `binSize` coefficient magnitudes starting at `b * binSize`.
  The sum is stored in the reversed column `bands - b - 1`.
- `Peaks` (`peaks.dfy`) models `get_peaks`.
  It takes the strict local maxima of a vector and sorts them strongest first with a stable sort.
  Of the first five, it keeps those above zero and above half the strongest.
- `Suppression` (`suppression.dfy`) models `get_fingerprints`.
  Frames are visited in order. Each frame is lowered by the previous frame's smoothed peak mask and by 25 before its peaks are picked.
- `Tokens` (`tokens.dfy`) models `get_tokens`.
  Every peak anchors tokens with the peaks of the next four frames that lie within 8 bins of it.

Where the source changes state step by step, the model does too.
`GetSpectrogram` fills a two-dimensional array in three nested loops.
`GetPeaks`, `BuildMask`, `Suppress` and the token methods are loops.
Each of these methods is proved equal to a pure specification function.
The properties are lemmas about those functions.

The specification functions are:

- `SpectrogramRows` for the spectrogram.
- `Peaks` for peak picking.
- `FingerprintSeries`, with `MaskAt` as the mask carried between frames, for the suppression pass.
- `TokensOf`, over an enumeration `Pairings` of qualifying (anchor frame, anchor rank, search frame, target rank) tuples, for tokens.

The suppression pass is defined for any peak picker `pick`. The source's pass is the one with `pick = Peaks.Peaks`.

Three inputs are parameters of the model:

- The discrete Fourier transform magnitudes are the parameter `fftMag`. The model assumes only that it returns `n / 2 + 1` values for `n` inputs.
- The Gaussian filter is the parameter `smooth`. The model assumes only that it keeps the length of its input.
- The signal object's accessors become the parameters `samples`, `sampleRate` and `source`.

## Model

| member | source | states |
|---|---|---|
| Peaks.CandidatesBelow | fingerprint.py:65-66 | The candidates are exactly the strict local maxima (greater than both neighbours; never an end) with their values, in ascending position order |
| Peaks.Rank | fingerprint.py:67 | Sorting permutes the candidates (same multiset) |
| Peaks.RankIsStableDescending | fingerprint.py:67 | Sorting a position-ordered list gives descending values, and equal values keep ascending position order (a stable reverse sort) |
| Peaks.KeepStrongIsPrefix | fingerprint.py:69-72 | On non-increasing values, the filter keeps a prefix: entry r is kept iff it passes the test |
| Peaks.GetPeaks | fingerprint.py:61-73 | The source's loop returns Peaks(histogram): at most 5 positions, each a strict local maximum |
| Peaks.PeaksArePrefixOfRanking | fingerprint.py:65-72 | The result is the prefix of the stable descending ranking, limited to 5, cut at the first entry not above 0 and not above half the top value |
| Peaks.PeaksAreLocalMaxima | fingerprint.py:65-70 | At most 5 peaks, each a strict local maximum strictly inside the vector |
| Peaks.PeaksAreStrong | fingerprint.py:71 | Every peak is > 0 and > 0.5 times every strict local maximum; with no strict local maximum there is no peak |
| Peaks.PeaksAreOrdered | fingerprint.py:67-72 | Peaks come in non-increasing value order; equal values come by ascending position |
| Spectrogram.FrameFits | fingerprint.py:80-93 | Every frame t < len / ws ends inside the sample buffer |
| Spectrogram.Spectrum | fingerprint.py:93-94 | A frame's transform has ws / 2 + 1 magnitudes |
| Spectrogram.BandFits | fingerprint.py:96-99 | Every coefficient index a band reads, b * bs + offset, is below ws / 2 + 1 |
| Spectrogram.SpectrogramRows | fingerprint.py:80-84 | The grid has len / ws rows of ws / 2 / bs columns |
| Spectrogram.GetSpectrogram | fingerprint.py:76-102 | The array has len / ws by ws / 2 / bs cells, and cell [t, bands - b - 1] is the sum of the bs magnitudes of frame t starting at b * bs |
| Spectrogram.StoreFrame | fingerprint.py:96-100 | The band loop of frame t writes band b's sum into column bands - b - 1 of row t and leaves every other row unchanged |
| Spectrogram.BandSum | fingerprint.py:97-99 | The coefficient loop returns the left-to-right sum of bs magnitudes starting at b * bs |
| Spectrogram.WindowIsIdentity | fingerprint.py:105-106 | The all-ones window leaves a frame unchanged |
| Spectrogram.FramesTileSamples | fingerprint.py:92-93 | Frames laid end to end are exactly the buffer's prefix of length frames * ws: no gap, no overlap |
| Spectrogram.FramesLeaveShortRest | fingerprint.py:80-93 | The samples dropped after the last frame are fewer than a window, and none are dropped exactly when the length is a multiple of the window |
| Spectrogram.FrameReadsOnlyItsWindow | fingerprint.py:93 | Row t depends only on samples t * ws up to (t + 1) * ws |
| Spectrogram.CellsAreNonNegative | fingerprint.py:97-100 | With non-negative magnitudes (np.abs), every cell is non-negative |
| Suppression.BuildMask | fingerprint.py:52-54 | The mask loop on a zero array gives PeakMask(histogram, peaks) |
| Suppression.PeakMaskAt | fingerprint.py:52-54 | Before smoothing, mask[i] is histogram[i] when i or i + 1 is a peak, and 0 otherwise |
| Suppression.SpectrogramArrayRows | fingerprint.py:44-48 | The rows the pass enumerates are the rows of SpectrogramRows, and the width is ws / 2 / bs |
| Suppression.StepAgrees | fingerprint.py:48-55 | One loop step appends entry t of the series and produces the mask for frame t + 1 |
| Suppression.PeaksPicksInterior | fingerprint.py:54 | Peaks only reports positions p with 0 < p < width, so the slice [p - 1, p + 1) stays inside the mask |
| Suppression.Suppress | fingerprint.py:46-57 | The loop over the rows returns FingerprintSeries of the array's rows |
| Suppression.GetFingerprints | fingerprint.py:38-58 | The pass returns FingerprintSeries(SpectrogramRows(...), ws / 2 / bs, Peaks, smooth): entry t is (t, peaks of frame t) |
| Suppression.FirstFrameIsBiasedByConstant | fingerprint.py:47-49 | Frame 0 is lowered by 25 only, because the initial mask is zero |
| Suppression.MaskHandOff | fingerprint.py:49-55 | Frame t + 1 is lowered by the smoothed mask of frame t's row and peaks |
| Suppression.MaskAtDependsOnPrefix | fingerprint.py:47-55 | The mask in force at frame t depends only on rows before t |
| Suppression.SeriesIsPrefixClosed | fingerprint.py:48-50 | The pass is causal: on the first k rows it gives the first k entries of the full series |
| Suppression.FlatVectorHasNoPeaks | fingerprint.py:65 | Peaks reports nothing for a vector whose entries are all equal |
| Suppression.SilenceHasNoPeaks | fingerprint.py:47-55 | All-zero rows and a smoothing that keeps zero at zero give a zero mask and no peaks in any frame |
| Tokens.TargetPairingsSpec | fingerprint.py:31-32 | Members are exactly the qualifying tuples of one anchor and one search frame with target rank below n; strictly ordered |
| Tokens.SearchPairingsSpec | fingerprint.py:30-32 | Members are exactly the qualifying tuples of one anchor with search frame below hi; strictly ordered |
| Tokens.AnchorPairingsSpec | fingerprint.py:27-32 | Members are exactly the qualifying tuples of frame f with anchor rank below n; strictly ordered |
| Tokens.FramePairingsSpec | fingerprint.py:25-32 | Members are exactly the qualifying tuples with anchor frame below n; strictly ordered |
| Tokens.PairingsSpec | fingerprint.py:25-32 | Members are exactly the qualifying tuples, in strictly increasing lexicographic order (the loops' order) |
| Tokens.TokensOf | fingerprint.py:25-33 | Token i is the token of pairing i: (anchor, target, search - time), anchor frame time, source |
| Tokens.MatchTokens | fingerprint.py:31-33 | The innermost loop emits the tokens of TargetPairings for one anchor and search frame |
| Tokens.SearchTokens | fingerprint.py:28-33 | The search loop emits the tokens of SearchPairings for one anchor, including when the range is empty |
| Tokens.FrameTokens | fingerprint.py:26-33 | The anchor loop emits the tokens of AnchorPairings for one frame |
| Tokens.PairTokens | fingerprint.py:25-33 | The four nested loops return TokensOf(fingerprints) |
| Tokens.GetTokens | fingerprint.py:15-35 | The entry point returns the tokens of the series that GetFingerprints computes |
| Tokens.LexSortedUnique | fingerprint.py:25-33 | Two strictly ordered lists with the same members are equal |
| Tokens.TokensFollowQualifyingPairings | fingerprint.py:25-33 | Any strictly ordered list of exactly the qualifying tuples is the token order: one token per qualifying tuple, none repeated |
| Tokens.TokensAreBounded | fingerprint.py:28-33 | Each token has 1 <= delta <= 4 and anchor - 8 <= target <= anchor + 8. Its target frame is inside the series, and its anchor and target are peaks of their frames. Its time is the anchor frame's time * ws / rate |
| Tokens.NoPeaksNoTokens | fingerprint.py:27-33 | A series without peaks yields no token |
| Tokens.TimedTokens | fingerprint.py:25-33 | On a series whose entry t has time t, the target frame is 1 to 4 frames after the anchor frame and inside the series. delta is that gap, time is frame * ws / rate, and both ends are peaks of their frames |
| Tokens.SeriesIsTimed | fingerprint.py:46-50 | The computed series has one entry per frame; entry t has time t and the peaks picked for frame t |
| Tokens.TokenCountIsBounded | fingerprint.py:27-33 | With at most 5 peaks per frame there are at most 100 tokens per frame |
| Tokens.SeriesHasFewPeaks | fingerprint.py:49 | Every frame of the computed series has at most 5 peaks |

## Left out

- The Fourier transform `np.fft.rfft` and `np.abs` are the parameter `fftMag`. Only the output length ws / 2 + 1 is assumed, and non-negativity where a lemma says so.
- `gaussian_filter(prev_histogram, 2.)` is the parameter `smooth`. Only length preservation is assumed, and that zero maps to zero in `SilenceHasNoPeaks`.
- Floating point is modelled as exact reals. Rounding, NaN and infinities are not modelled, including in the time stamp `time * float(window_size) / rate`.
- The signal object is not modelled: `get_samples`, `get_samplerate` and `get_filename` become the parameters `samples`, `sampleRate` and `source`.
- `classifier.Token` becomes the datatype `Token`. classifier.py is not part of this model.
- `prev_histogram *= 1` has no effect and is omitted. The commented-out high-pass filter is omitted.
- `show_spectogram` and the `__main__` block only plot and print, so they are left out.
- `hanning_window` and `hamming_window` return `None` and are never called, so they are left out.
- The default arguments of `get_tokens` are the constants `DefaultWindowSize` and `DefaultBinSize`. The methods take explicit values.
- Spectrogram.GetSpectrogram: requires a positive window size and bin size. For zero, the source raises ZeroDivisionError, and that exception path is not modelled. The same requirement is carried by `GetFingerprints` and `GetTokens`.
- Tokens.GetTokens: requires a positive sample rate. The source divides by it and raises ZeroDivisionError when the rate is 0 and there is at least one frame. That exception path is not modelled.
- Suppression.BuildMask: requires every peak p to satisfy 0 < p < width, which `PeaksPicksInterior` proves for `Peaks`. Python's slice semantics for p = 0 or p >= width are not modelled.
- Suppression.Suppress: applies the picker as a function value (`Peaks.Peaks`) rather than calling the loop `GetPeaks`. `GetPeaks` is proved equal to `Peaks`, so the results agree. Keeping `Peaks` abstract inside the pass keeps its proofs small.

## Divergences from the written description

The system's written description differs from the code in three places. The model follows the code:

- The description asks for a value at least half the strongest candidate. The code tests `> 0.5 * top`, strictly.
- The description says to walk the ranked candidates "stopping/excluding" at the first weak one. The code filters without stopping. `Peaks.PeaksArePrefixOfRanking` proves the two readings agree, because the kept entries always form a prefix.
- The description lists the errors `InvalidParameters` and `EmptySignal`. The code has neither. A signal shorter than one window gives an empty series and no tokens, and an odd window size is accepted.
