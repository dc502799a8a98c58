# TMLabPy signal features in Dafny

This project models the signal-feature core of TMLabPy in Dafny 4 and proves
properties of the model. The core covers:

- **Forward difference** (`diff`).
- **Spectrogram** (`stft`): framing, zero allocation, and column-by-column
  fill from windowed FFT magnitudes.
- **Time-domain features**: the count of downward steps (`grad_change`) and
  the framed zero-crossing rate (`zero_crossing`).
- **Spectrogram features**: spectral flux (`pflux`), spectral centroid
  (`pcent`) and spectral entropy (`pse`).
- **Preprocessing**: whole-array z-score (`zscore`), whole-array min-max
  scaling (`min_max`), and fixed-length segmentation (`seqseg`).

Files:

- `numeric.dfy` (`Numeric`): stand-ins for the scalar behaviour the Python
  code relies on.
  - A float is `Finite(value)`, an exact real, or `NonFinite`, the NaN or
    infinity numpy produces when it divides by zero.
  - A call returns `Ok(value)` or raises `AssertionError`,
    `ZeroDivisionError`, `ValueError` or `IndexError`.
  - It also defines Python's truncating `int()`, `numpy.sign`, sums, dot
    products, and the column view of a 2-D array.
- `framing.dfy` (`Framing`): the framing rule that `stft` and `zero_crossing`
  share.
  - Frames of `winsize` samples overlap by `overlaps = int(winsize * overlap)`.
  - Frame i starts at `shift * i`, with `shift = winsize - overlaps`.
  - There are `int((len(x) - overlaps) / shift)` frames.
- `signal.dfy` (`Signal`): `diff` as a pure function; `stft` as a method that
  allocates the `array2` and fills it column by column.
- `feature_extraction.dfy` (`FeatureExtraction`): every feature as a method.
  As in the source, each allocates its output array and fills it in a loop.
  Each is proved equal to a pure specification function, and the properties
  are proved as lemmas about that function.
- `preprocessing.dfy` (`Preprocessing`): `zscore`, `min_max` and `seqseg` as
  pure functions over sequences, since the source computes them as
  whole-array expressions.

Arithmetic is exact (`real`, `int`). The integer conversions of the source
are written out: `int()` truncates toward zero, and `//` floors. Python
raises an exception on some paths: `stft`'s `assert winsize < len(x)`,
division by zero in integer arithmetic, numpy refusing a negative array
length or an FFT length of zero, and indexing row 0 of a spectrogram with
no rows. The model returns these as `Raise` values. numpy's float division by zero gives `NonFinite`.

Where the code and its documentation disagree, the model follows the code:

- `grad_change` is documented as counting inversions of the slope's sign.
  The code counts the steps with `x[i+1] - x[i] < 0`, and so does `DownSteps`.
- A zero-crossing rate is not 0 on every signal without sign changes. The
  shifted copy is zero at both ends, so a frame of two or more positive
  samples scores `1 / winsize` (`AllPositiveFrameRate`). A frame scores 0
  exactly when all its samples are 0 (`FrameRateZeroIff`).
- The centroid makes no adjustment for a zero denominator. `num / den`
  simply divides, so a column whose rows (all but the last) sum to 0 gives a
  non-finite centroid (`Centroids`).

## Model

| member | source | states |
|---|---|---|
| Numeric.Trunc | signal_processing/signal.py:63 | Python's `int()` of a float rounds toward zero: it is within 1 of its argument and never further from 0 |
| Numeric.TruncDiv | signal_processing/signal.py:65 | `int(a / b)` for b > 0 is the quotient rounded toward zero: a lies in `[q*b, q*b + b)` for a >= 0 and in `(q*b - b, q*b]` for a < 0 |
| Numeric.Divide | signal_processing/feature_extraction.py:67 | numpy's float division is non-finite exactly when the divisor is 0; otherwise the quotient times the divisor gives back the dividend |
| Numeric.TruncDivExact | signal_processing/signal.py:65 | integer division truncated toward zero equals Python's `int()` of the true quotient, so counts computed through floats are exact |
| Numeric.Sign | signal_processing/feature_extraction.py:146 | `numpy.sign` lies in -1..1 and is 0 (positive) exactly when its argument is 0 (positive) |
| Numeric.DotBetween | signal_processing/feature_extraction.py:66 | a sum weighted by non-negative weights, over integer values between lo and hi, lies between lo and hi times the total weight |
| Numeric.SumScaled | machine_learning/preprocessing.py:32 | scaling every entry scales the sum by the same factor |
| Numeric.SumShifted | machine_learning/preprocessing.py:32 | shifting every entry by c lowers the sum by the length times c |
| Numeric.Columns | signal_processing/feature_extraction.py:86 | the column view has one sequence per column, and sequence j is `spg[:, j]` entry by entry |
| Framing.Overlaps | signal_processing/signal.py:63 | for an overlap in [0, 1), `int(winsize * overlap)` is a natural number below a positive window |
| Framing.Shift | signal_processing/signal.py:66 | the hop plus the overlap is the window, and the hop is positive exactly when the window is |
| Framing.FrameCount | signal_processing/signal.py:65 | the frame count is the number of whole hops that fit after the first overlap, so `c * shift + overlaps <= n < (c + 1) * shift + overlaps` when n >= overlaps, and it is at most 0 otherwise |
| Framing.FrameCountExact | signal_processing/signal.py:65 | the integer frame count equals `int((len(x) - overlaps) / (winsize - overlaps))` computed through a float |
| Framing.FrameFits | signal_processing/feature_extraction.py:137-142 | frame i ends inside the signal exactly when i is below the frame count, so every counted frame is full and trailing samples are dropped |
| Framing.FrameCountNegative | signal_processing/feature_extraction.py:137 | the frame count is negative exactly when the signal plus one hop is no longer than the overlap |
| Framing.Frame | signal_processing/feature_extraction.py:142 | frame i of a counted frame has exactly winsize samples, sample k being `x[shift * i + k]`, and lies inside x |
| Framing.DefaultFraming | signal_processing/signal.py:22-25 | with 16-sample windows and overlap 0.92, frames share 14 samples, hop by 2, and 640 samples give 313 frames |
| Signal.Diff | signal_processing/signal.py:17 | the difference has `max(len(x) - 1, 0)` entries, entry i being `x[i+1] - x[i]` |
| Signal.DiffReconstructs | signal_processing/signal.py:17 | summing the first k differences onto `x[0]` gives back `x[k]`, so the difference loses only the starting value |
| Signal.DiffTelescopes | signal_processing/signal.py:17 | the differences of a non-empty signal sum to last minus first |
| Signal.DiffExample | signal_processing/tests/test_signal.py:8-10 | the differences of [2, 3, 4] sum to 2 |
| Signal.Bins | signal_processing/signal.py:64 | the row count `int(nfft / 2 + 1)` is positive exactly when nfft >= 0, zero exactly for nfft from -3 to -1, and negative exactly for nfft <= -4 |
| Signal.BinsExact | signal_processing/signal.py:64 | `int(n / 2 + 1)` in integer arithmetic equals the float expression; it is `n // 2 + 1` for n >= 0 |
| Signal.PadOrCrop | signal_processing/signal.py:72 | the FFT input has exactly nfft samples: the frame's samples, then zeros |
| Signal.Windowed | signal_processing/signal.py:70 | the windowed frame has the frame's length, and entry i is the window coefficient times the sample |
| Signal.FrameSpectrum | signal_processing/signal.py:72-74 | a spectrogram column keeps exactly `nfft // 2 + 1` bins, each a non-negative magnitude |
| Signal.AtLeastOneFrame | signal_processing/signal.py:61-65 | a window shorter than the signal yields at least one frame |
| Signal.DefaultSpectrogramShape | signal_processing/tests/test_signal.py:12-14 | with the defaults, 640 samples give a 65 x 313 spectrogram |
| Signal.Stft | signal_processing/signal.py:61-76 | the method raises AssertionError unless winsize < len(x), and ZeroDivisionError for a zero window. For a negative row count (nfft <= -4) `np.zeros` raises ValueError. For zero rows (nfft from -3 to -1) `spg[0, :]` raises IndexError. For nfft = 0 the FFT raises ValueError. Otherwise it returns a fresh `array2` of shape (`nfft // 2 + 1`, frame count) whose column j is the spectrum of frame j, and every entry is >= 0 |
| FeatureExtraction.DownSteps | signal_processing/feature_extraction.py:106-110 | the number of downward steps is at most `len(x) - 1` |
| FeatureExtraction.DownStepsCountsDescents | signal_processing/feature_extraction.py:107-109 | the count equals the number of indices i < len(x) - 1 with `x[i+1] < x[i]` |
| FeatureExtraction.DownStepsZeroIffNonDecreasing | signal_processing/feature_extraction.py:107-109 | the count is 0 exactly when the signal never decreases |
| FeatureExtraction.DownStepsAllIffStrictlyDecreasing | signal_processing/feature_extraction.py:107-109 | the count is `len(x) - 1` exactly when the signal strictly decreases |
| FeatureExtraction.DiffNegativesAreDownSteps | signal_processing/feature_extraction.py:107-109 | the count equals the number of negative entries of the forward difference |
| FeatureExtraction.GradChange | signal_processing/feature_extraction.py:106-110 | the loop returns exactly the number of downward steps |
| FeatureExtraction.ShiftedFrame | signal_processing/feature_extraction.py:143-144 | the shifted copy has the frame's length, is 0 at both ends, and entry k is `frame[k-1]` for 1 <= k <= winsize - 2 |
| FeatureExtraction.SignDistance | signal_processing/feature_extraction.py:146 | the sum of absolute sign differences is at most twice the length |
| FeatureExtraction.SignDistanceZeroIff | signal_processing/feature_extraction.py:146 | the sign distance is 0 exactly when the two sequences agree in sign everywhere |
| FeatureExtraction.FrameRate | signal_processing/feature_extraction.py:146 | every zero-crossing rate lies in [0, 1] |
| FeatureExtraction.FrameRateZeroIff | signal_processing/feature_extraction.py:143-146 | a frame scores 0 exactly when all its samples are 0 |
| FeatureExtraction.AllPositiveFrameRate | signal_processing/feature_extraction.py:143-146 | a frame of two or more positive samples scores `1 / winsize`, not 0 |
| FeatureExtraction.ZeroCrossingRates | signal_processing/feature_extraction.py:137-146 | there is one rate per frame, and each lies in [0, 1] |
| FeatureExtraction.ZeroCrossing | signal_processing/feature_extraction.py:136-148 | the method raises ZeroDivisionError for a zero window and ValueError exactly when the frame count is negative. Otherwise it returns a fresh array equal to the rates of the frames |
| FeatureExtraction.ColumnSums | signal_processing/feature_extraction.py:86 | there is one sum per column, equal to that column's total |
| FeatureExtraction.Flux | signal_processing/feature_extraction.py:84-87 | the flux has one entry per column, every entry is >= 0, and the last is exactly 0 |
| FeatureExtraction.FluxIsSquaredDiff | signal_processing/feature_extraction.py:84-87 | the flux is the squared forward difference of the column sums followed by 0 |
| FeatureExtraction.PFlux | signal_processing/feature_extraction.py:84-87 | the loop fills a fresh array equal to the flux of the spectrogram's columns |
| FeatureExtraction.ArangeDown | signal_processing/feature_extraction.py:62 | a descending arange lies in (stop, start], starts at start, and ends at its minimum |
| FeatureExtraction.ArangeDownAt | signal_processing/feature_extraction.py:62 | a descending arange has `ceil((start - stop) / step)` entries, entry i being `start - i * step` |
| FeatureExtraction.FreqAxis | signal_processing/feature_extraction.py:61-62 | the frequency axis lies in [fmin, rows - 1], starts at rows - 1, and ends at its minimum |
| FeatureExtraction.DefaultFreqAxis | signal_processing/feature_extraction.py:61-62 | with 65 rows, fmin 0 and fmax 64 the axis is 64, 63, ..., 1, with one entry per row but the last |
| FeatureExtraction.Centroid | signal_processing/feature_extraction.py:63-67 | a column's centroid is non-finite exactly when its weights sum to 0 |
| FeatureExtraction.Centroids | signal_processing/feature_extraction.py:63-67 | there is one centroid per column, non-finite exactly when that column's rows (all but the last) sum to 0 |
| FeatureExtraction.CentroidWithinAxis | signal_processing/feature_extraction.py:61-67 | for a non-negative column with positive weight, the centroid is finite and lies between the axis's smallest and largest frequency |
| FeatureExtraction.PCent | signal_processing/feature_extraction.py:61-67 | the method returns a fresh array equal to the centroids of the spectrogram's columns |
| FeatureExtraction.Probability | signal_processing/feature_extraction.py:31 | a row's share of its column is finite exactly when the column sum is non-zero |
| FeatureExtraction.Clamp | signal_processing/feature_extraction.py:32 | the clamp changes only an exact 0, and changes it to 0.0001 |
| FeatureExtraction.ProbabilitiesSumToOne | signal_processing/feature_extraction.py:31 | the unclamped shares of a column with non-zero sum add up to 1 |
| FeatureExtraction.ClampedProbabilityInUnit | signal_processing/feature_extraction.py:31-32 | in a non-negative column with positive sum, every clamped share is finite and lies in (0, 1] |
| FeatureExtraction.PLogP | signal_processing/feature_extraction.py:33 | `p * log2(p)` is finite exactly when p is, and it is at most 0 for a positive p whose logarithm is not positive |
| FeatureExtraction.EntropySum | signal_processing/feature_extraction.py:29-33 | the accumulator stays finite exactly when no row has been added yet or the column sum is non-zero |
| FeatureExtraction.Entropy | signal_processing/feature_extraction.py:29-34 | a column's entropy is finite exactly when its shares are defined and `log2(fmax + 1 - fmin)` is non-zero |
| FeatureExtraction.EntropySumNonPositive | signal_processing/feature_extraction.py:30-33 | for a non-negative column with positive sum, and a logarithm that is not positive on (0, 1], the accumulator stays finite and at most 0 after any number of rows |
| FeatureExtraction.EntropyNonNegative | signal_processing/feature_extraction.py:29-34 | under the same conditions, plus a positive normaliser `log2(fmax + 1 - fmin)`, the spectral entropy is finite and >= 0 |
| FeatureExtraction.Entropies | signal_processing/feature_extraction.py:29 | there is one entropy per column |
| FeatureExtraction.PSE | signal_processing/feature_extraction.py:29-34 | the row loop and the normalisation produce a fresh array equal to the entropies of the spectrogram's columns |
| Preprocessing.Mean | machine_learning/preprocessing.py:32 | the mean lies between the smallest and the largest entry |
| Preprocessing.ZScore | machine_learning/preprocessing.py:32 | the z-score has the input's length, and an entry is non-finite exactly when the divisor is 0 |
| Preprocessing.ZScoreMeanZero | machine_learning/preprocessing.py:32 | for any non-zero divisor the z-scores are finite and have mean exactly 0 |
| Preprocessing.ZScoreInverse | machine_learning/preprocessing.py:32 | scaling a z-score back by the divisor and adding the mean gives back the sample |
| Preprocessing.Min | machine_learning/preprocessing.py:56 | the minimum is at most every entry |
| Preprocessing.Max | machine_learning/preprocessing.py:56 | the maximum is at least every entry |
| Preprocessing.MinMaxAttained | machine_learning/preprocessing.py:56 | the minimum and the maximum are entries of the array |
| Preprocessing.MinMax | machine_learning/preprocessing.py:56 | an empty array raises ValueError; otherwise the result has the input's length |
| Preprocessing.MinMaxUnitRange | machine_learning/preprocessing.py:56 | with max > min, every output is finite and in [0, 1], the minimum maps to 0 and the maximum to 1, so the output range is exactly 1 |
| Preprocessing.MinMaxMonotone | machine_learning/preprocessing.py:56 | rescaling keeps order in both directions: `x[i] <= x[j]` exactly when `r[i] <= r[j]` |
| Preprocessing.MinMaxInverse | machine_learning/preprocessing.py:56 | `min + r[i] * (max - min)` gives back `x[i]` |
| Preprocessing.MinMaxConstant | machine_learning/preprocessing.py:56 | a constant array gives a non-finite entry everywhere |
| Preprocessing.Segment | machine_learning/preprocessing.py:94 | segment n has exactly L samples, sample k being `x[L * n + k]`, and lies inside x |
| Preprocessing.SeqSeg | machine_learning/preprocessing.py:93-96 | L = length * fs = 0 raises ZeroDivisionError and a negative L gives no segment. Otherwise there are `len(x) // L` segments, segment n being the n-th run of L samples |
| Preprocessing.SeqSegConcat | machine_learning/preprocessing.py:93-96 | the segments laid end to end are x up to the last full segment |
| Preprocessing.SeqSegDropsLessThanSegment | machine_learning/preprocessing.py:93-96 | the segments, laid end to end, fall short of x by fewer than `length * fs` samples |
| Preprocessing.SeqSegExample | machine_learning/preprocessing.py:86-91 | 100 samples with segments of 10 seconds at 1 Hz give 10 segments of 10 samples |

## Left out

- The values of the FFT and of the Hamming window. Both are numpy
  floating-point computations.
  - `Stft` takes the window as a coefficient sequence of length winsize.
  - It takes the FFT modulus as a function `fftAbs` returning one magnitude
    (a real >= 0) per input sample.
- `pse`'s logarithm is a function parameter `log2`. Its values are not
  modelled: neither numpy's NaN for an argument <= 0, nor the final
  division by `log2(fmax + 1 - fmin)` where that is not defined. The
  entropy is proved >= 0 for any logarithm that is not positive on (0, 1].
  No upper bound of 1 is stated, because that needs the concavity of the
  real logarithm.
- Floating-point rounding. All arithmetic is exact, so:
  - `int(winsize * overlap)` is the floor of the exact product;
  - the zero-crossing rate is an exact quotient;
  - sums are exact.
- `np.std` in `zscore`. The standard deviation is a parameter `sd`.
- The `axis` argument of `zscore` and `min_max`. Only `axis=None`, over the
  whole array, is modelled.
- Framing.Overlaps, Signal.Stft, FeatureExtraction.ZeroCrossing: these
  require the overlap to lie in the documented range [0, 1). The window size
  is a natural number, where the source also accepts floats.
- FeatureExtraction.PCent, FeatureExtraction.FreqAxis,
  FeatureExtraction.CentroidShapes: these require `1 <= fmax <= rows`, and
  PCent also requires a frequency axis with exactly one entry per row but
  the last. The source's other paths are
  not modelled:
  - `fmax = 0` or `fmax > rows` divides by zero or gives a zero arange step;
  - a negative fmax gives an ascending axis;
  - an axis of another length makes numpy broadcast or refuse the multiply.
- FeatureExtraction.Flux: does not state that an entry is 0 exactly when two
  neighbouring column sums are equal.
- Preprocessing.SeqSeg: `length` is an integer. A float length in seconds,
  which the source allows, is not modelled.
- The `numba` `@jit` decorators, a performance detail. The model follows
  numpy semantics.
- signal_processing/wavelet.py, a wrapper over an external wavelet library.
- machine_learning/convolutional_nn.py, the construction of a Keras model.
- Visualization/makefig.py, matplotlib figure rendering.
- manage/testing.py, the test runner. The test files are used only as
  sources of concrete examples.
- The subspace anomaly scorer is not part of this model.
