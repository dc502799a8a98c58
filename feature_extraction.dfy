/** signal_processing/feature_extraction.py: features of a signal (the count
    of downward steps and the framed zero-crossing rate) and of its
    spectrogram (spectral flux, centroid and entropy). Each feature
    allocates an output buffer and fills it in a loop; each is a method
    proved against a pure specification below it. */
module FeatureExtraction {
  import opened Numeric
  import opened Framing
  import opened Signal

  // ---------------------------------------------------------------- grad_change

  /** The number of downward steps `x[i+1] - x[i] < 0` of x. */
  function DownSteps(x: seq<real>): (n: nat)
    ensures n <= if |x| == 0 then 0 else |x| - 1
  {
    if |x| < 2 then 0
    else DownSteps(x[..|x| - 1]) + (if x[|x| - 1] - x[|x| - 2] < 0.0 then 1 else 0)
  }

  predicate DescendsAt(x: seq<real>, i: nat)
    requires i < |x| - 1
  {
    x[i + 1] < x[i]
  }

  /** The positions at which x strictly decreases. */
  ghost function Descents(x: seq<real>): set<nat>
  {
    set i: nat | i < |x| - 1 && DescendsAt(x, i)
  }

  /** DownSteps counts exactly the positions where the signal strictly decreases. */
  lemma {:induction false} DownStepsCountsDescents(x: seq<real>)
    ensures DownSteps(x) == |Descents(x)|
  {
    if |x| < 2 {
      assert Descents(x) == {};
    } else {
      var n := |x| - 1;
      DownStepsCountsDescents(x[..n]);
      var last: set<nat> := if x[n] < x[n - 1] then {n - 1} else {};
      assert Descents(x) == Descents(x[..n]) + last;
      assert Descents(x[..n]) !! last;
    }
  }

  /** No downward step exactly when the signal never decreases. */
  lemma {:induction false} DownStepsZeroIffNonDecreasing(x: seq<real>)
    ensures DownSteps(x) == 0 <==> forall i :: 0 <= i < |x| - 1 ==> x[i] <= x[i + 1]
  {
    if |x| >= 2 {
      var n := |x| - 1;
      DownStepsZeroIffNonDecreasing(x[..n]);
      assert forall i :: 0 <= i < n ==> x[..n][i] == x[i];
    }
  }

  /** Every step is downward exactly when the signal strictly decreases. */
  lemma {:induction false} DownStepsAllIffStrictlyDecreasing(x: seq<real>)
    requires |x| >= 1
    ensures DownSteps(x) == |x| - 1 <==> forall i :: 0 <= i < |x| - 1 ==> x[i + 1] < x[i]
  {
    if |x| >= 2 {
      var n := |x| - 1;
      DownStepsAllIffStrictlyDecreasing(x[..n]);
      assert forall i :: 0 <= i < n ==> x[..n][i] == x[i];
    }
  }

  /** The number of negative entries of d. */
  function Negatives(d: seq<real>): nat
  {
    if |d| == 0 then 0 else Negatives(d[..|d| - 1]) + (if d[|d| - 1] < 0.0 then 1 else 0)
  }

  /** grad_change counts the negative entries of the forward difference. */
  lemma {:induction false} DiffNegativesAreDownSteps(x: seq<real>)
    ensures Negatives(Diff(x)) == DownSteps(x)
  {
    if |x| >= 2 {
      var n := |x| - 1;
      DiffNegativesAreDownSteps(x[..n]);
      assert Diff(x)[..n - 1] == Diff(x[..n]);
    }
  }

  /** `grad_change`: counts the steps of x that go down. */
  method GradChange(x: seq<real>) returns (count: nat)
    ensures count == DownSteps(x)
  {
    count := 0;
    var i := 0;
    while i < |x| - 1
      invariant 0 <= i && (|x| > 0 ==> i < |x|)
      invariant count == DownSteps(x[..if |x| == 0 then 0 else i + 1])
    {
      assert x[..i + 2][..i + 1] == x[..i + 1];
      if x[i + 1] - x[i] < 0.0 {
        count := count + 1;
      }
      i := i + 1;
    }
    assert x[..if |x| == 0 then 0 else i + 1] == x;
  }

  // -------------------------------------------------------------- zero_crossing

  /** `next_frame`: a zero frame with `next_frame[1:-1] = frame[0:-2]`, that
      is the frame delayed by one sample and zeroed at both ends. */
  function ShiftedFrame(frame: seq<real>): (next: seq<real>)
    ensures |next| == |frame|
    ensures |frame| > 0 ==> next[0] == 0.0 && next[|frame| - 1] == 0.0
    ensures forall k :: 1 <= k < |frame| - 1 ==> next[k] == frame[k - 1]
  {
    if |frame| < 2 then seq(|frame|, _ => 0.0) else [0.0] + frame[..|frame| - 2] + [0.0]
  }

  /** `np.sum(np.abs(np.sign(a) - np.sign(b)))`. */
  function SignDistance(a: seq<real>, b: seq<real>): (d: nat)
    requires |a| == |b|
    ensures d <= 2 * |a|
  {
    if |a| == 0 then 0
    else SignDistance(a[..|a| - 1], b[..|b| - 1]) + Abs(Sign(a[|a| - 1]) - Sign(b[|b| - 1]))
  }

  /** The sign distance vanishes exactly when the signs agree everywhere. */
  lemma {:induction false} SignDistanceZeroIff(a: seq<real>, b: seq<real>)
    requires |a| == |b|
    ensures SignDistance(a, b) == 0 <==> forall i :: 0 <= i < |a| ==> Sign(a[i]) == Sign(b[i])
  {
    if |a| > 0 {
      var n := |a| - 1;
      SignDistanceZeroIff(a[..n], b[..n]);
      assert forall i :: 0 <= i < n ==> a[..n][i] == a[i] && b[..n][i] == b[i];
    }
  }

  /** The zero-crossing rate of one frame,
      `1 / (2 * len(frame)) * np.sum(np.abs(np.sign(frame) - np.sign(next_frame)))`. */
  function FrameRate(frame: seq<real>): (rate: real)
    requires |frame| > 0
    ensures 0.0 <= rate <= 1.0
  {
    var d := SignDistance(frame, ShiftedFrame(frame));
    RatioAtMostOne(d, 2 * |frame|);
    d as real / (2 * |frame|) as real
  }

  lemma RatioAtMostOne(d: nat, n: nat)
    requires 0 < n && d <= n
    ensures 0.0 <= d as real / n as real <= 1.0
  {
    QuotientBetween(d as real, n as real, 0.0, 1.0);
  }

  lemma RateZeroIffDistanceZero(d: nat, n: nat)
    requires 0 < n
    ensures d as real / n as real == 0.0 <==> d == 0
  {
    assert (d as real / n as real) * n as real == d as real;
  }

  /** A frame scores zero exactly when it is silent: the zero ends of the
      shifted copy force the first and last samples to 0, and the delay
      carries the zero along the frame. */
  lemma FrameRateZeroIff(frame: seq<real>)
    requires |frame| > 0
    ensures FrameRate(frame) == 0.0 <==> forall k :: 0 <= k < |frame| ==> frame[k] == 0.0
  {
    var next := ShiftedFrame(frame);
    SignDistanceZeroIff(frame, next);
    RateZeroIffDistanceZero(SignDistance(frame, next), 2 * |frame|);
    if forall i :: 0 <= i < |frame| ==> Sign(frame[i]) == Sign(next[i]) {
      forall k | 0 <= k < |frame|
        ensures frame[k] == 0.0
      {
        SilentUpTo(frame, k);
      }
    }
  }

  lemma {:induction false} SilentUpTo(frame: seq<real>, k: nat)
    requires k < |frame|
    requires forall i :: 0 <= i < |frame| ==> Sign(frame[i]) == Sign(ShiftedFrame(frame)[i])
    ensures frame[k] == 0.0
  {
    var next := ShiftedFrame(frame);
    assert Sign(frame[k]) == Sign(next[k]);
    if 0 < k < |frame| - 1 {
      SilentUpTo(frame, k - 1);
    }
  }

  /** A frame of two or more positive samples scores `1 / winsize`, not 0:
      only its two ends differ in sign from the zeroed ends of the shifted copy. */
  lemma AllPositiveFrameRate(frame: seq<real>)
    requires |frame| >= 2
    requires forall k :: 0 <= k < |frame| ==> frame[k] > 0.0
    ensures FrameRate(frame) == 1.0 / |frame| as real
  {
    var n := |frame|;
    var next := ShiftedFrame(frame);
    PositivePrefixDistance(frame, n - 1);
    assert next[..n][..n - 1] == next[..n - 1];
    assert frame[..n] == frame && next[..n] == next;
    assert SignDistance(frame, next) == 2;
  }

  lemma {:induction false} PositivePrefixDistance(frame: seq<real>, m: nat)
    requires 1 <= m < |frame|
    requires forall k :: 0 <= k < |frame| ==> frame[k] > 0.0
    ensures SignDistance(frame[..m], ShiftedFrame(frame)[..m]) == 1
  {
    var next := ShiftedFrame(frame);
    assert frame[..m][..m - 1] == frame[..m - 1];
    assert next[..m][..m - 1] == next[..m - 1];
    if m > 1 {
      PositivePrefixDistance(frame, m - 1);
    }
  }

  /** The rate of every frame of the signal. */
  function ZeroCrossingRates(x: seq<real>, winsize: nat, overlap: real): (rates: seq<real>)
    requires ValidOverlap(overlap) && winsize > 0 && FrameCount(|x|, winsize, overlap) >= 0
    ensures |rates| == FrameCount(|x|, winsize, overlap)
    ensures forall i :: 0 <= i < |rates| ==> 0.0 <= rates[i] <= 1.0
  {
    seq(FrameCount(|x|, winsize, overlap),
        i requires 0 <= i < FrameCount(|x|, winsize, overlap) => FrameRate(Frame(x, winsize, overlap, i)))
  }

  /** `zero_crossing`: one rate per full frame. A zero window divides by
      zero; a signal so short that the frame count is negative makes
      `np.zeros` raise. */
  method ZeroCrossing(x: seq<real>, winsize: nat, overlap: real) returns (r: Result<array<real>>)
    requires ValidOverlap(overlap)
    ensures winsize == 0 ==> r == Raise(ZeroDivisionError)
    ensures winsize > 0 ==> (r.Raise? <==> FrameCount(|x|, winsize, overlap) < 0)
    ensures winsize > 0 && r.Raise? ==> r.error == ValueError
    ensures r.Ok? ==>
      && winsize > 0 && FrameCount(|x|, winsize, overlap) >= 0
      && fresh(r.value)
      && r.value[..] == ZeroCrossingRates(x, winsize, overlap)
  {
    var overlaps := Overlaps(winsize, overlap);
    if winsize - overlaps == 0 {
      return Raise(ZeroDivisionError);
    }
    var count := TruncDiv(|x| - overlaps, winsize - overlaps);
    if count < 0 {
      return Raise(ValueError);
    }
    var rates := new real[count](_ => 0.0);
    for i := 0 to count
      invariant forall k :: 0 <= k < i ==> rates[k] == FrameRate(Frame(x, winsize, overlap, k))
    {
      var frame := Frame(x, winsize, overlap, i);
      var next := ShiftedFrame(frame);
      rates[i] := SignDistance(frame, next) as real / (2 * |frame|) as real;
    }
    return Ok(rates);
  }

  // ---------------------------------------------------------------------- pflux

  /** `np.sum(spg[:, j])` for every column j. */
  function ColumnSums(cols: seq<seq<real>>): (sums: seq<real>)
    ensures |sums| == |cols| && forall j :: 0 <= j < |cols| ==> sums[j] == Sum(cols[j])
  {
    seq(|cols|, j requires 0 <= j < |cols| => Sum(cols[j]))
  }

  /** The spectral flux of a spectrogram given by its columns: entry j is the
      squared change of column sum from column j to column j + 1, and the
      last entry keeps the 0 it was allocated with. */
  function Flux(cols: seq<seq<real>>): (flux: seq<real>)
    ensures |flux| == |cols|
    ensures |cols| > 0 ==> flux[|cols| - 1] == 0.0
    ensures forall j :: 0 <= j < |flux| ==> flux[j] >= 0.0
  {
    seq(|cols|, j requires 0 <= j < |cols| =>
      if j < |cols| - 1 then Square(Sum(cols[j + 1]) - Sum(cols[j])) else 0.0)
  }

  /** The flux is the squared forward difference of the column sums,
      followed by a 0 for the last column. */
  lemma FluxIsSquaredDiff(cols: seq<seq<real>>)
    ensures Flux(cols)
         == seq(|Diff(ColumnSums(cols))|, j requires 0 <= j < |Diff(ColumnSums(cols))| =>
                Square(Diff(ColumnSums(cols))[j]))
            + (if |cols| == 0 then [] else [0.0])
  {
    var d := Diff(ColumnSums(cols));
    var rhs := seq(|d|, j requires 0 <= j < |d| => Square(d[j])) + (if |cols| == 0 then [] else [0.0]);
    assert |rhs| == |cols|;
    forall j | 0 <= j < |cols|
      ensures Flux(cols)[j] == rhs[j]
    {
      if j < |cols| - 1 {
        assert rhs[j] == Square(d[j]);
      }
    }
  }

  /** `pflux`: fills `flux[i]` for every column but the last. */
  method PFlux(spg: array2<real>) returns (flux: array<real>)
    ensures fresh(flux)
    ensures flux[..] == Flux(Columns(spg))
  {
    var cols := Columns(spg);
    flux := new real[|cols|](_ => 0.0);
    ghost var spec := Flux(cols);
    if |cols| > 0 {
      for i := 0 to |cols| - 1
        invariant forall j :: 0 <= j < i ==> flux[j] == spec[j]
        invariant forall j :: i <= j < |cols| ==> flux[j] == 0.0
      {
        flux[i] := Square(Sum(cols[i + 1]) - Sum(cols[i]));
      }
    }
    assert flux[..] == spec;
  }

  // ---------------------------------------------------------------------- pcent

  /** `np.arange(start, stop, -step)` for a positive step: start, start - step,
      ... while above stop. */
  function ArangeDown(start: int, stop: int, step: int): (r: seq<int>)
    requires step > 0
    ensures forall i :: 0 <= i < |r| ==> stop < r[i] <= start
    ensures |r| > 0 ==> r[0] == start && forall i :: 0 <= i < |r| ==> r[|r| - 1] <= r[i]
    decreases start - stop
  {
    if start <= stop then [] else [start] + ArangeDown(start - step, stop, step)
  }

  /** The closed form numpy documents for arange: `ceil((start - stop) / step)`
      entries, entry i being `start - i * step`. */
  lemma ArangeDownAt(start: int, stop: int, step: int)
    requires step > 0
    ensures |ArangeDown(start, stop, step)|
         == if start <= stop then 0 else (start - stop + step - 1) / step
    ensures forall i :: 0 <= i < |ArangeDown(start, stop, step)| ==>
              ArangeDown(start, stop, step)[i] == start - i * step
  {
    ArangeDownLength(start, stop, step);
    ArangeDownEntries(start, stop, step);
  }

  lemma {:induction false} ArangeDownLength(start: int, stop: int, step: int)
    requires step > 0
    ensures |ArangeDown(start, stop, step)|
         == if start <= stop then 0 else (start - stop + step - 1) / step
    decreases start - stop
  {
    if start > stop {
      ArangeDownLength(start - step, stop, step);
      if start - step <= stop {
        QuotientIs(start - stop + step - 1, step, 1);
      } else {
        var a := start - step - stop + step - 1;
        AtMostQuotient(a, step, a / step);
        AtMostQuotient(a, step, a / step + 1);
        QuotientIs(a + step, step, a / step + 1);
      }
    }
  }

  lemma {:induction false} ArangeDownEntries(start: int, stop: int, step: int)
    requires step > 0
    ensures forall i :: 0 <= i < |ArangeDown(start, stop, step)| ==>
              ArangeDown(start, stop, step)[i] == start - i * step
    decreases start - stop
  {
    if start > stop {
      ArangeDownEntries(start - step, stop, step);
      var r := ArangeDown(start, stop, step);
      var rest := ArangeDown(start - step, stop, step);
      forall i | 1 <= i < |r|
        ensures r[i] == start - i * step
      {
        assert r[i] == rest[i - 1] == start - step - (i - 1) * step;
        assert (i - 1) * step == i * step - step;
      }
    }
  }

  /** The frequency axis `np.arange(rows, fmin + 1, -res) - 1` with
      `res = rows // fmax`: descending from rows - 1. */
  function FreqAxis(rows: nat, fmin: int, fmax: int): (f: seq<int>)
    requires 1 <= fmax <= rows
    ensures forall i :: 0 <= i < |f| ==> fmin <= f[i] <= rows - 1
    ensures |f| > 0 ==> f[0] == rows - 1 && forall i :: 0 <= i < |f| ==> f[|f| - 1] <= f[i]
  {
    AtMostQuotient(rows, fmax, 1);
    var a := ArangeDown(rows, fmin + 1, rows / fmax);
    seq(|a|, i requires 0 <= i < |a| => a[i] - 1)
  }

  /** The shapes for which `f * spg[0:-1, i]` multiplies entry by entry:
      the frequency axis has exactly one entry per row but the last. */
  predicate CentroidShapes(rows: nat, fmin: int, fmax: int)
  {
    1 <= fmax <= rows && |FreqAxis(rows, fmin, fmax)| == rows - 1
  }

  /** With 65 rows and the defaults fmin 0, fmax 64 the axis is 64, 63, ..., 1. */
  lemma DefaultFreqAxis()
    ensures CentroidShapes(65, 0, 64)
    ensures FreqAxis(65, 0, 64) == seq(64, i => 64 - i)
  {
    ArangeDownAt(65, 1, 1);
  }

  /** The centroid of one column: `np.sum(f * w) / np.sum(w)` over the
      weights w of every row but the last. */
  function Centroid(f: seq<int>, w: seq<real>): (c: Float)
    requires |f| == |w|
    ensures c.NonFinite? <==> Sum(w) == 0.0
  {
    Divide(Dot(f, w), Sum(w))
  }

  /** The centroid of every column. */
  function Centroids(f: seq<int>, cols: seq<seq<real>>): (sc: seq<Float>)
    requires forall j :: 0 <= j < |cols| ==> |cols[j]| == |f| + 1
    ensures |sc| == |cols|
    ensures forall j :: 0 <= j < |cols| ==> (sc[j].NonFinite? <==> Sum(cols[j][..|f|]) == 0.0)
  {
    seq(|cols|, j requires 0 <= j < |cols| => Centroid(f, cols[j][..|f|]))
  }

  /** A column of non-negative magnitudes with positive weight has its
      centroid between the lowest and the highest frequency of the axis. */
  lemma CentroidWithinAxis(rows: nat, fmin: int, fmax: int, col: seq<real>)
    requires CentroidShapes(rows, fmin, fmax) && |col| == rows
    requires forall i :: 0 <= i < rows - 1 ==> col[i] >= 0.0
    requires Sum(col[..rows - 1]) > 0.0
    ensures var f := FreqAxis(rows, fmin, fmax);
            var c := Centroid(f, col[..rows - 1]);
            && |f| > 0 && c.Finite?
            && f[|f| - 1] as real <= c.value <= f[0] as real
  {
    var f := FreqAxis(rows, fmin, fmax);
    var w := col[..rows - 1];
    assert |f| > 0;
    DotBetween(f, w, f[|f| - 1], f[0]);
    QuotientBetween(Dot(f, w), Sum(w), f[|f| - 1] as real, f[0] as real);
  }

  /** `pcent`: the denominators are the column sums over every row but the
      last; `num[i]` is filled in a loop; the result divides them entry by
      entry. */
  method PCent(spg: array2<real>, fmin: int, fmax: int) returns (sc: array<Float>)
    requires CentroidShapes(spg.Length0, fmin, fmax)
    ensures fresh(sc)
    ensures sc[..] == Centroids(FreqAxis(spg.Length0, fmin, fmax), Columns(spg))
  {
    var rows := spg.Length0;
    var f := FreqAxis(rows, fmin, fmax);
    var cols := Columns(spg);
    var den := seq(|cols|, j requires 0 <= j < |cols| => Sum(cols[j][..rows - 1]));
    var num := new real[|cols|](_ => 0.0);
    for i := 0 to num.Length
      invariant forall j :: 0 <= j < i ==> num[j] == Dot(f, cols[j][..rows - 1])
    {
      num[i] := Dot(f, cols[i][..rows - 1]);
    }
    sc := new Float[num.Length](_ => NonFinite);
    forall j | 0 <= j < sc.Length {
      sc[j] := Divide(num[j], den[j]);
    }
  }

  // ------------------------------------------------------------------------ pse

  /** `spg[i, j] / np.sum(spg[:, j])`: the share of row i in its column. */
  function Probability(col: seq<real>, i: nat): (p: Float)
    requires i < |col|
    ensures p.Finite? <==> Sum(col) != 0.0
  {
    Divide(col[i], Sum(col))
  }

  /** `np.where(p == 0, 0.0001, p)`. */
  function Clamp(p: Float): (c: Float)
    ensures c != p <==> p == Finite(0.0)
    ensures p == Finite(0.0) ==> c == Finite(0.0001)
  {
    if p == Finite(0.0) then Finite(0.0001) else p
  }

  /** `p * np.log2(p)`, for a logarithm given as a function. A positive
      share whose logarithm is not positive contributes at most 0. */
  function PLogP(p: Float, log2: real -> real): (r: Float)
    ensures r.Finite? <==> p.Finite?
    ensures p.Finite? && p.value > 0.0 && log2(p.value) <= 0.0 ==> r.Finite? && r.value <= 0.0
  {
    assert p.Finite? && p.value > 0.0 && log2(p.value) <= 0.0 ==> p.value * log2(p.value) <= 0.0 by {
      if p.Finite? && p.value > 0.0 && log2(p.value) <= 0.0 {
        MulMonotone(log2(p.value), 0.0, p.value);
      }
    }
    if p.Finite? then Finite(p.value * log2(p.value)) else NonFinite
  }

  /** The accumulator `se[j]` after the first k rows. It stays finite
      exactly when no row has been added yet or the column sum is non-zero. */
  function EntropySum(col: seq<real>, k: nat, log2: real -> real): (acc: Float)
    requires k <= |col|
    ensures acc.Finite? <==> k == 0 || Sum(col) != 0.0
  {
    if k == 0 then Finite(0.0)
    else FAdd(EntropySum(col, k - 1, log2), PLogP(Clamp(Probability(col, k - 1)), log2))
  }

  /** `-se[j] / np.log2(fmax + 1 - fmin)` for one column. It is finite
      exactly when the column's shares are defined and the normalising
      logarithm is non-zero. */
  function Entropy(col: seq<real>, fmin: int, fmax: int, log2: real -> real): (e: Float)
    ensures e.Finite? <==> (|col| == 0 || Sum(col) != 0.0) && log2((fmax + 1 - fmin) as real) != 0.0
  {
    FDiv(FNeg(EntropySum(col, |col|, log2)), log2((fmax + 1 - fmin) as real))
  }

  /** The spectral entropy of every column. */
  function Entropies(cols: seq<seq<real>>, fmin: int, fmax: int, log2: real -> real): (se: seq<Float>)
    ensures |se| == |cols|
  {
    seq(|cols|, j requires 0 <= j < |cols| => Entropy(cols[j], fmin, fmax, log2))
  }

  /** The unclamped shares of a column with non-zero sum add up to 1. */
  lemma ProbabilitiesSumToOne(col: seq<real>)
    requires Sum(col) != 0.0
    ensures var p := seq(|col|, i requires 0 <= i < |col| => Probability(col, i));
            AllFinite(p) && Sum(Values(p)) == 1.0
  {
    var p := seq(|col|, i requires 0 <= i < |col| => Probability(col, i));
    var s := Sum(col);
    forall i | 0 <= i < |col|
      ensures Values(p)[i] == col[i] * (1.0 / s)
    {
      assert Values(p)[i] == col[i] / s;
    }
    SumScaled(col, Values(p), 1.0 / s);
  }

  /** Each entry of a non-negative column is at most the column sum. */
  lemma {:induction false} EntryAtMostSum(col: seq<real>, i: nat)
    requires i < |col|
    requires forall k :: 0 <= k < |col| ==> col[k] >= 0.0
    ensures col[i] <= Sum(col)
  {
    var n := |col| - 1;
    SumNonNegative(col[..n]);
    if i < n {
      EntryAtMostSum(col[..n], i);
    }
  }

  lemma {:induction false} SumNonNegative(s: seq<real>)
    requires forall k :: 0 <= k < |s| ==> s[k] >= 0.0
    ensures Sum(s) >= 0.0
  {
    if |s| > 0 {
      SumNonNegative(s[..|s| - 1]);
    }
  }

  /** In a non-negative column with positive sum every clamped share is a
      finite probability strictly above 0, so its logarithm is defined. */
  lemma ClampedProbabilityInUnit(col: seq<real>, i: nat)
    requires i < |col|
    requires forall k :: 0 <= k < |col| ==> col[k] >= 0.0
    requires Sum(col) > 0.0
    ensures Clamp(Probability(col, i)).Finite?
    ensures 0.0 < Clamp(Probability(col, i)).value <= 1.0
  {
    EntryAtMostSum(col, i);
    QuotientBetween(col[i], Sum(col), 0.0, 1.0);
  }

  /** For a logarithm that is not positive on (0, 1], as log2 is not, every
      clamped share of a non-negative column with positive sum adds a term
      of at most 0, so the accumulator never rises above 0. */
  lemma {:induction false} EntropySumNonPositive(col: seq<real>, k: nat, log2: real -> real)
    requires k <= |col|
    requires forall i :: 0 <= i < |col| ==> col[i] >= 0.0
    requires Sum(col) > 0.0
    requires forall p :: 0.0 < p <= 1.0 ==> log2(p) <= 0.0
    ensures EntropySum(col, k, log2).Finite? && EntropySum(col, k, log2).value <= 0.0
  {
    if k > 0 {
      EntropySumNonPositive(col, k - 1, log2);
      ClampedProbabilityInUnit(col, k - 1);
    }
  }

  /** Under the same logarithm, and a positive normaliser
      `log2(fmax + 1 - fmin)`, the spectral entropy of a non-negative column
      with positive sum is finite and at least 0. */
  lemma EntropyNonNegative(col: seq<real>, fmin: int, fmax: int, log2: real -> real)
    requires forall i :: 0 <= i < |col| ==> col[i] >= 0.0
    requires Sum(col) > 0.0
    requires forall p :: 0.0 < p <= 1.0 ==> log2(p) <= 0.0
    requires log2((fmax + 1 - fmin) as real) > 0.0
    ensures Entropy(col, fmin, fmax, log2).Finite? && Entropy(col, fmin, fmax, log2).value >= 0.0
  {
    EntropySumNonPositive(col, |col|, log2);
    var a := -EntropySum(col, |col|, log2).value;
    var norm := log2((fmax + 1 - fmin) as real);
    QuotientBetween(a, norm, 0.0, a / norm);
  }

  /** `pse`: for every row i, adds `p * log2(p)` of the clamped shares
      `spg[i, :] / np.sum(spg, axis=0)` to the per-column accumulator, then
      normalises. */
  method PSE(spg: array2<real>, fmin: int, fmax: int, log2: real -> real) returns (se: array<Float>)
    ensures fresh(se)
    ensures se[..] == Entropies(Columns(spg), fmin, fmax, log2)
  {
    var cols := Columns(spg);
    var acc := new Float[spg.Length1](_ => Finite(0.0));
    for i := 0 to spg.Length0
      invariant forall j :: 0 <= j < acc.Length ==> acc[j] == EntropySum(cols[j], i, log2)
    {
      forall j | 0 <= j < acc.Length {
        acc[j] := FAdd(acc[j], PLogP(Clamp(Probability(cols[j], i)), log2));
      }
    }
    se := new Float[acc.Length](_ => NonFinite);
    var norm := log2((fmax + 1 - fmin) as real);
    forall j | 0 <= j < se.Length {
      se[j] := FDiv(FNeg(acc[j]), norm);
    }
    assert forall j :: 0 <= j < se.Length ==> se[j] == Entropy(cols[j], fmin, fmax, log2);
  }
}
