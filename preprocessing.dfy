/** machine_learning/preprocessing.py: whole-array rescaling (z-score and
    min-max, over the flattened array) and the cutting of a series into
    segments of equal length. */
module Preprocessing {
  import opened Numeric

  // ---------------------------------------------------------------------- zscore

  /** `x.mean()`: lies between the smallest and the largest entry. */
  function Mean(x: seq<real>): (m: real)
    requires |x| > 0
    ensures Min(x) <= m <= Max(x)
  {
    SumBetween(x, Min(x), Max(x));
    QuotientBetween(Sum(x), |x| as real, Min(x), Max(x));
    Sum(x) / |x| as real
  }

  /** A sum of n entries within [lo, hi] lies within [n * lo, n * hi]. */
  lemma {:induction false} SumBetween(x: seq<real>, lo: real, hi: real)
    requires forall i :: 0 <= i < |x| ==> lo <= x[i] <= hi
    ensures lo * |x| as real <= Sum(x) <= hi * |x| as real
  {
    if |x| > 0 {
      var n := |x| - 1;
      SumBetween(x[..n], lo, hi);
      assert lo * |x| as real == lo * n as real + lo;
      assert hi * |x| as real == hi * n as real + hi;
    }
  }

  /** `zscore` with `axis=None`: `(x - x.mean()) / sd`, where sd stands for
      `np.std(x)`. An empty array stays empty. */
  function ZScore(x: seq<real>, sd: real): (zs: seq<Float>)
    ensures |zs| == |x|
    ensures forall i :: 0 <= i < |x| ==> (zs[i].NonFinite? <==> sd == 0.0)
  {
    if |x| == 0 then [] else seq(|x|, i requires 0 <= i < |x| => Divide(x[i] - Mean(x), sd))
  }

  /** Standardised data has mean exactly 0 for any non-zero divisor. */
  lemma ZScoreMeanZero(x: seq<real>, sd: real)
    requires |x| > 0 && sd != 0.0
    ensures AllFinite(ZScore(x, sd)) && Mean(Values(ZScore(x, sd))) == 0.0
  {
    var zs := Values(ZScore(x, sd));
    var m := Mean(x);
    assert |x| as real * m == Sum(x);
    CentredSumZero(x, m, sd, zs);
  }

  /** Scaled deviations from the mean of x sum to 0. */
  lemma CentredSumZero(x: seq<real>, m: real, sd: real, zs: seq<real>)
    requires sd != 0.0 && |zs| == |x| && |x| as real * m == Sum(x)
    requires forall i :: 0 <= i < |x| ==> zs[i] == (x[i] - m) / sd
    ensures Sum(zs) == 0.0
  {
    var centred := seq(|x|, i requires 0 <= i < |x| => x[i] - m);
    SumShifted(x, centred, m);
    forall i | 0 <= i < |x|
      ensures zs[i] == centred[i] * (1.0 / sd)
    {
      assert zs[i] == centred[i] / sd;
    }
    SumScaled(centred, zs, 1.0 / sd);
  }

  /** The z-score is undone by scaling back and adding the mean. */
  lemma ZScoreInverse(x: seq<real>, sd: real, i: nat)
    requires i < |x| && sd != 0.0
    ensures ZScore(x, sd)[i].Finite?
    ensures x[i] == Mean(x) + ZScore(x, sd)[i].value * sd
  {
  }

  // --------------------------------------------------------------------- min_max

  /** `x.min()`, named over the recursive Least (see Numeric.Sum). */
  function Min(x: seq<real>): (m: real)
    requires |x| > 0
    ensures forall i :: 0 <= i < |x| ==> m <= x[i]
  {
    Least(x)
  }

  /** `x.max()`, named over the recursive Greatest. */
  function Max(x: seq<real>): (m: real)
    requires |x| > 0
    ensures forall i :: 0 <= i < |x| ==> x[i] <= m
  {
    Greatest(x)
  }

  /** The least entry of a non-empty array, scanning from the left. */
  function Least(x: seq<real>): (m: real)
    requires |x| > 0
    ensures forall i :: 0 <= i < |x| ==> m <= x[i]
  {
    if |x| == 1 then x[0]
    else
      var m := Least(x[..|x| - 1]);
      if x[|x| - 1] < m then x[|x| - 1] else m
  }

  /** The greatest entry of a non-empty array, scanning from the left. */
  function Greatest(x: seq<real>): (m: real)
    requires |x| > 0
    ensures forall i :: 0 <= i < |x| ==> x[i] <= m
  {
    if |x| == 1 then x[0]
    else
      var m := Greatest(x[..|x| - 1]);
      if x[|x| - 1] > m then x[|x| - 1] else m
  }

  /** `min_max` with `axis=None`: `(x - x.min()) / (x.max() - x.min())`.
      numpy refuses the minimum of an empty array. */
  function MinMax(x: seq<real>): (r: Result<seq<Float>>)
    ensures r.Raise? <==> |x| == 0
    ensures r.Raise? ==> r.error == ValueError
    ensures r.Ok? ==> |r.value| == |x|
  {
    if |x| == 0 then Raise(ValueError)
    else Ok(seq(|x|, i requires 0 <= i < |x| => Divide(x[i] - Min(x), Max(x) - Min(x))))
  }

  /** The minimum and the maximum are entries of the array. */
  lemma MinMaxAttained(x: seq<real>)
    requires |x| > 0
    ensures exists i :: 0 <= i < |x| && x[i] == Min(x)
    ensures exists i :: 0 <= i < |x| && x[i] == Max(x)
  {
    LeastGreatestAttained(x);
  }

  lemma {:induction false} LeastGreatestAttained(x: seq<real>)
    requires |x| > 0
    ensures exists i :: 0 <= i < |x| && x[i] == Least(x)
    ensures exists i :: 0 <= i < |x| && x[i] == Greatest(x)
  {
    if |x| == 1 {
      assert x[0] == Least(x) && x[0] == Greatest(x);
    } else {
      var n := |x| - 1;
      LeastGreatestAttained(x[..n]);
      var a :| 0 <= a < n && x[..n][a] == Least(x[..n]);
      var b :| 0 <= b < n && x[..n][b] == Greatest(x[..n]);
      assert x[a] == x[..n][a] && x[b] == x[..n][b];
      var lo := if x[n] < Least(x[..n]) then n else a;
      var hi := if x[n] > Greatest(x[..n]) then n else b;
      assert x[lo] == Least(x) && x[hi] == Greatest(x);
    }
  }

  /** A lower bound that some entry attains is the minimum, and dually. */
  lemma AttainedBounds(v: seq<real>, lo: real, hi: real)
    requires |v| > 0
    requires forall i :: 0 <= i < |v| ==> lo <= v[i] <= hi
    requires (exists i :: 0 <= i < |v| && v[i] == lo) && (exists i :: 0 <= i < |v| && v[i] == hi)
    ensures Min(v) == lo && Max(v) == hi
  {
    MinMaxAttained(v);
  }

  /** With a proper range every output lies in [0, 1], the minimum maps to
      0 and the maximum to 1, so the output range is exactly 1. */
  lemma MinMaxUnitRange(x: seq<real>)
    requires |x| > 0 && Max(x) > Min(x)
    ensures MinMax(x).Ok? && AllFinite(MinMax(x).value)
    ensures var v := Values(MinMax(x).value);
            && (forall i :: 0 <= i < |v| ==> 0.0 <= v[i] <= 1.0)
            && (forall i :: 0 <= i < |x| && x[i] == Min(x) ==> v[i] == 0.0)
            && (forall i :: 0 <= i < |x| && x[i] == Max(x) ==> v[i] == 1.0)
            && Min(v) == 0.0 && Max(v) == 1.0 && Max(v) - Min(v) == 1.0
  {
    var lo, hi := Min(x), Max(x);
    var r := MinMax(x).value;
    assert hi - lo != 0.0;
    assert forall i :: 0 <= i < |x| ==> r[i] == Divide(x[i] - lo, hi - lo);
    assert AllFinite(r);
    var v := Values(r);
    forall i | 0 <= i < |v|
      ensures 0.0 <= v[i] <= 1.0
    {
      QuotientBetween(x[i] - lo, hi - lo, 0.0, 1.0);
    }
    forall i | 0 <= i < |x| && x[i] == lo
      ensures v[i] == 0.0
    {
      DivideEnds(hi - lo);
    }
    forall i | 0 <= i < |x| && x[i] == hi
      ensures v[i] == 1.0
    {
      DivideEnds(hi - lo);
    }
    MinMaxAttained(x);
    var a :| 0 <= a < |x| && x[a] == lo;
    var b :| 0 <= b < |x| && x[b] == hi;
    AttainedBounds(v, 0.0, 1.0);
  }

  lemma DivideEnds(d: real)
    requires d != 0.0
    ensures Divide(0.0, d) == Finite(0.0) && Divide(d, d) == Finite(1.0)
  {
  }

  /** Rescaling keeps the order of the samples, in both directions. */
  lemma MinMaxMonotone(x: seq<real>, i: nat, j: nat)
    requires i < |x| && j < |x| && Max(x) > Min(x)
    ensures MinMax(x).Ok? && MinMax(x).value[i].Finite? && MinMax(x).value[j].Finite?
    ensures x[i] <= x[j] <==> MinMax(x).value[i].value <= MinMax(x).value[j].value
  {
    var lo, hi := Min(x), Max(x);
    assert MinMax(x).value[i] == Divide(x[i] - lo, hi - lo);
    assert MinMax(x).value[j] == Divide(x[j] - lo, hi - lo);
    assert hi - lo != 0.0;
    DivideMonotone(x[i] - lo, x[j] - lo, hi - lo);
  }

  lemma DivideMonotone(a: real, b: real, d: real)
    requires d > 0.0
    ensures a / d <= b / d <==> a <= b
  {
    if a <= b {
      MulMonotone(a, b, 1.0 / d);
      assert a / d == a * (1.0 / d) && b / d == b * (1.0 / d);
    }
    if a / d <= b / d {
      MulMonotone(a / d, b / d, d);
      assert (a / d) * d == a && (b / d) * d == b;
    }
  }

  /** Rescaling is undone by `min + r * (max - min)`. */
  lemma MinMaxInverse(x: seq<real>, i: nat)
    requires i < |x| && Max(x) > Min(x)
    ensures MinMax(x).Ok? && MinMax(x).value[i].Finite?
    ensures x[i] == Min(x) + MinMax(x).value[i].value * (Max(x) - Min(x))
  {
    var lo, hi := Min(x), Max(x);
    assert MinMax(x).value[i] == Divide(x[i] - lo, hi - lo);
    assert hi - lo != 0.0;
  }

  /** A constant array has no range: numpy's 0 / 0 makes every entry NaN. */
  lemma MinMaxConstant(x: seq<real>)
    requires |x| > 0 && Max(x) == Min(x)
    ensures MinMax(x).Ok? && forall i :: 0 <= i < |x| ==> MinMax(x).value[i].NonFinite?
  {
    var lo, hi := Min(x), Max(x);
    assert forall i :: 0 <= i < |x| ==> MinMax(x).value[i] == Divide(x[i] - lo, hi - lo);
  }

  // ---------------------------------------------------------------------- seqseg

  /** Segment n of x for segments of L samples, `x[L * n : L * (n + 1)]`. */
  function Segment(x: seq<real>, L: nat, n: nat): (s: seq<real>)
    requires L > 0 && n < |x| / L
    ensures L * n + L <= |x|
    ensures |s| == L && forall k :: 0 <= k < L ==> s[k] == x[L * n + k]
  {
    AtMostQuotient(|x|, L, n + 1);
    assert (n + 1) * L == L * n + L;
    x[L * n .. L * n + L]
  }

  /** `seqseg`: `len(x) // L` consecutive segments of `L = length * fs`
      samples. L = 0 divides by zero; a negative L gives no segment. */
  function SeqSeg(x: seq<real>, length: int, fs: int): (r: Result<seq<seq<real>>>)
    ensures r.Raise? <==> length * fs == 0
    ensures r.Raise? ==> r.error == ZeroDivisionError
    ensures length * fs < 0 ==> r == Ok([])
    ensures length * fs > 0 ==>
      && r.Ok? && |r.value| == |x| / (length * fs)
      && forall n :: 0 <= n < |r.value| ==> r.value[n] == Segment(x, length * fs, n)
  {
    var L := length * fs;
    if L == 0 then Raise(ZeroDivisionError)
    else if L < 0 then Ok([])
    else Ok(seq(|x| / L, n requires 0 <= n < |x| / L => Segment(x, L, n)))
  }

  /** The segments laid end to end. */
  function Concat(rows: seq<seq<real>>): seq<real>
  {
    if |rows| == 0 then [] else Concat(rows[..|rows| - 1]) + rows[|rows| - 1]
  }

  /** The segments, laid end to end, are the signal up to the last full
      segment. */
  lemma SeqSegConcat(x: seq<real>, length: int, fs: int)
    requires length * fs > 0
    ensures var L := length * fs;
            && SeqSeg(x, length, fs).Ok?
            && L * (|x| / L) <= |x|
            && Concat(SeqSeg(x, length, fs).value) == x[..L * (|x| / L)]
  {
    var rows := SeqSeg(x, length, fs).value;
    SegmentsPrefix(x, length * fs, rows, |rows|);
    assert rows[..|rows|] == rows;
  }

  /** Fewer than one segment's worth of trailing samples is dropped: the
      segments cover all of x but a tail shorter than `length * fs`. */
  lemma SeqSegDropsLessThanSegment(x: seq<real>, length: int, fs: int)
    requires length * fs > 0
    ensures SeqSeg(x, length, fs).Ok?
    ensures 0 <= |x| - |Concat(SeqSeg(x, length, fs).value)| < length * fs
  {
    var L := length * fs;
    SeqSegConcat(x, length, fs);
    assert |Concat(SeqSeg(x, length, fs).value)| == L * (|x| / L);
    RemainderBelow(|x|, L);
  }

  lemma {:induction false} SegmentsPrefix(x: seq<real>, L: nat, rows: seq<seq<real>>, m: nat)
    requires L > 0 && |rows| == |x| / L && m <= |rows|
    requires forall n :: 0 <= n < |rows| ==> rows[n] == Segment(x, L, n)
    ensures L * m <= |x| && Concat(rows[..m]) == x[..L * m]
  {
    if m == 0 {
      assert rows[..0] == [];
    } else {
      SegmentsPrefix(x, L, rows, m - 1);
      var start := L * (m - 1);
      assert L * m == start + L;
      var seg := Segment(x, L, m - 1);
      assert seg == x[start..start + L];
      ConcatPrefix(rows, m);
      SplitPrefix(x, start, start + L);
    }
  }

  /** Concatenating the first m rows appends row m - 1 to the first m - 1. */
  lemma ConcatPrefix(rows: seq<seq<real>>, m: nat)
    requires 0 < m <= |rows|
    ensures Concat(rows[..m]) == Concat(rows[..m - 1]) + rows[m - 1]
  {
    assert rows[..m][..m - 1] == rows[..m - 1];
  }

  lemma SplitPrefix(x: seq<real>, start: nat, stop: nat)
    requires start <= stop <= |x|
    ensures x[..stop] == x[..start] + x[start..stop]
  {
  }

  /** The documented example: 100 samples in segments of 10 s at 1 Hz give
      10 segments of 10 samples. */
  lemma SeqSegExample(x: seq<real>)
    requires |x| == 100
    ensures SeqSeg(x, 10, 1).Ok? && |SeqSeg(x, 10, 1).value| == 10
    ensures forall n :: 0 <= n < 10 ==> |SeqSeg(x, 10, 1).value[n]| == 10
  {
  }
}
