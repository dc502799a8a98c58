/** The framing rule shared by the short-time Fourier transform (stft in
    signal_processing/signal.py) and the zero-crossing rate (zero_crossing in
    signal_processing/feature_extraction.py). Consecutive frames of `winsize`
    samples share `overlaps = int(winsize * overlap)` samples, so frame i
    starts at `shift * i` with `shift = winsize - overlaps`, and there are
    `int((len(x) - overlaps) / shift)` of them. */
module Framing {
  import opened Numeric

  /** The documented domain of the overlap fraction. */
  predicate ValidOverlap(overlap: real)
  {
    0.0 <= overlap < 1.0
  }

  /** `int(winsize * overlap)`: the samples two consecutive frames share. */
  function Overlaps(winsize: nat, overlap: real): (ov: nat)
    requires ValidOverlap(overlap)
    ensures ov <= winsize && (winsize > 0 ==> ov < winsize)
  {
    var p := winsize as real * overlap;
    assert 0.0 <= p <= winsize as real;
    assert winsize > 0 ==> p < winsize as real by {
      if winsize > 0 {
        assert winsize as real * (1.0 - overlap) > 0.0;
      }
    }
    Trunc(p)
  }

  /** `winsize - overlaps`: the hop between the starts of consecutive frames. */
  function Shift(winsize: nat, overlap: real): (s: nat)
    requires ValidOverlap(overlap)
    ensures s + Overlaps(winsize, overlap) == winsize
    ensures s > 0 <==> winsize > 0
  {
    winsize - Overlaps(winsize, overlap)
  }

  /** The number of frames, `int((n - overlaps) / (winsize - overlaps))`:
      the whole hops that fit into the samples after the first overlap, and
      zero or negative when there are fewer samples than that overlap. */
  function FrameCount(n: nat, winsize: nat, overlap: real): (c: int)
    requires ValidOverlap(overlap) && winsize > 0
    ensures var ov, s := Overlaps(winsize, overlap), Shift(winsize, overlap);
            n >= ov ==> c >= 0 && c * s + ov <= n < c * s + s + ov
    ensures var ov, s := Overlaps(winsize, overlap), Shift(winsize, overlap);
            n < ov ==> c <= 0 && c * s - s + ov < n
  {
    TruncDiv(n - Overlaps(winsize, overlap), Shift(winsize, overlap))
  }

  /** The integer frame count is exactly what Python computes through a
      float division followed by int(). */
  lemma FrameCountExact(n: nat, winsize: nat, overlap: real)
    requires ValidOverlap(overlap) && winsize > 0
    ensures FrameCount(n, winsize, overlap)
         == Trunc((n - Overlaps(winsize, overlap)) as real / Shift(winsize, overlap) as real)
  {
    TruncDivExact(n - Overlaps(winsize, overlap), Shift(winsize, overlap));
  }

  /** Frame i lies wholly inside a signal of n samples exactly when i is
      below the frame count: every counted frame is full and in bounds, and
      the trailing samples that cannot fill another frame are dropped. */
  lemma FrameFits(n: nat, winsize: nat, overlap: real, i: nat)
    requires ValidOverlap(overlap) && winsize > 0
    ensures i < FrameCount(n, winsize, overlap) <==> Shift(winsize, overlap) * i + winsize <= n
  {
    var ov, s := Overlaps(winsize, overlap), Shift(winsize, overlap);
    if n - ov >= 0 {
      AtMostQuotient(n - ov, s, i + 1);
      assert (i + 1) * s == s * i + s;
    } else {
      assert FrameCount(n, winsize, overlap) <= 0;
      assert s * i >= 0;
    }
  }

  /** The frame count is negative (numpy then refuses to allocate the output)
      exactly when the signal plus one hop is no longer than the overlap. */
  lemma FrameCountNegative(n: nat, winsize: nat, overlap: real)
    requires ValidOverlap(overlap) && winsize > 0
    ensures FrameCount(n, winsize, overlap) < 0 <==> n + Shift(winsize, overlap) <= Overlaps(winsize, overlap)
  {
    var ov, s := Overlaps(winsize, overlap), Shift(winsize, overlap);
    if n - ov < 0 {
      AtMostQuotient(ov - n, s, 1);
    }
  }

  /** Frame i of x: `x[shift * i : shift * i + winsize]`. */
  function Frame(x: seq<real>, winsize: nat, overlap: real, i: nat): (frame: seq<real>)
    requires ValidOverlap(overlap) && winsize > 0
    requires i < FrameCount(|x|, winsize, overlap)
    ensures Shift(winsize, overlap) * i + winsize <= |x|
    ensures |frame| == winsize
    ensures forall k :: 0 <= k < winsize ==> frame[k] == x[Shift(winsize, overlap) * i + k]
  {
    FrameFits(|x|, winsize, overlap, i);
    var start := Shift(winsize, overlap) * i;
    x[start .. start + winsize]
  }

  /** With the defaults (16-sample frames, 92% overlap) frames share 14
      samples, hop by 2, and 640 samples give 313 frames. */
  lemma DefaultFraming()
    ensures ValidOverlap(0.92)
    ensures Overlaps(16, 0.92) == 14 && Shift(16, 0.92) == 2
    ensures FrameCount(640, 16, 0.92) == 313
  {
    assert 16.0 * 0.92 == 14.72;
    assert 14.72.Floor == 14;
  }
}
