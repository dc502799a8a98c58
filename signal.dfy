/** signal_processing/signal.py: the numeric difference of a signal and the
    magnitude spectrogram of its short-time Fourier transform. */
module Signal {
  import opened Numeric
  import opened Framing

  /** `diff`: the forward difference `[x[i+1] - x[i] for i in range(len(x) - 1)]`. */
  function Diff(x: seq<real>): (d: seq<real>)
    ensures |d| == if |x| == 0 then 0 else |x| - 1
    ensures forall i :: 0 <= i < |d| ==> d[i] == x[i + 1] - x[i]
  {
    seq(if |x| == 0 then 0 else |x| - 1, i requires 0 <= i < |x| - 1 => x[i + 1] - x[i])
  }

  /** Summing the differences up to k recovers sample k from the first
      sample: the difference loses only the starting value. */
  lemma {:induction false} DiffReconstructs(x: seq<real>, k: nat)
    requires k < |x|
    ensures k <= |Diff(x)| && x[k] == x[0] + Sum(Diff(x)[..k])
  {
    if k > 0 {
      DiffReconstructs(x, k - 1);
      var d := Diff(x);
      assert d[..k][..k - 1] == d[..k - 1];
      assert Sum(d[..k]) == Sum(d[..k - 1]) + d[k - 1];
    }
  }

  /** The differences of a non-empty signal telescope to last minus first. */
  lemma DiffTelescopes(x: seq<real>)
    requires |x| > 0
    ensures Sum(Diff(x)) == x[|x| - 1] - x[0]
  {
    DiffReconstructs(x, |x| - 1);
    assert Diff(x)[..|x| - 1] == Diff(x);
  }

  /** The repository's own example: the differences of [2, 3, 4] sum to 2. */
  lemma DiffExample()
    ensures Sum(Diff([2.0, 3.0, 4.0])) == 2.0
  {
    DiffTelescopes([2.0, 3.0, 4.0]);
  }

  /** A spectral magnitude, `np.abs` of a complex FFT bin. */
  type Magnitude = r: real | r >= 0.0

  /** `int(n / 2 + 1)`: the rows of the spectrogram of an n-point transform.
      It is positive for every valid n, zero for n from -3 to -1, and
      negative below that. */
  function Bins(n: int): (b: int)
    ensures b > 0 <==> n >= 0
    ensures b == 0 <==> -3 <= n <= -1
    ensures b < 0 <==> n <= -4
  {
    TruncDiv(n + 2, 2)
  }

  /** The integer form of Bins agrees with Python's float expression, and
      keeps the `n // 2 + 1` non-negative frequencies of an n-point FFT. */
  lemma BinsExact(n: int)
    ensures Bins(n) == Trunc(n as real / 2.0 + 1.0)
    ensures n >= 0 ==> Bins(n) == n / 2 + 1
  {
    TruncDivExact(n + 2, 2);
    assert (n + 2) as real / 2 as real == n as real / 2.0 + 1.0;
  }

  /** The n-point input `np.fft.fft(s, n)` transforms: s cropped to n
      samples, or padded with zeros up to n. */
  function PadOrCrop(s: seq<real>, n: nat): (r: seq<real>)
    ensures |r| == n
    ensures forall i :: 0 <= i < n ==> r[i] == if i < |s| then s[i] else 0.0
  {
    if n <= |s| then s[..n] else s + seq(n - |s|, _ => 0.0)
  }

  /** `np.hamming(winsize) * frame`, for a window given by its coefficients. */
  function Windowed(window: seq<real>, frame: seq<real>): (r: seq<real>)
    requires |window| == |frame|
    ensures |r| == |frame| && forall i :: 0 <= i < |r| ==> r[i] == window[i] * frame[i]
  {
    seq(|frame|, i requires 0 <= i < |frame| => window[i] * frame[i])
  }

  /** The modulus of the discrete Fourier transform yields one bin per input sample. */
  ghost predicate KeepsLength(fftAbs: seq<real> -> seq<Magnitude>)
  {
    forall s: seq<real> :: |fftAbs(s)| == |s|
  }

  /** One spectrogram column: the first `nfft // 2 + 1` magnitudes of the
      nfft-point transform of the windowed frame. */
  function FrameSpectrum(frame: seq<real>, hamming: seq<real>, nfft: int,
                         fftAbs: seq<real> -> seq<Magnitude>): (bins: seq<real>)
    requires |hamming| == |frame| && nfft >= 1 && KeepsLength(fftAbs)
    ensures |bins| == nfft / 2 + 1
    ensures forall i :: 0 <= i < |bins| ==> bins[i] >= 0.0
  {
    var amp := fftAbs(PadOrCrop(Windowed(hamming, frame), nfft));
    BinsExact(|amp|);
    amp[..Bins(|amp|)]
  }

  /** A window shorter than the signal always yields at least one frame. */
  lemma AtLeastOneFrame(n: nat, winsize: nat, overlap: real)
    requires ValidOverlap(overlap) && 0 < winsize < n
    ensures FrameCount(n, winsize, overlap) >= 1
  {
    FrameFits(n, winsize, overlap, 0);
  }

  /** With the defaults (winsize 16, overlap 0.92, nfft 128) a 640-sample
      signal gives a 65 x 313 spectrogram. */
  lemma DefaultSpectrogramShape()
    ensures ValidOverlap(0.92)
    ensures Bins(128) == 65 && FrameCount(640, 16, 0.92) == 313
  {
    DefaultFraming();
  }

  /** `stft`: asserts that the window is shorter than the signal, allocates a
      zero spectrogram of `int(nfft / 2 + 1)` rows and one column per frame
      (at least one, by the assertion), reads the column count off row 0,
      and overwrites column j with the spectrum of frame j. The Hamming
      coefficients and the FFT modulus are parameters. */
  method Stft(x: seq<real>, winsize: nat, overlap: real, nfft: int,
              hamming: seq<real>, fftAbs: seq<real> -> seq<Magnitude>)
    returns (r: Result<array2<real>>)
    requires ValidOverlap(overlap)
    requires |hamming| == winsize
    requires KeepsLength(fftAbs)
    ensures !(winsize < |x|) ==> r == Raise(AssertionError)
    ensures winsize < |x| && winsize == 0 ==> r == Raise(ZeroDivisionError)
    ensures 0 < winsize < |x| && nfft <= -4 ==> r == Raise(ValueError)
    ensures 0 < winsize < |x| && -3 <= nfft <= -1 ==> r == Raise(IndexError)
    ensures 0 < winsize < |x| && nfft == 0 ==> r == Raise(ValueError)
    ensures 0 < winsize < |x| && nfft >= 1 ==>
      && r.Ok? && fresh(r.value)
      && r.value.Length0 == nfft / 2 + 1
      && r.value.Length1 == FrameCount(|x|, winsize, overlap)
      && forall i, j :: 0 <= i < r.value.Length0 && 0 <= j < r.value.Length1 ==>
           && r.value[i, j] == FrameSpectrum(Frame(x, winsize, overlap, j), hamming, nfft, fftAbs)[i]
           && r.value[i, j] >= 0.0
  {
    if !(winsize < |x|) {
      return Raise(AssertionError);
    }
    var overlaps := Overlaps(winsize, overlap);
    if winsize - overlaps == 0 {
      return Raise(ZeroDivisionError);
    }
    AtLeastOneFrame(|x|, winsize, overlap);
    var rows := Bins(nfft);
    if rows < 0 {
      // np.zeros refuses a negative dimension.
      return Raise(ValueError);
    }
    if rows == 0 {
      // `spg[0, :]` indexes a spectrogram without rows.
      return Raise(IndexError);
    }
    if nfft < 1 {
      // np.fft.fft refuses a zero transform length; it is first called on
      // frame 0, and there is always a frame 0 here.
      return Raise(ValueError);
    }
    BinsExact(nfft);
    var cols := TruncDiv(|x| - overlaps, winsize - overlaps);
    var spg := new real[rows, cols]((_, _) => 0.0);
    for j := 0 to cols
      invariant forall i, k :: 0 <= i < rows && 0 <= k < j ==>
        spg[i, k] == FrameSpectrum(Frame(x, winsize, overlap, k), hamming, nfft, fftAbs)[i]
    {
      var column := FrameSpectrum(Frame(x, winsize, overlap, j), hamming, nfft, fftAbs);
      forall i | 0 <= i < rows {
        spg[i, j] := column[i];
      }
    }
    return Ok(spg);
  }
}
