/** Exact-arithmetic stand-ins for the Python and numpy scalar operations the
    pipeline relies on: float64 results that may be NaN or infinite, the
    exceptions the code can raise, Python's truncating int(), numpy.sign,
    sums and dot products, and the column view of a 2-D array. */
module Numeric {

  /** The Python exceptions raised on the paths the model covers. */
  datatype Exception = AssertionError | ZeroDivisionError | ValueError | IndexError

  /** A call either returns a value or raises. */
  datatype Result<T> = Ok(value: T) | Raise(error: Exception)

  /** A float64: an exact real, or the NaN or infinity that numpy produces
      (with only a warning) when it divides by zero. */
  datatype Float = Finite(value: real) | NonFinite

  /** numpy's `a / b` on floats. */
  function Divide(a: real, b: real): (q: Float)
    ensures q.NonFinite? <==> b == 0.0
    ensures q.Finite? ==> q.value * b == a
  {
    if b == 0.0 then NonFinite else Finite(a / b)
  }

  /** Float addition, multiplication, negation and division by a real;
      a non-finite operand gives a non-finite result. */
  function FAdd(a: Float, b: Float): Float
  {
    if a.Finite? && b.Finite? then Finite(a.value + b.value) else NonFinite
  }

  function FNeg(a: Float): Float
  {
    if a.Finite? then Finite(-a.value) else NonFinite
  }

  function FDiv(a: Float, b: real): Float
  {
    if a.Finite? then Divide(a.value, b) else NonFinite
  }

  predicate AllFinite(s: seq<Float>)
  {
    forall i :: 0 <= i < |s| ==> s[i].Finite?
  }

  /** The real values of a sequence of finite floats. */
  function Values(s: seq<Float>): (r: seq<real>)
    requires AllFinite(s)
    ensures |r| == |s| && forall i :: 0 <= i < |s| ==> s[i] == Finite(r[i])
  {
    seq(|s|, i requires 0 <= i < |s| => s[i].value)
  }

  /** Python's int() on a float: drops the fraction, rounding toward zero. */
  function Trunc(r: real): (t: int)
    ensures r >= 0.0 ==> t >= 0 && t as real <= r < t as real + 1.0
    ensures r < 0.0 ==> t <= 0 && t as real - 1.0 < r <= t as real
  {
    if r >= 0.0 then r.Floor else -((-r).Floor)
  }

  /** int(a / b) for integers a and b > 0, in integer arithmetic: the
      quotient rounded toward zero, unlike the flooring `a // b`. */
  function TruncDiv(a: int, b: int): (q: int)
    requires b > 0
    ensures a >= 0 ==> q >= 0 && q * b <= a < q * b + b
    ensures a < 0 ==> q <= 0 && q * b - b < a <= q * b
  {
    if a >= 0 then
      AtMostQuotient(a, b, a / b);
      AtMostQuotient(a, b, a / b + 1);
      assert (a / b + 1) * b == a / b * b + b;
      a / b
    else
      var m := (-a) / b;
      AtMostQuotient(-a, b, m);
      AtMostQuotient(-a, b, m + 1);
      assert (m + 1) * b == m * b + b;
      assert -m * b == -(m * b);
      -m
  }

  lemma FloorOfQuotient(a: nat, b: int)
    requires b > 0
    ensures (a as real / b as real).Floor == a / b
  {
    var q, m := a / b, a % b;
    assert a == q * b + m && 0 <= m < b;
    assert (a as real) == (q as real) * (b as real) + (m as real);
    assert a as real / b as real == q as real + m as real / b as real;
    assert 0.0 <= m as real / b as real < 1.0;
  }

  /** Python's int() of the true quotient of two integers agrees with the
      integer form, so frame counts computed through floats are exact. */
  lemma TruncDivExact(a: int, b: int)
    requires b > 0
    ensures TruncDiv(a, b) == Trunc(a as real / b as real)
  {
    if a >= 0 {
      FloorOfQuotient(a, b);
    } else {
      FloorOfQuotient(-a, b);
      assert -(a as real / b as real) == (-a) as real / b as real;
    }
  }

  /** numpy.sign. */
  function Sign(v: real): (s: int)
    ensures -1 <= s <= 1
    ensures s == 0 <==> v == 0.0
    ensures s > 0 <==> v > 0.0
  {
    if v > 0.0 then 1 else if v < 0.0 then -1 else 0
  }

  function Abs(k: int): nat
  {
    if k < 0 then -k else k
  }

  function Square(v: real): (sq: real)
    ensures sq >= 0.0
  {
    v * v
  }

  // Sum and Dot (and Min and Max in Preprocessing) name recursive
  // definitions without recursing themselves, so a sum occurring inside a
  // product is one opaque term to the solver.

  /** numpy.sum of a 1-D array. */
  function Sum(s: seq<real>): real
  {
    SumLeft(s)
  }

  /** The sum, accumulated from the left. */
  function SumLeft(s: seq<real>): real
  {
    if |s| == 0 then 0.0 else SumLeft(s[..|s| - 1]) + s[|s| - 1]
  }

  /** numpy.sum(f * w) for an integer axis f and real weights w. */
  function Dot(f: seq<int>, w: seq<real>): real
    requires |f| == |w|
  {
    DotLeft(f, w)
  }

  /** The weighted sum, accumulated from the left. */
  function DotLeft(f: seq<int>, w: seq<real>): real
    requires |f| == |w|
  {
    if |w| == 0 then 0.0 else DotLeft(f[..|w| - 1], w[..|w| - 1]) + f[|w| - 1] as real * w[|w| - 1]
  }

  /** Sum of a sequence scaled entry by entry. */
  lemma {:induction false} SumScaled(s: seq<real>, t: seq<real>, c: real)
    requires |t| == |s|
    requires forall i :: 0 <= i < |s| ==> t[i] == s[i] * c
    ensures Sum(t) == Sum(s) * c
  {
    if |s| > 0 {
      SumScaled(s[..|s| - 1], t[..|t| - 1], c);
    }
  }

  /** Sum of a sequence shifted entry by entry by a constant. */
  lemma {:induction false} SumShifted(s: seq<real>, t: seq<real>, c: real)
    requires |t| == |s|
    requires forall i :: 0 <= i < |s| ==> t[i] == s[i] - c
    ensures Sum(t) == Sum(s) - |s| as real * c
  {
    if |s| > 0 {
      SumShifted(s[..|s| - 1], t[..|t| - 1], c);
    }
  }

  /** Raising every axis value cannot lower a sum weighted by non-negative weights. */
  lemma {:induction false} DotMonotone(f: seq<int>, g: seq<int>, w: seq<real>)
    requires |f| == |g| == |w|
    requires forall i :: 0 <= i < |w| ==> f[i] <= g[i] && w[i] >= 0.0
    ensures Dot(f, w) <= Dot(g, w)
  {
    if |w| > 0 {
      var n := |w| - 1;
      DotMonotone(f[..n], g[..n], w[..n]);
      MulMonotone(f[n] as real, g[n] as real, w[n]);
    }
  }

  /** Weighting a constant axis gives the constant times the total weight. */
  lemma {:induction false} DotConstant(c: int, w: seq<real>)
    ensures Dot(seq(|w|, _ => c), w) == c as real * Sum(w)
  {
    if |w| > 0 {
      var n := |w| - 1;
      DotConstant(c, w[..n]);
      assert seq(|w|, _ => c)[..n] == seq(n, _ => c);
      assert c as real * Sum(w) == c as real * Sum(w[..n]) + c as real * w[n];
    }
  }

  /** A weighted sum of values in [lo, hi] with non-negative weights lies
      between lo and hi times the total weight. */
  lemma DotBetween(f: seq<int>, w: seq<real>, lo: int, hi: int)
    requires |f| == |w|
    requires forall i :: 0 <= i < |f| ==> lo <= f[i] <= hi
    requires forall i :: 0 <= i < |w| ==> w[i] >= 0.0
    ensures lo as real * Sum(w) <= Dot(f, w) <= hi as real * Sum(w)
  {
    DotMonotone(seq(|w|, _ => lo), f, w);
    DotMonotone(f, seq(|w|, _ => hi), w);
    DotConstant(lo, w);
    DotConstant(hi, w);
  }

  lemma MulMonotone(a: real, b: real, c: real)
    requires a <= b && c >= 0.0
    ensures a * c <= b * c
  {
    assert (b - a) * c >= 0.0;
    assert b * c - a * c == (b - a) * c;
  }

  /** Column j of a 2-D array, `a[:, j]`. */
  function Column(a: array2<real>, j: nat): (col: seq<real>)
    requires j < a.Length1
    reads a
    ensures |col| == a.Length0 && forall i :: 0 <= i < a.Length0 ==> col[i] == a[i, j]
  {
    seq(a.Length0, i requires 0 <= i < a.Length0 reads a => a[i, j])
  }

  /** The column-major view of a 2-D array: `Columns(a)[j] == a[:, j]`. */
  function Columns(a: array2<real>): (cols: seq<seq<real>>)
    reads a
    ensures |cols| == a.Length1
    ensures forall j :: 0 <= j < a.Length1 ==> cols[j] == Column(a, j)
  {
    seq(a.Length1, j requires 0 <= j < a.Length1 reads a => Column(a, j))
  }

  /** `k <= a // b` exactly when `k * b <= a`, for b > 0. */
  lemma AtMostQuotient(a: int, b: int, k: int)
    requires b > 0
    ensures k <= a / b <==> k * b <= a
  {
    var q, r := a / b, a % b;
    assert a == q * b + r && 0 <= r < b;
    if k <= q {
      var d := q - k;
      assert d * b >= 0;
      assert q * b == k * b + d * b;
    } else {
      var d := k - q - 1;
      assert d * b >= 0;
      assert k * b == q * b + b + d * b;
    }
  }

  /** What floor division leaves over is less than the divisor. */
  lemma RemainderBelow(a: nat, b: int)
    requires b > 0
    ensures 0 <= a - b * (a / b) < b
  {
    assert a == (a / b) * b + a % b;
  }

  /** Floor division is determined by its bracket. */
  lemma QuotientIs(a: int, b: int, q: int)
    requires b > 0 && q * b <= a < q * b + b
    ensures a / b == q
  {
    AtMostQuotient(a, b, q);
    AtMostQuotient(a, b, q + 1);
    assert (q + 1) * b == q * b + b;
  }

  /** A quotient by a positive real inherits bounds scaled by the divisor. */
  lemma QuotientBetween(a: real, s: real, lo: real, hi: real)
    requires s > 0.0 && lo * s <= a <= hi * s
    ensures lo <= a / s <= hi
  {
    assert (a / s) * s == a;
  }
}
