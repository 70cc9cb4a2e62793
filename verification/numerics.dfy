/** Python and NumPy primitives the pipeline leans on, stated over exact reals.

    Values that the source keeps as IEEE floats are `real` here; a NaN that
    marks a failed fit is `None`. */
module Numerics {

  datatype Option<+T> = None | Some(value: T)

  /** Python's `int()` applied to a float: truncation toward zero. */
  function Trunc(x: real): (r: int)
    ensures 0.0 <= x ==> r as real <= x < r as real + 1.0
    ensures x < 0.0 ==> r as real - 1.0 < x <= r as real
  {
    if x >= 0.0 then x.Floor else -((-x).Floor)
  }

  function Abs(x: real): (r: real)
    ensures r >= 0.0 && (r == x || r == -x)
  {
    if x < 0.0 then -x else x
  }

  /** `np.polyval(c, x)`: the coefficients run from the highest power down to
      the constant term, evaluated by Horner's rule. */
  function PolyVal(c: seq<real>, x: real): real
    decreases |c|
  {
    if c == [] then 0.0 else PolyVal(c[..|c| - 1], x) * x + c[|c| - 1]
  }

  function Zeros(k: nat): (z: seq<real>)
    ensures |z| == k && forall i :: 0 <= i < k ==> z[i] == 0.0
  {
    seq(k, _ => 0.0)
  }

  /** Leading zero coefficients do not change a polynomial's value. */
  lemma {:induction false} PolyValLeadingZeros(k: nat, c: seq<real>, x: real)
    ensures PolyVal(Zeros(k) + c, x) == PolyVal(c, x)
    decreases |c|
  {
    if c == [] {
      ZerosEvaluateToZero(k, x);
      assert Zeros(k) + c == Zeros(k);
    } else {
      var init := c[..|c| - 1];
      assert (Zeros(k) + c)[..|Zeros(k) + c| - 1] == Zeros(k) + init;
      PolyValLeadingZeros(k, init, x);
    }
  }

  lemma {:induction false} ZerosEvaluateToZero(k: nat, x: real)
    ensures PolyVal(Zeros(k), x) == 0.0
  {
    if k > 0 {
      assert Zeros(k)[..k - 1] == Zeros(k - 1);
      ZerosEvaluateToZero(k - 1, x);
    }
  }

  /** `np.arange(n)`. */
  function Range(n: nat): (r: seq<nat>)
    ensures |r| == n && forall i :: 0 <= i < n ==> r[i] == i
  {
    seq(n, i requires 0 <= i => i as nat)
  }

  /** `np.arange(lo, hi)` over integers: empty when `hi <= lo`. */
  function Arange(lo: int, hi: int): (r: seq<int>)
    ensures |r| == if hi <= lo then 0 else hi - lo
    ensures forall i :: 0 <= i < |r| ==> r[i] == lo + i
  {
    if hi <= lo then [] else seq(hi - lo, i => lo + i)
  }

  /** Where a bound of the Python slice `s[lo:hi]` lands on a sequence of
      length `n`: negative bounds count from the end, and bounds are clamped
      to `[0, n]`. */
  function SliceBound(i: int, n: nat): (r: nat)
    ensures r <= n
    ensures 0 <= i <= n ==> r == i
    ensures i > n ==> r == n
    ensures -(n as int) <= i < 0 ==> r == i + n
    ensures i < -(n as int) ==> r == 0
  {
    if i < 0 then (if i + n < 0 then 0 else i + n) else if i > n then n else i
  }

  /** NumPy integer indexing of an axis of length `n`: negative indices wrap
      once, anything else out of range raises `IndexError` (here `None`). */
  function NumpyIndex(i: int, n: nat): (r: Option<nat>)
    ensures r.Some? <==> -(n as int) <= i < n
    ensures r.Some? ==> r.value < n && (r.value == i || r.value == i + n)
  {
    if 0 <= i < n then Some(i) else if -(n as int) <= i < 0 then Some(i + n) else None
  }

  /** `np.nanargmax` on NaN-free data: the FIRST index of the maximum. */
  function ArgMaxFirst(s: seq<real>): (m: nat)
    requires |s| > 0
    ensures m < |s|
    ensures forall j :: 0 <= j < |s| ==> s[j] <= s[m]
    ensures forall j :: 0 <= j < m ==> s[j] < s[m]
    decreases |s|
  {
    if |s| == 1 then 0
    else
      var m := ArgMaxFirst(s[..|s| - 1]);
      if s[|s| - 1] > s[m] then |s| - 1 else m
  }

  function Sum(s: seq<real>): real
    decreases |s|
  {
    if s == [] then 0.0 else Sum(s[..|s| - 1]) + s[|s| - 1]
  }

  /** A sequence whose entries all equal `b` sums to `|s| * b`. */
  lemma {:induction false} SumConstant(s: seq<real>, b: real)
    requires forall i :: 0 <= i < |s| ==> s[i] == b
    ensures Sum(s) == |s| as real * b
    decreases |s|
  {
    if s != [] {
      SumConstant(s[..|s| - 1], b);
    }
  }

  /** `np.mean` of a non-empty sequence. */
  function Mean(s: seq<real>): real
    requires |s| > 0
  {
    Sum(s) / |s| as real
  }

  /** A rectangular image stored row by row: `img[r][c]` is row `r`,
      column `c`, with `h` rows and `w` columns. */
  ghost predicate IsGrid(img: seq<seq<real>>, h: nat, w: nat) {
    |img| == h && forall r :: 0 <= r < h ==> |img[r]| == w
  }

  /** `np.arange(n)[fmask]` when the mask has more than one entry, else every
      row: a one-element mask (the default `(1,)`) means "no mask". */
  function IlluminatedRows(n: nat, fmask: seq<nat>): (rows: seq<nat>)
    requires forall k :: 0 <= k < |fmask| ==> fmask[k] < n
    ensures forall k :: 0 <= k < |rows| ==> rows[k] < n
    ensures |fmask| > 1 ==> rows == fmask
    ensures |fmask| <= 1 ==> rows == Range(n)
  {
    if |fmask| > 1 then fmask else Range(n)
  }

  /** `min(s)` and `max(s)` of a non-empty sequence. */
  function MinOf(s: seq<nat>): (m: nat)
    requires |s| > 0
    ensures m in s && forall k :: 0 <= k < |s| ==> m <= s[k]
    decreases |s|
  {
    if |s| == 1 then s[0]
    else
      var m := MinOf(s[..|s| - 1]);
      if s[|s| - 1] < m then s[|s| - 1] else m
  }

  function MaxOf(s: seq<nat>): (m: nat)
    requires |s| > 0
    ensures m in s && forall k :: 0 <= k < |s| ==> s[k] <= m
    decreases |s|
  {
    if |s| == 1 then s[0]
    else
      var m := MaxOf(s[..|s| - 1]);
      if s[|s| - 1] > m then s[|s| - 1] else m
  }

  ghost predicate StrictlyAscending(s: seq<int>) {
    forall i, j :: 0 <= i < j < |s| ==> s[i] < s[j]
  }

  ghost predicate StrictlyDescending(s: seq<int>) {
    forall i, j :: 0 <= i < j < |s| ==> s[i] > s[j]
  }

  /** Appending an element above every entry keeps a sequence strictly
      ascending. */
  lemma AscendingAppend(s: seq<int>, c: int)
    requires StrictlyAscending(s)
    requires forall d :: d in s ==> d < c
    ensures StrictlyAscending(s + [c])
  {
    forall i, j | 0 <= i < j < |s| + 1 ensures (s + [c])[i] < (s + [c])[j] {
      if j == |s| {
        assert s[i] in s;
      }
    }
  }

  /** Every entry of a strictly ascending sequence but the last lies below
      the last. */
  lemma BelowLast(init: seq<int>, last: int)
    requires StrictlyAscending(init + [last])
    ensures StrictlyAscending(init)
    ensures forall d :: d in init ==> d < last
  {
    forall i, j | 0 <= i < j < |init| ensures init[i] < init[j] {
      assert (init + [last])[i] == init[i] && (init + [last])[j] == init[j];
    }
    forall d | d in init ensures d < last {
      var k :| 0 <= k < |init| && init[k] == d;
      assert (init + [last])[k] == d && (init + [last])[|init|] == last;
    }
  }
}
