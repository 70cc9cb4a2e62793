/** `ap_trace`: the spatial position of a spectrum's trace along the
    wavelength axis. The columns are cut into `nsteps - 1` bins; each bin's
    rows are Gaussian-fitted and the centre kept unless it lies within 25
    rows of the illuminated region's edge, in which case the chip-wide
    centre is used. A cubic spline through the bin centres gives one trace
    position per column.

    The median filters, both Gaussian fits and the spline are oracles: the
    chip-wide fit is its result (`None` when `curve_fit` raises), the
    per-bin fit maps a column range `[lo, hi)` to a centre, and the spline
    maps its knots and a column to a position. The image enters only
    through its width along the wavelength axis and its illuminated rows. */
module ApTrace {
  import opened Numerics

  /** A bin centre this close to either end of the illuminated rows is
      treated as a failed fit. */
  const EdgeBuffer: int := 25

  /** At least four steps (three bins) are always used. */
  function StepCount(nsteps: int): (n: nat)
    ensures n >= 4
    ensures nsteps >= 4 ==> n == nsteps
    ensures nsteps < 4 ==> n == 4
  {
    if nsteps < 4 then 4 else nsteps
  }

  /** `np.linspace(0, width, n, dtype='int')[k]` on exact reals: the
      point `k * width / (n - 1)` rounded down. */
  function BinEdge(k: nat, width: nat, n: nat): int
    requires n >= 2
  {
    (k * width) / (n - 1)
  }

  /** `d * t` for a whole `t` at least one is at least `d`. */
  lemma {:induction false} MulAtLeast(d: int, t: int)
    requires d > 0 && t >= 1
    ensures d * t >= d
  {
    assert d * t == d + d * (t - 1);
  }

  /** Euclidean division is pinned down by its quotient's bracket. */
  lemma {:induction false} DivUnique(x: int, d: int, q: int)
    requires d > 0 && d * q <= x < d * q + d
    ensures x / d == q
  {
    var r := x / d;
    assert d * r <= x < d * r + d;
    if q > r {
      assert d * q == d * r + d * (q - r);
      MulAtLeast(d, q - r);
    } else if q < r {
      assert d * r == d * q + d * (r - q);
      MulAtLeast(d, r - q);
    }
  }

  lemma {:induction false} DivMonotone(a: int, b: int, d: int)
    requires 0 <= a <= b && d > 0
    ensures a / d <= b / d
  {
    var qa, qb := a / d, b / d;
    assert d * qa <= a && b < d * qb + d;
    if qa > qb {
      assert d * qa == d * qb + d * (qa - qb);
      MulAtLeast(d, qa - qb);
    }
  }

  lemma {:induction false} DivShift(a: int, d: int)
    requires a >= 0 && d > 0
    ensures (a + d) / d == a / d + 1
  {
    var q := a / d;
    assert d * q <= a < d * q + d;
    assert d * (q + 1) == d * q + d;
    DivUnique(a + d, d, q + 1);
  }

  lemma {:induction false} MulMonotone(k: nat, l: nat, width: nat)
    requires k <= l
    ensures k * width <= l * width
  {
    assert l * width == k * width + (l - k) * width;
  }

  /** The first edge is 0 and the last is the full width. */
  lemma {:induction false} BinEdgesEnds(width: nat, n: nat)
    requires n >= 2
    ensures BinEdge(0, width, n) == 0 && BinEdge(n - 1, width, n) == width
  {
    var d := n - 1;
    DivUnique(0 * width, d, 0);
    assert (n - 1) * width == d * width;
    DivUnique(d * width, d, width);
  }

  /** A later edge is never before an earlier one. */
  lemma {:induction false} BinEdgeStep(k: nat, l: nat, width: nat, n: nat)
    requires n >= 2 && k <= l
    ensures 0 <= BinEdge(k, width, n) <= BinEdge(l, width, n)
  {
    MulMonotone(0, k, width);
    MulMonotone(k, l, width);
    DivMonotone(k * width, l * width, n - 1);
  }

  /** The edges never decrease and stay within `[0, width]`. */
  lemma {:induction false} BinEdgesMonotone(k: nat, l: nat, width: nat, n: nat)
    requires n >= 2 && k <= l <= n - 1
    ensures 0 <= BinEdge(k, width, n) <= BinEdge(l, width, n) <= width
  {
    BinEdgesEnds(width, n);
    BinEdgeStep(k, l, width, n);
    BinEdgeStep(l, n - 1, width, n);
  }

  /** When the width is at least the number of bins the edges strictly
      increase, so no bin is empty. */
  lemma {:induction false} BinEdgesStrict(k: nat, l: nat, width: nat, n: nat)
    requires n >= 2 && k < l <= n - 1 && width >= n - 1
    ensures BinEdge(k, width, n) < BinEdge(l, width, n)
  {
    var d := n - 1;
    var a := k * width;
    MulMonotone(k + 1, l, width);
    assert (k + 1) * width == a + width;
    DivShift(a, d);
    DivMonotone(a + d, a + width, d);
    DivMonotone(a + width, l * width, d);
  }

  /** The centre stored for a bin whose local fit is `local`: the chip-wide
      centre `global` when `local` lies within `EdgeBuffer` of the lowest
      (`lo`) or highest (`hi`) illuminated row, else `local`, either one
      truncated into the integer array. */
  function BinCentre(local: real, global: real, lo: nat, hi: nat): int
  {
    if local <= (lo + EdgeBuffer) as real || local >= (hi - EdgeBuffer) as real
    then Trunc(global) else Trunc(local)
  }

  /** A local centre strictly inside the band is kept, landing on a row of
      the band; any other local centre is replaced by the truncated
      chip-wide centre. */
  lemma BinCentreRule(local: real, global: real, lo: nat, hi: nat)
    ensures (lo + EdgeBuffer) as real < local < (hi - EdgeBuffer) as real ==>
      BinCentre(local, global, lo, hi) == Trunc(local)
      && lo + EdgeBuffer <= BinCentre(local, global, lo, hi) < hi - EdgeBuffer
    ensures !((lo + EdgeBuffer) as real < local < (hi - EdgeBuffer) as real) ==>
      BinCentre(local, global, lo, hi) == Trunc(global)
  {
  }

  /** The array `xbins` of all `n` edges. */
  function Edges(width: nat, n: nat): (xbins: seq<int>)
    requires n >= 2
    ensures |xbins| == n
  {
    seq(n, k requires 0 <= k < n => BinEdge(k, width, n))
  }

  /** `(xbins[:-1] + xbins[1:]) / 2.`: the middle of every bin. */
  function Midpoints(xbins: seq<int>): (mx: seq<real>)
    requires |xbins| >= 1
    ensures |mx| == |xbins| - 1
  {
    seq(|xbins| - 1, i requires 0 <= i < |xbins| - 1 => (xbins[i] + xbins[i + 1]) as real / 2.0)
  }

  /** The local fit of every bin `[xbins[i], xbins[i + 1])` succeeds. */
  ghost predicate FitsSucceed(xbins: seq<int>, localFit: (int, int) -> Option<real>) {
    forall i :: 0 <= i < |xbins| - 1 ==> localFit(xbins[i], xbins[i + 1]).Some?
  }

  /** Every bin's local fit succeeds, for the `n` edges across `width`. */
  ghost predicate LocalFitsSucceed(width: nat, n: nat, localFit: (int, int) -> Option<real>)
    requires n >= 2
  {
    FitsSucceed(Edges(width, n), localFit)
  }

  /** The centre kept for every bin. */
  function Centres(xbins: seq<int>, localFit: (int, int) -> Option<real>, global: real, lo: nat, hi: nat)
    : (my: seq<int>)
    requires |xbins| >= 1 && FitsSucceed(xbins, localFit)
    ensures |my| == |xbins| - 1
  {
    seq(|xbins| - 1, i requires 0 <= i < |xbins| - 1 =>
      BinCentre(localFit(xbins[i], xbins[i + 1]).value, global, lo, hi))
  }

  /** The bin loop over the edges `xbins`. `ok` is false when a Gaussian
      fit raises (the source does not catch it); otherwise `my` holds one
      centre per bin (the unused trailing slot of `ybins` is dropped). */
  method FitBins(xbins: seq<int>, localFit: (int, int) -> Option<real>, global: real, lo: nat, hi: nat)
    returns (ok: bool, my: seq<int>)
    requires |xbins| >= 1
    ensures ok <==> FitsSucceed(xbins, localFit)
    ensures ok ==> my == Centres(xbins, localFit, global, lo, hi)
  {
    my := [];
    var ybins := new int[|xbins|];
    for i := 0 to |xbins| - 1
      invariant forall j :: 0 <= j < i ==> Stored(xbins, j, localFit, global, lo, hi, ybins[j])
    {
      ok := FitBin(xbins, i, localFit, global, lo, hi, ybins);
      if !ok {
        return;
      }
    }
    ok := true;
    my := ybins[..|xbins| - 1];
    forall j | 0 <= j < |xbins| - 1
      ensures localFit(xbins[j], xbins[j + 1]).Some?
      ensures my[j] == BinCentre(localFit(xbins[j], xbins[j + 1]).value, global, lo, hi)
    {
      assert Stored(xbins, j, localFit, global, lo, hi, ybins[j]);
    }
  }

  /** Bin `j`'s fit succeeded and `y` is the centre kept for it. */
  ghost predicate Stored(xbins: seq<int>, j: nat, localFit: (int, int) -> Option<real>,
                         global: real, lo: nat, hi: nat, y: int)
    requires j + 1 < |xbins|
  {
    && localFit(xbins[j], xbins[j + 1]).Some?
    && y == BinCentre(localFit(xbins[j], xbins[j + 1]).value, global, lo, hi)
  }

  /** One pass of the bin loop: fits bin `i` and stores its centre in
      `ybins[i]`; `false` when the fit raises. */
  method FitBin(xbins: seq<int>, i: nat, localFit: (int, int) -> Option<real>, global: real,
                lo: nat, hi: nat, ybins: array<int>) returns (ok: bool)
    requires i + 1 < |xbins| && i < ybins.Length
    modifies ybins
    ensures ok <==> localFit(xbins[i], xbins[i + 1]).Some?
    ensures ok ==> Stored(xbins, i, localFit, global, lo, hi, ybins[i])
    ensures forall j :: 0 <= j < ybins.Length && j != i ==> ybins[j] == old(ybins[j])
  {
    var popt := localFit(xbins[i], xbins[i + 1]);
    if popt.None? {
      return false;
    }
    ybins[i] := BinCentre(popt.value, global, lo, hi);
    ok := true;
  }

  /** The bin stage of `ap_trace`: `ok` is false when a Gaussian fit raises
      or when there are no illuminated rows; on success there is one
      midpoint and one centre per bin, `nsteps - 1` of each, the centres
      judged against the lowest and highest illuminated rows. */
  method TraceBins(width: nat, nsteps: int, rows: seq<nat>, global: Option<real>,
                   localFit: (int, int) -> Option<real>)
    returns (ok: bool, mx: seq<real>, my: seq<int>)
    ensures ok <==> |rows| > 0 && global.Some? && LocalFitsSucceed(width, StepCount(nsteps), localFit)
    ensures ok ==> |mx| == |my| == StepCount(nsteps) - 1
    ensures ok ==> mx == Midpoints(Edges(width, StepCount(nsteps)))
    ensures ok ==> my == Centres(Edges(width, StepCount(nsteps)), localFit, global.value, MinOf(rows), MaxOf(rows))
  {
    mx, my := [], [];
    if |rows| == 0 || global.None? {
      ok := false;
      return;
    }
    var xbins := Edges(width, StepCount(nsteps));
    ok, my := FitBins(xbins, localFit, global.value, MinOf(rows), MaxOf(rows));
    if ok {
      mx := Midpoints(xbins);
    }
  }

  /** The bin centres as the spline's knot values. */
  function Knots(my: seq<int>): (knots: seq<real>)
    ensures |knots| == |my| && forall i :: 0 <= i < |my| ==> knots[i] == my[i] as real
  {
    seq(|my|, i requires 0 <= i < |my| => my[i] as real)
  }

  /** The degree of the trace spline (`k=3`). A spline of degree `k` needs
      more than `k` knots; `UnivariateSpline` raises on fewer. */
  const SplineDegree: nat := 3

  /** At or below the floor of four steps the four bin edges make three
      bins, so there are only three knots, too few for the cubic spline:
      the trace always raises there. */
  lemma StepFloorLeavesThreeKnots(width: nat, nsteps: int)
    requires nsteps <= 4
    ensures StepCount(nsteps) - 1 == SplineDegree
    ensures |Midpoints(Edges(width, StepCount(nsteps)))| == SplineDegree
  {
  }

  /** The floor that leaves the four samples along the trace which the
      cubic spline needs: five steps, so four bins. */
  function IntendedStepCount(nsteps: int): (n: nat)
    ensures n - 1 > SplineDegree
    ensures nsteps >= 5 ==> n == nsteps
    ensures nsteps < 5 ==> n == 5
  {
    if nsteps < 5 then 5 else nsteps
  }

  /** With the intended floor there are at least four knots, and on a chip
      at least as wide as the number of bins their abscissae strictly
      increase, as the cubic spline needs. */
  lemma IntendedKnots(width: nat, nsteps: int)
    ensures |Midpoints(Edges(width, IntendedStepCount(nsteps)))| > SplineDegree
    ensures width >= IntendedStepCount(nsteps) - 1 ==>
      var mx := Midpoints(Edges(width, IntendedStepCount(nsteps)));
      forall i, j :: 0 <= i < j < |mx| ==> mx[i] < mx[j]
  {
    var n := IntendedStepCount(nsteps);
    var mx := Midpoints(Edges(width, n));
    if width >= n - 1 {
      forall i, j | 0 <= i < j < |mx| ensures mx[i] < mx[j] {
        BinEdgesStrict(i, j, width, n);
        BinEdgesStrict(i + 1, j + 1, width, n);
      }
    }
  }

  /** `ap_trace`: the spline through the bin midpoints and centres,
      evaluated at every column `0 .. width - 1`. `None` exactly when a
      Gaussian fit raises, when there are too few knots for a cubic spline,
      or when the spline itself refuses its knots (the spline oracle gives
      `None`). */
  method ApTrace(width: nat, nsteps: int, rows: seq<nat>, global: Option<real>,
                 localFit: (int, int) -> Option<real>, spline: (seq<real>, seq<real>) -> Option<real -> real>)
    returns (trace: Option<seq<real>>)
    ensures trace.Some? <==>
      |rows| > 0 && global.Some? && LocalFitsSucceed(width, StepCount(nsteps), localFit)
      && StepCount(nsteps) - 1 > SplineDegree
      && spline(Midpoints(Edges(width, StepCount(nsteps))),
                Knots(Centres(Edges(width, StepCount(nsteps)), localFit, global.value,
                              MinOf(rows), MaxOf(rows)))).Some?
    ensures trace.Some? ==> |trace.value| == width
    ensures trace.Some? ==> forall x :: 0 <= x < width ==>
      trace.value[x] == spline(Midpoints(Edges(width, StepCount(nsteps))),
                               Knots(Centres(Edges(width, StepCount(nsteps)), localFit, global.value,
                                             MinOf(rows), MaxOf(rows)))).value(x as real)
  {
    var ok, mx, my := TraceBins(width, nsteps, rows, global, localFit);
    if !ok || |my| <= SplineDegree {
      return None;
    }
    var f := spline(mx, Knots(my));
    if f.None? {
      return None;
    }
    trace := Some(seq(width, x requires 0 <= x < width => f.value(x as real)));
  }
}
