/** `lines_to_surface` in `poly` mode: turns the traced arc-line points into
    a wavelength for every pixel. Each row between the lowest and the
    highest traced row is fitted on its own with a polynomial in the column,
    through the points traced on that row; every other row stays zero.

    Traced rows are whole numbers (`line_trace` records the row it stands
    on), so `ycent` holds them as naturals. `np.polyfit` is an oracle from
    the row's columns, wavelengths and the order to the coefficients,
    highest power first. */
module LinesToSurface {
  import opened Numerics

  /** `np.where(ycent == r)[0]`: the indices of the points on row `r`,
      ascending. */
  function OnRow(ycent: seq<nat>, r: int): (idx: seq<nat>)
    ensures forall k :: 0 <= k < |idx| ==> idx[k] < |ycent|
    decreases |ycent|
  {
    if ycent == [] then []
    else
      var n := |ycent| - 1;
      OnRow(ycent[..n], r) + (if ycent[n] == r then [n] else [])
  }

  lemma {:induction false} OnRowProps(ycent: seq<nat>, r: int)
    ensures forall k :: k in OnRow(ycent, r) <==> 0 <= k < |ycent| && ycent[k] == r
    ensures StrictlyAscending(OnRow(ycent, r))
    decreases |ycent|
  {
    if ycent != [] {
      var n := |ycent| - 1;
      OnRowProps(ycent[..n], r);
      if ycent[n] == r {
        AscendingAppend(OnRow(ycent[..n], r), n);
      }
    }
  }

  /** `s[idx]`: the entries of `s` at the given indices. */
  function Pick(s: seq<real>, idx: seq<nat>): (r: seq<real>)
    requires forall k :: 0 <= k < |idx| ==> idx[k] < |s|
    ensures |r| == |idx| && forall k :: 0 <= k < |idx| ==> r[k] == s[idx[k]]
  {
    seq(|idx|, k requires 0 <= k < |idx| => s[idx[k]])
  }

  /** The value written at column `c` of a row the loop visits: zero when
      no point lies on the row, else the row's fitted polynomial at `c`. */
  function RowValue(r: int, c: nat, xcent: seq<real>, ycent: seq<nat>, wcent: seq<real>, order: nat,
                    polyfit: (seq<real>, seq<real>, nat) -> seq<real>): real
    requires |xcent| == |ycent| == |wcent|
  {
    var idx := OnRow(ycent, r);
    if idx == [] then 0.0
    else PolyVal(polyfit(Pick(xcent, idx), Pick(wcent, idx), order), c as real)
  }

  /** The finished surface at row `r`, column `c`: rows in
      `[min(ycent), max(ycent))` carry their row value, all others zero. */
  function Surface(r: int, c: nat, xcent: seq<real>, ycent: seq<nat>, wcent: seq<real>, order: nat,
                   polyfit: (seq<real>, seq<real>, nat) -> seq<real>): real
    requires |xcent| == |ycent| == |wcent| > 0
  {
    if MinOf(ycent) <= r < MaxOf(ycent) then RowValue(r, c, xcent, ycent, wcent, order, polyfit)
    else 0.0
  }

  /** A row inside the range that holds traced points is the polynomial
      fitted to exactly those points, in trace order. */
  lemma FittedRow(r: int, c: nat, xcent: seq<real>, ycent: seq<nat>, wcent: seq<real>, order: nat,
                  polyfit: (seq<real>, seq<real>, nat) -> seq<real>, k: nat)
    requires |xcent| == |ycent| == |wcent| > 0
    requires MinOf(ycent) <= r < MaxOf(ycent) && k < |ycent| && ycent[k] == r
    ensures var idx := OnRow(ycent, r);
      xcent[k] in Pick(xcent, idx)
      && Surface(r, c, xcent, ycent, wcent, order, polyfit)
         == PolyVal(polyfit(Pick(xcent, idx), Pick(wcent, idx), order), c as real)
  {
    OnRowProps(ycent, r);
    var idx := OnRow(ycent, r);
    var m :| 0 <= m < |idx| && idx[m] == k;
    assert Pick(xcent, idx)[m] == xcent[k];
  }

  /** The highest traced row is never filled: it stays zero although points
      lie on it, because `np.arange` stops before `max(ycent)`. */
  lemma TopRowStaysZero(c: nat, xcent: seq<real>, ycent: seq<nat>, wcent: seq<real>, order: nat,
                        polyfit: (seq<real>, seq<real>, nat) -> seq<real>)
    requires |xcent| == |ycent| == |wcent| > 0
    ensures OnRow(ycent, MaxOf(ycent)) != []
    ensures Surface(MaxOf(ycent), c, xcent, ycent, wcent, order, polyfit) == 0.0
  {
    OnRowProps(ycent, MaxOf(ycent));
    var k :| 0 <= k < |ycent| && ycent[k] == MaxOf(ycent);
    assert k in OnRow(ycent, MaxOf(ycent));
  }

  /** Rows inside the range without any traced point are zero, like the
      rows outside it. */
  lemma EmptyRowIsZero(r: int, c: nat, xcent: seq<real>, ycent: seq<nat>, wcent: seq<real>, order: nat,
                       polyfit: (seq<real>, seq<real>, nat) -> seq<real>)
    requires |xcent| == |ycent| == |wcent| > 0
    requires forall k :: 0 <= k < |ycent| ==> ycent[k] != r
    ensures Surface(r, c, xcent, ycent, wcent, order, polyfit) == 0.0
  {
    OnRowProps(ycent, r);
    if OnRow(ycent, r) != [] {
      assert OnRow(ycent, r)[0] in OnRow(ycent, r);
    }
  }

  /** `lines_to_surface(mode='poly')` on an `h` by `w` image: a fresh
      `h` by `w` array whose every pixel is the surface value. */
  method LinesToSurface(h: nat, w: nat, xcent: seq<real>, ycent: seq<nat>, wcent: seq<real>, order: nat,
                        polyfit: (seq<real>, seq<real>, nat) -> seq<real>)
    returns (wfit: array2<real>)
    requires |xcent| == |ycent| == |wcent| > 0
    requires forall k :: 0 <= k < |ycent| ==> ycent[k] < h
    ensures fresh(wfit) && wfit.Length0 == h && wfit.Length1 == w
    ensures forall r, c :: 0 <= r < h && 0 <= c < w ==>
      wfit[r, c] == Surface(r, c, xcent, ycent, wcent, order, polyfit)
  {
    wfit := new real[h, w]((r, c) => 0.0);
    var lo, hi := MinOf(ycent), MaxOf(ycent);
    for r := lo to hi
      invariant forall a, b :: 0 <= a < h && 0 <= b < w ==>
        wfit[a, b] == if lo <= a < r then RowValue(a, b, xcent, ycent, wcent, order, polyfit) else 0.0
    {
      var x := OnRow(ycent, r);
      if |x| == 0 {
        for c := 0 to w
          invariant forall a, b :: 0 <= a < h && 0 <= b < w ==>
            wfit[a, b] == if lo <= a < r then RowValue(a, b, xcent, ycent, wcent, order, polyfit) else 0.0
        {
          wfit[r, c] := 0.0;
        }
        continue;
      }
      var coeff := polyfit(Pick(xcent, x), Pick(wcent, x), order);
      for c := 0 to w
        invariant forall a, b :: 0 <= a < h && 0 <= b < w ==>
          wfit[a, b] == if lo <= a < r || (a == r && b < c)
                        then RowValue(a, b, xcent, ycent, wcent, order, polyfit) else 0.0
      {
        wfit[r, c] := PolyVal(coeff, c as real);
      }
    }
  }
}
