/** `mapwavelength` for a wavelength map held as an image (`poly` and
    `spline` modes): the wavelength along the trace is read off the map
    column by column, interpolating linearly between rows. */
module MapWavelength {
  import opened Numerics

  /** `np.interp(x, np.arange(|fp|), fp)`: linear interpolation on the
      unit-spaced grid `0, 1, ..., |fp| - 1`, clamped to the end values
      outside it. */
  function Interp(x: real, fp: seq<real>): real
    requires |fp| > 0
  {
    if x <= 0.0 then fp[0]
    else if x >= (|fp| - 1) as real then fp[|fp| - 1]
    else
      var k := x.Floor;
      fp[k] + (x - k as real) * (fp[k + 1] - fp[k])
  }

  /** At a grid row the interpolant is that row's value. */
  lemma InterpAtNode(k: nat, fp: seq<real>)
    requires k < |fp|
    ensures Interp(k as real, fp) == fp[k]
  {
  }

  /** Strictly between two grid rows the interpolant lies between their
      values. */
  lemma InterpBetween(x: real, fp: seq<real>)
    requires 0.0 < x < (|fp| - 1) as real
    ensures var k := x.Floor;
      0 <= k < |fp| - 1
      && ((fp[k] <= Interp(x, fp) <= fp[k + 1]) || (fp[k + 1] <= Interp(x, fp) <= fp[k]))
  {
    var k := x.Floor;
    var f := x - k as real;
    var d := fp[k + 1] - fp[k];
    assert 0.0 <= f <= 1.0;
    assert Interp(x, fp) == fp[k] + f * d;
    if d >= 0.0 {
      FractionOf(f, d);
    } else {
      FractionOf(f, -d);
      assert f * d == -(f * -d);
    }
  }

  /** A fraction of a non-negative amount lies between nothing and all of it. */
  lemma FractionOf(f: real, d: real)
    requires 0.0 <= f <= 1.0 && d >= 0.0
    ensures 0.0 <= f * d <= d
  {
    assert d - f * d == (1.0 - f) * d;
  }

  /** Outside the grid the interpolant is the nearest end value. */
  lemma InterpClamped(x: real, fp: seq<real>)
    requires |fp| > 0
    ensures x <= 0.0 ==> Interp(x, fp) == fp[0]
    ensures x >= (|fp| - 1) as real ==> Interp(x, fp) == fp[|fp| - 1]
  {
  }

  /** `wavemap[:, i]`. */
  function MapColumn(wavemap: array2<real>, i: nat): (col: seq<real>)
    requires i < wavemap.Length1
    reads wavemap
    ensures |col| == wavemap.Length0
  {
    seq(wavemap.Length0, r requires 0 <= r < wavemap.Length0 reads wavemap => wavemap[r, i])
  }

  /** `mapwavelength(trace, wavemap, mode='poly')`: one wavelength per trace
      position, each the interpolation of its column of the map at the
      trace's row. */
  method MapWavelength(trace: seq<real>, wavemap: array2<real>) returns (traceWave: array<real>)
    requires wavemap.Length0 > 0 && |trace| <= wavemap.Length1
    ensures fresh(traceWave) && traceWave.Length == |trace|
    ensures forall i :: 0 <= i < |trace| ==> traceWave[i] == Interp(trace[i], MapColumn(wavemap, i))
  {
    traceWave := new real[|trace|](_ => 0.0);
    for i := 0 to |trace|
      invariant forall j :: 0 <= j < i ==> traceWave[j] == Interp(trace[j], MapColumn(wavemap, j))
    {
      traceWave[i] := Interp(trace[i], MapColumn(wavemap, i));
    }
  }
}
