/** `ap_extract`: the flux of a spectrum column by column. For every column
    `i` the rows of the aperture around the trace are summed, the sky is
    estimated from two windows of rows beside the aperture, and the
    aperture-photometry uncertainty is formed.

    The image is `img[r][i]`, `h` rows by `w` columns. The uncertainty is
    kept squared (the model has no square root). The sky polynomial fit of
    `skydeg > 0` and the 16th/84th percentiles are oracles. */
module ApExtract {
  import opened Numerics

  /** What one column contributes to the three output arrays. */
  datatype ColumnResult = ColumnResult(flux: real, sky: real, errSq: real)

  /** `widthup` and `widthdn`: `apwidth` unless the aperture would leave the
      chip, in which case the half-width is cut back toward the edge. */
  function HalfWidths(t: real, apwidth: nat, h: nat): (r: (real, real))
  {
    var up := if t + apwidth as real > h as real then h as real - t - 1.0 else apwidth as real;
    var dn := if t - apwidth as real < 0.0 then t - 1.0 else apwidth as real;
    (up, dn)
  }

  /** The row range `[lo, hi)` that `img[int(t - dn):int(t + up + 1), i]`
      selects, Python slice clamping and negative wrap included. */
  function ApertureRows(t: real, apwidth: nat, h: nat): (r: (nat, nat))
    ensures r.0 <= h && r.1 <= h
  {
    var (up, dn) := HalfWidths(t, apwidth, h);
    (SliceBound(Trunc(t - dn), h), SliceBound(Trunc(t + up + 1.0), h))
  }

  /** The sum of column `i` over rows `[lo, hi)`; empty when `hi <= lo`. */
  function ColumnSum(img: seq<seq<real>>, h: nat, w: nat, i: nat, lo: nat, hi: nat): real
    requires IsGrid(img, h, w) && i < w && hi <= h
    decreases hi
  {
    if hi <= lo then 0.0 else ColumnSum(img, h, w, i, lo, hi - 1) + img[hi - 1][i]
  }

  /** `y`: the `skywidth` rows below the aperture, `skysep` rows away from
      it, followed by the `skywidth` rows above it. */
  function SkyRows(itrace: int, apwidth: nat, skysep: int, skywidth: int): (y: seq<int>)
  {
    Arange(itrace - apwidth - skysep - skywidth, itrace - apwidth - skysep)
    + Arange(itrace + apwidth + skysep + 1, itrace + apwidth + skysep + skywidth + 1)
  }

  /** `img[y, i]`: `None` when a row index is out of range (`IndexError`),
      else the pixel of each row, negative rows wrapped as NumPy does. */
  function Gather(img: seq<seq<real>>, h: nat, w: nat, i: nat, y: seq<int>): (z: Option<seq<real>>)
    requires IsGrid(img, h, w) && i < w
  {
    if forall k :: 0 <= k < |y| ==> NumpyIndex(y[k], h).Some? then
      Some(seq(|y|, k requires 0 <= k < |y| && NumpyIndex(y[k], h).Some? => img[NumpyIndex(y[k], h).value][i]))
    else None
  }

  /** `sum(np.polyval(pfit, ap))` with `ap = np.arange(t - apwidth,
      t + apwidth + 1)`: the sky polynomial summed over the aperture's
      `2 * apwidth + 1` positions. */
  function PolySkySum(pfit: seq<real>, t: real, apwidth: nat): real
  {
    Sum(seq(2 * apwidth + 1, k requires 0 <= k < 2 * apwidth + 1 => PolyVal(pfit, t - apwidth as real + k as real)))
  }

  /** The sky level `skysubflux[i]` from the sky pixels `z` at rows `y`. */
  function SkyLevel(y: seq<int>, z: seq<real>, t: real, apwidth: nat, skydeg: int,
                    polyfit: (seq<int>, seq<real>, int) -> seq<real>): real
    requires |z| > 0
  {
    if skydeg > 0 then PolySkySum(polyfit(y, z, skydeg), t, apwidth)
    else if skydeg == 0 then Mean(z) * (apwidth as real * 2.0 + 1.0)
    else 0.0
  }

  /** The squared uncertainty: the source's Poisson term plus the aperture's
      and the sky estimate's share of the background scatter `sigB`. */
  function ErrSq(flux: real, sky: real, coaddN: real, apwidth: nat, nB: nat, sigB: real): real
    requires coaddN != 0.0 && nB > 0
  {
    var nA := apwidth as real * 2.0 + 1.0;
    (flux - sky) / coaddN + (nA + nA * nA / nB as real) * (sigB * sigB)
  }

  /** The whole of one pass of the column loop. `None` is an exception:
      the column lies outside the image, a sky row lies outside it, or
      there is no sky row at all (an empty `z` cannot be averaged and
      `N_B` would be zero). */
  function Column(img: seq<seq<real>>, h: nat, w: nat, t: real, i: nat, apwidth: nat, skysep: int,
                  skywidth: int, skydeg: int, coaddN: real,
                  polyfit: (seq<int>, seq<real>, int) -> seq<real>,
                  quantile: (seq<real>, real) -> real): (r: Option<ColumnResult>)
    requires IsGrid(img, h, w) && coaddN != 0.0
  {
    if i >= w then None
    else
      var (lo, hi) := ApertureRows(t, apwidth, h);
      var flux := ColumnSum(img, h, w, i, lo, hi);
      var y := SkyRows(Trunc(t), apwidth, skysep, skywidth);
      var z := Gather(img, h, w, i, y);
      if |y| == 0 || z.None? then None
      else
        var sky := SkyLevel(y, z.value, t, apwidth, skydeg, polyfit);
        var sigB := (quantile(z.value, 0.84) - quantile(z.value, 0.16)) / 2.0;
        Some(ColumnResult(flux, sky, ErrSq(flux, sky, coaddN, apwidth, |y|, sigB)))
  }

  /** An aperture that fits on the chip keeps both half-widths at
      `apwidth`. For a trace at `t` it covers the rows from `int(t) - apwidth`
      up to `int(t) + apwidth`, `2 * apwidth + 1` rows, the top cut at the
      chip's edge. */
  lemma ApertureUnclamped(t: real, apwidth: nat, h: nat)
    requires apwidth as real <= t && t + apwidth as real <= h as real
    ensures HalfWidths(t, apwidth, h) == (apwidth as real, apwidth as real)
    ensures ApertureRows(t, apwidth, h).0 == Trunc(t) - apwidth
    ensures ApertureRows(t, apwidth, h).1
            == if Trunc(t) + apwidth + 1 <= h then Trunc(t) + apwidth + 1 else h
  {
    assert Trunc(t - apwidth as real) == Trunc(t) - apwidth;
    assert Trunc(t + apwidth as real + 1.0) == Trunc(t) + apwidth + 1;
  }

  /** An aperture cut at the bottom starts at row 1: `widthdn = t - 1`
      puts the slice start at `int(1.0)`, so row 0 is never summed. */
  lemma ApertureClampedBelow(t: real, apwidth: nat, h: nat)
    requires t - apwidth as real < 0.0 && h >= 1
    ensures ApertureRows(t, apwidth, h).0 == 1
  {
    assert t - (t - 1.0) == 1.0;
  }

  /** An aperture cut at the top runs to the last row: `widthup = h - t - 1`
      puts the slice end at `int(h)`. */
  lemma ApertureClampedAbove(t: real, apwidth: nat, h: nat)
    requires t + apwidth as real > h as real
    ensures ApertureRows(t, apwidth, h).1 == h
  {
    assert t + (h as real - t - 1.0) + 1.0 == h as real;
  }

  /** With a non-negative `skysep` no sky row falls inside the aperture
      `[itrace - apwidth, itrace + apwidth]`; with a positive `skywidth`
      there are `2 * skywidth` sky rows. */
  lemma SkyRowsAvoidAperture(itrace: int, apwidth: nat, skysep: int, skywidth: int)
    ensures skywidth > 0 ==> |SkyRows(itrace, apwidth, skysep, skywidth)| == 2 * skywidth
    ensures skywidth <= 0 ==> SkyRows(itrace, apwidth, skysep, skywidth) == []
    ensures skysep >= 0 ==> forall k :: 0 <= k < |SkyRows(itrace, apwidth, skysep, skywidth)| ==>
      var r := SkyRows(itrace, apwidth, skysep, skywidth)[k];
      r < itrace - apwidth || r > itrace + apwidth
  {
    var a := Arange(itrace - apwidth - skysep - skywidth, itrace - apwidth - skysep);
    var b := Arange(itrace + apwidth + skysep + 1, itrace + apwidth + skysep + skywidth + 1);
    var y := SkyRows(itrace, apwidth, skysep, skywidth);
    assert forall k :: 0 <= k < |a| ==> y[k] == a[k];
    assert forall k :: |a| <= k < |y| ==> y[k] == b[k - |a|];
  }

  /** With `skydeg == 0` a flat sky of level `b` gives `b` times the
      aperture size; a negative `skydeg` leaves the sky at zero. */
  lemma FlatSky(y: seq<int>, z: seq<real>, t: real, apwidth: nat, skydeg: int, b: real,
                polyfit: (seq<int>, seq<real>, int) -> seq<real>)
    requires |z| > 0 && forall k :: 0 <= k < |z| ==> z[k] == b
    ensures skydeg == 0 ==> SkyLevel(y, z, t, apwidth, skydeg, polyfit) == b * (2 * apwidth + 1) as real
    ensures skydeg < 0 ==> SkyLevel(y, z, t, apwidth, skydeg, polyfit) == 0.0
  {
    SumConstant(z, b);
  }

  /** When the flux exceeds the sky and `coaddN` is positive the squared
      uncertainty is at least the background term, so never negative. */
  lemma ErrSqBound(flux: real, sky: real, coaddN: real, apwidth: nat, nB: nat, sigB: real)
    requires coaddN > 0.0 && nB > 0 && flux >= sky
    ensures ErrSq(flux, sky, coaddN, apwidth, nB, sigB) >= 0.0
    ensures ErrSq(flux, sky, coaddN, apwidth, nB, sigB) >= (apwidth as real * 2.0 + 1.0) * (sigB * sigB)
  {
    var nA := apwidth as real * 2.0 + 1.0;
    assert (flux - sky) / coaddN >= 0.0;
    assert nA * nA / nB as real >= 0.0;
    assert sigB * sigB >= 0.0;
    assert (nA * nA / nB as real) * (sigB * sigB) >= 0.0;
  }

  /** The results of every column, each `None` where that column raises. */
  function Columns(img: seq<seq<real>>, h: nat, w: nat, trace: seq<real>, apwidth: nat,
                   skysep: int, skywidth: int, skydeg: int, coaddN: real,
                   polyfit: (seq<int>, seq<real>, int) -> seq<real>,
                   quantile: (seq<real>, real) -> real): (cs: seq<Option<ColumnResult>>)
    requires IsGrid(img, h, w) && coaddN != 0.0
    ensures |cs| == |trace|
  {
    seq(|trace|, j requires 0 <= j < |trace| =>
      Column(img, h, w, trace[j], j, apwidth, skysep, skywidth, skydeg, coaddN, polyfit, quantile))
  }

  /** Running the columns in order: the first one that raises ends the
      whole extraction. */
  function Sequenced(cs: seq<Option<ColumnResult>>): (r: Option<seq<ColumnResult>>)
    ensures r.Some? ==> |r.value| == |cs|
    decreases |cs|
  {
    if cs == [] then Some([])
    else
      var prev := Sequenced(cs[..|cs| - 1]);
      var last := cs[|cs| - 1];
      if prev.None? || last.None? then None else Some(prev.value + [last.value])
  }

  /** The extraction succeeds exactly when every column does, and then
      entry `j` is column `j`'s result. */
  lemma {:induction false} SequencedProps(cs: seq<Option<ColumnResult>>)
    ensures Sequenced(cs).Some? <==> forall j :: 0 <= j < |cs| ==> cs[j].Some?
    ensures Sequenced(cs).Some? ==>
      forall j :: 0 <= j < |cs| ==> Sequenced(cs).value[j] == cs[j].value
    decreases |cs|
  {
    if cs != [] {
      var init := cs[..|cs| - 1];
      SequencedProps(init);
      assert forall j :: 0 <= j < |init| ==> init[j] == cs[j];
    }
  }

  /** One more column that succeeds extends the results by its own. */
  lemma SequencedStep(cs: seq<Option<ColumnResult>>, i: nat, done: seq<ColumnResult>)
    requires i < |cs| && cs[i].Some? && Sequenced(cs[..i]) == Some(done)
    ensures Sequenced(cs[..i + 1]) == Some(done + [cs[i].value])
  {
    assert cs[..i + 1][..i] == cs[..i];
  }

  /** A column that raises stops the extraction. */
  lemma SequencedStops(cs: seq<Option<ColumnResult>>, i: nat)
    requires i < |cs| && cs[i].None?
    ensures Sequenced(cs).None?
  {
    SequencedProps(cs);
  }

  /** The sky branch of the column loop; `skysubflux[i]` keeps its zero
      when `skydeg` is negative. This is the loop body split out, step by
      step as the source runs it; its meaning is `SkyLevel`. */
  method FitSky(y: seq<int>, z: seq<real>, t: real, apwidth: nat, skydeg: int,
                polyfit: (seq<int>, seq<real>, int) -> seq<real>) returns (sky: real)
    requires |z| > 0
    ensures sky == SkyLevel(y, z, t, apwidth, skydeg, polyfit)
  {
    sky := 0.0;
    if skydeg > 0 {
      sky := PolySkySum(polyfit(y, z, skydeg), t, apwidth);
    } else if skydeg == 0 {
      sky := Mean(z) * (apwidth as real * 2.0 + 1.0);
    }
  }

  /** One pass of the column loop, computed as the source does. This is the
      loop body split out; its meaning is `Column`. */
  method ExtractColumn(img: seq<seq<real>>, h: nat, w: nat, t: real, i: nat, apwidth: nat, skysep: int,
                       skywidth: int, skydeg: int, coaddN: real,
                       polyfit: (seq<int>, seq<real>, int) -> seq<real>,
                       quantile: (seq<real>, real) -> real)
    returns (r: Option<ColumnResult>)
    requires IsGrid(img, h, w) && coaddN != 0.0
    ensures r == Column(img, h, w, t, i, apwidth, skysep, skywidth, skydeg, coaddN, polyfit, quantile)
  {
    var widthup, widthdn := apwidth as real, apwidth as real;
    if t + widthup > h as real {
      widthup := h as real - t - 1.0;
    }
    if t - widthdn < 0.0 {
      widthdn := t - 1.0;
    }
    assert (widthup, widthdn) == HalfWidths(t, apwidth, h);
    if i >= w {
      return None;
    }
    var lo, hi := SliceBound(Trunc(t - widthdn), h), SliceBound(Trunc(t + widthup + 1.0), h);
    assert (lo, hi) == ApertureRows(t, apwidth, h);
    var flux := ColumnSum(img, h, w, i, lo, hi);
    var y := SkyRows(Trunc(t), apwidth, skysep, skywidth);
    var z := Gather(img, h, w, i, y);
    if z.None? || |y| == 0 {
      return None;
    }
    var sky := FitSky(y, z.value, t, apwidth, skydeg, polyfit);
    var sigB := (quantile(z.value, 0.84) - quantile(z.value, 0.16)) / 2.0;
    r := Some(ColumnResult(flux, sky, ErrSq(flux, sky, coaddN, apwidth, |y|, sigB)));
  }

  /** One pass of the column loop, its results stored at `i`. */
  method ExtractInto(img: seq<seq<real>>, h: nat, w: nat, trace: seq<real>, i: nat, apwidth: nat, skysep: int,
                     skywidth: int, skydeg: int, coaddN: real,
                     polyfit: (seq<int>, seq<real>, int) -> seq<real>,
                     quantile: (seq<real>, real) -> real,
                     onedspec: array<real>, skysubflux: array<real>, fluxerrSq: array<real>)
    returns (col: Option<ColumnResult>)
    requires IsGrid(img, h, w) && coaddN != 0.0
    requires i < |trace| == onedspec.Length == skysubflux.Length == fluxerrSq.Length
    requires onedspec != skysubflux && onedspec != fluxerrSq && skysubflux != fluxerrSq
    modifies onedspec, skysubflux, fluxerrSq
    ensures col == Columns(img, h, w, trace, apwidth, skysep, skywidth, skydeg, coaddN, polyfit, quantile)[i]
    ensures forall j :: 0 <= j < onedspec.Length && j != i ==>
      onedspec[j] == old(onedspec[j]) && skysubflux[j] == old(skysubflux[j]) && fluxerrSq[j] == old(fluxerrSq[j])
    ensures col.Some? ==> col.value == ColumnResult(onedspec[i], skysubflux[i], fluxerrSq[i])
  {
    col := ExtractColumn(img, h, w, trace[i], i, apwidth, skysep, skywidth, skydeg, coaddN, polyfit, quantile);
    if col.Some? {
      onedspec[i], skysubflux[i], fluxerrSq[i] := col.value.flux, col.value.sky, col.value.errSq;
    }
  }

  /** `ap_extract`: `onedspec`, `skysubflux` and the squared `fluxerr`, one
      entry per trace position, filled column by column. `ok` is false when
      some column raises, and then the arrays carry no meaning. */
  method ApExtract(img: seq<seq<real>>, h: nat, w: nat, trace: seq<real>, apwidth: nat, skysep: int,
                   skywidth: int, skydeg: int, coaddN: real,
                   polyfit: (seq<int>, seq<real>, int) -> seq<real>,
                   quantile: (seq<real>, real) -> real)
    returns (ok: bool, onedspec: array<real>, skysubflux: array<real>, fluxerrSq: array<real>)
    requires IsGrid(img, h, w) && coaddN != 0.0
    ensures fresh(onedspec) && fresh(skysubflux) && fresh(fluxerrSq)
    ensures onedspec != skysubflux && onedspec != fluxerrSq && skysubflux != fluxerrSq
    ensures onedspec.Length == skysubflux.Length == fluxerrSq.Length == |trace|
    ensures ok <==> Sequenced(Columns(img, h, w, trace, apwidth, skysep, skywidth, skydeg, coaddN, polyfit, quantile)).Some?
    ensures ok ==> forall j :: 0 <= j < |trace| ==>
      Sequenced(Columns(img, h, w, trace, apwidth, skysep, skywidth, skydeg, coaddN, polyfit, quantile)).value[j]
      == ColumnResult(onedspec[j], skysubflux[j], fluxerrSq[j])
  {
    onedspec := new real[|trace|](_ => 0.0);
    skysubflux := new real[|trace|](_ => 0.0);
    fluxerrSq := new real[|trace|](_ => 0.0);
    ghost var cols := Columns(img, h, w, trace, apwidth, skysep, skywidth, skydeg, coaddN, polyfit, quantile);
    ghost var done: seq<ColumnResult> := [];
    for i := 0 to |trace|
      invariant Sequenced(cols[..i]) == Some(done) && |done| == i
      invariant forall j :: 0 <= j < i ==> done[j] == ColumnResult(onedspec[j], skysubflux[j], fluxerrSq[j])
    {
      var col := ExtractInto(img, h, w, trace, i, apwidth, skysep, skywidth, skydeg, coaddN,
                             polyfit, quantile, onedspec, skysubflux, fluxerrSq);
      if col.None? {
        SequencedStops(cols, i);
        ok := false;
        return;
      }
      SequencedStep(cols, i, done);
      done := done + [col.value];
    }
    assert cols[..|trace|] == cols;
    ok := true;
  }
}
