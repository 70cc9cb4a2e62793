/** `find_peaks`: the significant emission lines of a one-dimensional lamp
    slice. Samples at or above a threshold are flagged, flagged samples that
    follow the previous flagged one by more than `minsep` start a peak, peaks
    too close to either edge are dropped, each survivor is Gaussian-fitted
    over a `2 * pwidth` window, and the results are de-duplicated by
    wavelength. The percentile threshold is an input and the Gaussian fitter
    is an oracle. */
module FindPeaks {
  import opened Numerics

  /** One fitted line: its sub-pixel centre and the wavelength of the
      brightest sample of its window. */
  datatype Peak = Peak(pix: real, wave: real)

  /** `np.where(flux >= thresh)` over the first `n` samples, ascending. */
  function Flagged(flux: seq<real>, thresh: real, n: nat): (h: seq<nat>)
    requires n <= |flux|
    decreases n
  {
    if n == 0 then []
    else Flagged(flux, thresh, n - 1) + (if flux[n - 1] >= thresh then [n - 1] else [])
  }

  /** The flagged indices are exactly the samples below `n` at or above the
      threshold, in ascending order. */
  lemma {:induction false} FlaggedProps(flux: seq<real>, thresh: real, n: nat)
    requires n <= |flux|
    ensures forall k :: 0 <= k < |Flagged(flux, thresh, n)| ==>
      Flagged(flux, thresh, n)[k] < n && flux[Flagged(flux, thresh, n)[k]] >= thresh
    ensures StrictlyAscending(Flagged(flux, thresh, n))
    ensures forall i :: 0 <= i < n && flux[i] >= thresh ==> i in Flagged(flux, thresh, n)
    decreases n
  {
    if n > 0 {
      var prev := Flagged(flux, thresh, n - 1);
      FlaggedProps(flux, thresh, n - 1);
      if flux[n - 1] >= thresh {
        forall d | d in prev ensures d < n - 1 {
          var k :| 0 <= k < |prev| && prev[k] == d;
        }
        AscendingAppend(prev, n - 1);
      }
    }
  }

  /** The gap between flagged index `k` and its predecessor. */
  function Gap(h: seq<nat>, k: nat): int
    requires 1 <= k < |h|
  {
    h[k] as int - h[k - 1] as int
  }

  /** `high[1:][(high[1:] - high[:-1]) > minsep]`: the flagged indices whose
      gap to the previous flagged index exceeds `minsep`. */
  function Separated(h: seq<nat>, minsep: real): (pk: seq<nat>)
    decreases |h|
  {
    if |h| < 2 then []
    else
      Separated(h[..|h| - 1], minsep)
      + (if Gap(h, |h| - 1) as real > minsep then [h[|h| - 1]] else [])
  }

  /** A flagged index is separated exactly when some position holds it
      with a gap above `minsep`. */
  lemma SeparatedMembers(h: seq<nat>, minsep: real, c: nat)
    ensures c in Separated(h, minsep) <==>
      exists k :: 1 <= k < |h| && h[k] == c && Gap(h, k) as real > minsep
  {
    if c in Separated(h, minsep) {
      SeparatedSound(h, minsep, c);
    }
    if exists k :: 1 <= k < |h| && h[k] == c && Gap(h, k) as real > minsep {
      var k :| 1 <= k < |h| && h[k] == c && Gap(h, k) as real > minsep;
      SeparatedComplete(h, minsep, k);
    }
  }

  lemma {:induction false} SeparatedSound(h: seq<nat>, minsep: real, c: nat)
    requires c in Separated(h, minsep)
    ensures exists k :: 1 <= k < |h| && h[k] == c && Gap(h, k) as real > minsep
    decreases |h|
  {
    var n := |h| - 1;
    var init := h[..n];
    if c in Separated(init, minsep) {
      SeparatedSound(init, minsep, c);
      var k :| 1 <= k < |init| && init[k] == c && Gap(init, k) as real > minsep;
      assert h[k] == c && Gap(h, k) == Gap(init, k);
    } else {
      assert h[n] == c && Gap(h, n) as real > minsep;
    }
  }

  lemma {:induction false} SeparatedComplete(h: seq<nat>, minsep: real, k: nat)
    requires 1 <= k < |h| && Gap(h, k) as real > minsep
    ensures h[k] in Separated(h, minsep)
    decreases |h|
  {
    var n := |h| - 1;
    var init := h[..n];
    if k < n {
      assert init[k] == h[k] && Gap(init, k) == Gap(h, k);
      SeparatedComplete(init, minsep, k);
    }
  }

  lemma {:induction false} SeparatedAscending(h: seq<nat>, minsep: real)
    requires StrictlyAscending(h)
    ensures StrictlyAscending(Separated(h, minsep))
    decreases |h|
  {
    if |h| >= 2 {
      var init := h[..|h| - 1];
      var last := h[|h| - 1];
      assert StrictlyAscending(init) && forall d :: d in init ==> d < last by {
        assert h == init + [last];
        BelowLast(init, last);
      }
      SeparatedAscending(init, minsep);
      var rest := Separated(init, minsep);
      if Gap(h, |h| - 1) as real > minsep {
        forall d | d in rest ensures d < last {
          SeparatedSound(init, minsep, d);
          var k :| 1 <= k < |init| && init[k] == d && Gap(init, k) as real > minsep;
          assert init[k] in init;
        }
        AscendingAppend(rest, last);
      }
    }
  }

  /** `pk[pk > pwidth]` followed by `pk[pk < len(flux) - pwidth]`. */
  function AwayFromEdges(pk: seq<nat>, pwidth: nat, n: nat): (r: seq<nat>)
    decreases |pk|
  {
    if pk == [] then []
    else
      var c := pk[|pk| - 1];
      AwayFromEdges(pk[..|pk| - 1], pwidth, n) + (if pwidth < c < n - pwidth then [c] else [])
  }

  lemma {:induction false} AwayFromEdgesProps(pk: seq<nat>, pwidth: nat, n: nat)
    ensures forall c :: c in AwayFromEdges(pk, pwidth, n) <==> c in pk && pwidth < c < n - pwidth
    ensures StrictlyAscending(pk) ==> StrictlyAscending(AwayFromEdges(pk, pwidth, n))
    decreases |pk|
  {
    if pk != [] {
      var init := pk[..|pk| - 1];
      var c := pk[|pk| - 1];
      assert pk == init + [c];
      AwayFromEdgesProps(init, pwidth, n);
      if StrictlyAscending(pk) {
        BelowLast(init, c);
        if pwidth < c < n - pwidth {
          AscendingAppend(AwayFromEdges(init, pwidth, n), c);
        }
      }
    }
  }

  /** The peak indices `pk` handed to the fitting loop. */
  function Candidates(flux: seq<real>, thresh: real, minsep: real, pwidth: nat): (pk: seq<nat>)
  {
    AwayFromEdges(Separated(Flagged(flux, thresh, |flux|), minsep), pwidth, |flux|)
  }

  /** Candidates ascend strictly, and every candidate window
      `[pk - pwidth, pk + pwidth)` lies inside the slice. */
  lemma CandidatesInWindow(flux: seq<real>, thresh: real, minsep: real, pwidth: nat)
    ensures StrictlyAscending(Candidates(flux, thresh, minsep, pwidth))
    ensures forall k :: 0 <= k < |Candidates(flux, thresh, minsep, pwidth)| ==>
      var c := Candidates(flux, thresh, minsep, pwidth)[k];
      pwidth < c && c + pwidth < |flux|
  {
    var h := Flagged(flux, thresh, |flux|);
    var sep := Separated(h, minsep);
    var pk := AwayFromEdges(sep, pwidth, |flux|);
    FlaggedProps(flux, thresh, |flux|);
    SeparatedAscending(h, minsep);
    AwayFromEdgesProps(sep, pwidth, |flux|);
    assert forall k :: 0 <= k < |pk| ==> pk[k] in pk;
  }

  /** Reference definition of a candidate: a flagged sample, away from both
      edges, whose nearest flagged predecessor lies more than `minsep` below. */
  ghost predicate IsCandidate(flux: seq<real>, thresh: real, minsep: real, pwidth: nat, c: nat) {
    && c < |flux| && flux[c] >= thresh
    && pwidth < c < |flux| - pwidth
    && exists j :: 0 <= j < c && flux[j] >= thresh && (c - j) as real > minsep && DimBetween(flux, thresh, j, c)
  }

  /** Every sample strictly between `j` and `c` is below the threshold. */
  ghost predicate DimBetween(flux: seq<real>, thresh: real, j: nat, c: nat)
    requires c <= |flux|
  {
    forall m :: j < m < c ==> flux[m] < thresh
  }

  /** No sample strictly between two consecutive flagged indices is
      flagged. */
  lemma NothingFlaggedBetween(flux: seq<real>, thresh: real, k: nat, m: nat)
    requires 1 <= k < |Flagged(flux, thresh, |flux|)|
    requires Flagged(flux, thresh, |flux|)[k - 1] < m < Flagged(flux, thresh, |flux|)[k]
    ensures m < |flux| && flux[m] < thresh
  {
    var h := Flagged(flux, thresh, |flux|);
    FlaggedProps(flux, thresh, |flux|);
    if flux[m] >= thresh {
      assert false;
    }
  }

  lemma CandidateIsSeparatedPeak(flux: seq<real>, thresh: real, minsep: real, pwidth: nat, c: nat)
    requires c in Candidates(flux, thresh, minsep, pwidth)
    ensures IsCandidate(flux, thresh, minsep, pwidth, c)
  {
    var h := Flagged(flux, thresh, |flux|);
    var sep := Separated(h, minsep);
    assert c in sep && pwidth < c < |flux| - pwidth by {
      AwayFromEdgesProps(sep, pwidth, |flux|);
    }
    assert exists k :: 1 <= k < |h| && h[k] == c && Gap(h, k) as real > minsep by {
      SeparatedMembers(h, minsep, c);
    }
    var k :| 1 <= k < |h| && h[k] == c && Gap(h, k) as real > minsep;
    var j := h[k - 1];
    assert j < c && flux[c] >= thresh && flux[j] >= thresh by {
      FlaggedProps(flux, thresh, |flux|);
    }
    forall m | j < m < c ensures flux[m] < thresh {
      NothingFlaggedBetween(flux, thresh, k, m);
    }
    assert DimBetween(flux, thresh, j, c);
  }

  lemma SeparatedPeakIsCandidate(flux: seq<real>, thresh: real, minsep: real, pwidth: nat, c: nat)
    requires IsCandidate(flux, thresh, minsep, pwidth, c)
    ensures c in Candidates(flux, thresh, minsep, pwidth)
  {
    var h := Flagged(flux, thresh, |flux|);
    var j :| 0 <= j < c && flux[j] >= thresh && (c - j) as real > minsep && DimBetween(flux, thresh, j, c);
    assert StrictlyAscending(h) && c in h && j in h
      && forall i :: 0 <= i < |h| ==> h[i] < |flux| && flux[h[i]] >= thresh by {
      FlaggedProps(flux, thresh, |flux|);
    }
    var k :| 0 <= k < |h| && h[k] == c;
    var l :| 0 <= l < |h| && h[l] == j;
    forall i | 0 <= i < |h| ensures !(h[l] < h[i] < h[k]) {
      assert flux[h[i]] >= thresh;
    }
    AdjacentInAscending(h, l, k);
    assert c in Separated(h, minsep) by {
      SeparatedComplete(h, minsep, k);
    }
    AwayFromEdgesProps(Separated(h, minsep), pwidth, |flux|);
  }

  /** In a strictly ascending sequence, an entry below `h[k]` with nothing
      strictly between the two is `h[k]`'s predecessor. */
  lemma AdjacentInAscending(h: seq<nat>, l: nat, k: nat)
    requires StrictlyAscending(h) && l < |h| && k < |h| && h[l] < h[k]
    requires forall i :: 0 <= i < |h| ==> !(h[l] < h[i] < h[k])
    ensures 1 <= k && h[k - 1] <= h[l] && l == k - 1
  {
    if l >= k {
      assert false;
    }
  }

  /** The candidates are exactly the separated peaks of the reference
      definition. */
  lemma CandidatesExactly(flux: seq<real>, thresh: real, minsep: real, pwidth: nat, c: nat)
    ensures c in Candidates(flux, thresh, minsep, pwidth) <==> IsCandidate(flux, thresh, minsep, pwidth, c)
  {
    if c in Candidates(flux, thresh, minsep, pwidth) {
      CandidateIsSeparatedPeak(flux, thresh, minsep, pwidth, c);
    }
    if IsCandidate(flux, thresh, minsep, pwidth, c) {
      SeparatedPeakIsCandidate(flux, thresh, minsep, pwidth, c);
    }
  }

  /** The first flagged sample never starts a peak. */
  lemma FirstFlaggedNotCandidate(flux: seq<real>, thresh: real, minsep: real, pwidth: nat, c: nat)
    requires c < |flux| && flux[c] >= thresh
    requires forall j :: 0 <= j < c ==> flux[j] < thresh
    ensures c !in Candidates(flux, thresh, minsep, pwidth)
  {
    if c in Candidates(flux, thresh, minsep, pwidth) {
      CandidateIsSeparatedPeak(flux, thresh, minsep, pwidth, c);
      assert false;
    }
  }

  /** With `minsep >= 1` the sample just before a candidate is below the
      threshold. */
  lemma CandidateFollowsDimSample(flux: seq<real>, thresh: real, minsep: real, pwidth: nat, c: nat)
    requires c in Candidates(flux, thresh, minsep, pwidth) && minsep >= 1.0
    ensures 1 <= c < |flux| && flux[c - 1] < thresh
  {
    CandidateIsSeparatedPeak(flux, thresh, minsep, pwidth, c);
    var j :| 0 <= j < c && flux[j] >= thresh && (c - j) as real > minsep && DimBetween(flux, thresh, j, c);
    assert j < c - 1;
    assert flux[c - 1] < thresh;
  }

  /** A flat slice (every sample at or above the threshold) has no peak when
      `minsep >= 1`: consecutive flagged indices differ by exactly one. */
  lemma FlatSliceHasNoPeaks(flux: seq<real>, thresh: real, minsep: real, pwidth: nat)
    requires forall i :: 0 <= i < |flux| ==> flux[i] >= thresh
    requires minsep >= 1.0
    ensures Candidates(flux, thresh, minsep, pwidth) == []
  {
    var pk := Candidates(flux, thresh, minsep, pwidth);
    if pk != [] {
      assert pk[0] in pk;
      CandidateFollowsDimSample(flux, thresh, minsep, pwidth, pk[0]);
      assert false;
    }
  }

  /** `flux[lo:hi]` has its first maximum at `m`. */
  ghost predicate FirstMax(flux: seq<real>, lo: int, hi: int, m: int)
    requires 0 <= lo <= hi <= |flux|
  {
    lo <= m < hi
    && (forall l :: lo <= l < hi ==> flux[l] <= flux[m])
    && (forall l :: lo <= l < m ==> flux[l] < flux[m])
  }

  /** One pass of the fitting loop for peak index `pk`: a Gaussian fit of
      the window `flux[pk - pwidth:pk + pwidth]`. On success the fitted
      centre is moved back to pixel coordinates by the window's start
      `pk - pwidth`, and the wavelength is `wave` at the window's first
      brightest sample; a fit that raises `RuntimeError` (NaN in the
      source) gives `None`. */
  function FitPeak(wave: seq<real>, flux: seq<real>, pk: nat, pwidth: nat,
                   fit: seq<real> -> Option<real>): (r: Option<Peak>)
    requires |wave| == |flux| && 1 <= pwidth <= pk && pk + pwidth <= |flux|
    ensures r.Some? <==> fit(flux[pk - pwidth .. pk + pwidth]).Some?
    ensures r.Some? ==> r.value.pix == (pk - pwidth) as real + fit(flux[pk - pwidth .. pk + pwidth]).value
    ensures r.Some? ==> exists m :: FirstMax(flux, pk - pwidth, pk + pwidth, m) && r.value.wave == wave[m]
  {
    var lo := pk - pwidth;
    var yi := flux[lo .. pk + pwidth];
    match fit(yi)
    case None => None
    case Some(c) =>
      WindowFirstMax(flux, lo, pk + pwidth);
      Some(Peak(lo as real + c, wave[lo + ArgMaxFirst(yi)]))
  }

  /** `lo + nanargmax(flux[lo:hi])` is the first maximum of that window. */
  lemma WindowFirstMax(flux: seq<real>, lo: nat, hi: nat)
    requires lo < hi <= |flux|
    ensures FirstMax(flux, lo, hi, lo + ArgMaxFirst(flux[lo .. hi]))
  {
    var yi := flux[lo .. hi];
    var m := ArgMaxFirst(yi);
    forall l | lo <= l < hi ensures flux[l] <= flux[lo + m] {
      assert yi[l - lo] == flux[l];
    }
    forall l | lo <= l < lo + m ensures flux[l] < flux[lo + m] {
      assert yi[l - lo] == flux[l];
    }
  }

  /** The fit of every candidate, in candidate order. */
  function FitAll(wave: seq<real>, flux: seq<real>, pk: seq<nat>, pwidth: nat,
                  fit: seq<real> -> Option<real>): (fits: seq<Option<Peak>>)
    requires |wave| == |flux| && pwidth >= 1
    requires forall k :: 0 <= k < |pk| ==> pwidth <= pk[k] && pk[k] + pwidth <= |flux|
  {
    seq(|pk|, k requires 0 <= k < |pk| => FitPeak(wave, flux, pk[k], pwidth, fit))
  }

  ghost predicate WaveAscending(r: seq<Peak>) {
    forall i, j :: 0 <= i < j < |r| ==> r[i].wave < r[j].wave
  }

  ghost predicate HasWave(r: seq<Peak>, w: real) {
    exists q :: q in r && q.wave == w
  }

  /** Adds `p` to a wavelength-sorted list unless its wavelength is already
      present, in which case the earlier entry is kept. */
  function InsertByWave(r: seq<Peak>, p: Peak): (s: seq<Peak>)
    decreases |r|
  {
    if r == [] then [p]
    else if p.wave < r[0].wave then [p] + r
    else if p.wave == r[0].wave then r
    else [r[0]] + InsertByWave(r[1..], p)
  }

  /** Inserting keeps the list strictly ascending by wavelength. */
  lemma {:induction false} InsertByWaveAscending(r: seq<Peak>, p: Peak)
    requires WaveAscending(r)
    ensures WaveAscending(InsertByWave(r, p))
    decreases |r|
  {
    if r != [] && p.wave > r[0].wave {
      var t := r[1..];
      InsertByWaveAscending(t, p);
      InsertByWaveMembers(t, p);
      var s' := InsertByWave(t, p);
      forall j | 0 <= j < |s'| ensures r[0].wave < s'[j].wave {
        if s'[j] in t {
          var k :| 0 <= k < |t| && t[k] == s'[j];
          assert r[k + 1] == t[k];
        }
      }
    }
  }

  /** Inserting loses nothing and adds nothing but `p`. */
  lemma {:induction false} InsertByWaveMembers(r: seq<Peak>, p: Peak)
    ensures forall q :: q in InsertByWave(r, p) ==> q in r || q == p
    ensures forall q :: q in r ==> q in InsertByWave(r, p)
    decreases |r|
  {
    if r != [] && p.wave > r[0].wave {
      InsertByWaveMembers(r[1..], p);
      assert r == [r[0]] + r[1..];
    }
  }

  /** `p` is dropped exactly when its wavelength is already present. */
  lemma {:induction false} InsertByWaveDuplicate(r: seq<Peak>, p: Peak)
    requires WaveAscending(r)
    ensures HasWave(r, p.wave) ==> InsertByWave(r, p) == r
    ensures !HasWave(r, p.wave) ==> p in InsertByWave(r, p)
    decreases |r|
  {
    if r == [] {
    } else if p.wave < r[0].wave {
    } else if p.wave == r[0].wave {
      assert r[0] in r;
    } else {
      var t := r[1..];
      assert r == [r[0]] + t;
      InsertByWaveDuplicate(t, p);
      if HasWave(r, p.wave) {
        var q :| q in r && q.wave == p.wave;
        assert q in t;
      } else {
        assert !HasWave(t, p.wave);
      }
    }
  }

  /** `np.unique(wcent_pix, return_index=True)` followed by dropping the NaN
      (failed) entries: the distinct wavelengths of the successful fits in
      ascending order, each with the centre of its first occurrence. */
  function UniqueByWave(fits: seq<Option<Peak>>): (r: seq<Peak>)
    decreases |fits|
  {
    if fits == [] then []
    else
      var prev := UniqueByWave(fits[..|fits| - 1]);
      match fits[|fits| - 1]
      case None => prev
      case Some(p) => InsertByWave(prev, p)
  }

  /** `fits[i]` is a successful fit equal to `q` and no earlier successful
      fit has the same wavelength. */
  ghost predicate FirstWithWave(fits: seq<Option<Peak>>, i: int, q: Peak) {
    0 <= i < |fits| && fits[i] == Some(q)
    && forall j :: 0 <= j < i ==> !(fits[j].Some? && fits[j].value.wave == q.wave)
  }

  /** The de-duplicated peaks ascend strictly by wavelength. */
  lemma {:induction false} UniqueByWaveAscending(fits: seq<Option<Peak>>)
    ensures WaveAscending(UniqueByWave(fits))
    decreases |fits|
  {
    if fits != [] {
      UniqueByWaveAscending(fits[..|fits| - 1]);
      if fits[|fits| - 1].Some? {
        InsertByWaveAscending(UniqueByWave(fits[..|fits| - 1]), fits[|fits| - 1].value);
      }
    }
  }

  /** Every kept peak is the first successful fit with its wavelength. */
  lemma {:induction false} UniqueByWaveKeepsFirst(fits: seq<Option<Peak>>, q: Peak)
    requires q in UniqueByWave(fits)
    ensures exists i :: FirstWithWave(fits, i, q)
    decreases |fits|
  {
    var init := fits[..|fits| - 1];
    var prev := UniqueByWave(init);
    if q in prev {
      UniqueByWaveKeepsFirst(init, q);
      var i :| FirstWithWave(init, i, q);
      assert FirstWithWave(fits, i, q);
    } else {
      var p := fits[|fits| - 1].value;
      UniqueByWaveAscending(init);
      InsertByWaveMembers(prev, p);
      InsertByWaveDuplicate(prev, p);
      assert q == p && !HasWave(prev, p.wave);
      forall j | 0 <= j < |fits| - 1 ensures !(fits[j].Some? && fits[j].value.wave == q.wave) {
        assert init[j] == fits[j];
        if fits[j].Some? && fits[j].value.wave == q.wave {
          UniqueByWaveComplete(init, j);
        }
      }
      assert FirstWithWave(fits, |fits| - 1, q);
    }
  }

  /** Every successful fit's wavelength survives de-duplication. */
  lemma {:induction false} UniqueByWaveComplete(fits: seq<Option<Peak>>, i: nat)
    requires i < |fits| && fits[i].Some?
    ensures HasWave(UniqueByWave(fits), fits[i].value.wave)
    decreases |fits|
  {
    var init := fits[..|fits| - 1];
    var prev := UniqueByWave(init);
    var r := UniqueByWave(fits);
    var w := fits[i].value.wave;
    if fits[|fits| - 1].Some? {
      var p := fits[|fits| - 1].value;
      UniqueByWaveAscending(init);
      InsertByWaveMembers(prev, p);
      InsertByWaveDuplicate(prev, p);
    }
    if i < |fits| - 1 {
      assert init[i] == fits[i];
      UniqueByWaveComplete(init, i);
      var q :| q in prev && q.wave == w;
      assert q in r;
    } else if HasWave(prev, w) {
      var q :| q in prev && q.wave == w;
      assert q in r;
    } else {
      assert fits[i].value in r;
    }
  }

  /** The `(pixel, wavelength)` pairs `find_peaks` returns, in order. */
  function PeakList(wave: seq<real>, flux: seq<real>, pwidth: nat, thresh: real, minsep: real,
                    fit: seq<real> -> Option<real>): seq<Peak>
    requires |wave| == |flux| && pwidth >= 1
  {
    CandidatesInWindow(flux, thresh, minsep, pwidth);
    UniqueByWave(FitAll(wave, flux, Candidates(flux, thresh, minsep, pwidth), pwidth, fit))
  }

  /** `find_peaks`: fills the per-candidate fit arrays, then de-duplicates.
      The wavelengths come out strictly increasing, each paired with the
      centre of the first candidate that produced it. */
  method FindPeaks(wave: seq<real>, flux: seq<real>, pwidth: nat, thresh: real, minsep: real,
                   fit: seq<real> -> Option<real>) returns (pcent: seq<real>, wcent: seq<real>)
    requires |wave| == |flux| && pwidth >= 1
    ensures pcent == Pixels(PeakList(wave, flux, pwidth, thresh, minsep, fit))
    ensures wcent == Waves(PeakList(wave, flux, pwidth, thresh, minsep, fit))
    ensures forall k, l :: 0 <= k < l < |wcent| ==> wcent[k] < wcent[l]
  {
    var pk := Candidates(flux, thresh, minsep, pwidth);
    CandidatesInWindow(flux, thresh, minsep, pwidth);
    var fitted := new Option<Peak>[|pk|];
    for i := 0 to |pk|
      invariant forall j :: 0 <= j < i ==> fitted[j] == FitPeak(wave, flux, pk[j], pwidth, fit)
    {
      FitInto(wave, flux, pk[i], pwidth, fit, fitted, i);
    }
    assert fitted[..] == FitAll(wave, flux, pk, pwidth, fit);
    var unique := UniqueByWave(fitted[..]);
    assert unique == PeakList(wave, flux, pwidth, thresh, minsep, fit);
    UniqueByWaveAscending(fitted[..]);
    pcent := Pixels(unique);
    wcent := Waves(unique);
  }

  /** One pass of the fitting loop: the window around candidate `c` is
      fitted and the peak, or `None` when the fit raises, stored at
      `fitted[i]`. */
  method FitInto(wave: seq<real>, flux: seq<real>, c: nat, pwidth: nat, fit: seq<real> -> Option<real>,
                 fitted: array<Option<Peak>>, i: nat)
    requires |wave| == |flux| && 1 <= pwidth <= c && c + pwidth <= |flux| && i < fitted.Length
    modifies fitted
    ensures fitted[i] == FitPeak(wave, flux, c, pwidth, fit)
    ensures forall j :: 0 <= j < fitted.Length && j != i ==> fitted[j] == old(fitted[j])
  {
    var lo := c - pwidth;
    var yi := flux[lo .. c + pwidth];
    match fit(yi) {
      case Some(x) =>
        fitted[i] := Some(Peak(lo as real + x, wave[lo + ArgMaxFirst(yi)]));
      case None =>
        fitted[i] := None;
    }
  }

  /** The centres of a list of peaks. */
  function Pixels(peaks: seq<Peak>): (p: seq<real>)
    ensures |p| == |peaks| && forall k :: 0 <= k < |peaks| ==> p[k] == peaks[k].pix
  {
    seq(|peaks|, k requires 0 <= k < |peaks| => peaks[k].pix)
  }

  /** The wavelengths of a list of peaks. */
  function Waves(peaks: seq<Peak>): (w: seq<real>)
    ensures |w| == |peaks| && forall k :: 0 <= k < |peaks| ==> w[k] == peaks[k].wave
  {
    seq(|peaks|, k requires 0 <= k < |peaks| => peaks[k].wave)
  }
}
