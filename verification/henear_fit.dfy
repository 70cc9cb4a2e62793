/** `HeNeAr_fit` in automatic mode: the wavelength solution of a HeNeAr
    arc-lamp image.

    A rough linear solution comes from the header (`DISPDW` per pixel
    around `DISPWC`, reversed on the red detector). Lines are found in a
    20-row slice through the chip's middle and paired, from the centre
    wavelength outwards, with the nearest entry of a line list when the
    predicted wavelength is within `tol` of it; every accepted pair with
    more than `fit_order` pairs in hand refits the polynomial. An optional
    second pass repeats the pairing against a finer list with the
    coefficients held fixed. The first-pass pairs are then traced along the
    slit and turned into a wavelength for every pixel.

    `np.percentile`, the Gaussian fits and `np.polyfit` are oracles; the
    header, the image and the line lists are values. */
module HeNeArFit {
  import opened Numerics
  import CheckMono
  import FindPeaks
  import LineTrace
  import LinesToSurface

  /** The header keywords read; `None` is a missing keyword. */
  datatype Header = Header(dispdw: Option<real>, dispwc: Option<real>, detector: Option<string>)

  /** The rough solution: dispersion per pixel, central wavelength and the
      direction of the wavelength axis. */
  datatype Guess = Guess(disp: real, wcen: real, sign: real)

  /** Pixels summed on each side of the middle row. */
  const SliceHalfHeight: int := 10

  /** `pwidth` and `minsep` of both `find_peaks` calls. */
  const PeakWidth: nat := 10
  const PeakSep: real := 1.0

  /** The flux percentiles used as peak thresholds in the two passes. */
  const FirstThreshold: real := 97.0
  const SecondThreshold: real := 80.0

  /** `str.lower()` on ASCII letters. */
  function LowerChar(c: char): char {
    if 'A' <= c <= 'Z' then (c as int + 32) as char else c
  }

  function Lower(s: string): (t: string)
    ensures |t| == |s| && forall i :: 0 <= i < |s| ==> t[i] == LowerChar(s[i])
  {
    seq(|s|, i requires 0 <= i < |s| => LowerChar(s[i]))
  }

  /** The detector names the red chip, in any mix of letter case. */
  predicate SpellsRed(d: string) {
    |d| == 3 && (d[0] == 'r' || d[0] == 'R') && (d[1] == 'e' || d[1] == 'E') && (d[2] == 'd' || d[2] == 'D')
  }

  /** The header block: both dispersion keywords or neither (a `KeyError`
      on either resets both), and sign `-1` only for the red detector. */
  function HeaderGuess(hdr: Header): Guess {
    var disp := if hdr.dispdw.Some? && hdr.dispwc.Some? then hdr.dispdw.value else 0.0;
    var wcen := if hdr.dispdw.Some? && hdr.dispwc.Some? then hdr.dispwc.value else 1.0;
    var sign := if hdr.detector.Some? && Lower(hdr.detector.value) == "red" then -1.0 else 1.0;
    Guess(disp, wcen, sign)
  }

  /** The axis runs backwards exactly on a detector called red in any case;
      a header missing `DISPWC` loses `DISPDW` as well. */
  lemma HeaderGuessRule(hdr: Header)
    ensures HeaderGuess(hdr).sign == -1.0 <==> hdr.detector.Some? && SpellsRed(hdr.detector.value)
    ensures HeaderGuess(hdr).sign == 1.0 || HeaderGuess(hdr).sign == -1.0
    ensures hdr.dispwc.None? || hdr.dispdw.None? ==>
      HeaderGuess(hdr).disp == 0.0 && HeaderGuess(hdr).wcen == 1.0
    ensures hdr.dispwc.Some? && hdr.dispdw.Some? ==>
      HeaderGuess(hdr).disp == hdr.dispdw.value && HeaderGuess(hdr).wcen == hdr.dispwc.value
  {
    if hdr.detector.Some? {
      var d := hdr.detector.value;
      if |d| == 3 {
        assert Lower(d) == "red" <==> LowerChar(d[0]) == 'r' && LowerChar(d[1]) == 'e' && LowerChar(d[2]) == 'd';
      } else {
        assert |Lower(d)| != |"red"|;
      }
    }
  }

  /** The rows `[lo, hi)` of `img[int(h/2-10):int(h/2+10)]`. */
  function CentralRows(h: nat): (nat, nat) {
    (SliceBound(Trunc(h as real / 2.0 - SliceHalfHeight as real), h),
     SliceBound(Trunc(h as real / 2.0 + SliceHalfHeight as real), h))
  }

  /** On a chip at least 20 rows high the slice is the 20 rows centred on
      row `h / 2`. */
  lemma CentralRowsTall(h: nat)
    requires h >= 2 * SliceHalfHeight
    ensures CentralRows(h).0 == h / 2 - SliceHalfHeight
    ensures CentralRows(h).1 == CentralRows(h).0 + 2 * SliceHalfHeight
  {
    var m := h / 2;
    assert m as real <= h as real / 2.0 < m as real + 1.0;
    assert Trunc(h as real / 2.0 - 10.0) == m - 10;
    assert Trunc(h as real / 2.0 + 10.0) == m + 10;
  }

  /** On a shorter chip of even height the negative start counts from the
      end, so the slice keeps only the chip's top rows. */
  lemma CentralRowsShort(h: nat)
    requires 8 <= h < 2 * SliceHalfHeight && h % 2 == 0
    ensures CentralRows(h) == (h + h / 2 - SliceHalfHeight, h)
  {
    var m := h / 2;
    assert h as real / 2.0 == m as real;
    assert Trunc(m as real - 10.0) == m - 10;
    assert Trunc(m as real + 10.0) == m + 10;
  }

  /** The sum over rows `[lo, hi)` of column `c`. */
  function RowSum(img: seq<seq<real>>, lo: nat, hi: nat, c: nat): real
    requires lo <= hi <= |img| && forall r :: lo <= r < hi ==> c < |img[r]|
  {
    Sum(seq(hi - lo, k requires 0 <= k < hi - lo => img[lo + k][c]))
  }

  /** `img[int(h/2-10):int(h/2+10), :].sum(axis=0)`; an empty row range
      sums to zero. */
  function CentralSlice(img: seq<seq<real>>, h: nat, w: nat): (slice: seq<real>)
    requires IsGrid(img, h, w)
    ensures |slice| == w
  {
    var (lo, hi) := CentralRows(h);
    seq(w, c requires 0 <= c < w =>
      if lo < hi then RowSum(img, lo, hi, c) else 0.0)
  }

  /** Wavelength per pixel of the rough solution, `disp * sign`. */
  function Slope(g: Guess): real {
    g.disp * g.sign
  }

  /** `(np.arange(L) - L/2) * disp * sign + wcen`. */
  function LinearGuess(n: nat, g: Guess): (wtemp: seq<real>)
    ensures |wtemp| == n
  {
    seq(n, k requires 0 <= k < n => (k as real - n as real / 2.0) * Slope(g) + g.wcen)
  }

  /** The linear guess runs in the direction of `disp * sign`, so it never
      makes `_CheckMono` warn unless the header gave no dispersion. */
  lemma LinearGuessDirection(n: nat, g: Guess)
    ensures Slope(g) > 0.0 ==> CheckMono.Increasing(LinearGuess(n, g))
    ensures Slope(g) < 0.0 ==> CheckMono.Decreasing(LinearGuess(n, g))
    ensures n >= 2 && Slope(g) == 0.0 ==> CheckMono.CheckMono(LinearGuess(n, g))
  {
    var wt := LinearGuess(n, g);
    var a := Slope(g);
    if a > 0.0 {
      forall i, j | 0 <= i < j < n ensures wt[i] < wt[j] {
        GuessStep(n, g, i, j);
        assert (j - i) as real * a > 0.0;
      }
    } else if a < 0.0 {
      forall i, j | 0 <= i < j < n ensures wt[i] > wt[j] {
        GuessStep(n, g, i, j);
        assert (j - i) as real * a < 0.0;
      }
    } else if n >= 2 {
      GuessStep(n, g, 0, 1);
    }
  }

  /** Guesses `j - i` pixels apart differ by that many slopes. */
  lemma GuessStep(n: nat, g: Guess, i: nat, j: nat)
    requires i < j < n
    ensures LinearGuess(n, g)[j] - LinearGuess(n, g)[i] == (j - i) as real * Slope(g)
  {
    var xi, xj := i as real - n as real / 2.0, j as real - n as real / 2.0;
    assert xj * Slope(g) - xi * Slope(g) == (xj - xi) * Slope(g);
  }

  /** `np.append(np.zeros(fit_order - 1), (disp * sign, wcen))`; `None` when
      `fit_order` is 0 (NumPy refuses a negative size). */
  function InitialCoeff(fitOrder: nat, g: Guess): (c: Option<seq<real>>)
    ensures c.Some? <==> fitOrder >= 1
    ensures c.Some? ==> |c.value| == fitOrder + 1
  {
    if fitOrder < 1 then None else Some(Zeros(fitOrder - 1) + [Slope(g), g.wcen])
  }

  /** The starting polynomial is the linear guess: at every pixel,
      centred on the middle of the slice, it gives the guessed wavelength. */
  lemma InitialCoeffIsGuess(fitOrder: nat, g: Guess, n: nat, k: nat)
    requires fitOrder >= 1 && k < n
    ensures PolyVal(InitialCoeff(fitOrder, g).value, k as real - n as real / 2.0) == LinearGuess(n, g)[k]
  {
    var x := k as real - n as real / 2.0;
    var c := [Slope(g), g.wcen];
    PolyValLeadingZeros(fitOrder - 1, c, x);
    assert c[..1] == [Slope(g)] && [Slope(g)][..0] == [];
    assert PolyVal([Slope(g)], x) == PolyVal([], x) * x + Slope(g);
    assert PolyVal(c, x) == PolyVal([Slope(g)], x) * x + g.wcen;
    assert InitialCoeff(fitOrder, g).value == Zeros(fitOrder - 1) + c;
    assert PolyVal(c, x) == x * Slope(g) + g.wcen;
  }

  /** Index `a` comes before index `b` in the `argsort` of `keys`: a smaller
      key, or an equal key and a smaller index. */
  predicate Before(keys: seq<real>, a: nat, b: nat)
    requires a < |keys| && b < |keys|
  {
    keys[a] < keys[b] || (keys[a] == keys[b] && a < b)
  }

  ghost predicate SortedBy(keys: seq<real>, s: seq<nat>) {
    (forall k :: 0 <= k < |s| ==> s[k] < |keys|)
    && forall i, j :: 0 <= i < j < |s| ==> Before(keys, s[i], s[j])
  }

  /** Inserts index `i` into the ordered `s`, ahead of the first entry it
      comes before. */
  function InsertIndex(keys: seq<real>, s: seq<nat>, i: nat): (r: seq<nat>)
    requires i < |keys| && forall k :: 0 <= k < |s| ==> s[k] < |keys|
    ensures |r| == |s| + 1 && forall k :: 0 <= k < |r| ==> r[k] < |keys|
    decreases |s|
  {
    if s == [] then [i]
    else if Before(keys, i, s[0]) then [i] + s
    else [s[0]] + InsertIndex(keys, s[1..], i)
  }

  lemma {:induction false} InsertIndexProps(keys: seq<real>, s: seq<nat>, i: nat)
    requires i < |keys| && SortedBy(keys, s) && i !in s
    ensures SortedBy(keys, InsertIndex(keys, s, i))
    ensures forall x :: x in InsertIndex(keys, s, i) <==> x in s || x == i
    decreases |s|
  {
    if s != [] && !Before(keys, i, s[0]) {
      var t := s[1..];
      SortedTail(keys, s);
      InsertIndexProps(keys, t, i);
      var u := InsertIndex(keys, t, i);
      forall k | 0 <= k < |u| ensures Before(keys, s[0], u[k]) {
        if u[k] != i {
          assert u[k] in u;
          var m :| 0 <= m < |t| && t[m] == u[k];
          assert s[m + 1] == u[k];
        } else {
          assert s[0] in s;
        }
      }
      SortedCons(keys, s[0], u);
      assert InsertIndex(keys, s, i) == [s[0]] + u;
      assert s == [s[0]] + t;
    }
  }

  /** The tail of an ordered index list is ordered. */
  lemma SortedTail(keys: seq<real>, s: seq<nat>)
    requires SortedBy(keys, s) && s != []
    ensures SortedBy(keys, s[1..])
  {
    var t := s[1..];
    forall a, b | 0 <= a < b < |t| ensures Before(keys, t[a], t[b]) {
      assert t[a] == s[a + 1] && t[b] == s[b + 1];
    }
  }

  /** An index before every entry of an ordered list can lead it. */
  lemma SortedCons(keys: seq<real>, x: nat, u: seq<nat>)
    requires x < |keys| && SortedBy(keys, u)
    requires forall k :: 0 <= k < |u| ==> Before(keys, x, u[k])
    ensures SortedBy(keys, [x] + u)
  {
    var r := [x] + u;
    forall a, b | 0 <= a < b < |r| ensures Before(keys, r[a], r[b]) {
      if a == 0 {
        assert r[b] == u[b - 1];
      } else {
        assert r[a] == u[a - 1] && r[b] == u[b - 1];
      }
    }
  }

  /** The `argsort` of the first `n` keys. */
  function ArgSortPrefix(keys: seq<real>, n: nat): (r: seq<nat>)
    requires n <= |keys|
    ensures |r| == n && forall k :: 0 <= k < |r| ==> r[k] < |keys|
  {
    if n == 0 then [] else InsertIndex(keys, ArgSortPrefix(keys, n - 1), n - 1)
  }

  /** `np.argsort(keys)`, ties broken by index. */
  function ArgSort(keys: seq<real>): (r: seq<nat>)
    ensures |r| == |keys| && forall k :: 0 <= k < |r| ==> r[k] < |keys|
  {
    ArgSortPrefix(keys, |keys|)
  }

  lemma {:induction false} ArgSortPrefixProps(keys: seq<real>, n: nat)
    requires n <= |keys|
    ensures SortedBy(keys, ArgSortPrefix(keys, n))
    ensures forall x :: x in ArgSortPrefix(keys, n) <==> 0 <= x < n
  {
    if n > 0 {
      var prev := ArgSortPrefix(keys, n - 1);
      ArgSortPrefixProps(keys, n - 1);
      InsertIndexProps(keys, prev, n - 1);
      forall x ensures x in ArgSortPrefix(keys, n) <==> 0 <= x < n {
        assert x in ArgSortPrefix(keys, n) <==> x in prev || x == n - 1;
      }
    } else {
      assert ArgSortPrefix(keys, n) == [];
    }
  }

  /** The order visits every index exactly once, nearer keys first and
      equal keys in index order. */
  lemma ArgSortProps(keys: seq<real>)
    ensures forall x :: x in ArgSort(keys) <==> 0 <= x < |keys|
    ensures forall i, j :: 0 <= i < j < |keys| ==>
      ArgSort(keys)[i] != ArgSort(keys)[j] && Before(keys, ArgSort(keys)[i], ArgSort(keys)[j])
  {
    ArgSortPrefixProps(keys, |keys|);
  }

  /** `np.abs(wcent_pix - wcen_approx)`. */
  function Distances(waves: seq<real>, wcen: real): (d: seq<real>)
    ensures |d| == |waves| && forall k :: 0 <= k < |waves| ==> d[k] == Abs(waves[k] - wcen)
  {
    seq(|waves|, k requires 0 <= k < |waves| => Abs(waves[k] - wcen))
  }

  /** `np.argmin(np.abs(pred - linewave))`: the first list line nearest to
      `pred`. */
  function NearestLine(pred: real, lines: seq<real>): (m: nat)
    requires |lines| > 0
    ensures m < |lines|
    ensures forall j :: 0 <= j < |lines| ==> Abs(pred - lines[m]) <= Abs(pred - lines[j])
    ensures forall j :: 0 <= j < m ==> Abs(pred - lines[m]) < Abs(pred - lines[j])
    decreases |lines|
  {
    if |lines| == 1 then 0
    else
      var m := NearestLine(pred, lines[..|lines| - 1]);
      if Abs(pred - lines[|lines| - 1]) < Abs(pred - lines[m]) then |lines| - 1 else m
  }

  /** The settings of one pairing pass: the line list, the tolerance, the
      centre `L / 2` the polynomial is taken about, the fit order, and
      whether accepted pairs refit the polynomial (first pass) or not
      (second pass). */
  datatype Pairing = Pairing(lines: seq<real>, tol: real, half: real, fitOrder: nat, refit: bool)

  /** The accepted pixel and wavelength pairs and the current coefficients. */
  datatype Matched = Matched(pcent: seq<real>, wcent: seq<real>, coeff: seq<real>)

  /** `pcent - len(slice)/2`. */
  function Centered(p: seq<real>, half: real): (q: seq<real>)
    ensures |q| == |p| && forall k :: 0 <= k < |p| ==> q[k] == p[k] - half
  {
    seq(|p|, k requires 0 <= k < |p| => p[k] - half)
  }

  /** One turn of the pairing loop, for the peak at pixel `x`. */
  function MatchStep(st: Matched, x: real, cfg: Pairing,
                     polyfit: (seq<real>, seq<real>, nat) -> seq<real>): Matched
    requires |cfg.lines| > 0
  {
    var pred := PolyVal(st.coeff, x - cfg.half);
    var m := NearestLine(pred, cfg.lines);
    if Abs(pred - cfg.lines[m]) < cfg.tol then
      var p := st.pcent + [x];
      var w := st.wcent + [cfg.lines[m]];
      Matched(p, w, if cfg.refit && |p| > cfg.fitOrder then polyfit(Centered(p, cfg.half), w, cfg.fitOrder)
                    else st.coeff)
    else st
  }

  /** Some list line lies within the tolerance of the wavelength the current
      coefficients predict at pixel `x`. */
  ghost predicate Accepts(st: Matched, x: real, cfg: Pairing) {
    exists j :: 0 <= j < |cfg.lines| && Abs(PolyVal(st.coeff, x - cfg.half) - cfg.lines[j]) < cfg.tol
  }

  /** A peak is kept exactly when some list line is within the tolerance of
      its predicted wavelength, and then it is paired with the nearest such
      line; a peak that is not kept changes nothing. */
  lemma MatchStepRule(st: Matched, x: real, cfg: Pairing, polyfit: (seq<real>, seq<real>, nat) -> seq<real>)
    requires |cfg.lines| > 0
    ensures Accepts(st, x, cfg) ==> MatchStep(st, x, cfg, polyfit).pcent == st.pcent + [x]
    ensures Accepts(st, x, cfg) ==>
      MatchStep(st, x, cfg, polyfit).wcent
      == st.wcent + [cfg.lines[NearestLine(PolyVal(st.coeff, x - cfg.half), cfg.lines)]]
    ensures Accepts(st, x, cfg) ==>
      Abs(PolyVal(st.coeff, x - cfg.half) - cfg.lines[NearestLine(PolyVal(st.coeff, x - cfg.half), cfg.lines)])
      < cfg.tol
    ensures !Accepts(st, x, cfg) ==> MatchStep(st, x, cfg, polyfit) == st
  {
    var pred := PolyVal(st.coeff, x - cfg.half);
    NearestWithin(pred, cfg.lines, cfg.tol);
    var m := NearestLine(pred, cfg.lines);
    if Abs(pred - cfg.lines[m]) < cfg.tol {
      assert MatchStep(st, x, cfg, polyfit).pcent == st.pcent + [x];
      assert MatchStep(st, x, cfg, polyfit).wcent == st.wcent + [cfg.lines[m]];
    } else {
      assert MatchStep(st, x, cfg, polyfit) == st;
    }
  }

  /** A peak offered either changes nothing or appends itself and the
      nearest list line. */
  lemma MatchStepShape(st: Matched, x: real, cfg: Pairing, polyfit: (seq<real>, seq<real>, nat) -> seq<real>)
    requires |cfg.lines| > 0
    ensures MatchStep(st, x, cfg, polyfit) == st
      || MatchStep(st, x, cfg, polyfit)
         == Matched(st.pcent + [x], st.wcent + [cfg.lines[NearestLine(PolyVal(st.coeff, x - cfg.half), cfg.lines)]],
                    MatchStep(st, x, cfg, polyfit).coeff)
  {
  }

  /** Some line lies within the tolerance exactly when the nearest one
      does. */
  lemma NearestWithin(pred: real, lines: seq<real>, tol: real)
    requires |lines| > 0
    ensures (exists j :: 0 <= j < |lines| && Abs(pred - lines[j]) < tol)
      <==> Abs(pred - lines[NearestLine(pred, lines)]) < tol
  {
    var m := NearestLine(pred, lines);
    if exists j :: 0 <= j < |lines| && Abs(pred - lines[j]) < tol {
      var j :| 0 <= j < |lines| && Abs(pred - lines[j]) < tol;
      assert Abs(pred - lines[m]) <= Abs(pred - lines[j]);
    }
  }

  /** The state after the peaks at `pix[order[0]], pix[order[1]], ...` have
      been offered in turn. */
  function MatchFold(order: seq<nat>, pix: seq<real>, st0: Matched, cfg: Pairing,
                     polyfit: (seq<real>, seq<real>, nat) -> seq<real>): (r: Matched)
    requires |cfg.lines| > 0 && forall k :: 0 <= k < |order| ==> order[k] < |pix|
    ensures |st0.pcent| == |st0.wcent| ==> |r.pcent| == |r.wcent|
    decreases |order|
  {
    if order == [] then st0
    else
      var n := |order| - 1;
      MatchStep(MatchFold(order[..n], pix, st0, cfg, polyfit), pix[order[n]], cfg, polyfit)
  }

  /** Pairs are only ever appended, at most one per peak offered. */
  lemma {:induction false} MatchFoldGrows(order: seq<nat>, pix: seq<real>, st0: Matched, cfg: Pairing,
                                          polyfit: (seq<real>, seq<real>, nat) -> seq<real>)
    requires |cfg.lines| > 0 && forall k :: 0 <= k < |order| ==> order[k] < |pix|
    requires |st0.pcent| == |st0.wcent|
    ensures var r := MatchFold(order, pix, st0, cfg, polyfit);
      |st0.pcent| <= |r.pcent| == |r.wcent| <= |st0.pcent| + |order|
      && r.pcent[..|st0.pcent|] == st0.pcent && r.wcent[..|st0.wcent|] == st0.wcent
    decreases |order|
  {
    if order != [] {
      var n := |order| - 1;
      var prev := MatchFold(order[..n], pix, st0, cfg, polyfit);
      MatchFoldGrows(order[..n], pix, st0, cfg, polyfit);
      MatchStepShape(prev, pix[order[n]], cfg, polyfit);
      var r := MatchFold(order, pix, st0, cfg, polyfit);
      if r != prev {
        assert r.pcent[..|prev.pcent|] == prev.pcent;
        assert r.pcent[..|st0.pcent|] == prev.pcent[..|st0.pcent|];
        assert r.wcent[..|st0.wcent|] == prev.wcent[..|st0.wcent|];
      }
    }
  }

  /** The pixels of the peaks in the order they are offered. */
  function Offered(order: seq<nat>, pix: seq<real>): (o: seq<real>)
    requires forall k :: 0 <= k < |order| ==> order[k] < |pix|
    ensures |o| == |order| && forall i :: 0 <= i < |order| ==> o[i] == pix[order[i]]
  {
    seq(|order|, i requires 0 <= i < |order| => pix[order[i]])
  }

  /** Each new pair's wavelength is a list line. */
  lemma {:induction false} MatchFoldWaves(order: seq<nat>, pix: seq<real>, st0: Matched, cfg: Pairing,
                                          polyfit: (seq<real>, seq<real>, nat) -> seq<real>)
    requires |cfg.lines| > 0 && forall k :: 0 <= k < |order| ==> order[k] < |pix|
    requires |st0.pcent| == |st0.wcent|
    ensures forall j :: |st0.wcent| <= j < |MatchFold(order, pix, st0, cfg, polyfit).wcent| ==>
      MatchFold(order, pix, st0, cfg, polyfit).wcent[j] in cfg.lines
    decreases |order|
  {
    if order != [] {
      var n := |order| - 1;
      var x := pix[order[n]];
      var prev := MatchFold(order[..n], pix, st0, cfg, polyfit);
      MatchFoldWaves(order[..n], pix, st0, cfg, polyfit);
      MatchStepShape(prev, x, cfg, polyfit);
      var r := MatchFold(order, pix, st0, cfg, polyfit);
      if r != prev {
        var line := cfg.lines[NearestLine(PolyVal(prev.coeff, x - cfg.half), cfg.lines)];
        assert r.wcent == prev.wcent + [line];
        forall j | |st0.wcent| <= j < |r.wcent| ensures r.wcent[j] in cfg.lines {
          if j < |prev.wcent| {
            assert r.wcent[j] == prev.wcent[j];
          }
        }
      }
    }
  }

  /** Each new pair's pixel is that of a peak offered. */
  lemma {:induction false} MatchFoldPixels(order: seq<nat>, pix: seq<real>, st0: Matched, cfg: Pairing,
                                           polyfit: (seq<real>, seq<real>, nat) -> seq<real>)
    requires |cfg.lines| > 0 && forall k :: 0 <= k < |order| ==> order[k] < |pix|
    ensures forall j :: |st0.pcent| <= j < |MatchFold(order, pix, st0, cfg, polyfit).pcent| ==>
      MatchFold(order, pix, st0, cfg, polyfit).pcent[j] in Offered(order, pix)
    decreases |order|
  {
    if order != [] {
      var n := |order| - 1;
      var x := pix[order[n]];
      var prev := MatchFold(order[..n], pix, st0, cfg, polyfit);
      MatchFoldPixels(order[..n], pix, st0, cfg, polyfit);
      MatchStepShape(prev, x, cfg, polyfit);
      var o := Offered(order[..n], pix);
      var all := Offered(order, pix);
      var r := MatchFold(order, pix, st0, cfg, polyfit);
      if r != prev {
        assert r.pcent == prev.pcent + [x];
        forall j | |st0.pcent| <= j < |r.pcent| ensures r.pcent[j] in all {
          if j < |prev.pcent| {
            var i :| 0 <= i < |o| && o[i] == prev.pcent[j];
            assert all[i] == o[i];
          } else {
            assert all[n] == x;
          }
        }
      }
    }
  }

  /** Offering one more peak is one more step. */
  lemma MatchFoldStep(order: seq<nat>, k: nat, pix: seq<real>, st0: Matched, cfg: Pairing,
                      polyfit: (seq<real>, seq<real>, nat) -> seq<real>)
    requires |cfg.lines| > 0 && forall k :: 0 <= k < |order| ==> order[k] < |pix|
    requires k < |order|
    ensures MatchFold(order[..k + 1], pix, st0, cfg, polyfit)
         == MatchStep(MatchFold(order[..k], pix, st0, cfg, polyfit), pix[order[k]], cfg, polyfit)
  {
    assert order[..k + 1][..k] == order[..k];
  }

  /** Without refitting (the second pass) the coefficients never change. */
  lemma {:induction false} MatchFoldFixed(order: seq<nat>, pix: seq<real>, st0: Matched, cfg: Pairing,
                                          polyfit: (seq<real>, seq<real>, nat) -> seq<real>)
    requires |cfg.lines| > 0 && forall k :: 0 <= k < |order| ==> order[k] < |pix|
    requires !cfg.refit
    ensures MatchFold(order, pix, st0, cfg, polyfit).coeff == st0.coeff
    decreases |order|
  {
    if order != [] {
      MatchFoldFixed(order[..|order| - 1], pix, st0, cfg, polyfit);
    }
  }

  /** With refitting (the first pass), starting from at most `fit_order`
      pairs: while there are still at most `fit_order` pairs the starting
      coefficients stay, and once there are more the coefficients are the
      fit to exactly the pairs accepted so far. */
  lemma {:induction false} MatchFoldRefits(order: seq<nat>, pix: seq<real>, st0: Matched, cfg: Pairing,
                                           polyfit: (seq<real>, seq<real>, nat) -> seq<real>)
    requires |cfg.lines| > 0 && forall k :: 0 <= k < |order| ==> order[k] < |pix|
    requires cfg.refit && |st0.pcent| <= cfg.fitOrder
    ensures var r := MatchFold(order, pix, st0, cfg, polyfit);
      (|r.pcent| <= cfg.fitOrder ==> r.coeff == st0.coeff)
      && (|r.pcent| > cfg.fitOrder ==> r.coeff == polyfit(Centered(r.pcent, cfg.half), r.wcent, cfg.fitOrder))
    decreases |order|
  {
    if order != [] {
      var n := |order| - 1;
      var prev := MatchFold(order[..n], pix, st0, cfg, polyfit);
      MatchFoldRefits(order[..n], pix, st0, cfg, polyfit);
      MatchStepRule(prev, pix[order[n]], cfg, polyfit);
    }
  }

  /** The pairing pass over the peaks at pixels `pix` whose rough
      wavelengths are `wpix`, offered from the wavelength nearest `wcen`
      outwards; `None` when there are peaks but the line list is empty
      (`min` of an empty array raises). */
  function Identified(pix: seq<real>, wpix: seq<real>, wcen: real, coeff0: seq<real>, cfg: Pairing,
                      polyfit: (seq<real>, seq<real>, nat) -> seq<real>): (r: Option<Matched>)
    requires |pix| == |wpix|
    ensures r.Some? ==> |r.value.pcent| == |r.value.wcent|
  {
    if |pix| == 0 then Some(Matched([], [], coeff0))
    else if |cfg.lines| == 0 then None
    else Some(MatchFold(ArgSort(Distances(wpix, wcen)), pix, Matched([], [], coeff0), cfg, polyfit))
  }

  /** The pairing loop of either pass. */
  method Identify(pix: seq<real>, wpix: seq<real>, wcen: real, coeff0: seq<real>, cfg: Pairing,
                  polyfit: (seq<real>, seq<real>, nat) -> seq<real>)
    returns (res: Option<Matched>)
    requires |pix| == |wpix|
    ensures res == Identified(pix, wpix, wcen, coeff0, cfg, polyfit)
  {
    if |pix| == 0 {
      return Some(Matched([], [], coeff0));
    }
    if |cfg.lines| == 0 {
      return None;
    }
    var ss := ArgSort(Distances(wpix, wcen));
    var st := Matched([], [], coeff0);
    for i := 0 to |pix|
      invariant st == MatchFold(ss[..i], pix, Matched([], [], coeff0), cfg, polyfit)
    {
      MatchFoldStep(ss, i, pix, Matched([], [], coeff0), cfg, polyfit);
      st := Offer(st, pix[ss[i]], cfg, polyfit);
    }
    assert ss[..|pix|] == ss;
    res := Some(st);
  }

  /** One turn of the pairing loop as the source runs it: predict, find the
      nearest line, and keep the pair (refitting in the first pass) when it
      is within the tolerance. This is the loop body split out; its meaning
      is `MatchStep`. */
  method Offer(st: Matched, x: real, cfg: Pairing, polyfit: (seq<real>, seq<real>, nat) -> seq<real>)
    returns (next: Matched)
    requires |cfg.lines| > 0
    ensures next == MatchStep(st, x, cfg, polyfit)
  {
    var pcent, wcent, coeff := st.pcent, st.wcent, st.coeff;
    var pred := PolyVal(coeff, x - cfg.half);
    var m := NearestLine(pred, cfg.lines);
    if Abs(pred - cfg.lines[m]) < cfg.tol {
      pcent := pcent + [x];
      wcent := wcent + [cfg.lines[m]];
      if cfg.refit && |pcent| > cfg.fitOrder {
        coeff := polyfit(Centered(pcent, cfg.half), wcent, cfg.fitOrder);
      }
    }
    next := Matched(pcent, wcent, coeff);
  }

  /** Every accepted pair is a found peak's pixel and a list line, at most
      one pair per peak. */
  lemma IdentifiedPairs(pix: seq<real>, wpix: seq<real>, wcen: real, coeff0: seq<real>, cfg: Pairing,
                        polyfit: (seq<real>, seq<real>, nat) -> seq<real>)
    requires |pix| == |wpix|
    ensures var r := Identified(pix, wpix, wcen, coeff0, cfg, polyfit);
      r.Some? ==>
        |r.value.pcent| <= |pix|
        && forall j :: 0 <= j < |r.value.pcent| ==> r.value.pcent[j] in pix && r.value.wcent[j] in cfg.lines
  {
    if |pix| > 0 && |cfg.lines| > 0 {
      var ss := ArgSort(Distances(wpix, wcen));
      var st0 := Matched([], [], coeff0);
      MatchFoldGrows(ss, pix, st0, cfg, polyfit);
      MatchFoldWaves(ss, pix, st0, cfg, polyfit);
      MatchFoldPixels(ss, pix, st0, cfg, polyfit);
      var r := MatchFold(ss, pix, st0, cfg, polyfit);
      forall j | 0 <= j < |r.pcent| ensures r.pcent[j] in pix {
        var i :| 0 <= i < |ss| && Offered(ss, pix)[i] == r.pcent[j];
        assert pix[ss[i]] == r.pcent[j];
      }
    }
  }

  /** The first pass refits: its coefficients are the starting ones while
      at most `fit_order` pairs are accepted, and the fit to exactly the
      accepted pairs once there are more. The second pass never refits. */
  lemma IdentifiedCoeff(pix: seq<real>, wpix: seq<real>, wcen: real, coeff0: seq<real>, cfg: Pairing,
                        polyfit: (seq<real>, seq<real>, nat) -> seq<real>)
    requires |pix| == |wpix|
    ensures var r := Identified(pix, wpix, wcen, coeff0, cfg, polyfit);
      r.Some? ==>
        (!cfg.refit ==> r.value.coeff == coeff0)
        && (cfg.refit && |r.value.pcent| <= cfg.fitOrder ==> r.value.coeff == coeff0)
        && (cfg.refit && |r.value.pcent| > cfg.fitOrder ==>
              r.value.coeff == polyfit(Centered(r.value.pcent, cfg.half), r.value.wcent, cfg.fitOrder))
  {
    if |pix| > 0 && |cfg.lines| > 0 {
      var ss := ArgSort(Distances(wpix, wcen));
      var st0 := Matched([], [], coeff0);
      if cfg.refit {
        MatchFoldRefits(ss, pix, st0, cfg, polyfit);
      } else {
        MatchFoldFixed(ss, pix, st0, cfg, polyfit);
      }
    }
  }

  /** The arguments that select the automatic solution: the two line lists,
      the tolerance, the fit order and whether to run the second pass. */
  datatype Settings = Settings(lines: seq<real>, lines2: seq<real>, tol: real, fitOrder: nat, secondPass: bool)

  /** The computations the model does not open: `np.percentile`, the
      Gaussian fit of `find_peaks`, `np.polyfit` and the Gaussian fit of
      `line_trace`. */
  datatype Oracles = Oracles(percentile: (seq<real>, real) -> real,
                             gaussFit: seq<real> -> Option<real>,
                             polyfit: (seq<real>, seq<real>, nat) -> seq<real>,
                             traceFit: (int, int, real) -> Option<real>)

  /** `np.polyval(coeff, np.arange(L) - L/2)`: the wavelength of every pixel
      of the slice under a centred solution. */
  function Solution(coeff: seq<real>, n: nat): (wtemp: seq<real>)
    ensures |wtemp| == n
  {
    seq(n, k requires 0 <= k < n => PolyVal(coeff, k as real - n as real / 2.0))
  }

  /** The pairing of the first pass on the peaks at `pix` with rough
      wavelengths `wpix` in a slice of `n` pixels: from the linear guess,
      against `lines`, refitting as it goes. `None` when the initial
      coefficients cannot be formed or the pairing raises. */
  function FirstPairs(pix: seq<real>, wpix: seq<real>, g: Guess, opts: Settings, n: nat,
                      polyfit: (seq<real>, seq<real>, nat) -> seq<real>): (r: Option<Matched>)
    requires |pix| == |wpix|
    ensures r.Some? ==> |r.value.pcent| == |r.value.wcent|
  {
    match InitialCoeff(opts.fitOrder, g)
    case None => None
    case Some(c0) =>
      Identified(pix, wpix, g.wcen, c0, Pairing(opts.lines, opts.tol, n as real / 2.0, opts.fitOrder, true), polyfit)
  }

  /** The first pass: peaks above the 97th percentile of the slice under the
      linear guess, paired with `lines` and refitting as it goes. */
  function FirstPass(slice: seq<real>, g: Guess, opts: Settings, fns: Oracles): (r: Option<Matched>)
    ensures r.Some? ==> |r.value.pcent| == |r.value.wcent|
  {
    var peaks := FindPeaks.PeakList(LinearGuess(|slice|, g), slice, PeakWidth,
                                    fns.percentile(slice, FirstThreshold), PeakSep, fns.gaussFit);
    FirstPairs(FindPeaks.Pixels(peaks), FindPeaks.Waves(peaks), g, opts, |slice|, fns.polyfit)
  }

  /** The pairing of the second pass: from the first-pass solution `coeff`,
      against `lines2`, without refitting. `None` when it raises, which
      includes pairing nothing (`np.polyfit` of no points). */
  function SecondPairs(pix: seq<real>, wpix: seq<real>, g: Guess, coeff: seq<real>, opts: Settings, n: nat,
                       polyfit: (seq<real>, seq<real>, nat) -> seq<real>): Option<Matched>
    requires |pix| == |wpix|
  {
    match Identified(pix, wpix, g.wcen, coeff, Pairing(opts.lines2, opts.tol, n as real / 2.0, opts.fitOrder, false),
                     polyfit)
    case None => None
    case Some(m) => if m.pcent == [] then None else Some(m)
  }

  /** The second pass: peaks above the 80th percentile of the slice under
      the first-pass solution `coeff`, paired with `lines2`. Its pairs and
      final fit are only written out, so nothing downstream depends on
      them. */
  function SecondPass(slice: seq<real>, g: Guess, coeff: seq<real>, opts: Settings, fns: Oracles): Option<Matched>
  {
    var peaks := FindPeaks.PeakList(Solution(coeff, |slice|), slice, PeakWidth,
                                    fns.percentile(slice, SecondThreshold), PeakSep, fns.gaussFit);
    SecondPairs(FindPeaks.Pixels(peaks), FindPeaks.Waves(peaks), g, coeff, opts, |slice|, fns.polyfit)
  }

  /** Over the whole slice the starting polynomial gives the linear guess. */
  lemma InitialSolutionIsGuess(fitOrder: nat, g: Guess, n: nat)
    requires fitOrder >= 1
    ensures Solution(InitialCoeff(fitOrder, g).value, n) == LinearGuess(n, g)
  {
    forall k | 0 <= k < n ensures Solution(InitialCoeff(fitOrder, g).value, n)[k] == LinearGuess(n, g)[k] {
      InitialCoeffIsGuess(fitOrder, g, n, k);
    }
  }

  /** After the first pass the slice's wavelengths are still the linear
      guess unless more than `fit_order` pairs were accepted, in which case
      the solution is the fit to exactly those pairs. */
  lemma FirstPairsSolution(pix: seq<real>, wpix: seq<real>, g: Guess, opts: Settings, n: nat,
                           polyfit: (seq<real>, seq<real>, nat) -> seq<real>)
    requires |pix| == |wpix| && FirstPairs(pix, wpix, g, opts, n, polyfit).Some?
    ensures |FirstPairs(pix, wpix, g, opts, n, polyfit).value.pcent| <= opts.fitOrder ==>
      Solution(FirstPairs(pix, wpix, g, opts, n, polyfit).value.coeff, n) == LinearGuess(n, g)
    ensures |FirstPairs(pix, wpix, g, opts, n, polyfit).value.pcent| > opts.fitOrder ==>
      FirstPairs(pix, wpix, g, opts, n, polyfit).value.coeff
      == polyfit(Centered(FirstPairs(pix, wpix, g, opts, n, polyfit).value.pcent, n as real / 2.0),
                 FirstPairs(pix, wpix, g, opts, n, polyfit).value.wcent, opts.fitOrder)
  {
    var c0 := InitialCoeff(opts.fitOrder, g).value;
    var cfg := Pairing(opts.lines, opts.tol, n as real / 2.0, opts.fitOrder, true);
    var m := FirstPairs(pix, wpix, g, opts, n, polyfit).value;
    assert m == Identified(pix, wpix, g.wcen, c0, cfg, polyfit).value;
    assert (|m.pcent| <= opts.fitOrder ==> m.coeff == c0)
      && (|m.pcent| > opts.fitOrder ==> m.coeff == polyfit(Centered(m.pcent, n as real / 2.0), m.wcent, opts.fitOrder))
    by {
      IdentifiedCoeff(pix, wpix, g.wcen, c0, cfg, polyfit);
    }
    if |m.pcent| <= opts.fitOrder {
      InitialSolutionIsGuess(opts.fitOrder, g, n);
    }
  }

  /** The second pass leaves the coefficients as it found them, so every
      second-pass peak is predicted with the first-pass solution, and it
      succeeds only with at least one pair. */
  lemma SecondPairsFixedCoeff(pix: seq<real>, wpix: seq<real>, g: Guess, coeff: seq<real>, opts: Settings, n: nat,
                              polyfit: (seq<real>, seq<real>, nat) -> seq<real>)
    requires |pix| == |wpix|
    ensures SecondPairs(pix, wpix, g, coeff, opts, n, polyfit).Some? ==>
      SecondPairs(pix, wpix, g, coeff, opts, n, polyfit).value.coeff == coeff
      && |SecondPairs(pix, wpix, g, coeff, opts, n, polyfit).value.pcent| > 0
  {
    IdentifiedCoeff(pix, wpix, g.wcen, coeff, Pairing(opts.lines2, opts.tol, n as real / 2.0, opts.fitOrder, false),
                    polyfit);
  }

  /** The rows of a list of traced points. */
  function SampleRows(t: seq<LineTrace.Sample>): (rows: seq<nat>)
    ensures |rows| == |t| && forall k :: 0 <= k < |t| ==> rows[k] == t[k].y
  {
    seq(|t|, k requires 0 <= k < |t| => t[k].y)
  }

  /** The points `line_trace` follows from the first-pass pairs. */
  ghost function ArcSamples(img: seq<seq<real>>, h: nat, w: nat, hdr: Header, fmask: seq<nat>,
                            opts: Settings, fns: Oracles): seq<LineTrace.Sample>
    requires IsGrid(img, h, w) && forall k :: 0 <= k < |fmask| ==> fmask[k] < h
    requires FirstPass(CentralSlice(img, h, w), HeaderGuess(hdr), opts, fns).Some?
  {
    var m := FirstPass(CentralSlice(img, h, w), HeaderGuess(hdr), opts, fns).value;
    var rows := IlluminatedRows(h, fmask);
    LineTrace.Traced(|m.pcent|, m.pcent, m.wcent, LineTrace.UpRows(rows, h), LineTrace.DownRows(rows, h),
                     w, fns.traceFit)
  }

  /** The automatic solution runs to the end: the first pass works, so does
      the second when asked for, no line's strip makes the trace raise, and
      at least one point is traced. */
  ghost predicate AutoSucceeds(img: seq<seq<real>>, h: nat, w: nat, hdr: Header, fmask: seq<nat>,
                               opts: Settings, fns: Oracles)
    requires IsGrid(img, h, w) && forall k :: 0 <= k < |fmask| ==> fmask[k] < h
  {
    var slice := CentralSlice(img, h, w);
    var first := FirstPass(slice, HeaderGuess(hdr), opts, fns);
    first.Some?
    && (opts.secondPass ==> SecondPass(slice, HeaderGuess(hdr), first.value.coeff, opts, fns).Some?)
    && LineTrace.StripsFit(first.value.pcent, LineTrace.UpRows(IlluminatedRows(h, fmask), h),
                             LineTrace.DownRows(IlluminatedRows(h, fmask), h), w)
    && |ArcSamples(img, h, w, hdr, fmask, opts, fns)| > 0
  }

  /** The first pass as the source runs it. */
  method RunFirstPass(slice: seq<real>, g: Guess, opts: Settings, fns: Oracles) returns (first: Option<Matched>)
    ensures first == FirstPass(slice, g, opts, fns)
  {
    var n := |slice|;
    var pcentPix, wcentPix := FindPeaks.FindPeaks(LinearGuess(n, g), slice, PeakWidth,
                                                  fns.percentile(slice, FirstThreshold), PeakSep, fns.gaussFit);
    first := PairFirst(pcentPix, wcentPix, g, opts, n, fns.polyfit);
  }

  /** The first pairing pass as the source runs it. */
  method PairFirst(pix: seq<real>, wpix: seq<real>, g: Guess, opts: Settings, n: nat,
                   polyfit: (seq<real>, seq<real>, nat) -> seq<real>)
    returns (first: Option<Matched>)
    requires |pix| == |wpix|
    ensures first == FirstPairs(pix, wpix, g, opts, n, polyfit)
  {
    var c0 := InitialCoeff(opts.fitOrder, g);
    if c0.None? {
      return None;
    }
    first := Identify(pix, wpix, g.wcen, c0.value,
                      Pairing(opts.lines, opts.tol, n as real / 2.0, opts.fitOrder, true), polyfit);
  }

  /** The second pass as the source runs it, from the first-pass
      coefficients; only whether it raises matters downstream. */
  method RunSecondPass(slice: seq<real>, g: Guess, coeff: seq<real>, opts: Settings, fns: Oracles)
    returns (second: Option<Matched>)
    ensures second == SecondPass(slice, g, coeff, opts, fns)
  {
    var n := |slice|;
    var wtemp := Solution(coeff, n);
    var pcentPix2, wcentPix2 := FindPeaks.FindPeaks(wtemp, slice, PeakWidth,
                                                    fns.percentile(slice, SecondThreshold), PeakSep, fns.gaussFit);
    second := PairSecond(pcentPix2, wcentPix2, g, coeff, opts, n, fns.polyfit);
  }

  /** The second pairing pass as the source runs it. */
  method PairSecond(pix: seq<real>, wpix: seq<real>, g: Guess, coeff: seq<real>, opts: Settings, n: nat,
                    polyfit: (seq<real>, seq<real>, nat) -> seq<real>)
    returns (second: Option<Matched>)
    requires |pix| == |wpix|
    ensures second == SecondPairs(pix, wpix, g, coeff, opts, n, polyfit)
  {
    second := Identify(pix, wpix, g.wcen, coeff,
                       Pairing(opts.lines2, opts.tol, n as real / 2.0, opts.fitOrder, false), polyfit);
    if second.Some? && second.value.pcent == [] {
      second := None;
    }
  }

  /** `HeNeAr_fit(..., interac=False, mode='poly')` with no earlier line
      file: the wavelength of every pixel, from the traces of the
      FIRST-pass pairs whatever the second pass finds; `None` when a step
      raises. */
  method HeNeArFitAuto(img: seq<seq<real>>, h: nat, w: nat, hdr: Header, fmask: seq<nat>,
                       opts: Settings, fns: Oracles)
    returns (wfit: Option<array2<real>>)
    requires IsGrid(img, h, w)
    requires forall k :: 0 <= k < |fmask| ==> fmask[k] < h
    ensures wfit.Some? <==> AutoSucceeds(img, h, w, hdr, fmask, opts, fns)
    ensures wfit.Some? ==>
      fresh(wfit.value) && wfit.value.Length0 == h && wfit.value.Length1 == w
      && var t := ArcSamples(img, h, w, hdr, fmask, opts, fns);
         forall r, c :: 0 <= r < h && 0 <= c < w ==>
           wfit.value[r, c] == LinesToSurface.Surface(r, c, LineTrace.Xs(t), SampleRows(t), LineTrace.Ws(t),
                                                      opts.fitOrder, fns.polyfit)
  {
    var g := HeaderGuess(hdr);
    var slice := CentralSlice(img, h, w);
    var first := RunFirstPass(slice, g, opts, fns);
    if first.None? {
      return None;
    }
    var pcent, wcent, coeff := first.value.pcent, first.value.wcent, first.value.coeff;
    if opts.secondPass {
      var second := RunSecondPass(slice, g, coeff, opts, fns);
      if second.None? {
        return None;
      }
    }
    var ok, xcent, ycent, wcentBig := LineTrace.LineTrace(h, w, fmask, pcent, wcent, fns.traceFit);
    if !ok {
      return None;
    }
    ghost var t := ArcSamples(img, h, w, hdr, fmask, opts, fns);
    if |xcent| == 0 {
      return None;
    }
    var rows := RowsOf(ycent, t);
    SamplesInsideChip(img, h, w, hdr, fmask, opts, fns);
    var surface := LinesToSurface.LinesToSurface(h, w, xcent, rows, wcentBig, opts.fitOrder, fns.polyfit);
    wfit := Some(surface);
  }

  /** Reads back the whole-number rows `line_trace` stored as floats. */
  function RowsOf(ycent: seq<real>, ghost t: seq<LineTrace.Sample>): (rows: seq<nat>)
    requires ycent == LineTrace.Ys(t)
    ensures rows == SampleRows(t)
  {
    seq(|ycent|, k requires 0 <= k < |ycent| && ycent[k] >= 0.0 => ycent[k].Floor)
  }

  /** Every traced point lies on a row of the chip. */
  lemma SamplesInsideChip(img: seq<seq<real>>, h: nat, w: nat, hdr: Header, fmask: seq<nat>,
                          opts: Settings, fns: Oracles)
    requires IsGrid(img, h, w) && forall k :: 0 <= k < |fmask| ==> fmask[k] < h
    requires FirstPass(CentralSlice(img, h, w), HeaderGuess(hdr), opts, fns).Some?
    ensures var t := ArcSamples(img, h, w, hdr, fmask, opts, fns);
      forall k :: 0 <= k < |t| ==> t[k].y < h
  {
    var m := FirstPass(CentralSlice(img, h, w), HeaderGuess(hdr), opts, fns).value;
    var rows := IlluminatedRows(h, fmask);
    var up, down := LineTrace.UpRows(rows, h), LineTrace.DownRows(rows, h);
    LineTrace.TracedSamples(|m.pcent|, m.pcent, m.wcent, up, down, w, fns.traceFit);
    LineTrace.WalkRows(rows, h);
    var t := ArcSamples(img, h, w, hdr, fmask, opts, fns);
    forall k | 0 <= k < |t| ensures t[k].y < h {
      assert t[k] in t;
      var i :| 0 <= i < |rows| && rows[i] == t[k].y;
    }
  }
}
