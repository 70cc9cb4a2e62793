/** `line_trace`: follows each identified arc line of a HeNeAr lamp image
    along the spatial axis. From the chip's middle row the trace walks up to
    the top and then from the middle down to the bottom, one row at a time,
    each step seeded with the centre found at the previous accepted step.

    The Gaussian fit of the summed strip around row `j` near column `col`,
    started at guess `g`, is an oracle `fit(j, col, g)`; `None` stands for
    `curve_fit` raising `RuntimeError`, which the source catches. A strip
    whose width `curve_fit` cannot fit against `xline` makes the trace
    raise instead, uncaught. */
module LineTrace {
  import opened Numerics

  /** Rows closer than this to the top or bottom edge are not traced. */
  const YBuf: int := 10

  /** `maxbend`: the strip around a line spans the columns
      `[col - maxbend, col + maxbend)`. `HeNeAr_fit` leaves it at its
      default. */
  const MaxBend: int := 10

  /** The number of columns in the slice `[col - maxbend:col + maxbend]` of
      a chip `width` columns wide; zero or less is an empty slice. */
  function StripWidth(col: int, width: nat): int {
    SliceBound(col + MaxBend, width) - SliceBound(col - MaxBend, width)
  }

  /** The summed strip can be fitted against the `2 * maxbend` positions of
      `xline`: it has all of their columns, or a single column, which
      `curve_fit` broadcasts against them. An empty strip makes `np.nanmax`
      raise `ValueError`. Two or three columns are fewer points than the
      Gaussian's four parameters (`TypeError`), and four or more columns
      short of `2 * maxbend` do not broadcast (`ValueError`). The source
      catches neither. */
  predicate StripFits(col: int, width: nat) {
    StripWidth(col, width) == 2 * MaxBend || StripWidth(col, width) == 1
  }

  /** For a line at a column no further left than `-maxbend` the strip has
      all `2 * maxbend` columns exactly when it lies on the chip, `maxbend`
      columns clear of either edge. Further left both slice bounds wrap,
      and the strip is whole exactly when its start still wraps onto the
      chip. */
  lemma StripColumns(col: int, width: nat)
    ensures col >= -MaxBend ==> (StripWidth(col, width) == 2 * MaxBend <==> MaxBend <= col && col + MaxBend <= width)
    ensures col < -MaxBend ==> (StripWidth(col, width) == 2 * MaxBend <==> col - MaxBend >= -(width as int))
  {
    var lo, hi := SliceBound(col - MaxBend, width), SliceBound(col + MaxBend, width);
    if col < -MaxBend {
      if col - MaxBend < -(width as int) {
        // the start clamps to 0 and the stop falls short of `2 * maxbend`
        assert lo == 0 && hi < 2 * MaxBend;
      }
    } else if col < MaxBend {
      assert hi < 2 * MaxBend;
    } else if col + MaxBend > width {
      assert hi == width && lo > width - 2 * MaxBend;
    }
  }

  /** On a chip at least `2 * maxbend` columns wide, a line at a
      non-negative column can be traced exactly when its strip lies on the
      chip, or when it sits `maxbend - 1` columns past the right edge so
      that only the last column remains. */
  lemma StripFitsOnWideChip(col: int, width: nat)
    requires width >= 2 * MaxBend && col >= 0
    ensures StripFits(col, width) <==>
      (MaxBend <= col && col + MaxBend <= width) || col == width + MaxBend - 1
  {
    StripColumns(col, width);
    var lo, hi := SliceBound(col - MaxBend, width), SliceBound(col + MaxBend, width);
    if col < MaxBend {
      // the start wraps to `width + col - maxbend`, past the stop
      assert lo == width + col - MaxBend && hi == col + MaxBend;
    } else if col + MaxBend > width {
      assert hi == width;
      if col - MaxBend <= width {
        assert lo == col - MaxBend;
      }
    }
  }

  /** No strip makes the trace raise: either there is no row to walk, so no
      strip is ever cut, or every line's strip can be fitted. */
  predicate StripsFit(pcent: seq<real>, up: seq<nat>, down: seq<nat>, width: nat) {
    (up == [] && down == []) || forall i :: 0 <= i < |pcent| ==> StripFits(Trunc(pcent[i]), width)
  }

  /** One more line whose strip can be fitted keeps every strip so far
      fitted. */
  lemma StripsFitStep(pcent: seq<real>, i: nat, up: seq<nat>, down: seq<nat>, width: nat)
    requires i < |pcent| && StripsFit(pcent[..i], up, down, width)
    requires (up == [] && down == []) || StripFits(Trunc(pcent[i]), width)
    ensures StripsFit(pcent[..i + 1], up, down, width)
  {
    assert pcent[..i + 1] == pcent[..i] + [pcent[i]];
  }

  /** A line whose strip cannot be fitted, with rows to walk, makes the
      trace raise. */
  lemma StripFails(pcent: seq<real>, i: nat, up: seq<nat>, down: seq<nat>, width: nat)
    requires i < |pcent| && (up != [] || down != []) && !StripFits(Trunc(pcent[i]), width)
    ensures !StripsFit(pcent, up, down, width)
  {
  }

  /** One accepted point on a line: its column, its row and the wavelength
      of the line it belongs to. */
  datatype Sample = Sample(x: real, y: nat, wave: real)

  /** `ydata1`: the rows at or above the middle `h / 2` and below
      `h - ybuf`, in the order `ydata` lists them. */
  function UpRows(rows: seq<nat>, h: nat): (up: seq<nat>)
    decreases |rows|
  {
    if rows == [] then []
    else
      var j := rows[|rows| - 1];
      UpRows(rows[..|rows| - 1], h)
      + (if j as real >= h as real / 2.0 && j < h - YBuf then [j] else [])
  }

  /** The rows strictly below the middle and above `ybuf`, in `ydata`
      order; `ydata2` is this reversed. */
  function LowRows(rows: seq<nat>, h: nat): (low: seq<nat>)
    decreases |rows|
  {
    if rows == [] then []
    else
      var j := rows[|rows| - 1];
      LowRows(rows[..|rows| - 1], h)
      + (if (j as real) < h as real / 2.0 && j > YBuf then [j] else [])
  }

  function Reverse(s: seq<nat>): (r: seq<nat>)
    ensures |r| == |s| && forall k :: 0 <= k < |s| ==> r[k] == s[|s| - 1 - k]
  {
    seq(|s|, k requires 0 <= k < |s| => s[|s| - 1 - k])
  }

  function DownRows(rows: seq<nat>, h: nat): (down: seq<nat>)
  {
    Reverse(LowRows(rows, h))
  }

  lemma {:induction false} UpRowsProps(rows: seq<nat>, h: nat)
    ensures forall j :: j in UpRows(rows, h) <==> j in rows && j as real >= h as real / 2.0 && j < h - YBuf
    ensures StrictlyAscending(rows) ==> StrictlyAscending(UpRows(rows, h))
    decreases |rows|
  {
    if rows != [] {
      var init := rows[..|rows| - 1];
      var j := rows[|rows| - 1];
      assert rows == init + [j];
      UpRowsProps(init, h);
      if StrictlyAscending(rows) {
        BelowLast(init, j);
        if j as real >= h as real / 2.0 && j < h - YBuf {
          AscendingAppend(UpRows(init, h), j);
        }
      }
    }
  }

  lemma {:induction false} LowRowsProps(rows: seq<nat>, h: nat)
    ensures forall j :: j in LowRows(rows, h) <==> j in rows && (j as real) < h as real / 2.0 && j > YBuf
    ensures StrictlyAscending(rows) ==> StrictlyAscending(LowRows(rows, h))
    decreases |rows|
  {
    if rows != [] {
      var init := rows[..|rows| - 1];
      var j := rows[|rows| - 1];
      assert rows == init + [j];
      LowRowsProps(init, h);
      if StrictlyAscending(rows) {
        BelowLast(init, j);
        if (j as real) < h as real / 2.0 && j > YBuf {
          AscendingAppend(LowRows(init, h), j);
        }
      }
    }
  }

  /** The upward walk holds exactly the rows in `[h / 2, h - ybuf)` and the
      downward walk exactly those in `(ybuf, h / 2)`; on ascending rows (the
      default, every row of the chip) the upward walk ascends and the
      downward walk descends. */
  lemma WalkRows(rows: seq<nat>, h: nat)
    ensures forall j :: j in UpRows(rows, h) <==> j in rows && j as real >= h as real / 2.0 && j < h - YBuf
    ensures forall j :: j in DownRows(rows, h) <==> j in rows && (j as real) < h as real / 2.0 && j > YBuf
    ensures StrictlyAscending(rows) ==> StrictlyAscending(UpRows(rows, h))
    ensures StrictlyAscending(rows) ==> StrictlyDescending(DownRows(rows, h))
  {
    UpRowsProps(rows, h);
    LowRowsProps(rows, h);
    var low := LowRows(rows, h);
    var down := DownRows(rows, h);
    forall d ensures d in down <==> d in low {
      if d in low {
        var k :| 0 <= k < |low| && low[k] == d;
        assert down[|low| - 1 - k] == d;
      }
    }
    if StrictlyAscending(rows) {
      forall a, b | 0 <= a < b < |low| ensures down[a] > down[b] {
        assert low[|low| - 1 - b] < low[|low| - 1 - a];
      }
    }
  }

  /** The two walks of a line never visit the same row. */
  lemma WalksDisjoint(rows: seq<nat>, h: nat, j: nat)
    ensures !(j in UpRows(rows, h) && j in DownRows(rows, h))
  {
    WalkRows(rows, h);
  }

  /** The rest of a walk over `rows`, whose first row is `r0`, for the line
      found at `p` in column `col` with wavelength `w`, continuing from the
      guess `g`. The guess is reset to `p` on the first row; a fit is kept,
      and becomes the next guess, only when its centre lies strictly inside
      the chip's `width`. */
  function WalkFrom(rows: seq<nat>, r0: nat, p: real, g: real, col: int, w: real, width: nat,
                    fit: (int, int, real) -> Option<real>): (ss: seq<Sample>)
    decreases |rows|
  {
    if rows == [] then []
    else
      var guess := if rows[0] == r0 then p else g;
      var c := fit(rows[0], col, guess);
      if c.Some? && 0.0 < c.value < width as real then
        [Sample(c.value, rows[0], w)] + WalkFrom(rows[1..], r0, p, c.value, col, w, width, fit)
      else
        WalkFrom(rows[1..], r0, p, guess, col, w, width, fit)
  }

  /** A whole walk: it starts at its first row with the seed `p`. */
  function Walk(rows: seq<nat>, p: real, col: int, w: real, width: nat,
                fit: (int, int, real) -> Option<real>): seq<Sample>
  {
    if rows == [] then [] else WalkFrom(rows, rows[0], p, p, col, w, width, fit)
  }

  /** Every sample of a walk lies on one of its rows, strictly inside the
      chip, and carries the line's wavelength; there is at most one sample
      per row. */
  lemma {:induction false} WalkSamples(rows: seq<nat>, r0: nat, p: real, g: real, col: int, w: real,
                                       width: nat, fit: (int, int, real) -> Option<real>)
    ensures |WalkFrom(rows, r0, p, g, col, w, width, fit)| <= |rows|
    ensures forall s :: s in WalkFrom(rows, r0, p, g, col, w, width, fit) ==>
      s.y in rows && 0.0 < s.x < width as real && s.wave == w
    decreases |rows|
  {
    if rows != [] {
      var guess := if rows[0] == r0 then p else g;
      var c := fit(rows[0], col, guess);
      var next := if c.Some? && 0.0 < c.value < width as real then c.value else guess;
      WalkSamples(rows[1..], r0, p, next, col, w, width, fit);
      forall s | s in WalkFrom(rows[1..], r0, p, next, col, w, width, fit) ensures s.y in rows {
        assert s.y in rows[1..];
      }
    }
  }

  /** The guess carried in from the previous line (or walk) is never used:
      the first row resets it to the line's own centre. */
  lemma WalkSeedReset(rows: seq<nat>, p: real, g: real, col: int, w: real, width: nat,
                      fit: (int, int, real) -> Option<real>)
    requires rows != []
    ensures WalkFrom(rows, rows[0], p, g, col, w, width, fit) == Walk(rows, p, col, w, width, fit)
  {
  }

  /** When every fit is accepted, a walk has one sample per row, in row
      order, each fit seeded with the previous row's centre. */
  lemma {:induction false} WalkAllAccepted(rows: seq<nat>, r0: nat, p: real, g: real, col: int, w: real,
                                           width: nat, fit: (int, int, real) -> Option<real>)
    requires forall j, q :: fit(j, col, q).Some? && 0.0 < fit(j, col, q).value < width as real
    ensures |WalkFrom(rows, r0, p, g, col, w, width, fit)| == |rows|
    ensures forall k :: 0 <= k < |rows| ==> WalkFrom(rows, r0, p, g, col, w, width, fit)[k].y == rows[k]
    decreases |rows|
  {
    if rows != [] {
      var guess := if rows[0] == r0 then p else g;
      WalkAllAccepted(rows[1..], r0, p, fit(rows[0], col, guess).value, col, w, width, fit);
    }
  }

  /** All samples of the first `n` lines: for each line its upward walk,
      then its downward walk. */
  function Traced(n: nat, pcent: seq<real>, wcent: seq<real>, up: seq<nat>, down: seq<nat>,
                  width: nat, fit: (int, int, real) -> Option<real>): seq<Sample>
    requires n <= |pcent| <= |wcent|
    decreases n
  {
    if n == 0 then []
    else
      var i := n - 1;
      Traced(i, pcent, wcent, up, down, width, fit)
      + Walk(up, pcent[i], Trunc(pcent[i]), wcent[i], width, fit)
      + Walk(down, pcent[i], Trunc(pcent[i]), wcent[i], width, fit)
  }

  /** A whole walk keeps only points on its rows, strictly inside the chip,
      carrying the line's wavelength. */
  lemma WalkInside(rows: seq<nat>, p: real, col: int, w: real, width: nat,
                   fit: (int, int, real) -> Option<real>)
    ensures forall s :: s in Walk(rows, p, col, w, width, fit) ==>
      s.y in rows && 0.0 < s.x < width as real && s.wave == w
  {
    if rows != [] {
      WalkSamples(rows, rows[0], p, p, col, w, width, fit);
    }
  }

  /** Every traced point lies on an upward or downward row, strictly inside
      the chip, and its wavelength is that of one of the lines traced. */
  lemma {:induction false} TracedSamples(n: nat, pcent: seq<real>, wcent: seq<real>, up: seq<nat>,
                                         down: seq<nat>, width: nat, fit: (int, int, real) -> Option<real>)
    requires n <= |pcent| <= |wcent|
    ensures forall s :: s in Traced(n, pcent, wcent, up, down, width, fit) ==>
      (s.y in up || s.y in down) && 0.0 < s.x < width as real && s.wave in wcent[..n]
    decreases n
  {
    if n > 0 {
      var i := n - 1;
      var prev := Traced(i, pcent, wcent, up, down, width, fit);
      var a := Walk(up, pcent[i], Trunc(pcent[i]), wcent[i], width, fit);
      var b := Walk(down, pcent[i], Trunc(pcent[i]), wcent[i], width, fit);
      assert Traced(n, pcent, wcent, up, down, width, fit) == prev + a + b;
      TracedSamples(i, pcent, wcent, up, down, width, fit);
      WalkInside(up, pcent[i], Trunc(pcent[i]), wcent[i], width, fit);
      WalkInside(down, pcent[i], Trunc(pcent[i]), wcent[i], width, fit);
      assert wcent[..n] == wcent[..i] + [wcent[i]];
    }
  }

  /** The columns, rows and wavelengths of a list of samples. */
  function Xs(ss: seq<Sample>): (xs: seq<real>)
    ensures |xs| == |ss|
  {
    seq(|ss|, k requires 0 <= k < |ss| => ss[k].x)
  }

  function Ys(ss: seq<Sample>): (ys: seq<real>)
    ensures |ys| == |ss|
  {
    seq(|ss|, k requires 0 <= k < |ss| => ss[k].y as real)
  }

  function Ws(ss: seq<Sample>): (ws: seq<real>)
    ensures |ws| == |ss|
  {
    seq(|ss|, k requires 0 <= k < |ss| => ss[k].wave)
  }

  lemma ProjectAppend(a: seq<Sample>, b: seq<Sample>)
    ensures Xs(a + b) == Xs(a) + Xs(b) && Ys(a + b) == Ys(a) + Ys(b) && Ws(a + b) == Ws(a) + Ws(b)
  {
    assert Xs(a + b) == Xs(a) + Xs(b);
    assert Ys(a + b) == Ys(a) + Ys(b);
    assert Ws(a + b) == Ws(a) + Ws(b);
  }

  /** Recording `prev` and then `added` records `prev + added`. */
  lemma RecordAppend(xcent: seq<real>, ycent: seq<real>, wcentBig: seq<real>, prev: seq<Sample>, added: seq<Sample>)
    ensures xcent + Xs(prev) + Xs(added) == xcent + Xs(prev + added)
    ensures ycent + Ys(prev) + Ys(added) == ycent + Ys(prev + added)
    ensures wcentBig + Ws(prev) + Ws(added) == wcentBig + Ws(prev + added)
  {
    ProjectAppend(prev, added);
    assert xcent + Xs(prev) + Xs(added) == xcent + (Xs(prev) + Xs(added));
    assert ycent + Ys(prev) + Ys(added) == ycent + (Ys(prev) + Ys(added));
    assert wcentBig + Ws(prev) + Ws(added) == wcentBig + (Ws(prev) + Ws(added));
  }

  /** One row of a walk, unfolded. */
  lemma WalkFromStep(rows: seq<nat>, k: nat, r0: nat, p: real, g: real, col: int, w: real, width: nat,
                     fit: (int, int, real) -> Option<real>)
    requires k < |rows|
    ensures var guess := if rows[k] == r0 then p else g;
      var c := fit(rows[k], col, guess);
      WalkFrom(rows[k..], r0, p, g, col, w, width, fit)
      == if c.Some? && 0.0 < c.value < width as real
         then [Sample(c.value, rows[k], w)] + WalkFrom(rows[k + 1..], r0, p, c.value, col, w, width, fit)
         else WalkFrom(rows[k + 1..], r0, p, guess, col, w, width, fit)
  {
    assert rows[k..][1..] == rows[k + 1..];
  }

  /** One walk of the loop body: visits `rows` in order, threading the
      guess `cguess` and appending every accepted point to the three output
      arrays. */
  method TraceWalk(rows: seq<nat>, p: real, col: int, w: real, width: nat,
                   fit: (int, int, real) -> Option<real>, cguess: real,
                   xcent: seq<real>, ycent: seq<real>, wcentBig: seq<real>)
    returns (guess: real, xs: seq<real>, ys: seq<real>, ws: seq<real>)
    ensures xs == xcent + Xs(Walk(rows, p, col, w, width, fit))
    ensures ys == ycent + Ys(Walk(rows, p, col, w, width, fit))
    ensures ws == wcentBig + Ws(Walk(rows, p, col, w, width, fit))
  {
    guess, xs, ys, ws := cguess, xcent, ycent, wcentBig;
    if rows == [] {
      return;
    }
    ghost var done: seq<Sample> := [];
    WalkSeedReset(rows, p, cguess, col, w, width, fit);
    assert rows[0..] == rows;
    for k := 0 to |rows|
      invariant xs == xcent + Xs(done) && ys == ycent + Ys(done) && ws == wcentBig + Ws(done)
      invariant done + WalkFrom(rows[k..], rows[0], p, guess, col, w, width, fit) == Walk(rows, p, col, w, width, fit)
    {
      ghost var added: seq<Sample>;
      ghost var prev := done;
      guess, xs, ys, ws, added := VisitRow(rows, k, p, col, w, width, fit, guess, xs, ys, ws);
      done := done + added;
      RegroupWalk(prev, added, WalkFrom(rows[k + 1..], rows[0], p, guess, col, w, width, fit),
                  Walk(rows, p, col, w, width, fit));
      RecordAppend(xcent, ycent, wcentBig, prev, added);
    }
    assert rows[|rows|..] == [];
  }

  /** Moving a row's samples from the part still to walk to the part
      already walked keeps the whole walk. */
  lemma RegroupWalk(prev: seq<Sample>, added: seq<Sample>, rest: seq<Sample>, walk: seq<Sample>)
    requires prev + (added + rest) == walk
    ensures (prev + added) + rest == walk
  {
    assert (prev + added) + rest == prev + (added + rest);
  }

  /** One row of a walk: the fit seeded with the line's centre on the first
      row and with the running guess elsewhere, kept when inside the chip.
      `added` is what the row contributes to the walk. */
  method VisitRow(rows: seq<nat>, k: nat, p: real, col: int, w: real, width: nat,
                  fit: (int, int, real) -> Option<real>, g0: real,
                  xs0: seq<real>, ys0: seq<real>, ws0: seq<real>)
    returns (guess: real, xs: seq<real>, ys: seq<real>, ws: seq<real>, ghost added: seq<Sample>)
    requires k < |rows|
    ensures added + WalkFrom(rows[k + 1..], rows[0], p, guess, col, w, width, fit)
         == WalkFrom(rows[k..], rows[0], p, g0, col, w, width, fit)
    ensures xs == xs0 + Xs(added) && ys == ys0 + Ys(added) && ws == ws0 + Ws(added)
  {
    WalkFromStep(rows, k, rows[0], p, g0, col, w, width, fit);
    guess, xs, ys, ws, added := g0, xs0, ys0, ws0, [];
    var j := rows[k];
    if j == rows[0] {
      guess := p;
    }
    var popt := fit(j, col, guess);
    if popt.Some? && 0.0 < popt.value < width as real {
      guess := popt.value;
      xs, ys, ws := xs + [popt.value], ys + [j as real], ws + [w];
      added := [Sample(popt.value, j, w)];
    }
  }

  /** One line of the loop: its upward walk, then its downward walk, each
      appending its points to the three output arrays. */
  method TraceLine(i: nat, pcent: seq<real>, wcent: seq<real>, up: seq<nat>, down: seq<nat>, width: nat,
                   fit: (int, int, real) -> Option<real>, cguess: real,
                   xcent: seq<real>, ycent: seq<real>, wcentBig: seq<real>)
    returns (guess: real, xs: seq<real>, ys: seq<real>, ws: seq<real>)
    requires i < |pcent| <= |wcent|
    requires var t := Traced(i, pcent, wcent, up, down, width, fit);
      xcent == Xs(t) && ycent == Ys(t) && wcentBig == Ws(t)
    ensures var t := Traced(i + 1, pcent, wcent, up, down, width, fit);
      xs == Xs(t) && ys == Ys(t) && ws == Ws(t)
  {
    var col := Trunc(pcent[i]);
    ghost var t := Traced(i, pcent, wcent, up, down, width, fit);
    ghost var a := Walk(up, pcent[i], col, wcent[i], width, fit);
    ghost var b := Walk(down, pcent[i], col, wcent[i], width, fit);
    guess, xs, ys, ws := TraceWalk(up, pcent[i], col, wcent[i], width, fit, cguess, xcent, ycent, wcentBig);
    guess, xs, ys, ws := TraceWalk(down, pcent[i], col, wcent[i], width, fit, guess, xs, ys, ws);
    ProjectAppend(t, a);
    ProjectAppend(t + a, b);
  }

  /** `line_trace`: the columns, rows and wavelengths of every traced point,
      three arrays of the same length, in the order the points are found.
      `ok` is false when the trace raises on a strip it cannot fit against
      `xline`, and then the arrays carry no meaning. */
  method LineTrace(h: nat, width: nat, fmask: seq<nat>, pcent: seq<real>, wcent: seq<real>,
                   fit: (int, int, real) -> Option<real>)
    returns (ok: bool, xcent: seq<real>, ycent: seq<real>, wcentBig: seq<real>)
    requires forall k :: 0 <= k < |fmask| ==> fmask[k] < h
    requires |pcent| <= |wcent|
    ensures ok <==> StripsFit(pcent, UpRows(IlluminatedRows(h, fmask), h),
                              DownRows(IlluminatedRows(h, fmask), h), width)
    ensures ok ==>
      var t := Traced(|pcent|, pcent, wcent, UpRows(IlluminatedRows(h, fmask), h),
                      DownRows(IlluminatedRows(h, fmask), h), width, fit);
      xcent == Xs(t) && ycent == Ys(t) && wcentBig == Ws(t)
  {
    var rows := IlluminatedRows(h, fmask);
    var up := UpRows(rows, h);
    var down := DownRows(rows, h);
    xcent, ycent, wcentBig := [], [], [];
    var cguess := 0.0;
    for i := 0 to |pcent|
      invariant var t := Traced(i, pcent, wcent, up, down, width, fit);
        xcent == Xs(t) && ycent == Ys(t) && wcentBig == Ws(t)
      invariant StripsFit(pcent[..i], up, down, width)
    {
      var col := Trunc(pcent[i]);
      if (up != [] || down != []) && !StripFits(col, width) {
        StripFails(pcent, i, up, down, width);
        return false, xcent, ycent, wcentBig;
      }
      StripsFitStep(pcent, i, up, down, width);
      cguess, xcent, ycent, wcentBig := TraceLine(i, pcent, wcent, up, down, width, fit,
                                                  cguess, xcent, ycent, wcentBig);
    }
    assert pcent[..|pcent|] == pcent;
    ok := true;
  }
}
