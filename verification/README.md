# PyDIS reduction core in Dafny

This project models the numerical core of PyDIS (`pydis/pydis.py`). PyDIS reduces long-slit spectra from the
Dual Imaging Spectrograph. The core covers four stages:

- finding the trace of a spectrum across the chip (`ap_trace`);
- extracting the flux, the sky and the uncertainty along it (`ap_extract`);
- the automatic HeNeAr wavelength solution (`HeNeAr_fit`), with its helpers `find_peaks`, `line_trace` and
  `lines_to_surface`, and the monotonicity warning `_CheckMono`;
- reading the wavelength of every trace position off the finished map (`mapwavelength`).

Numbers the source keeps as IEEE floats are exact `real`s. A NaN that marks a failed fit, and an exception that
ends a call, are both `None` of an `Option`. The following are oracles, passed in as function-typed parameters:

- the Gaussian fits (`curve_fit`);
- `np.polyfit`;
- `np.percentile` and `np.quantile`;
- the median filters;
- the cubic spline, which may refuse its knots.

The model proves what the code does with their results. Python `int()` is truncation toward zero (`Trunc`).
Slices clamp and wrap as Python's do (`SliceBound`), and NumPy integer indexing wraps once and otherwise raises
(`NumpyIndex`).

Each source function has one module: `CheckMono`, `FindPeaks`, `ApTrace`, `ApExtract`, `LineTrace`,
`LinesToSurface`, `MapWavelength` and `HeNeArFit`. `Numerics` holds the shared primitives. Code that loops and
fills arrays is modelled as a method with loop invariants. Each such method is proved equal to a specification
function, and lemmas about that function state what the source promises.

## Model

| member | source | states |
|---|---|---|
| `CheckMono.CheckMono` | pydis/pydis.py:105-124 | the warning is printed exactly when the array is neither strictly increasing nor strictly decreasing over all pairs of positions |
| `CheckMono.UpPairsIncreasing` | pydis/pydis.py:116 | checking only adjacent pairs for `<` is the same as every earlier entry lying below every later one |
| `CheckMono.DownPairsDecreasing` | pydis/pydis.py:119 | checking only adjacent pairs for `>` is the same as every earlier entry lying above every later one |
| `CheckMono.ShortNeverWarns` | pydis/pydis.py:115-122 | arrays of zero or one sample never warn |
| `CheckMono.MixedPairsWarn` | pydis/pydis.py:121-122 | an array with one rising and one falling adjacent pair always warns |
| `CheckMono.FlatWarns` | pydis/pydis.py:121-122 | a constant array of at least two samples warns |
| `Numerics.Trunc` | pydis/pydis.py:936 | `int()` truncates toward zero: the result is within one of the argument, on the zero side |
| `Numerics.SliceBound` | pydis/pydis.py:933 | a slice bound lands in `[0, n]`, negative bounds counting from the end and out-of-range bounds clamped |
| `Numerics.NumpyIndex` | pydis/pydis.py:940 | an integer index succeeds exactly in `[-n, n)`, and a negative index wraps once |
| `Numerics.ArgMaxFirst` | pydis/pydis.py:764 | `nanargmax` on NaN-free data gives an index of the maximum with every earlier sample strictly smaller |
| `Numerics.IlluminatedRows` | pydis/pydis.py:468-471 | a mask of more than one row selects those rows; otherwise every row of the chip is used |
| `Numerics.PolyValLeadingZeros` | pydis/pydis.py:1095 | padding a coefficient list with leading zeros does not change the polynomial's value |
| `FindPeaks.FlaggedProps` | pydis/pydis.py:735-738 | the flagged indices are exactly the samples at or above the threshold, ascending |
| `FindPeaks.SeparatedMembers` | pydis/pydis.py:741 | a flagged index starts a peak exactly when its gap to the previous flagged index exceeds `minsep` |
| `FindPeaks.SeparatedAscending` | pydis/pydis.py:741 | the peak starts stay strictly ascending |
| `FindPeaks.AwayFromEdgesProps` | pydis/pydis.py:744-745 | the edge filter keeps exactly the peaks strictly between `pwidth` and `len(flux) - pwidth`, in order |
| `FindPeaks.CandidatesInWindow` | pydis/pydis.py:741-753 | candidates ascend strictly and every fit window `[pk - pwidth, pk + pwidth)` lies inside the slice |
| `FindPeaks.CandidateIsSeparatedPeak` | pydis/pydis.py:735-745 | every candidate is a bright sample away from both edges whose nearest bright predecessor is more than `minsep` below, with only dim samples in between |
| `FindPeaks.SeparatedPeakIsCandidate` | pydis/pydis.py:735-745 | every sample meeting that reference definition is a candidate |
| `FindPeaks.CandidatesExactly` | pydis/pydis.py:735-745 | the candidates are exactly the samples meeting the reference definition |
| `FindPeaks.NothingFlaggedBetween` | pydis/pydis.py:738-741 | no sample strictly between two consecutive flagged indices reaches the threshold |
| `FindPeaks.FirstFlaggedNotCandidate` | pydis/pydis.py:741 | the first bright sample never starts a peak, since the gap test starts at the second flagged index |
| `FindPeaks.CandidateFollowsDimSample` | pydis/pydis.py:741 | with `minsep >= 1` the sample just before a candidate is below the threshold |
| `FindPeaks.FlatSliceHasNoPeaks` | pydis/pydis.py:735-745 | when every sample reaches the threshold and `minsep >= 1` there are no candidates |
| `FindPeaks.FitPeak` | pydis/pydis.py:752-768 | a window's result is present exactly when its Gaussian fit succeeds; its centre is the fitted centre moved back by the window's start `pk - pwidth`, and its wavelength is that of the window's first brightest sample |
| `FindPeaks.WindowFirstMax` | pydis/pydis.py:764 | `lo + nanargmax(flux[lo:hi])` is the first maximum of the window |
| `FindPeaks.InsertByWaveAscending` | pydis/pydis.py:770 | adding a fit keeps the list strictly ascending by wavelength |
| `FindPeaks.InsertByWaveMembers` | pydis/pydis.py:770-771 | adding a fit loses no entry and adds nothing but that fit |
| `FindPeaks.InsertByWaveDuplicate` | pydis/pydis.py:770-771 | a fit is dropped exactly when its wavelength is already present, and the earlier entry stays |
| `FindPeaks.UniqueByWaveAscending` | pydis/pydis.py:770-773 | the returned wavelengths are strictly ascending |
| `FindPeaks.UniqueByWaveKeepsFirst` | pydis/pydis.py:770-773 | every returned peak is the first successful fit with its wavelength |
| `FindPeaks.UniqueByWaveComplete` | pydis/pydis.py:770-773 | the wavelength of every successful fit is returned |
| `FindPeaks.FitInto` | pydis/pydis.py:752-768 | one pass of the fitting loop stores the window's fit, or the failure, at its slot and leaves the other slots alone |
| `FindPeaks.FindPeaks` | pydis/pydis.py:713-773 | the returned centres and wavelengths are those of the de-duplicated successful fits of all candidates, and the wavelengths strictly increase |
| `ApTrace.StepCount` | pydis/pydis.py:474-475 | fewer than four steps are raised to four; otherwise the count is kept |
| `ApTrace.BinEdgesEnds` | pydis/pydis.py:540 | the first bin edge is 0 and the last is the full width |
| `ApTrace.BinEdgesMonotone` | pydis/pydis.py:540 | the bin edges never decrease and stay within `[0, width]` |
| `ApTrace.BinEdgesStrict` | pydis/pydis.py:540 | when the width is at least the number of bins the edges strictly increase, so no bin is empty |
| `ApTrace.BinCentreRule` | pydis/pydis.py:566-571 | a bin centre more than 25 rows inside the illuminated band is kept, truncated, and lands inside the band; any other centre is replaced by the chip-wide centre |
| `ApTrace.FitBin` | pydis/pydis.py:544-571 | one pass of the bin loop succeeds exactly when the bin's fit does, stores the judged centre at its slot and leaves the rest alone |
| `ApTrace.FitBins` | pydis/pydis.py:544-579 | the bin loop succeeds exactly when every bin's fit does, and then returns each bin's judged centre, the unused last slot dropped |
| `ApTrace.TraceBins` | pydis/pydis.py:468-579 | with no illuminated row or a failed chip-wide fit the trace fails; otherwise it succeeds exactly when every bin's fit does, with one midpoint and one centre per bin |
| `ApTrace.ApTrace` | pydis/pydis.py:412-598 | the trace succeeds exactly when every fit does, there are more than three knots and the spline accepts them; it then holds the spline through the bin midpoints and centres at every column |
| `ApTrace.StepFloorLeavesThreeKnots` | pydis/pydis.py:473-475 | as written, four or fewer steps leave three bins and so three knots, one too few for the cubic spline, so the trace always raises |
| `ApTrace.IntendedStepCount` | pydis/pydis.py:473-475 | the corrected floor of five steps leaves at least four knots and keeps any larger count |
| `ApTrace.IntendedKnots` | pydis/pydis.py:473-475 | with the corrected floor there are at least four knots, and on a chip at least as wide as the number of bins their abscissae strictly increase |
| `ApExtract.ApertureRows` | pydis/pydis.py:925-933 | the aperture's row range lies within the chip |
| `ApExtract.ApertureUnclamped` | pydis/pydis.py:925-933 | an aperture that fits around the trace at `t` keeps both half-widths, covering rows `int(t) - apwidth` to `int(t) + apwidth`, the top cut at the chip's edge |
| `ApExtract.ApertureClampedBelow` | pydis/pydis.py:929-933 | an aperture cut at the bottom starts at row 1, so row 0 is never summed |
| `ApExtract.ApertureClampedAbove` | pydis/pydis.py:927-933 | an aperture cut at the top runs to the last row |
| `ApExtract.SkyRowsAvoidAperture` | pydis/pydis.py:936-938 | a positive `skywidth` gives `2 * skywidth` sky rows, a non-positive one none, and with `skysep >= 0` no sky row lies inside the aperture |
| `ApExtract.FlatSky` | pydis/pydis.py:941-949 | for a flat sky of level `b`, `skydeg == 0` gives `b` times the aperture size, and a negative `skydeg` leaves the sky at zero |
| `ApExtract.ErrSqBound` | pydis/pydis.py:952-959 | when the flux is at least the sky and `coaddN > 0`, the squared uncertainty is at least the background term, so it is never negative |
| `ApExtract.SequencedProps` | pydis/pydis.py:922-961 | the extraction succeeds exactly when every column does, and then entry `j` is column `j`'s result |
| `ApExtract.ExtractInto` | pydis/pydis.py:922-959 | one pass of the loop fails exactly when its column raises; otherwise it stores the column's flux, sky and squared uncertainty at its slot, and it leaves every other slot alone |
| `ApExtract.ApExtract` | pydis/pydis.py:864-961 | three new, distinct arrays, one entry per trace position; the extraction succeeds exactly when no column raises, and then every position's three outputs are its column's results |
| `LineTrace.WalkRows` | pydis/pydis.py:639-649 | the upward walk holds exactly the rows in `[h/2, h - 10)` and the downward walk those in `(10, h/2)`; on ascending rows the first ascends and the second descends |
| `LineTrace.WalksDisjoint` | pydis/pydis.py:646-649 | the two walks never visit the same row |
| `LineTrace.WalkSamples` | pydis/pydis.py:663-681 | a walk keeps at most one point per row, each on one of its rows, strictly inside the chip and carrying the line's wavelength |
| `LineTrace.WalkSeedReset` | pydis/pydis.py:666-667 | the guess carried over from the previous walk is never used, because the first row resets it to the line's centre |
| `LineTrace.WalkAllAccepted` | pydis/pydis.py:663-678 | when every fit is accepted a walk has exactly one point per row, in row order |
| `LineTrace.TracedSamples` | pydis/pydis.py:659-701 | every traced point lies on an upward or downward row, strictly inside the chip, and carries the wavelength of a traced line |
| `LineTrace.VisitRow` | pydis/pydis.py:663-678 | one row seeds the fit, keeps it only when its centre lies strictly inside the chip, and appends exactly that row's share of the walk |
| `LineTrace.TraceWalk` | pydis/pydis.py:663-701 | one walk appends exactly the walk's points, in order, to the three output arrays |
| `LineTrace.StripColumns` | pydis/pydis.py:660-689 | the column slice around a line holds all `2 * maxbend` columns of `xline` exactly when it lies `maxbend` clear of both chip edges, or, for a line further left than `-maxbend`, when both bounds wrap onto the chip |
| `LineTrace.StripFitsOnWideChip` | pydis/pydis.py:660-694 | on a chip at least `2 * maxbend` wide, a line at a non-negative column can be fitted exactly when its strip lies on the chip, or when only the chip's last column remains and `curve_fit` broadcasts it |
| `LineTrace.TraceLine` | pydis/pydis.py:659-699 | one line appends the points of its upward walk and then of its downward walk to the three outputs |
| `LineTrace.LineTrace` | pydis/pydis.py:601-710 | the trace raises exactly when, with rows to walk, some line's strip is empty or holds from 2 to `2 * maxbend - 1` columns; otherwise the three outputs are the columns, rows and wavelengths of all points of every line's upward and then downward walk, in order |
| `LinesToSurface.OnRowProps` | pydis/pydis.py:852 | `np.where(ycent == r)` gives exactly the indices of the points on row `r`, ascending |
| `LinesToSurface.FittedRow` | pydis/pydis.py:851-860 | a row inside the range that holds traced points is the polynomial fitted to exactly those points |
| `LinesToSurface.TopRowStaysZero` | pydis/pydis.py:851 | the highest traced row holds points but stays zero, because the row range stops before it |
| `LinesToSurface.EmptyRowIsZero` | pydis/pydis.py:854-857 | a row without traced points is zero |
| `LinesToSurface.LinesToSurface` | pydis/pydis.py:841-861 | every pixel of the new `h` by `w` image is its row's fitted polynomial for rows in `[min(ycent), max(ycent))`, and zero elsewhere |
| `MapWavelength.InterpAtNode` | pydis/pydis.py:1455 | at a grid row the interpolated wavelength is that row's value |
| `MapWavelength.InterpBetween` | pydis/pydis.py:1455 | between two grid rows the interpolated wavelength lies between their values |
| `MapWavelength.InterpClamped` | pydis/pydis.py:1455 | outside the grid the interpolated wavelength is the nearest end value |
| `MapWavelength.MapWavelength` | pydis/pydis.py:1452-1456 | every trace position gets the interpolation of its own column of the map at the trace's row |
| `HeNeArFit.HeaderGuessRule` | pydis/pydis.py:1035-1051 | the sign is -1 exactly for a detector named red in any letter case; a missing `DISPDW` or `DISPWC` gives dispersion 0 and centre 1 |
| `HeNeArFit.CentralRowsTall` | pydis/pydis.py:1060 | on a chip at least 20 rows high the slice is the 20 rows centred on the middle |
| `HeNeArFit.CentralRowsShort` | pydis/pydis.py:1060 | on a shorter chip of even height the negative start wraps, so only the top rows are summed |
| `HeNeArFit.LinearGuessDirection` | pydis/pydis.py:1063 | the linear guess increases for a positive slope, decreases for a negative one, and makes `_CheckMono` warn for zero dispersion |
| `HeNeArFit.GuessStep` | pydis/pydis.py:1063 | guesses `j - i` pixels apart differ by that many dispersions |
| `HeNeArFit.InitialCoeff` | pydis/pydis.py:1095 | the starting coefficients exist exactly when `fit_order >= 1`, and then number `fit_order + 1` |
| `HeNeArFit.InitialCoeffIsGuess` | pydis/pydis.py:1095-1100 | the starting polynomial reproduces the linear guess at every pixel |
| `HeNeArFit.InitialSolutionIsGuess` | pydis/pydis.py:1063-1100 | over the whole slice the starting polynomial is the linear guess |
| `HeNeArFit.InsertIndexProps` | pydis/pydis.py:1092 | inserting an index keeps the order sorted by key and adds exactly that index |
| `HeNeArFit.ArgSortProps` | pydis/pydis.py:1092 | the visiting order holds every peak exactly once, nearer wavelengths first |
| `HeNeArFit.NearestLine` | pydis/pydis.py:1113 | the chosen line is nearest to the prediction, and the first such line |
| `HeNeArFit.NearestWithin` | pydis/pydis.py:1110-1113 | some line lies within the tolerance exactly when the nearest one does |
| `HeNeArFit.MatchStepRule` | pydis/pydis.py:1097-1119 | a peak is kept exactly when a list line is within the tolerance of its prediction, and then it is paired with the nearest line; otherwise nothing changes |
| `HeNeArFit.MatchFoldGrows` | pydis/pydis.py:1097-1113 | pairs are only appended, at most one per peak offered |
| `HeNeArFit.MatchFoldWaves` | pydis/pydis.py:1113 | every new pair's wavelength is a list line |
| `HeNeArFit.MatchFoldPixels` | pydis/pydis.py:1112 | every new pair's pixel is that of a peak offered |
| `HeNeArFit.MatchFoldFixed` | pydis/pydis.py:1331-1342 | without refitting the coefficients never change |
| `HeNeArFit.MatchFoldRefits` | pydis/pydis.py:1118-1119 | with refitting, the coefficients stay the starting ones while there are at most `fit_order` pairs, and are then the fit to exactly the pairs accepted so far |
| `HeNeArFit.Identify` | pydis/pydis.py:1088-1119 | the pairing loop offers the peaks from the centre wavelength outwards and fails only when there are peaks but no list lines |
| `HeNeArFit.IdentifiedPairs` | pydis/pydis.py:1097-1113 | every accepted pair is a found peak's pixel and a list line, with at most one pair per peak |
| `HeNeArFit.IdentifiedCoeff` | pydis/pydis.py:1097-1119 | the first pass's coefficients are the start until more than `fit_order` pairs exist, then the fit to them; the second pass keeps its starting coefficients |
| `HeNeArFit.FirstPairsSolution` | pydis/pydis.py:1095-1133 | after the first pass the slice's solution is still the linear guess, unless more than `fit_order` pairs were accepted; then it is the fit to exactly those pairs |
| `HeNeArFit.SecondPairsFixedCoeff` | pydis/pydis.py:1322-1371 | the second pass predicts with the first-pass solution throughout, and succeeds only with at least one pair |
| `HeNeArFit.RunFirstPass` | pydis/pydis.py:1084-1119 | the first pass as run is the specification's first pass |
| `HeNeArFit.RunSecondPass` | pydis/pydis.py:1314-1371 | the second pass as run is the specification's second pass |
| `HeNeArFit.SamplesInsideChip` | pydis/pydis.py:1409-1420 | every point traced from the first-pass pairs lies on a row of the chip |
| `HeNeArFit.HeNeArFitAuto` | pydis/pydis.py:964-1422 | the solution exists exactly when the first pass and the requested second pass succeed, no line's strip makes the trace raise and at least one point is traced; then every pixel is the surface fitted to the traces of the first-pass pairs |

## Findings

| source | as written | input that shows it | evidently intended | confidence | as-written member | corrected member |
|---|---|---|---|---|---|---|
| pydis/pydis.py:473-475 | `nsteps` below 4 is raised to 4, giving 4 bin edges, 3 bins and 3 knots for the cubic spline (`k=3`) | `ap_trace(img, nsteps=4)` or any `nsteps < 4`: `UnivariateSpline` needs more than 3 points and raises | "need at least 4 samples along the trace": a floor of 5 steps, so at least 4 knots | not executed | `ApTrace.StepFloorLeavesThreeKnots` | `ApTrace.IntendedStepCount`, `ApTrace.IntendedKnots` |

## Left out

- Reading FITS files and headers, and writing the `.lines` and `.lines2` files: the image, the header keywords and the line lists are values.
- Plotting, `display`, and the interactive modes of `ap_trace` and `HeNeAr_fit`, including their `_CheckMono` calls: they need a user at the keyboard. `_CheckMono` itself is modelled.
- `ap_trace` with `recenter`, `prevtrace`, `peak_guess` or `Saxis = 0`: only the default automatic path is modelled.
- `HeNeAr_fit` with a `previous` line file: it reads pairs from disk.
- The `spline` and `spline2d` modes of `lines_to_surface`, and `spline2d` in `mapwavelength`: they rest on SciPy's two-dimensional splines, which are not part of this model.
- Floating point, NaN propagation and `np.sqrt`:
  - numbers are exact reals;
  - a failed fit is `None` rather than NaN;
  - `ApExtract.ApExtract` returns the squared uncertainty (`fluxerrSq`), not its square root.
- What the oracles compute: `curve_fit`, `np.polyfit`, `np.percentile`, `np.quantile`, the median filters and `UnivariateSpline`. The model proves what the code does with their results, not the fits themselves.
- `HeNeArFit.ArgSort`: ties are broken by index. NumPy's default sort is not stable, so peaks at equal distance from the centre may be visited in another order.
- `HeNeArFit.Lower`: lowers ASCII letters only.
- `HeNeArFit.HeNeArFitAuto`: the second pass's pairs and fit are only written to disk, so the model keeps only whether the pass succeeds.
- `FindPeaks.FindPeaks`: requires `pwidth >= 1`. With `pwidth = 0` every window is empty and `nanargmax` raises, which the model does not capture.
- `ApExtract.ApExtract`:
  - it requires `coaddN != 0`, which leaves out NumPy's division by zero;
  - on failure the arrays carry no meaning, whereas the source has raised by then.
- `LineTrace.LineTrace`: requires `len(pcent) <= len(wcent)`, which leaves out the `IndexError` of a shorter `wcent`.
- `LineTrace.LineTrace`: the Gaussian fit of a strip that can be fitted (all `2 * maxbend` columns, or a single column broadcast against `xline`) is an oracle, and the image median and the strip's pixel sums are part of it. The strip's rows always lie on the chip, because walked rows are more than 10 rows from either edge. `maxbend` is fixed at its default of 10, the only value `HeNeAr_fit` uses.
- `LineTrace.LineTrace`: a fit on a strip that can be fitted fails only by `RuntimeError`. NumPy and SciPy errors on NaN or infinite pixels are not modelled.
- `Numerics.IlluminatedRows`: requires every row of a mask to lie on the chip, which leaves out the `IndexError` of `np.arange(h)[fmask]` for a mask naming a row outside it. `LineTrace.LineTrace` and `HeNeArFit.HeNeArFitAuto` carry the same requires. `ApTrace.ApTrace` takes the selected rows themselves.
- `ApTrace.ApTrace`: the knot count is checked explicitly. Whether `UnivariateSpline` also refuses repeated or unordered abscissae depends on the SciPy version, so that is left to the spline oracle, which may return `None`.
- `LinesToSurface.LinesToSurface`: requires at least one traced point, which leaves out the raising of `ycent.min()` on no points. That failure is modelled in `HeNeArFit.HeNeArFitAuto`, which returns `None`. Traced rows are whole numbers, so `ycent` is a sequence of naturals.
- `MapWavelength.MapWavelength`: requires a map with at least one row and at least as many columns as trace positions. This leaves out NumPy's errors on a smaller map.
- `ApExtract.Column`: `apwidth` is a natural number, so a negative aperture half-width is not modelled.
- The rest of `pydis.py` is outside this core and is not part of this model:
  - `_mag2flux`, `_gaus` and `_WriteSpec`;
  - the `OpenImg` reader;
  - `biascombine`, `overscanbias`, `smooth` and `flatcombine`;
  - `normalize`, `AirmassCor`, `DefFluxCal` and `ApplyFluxCal`.
