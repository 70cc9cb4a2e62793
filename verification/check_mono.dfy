/** `_CheckMono`: the warning raised when a wavelength array is neither
    strictly increasing nor strictly decreasing (the red channel of the
    spectrograph runs backwards, so either direction is acceptable). */
module CheckMono {

  /** `all(x < y for x, y in zip(wave, wave[1:]))`. */
  predicate UpPairs(wave: seq<real>) {
    forall i :: 0 <= i < |wave| - 1 ==> wave[i] < wave[i + 1]
  }

  /** `all(x > y for x, y in zip(wave, wave[1:]))`. */
  predicate DownPairs(wave: seq<real>) {
    forall i :: 0 <= i < |wave| - 1 ==> wave[i] > wave[i + 1]
  }

  /** Reference definitions: every earlier entry is below (above) every
      later one. */
  ghost predicate Increasing(wave: seq<real>) {
    forall i, j :: 0 <= i < j < |wave| ==> wave[i] < wave[j]
  }

  ghost predicate Decreasing(wave: seq<real>) {
    forall i, j :: 0 <= i < j < |wave| ==> wave[i] > wave[j]
  }

  /** True exactly when `_CheckMono` prints its warning. The array is a value
      and is returned to nobody, so it cannot be changed. */
  function CheckMono(wave: seq<real>): (warns: bool)
    ensures warns <==> !Increasing(wave) && !Decreasing(wave)
  {
    UpPairsIncreasing(wave);
    DownPairsDecreasing(wave);
    !UpPairs(wave) && !DownPairs(wave)
  }

  lemma {:induction false} UpPairsIncreasing(wave: seq<real>)
    ensures UpPairs(wave) <==> Increasing(wave)
  {
    if UpPairs(wave) {
      forall i, j | 0 <= i < j < |wave| ensures wave[i] < wave[j] {
        UpChain(wave, i, j);
      }
    }
  }

  lemma {:induction false} UpChain(wave: seq<real>, i: nat, j: nat)
    requires UpPairs(wave) && i < j < |wave|
    ensures wave[i] < wave[j]
    decreases j - i
  {
    if i + 1 < j {
      UpChain(wave, i + 1, j);
    }
  }

  lemma {:induction false} DownPairsDecreasing(wave: seq<real>)
    ensures DownPairs(wave) <==> Decreasing(wave)
  {
    if DownPairs(wave) {
      forall i, j | 0 <= i < j < |wave| ensures wave[i] > wave[j] {
        DownChain(wave, i, j);
      }
    }
  }

  lemma {:induction false} DownChain(wave: seq<real>, i: nat, j: nat)
    requires DownPairs(wave) && i < j < |wave|
    ensures wave[i] > wave[j]
    decreases j - i
  {
    if i + 1 < j {
      DownChain(wave, i + 1, j);
    }
  }

  /** Arrays of length zero or one never warn. */
  lemma ShortNeverWarns(wave: seq<real>)
    requires |wave| <= 1
    ensures !CheckMono(wave)
  {
  }

  /** An array with one rising and one falling adjacent pair (for instance an
      increasing array with a single inverted pair) always warns. */
  lemma MixedPairsWarn(wave: seq<real>, up: nat, down: nat)
    requires up + 1 < |wave| && wave[up] < wave[up + 1]
    requires down + 1 < |wave| && wave[down] > wave[down + 1]
    ensures CheckMono(wave)
  {
  }

  /** A constant array of two or more samples (what a zero dispersion gives)
      warns. */
  lemma FlatWarns(wave: seq<real>)
    requires |wave| >= 2 && forall i :: 0 <= i < |wave| ==> wave[i] == wave[0]
    ensures CheckMono(wave)
  {
    assert wave[0] == wave[1];
  }
}
