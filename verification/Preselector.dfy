/** The preselector table of the Elektor driver (elektor.c:1471-1590): guard entries on
    both sides of up to ten calibrated settings, and integer interpolation between them. */
module Preselector {
  import opened CArithmetic

  const NUM_SETTINGS := 10

  /** freq[1..n] and val[1..n] are the calibrated settings; the rest of 1..10 is empty. */
  ghost predicate IsCalibration(freq: seq<int>, val: seq<int>, n: nat) {
    && |freq| == |val| == NUM_SETTINGS + 2 && n <= NUM_SETTINGS
    && (forall i :: 1 <= i <= n ==> 0 < freq[i] && 0 <= val[i] <= 255)
    && (forall i, j :: 1 <= i < j <= n ==> freq[i] < freq[j] && val[i] <= val[j])
    && (forall i :: n < i <= NUM_SETTINGS ==> freq[i] == 0 && val[i] == 0)
  }

  /** No setting is below the lower guard. */
  ghost predicate IsGuarded(freq: seq<int>, val: seq<int>, n: nat) {
    && IsCalibration(freq, val, n)
    && 0 <= freq[0] && val[0] == 0 && val[NUM_SETTINGS + 1] == 255
    && (forall i :: 1 <= i <= n ==> freq[0] <= freq[i])
  }

  /** The guards enclose all settings. */
  ghost predicate IsEnclosed(freq: seq<int>, val: seq<int>, n: nat) {
    IsGuarded(freq, val, n) && forall i :: 1 <= i <= n ==> freq[i] <= freq[NUM_SETTINGS + 1]
  }

  /** The setting with the highest frequency. */
  method Highest(freq: array<int>, val: array<int>) returns (hifreq: int, hival: int)
    requires freq.Length == val.Length == NUM_SETTINGS + 2
    ensures forall n: nat :: IsCalibration(freq[..], val[..], n) ==>
      if n == 0 then hifreq == hival == 0 else hifreq == freq[n] && hival == val[n]
  {
    hifreq, hival := 0, 0;
    for i := 1 to NUM_SETTINGS + 1
      invariant forall n: nat :: IsCalibration(freq[..], val[..], n) ==>
        if i == 1 || n == 0 then hifreq == hival == 0
        else if i - 1 <= n then hifreq == freq[i - 1] && hival == val[i - 1]
        else hifreq == freq[n] && hival == val[n]
    {
      if freq[i] > hifreq {
        hifreq := freq[i];
        hival := val[i];
      }
    }
  }

  /** The frequency at which the line through two settings reaches value 0, and 255. */
  function LowGuard(f1: int, v1: int, freqDiff: int, valDiff: int): int
    requires valDiff > 0
  {
    f1 - CDiv(v1 * freqDiff, valDiff)
  }

  function HighGuard(f1: int, v1: int, freqDiff: int, valDiff: int): int
    requires valDiff > 0
  {
    f1 + CDiv((255 - v1) * freqDiff, valDiff)
  }

  /** g is where the line through the settings (f1,v1) and (hif,hiv) reaches 0, rounded up to a
      whole frequency, but not below 0. */
  ghost predicate IsLowGuard(g: int, f1: int, v1: int, hif: int, hiv: int) {
    var rest := v1 * (hif - f1) - (f1 - g) * (hiv - v1);
    0 <= g && 0 <= rest && (g > 0 ==> rest < hiv - v1)
  }

  /** g is where that line reaches 255, rounded down. */
  ghost predicate IsHighGuard(g: int, f1: int, v1: int, hif: int, hiv: int) {
    0 <= (255 - v1) * (hif - f1) - (g - f1) * (hiv - v1) < hiv - v1
  }

  /** The guards lie on the line through the lowest and the highest setting; if there is no such
      line, they are at half and at twice the lowest frequency. */
  ghost predicate AreGuards(freq: seq<int>, val: seq<int>, n: nat)
    requires |freq| == |val| == NUM_SETTINGS + 2 && n <= NUM_SETTINGS
  {
    var low, high := freq[0], freq[NUM_SETTINGS + 1];
    if n > 1 && val[1] < val[n] then
      IsLowGuard(low, freq[1], val[1], freq[n], val[n]) && IsHighGuard(high, freq[1], val[1], freq[n], val[n])
    else
      0 <= freq[1] - 2 * low <= 1 && high == 2 * freq[1]
  }

  lemma LowGuardIsOnLine(f1: int, v1: int, hif: int, hiv: int)
    requires 0 <= v1 < hiv && f1 < hif
    ensures var g := LowGuard(f1, v1, hif - f1, hiv - v1);
      IsLowGuard(if g < 0 then 0 else g, f1, v1, hif, hiv)
  {
    var y, c := v1 * (hif - f1), hiv - v1;
    ProductMonotone(0, v1, hif - f1);
    var q := y / c;
    assert y == q * c + y % c;
    if f1 < q {
      ProductMonotone(f1, q, c);
    }
  }

  lemma HighGuardIsOnLine(f1: int, v1: int, hif: int, hiv: int)
    requires 0 <= v1 < hiv <= 255 && f1 < hif
    ensures IsHighGuard(HighGuard(f1, v1, hif - f1, hiv - v1), f1, v1, hif, hiv)
  {
    var y, c := (255 - v1) * (hif - f1), hiv - v1;
    ProductMonotone(0, 255 - v1, hif - f1);
    var q := y / c;
    assert y == q * c + y % c;
  }

  lemma LowGuardIsLow(f1: int, v1: int, freqDiff: int, valDiff: int)
    requires 0 <= v1 && freqDiff > 0 && valDiff > 0
    ensures LowGuard(f1, v1, freqDiff, valDiff) <= f1
  {
    ProductMonotone(0, v1, freqDiff);
    QuotientAtLeast(0, v1 * freqDiff, valDiff);
  }

  lemma HighGuardIsHigh(f1: int, v1: int, hif: int, hiv: int)
    requires 0 <= v1 < hiv <= 255 && f1 < hif
    ensures HighGuard(f1, v1, hif - f1, hiv - v1) >= hif
  {
    var a, b, c := 255 - v1, hif - f1, hiv - v1;
    ProductMonotone(c, a, b);
    ProductMonotone(0, a, b);
    QuotientAtLeast(b, a * b, c);
  }

  /** add_guard_values */
  method AddGuardValues(freq: array<int>, val: array<int>, ghost n: nat)
    requires freq != val && freq.Length == val.Length == NUM_SETTINGS + 2
    requires IsCalibration(freq[..], val[..], n)
    modifies freq, val
    ensures freq[1..NUM_SETTINGS + 1] == old(freq[1..NUM_SETTINGS + 1])
    ensures val[1..NUM_SETTINGS + 1] == old(val[1..NUM_SETTINGS + 1])
    ensures IsGuarded(freq[..], val[..], n)
    ensures IsEnclosed(freq[..], val[..], n) <==> n <= 1 || val[1] < val[n] || freq[n] <= 2 * freq[1]
    ensures AreGuards(freq[..], val[..], n)
  {
    ghost var f, v := freq[..], val[..];
    var hifreq, hival := Highest(freq, val);
    var low, high := Guards(freq[1], val[1], hifreq, hival);
    GuardsAre(f, v, n, hifreq, hival, low, high);
    GuardsEncloseIff(f, v, n);
    GuardsAreOnLine(f, v, n);
    MiddleStays(f, low, high);
    MiddleStays(v, 0, 255);
    Settings(f, low, high, n);
    Settings(v, 0, 255, n);
    hide *;
    PutGuards(freq, val, low, high);
  }

  method PutGuards(freq: array<int>, val: array<int>, low: int, high: int)
    requires freq != val && freq.Length == val.Length == NUM_SETTINGS + 2
    modifies freq, val
    ensures freq[..] == WithGuards(old(freq[..]), low, high) && val[..] == WithGuards(old(val[..]), 0, 255)
  {
    var j := NUM_SETTINGS + 1;
    freq[0] := low;
    val[0] := 0;
    freq[j] := high;
    val[j] := 255;
  }

  lemma GuardsAre(f: seq<int>, v: seq<int>, n: nat, hifreq: int, hival: int, low: int, high: int)
    requires IsCalibration(f, v, n)
    requires if n == 0 then hifreq == hival == 0 else hifreq == f[n] && hival == v[n]
    requires hival > v[1] && hifreq > f[1] ==>
      low == (if LowGuard(f[1], v[1], hifreq - f[1], hival - v[1]) < 0 then 0
              else LowGuard(f[1], v[1], hifreq - f[1], hival - v[1]))
      && high == HighGuard(f[1], v[1], hifreq - f[1], hival - v[1])
    requires !(hival > v[1] && hifreq > f[1]) ==> low == CDiv(f[1], 2) && high == f[1] * 2
    ensures GuardFreqs(f, v, n) == (low, high)
  {
    hide LowGuard, HighGuard;
  }

  /** The frequencies for the values 0 and 255, from the lowest and the highest setting. */
  method Guards(f1: int, v1: int, hif: int, hiv: int) returns (low: int, high: int)
    ensures hiv > v1 && hif > f1 ==>
      low == (if LowGuard(f1, v1, hif - f1, hiv - v1) < 0 then 0 else LowGuard(f1, v1, hif - f1, hiv - v1))
      && high == HighGuard(f1, v1, hif - f1, hiv - v1)
    ensures !(hiv > v1 && hif > f1) ==> low == CDiv(f1, 2) && high == f1 * 2
  {
    var valDiff, freqDiff := hiv - v1, hif - f1;
    if valDiff > 0 && freqDiff > 0 {
      low := LowGuard(f1, v1, freqDiff, valDiff);
      if low < 0 {
        low := 0;
      }
      high := HighGuard(f1, v1, freqDiff, valDiff);
    } else {
      low := CDiv(f1, 2);
      high := f1 * 2;
    }
  }

  lemma MiddleStays(s: seq<int>, lo: int, hi: int)
    requires |s| == NUM_SETTINGS + 2
    ensures WithGuards(s, lo, hi)[1..NUM_SETTINGS + 1] == s[1..NUM_SETTINGS + 1]
  {
  }

  lemma Settings(s: seq<int>, lo: int, hi: int, n: nat)
    requires |s| == NUM_SETTINGS + 2 && n <= NUM_SETTINGS
    ensures WithGuards(s, lo, hi)[1] == s[1] && (n > 0 ==> WithGuards(s, lo, hi)[n] == s[n])
  {
  }

  function WithGuards(s: seq<int>, lo: int, hi: int): (r: seq<int>)
    requires |s| == NUM_SETTINGS + 2
    ensures |r| == |s|
  {
    s[0 := lo][NUM_SETTINGS + 1 := hi]
  }

  /** The guard frequencies of a calibration of n settings. */
  function GuardFreqs(f: seq<int>, v: seq<int>, n: nat): (int, int)
    requires IsCalibration(f, v, n)
  {
    var hif, hiv := if n == 0 then 0 else f[n], if n == 0 then 0 else v[n];
    if hiv > v[1] && hif > f[1] then
      var lo := LowGuard(f[1], v[1], hif - f[1], hiv - v[1]);
      (if lo < 0 then 0 else lo, HighGuard(f[1], v[1], hif - f[1], hiv - v[1]))
    else (CDiv(f[1], 2), f[1] * 2)
  }

  lemma GuardOrder(f: seq<int>, v: seq<int>, n: nat)
    requires IsCalibration(f, v, n)
    ensures var g := GuardFreqs(f, v, n);
      && 0 <= g.0 && (n > 0 ==> g.0 <= f[1])
      && (n > 0 ==> (f[n] <= g.1 <==> n == 1 || v[1] < v[n] || f[n] <= 2 * f[1]))
  {
    if n >= 2 && v[1] < v[n] {
      LowGuardIsLow(f[1], v[1], f[n] - f[1], v[n] - v[1]);
      HighGuardIsHigh(f[1], v[1], f[n], v[n]);
    }
    hide LowGuard, HighGuard;
  }

  lemma GuardedWith(f: seq<int>, v: seq<int>, n: nat, low: int, high: int)
    requires IsCalibration(f, v, n) && 0 <= low && (n > 0 ==> low <= f[1])
    ensures IsGuarded(WithGuards(f, low, high), WithGuards(v, 0, 255), n)
    ensures IsEnclosed(WithGuards(f, low, high), WithGuards(v, 0, 255), n) <==> n == 0 || f[n] <= high
  {
    var f', v' := WithGuards(f, low, high), WithGuards(v, 0, 255);
    forall i: nat | 1 <= i <= NUM_SETTINGS
      ensures f'[i] == f[i] && v'[i] == v[i]
    {
    }
    assert f'[0] == low && v'[0] == 0 && f'[NUM_SETTINGS + 1] == high && v'[NUM_SETTINGS + 1] == 255;
    hide WithGuards;
    assert IsCalibration(f', v', n);
    if n > 0 {
      assert f'[n] == f[n];
      assert forall i :: 1 <= i <= n ==> f[1] <= f[i] <= f[n];
    }
  }

  /** They enclose all settings unless two or more settings share one value and spread
      over more than an octave. */
  lemma GuardsEncloseIff(f: seq<int>, v: seq<int>, n: nat)
    requires IsCalibration(f, v, n)
    ensures var g := GuardFreqs(f, v, n);
      && IsGuarded(WithGuards(f, g.0, g.1), WithGuards(v, 0, 255), n)
      && (IsEnclosed(WithGuards(f, g.0, g.1), WithGuards(v, 0, 255), n) <==> n <= 1 || v[1] < v[n] || f[n] <= 2 * f[1])
  {
    GuardOrder(f, v, n);
    var g := GuardFreqs(f, v, n);
    hide GuardFreqs;
    GuardedWith(f, v, n, g.0, g.1);
  }

  lemma GuardsAreOnLine(f: seq<int>, v: seq<int>, n: nat)
    requires IsCalibration(f, v, n)
    ensures var g := GuardFreqs(f, v, n);
      AreGuards(WithGuards(f, g.0, g.1), WithGuards(v, 0, 255), n)
  {
    if n > 1 && v[1] < v[n] {
      LowGuardIsOnLine(f[1], v[1], f[n], v[n]);
      HighGuardIsOnLine(f[1], v[1], f[n], v[n]);
    }
    hide LowGuard, HighGuard, IsLowGuard, IsHighGuard;
  }

  // --------------------------------------------------------- interpolation

  /** The first entry from j on that is not below ifreq, or is empty. */
  function FirstNotBelow(freq: seq<int>, ifreq: int, j: nat): (k: nat)
    requires |freq| == NUM_SETTINGS + 2 && j <= NUM_SETTINGS + 2
    ensures j <= k <= NUM_SETTINGS + 2
    ensures forall i :: j <= i < k ==> freq[i] < ifreq && freq[i] != 0
    ensures k < NUM_SETTINGS + 2 ==> freq[k] >= ifreq || freq[k] == 0
    decreases NUM_SETTINGS + 2 - j
  {
    if j == NUM_SETTINGS + 2 || freq[j] >= ifreq || freq[j] == 0 then j else FirstNotBelow(freq, ifreq, j + 1)
  }

  function Between(ifreq: int, f0: int, v0: int, f1: int, v1: int): int {
    if f1 - f0 > 0 then v0 + CDiv((v1 - v0) * (ifreq - f0), f1 - f0) else v0
  }

  /** The preselector value for a frequency. */
  function Interpolated(freq: seq<int>, val: seq<int>, ifreq: int): int
    requires |freq| == |val| == NUM_SETTINGS + 2
  {
    var top := NUM_SETTINGS + 1;
    if ifreq <= freq[0] then 0
    else if ifreq >= freq[top] then 255
    else
      var j := FirstNotBelow(freq, ifreq, 1);
      if j > top then 0
      else if freq[j] == 0 then Between(ifreq, freq[j - 1], val[j - 1], freq[top], val[top])
      else Between(ifreq, freq[j - 1], val[j - 1], freq[j], val[j])
  }

  /** calc_PreselVal: hwfreq and the passband centre come from the receiver. */
  method CalcPreselVal(freq: array<int>, val: array<int>, hwFreq: real, centre: real, was: int) returns (value: int)
    requires freq.Length == val.Length == NUM_SETTINGS + 2
    ensures var ifreq := if hwFreq.Floor == 0 then centre.Floor * 1000 else hwFreq.Floor;
      value == if ifreq == 0 then was else Interpolated(freq[..], val[..], ifreq)
  {
    var ifreq := hwFreq.Floor;
    if ifreq == 0 {
      ifreq := centre.Floor * 1000;
    }
    if ifreq == 0 {
      return was;
    }
    value := InterpolateAt(freq, val, ifreq);
  }

  /** The search loop of calc_PreselVal. */
  method FindAbove(freq: array<int>, ifreq: int) returns (j: nat)
    requires freq.Length == NUM_SETTINGS + 2 && ifreq < freq[NUM_SETTINGS + 1]
    ensures 1 <= j <= NUM_SETTINGS + 1 && j == FirstNotBelow(freq[..], ifreq, 1)
  {
    hide FirstNotBelow;
    ghost var f := freq[..];
    var top := NUM_SETTINGS + 1;
    j := 1;
    while j <= top && !(freq[j] >= ifreq || freq[j] == 0)
      invariant 1 <= j <= top
      invariant FirstNotBelow(f, ifreq, j) == FirstNotBelow(f, ifreq, 1)
    {
      NotYet(f, ifreq, j);
      j := j + 1;
    }
    Found(f, ifreq, j);
  }

  lemma NotYet(f: seq<int>, ifreq: int, j: nat)
    requires |f| == NUM_SETTINGS + 2 && j < |f| && !(f[j] >= ifreq || f[j] == 0)
    ensures FirstNotBelow(f, ifreq, j) == FirstNotBelow(f, ifreq, j + 1)
  {
  }

  lemma Found(f: seq<int>, ifreq: int, j: nat)
    requires |f| == NUM_SETTINGS + 2 && j < |f| && (f[j] >= ifreq || f[j] == 0)
    ensures FirstNotBelow(f, ifreq, j) == j
  {
  }

  method InterpolateAt(freq: array<int>, val: array<int>, ifreq: int) returns (value: int)
    requires freq.Length == val.Length == NUM_SETTINGS + 2
    ensures value == Interpolated(freq[..], val[..], ifreq)
  {
    var top := NUM_SETTINGS + 1;
    ghost var f, v := freq[..], val[..];
    InterpolatedIs(f, v, ifreq);
    hide Interpolated, CDiv, FirstNotBelow, Between;
    if ifreq <= freq[0] {
      return 0;
    }
    if ifreq >= freq[top] {
      return 255;
    }
    var j := FindAbove(freq, ifreq);
    var fspan, vspan := freq[j] - freq[j - 1], val[j] - val[j - 1];
    if freq[j] == 0 {
      fspan, vspan := freq[top] - freq[j - 1], val[top] - val[j - 1];
    }
    var fdiff := ifreq - freq[j - 1];
    Apart(f, ifreq, j);
    if fspan > 0 {
      BetweenIs(ifreq, freq[j - 1], val[j - 1], freq[j - 1] + fspan, val[j - 1] + vspan);
      value := val[j - 1] + CDiv(vspan * fdiff, fspan);
    } else {
      // val[j-1]: the frequencies on both sides always differ
      assert false;
    }
  }

  lemma InterpolatedIs(f: seq<int>, v: seq<int>, ifreq: int)
    requires |f| == |v| == NUM_SETTINGS + 2
    ensures ifreq <= f[0] ==> Interpolated(f, v, ifreq) == 0
    ensures ifreq > f[0] && ifreq >= f[NUM_SETTINGS + 1] ==> Interpolated(f, v, ifreq) == 255
    ensures f[0] < ifreq < f[NUM_SETTINGS + 1] ==>
      var j := FirstNotBelow(f, ifreq, 1);
      var hi := if j <= NUM_SETTINGS + 1 && f[j] == 0 then NUM_SETTINGS + 1 else j;
      1 <= j <= NUM_SETTINGS + 1 && Interpolated(f, v, ifreq) == Between(ifreq, f[j - 1], v[j - 1], f[hi], v[hi])
  {
    hide Between;
  }

  lemma Apart(f: seq<int>, ifreq: int, j: nat)
    requires |f| == NUM_SETTINGS + 2 && f[0] < ifreq < f[NUM_SETTINGS + 1] && 1 <= j <= NUM_SETTINGS + 1
    requires j == FirstNotBelow(f, ifreq, 1)
    ensures f[j - 1] < ifreq && (f[j] == 0 || ifreq <= f[j])
  {
    assert j > 1 ==> f[j - 1] < ifreq;
  }

  lemma BetweenIs(ifreq: int, f0: int, v0: int, f1: int, v1: int)
    requires f1 > f0
    ensures Between(ifreq, f0, v0, f1, v1) == v0 + CDiv((v1 - v0) * (ifreq - f0), f1 - f0)
  {
  }

  /** Values between two settings lie between theirs, reach the upper one, and never fall. */
  lemma BetweenIsBetween(ifreq: int, f0: int, v0: int, f1: int, v1: int)
    requires f0 < ifreq <= f1 && v0 <= v1
    ensures v0 <= Between(ifreq, f0, v0, f1, v1) <= v1
    ensures Between(f1, f0, v0, f1, v1) == v1
  {
    var dv, df, d := v1 - v0, f1 - f0, ifreq - f0;
    ProductMonotone(0, dv, d);
    QuotientAtLeast(0, dv * d, df);
    ProductMonotone(d, df, dv);
    QuotientAtMost(dv, dv * d, df);
    QuotientAtLeast(dv, dv * df, df);
    QuotientAtMost(dv, dv * df, df);
    ProductMonotone(0, dv, df);
  }

  lemma BetweenRises(a: int, b: int, f0: int, v0: int, f1: int, v1: int)
    requires f0 < a <= b <= f1 && v0 <= v1
    ensures Between(a, f0, v0, f1, v1) <= Between(b, f0, v0, f1, v1)
  {
    var dv, df := v1 - v0, f1 - f0;
    ProductMonotone(0, dv, a - f0);
    ProductMonotone(a - f0, b - f0, dv);
    QuotientRises(dv * (a - f0), dv * (b - f0), df);
  }

  /** The two entries that frame a frequency strictly between the guards. */
  lemma Frame(freq: seq<int>, val: seq<int>, n: nat, ifreq: int) returns (lo: nat, hi: nat)
    requires IsGuarded(freq, val, n) && freq[0] < ifreq < freq[NUM_SETTINGS + 1]
    ensures lo <= n && hi == (if lo < n then lo + 1 else NUM_SETTINGS + 1)
    ensures freq[lo] < ifreq <= freq[hi] && val[lo] <= val[hi]
    ensures Interpolated(freq, val, ifreq) == Between(ifreq, freq[lo], val[lo], freq[hi], val[hi])
  {
    hide Between;
    var j := FirstNotBelow(freq, ifreq, 1);
    lo := j - 1;
    hi := if j <= n then j else NUM_SETTINGS + 1;
  }

  /** The interpolated value is a preselector value, and exact at every setting inside the guards. */
  lemma InterpolationIsExact(freq: seq<int>, val: seq<int>, n: nat, ifreq: int)
    requires IsGuarded(freq, val, n)
    ensures 0 <= Interpolated(freq, val, ifreq) <= 255
    ensures forall i :: 1 <= i <= n && freq[0] < freq[i] < freq[NUM_SETTINGS + 1] ==>
      Interpolated(freq, val, freq[i]) == val[i]
  {
    InterpolationInRange(freq, val, n, ifreq);
    hide Interpolated;
    forall i | 1 <= i <= n && freq[0] < freq[i] < freq[NUM_SETTINGS + 1]
      ensures Interpolated(freq, val, freq[i]) == val[i]
    {
      ExactAt(freq, val, n, i);
    }
  }

  lemma InterpolationInRange(freq: seq<int>, val: seq<int>, n: nat, ifreq: int)
    requires IsGuarded(freq, val, n)
    ensures 0 <= Interpolated(freq, val, ifreq) <= 255
  {
    hide Between;
    assert ifreq <= freq[0] ==> Interpolated(freq, val, ifreq) == 0;
    assert !(ifreq <= freq[0]) && ifreq >= freq[NUM_SETTINGS + 1] ==> Interpolated(freq, val, ifreq) == 255;
    if freq[0] < ifreq < freq[NUM_SETTINGS + 1] {
      hide Interpolated;
      var lo, hi := Frame(freq, val, n, ifreq);
      BetweenIsBetween(ifreq, freq[lo], val[lo], freq[hi], val[hi]);
      SettingInRange(freq, val, n, lo);
      SettingInRange(freq, val, n, hi);
    }
  }

  lemma SettingInRange(freq: seq<int>, val: seq<int>, n: nat, i: nat)
    requires IsGuarded(freq, val, n) && (i <= n || i == NUM_SETTINGS + 1)
    ensures i < |val| && 0 <= val[i] <= 255
  {
  }

  lemma ExactAt(freq: seq<int>, val: seq<int>, n: nat, i: nat)
    requires IsGuarded(freq, val, n) && 1 <= i <= n && freq[0] < freq[i] < freq[NUM_SETTINGS + 1]
    ensures Interpolated(freq, val, freq[i]) == val[i]
  {
    hide Between, Interpolated;
    var lo, hi := Frame(freq, val, n, freq[i]);
    assert hi == i by {
      assert hi <= n ==> freq[lo] < freq[i] <= freq[hi];
    }
    BetweenIsBetween(freq[i], freq[lo], val[lo], freq[hi], val[hi]);
  }

  /** Between the guards the value is the one on the line between the two entries that frame the
      frequency, rounded down. */
  lemma InterpolationIsLinear(freq: seq<int>, val: seq<int>, n: nat, ifreq: int) returns (lo: nat, hi: nat)
    requires IsGuarded(freq, val, n) && freq[0] < ifreq < freq[NUM_SETTINGS + 1]
    ensures lo <= n && hi == (if lo < n then lo + 1 else NUM_SETTINGS + 1)
    ensures freq[lo] < ifreq <= freq[hi] && val[lo] <= val[hi]
    ensures var y := Interpolated(freq, val, ifreq);
      0 <= (val[hi] - val[lo]) * (ifreq - freq[lo]) - (y - val[lo]) * (freq[hi] - freq[lo]) < freq[hi] - freq[lo]
  {
    hide Interpolated, Between;
    lo, hi := Frame(freq, val, n, ifreq);
    BetweenIsLinear(ifreq, freq[lo], val[lo], freq[hi], val[hi]);
  }

  lemma BetweenIsLinear(x: int, f0: int, v0: int, f1: int, v1: int)
    requires f0 < x <= f1 && v0 <= v1
    ensures 0 <= (v1 - v0) * (x - f0) - (Between(x, f0, v0, f1, v1) - v0) * (f1 - f0) < f1 - f0
  {
    var y, c := (v1 - v0) * (x - f0), f1 - f0;
    ProductMonotone(0, v1 - v0, x - f0);
    assert y == (y / c) * c + y % c;
  }

  /** A stored setting comes back at its own frequency unless a guard falls on it: the lowest one,
      where the line falls to 0 within one step, or the highest one, where it rises to 255 within
      one step; or where there is no line, a setting an octave or more above the lowest one. */
  ghost predicate ComesBack(freq: seq<int>, val: seq<int>, n: nat, i: nat)
    requires |freq| == |val| == NUM_SETTINGS + 2 && 1 <= i <= n <= NUM_SETTINGS
  {
    if n > 1 && val[1] < val[n] then
      && (i == 1 && val[1] > 0 ==> val[1] * (freq[n] - freq[1]) >= val[n] - val[1])
      && (i == n && val[n] < 255 ==> (255 - val[n]) * (freq[n] - freq[1]) >= val[n] - val[1])
    else
      val[i] < 255 ==> freq[i] < 2 * freq[1]
  }

  lemma SettingComesBackIff(freq: seq<int>, val: seq<int>, n: nat, i: nat)
    requires IsGuarded(freq, val, n) && AreGuards(freq, val, n) && 1 <= i <= n
    ensures Interpolated(freq, val, freq[i]) == val[i] <==> ComesBack(freq, val, n, i)
  {
    GuardOnSetting(freq, val, n, i);
    InterpolatedIs(freq, val, freq[i]);
    if freq[0] < freq[i] < freq[NUM_SETTINGS + 1] {
      ExactAt(freq, val, n, i);
    }
    hide Interpolated, AreGuards, ComesBack, FirstNotBelow;
  }

  /** Where a guard meets a setting. */
  lemma GuardOnSetting(freq: seq<int>, val: seq<int>, n: nat, i: nat)
    requires IsGuarded(freq, val, n) && AreGuards(freq, val, n) && 1 <= i <= n
    ensures 0 <= val[i] <= 255
    ensures ComesBack(freq, val, n, i) <==>
      && (freq[i] <= freq[0] ==> val[i] == 0)
      && (freq[0] < freq[i] && freq[NUM_SETTINGS + 1] <= freq[i] ==> val[i] == 255)
  {
    var f1, v1, hif, hiv := freq[1], val[1], freq[n], val[n];
    if n > 1 && v1 < hiv {
      LowGuardMeets(freq[0], f1, v1, hif, hiv);
      HighGuardMeets(freq[NUM_SETTINGS + 1], f1, v1, hif, hiv);
      hide IsLowGuard, IsHighGuard;
      assert i > 1 ==> freq[i] > f1;
      assert i < n ==> freq[i] < hif;
    } else {
      assert freq[i] >= f1 > 0;
    }
  }

  lemma LowGuardMeets(g: int, f1: int, v1: int, hif: int, hiv: int)
    requires 0 <= v1 < hiv && 0 < f1 < hif && IsLowGuard(g, f1, v1, hif, hiv)
    ensures g <= f1 && (g == f1 <==> v1 * (hif - f1) < hiv - v1)
  {
    var c := hiv - v1;
    ProductMonotone(0, v1, hif - f1);
    if g < f1 {
      ProductMonotone(1, f1 - g, c);
    } else if g > f1 {
      ProductMonotone(1, g - f1, c);
    }
  }

  lemma HighGuardMeets(g: int, f1: int, v1: int, hif: int, hiv: int)
    requires 0 <= v1 < hiv <= 255 && f1 < hif && IsHighGuard(g, f1, v1, hif, hiv)
    ensures g >= hif && (g == hif <==> (255 - hiv) * (hif - f1) < hiv - v1)
  {
    var c := hiv - v1;
    ProductMonotone(0, 255 - hiv, hif - f1);
    assert (255 - v1) * (hif - f1) == (255 - hiv) * (hif - f1) + (hif - f1) * c;
    assert (g - f1) * c == (g - hif) * c + (hif - f1) * c;
    if g > hif {
      ProductMonotone(1, g - hif, c);
    } else if g < hif {
      ProductMonotone(1, hif - g, c);
    }
  }

  /** A higher frequency never gets a lower value. */
  lemma InterpolationRises(freq: seq<int>, val: seq<int>, n: nat, f: int, g: int)
    requires IsGuarded(freq, val, n) && f <= g
    ensures Interpolated(freq, val, f) <= Interpolated(freq, val, g)
  {
    var top := NUM_SETTINGS + 1;
    InterpolationIsExact(freq, val, n, f);
    InterpolationIsExact(freq, val, n, g);
    assert f <= freq[0] ==> Interpolated(freq, val, f) == 0;
    assert g >= freq[top] && !(g <= freq[0]) ==> Interpolated(freq, val, g) == 255;
    if freq[0] < f && g < freq[top] {
      RisesInside(freq, val, n, f, g);
    }
    hide Interpolated;
  }

  lemma RisesInside(freq: seq<int>, val: seq<int>, n: nat, f: int, g: int)
    requires IsGuarded(freq, val, n) && f <= g
    requires freq[0] < f && g < freq[NUM_SETTINGS + 1]
    ensures Interpolated(freq, val, f) <= Interpolated(freq, val, g)
  {
    hide Between, Interpolated;
    var lo, hi := Frame(freq, val, n, f);
    var lo', hi' := Frame(freq, val, n, g);
    BetweenIsBetween(f, freq[lo], val[lo], freq[hi], val[hi]);
    BetweenIsBetween(g, freq[lo'], val[lo'], freq[hi'], val[hi']);
    if lo == lo' {
      BetweenRises(f, g, freq[lo], val[lo], freq[hi], val[hi]);
    } else {
      assert lo < lo' && hi <= lo';
    }
  }

  // ------------------------------------------------------------ arithmetic

  lemma ProductMonotone(x: int, y: int, c: int)
    requires c >= 0 && x <= y
    ensures x * c <= y * c
  {
  }

  lemma QuotientAtLeast(k: int, y: int, c: int)
    requires c > 0 && k * c <= y
    ensures k <= y / c
  {
    var q := y / c;
    assert y == q * c + y % c;
    if q < k {
      ProductMonotone(q + 1, k, c);
    }
  }

  lemma QuotientAtMost(k: int, y: int, c: int)
    requires c > 0 && y <= k * c
    ensures y / c <= k
  {
    var q := y / c;
    assert y == q * c + y % c;
    if q > k {
      ProductMonotone(k + 1, q, c);
    }
  }

  lemma QuotientRises(x: int, y: int, c: int)
    requires c > 0 && 0 <= x <= y
    ensures x / c <= y / c
  {
    assert x == (x / c) * c + x % c;
    QuotientAtLeast(x / c, y, c);
  }
}
