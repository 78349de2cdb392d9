/** Run-length theory behind baseb_ramp, on a linear stretch of the ring.  d[i] is
    the key-down decision of point i, and r[i] its signed run length: the number of
    equal decisions that end there, positive for key down, negative for key up. */
module Runs {
  import opened CArithmetic

  /** The run length after one more decision. */
  function Extended(r: int, down: bool): (r': int)
    ensures r' != 0 && (r' > 0 <==> down)
  {
    if down then (if r > 0 then r + 1 else 1) else (if r < 0 then r - 1 else -1)
  }

  function Length(r: int): nat {
    if r < 0 then -r else r
  }

  /** r indexes the runs of d; the run of point 0 may have begun earlier. */
  ghost predicate IsRunIndex(r: seq<int>, d: seq<bool>) {
    && |r| == |d|
    && (|r| > 0 ==> r[0] != 0 && (r[0] > 0 <==> d[0]))
    && forall i :: 1 <= i < |r| ==> r[i] == Extended(r[i - 1], d[i])
  }

  lemma {:induction false} SignIsDecision(r: seq<int>, d: seq<bool>, i: nat)
    requires IsRunIndex(r, d) && i < |r|
    ensures r[i] != 0 && (r[i] > 0 <==> d[i])
  {
    assert i > 0 ==> r[i] == Extended(r[i - 1], d[i]);
  }

  /** The magnitude is the length of the equal-decision run that ends at i; a jump back
      by it lands on the last point of the opposite run. */
  lemma {:induction false} JumpBack(r: seq<int>, d: seq<bool>, i: nat)
    requires IsRunIndex(r, d) && i < |r|
    ensures forall j :: 0 <= j <= i && i - j < Length(r[i]) ==> d[j] == d[i] && Length(r[j]) == Length(r[i]) - (i - j)
    ensures Length(r[i]) <= i ==> d[i - Length(r[i])] != d[i]
    decreases i
  {
    SignIsDecision(r, d, i);
    if i > 0 {
      assert r[i] == Extended(r[i - 1], d[i]);
      SignIsDecision(r, d, i - 1);
      JumpBack(r, d, i - 1);
    }
  }

  // ------------------------------------------------------------- 16-bit ramps

  function Extended16(r: int, down: bool): int {
    Short(Extended(r, down))
  }

  /** What the filling loops leave behind. */
  ghost predicate IsFilled(r: seq<int>, d: seq<bool>) {
    && |r| == |d|
    && (|r| > 0 ==> -0x8000 <= r[0] < 0x8000)
    && forall i :: 1 <= i < |r| ==> r[i] == Extended16(r[i - 1], d[i])
  }

  /** The length that the run ending at i really has, from r0 at point 0. */
  function TrueRun(r0: int, d: seq<bool>, i: nat): int
    requires i < |d|
  {
    if i == 0 then r0 else Extended(TrueRun(r0, d, i - 1), d[i])
  }

  ghost predicate RunsFit(r0: int, d: seq<bool>) {
    forall i :: 0 <= i < |d| ==> -0x8000 <= TrueRun(r0, d, i) < 0x8000
  }

  /** The filled ramps index the runs exactly when no run outgrows a short. */
  lemma FilledIsIndexIffRunsFit(r: seq<int>, d: seq<bool>)
    requires IsFilled(r, d) && |r| > 0
    requires r[0] != 0 && (r[0] > 0 <==> d[0])
    ensures IsRunIndex(r, d) <==> RunsFit(r[0], d)
  {
    if IsRunIndex(r, d) {
      forall i | 0 <= i < |d|
        ensures -0x8000 <= TrueRun(r[0], d, i) < 0x8000
      {
        IndexIsTrueRun(r, d, i);
        assert i > 0 ==> r[i] == Extended16(r[i - 1], d[i]);
      }
    }
    if RunsFit(r[0], d) {
      forall i | 1 <= i < |r|
        ensures r[i] == Extended(r[i - 1], d[i])
      {
        FittingRunIsStored(r, d, i - 1);
        FittingRunIsStored(r, d, i);
      }
    }
  }

  lemma {:induction false} IndexIsTrueRun(r: seq<int>, d: seq<bool>, i: nat)
    requires IsRunIndex(r, d) && i < |r|
    ensures r[i] == TrueRun(r[0], d, i)
  {
    if i > 0 {
      IndexIsTrueRun(r, d, i - 1);
    }
  }

  lemma {:induction false} FittingRunIsStored(r: seq<int>, d: seq<bool>, i: nat)
    requires IsFilled(r, d) && i < |r|
    requires RunsFit(r[0], d)
    ensures r[i] == TrueRun(r[0], d, i)
  {
    if i > 0 {
      FittingRunIsStored(r, d, i - 1);
      assert TrueRun(r[0], d, i) == Extended(r[i - 1], d[i]);
    }
  }

  // ---------------------------------------------------------- stepping back

  /** A key-up ramp of at least `long` points. */
  predicate IsLongUp(r: seq<int>, i: nat, long: int)
    requires i < |r|
  {
    !(Length(r[i]) < long || r[i] > 0)
  }

  /** Where the run at i is no long key-up ramp, neither is any part of it before i. */
  lemma RunIsNotLong(r: seq<int>, d: seq<bool>, i: nat, long: int)
    requires IsRunIndex(r, d) && i < |r| && !IsLongUp(r, i, long)
    ensures Length(r[i]) >= 1
    ensures forall q: nat :: i - Length(r[i]) < q <= i ==> !IsLongUp(r, q, long)
  {
    JumpBack(r, d, i);
    SignIsDecision(r, d, i);
    forall q: nat | i - Length(r[i]) < q <= i
      ensures !IsLongUp(r, q, long)
    {
      SignIsDecision(r, d, q);
    }
  }

  ghost predicate HasLongUp(r: seq<int>, i: nat, long: int)
    requires i < |r|
  {
    exists q: nat :: q <= i && IsLongUp(r, q, long)
  }

  /** One step of the search for a long key-up ramp.  u holds all ramps of the ring in order
      from baseb_pe on; a step to a point more than neg behind baseb_pe goes to baseb_pe. */
  function StepBack(u: seq<int>, neg: nat, i: nat): (j: nat)
    requires i < |u|
    ensures j < |u|
  {
    var o := (i - Length(u[i])) % |u|;
    if o > neg then 0 else o
  }

  function StepsBack(u: seq<int>, neg: nat, i: nat, k: nat): (j: nat)
    requires i < |u|
    ensures j < |u|
  {
    if k == 0 then i else StepBack(u, neg, StepsBack(u, neg, i, k - 1))
  }

  lemma {:induction false} StepsCompose(u: seq<int>, neg: nat, i: nat, k: nat, m: nat)
    requires i < |u|
    ensures StepsBack(u, neg, i, k + m) == StepsBack(u, neg, StepsBack(u, neg, i, k), m)
  {
    if m > 0 {
      StepsCompose(u, neg, i, k, m - 1);
      assert StepsBack(u, neg, i, k + m) == StepBack(u, neg, StepsBack(u, neg, i, k + (m - 1)));
    }
  }

  ghost predicate SearchEnds(u: seq<int>, neg: nat, i: nat, long: int)
    requires i < |u|
  {
    exists k: nat :: IsLongUp(u, StepsBack(u, neg, i, k), long)
  }

  /** The ramps of the first |d| points index the runs of d, all within neg points. */
  ghost predicate IsIndexed(u: seq<int>, d: seq<bool>, neg: nat) {
    1 <= |d| <= neg + 1 <= |u| && IsRunIndex(u[..|d|], d)
  }

  /** A step from an indexed point: back by its run if that begins inside the index, else
      to where a step from the first point goes. */
  lemma StepInIndex(u: seq<int>, d: seq<bool>, neg: nat, i: nat, long: int)
    requires IsIndexed(u, d, neg) && i < |d| && !IsLongUp(u, i, long)
    ensures Length(u[i]) >= 1
    ensures Length(u[i]) <= i ==> StepBack(u, neg, i) == i - Length(u[i])
    ensures Length(u[i]) > i ==> StepBack(u, neg, i) == StepBack(u, neg, 0) && i - Length(u[i]) == 0 - Length(u[0])
    ensures forall q: nat :: i - Length(u[i]) < q <= i ==> !IsLongUp(u, q, long)
  {
    var r := u[..|d|];
    assert r[i] == u[i] && r[0] == u[0];
    RunIsNotLong(r, d, i, long);
    JumpBack(r, d, i);
    forall q: nat | i - Length(u[i]) < q <= i
      ensures !IsLongUp(u, q, long)
    {
      assert !IsLongUp(r, q, long) && r[q] == u[q];
    }
    if Length(u[i]) <= i {
      Remainder(i - Length(u[i]), 0, |u|, i - Length(u[i]));
    }
  }

  /** A search that starts with a step to j goes on as the one from j. */
  lemma OneStepMore(u: seq<int>, neg: nat, i: nat, j: nat, k: nat, long: int)
    requires i < |u| && j == StepBack(u, neg, i) && !IsLongUp(u, i, long)
    requires forall m: nat :: m < k ==> !IsLongUp(u, StepsBack(u, neg, j, m), long) && StepsBack(u, neg, j, m) <= i
    ensures StepsBack(u, neg, i, k + 1) == StepsBack(u, neg, j, k)
    ensures forall m: nat :: m < k + 1 ==> !IsLongUp(u, StepsBack(u, neg, i, m), long) && StepsBack(u, neg, i, m) <= i
  {
    assert StepsBack(u, neg, i, 0) == i;
    assert StepsBack(u, neg, i, 1) == StepBack(u, neg, StepsBack(u, neg, i, 0)) == j;
    hide IsLongUp, StepBack;
    StepsCompose(u, neg, i, 1, k);
    forall m: nat | m < k + 1
      ensures !IsLongUp(u, StepsBack(u, neg, i, m), long) && StepsBack(u, neg, i, m) <= i
    {
      if m > 0 {
        StepsCompose(u, neg, i, 1, m - 1);
      }
    }
  }

  lemma {:induction false} SearchReaches(u: seq<int>, d: seq<bool>, neg: nat, i: nat, q: nat, long: int) returns (k: nat)
    requires IsIndexed(u, d, neg) && q <= i < |d| && IsLongUp(u, q, long)
    ensures IsLongUp(u, StepsBack(u, neg, i, k), long) && q <= StepsBack(u, neg, i, k) <= i
    ensures forall x :: StepsBack(u, neg, i, k) < x <= i ==> !IsLongUp(u, x, long)
    ensures forall m: nat :: m < k ==> !IsLongUp(u, StepsBack(u, neg, i, m), long) && StepsBack(u, neg, i, m) <= i
    decreases i
  {
    if IsLongUp(u, i, long) {
      assert StepsBack(u, neg, i, 0) == i;
      return 0;
    }
    StepInIndex(u, d, neg, i, long);
    var j := StepBack(u, neg, i);
    assert q <= j;
    hide IsLongUp, StepBack, Length, IsIndexed;
    k := SearchReaches(u, d, neg, j, q, long);
    OneStepMore(u, neg, i, j, k, long);
    k := k + 1;
  }

  /** The search from i stops after k steps. */
  ghost predicate StopsAfter(u: seq<int>, neg: nat, i: nat, k: nat, long: int)
    requires i < |u|
  {
    && IsLongUp(u, StepsBack(u, neg, i, k), long)
    && forall m: nat :: m < k ==> !IsLongUp(u, StepsBack(u, neg, i, m), long)
  }

  ghost predicate IsLastLongUp(r: seq<int>, i: nat, long: int) {
    i < |r| && IsLongUp(r, i, long) && forall q :: i < q < |r| ==> !IsLongUp(r, q, long)
  }

  /** With a long key-up ramp in the index, the search stops at the last point of the last one. */
  lemma StopsAtLast(u: seq<int>, d: seq<bool>, neg: nat, k: nat, long: int)
    requires IsIndexed(u, d, neg) && HasLongUp(u, |d| - 1, long) && StopsAfter(u, neg, |d| - 1, k, long)
    ensures IsLastLongUp(u[..|d|], StepsBack(u, neg, |d| - 1, k), long)
  {
    var c := |d| - 1;
    var q: nat :| q <= c && IsLongUp(u, q, long);
    var k' := SearchReaches(u, d, neg, c, q, long);
    hide StepsBack, IsLongUp, IsRunIndex;
    assert !(k < k') && !(k' < k);
    LastOfPart(u, |d|, StepsBack(u, neg, c, k), long);
  }

  lemma LastOfPart(u: seq<int>, count: nat, p: nat, long: int)
    requires p < count <= |u| && IsLongUp(u, p, long)
    requires forall x :: p < x < count ==> !IsLongUp(u, x, long)
    ensures IsLastLongUp(u[..count], p, long)
  {
    forall x: nat | p < x < count
      ensures !IsLongUp(u[..count], x, long)
    {
      assert !IsLongUp(u, x, long);
    }
  }

  /** Without a long key-up ramp the search comes to where a step from the first point goes. */
  lemma {:induction false} SearchComesDown(u: seq<int>, d: seq<bool>, neg: nat, i: nat, long: int) returns (k: nat)
    requires IsIndexed(u, d, neg) && i < |d| && !HasLongUp(u, |d| - 1, long)
    ensures StepsBack(u, neg, i, k) == StepBack(u, neg, 0)
    ensures forall m: nat :: m < k ==> StepsBack(u, neg, i, m) < |d|
    decreases i
  {
    assert !IsLongUp(u, i, long);
    StepInIndex(u, d, neg, i, long);
    var j := StepBack(u, neg, i);
    assert StepsBack(u, neg, i, 0) == i;
    assert StepsBack(u, neg, i, 1) == StepBack(u, neg, StepsBack(u, neg, i, 0)) == j;
    if Length(u[i]) > i {
      return 1;
    }
    k := SearchComesDown(u, d, neg, j, long);
    StepsCompose(u, neg, i, 1, k);
    forall m: nat | m < k + 1
      ensures StepsBack(u, neg, i, m) < |d|
    {
      if m > 0 {
        StepsCompose(u, neg, i, 1, m - 1);
      }
    }
    k := k + 1;
  }

  lemma {:induction false} StaysInIndex(u: seq<int>, d: seq<bool>, neg: nat, i: nat, k: nat, long: int)
    requires IsIndexed(u, d, neg) && i < |d| && !HasLongUp(u, |d| - 1, long) && StepBack(u, neg, 0) < |d|
    ensures StepsBack(u, neg, i, k) < |d|
  {
    if k > 0 {
      StaysInIndex(u, d, neg, i, k - 1, long);
      var j := StepsBack(u, neg, i, k - 1);
      assert !IsLongUp(u, j, long);
      StepInIndex(u, d, neg, j, long);
    }
  }

  /** The search from the newest indexed point ends if and only if there is a long key-up ramp
      in the index, or the run at baseb_pe reaches back so far that the step from it is not
      caught: then it goes on from an old ramp behind the newest point. */
  lemma SearchEndsIff(u: seq<int>, d: seq<bool>, neg: nat, long: int)
    requires IsIndexed(u, d, neg)
    ensures SearchEnds(u, neg, |d| - 1, long) <==>
      || HasLongUp(u, |d| - 1, long)
      || (StepBack(u, neg, 0) >= |d| && SearchEnds(u, neg, StepBack(u, neg, 0), long))
  {
    var c, o := |d| - 1, StepBack(u, neg, 0);
    if HasLongUp(u, c, long) {
      var q: nat :| q <= c && IsLongUp(u, q, long);
      var k := SearchReaches(u, d, neg, c, q, long);
    } else if o < |d| {
      forall k: nat
        ensures !IsLongUp(u, StepsBack(u, neg, c, k), long)
      {
        StaysInIndex(u, d, neg, c, k, long);
      }
    } else {
      var k := SearchComesDown(u, d, neg, c, long);
      if SearchEnds(u, neg, o, long) {
        var m: nat :| IsLongUp(u, StepsBack(u, neg, o, m), long);
        StepsCompose(u, neg, c, k, m);
      }
      if SearchEnds(u, neg, c, long) {
        var m: nat :| IsLongUp(u, StepsBack(u, neg, c, m), long);
        assert m >= k;
        StepsCompose(u, neg, c, k, m - k);
      }
    }
  }

  /** When the run at baseb_pe is shorter than the unused part of the ring, only a long
      key-up ramp in the index ends the search. */
  lemma SearchEndsIffLongUp(u: seq<int>, d: seq<bool>, neg: nat, long: int)
    requires IsIndexed(u, d, neg) && Length(u[0]) < |u| - neg
    ensures SearchEnds(u, neg, |d| - 1, long) <==> HasLongUp(u, |d| - 1, long)
  {
    SearchEndsIff(u, d, neg, long);
    var r := u[..|d|];
    SignIsDecision(r, d, 0);
    Remainder(0 - Length(u[0]), -1, |u|, |u| - Length(u[0]));
  }

  /** A search that comes twice to one point without a stop never stops. */
  lemma {:induction false} CycleNeverStops(u: seq<int>, neg: nat, i: nat, j: nat, j': nat, k: nat, long: int)
    requires i < |u| && j < j' && StepsBack(u, neg, i, j) == StepsBack(u, neg, i, j')
    requires forall m: nat :: m < j' ==> !IsLongUp(u, StepsBack(u, neg, i, m), long)
    ensures !IsLongUp(u, StepsBack(u, neg, i, k), long)
    decreases k
  {
    if k >= j' {
      hide StepBack, IsLongUp;
      StepsCompose(u, neg, i, j', k - j');
      StepsCompose(u, neg, i, j, k - j');
      CycleNeverStops(u, neg, i, j, j', k - (j' - j), long);
    }
  }

  /** The search goes on for k steps at least. */
  ghost predicate GoesOnFor(u: seq<int>, neg: nat, i: nat, k: nat, long: int)
    requires i < |u|
  {
    forall m: nat :: m < k ==> !IsLongUp(u, StepsBack(u, neg, i, m), long)
  }

  lemma CycleNeverEnds(u: seq<int>, neg: nat, i: nat, j: nat, j': nat, long: int)
    requires i < |u| && j < j' && StepsBack(u, neg, i, j) == StepsBack(u, neg, i, j')
    requires GoesOnFor(u, neg, i, j', long)
    ensures !SearchEnds(u, neg, i, long)
  {
    hide StepsBack, IsLongUp;
    forall k: nat
      ensures !IsLongUp(u, StepsBack(u, neg, i, k), long)
    {
      CycleNeverStops(u, neg, i, j, j', k, long);
    }
  }

  /** A step from inside the index that is reset: so is every step from baseb_pe. */
  lemma ResetInIndex(u: seq<int>, d: seq<bool>, neg: nat, p: nat, long: int)
    requires IsIndexed(u, d, neg) && p < |d| && !IsLongUp(u, p, long) && (p - Length(u[p])) % |u| > neg
    ensures StepBack(u, neg, 0) == 0 && !IsLongUp(u, 0, long)
  {
    StepInIndex(u, d, neg, p, long);
    if Length(u[p]) <= p {
      Remainder(p - Length(u[p]), 0, |u|, p - Length(u[p]));
      assert false;
    }
  }

  /** A step from an old ramp behind the index: the search has passed baseb_pe before. */
  lemma ComesFromBehind(u: seq<int>, d: seq<bool>, neg: nat, k: nat, long: int) returns (k0: nat)
    requires IsIndexed(u, d, neg) && StepsBack(u, neg, |d| - 1, k) >= |d| && GoesOnFor(u, neg, |d| - 1, k + 1, long)
    ensures k0 <= k && StepsBack(u, neg, |d| - 1, k0) == StepBack(u, neg, 0) && !IsLongUp(u, 0, long)
  {
    var c := |d| - 1;
    if HasLongUp(u, c, long) {
      var q: nat :| q <= c && IsLongUp(u, q, long);
      k0 := SearchReaches(u, d, neg, c, q, long);
      assert false;
    } else {
      assert !IsLongUp(u, 0, long);
      k0 := SearchComesDown(u, d, neg, c, long);
    }
  }

  /** A step that is reset, and the one after it. */
  lemma ResetSteps(u: seq<int>, neg: nat, i: nat, k: nat)
    requires i < |u|
    requires var p := StepsBack(u, neg, i, k); (p - Length(u[p])) % |u| > neg
    ensures StepsBack(u, neg, i, k + 1) == 0 && StepsBack(u, neg, i, k + 2) == StepBack(u, neg, 0)
  {
    assert StepsBack(u, neg, i, k + 1) == StepBack(u, neg, StepsBack(u, neg, i, k)) == 0;
    assert StepsBack(u, neg, i, k + 2) == StepBack(u, neg, StepsBack(u, neg, i, k + 1));
  }

  lemma OneStepOn(u: seq<int>, neg: nat, i: nat, k: nat, long: int)
    requires i < |u| && GoesOnFor(u, neg, i, k, long) && !IsLongUp(u, StepsBack(u, neg, i, k), long)
    ensures GoesOnFor(u, neg, i, k + 1, long)
  {
  }

  /** Wherever the search has come to without a stop, if it is reset to baseb_pe there it never ends. */
  lemma ResetNeverEnds(u: seq<int>, d: seq<bool>, neg: nat, k: nat, long: int)
    requires IsIndexed(u, d, neg) && GoesOnFor(u, neg, |d| - 1, k + 1, long)
    requires var p := StepsBack(u, neg, |d| - 1, k); (p - Length(u[p])) % |u| > neg
    ensures !SearchEnds(u, neg, |d| - 1, long)
  {
    var c := |d| - 1;
    var p := StepsBack(u, neg, c, k);
    ResetSteps(u, neg, c, k);
    hide StepBack, StepsBack, IsLongUp, SearchEnds, Length;
    var j := k + 1;
    if p < |d| {
      ResetInIndex(u, d, neg, p, long);
    } else {
      j := ComesFromBehind(u, d, neg, k, long);
    }
    OneStepOn(u, neg, c, k + 1, long);
    CycleNeverEnds(u, neg, c, j, k + 2, long);
  }

  // ------------------------------------------------------ ends of key-down runs

  /** The ends of the key-down runs between lo and hi, latest first: points e with
      lo < e < hi that are down and followed by a point that is up. */
  ghost function DownEnds(d: seq<bool>, lo: int, hi: nat): (ends: seq<nat>)
    requires -1 <= lo <= hi < |d|
    ensures |ends| <= hi
    ensures forall i :: 0 <= i < |ends| ==> lo < ends[i] < hi
    decreases hi
  {
    if hi <= lo + 1 then []
    else if d[hi - 1] && !d[hi] then [hi - 1] + DownEnds(d, lo, hi - 1)
    else DownEnds(d, lo, hi - 1)
  }

  ghost predicate Descending(s: seq<nat>) {
    forall i, j :: 0 <= i < j < |s| ==> s[i] > s[j]
  }

  predicate IsDownEnd(d: seq<bool>, lo: int, hi: nat, e: nat)
    requires hi < |d|
  {
    lo < e < hi && d[e] && !d[e + 1]
  }

  /** They are all of them, each once, in descending order. */
  lemma {:induction false} DownEndsAreAll(d: seq<bool>, lo: int, hi: nat)
    requires -1 <= lo <= hi < |d|
    ensures forall e: nat :: e in DownEnds(d, lo, hi) <==> IsDownEnd(d, lo, hi, e)
    ensures Descending(DownEnds(d, lo, hi))
    decreases hi
  {
    if hi > lo + 1 {
      DownEndsAreAll(d, lo, hi - 1);
      var rest := DownEnds(d, lo, hi - 1);
      assert forall e: nat :: IsDownEnd(d, lo, hi, e) <==> IsDownEnd(d, lo, hi - 1, e) || (e == hi - 1 && d[e] && !d[hi]);
      if d[hi - 1] && !d[hi] {
        DescendFrom(hi - 1, rest);
      }
    }
  }

  lemma DescendFrom(e: nat, s: seq<nat>)
    requires Descending(s) && forall x :: x in s ==> x < e
    ensures Descending([e] + s)
  {
    assert forall j :: 0 <= j < |s| ==> s[j] in s;
  }

  lemma {:induction false} NoEndsWithin(d: seq<bool>, lo: int, mid: nat, hi: nat)
    requires -1 <= lo <= mid <= hi < |d|
    requires forall e :: mid <= e < hi ==> !(lo < e && d[e] && !d[e + 1])
    ensures DownEnds(d, lo, hi) == DownEnds(d, lo, mid)
    decreases hi
  {
    if mid < hi && lo + 1 < hi {
      NoEndsWithin(d, lo, mid, hi - 1);
    }
  }

  /** The ends up to mid come behind those after it. */
  lemma {:induction false} EndsSplit(d: seq<bool>, lo: int, mid: int, hi: nat)
    requires -1 <= lo <= mid < hi < |d|
    ensures DownEnds(d, lo, hi) == DownEnds(d, mid, hi) + DownEnds(d, lo, mid + 1)
    decreases hi
  {
    if mid + 1 < hi {
      EndsSplit(d, lo, mid, hi - 1);
    }
  }

  /** From a key-up point c after lo, the first jump of the walk: to the latest end of a key-down
      run after lo, unless no such run is left. */
  lemma JumpToDown(r: seq<int>, d: seq<bool>, lo: int, c: nat)
    requires IsRunIndex(r, d) && -1 <= lo < c < |r| && !d[c]
    ensures r[c] < 0
    ensures c + r[c] <= lo ==> DownEnds(d, lo, c) == []
    ensures c + r[c] > lo ==>
      var e := c + r[c];
      0 <= e < c && d[e] && DownEnds(d, lo, c) == [e] + DownEnds(d, lo, e)
  {
    JumpBack(r, d, c);
    SignIsDecision(r, d, c);
    var e := c + r[c];
    if e <= lo {
      NoEndsWithin(d, lo, if lo < 0 then 0 else lo, c);
    } else if e >= 0 {
      NoEndsWithin(d, lo, e + 1, c);
    }
  }

  /** From there, the second jump: to the end of the key-up run before it, with no other end of
      a key-down run between them, nor any left after lo if it passes lo. */
  lemma JumpToUp(r: seq<int>, d: seq<bool>, lo: int, e: nat)
    requires IsRunIndex(r, d) && -1 <= lo < e < |r| && d[e]
    ensures r[e] > 0
    ensures e - r[e] < lo || e - r[e] < 0 ==> DownEnds(d, lo, e) == []
    ensures e - r[e] >= lo && e - r[e] >= 0 ==>
      var f := e - r[e];
      !d[f] && d[f + 1] && DownEnds(d, lo, e) == DownEnds(d, lo, f)
  {
    JumpBack(r, d, e);
    SignIsDecision(r, d, e);
    var f := e - r[e];
    if f < lo || f < 0 {
      NoEndsWithin(d, lo, if lo < 0 then 0 else lo, e);
    } else {
      NoEndsWithin(d, lo, f, e);
    }
  }

  /** The signed run lengths that decisions d have, from r0 at point 0. */
  function TrueRuns(r0: int, d: seq<bool>): (r: seq<int>)
    ensures |r| == |d|
  {
    seq(|d|, i requires 0 <= i < |d| => TrueRun(r0, d, i))
  }

  lemma IndexIsTrueRuns(r: seq<int>, d: seq<bool>)
    requires IsRunIndex(r, d) && |r| > 0
    ensures r == TrueRuns(r[0], d)
  {
    forall i | 0 <= i < |r|
      ensures r[i] == TrueRuns(r[0], d)[i]
    {
      IndexIsTrueRun(r, d, i);
    }
  }
}
