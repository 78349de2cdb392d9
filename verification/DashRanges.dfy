/** Looking for dashes around those already found: get_recent_dashes and get_old_dashes
    (cwdetect.c:3254-3291).  Both find by the ramps where the backward walk of
    find_good_dashes begins and ends, and leave when that range is too long. */
module DashRanges {
  import opened Rings
  import opened Runs
  import opened KeyingRamps
  import opened MorseTimeline

  /** The ramps of the ring index the decisions d of the points from lo on. */
  ghost predicate Indexes(ramps: seq<int>, lo: nat, d: seq<bool>) {
    lo < |ramps| && |d| <= |ramps| && IsRunIndex(Unroll(ramps, lo, |d|), d)
  }

  lemma SignAt(ramps: seq<int>, lo: nat, d: seq<bool>, i: nat)
    requires Indexes(ramps, lo, d) && i < |d|
    ensures var ramp := ramps[At(lo, i, |ramps|)]; ramp != 0 && (ramp > 0 <==> d[i])
  {
    SignIsDecision(Unroll(ramps, lo, |d|), d, i);
  }

  lemma Shape(ramps: seq<int>, lo: nat, d: seq<bool>)
    requires Indexes(ramps, lo, d)
    ensures lo < |ramps| && |d| <= |ramps|
  {
  }

  lemma NextPlace(lo: nat, i: nat, n: nat)
    requires lo < n && i + 1 < n
    ensures Next(At(lo, i, n), n) == At(lo, i + 1, n) && Prev(At(lo, i + 1, n), n) == At(lo, i, n)
  {
  }

  lemma FurtherPlace(lo: nat, b: nat, j: nat, n: nat)
    requires lo < n && b + j < n
    ensures At(At(lo, b, n), j, n) == At(lo, b + j, n)
  {
  }

  // -------------------------------------------------------- skipping runs

  predicate GoesOn(ramp: int, down: bool) {
    if down then ramp > 0 else ramp < 0
  }

  /** k steps on from start is the first point that does not continue the run. */
  ghost predicate SkipsTo(ramps: seq<int>, start: nat, down: bool, k: nat) {
    && start < |ramps| && k < |ramps| && !GoesOn(ramps[At(start, k, |ramps|)], down)
    && forall j :: 0 <= j < k ==> GoesOn(ramps[At(start, j, |ramps|)], down)
  }

  /** Step forward over the rest of a run, key down or key up; it ends if any ramp of the ring
      is not of that kind. */
  method SkipRun(ramp: array<int>, start: nat, down: bool) returns (p: nat, ghost k: nat)
    requires start < ramp.Length && exists q :: 0 <= q < ramp.Length && !GoesOn(ramp[q], down)
    ensures p < ramp.Length && SkipsTo(ramp[..], start, down, k) && p == At(start, k, ramp.Length)
  {
    ghost var q :| 0 <= q < ramp.Length && !GoesOn(ramp[q], down);
    ghost var last := Off(start, q, ramp.Length);
    Place(start, q, ramp.Length);
    p, k := start, 0;
    while (down && ramp[p] > 0) || (!down && ramp[p] < 0)
      invariant p < ramp.Length && k <= last && p == At(start, k, ramp.Length)
      invariant forall j :: 0 <= j < k ==> GoesOn(ramp[At(start, j, ramp.Length)], down)
      decreases last - k
    {
      assert k != last;
      NextPlace(start, k, ramp.Length);
      p := Next(p, ramp.Length);
      k := k + 1;
    }
  }

  ghost predicate IsSkip(d: seq<bool>, b: nat, down: bool, u: nat) {
    b <= u < |d| && d[u] != down && forall x :: b <= x < u ==> d[x] == down
  }

  /** Inside the index a run is skipped by its decisions. */
  lemma SkipInside(ramps: seq<int>, lo: nat, d: seq<bool>, b: nat, down: bool, k: nat, v: nat)
    requires Indexes(ramps, lo, d) && b <= v < |d| && d[v] != down
    requires SkipsTo(ramps, At(lo, b, |ramps|), down, k)
    ensures b + k <= v && IsSkip(d, b, down, b + k)
    ensures At(At(lo, b, |ramps|), k, |ramps|) == At(lo, b + k, |ramps|)
  {
    var n := |ramps|;
    forall j: nat | b + j <= v
      ensures GoesOn(ramps[At(At(lo, b, n), j, n)], down) <==> d[b + j] == down
    {
      FurtherPlace(lo, b, j, n);
      SignAt(ramps, lo, d, b + j);
    }
    hide Indexes, GoesOn, At;
    assert b + (v - b) == v && !GoesOn(ramps[At(At(lo, b, n), v - b, n)], down);
    assert !(v - b < k);
    FurtherPlace(lo, b, k, n);
    forall x | b <= x < b + k
      ensures d[x] == down
    {
      assert GoesOn(ramps[At(At(lo, b, n), x - b, n)], down);
    }
  }

  // ---------------------------------------------------------- newer dashes

  /** A key-down run begins at v. */
  ghost predicate GoesDown(d: seq<bool>, v: nat) {
    0 < v < |d| && d[v] && !d[v - 1]
  }

  ghost predicate HasLaterRun(d: seq<bool>, b: nat) {
    exists v :: b < v && GoesDown(d, v)
  }

  /** From distance b on: key down before u, then key up through a, then key down. */
  ghost predicate IsFirstUpRun(d: seq<bool>, b: nat, u: nat, a: nat) {
    && b <= u <= a && a + 1 < |d| && d[a + 1]
    && (forall x :: b <= x < u ==> d[x])
    && (forall x :: u <= x <= a ==> !d[x])
  }

  /** p is the last point of the first key-up run at or after start: j steps over key-down
      ramps, then k over key-up ramps, then one back. */
  ghost predicate EndsUpRun(ramps: seq<int>, start: nat, j: nat, k: nat, p: nat) {
    && SkipsTo(ramps, start, true, j)
    && SkipsTo(ramps, At(start, j, |ramps|), false, k)
    && p == Prev(At(At(start, j, |ramps|), k, |ramps|), |ramps|)
  }

  method UpRunEnd(ramp: array<int>, start: nat) returns (p: nat, ghost j: nat, ghost k: nat)
    requires start < ramp.Length
    requires exists q :: 0 <= q < ramp.Length && ramp[q] <= 0
    requires exists q :: 0 <= q < ramp.Length && ramp[q] >= 0
    ensures EndsUpRun(ramp[..], start, j, k, p) && p < ramp.Length
  {
    assert exists q :: 0 <= q < ramp.Length && !GoesOn(ramp[q], true);
    assert exists q :: 0 <= q < ramp.Length && !GoesOn(ramp[q], false);
    hide GoesOn, SkipsTo;
    p, j := SkipRun(ramp, start, true);
    p, k := SkipRun(ramp, p, false);
    p := Prev(p, ramp.Length);
  }

  /** Inside the index that is the end of the first key-up run by the decisions. */
  lemma UpRunEndInside(ramps: seq<int>, lo: nat, d: seq<bool>, b: nat, v: nat, j: nat, k: nat, p: nat)
    requires Indexes(ramps, lo, d) && b < v && GoesDown(d, v)
    requires EndsUpRun(ramps, At(lo, b, |ramps|), j, k, p)
    ensures j + k >= 1 && b + j + k <= v && IsFirstUpRun(d, b, b + j, b + j + k - 1)
    ensures p == At(lo, b + j + k - 1, |ramps|)
  {
    Shape(ramps, lo, d);
    hide Indexes, SkipsTo;
    SkipInside(ramps, lo, d, b, true, j, v - 1);
    SkipInside(ramps, lo, d, b + j, false, k, v);
    NextPlace(lo, b + j + k - 1, |ramps|);
  }

  /** Some ramp at most `unused` points behind p ends the key-up run there. */
  ghost predicate EndsSoon(ramps: seq<int>, p: nat, unused: int) {
    p < |ramps| && exists j: nat :: 1 <= j <= unused && j <= |ramps| && ramps[At(p, j, |ramps|)] >= 0
  }

  lemma {:induction false} StaysUp(d: seq<bool>, u: nat, x: nat)
    requires u <= x < |d| && !d[u] && !HasLaterRun(d, u)
    ensures !d[x]
  {
    if u < x {
      StaysUp(d, u, x - 1);
      assert !GoesDown(d, x);
    }
  }

  lemma BeyondPlace(lo: nat, u: nat, c: nat, k: nat, n: nat)
    requires lo < n && u <= c < n && c - u < k < n
    ensures var p := Prev(At(At(lo, u, n), k, n), n);
      var i := k - (c - u) - 1;
      Off(p, At(lo, c, n), n) == if i == 0 then 0 else n - i
  {
  }

  /** With no key-down run left after b, the key-up run goes on behind the newest point: its end
      is that point, or so far behind it that the ring test takes it for a point long before. */
  lemma UpRunEndBeyond(ramps: seq<int>, lo: nat, d: seq<bool>, b: nat, unused: int, j: nat, k: nat, p: nat)
    requires Indexes(ramps, lo, d) && b < |d| && !d[|d| - 1] && !HasLaterRun(d, b)
    requires unused <= |ramps| && EndsSoon(ramps, At(lo, |d| - 1, |ramps|), unused)
    requires EndsUpRun(ramps, At(lo, b, |ramps|), j, k, p)
    ensures var c := At(lo, |d| - 1, |ramps|);
      p == c || Off(p, c, |ramps|) > |ramps| - unused
  {
    var n, c := |ramps|, |d| - 1;
    Shape(ramps, lo, d);
    SkipInside(ramps, lo, d, b, true, j, c);
    var u := b + j;
    forall m: nat | u + m <= c
      ensures GoesOn(ramps[At(At(lo, u, n), m, n)], false)
    {
      StaysUp(d, u, u + m);
      FurtherPlace(lo, u, m, n);
      SignAt(ramps, lo, d, u + m);
    }
    hide Indexes;
    assert c - u < k;
    BeyondPlace(lo, u, c, k, n);
    SamePlace(p, p, At(lo, c, n), n);
    var e: nat :| 1 <= e <= unused && e <= n && ramps[At(At(lo, c, n), e, n)] >= 0;
    if c - u + e < n {
      BehindPlace(lo, u, c, e, n);
    }
  }

  lemma BehindPlace(lo: nat, u: nat, c: nat, e: nat, n: nat)
    requires lo < n && u <= c < n && c - u + e < n
    ensures At(At(lo, u, n), c - u + e, n) == At(At(lo, c, n), e, n)
  {
  }

  /** e ends a key-down run that begins after b. */
  ghost predicate EndsNewRun(d: seq<bool>, b: nat, c: nat, e: nat)
    requires c < |d|
  {
    IsDownEnd(d, b, c, e) && exists x :: b <= x < e && !d[x]
  }

  /** Between the end a of the first key-up run after b and a later key-up point c, the walk
      meets the key-down runs that begin after b, all of them and no other. */
  lemma RecentRunsAreNew(d: seq<bool>, b: nat, u: nat, a: nat, c: nat, e: nat)
    requires IsFirstUpRun(d, b, u, a) && a <= c < |d|
    ensures e in DownEnds(d, a, c) <==> EndsNewRun(d, b, c, e)
  {
    DownEndsAreAll(d, a, c);
    if EndsNewRun(d, b, c, e) {
      assert e > a;
    }
    if e in DownEnds(d, a, c) {
      assert !d[a];
    }
  }

  ghost predicate IsRecentRange(d: seq<bool>, b: nat, a: nat, c: nat) {
    a <= c < |d| && forall e: nat :: e in DownEnds(d, a, c) <==> EndsNewRun(d, b, c, e)
  }

  /** The first key-up run after b ends more than neg points before c. */
  ghost predicate IsFar(d: seq<bool>, b: nat, c: nat, neg: nat) {
    exists u, a :: IsFirstUpRun(d, b, u, a) && c - a > neg
  }

  /** What get_recent_dashes needs: from lo through baseb_pc the ramps index the decisions d,
      the key is up at baseb_pc, the newest dash comes before it, and baseb_pe not more than neg
      points before it.  After the newest dash comes another key-down run, or an old ramp behind
      baseb_pc ends the run there. */
  ghost predicate CanLookOn(ramps: seq<int>, pe: nat, neg: nat, newest: nat, pc: nat, lo: nat, d: seq<bool>) {
    var n := |ramps|;
    && pe < n && pc < n && newest < n && neg < n && Indexes(ramps, lo, d)
    && var c, q, b := Off(lo, pc, n), Off(lo, pe, n), Off(lo, newest, n);
       && |d| == c + 1 && b <= c <= q + neg && !d[c]
       && (HasLaterRun(d, b) || EndsSoon(ramps, pc, n - neg))
  }

  /** Where the walk is to end, and the test of the distance. */
  ghost predicate IsRecentEnd(ramps: seq<int>, pe: nat, neg: nat, newest: nat, pc: nat, lo: nat, d: seq<bool>, ia: nat) {
    var n := |ramps|;
    && newest < n && pc < n && lo < n && ia < n
    && var c, b, a := Off(lo, pc, n), Off(lo, newest, n), Off(lo, ia, n);
       if Off(ia, pc, n) > neg then HasLaterRun(d, b) ==> IsFar(d, b, c, neg)
       else a + Off(ia, pc, n) == c && IsRecentRange(d, b, a, c) && CanWalk(ramps, pe, neg, ia, pc, lo, d)
  }

  lemma NoNewRun(d: seq<bool>, b: nat, c: nat)
    requires b <= c < |d| && !HasLaterRun(d, b)
    ensures IsRecentRange(d, b, c, c)
  {
    assert DownEnds(d, c, c) == [];
    forall e: nat | EndsNewRun(d, b, c, e)
      ensures false
    {
      var x :| b <= x < e && !d[x];
      assert !HasLaterRun(d, x) by {
        assert forall v: nat :: GoesDown(d, v) ==> v <= b;
      }
      StaysUp(d, x, e);
    }
  }

  lemma RecentEnd(ramps: seq<int>, pe: nat, neg: nat, newest: nat, pc: nat, lo: nat, d: seq<bool>, j: nat, k: nat, ia: nat)
    requires CanLookOn(ramps, pe, neg, newest, pc, lo, d) && EndsUpRun(ramps, newest, j, k, ia) && ia < |ramps|
    ensures IsRecentEnd(ramps, pe, neg, newest, pc, lo, d, ia)
  {
    var n := |ramps|;
    var c, b := Off(lo, pc, n), Off(lo, newest, n);
    Place(lo, newest, n);
    Place(lo, pc, n);
    if HasLaterRun(d, b) {
      var v :| b < v && GoesDown(d, v);
      UpRunEndInside(ramps, lo, d, b, v, j, k, ia);
      var a := b + j + k - 1;
      PlaceAt(lo, a, n);
      OffBetween(lo, a, c, n);
      forall e: nat
        ensures e in DownEnds(d, a, c) <==> EndsNewRun(d, b, c, e)
      {
        RecentRunsAreNew(d, b, b + j, a, c, e);
      }
      assert IsRecentRange(d, b, a, c);
    } else {
      UpRunEndBeyond(ramps, lo, d, b, n - neg, j, k, ia);
      NoNewRun(d, b, c);
    }
  }

  lemma TwoSigns(ramps: seq<int>, pe: nat, neg: nat, newest: nat, pc: nat, lo: nat, d: seq<bool>)
    requires CanLookOn(ramps, pe, neg, newest, pc, lo, d)
    ensures exists q :: 0 <= q < |ramps| && ramps[q] <= 0
    ensures exists q :: 0 <= q < |ramps| && ramps[q] >= 0
  {
    var n := |ramps|;
    SignAt(ramps, lo, d, Off(lo, pc, n));
    if HasLaterRun(d, Off(lo, newest, n)) {
      var v :| Off(lo, newest, n) < v && GoesDown(d, v);
      SignAt(ramps, lo, d, v);
    }
  }

  /** The whole-point place of a dash in the ring. */
  function PointOf(part: Part): int {
    part.midpoint.Floor
  }

  /** What is left of the timeline s when the dashes found on the walk from ic back to ia have
      been appended and checked; a part of no length stops it before the walk. */
  ghost predicate WasLookedThrough(s: seq<Part>, now: seq<Part>, killed: bool, ramps: seq<int>, pe: nat, neg: nat, ia: nat, ic: nat,
                                   lo: nat, d: seq<bool>, ends: seq<nat>, early: bool, dashPts: nat, fit: nat -> DashFit, limits: Limits)
    requires limits.Valid() && forall i :: 0 <= i < |ends| ==> ends[i] < |ramps|
  {
    if !Checks(s, false, limits.size, limits.neg) then now == s && killed
    else
      var (v, stopped) := FoundDashes(s, GoodDashes(ramps, ends, dashPts, fit), limits);
      && IsWalk(ends, early, pe, neg, ia, ic, lo, d, |ramps|)
      && now == v && (killed <==> stopped || !Checks(v, true, limits.size, limits.neg))
  }

  /** The end of both functions: find_good_dashes over the range, and check_cw. */
  method LookThrough(timeline: Timeline, ramp: array<int>, pe: nat, neg: nat, ia: nat, ic: nat, ghost lo: nat, ghost d: seq<bool>,
                     dashPts: nat, fit: nat -> DashFit)
    returns (ghost ends: seq<nat>, ghost early: bool)
    requires timeline.Valid() && !timeline.killed
    requires CanWalk(ramp[..], pe, neg, ia, ic, lo, d)
    modifies timeline`count, timeline`killed, timeline.cw
    ensures timeline.Valid()
    ensures forall i :: 0 <= i < |ends| ==> ends[i] < ramp.Length
    ensures WasLookedThrough(old(timeline.Parts()), timeline.Parts(), timeline.killed, ramp[..], pe, neg, ia, ic, lo, d,
                             ends, early, dashPts, fit, timeline.limits)
  {
    hide IsWalk, CanWalk, Checks, FoundDashes, GoodDashes;
    ghost var ramps := ramp[..];
    ends, early := timeline.FindGoodDashes(ramp, pe, neg, ia, ic, lo, d, dashPts, fit);
    timeline.CheckCw(true);
    assert ramp[..] == ramps;
  }

  /** get_recent_dashes: the key-down runs that begin after the newest dash, all of them and no
      other, are walked over, unless they reach back too far. */
  method GetRecentDashes(timeline: Timeline, ramp: array<int>, pe: nat, neg: nat, pc: nat, ghost lo: nat, ghost d: seq<bool>,
                         dashPts: nat, fit: nat -> DashFit)
    returns (ia: nat, ghost ends: seq<nat>, ghost early: bool)
    requires timeline.Valid() && !timeline.killed && 0 < timeline.count
    requires var newest := PointOf(timeline.cw[timeline.count - 1]);
      newest >= 0 && CanLookOn(ramp[..], pe, neg, newest, pc, lo, d)
    modifies timeline`count, timeline`killed, timeline.cw
    ensures timeline.Valid() && pc < ramp.Length
    ensures var newest := old(PointOf(timeline.cw[timeline.count - 1]));
      newest >= 0 && IsRecentEnd(ramp[..], pe, neg, newest, pc, lo, d, ia)
    ensures forall i :: 0 <= i < |ends| ==> ends[i] < ramp.Length
    ensures if Off(ia, pc, ramp.Length) > neg then timeline.Parts() == old(timeline.Parts()) && !timeline.killed
            else WasLookedThrough(old(timeline.Parts()), timeline.Parts(), timeline.killed, ramp[..], pe, neg, ia, pc, lo, d,
                                  ends, early, dashPts, fit, timeline.limits)
  {
    ghost var ramps := ramp[..];
    var newest := PointOf(timeline.cw[timeline.count - 1]);
    TwoSigns(ramps, pe, neg, newest, pc, lo, d);
    hide CanLookOn, EndsUpRun, CanWalk, WasLookedThrough, Off, Indexes;
    ends, early := [], false;
    ghost var j, k;
    ia, j, k := UpRunEnd(ramp, newest);
    RecentEnd(ramps, pe, neg, newest, pc, lo, d, j, k, ia);
    if Off(ia, pc, ramp.Length) > neg {
      return;
    }
    ends, early := LookThrough(timeline, ramp, pe, neg, ia, pc, lo, d, dashPts, fit);
    assert ramp[..] == ramps;
  }

  // ---------------------------------------------------------- older dashes

  /** a is the last point of the key-up run behind the first key-down run of d. */
  ghost predicate IsOldStart(d: seq<bool>, a: nat) {
    exists b, u :: IsSkip(d, 0, false, b) && b < u && IsFirstUpRun(d, b, u, a)
  }

  /** The older end of the range of get_old_dashes. */
  method OldStart(ramp: array<int>, px: nat) returns (p: nat, ghost i: nat, ghost j: nat, ghost k: nat)
    requires px < ramp.Length
    requires exists q :: 0 <= q < ramp.Length && ramp[q] <= 0
    requires exists q :: 0 <= q < ramp.Length && ramp[q] >= 0
    ensures SkipsTo(ramp[..], px, false, i) && p < ramp.Length
    ensures EndsUpRun(ramp[..], At(px, i, ramp.Length), j, k, p)
  {
    assert exists q :: 0 <= q < ramp.Length && !GoesOn(ramp[q], false);
    hide GoesOn, SkipsTo, EndsUpRun;
    p, i := SkipRun(ramp, px, false);
    p, j, k := UpRunEnd(ramp, p);
  }

  lemma OldStartInside(ramps: seq<int>, px: nat, d: seq<bool>, w: nat, v: nat, i: nat, j: nat, k: nat, p: nat)
    requires Indexes(ramps, px, d) && w < v < |d| && d[w] && GoesDown(d, v)
    requires SkipsTo(ramps, px, false, i) && EndsUpRun(ramps, At(px, i, |ramps|), j, k, p)
    ensures p < |ramps| && Off(px, p, |ramps|) < v && IsOldStart(d, Off(px, p, |ramps|))
  {
    var n := |ramps|;
    Place(px, px, n);
    SkipInside(ramps, px, d, 0, false, i, w);
    UpRunEndInside(ramps, px, d, i, v, j, k, p);
    PlaceAt(px, i + j + k - 1, n);
  }

  ghost predicate AllAre(d: seq<bool>, lo: int, hi: int, down: bool)
    requires 0 <= lo && hi <= |d|
  {
    forall x :: lo <= x < hi ==> d[x] == down
  }

  /** f is the last point of the key-up run before the key-down run that holds b, or that
      comes just before the key-up run that holds b. */
  ghost predicate IsUpBefore(d: seq<bool>, f: nat, b: nat) {
    && f < b < |d| && !d[f]
    && exists g :: DownThenUp(d, f, g, b)
  }

  ghost predicate DownThenUp(d: seq<bool>, f: nat, g: int, b: nat) {
    f < g <= b < |d| && AllAre(d, f + 1, g + 1, true) && AllAre(d, g + 1, b + 1, false)
  }

  lemma OneRunBack(ramps: seq<int>, lo: nat, d: seq<bool>, i: nat, x: nat)
    requires Indexes(ramps, lo, d) && x < i < |d| && d[x] != d[i]
    ensures var n := |ramps|;
      var len := Length(ramps[At(lo, i, n)]);
      && 0 < len <= i && len < n && x <= i - len && Back(At(lo, i, n), len, n) == At(lo, i - len, n)
      && d[i - len] != d[i] && AllAre(d, i - len + 1, i + 1, d[i])
  {
    var r := Unroll(ramps, lo, |d|);
    SignIsDecision(r, d, i);
    JumpBack(r, d, i);
    assert Length(r[i]) <= i - x;
    GoBack(lo, i, Length(r[i]), |ramps|);
  }

  /** The newer end of that range: back from the oldest dash, at distance b, by one run or two. */
  method OldEnd(ramp: array<int>, lo: nat, oldest: nat, ghost d: seq<bool>, ghost b: nat, ghost w: nat)
    returns (ib: nat)
    requires Indexes(ramp[..], lo, d) && w <= b < |d| && GoesDown(d, w)
    requires oldest == At(lo, b, ramp.Length)
    ensures ib < ramp.Length && IsUpBefore(d, Off(lo, ib, ramp.Length), b)
  {
    ghost var n, ramps := ramp.Length, ramp[..];
    OneRunBack(ramps, lo, d, b, if d[b] then w - 1 else w);
    hide Indexes, Back;
    ib := Back(oldest, Length(ramp[oldest]), ramp.Length);
    ghost var f: nat := b - Length(ramp[oldest]);
    SignAt(ramps, lo, d, f);
    ghost var g := f;
    if ramp[ib] > 0 {
      OneRunBack(ramps, lo, d, f, w - 1);
      ib := Back(ib, ramp[ib], ramp.Length);
      f := f - Length(ramps[At(lo, g, n)]);
      assert DownThenUp(d, f, g, b);
    } else {
      assert DownThenUp(d, f, b, b);
    }
    assert Off(lo, ib, n) == f;
  }

  /** What get_old_dashes needs: from baseb_px through the oldest dash the ramps index the
      decisions d, and baseb_pe is not more than neg points before that.  A key-down run begins
      before that dash; and some key-down run comes after another, not so far behind the newest
      dash that it would count as before it. */
  ghost predicate CanLookBack(ramps: seq<int>, pe: nat, neg: nat, oldest: nat, newest: nat, px: nat, d: seq<bool>) {
    var n := |ramps|;
    && pe < n && neg < n && oldest < n && newest < n && Indexes(ramps, px, d)
    && var q, b := Off(px, pe, n), Off(px, oldest, n);
       && b < |d| && b <= Off(px, newest, n) && b <= q + neg
       && HasRunBefore(d, b) && HasTwoRuns(d, Off(px, newest, n) + (n - neg))
  }

  ghost predicate HasRunBefore(d: seq<bool>, b: nat) {
    exists w: nat :: w <= b && GoesDown(d, w)
  }

  ghost predicate HasTwoRuns(d: seq<bool>, limit: nat) {
    exists w: nat, v: nat :: w < v < limit && v < |d| && d[w] && GoesDown(d, v)
  }

  /** The ends of the range, and the test of the distance from its start to the newest dash. */
  ghost predicate IsOldRange(ramps: seq<int>, pe: nat, neg: nat, oldest: nat, newest: nat, px: nat, d: seq<bool>,
                             ia: nat, ib: nat) {
    var n := |ramps|;
    && px < n && newest < n && oldest < n && ia < n && ib < n
    && var a, f := Off(px, ia, n), Off(px, ib, n);
       && IsOldStart(d, a) && IsUpBefore(d, f, Off(px, oldest, n)) && f < |d|
       && if Off(ib, newest, n) + Off(ia, ib, n) > neg then f < a || Off(px, newest, n) - a > neg
          else a <= f && CanWalk(ramps, pe, neg, ia, ib, px, d[..f + 1])
  }

  lemma IndexStart(ramps: seq<int>, lo: nat, d: seq<bool>, count: nat)
    requires Indexes(ramps, lo, d) && count <= |d|
    ensures Indexes(ramps, lo, d[..count])
  {
    var r, r' := Unroll(ramps, lo, |d|), Unroll(ramps, lo, count);
    assert forall i :: 0 <= i < count ==> r'[i] == r[i];
  }

  lemma DistancesAround(px: nat, ia: nat, ib: nat, newest: nat, n: nat)
    requires px < n && ia < n && ib < n && newest < n && Off(px, ib, n) <= Off(px, newest, n)
    ensures Off(ib, newest, n) + Off(ia, ib, n) ==
      Off(px, newest, n) - Off(px, ia, n) + (if Off(px, ia, n) <= Off(px, ib, n) then 0 else n)
  {
  }

  lemma OldRange(ramps: seq<int>, pe: nat, neg: nat, oldest: nat, newest: nat, px: nat, d: seq<bool>, ia: nat, ib: nat)
    requires CanLookBack(ramps, pe, neg, oldest, newest, px, d) && ia < |ramps| && ib < |ramps|
    requires var n := |ramps|;
      && IsOldStart(d, Off(px, ia, n)) && Off(px, ia, n) < Off(px, newest, n) + (n - neg)
      && IsUpBefore(d, Off(px, ib, n), Off(px, oldest, n))
    ensures IsOldRange(ramps, pe, neg, oldest, newest, px, d, ia, ib)
  {
    var n := |ramps|;
    var a, f := Off(px, ia, n), Off(px, ib, n);
    DistancesAround(px, ia, ib, newest, n);
    IndexStart(ramps, px, d, f + 1);
    SamePlace(px, ia, ib, n);
  }

  /** Both ends of the range; CanLookBack makes every loop on the way end. */
  method OldEnds(ramp: array<int>, pe: nat, neg: nat, oldest: nat, newest: nat, px: nat, ghost d: seq<bool>)
    returns (ia: nat, ib: nat)
    requires CanLookBack(ramp[..], pe, neg, oldest, newest, px, d)
    ensures IsOldRange(ramp[..], pe, neg, oldest, newest, px, d, ia, ib)
  {
    ghost var ramps, n := ramp[..], ramp.Length;
    ghost var b, limit := Off(px, oldest, n), Off(px, newest, n) + (n - neg);
    ghost var w: nat, v: nat :| w < v < limit && v < |d| && d[w] && GoesDown(d, v);
    SignAt(ramps, px, d, v);
    SignAt(ramps, px, d, v - 1);
    ghost var i, j, k;
    ia, i, j, k := OldStart(ramp, px);
    OldStartInside(ramps, px, d, w, v, i, j, k, ia);
    ghost var w': nat :| w' <= b && GoesDown(d, w');
    Place(px, oldest, n);
    ib := OldEnd(ramp, px, oldest, d, b, w');
    OldRange(ramps, pe, neg, oldest, newest, px, d, ia, ib);
  }

  lemma RangeToWalk(ramps: seq<int>, pe: nat, neg: nat, oldest: nat, newest: nat, px: nat, d: seq<bool>, ia: nat, ib: nat)
    requires IsOldRange(ramps, pe, neg, oldest, newest, px, d, ia, ib)
    ensures px < |ramps| && newest < |ramps| && ia < |ramps| && ib < |ramps| && Off(px, ib, |ramps|) < |d|
    ensures Off(ib, newest, |ramps|) + Off(ia, ib, |ramps|) <= neg ==>
      CanWalk(ramps, pe, neg, ia, ib, px, d[..Off(px, ib, |ramps|) + 1])
  {
  }

  /** get_old_dashes: between the first key-down run and the oldest dash. */
  method GetOldDashes(timeline: Timeline, ramp: array<int>, pe: nat, neg: nat, px: nat, ghost d: seq<bool>,
                      dashPts: nat, fit: nat -> DashFit)
    returns (ia: nat, ib: nat, ghost ends: seq<nat>, ghost early: bool)
    requires timeline.Valid() && !timeline.killed && 0 < timeline.count
    requires var oldest, newest := PointOf(timeline.cw[0]), PointOf(timeline.cw[timeline.count - 1]);
      oldest >= 0 && newest >= 0 && CanLookBack(ramp[..], pe, neg, oldest, newest, px, d)
    modifies timeline`count, timeline`killed, timeline.cw
    ensures timeline.Valid()
    ensures var oldest, newest := old(PointOf(timeline.cw[0])), old(PointOf(timeline.cw[timeline.count - 1]));
      && oldest >= 0 && newest >= 0 && newest < ramp.Length
      && IsOldRange(ramp[..], pe, neg, oldest, newest, px, d, ia, ib)
    ensures forall i :: 0 <= i < |ends| ==> ends[i] < ramp.Length
    ensures var newest, n := old(PointOf(timeline.cw[timeline.count - 1])), ramp.Length;
      if Off(ib, newest, n) + Off(ia, ib, n) > neg then timeline.Parts() == old(timeline.Parts()) && !timeline.killed
      else WasLookedThrough(old(timeline.Parts()), timeline.Parts(), timeline.killed, ramp[..], pe, neg, ia, ib, px,
                            d[..Off(px, ib, n) + 1], ends, early, dashPts, fit, timeline.limits)
  {
    ghost var ramps := ramp[..];
    var oldest, newest := PointOf(timeline.cw[0]), PointOf(timeline.cw[timeline.count - 1]);
    ends, early := [], false;
    ia, ib := OldEnds(ramp, pe, neg, oldest, newest, px, d);
    RangeToWalk(ramps, pe, neg, oldest, newest, px, d, ia, ib);
    hide *;
    if Off(ib, newest, ramp.Length) + Off(ia, ib, ramp.Length) > neg {
      return;
    }
    ends, early := LookThrough(timeline, ramp, pe, neg, ia, ib, px, d[..Off(px, ib, ramp.Length) + 1], dashPts, fit);
    assert ramp[..] == ramps;
  }
}
