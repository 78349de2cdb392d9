/** The key-up/key-down ramps of the baseband ring: filling them (collect_ramp in
    coherent.c, set_baseb_pc in cwdetect.c) and walking back over them (collect_ramp,
    find_good_dashes in cwspeed.c). */
module KeyingRamps {
  import opened CArithmetic
  import opened Rings
  import opened Runs

  lemma Place(pe: nat, p: nat, n: nat)
    requires pe < n && p < n
    ensures At(pe, Off(pe, p, n), n) == p && At(pe, 0, n) == pe
  {
  }

  lemma SamePlace(pe: nat, p: nat, q: nat, n: nat)
    requires pe < n && p < n && q < n
    ensures Off(pe, p, n) == Off(pe, q, n) ==> p == q
    ensures Off(pe, p, n) == 0 <==> p == pe
  {
  }

  lemma PlaceAt(pe: nat, c: nat, n: nat)
    requires pe < n && c < n
    ensures Off(pe, At(pe, c, n), n) == c
  {
  }

  lemma UnrolledAt(s: seq<int>, lo: nat, count: nat, i: nat)
    requires lo < |s| && i < count <= |s|
    ensures Unroll(s, lo, count)[i] == s[At(lo, i, |s|)]
  {
  }

  lemma NewestPlace(pe: nat, pc: nat, pb: nat, n: nat)
    requires pe < n && pc < n && pb < n && 1 <= Off(pe, pc, n) + Off(pc, pb, n) < n
    ensures Off(pe, Prev(pb, n), n) == Off(pe, pc, n) + Off(pc, pb, n) - 1
  {
  }

  /** Stepping back len points from distance c: either to distance c-len, or beyond pe. */
  lemma GoBack(pe: nat, c: nat, len: nat, n: nat)
    requires pe < n && c < n && len < n
    ensures var p := Back(At(pe, c, n), len, n);
      if len <= c then p == At(pe, c - len, n) && Off(pe, p, n) == c - len else Off(pe, p, n) == n + c - len
  {
  }

  /** The same for a step of any length, taken around the ring. */
  lemma GoBackAround(pe: nat, p: nat, len: int, n: nat)
    requires pe < n && p < n
    ensures Off(pe, (p - len) % n, n) == (Off(pe, p, n) - len) % n
  {
    var x := (p - len) % n;
    var q := (p - len) / n;
    assert p - len == q * n + x;
    var e, e' := if pe <= x then 0 else 1, if pe <= p then 0 else 1;
    assert Off(pe, p, n) - len == (q + e' - e) * n + Off(pe, x, n) by {
      Distribute(q, e', e, n);
    }
    Remainder(Off(pe, p, n) - len, q + e' - e, n, Off(pe, x, n));
  }

  lemma Distribute(q: int, e': int, e: int, n: int)
    ensures (q + e' - e) * n == q * n + e' * n - e * n
  {
  }

  /** Where a key-up ramp leads back to, and a key-down ramp. */
  function OverUp(ramps: seq<int>, p: nat): (q: nat)
    requires p < |ramps|
    ensures q < |ramps|
  {
    (p + ramps[p]) % |ramps|
  }

  function OverDown(ramps: seq<int>, p: nat): (q: nat)
    requires p < |ramps|
    ensures q < |ramps|
  {
    (p - ramps[p]) % |ramps|
  }

  /** Back by k points from distance c. */
  lemma BackTo(lo: nat, c: nat, k: nat, n: nat)
    requires lo < n && k <= c < n
    ensures (At(lo, c, n) - k) % n == At(lo, c - k, n)
  {
    var x, y := At(lo, c, n) - k, At(lo, c - k, n);
    Remainder(x, if x == y then 0 else -1, n, y);
  }

  /** Back by more points than from distance c to distance q: as from q by the rest. */
  lemma BackPast(lo: nat, c: nat, q: nat, k: int, n: nat)
    requires lo < n && q <= c < n
    ensures (At(lo, c, n) - (c - q) - k) % n == (At(lo, q, n) - k) % n
  {
    var x, y := At(lo, c, n) - (c - q) - k, At(lo, q, n) - k;
    Distribute(y / n, 0, 1, n);
    Remainder(x, if x == y then y / n else y / n + 0 - 1, n, y % n);
  }

  method BackOverUp(ramp: array<int>, p: nat) returns (q: nat)
    requires p < ramp.Length
    ensures q == OverUp(ramp[..], p)
  {
    q := (p + ramp[p]) % ramp.Length;
  }

  method BackOverDown(ramp: array<int>, p: nat) returns (q: nat)
    requires p < ramp.Length
    ensures q == OverDown(ramp[..], p)
  {
    q := (p - ramp[p]) % ramp.Length;
  }

  /** The distance of one point of a stretch from another. */
  lemma OffBetween(lo: nat, q: nat, e: nat, n: nat)
    requires lo < n && q < n && e < n
    ensures Off(At(lo, q, n), At(lo, e, n), n) == if q <= e then e - q else n - (q - e)
  {
  }

  // -------------------------------------------------------------- filling

  /** The key-down decisions of the ring: power over threshold. */
  ghost function Decided(totPwr: seq<real>, threshold: seq<real>): (d: seq<bool>)
    requires |totPwr| == |threshold|
    ensures |d| == |totPwr|
  {
    seq(|totPwr|, q requires 0 <= q < |totPwr| => totPwr[q] > threshold[q])
  }

  /** `count` points from pc on hold the run length that extends their predecessor's. */
  ghost predicate FilledFrom(was: seq<int>, now: seq<int>, down: seq<bool>, pc: nat, count: nat) {
    && |was| == |now| == |down| && pc < |was| && count < |was|
    && (forall q :: 0 <= q < |was| && -0x8000 <= was[q] < 0x8000 ==> -0x8000 <= now[q] < 0x8000)
    && forall q :: 0 <= q < |was| ==>
         now[q] == if Off(pc, q, |was|) < count then Extended16(now[Prev(q, |was|)], down[q]) else was[q]
  }

  lemma FillStep(was: seq<int>, now: seq<int>, down: seq<bool>, pc: nat, count: nat)
    requires FilledFrom(was, now, down, pc, count) && count + 1 < |was|
    ensures var ia := At(pc, count, |was|);
      FilledFrom(was, now[ia := Extended16(now[Prev(ia, |was|)], down[ia])], down, pc, count + 1)
  {
    hide Extended;
    var n := |was|;
    var ia := At(pc, count, n);
    var now' := now[ia := Extended16(now[Prev(ia, n)], down[ia])];
    forall q | 0 <= q < n
      ensures now'[q] == if Off(pc, q, n) < count + 1 then Extended16(now'[Prev(q, n)], down[q]) else was[q]
    {
      assert Off(pc, q, n) == count <==> q == ia;
      assert Off(pc, q, n) < count ==> Prev(q, n) != ia;
    }
  }

  /** The ramps of the `count` points from lo on index the runs of their decisions. */
  ghost predicate Indexed(ramps: seq<int>, down: seq<bool>, lo: nat, count: nat) {
    && lo < |ramps| == |down| && count <= |ramps|
    && IsRunIndex(Unroll(ramps, lo, count), Unroll(down, lo, count))
  }

  lemma StoredAsIs(x: int)
    requires -0x8000 <= x < 0x8000
    ensures Short(x) == x
  {
  }

  /** Where the i-th point from pe lies relative to pc. */
  lemma ScanPlace(pe: nat, pc: nat, i: nat, n: nat)
    requires pe < n && pc < n && i < n
    ensures var q, k := At(pe, i, n), Off(pe, pc, n);
      && (i < k ==> Off(pc, q, n) == n - k + i)
      && (i >= k ==> Off(pc, q, n) == i - k)
      && (i > 0 ==> Prev(q, n) == At(pe, i - 1, n))
  {
  }

  lemma OldPoint(was: seq<int>, now: seq<int>, down: seq<bool>, pe: nat, pc: nat, added: nat, i: nat)
    requires FilledFrom(was, now, down, pc, added) && pe < |was|
    requires i < Off(pe, pc, |was|) && Off(pe, pc, |was|) + added < |was|
    ensures At(pe, i, |was|) < |was| && now[At(pe, i, |was|)] == was[At(pe, i, |was|)]
  {
    ScanPlace(pe, pc, i, |was|);
  }

  lemma NewPoint(was: seq<int>, now: seq<int>, down: seq<bool>, pe: nat, pc: nat, added: nat, i: nat)
    requires FilledFrom(was, now, down, pc, added) && pe < |was|
    requires 1 <= i && Off(pe, pc, |was|) <= i < Off(pe, pc, |was|) + added < |was|
    ensures now[At(pe, i, |was|)] == Extended16(now[At(pe, i - 1, |was|)], down[At(pe, i, |was|)])
  {
    hide Extended16;
    ScanPlace(pe, pc, i, |was|);
  }

  lemma OldFill(was: seq<int>, now: seq<int>, down: seq<bool>, pe: nat, pc: nat, added: nat, i: nat)
    requires FilledFrom(was, now, down, pc, added) && pe < |was|
    requires forall q :: 0 <= q < |was| ==> -0x8000 <= was[q] < 0x8000
    requires var known := Off(pe, pc, |was|); 1 <= i < known && known + added < |was| && Indexed(was, down, pe, known)
    ensures now[At(pe, i, |was|)] == Extended16(now[At(pe, i - 1, |was|)], down[At(pe, i, |was|)])
  {
    var r0, d0 := Unroll(was, pe, Off(pe, pc, |was|)), Unroll(down, pe, Off(pe, pc, |was|));
    OldPoint(was, now, down, pe, pc, added, i - 1);
    OldPoint(was, now, down, pe, pc, added, i);
    hide FilledFrom, Extended, Short, Off, At;
    assert r0[i] == Extended(r0[i - 1], d0[i]);
    StoredAsIs(r0[i]);
  }

  /** The ramp of pe: recomputed from the point before when pc has not left it, else kept. */
  ghost function FirstRamp(was: seq<int>, down: seq<bool>, pe: nat, pc: nat): int
    requires pe < |was| == |down|
  {
    if pe == pc then Extended(was[Prev(pe, |was|)], down[pe]) else was[pe]
  }

  lemma FirstPoint(was: seq<int>, now: seq<int>, down: seq<bool>, pe: nat, pc: nat, added: nat)
    requires FilledFrom(was, now, down, pc, added) && pe < |was|
    requires forall q :: 0 <= q < |was| ==> -0x8000 <= was[q] < 0x8000
    requires var known := Off(pe, pc, |was|);
      1 <= known + added < |was| && Indexed(was, down, pe, known)
    ensures var r0 := FirstRamp(was, down, pe, pc);
      && At(pe, 0, |was|) == pe && now[pe] == Short(r0) && r0 != 0 && (r0 > 0 <==> down[pe])
      && -0x8000 - 1 <= r0 <= 0x8000
  {
    var n := |was|;
    assert At(pe, 0, n) == pe;
    if pe == pc {
      assert Off(pc, Prev(pe, n), n) == n - 1 && Off(pc, pe, n) == 0;
    } else {
      var r0, d0 := Unroll(was, pe, Off(pe, pc, n)), Unroll(down, pe, Off(pe, pc, n));
      OldPoint(was, now, down, pe, pc, added, 0);
      hide FilledFrom, Off;
      assert r0[0] == was[pe] && d0[0] == down[pe];
    }
  }

  /** Old and new points together, in linear order. */
  lemma UnrolledFill(was: seq<int>, now: seq<int>, down: seq<bool>, pe: nat, pc: nat, added: nat)
    requires FilledFrom(was, now, down, pc, added) && pe < |was|
    requires forall q :: 0 <= q < |was| ==> -0x8000 <= was[q] < 0x8000
    requires var known := Off(pe, pc, |was|);
      1 <= known + added < |was| && Indexed(was, down, pe, known)
    ensures var count := Off(pe, pc, |was|) + added;
      var r, d := Unroll(now, pe, count), Unroll(down, pe, count);
      IsFilled(r, d) && d[0] == down[pe] && r[0] == now[pe]
  {
    var n, count := |was|, Off(pe, pc, |was|) + added;
    var r, d := Unroll(now, pe, count), Unroll(down, pe, count);
    FirstPoint(was, now, down, pe, pc, added);
    hide FilledFrom, Extended16, Off, At, Indexed, FirstRamp;
    forall i | 1 <= i < count
      ensures r[i] == Extended16(r[i - 1], d[i])
    {
      if i < Off(pe, pc, n) {
        OldFill(was, now, down, pe, pc, added, i);
      } else {
        NewPoint(was, now, down, pe, pc, added, i);
      }
    }
  }

  lemma FilledStart(r: seq<int>, d: seq<bool>)
    ensures IsFilled(r, d) ==> |r| == |d|
  {
  }

  /** An index from a first ramp that may not fit a short. */
  lemma FilledIsIndexFrom(r0: int, r: seq<int>, d: seq<bool>)
    requires IsFilled(r, d) && |r| > 0 && r[0] == Short(r0)
    requires r0 != 0 && (r0 > 0 <==> d[0]) && -0x8000 - 1 <= r0 <= 0x8000
    ensures IsRunIndex(r, d) <==> RunsFit(r0, d)
    ensures RunsFit(r0, d) ==> r == TrueRuns(r0, d)
  {
    if -0x8000 <= r0 < 0x8000 {
      FilledIsIndexIffRunsFit(r, d);
      if RunsFit(r0, d) {
        IndexIsTrueRuns(r, d);
      }
    } else {
      assert TrueRun(r0, d, 0) == r0;
    }
  }

  /** Filling continues an index over the old points, if there are any, to one over old and
      new points, if and only if no run outgrows a short. */
  lemma FillExtendsIndex(was: seq<int>, now: seq<int>, down: seq<bool>, pe: nat, pc: nat, added: nat)
    requires FilledFrom(was, now, down, pc, added) && pe < |was|
    requires forall q :: 0 <= q < |was| ==> -0x8000 <= was[q] < 0x8000
    requires var known := Off(pe, pc, |was|);
      1 <= known + added < |was| && Indexed(was, down, pe, known)
    ensures var count, r0 := Off(pe, pc, |was|) + added, FirstRamp(was, down, pe, pc);
      && (Indexed(now, down, pe, count) <==> RunsFit(r0, Unroll(down, pe, count)))
      && (RunsFit(r0, Unroll(down, pe, count)) ==> Unroll(now, pe, count) == TrueRuns(r0, Unroll(down, pe, count)))
  {
    var count := Off(pe, pc, |was|) + added;
    UnrolledFill(was, now, down, pe, pc, added);
    FirstPoint(was, now, down, pe, pc, added);
    hide FilledFrom, RunsFit, TrueRuns, IsRunIndex, Off, Unroll, IsFilled, FirstRamp, Short;
    var r, d := Unroll(now, pe, count), Unroll(down, pe, count);
    FilledStart(r, d);
    FilledIsIndexFrom(FirstRamp(was, down, pe, pc), r, d);
  }

  lemma FillStarts(was: seq<int>, down: seq<bool>, pc: nat, pb: nat, n: nat)
    requires |was| == |down| == n && pc < n && pb < n
    ensures At(pc, 0, n) == pc && FilledFrom(was, was, down, pc, 0) && Off(pc, pb, n) < n
  {
  }

  /** The k-th point from pc is pb exactly when all points before pb are done. */
  lemma FillPlace(pc: nat, pb: nat, k: nat, n: nat)
    requires pc < n && pb < n && k <= Off(pc, pb, n)
    ensures At(pc, k, n) == pb <==> k == Off(pc, pb, n)
    ensures k < Off(pc, pb, n) ==>
      k + 1 < n && Next(At(pc, k, n), n) == At(pc, k + 1, n) && Prev(At(pc, k + 1, n), n) == At(pc, k, n)
  {
  }

  lemma FilledFits(was: seq<int>, now: seq<int>, down: seq<bool>, pc: nat, count: nat)
    requires FilledFrom(was, now, down, pc, count)
    ensures |now| == |was|
    ensures (forall q :: 0 <= q < |was| ==> -0x8000 <= was[q] < 0x8000) ==>
      forall q :: 0 <= q < |now| ==> -0x8000 <= now[q] < 0x8000
  {
  }

  // ------------------------------------------------------- stepping back

  /** After k steps without a stop the search has come to o. */
  ghost predicate Searching(u: seq<int>, neg: nat, i: nat, k: nat, o: nat, long: int) {
    && i < |u| && o == StepsBack(u, neg, i, k)
    && forall m: nat :: m < k ==> !IsLongUp(u, StepsBack(u, neg, i, m), long)
  }

  lemma SearchStarts(u: seq<int>, neg: nat, i: nat, long: int)
    requires i < |u| && SearchEnds(u, neg, i, long)
    ensures Searching(u, neg, i, 0, i, long)
    ensures exists k: nat :: StopsAfter(u, neg, i, k, long)
  {
    var k: nat :| IsLongUp(u, StepsBack(u, neg, i, k), long);
    FirstStop(u, neg, i, k, long);
  }

  lemma {:induction false} FirstStop(u: seq<int>, neg: nat, i: nat, k: nat, long: int)
    requires i < |u| && IsLongUp(u, StepsBack(u, neg, i, k), long)
    ensures exists m: nat :: StopsAfter(u, neg, i, m, long)
  {
    if m: nat :| m < k && IsLongUp(u, StepsBack(u, neg, i, m), long) {
      FirstStop(u, neg, i, m, long);
    } else {
      assert StopsAfter(u, neg, i, k, long);
    }
  }

  lemma SearchGoesOn(u: seq<int>, neg: nat, i: nat, k: nat, o: nat, long: int, last: nat)
    requires Searching(u, neg, i, k, o, long) && o < |u| && !IsLongUp(u, o, long)
    requires k <= last && StopsAfter(u, neg, i, last, long)
    ensures k < last && Searching(u, neg, i, k + 1, StepBack(u, neg, o), long)
  {
  }

  lemma SearchDone(u: seq<int>, neg: nat, i: nat, k: nat, o: nat, long: int)
    requires Searching(u, neg, i, k, o, long) && o < |u| && IsLongUp(u, o, long)
    ensures StopsAfter(u, neg, i, k, long) && o == StepsBack(u, neg, i, k)
  {
  }

  lemma RampAt(s: seq<int>, pe: nat, p: nat, long: int)
    requires pe < |s| && p < |s|
    ensures IsLongUp(Unroll(s, pe, |s|), Off(pe, p, |s|), long) <==> !(Length(s[p]) < long || s[p] > 0)
  {
    Place(pe, p, |s|);
  }

  lemma StepAround(s: seq<int>, u: seq<int>, pe: nat, p: nat, neg: nat)
    requires pe < |s| && p < |s| && u == Unroll(s, pe, |s|)
    ensures var p' := (p - Length(s[p])) % |s|;
      StepBack(u, neg, Off(pe, p, |s|)) == Off(pe, if Off(pe, p', |s|) > neg then pe else p', |s|)
  {
    Place(pe, p, |s|);
    GoBackAround(pe, p, Length(s[p]), |s|);
    SamePlace(pe, pe, pe, |s|);
  }

  /** One step of the loop; the ring test catches a point before baseb_pe. */
  method StepFrom(ramp: array<int>, pe: nat, p: nat, neg: nat) returns (p': nat)
    requires pe < ramp.Length && p < ramp.Length
    ensures p' < ramp.Length
    ensures StepBack(Unroll(ramp[..], pe, ramp.Length), neg, Off(pe, p, ramp.Length)) == Off(pe, p', ramp.Length)
  {
    StepAround(ramp[..], Unroll(ramp[..], pe, ramp.Length), pe, p, neg);
    hide Unroll, Off, StepBack, Length;
    p' := (p - Length(ramp[p])) % ramp.Length;
    if Off(pe, p', ramp.Length) > neg {
      p' := pe;
    }
  }

  /** The step-back loop of collect_ramp, over all ramps of the ring.  It is entered only
      where it ends (SearchEndsIff), and stops at the first long key-up ramp it meets. */
  method FindLongUp(ramp: array<int>, pe: nat, start: nat, neg: nat, long: int) returns (p: nat, ghost k: nat)
    requires pe < ramp.Length && start < ramp.Length
    requires SearchEnds(Unroll(ramp[..], pe, ramp.Length), neg, Off(pe, start, ramp.Length), long)
    ensures p < ramp.Length
    ensures var u, c := Unroll(ramp[..], pe, ramp.Length), Off(pe, start, ramp.Length);
      StopsAfter(u, neg, c, k, long) && Off(pe, p, ramp.Length) == StepsBack(u, neg, c, k)
  {
    ghost var u, c := Unroll(ramp[..], pe, ramp.Length), Off(pe, start, ramp.Length);
    p, k := start, 0;
    SearchStarts(u, neg, c, long);
    hide *;
    ghost var last: nat :| StopsAfter(u, neg, c, last, long);
    RampAt(ramp[..], pe, p, long);
    while Length(ramp[p]) < long || ramp[p] > 0
      invariant p < ramp.Length && k <= last && Searching(u, neg, c, k, Off(pe, p, ramp.Length), long)
      invariant IsLongUp(u, Off(pe, p, ramp.Length), long) <==> !(Length(ramp[p]) < long || ramp[p] > 0)
      decreases last - k
    {
      SearchGoesOn(u, neg, c, k, Off(pe, p, ramp.Length), long, last);
      p := StepFrom(ramp, pe, p, neg);
      k := k + 1;
      RampAt(ramp[..], pe, p, long);
    }
    SearchDone(u, neg, c, k, Off(pe, p, ramp.Length), long);
  }

  lemma SearchInPart(u: seq<int>, part: seq<int>, d: seq<bool>, c: nat, neg: nat, long: int)
    requires |d| == c + 1 <= neg + 1 <= |u| && part == u[..|d|] && IsRunIndex(part, d) && HasLongUp(part, c, long)
    ensures SearchEnds(u, neg, c, long)
    ensures forall k: nat :: StopsAfter(u, neg, c, k, long) ==> IsLastLongUp(part, StepsBack(u, neg, c, k), long)
  {
    var q: nat :| q <= c && IsLongUp(part, q, long);
    assert IsLongUp(u, q, long);
    assert IsIndexed(u, d, neg);
    hide IsLongUp, StepsBack, IsIndexed, IsRunIndex, SearchEnds, StopsAfter;
    SearchEndsIff(u, d, neg, long);
    forall k: nat | StopsAfter(u, neg, c, k, long)
      ensures IsLastLongUp(part, StepsBack(u, neg, c, k), long)
    {
      StopsAtLast(u, d, neg, k, long);
    }
  }

  /** With a long key-up ramp in the index, the search ends at the last point of the last one. */
  lemma LongUpInIndex(ramps: seq<int>, down: seq<bool>, pe: nat, c: nat, neg: nat, long: int)
    requires c <= neg < |ramps| && Indexed(ramps, down, pe, c + 1) && HasLongUp(Unroll(ramps, pe, c + 1), c, long)
    ensures var u, part := Unroll(ramps, pe, |ramps|), Unroll(ramps, pe, c + 1);
      && SearchEnds(u, neg, c, long)
      && forall k: nat :: StopsAfter(u, neg, c, k, long) ==> IsLastLongUp(part, StepsBack(u, neg, c, k), long)
  {
    var u, part, d := Unroll(ramps, pe, |ramps|), Unroll(ramps, pe, c + 1), Unroll(down, pe, c + 1);
    assert u[..c + 1] == part;
    hide Unroll, At, Off, StepsBack, IsLastLongUp, SearchEnds, StopsAfter, IsRunIndex, HasLongUp;
    SearchInPart(u, part, d, c, neg, long);
  }

  /** The loop where there is a long key-up ramp between pe and start. */
  method LastLongUp(ramp: array<int>, pe: nat, start: nat, neg: nat, long: int, ghost down: seq<bool>) returns (p: nat)
    requires pe < ramp.Length && start < ramp.Length
    requires var c := Off(pe, start, ramp.Length);
      && c <= neg < ramp.Length
      && Indexed(ramp[..], down, pe, c + 1)
      && HasLongUp(Unroll(ramp[..], pe, c + 1), c, long)
    ensures p < ramp.Length
    ensures IsLastLongUp(Unroll(ramp[..], pe, Off(pe, start, ramp.Length) + 1), Off(pe, p, ramp.Length), long)
  {
    LongUpInIndex(ramp[..], down, pe, Off(pe, start, ramp.Length), neg, long);
    hide *;
    ghost var k;
    p, k := FindLongUp(ramp, pe, start, neg, long);
  }

  // ------------------------------------------------------------- walking back

  /** The cells of the ends of all key-down runs between distance a and distance c from lo. */
  ghost predicate AreDownEnds(cells: seq<nat>, d: seq<bool>, lo: nat, a: int, c: nat, n: nat) {
    && lo < n && -1 <= a <= c < |d| <= n
    && |cells| == |DownEnds(d, a, c)|
    && forall i :: 0 <= i < |cells| ==> cells[i] == At(lo, DownEnds(d, a, c)[i], n)
  }

  /** Some key-down run between a and c ends before baseb_pe, which is at distance q, but
      less than `unused` points before it: there the walk leaves. */
  ghost predicate LeavesAtPe(d: seq<bool>, a: nat, q: nat, c: nat, unused: int)
    requires c < |d|
  {
    exists e: nat :: IsDownEnd(d, a, c, e) && e < q && q - e < unused
  }

  /** The walk is over before it starts, or a key-up run ends at a. */
  ghost predicate IsKnownEnd(d: seq<bool>, a: nat, c: nat)
    requires a <= c < |d|
  {
    a == c || (!d[a] && d[a + 1])
  }

  /** Inside a run the walk passes baseb_pe.  It leaves with the next step over a key-up ramp,
      if the ring test takes that for a point before baseb_pe. */
  ghost predicate LeavesBehind(ramps: seq<int>, pe: nat, neg: nat)
    requires pe < |ramps|
  {
    Off(pe, OverUp(ramps, if ramps[pe] > 0 then OverDown(ramps, pe) else pe), |ramps|) > neg
  }

  /** How far the two runs reach back. */
  function ReachBehind(ramps: seq<int>, pe: nat): int
    requires pe < |ramps|
  {
    if ramps[pe] > 0 then ramps[pe] - ramps[OverDown(ramps, pe)] else -ramps[pe]
  }

  /** It does if and only if the runs end inside the unused part of the ring before baseb_pe. */
  lemma LeavesBehindIff(ramps: seq<int>, pe: nat, neg: nat)
    requires pe < |ramps| && neg < |ramps|
    ensures LeavesBehind(ramps, pe, neg) <==> 0 < ReachBehind(ramps, pe) % |ramps| < |ramps| - neg
  {
    var n, f, back := |ramps|, OverDown(ramps, pe), ReachBehind(ramps, pe);
    SamePlace(pe, pe, pe, n);
    if ramps[pe] > 0 {
      GoBackAround(pe, pe, ramps[pe], n);
      GoBackAround(pe, f, -ramps[f], n);
      StepsAdd(ramps[pe], -ramps[f], n);
    } else {
      GoBackAround(pe, pe, back, n);
    }
    assert LeavesBehind(ramps, pe, neg) <==> (0 - back) % n > neg;
    Negated(back, n);
  }

  lemma StepsAdd(x: int, y: int, n: nat)
    requires n > 0
    ensures ((0 - x) % n - y) % n == (0 - (x + y)) % n
  {
    var m, z := (0 - x) / n, 0 - (x + y);
    var w := (0 - x) % n - y;
    Distribute(z / n, 0, m, n);
    Remainder(w, z / n - m, n, z % n);
  }

  lemma Negated(x: int, n: nat)
    requires n > 0
    ensures (0 - x) % n == if x % n == 0 then 0 else n - x % n
  {
    var m := x / n;
    Distribute(0, 0, m, n);
    if x % n == 0 {
      Remainder(0 - x, 0 - m, n, 0);
    } else {
      Distribute(0 - m, 0, 1, n);
      Remainder(0 - x, 0 - m - 1, n, n - x % n);
    }
  }

  /** The walk visits the ends of key-down runs after this point. */
  ghost function WalkLow(d: seq<bool>, a: nat, q: nat, c: nat, unused: int): (low: int)
    requires a <= c < |d|
    ensures -1 <= low <= c
  {
    if LeavesAtPe(d, a, q, c, unused) then (if q - 1 < c then q - 1 else c)
    else if IsKnownEnd(d, a, c) then a
    else a - 1
  }

  /** The result of a walk from distance c back to distance a: the ends it visits, and whether it
      leaves early, at an end before baseb_pe or because it passes baseb_pe inside a run. */
  ghost predicate HasWalked(ends: seq<nat>, early: bool, lo: nat, d: seq<bool>, q: nat, a: nat, c: nat, unused: int, n: nat) {
    && a <= c < |d|
    && AreDownEnds(ends, d, lo, WalkLow(d, a, q, c, unused), c, n)
    && (early <==> LeavesAtPe(d, a, q, c, unused) || !IsKnownEnd(d, a, c))
  }

  /** The walk's data: r and d unroll the ring from lo, baseb_pe is at distance q. */
  ghost predicate Walkable(ramps: seq<int>, lo: nat, pe: nat, neg: nat, r: seq<int>, d: seq<bool>, q: nat) {
    && lo < |ramps| && 1 <= |r| <= |ramps| && neg < |ramps|
    && q < |ramps| && |r| - 1 <= q + neg && pe == At(lo, q, |ramps|)
    && r == Unroll(ramps, lo, |r|) && IsRunIndex(r, d)
  }

  ghost predicate IsLatestEnd(d: seq<bool>, a: int, c: nat, e: nat)
    requires -1 <= a <= e <= c < |d|
  {
    DownEnds(d, a, c) == [e] + DownEnds(d, a, e)
  }

  ghost predicate SameEnds(d: seq<bool>, a: int, e: nat, f: nat)
    requires -1 <= a <= f <= e < |d|
  {
    DownEnds(d, a, e) == DownEnds(d, a, f)
  }

  ghost predicate NoEnds(d: seq<bool>, a: int, c: nat)
    requires -1 <= a <= c < |d|
  {
    DownEnds(d, a, c) == []
  }

  /** From a key-up point at distance c over its run, if that begins after a. */
  lemma StepOverUp(ramps: seq<int>, pe: nat, neg: nat, lo: nat, q: nat, r: seq<int>, d: seq<bool>, a: int, c: nat) returns (e: nat)
    requires Walkable(ramps, lo, pe, neg, r, d, q) && -1 <= a < c < |r| && !d[c]
    requires a < c + r[c]
    ensures e == c + r[c] && a < e < c && d[e] && IsLatestEnd(d, a, c, e)
    ensures pe < |ramps| && OverUp(ramps, At(lo, c, |ramps|)) == At(lo, e, |ramps|)
    ensures Off(pe, OverUp(ramps, At(lo, c, |ramps|)), |ramps|) > neg <==> e < q && q - e < |ramps| - neg
  {
    JumpToDown(r, d, a, c);
    UnrolledAt(ramps, lo, |r|, c);
    e := c + r[c];
    BackTo(lo, c, -r[c], |ramps|);
    OffBetween(lo, q, e, |ramps|);
  }

  /** From the end of a key-down run at distance e over that run, if that begins after a. */
  lemma StepOverDown(ramps: seq<int>, pe: nat, neg: nat, lo: nat, q: nat, r: seq<int>, d: seq<bool>, a: int, e: nat) returns (f: nat)
    requires Walkable(ramps, lo, pe, neg, r, d, q) && -1 <= a < e < |r| && d[e]
    requires a <= e - r[e] && 0 <= e - r[e]
    ensures f == e - r[e] && a <= f < e && !d[f] && d[f + 1] && SameEnds(d, a, e, f)
    ensures OverDown(ramps, At(lo, e, |ramps|)) == At(lo, f, |ramps|)
  {
    JumpToUp(r, d, a, e);
    UnrolledAt(ramps, lo, |r|, e);
    f := e - r[e];
    BackTo(lo, e, r[e], |ramps|);
  }

  /** A run that reaches back to distance q ends in a ramp that leads where the one at q leads. */
  lemma StepOverPe(ramps: seq<int>, pe: nat, neg: nat, lo: nat, q: nat, r: seq<int>, d: seq<bool>, c: nat)
    requires Walkable(ramps, lo, pe, neg, r, d, q) && q <= c < |r| && c - Length(r[c]) < q
    ensures pe < |ramps| && d[q] == d[c]
    ensures if d[c] then ramps[pe] > 0 && OverDown(ramps, At(lo, c, |ramps|)) == OverDown(ramps, pe)
            else ramps[pe] < 0 && OverUp(ramps, At(lo, c, |ramps|)) == OverUp(ramps, pe)
  {
    JumpBack(r, d, c);
    SignIsDecision(r, d, c);
    SignIsDecision(r, d, q);
    UnrolledAt(ramps, lo, |r|, c);
    UnrolledAt(ramps, lo, |r|, q);
    BackPast(lo, c, q, Length(r[q]), |ramps|);
  }

  /** The walk stands on the key-up point at distance c; `seen` are the distances of `ends`,
      none of which was a place to leave. */
  ghost predicate WalkAt(d: seq<bool>, lo: nat, a: int, q: nat, unused: int, c0: nat, n: nat, ib: nat, c: nat,
                         ends: seq<nat>, seen: seq<nat>) {
    && lo < n && -1 <= a <= c <= c0 < |d| <= n && ib == At(lo, c, n) && !d[c]
    && |ends| == |seen|
    && (forall i :: 0 <= i < |ends| ==> c < seen[i] <= c0 && ends[i] == At(lo, seen[i], n))
    && (forall i :: 0 <= i < |seen| ==> q <= seen[i] || q - seen[i] >= unused)
    && seen + DownEnds(d, a, c) == DownEnds(d, a, c0)
  }

  lemma Visited(d: seq<bool>, lo: nat, a: int, q: nat, unused: int, c0: nat, n: nat, ib: nat, c: nat,
                ends: seq<nat>, seen: seq<nat>, e: nat, f: nat)
    requires WalkAt(d, lo, a, q, unused, c0, n, ib, c, ends, seen)
    requires a <= f < e < c && !d[f] && (q <= e || q - e >= unused)
    requires IsLatestEnd(d, a, c, e) && SameEnds(d, a, e, f)
    ensures WalkAt(d, lo, a, q, unused, c0, n, At(lo, f, n), f, ends + [At(lo, e, n)], seen + [e])
  {
    hide DownEnds, At;
    assert (seen + [e]) + DownEnds(d, a, f) == seen + ([e] + DownEnds(d, a, f));
  }

  lemma LastVisited(d: seq<bool>, lo: nat, a: int, q: nat, unused: int, c0: nat, n: nat, ib: nat, c: nat,
                    ends: seq<nat>, seen: seq<nat>, e: nat)
    requires WalkAt(d, lo, a, q, unused, c0, n, ib, c, ends, seen)
    requires a < e < c && IsLatestEnd(d, a, c, e) && NoEnds(d, a, e)
    ensures AreDownEnds(ends + [At(lo, e, n)], d, lo, a, c0, n)
  {
    hide DownEnds, At;
    assert seen + ([e] + []) == seen + [e];
  }

  lemma AllVisited(d: seq<bool>, lo: nat, a: int, q: nat, unused: int, c0: nat, n: nat, ib: nat, c: nat,
                   ends: seq<nat>, seen: seq<nat>)
    requires WalkAt(d, lo, a, q, unused, c0, n, ib, c, ends, seen) && NoEnds(d, a, c)
    ensures AreDownEnds(ends, d, lo, a, c0, n) && seen == DownEnds(d, a, c0)
  {
    hide DownEnds, At;
    assert seen + [] == seen;
  }

  /** All ends are visited, and none was a place to leave. */
  lemma Done(d: seq<bool>, lo: nat, a: nat, q: nat, unused: int, c0: nat, n: nat, ib: nat, ends: seq<nat>, seen: seq<nat>)
    requires WalkAt(d, lo, a, q, unused, c0, n, ib, a, ends, seen) && IsKnownEnd(d, a, c0)
    ensures HasWalked(ends, false, lo, d, q, a, c0, unused, n)
  {
    assert NoEnds(d, a, a);
    AllVisited(d, lo, a, q, unused, c0, n, ib, a, ends, seen);
    DownEndsAreAll(d, a, c0);
    hide DownEnds, At, AreDownEnds;
    forall e: nat | IsDownEnd(d, a, c0, e)
      ensures !(e < q && q - e < unused)
    {
      assert e in DownEnds(d, a, c0);
    }
  }

  lemma CutNotLonger(s: seq<nat>, t: seq<nat>, x: seq<nat>, y: seq<nat>, q: nat)
    requires s + t == x + y
    requires (forall i :: 0 <= i < |s| ==> s[i] >= q) && (forall i :: 0 <= i < |t| ==> t[i] < q)
    requires (forall i :: 0 <= i < |x| ==> x[i] >= q) && (forall i :: 0 <= i < |y| ==> y[i] < q)
    ensures |s| <= |x|
  {
    var w := x + y;
    assert |x| < |w| ==> w[|x|] < q;
    assert forall i :: 0 <= i < |s| ==> w[i] >= q;
  }

  lemma SameCut(s: seq<nat>, t: seq<nat>, x: seq<nat>, y: seq<nat>, q: nat)
    requires s + t == x + y
    requires (forall i :: 0 <= i < |s| ==> s[i] >= q) && (forall i :: 0 <= i < |t| ==> t[i] < q)
    requires (forall i :: 0 <= i < |x| ==> x[i] >= q) && (forall i :: 0 <= i < |y| ==> y[i] < q)
    ensures s == x
  {
    CutNotLonger(s, t, x, y, q);
    CutNotLonger(x, y, s, t, q);
    assert s == (s + t)[..|s|] && x == (x + y)[..|x|];
  }

  lemma LeftHere(d: seq<bool>, a: nat, q: nat, unused: int, c0: nat, c: nat, seen: seq<nat>, e: nat)
    requires a < e < c <= c0 < |d| && IsLatestEnd(d, a, c, e) && e < q && q - e < unused
    requires seen + DownEnds(d, a, c) == DownEnds(d, a, c0)
    ensures LeavesAtPe(d, a, q, c0, unused)
  {
    DownEndsAreAll(d, a, c0);
    hide DownEnds;
    assert DownEnds(d, a, c0)[|seen|] == e;
    assert IsDownEnd(d, a, c0, e);
  }

  /** The ends below the latest one. */
  lemma BelowLatest(d: seq<bool>, a: nat, c: nat, e: nat, q: nat)
    requires a < e < c < |d| && IsLatestEnd(d, a, c, e) && e < q
    ensures var ends := DownEnds(d, a, c); forall i :: 0 <= i < |ends| ==> ends[i] < q
  {
    var ends, rest := DownEnds(d, a, c), DownEnds(d, a, e);
    hide DownEnds;
    assert forall i :: 0 <= i < |ends| ==> ends[i] == if i == 0 then e else rest[i - 1];
  }

  lemma SeenFrom(d: seq<bool>, a: nat, q: nat, c0: nat, c: nat, seen: seq<nat>, e: nat)
    requires a < e < c <= c0 < |d| && e < q
    requires seen + DownEnds(d, a, c) == DownEnds(d, a, c0) && IsLatestEnd(d, a, c, e)
    requires forall i :: 0 <= i < |seen| ==> q <= seen[i] <= c0
    ensures seen == DownEnds(d, if q - 1 < c0 then q - 1 else c0, c0)
  {
    if q > c0 {
      assert DownEnds(d, c0, c0) == [];
      BelowLatest(d, a, c, e, q);
      hide DownEnds;
      assert seen + DownEnds(d, a, c) == [] + DownEnds(d, a, c0);
      SameCut(seen, DownEnds(d, a, c), [], DownEnds(d, a, c0), q);
    } else {
      BelowLatest(d, a, c, e, q);
      EndsSplit(d, a, q - 1, c0);
      hide DownEnds;
      SameCut(seen, DownEnds(d, a, c), DownEnds(d, q - 1, c0), DownEnds(d, a, q), q);
    }
  }

  /** The walk leaves at the first end before baseb_pe; all ends from baseb_pe on are visited. */
  lemma Left(d: seq<bool>, lo: nat, a: nat, q: nat, unused: int, c0: nat, n: nat, ib: nat, c: nat,
             ends: seq<nat>, seen: seq<nat>, e: nat)
    requires WalkAt(d, lo, a, q, unused, c0, n, ib, c, ends, seen)
    requires a < e < c && IsLatestEnd(d, a, c, e) && e < q && q - e < unused
    ensures HasWalked(ends, true, lo, d, q, a, c0, unused, n)
  {
    LeftHere(d, a, q, unused, c0, c, seen, e);
    hide DownEnds, At, LeavesAtPe;
    assert forall i :: 0 <= i < |seen| ==> q <= seen[i] <= c0;
    SeenFrom(d, a, q, c0, c, seen, e);
  }

  /** What the walk from ic back to ia needs: they are the points at distances a <= c from lo,
      ramps index the runs d up to c, the key is up at ic, and that is not more than neg points
      behind baseb_pe.  The walk ends at the last point of a key-up run, or it passes baseb_pe
      inside a run, which may have any length. */
  ghost predicate CanWalk(ramps: seq<int>, pe: nat, neg: nat, ia: nat, ic: nat, lo: nat, d: seq<bool>) {
    var n := |ramps|;
    && pe < n && ia < n && ic < n && lo < n && neg < n
    && var c, q, a := Off(lo, ic, n), Off(lo, pe, n), Off(lo, ia, n);
       && a <= c <= q + neg
       && IsRunIndex(Unroll(ramps, lo, c + 1), d) && !d[c]
       && (IsKnownEnd(d, a, c) || (ia == pe && LeavesBehind(ramps, pe, neg)))
  }

  /** The walk's result: the ends of all key-down runs between ia and ic, newest first; or only
      those from baseb_pe on, where the walk leaves at one before it.  It also leaves when it
      passes baseb_pe inside a run. */
  ghost predicate IsWalk(ends: seq<nat>, early: bool, pe: nat, neg: nat, ia: nat, ic: nat, lo: nat, d: seq<bool>, n: nat) {
    && pe < n && ia < n && ic < n && lo < n && neg < n
    && HasWalked(ends, early, lo, d, Off(lo, pe, n), Off(lo, ia, n), Off(lo, ic, n), n - neg, n)
  }

  /** A walk on its way to the end of a key-up run, or to and past baseb_pe. */
  ghost predicate OnWalk(ramps: seq<int>, pe: nat, d: seq<bool>, lo: nat, a: nat, q: nat, unused: int, c0: nat,
                         ib: nat, c: nat, ends: seq<nat>, seen: seq<nat>) {
    var n := |ramps|;
    && a <= c0 < |d| && pe < n
    && if IsKnownEnd(d, a, c0) then WalkAt(d, lo, a, q, unused, c0, n, ib, c, ends, seen)
       else a == q && if c > q then WalkAt(d, lo, q - 1, q, unused, c0, n, ib, c, ends, seen)
                      else d[q] && ib == OverDown(ramps, pe) && AreDownEnds(ends, d, lo, q - 1, c0, n)
  }

  /** What holds all along the walk. */
  ghost predicate WalkGoal(ramps: seq<int>, pe: nat, neg: nat, lo: nat, q: nat, r: seq<int>, d: seq<bool>, a: nat, c0: nat) {
    && Walkable(ramps, lo, pe, neg, r, d, q) && |r| == c0 + 1 && a <= c0
    && pe < |ramps| && !d[c0]
    && (IsKnownEnd(d, a, c0) || (a == q && LeavesBehind(ramps, pe, neg)))
  }

  lemma WalkStarts(ramps: seq<int>, pe: nat, neg: nat, ia: nat, ic: nat, lo: nat, d: seq<bool>)
    requires CanWalk(ramps, pe, neg, ia, ic, lo, d)
    ensures var n := |ramps|;
      var c, q, a := Off(lo, ic, n), Off(lo, pe, n), Off(lo, ia, n);
      && WalkGoal(ramps, pe, neg, lo, q, Unroll(ramps, lo, c + 1), d, a, c)
      && OnWalk(ramps, pe, d, lo, a, q, n - neg, c, ic, c, [], []) && ia == At(lo, a, n)
  {
    var n := |ramps|;
    Place(lo, ic, n);
    Place(lo, pe, n);
    Place(lo, ia, n);
    var a, c := Off(lo, ia, n), Off(lo, ic, n);
    assert [] + DownEnds(d, a, c) == DownEnds(d, a, c);
    var low: int := a;
    assert [] + DownEnds(d, low - 1, c) == DownEnds(d, low - 1, c);
  }

  /** A run that ends at c and does not hold a begins after a. */
  lemma RunBeginsAfter(r: seq<int>, d: seq<bool>, a: nat, c: nat)
    requires IsRunIndex(r, d) && a <= c < |r| && d[a] != d[c]
    ensures a <= c - Length(r[c])
  {
    JumpBack(r, d, c);
  }

  /** One round of a walk to the end of a key-up run. */
  lemma RoundToEnd(ramps: seq<int>, pe: nat, neg: nat, lo: nat, q: nat, r: seq<int>, d: seq<bool>, a: nat, c0: nat,
                   ib: nat, c: nat, ends: seq<nat>, seen: seq<nat>) returns (f: nat, seen': seq<nat>)
    requires WalkGoal(ramps, pe, neg, lo, q, r, d, a, c0) && IsKnownEnd(d, a, c0) && ib < |ramps| && a < c
    requires WalkAt(d, lo, a, q, |ramps| - neg, c0, |ramps|, ib, c, ends, seen)
    ensures var n, end := |ramps|, OverUp(ramps, ib);
      if Off(pe, end, n) > neg then HasWalked(ends, true, lo, d, q, a, c0, n - neg, n)
      else f < c && WalkAt(d, lo, a, q, n - neg, c0, n, OverDown(ramps, end), f, ends + [end], seen')
  {
    var n := |ramps|;
    f, seen' := c, seen;
    RunBeginsAfter(r, d, a + 1, c);
    SignIsDecision(r, d, c);
    var e := StepOverUp(ramps, pe, neg, lo, q, r, d, a, c);
    RunBeginsAfter(r, d, a, e);
    SignIsDecision(r, d, e);
    hide IsRunIndex, Unroll, Off, At, OverUp, OverDown, DownEnds;
    if e < q && q - e < n - neg {
      Left(d, lo, a, q, n - neg, c0, n, ib, c, ends, seen, e);
    } else {
      f := StepOverDown(ramps, pe, neg, lo, q, r, d, a, e);
      Visited(d, lo, a, q, n - neg, c0, n, ib, c, ends, seen, e, f);
      seen' := seen + [e];
    }
  }

  lemma RunCoversAll(r: seq<int>, d: seq<bool>, q: nat, e: nat)
    requires IsRunIndex(r, d) && q <= e < |r| && d[e] && e - r[e] < q
    ensures NoEnds(d, q - 1, e)
  {
    JumpBack(r, d, e);
    SignIsDecision(r, d, e);
    NoEndsWithin(d, q - 1, q, e);
  }

  /** The key is up from baseb_pe to the point at distance c: the walk leaves there. */
  lemma UpToPe(ramps: seq<int>, pe: nat, neg: nat, lo: nat, q: nat, r: seq<int>, d: seq<bool>, c0: nat,
               ib: nat, c: nat, ends: seq<nat>, seen: seq<nat>)
    requires Walkable(ramps, lo, pe, neg, r, d, q) && pe < |ramps| && LeavesBehind(ramps, pe, neg) && ib < |ramps|
    requires WalkAt(d, lo, q - 1, q, |ramps| - neg, c0, |ramps|, ib, c, ends, seen) && q < c < |r| && c - Length(r[c]) < q
    ensures Off(pe, OverUp(ramps, ib), |ramps|) > neg && AreDownEnds(ends, d, lo, q - 1, c0, |ramps|)
  {
    StepOverPe(ramps, pe, neg, lo, q, r, d, c);
    SignIsDecision(r, d, c);
    JumpToDown(r, d, q - 1, c);
    AllVisited(d, lo, q - 1, q, |ramps| - neg, c0, |ramps|, ib, c, ends, seen);
    hide AreDownEnds, IsRunIndex, DownEnds, Unroll, Off, OverUp, OverDown;
  }

  /** The key is down from baseb_pe to the point at distance e: the last end there is visited. */
  lemma DownToPe(ramps: seq<int>, pe: nat, neg: nat, lo: nat, q: nat, r: seq<int>, d: seq<bool>, c0: nat,
                 ib: nat, c: nat, ends: seq<nat>, seen: seq<nat>, e: nat)
    requires Walkable(ramps, lo, pe, neg, r, d, q) && pe < |ramps| && q <= e < c < |r|
    requires WalkAt(d, lo, q - 1, q, |ramps| - neg, c0, |ramps|, ib, c, ends, seen)
    requires d[e] && IsLatestEnd(d, q - 1, c, e) && e - r[e] < q
    ensures d[q] && OverDown(ramps, At(lo, e, |ramps|)) == OverDown(ramps, pe)
    ensures AreDownEnds(ends + [At(lo, e, |ramps|)], d, lo, q - 1, c0, |ramps|)
  {
    SignIsDecision(r, d, e);
    StepOverPe(ramps, pe, neg, lo, q, r, d, e);
    RunCoversAll(r, d, q, e);
    LastVisited(d, lo, q - 1, q, |ramps| - neg, c0, |ramps|, ib, c, ends, seen, e);
    hide AreDownEnds, IsRunIndex, DownEnds, Unroll, Off, At, OverUp, OverDown;
  }

  /** One round of a walk that will pass baseb_pe. */
  lemma RoundToPe(ramps: seq<int>, pe: nat, neg: nat, lo: nat, q: nat, r: seq<int>, d: seq<bool>, a: nat, c0: nat,
                  ib: nat, c: nat, ends: seq<nat>, seen: seq<nat>) returns (f: nat, seen': seq<nat>)
    requires WalkGoal(ramps, pe, neg, lo, q, r, d, a, c0) && !IsKnownEnd(d, a, c0) && a == q < c && ib < |ramps|
    requires WalkAt(d, lo, q - 1, q, |ramps| - neg, c0, |ramps|, ib, c, ends, seen)
    ensures var n, end := |ramps|, OverUp(ramps, ib);
      if Off(pe, end, n) > neg then AreDownEnds(ends, d, lo, q - 1, c0, n)
      else f < c && OnWalk(ramps, pe, d, lo, a, q, n - neg, c0, OverDown(ramps, end), f, ends + [end], seen')
  {
    var n := |ramps|;
    f, seen' := c, seen;
    if c - Length(r[c]) < q {
      UpToPe(ramps, pe, neg, lo, q, r, d, c0, ib, c, ends, seen);
      hide *;
      return;
    }
    assert ib == At(lo, c, n) && c < |r|;
    SignIsDecision(r, d, c);
    var e := StepOverUp(ramps, pe, neg, lo, q, r, d, q - 1, c);
    SignIsDecision(r, d, e);
    if e - r[e] < q {
      DownToPe(ramps, pe, neg, lo, q, r, d, c0, ib, c, ends, seen, e);
      f := q;
      hide IsRunIndex, Unroll, Off, At, OverUp, OverDown, DownEnds, AreDownEnds, LeavesBehind, WalkAt;
    } else {
      f := StepOverDown(ramps, pe, neg, lo, q, r, d, q - 1, e);
      Visited(d, lo, q - 1, q, n - neg, c0, n, ib, c, ends, seen, e, f);
      seen' := seen + [e];
      hide IsRunIndex, Unroll, Off, At, OverUp, OverDown, DownEnds, AreDownEnds, LeavesBehind, WalkAt;
    }
  }

  /** One round of the walk. */
  lemma WalkRound(ramps: seq<int>, pe: nat, neg: nat, lo: nat, q: nat, r: seq<int>, d: seq<bool>, a: nat, c0: nat,
                  ib: nat, c: nat, ends: seq<nat>, seen: seq<nat>) returns (f: nat, seen': seq<nat>)
    requires WalkGoal(ramps, pe, neg, lo, q, r, d, a, c0) && ib < |ramps| && ib != At(lo, a, |ramps|)
    requires OnWalk(ramps, pe, d, lo, a, q, |ramps| - neg, c0, ib, c, ends, seen)
    ensures var n, end := |ramps|, OverUp(ramps, ib);
      if Off(pe, end, n) > neg then HasWalked(ends, true, lo, d, q, a, c0, n - neg, n)
      else f < c && OnWalk(ramps, pe, d, lo, a, q, n - neg, c0, OverDown(ramps, end), f, ends + [end], seen')
  {
    if IsKnownEnd(d, a, c0) {
      assert c > a;
      f, seen' := RoundToEnd(ramps, pe, neg, lo, q, r, d, a, c0, ib, c, ends, seen);
      hide WalkAt, HasWalked, WalkGoal, OverUp, OverDown, Off;
    } else {
      PassesPe(ramps, pe, neg, lo, q, r, d, a, c0, ends);
      f, seen' := c, seen;
      if c > q {
        f, seen' := RoundToPe(ramps, pe, neg, lo, q, r, d, a, c0, ib, c, ends, seen);
      }
      hide WalkAt, HasWalked, AreDownEnds, WalkGoal, OverUp, OverDown, Off;
    }
  }

  lemma PassesPe(ramps: seq<int>, pe: nat, neg: nat, lo: nat, q: nat, r: seq<int>, d: seq<bool>, a: nat, c0: nat, ends: seq<nat>)
    requires WalkGoal(ramps, pe, neg, lo, q, r, d, a, c0) && !IsKnownEnd(d, a, c0)
    ensures a == q && AreDownEnds(ends, d, lo, q - 1, c0, |ramps|) ==> HasWalked(ends, true, lo, d, q, a, c0, |ramps| - neg, |ramps|)
    ensures d[q] ==> Off(pe, OverUp(ramps, OverDown(ramps, pe)), |ramps|) > neg
  {
    UnrolledAt(ramps, lo, |r|, q);
    SignIsDecision(r, d, q);
    hide AreDownEnds, OverUp, OverDown, Off, Unroll;
  }

  /** The walk comes to ia only at the end of a key-up run. */
  lemma WalkEnds(ramps: seq<int>, pe: nat, neg: nat, lo: nat, q: nat, r: seq<int>, d: seq<bool>, a: nat, c0: nat,
                 ib: nat, c: nat, ends: seq<nat>, seen: seq<nat>)
    requires WalkGoal(ramps, pe, neg, lo, q, r, d, a, c0) && ib < |ramps| && ib == At(lo, a, |ramps|)
    requires OnWalk(ramps, pe, d, lo, a, q, |ramps| - neg, c0, ib, c, ends, seen)
    ensures HasWalked(ends, false, lo, d, q, a, c0, |ramps| - neg, |ramps|)
  {
    var n := |ramps|;
    PlaceAt(lo, a, n);
    if IsKnownEnd(d, a, c0) {
      PlaceAt(lo, c, n);
      Done(d, lo, a, q, n - neg, c0, n, ib, ends, seen);
    } else if c > q {
      PlaceAt(lo, c, n);
      assert false;
    } else {
      PassesPe(ramps, pe, neg, lo, q, r, d, a, c0, ends);
      BackOnItself(pe, ramps[pe], n);
      assert false;
    }
  }

  lemma BackOnItself(p: nat, k: int, n: nat)
    requires p < n && (p - k) % n == p
    ensures (p + k) % n == p
  {
    var m := (p - k) / n;
    assert p - k == m * n + p;
    Distribute(0, 0, m, n);
    Remainder(p + k, 0 - m, n, p);
  }

  lemma WalkIs(ends: seq<nat>, early: bool, pe: nat, neg: nat, ia: nat, ic: nat, lo: nat, d: seq<bool>, n: nat)
    requires pe < n && ia < n && ic < n && lo < n && neg < n
    requires HasWalked(ends, early, lo, d, Off(lo, pe, n), Off(lo, ia, n), Off(lo, ic, n), n - neg, n)
    ensures IsWalk(ends, early, pe, neg, ia, ic, lo, d, n)
  {
    hide HasWalked, Off;
  }

  /** The loop body: over a key-up run, and unless the walk leaves there, over a key-down run. */
  method WalkOn(ramp: array<int>, pe: nat, neg: nat, ib: nat, before: seq<nat>, ghost lo: nat, ghost q: nat, ghost d: seq<bool>,
                ghost r: seq<int>, ghost a: nat, ghost c0: nat, ghost c: nat, ghost seen: seq<nat>)
    returns (left: bool, next: nat, ends: seq<nat>, ghost f: nat, ghost seen': seq<nat>)
    requires pe < ramp.Length && lo < ramp.Length && a < ramp.Length
    requires WalkGoal(ramp[..], pe, neg, lo, q, r, d, a, c0) && ib < ramp.Length && ib != At(lo, a, ramp.Length)
    requires OnWalk(ramp[..], pe, d, lo, a, q, ramp.Length - neg, c0, ib, c, before, seen)
    ensures left ==> HasWalked(ends, true, lo, d, q, a, c0, ramp.Length - neg, ramp.Length)
    ensures !left ==> next < ramp.Length && f < c
    ensures !left ==> OnWalk(ramp[..], pe, d, lo, a, q, ramp.Length - neg, c0, next, f, ends, seen')
  {
    hide *;
    f, seen' := WalkRound(ramp[..], pe, neg, lo, q, r, d, a, c0, ib, c, before, seen);
    left, ends := false, before;
    next := BackOverUp(ramp, ib);
    if Off(pe, next, ramp.Length) > neg {
      left := true;
      return;
    }
    ends := ends + [next];
    next := BackOverDown(ramp, next);
  }

  /** The walk of find_good_dashes from the key-up point ic back to ia, over the ramps only. */
  method WalkBack(ramp: array<int>, pe: nat, neg: nat, ia: nat, ic: nat, ghost lo: nat, ghost d: seq<bool>)
    returns (ends: seq<nat>, early: bool)
    requires CanWalk(ramp[..], pe, neg, ia, ic, lo, d)
    ensures IsWalk(ends, early, pe, neg, ia, ic, lo, d, ramp.Length)
  {
    ghost var ramps, n, unused := ramp[..], ramp.Length, ramp.Length - neg;
    ghost var a, q, c0 := Off(lo, ia, n), Off(lo, pe, n), Off(lo, ic, n);
    ghost var r := Unroll(ramps, lo, c0 + 1);
    ghost var c: nat, seen: seq<nat> := c0, [];
    var ib: nat := ic;
    ends, early := [], false;
    WalkStarts(ramps, pe, neg, ia, ic, lo, d);
    hide *;
    while ib != ia
      invariant ib < n && OnWalk(ramps, pe, d, lo, a, q, unused, c0, ib, c, ends, seen)
      decreases c
    {
      early, ib, ends, c, seen := WalkOn(ramp, pe, neg, ib, ends, lo, q, d, r, a, c0, c, seen);
      if early {
        WalkIs(ends, early, pe, neg, ia, ic, lo, d, n);
        return;
      }
    }
    WalkEnds(ramps, pe, neg, lo, q, r, d, a, c0, ib, c, ends, seen);
    early := false;
    WalkIs(ends, early, pe, neg, ia, ic, lo, d, n);
  }

  lemma IndexedParts(ramps: seq<int>, down: seq<bool>, lo: nat, count: nat)
    requires Indexed(ramps, down, lo, count)
    ensures IsRunIndex(Unroll(ramps, lo, count), Unroll(down, lo, count))
  {
  }

  lemma NewestRun(r: seq<int>, d: seq<bool>)
    requires IsRunIndex(r, d) && |r| > 0
    ensures var last := |r| - 1;
      && r[last] != 0 && (r[last] < 0 ==> !d[last])
      && ((exists i :: 0 <= i < |d| && !d[i]) && r[last] > 0 ==>
            r[last] <= last && !d[last - r[last]] && forall i :: last - r[last] < i <= last ==> d[i])
  {
    var last := |r| - 1;
    SignIsDecision(r, d, last);
    JumpBack(r, d, last);
    if i :| 0 <= i < |d| && !d[i] {
      assert r[last] > 0 ==> last - i >= Length(r[last]);
    }
  }

  /** Back over the newest run if the key is down: to the newest key-up point, if there is one. */
  lemma NewestUp(ramps: seq<int>, pe: nat, pc: nat, r: seq<int>, d: seq<bool>)
    requires pe < |ramps| && pc < |ramps| && 0 < |r| <= |ramps| && r == Unroll(ramps, pe, |r|) && IsRunIndex(r, d)
    requires Off(pe, pc, |ramps|) == |r| - 1
    ensures var n, last := |ramps|, |r| - 1;
      var o := Off(pe, if ramps[pc] > 0 then OverDown(ramps, pc) else pc, n);
      && o == (if r[last] < 0 then last else (last - r[last]) % n)
      && ((exists i :: 0 <= i < |d| && !d[i]) ==> o < |d| && !d[o] && forall i :: o < i < |d| ==> d[i])
  {
    var n, last := |ramps|, |r| - 1;
    Place(pe, pc, n);
    UnrolledAt(ramps, pe, |r|, last);
    NewestRun(r, d);
    GoBackAround(pe, pc, if ramps[pc] > 0 then ramps[pc] else 0, n);
    if 0 < r[last] <= last {
      Remainder(last - r[last], 0, n, last - r[last]);
    }
    hide Off, Unroll, IsRunIndex;
  }

  class Baseband {
    const n: nat                      // baseband_size
    const neg: nat                    // baseband_neg
    const ramp: array<int>            // baseb_ramp, short int
    const totPwr: array<real>         // baseb_totpwr
    const threshold: array<real>      // baseb_threshold
    var pb: nat                       // end of the data that has power and threshold
    var pc: nat                       // end of the data that has ramps
    var pe: nat                       // start of the data still to be searched

    constructor (neg: nat, ramp: array<int>, totPwr: array<real>, threshold: array<real>, pb: nat, pc: nat, pe: nat)
      ensures this.n == ramp.Length && this.neg == neg && this.ramp == ramp
      ensures this.totPwr == totPwr && this.threshold == threshold
      ensures this.pb == pb && this.pc == pc && this.pe == pe
    {
      this.n, this.neg, this.ramp, this.totPwr, this.threshold := ramp.Length, neg, ramp, totPwr, threshold;
      this.pb, this.pc, this.pe := pb, pc, pe;
    }

    ghost predicate Valid()
      reads this, ramp
    {
      && ramp.Length == totPwr.Length == threshold.Length == n
      && 1 < n && neg < n
      && pb < n && pc < n && pe < n
      && forall q :: 0 <= q < n ==> -0x8000 <= ramp[q] < 0x8000
    }

    ghost function DownRing(): (d: seq<bool>)
      requires totPwr.Length == threshold.Length == n
      reads totPwr, threshold
      ensures |d| == n
      ensures forall q :: 0 <= q < n ==> (d[q] <==> totPwr[q] > threshold[q])
    {
      Decided(totPwr[..], threshold[..])
    }

    /** The filling loop; the new pc is the last point that has a ramp. */
    method FillRamps()
      requires Valid()
      modifies this`pc, ramp
      ensures Valid() && pc == Prev(pb, n)
      ensures FilledFrom(old(ramp[..]), ramp[..], DownRing(), old(pc), Off(old(pc), pb, n))
    {
      hide FilledFrom, Short, At, Off, Next, Prev, Decided;
      ghost var was, down, start, k := ramp[..], DownRing(), pc, 0;
      ghost var count := Off(start, pb, n);
      var ib, ia := Prev(pc, n), pc;
      FillStarts(was, down, start, pb, n);
      while ia != pb
        invariant k <= count && ia < n && ia == At(start, k, n) && ib == Prev(ia, n)
        invariant ramp.Length == n && FilledFrom(was, ramp[..], down, start, k)
        decreases count - k
      {
        FillPlace(start, pb, k, n);
        FillStep(was, ramp[..], down, start, k);
        FillPoint(ia, ib);
        ib := ia;
        ia := Next(ia, n);
        k := k + 1;
      }
      FillPlace(start, pb, k, n);
      FilledFits(was, ramp[..], down, start, k);
      pc := ib;
    }

    /** One point's ramp, from its predecessor's. */
    method FillPoint(ia: nat, ib: nat)
      requires ramp.Length == totPwr.Length == threshold.Length == n && ia < n && ib < n
      modifies ramp
      ensures ramp[..] == old(ramp[..])[ia := Extended16(old(ramp[ib]), DownRing()[ia])]
    {
      ramp[ia] := Short(if totPwr[ia] > threshold[ia]
                        then if ramp[ib] > 0 then ramp[ib] + 1 else 1
                        else if ramp[ib] < 0 then ramp[ib] - 1 else -1);
    }

    /** The end of collect_ramp, where there is a long key-up ramp among the c+1 points from
        pe on: pc moves to the last point of the last one. */
    method StepToLongUp(long: int)
      requires Valid()
      requires var c := Off(pe, pc, n);
        && c <= neg
        && Indexed(ramp[..], DownRing(), pe, c + 1)
        && HasLongUp(Unroll(ramp[..], pe, c + 1), c, long)
      modifies this`pc
      ensures Valid()
      ensures IsLastLongUp(Unroll(ramp[..], pe, Off(pe, old(pc), n) + 1), Off(pe, pc, n), long)
    {
      hide Unroll, Off, HasLongUp, Indexed, Decided, IsLastLongUp;
      var p := LastLongUp(ramp, pe, pc, neg, long, DownRing());
      pc := p;
    }

    /** The decisions from pe through the newest point, once the ramps are filled. */
    ghost function NewDecisions(): seq<bool>
      requires Valid() && Off(pe, pc, n) + Off(pc, pb, n) < n
      reads this, ramp, totPwr, threshold
    {
      Unroll(DownRing(), pe, Off(pe, pc, n) + Off(pc, pb, n))
    }

    /** The signed run lengths that these decisions have. */
    ghost function NewRuns(): (r: seq<int>)
      requires Valid() && Off(pe, pc, n) + Off(pc, pb, n) < n
      reads this, ramp, totPwr, threshold
      ensures |r| == |NewDecisions()|
    {
      TrueRuns(FirstRamp(ramp[..], DownRing(), pe, pc), NewDecisions())
    }

    /** The ramps collected so far, if any, are an index from pe on; there is some data, and
        room for the new points; no run outgrows a short. */
    ghost predicate ReadyToFill()
      requires Valid()
      reads this, ramp, totPwr, threshold
    {
      && 1 <= Off(pe, pc, n) + Off(pc, pb, n) < n
      && Indexed(ramp[..], DownRing(), pe, Off(pe, pc, n))
      && RunsFit(FirstRamp(ramp[..], DownRing(), pe, pc), NewDecisions())
    }

    /** Fill: all points from pe to the newest are indexed. */
    method FillAndIndex()
      requires Valid() && ReadyToFill()
      modifies this`pc, ramp
      ensures Valid() && pc == Prev(pb, n)
      ensures var count := |old(NewDecisions())|;
        && 1 <= count < n && Off(pe, pc, n) == count - 1
        && Unroll(DownRing(), pe, count) == old(NewDecisions())
        && Unroll(ramp[..], pe, count) == old(NewRuns())
        && Indexed(ramp[..], DownRing(), pe, count)
    {
      hide FilledFrom, Indexed, TrueRuns, RunsFit, Unroll, Off, Prev, At, Decided, FirstRamp;
      ghost var was, added := ramp[..], Off(pc, pb, n);
      ghost var start := pc;
      FillRamps();
      FillExtendsIndex(was, ramp[..], DownRing(), pe, start, added);
      NewestPlace(pe, start, pb, n);
    }

    /** collect_ramp, where there is a long key-up ramp to step back to. */
    method CollectRamp(cwbitPts: real)
      requires Valid() && ReadyToFill()
      requires |NewRuns()| - 1 <= neg && HasLongUp(NewRuns(), |NewRuns()| - 1, (2.5 * cwbitPts).Floor)
      modifies this`pc, ramp
      ensures Valid()
      ensures var r := old(NewRuns());
        && Unroll(ramp[..], pe, |r|) == r
        && IsLastLongUp(r, Off(pe, pc, n), (2.5 * cwbitPts).Floor)
    {
      hide Indexed, TrueRuns, IsLastLongUp, RunsFit, IsRunIndex, HasLongUp, FirstRamp;
      FillAndIndex();
      StepToLongUp((2.5 * cwbitPts).Floor);
    }

    /** set_baseb_pc: pc moves to the newest key-up point; if there is none, over the run that
        covers everything from pe on. */
    method SetBasebPc()
      requires Valid() && ReadyToFill()
      modifies this`pc, ramp
      ensures Valid()
      ensures var d, r := old(NewDecisions()), old(NewRuns());
        var last := |d| - 1;
        && Unroll(ramp[..], pe, |d|) == r
        && Off(pe, pc, n) == (if r[last] < 0 then last else (last - r[last]) % n)
        && ((exists i :: 0 <= i < |d| && !d[i]) ==>
              Off(pe, pc, n) < |d| && !d[Off(pe, pc, n)] && forall i :: Off(pe, pc, n) < i < |d| ==> d[i])
    {
      hide TrueRuns, RunsFit, FirstRamp, OverDown, Off, Unroll, Indexed, Decided;
      FillAndIndex();
      assert IsRunIndex(old(NewRuns()), old(NewDecisions())) by {
        IndexedParts(ramp[..], DownRing(), pe, |old(NewDecisions())|);
      }
      NewestUp(ramp[..], pe, pc, old(NewRuns()), old(NewDecisions()));
      if ramp[pc] > 0 {
        pc := BackOverDown(ramp, pc);
      }
    }
  }
}
