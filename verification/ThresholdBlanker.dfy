/** The threshold ("stupid") blanker at the end of first_noise_blanker
    (blank1.c:1050-1278, two-channel float branch): zero every cell of the window whose
    power is above the limit, and some cells before and after each strong pulse. */
module ThresholdBlanker {
  import opened Rings
  import opened PolarisedPulses
  import opened PulsePolarisation

  function Silenced(cell: Cell): Cell {
    cell.(x := Complex(0.0, 0.0), y := Complex(0.0, 0.0))
  }

  /** The part of the ring that a run inspects: the cells after beg through end. */
  datatype Window = Window(n: nat, beg: nat, end: nat) {
    ghost predicate Valid() {
      beg < n && end < n
    }

    ghost predicate Has(q: nat)
      requires Valid()
    {
      q < n && 1 <= Off(beg, q, n) <= Off(beg, end, n)
    }
  }

  /** q lies at most `before` cells before or `after` cells after a cell of the
      window that was too strong. */
  ghost predicate NearLoud(w: Window, pwr: seq<real>, limit: real, before: nat, after: nat, q: nat)
    requires w.Valid() && |pwr| == w.n && q < w.n
  {
    exists h: nat :: w.Has(h) && pwr[h] > limit && (Off(q, h, w.n) <= before || Off(h, q, w.n) <= after)
  }

  ghost predicate Untouched(was: seq<Cell>, wasPwr: seq<real>, now: seq<Cell>, nowPwr: seq<real>, q: nat)
    requires |was| == |wasPwr| == |now| == |nowPwr| && q < |was|
  {
    now[q] == was[q] && nowPwr[q] == wasPwr[q]
  }

  ghost predicate Cleared(was: seq<Cell>, now: seq<Cell>, nowPwr: seq<real>, q: nat)
    requires |was| == |now| == |nowPwr| && q < |was|
  {
    now[q] == Silenced(was[q]) && nowPwr[q] == 0.0
  }

  /** Every cell is as before, or cleared for a loud cell nearby. */
  ghost predicate OnlyClearedNearLoud(w: Window, was: seq<Cell>, wasPwr: seq<real>, now: seq<Cell>, nowPwr: seq<real>,
                                      limit: real, before: nat, after: nat)
    requires w.Valid()
  {
    && |was| == |wasPwr| == |now| == |nowPwr| == w.n
    && forall q :: 0 <= q < w.n ==>
         || Untouched(was, wasPwr, now, nowPwr, q)
         || (Cleared(was, now, nowPwr, q) && NearLoud(w, wasPwr, limit, before, after, q))
  }

  /** How many cells to clear for a pulse t times the noise: at most `clr`, reached at 40 dB. */
  function Extent(clr: nat, t: real, sqrt: real -> real): (i: nat)
    requires IsSqrt(sqrt) && t > 4.0
    ensures i <= clr
  {
    var t1 := if t > 10000.0 then 10000.0 else t;
    RootIsBounded(sqrt, t1);
    var r := sqrt(t1) / 100.0;
    ProductIsBounded(clr as real, r);
    (clr as real * r + 0.5).Floor
  }

  /** It is the integer nearest to clr*sqrt(t)/100, with t cut at 40 dB... */
  lemma ExtentIsNearest(clr: nat, t: real, sqrt: real -> real)
    requires IsSqrt(sqrt) && t > 4.0
    ensures var i, t1 := Extent(clr, t, sqrt), if t > 10000.0 then 10000.0 else t;
      -50.0 <= 100.0 * i as real - clr as real * sqrt(t1) <= 50.0
  {
    var t1 := if t > 10000.0 then 10000.0 else t;
    ScaledDown(clr as real, sqrt(t1));
  }

  lemma ScaledDown(a: real, r: real)
    ensures 100.0 * (a * (r / 100.0)) == a * r
  {
    var q := r / 100.0;
    assert 100.0 * q == r;
    assert 100.0 * (a * q) == a * (100.0 * q);
  }

  /** The integer nearest to clr*r. */
  function Rounded(clr: nat, r: real): int {
    (clr as real * r + 0.5).Floor
  }

  lemma ExtentIs(clr: nat, t: real, sqrt: real -> real)
    requires IsSqrt(sqrt) && t > 4.0
    ensures Extent(clr, t, sqrt) == Rounded(clr, sqrt(if t > 10000.0 then 10000.0 else t) / 100.0)
  {
  }

  lemma RoundedRises(clr: nat, r: real, s: real)
    requires r <= s
    ensures Rounded(clr, r) <= Rounded(clr, s)
  {
    ProductRises(clr as real, r, s);
  }

  lemma RoundedWhole(clr: nat)
    ensures Rounded(clr, 1.0) == clr
  {
  }

  lemma RootRises(a: real, b: real, sqrt: real -> real)
    requires IsSqrt(sqrt) && 0.0 <= a <= b
    ensures sqrt(a) <= sqrt(b)
  {
    var r, s := sqrt(a), sqrt(b);
    assert r * r == a && s * s == b && r >= 0.0 && s >= 0.0;
    if r > s {
      SquareRises(s, r, s * s, r * r);
    }
  }

  lemma SquareRises(s: real, r: real, ss: real, rr: real)
    requires 0.0 <= s < r && ss == s * s && rr == r * r
    ensures ss < rr
  {
    var product := (r - s) * (r + s);
    assert product == rr - ss;
    ProductIsPositive(r - s, r + s, product);
  }

  lemma ProductRises(a: real, r: real, s: real)
    requires a >= 0.0 && r <= s
    ensures a * r <= a * s
  {
    assert a * (s - r) >= 0.0;
  }

  lemma RootOfFortyDb(sqrt: real -> real)
    requires IsSqrt(sqrt)
    ensures sqrt(10000.0) == 100.0
  {
    var r := sqrt(10000.0);
    assert r >= 0.0 && r * r == 10000.0;
    if r < 100.0 {
      SquareRises(r, 100.0, r * r, 10000.0);
    } else if r > 100.0 {
      SquareRises(100.0, r, 10000.0, r * r);
    }
  }

  /** ...so it rises with the pulse, and reaches clr at 40 dB. */
  lemma ExtentRises(clr: nat, t: real, t': real, sqrt: real -> real)
    requires IsSqrt(sqrt) && 4.0 < t <= t'
    ensures Extent(clr, t, sqrt) <= Extent(clr, t', sqrt)
    ensures t >= 10000.0 ==> Extent(clr, t, sqrt) == clr
  {
    var t1, t2 := if t > 10000.0 then 10000.0 else t, if t' > 10000.0 then 10000.0 else t';
    RootRises(t1, t2, sqrt);
    RootOfFortyDb(sqrt);
    ExtentIs(clr, t, sqrt);
    ExtentIs(clr, t', sqrt);
    hide Extent, IsSqrt, Rounded;
    RoundedRises(clr, sqrt(t1) / 100.0, sqrt(t2) / 100.0);
    RoundedWhole(clr);
  }

  lemma RootIsBounded(sqrt: real -> real, t: real)
    requires IsSqrt(sqrt) && 4.0 <= t <= 10000.0
    ensures 0.0 <= sqrt(t) <= 100.0
  {
    var r := sqrt(t);
    assert r * r == t;
    if r > 100.0 {
      assert false;
    }
  }

  lemma ProductIsBounded(a: real, r: real)
    requires a >= 0.0 && 0.0 <= r <= 1.0
    ensures 0.0 <= a * r <= a
  {
    assert a * (1.0 - r) >= 0.0;
  }

  method ClearCell(cells: array<Cell>, pwr: array<real>, q: nat)
    requires cells.Length == pwr.Length && q < cells.Length
    modifies cells, pwr
    ensures cells[..] == old(cells[..])[q := Silenced(old(cells[q]))]
    ensures pwr[..] == old(pwr[..])[q := 0.0]
  {
    cells[q] := Silenced(cells[q]);
    pwr[q] := 0.0;
  }

  /** `count` cells from `first` on are silent. */
  ghost function SilencedFrom(cells: seq<Cell>, first: nat, count: nat): (r: seq<Cell>)
    requires first < |cells| && count <= |cells|
    ensures |r| == |cells|
  {
    seq(|cells|, q requires 0 <= q < |cells| =>
      if Off(first, q, |cells|) < count then Silenced(cells[q]) else cells[q])
  }

  ghost function ZeroFrom(pwr: seq<real>, first: nat, count: nat): (r: seq<real>)
    requires first < |pwr| && count <= |pwr|
    ensures |r| == |pwr|
  {
    seq(|pwr|, q requires 0 <= q < |pwr| => if Off(first, q, |pwr|) < count then 0.0 else pwr[q])
  }

  lemma NoneSilenced(cells: seq<Cell>, pwr: seq<real>, first: nat)
    requires first < |cells| == |pwr|
    ensures SilencedFrom(cells, first, 0) == cells && ZeroFrom(pwr, first, 0) == pwr
    ensures Back(first, 0, |cells|) == first && At(first, 0, |cells|) == first
  {
  }

  lemma SilenceBefore(cells: seq<Cell>, pwr: seq<real>, p: nat, j: nat)
    requires p < |cells| == |pwr| && j + 1 < |cells|
    ensures var n, a := |cells|, Back(p, j, |cells|);
      var b, now := Prev(a, n), SilencedFrom(cells, a, j);
      && b == Back(p, j + 1, n)
      && SilencedFrom(cells, b, j + 1) == now[b := Silenced(now[b])]
      && ZeroFrom(pwr, b, j + 1) == ZeroFrom(pwr, a, j)[b := 0.0]
  {
    hide Silenced;
    var n, a := |cells|, Back(p, j, |cells|);
    forall q | 0 <= q < n
      ensures Off(Prev(a, n), q, n) == if q == Prev(a, n) then 0 else Off(a, q, n) + 1
    {
    }
  }

  lemma SilenceAfter(cells: seq<Cell>, pwr: seq<real>, p: nat, j: nat)
    requires p < |cells| == |pwr| && j + 1 < |cells|
    ensures var n, b, now := |cells|, At(p, j, |cells|), SilencedFrom(cells, p, j);
      && Next(b, n) == At(p, j + 1, n)
      && SilencedFrom(cells, p, j + 1) == now[b := Silenced(now[b])]
      && ZeroFrom(pwr, p, j + 1) == ZeroFrom(pwr, p, j)[b := 0.0]
  {
    hide Silenced;
  }

  /** Clear `count` cells before the first loud cell pk. */
  method ClearBefore(cells: array<Cell>, pwr: array<real>, pk: nat, count: nat)
    requires cells.Length == pwr.Length && pk < cells.Length && count < cells.Length
    modifies cells, pwr
    ensures cells[..] == SilencedFrom(old(cells[..]), Back(pk, count, cells.Length), count)
    ensures pwr[..] == ZeroFrom(old(pwr[..]), Back(pk, count, pwr.Length), count)
  {
    hide Off, Back, Prev, SilencedFrom, ZeroFrom, Silenced;
    ghost var was, wasPwr := cells[..], pwr[..];
    var pa := pk;
    NoneSilenced(was, wasPwr, pk);
    for j := 0 to count
      invariant pa < cells.Length && pa == Back(pk, j, cells.Length)
      invariant cells[..] == SilencedFrom(was, pa, j) && pwr[..] == ZeroFrom(wasPwr, pa, j)
    {
      SilenceBefore(was, wasPwr, pk, j);
      pa := Prev(pa, cells.Length);
      ClearCell(cells, pwr, pa);
    }
  }

  /** Clear `count` cells from p0 on. */
  method ClearAfter(cells: array<Cell>, pwr: array<real>, p0: nat, count: nat)
    requires cells.Length == pwr.Length && p0 < cells.Length && count < cells.Length
    modifies cells, pwr
    ensures cells[..] == SilencedFrom(old(cells[..]), p0, count)
    ensures pwr[..] == ZeroFrom(old(pwr[..]), p0, count)
  {
    hide Off, At, Next, SilencedFrom, ZeroFrom, Silenced;
    ghost var was, wasPwr := cells[..], pwr[..];
    var pa := p0;
    NoneSilenced(was, wasPwr, p0);
    for j := 0 to count
      invariant pa < cells.Length && pa == At(p0, j, cells.Length)
      invariant cells[..] == SilencedFrom(was, p0, j) && pwr[..] == ZeroFrom(wasPwr, p0, j)
    {
      SilenceAfter(was, wasPwr, p0, j);
      ClearCell(cells, pwr, pa);
      pa := Next(pa, cells.Length);
    }
  }

  // ---------------------------------------------------------------- the run

  /** What a run depends on: clr1 and clr2 cells at most are cleared before and after a pulse. */
  datatype Setting = Setting(w: Window, limit: real, clr1: nat, clr2: nat, noise: real, sqrt: real -> real) {
    ghost predicate Valid() {
      w.Valid() && limit >= 0.0 && noise > 0.0 && IsSqrt(sqrt) && clr1 < w.n && clr2 + 1 < w.n
    }
  }

  /** The data after some cells have been inspected, and the pulse under way: its first
      cell and the largest power met since the last pulse. */
  datatype Sweep = Sweep(cells: seq<Cell>, pwr: seq<real>, inPulse: bool, pk: nat, pulMax: real, cleared: nat) {
    ghost predicate Valid(n: nat) {
      |cells| == |pwr| == n && pk < n
    }
  }

  /** The quiet cell p ends a pulse. */
  ghost function Ended(b: Setting, s: Sweep, p: nat): (t: Sweep)
    requires b.Valid() && s.Valid(b.w.n) && p < b.w.n
    ensures t.Valid(b.w.n) && !t.inPulse
  {
    var t1 := s.pulMax / b.noise;
    if t1 > 4.0 then
      var i1, i2 := Extent(b.clr1, t1, b.sqrt), Extent(b.clr2, t1, b.sqrt);
      var first := Back(s.pk, i1, b.w.n);
      Sweep(SilencedFrom(SilencedFrom(s.cells, first, i1), p, i2), ZeroFrom(ZeroFrom(s.pwr, first, i1), p, i2),
            false, s.pk, 0.0, s.cleared + i1 + i2)
    else s.(inPulse := false, pulMax := 0.0)
  }

  ghost function Inspected(b: Setting, s: Sweep, p: nat): (t: Sweep)
    requires b.Valid() && s.Valid(b.w.n) && p < b.w.n
    ensures t.Valid(b.w.n)
  {
    if s.pwr[p] > b.limit then
      Sweep(s.cells[p := Silenced(s.cells[p])], s.pwr[p := 0.0], true, if s.inPulse then s.pk else p,
            if s.pwr[p] > s.pulMax then s.pwr[p] else s.pulMax, s.cleared + 1)
    else if s.inPulse then Ended(b, s, p)
    else s
  }

  /** The first j cells of the window are inspected. */
  ghost function Swept(b: Setting, s: Sweep, j: nat): (t: Sweep)
    requires b.Valid() && s.Valid(b.w.n) && j < b.w.n
    ensures t.Valid(b.w.n)
  {
    if j == 0 then s else Inspected(b, Swept(b, s, j - 1), At(b.w.beg, j, b.w.n))
  }

  method EndPulse(cells: array<Cell>, pwr: array<real>, b: Setting, p0: nat, pk: nat, pulMax: real, ghost s: Sweep)
    returns (count: nat)
    requires b.Valid() && b.w.n == cells.Length == pwr.Length && p0 < b.w.n && s.Valid(b.w.n)
    requires s.cells == cells[..] && s.pwr == pwr[..] && s.pk == pk && s.pulMax == pulMax
    modifies cells, pwr
    ensures cells[..] == Ended(b, s, p0).cells && pwr[..] == Ended(b, s, p0).pwr
    ensures s.cleared + count == Ended(b, s, p0).cleared
  {
    hide SilencedFrom, ZeroFrom, Back, IsSqrt, Extent;
    count := 0;
    var t1 := pulMax / b.noise;
    if t1 > 4.0 {
      var before, after := Extent(b.clr1, t1, b.sqrt), Extent(b.clr2, t1, b.sqrt);
      ClearBefore(cells, pwr, pk, before);
      ClearAfter(cells, pwr, p0, after);
      count := before + after;
    }
  }

  /** The loop of the threshold blanker. */
  method SweepWindow(b: Setting, cells: array<Cell>, pwr: array<real>) returns (clearedPoints: nat)
    requires b.Valid() && b.w.n == cells.Length == pwr.Length
    modifies cells, pwr
    ensures var s0 := Sweep(old(cells[..]), old(pwr[..]), false, b.w.beg, 0.0, 0);
      var s := Swept(b, s0, Off(b.w.beg, b.w.end, b.w.n));
      cells[..] == s.cells && pwr[..] == s.pwr && clearedPoints == s.cleared
  {
    hide Silenced, IsSqrt, Off, Next, At, Ended;
    var n := b.w.n;
    var p0: nat, pk: nat, inPulse, pulMax := b.w.beg, b.w.beg, false, 0.0;
    clearedPoints := 0;
    ghost var s0, j, last := Sweep(cells[..], pwr[..], false, b.w.beg, 0.0, 0), 0, Off(b.w.beg, b.w.end, n);
    SweepPlace(b.w, 0);
    while p0 != b.w.end
      invariant j <= last && p0 < n && p0 == At(b.w.beg, j, n)
      invariant Swept(b, s0, j) == Sweep(cells[..], pwr[..], inPulse, pk, pulMax, clearedPoints)
      decreases last - j
    {
      SweepPlace(b.w, j);
      ghost var s := Swept(b, s0, j);
      p0 := Next(p0, n);
      j := j + 1;
      assert Swept(b, s0, j) == Inspected(b, s, p0);
      if pwr[p0] > b.limit {
        if !inPulse {
          pk := p0;
        }
        if pwr[p0] > pulMax {
          pulMax := pwr[p0];
        }
        inPulse := true;
        clearedPoints := clearedPoints + 1;
        ClearCell(cells, pwr, p0);
      } else if inPulse {
        var extra := EndPulse(cells, pwr, b, p0, pk, pulMax, s);
        EndedPulse(b, s, p0);
        clearedPoints := clearedPoints + extra;
        pulMax := 0.0;
        inPulse := false;
      }
    }
    SweepPlace(b.w, j);
  }

  lemma EndedPulse(b: Setting, s: Sweep, p: nat)
    requires b.Valid() && s.Valid(b.w.n) && p < b.w.n
    ensures Ended(b, s, p).pk == s.pk && Ended(b, s, p).pulMax == 0.0
  {
  }

  lemma SweepPlace(w: Window, j: nat)
    requires w.Valid() && j <= Off(w.beg, w.end, w.n)
    ensures At(w.beg, j, w.n) == w.end <==> j == Off(w.beg, w.end, w.n)
    ensures j == 0 ==> At(w.beg, j, w.n) == w.beg
    ensures j < Off(w.beg, w.end, w.n) ==> Next(At(w.beg, j, w.n), w.n) == At(w.beg, j + 1, w.n)
  {
  }

  // ------------------------------------------------- what a run leaves

  /** The state of a run that has inspected the window through p0, the cell h was the
      last one above the limit. */
  ghost predicate RunAt(b: Setting, was: seq<Cell>, wasPwr: seq<real>, s: Sweep, p0: nat)
    requires b.Valid() && s.Valid(b.w.n)
  {
    var w := b.w;
    && p0 < w.n && Off(w.beg, p0, w.n) <= Off(w.beg, w.end, w.n)
    && OnlyClearedNearLoud(w, was, wasPwr, s.cells, s.pwr, b.limit, b.clr1, b.clr2)
    && (forall q :: 0 <= q < w.n && 1 <= Off(w.beg, q, w.n) <= Off(w.beg, p0, w.n) ==> s.pwr[q] <= b.limit)
    && (s.inPulse ==> w.Has(s.pk) && wasPwr[s.pk] > b.limit && w.Has(p0) && wasPwr[p0] > b.limit)
    && (s.cleared == 0 ==> !s.inPulse && s.cells == was && s.pwr == wasPwr)
  }

  lemma ClearingKeeps(w: Window, was: seq<Cell>, wasPwr: seq<real>, now: seq<Cell>, nowPwr: seq<real>,
                      limit: real, before: nat, after: nat, first: nat, count: nat, h: nat)
    requires w.Valid() && OnlyClearedNearLoud(w, was, wasPwr, now, nowPwr, limit, before, after)
    requires w.Has(h) && wasPwr[h] > limit && first < w.n && count <= w.n
    requires forall q :: 0 <= q < w.n && Off(first, q, w.n) < count ==>
      Off(q, h, w.n) <= before || Off(h, q, w.n) <= after
    ensures OnlyClearedNearLoud(w, was, wasPwr, SilencedFrom(now, first, count), ZeroFrom(nowPwr, first, count),
                                limit, before, after)
  {
    hide Off;
    var now', nowPwr' := SilencedFrom(now, first, count), ZeroFrom(nowPwr, first, count);
    forall q: nat | q < w.n
      ensures Untouched(was, wasPwr, now', nowPwr', q)
           || (Cleared(was, now', nowPwr', q) && NearLoud(w, wasPwr, limit, before, after, q))
    {
      assert Untouched(was, wasPwr, now, nowPwr, q) || Cleared(was, now, nowPwr, q);
    }
  }

  lemma Reaches(pk: nat, h: nat, i1: nat, i2: nat, clr1: nat, clr2: nat, n: nat)
    requires pk < n && h < n && i1 <= clr1 < n && i2 <= clr2 && clr2 + 1 < n
    ensures forall q :: 0 <= q < n && Off(Back(pk, i1, n), q, n) < i1 ==> Off(q, pk, n) <= clr1
    ensures forall q :: 0 <= q < n && Off(Next(h, n), q, n) < i2 ==> Off(h, q, n) <= clr2
  {
  }

  lemma OneCell(cells: seq<Cell>, pwr: seq<real>, p: nat)
    requires p < |cells| == |pwr|
    ensures SilencedFrom(cells, p, 1) == cells[p := Silenced(cells[p])] && ZeroFrom(pwr, p, 1) == pwr[p := 0.0]
    ensures forall q :: 0 <= q < |cells| && Off(p, q, |cells|) < 1 ==> Off(q, p, |cells|) == 0
  {
  }

  lemma LoudStep(b: Setting, was: seq<Cell>, wasPwr: seq<real>, s: Sweep, p0: nat)
    requires b.Valid() && s.Valid(b.w.n) && RunAt(b, was, wasPwr, s, p0) && p0 != b.w.end
    requires s.pwr[Next(p0, b.w.n)] > b.limit
    ensures RunAt(b, was, wasPwr, Inspected(b, s, Next(p0, b.w.n)), Next(p0, b.w.n))
  {
    var p := Next(p0, b.w.n);
    WindowStep(b.w, p0);
    assert Untouched(was, wasPwr, s.cells, s.pwr, p) || Cleared(was, s.cells, s.pwr, p);
    OneCell(s.cells, s.pwr, p);
    hide Off, Next, SilencedFrom, ZeroFrom, IsSqrt;
    ClearingKeeps(b.w, was, wasPwr, s.cells, s.pwr, b.limit, b.clr1, b.clr2, p, 1, p);
    hide OnlyClearedNearLoud, Silenced;
  }

  lemma EndStep(b: Setting, was: seq<Cell>, wasPwr: seq<real>, s: Sweep, p0: nat)
    requires b.Valid() && s.Valid(b.w.n) && RunAt(b, was, wasPwr, s, p0) && p0 != b.w.end && s.inPulse
    ensures var t := Ended(b, s, Next(p0, b.w.n));
      && OnlyClearedNearLoud(b.w, was, wasPwr, t.cells, t.pwr, b.limit, b.clr1, b.clr2)
      && (forall q :: 0 <= q < b.w.n ==> t.pwr[q] == s.pwr[q] || t.pwr[q] == 0.0)
      && t.cleared >= s.cleared
  {
    var t1 := s.pulMax / b.noise;
    if t1 > 4.0 {
      var i1, i2 := Extent(b.clr1, t1, b.sqrt), Extent(b.clr2, t1, b.sqrt);
      var first, p := Back(s.pk, i1, b.w.n), Next(p0, b.w.n);
      Reaches(s.pk, p0, i1, i2, b.clr1, b.clr2, b.w.n);
      hide Extent, IsSqrt, Off, Next, Back, OnlyClearedNearLoud;
      ClearingKeeps(b.w, was, wasPwr, s.cells, s.pwr, b.limit, b.clr1, b.clr2, first, i1, s.pk);
      ClearingKeeps(b.w, was, wasPwr, SilencedFrom(s.cells, first, i1), ZeroFrom(s.pwr, first, i1),
                    b.limit, b.clr1, b.clr2, p, i2, p0);
    }
  }

  lemma QuietStep(b: Setting, was: seq<Cell>, wasPwr: seq<real>, s: Sweep, p0: nat)
    requires b.Valid() && s.Valid(b.w.n) && RunAt(b, was, wasPwr, s, p0) && p0 != b.w.end
    requires s.pwr[Next(p0, b.w.n)] <= b.limit
    ensures RunAt(b, was, wasPwr, Inspected(b, s, Next(p0, b.w.n)), Next(p0, b.w.n))
  {
    WindowStep(b.w, p0);
    if s.inPulse {
      EndStep(b, was, wasPwr, s, p0);
    }
    hide Off, Next, Ended, OnlyClearedNearLoud, IsSqrt;
  }

  lemma {:induction false} SweptIsRun(b: Setting, was: seq<Cell>, wasPwr: seq<real>, j: nat)
    requires b.Valid() && |was| == |wasPwr| == b.w.n && j <= Off(b.w.beg, b.w.end, b.w.n)
    ensures RunAt(b, was, wasPwr, Swept(b, Sweep(was, wasPwr, false, b.w.beg, 0.0, 0), j), At(b.w.beg, j, b.w.n))
  {
    var s0 := Sweep(was, wasPwr, false, b.w.beg, 0.0, 0);
    SweepPlace(b.w, j);
    if j > 0 {
      SweptIsRun(b, was, wasPwr, j - 1);
      SweepPlace(b.w, j - 1);
      hide RunAt, Inspected, Off, At, Next, IsSqrt;
      var s, p0 := Swept(b, s0, j - 1), At(b.w.beg, j - 1, b.w.n);
      if s.pwr[Next(p0, b.w.n)] > b.limit {
        LoudStep(b, was, wasPwr, s, p0);
      } else {
        QuietStep(b, was, wasPwr, s, p0);
      }
    }
  }

  ghost predicate IsSilent(s: Sweep, q: nat)
    requires |s.cells| == |s.pwr| && q < |s.cells|
  {
    s.cells[q] == Silenced(s.cells[q]) && s.pwr[q] == 0.0
  }

  lemma SilentStays(b: Setting, s: Sweep, p: nat, q: nat)
    requires b.Valid() && s.Valid(b.w.n) && p < b.w.n && q < b.w.n && IsSilent(s, q)
    ensures IsSilent(Inspected(b, s, p), q)
  {
    hide Off, Extent, IsSqrt, Back;
  }

  lemma {:induction false} SilentToTheEnd(b: Setting, s: Sweep, i: nat, j: nat, q: nat)
    requires b.Valid() && s.Valid(b.w.n) && i <= j < b.w.n && q < b.w.n && IsSilent(Swept(b, s, i), q)
    ensures IsSilent(Swept(b, s, j), q)
  {
    if i < j {
      SilentToTheEnd(b, s, i, j - 1, q);
      hide Inspected, IsSilent, At;
      SilentStays(b, Swept(b, s, j - 1), At(b.w.beg, j, b.w.n), q);
    }
  }

  lemma BeforeIsFrom(pk: nat, q: nat, i1: nat, n: nat)
    requires pk < n && q < n && i1 < n
    ensures 1 <= Off(q, pk, n) <= i1 <==> Off(Back(pk, i1, n), q, n) < i1
  {
  }

  // ------------------------------------------------- pulses, as received

  /** A run over the received cells, before its first step. */
  ghost function Fresh(w: Window, was: seq<Cell>, wasPwr: seq<real>): Sweep {
    Sweep(was, wasPwr, false, w.beg, 0.0, 0)
  }

  /** The power of the j-th cell of the window when the run comes to it. */
  ghost function Met(b: Setting, was: seq<Cell>, wasPwr: seq<real>, j: nat): real
    requires b.Valid() && |was| == |wasPwr| == b.w.n && 1 <= j < b.w.n
  {
    Swept(b, Fresh(b.w, was, wasPwr), j - 1).pwr[At(b.w.beg, j, b.w.n)]
  }

  /** The i-th through the last cell before the j-th are met above the limit, and the one before them is not. */
  ghost predicate IsPulse(b: Setting, was: seq<Cell>, wasPwr: seq<real>, i: nat, j: nat)
    requires b.Valid() && |was| == |wasPwr| == b.w.n
  {
    && 1 <= i < j <= Off(b.w.beg, b.w.end, b.w.n) + 1
    && (forall d :: i <= d < j ==> Met(b, was, wasPwr, d) > b.limit)
    && (i > 1 ==> Met(b, was, wasPwr, i - 1) <= b.limit)
  }

  /** The largest power received in these cells. */
  ghost predicate IsLargest(w: Window, wasPwr: seq<real>, i: nat, j: nat, top: real)
    requires w.Valid() && |wasPwr| == w.n && j <= w.n
  {
    && (exists d :: i <= d < j && wasPwr[At(w.beg, d, w.n)] == top)
    && forall d :: i <= d < j ==> wasPwr[At(w.beg, d, w.n)] <= top
  }

  lemma RunClears(b: Setting, was: seq<Cell>, wasPwr: seq<real>, s: Sweep, p0: nat, q: nat)
    requires b.Valid() && s.Valid(b.w.n) && |was| == |wasPwr| == b.w.n && RunAt(b, was, wasPwr, s, p0) && q < b.w.n
    ensures Untouched(was, wasPwr, s.cells, s.pwr, q) || Cleared(was, s.cells, s.pwr, q)
  {
    hide Off, IsSqrt;
  }

  /** What the run meets is what was received, or a cell cleared before. */
  lemma MetIsReceived(b: Setting, was: seq<Cell>, wasPwr: seq<real>, j: nat)
    requires b.Valid() && |was| == |wasPwr| == b.w.n && 1 <= j <= Off(b.w.beg, b.w.end, b.w.n)
    ensures var received := wasPwr[At(b.w.beg, j, b.w.n)];
      Met(b, was, wasPwr, j) == received || Met(b, was, wasPwr, j) == 0.0
  {
    var s, q := Swept(b, Fresh(b.w, was, wasPwr), j - 1), At(b.w.beg, j, b.w.n);
    hide Off, At, IsSqrt, Swept, RunAt;
    SweptIsRun(b, was, wasPwr, j - 1);
    RunClears(b, was, wasPwr, s, At(b.w.beg, j - 1, b.w.n), q);
  }

  lemma {:induction false} NoPulseNoPower(b: Setting, s: Sweep, j: nat)
    requires b.Valid() && s.Valid(b.w.n) && j < b.w.n && !s.inPulse && s.pulMax == 0.0
    ensures !Swept(b, s, j).inPulse ==> Swept(b, s, j).pulMax == 0.0
  {
    if j > 0 {
      NoPulseNoPower(b, s, j - 1);
      hide Off, At, Extent, IsSqrt, SilencedFrom, ZeroFrom;
    }
  }

  lemma SweptOnce(b: Setting, s: Sweep, j: nat)
    requires b.Valid() && s.Valid(b.w.n) && 1 <= j < b.w.n
    ensures Swept(b, s, j) == Inspected(b, Swept(b, s, j - 1), At(b.w.beg, j, b.w.n))
  {
  }

  lemma BeforePulse(b: Setting, was: seq<Cell>, wasPwr: seq<real>, i: nat)
    requires b.Valid() && |was| == |wasPwr| == b.w.n && 1 <= i < b.w.n
    requires i > 1 ==> Met(b, was, wasPwr, i - 1) <= b.limit
    ensures var s := Swept(b, Fresh(b.w, was, wasPwr), i - 1); !s.inPulse && s.pulMax == 0.0
  {
    var s0 := Fresh(b.w, was, wasPwr);
    NoPulseNoPower(b, s0, i - 1);
    if i > 1 {
      SweptOnce(b, s0, i - 1);
      hide Off, At, IsSqrt, Swept;
    }
  }

  lemma LargestGrows(w: Window, wasPwr: seq<real>, i: nat, j: nat, top: real)
    requires w.Valid() && |wasPwr| == w.n && i < j < w.n && IsLargest(w, wasPwr, i, j, top)
    ensures var next := wasPwr[At(w.beg, j, w.n)];
      IsLargest(w, wasPwr, i, j + 1, if next > top then next else top)
  {
    hide At;
  }

  lemma MetLast(b: Setting, was: seq<Cell>, wasPwr: seq<real>, j: nat)
    requires b.Valid() && |was| == |wasPwr| == b.w.n && 2 <= j <= b.w.n
    ensures var s0, p := Fresh(b.w, was, wasPwr), At(b.w.beg, j - 1, b.w.n);
      && Met(b, was, wasPwr, j - 1) == Swept(b, s0, j - 2).pwr[p]
      && Swept(b, s0, j - 1) == Inspected(b, Swept(b, s0, j - 2), p)
  {
    hide Off, At, IsSqrt, Inspected;
  }

  lemma LargestOfOne(w: Window, wasPwr: seq<real>, i: nat)
    requires w.Valid() && |wasPwr| == w.n && i < w.n
    ensures IsLargest(w, wasPwr, i, i + 1, wasPwr[At(w.beg, i, w.n)])
  {
  }

  lemma PulseParts(b: Setting, was: seq<Cell>, wasPwr: seq<real>, i: nat, j: nat)
    requires b.Valid() && |was| == |wasPwr| == b.w.n && IsPulse(b, was, wasPwr, i, j)
    ensures 1 <= i < j <= Off(b.w.beg, b.w.end, b.w.n) + 1 <= b.w.n
    ensures Met(b, was, wasPwr, j - 1) > b.limit
    ensures i > 1 ==> Met(b, was, wasPwr, i - 1) <= b.limit
    ensures j > i + 1 ==> IsPulse(b, was, wasPwr, i, j - 1)
  {
    hide Off, At, IsSqrt, Swept, Met;
  }

  /** The run is in a pulse that began at the i-th cell, and holds its largest power so far. */
  ghost predicate HoldsPulse(w: Window, wasPwr: seq<real>, t: Sweep, i: nat, j: nat)
    requires w.Valid() && |wasPwr| == w.n && i < j <= w.n
  {
    t.inPulse && t.pk == At(w.beg, i, w.n) && IsLargest(w, wasPwr, i, j, t.pulMax)
  }

  lemma PulseBegins(b: Setting, wasPwr: seq<real>, s: Sweep, i: nat)
    requires b.Valid() && s.Valid(b.w.n) && |wasPwr| == b.w.n && i < b.w.n && !s.inPulse && s.pulMax == 0.0
    requires var p := At(b.w.beg, i, b.w.n); s.pwr[p] == wasPwr[p] > b.limit
    ensures HoldsPulse(b.w, wasPwr, Inspected(b, s, At(b.w.beg, i, b.w.n)), i, i + 1)
  {
    hide At, IsLargest, IsSqrt, Ended;
    LargestOfOne(b.w, wasPwr, i);
  }

  lemma PulseGoesOn(b: Setting, wasPwr: seq<real>, s: Sweep, i: nat, j: nat)
    requires b.Valid() && s.Valid(b.w.n) && |wasPwr| == b.w.n && i < j < b.w.n && HoldsPulse(b.w, wasPwr, s, i, j)
    requires var p := At(b.w.beg, j, b.w.n); s.pwr[p] == wasPwr[p] > b.limit
    ensures HoldsPulse(b.w, wasPwr, Inspected(b, s, At(b.w.beg, j, b.w.n)), i, j + 1)
  {
    hide At, IsLargest, IsSqrt, Ended;
    LargestGrows(b.w, wasPwr, i, j, s.pulMax);
  }

  /** While a pulse is under way the run holds its first cell and the largest power it had. */
  lemma {:induction false} PulseUnderWay(b: Setting, was: seq<Cell>, wasPwr: seq<real>, i: nat, j: nat)
    requires b.Valid() && |was| == |wasPwr| == b.w.n && IsPulse(b, was, wasPwr, i, j)
    ensures j <= b.w.n && i < j && HoldsPulse(b.w, wasPwr, Swept(b, Fresh(b.w, was, wasPwr), j - 1), i, j)
    decreases j
  {
    PulseParts(b, was, wasPwr, i, j);
    MetIsReceived(b, was, wasPwr, j - 1);
    hide Off, At, IsSqrt, Swept, Inspected, IsPulse, HoldsPulse, Met, Fresh;
    var s := Swept(b, Fresh(b.w, was, wasPwr), j - 2);
    MetLast(b, was, wasPwr, j);
    if j == i + 1 {
      BeforePulse(b, was, wasPwr, i);
      PulseBegins(b, wasPwr, s, i);
    } else {
      PulseUnderWay(b, was, wasPwr, i, j - 1);
      PulseGoesOn(b, wasPwr, s, i, j - 1);
    }
  }

  /** A pulse of more than four times the noise that the j-th cell ends is silent around, at the
      end of the run, as far as the largest power it had asks for. */
  lemma PulseIsSilencedAround(b: Setting, was: seq<Cell>, wasPwr: seq<real>, i: nat, j: nat, top: real, last: nat, q: nat)
    requires b.Valid() && |was| == |wasPwr| == b.w.n && j <= last < b.w.n && q < b.w.n
    requires IsPulse(b, was, wasPwr, i, j) && Met(b, was, wasPwr, j) <= b.limit
    requires IsLargest(b.w, wasPwr, i, j, top) && top / b.noise > 4.0
    requires var first, p := At(b.w.beg, i, b.w.n), At(b.w.beg, j, b.w.n);
      || 1 <= Off(q, first, b.w.n) <= Extent(b.clr1, top / b.noise, b.sqrt)
      || Off(p, q, b.w.n) < Extent(b.clr2, top / b.noise, b.sqrt)
    ensures IsSilent(Swept(b, Fresh(b.w, was, wasPwr), last), q)
  {
    var s0, p := Fresh(b.w, was, wasPwr), At(b.w.beg, j, b.w.n);
    var t := Swept(b, s0, j - 1);
    PulseUnderWay(b, was, wasPwr, i, j);
    assert t.pulMax == top;
    SweptOnce(b, s0, j);
    BeforeIsFrom(t.pk, q, Extent(b.clr1, top / b.noise, b.sqrt), b.w.n);
    hide Off, At, Extent, IsSqrt, Back, Swept, IsLargest, IsPulse;
    assert Swept(b, s0, j) == Ended(b, t, p);
    assert IsSilent(Swept(b, s0, j), q);
    SilentToTheEnd(b, s0, j, last, q);
  }

  /** A fainter one is followed by no further clearing. */
  lemma FaintPulseClearsNoMore(b: Setting, was: seq<Cell>, wasPwr: seq<real>, i: nat, j: nat, top: real)
    requires b.Valid() && |was| == |wasPwr| == b.w.n && j < b.w.n
    requires IsPulse(b, was, wasPwr, i, j) && Met(b, was, wasPwr, j) <= b.limit
    requires IsLargest(b.w, wasPwr, i, j, top) && top / b.noise <= 4.0
    ensures var t, t' := Swept(b, Fresh(b.w, was, wasPwr), j - 1), Swept(b, Fresh(b.w, was, wasPwr), j);
      t'.cells == t.cells && t'.pwr == t.pwr && t'.cleared == t.cleared
  {
    var s0 := Fresh(b.w, was, wasPwr);
    PulseUnderWay(b, was, wasPwr, i, j);
    assert Swept(b, s0, j - 1).pulMax == top;
    SweptOnce(b, s0, j);
    hide Off, At, Extent, IsSqrt, Back, Swept, IsLargest, IsPulse;
  }

  /** The i-th through the last cell before the j-th are received above the limit, their
      neighbours are not, and no loud cell before them is near enough to have them cleared. */
  ghost predicate IsIsolated(b: Setting, wasPwr: seq<real>, i: nat, j: nat)
    requires b.Valid() && |wasPwr| == b.w.n
  {
    && 1 <= i < j <= Off(b.w.beg, b.w.end, b.w.n) && j + b.clr1 <= b.w.n
    && (forall d :: i <= d < j ==> wasPwr[At(b.w.beg, d, b.w.n)] > b.limit)
    && wasPwr[At(b.w.beg, j, b.w.n)] <= b.limit
    && (i > 1 ==> wasPwr[At(b.w.beg, i - 1, b.w.n)] <= b.limit)
    && (forall d :: 1 <= d < i && wasPwr[At(b.w.beg, d, b.w.n)] > b.limit ==> i - d > b.clr2)
  }

  lemma {:induction false} SweptIgnoresEnd(b: Setting, w: Window, s: Sweep, j: nat)
    requires b.Valid() && s.Valid(b.w.n) && j < b.w.n && w.Valid() && w.n == b.w.n && w.beg == b.w.beg
    ensures Swept(b.(w := w), s, j) == Swept(b, s, j)
  {
    if j > 0 {
      SweptIgnoresEnd(b, w, s, j - 1);
      hide Off, At, Extent, IsSqrt, SilencedFrom, ZeroFrom;
    }
  }

  lemma OutOfReach(b: Setting, wasPwr: seq<real>, i: nat, j: nat, d: nat)
    requires b.Valid() && |wasPwr| == b.w.n && IsIsolated(b, wasPwr, i, j) && i <= d < j
    ensures var w := Window(b.w.n, b.w.beg, At(b.w.beg, i - 1, b.w.n));
      !NearLoud(w, wasPwr, b.limit, b.clr1, b.clr2, At(b.w.beg, d, b.w.n))
  {
    var n, w, q := b.w.n, Window(b.w.n, b.w.beg, At(b.w.beg, i - 1, b.w.n)), At(b.w.beg, d, b.w.n);
    forall h: nat | w.Has(h) && wasPwr[h] > b.limit
      ensures Off(q, h, n) > b.clr1 && Off(h, q, n) > b.clr2
    {
      var e := Off(b.w.beg, h, n);
      assert h == At(b.w.beg, e, n) && 1 <= e < i;
    }
  }

  lemma OutOfReachStays(w: Window, was: seq<Cell>, wasPwr: seq<real>, now: seq<Cell>, nowPwr: seq<real>,
                        limit: real, before: nat, after: nat, q: nat)
    requires w.Valid() && OnlyClearedNearLoud(w, was, wasPwr, now, nowPwr, limit, before, after) && q < w.n
    requires !NearLoud(w, wasPwr, limit, before, after, q)
    ensures Untouched(was, wasPwr, now, nowPwr, q)
  {
    hide NearLoud;
  }

  /** The d-th cell is as received when the first m cells are inspected. */
  ghost predicate IsReceived(b: Setting, was: seq<Cell>, wasPwr: seq<real>, m: nat, d: nat)
    requires b.Valid() && |was| == |wasPwr| == b.w.n && m < b.w.n && d < b.w.n
  {
    Swept(b, Fresh(b.w, was, wasPwr), m).pwr[At(b.w.beg, d, b.w.n)] == wasPwr[At(b.w.beg, d, b.w.n)]
  }

  lemma UntouchedAtStart(b: Setting, was: seq<Cell>, wasPwr: seq<real>, i: nat, j: nat, d: nat)
    requires b.Valid() && |was| == |wasPwr| == b.w.n && IsIsolated(b, wasPwr, i, j) && i <= d < j
    ensures d < b.w.n && IsReceived(b, was, wasPwr, i - 1, d)
  {
    var w := Window(b.w.n, b.w.beg, At(b.w.beg, i - 1, b.w.n));
    PlaceOf(w, i - 1);
    OutOfReach(b, wasPwr, i, j, d);
    hide Off, At, IsSqrt, Swept, IsIsolated, NearLoud, OnlyClearedNearLoud;
    SweptIgnoresEnd(b, w, Fresh(b.w, was, wasPwr), i - 1);
    SweptIsRun(b.(w := w), was, wasPwr, i - 1);
    var s := Swept(b, Fresh(b.w, was, wasPwr), i - 1);
    OutOfReachStays(w, was, wasPwr, s.cells, s.pwr, b.limit, b.clr1, b.clr2, At(b.w.beg, d, b.w.n));
  }

  lemma PlaceOf(w: Window, j: nat)
    requires w.beg < w.n && j < w.n && w.end == At(w.beg, j, w.n)
    ensures Off(w.beg, w.end, w.n) == j
  {
  }

  lemma LoudLeavesOthers(b: Setting, s: Sweep, p: nat, q: nat)
    requires b.Valid() && s.Valid(b.w.n) && p < b.w.n && q < b.w.n && p != q && s.pwr[p] > b.limit
    ensures Inspected(b, s, p).pwr[q] == s.pwr[q]
  {
  }

  lemma IsolatedParts(b: Setting, wasPwr: seq<real>, i: nat, j: nat, m: nat, d: nat)
    requires b.Valid() && |wasPwr| == b.w.n && IsIsolated(b, wasPwr, i, j) && i - 1 <= m < d < j
    ensures d < b.w.n && At(b.w.beg, m, b.w.n) != At(b.w.beg, d, b.w.n)
    ensures m >= i ==> wasPwr[At(b.w.beg, m, b.w.n)] > b.limit
  {
  }

  lemma ReceivedStep(b: Setting, was: seq<Cell>, wasPwr: seq<real>, m: nat, d: nat)
    requires b.Valid() && |was| == |wasPwr| == b.w.n && 1 <= m < b.w.n && d < b.w.n
    requires IsReceived(b, was, wasPwr, m - 1, m) && IsReceived(b, was, wasPwr, m - 1, d)
    requires At(b.w.beg, m, b.w.n) != At(b.w.beg, d, b.w.n) && wasPwr[At(b.w.beg, m, b.w.n)] > b.limit
    ensures IsReceived(b, was, wasPwr, m, d)
  {
    hide At, IsSqrt, Swept, Inspected;
    SweptOnce(b, Fresh(b.w, was, wasPwr), m);
    LoudLeavesOthers(b, Swept(b, Fresh(b.w, was, wasPwr), m - 1), At(b.w.beg, m, b.w.n), At(b.w.beg, d, b.w.n));
  }

  /** A cell of an isolated pulse is as received until the run comes to it. */
  lemma {:induction false} UntouchedBefore(b: Setting, was: seq<Cell>, wasPwr: seq<real>, i: nat, j: nat, m: nat, d: nat)
    requires b.Valid() && |was| == |wasPwr| == b.w.n && IsIsolated(b, wasPwr, i, j) && i - 1 <= m < d < j
    ensures d < b.w.n && IsReceived(b, was, wasPwr, m, d)
    decreases m
  {
    IsolatedParts(b, wasPwr, i, j, m, d);
    hide Off, At, IsSqrt, Swept, IsIsolated, Inspected, IsReceived;
    if m == i - 1 {
      UntouchedAtStart(b, was, wasPwr, i, j, d);
    } else {
      UntouchedBefore(b, was, wasPwr, i, j, m - 1, d);
      UntouchedBefore(b, was, wasPwr, i, j, m - 1, m);
      ReceivedStep(b, was, wasPwr, m, d);
    }
  }

  /** Such a pulse is met as it was received. */
  lemma IsolatedIsMet(b: Setting, was: seq<Cell>, wasPwr: seq<real>, i: nat, j: nat)
    requires b.Valid() && |was| == |wasPwr| == b.w.n && IsIsolated(b, wasPwr, i, j)
    ensures IsPulse(b, was, wasPwr, i, j) && Met(b, was, wasPwr, j) <= b.limit
  {
    MetIsReceived(b, was, wasPwr, j);
    if i > 1 {
      MetIsReceived(b, was, wasPwr, i - 1);
    }
    forall d | i <= d < j
      ensures Met(b, was, wasPwr, d) > b.limit
    {
      UntouchedBefore(b, was, wasPwr, i, j, d - 1, d);
    }
    hide Met, At;
  }

  /** From the powers received: an isolated pulse of more than four times the noise is silent
      around, before its first cell and from the cell after it on. */
  lemma IsolatedPulseIsSilenced(b: Setting, was: seq<Cell>, wasPwr: seq<real>, i: nat, j: nat, top: real, q: nat)
    requires b.Valid() && |was| == |wasPwr| == b.w.n && q < b.w.n
    requires IsIsolated(b, wasPwr, i, j) && IsLargest(b.w, wasPwr, i, j, top) && top / b.noise > 4.0
    requires var first, after := At(b.w.beg, i, b.w.n), At(b.w.beg, j, b.w.n);
      || 1 <= Off(q, first, b.w.n) <= Extent(b.clr1, top / b.noise, b.sqrt)
      || Off(after, q, b.w.n) < Extent(b.clr2, top / b.noise, b.sqrt)
    ensures IsSilent(Swept(b, Fresh(b.w, was, wasPwr), Off(b.w.beg, b.w.end, b.w.n)), q)
  {
    IsolatedIsMet(b, was, wasPwr, i, j);
    PulseIsSilencedAround(b, was, wasPwr, i, j, top, Off(b.w.beg, b.w.end, b.w.n), q);
  }

  /** The threshold blanker keeps within reach of the loud cells and leaves none of them. */
  method Run(w: Window, cells: array<Cell>, pwr: array<real>, limit: real, width: nat, noise: real, sqrt: real -> real)
    returns (clearedPoints: nat)
    requires w.Valid() && w.n == cells.Length == pwr.Length && width + 3 < w.n
    requires IsSqrt(sqrt) && limit >= 0.0 && noise > 0.0
    modifies cells, pwr
    ensures var b := Setting(w, limit, (width + 1) / 2, width + 1, noise, sqrt);
      var s := Swept(b, Sweep(old(cells[..]), old(pwr[..]), false, w.beg, 0.0, 0), Off(w.beg, w.end, w.n));
      cells[..] == s.cells && pwr[..] == s.pwr && clearedPoints == s.cleared
    ensures OnlyClearedNearLoud(w, old(cells[..]), old(pwr[..]), cells[..], pwr[..], limit, (width + 1) / 2, width + 1)
    ensures forall q :: 0 <= q < w.n && w.Has(q) ==> pwr[q] <= limit
    ensures clearedPoints == 0 ==> cells[..] == old(cells[..]) && pwr[..] == old(pwr[..])
  {
    hide IsSqrt, OnlyClearedNearLoud, Swept;
    ghost var was, wasPwr := cells[..], pwr[..];
    var b := Setting(w, limit, (width + 1) / 2, width + 1, noise, sqrt);
    clearedPoints := SweepWindow(b, cells, pwr);
    SweptIsRun(b, was, wasPwr, Off(w.beg, w.end, w.n));
    SweepPlace(w, Off(w.beg, w.end, w.n));
  }

  lemma WindowStep(w: Window, p: nat)
    requires w.Valid() && p < w.n && p != w.end && Off(w.beg, p, w.n) <= Off(w.beg, w.end, w.n)
    ensures w.Has(Next(p, w.n)) && Off(w.beg, Next(p, w.n), w.n) == Off(w.beg, p, w.n) + 1
    ensures forall q :: 0 <= q < w.n && Off(w.beg, q, w.n) == Off(w.beg, p, w.n) + 1 ==> q == Next(p, w.n)
    ensures Off(Next(p, w.n), Next(p, w.n), w.n) == 0
  {
  }

  /** What that means cell by cell: every loud cell of the window is cleared, strong
      signals are not touched, powers still match their samples, and all cells out of
      reach of a loud cell are as received. */
  lemma WhatRunLeaves(w: Window, was: seq<Cell>, wasPwr: seq<real>, now: seq<Cell>, nowPwr: seq<real>,
                      limit: real, before: nat, after: nat, q: nat)
    requires w.Valid() && limit >= 0.0 && q < w.n
    requires OnlyClearedNearLoud(w, was, wasPwr, now, nowPwr, limit, before, after)
    requires w.Has(q) ==> nowPwr[q] <= limit
    ensures w.Has(q) && wasPwr[q] > limit ==> Cleared(was, now, nowPwr, q)
    ensures now[q].strongX == was[q].strongX && now[q].strongY == was[q].strongY
    ensures wasPwr[q] == Power(was[q]) ==> nowPwr[q] == Power(now[q])
    ensures !NearLoud(w, wasPwr, limit, before, after, q) ==> now[q] == was[q] && nowPwr[q] == wasPwr[q]
  {
    assert Untouched(was, wasPwr, now, nowPwr, q) || Cleared(was, now, nowPwr, q);
  }
}
