/** The pulse search of first_noise_blanker (blank1.c:706-1048) on two-channel
    float data: find a power maximum in the window, fit and subtract a reference
    pulse, flag the neighbourhood, start again. */
module PulseSearch {
  import opened Rings
  import opened PolarisedPulses
  import opened RefPulses

  const NOT_FITTED := 65
  const FITTED := 66

  /** A fit size (BLANKER_CONTROL_INFO): the part of a pulse that lies outside
      `size` points, and the largest mean power accepted around the maximum. */
  datatype FitSize = FitSize(size: nat, rest: real, avgMax: real)

  /** What get_pulse_pol, transform_timf2_pol and the phase fit make of the data
      around a maximum: nothing, or a scaled pulse with a polarisation and an
      index into the table of reference pulses. */
  datatype Guess = NoPulse | Pulse(c: Complex, pol: Polarisation, j: int)

  /** A search on its way: the data, the flags, the pointer pf and the fits so far. */
  datatype Stage = Stage(cells: seq<Cell>, pwr: seq<real>, flags: seq<int>, pf: nat, done: bool, log: seq<Fit>)

  /** The outcome of a scan for a maximum; m > 0 when the window ended first. */
  datatype Scan = Scan(flags: seq<int>, pMax: nat, powerMax: real, m: int)

  /** One run of the blanker over the window beg..end of the ring. */
  class BlankerRun {
    const n: nat                                     // timf2pow_size
    const cells: array<Cell>                         // timf2_float
    const pwr: array<real>                           // timf2_pwr_float
    const flag: array<int>                           // blanker_flag
    const beg: nat                                   // blnk_pbeg
    const end: nat                                   // blnk_pend
    const width: nat                                 // blanker_pulsewidth
    const range: nat                                 // blnfit_range
    const limit: real                                // clever_bln_limit
    const sizLim: real                               // 0.001*timf2_noise_floor
    const bln: seq<FitSize>                          // bln[0..largest_blnfit]
    const refSize: nat                               // refpul_size
    const table: seq<real>                           // blanker_refpulse
    const pulIndex: seq<nat>                         // blanker_pulindex
    const estimate: (seq<Cell>, nat, nat) -> Guess

    constructor (cells: array<Cell>, pwr: array<real>, flag: array<int>, beg: nat, end: nat, width: nat, range: nat,
                 limit: real, sizLim: real, bln: seq<FitSize>, refSize: nat, table: seq<real>, pulIndex: seq<nat>,
                 estimate: (seq<Cell>, nat, nat) -> Guess)
      ensures this.n == cells.Length && this.cells == cells && this.pwr == pwr && this.flag == flag
      ensures this.beg == beg && this.end == end && this.width == width && this.range == range
      ensures this.limit == limit && this.sizLim == sizLim && this.bln == bln && this.refSize == refSize
      ensures this.table == table && this.pulIndex == pulIndex && this.estimate == estimate
    {
      this.n, this.cells, this.pwr, this.flag := cells.Length, cells, pwr, flag;
      this.beg, this.end, this.width, this.range := beg, end, width, range;
      this.limit, this.sizLim, this.bln, this.refSize := limit, sizLim, bln, refSize;
      this.table, this.pulIndex, this.estimate := table, pulIndex, estimate;
    }

    ghost predicate Valid() {
      && cells.Length == pwr.Length == flag.Length == n
      && beg < n && end < n
      && 4 * width + 8 <= n
      && 2 <= range
      && 0.0 <= limit
      && ValidTables()
    }

    ghost predicate ValidTables() {
      && 1 <= |bln|
      && (forall i :: 0 <= i < |bln| ==> ValidSize(bln[i]))
      && (forall i, j :: 0 <= i < j < |bln| ==> bln[i].size <= bln[j].size)
      && |pulIndex| == MAX_REFPULSES
      && (forall j :: 0 <= j < MAX_REFPULSES ==> pulIndex[j] < MAX_REFPULSES)
      && |table| >= 2 * MAX_REFPULSES * refSize + 2
    }

    ghost predicate ValidSize(s: FitSize) {
      2 <= s.size <= refSize && s.size % 2 == 0 && s.size + 1 < n
    }

    /** Number of steps from the start of the window. */
    function Pos(q: nat): nat
      requires Valid() && q < n
    {
      Off(beg, q, n)
    }

    ghost predicate InWindow(q: nat)
      requires Valid()
    {
      q < n && Pos(q) <= Pos(end)
    }

    // ------------------------------------------------------------- set_flag

    /** How many more cells below q have strictly falling power, before beg is met. */
    ghost function FallsBelow(p: seq<real>, q: nat): nat
      requires Valid() && |p| == n && q < n && q != beg
      decreases Off(beg, q, n)
    {
      var b := Prev(q, n);
      if b != beg && p[b] < p[q] then 1 + FallsBelow(p, b) else 0
    }

    /** The same above q, before end is met. */
    ghost function FallsAbove(p: seq<real>, q: nat): nat
      requires Valid() && |p| == n && q < n && q != end
      decreases Off(q, end, n)
    {
      var a := Next(q, n);
      if a != end && p[a] < p[q] then 1 + FallsAbove(p, a) else 0
    }

    /** How far the flag of a pulse at pMax reaches down: over the pulse width and
        then for as long as power falls, unless that is outside the window already. */
    ghost function ReachBelow(p: seq<real>, pMax: nat): nat
      requires Valid() && |p| == n && pMax < n
    {
      var q := Back(pMax, width, n);
      var b := Prev(q, n);
      if b == beg || Off(beg, b, n) - 1 > (n - 1) / 2 then width else width + FallsBelow(p, q)
    }

    ghost function ReachAbove(p: seq<real>, pMax: nat): nat
      requires Valid() && |p| == n && pMax < n
    {
      var q := At(pMax, width, n);
      var a := Next(q, n);
      if a == end || Off(a, end, n) - 1 > (n - 1) / 2 then width else width + FallsAbove(p, q)
    }

    ghost predicate Near(pMax: nat, below: nat, above: nat, q: nat)
      requires Valid() && pMax < n && q < n
    {
      Off(q, pMax, n) <= below || Off(pMax, q, n) <= above
    }

    /** The flags after set_flag. */
    ghost function Flagged(p: seq<real>, fl: seq<int>, value: int, pMax: nat): (r: seq<int>)
      requires Valid() && |p| == |fl| == n && pMax < n
      ensures |r| == n
    {
      seq(n, q requires 0 <= q < n =>
        if Near(pMax, ReachBelow(p, pMax), ReachAbove(p, pMax), q) then value else fl[q])
    }

    /** The same for any reach, as it is when part of the flags are set. */
    ghost predicate FlaggedTo(was: seq<int>, now: seq<int>, value: int, pMax: nat, below: nat, above: nat)
      requires Valid() && |was| == n && pMax < n
    {
      |now| == n && forall q :: 0 <= q < n ==> now[q] == if Near(pMax, below, above, q) then value else was[q]
    }

    lemma FlaggedIs(p: seq<real>, was: seq<int>, now: seq<int>, value: int, pMax: nat)
      requires Valid() && |p| == |was| == n && pMax < n
      requires FlaggedTo(was, now, value, pMax, ReachBelow(p, pMax), ReachAbove(p, pMax))
      ensures now == Flagged(p, was, value, pMax)
    {
      hide ReachBelow, ReachAbove, Near;
    }

    lemma FallsBelowIsShort(p: seq<real>, q: nat)
      requires Valid() && |p| == n && q < n && q != beg
      ensures FallsBelow(p, q) < Off(beg, q, n)
      decreases Off(beg, q, n)
    {
      if Prev(q, n) != beg {
        FallsBelowIsShort(p, Prev(q, n));
      }
    }

    lemma FallsAboveIsShort(p: seq<real>, q: nat)
      requires Valid() && |p| == n && q < n && q != end
      ensures FallsAbove(p, q) < Off(q, end, n)
      decreases Off(q, end, n)
    {
      if Next(q, n) != end {
        FallsAboveIsShort(p, Next(q, n));
      }
    }

    method SetFlag(value: int, pMax: nat)
      requires Valid() && pMax < n
      modifies flag
      ensures flag[..] == Flagged(pwr[..], old(flag[..]), value, pMax)
    {
      ghost var fl := flag[..];
      var pa, pb := FlagPulseWidth(value, pMax);
      FlagFallBelow(value, pMax, pb, fl, width);
      FlagFallAbove(value, pMax, pa, fl, ReachBelow(pwr[..], pMax));
      FlaggedIs(pwr[..], fl, flag[..], value, pMax);
    }

    method FlagPulseWidth(value: int, pMax: nat) returns (pa: nat, pb: nat)
      requires Valid() && pMax < n
      modifies flag
      ensures pa == At(pMax, width, n) && pb == Back(pMax, width, n)
      ensures FlaggedTo(old(flag[..]), flag[..], value, pMax, width, width)
    {
      hide Back, At, Next, Prev;
      ZeroAway(pMax, n);
      flag[pMax] := value;
      pa, pb := pMax, pMax;
      for i := 0 to width
        invariant pa == At(pMax, i, n) && pb == Back(pMax, i, n)
        invariant forall q :: 0 <= q < n ==> flag[q] == if Near(pMax, i, i, q) then value else old(flag[q])
      {
        StepAway(pMax, i, n);
        pb := Prev(pb, n);
        pa := Next(pa, n);
        flag[pa] := value;
        flag[pb] := value;
      }
    }

    method FlagFallBelow(value: int, pMax: nat, q: nat, ghost was: seq<int>, ghost above: nat)
      requires Valid() && |was| == n && pMax < n && q == Back(pMax, width, n)
      requires FlaggedTo(was, flag[..], value, pMax, width, above)
      modifies flag
      ensures FlaggedTo(was, flag[..], value, pMax, ReachBelow(pwr[..], pMax), above)
    {
      ghost var p := pwr[..];
      ghost var reach := ReachBelow(p, pMax);
      StartBelow(p, pMax, q);
      hide Back, Prev, Off, FallsBelow, ReachBelow, FlaggedTo, ValidTables, Near;
      var p0: nat, pb: nat := q, Prev(q, n);
      if pb != beg && Off(beg, pb, n) - 1 <= (n - 1) / 2 {
        ghost var k := 0;
        while pwr[pb] < pwr[p0] && pb != beg
          invariant BelowAt(p, pMax, p0, pb, k, reach)
          invariant FlaggedTo(was, flag[..], value, pMax, width + k, above)
          decreases Off(beg, p0, n)
        {
          StepBelow(p, pMax, p0, pb, k, reach, above, was, flag[..], value);
          flag[pb] := value;
          p0 := pb;
          pb := Prev(pb, n);
          k := k + 1;
        }
        StopBelow(p, pMax, p0, pb, k, reach);
      }
    }

    lemma StartBelow(p: seq<real>, pMax: nat, q: nat)
      requires Valid() && |p| == n && pMax < n && q == Back(pMax, width, n)
      ensures var b := Prev(q, n);
        if b == beg || Off(beg, b, n) - 1 > (n - 1) / 2 then ReachBelow(p, pMax) == width
        else BelowAt(p, pMax, q, b, 0, ReachBelow(p, pMax))
    {
      if q != beg {
        FallsBelowIsShort(p, q);
      }
    }

    /** p0 is the last cell flagged below the pulse, k cells beyond its width; the rest of the fall is ahead. */
    ghost predicate BelowAt(p: seq<real>, pMax: nat, p0: nat, pb: nat, k: nat, reach: nat)
      requires Valid() && |p| == n && pMax < n
    {
      && p0 < n && pb < n && p0 != beg && pb == Prev(p0, n)
      && width + k + Off(beg, p0, n) < n
      && p0 == Back(pMax, width + k, n)
      && width + k + FallsBelow(p, p0) == reach
    }

    lemma StepBelow(p: seq<real>, pMax: nat, p0: nat, pb: nat, k: nat, reach: nat, above: nat,
                    was: seq<int>, now: seq<int>, value: int)
      requires Valid() && |p| == n && pMax < n
      requires BelowAt(p, pMax, p0, pb, k, reach) && p[pb] < p[p0] && pb != beg
      requires |was| == n && FlaggedTo(was, now, value, pMax, width + k, above)
      ensures BelowAt(p, pMax, pb, Prev(pb, n), k + 1, reach)
      ensures Off(beg, pb, n) < Off(beg, p0, n)
      ensures FlaggedTo(was, now[pb := value], value, pMax, width + k + 1, above)
    {
      StepAway(pMax, width + k, n);
    }

    lemma StopBelow(p: seq<real>, pMax: nat, p0: nat, pb: nat, k: nat, reach: nat)
      requires Valid() && |p| == n && pMax < n
      requires BelowAt(p, pMax, p0, pb, k, reach) && !(p[pb] < p[p0] && pb != beg)
      ensures reach == width + k
    {
    }

    method FlagFallAbove(value: int, pMax: nat, q: nat, ghost was: seq<int>, ghost below: nat)
      requires Valid() && |was| == n && pMax < n && q == At(pMax, width, n)
      requires FlaggedTo(was, flag[..], value, pMax, below, width)
      modifies flag
      ensures FlaggedTo(was, flag[..], value, pMax, below, ReachAbove(pwr[..], pMax))
    {
      ghost var p := pwr[..];
      ghost var reach := ReachAbove(p, pMax);
      StartAbove(p, pMax, q);
      hide At, Next, Off, FallsAbove, ReachAbove, FlaggedTo, ValidTables, Near;
      var p0: nat, pa: nat := q, Next(q, n);
      if pa != end && Off(pa, end, n) - 1 <= (n - 1) / 2 {
        ghost var k := 0;
        while pwr[pa] < pwr[p0] && pa != end
          invariant AboveAt(p, pMax, p0, pa, k, reach)
          invariant FlaggedTo(was, flag[..], value, pMax, below, width + k)
          decreases Off(p0, end, n)
        {
          StepAbove(p, pMax, p0, pa, k, reach, below, was, flag[..], value);
          p0 := pa;
          flag[pa] := value;
          pa := Next(pa, n);
          k := k + 1;
        }
        StopAbove(p, pMax, p0, pa, k, reach);
      }
    }

    lemma StartAbove(p: seq<real>, pMax: nat, q: nat)
      requires Valid() && |p| == n && pMax < n && q == At(pMax, width, n)
      ensures var a := Next(q, n);
        if a == end || Off(a, end, n) - 1 > (n - 1) / 2 then ReachAbove(p, pMax) == width
        else AboveAt(p, pMax, q, a, 0, ReachAbove(p, pMax))
    {
      if q != end {
        FallsAboveIsShort(p, q);
      }
    }

    ghost predicate AboveAt(p: seq<real>, pMax: nat, p0: nat, pa: nat, k: nat, reach: nat)
      requires Valid() && |p| == n && pMax < n
    {
      && p0 < n && pa < n && p0 != end && pa == Next(p0, n)
      && width + k + Off(p0, end, n) < n
      && p0 == At(pMax, width + k, n)
      && width + k + FallsAbove(p, p0) == reach
    }

    lemma StepAbove(p: seq<real>, pMax: nat, p0: nat, pa: nat, k: nat, reach: nat, below: nat,
                    was: seq<int>, now: seq<int>, value: int)
      requires Valid() && |p| == n && pMax < n
      requires AboveAt(p, pMax, p0, pa, k, reach) && p[pa] < p[p0] && pa != end
      requires |was| == n && FlaggedTo(was, now, value, pMax, below, width + k)
      ensures AboveAt(p, pMax, pa, Next(pa, n), k + 1, reach)
      ensures Off(pa, end, n) < Off(p0, end, n)
      ensures FlaggedTo(was, now[pa := value], value, pMax, below, width + k + 1)
    {
      StepAway(pMax, width + k, n);
    }

    lemma StopAbove(p: seq<real>, pMax: nat, p0: nat, pa: nat, k: nat, reach: nat)
      requires Valid() && |p| == n && pMax < n
      requires AboveAt(p, pMax, p0, pa, k, reach) && !(p[pa] < p[p0] && pa != end)
      ensures reach == width + k
    {
    }

    lemma ZeroAway(p: nat, m: nat)
      requires p < m
      ensures At(p, 0, m) == p == Back(p, 0, m)
      ensures forall q :: 0 <= q < m && (Off(p, q, m) == 0 || Off(q, p, m) == 0) ==> q == p
    {
    }

    /** Power falls strictly over the k cells below q, and k is as large as it can be: the fall
        stops only at the start of the window or where power no longer falls. */
    ghost predicate IsFallBelow(p: seq<real>, q: nat, k: nat)
      requires Valid() && |p| == n && q < n
    {
      && k < Off(beg, q, n)
      && (forall c :: 0 <= c < n && 1 <= Off(c, q, n) <= k ==> c != beg && p[c] < p[Next(c, n)])
      && var last := Back(q, k, n);
         Prev(last, n) == beg || p[Prev(last, n)] >= p[last]
    }

    lemma {:induction false} FallIsMaximal(p: seq<real>, q: nat)
      requires Valid() && |p| == n && q < n && q != beg
      ensures IsFallBelow(p, q, FallsBelow(p, q))
      decreases Off(beg, q, n)
    {
      FallsBelowIsShort(p, q);
      var b := Prev(q, n);
      if b != beg && p[b] < p[q] {
        FallIsMaximal(p, b);
        assert Back(b, FallsBelow(p, b), n) == Back(q, FallsBelow(p, q), n);
        forall c | 0 <= c < n && 1 <= Off(c, q, n) <= FallsBelow(p, q)
          ensures c != beg && p[c] < p[Next(c, n)]
        {
          if c != b {
            assert Off(c, b, n) == Off(c, q, n) - 1;
          }
        }
      }
    }

    /** The same upwards. */
    ghost predicate IsFallAbove(p: seq<real>, q: nat, k: nat)
      requires Valid() && |p| == n && q < n
    {
      && k < Off(q, end, n)
      && (forall c :: 0 <= c < n && 1 <= Off(q, c, n) <= k ==> c != end && p[c] < p[Prev(c, n)])
      && var last := At(q, k, n);
         Next(last, n) == end || p[Next(last, n)] >= p[last]
    }

    lemma {:induction false} FallAboveIsMaximal(p: seq<real>, q: nat)
      requires Valid() && |p| == n && q < n && q != end
      ensures IsFallAbove(p, q, FallsAbove(p, q))
      decreases Off(q, end, n)
    {
      FallsAboveIsShort(p, q);
      var a := Next(q, n);
      if a != end && p[a] < p[q] {
        FallAboveIsMaximal(p, a);
        assert At(a, FallsAbove(p, a), n) == At(q, FallsAbove(p, q), n);
        forall c | 0 <= c < n && 1 <= Off(q, c, n) <= FallsAbove(p, q)
          ensures c != end && p[c] < p[Prev(c, n)]
        {
          if c != a {
            assert Off(a, c, n) == Off(q, c, n) - 1;
          }
        }
      }
    }

    /** The flag covers the pulse width, and below it exactly the strict fall; but nothing more
        where the pulse width reaches to the start of the window, or more than half the ring past it. */
    lemma ReachBelowIs(p: seq<real>, pMax: nat)
      requires Valid() && |p| == n && pMax < n
      ensures var q, k := Back(pMax, width, n), ReachBelow(p, pMax);
        && k >= width
        && if 1 < Pos(q) <= (n - 1) / 2 + 2 then IsFallBelow(p, q, k - width) else k == width
    {
      var q := Back(pMax, width, n);
      if 1 < Pos(q) <= (n - 1) / 2 + 2 {
        FallIsMaximal(p, q);
      }
      hide IsFallBelow, FallsBelow, ValidTables;
    }

    lemma ReachAboveIs(p: seq<real>, pMax: nat)
      requires Valid() && |p| == n && pMax < n
      ensures var q, k := At(pMax, width, n), ReachAbove(p, pMax);
        && k >= width
        && if 1 < Off(q, end, n) <= (n - 1) / 2 + 2 then IsFallAbove(p, q, k - width) else k == width
    {
      var q := At(pMax, width, n);
      if 1 < Off(q, end, n) <= (n - 1) / 2 + 2 {
        FallAboveIsMaximal(p, q);
      }
      hide IsFallAbove, FallsAbove, ValidTables;
    }

    static lemma BackFurther(p: nat, w: nat, k: nat, m: nat)
      requires p < m && w + k < m
      ensures Back(Back(p, w, m), k, m) == Back(p, w + k, m)
    {
    }

    static lemma AtFurther(p: nat, w: nat, k: nat, m: nat)
      requires p < m && w + k < m
      ensures At(At(p, w, m), k, m) == At(p, w + k, m)
    {
    }

    // ----------------------------------------------------- the four searches

    /** Where find_pulse comes to: the first loud unflagged cell from p on, or end. */
    ghost function QuietEnd(pw: seq<real>, fl: seq<int>, p: nat): (q: nat)
      requires Valid() && |pw| == |fl| == n && InWindow(p)
      ensures InWindow(q) && Pos(p) <= Pos(q)
      ensures q == end || (pw[q] > limit && fl[q] <= 64)
      ensures forall c :: 0 <= c < n && Pos(p) <= Pos(c) < Pos(q) ==> pw[c] <= limit || fl[c] > 64
      decreases Pos(end) - Pos(p)
    {
      if (pw[p] <= limit || fl[p] > 64) && p != end then QuietEnd(pw, fl, Next(p, n)) else p
    }

    /** find_pulse: step over quiet and flagged cells. */
    method SkipQuiet(pf: nat) returns (p: nat)
      requires Valid() && InWindow(pf)
      ensures p == QuietEnd(pwr[..], flag[..], pf)
    {
      ghost var pw, fl := pwr[..], flag[..];
      p := pf;
      while (pwr[p] <= limit || flag[p] > 64) && p != end
        invariant InWindow(p)
        invariant QuietEnd(pw, fl, p) == QuietEnd(pw, fl, pf)
        decreases Pos(end) - Pos(p)
      {
        p := Next(p, n);
      }
    }

    /** c is not flagged, and above the cell before it; the first cell is compared with `last`. */
    ghost predicate IsRise(pw: seq<real>, fl: seq<int>, first: nat, last: real, c: nat)
      requires Valid() && |pw| == |fl| == n && first < n && c < n
    {
      fl[c] <= 64 && pw[c] > if c == first then last else pw[Prev(c, n)]
    }

    lemma RisesFromNext(pw: seq<real>, fl: seq<int>, p: nat, last: real)
      requires Valid() && |pw| == |fl| == n && InWindow(p) && p != end
      ensures InWindow(Next(p, n)) && Pos(Next(p, n)) == Pos(p) + 1
      ensures IsRise(pw, fl, p, last, p) <==> fl[p] <= 64 && pw[p] > last
      ensures forall c :: 0 <= c < n && Pos(p) <= Pos(c) ==>
        c == p || (Pos(p) < Pos(c) && IsRise(pw, fl, p, last, c) == IsRise(pw, fl, Next(p, n), pw[p], c))
    {
    }

    /** Where no_pulse comes to: the first rise from p on, or end. */
    ghost function RiseEnd(pw: seq<real>, fl: seq<int>, p: nat, last: real): (q: nat)
      requires Valid() && |pw| == |fl| == n && InWindow(p)
      ensures InWindow(q) && Pos(p) <= Pos(q)
      ensures pw[p] <= last && p != end ==> Pos(p) < Pos(q)
      ensures q == end || IsRise(pw, fl, p, last, q)
      ensures forall c :: 0 <= c < n && Pos(p) <= Pos(c) < Pos(q) ==> !IsRise(pw, fl, p, last, c)
      decreases Pos(end) - Pos(p)
    {
      if (pw[p] <= last || fl[p] > 64) && p != end then
        var q := RiseEnd(pw, fl, Next(p, n), pw[p]);
        RisesFromNext(pw, fl, p, last);
        q
      else p
    }

    /** no_pulse: step on until power rises in an unflagged cell. */
    method SkipToRise(pf: nat, powerMax: real) returns (p: nat)
      requires Valid() && InWindow(pf)
      ensures p == RiseEnd(pwr[..], flag[..], pf, powerMax)
    {
      ghost var pw, fl := pwr[..], flag[..];
      p := pf;
      var last := powerMax;
      while (pwr[p] <= last || flag[p] > 64) && p != end
        invariant InWindow(p)
        invariant RiseEnd(pw, fl, p, last) == RiseEnd(pw, fl, pf, powerMax)
        decreases Pos(end) - Pos(p)
      {
        last := pwr[p];
        p := Next(p, n);
      }
    }

    // ------------------------------------------------------- scanning for a maximum

    /** The i-th cell of a scan that starts at pf. */
    lemma ScanCell(pf: nat, i: nat)
      requires Valid() && InWindow(pf) && Pos(pf) + i <= Pos(end)
      ensures InWindow(At(pf, i, n)) && Pos(At(pf, i, n)) == Pos(pf) + i
      ensures i == 0 ==> At(pf, i, n) == pf
      ensures i > 0 ==> At(pf, i, n) == Next(At(pf, i - 1, n), n)
      ensures forall q :: 0 <= q < n && Pos(q) == Pos(pf) + i ==> q == At(pf, i, n)
    {
    }

    lemma PosIsInjective(p: nat, q: nat)
      requires Valid() && p < n && q < n && Pos(p) == Pos(q)
      ensures p == q
    {
    }

    ghost predicate CanScan(pw: seq<real>, fl: seq<int>, pf: nat, i: nat)
      requires Valid()
    {
      |pw| == |fl| == n && InWindow(pf) && Pos(pf) + i <= Pos(end) + 1
    }

    /** The largest power among the first i cells, flagged ones left out, but 10 at least. */
    ghost function Peak(pw: seq<real>, fl: seq<int>, pf: nat, i: nat): (top: real)
      requires Valid() && CanScan(pw, fl, pf, i)
      ensures top >= 10.0
      decreases i, 0
    {
      if i == 0 then 10.0
      else if IsRecord(pw, fl, pf, i - 1) then pw[At(pf, i - 1, n)]
      else Peak(pw, fl, pf, i - 1)
    }

    /** Cell i is larger than all that the scan has met before. */
    ghost predicate IsRecord(pw: seq<real>, fl: seq<int>, pf: nat, i: nat)
      requires Valid() && CanScan(pw, fl, pf, i + 1)
      decreases i, 1
    {
      fl[At(pf, i, n)] < 64 && pw[At(pf, i, n)] > Peak(pw, fl, pf, i)
    }

    ghost function LastRecord(pw: seq<real>, fl: seq<int>, pf: nat, i: nat): (r: nat)
      requires Valid() && CanScan(pw, fl, pf, i)
      ensures r <= i && (i > 0 ==> r < i)
    {
      if i == 0 then 0 else if IsRecord(pw, fl, pf, i - 1) then i - 1 else LastRecord(pw, fl, pf, i - 1)
    }

    /** The scan has met the end of the window, or `range` cells since its last record.
        Before its first step it compares end with pf-1, not taken around the ring. */
    ghost predicate ScanStops(pw: seq<real>, fl: seq<int>, pf: nat, i: nat)
      requires Valid() && CanScan(pw, fl, pf, i)
    {
      || (if i == 0 then pf - 1 == end else At(pf, i - 1, n) == end)
      || i - LastRecord(pw, fl, pf, i) >= range
    }

    ghost function ScanLength(pw: seq<real>, fl: seq<int>, pf: nat, i: nat): (count: nat)
      requires Valid() && CanScan(pw, fl, pf, i)
      ensures i <= count && CanScan(pw, fl, pf, count) && ScanStops(pw, fl, pf, count)
      ensures i - LastRecord(pw, fl, pf, i) <= range ==> count - LastRecord(pw, fl, pf, count) <= range
      decreases Pos(end) + 1 - Pos(pf) - i
    {
      if ScanStops(pw, fl, pf, i) then i
      else
        ScanGoesOn(pw, fl, pf, i);
        ScanLength(pw, fl, pf, i + 1)
    }

    lemma ScanGoesOn(pw: seq<real>, fl: seq<int>, pf: nat, i: nat)
      requires Valid() && CanScan(pw, fl, pf, i) && !ScanStops(pw, fl, pf, i)
      ensures CanScan(pw, fl, pf, i + 1)
    {
      if i > 0 {
        ScanCell(pf, i - 1);
        if Pos(At(pf, i - 1, n)) == Pos(end) {
          PosIsInjective(At(pf, i - 1, n), end);
        }
      }
    }

    /** Flag bit 0 marks the records of a scan. */
    ghost function Marked(pw: seq<real>, fl: seq<int>, pf: nat, count: nat): (r: seq<int>)
      requires Valid() && CanScan(pw, fl, pf, count)
      ensures |r| == n
    {
      seq(n, q requires 0 <= q < n =>
        if Off(pf, q, n) < count && IsRecord(pw, fl, pf, Off(pf, q, n)) then 1 else fl[q])
    }

    lemma ScanStep(pw: seq<real>, fl: seq<int>, pf: nat, i: nat)
      requires Valid() && CanScan(pw, fl, pf, i) && !ScanStops(pw, fl, pf, i)
      ensures CanScan(pw, fl, pf, i + 1) && ScanLength(pw, fl, pf, i) == ScanLength(pw, fl, pf, i + 1) && i < n
      ensures var c, now := At(pf, i, n), Marked(pw, fl, pf, i);
        && c == (if i == 0 then pf else Next(At(pf, i - 1, n), n))
        && now[c] == fl[c]
        && Marked(pw, fl, pf, i + 1) == (if IsRecord(pw, fl, pf, i) then now[c := 1] else now)
        && Peak(pw, fl, pf, i + 1) == (if IsRecord(pw, fl, pf, i) then pw[c] else Peak(pw, fl, pf, i))
        && LastRecord(pw, fl, pf, i + 1) == (if IsRecord(pw, fl, pf, i) then i else LastRecord(pw, fl, pf, i))
        && (IsRecord(pw, fl, pf, i) <==> fl[c] < 64 && pw[c] > Peak(pw, fl, pf, i))
    {
      ScanGoesOn(pw, fl, pf, i);
      ScanCell(pf, i);
      var c, now := At(pf, i, n), Marked(pw, fl, pf, i);
      assert Off(pf, c, n) == i;
      hide Peak;
      assert Marked(pw, fl, pf, i + 1) == if IsRecord(pw, fl, pf, i) then now[c := 1] else now by {
        forall q | 0 <= q < n && Off(pf, q, n) == i
          ensures q == c
        {
        }
      }
    }

    lemma ScanStart(pw: seq<real>, fl: seq<int>, pf: nat)
      requires Valid() && |pw| == |fl| == n && InWindow(pf)
      ensures CanScan(pw, fl, pf, 0) && Marked(pw, fl, pf, 0) == fl
      ensures Peak(pw, fl, pf, 0) == 10.0 && LastRecord(pw, fl, pf, 0) == 0 && At(pf, 0, n) == pf
    {
    }

    lemma ScanAtEnd(pw: seq<real>, fl: seq<int>, pf: nat, i: nat)
      requires Valid() && CanScan(pw, fl, pf, i)
      ensures (i == 0 && pf - 1 != end) || i > 0 ==>
        (ScanStops(pw, fl, pf, i) <==> (i > 0 && At(pf, i - 1, n) == end) || i - LastRecord(pw, fl, pf, i) >= range)
      ensures i == 0 && pf - 1 == end ==> ScanStops(pw, fl, pf, i)
      ensures ScanStops(pw, fl, pf, i) ==> ScanLength(pw, fl, pf, i) == i
      ensures pf < n && i <= n
    {
    }

    /** Find the largest power that no larger power follows within `range` cells.
        With m == 0 the maximum is settled; otherwise the window ended first. */
    method ScanRange(pf: nat) returns (pMax: nat, powerMax: real, m: nat)
      requires Valid() && InWindow(pf)
      modifies flag
      ensures var count := ScanLength(pwr[..], old(flag[..]), pf, 0);
        && flag[..] == Marked(pwr[..], old(flag[..]), pf, count)
        && pMax == At(pf, LastRecord(pwr[..], old(flag[..]), pf, count), n)
        && powerMax == Peak(pwr[..], old(flag[..]), pf, count)
        && m == range - (count - LastRecord(pwr[..], old(flag[..]), pf, count))
    {
      hide ValidTables, Off, At, Marked, Peak, IsRecord, LastRecord, ScanStops, ScanLength, CanScan, InWindow;
      ghost var pw, fl, i: nat := pwr[..], flag[..], 0;
      var p0: int := pf - 1;
      pMax, powerMax, m := pf, 10.0, range;
      ScanStart(pw, fl, pf);
      ScanAtEnd(pw, fl, pf, 0);
      while p0 != end && m > 0
        invariant pf < n && i <= n && CanScan(pw, fl, pf, i)
        invariant ScanLength(pw, fl, pf, i) == ScanLength(pw, fl, pf, 0)
        invariant if i == 0 then p0 == pf - 1 else p0 == At(pf, i - 1, n)
        invariant flag[..] == Marked(pw, fl, pf, i)
        invariant pMax == At(pf, LastRecord(pw, fl, pf, i), n) && powerMax == Peak(pw, fl, pf, i)
        invariant m == range - (i - LastRecord(pw, fl, pf, i))
        decreases n + 1 - i
      {
        ScanAtEnd(pw, fl, pf, i);
        ScanStep(pw, fl, pf, i);
        p0 := if p0 + 1 == n then 0 else p0 + 1;
        if pwr[p0] > powerMax && flag[p0] < 64 {
          flag[p0] := 1;
          powerMax := pwr[p0];
          pMax := p0;
          m := range;
        }
        m := m - 1;
        i := i + 1;
      }
      ScanAtEnd(pw, fl, pf, i);
    }

    // What the callers of a scan rely on.

    lemma {:induction false} PeakIsLargest(pw: seq<real>, fl: seq<int>, pf: nat, i: nat, k: nat)
      requires Valid() && CanScan(pw, fl, pf, i) && k < i && fl[At(pf, k, n)] < 64
      ensures pw[At(pf, k, n)] <= Peak(pw, fl, pf, i)
    {
      if k < i - 1 {
        PeakIsLargest(pw, fl, pf, i - 1, k);
      }
    }

    /** A settled maximum is at least the largest unflagged power in `range` cells from it on. */
    lemma {:induction false} PeakIsAtRecord(pw: seq<real>, fl: seq<int>, pf: nat, i: nat)
      requires Valid() && CanScan(pw, fl, pf, i)
      ensures var r := LastRecord(pw, fl, pf, i);
        || (i > r && IsRecord(pw, fl, pf, r) && Peak(pw, fl, pf, i) == pw[At(pf, r, n)])
        || (r == 0 && Peak(pw, fl, pf, i) == 10.0)
    {
      if i > 0 {
        PeakIsAtRecord(pw, fl, pf, i - 1);
      }
    }

    lemma MaximumIsSettled(pw: seq<real>, fl: seq<int>, pf: nat)
      requires Valid() && |pw| == |fl| == n && InWindow(pf)
      requires var count := ScanLength(pw, fl, pf, 0); count - LastRecord(pw, fl, pf, count) == range
      ensures var count := ScanLength(pw, fl, pf, 0);
        var r := LastRecord(pw, fl, pf, count);
        && Pos(pf) + r + range <= Pos(end) + 1
        && forall k :: 0 <= k < r + range && fl[At(pf, k, n)] < 64 ==> pw[At(pf, k, n)] <= Peak(pw, fl, pf, count)
    {
      var count := ScanLength(pw, fl, pf, 0);
      forall k: nat | k < count && fl[At(pf, k, n)] < 64
        ensures pw[At(pf, k, n)] <= Peak(pw, fl, pf, count)
      {
        PeakIsLargest(pw, fl, pf, count, k);
      }
    }

    // ------------------------------------------------------------ fit sizes

    /** Power of the cells at distance lo..hi-1 on both sides of p. */
    ghost function Annulus(p: seq<real>, pMax: nat, lo: nat, hi: nat): real
      requires Valid() && |p| == n && pMax < n && hi < n
    {
      if hi <= lo then 0.0
      else Annulus(p, pMax, lo, hi - 1) + (p[At(pMax, hi - 1, n)] + p[Back(pMax, hi - 1, n)])
    }

    /** Where the annulus of fit size i begins: each size adds a new one. */
    ghost function Inner(i: nat): nat
      requires Valid() && i <= |bln|
    {
      if i == 0 then 1 else bln[i - 1].size / 2
    }

    static function Ratio(a: real, b: real): real
      requires b > 0.0
    {
      a / b
    }

    /** A pulse of this power leaves too little outside the size to care about. */
    predicate IsNegligible(power: real, rest: real) {
      power * rest < sizLim
    }

    ghost function MeanAround(p: seq<real>, pMax: nat, i: nat): real
      requires Valid() && |p| == n && pMax < n && p[pMax] > 0.0 && i < |bln|
    {
      ValidBln(i);
      Ratio(Annulus(p, pMax, Inner(i), bln[i].size / 2), p[pMax])
    }

    lemma ValidBln(i: nat)
      requires Valid() && i < |bln|
      ensures ValidSize(bln[i]) && 1 <= Inner(i) <= bln[i].size / 2
    {
      assert i > 0 ==> ValidSize(bln[i - 1]);
    }

    /** Sizes are tried while enough of the pulse lies outside the size before... */
    ghost predicate Tested(p: seq<real>, pMax: nat, count: nat)
      requires Valid() && |p| == n && pMax < n && count <= |bln|
    {
      && (forall i :: 0 <= i < count ==> !IsNegligible(p[pMax], bln[i].rest))
      && (count < |bln| ==> IsNegligible(p[pMax], bln[count].rest))
    }

    ghost function SizeCount(p: seq<real>, pMax: nat, i: nat): (count: nat)
      requires Valid() && |p| == n && pMax < n && i <= |bln|
      ensures i <= count <= |bln|
      decreases |bln| - i
    {
      if i < |bln| && !IsNegligible(p[pMax], bln[i].rest) then SizeCount(p, pMax, i + 1) else i
    }

    lemma {:induction false} TestedIsCount(p: seq<real>, pMax: nat, i: nat, count: nat)
      requires Valid() && |p| == n && pMax < n && i <= count <= |bln| && Tested(p, pMax, count)
      ensures SizeCount(p, pMax, i) == count
      decreases count - i
    {
      if i < count {
        TestedIsCount(p, pMax, i + 1, count);
      }
    }

    ghost predicate IsSmooth(p: seq<real>, pMax: nat, i: nat)
      requires Valid() && |p| == n && pMax < n && p[pMax] > 0.0 && i < |bln|
    {
      MeanAround(p, pMax, i) <= bln[i].avgMax
    }

    /** The largest of the first i sizes that is not too ugly, or -1. */
    ghost function BestSize(p: seq<real>, pMax: nat, i: nat): (b: int)
      requires Valid() && |p| == n && pMax < n && p[pMax] > 0.0 && i <= |bln|
      ensures -1 <= b < i
      ensures b >= 0 ==> IsSmooth(p, pMax, b)
      ensures forall x :: b < x < i ==> !IsSmooth(p, pMax, x)
    {
      if i == 0 then -1
      else if IsSmooth(p, pMax, i - 1) then i - 1
      else BestSize(p, pMax, i - 1)
    }

    /** The powers of a fit size are those of one stretch of cells on each side. */
    lemma {:induction false} AnnulusIsWindows(p: seq<real>, pMax: nat, lo: nat, hi: nat)
      requires Valid() && |p| == n && pMax < n && 1 <= lo <= hi < n
      ensures Annulus(p, pMax, lo, hi)
           == WindowSum(p, At(pMax, lo, n), hi - lo) + WindowSumBack(p, Back(pMax, lo, n), hi - lo)
    {
      hide At, Back, Off, ValidTables;
      if lo < hi {
        AnnulusIsWindows(p, pMax, lo, hi - 1);
        AtFurther(pMax, lo, hi - 1 - lo, n);
        BackFurther(pMax, lo, hi - 1 - lo, n);
      }
    }

    /** The same sum for cells that are walked downwards. */
    static ghost function WindowSumBack(p: seq<real>, last: nat, count: nat): real
      requires last < |p| && count <= |p|
    {
      if count == 0 then 0.0 else WindowSumBack(p, last, count - 1) + p[Back(last, count - 1, |p|)]
    }

    /** No size before the one where testing stops leaves less than sizLim outside; that one does. */
    lemma {:induction false} SizeCountIs(p: seq<real>, pMax: nat, i: nat)
      requires Valid() && |p| == n && pMax < n && i <= |bln|
      ensures var count := SizeCount(p, pMax, i);
        && (forall x :: i <= x < count ==> p[pMax] * bln[x].rest >= sizLim)
        && (count < |bln| ==> p[pMax] * bln[count].rest < sizLim)
      decreases |bln| - i
    {
      if i < |bln| && !IsNegligible(p[pMax], bln[i].rest) {
        SizeCountIs(p, pMax, i + 1);
      }
    }

    /** Around the maximum the cells of the size have at most avgMax times its power. */
    lemma SmoothIff(p: seq<real>, pMax: nat, i: nat)
      requires Valid() && |p| == n && pMax < n && p[pMax] > 0.0 && i < |bln|
      ensures 1 <= Inner(i) <= bln[i].size / 2 < n
      ensures var lo, hi := Inner(i), bln[i].size / 2;
        IsSmooth(p, pMax, i) <==>
          WindowSum(p, At(pMax, lo, n), hi - lo) + WindowSumBack(p, Back(pMax, lo, n), hi - lo) <= bln[i].avgMax * p[pMax]
    {
      ValidBln(i);
      hide ValidTables, At, Back, Off, Annulus, Ratio, Inner, WindowSum, WindowSumBack;
      AnnulusIsWindows(p, pMax, Inner(i), bln[i].size / 2);
      QuotientAtMost(Annulus(p, pMax, Inner(i), bln[i].size / 2), p[pMax], bln[i].avgMax, bln[i].avgMax * p[pMax]);
    }

    static lemma QuotientAtMost(a: real, b: real, c: real, product: real)
      requires b > 0.0 && product == c * b
      ensures Ratio(a, b) <= c <==> a <= product
    {
      var q := a / b;
      assert q * b == a;
      if q <= c {
        assert (c - q) * b >= 0.0;
      } else {
        assert (q - c) * b > 0.0;
      }
    }

    /** ...and the largest of them that is not too ugly is used, if any. */
    method ChooseSize(pMax: nat) returns (b: int)
      requires Valid() && pMax < n && pwr[pMax] > 0.0
      ensures b == BestSize(pwr[..], pMax, SizeCount(pwr[..], pMax, 0))
    {
      ghost var p := pwr[..];
      var avg := MeanPowers(pMax);
      TestedIsCount(p, pMax, 0, |avg|);
      hide MeanAround, ValidTables, SizeCount, Tested;
      b := |avg|;
      b := b - 1;
      while b >= 0 && avg[b] > bln[b].avgMax
        invariant -1 <= b < |avg|
        invariant BestSize(p, pMax, b + 1) == BestSize(p, pMax, |avg|)
      {
        b := b - 1;
      }
    }

    method MeanPowers(pMax: nat) returns (avg: seq<real>)
      requires Valid() && pMax < n && pwr[pMax] > 0.0
      ensures |avg| <= |bln| && Tested(pwr[..], pMax, |avg|)
      ensures forall i :: 0 <= i < |avg| ==> avg[i] == MeanAround(pwr[..], pMax, i)
    {
      ghost var p := pwr[..];
      avg := [];
      var pa, pb, k := Next(pMax, n), Prev(pMax, n), 2;
      FirstMeans(p, pMax);
      hide ValidTables, At, Back, Off, Next, Prev, Annulus, Ratio, IsNegligible, Inner, ValidSize;
      hide AreMeans, MeansAt, Tested, MeanAround;
      while |avg| < |bln| && !IsNegligible(pwr[pMax], bln[|avg|].rest)
        invariant |avg| <= |bln| && MeansAt(p, pMax, avg, pa, pb, k)
      {
        NextMeans(p, pMax, avg, pa, pb, k);
        var t1;
        t1, pa, pb, k := SumAnnulus(pMax, pa, pb, k, bln[|avg|].size);
        avg := avg + [Ratio(t1, pwr[pMax])];
      }
      MeansAreTested(p, pMax, avg, pa, pb, k);
    }

    /** The mean powers of the first sizes, none of them negligible. */
    ghost predicate AreMeans(p: seq<real>, pMax: nat, avg: seq<real>)
      requires Valid() && |p| == n && pMax < n && p[pMax] > 0.0
    {
      && |avg| <= |bln|
      && (forall i :: 0 <= i < |avg| ==> !IsNegligible(p[pMax], bln[i].rest))
      && (forall i :: 0 <= i < |avg| ==> avg[i] == MeanAround(p, pMax, i))
    }

    /** Where the next annulus begins. */
    ghost predicate MeansAt(p: seq<real>, pMax: nat, avg: seq<real>, pa: nat, pb: nat, k: nat)
      requires Valid() && |p| == n && pMax < n && p[pMax] > 0.0
    {
      && AreMeans(p, pMax, avg)
      && k == 2 * Inner(|avg|) && Inner(|avg|) < n
      && pa == At(pMax, Inner(|avg|), n) && pb == Back(pMax, Inner(|avg|), n)
    }

    lemma MeansAreTested(p: seq<real>, pMax: nat, avg: seq<real>, pa: nat, pb: nat, k: nat)
      requires Valid() && |p| == n && pMax < n && p[pMax] > 0.0 && MeansAt(p, pMax, avg, pa, pb, k)
      requires |avg| < |bln| ==> IsNegligible(p[pMax], bln[|avg|].rest)
      ensures |avg| <= |bln| && Tested(p, pMax, |avg|)
      ensures forall i :: 0 <= i < |avg| ==> avg[i] == MeanAround(p, pMax, i)
    {
      hide MeanAround, IsNegligible;
    }

    lemma FirstMeans(p: seq<real>, pMax: nat)
      requires Valid() && |p| == n && pMax < n && p[pMax] > 0.0
      ensures MeansAt(p, pMax, [], Next(pMax, n), Prev(pMax, n), 2)
    {
      StepAway(pMax, 0, n);
      ZeroAway(pMax, n);
    }

    /** The next annulus lies in the ring, and its mean power is the next one. */
    lemma NextMeans(p: seq<real>, pMax: nat, avg: seq<real>, pa: nat, pb: nat, k: nat)
      requires Valid() && |p| == n && pMax < n && p[pMax] > 0.0 && MeansAt(p, pMax, avg, pa, pb, k)
      requires |avg| < |bln| && !IsNegligible(p[pMax], bln[|avg|].rest)
      ensures var size := bln[|avg|].size;
        && 2 <= k <= size && k % 2 == 0 && size % 2 == 0 && size + 1 < n
        && pa == At(pMax, k / 2, n) && pb == Back(pMax, k / 2, n)
        && MeansAt(p, pMax, avg + [Ratio(Annulus(p, pMax, k / 2, size / 2), p[pMax])],
                   At(pMax, size / 2, n), Back(pMax, size / 2, n), size)
    {
      hide IsNegligible, Annulus, At, Back, Ratio;
      ValidBln(|avg|);
    }

    method SumAnnulus(pMax: nat, pa0: nat, pb0: nat, k0: nat, size: nat)
      returns (t1: real, pa: nat, pb: nat, k: nat)
      requires Valid() && pMax < n && 2 <= k0 <= size && k0 % 2 == 0 && size % 2 == 0 && size + 1 < n
      requires pa0 == At(pMax, k0 / 2, n) && pb0 == Back(pMax, k0 / 2, n)
      ensures t1 == Annulus(pwr[..], pMax, k0 / 2, size / 2)
      ensures k == size && pa == At(pMax, k / 2, n) && pb == Back(pMax, k / 2, n)
    {
      hide ValidTables, At, Back, Next, Prev, Off;
      ghost var p := pwr[..];
      t1, pa, pb, k := 0.0, pa0, pb0, k0;
      while k < size
        invariant k0 <= k <= size && k % 2 == 0
        invariant pa == At(pMax, k / 2, n) && pb == Back(pMax, k / 2, n)
        invariant t1 == Annulus(p, pMax, k0 / 2, k / 2)
      {
        StepAway(pMax, k / 2, n);
        t1 := t1 + (pwr[pa] + pwr[pb]);
        pa := Next(pa, n);
        pb := Prev(pb, n);
        k := k + 2;
        assert k / 2 - 1 == (k - 2) / 2;
      }
    }

    // ------------------------------------------------------------- one pulse

    lemma TableCovers(j: nat, size: nat)
      requires Valid() && j < MAX_REFPULSES && size <= refSize
      ensures 2 * pulIndex[j] * refSize + refSize - size + 2 * size + 1 < |table|
    {
      ScaleBound(pulIndex[j], refSize);
    }

    static lemma ScaleBound(k: nat, size: nat)
      requires k < MAX_REFPULSES
      ensures 2 * k * size <= 2 * (MAX_REFPULSES - 1) * size
    {
    }

    /** The fit for a maximum, if its data look like a pulse at all. */
    ghost function Candidate(cs: seq<Cell>, pMax: nat, size: nat): (found: seq<Fit>)
      requires Valid() && |cs| == n && pMax < n && ValidSize(FitSize(size, 0.0, 0.0))
      ensures |found| <= 1 && AllFit(found, table, n)
      ensures found != [] ==> found[0].pMax == pMax && found[0].size == size
    {
      match estimate(cs, pMax, size)
      case NoPulse => []
      case Pulse(c, pol, j0) =>
        var j := Clamped(j0);
        TableCovers(j, size);
        [Fit(pMax, size, pol, c, 2 * pulIndex[j] * refSize + refSize - size)]
    }

    /** A fit has the scale and the polarisation found in the data; its middle point, at the
        maximum, is the middle of the reference pulse whose position comes nearest, and all its
        points but the last lie inside that pulse. */
    lemma CandidateIs(cs: seq<Cell>, pMax: nat, size: nat)
      requires Valid() && |cs| == n && pMax < n && ValidSize(FitSize(size, 0.0, 0.0))
      ensures Candidate(cs, pMax, size) == [] <==> estimate(cs, pMax, size).NoPulse?
      ensures forall f :: f in Candidate(cs, pMax, size) ==>
        var guess := estimate(cs, pMax, size);
        var k := pulIndex[if guess.j < 0 then 0 else if guess.j > 255 then 255 else guess.j];
        && f.pMax == pMax && f.size == size && f.pol == guess.pol && f.c == guess.c
        && Off(First(f, n), pMax, n) == size / 2
        && f.at + 2 * (size / 2) == 2 * refSize * k + refSize
        && 2 * refSize * k <= f.at && f.at + 2 * size <= 2 * refSize * (k + 1)
    {
    }

    /** At most half the power is left in the window. */
    ghost predicate Stands(cs: seq<Cell>, pw: seq<real>, f: Fit)
      requires Fits(f, table, n) && |cs| == |pw| == n
    {
      2.0 * WindowSum(Powers(Subtracted(cs, table, f)), First(f, n), f.size + 1) <= WindowSum(pw, First(f, n), f.size + 1)
    }

    ghost function StandingFit(cs: seq<Cell>, pw: seq<real>, pMax: nat, size: nat): (found: seq<Fit>)
      requires Valid() && |cs| == |pw| == n && pMax < n && ValidSize(FitSize(size, 0.0, 0.0))
      ensures |found| <= 1 && AllFit(found, table, n)
      ensures found != [] ==> found[0].pMax == pMax
    {
      var c := Candidate(cs, pMax, size);
      if c != [] && Stands(cs, pw, c[0]) then c else []
    }

    /** The fit that a settled maximum ends up with, if any. */
    ghost function AcceptedFit(cs: seq<Cell>, pw: seq<real>, pMax: nat): (found: seq<Fit>)
      requires Valid() && |cs| == |pw| == n && pMax < n && pw[pMax] > 0.0
      ensures |found| <= 1 && AllFit(found, table, n)
      ensures found != [] ==> found[0].pMax == pMax
    {
      var b := BestSize(pw, pMax, SizeCount(pw, pMax, 0));
      if b < 0 then []
      else
        ValidBln(b);
        StandingFit(cs, pw, pMax, bln[b].size)
    }

    lemma OneOrNone(cs: seq<Cell>, found: seq<Fit>)
      requires |found| <= 1 && AllFit(found, table, |cs|)
      ensures SubtractAll(cs, table, found) == if found == [] then cs else Subtracted(cs, table, found[0])
    {
      if found != [] {
        SubtractOneMore(cs, table, [], found[0]);
        assert found == [] + [found[0]];
      }
    }

    /** Fit and subtract; a rejected fit leaves samples and powers as they were. */
    method TryFit(pMax: nat, size: nat) returns (ok: bool, ghost found: seq<Fit>)
      requires Valid() && pMax < n && ValidSize(FitSize(size, 0.0, 0.0))
      requires Coherent(cells[..], pwr[..])
      modifies cells, pwr
      ensures found == StandingFit(old(cells[..]), old(pwr[..]), pMax, size) && ok == (found != [])
      ensures cells[..] == SubtractAll(old(cells[..]), table, found) && pwr[..] == Powers(cells[..])
    {
      hide Power, Off, Back, At, Subtracted, WindowSum, SubtractAll;
      ghost var cs, pw := cells[..], pwr[..];
      found := StandingFit(cs, pw, pMax, size);
      OneOrNone(cs, found);
      var guess := estimate(cells[..], pMax, size);
      match guess
      case NoPulse =>
        ok := false;
        CoherentIsPowers(cs, pw);
      case Pulse(c, pol, j0) =>
        var j := Clamped(j0);
        TableCovers(j, size);
        var fit := Fit(pMax, size, pol, c, 2 * pulIndex[j] * refSize + refSize - size);
        assert Candidate(cs, pMax, size) == [fit];
        hide ValidTables;
        ok := SubtractTwoChannelPulse(cells, pwr, table, fit);
        CoherenceIsKept(cs, pw, cells[..], pwr[..], table, fit);
    }

    static lemma CoherentIsPowers(cs: seq<Cell>, pw: seq<real>)
      requires Coherent(cs, pw)
      ensures pw == Powers(cs)
    {
      hide Power;
    }

    // ------------------------------------------------------------ the search

    /** The cells of the window that the search may still touch. */
    ghost function Unflagged(flags: seq<int>): set<nat>
      requires Valid() && |flags| == n
    {
      set q: nat | q < n && InWindow(q) && flags[q] <= 64
    }

    /** Window flags hold only the values the run writes: 0, 1, 65 and 66. */
    ghost predicate FlagsOk(flags: seq<int>)
      requires Valid()
    {
      |flags| == n && forall q :: 0 <= q < n && InWindow(q) ==> flags[q] != 64
    }

    ghost predicate StillFlagged(before: seq<int>, after: seq<int>) {
      |before| == |after| && forall q :: 0 <= q < |before| && before[q] > 64 ==> after[q] > 64
    }

    /** A search between two visits of find_pulse. */
    ghost predicate Ready(s: Stage)
      requires Valid()
    {
      && |s.cells| == |s.pwr| == n && FlagsOk(s.flags) && InWindow(s.pf)
      && Coherent(s.cells, s.pwr)
    }

    /** What the scan from p on makes of the flags, and the maximum it finds. */
    ghost function ScanOf(pw: seq<real>, fl: seq<int>, p: nat): (sc: Scan)
      requires Valid() && |pw| == |fl| == n && InWindow(p)
      ensures |sc.flags| == n && sc.pMax < n
    {
      var count := ScanLength(pw, fl, p, 0);
      var r := LastRecord(pw, fl, p, count);
      Scan(Marked(pw, fl, p, count), At(p, r, n), Peak(pw, fl, p, count), range - (count - r))
    }

    lemma ScanIsLoud(pw: seq<real>, fl: seq<int>, p: nat)
      requires Valid() && |pw| == |fl| == n && InWindow(p) && p != end && pw[p] > limit && fl[p] < 64
      ensures var sc := ScanOf(pw, fl, p);
        && InWindow(sc.pMax) && Pos(p) <= Pos(sc.pMax) && pw[sc.pMax] > 0.0 && sc.flags[sc.pMax] < 64
        && sc.m >= 0 && (sc.m == 0 ==> Pos(sc.pMax) + range <= Pos(end) + 1)
        && (sc.m == 0 ==> pw[p] <= sc.powerMax && pw[sc.pMax] <= sc.powerMax)
    {
      var count := ScanLength(pw, fl, p, 0);
      var r := LastRecord(pw, fl, p, count);
      PeakIsAtRecord(pw, fl, p, count);
      ScanStart(pw, fl, p);
      ScanCell(p, 0);
      ScanCell(p, r);
      assert count - r <= range;
      if count - r == range {
        PeakIsLargest(pw, fl, p, count, 0);
      }
      if r == 0 && Peak(pw, fl, p, count) == 10.0 && count > 0 {
        PeakIsLargest(pw, fl, p, count, 0);
      }
    }

    /** From find_pulse to the next goto find_pulse or clever_x. */
    ghost function Round(s: Stage): (t: Stage)
      requires Valid() && Ready(s)
      ensures |t.cells| == |t.pwr| == |t.flags| == n && InWindow(t.pf)
    {
      var p := QuietEnd(s.pwr, s.flags, s.pf);
      if p == end then s.(pf := p, done := true)
      else
        var sc := ScanOf(s.pwr, s.flags, p);
        var t := s.(flags := sc.flags);
        ScanIsLoud(s.pwr, s.flags, p);
        if sc.m > 0 then t.(pf := p, done := true)
        else if sc.flags[Prev(sc.pMax, n)] >= 64 then
          var q := RiseEnd(s.pwr, sc.flags, sc.pMax, sc.powerMax);
          t.(pf := q, done := q == end)
        else if Next(sc.pMax, n) == end then t.(pf := p, done := true)
        else if sc.flags[Next(sc.pMax, n)] >= 64 then
          var q := RiseEnd(s.pwr, sc.flags, p, sc.powerMax);
          t.(pf := q, done := q == end)
        else
          Fitted(s.(flags := sc.flags, pf := p), sc.pMax)
    }

    /** The average-power test, the fit and the flag for a settled maximum. */
    ghost function Fitted(s: Stage, pMax: nat): (t: Stage)
      requires Valid() && |s.cells| == |s.pwr| == |s.flags| == n && pMax < n && s.pwr[pMax] > 0.0
      ensures |t.cells| == |t.pwr| == |t.flags| == n && t.pf == s.pf
    {
      var found := AcceptedFit(s.cells, s.pwr, pMax);
      var cs := SubtractAll(s.cells, table, found);
      Stage(cs, Powers(cs), Flagged(Powers(cs), s.flags, if found == [] then NOT_FITTED else FITTED, pMax),
            s.pf, s.done, s.log + found)
    }

    lemma NoFit(cs: seq<Cell>)
      ensures AllFit([], table, |cs|) && SubtractAll(cs, table, []) == cs
    {
    }

    /** The flag of a maximum tells whether it has been fitted. */
    lemma FittedFlags(s: Stage, pMax: nat)
      requires Valid() && |s.cells| == |s.pwr| == |s.flags| == n && pMax < n && s.pwr[pMax] > 0.0
      ensures var t := Fitted(s, pMax);
        && t.flags[pMax] == (if |t.log| > |s.log| then 66 else 65)
        && (|t.log| == |s.log| ==> t.cells == s.cells)
        && (|t.log| > |s.log| ==> |t.log| == |s.log| + 1 && t.log[|s.log|].pMax == pMax)
    {
      hide ReachBelow, ReachAbove, AcceptedFit, ValidTables;
      NoFit(s.cells);
    }

    lemma MarkingFlagsNothing(pw: seq<real>, fl: seq<int>, p: nat)
      requires Valid() && |pw| == n && FlagsOk(fl) && InWindow(p)
      ensures var after := ScanOf(pw, fl, p).flags;
        FlagsOk(after) && StillFlagged(fl, after) && Unflagged(after) == Unflagged(fl)
    {
    }

    lemma FlaggingShrinks(pw: seq<real>, fl: seq<int>, value: int, pMax: nat)
      requires Valid() && |pw| == n && FlagsOk(fl) && InWindow(pMax) && fl[pMax] < 64 && value > 64
      ensures var after := Flagged(pw, fl, value, pMax);
        && FlagsOk(after) && StillFlagged(fl, after) && Unflagged(after) < Unflagged(fl) && after[pMax] == value
    {
      hide ReachBelow, ReachAbove;
      assert pMax in Unflagged(fl) && pMax !in Unflagged(Flagged(pw, fl, value, pMax));
    }

    lemma PowersAreCoherent(cs: seq<Cell>)
      ensures Coherent(cs, Powers(cs))
    {
      hide Power;
    }

    /** A round that goes on has flagged a new cell of the window, or moved pf forward
        without taking any flag back. */
    lemma RoundProgress(s: Stage)
      requires Valid() && Ready(s)
      ensures var t := Round(s);
        && Ready(t) && StillFlagged(s.flags, t.flags)
        && (t.done || Unflagged(t.flags) < Unflagged(s.flags)
            || (Unflagged(t.flags) == Unflagged(s.flags) && Pos(s.pf) < Pos(t.pf)))
    {
      hide ValidTables, Off, At, Next, Prev, Peak, IsRecord, LastRecord, ScanLength;
      hide Marked, Coherent, Power, FlagsOk, Unflagged, StillFlagged, AcceptedFit, SubtractAll, Flagged;
      hide QuietEnd, RiseEnd, ScanOf;
      ReadyShape(s);
      var p := QuietEnd(s.pwr, s.flags, s.pf);
      SameFlags(s.flags);
      if p != end {
        MarkingFlagsNothing(s.pwr, s.flags, p);
        NotHalf(s.flags, p);
        ScanIsLoud(s.pwr, s.flags, p);
        var sc := ScanOf(s.pwr, s.flags, p);
        if sc.m == 0 {
          NotLast(sc.pMax);
          if sc.flags[Prev(sc.pMax, n)] >= 64 {
          } else if Next(sc.pMax, n) == end {
          } else if sc.flags[Next(sc.pMax, n)] >= 64 {
          } else {
            FittedProgress(s.(flags := sc.flags, pf := p), sc.pMax);
            FlaggedOn(s.flags, sc.flags, Round(s).flags);
          }
        }
      }
    }

    lemma FittedProgress(s: Stage, pMax: nat)
      requires Valid() && Ready(s) && InWindow(pMax) && s.pwr[pMax] > 0.0 && s.flags[pMax] < 64
      ensures var t := Fitted(s, pMax);
        && Ready(t) && StillFlagged(s.flags, t.flags) && Unflagged(t.flags) < Unflagged(s.flags)
        && t.flags[pMax] > 64
    {
      hide ValidTables, Off, Flagged, FlagsOk, Unflagged, StillFlagged, AcceptedFit, SubtractAll, Coherent, Powers;
      ReadyShape(s);
      var found := AcceptedFit(s.cells, s.pwr, pMax);
      var cs := SubtractAll(s.cells, table, found);
      PowersAreCoherent(cs);
      FlaggingShrinks(Powers(cs), s.flags, if found == [] then NOT_FITTED else FITTED, pMax);
    }

    lemma ReadyShape(s: Stage)
      requires Valid() && Ready(s)
      ensures |s.cells| == |s.pwr| == |s.flags| == n && InWindow(s.pf) && FlagsOk(s.flags) && Coherent(s.cells, s.pwr)
    {
    }

    lemma SameFlags(fl: seq<int>)
      ensures StillFlagged(fl, fl)
    {
    }

    lemma NotHalf(fl: seq<int>, p: nat)
      requires Valid() && FlagsOk(fl) && InWindow(p) && fl[p] <= 64
      ensures fl[p] < 64
    {
    }

    lemma NotLast(pMax: nat)
      requires Valid() && InWindow(pMax) && Pos(pMax) + range <= Pos(end) + 1
      ensures pMax != end
    {
    }

    lemma FlaggedOn(a: seq<int>, b: seq<int>, c: seq<int>)
      requires StillFlagged(a, b) && StillFlagged(b, c)
      ensures StillFlagged(a, c)
    {
    }

    /** p is the first cell from pf on, before end, that is loud and not flagged. */
    ghost predicate IsFirstLoud(pw: seq<real>, fl: seq<int>, pf: nat, p: nat)
      requires Valid() && |pw| == |fl| == n && pf < n
    {
      && InWindow(p) && Pos(pf) <= Pos(p) && p != end && pw[p] > limit && fl[p] <= 64
      && forall c :: 0 <= c < n && Pos(pf) <= Pos(c) < Pos(p) ==> pw[c] <= limit || fl[c] > 64
    }

    ghost predicate NoneIsLoud(pw: seq<real>, fl: seq<int>, pf: nat)
      requires Valid() && |pw| == |fl| == n && pf < n
    {
      forall c :: 0 <= c < n && Pos(pf) <= Pos(c) < Pos(end) ==> pw[c] <= limit || fl[c] > 64
    }

    ghost predicate IsFirstRise(pw: seq<real>, fl: seq<int>, first: nat, last: real, q: nat)
      requires Valid() && |pw| == |fl| == n && first < n
    {
      && InWindow(q) && Pos(first) <= Pos(q) && q != end && IsRise(pw, fl, first, last, q)
      && forall c :: 0 <= c < n && Pos(first) <= Pos(c) < Pos(q) ==> !IsRise(pw, fl, first, last, c)
    }

    ghost predicate NoneRises(pw: seq<real>, fl: seq<int>, first: nat, last: real)
      requires Valid() && |pw| == |fl| == n && first < n
    {
      forall c :: 0 <= c < n && Pos(first) <= Pos(c) < Pos(end) ==> !IsRise(pw, fl, first, last, c)
    }

    /** The scan has met the end of the window (or was there before its first step) fewer than
        `range` cells after its last record. */
    ghost predicate IsUnsettled(pw: seq<real>, fl: seq<int>, p: nat)
      requires Valid() && |pw| == |fl| == n && InWindow(p)
    {
      var count := ScanLength(pw, fl, p, 0);
      && count - LastRecord(pw, fl, p, count) < range
      && (if count == 0 then p - 1 == end else At(p, count - 1, n) == end)
    }

    ghost predicate HasFlagBefore(sc: Scan)
      requires Valid() && |sc.flags| == n && sc.pMax < n
    {
      sc.flags[Prev(sc.pMax, n)] >= 64
    }

    ghost predicate HasFlagAfter(sc: Scan)
      requires Valid() && |sc.flags| == n && sc.pMax < n
    {
      sc.flags[Next(sc.pMax, n)] >= 64
    }

    /** Where no_pulse begins: at the maximum, or at the start of the scan. */
    ghost function RiseStart(sc: Scan, p: nat): nat
      requires Valid() && |sc.flags| == n && sc.pMax < n
    {
      if HasFlagBefore(sc) then sc.pMax else p
    }

    /** With p the first loud cell, a round stops the search exactly if the scan is unsettled,
        the cell after the maximum is the end, or a neighbour is flagged and no power rises
        any more.  Otherwise a maximum with a flagged neighbour is left for the first rise, and
        any other is fitted. */
    ghost predicate IsRoundFrom(s: Stage, t: Stage, p: nat)
      requires Valid() && Ready(s) && InWindow(p)
    {
      var sc := ScanOf(s.pwr, s.flags, p);
      var marked := s.(flags := sc.flags);
      if IsUnsettled(s.pwr, s.flags, p) || (!HasFlagBefore(sc) && Next(sc.pMax, n) == end) then
        t == marked.(pf := p, done := true)
      else if HasFlagBefore(sc) || HasFlagAfter(sc) then
        && t == marked.(pf := t.pf, done := t.done)
        && if t.done then t.pf == end && NoneRises(s.pwr, sc.flags, RiseStart(sc, p), sc.powerMax)
           else IsFirstRise(s.pwr, sc.flags, RiseStart(sc, p), sc.powerMax, t.pf)
      else
        s.pwr[sc.pMax] > 0.0 && t == Fitted(marked.(pf := p), sc.pMax)
    }

    lemma RoundOutcome(s: Stage)
      requires Valid() && Ready(s) && !s.done
      ensures NoneIsLoud(s.pwr, s.flags, s.pf) || exists p :: IsFirstLoud(s.pwr, s.flags, s.pf, p)
      ensures NoneIsLoud(s.pwr, s.flags, s.pf) ==> Round(s) == s.(pf := end, done := true)
      ensures forall p :: IsFirstLoud(s.pwr, s.flags, s.pf, p) ==> IsRoundFrom(s, Round(s), p)
    {
      ReadyShape(s);
      var p := QuietEnd(s.pwr, s.flags, s.pf);
      FirstLoudIs(s.pwr, s.flags, s.pf);
      hide ValidTables, Off, At, Next, Prev, Coherent, Power, FlagsOk, QuietEnd, IsFirstLoud, NoneIsLoud, IsRoundFrom, Round;
      if p != end {
        RoundFrom(s, p);
      }
    }

    lemma FirstLoudIs(pw: seq<real>, fl: seq<int>, pf: nat)
      requires Valid() && |pw| == |fl| == n && InWindow(pf)
      ensures var p := QuietEnd(pw, fl, pf);
        && (p == end <==> NoneIsLoud(pw, fl, pf))
        && (p != end ==> IsFirstLoud(pw, fl, pf, p))
        && forall q :: IsFirstLoud(pw, fl, pf, q) ==> q == p
    {
    }

    lemma RoundFrom(s: Stage, p: nat)
      requires Valid() && Ready(s) && !s.done && InWindow(p) && p == QuietEnd(s.pwr, s.flags, s.pf) && p != end
      ensures IsRoundFrom(s, Round(s), p)
    {
      hide ValidTables, Off, At, Next, Prev, Peak, IsRecord, LastRecord, ScanLength, IsRise;
      hide Marked, Coherent, Power, FlagsOk, AcceptedFit, SubtractAll, Flagged, QuietEnd, RiseEnd, ScanOf, Fitted;
      ReadyShape(s);
      NotHalf(s.flags, p);
      ScanIsLoud(s.pwr, s.flags, p);
      UnsettledIs(s.pwr, s.flags, p);
      var sc := ScanOf(s.pwr, s.flags, p);
      RiseIs(s.pwr, sc.flags, sc.pMax, sc.powerMax);
      RiseIs(s.pwr, sc.flags, p, sc.powerMax);
      hide IsUnsettled, IsFirstRise, NoneRises;
    }

    lemma UnsettledIs(pw: seq<real>, fl: seq<int>, p: nat)
      requires Valid() && |pw| == |fl| == n && InWindow(p)
      ensures IsUnsettled(pw, fl, p) <==> ScanOf(pw, fl, p).m > 0
    {
    }

    lemma RiseIs(pw: seq<real>, fl: seq<int>, first: nat, last: real)
      requires Valid() && |pw| == |fl| == n && InWindow(first)
      ensures var q := RiseEnd(pw, fl, first, last);
        if q == end then NoneRises(pw, fl, first, last) else IsFirstRise(pw, fl, first, last, q)
    {
    }

    /** Nothing is left to do in the window: no unflagged cell is loud, or the first one that is
        leads to a maximum that can be neither settled nor passed. */
    ghost predicate NothingLeft(s: Stage)
      requires Valid() && Ready(s)
    {
      || NoneIsLoud(s.pwr, s.flags, s.pf)
      || exists p :: IsFirstLoud(s.pwr, s.flags, s.pf, p) && IsDeadEnd(s, p)
    }

    ghost predicate IsDeadEnd(s: Stage, p: nat)
      requires Valid() && Ready(s) && InWindow(p)
    {
      var sc := ScanOf(s.pwr, s.flags, p);
      || IsUnsettled(s.pwr, s.flags, p)
      || (!HasFlagBefore(sc) && Next(sc.pMax, n) == end)
      || ((HasFlagBefore(sc) || HasFlagAfter(sc)) && NoneRises(s.pwr, sc.flags, RiseStart(sc, p), sc.powerMax))
    }

    lemma FittedGoesOn(s: Stage, pMax: nat)
      requires Valid() && |s.cells| == |s.pwr| == |s.flags| == n && pMax < n
      ensures s.pwr[pMax] > 0.0 ==> Fitted(s, pMax).done == s.done
    {
    }

    lemma DeadEndIff(s: Stage, t: Stage, p: nat)
      requires Valid() && Ready(s) && !s.done && InWindow(p) && IsRoundFrom(s, t, p)
      ensures t.done <==> IsDeadEnd(s, p)
    {
      var sc := ScanOf(s.pwr, s.flags, p);
      ReadyShape(s);
      FittedGoesOn(s.(flags := sc.flags, pf := p), sc.pMax);
      hide Ready, ScanOf, Fitted, IsUnsettled, IsRise, RiseStart, HasFlagAfter, HasFlagBefore, ValidTables, Next, Prev, Off, At;
    }

    lemma FirstLoudIsOne(pw: seq<real>, fl: seq<int>, pf: nat, p: nat, q: nat)
      requires Valid() && |pw| == |fl| == n && pf < n && IsFirstLoud(pw, fl, pf, p)
      ensures InWindow(p) && !NoneIsLoud(pw, fl, pf)
      ensures IsFirstLoud(pw, fl, pf, q) ==> p == q
    {
      assert p != q && InWindow(q) ==> Pos(p) != Pos(q);
    }

    /** A round is the last one if and only if nothing is left. */
    lemma RoundStopsIff(s: Stage)
      requires Valid() && Ready(s) && !s.done
      ensures Round(s).done <==> NothingLeft(s)
    {
      ReadyShape(s);
      RoundOutcome(s);
      hide Ready, Round, IsFirstLoud, NoneIsLoud, IsRoundFrom, IsDeadEnd, InWindow, ValidTables, FlagsOk, Coherent;
      if p :| IsFirstLoud(s.pwr, s.flags, s.pf, p) {
        FirstLoudIsOne(s.pwr, s.flags, s.pf, p, p);
        DeadEndIff(s, Round(s), p);
        forall q | IsFirstLoud(s.pwr, s.flags, s.pf, q)
          ensures q == p
        {
          FirstLoudIsOne(s.pwr, s.flags, s.pf, p, q);
        }
      }
    }

    /** The whole search from a stage on: rounds until one says so. */
    ghost function SearchEnd(s: Stage): (t: Stage)
      requires Valid() && Ready(s)
      ensures |t.cells| == |t.pwr| == |t.flags| == n
      decreases !s.done, Unflagged(s.flags), Pos(end) - Pos(s.pf)
    {
      if s.done then s
      else
        RoundProgress(s);
        SearchEnd(Round(s))
    }

    method FindNext(pf: nat, ghost log: seq<Fit>) returns (done: bool, next: nat, hit: bool, ghost found: seq<Fit>)
      requires Valid() && Ready(Stage(cells[..], pwr[..], flag[..], pf, false, log))
      modifies cells, pwr, flag
      ensures Stage(cells[..], pwr[..], flag[..], next, done, log + found)
           == Round(Stage(old(cells[..]), old(pwr[..]), old(flag[..]), pf, false, log))
      ensures |found| == if hit then 1 else 0
    {
      hide ValidTables, Off, At, Peak, IsRecord, LastRecord, ScanLength;
      hide Marked, Power, QuietEnd, RiseEnd, Fitted, Coherent;
      ghost var s := Stage(cells[..], pwr[..], flag[..], pf, false, log);
      hit, found := false, [];
      assert log + [] == log;
      var p := SkipQuiet(pf);
      if p == end {
        return true, p, false, [];
      }
      NotHalf(s.flags, p);
      ScanIsLoud(s.pwr, s.flags, p);
      var pMax, powerMax, m := ScanRange(p);
      assert Scan(flag[..], pMax, powerMax, m) == ScanOf(s.pwr, s.flags, p);
      hide ScanOf;
      if m > 0 {
        return true, p, false, [];
      }
      if flag[Prev(pMax, n)] >= 64 {
        next := SkipToRise(pMax, powerMax);
        done := next == end;
        return;
      }
      if Next(pMax, n) == end {
        return true, p, false, [];
      }
      if flag[Next(pMax, n)] >= 64 {
        next := SkipToRise(p, powerMax);
        done := next == end;
        return;
      }
      done, next := false, p;
      hit, found := FitMaximum(pMax, s.(flags := flag[..], pf := p));
    }

    method FitMaximum(pMax: nat, ghost s: Stage) returns (ok: bool, ghost found: seq<Fit>)
      requires Valid() && pMax < n && pwr[pMax] > 0.0 && Coherent(cells[..], pwr[..])
      requires s.cells == cells[..] && s.pwr == pwr[..] && s.flags == flag[..]
      modifies cells, pwr, flag
      ensures Stage(cells[..], pwr[..], flag[..], s.pf, s.done, s.log + found) == Fitted(s, pMax)
      ensures |found| == if ok then 1 else 0
    {
      hide ValidTables, Power, SizeCount, BestSize, Flagged, SubtractAll, StandingFit;
      found := [];
      NoFit(s.cells);
      var b := ChooseSize(pMax);
      ok := false;
      if b >= 0 {
        ValidBln(b);
        ok, found := TryFit(pMax, bln[b].size);
      } else {
        CoherentIsPowers(s.cells, s.pwr);
      }
      SetFlag(if ok then FITTED else NOT_FITTED, pMax);
    }

    ghost function ClearedFlags(fl: seq<int>): (r: seq<int>)
      requires Valid() && |fl| == n
      ensures |r| == n
    {
      seq(n, q requires 0 <= q < n => if InWindow(q) then 0 else fl[q])
    }

    method ClearFlags()
      requires Valid()
      modifies flag
      ensures flag[..] == ClearedFlags(old(flag[..]))
    {
      var p0 := beg;
      flag[p0] := 0;
      while p0 != end
        invariant InWindow(p0)
        invariant forall q :: 0 <= q < n ==> flag[q] == if Pos(q) <= Pos(p0) then 0 else old(flag[q])
        decreases Pos(end) - Pos(p0)
      {
        p0 := Next(p0, n);
        flag[p0] := 0;
      }
    }

    /** Every fit has its own maximum, flagged in the window. */
    ghost predicate AreDistinctMaxima(log: seq<Fit>, flags: seq<int>)
      requires Valid() && |flags| == n
    {
      && (forall i :: 0 <= i < |log| ==> InWindow(log[i].pMax) && flags[log[i].pMax] > 64)
      && (forall i, j :: 0 <= i < j < |log| ==> log[i].pMax != log[j].pMax)
    }

    /** The samples are those received less exactly the logged pulses, each power cell is the
        power of its samples, and no two logged pulses share a maximum. */
    ghost predicate IsSound(received: seq<Cell>, s: Stage)
      requires Valid()
    {
      && Ready(s) && |received| == n && AllFit(s.log, table, n)
      && s.cells == SubtractAll(received, table, s.log)
      && AreDistinctMaxima(s.log, s.flags)
    }

    lemma StillDistinct(log: seq<Fit>, before: seq<int>, after: seq<int>)
      requires Valid() && |before| == |after| == n && StillFlagged(before, after) && AreDistinctMaxima(log, before)
      ensures AreDistinctMaxima(log, after)
    {
    }

    lemma OneMoreDistinct(log: seq<Fit>, found: seq<Fit>, before: seq<int>, after: seq<int>, pMax: nat)
      requires Valid() && |before| == |after| == n && AreDistinctMaxima(log, before) && StillFlagged(before, after)
      requires InWindow(pMax) && before[pMax] < 64 && after[pMax] > 64
      requires |found| <= 1 && (found != [] ==> found[0].pMax == pMax)
      ensures AreDistinctMaxima(log + found, after)
    {
    }

    lemma OneMoreFit(received: seq<Cell>, log: seq<Fit>, found: seq<Fit>)
      requires |found| <= 1 && AllFit(log, table, |received|) && AllFit(found, table, |received|)
      ensures AllFit(log + found, table, |received|)
      ensures SubtractAll(received, table, log + found) == SubtractAll(SubtractAll(received, table, log), table, found)
    {
      OneOrNone(SubtractAll(received, table, log), found);
      if found == [] {
        assert log + found == log;
      } else {
        SubtractOneMore(received, table, log, found[0]);
        assert found == [found[0]];
      }
    }

    /** Whatever the data and the outcomes of the fits, a round keeps the books. */
    lemma RoundIsSound(received: seq<Cell>, s: Stage)
      requires Valid() && IsSound(received, s)
      ensures IsSound(received, Round(s))
    {
      hide ValidTables, Off, At, Next, Prev, Peak, IsRecord, LastRecord, ScanLength, Marked;
      hide Coherent, Power, FlagsOk, Unflagged, StillFlagged, AcceptedFit, SubtractAll, Flagged, Fits;
      hide QuietEnd, RiseEnd, ScanOf, AreDistinctMaxima, AllFit;
      ReadyShape(s);
      RoundProgress(s);
      StillDistinct(s.log, s.flags, Round(s).flags);
      var p := QuietEnd(s.pwr, s.flags, s.pf);
      if p != end {
        MarkingFlagsNothing(s.pwr, s.flags, p);
        NotHalf(s.flags, p);
        ScanIsLoud(s.pwr, s.flags, p);
        var sc := ScanOf(s.pwr, s.flags, p);
        if sc.m == 0 {
          NotLast(sc.pMax);
          if sc.flags[Prev(sc.pMax, n)] >= 64 {
          } else if Next(sc.pMax, n) == end {
          } else if sc.flags[Next(sc.pMax, n)] >= 64 {
          } else {
            StillDistinct(s.log, s.flags, sc.flags);
            FittedIsSound(received, s.(flags := sc.flags, pf := p), sc.pMax);
          }
        }
      }
    }

    lemma FittedIsSound(received: seq<Cell>, s: Stage, pMax: nat)
      requires Valid() && IsSound(received, s) && InWindow(pMax) && s.pwr[pMax] > 0.0 && s.flags[pMax] < 64
      ensures IsSound(received, Fitted(s, pMax))
    {
      hide ValidTables, Off, Flagged, FlagsOk, Unflagged, StillFlagged, AcceptedFit;
      hide SubtractAll, Coherent, Powers, AreDistinctMaxima, AllFit, Fits;
      ReadyShape(s);
      FittedProgress(s, pMax);
      var found := AcceptedFit(s.cells, s.pwr, pMax);
      OneMoreDistinct(s.log, found, s.flags, Fitted(s, pMax).flags, pMax);
      OneMoreFit(received, s.log, found);
    }

    lemma {:induction false} SearchIsSound(received: seq<Cell>, s: Stage)
      requires Valid() && IsSound(received, s)
      ensures IsSound(received, SearchEnd(s)) && SearchEnd(s).done
      decreases !s.done, Unflagged(s.flags), Pos(end) - Pos(s.pf)
    {
      hide IsSound, Round, Unflagged, Off;
      if !s.done {
        SoundIsReady(received, s);
        RoundProgress(s);
        RoundIsSound(received, s);
        SearchIsSound(received, Round(s));
      }
    }

    lemma SoundIsReady(received: seq<Cell>, s: Stage)
      requires Valid() && IsSound(received, s)
      ensures Ready(s)
    {
    }

    /** So is the last round of a whole search: it is sound, and nothing is left to do. */
    lemma {:induction false} SearchStops(received: seq<Cell>, s: Stage) returns (last: Stage)
      requires Valid() && IsSound(received, s) && !s.done
      ensures IsSound(received, last) && !last.done && NothingLeft(last)
      ensures SearchEnd(s) == Round(last)
      decreases Unflagged(s.flags), Pos(end) - Pos(s.pf)
    {
      hide IsSound, Round, Unflagged, Off, NothingLeft, ValidTables;
      SoundIsReady(received, s);
      RoundProgress(s);
      RoundIsSound(received, s);
      RoundStopsIff(s);
      if Round(s).done {
        last := s;
      } else {
        last := SearchStops(received, Round(s));
      }
    }

    /** This is what a last round leaves, after which nothing was left to do. */
    ghost predicate IsFinished(received: seq<Cell>, cs: seq<Cell>, pw: seq<real>, fl: seq<int>, log: seq<Fit>)
      requires Valid()
    {
      exists last: Stage, pf: nat ::
        IsSound(received, last) && !last.done && NothingLeft(last) && Stage(cs, pw, fl, pf, true, log) == Round(last)
    }

    lemma SearchFinishes(received: seq<Cell>, s: Stage)
      requires Valid() && IsSound(received, s) && !s.done
      ensures Ready(s)
      ensures var t := SearchEnd(s); IsFinished(received, t.cells, t.pwr, t.flags, t.log)
    {
      hide IsSound, Round, NothingLeft, SearchEnd, Off;
      SoundIsReady(received, s);
      var last := SearchStops(received, s);
      SoundIsReady(received, last);
      RoundStopsIff(last);
      var t := Round(last);
      assert Stage(t.cells, t.pwr, t.flags, t.pf, true, t.log) == Round(last);
    }

    /** The stage in which a search begins. */
    ghost function Begun(cs: seq<Cell>, pw: seq<real>, fl: seq<int>): Stage
      requires Valid() && |fl| == n
    {
      Stage(cs, pw, ClearedFlags(fl), beg, false, [])
    }

    lemma BegunIsSound(cs: seq<Cell>, pw: seq<real>, fl: seq<int>)
      requires Valid() && |cs| == |pw| == |fl| == n && Coherent(cs, pw)
      ensures IsSound(cs, Begun(cs, pw, fl))
    {
      hide Coherent, Power;
    }

    /** The whole search.  It ends for any powers and any fit outcomes. */
    method Search() returns (fitted: nat, ghost log: seq<Fit>)
      requires Valid() && Coherent(cells[..], pwr[..])
      modifies cells, pwr, flag
      ensures var s := Begun(old(cells[..]), old(pwr[..]), old(flag[..]));
        && Ready(s)
        && var t := SearchEnd(s); cells[..] == t.cells && pwr[..] == t.pwr && flag[..] == t.flags && log == t.log
      ensures Coherent(cells[..], pwr[..])
      ensures fitted == |log| && AllFit(log, table, n)
      ensures cells[..] == SubtractAll(old(cells[..]), table, log)
      ensures AreDistinctMaxima(log, flag[..])
      ensures IsFinished(old(cells[..]), cells[..], pwr[..], flag[..], log)
    {
      hide Coherent, SubtractAll, Round, Unflagged, Off, ValidTables, AreDistinctMaxima, FlagsOk, IsFinished;
      ghost var s := Begun(cells[..], pwr[..], flag[..]);
      BegunIsSound(cells[..], pwr[..], flag[..]);
      SearchFinishes(cells[..], s);
      SearchIsSound(cells[..], s);
      ClearFlags();
      var pf, done := beg, false;
      fitted, log := 0, [];
      while !done
        invariant fitted == |log|
        invariant var t := Stage(cells[..], pwr[..], flag[..], pf, done, log);
          Ready(t) && SearchEnd(t) == SearchEnd(s)
        decreases !done, Unflagged(flag[..]), Pos(end) - Pos(pf)
      {
        RoundProgress(Stage(cells[..], pwr[..], flag[..], pf, done, log));
        ghost var found;
        var hit;
        done, pf, hit, found := FindNext(pf, log);
        log := log + found;
        if hit {
          fitted := fitted + 1;
        }
      }
    }
  }
}
