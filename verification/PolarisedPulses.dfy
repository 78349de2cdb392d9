/** Subtraction of a reference pulse from the two-channel weak-signal ring
    (blank1.c), with samples as real numbers. */
module PolarisedPulses {
  import opened Rings

  datatype Complex = Complex(re: real, im: real)

  /** The eight floats of one time point of timf2: the weak signal of the two
      antennas X and Y, which the blanker edits, and the strong signal. */
  datatype Cell = Cell(x: Complex, y: Complex, strongX: Complex, strongY: Complex)

  datatype Polarisation = Polarisation(c1: real, c2: real, c3: real) {
    ghost predicate IsUnit() {
      c1 * c1 + c2 * c2 + c3 * c3 == 1.0
    }
  }

  /** One fit: `size`+1 points around pMax lose c times the reference pulse that
      starts at index `at` of the pulse table, in polarisation `pol`. */
  datatype Fit = Fit(pMax: nat, size: nat, pol: Polarisation, c: Complex, at: nat)

  function Times(a: Complex, b: Complex): Complex {
    Complex(a.re * b.re - a.im * b.im, a.re * b.im + a.im * b.re)
  }

  function Minus(a: Complex, b: Complex): Complex {
    Complex(a.re - b.re, a.im - b.im)
  }

  function Norm2(a: Complex): real {
    a.re * a.re + a.im * a.im
  }

  function Power(cell: Cell): real {
    cell.x.re * cell.x.re + cell.x.im * cell.x.im + cell.y.re * cell.y.re + cell.y.im * cell.y.im
  }

  /** The component that holds all of a pulse polarised along `pol`. */
  function ComponentA(pol: Polarisation, cell: Cell): Complex {
    Complex(pol.c1 * cell.x.re + pol.c2 * cell.y.re - pol.c3 * cell.y.im,
            pol.c1 * cell.x.im + pol.c2 * cell.y.im + pol.c3 * cell.y.re)
  }

  /** The component orthogonal to it. */
  function ComponentB(pol: Polarisation, cell: Cell): Complex {
    Complex(pol.c1 * cell.y.re - pol.c2 * cell.x.re - pol.c3 * cell.x.im,
            pol.c1 * cell.y.im - pol.c2 * cell.x.im + pol.c3 * cell.x.re)
  }

  function Without(cell: Cell, pol: Polarisation, a: Complex): Cell {
    cell.(x := Complex(cell.x.re - pol.c1 * a.re, cell.x.im - pol.c1 * a.im),
          y := Complex(cell.y.re - (pol.c2 * a.re + pol.c3 * a.im),
                       cell.y.im - (pol.c2 * a.im - pol.c3 * a.re)))
  }

  function With(cell: Cell, pol: Polarisation, a: Complex): Cell {
    cell.(x := Complex(cell.x.re + pol.c1 * a.re, cell.x.im + pol.c1 * a.im),
          y := Complex(cell.y.re + (pol.c2 * a.re + pol.c3 * a.im),
                       cell.y.im + (pol.c2 * a.im - pol.c3 * a.re)))
  }

  // ---------------------------------------------------------------- algebra

  lemma ScalarSubtraction(c1: real, c2: real, c3: real, r: real, i: real,
                          xr: real, xi: real, yr: real, yi: real, xr': real, xi': real, yr': real, yi': real)
    requires c1 * c1 + c2 * c2 + c3 * c3 == 1.0
    requires xr' == xr - c1 * r && xi' == xi - c1 * i
    requires yr' == yr - (c2 * r + c3 * i) && yi' == yi - (c2 * i - c3 * r)
    ensures c1 * xr' + c2 * yr' - c3 * yi' == c1 * xr + c2 * yr - c3 * yi - r
    ensures c1 * xi' + c2 * yi' + c3 * yr' == c1 * xi + c2 * yi + c3 * yr - i
    ensures c1 * yr' - c2 * xr' - c3 * xi' == c1 * yr - c2 * xr - c3 * xi
    ensures c1 * yi' - c2 * xi' + c3 * xr' == c1 * yi - c2 * xi + c3 * xr
  {
  }

  /** Subtracting a pulse lowers A by exactly the pulse and leaves B alone. */
  lemma SubtractionIsPolarised(pol: Polarisation, cell: Cell, a: Complex)
    requires pol.IsUnit()
    ensures ComponentA(pol, Without(cell, pol, a)) == Minus(ComponentA(pol, cell), a)
    ensures ComponentB(pol, Without(cell, pol, a)) == ComponentB(pol, cell)
  {
    var d := Without(cell, pol, a);
    ScalarSubtraction(pol.c1, pol.c2, pol.c3, a.re, a.im, cell.x.re, cell.x.im, cell.y.re, cell.y.im,
                      d.x.re, d.x.im, d.y.re, d.y.im);
  }

  /** A and B together carry exactly the power of X and Y. */
  lemma PowerSplits(pol: Polarisation, cell: Cell)
    requires pol.IsUnit()
    ensures Power(cell) == Norm2(ComponentA(pol, cell)) + Norm2(ComponentB(pol, cell))
  {
  }

  /** So the power left in a cell is |A-a|^2 + |B|^2: no choice of pulse can take
      it below the power of the orthogonal component. */
  lemma PowerAfterSubtraction(pol: Polarisation, cell: Cell, a: Complex)
    requires pol.IsUnit()
    ensures Power(Without(cell, pol, a))
         == Norm2(Minus(ComponentA(pol, cell), a)) + Norm2(ComponentB(pol, cell))
    ensures Power(Without(cell, pol, a)) >= Norm2(ComponentB(pol, cell))
  {
    SubtractionIsPolarised(pol, cell, a);
    PowerSplits(pol, Without(cell, pol, a));
    var r := Minus(ComponentA(pol, cell), a);
    assert r.re * r.re >= 0.0 && r.im * r.im >= 0.0;
  }

  // ---------------------------------------------------------- one subtraction

  /** Point d of the pulse a fit removes; the table interleaves re and im. */
  function PulseAt(table: seq<real>, f: Fit, d: nat): Complex
    requires f.at + 2 * d + 1 < |table|
  {
    Times(f.c, Complex(table[f.at + 2 * d], table[f.at + 2 * d + 1]))
  }

  /** A fit that stays inside the pulse table and visits size+1 distinct cells of a ring of n. */
  ghost predicate Fits(f: Fit, table: seq<real>, n: nat) {
    && f.pMax < n
    && f.size % 2 == 0
    && f.size + 1 < n
    && f.at + 2 * f.size + 1 < |table|
  }

  /** The first cell a fit changes. */
  function First(f: Fit, n: nat): (q: nat)
    requires f.pMax < n && f.size + 1 < n
    ensures q < n
  {
    Back(f.pMax, f.size / 2, n)
  }

  /** The ring after a fit: every cell of the window loses its point of the pulse. */
  ghost function Subtracted(cells: seq<Cell>, table: seq<real>, f: Fit): (r: seq<Cell>)
    requires Fits(f, table, |cells|)
    ensures |r| == |cells|
  {
    seq(|cells|, q requires 0 <= q < |cells| =>
      var d := Off(First(f, |cells|), q, |cells|);
      if d <= f.size then Without(cells[q], f.pol, PulseAt(table, f, d)) else cells[q])
  }

  /** The sum of `count` consecutive ring values. */
  ghost function WindowSum(s: seq<real>, first: nat, count: nat): real
    requires first < |s| && count <= |s|
  {
    if count == 0 then 0.0 else WindowSum(s, first, count - 1) + s[At(first, count - 1, |s|)]
  }

  ghost function Powers(cells: seq<Cell>): (r: seq<real>)
    ensures |r| == |cells|
  {
    seq(|cells|, q requires 0 <= q < |cells| => Power(cells[q]))
  }

  /** Every power cell agrees with its samples. */
  ghost predicate Coherent(cells: seq<Cell>, pwr: seq<real>) {
    |cells| == |pwr| && forall q :: 0 <= q < |cells| ==> pwr[q] == Power(cells[q])
  }

  /** The subtraction loop; t3 and t4 collect the old and the new power of the window. */
  method RemovePulse(cells: array<Cell>, pwr: array<real>, table: seq<real>, f: Fit)
    returns (t3: real, t4: real)
    requires cells.Length == pwr.Length && Fits(f, table, cells.Length)
    modifies cells, pwr
    ensures cells[..] == Subtracted(old(cells[..]), table, f)
    ensures forall q :: 0 <= q < pwr.Length ==>
      pwr[q] == if Off(First(f, pwr.Length), q, pwr.Length) <= f.size then Power(cells[q]) else old(pwr[q])
    ensures t3 == WindowSum(old(pwr[..]), First(f, pwr.Length), f.size + 1)
    ensures t4 == WindowSum(Powers(cells[..]), First(f, pwr.Length), f.size + 1)
  {
    hide Power, Times, Without, Off, At, Next, Prev, Back, RemovedTo, WindowSum, Subtracted, Fits, First, Powers, PulseAt;
    var n := cells.Length;
    WindowOfFit(f, table, n);
    var p0 := Prev(Back(f.pMax, f.size / 2, n), n);
    var pb := At(f.pMax, f.size / 2, n);
    ghost var start, last := p0, f.size + 1;
    ghost var was, wasPwr, j := cells[..], pwr[..], 0;
    var k := f.at;
    t3, t4 := 0.0, 0.0;
    RemovalStarts(was, wasPwr, table, f);
    while p0 != pb
      invariant 0 <= j <= last && k == f.at + 2 * j
      invariant p0 == At(start, j, n)
      invariant RemovedTo(was, wasPwr, cells[..], pwr[..], table, f, j, t3, t4)
      decreases last - j
    {
      ghost var now, nowPwr := cells[..], pwr[..];
      p0 := Next(p0, n);
      RemovalStep(was, wasPwr, now, nowPwr, table, f, j, t3, t4, p0);
      t3 := t3 + pwr[p0];
      RemovePoint(cells, pwr, p0, f.pol, Times(f.c, Complex(table[k], table[k + 1])));
      t4 := t4 + pwr[p0];
      k := k + 2;
      j := j + 1;
    }
    NotBefore(start, j, last, n);
    RemovalEnds(was, wasPwr, cells[..], pwr[..], table, f, t3, t4);
  }

  /** The window of a fit, walked from the cell before it through pb. */
  lemma WindowOfFit(f: Fit, table: seq<real>, n: nat)
    requires Fits(f, table, n)
    ensures f.size + 1 < n && f.pMax < n && f.size / 2 <= n
    ensures var start := Prev(Back(f.pMax, f.size / 2, n), n);
      && start == Prev(First(f, n), n) && At(start, 0, n) == start
      && At(f.pMax, f.size / 2, n) == At(start, f.size + 1, n)
  {
    WindowEnds(f.pMax, f.size / 2, n);
  }

  lemma NotBefore(start: nat, j: nat, last: nat, n: nat)
    requires start < n && j <= last < n
    ensures At(start, j, n) == At(start, last, n) ==> j == last
  {
  }

  method RemovePoint(cells: array<Cell>, pwr: array<real>, p: nat, pol: Polarisation, a: Complex)
    requires p < cells.Length == pwr.Length
    modifies cells, pwr
    ensures cells[..] == old(cells[..])[p := Without(old(cells[..])[p], pol, a)]
    ensures pwr[..] == old(pwr[..])[p := Power(Without(old(cells[..])[p], pol, a))]
  {
    hide Power, Without;
    cells[p] := Without(cells[p], pol, a);
    pwr[p] := Power(cells[p]);
  }

  /** The first j points of the window have lost their part of the pulse. */
  ghost predicate RemovedTo(was: seq<Cell>, wasPwr: seq<real>, now: seq<Cell>, nowPwr: seq<real>, table: seq<real>, f: Fit,
                            j: nat, t3: real, t4: real)
    requires Fits(f, table, |was|) && |was| == |wasPwr|
  {
    var n, first, goal := |was|, First(f, |was|), Subtracted(was, table, f);
    && j <= f.size + 1 && |now| == |nowPwr| == n
    && (forall q :: 0 <= q < n ==> now[q] == if Off(first, q, n) < j then goal[q] else was[q])
    && (forall q :: 0 <= q < n ==> nowPwr[q] == if Off(first, q, n) < j then Power(goal[q]) else wasPwr[q])
    && t3 == WindowSum(wasPwr, first, j)
    && t4 == WindowSum(Powers(goal), first, j)
  }

  lemma RemovalStarts(was: seq<Cell>, wasPwr: seq<real>, table: seq<real>, f: Fit)
    requires Fits(f, table, |was|) && |was| == |wasPwr|
    ensures RemovedTo(was, wasPwr, was, wasPwr, table, f, 0, 0.0, 0.0)
  {
  }

  lemma RemovalStep(was: seq<Cell>, wasPwr: seq<real>, now: seq<Cell>, nowPwr: seq<real>, table: seq<real>, f: Fit,
                    j: nat, t3: real, t4: real, p: nat)
    requires Fits(f, table, |was|) && |was| == |wasPwr| && j <= f.size
    requires RemovedTo(was, wasPwr, now, nowPwr, table, f, j, t3, t4)
    requires p == Next(At(Prev(First(f, |was|), |was|), j, |was|), |was|)
    ensures p < |was| && |now| == |nowPwr| == |was| && f.at + 2 * j + 1 < |table|
    ensures p == At(Prev(First(f, |was|), |was|), j + 1, |was|)
    ensures var a := Times(f.c, Complex(table[f.at + 2 * j], table[f.at + 2 * j + 1]));
      var cell := Without(now[p], f.pol, a);
      RemovedTo(was, wasPwr, now[p := cell], nowPwr[p := Power(cell)], table, f, j + 1, t3 + nowPwr[p], t4 + Power(cell))
  {
    var n, first, goal := |was|, First(f, |was|), Subtracted(was, table, f);
    WalkStep(first, j, n);
    assert Off(first, p, n) == j;
    hide Power, Times, Without, Off, At;
    assert now[p] == was[p] && nowPwr[p] == wasPwr[p];
    assert goal[p] == Without(was[p], f.pol, PulseAt(table, f, j));
    assert Powers(goal)[p] == Power(goal[p]);
  }

  lemma RemovalEnds(was: seq<Cell>, wasPwr: seq<real>, now: seq<Cell>, nowPwr: seq<real>, table: seq<real>, f: Fit,
                    t3: real, t4: real)
    requires Fits(f, table, |was|) && |was| == |wasPwr|
    requires RemovedTo(was, wasPwr, now, nowPwr, table, f, f.size + 1, t3, t4)
    ensures now == Subtracted(was, table, f) && |nowPwr| == |was|
    ensures forall q :: 0 <= q < |was| ==>
      nowPwr[q] == if Off(First(f, |was|), q, |was|) <= f.size then Power(now[q]) else wasPwr[q]
    ensures t3 == WindowSum(wasPwr, First(f, |was|), f.size + 1)
    ensures t4 == WindowSum(Powers(now), First(f, |was|), f.size + 1)
  {
    hide Power, Times, Without, Off, At, WindowSum, PulseAt;
    assert now == Subtracted(was, table, f);
  }

  /** The restoring loop. */
  method RestorePulse(cells: array<Cell>, pwr: array<real>, table: seq<real>, f: Fit, ghost was: seq<Cell>)
    requires cells.Length == pwr.Length == |was| && Fits(f, table, cells.Length)
    requires cells[..] == Subtracted(was, table, f)
    modifies cells, pwr
    ensures cells[..] == was
    ensures forall q :: 0 <= q < pwr.Length ==>
      pwr[q] == if Off(First(f, pwr.Length), q, pwr.Length) <= f.size then Power(cells[q]) else old(pwr[q])
  {
    hide Power, Times, Without, With, Off, At, Next, Prev, Back;
    var n := cells.Length;
    var p0 := Prev(Back(f.pMax, f.size / 2, n), n);
    var pb := At(f.pMax, f.size / 2, n);
    ghost var first := First(f, n);
    ghost var less := cells[..];
    ghost var j := 0;
    var k := f.at;
    WindowEnds(f.pMax, f.size / 2, n);
    while p0 != pb
      invariant 0 <= j <= f.size + 1 && k == f.at + 2 * j
      invariant p0 == At(Prev(first, n), j, n)
      invariant forall q :: 0 <= q < n ==> cells[q] == if Off(first, q, n) < j then was[q] else less[q]
      invariant forall q :: 0 <= q < n ==> pwr[q] == if Off(first, q, n) < j then Power(was[q]) else old(pwr[q])
      decreases f.size + 1 - j
    {
      WalkStep(first, j, n);
      p0 := Next(p0, n);
      var a := Times(f.c, Complex(table[k], table[k + 1]));
      WithoutThenWith(was[p0], f.pol, a);
      cells[p0] := With(cells[p0], f.pol, a);
      pwr[p0] := Power(cells[p0]);
      k := k + 2;
      j := j + 1;
    }
    assert cells[..] == was;
  }

  lemma WithoutThenWith(cell: Cell, pol: Polarisation, a: Complex)
    ensures With(Without(cell, pol, a), pol, a) == cell
  {
  }

  /** subtract_twochan_pulse on float data, from the point where the pulse is known.
      The fit stands when at most half the power is left in the window; otherwise
      every sample of the ring is what it was before. */
  method SubtractTwoChannelPulse(cells: array<Cell>, pwr: array<real>, table: seq<real>, f: Fit)
    returns (ok: bool)
    requires cells.Length == pwr.Length && Fits(f, table, cells.Length)
    modifies cells, pwr
    ensures ok <==> 2.0 * WindowSum(Powers(Subtracted(old(cells[..]), table, f)), First(f, pwr.Length), f.size + 1)
                    <= WindowSum(old(pwr[..]), First(f, pwr.Length), f.size + 1)
    ensures ok ==> cells[..] == Subtracted(old(cells[..]), table, f)
    ensures !ok ==> cells[..] == old(cells[..])
    ensures forall q :: 0 <= q < pwr.Length ==>
      pwr[q] == if Off(First(f, pwr.Length), q, pwr.Length) <= f.size then Power(cells[q]) else old(pwr[q])
  {
    ghost var was := cells[..];
    var t3, t4 := RemovePulse(cells, pwr, table, f);
    ok := t4 <= 0.5 * t3;
    if !ok {
      RestorePulse(cells, pwr, table, f, was);
    }
  }

  /** Coherence survives a fit that stands, and a restored one leaves no trace. */
  lemma CoherenceIsKept(was: seq<Cell>, wasPwr: seq<real>, now: seq<Cell>, nowPwr: seq<real>, table: seq<real>, f: Fit)
    requires Coherent(was, wasPwr) && |now| == |nowPwr| == |was| && Fits(f, table, |was|)
    requires now == Subtracted(was, table, f) || now == was
    requires forall q :: 0 <= q < |was| ==>
      nowPwr[q] == if Off(First(f, |was|), q, |was|) <= f.size then Power(now[q]) else wasPwr[q]
    ensures Coherent(now, nowPwr) && Powers(now) == nowPwr
    ensures now == was ==> nowPwr == wasPwr
  {
    hide Power, Off, First, Without, PulseAt;
  }

  // ------------------------------------------------------- superposed fits

  ghost predicate AllFit(log: seq<Fit>, table: seq<real>, n: nat) {
    forall i :: 0 <= i < |log| ==> Fits(log[i], table, n)
  }

  /** The ring after all fits of a log, oldest first. */
  ghost function SubtractAll(cells: seq<Cell>, table: seq<real>, log: seq<Fit>): (r: seq<Cell>)
    requires AllFit(log, table, |cells|)
    ensures |r| == |cells|
  {
    if log == [] then cells
    else Subtracted(SubtractAll(cells, table, log[..|log| - 1]), table, log[|log| - 1])
  }

  lemma SubtractOneMore(cells: seq<Cell>, table: seq<real>, log: seq<Fit>, f: Fit)
    requires AllFit(log, table, |cells|) && Fits(f, table, |cells|)
    ensures AllFit(log + [f], table, |cells|)
    ensures SubtractAll(cells, table, log + [f]) == Subtracted(SubtractAll(cells, table, log), table, f)
  {
    assert (log + [f])[..|log|] == log;
  }

  /** The inverse of Subtracted. */
  ghost function Added(cells: seq<Cell>, table: seq<real>, f: Fit): (r: seq<Cell>)
    requires Fits(f, table, |cells|)
    ensures |r| == |cells|
  {
    seq(|cells|, q requires 0 <= q < |cells| =>
      var d := Off(First(f, |cells|), q, |cells|);
      if d <= f.size then With(cells[q], f.pol, PulseAt(table, f, d)) else cells[q])
  }

  ghost function AddAll(cells: seq<Cell>, table: seq<real>, log: seq<Fit>): (r: seq<Cell>)
    requires AllFit(log, table, |cells|)
    ensures |r| == |cells|
    decreases |log|
  {
    if log == [] then cells
    else AddAll(Added(cells, table, log[|log| - 1]), table, log[..|log| - 1])
  }

  lemma AddedUndoesSubtracted(cells: seq<Cell>, table: seq<real>, f: Fit)
    requires Fits(f, table, |cells|)
    ensures Added(Subtracted(cells, table, f), table, f) == cells
  {
    hide Off, First, PulseAt;
  }

  /** Nothing is lost: the cleaned ring plus all pulses of the log is the ring as received. */
  lemma {:induction false} PulsesPlusRestIsSignal(cells: seq<Cell>, table: seq<real>, log: seq<Fit>)
    requires AllFit(log, table, |cells|)
    ensures AddAll(SubtractAll(cells, table, log), table, log) == cells
  {
    if log != [] {
      var rest := log[..|log| - 1];
      AddedUndoesSubtracted(SubtractAll(cells, table, rest), table, log[|log| - 1]);
      PulsesPlusRestIsSignal(cells, table, rest);
    }
  }

  /** What a fit does to the polarised components of every cell of the ring. */
  lemma FitLowersAOnly(cells: seq<Cell>, table: seq<real>, f: Fit, q: nat)
    requires Fits(f, table, |cells|) && q < |cells| && f.pol.IsUnit()
    ensures var now, d := Subtracted(cells, table, f)[q], Off(First(f, |cells|), q, |cells|);
      && ComponentB(f.pol, now) == ComponentB(f.pol, cells[q])
      && ComponentA(f.pol, now) == (if d <= f.size then Minus(ComponentA(f.pol, cells[q]), PulseAt(table, f, d))
                                    else ComponentA(f.pol, cells[q]))
      && now.strongX == cells[q].strongX && now.strongY == cells[q].strongY
  {
    hide Off, First, PulseAt, ComponentA, ComponentB;
    var d := Off(First(f, |cells|), q, |cells|);
    if d <= f.size {
      SubtractionIsPolarised(f.pol, cells[q], PulseAt(table, f, d));
    }
  }
}
