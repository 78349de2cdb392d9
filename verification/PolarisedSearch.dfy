/** The pulse search with polarisations from get_pulse_pol (blank1.c:1032): what every
    pulse that stands is polarised along, and what it takes from the signal. */
module PolarisedSearch {
  import opened Rings
  import opened PolarisedPulses
  import opened PulsePolarisation
  import opened PulseSearch

  /** The polarisation of the data in the pulse width around pMax. */
  ghost predicate IsPolarisationAt(cells: seq<Cell>, pMax: nat, width: nat, sqrt: real -> real, pol: Polarisation)
    requires IsSqrt(sqrt)
  {
    && pMax < |cells| && 2 * width + 1 <= |cells|
    && var m := WindowMoments(cells, Back(pMax, width, |cells|), 2 * width + 1);
       m.x2 + m.y2 > 0.0 && PolarisationOf(m, sqrt) == Some(pol)
  }

  lemma UnitPolarisation(cells: seq<Cell>, pMax: nat, width: nat, sqrt: real -> real, pol: Polarisation)
    requires IsSqrt(sqrt)
    ensures IsPolarisationAt(cells, pMax, width, sqrt, pol) ==> pol.IsUnit()
  {
    hide PolarisationOf, WindowMoments, Back;
  }

  /** The fits of the run take their polarisation from get_pulse_pol. */
  ghost predicate TakesPolarisation(run: BlankerRun, sqrt: real -> real)
    requires IsSqrt(sqrt)
  {
    forall cells, pMax: nat, size: nat :: |cells| == run.n && pMax < run.n && run.estimate(cells, pMax, size).Pulse? ==>
      IsPolarisationAt(cells, pMax, run.width, sqrt, run.estimate(cells, pMax, size).pol)
  }

  /** Every logged pulse is polarised like the data that the pulses before it had left. */
  ghost predicate ArePolarised(received: seq<Cell>, table: seq<real>, log: seq<Fit>, width: nat, sqrt: real -> real)
    requires IsSqrt(sqrt)
  {
    AllFit(log, table, |received|)
    && forall i :: 0 <= i < |log| ==>
         IsPolarisationAt(SubtractAll(received, table, log[..i]), log[i].pMax, width, sqrt, log[i].pol)
  }

  lemma OneMorePolarised(received: seq<Cell>, table: seq<real>, log: seq<Fit>, found: seq<Fit>, width: nat, sqrt: real -> real)
    requires IsSqrt(sqrt) && ArePolarised(received, table, log, width, sqrt)
    requires AllFit(log + found, table, |received|) && |found| <= 1
    requires found != [] ==> IsPolarisationAt(SubtractAll(received, table, log), found[0].pMax, width, sqrt, found[0].pol)
    ensures ArePolarised(received, table, log + found, width, sqrt)
  {
    hide SubtractAll, IsPolarisationAt, IsSqrt;
    forall i | 0 <= i < |log + found|
      ensures IsPolarisationAt(SubtractAll(received, table, (log + found)[..i]), (log + found)[i].pMax, width, sqrt, (log + found)[i].pol)
    {
      assert (log + found)[..i] == if i < |log| then log[..i] else log;
    }
  }

  lemma AcceptedIsPolarised(run: BlankerRun, cells: seq<Cell>, pwr: seq<real>, pMax: nat, sqrt: real -> real)
    requires IsSqrt(sqrt) && TakesPolarisation(run, sqrt)
    requires run.Valid() && |cells| == |pwr| == run.n && pMax < run.n && pwr[pMax] > 0.0
    ensures var found := run.AcceptedFit(cells, pwr, pMax);
      found != [] ==> IsPolarisationAt(cells, found[0].pMax, run.width, sqrt, found[0].pol)
  {
    hide IsPolarisationAt, IsSqrt, BlankerRun.ValidTables, BlankerRun.Stands, BlankerRun.BestSize, BlankerRun.SizeCount;
  }

  /** From s to t the search has logged what it accepts for the maximum at pMax. */
  ghost predicate Logs(run: BlankerRun, s: Stage, t: Stage, pMax: nat)
    requires run.Valid() && run.Ready(s)
  {
    pMax < run.n && s.pwr[pMax] > 0.0 && t.log == s.log + run.AcceptedFit(s.cells, s.pwr, pMax)
  }

  /** A round logs nothing, or what it accepts for some maximum of the data as they are. */
  lemma RoundLogs(run: BlankerRun, s: Stage)
    requires run.Valid() && run.Ready(s)
    ensures run.Round(s).log == s.log || exists pMax :: Logs(run, s, run.Round(s), pMax)
  {
    hide BlankerRun.ValidTables, Off, At, Next, Prev, BlankerRun.Peak, BlankerRun.IsRecord, BlankerRun.LastRecord;
    hide BlankerRun.ScanLength, BlankerRun.Marked, Coherent, Power, BlankerRun.FlagsOk, BlankerRun.Unflagged;
    hide BlankerRun.AcceptedFit, SubtractAll, BlankerRun.Flagged, BlankerRun.QuietEnd, BlankerRun.RiseEnd, BlankerRun.ScanOf;
    run.ReadyShape(s);
    var p := run.QuietEnd(s.pwr, s.flags, s.pf);
    if p != run.end {
      run.NotHalf(s.flags, p);
      run.ScanIsLoud(s.pwr, s.flags, p);
      var sc := run.ScanOf(s.pwr, s.flags, p);
      if sc.m == 0 && sc.flags[Prev(sc.pMax, run.n)] < 64 && Next(sc.pMax, run.n) != run.end
         && sc.flags[Next(sc.pMax, run.n)] < 64 {
        assert Logs(run, s, run.Round(s), sc.pMax);
      }
    }
  }

  lemma RoundIsPolarised(run: BlankerRun, received: seq<Cell>, s: Stage, sqrt: real -> real)
    requires IsSqrt(sqrt) && TakesPolarisation(run, sqrt)
    requires run.Valid() && run.IsSound(received, s) && ArePolarised(received, run.table, s.log, run.width, sqrt)
    ensures ArePolarised(received, run.table, run.Round(s).log, run.width, sqrt)
  {
    run.RoundIsSound(received, s);
    RoundLogs(run, s);
    hide BlankerRun.Round, BlankerRun.AcceptedFit, SubtractAll, TakesPolarisation, IsSqrt, IsPolarisationAt, ArePolarised;
    if run.Round(s).log != s.log {
      var pMax :| Logs(run, s, run.Round(s), pMax);
      AcceptedIsPolarised(run, s.cells, s.pwr, pMax, sqrt);
      OneMorePolarised(received, run.table, s.log, run.AcceptedFit(s.cells, s.pwr, pMax), run.width, sqrt);
    }
  }

  /** For a whole search: whatever it logs is polarised like the data it is taken from. */
  lemma {:induction false} SearchIsPolarised(run: BlankerRun, received: seq<Cell>, s: Stage, sqrt: real -> real)
    requires IsSqrt(sqrt) && TakesPolarisation(run, sqrt)
    requires run.Valid() && run.IsSound(received, s) && ArePolarised(received, run.table, s.log, run.width, sqrt)
    ensures run.Ready(s) && ArePolarised(received, run.table, run.SearchEnd(s).log, run.width, sqrt)
    decreases !s.done, run.Unflagged(s.flags), run.Pos(run.end) - run.Pos(s.pf)
  {
    hide BlankerRun.IsSound, BlankerRun.Round, BlankerRun.Unflagged, Off, TakesPolarisation, IsSqrt, ArePolarised;
    run.SoundIsReady(received, s);
    if !s.done {
      run.RoundProgress(s);
      run.RoundIsSound(received, s);
      RoundIsPolarised(run, received, s, sqrt);
      SearchIsPolarised(run, received, run.Round(s), sqrt);
    }
  }

  lemma WholeSearchIsPolarised(run: BlankerRun, cells: seq<Cell>, pwr: seq<real>, flags: seq<int>, sqrt: real -> real)
    requires IsSqrt(sqrt) && TakesPolarisation(run, sqrt)
    requires run.Valid() && |cells| == |pwr| == |flags| == run.n && Coherent(cells, pwr)
    ensures var s := run.Begun(cells, pwr, flags);
      run.Ready(s) && ArePolarised(cells, run.table, run.SearchEnd(s).log, run.width, sqrt)
  {
    run.BegunIsSound(cells, pwr, flags);
    hide BlankerRun.ClearedFlags, TakesPolarisation, IsSqrt, BlankerRun.IsSound;
    SearchIsPolarised(run, cells, run.Begun(cells, pwr, flags), sqrt);
  }

  lemma StepOfLog(received: seq<Cell>, table: seq<real>, log: seq<Fit>, i: nat)
    requires AllFit(log, table, |received|) && i < |log|
    ensures AllFit(log[..i], table, |received|) && AllFit(log[..i + 1], table, |received|) && Fits(log[i], table, |received|)
    ensures SubtractAll(received, table, log[..i + 1]) == Subtracted(SubtractAll(received, table, log[..i]), table, log[i])
  {
    hide Subtracted, Fits;
    assert log[..i + 1][..i] == log[..i];
  }

  /** The i-th logged pulse lowers component A along its own polarisation, by exactly the
      pulse; component B and the strong signals are left alone, at every point of the ring. */
  lemma EachPulseLowersAOnly(received: seq<Cell>, table: seq<real>, log: seq<Fit>, width: nat, sqrt: real -> real, i: nat, q: nat)
    requires IsSqrt(sqrt) && ArePolarised(received, table, log, width, sqrt)
    requires i < |log| && q < |received|
    ensures AllFit(log[..i], table, |received|) && AllFit(log[..i + 1], table, |received|)
    ensures var f := log[i];
      var was, now := SubtractAll(received, table, log[..i])[q], SubtractAll(received, table, log[..i + 1])[q];
      var d := Off(First(f, |received|), q, |received|);
      && ComponentB(f.pol, now) == ComponentB(f.pol, was)
      && ComponentA(f.pol, now) == (if d <= f.size then Minus(ComponentA(f.pol, was), PulseAt(table, f, d))
                                    else ComponentA(f.pol, was))
      && now.strongX == was.strongX && now.strongY == was.strongY
  {
    StepOfLog(received, table, log, i);
    var before := SubtractAll(received, table, log[..i]);
    assert log[i].pol.IsUnit() by {
      UnitPolarisation(before, log[i].pMax, width, sqrt, log[i].pol);
    }
    hide *;
    FitLowersAOnly(before, table, log[i], q);
  }
}
