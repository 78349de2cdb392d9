/** first_noise_blanker as a whole (blank1.c:682-1278, two-channel float data): first the
    pulse search, then the threshold blanker on what the search has left. */
module NoiseBlanker {
  import opened Rings
  import opened PolarisedPulses
  import opened PulsePolarisation
  import opened PulseSearch
  import opened PolarisedSearch
  import opened ThresholdBlanker

  /** Every sample received is accounted for: less the logged pulses it is what is left,
      or it has been cleared near a point that was still too strong. */
  ghost predicate IsCleaned(w: Window, received: seq<Cell>, table: seq<real>, log: seq<Fit>,
                            now: seq<Cell>, nowPwr: seq<real>, limit: real, before: nat, after: nat)
    requires w.Valid() && AllFit(log, table, |received|)
  {
    var rest := SubtractAll(received, table, log);
    OnlyClearedNearLoud(w, rest, Powers(rest), now, nowPwr, limit, before, after)
  }

  lemma NoFits(cells: seq<Cell>, table: seq<real>, width: nat, sqrt: real -> real)
    requires IsSqrt(sqrt)
    ensures AllFit([], table, |cells|) && SubtractAll(cells, table, []) == cells
    ensures ArePolarised(cells, table, [], width, sqrt)
  {
  }

  lemma NothingCleared(w: Window, cells: seq<Cell>, pwr: seq<real>, limit: real, before: nat, after: nat)
    requires w.Valid() && |cells| == |pwr| == w.n
    ensures OnlyClearedNearLoud(w, cells, pwr, cells, pwr, limit, before, after)
  {
    assert forall q :: 0 <= q < w.n ==> Untouched(cells, pwr, cells, pwr, q);
  }

  lemma ClearingIsCoherent(w: Window, was: seq<Cell>, wasPwr: seq<real>, now: seq<Cell>, nowPwr: seq<real>,
                           limit: real, before: nat, after: nat)
    requires w.Valid() && OnlyClearedNearLoud(w, was, wasPwr, now, nowPwr, limit, before, after)
    requires Coherent(was, wasPwr)
    ensures Coherent(now, nowPwr)
  {
    forall q | 0 <= q < w.n
      ensures nowPwr[q] == Power(now[q])
    {
      assert Untouched(was, wasPwr, now, nowPwr, q) || Cleared(was, now, nowPwr, q);
    }
  }

  /** clever and stupid select the two stages; nothing is done for fewer than minPoints new points. */
  method FirstNoiseBlanker(run: BlankerRun, minPoints: real, clever: bool, stupid: bool, limit: real, noise: real,
                           sqrt: real -> real)
    returns (fitted: nat, cleared: nat, ghost log: seq<Fit>)
    requires run.Valid() && Coherent(run.cells[..], run.pwr[..])
    requires IsSqrt(sqrt) && limit >= 0.0 && noise > 0.0
    modifies run.cells, run.pwr, run.flag
    ensures fitted == |log| && AllFit(log, run.table, run.n) && (!clever ==> log == [])
    ensures Off(run.beg, run.end, run.n) as real < minPoints ==>
      && fitted == 0 == cleared && run.cells[..] == old(run.cells[..])
      && run.pwr[..] == old(run.pwr[..]) && run.flag[..] == old(run.flag[..])
    ensures IsCleaned(Window(run.n, run.beg, run.end), old(run.cells[..]), run.table, log, run.cells[..], run.pwr[..],
                      limit, (run.width + 1) / 2, run.width + 1)
    ensures stupid && Off(run.beg, run.end, run.n) as real >= minPoints ==>
      forall q :: 0 <= q < run.n && Window(run.n, run.beg, run.end).Has(q) ==> run.pwr[q] <= limit
    ensures cleared == 0 ==> run.cells[..] == SubtractAll(old(run.cells[..]), run.table, log)
    ensures Coherent(run.cells[..], run.pwr[..])
    ensures TakesPolarisation(run, sqrt) ==> ArePolarised(old(run.cells[..]), run.table, log, run.width, sqrt)
  {
    hide SubtractAll, Power, Off, OnlyClearedNearLoud, AllFit, IsSqrt, Swept, Powers, TakesPolarisation, ArePolarised;
    hide BlankerRun.SearchEnd, BlankerRun.IsFinished, BlankerRun.Begun, BlankerRun.Ready, BlankerRun.AreDistinctMaxima;
    ghost var received := run.cells[..];
    fitted, cleared, log := 0, 0, [];
    NoFits(received, run.table, run.width, sqrt);
    var w := Window(run.n, run.beg, run.end);
    if Off(run.beg, run.end, run.n) as real < minPoints {
      BlankerRun.CoherentIsPowers(received, run.pwr[..]);
      NothingCleared(w, received, run.pwr[..], limit, (run.width + 1) / 2, run.width + 1);
      return;
    }
    if clever {
      if TakesPolarisation(run, sqrt) {
        WholeSearchIsPolarised(run, run.cells[..], run.pwr[..], run.flag[..], sqrt);
      }
      fitted, log := run.Search();
    }
    ghost var rest, restPwr := run.cells[..], run.pwr[..];
    BlankerRun.CoherentIsPowers(rest, restPwr);
    if stupid {
      cleared := Run(w, run.cells, run.pwr, limit, run.width, noise, sqrt);
      ClearingIsCoherent(w, rest, restPwr, run.cells[..], run.pwr[..], limit, (run.width + 1) / 2, run.width + 1);
    } else {
      NothingCleared(w, rest, restPwr, limit, (run.width + 1) / 2, run.width + 1);
    }
  }

  /** Neither stage touches the strong signals, at any point of the ring. */
  lemma StrongSignalsStay(w: Window, received: seq<Cell>, table: seq<real>, log: seq<Fit>,
                          now: seq<Cell>, nowPwr: seq<real>, limit: real, before: nat, after: nat, q: nat)
    requires w.Valid() && AllFit(log, table, |received|) && q < |received|
    requires IsCleaned(w, received, table, log, now, nowPwr, limit, before, after)
    ensures |now| == |received|
    ensures now[q].strongX == received[q].strongX && now[q].strongY == received[q].strongY
  {
    var rest := SubtractAll(received, table, log);
    FitsKeepStrong(received, table, log, q);
    assert Untouched(rest, Powers(rest), now, nowPwr, q) || Cleared(rest, now, nowPwr, q);
  }

  lemma {:induction false} FitsKeepStrong(cells: seq<Cell>, table: seq<real>, log: seq<Fit>, q: nat)
    requires AllFit(log, table, |cells|) && q < |cells|
    ensures var rest := SubtractAll(cells, table, log);
      rest[q].strongX == cells[q].strongX && rest[q].strongY == cells[q].strongY
  {
    hide Off, First, PulseAt;
    if log != [] {
      FitsKeepStrong(cells, table, log[..|log| - 1], q);
    }
  }

  /** A point where nothing was cleared is the received point once the logged pulses are
      added back: nothing is lost, whatever pulses the search found. */
  lemma ReceivedComesBack(w: Window, received: seq<Cell>, table: seq<real>, log: seq<Fit>,
                          now: seq<Cell>, nowPwr: seq<real>, limit: real, before: nat, after: nat)
    requires w.Valid() && AllFit(log, table, |received|)
    requires IsCleaned(w, received, table, log, now, nowPwr, limit, before, after)
    requires var rest := Powers(SubtractAll(received, table, log));
      |rest| == w.n && forall q: nat :: w.Has(q) ==> rest[q] <= limit
    ensures AddAll(now, table, log) == received
  {
    var rest := SubtractAll(received, table, log);
    forall q | 0 <= q < w.n
      ensures now[q] == rest[q]
    {
      assert Untouched(rest, Powers(rest), now, nowPwr, q) || NearLoud(w, Powers(rest), limit, before, after, q);
    }
    assert now == rest;
    PulsesPlusRestIsSignal(received, table, log);
  }
}
