# Linrad in Dafny

A Dafny model of the parts of the SDR receiver Linrad that work on exact state: ring buffers
stepped by masked pointers, run-length indices, in-place tables and buffers, and the algebra of
the polarised noise blanker. The code that works step by step is modelled by classes, arrays and
loops; each method is tied to a function of its old state, and what the program promises is proved
about that function, for every input and every run.

| file | what it models |
|---|---|
| Rings.dfy, CArithmetic.dfy | masked ring steps; C division, remainders, bytes and shorts |
| PolarisedPulses.dfy, PulsePolarisation.dfy | subtracting and restoring a pulse in two channels, finding its polarisation |
| PulseSearch.dfy, PolarisedSearch.dfy | the pulse search of first_noise_blanker, and what its pulses are polarised along |
| ThresholdBlanker.dfy, NoiseBlanker.dfy | the threshold blanker, and both stages together |
| RefPulses.dfy, PulseIndex.dfy | the table of reference pulses that the search uses |
| Runs.dfy, KeyingRamps.dfy | baseb_ramp as a run-length index, filled and walked in a ring |
| MorseTimeline.dfy | the timeline cw[]: insertion, dash collection, elimination of close pairs |
| DashRanges.dfy | get_recent_dashes and get_old_dashes: where to look for more dashes, and the search |
| I2cBus.dfy, ElektorDriver.dfy | an I2C receiver after NXP UM10204, and the driver that talks to it |
| Preselector.dfy | guard entries and integer interpolation of the preselector table |
| AfedriStream.dfy | numbered UDP packets rebuilt into a sample ring |
| TemplateReplace.dfy | in-place template replacement of the configure program |
| CpuAllocator.dfy | cores for heavy threads, processor masks for all threads |

Samples are real numbers; 16-bit ramps, packet numbers, port bytes and register bytes have the
program's width. A square root is any function with the properties of one. What the pulse fit and
the dash fit make of the data are arbitrary functions of it.

## What the proofs show about the code

- The fallback in collect_ramp that sets baseb_pc to baseb_pe is reached only when the loop never
  ends (Runs.ResetNeverEnds). Without a long key-up ramp the loop ends only if the run at baseb_pe is
  so long that a step over it is not caught: it then goes on over old ramps (Runs.SearchEndsIff).
  The point it stops at is the newest point of the ramp, not its start as the comment at
  coherent.c:201 says.
- find_good_dashes stops appending if and only if the timeline fails check_cw at the start, or a dash
  it finds lies more than the negative limit above the one before, as when the backward walk crosses
  the start of the ring, or is one more than the table is made for; that dash is then the last one
  stored (MorseTimeline.FoundDashesAreLinked). insert_item tests for a full table after it has
  stored the part.
- The backward walk of find_good_dashes leaves at the first key-down run that ends before baseb_pe,
  but goes on past a run that ends so far before it that the ring test misses it
  (KeyingRamps.WalkBack). Where baseb_pe is not the last point of a key-up run, the walk never comes
  to rest on it: it leaves behind it, or goes on over old ramps (KeyingRamps.LeavesBehindIff).
- The guards of the preselector table can lie inside the stored settings when all values are equal
  and the frequencies spread over more than an octave (Preselector.GuardsEncloseIff).
- A stored preselector setting is lost at its own frequency where a guard falls on it, or where there
  is no line through the settings and it lies an octave or more above the lowest one
  (Preselector.SettingComesBackIff).
- The packet loop takes a resent or a lost packet for a jump close to the 16-bit wrap
  (AfedriStream.WrapIsSeenIff).
- The text replacement reads one character too many (TemplateReplace.OverrunLosesText).
- For an odd number of hyperthreaded processors and some rotations a processor is in no set at all
  (CpuAllocator.PartitionIff, CpuAllocator.Leaks).

## Model

| member | source | states |
|---|---|---|
| PolarisedPulses.SubtractionIsPolarised | blank1.c:331-343 | for any polarisation with c1^2+c2^2+c3^2=1, taking a pulse from X and Y lowers component A by exactly the pulse and leaves the orthogonal component B unchanged |
| PolarisedPulses.PowerSplits | blank1.c:511-518 | A and B together carry exactly the power of X and Y |
| PolarisedPulses.PowerAfterSubtraction | blank1.c:331-347 | the power left in a point is abs(A-a)^2+abs(B)^2, so no pulse takes it below the power of B |
| PolarisedPulses.RemovePulse | blank1.c:325-351 | the subtraction loop: exactly the size+1 points of the cyclic window lose their point of the pulse, each power cell of the window becomes the power of its samples, all else is unchanged; t3 and t4 are the window powers before and after |
| PolarisedPulses.RestorePulse | blank1.c:381-404 | the restoring loop is the exact inverse of the subtraction on the whole ring |
| PolarisedPulses.SubtractTwoChannelPulse | blank1.c:325-430 | the fit stands if and only if at most half the window's power is left; otherwise every sample of the ring is what it was and the window's power cells match the samples |
| PolarisedPulses.CoherenceIsKept | blank1.c:344-346 | power cells that agreed with their samples still do, and a rejected fit leaves them as they were |
| PolarisedPulses.AddedUndoesSubtracted | blank1.c:392-395 | adding a pulse back is the inverse of subtracting it, at every point of the ring |
| PolarisedPulses.PulsesPlusRestIsSignal | blank1.c:826-1046 | for any list of overlapping fits, the cleaned ring with all pulses added back in reverse order is the ring as received |
| PolarisedPulses.FitLowersAOnly | blank1.c:331-343 | for a whole ring: a fit changes A by its pulse inside its window and nothing else, and never B or the strong signals |
| PulsePolarisation.SumMoments | blank1.c:449-470 | the summing loop covers exactly 2*width+1 points around the maximum |
| PulsePolarisation.MomentsArePowers | blank1.c:465-466 | x2+y2 is the total power of the window, so the divisor t1 is zero only without signal |
| PulsePolarisation.Normalised | blank1.c:533-538 | the normalised coefficients satisfy c1^2+c2^2+c3^2=1 |
| PulsePolarisation.GetPulsePol | blank1.c:433-562 | on a window with signal the result is the polarisation of the window's sums, of unit length whenever there is one |
| PulsePolarisation.NoPolarisationIff | blank1.c:520-522 | no polarisation is found if and only if X2*Y2 less the squared overlap is more than 0.15 of the squared total power |
| PulsePolarisation.DirectionIs | blank1.c:523-540 | with signal in both antennas, c2 and c3 have the direction of the overlap, and c1 stands to them as the signal in X to that in Y, both less the common noise |
| PulsePolarisation.OneSourceMoments | blank1.c:439-447 | when all points carry one signal with Y = gX (or only Y), the summed moments are those of that one signal |
| PulsePolarisation.OneSourceIsFound | blank1.c:520-561 | for one source the noise test passes, and c2+i*c3 is c1 times the conjugate of g, whatever the square root used |
| PulsePolarisation.AllSignalInA | blank1.c:506-515 | then component B is zero at every point of the window and A has all the power: the design aim of the transformation |
| PulsePolarisation.TransformToA | blank1.c:565-590 | the transformed input holds component A of every point of the window, in order |
| PulseSearch.BlankerRun.SetFlag | blank1.c:611-676 | exact new flags: the value over the pulse width and over all points that fall strictly from there on both sides, inside the window |
| PulseSearch.BlankerRun.FallIsMaximal | blank1.c:635-640 | a fall below a cell is strict all the way and stops only at the start of the window or where power no longer falls |
| PulseSearch.BlankerRun.FallAboveIsMaximal | blank1.c:659-664 | the same above a cell, up to the end of the window |
| PulseSearch.BlankerRun.ReachBelowIs | blank1.c:630-648 | the flag covers the pulse width and exactly the fall below it, or the pulse width alone where that is not inside the window |
| PulseSearch.BlankerRun.ReachAboveIs | blank1.c:652-675 | the same above |
| PulseSearch.BlankerRun.SkipQuiet | blank1.c:826-838 | find_pulse stops at the first point that is loud and not flagged, or at the end |
| PulseSearch.BlankerRun.QuietEnd | blank1.c:828-832 | everything stepped over is quiet or flagged; what it stops at is neither, or the end |
| PulseSearch.BlankerRun.SkipToRise | blank1.c:889-904 | no_pulse stops at the first unflagged point above the point before it, or at the end |
| PulseSearch.BlankerRun.RiseEnd | blank1.c:889-904 | everything stepped over is flagged or not above the point before it, and what it stops at is neither, or the end; from a point not above the reference power it moves strictly forward |
| PulseSearch.BlankerRun.ScanRange | blank1.c:840-862 | exact outcome of the scan: the marked records, the largest unflagged power, its place and the count left over |
| PulseSearch.BlankerRun.ScanLength | blank1.c:851-861 | the scan stops at the window's end or range points after the last record, never later |
| PulseSearch.BlankerRun.MaximumIsSettled | blank1.c:840-883 | with m = 0 the maximum has its whole range inside the window and no unflagged point from the start of the scan through that range is larger |
| PulseSearch.BlankerRun.MeanPowers | blank1.c:972-1018 | mean power of each annulus around the maximum, up to the first fit size whose rest is negligible |
| PulseSearch.BlankerRun.ChooseSize | blank1.c:972-1024 | the largest fit size tried that is not too ugly, or none |
| PulseSearch.BlankerRun.SizeCountIs | blank1.c:979-993 | sizes are tried while the maximum's power times the rest outside is at least sizlim |
| PulseSearch.BlankerRun.SmoothIff | blank1.c:993-1022 | a size is taken if and only if the cells it adds on both sides have at most avgmax times the power of the maximum |
| PulseSearch.BlankerRun.CandidateIs | blank1.c:309-330 | the fit has the scale and polarisation found, and puts the middle of the reference pulse at the clamped position on the maximum, inside that pulse's part of the table |
| PulseSearch.BlankerRun.TryFit | blank1.c:1034-1043 | the fit is kept if and only if a pulse is found and takes at least half the power away; otherwise samples and powers are as before |
| PulseSearch.BlankerRun.FitMaximum | blank1.c:972-1046 | exact new samples, powers, flags and log for a settled maximum: flag 66 with the pulse subtracted or flag 65 with nothing changed |
| PulseSearch.BlankerRun.FindNext | blank1.c:826-1046 | one round from find_pulse to the next goto does exactly what the transition function Round says |
| PulseSearch.BlankerRun.RoundOutcome | blank1.c:826-1046 | from the first loud unflagged cell a round stops exactly if the scan is unsettled, the cell after the maximum is the end, or a neighbour is flagged and nothing rises any more; it goes to the first rise for any other maximum with a flagged neighbour, and fits the rest |
| PulseSearch.BlankerRun.RoundStopsIff | blank1.c:826-1046 | a round is the last one if and only if nothing is left to do in the window |
| PulseSearch.BlankerRun.FittedFlags | blank1.c:1034-1046 | the flag of a settled maximum is 66 if a pulse has been logged for it, else 65 with the samples unchanged |
| PulseSearch.BlankerRun.RoundProgress | blank1.c:826-1046 | termination measure: a round that goes on flags an unflagged point of the window or moves pf strictly forward, and takes no flag above 64 back |
| PulseSearch.BlankerRun.RoundIsSound | blank1.c:826-1046 | every round keeps: samples = received less the logged pulses, power cells = power of samples, distinct flagged maxima |
| PulseSearch.BlankerRun.SearchIsSound | blank1.c:826-1047 | the same at the end of every run |
| PulseSearch.BlankerRun.SearchStops | blank1.c:826-1047 | every search ends with a sound round after which nothing was left to do |
| PulseSearch.BlankerRun.ClearFlags | blank1.c:813-820 | exactly the flags of the window are cleared |
| PulseSearch.BlankerRun.Search | blank1.c:813-1047 | the search ends for any powers and any fit outcomes, in exactly the state its rounds lead to, when nothing is left to do in the window; fitted pulses are counted; samples, powers and maxima are sound |
| PolarisedSearch.SearchIsPolarised | blank1.c:1024-1047 | over a whole run, every pulse that stands is polarised along what get_pulse_pol finds in the data that the pulses before it left |
| PolarisedSearch.EachPulseLowersAOnly | blank1.c:331-343 | so each pulse of a run lowers component A along its own polarisation by exactly itself, and leaves component B and the strong signals alone at every point of the ring |
| ThresholdBlanker.Extent | blank1.c:1243-1248 | the number of points to clear never exceeds the maximum given, the 40 dB cap included |
| ThresholdBlanker.ExtentIsNearest | blank1.c:1243-1248 | it is the integer nearest to the maximum given times sqrt(t)/100, with t cut at 40 dB |
| ThresholdBlanker.ExtentRises | blank1.c:1243-1248 | it rises with the pulse and is the maximum given from 40 dB on |
| ThresholdBlanker.ClearBefore | blank1.c:1247-1259 | exactly count points before the pulse become zero |
| ThresholdBlanker.ClearAfter | blank1.c:1261-1273 | exactly count points from the first quiet one on become zero |
| ThresholdBlanker.EndPulse | blank1.c:1236-1275 | the end of a pulse does exactly what the transition function Ended says |
| ThresholdBlanker.SweepWindow | blank1.c:1206-1277 | the loop is the step-by-step sweep over the window's points, cleared points counted exactly |
| ThresholdBlanker.SweptIsRun | blank1.c:1206-1277 | invariant of every run: a point is untouched, or cleared within reach of a loud point; no inspected point is above the limit |
| ThresholdBlanker.PulseIsSilencedAround | blank1.c:1241-1274 | a pulse of more than four times the noise, met above the limit from its i-th point up to a quiet j-th one, is silent before and after at the end of the run, as far as the largest power received in it asks for |
| ThresholdBlanker.PulseUnderWay | blank1.c:1210-1235 | while a pulse is under way pk is its first point and the stored maximum is the largest power received in it |
| ThresholdBlanker.MetIsReceived | blank1.c:1206-1277 | the power that the run meets at a point is the one received, or the point has been cleared before |
| ThresholdBlanker.FaintPulseClearsNoMore | blank1.c:1238-1241 | a pulse of at most four times the noise clears no point around it |
| ThresholdBlanker.IsolatedPulseIsSilenced | blank1.c:1206-1277 | from the received powers alone: a pulse with no loud point shortly before it is silent around at the end of the run |
| ThresholdBlanker.Run | blank1.c:1050-1277 | exact new state; no window point after the first is left above the limit; nothing cleared means nothing changed |
| ThresholdBlanker.WhatRunLeaves | blank1.c:1206-1277 | point by point: loud points are cleared, strong signals untouched, power still re^2+im^2 where it was, and points out of reach of a loud one are as received |
| NoiseBlanker.FirstNoiseBlanker | blank1.c:682-1380 | both stages together: with too few new points nothing changes; otherwise what is left is the received signal less the logged pulses, cleared only near points still too strong, with coherent powers and no loud point left in the window; logged pulses are polarised like their data |
| NoiseBlanker.StrongSignalsStay | blank1.c:826-1277 | neither stage touches the strong signals anywhere in the ring |
| NoiseBlanker.ReceivedComesBack | blank1.c:826-1277 | if the search leaves no loud point, adding the logged pulses to the output gives the received ring |
| PulseIndex.FillHole | buf.c:1888-1900 | a hole of h slots takes the left value in its first h/2+1 (h even) or h/2 (h odd) slots and the right value in the rest, although the two fills cross |
| PulseIndex.FillStart | buf.c:1868-1876 | slots before the first pulse become 0 |
| PulseIndex.FillEnd | buf.c:1881-1888 | slots after the last pulse become the highest index |
| PulseIndex.Complete | buf.c:1865-1902 | for any table with a set slot the loop ends with every slot as the completed table says, set slots unchanged |
| PulseIndex.CompletedRises | buf.c:1865-1902 | if the set slots rise, the completed table rises and stays in range |
| PulseIndex.CompletedIsNear | buf.c:1865-1902 | a slot of a hole takes the value of the nearer set slot, the right one of two equally near, and in a hole of even length the first slot beyond the middle still the left one |
| PulseIndex.CompletedIsPulse | buf.c:1865-1902 | every completed slot is a valid pulse number |
| PulseIndex.TableHasPulses | buf.c:1822-1864 | at least one slot is always set, so the completion always ends |
| PulseIndex.BuildPulseIndex | buf.c:1822-1902 | the whole table is exact, in range, and rises whenever the pulses' positions do |
| Runs.JumpBack | coherent.c:161-190 | a ramp's magnitude is the length of the equal-decision run that ends there; stepping back by it lands on the last point of the opposite run |
| Runs.SignIsDecision | coherent.c:165-186 | a ramp is positive exactly where power exceeds the threshold, never zero |
| Runs.FilledIsIndexIffRunsFit | coherent.c:163-189 | the 16-bit ramps are a run-length index if and only if no run outgrows a short |
| Runs.SearchEndsIff | coherent.c:192-200 | for every ring content the step-back loop ends if and only if a long key-up ramp lies between baseb_pe and the newest point, or the step over the run at baseb_pe is not caught by the ring test and the loop ends from the old ramp it reaches |
| Runs.SearchEndsIffLongUp | coherent.c:192-200 | when the run at baseb_pe is shorter than the unused part of the ring, only a long key-up ramp in the index ends the loop |
| Runs.StepInIndex | coherent.c:193-199 | a step goes back by the run or, where that began before baseb_pe, to where a step from baseb_pe goes; it skips no long key-up ramp |
| Runs.StopsAtLast | coherent.c:191-200 | with a long key-up ramp in the index the loop stops at the last point of the last one |
| Runs.ResetNeverEnds | coherent.c:196-199 | where the step is reset to baseb_pe the loop never ends |
| Runs.DownEndsAreAll | cwspeed.c:516-538 | the listed ends are all ends of key-down runs in the range, each once, newest first |
| Runs.JumpToDown | cwspeed.c:518-522 | from a key-up point one jump reaches the end of the latest key-down run of the range, or passes the range when there is none |
| Runs.JumpToUp | cwspeed.c:537-537 | from the end of a key-down run one jump reaches the end of the key-up run before it and skips no other run, or passes the range when that run began before it |
| KeyingRamps.Baseband.FillRamps | coherent.c:161-190 | the filling loop writes exactly the new points, each ramp extending its predecessor's |
| KeyingRamps.FillExtendsIndex | coherent.c:161-190 | old ramps from baseb_pe on, if there are any, and new ones together are an index of all decisions, and the true run lengths, if and only if no run outgrows a short; after a reset the first ramp extends the one before baseb_pe |
| KeyingRamps.Baseband.FillAndIndex | coherent.c:161-190 | afterwards the ramps from baseb_pe to the newest point are the true signed run lengths |
| KeyingRamps.FindLongUp | coherent.c:191-200 | the loop takes exactly the steps of the reference search over the whole ring and stops where that first meets a long key-up ramp, whenever it ends at all |
| KeyingRamps.Baseband.StepToLongUp | coherent.c:191-200 | with a long key-up ramp in the index, of any length, baseb_pc moves to the last point of the last one |
| KeyingRamps.Baseband.CollectRamp | coherent.c:149-202 | collect_ramp: true ramps everywhere and baseb_pc on the last key-up ramp of at least 2.5 code units |
| KeyingRamps.Baseband.SetBasebPc | cwdetect.c:4272-4315 | set_baseb_pc: true ramps everywhere and baseb_pc on the newest key-up point; without one it steps over the run that covers everything |
| KeyingRamps.WalkBack | cwspeed.c:516-539 | the backward walk visits the end of every key-down run between ia and ic exactly once, newest first, for runs of any length; it leaves early if and only if a run ends before baseb_pe but inside the unused part of the ring, or it passes baseb_pe inside a key-down or key-up run, and has then visited all ends from baseb_pe on |
| KeyingRamps.LeavesBehindIff | cwspeed.c:516-539 | past baseb_pe the walk leaves with the next step over a key-up ramp if and only if the runs it steps over end inside the unused part of the ring |
| DashRanges.UpRunEnd | cwdetect.c:3281-3283 | the scan of get_recent_dashes ends on any ring with ramps of both kinds: over the rest of a key-down run, then a key-up run, then one back |
| DashRanges.UpRunEndInside | cwdetect.c:3281-3285 | with a later key-down run that is the last point of the first key-up run after the newest dash |
| DashRanges.UpRunEndBeyond | cwdetect.c:3281-3287 | without one it is baseb_pc itself, or a point behind it that the test of the distance turns away |
| DashRanges.RecentRunsAreNew | cwdetect.c:3276-3290 | the walk to that point meets exactly the key-down runs that begin after the newest dash |
| DashRanges.GetRecentDashes | cwdetect.c:3276-3291 | get_recent_dashes: either nothing changes, because no key-down run begins after the newest dash or the first lies too far back, or exactly the runs that begin after it are walked over, and the timeline is exact and checked |
| DashRanges.OldStartInside | cwdetect.c:3261-3265 | the scan of get_old_dashes ends on the last point of the key-up run behind the first key-down run |
| DashRanges.OldEnd | cwdetect.c:3266-3268 | its other end is the last point of the key-up run before the oldest dash, or before the run in front of it |
| DashRanges.GetOldDashes | cwdetect.c:3254-3274 | get_old_dashes: the range from behind the first key-down run to before the oldest dash; nothing changes when it is empty or the timeline would grow too long, otherwise the range is walked over and the timeline is exact and checked |
| MorseTimeline.LinkedChecksIff | cwspeed.c:69-110 | on a linked timeline check_cw fails exactly at a part of no length or at a step back over the start of the ring |
| MorseTimeline.AppendChecksIff | cwspeed.c:530-533 | an append passes check_cw if and only if the timeline did and the new midpoint is at most the negative limit above the last one |
| MorseTimeline.EvenStatesIsNearest | cwdetect.c:2665-2667 | the number of unknown states is the nearest even number |
| MorseTimeline.NewPartIs | cwdetect.c:2615-2667 | an inserted part keeps the type, midpoint and wave given, has the length of its type and the distance from its predecessor, and the nearest even number of unknown states between them |
| MorseTimeline.LinkedToIs | cwspeed.c:559-571 | a linked part gets the distance and the unknown states, and keeps the rest |
| MorseTimeline.Timeline.CheckCw | cwspeed.c:69-110 | check_cw fails exactly when some part or link is wrong |
| MorseTimeline.Timeline.InsertItem | cwdetect.c:2609-2673 | exact new timeline and error flag, for a full table too |
| MorseTimeline.ShiftUp | cwdetect.c:2627-2632 | the parts from cw_ptr on move up by one, the others stay |
| MorseTimeline.InsertKeepsLinks | cwdetect.c:2616-2667 | an insertion anywhere keeps every cached separation right |
| MorseTimeline.InsertSplitsGap | cwdetect.c:2616-2662 | an insertion splits the old separation with no loss around the ring, and with none at all if and only if the new midpoint lies between its neighbours |
| MorseTimeline.ReverseTail | cwspeed.c:545-558 | the swap loop reverses exactly the appended parts |
| MorseTimeline.LinkingLinks | cwspeed.c:559-571 | the last loop links a timeline whose head is linked, without moving a midpoint |
| MorseTimeline.Timeline.LinkTail | cwspeed.c:559-571 | the loop writes exactly those separations and states |
| MorseTimeline.Timeline.AppendDashes | cwspeed.c:516-538 | a dash is appended for exactly the key-down runs of 0.4 to 1.5 dash lengths that fit the waveform, until check_cw fails or the table is full |
| MorseTimeline.GoodDashesAre | cwspeed.c:508-534 | the dashes are, in order, exactly those of the visited run ends whose run has 0.4 to 1.5 dash lengths and whose fit, centred on the run, is above 0.82; each carries that fit's midpoint and wave |
| MorseTimeline.Timeline.FindGoodDashes | cwspeed.c:495-572 | walk, append, reverse and link together: exact new timeline and error flag, for every range of WalkBack and any number of dashes and free places |
| MorseTimeline.FoundDashesAreLinked | cwspeed.c:495-572 | the run is stopped if and only if the timeline does not pass check_cw, or some found dash jumps up or is one too many for the table; in every case old parts stay, the dashes through the first such follow, last one first, with their type, midpoint and wave, and a linked timeline stays linked |
| MorseTimeline.Timeline.RemovePair | cwspeed.c:671-692 | exact new timeline after a close pair is removed |
| MorseTimeline.ShiftDown | cwspeed.c:674-682 | the parts behind the pair move down by two |
| MorseTimeline.Timeline.Eliminate | cwspeed.c:666-696 | the pass is the recursive elimination, step by step |
| MorseTimeline.EliminationIsAScan | cwspeed.c:666-696 | the relinking in place never changes which dashes are kept: the pass is one scan over the original separations |
| MorseTimeline.PairRemovalKeepsOrder | cwspeed.c:671-692 | a removal keeps links, order around the ring and the spacing of the parts already passed |
| MorseTimeline.EliminationSpaces | cwspeed.c:664-696 | for midpoints in order around the ring, no two neighbouring dashes left are closer than 3 code units, although pairs made neighbours by a removal are not rechecked |
| MorseTimeline.EliminationNeedsOrder | cwspeed.c:664-696 | on a timeline longer than the ring this fails: four dashes, the two left over 1 unit apart |
| I2cBus.BitsRoundTrip | elektor.c:1238-1254 | the eight masked bits, highest first, are the byte |
| I2cBus.SeeByte | elektor.c:1238-1258 | a receiver gets exactly the byte that SetupBytes clocks out |
| I2cBus.SeeTransaction | elektor.c:1169-1175 | a receiver sees START, exactly the bytes, STOP, and no other event |
| I2cBus.SeeTransactions | elektor.c:1169-1187 | any list of transactions arrives complete and in order, with no other START or STOP |
| I2cBus.SdaIsStable | elektor.c:1169-1187 | in the levels of any list of transactions SDA moves under high SCL exactly twice a transaction, at its START and its STOP |
| I2cBus.SeeInit | elektor.c:1190-1194 | bringing the lines up is at most a STOP for an idle receiver |
| ElektorDriver.Elektor.SDA | elektor.c:1210-1222 | one port write; only the data line changes |
| ElektorDriver.Elektor.SCL | elektor.c:1224-1236 | one port write; only the clock line changes |
| ElektorDriver.Elektor.I2CInit | elektor.c:1190-1194 | the two writes of an idle bus |
| ElektorDriver.Elektor.Start | elektor.c:1196-1200 | the writes of a START condition |
| ElektorDriver.Elektor.Stop | elektor.c:1202-1208 | the writes of a STOP condition |
| ElektorDriver.Elektor.SetupBytes | elektor.c:1238-1258 | the 27 writes of a byte and its acknowledge clock; the other six port bits never change |
| ElektorDriver.Elektor.ChangeElektorFreq | elektor.c:1139-1188 | 317 writes that show exactly the three register transactions |
| ElektorDriver.WritesArrive | elektor.c:1139-1188 | whatever the port showed before, a receiver sees exactly these transactions in the writes, after a STOP if SDA was low, and ends idle |
| ElektorDriver.PllRoundTripIff | elektor.c:1140-1165 | the three registers decode back to FreqWanted if and only if 8 <= FreqWanted < 2056 |
| ElektorDriver.RegisterFields | elektor.c:1140-1165 | the charge pump steps up at 480, 640 and 800, and the third register carries 23 or 48 for the two ranges of the oscillator |
| ElektorDriver.Elektor.CalcBand | elektor.c:1388-1412 | the band reaches the frequency and no narrower band does, with its divider and VFO setting |
| ElektorDriver.Elektor.SetElektorFreq | elektor.c:1335-1358 | from 130 kHz to 30 MHz the divider sent is in the limits of the narrowest band, survives its registers and tunes to within half a step of the frequency asked for; outside it does so for the nearer end |
| ElektorDriver.TuningIsNearest | elektor.c:1335-1386 | every frequency from 130 kHz to 30 MHz is tuned to the nearest step of the narrowest band |
| Preselector.Highest | elektor.c:1563-1568 | the setting with the highest frequency |
| Preselector.AddGuardValues | elektor.c:1560-1590 | the stored settings are unchanged, no setting is below the lower guard, the guards enclose all settings if and only if there is at most one, or the values differ, or the frequencies stay within an octave; they lie on the line through the lowest and the highest setting, rounded inwards, or at half and twice the lowest frequency |
| Preselector.GuardsEncloseIff | elektor.c:1570-1589 | the same as a fact about the arithmetic: truncating divisions never put a guard inside the settings |
| Preselector.CalcPreselVal | elektor.c:1473-1513 | the preselector value is the interpolated one, and unchanged for frequency 0 |
| Preselector.InterpolateAt | elektor.c:1486-1511 | the table is never read past its end and the fallback for equal frequencies is never taken |
| Preselector.InterpolationIsExact | elektor.c:1473-1513 | for every calibration with its guards the value is in 0..255 for every frequency and equals the stored value at every stored frequency strictly between the guards |
| Preselector.InterpolationIsLinear | elektor.c:1486-1511 | between the guards the value is the one on the line between the two entries that frame the frequency, rounded down |
| Preselector.SettingComesBackIff | elektor.c:1473-1590 | a stored setting comes back at its own frequency if and only if no guard falls on it with another value, as a condition on the settings alone |
| Preselector.InterpolationRises | elektor.c:1473-1513 | for every calibration with its guards a higher frequency never gets a lower value |
| AfedriStream.WrapIsSeenIff | afedri.c:1453-1456 | the drop, fill and resync decision agrees with the distance around the 16-bit circle if and only if the numbers differ by at most 65511 |
| AfedriStream.Stream.WriteNarrow | afedri.c:1471-1475 | the payload's bytes go into the ring in order, wrapping |
| AfedriStream.Stream.WriteWide | afedri.c:1492-1499 | each three bytes become four with a zero first; the pointer stays a multiple of four |
| AfedriStream.WidenedAt | afedri.c:1492-1499 | byte by byte, each group of three follows a zero |
| AfedriStream.RingHolds | afedri.c:1471-1475 | each byte of the last time around is in its cell, counted on from the pointer |
| AfedriStream.RingKeeps | afedri.c:1471-1475 | the cells that the bytes do not reach stay as they were |
| AfedriStream.RingFour | afedri.c:1494-1498 | four bytes from an aligned pointer never cross the end of the ring |
| AfedriStream.ZeroSlot | afedri.c:1482-1489 | a lost packet is all zeros in both formats |
| AfedriStream.Stream.Receive | afedri.c:1453-1501 | one packet: exact new ring, pointer and expected number |
| AfedriStream.AddedIs | afedri.c:1447-1501 | a packet up to 24 late adds nothing, any other its payload behind zeros for the numbers skipped; one that is 25 or more away skips none and starts the stream anew |
| AfedriStream.Stream.ReceiveAll | afedri.c:1442-1501 | a whole run of packets: exact new ring, pointer and expected number |
| AfedriStream.ExpectedIsNext | afedri.c:1453-1477 | the expected number is always one above the highest number so far |
| AfedriStream.OneSlotPerNumber | afedri.c:1447-1501 | for a run without wrap and without jumps of 25 or more the ring gets one slot per number in order: the payload of the packet that came in time, zeros for a lost one, nothing for a resent one |
| TemplateReplace.ReplacesTheLeftmost | configure.c:73-112 | the reference: the text is cut at the leftmost non-overlapping matches and glued together again with the replacement |
| TemplateReplace.Text.Substitute | configure.c:82-106 | one substitution in place: the text in front stays, the replacement follows, the rest moves left or right, the cells behind are unchanged |
| TemplateReplace.Text.Round | configure.c:73-112 | one round keeps the search invariant or leaves the final text; the unread part shrinks |
| TemplateReplace.Text.ReplaceOne | configure.c:73-112 | exact text and length for one pattern, for every text, pattern and buffer, the overrun by one character included |
| TemplateReplace.ReplacedIff | configure.c:74-78 | the result is the leftmost replace-all if and only if the search does not take the character behind the text for the end of a match (or the overrun does not show) |
| TemplateReplace.OverrunLosesText | configure.c:74-81 | the pattern @M32@ and a text for which it is not: two matches in sequence, and the length becomes -1 |
| TemplateReplace.PlainEndHasNoOpenEnd | configure.c:62-114 | a text whose last character is in no pattern never comes to that, through all patterns |
| TemplateReplace.Text.Replace | configure.c:62-114 | then all patterns in turn give exactly the composed replace-all |
| CpuAllocator.AllocateCores | affinity.c:90-111 | the list of blocked cores is the order of cores cut at min(requested, cores), then -1 |
| CpuAllocator.NextFree | affinity.c:96-109 | the next free core, or none exactly when all cores are taken; ends for every number of cores |
| CpuAllocator.OrderIsComplete | affinity.c:89-111 | repeated halving reaches every core exactly once, for any number of cores, powers of two or not |
| CpuAllocator.SpreadByHalving | affinity.c:89-111 | the order handed out is by halving level and then by number |
| CpuAllocator.LightMask | affinity.c:117-131 | the light threads get exactly the turned processors that are not listed |
| CpuAllocator.TurnedIsModulo | affinity.c:127-143 | turning is addition modulo the number of cores or processors |
| CpuAllocator.HeavyMasks | affinity.c:139-148 | each heavy thread gets its turned core, with both processors of it under hyperthreading |
| CpuAllocator.PartitionIff | affinity.c:112-148 | light and heavy sets partition all processors if and only if there is no hyperthreading, or the number of processors is even, or no heavy thread is turned past the last core |
| CpuAllocator.Leaks | affinity.c:123-147 | otherwise some processor belongs to nobody |
| CpuAllocator.Affinity.SetMasks | affinity.c:50-163 | the whole routine: rotation, allocation, both kinds of masks and the partition condition |
| CpuAllocator.Affinity.Setup | affinity.c:166-174 | at start the sets always partition the processors |
| CpuAllocator.Affinity.Fix | affinity.c:177-190 | every fifth call turns by one core, the rotation stays below the number of cores, and with an even number of processors the sets are a partition again |

## Left out

- The 16-bit integer sample path and the one-channel path of the blanker; their restore loops (blank1.c:204, blank1.c:411) do not undo their subtractions.
- Rounding of floats: samples, powers, waveforms and times are reals.
- The phase fit and the choice of a reference pulse in subtract_twochan_pulse (blank1.c:232-312) and the dash fit: an arbitrary function of the data stands for each.
- The display variables timf2_findmax, timf2_display_maxval, maxpoint and the amplitude meters.
- The largest fit reads one complex point beyond its reference pulse (blank1.c:331-350); the pulse table is taken two floats longer than all pulses.
- PulseSearch.BlankerRun.Search: needs a ring of at least four pulse widths plus eight points, fit sizes that grow, and powers that match the samples at the start.
- KeyingRamps.Baseband.StepToLongUp: asks for a long key-up ramp after baseb_pe; the search that goes on over old ramps behind the newest point is covered by Runs.SearchEndsIff and KeyingRamps.FindLongUp.
- KeyingRamps.Baseband.CollectRamp: asks for the same, for at most the negative limit of points from baseb_pe, for at least one point to collect or collected before, and for no run longer than a short can hold (Runs.FilledIsIndexIffRunsFit).
- KeyingRamps.Baseband.SetBasebPc: asks for at least one point and for runs that a short can hold.
- KeyingRamps.WalkBack: takes ic at most the negative limit behind baseb_pe, and ia on the last point of a key-up run, or at baseb_pe inside a run that ends in the unused part of the ring (KeyingRamps.LeavesBehindIff); beyond that the source goes on over old ramps.
- DashRanges.GetRecentDashes: asks for a key-down run after the newest dash, or an old ramp behind baseb_pc that ends the key-up run there within the unused part of the ring.
- DashRanges.GetOldDashes: asks for a key-down run that begins before the oldest dash or with it, and for a second key-down run after baseb_px.
- MorseTimeline.Timeline.LinkTail: begins at index 1, where the source reads cw[-1] for the first part of an empty timeline.
- MorseTimeline.Timeline.AppendDashes: the walk over the ramps and the appending are two loops one after the other, where the source has one.
- MorseTimeline.Timeline.InsertItem: the raw wave that the source derives from the carrier when it is zero comes with the item; the table has a place for the one part too many that is stored before the count is tested, which max_cwdat does not count (baseb_graph.c:767).
- MorseTimeline.EliminationSpaces: asks for midpoints in order around the ring; MorseTimeline.EliminationNeedsOrder shows why.
- ElektorDriver.Elektor.SetElektorFreq: leaves out the aerial multiplexer, the preselector write and the USB transfer, and sends to a buffer that is large enough.
- update_presel_settings and reading of the preselector file: the table is taken as sorted.
- AfedriStream.OneSlotPerNumber: leaves out the 16-bit wrap and resynchronisation, which AfedriStream.Stream.ReceiveAll covers byte by byte.
- The packet header check, the socket and the consumer of the ring (finish_rx_read).
- TemplateReplace.Text.Replace: asks for a buffer that holds every intermediate text and for patterns of at least two characters; a read before the buffer when the text grows is guarded, the cells concerned are overwritten next.
- CpuAllocator.AllocateCores: starts at two cores, because with one the distance is zero at once and the search never moves; which threads are heavy and active, and that at least one is taken even for a limit of zero, is left out; their number is an input.
- CpuAllocator.Affinity.SetMasks: the array on the stack is taken to hold -1 behind the list where the list reaches beyond the cleared cells.
- FFTs, window design, curve fits, character guesses, screens, mouse and keyboard, parameter files, threads and device libraries.
