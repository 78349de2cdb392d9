/** Reference pulses: how many there are, and the one nearest to a fitted position. */
module RefPulses {
  const MAX_REFPULSES := 256

  function Clamped(j: int): (c: nat)
    ensures c < MAX_REFPULSES
  {
    if j < 0 then 0 else if j >= MAX_REFPULSES then MAX_REFPULSES - 1 else j
  }

  lemma ClampedIsNearest(j: int, k: nat)
    requires k < 256
    ensures var c := Clamped(j); (if c >= j then c - j else j - c) <= (if k >= j then k - j else j - k)
  {
  }
}
