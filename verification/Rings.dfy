/** Cyclic buffers.  Linrad stores every stream in a power-of-two ring and steps
    its pointers with a bit mask; a masked step is modelled as a step modulo the
    ring size n, and a stretch of the ring by distances from its first cell. */
module Rings {

  /** (p+1) & mask */
  function Next(p: nat, n: nat): (q: nat)
    requires p < n
    ensures q < n
  {
    if p + 1 == n then 0 else p + 1
  }

  /** (p+mask) & mask */
  function Prev(p: nat, n: nat): (q: nat)
    requires p < n
    ensures q < n && Next(q, n) == p
  {
    if p == 0 then n - 1 else p - 1
  }

  /** The number of steps forward from cell `base` to cell `q`: (q-base+size) & mask. */
  function Off(base: nat, q: nat, n: nat): (d: nat)
    requires base < n && q < n
    ensures d < n
  {
    if base <= q then q - base else q + n - base
  }

  /** The cell d steps after `base`. */
  function At(base: nat, d: nat, n: nat): (q: nat)
    requires base < n && d <= n
    ensures q < n
    ensures d < n ==> Off(base, q, n) == d
  {
    if base + d < n then base + d else base + d - n
  }

  /** The cell d steps before `base`. */
  function Back(base: nat, d: nat, n: nat): (q: nat)
    requires base < n && d <= n
    ensures q < n
    ensures d < n ==> Off(q, base, n) == d
  {
    if d <= base then base - d else base + n - d
  }

  /** One step of a pointer that walks the cells first, first+1, ... starting just before `first`. */
  lemma WalkStep(first: nat, j: nat, n: nat)
    requires first < n && j + 1 < n
    ensures At(Prev(first, n), 0, n) == Prev(first, n)
    ensures Next(At(Prev(first, n), j, n), n) == At(Prev(first, n), j + 1, n) == At(first, j, n)
    ensures forall q :: 0 <= q < n && Off(first, q, n) == j ==> q == At(first, j, n)
  {
  }

  /** A window of width cells on each side of p, walked with such a pointer. */
  lemma WindowEnds(p: nat, width: nat, n: nat)
    requires p < n && 2 * width + 1 < n
    ensures At(p, width, n) == At(Prev(Back(p, width, n), n), 2 * width + 1, n)
    ensures At(Prev(Back(p, width, n), n), 0, n) == Prev(Back(p, width, n), n)
  {
  }

  /** One more step away from p, in either direction. */
  lemma StepAway(p: nat, d: nat, n: nat)
    requires p < n && d + 1 < n
    ensures Next(At(p, d, n), n) == At(p, d + 1, n)
    ensures Prev(Back(p, d, n), n) == Back(p, d + 1, n)
    ensures forall q :: 0 <= q < n && Off(p, q, n) == d + 1 ==> q == At(p, d + 1, n)
    ensures forall q :: 0 <= q < n && Off(q, p, n) == d + 1 ==> q == Back(p, d + 1, n)
  {
  }

  /** `count` ring cells from lo on, as a sequence. */
  ghost function Unroll<T>(s: seq<T>, lo: nat, count: nat): (r: seq<T>)
    requires lo < |s| && count <= |s|
    ensures |r| == count
  {
    seq(count, i requires 0 <= i < count => s[At(lo, i, |s|)])
  }
}
